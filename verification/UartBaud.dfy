/** Auto-baud: the bit period from the first and fifth falling edges of a 0x55 byte. */
module UartBaud {
  import opened Arith
  import opened UartRx
  import opened UartFrames

  datatype Cal = Cal(locked: bool, div: nat, active: bool, cnt: nat, edge: int)

  // One clock. The counter has thirteen bits; when it is full the attempt is given up.
  function Clocked(c: Cal, before: bool, now: bool): Cal
  {
    var fall := before && !now;
    if c.locked then c
    else if !c.active then if fall then c.(active := true, cnt := 0, edge := 1) else c
    else
      var last := fall && c.edge == 4;
      Cal(last, if last then c.cnt / 8 else c.div, !last && c.cnt != 8191, (c.cnt + 1) % 8192,
          if fall && !last then c.edge + 1 else c.edge)
  }

  // The state n clocks after clock a.
  function State(c: Cal, line: Signal, a: int, n: nat): Cal
  {
    if n == 0 then c else Clocked(State(c, line, a, n - 1), line(a + n - 2), line(a + n - 1))
  }

  predicate Falls(line: Signal, i: int) { line(i - 1) && !line(i) }

  // Falling edges in the n clocks from a on.
  function Edges(line: Signal, a: int, n: nat): nat
  {
    if n == 0 then 0 else Edges(line, a, n - 1) + if Falls(line, a + n - 1) then 1 else 0
  }

  // From the first falling edge on, the counters are the clocks and edges since.
  lemma {:induction false} Counting(c: Cal, line: Signal, a: int, n: nat)
    requires !c.locked && !c.active && Falls(line, a) && 1 <= n <= 8192 && Edges(line, a, n) <= 4
    ensures State(c, line, a, n) == Cal(false, c.div, true, n - 1, Edges(line, a, n))
  {
    if n == 1 {
      assert Edges(line, a, 0) == 0 && State(c, line, a, 0) == c;
    } else {
      EdgesGrow(line, a, n - 1);
      Counting(c, line, a, n - 1);
    }
  }

  lemma EdgesGrow(line: Signal, a: int, n: nat)
    ensures Edges(line, a, n) <= Edges(line, a, n + 1)
  {
  }

  // e clocks after the first falling edge comes the fifth: the divisor is the number of whole
  // eighths of e - 1, so div + 1 is an eighth of e, rounded up.
  lemma LockRoundsUp(c: Cal, line: Signal, a: int, e: nat)
    requires !c.locked && !c.active && Falls(line, a) && 1 <= e <= 8192
    requires Edges(line, a, e) == 4 && Falls(line, a + e)
    ensures var r := State(c, line, a, e + 1);
      r.locked && 0 <= r.div <= 1023 && 8 * r.div < e <= 8 * (r.div + 1)
    ensures !State(c, line, a, e).locked
  {
    Counting(c, line, a, e);
    hide Edges;
  }

  // Eight bit periods between them give the bit period exactly.
  lemma LockExact(c: Cal, line: Signal, a: int, p: nat)
    requires !c.locked && !c.active && Falls(line, a) && 1 <= p <= 1024
    requires Edges(line, a, 8 * p) == 4 && Falls(line, a + 8 * p)
    ensures var r := State(c, line, a, 8 * p + 1); r.locked && r.div + 1 == p
  {
    LockRoundsUp(c, line, a, 8 * p);
  }

  // An attempt that has not seen the fifth edge when the counter is full is given up.
  lemma TimesOut(c: Cal, line: Signal, a: int)
    requires !c.locked && !c.active && Falls(line, a)
    requires Edges(line, a, 8192) <= 4 && !(Edges(line, a, 8192) == 4 && Falls(line, a + 8192))
    ensures var r := State(c, line, a, 8193); !r.locked && !r.active
  {
    Counting(c, line, a, 8192);
    hide Edges;
  }

  // 0x55, lowest bit first.
  const U: Bits := [true, false, true, false, true, false, true, false]

  // What its frame looks like: low in the even bits, high in the odd ones.
  lemma Alternates(j: int)
    requires 0 <= j <= 9
    ensures FrameBit(U, j) == (j % 2 == 1)
  {
  }

  lemma FrameLevel(line: Signal, t: int, p: nat, o: int)
    requires p > 0 && Carries(line, t, p, U) && line(t - 1) && -1 <= o < 10 * p
    ensures line(t + o) == (if o < 0 then true else (o / p) % 2 == 1)
  {
    if o >= 0 {
      QuotientRange(o, p, 0, 10);
      Alternates(o / p);
    }
  }

  // Its falling edges are at the beginnings of the even bits.
  lemma FrameFalls(line: Signal, t: int, p: nat, o: nat)
    requires p > 0 && Carries(line, t, p, U) && line(t - 1) && o < 10 * p
    ensures Falls(line, t + o) <==> (o == 0 || o == 2 * p || o == 4 * p || o == 6 * p || o == 8 * p)
  {
    hide Carries;
    FrameLevel(line, t, p, o);
    FrameLevel(line, t, p, o - 1);
    assert t + (o - 1) == t + o - 1;
    QuotientRange(o, p, 0, 10);
    BitEdge(o, p, o / p);
  }

  // The quotient grows by one exactly at the multiples of p.
  lemma BitEdge(o: int, p: int, j: int)
    requires p > 0 && 0 <= o && j == o / p && 0 <= j <= 9
    ensures o > 0 ==> (o - 1) / p == if o == j * p then j - 1 else j
    ensures j * p <= o < j * p + p
    ensures o == j * p <==> (o == 0 || o == p || o == 2 * p || o == 3 * p || o == 4 * p || o == 5 * p || o == 6 * p
      || o == 7 * p || o == 8 * p || o == 9 * p)
    ensures forall i :: 0 <= i <= 9 && o == i * p ==> j == i
  {
    var r := o % p;
    assert o == j * p + r;
    if o > 0 {
      if r == 0 {
        assert (j - 1) * p == j * p - p;
        DivMod(o - 1, p, j - 1, p - 1);
      } else {
        DivMod(o - 1, p, j, r - 1);
      }
    }
    forall i | 0 <= i <= 9 && o == i * p ensures j == i {
      DivMod(o, p, i, 0);
    }
  }

  function EdgesBy(p: nat, o: nat): nat
  {
    if o == 0 then 0 else if o <= 2 * p then 1 else if o <= 4 * p then 2 else if o <= 6 * p then 3
      else if o <= 8 * p then 4 else 5
  }

  lemma {:induction false} FrameEdgeCount(line: Signal, t: int, p: nat, o: nat)
    requires p > 0 && Carries(line, t, p, U) && line(t - 1) && o <= 10 * p
    ensures Edges(line, t, o) == EdgesBy(p, o)
  {
    hide Carries, Falls;
    if o > 0 {
      FrameEdgeCount(line, t, p, o - 1);
      FrameFalls(line, t, p, o - 1);
      assert t + (o - 1) == t + o - 1;
    }
  }

  // A 0x55 byte calibrates to its own bit period.
  lemma SelfCalibrates(c: Cal, line: Signal, t: int, p: nat)
    requires !c.locked && !c.active && 1 <= p <= 1024 && Carries(line, t, p, U) && line(t - 1)
    ensures var r := State(c, line, t, 8 * p + 1); r.locked && r.div + 1 == p
    ensures forall n :: 0 <= n <= 8 * p ==> !State(c, line, t, n).locked
  {
    hide Carries, Falls, State;
    FrameEdgeCount(line, t, p, 8 * p);
    FrameFalls(line, t, p, 0);
    FrameFalls(line, t, p, 8 * p);
    LockExact(c, line, t, p);
    forall n | 0 <= n <= 8 * p ensures !State(c, line, t, n).locked {
      if n == 0 {
        NoClock(c, line, t);
      } else {
        FrameEdgeCount(line, t, p, n);
        Counting(c, line, t, n);
      }
    }
  }

  lemma NoClock(c: Cal, line: Signal, a: int)
    ensures State(c, line, a, 0) == c
  {
  }

  // Nothing begins while the line stays high.
  lemma {:induction false} WaitsHigh(c: Cal, line: Signal, a: int, n: nat)
    requires !c.locked && !c.active && forall i :: a <= i < a + n ==> line(i)
    ensures State(c, line, a, n) == c
  {
    if n > 0 { WaitsHigh(c, line, a, n - 1); }
  }

  lemma {:induction false} StateAdd(c: Cal, line: Signal, a: int, n: nat, m: nat)
    ensures State(c, line, a, n + m) == State(State(c, line, a, n), line, a + n, m)
  {
    hide Clocked;
    if m > 0 { StateAdd(c, line, a, n, m - 1); }
  }
}
