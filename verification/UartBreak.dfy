/** Break detection: one pulse for every low run of at least twelve bit periods. */
module UartBreak {
  import opened Arith
  import opened UartRx
  import opened UartFrames

  datatype Brk = Brk(timer: int, cnt: int, prev: bool)

  predicate Now(k: Brk) { k.cnt == 12 }
  predicate Pulses(k: Brk) { Now(k) && !k.prev }

  // One clock of the locked detector. The counter saturates at twelve.
  function Clocked(div: nat, k: Brk, rx: bool): Brk
  {
    if rx then Brk(0, 0, Now(k))
    else if k.timer == div then Brk(0, if Now(k) then k.cnt else k.cnt + 1, Now(k))
    else Brk(k.timer + 1, k.cnt, Now(k))
  }

  // The state n clocks after lock, in clock a.
  function State(div: nat, line: Signal, k: Brk, a: int, n: nat): Brk
  {
    if n == 0 then k else Clocked(div, State(div, line, k, a, n - 1), line(a + n - 1))
  }

  // How many clocks in a row the line has just been low, since lock.
  function Lows(line: Signal, a: int, n: nat): (l: nat)
    ensures l <= n
  {
    if n == 0 || line(a + n - 1) then 0 else Lows(line, a, n - 1) + 1
  }

  // The counters are the length of the low run in bit periods and clocks, up to twelve.
  predicate Counts(div: nat, k: Brk, lows: nat)
  {
    && 0 <= k.timer <= div && 0 <= k.cnt <= 12
    && (k.cnt < 12 ==> lows == k.cnt * (div + 1) + k.timer)
    && (k.cnt == 12 ==> lows >= 12 * (div + 1))
  }

  lemma CountOne(div: nat, k: Brk, lows: nat)
    requires Counts(div, k, lows)
    ensures Counts(div, Clocked(div, k, false), lows + 1)
    ensures Now(k) <==> lows >= 12 * (div + 1)
  {
    if k.cnt < 12 {
      assert (k.cnt + 1) * (div + 1) == k.cnt * (div + 1) + div + 1;
      MulMono(k.cnt + 1, 12, div + 1);
    }
  }

  lemma {:induction false} CountsHold(div: nat, line: Signal, a: int, n: nat)
    ensures Counts(div, State(div, line, Brk(0, 0, false), a, n), Lows(line, a, n))
    ensures n > 0 ==> State(div, line, Brk(0, 0, false), a, n).prev == (Lows(line, a, n - 1) >= 12 * (div + 1))
    ensures n == 0 ==> !State(div, line, Brk(0, 0, false), a, n).prev
  {
    if n == 0 {
      assert 0 * (div + 1) == 0;
    } else {
      CountsHold(div, line, a, n - 1);
      hide Counts;
      var k := State(div, line, Brk(0, 0, false), a, n - 1);
      CountOne(div, k, Lows(line, a, n - 1));
      if line(a + n - 1) { Restart(div, k); }
    }
  }

  lemma Restart(div: nat, k: Brk)
    ensures Counts(div, Clocked(div, k, true), 0)
  {
    assert 0 * (div + 1) == 0;
  }

  // In every clock after lock, brk is high exactly when the line has been low for twelve bit
  // periods and not a clock longer.
  lemma PulseExact(div: nat, line: Signal, a: int, n: nat)
    ensures Pulses(State(div, line, Brk(0, 0, false), a, n)) <==> Lows(line, a, n) == 12 * (div + 1)
  {
    CountsHold(div, line, a, n);
    hide Counts, State;
    CountOne(div, State(div, line, Brk(0, 0, false), a, n), Lows(line, a, n));
  }

  // Inside a low run that began n0 clocks after lock.
  lemma {:induction false} LowsInRun(line: Signal, a: int, n0: nat, n: nat)
    requires n0 <= n && (n0 == 0 || line(a + n0 - 1)) && forall i :: a + n0 <= i < a + n ==> !line(i)
    ensures Lows(line, a, n) == n - n0
  {
    if n > n0 { LowsInRun(line, a, n0, n - 1); }
  }

  /* A maximal low run from n0 up to n1 makes brk pulse once if it is at least twelve bit
     periods long, in the clock after the twelfth, and never if it is shorter. */
  lemma OncePerRun(div: nat, line: Signal, a: int, n0: nat, n1: nat, n: nat)
    requires n0 < n <= n1 && (n0 == 0 || line(a + n0 - 1)) && forall i :: a + n0 <= i < a + n1 ==> !line(i)
    ensures Pulses(State(div, line, Brk(0, 0, false), a, n)) <==> n == n0 + 12 * (div + 1)
  {
    LowsInRun(line, a, n0, n);
    PulseExact(div, line, a, n);
  }

  // No frame of a tolerated sender raises it, whatever the byte: at most nine of its bits are
  // low in a row.
  lemma FrameIsNoBreak(div: nat, line: Signal, a: int, n0: nat, p: nat, b: Bits, n: nat)
    requires p > 0 && Tolerant(p, div) && Carries(line, a + n0, p, b) && (n0 == 0 || line(a + n0 - 1))
    requires n0 < n <= n0 + 10 * p
    ensures !Pulses(State(div, line, Brk(0, 0, false), a, n))
  {
    PulseExact(div, line, a, n);
    if n <= n0 + 9 * p {
      LowsSince(line, a, n0, n);
    } else {
      LastBit(n - 1 - n0, p);
      assert a + n0 + (n - 1 - n0) == a + n - 1;
      assert line(a + n0 + (n - 1 - n0)) == FrameBit(b, 9);
    }
  }

  // A low run reaches back no further than the last high clock.
  lemma {:induction false} LowsSince(line: Signal, a: int, n0: nat, n: nat)
    requires n0 <= n && (n0 == 0 || line(a + n0 - 1))
    ensures Lows(line, a, n) <= n - n0
  {
    if n > n0 { LowsSince(line, a, n0, n - 1); }
  }

  // A break that begins while the receiver is idle hands over no byte, however long it is and
  // for as long as the line then stays high.
  lemma BreakDeliversNothing(div: nat, line: Signal, r: Rx, t: int, low: nat, n: nat)
    requires !r.busy && line(t - 1) && low >= 12 * (div + 1) && n >= low
    requires (forall i :: t <= i < t + low ==> !line(i)) && (forall i :: t + low <= i < t + n ==> line(i))
    ensures Delivered(div, line, r, t, n) == [] && !After(div, line, r, t, n).busy
  {
    hide After, Delivered, Sample, Sampled;
    SampleTime(div, 9);
    var m := Sample(div, 9) + 1;
    FrameSampled(div, line, r, t);
    StaysIdle(div, line, After(div, line, r, t, m), t + m, n - m);
    AfterAdd(div, line, r, t, m, n - m);
  }
}
