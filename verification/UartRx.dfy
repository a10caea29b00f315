/** The debug UART's receiver: one falling edge, then ten samples a bit period apart. */
module UartRx {

  // A byte on the line, lowest bit first.
  type Bits = b: seq<bool> | |b| == 8 witness [false, false, false, false, false, false, false, false]

  // The receive registers. bit is 0 for the start bit, 1 to 8 for data, 9 for the stop bit.
  datatype Rx = Rx(busy: bool, timer: int, bit: int, sr: Bits)

  // What the line carries in each clock.
  type Signal = int -> bool

  // One clock of the locked receiver: before is the line one clock ago, now the line.
  function Next(div: nat, r: Rx, before: bool, now: bool): Rx
  {
    if !r.busy && before && !now then r.(busy := true, timer := div / 2, bit := 0)
    else if r.busy then
      if r.timer == 0 then
        Rx(if r.bit == 0 then !now else r.bit != 9, div, r.bit + 1,
           if 1 <= r.bit <= 8 then r.sr[1..] + [now] else r.sr)
      else r.(timer := r.timer - 1)
    else r
  }

  // The clock in which a byte is handed over.
  predicate Delivers(r: Rx, now: bool) { r.busy && r.timer == 0 && r.bit == 9 && now }

  // The state n clocks after clock a.
  function After(div: nat, line: Signal, r: Rx, a: int, n: nat): Rx
  {
    if n == 0 then r else Next(div, After(div, line, r, a, n - 1), line(a + n - 2), line(a + n - 1))
  }

  // The bytes handed over in those clocks.
  function Delivered(div: nat, line: Signal, r: Rx, a: int, n: nat): seq<Bits>
  {
    if n == 0 then []
    else
      var s := After(div, line, r, a, n - 1);
      Delivered(div, line, r, a, n - 1) + if Delivers(s, line(a + n - 1)) then [s.sr] else []
  }

  // Clocks from the falling edge to the sample of bit 0, and to that of bit k.
  function FirstSample(div: nat): nat { 1 + div / 2 }
  function Sample(div: nat, k: nat): (n: nat)
    ensures n >= 1
  {
    if k == 0 then FirstSample(div) else Sample(div, k - 1) + div + 1
  }

  lemma {:induction false} SampleTime(div: nat, k: nat)
    ensures Sample(div, k) == FirstSample(div) + k * (div + 1)
  {
    if k > 0 {
      SampleTime(div, k - 1);
      assert k * (div + 1) == (k - 1) * (div + 1) + (div + 1);
    }
  }

  lemma {:induction false} AfterAdd(div: nat, line: Signal, r: Rx, a: int, n: nat, m: nat)
    ensures After(div, line, r, a, n + m) == After(div, line, After(div, line, r, a, n), a + n, m)
    ensures Delivered(div, line, r, a, n + m)
         == Delivered(div, line, r, a, n) + Delivered(div, line, After(div, line, r, a, n), a + n, m)
  {
    hide Next;
    if m > 0 {
      AfterAdd(div, line, r, a, n, m - 1);
    }
  }

  lemma OneClock(div: nat, line: Signal, r: Rx, a: int)
    ensures After(div, line, r, a, 1) == Next(div, r, line(a - 1), line(a))
    ensures Delivered(div, line, r, a, 1) == if Delivers(r, line(a)) then [r.sr] else []
  {
    hide Next;
    assert After(div, line, r, a, 0) == r && Delivered(div, line, r, a, 0) == [];
  }

  // The timer runs down and nothing else happens.
  lemma {:induction false} CountDown(div: nat, line: Signal, r: Rx, a: int, n: nat)
    requires r.busy && 0 <= n <= r.timer
    ensures After(div, line, r, a, n) == r.(timer := r.timer - n) && Delivered(div, line, r, a, n) == []
  {
    if n > 0 { CountDown(div, line, r, a, n - 1); }
  }

  // One bit period, from one sample to the next.
  lemma NextSample(div: nat, line: Signal, r: Rx, a: int)
    requires r.busy && r.timer == 0 && r.bit < 9 && (r.bit == 0 ==> !line(a))
    ensures After(div, line, r, a, div + 1)
         == Rx(true, 0, r.bit + 1, if 1 <= r.bit <= 8 then r.sr[1..] + [line(a)] else r.sr)
    ensures Delivered(div, line, r, a, div + 1) == []
  {
    var s := Next(div, r, line(a - 1), line(a));
    OneClock(div, line, r, a);
    AfterAdd(div, line, r, a, 1, div);
    CountDown(div, line, s, a + 1, div);
  }

  // The shift register after k data samples.
  function Sampled(div: nat, line: Signal, sr: Bits, t: int, k: nat): Bits
  {
    if k == 0 then sr else Sampled(div, line, sr, t, k - 1)[1..] + [line(t + Sample(div, k))]
  }

  // From the falling edge at clock t: the k-th sample is taken Sample(k) clocks later.
  lemma {:induction false} ReachesSample(div: nat, line: Signal, r: Rx, t: int, k: nat)
    requires !r.busy && line(t - 1) && !line(t) && k <= 9 && (k > 0 ==> !line(t + FirstSample(div)))
    ensures After(div, line, r, t, Sample(div, k))
      == Rx(true, 0, k, Sampled(div, line, r.sr, t, if k == 0 then 0 else k - 1))
    ensures Delivered(div, line, r, t, Sample(div, k)) == []
  {
    hide *;
    Unrolled(div, line, r.sr, t, k);
    if k == 0 {
      StartEdge(div, line, r, t);
    } else {
      ReachesSample(div, line, r, t, k - 1);
      OnePeriod(div, line, r, t, Sample(div, k - 1), k - 1, Sampled(div, line, r.sr, t, if k < 2 then 0 else k - 2));
    }
  }

  lemma Unrolled(div: nat, line: Signal, sr: Bits, t: int, k: nat)
    ensures Sample(div, k) == if k == 0 then FirstSample(div) else Sample(div, k - 1) + div + 1
    ensures k == 1 ==> Sample(div, 0) == FirstSample(div)
    ensures k < 2 ==> Sampled(div, line, sr, t, 0) == sr
    ensures k >= 2 ==>
      Sampled(div, line, sr, t, k - 1) == Sampled(div, line, sr, t, k - 2)[1..] + [line(t + Sample(div, k - 1))]
  {
  }

  // From the sample of one bit to that of the next.
  lemma OnePeriod(div: nat, line: Signal, r: Rx, t: int, n: nat, bit: nat, sr: Bits)
    requires bit < 9 && After(div, line, r, t, n) == Rx(true, 0, bit, sr) && Delivered(div, line, r, t, n) == []
    requires bit == 0 ==> !line(t + n)
    ensures After(div, line, r, t, n + div + 1) == Rx(true, 0, bit + 1, if bit > 0 then sr[1..] + [line(t + n)] else sr)
    ensures Delivered(div, line, r, t, n + div + 1) == []
  {
    hide Next, After, Delivered;
    AfterAdd(div, line, r, t, n, div + 1);
    NextSample(div, line, Rx(true, 0, bit, sr), t + n);
    assert n + (div + 1) == n + div + 1;
  }

  lemma StartEdge(div: nat, line: Signal, r: Rx, t: int)
    requires !r.busy && line(t - 1) && !line(t)
    ensures After(div, line, r, t, FirstSample(div)) == Rx(true, 0, 0, r.sr)
    ensures Delivered(div, line, r, t, FirstSample(div)) == []
  {
    OneClock(div, line, r, t);
    var s := Next(div, r, line(t - 1), line(t));
    AfterAdd(div, line, r, t, 1, div / 2);
    CountDown(div, line, s, t + 1, div / 2);
  }

  // A whole frame: the byte of the eight data samples, handed over exactly when the stop sample
  // is high; the receiver is idle again one clock later.
  lemma FrameSampled(div: nat, line: Signal, r: Rx, t: int)
    requires !r.busy && line(t - 1) && !line(t) && !line(t + FirstSample(div))
    ensures var n := Sample(div, 9) + 1;
      && !After(div, line, r, t, n).busy
      && Delivered(div, line, r, t, n) == if line(t + Sample(div, 9)) then [Sampled(div, line, r.sr, t, 8)] else []
  {
    ReachesSample(div, line, r, t, 9);
  }

  // A false start: the line is high again at the first sample.
  lemma FalseStart(div: nat, line: Signal, r: Rx, t: int)
    requires !r.busy && line(t - 1) && !line(t) && line(t + FirstSample(div))
    ensures var n := FirstSample(div) + 1;
      !After(div, line, r, t, n).busy && Delivered(div, line, r, t, n) == []
  {
    ReachesSample(div, line, r, t, 0);
    assert Sample(div, 0) == FirstSample(div);
  }

  // Without a falling edge an idle receiver stays as it is.
  lemma {:induction false} StaysIdle(div: nat, line: Signal, r: Rx, a: int, n: nat)
    requires !r.busy && forall i :: a <= i < a + n ==> !(line(i - 1) && !line(i))
    ensures After(div, line, r, a, n) == r && Delivered(div, line, r, a, n) == []
  {
    if n > 0 { StaysIdle(div, line, r, a, n - 1); }
  }
}
