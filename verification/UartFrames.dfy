/** 8N1 frames against a receiver with its own bit period: which clock mismatch is tolerated, and
    streams of frames. */
module UartFrames {
  import opened Arith
  import opened UartRx

  // Start bit, eight data bits, stop bit.
  function FrameBit(b: Bits, j: int): bool { if j == 0 then false else if 1 <= j <= 8 then b[j - 1] else true }

  // From clock t on the line carries b with a bit period of p clocks.
  predicate Carries(line: Signal, t: int, p: nat, b: Bits)
    requires p > 0
  {
    forall o :: 0 <= o < 10 * p ==> line(t + o) == FrameBit(b, o / p)
  }

  // Sender period p, receiver period q = div + 1, first sample s: all ten samples fall into
  // their own bits, and the last of them before the frame ends.
  predicate Tolerant(p: nat, div: nat)
  {
    var q, s := div + 1, FirstSample(div);
    s < p && 9 * (p - q) <= s && 9 * (q - p) + s < p
  }

  lemma SampleInBit(p: nat, div: nat, k: nat)
    requires Tolerant(p, div) && k <= 9
    ensures k * p <= Sample(div, k) < (k + 1) * p && Sample(div, k) / p == k && Sample(div, k) < 10 * p
  {
    SampleTime(div, k);
    InCell(p, div + 1, FirstSample(div), k);
    DivMod(Sample(div, k), p, k, Sample(div, k) - k * p);
    MulMono(k + 1, 10, p);
  }

  lemma InCell(p: int, q: int, s: int, k: nat)
    requires k <= 9 && 0 <= s < p && 9 * (p - q) <= s && 9 * (q - p) + s < p
    ensures k * p <= s + k * q < (k + 1) * p && (k + 1) * p == k * p + p
  {
    Drift(k, p - q, s);
    Drift(k, q - p, p - s - 1);
    assert k * (p - q) == k * p - k * q && k * (q - p) == k * q - k * p;
  }

  // A drift that is tolerable after nine bits is tolerable before.
  lemma Drift(k: nat, d: int, most: int)
    requires k <= 9 && 9 * d <= most && 0 <= most
    ensures k * d <= most
  {
    if d > 0 { MulMono(k, 9, d); } else { MulMono(d, 0, k); }
  }

  // The shift register holds what was sampled last.
  lemma {:induction false} SampledBits(div: nat, line: Signal, sr: Bits, t: int, k: nat)
    requires k <= 8
    ensures Sampled(div, line, sr, t, k) == sr[k..] + seq(k, i requires 0 <= i < k => line(t + Sample(div, i + 1)))
  {
    hide Sample;
    if k > 0 { SampledBits(div, line, sr, t, k - 1); }
  }

  lemma SampledByte(div: nat, line: Signal, sr: Bits, t: int, p: nat, b: Bits)
    requires p > 0 && Carries(line, t, p, b) && Tolerant(p, div)
    ensures Sampled(div, line, sr, t, 8) == b
  {
    hide Sample, Tolerant;
    SampledBits(div, line, sr, t, 8);
    forall i | 0 <= i < 8 ensures line(t + Sample(div, i + 1)) == b[i] {
      SampleInBit(p, div, i + 1);
      var o := Sample(div, i + 1);
      assert line(t + o) == FrameBit(b, o / p);
    }
  }

  // A frame sent within the tolerance: its byte is handed over, and before it ends the receiver
  // is ready for the next start bit.
  lemma FrameReceived(div: nat, line: Signal, r: Rx, t: int, p: nat, b: Bits)
    requires p > 0 && !r.busy && line(t - 1) && Carries(line, t, p, b) && Tolerant(p, div)
    ensures !After(div, line, r, t, 10 * p).busy && Delivered(div, line, r, t, 10 * p) == [b] && line(t + 10 * p - 1)
    ensures Delivered(div, line, r, t, Sample(div, 9)) == []
  {
    hide Tolerant, Sample, Sampled, After, Delivered;
    FrameEdges(div, line, t, p, b);
    FrameSampled(div, line, r, t);
    ReachesSample(div, line, r, t, 9);
    SampledByte(div, line, r.sr, t, p, b);
    var n := Sample(div, 9) + 1;
    var r1 := After(div, line, r, t, n);
    AfterAdd(div, line, r, t, n, 10 * p - n);
    StaysIdle(div, line, r1, t + n, 10 * p - n);
    assert [b] + [] == [b];
  }

  // Where the samples of a frame fall that matter for its start and its end.
  lemma FrameEdges(div: nat, line: Signal, t: int, p: nat, b: Bits)
    requires p > 0 && Carries(line, t, p, b) && Tolerant(p, div)
    ensures !line(t) && !line(t + FirstSample(div)) && line(t + Sample(div, 9)) && line(t + 10 * p - 1)
    ensures Sample(div, 9) < 10 * p && forall i :: t + Sample(div, 9) <= i < t + 10 * p ==> line(i)
  {
    hide Tolerant, Sample;
    SampleInBit(p, div, 0);
    SampleInBit(p, div, 9);
    FirstIsZero(div);
    DivMod(0, p, 0, 0);
    assert line(t + 0) == FrameBit(b, 0 / p);
    forall i | t + Sample(div, 9) <= i < t + 10 * p ensures line(i) {
      LastBit(i - t, p);
      assert line(t + (i - t)) == FrameBit(b, (i - t) / p);
    }
  }

  lemma FirstIsZero(div: nat)
    ensures Sample(div, 0) == FirstSample(div)
  {
  }

  lemma LastBit(o: int, p: nat)
    requires p > 0 && 9 * p <= o < 10 * p
    ensures o / p == 9
  {
    DivMod(o, p, 9, o - 9 * p);
  }

  // A byte with the idle clocks before it.
  datatype Spoken = Spoken(gap: nat, byte: Bits)

  function Bytes(fs: seq<Spoken>): (bs: seq<Bits>)
    ensures |bs| == |fs|
  {
    if fs == [] then [] else [fs[0].byte] + Bytes(fs[1..])
  }

  function Duration(p: nat, fs: seq<Spoken>): nat
  {
    if fs == [] then 0 else fs[0].gap + 10 * p + Duration(p, fs[1..])
  }

  // The line carries these frames one after the other from clock a on.
  predicate Speaks(line: Signal, p: nat, a: int, fs: seq<Spoken>)
    requires p > 0
    decreases |fs|
  {
    fs != [] ==>
      && (forall i :: a <= i < a + fs[0].gap ==> line(i))
      && Carries(line, a + fs[0].gap, p, fs[0].byte)
      && Speaks(line, p, a + fs[0].gap + 10 * p, fs[1..])
  }

  // Any byte sequence, back to back or not, is handed over in order.
  lemma {:induction false} StreamReceived(div: nat, line: Signal, r: Rx, a: int, p: nat, fs: seq<Spoken>)
    requires p > 0 && Tolerant(p, div) && !r.busy && line(a - 1) && Speaks(line, p, a, fs)
    ensures Delivered(div, line, r, a, Duration(p, fs)) == Bytes(fs)
    ensures !After(div, line, r, a, Duration(p, fs)).busy && line(a + Duration(p, fs) - 1)
    decreases |fs|
  {
    hide *;
    if fs != [] {
      var gap, b, rest := fs[0].gap, fs[0].byte, fs[1..];
      SpeaksFirst(line, p, a, fs);
      OneSpoken(div, line, r, a, p, gap, b);
      var m := gap + 10 * p;
      var r1 := After(div, line, r, a, m);
      StreamReceived(div, line, r1, a + m, p, rest);
      Joined(div, line, r, a, p, fs);
    } else {
      NothingSpoken(div, line, r, a, p);
    }
  }

  lemma NothingSpoken(div: nat, line: Signal, r: Rx, a: int, p: nat)
    ensures Duration(p, []) == 0 && Bytes([]) == [] && After(div, line, r, a, 0) == r
    ensures Delivered(div, line, r, a, 0) == []
  {
  }

  lemma SpeaksFirst(line: Signal, p: nat, a: int, fs: seq<Spoken>)
    requires p > 0 && fs != [] && Speaks(line, p, a, fs)
    ensures (forall i :: a <= i < a + fs[0].gap ==> line(i)) && Carries(line, a + fs[0].gap, p, fs[0].byte)
    ensures Speaks(line, p, a + (fs[0].gap + 10 * p), fs[1..])
  {
    hide Carries;
    assert a + fs[0].gap + 10 * p == a + (fs[0].gap + 10 * p);
  }

  lemma OneSpoken(div: nat, line: Signal, r: Rx, a: int, p: nat, gap: nat, b: Bits)
    requires p > 0 && Tolerant(p, div) && !r.busy && line(a - 1)
    requires (forall i :: a <= i < a + gap ==> line(i)) && Carries(line, a + gap, p, b)
    ensures Delivered(div, line, r, a, gap + 10 * p) == [b] && !After(div, line, r, a, gap + 10 * p).busy
    ensures line(a + (gap + 10 * p) - 1)
  {
    hide Tolerant, After, Delivered, Carries;
    StaysIdle(div, line, r, a, gap);
    FrameReceived(div, line, r, a + gap, p, b);
    AfterAdd(div, line, r, a, gap, 10 * p);
    assert [] + [b] == [b];
  }

  lemma Joined(div: nat, line: Signal, r: Rx, a: int, p: nat, fs: seq<Spoken>)
    requires fs != []
    requires var m := fs[0].gap + 10 * p; var r1 := After(div, line, r, a, m);
      && Delivered(div, line, r, a, m) == [fs[0].byte]
      && Delivered(div, line, r1, a + m, Duration(p, fs[1..])) == Bytes(fs[1..])
      && !After(div, line, r1, a + m, Duration(p, fs[1..])).busy && line(a + m + Duration(p, fs[1..]) - 1)
    ensures Delivered(div, line, r, a, Duration(p, fs)) == Bytes(fs)
    ensures !After(div, line, r, a, Duration(p, fs)).busy && line(a + Duration(p, fs) - 1)
  {
    hide After, Delivered;
    AfterAdd(div, line, r, a, fs[0].gap + 10 * p, Duration(p, fs[1..]));
  }

  // A line that carries one byte from clock 0 and is idle otherwise.
  function Lone(p: nat, b: Bits): Signal
    requires p > 0
  {
    (i: int) => if 0 <= i < 10 * p then FrameBit(b, i / p) else true
  }

  // An idle receiver takes the byte from the line and is ready when the frame ends.
  predicate Accepts(p: nat, div: nat, r: Rx, b: Bits)
    requires p > 0
  {
    !After(div, Lone(p, b), r, 0, 10 * p).busy && Delivered(div, Lone(p, b), r, 0, 10 * p) == [b]
  }

  const ONES: Bits := [true, true, true, true, true, true, true, true]
  const ZEROS: Bits := [false, false, false, false, false, false, false, false]

  // What is handed over by clock n is handed over by any later clock.
  lemma NothingEarlier(div: nat, line: Signal, r: Rx, a: int, n: nat, m: nat)
    requires n <= m && Delivered(div, line, r, a, m) == []
    ensures Delivered(div, line, r, a, n) == []
  {
    hide After, Delivered;
    AfterAdd(div, line, r, a, n, m - n);
  }

  lemma LoneBit(p: nat, b: Bits, i: int)
    requires p > 0
    ensures 0 <= i < p ==> !Lone(p, b)(i)
    ensures i < 0 || i >= 9 * p ==> Lone(p, b)(i)
    ensures b == ONES && i >= p ==> Lone(p, b)(i)
    ensures b == ZEROS && 0 <= i < 9 * p ==> !Lone(p, b)(i)
  {
    if 0 <= i < 10 * p {
      QuotientRange(i, p, 0, 10);
      if i < p {
        DivMod(i, p, 0, i);
      } else {
        QuotientRange(i, p, 1, 10);
      }
      if i >= 9 * p {
        LastBit(i, p);
      } else {
        QuotientRange(i, p, 0, 9);
      }
    }
  }

  // The first sample comes after the start bit: 0xFF looks like a false start.
  lemma TooLate(p: nat, div: nat, r: Rx)
    requires p > 0 && !r.busy && FirstSample(div) >= p
    ensures !Accepts(p, div, r, ONES)
  {
    hide After, Delivered, Lone;
    var line, s := Lone(p, ONES), FirstSample(div);
    LoneBit(p, ONES, -1);
    LoneBit(p, ONES, 0);
    LoneBit(p, ONES, s);
    FalseStart(div, line, r, 0);
    var n := s + 1;
    if n <= 10 * p {
      forall i | n <= i < 10 * p ensures !(line(i - 1) && !line(i)) { LoneBit(p, ONES, i); }
      StaysIdle(div, line, After(div, line, r, 0, n), n, 10 * p - n);
      AfterAdd(div, line, r, 0, n, 10 * p - n);
    } else {
      NothingEarlier(div, line, r, 0, 10 * p, n);
    }
  }

  // The stop sample comes in a data bit: 0x00 looks like a framing error.
  lemma TooFast(p: nat, div: nat, r: Rx)
    requires p > 0 && !r.busy && FirstSample(div) < p && 9 * (p - (div + 1)) > FirstSample(div)
    ensures !Accepts(p, div, r, ZEROS)
  {
    hide After, Delivered, Lone, Sample, Sampled;
    var line, s := Lone(p, ZEROS), FirstSample(div);
    SampleTime(div, 9);
    var n := Sample(div, 9) + 1;
    LoneBit(p, ZEROS, -1);
    LoneBit(p, ZEROS, 0);
    LoneBit(p, ZEROS, s);
    LoneBit(p, ZEROS, Sample(div, 9));
    FrameSampled(div, line, r, 0);
    forall i | n <= i < 10 * p ensures !(line(i - 1) && !line(i)) {
      LoneBit(p, ZEROS, i);
      LoneBit(p, ZEROS, i - 1);
    }
    StaysIdle(div, line, After(div, line, r, 0, n), n, 10 * p - n);
    AfterAdd(div, line, r, 0, n, 10 * p - n);
  }

  // The stop sample comes after the frame: the receiver is not ready for the next one.
  lemma TooSlow(p: nat, div: nat, r: Rx)
    requires p > 0 && !r.busy && FirstSample(div) < p && 9 * (div + 1 - p) + FirstSample(div) >= p
    ensures !Accepts(p, div, r, ONES)
  {
    hide After, Delivered, Lone, Sample, Sampled;
    var line, s := Lone(p, ONES), FirstSample(div);
    SampleTime(div, 9);
    LoneBit(p, ONES, -1);
    LoneBit(p, ONES, 0);
    LoneBit(p, ONES, s);
    ReachesSample(div, line, r, 0, 9);
    NothingEarlier(div, line, r, 0, 10 * p, Sample(div, 9));
  }

  // The tolerance is exact: within it every byte is accepted, outside it some byte is not.
  lemma ToleranceExact(p: nat, div: nat, r: Rx)
    requires p > 0 && !r.busy
    ensures Tolerant(p, div) <==> forall b: Bits :: Accepts(p, div, r, b)
  {
    if Tolerant(p, div) {
      forall b: Bits ensures Accepts(p, div, r, b) {
        var line := Lone(p, b);
        LoneBit(p, b, -1);
        assert Carries(line, 0, p, b);
        FrameReceived(div, line, r, 0, p, b);
      }
    } else {
      hide Accepts;
      if FirstSample(div) >= p {
        TooLate(p, div, r);
      } else if 9 * (p - (div + 1)) > FirstSample(div) {
        TooFast(p, div, r);
      } else {
        TooSlow(p, div, r);
      }
    }
  }

  // Sender and receiver with the same divisor tolerate each other from two clocks a bit on.
  lemma SameRate(div: nat)
    ensures Tolerant(div + 1, div) <==> div >= 1
  {
  }
}
