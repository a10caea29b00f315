/** The debug UART's transmitter, and transmitter and receiver of the same divisor joined. */
module UartTx {
  import opened Arith
  import opened UartRx
  import opened UartFrames

  // bit counts 0 to 7 for the data bit that comes next, 8 for the stop bit, 9 for done.
  datatype Tx = Tx(busy: bool, timer: int, bit: int, sr: Bits, pin: bool)

  datatype Write = NoWrite | WriteByte(byte: Bits)
  type Writes = int -> Write

  // One clock of the locked transmitter.
  function Clocked(div: nat, t: Tx, w: Write): Tx
  {
    if !t.busy && w.WriteByte? then Tx(true, div, 0, w.byte, false)
    else if t.busy then
      if t.timer == 0 then
        if t.bit <= 7 then Tx(true, div, t.bit + 1, t.sr[1..] + [false], t.sr[0])
        else if t.bit == 8 then t.(timer := div, bit := t.bit + 1, pin := true)
        else t.(busy := false, timer := div, bit := t.bit + 1)
      else t.(timer := t.timer - 1)
    else t
  }

  // The state in clock n of a run that begins in clock 0.
  function State(div: nat, ws: Writes, t: Tx, n: nat): Tx
  {
    if n == 0 then t else Clocked(div, State(div, ws, t, n - 1), ws(n - 1))
  }

  // The bytes taken from the processor before clock n.
  function Accepted(div: nat, ws: Writes, t: Tx, n: nat): seq<Bits>
  {
    if n == 0 then []
    else Accepted(div, ws, t, n - 1)
         + if !State(div, ws, t, n - 1).busy && ws(n - 1).WriteByte? then [ws(n - 1).byte] else []
  }

  // What the shift register holds when k bits have gone out.
  function Rest(b: Bits, k: nat): Bits
    requires k <= 8
  {
    b[k..] + seq(k, i requires 0 <= i < k => false)
  }

  // The transmitter i clocks into bit j of the frame.
  function InBit(div: nat, b: Bits, j: nat, i: int): Tx
    requires j <= 9
  {
    Tx(true, div - i, j, Rest(b, if j <= 8 then j else 8), FrameBit(b, j))
  }

  // The transmitter o clocks into the frame of b.
  function InFrame(div: nat, b: Bits, o: nat): Tx
    requires o < 10 * (div + 1)
  {
    var p := div + 1;
    QuotientRange(o, p, 0, 10);
    InBit(div, b, o / p, o % p)
  }

  lemma BitClock(div: nat, b: Bits, j: nat, i: int, w: Write)
    requires j <= 9 && 0 <= i <= div
    ensures i < div ==> Clocked(div, InBit(div, b, j, i), w) == InBit(div, b, j, i + 1)
    ensures i == div && j < 9 ==> Clocked(div, InBit(div, b, j, i), w) == InBit(div, b, j + 1, 0)
    ensures i == div && j == 9 ==>
      !Clocked(div, InBit(div, b, j, i), w).busy && Clocked(div, InBit(div, b, j, i), w).pin
  {
  }

  // One clock further into the frame.
  lemma FrameClock(div: nat, b: Bits, o: nat, w: Write)
    requires o < 10 * (div + 1)
    ensures o + 1 < 10 * (div + 1) ==> Clocked(div, InFrame(div, b, o), w) == InFrame(div, b, o + 1)
    ensures o + 1 == 10 * (div + 1) ==>
      !Clocked(div, InFrame(div, b, o), w).busy && Clocked(div, InFrame(div, b, o), w).pin
  {
    hide Clocked, InBit;
    var p := div + 1;
    QuotientRange(o, p, 0, 10);
    var j, i := o / p, o % p;
    assert o == j * p + i;
    BitClock(div, b, j, i, w);
    NextOffset(o, p, j, i);
  }

  lemma NextOffset(o: int, p: int, j: int, i: int)
    requires p > 0 && 0 <= i < p && o == j * p + i && 0 <= j <= 9
    ensures i < p - 1 ==> (o + 1) / p == j && (o + 1) % p == i + 1 && o + 1 < 10 * p
    ensures i == p - 1 ==>
      (o + 1) / p == j + 1 && (o + 1) % p == 0 && (o + 1 < 10 * p <==> j < 9) && (o + 1 == 10 * p <==> j == 9)
  {
    assert (j + 1) * p == j * p + p;
    MulMono(j + 1, 10, p);
    if i < p - 1 {
      DivMod(o + 1, p, j, i + 1);
    } else {
      DivMod(o + 1, p, j + 1, 0);
      if j < 9 { MulMono(j + 1, 9, p); }
    }
  }

  lemma FrameStarts(div: nat, b: Bits, t: Tx, w: Write)
    requires !t.busy && w == WriteByte(b)
    ensures Clocked(div, t, w) == InFrame(div, b, 0)
  {
    DivMod(0, div + 1, 0, 0);
    assert Rest(b, 0) == b;
  }

  lemma Unroll(div: nat, ws: Writes, t: Tx, n: nat)
    ensures State(div, ws, t, n + 1) == Clocked(div, State(div, ws, t, n), ws(n))
  {
  }

  // A write to an idle transmitter puts a frame of div + 1 clocks a bit on the pin, whatever
  // is written meanwhile, and leaves it idle and high.
  lemma {:induction false} FrameSent(div: nat, ws: Writes, t: Tx, w: nat, o: nat)
    requires !State(div, ws, t, w).busy && ws(w).WriteByte? && o <= 10 * (div + 1)
    ensures o < 10 * (div + 1) ==> State(div, ws, t, w + 1 + o) == InFrame(div, ws(w).byte, o)
    ensures o == 10 * (div + 1) ==> !State(div, ws, t, w + 1 + o).busy && State(div, ws, t, w + 1 + o).pin
  {
    hide *;
    var b := ws(w).byte;
    if o == 0 {
      Unroll(div, ws, t, w);
      FrameStarts(div, b, State(div, ws, t, w), ws(w));
    } else {
      FrameSent(div, ws, t, w, o - 1);
      FrameClock(div, b, o - 1, ws(w + o));
      Unroll(div, ws, t, w + o);
    }
  }

  // While the transmitter is busy it is in the frame of the last byte it accepted.
  lemma {:induction false} LastStart(div: nat, ws: Writes, t: Tx, n: nat) returns (w: nat)
    requires !t.busy && State(div, ws, t, n).busy
    ensures w < n <= w + 10 * (div + 1) && !State(div, ws, t, w).busy && ws(w).WriteByte?
  {
    if !State(div, ws, t, n - 1).busy {
      w := n - 1;
    } else {
      w := LastStart(div, ws, t, n - 1);
      if n == w + 1 + 10 * (div + 1) {
        FrameSent(div, ws, t, w, 10 * (div + 1));
      }
    }
  }

  // The transmitter's pin as a line; before the run it is high.
  function Pin(div: nat, ws: Writes, t: Tx): Signal
  {
    (i: int) => if i < 0 then true else State(div, ws, t, i).pin
  }

  lemma PinCarries(div: nat, ws: Writes, t: Tx, w: nat)
    requires !State(div, ws, t, w).busy && ws(w).WriteByte?
    ensures Carries(Pin(div, ws, t), w + 1, div + 1, ws(w).byte)
  {
    hide State, FrameBit, InFrame, Pin;
    var p := div + 1;
    forall o | 0 <= o < 10 * p ensures Pin(div, ws, t)(w + 1 + o) == FrameBit(ws(w).byte, o / p) {
      PinAt(div, ws, t, w, o);
    }
  }

  lemma PinAt(div: nat, ws: Writes, t: Tx, w: nat, o: nat)
    requires !State(div, ws, t, w).busy && ws(w).WriteByte? && o < 10 * (div + 1)
    ensures Pin(div, ws, t)(w + 1 + o) == FrameBit(ws(w).byte, o / (div + 1))
  {
    hide State, FrameBit, InFrame;
    FrameSent(div, ws, t, w, o);
    FramePin(div, ws(w).byte, o);
  }

  lemma FramePin(div: nat, b: Bits, o: nat)
    requires o < 10 * (div + 1)
    ensures InFrame(div, b, o).busy && InFrame(div, b, o).pin == FrameBit(b, o / (div + 1))
  {
    hide FrameBit, Rest;
  }

  // During a frame nothing else is accepted.
  lemma {:induction false} BusyAcceptsNothing(div: nat, ws: Writes, t: Tx, w: nat, o: nat)
    requires !State(div, ws, t, w).busy && ws(w).WriteByte? && o <= 10 * (div + 1)
    ensures Accepted(div, ws, t, w + 1 + o) == Accepted(div, ws, t, w) + [ws(w).byte]
    decreases o
  {
    if o > 0 {
      BusyAcceptsNothing(div, ws, t, w, o - 1);
      FrameSent(div, ws, t, w, o - 1);
      assert Accepted(div, ws, t, w + 1 + o) == Accepted(div, ws, t, w + o) + [];
    }
  }

  /* Transmitter and receiver joined: whenever the transmitter is between frames, the receiver
     is too, and it has handed over exactly the bytes that were accepted, in their order,
     back-to-back frames included. */
  lemma {:induction false} Loopback(div: nat, ws: Writes, t: Tx, r: Rx, n: nat)
    requires div >= 1 && !t.busy && t.pin && !r.busy && !State(div, ws, t, n).busy
    ensures State(div, ws, t, n).pin && !After(div, Pin(div, ws, t), r, 0, n).busy
    ensures Delivered(div, Pin(div, ws, t), r, 0, n) == Accepted(div, ws, t, n)
    decreases n
  {
    hide *;
    if n == 0 {
      Beginning(div, ws, t, r);
    } else if !State(div, ws, t, n - 1).busy {
      Loopback(div, ws, t, r, n - 1);
      QuietClock(div, ws, t, r, n);
    } else {
      var w := LastStart(div, ws, t, n - 1);
      FrameEnds(div, ws, t, w, n);
      Loopback(div, ws, t, r, w);
      FrameLoops(div, ws, t, r, w);
    }
  }

  lemma Beginning(div: nat, ws: Writes, t: Tx, r: Rx)
    ensures State(div, ws, t, 0) == t && Accepted(div, ws, t, 0) == []
    ensures After(div, Pin(div, ws, t), r, 0, 0) == r && Delivered(div, Pin(div, ws, t), r, 0, 0) == []
  {
  }

  // The first idle clock after a start is the one after the frame.
  lemma FrameEnds(div: nat, ws: Writes, t: Tx, w: nat, n: nat)
    requires !State(div, ws, t, w).busy && ws(w).WriteByte? && w < n - 1 <= w + 10 * (div + 1)
    requires !State(div, ws, t, n).busy && State(div, ws, t, n - 1).busy
    ensures n == w + 1 + 10 * (div + 1)
  {
    hide State, InFrame, FrameBit;
    if n <= w + 10 * (div + 1) {
      FrameSent(div, ws, t, w, n - w - 1);
      FramePin(div, ws(w).byte, n - w - 1);
    }
  }

  lemma QuietClock(div: nat, ws: Writes, t: Tx, r: Rx, n: nat)
    requires n > 0 && !State(div, ws, t, n - 1).busy && !State(div, ws, t, n).busy && State(div, ws, t, n - 1).pin
    requires var line := Pin(div, ws, t); !After(div, line, r, 0, n - 1).busy
    ensures var line := Pin(div, ws, t);
      && State(div, ws, t, n).pin && !After(div, line, r, 0, n).busy
      && Delivered(div, line, r, 0, n) == Delivered(div, line, r, 0, n - 1)
      && Accepted(div, ws, t, n) == Accepted(div, ws, t, n - 1)
  {
  }

  // One frame from the idle clock w to the idle clock at its end.
  lemma FrameLoops(div: nat, ws: Writes, t: Tx, r: Rx, w: nat)
    requires div >= 1 && !State(div, ws, t, w).busy && ws(w).WriteByte? && State(div, ws, t, w).pin
    requires var line := Pin(div, ws, t);
      !After(div, line, r, 0, w).busy && Delivered(div, line, r, 0, w) == Accepted(div, ws, t, w)
    ensures var line, n := Pin(div, ws, t), w + 1 + 10 * (div + 1);
      && State(div, ws, t, n).pin && !After(div, line, r, 0, n).busy
      && Delivered(div, line, r, 0, n) == Accepted(div, ws, t, n)
  {
    hide *;
    var line := Pin(div, ws, t);
    PinHigh(div, ws, t, w);
    PinCarries(div, ws, t, w);
    HeardFrame(div, line, r, w, ws(w).byte);
    FrameSent(div, ws, t, w, 10 * (div + 1));
    BusyAcceptsNothing(div, ws, t, w, 10 * (div + 1));
  }

  lemma PinHigh(div: nat, ws: Writes, t: Tx, w: nat)
    requires State(div, ws, t, w).pin
    ensures Pin(div, ws, t)(w)
  {
    hide State;
  }

  // The receiver over the clock of the write and the frame that follows.
  lemma HeardFrame(div: nat, line: Signal, r: Rx, w: nat, b: Bits)
    requires div >= 1 && line(w) && Carries(line, w + 1, div + 1, b) && !After(div, line, r, 0, w).busy
    ensures var n := w + 1 + 10 * (div + 1);
      !After(div, line, r, 0, n).busy && Delivered(div, line, r, 0, n) == Delivered(div, line, r, 0, w) + [b]
  {
    hide *;
    var p := div + 1;
    var m := 10 * p;
    var r1 := After(div, line, r, 0, w);
    SameRate(div);
    StaysIdle(div, line, r1, w, 1);
    FrameReceived(div, line, r1, w + 1, p, b);
    AfterAdd(div, line, r1, w, 1, m);
    AfterAdd(div, line, r, 0, w, 1 + m);
    assert [] + [b] == [b];
    assert w + (1 + m) == w + 1 + 10 * (div + 1);
  }
}
