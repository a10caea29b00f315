/** The whole debug UART: calibration, receiver, transmitter, break detector and the processor's
    read register on one clock, from reset through calibration to traffic. */
module DbgUart {
  import opened UartRx
  import opened UartFrames
  import UartBaud
  import UartBreak
  import UartTx

  // lineD is the line one clock ago. The line itself comes from a two-stage synchroniser.
  datatype Uart = Uart(cal: UartBaud.Cal, rx: Rx, tx: UartTx.Tx, brk: UartBreak.Brk, rdData: Bits, rdValid: bool,
    lineD: bool)

  datatype Cpu = Cpu(write: UartTx.Write, read: bool)

  function NextRx(u: Uart, line: bool): Rx
  {
    if u.cal.locked || u.rx.busy then UartRx.Next(u.cal.div, u.rx, u.lineD, line) else u.rx
  }

  function NextTx(u: Uart, cpu: Cpu): UartTx.Tx
  {
    if u.cal.locked || u.tx.busy then UartTx.Clocked(u.cal.div, u.tx, cpu.write) else u.tx
  }

  function NextBrk(u: Uart, line: bool): UartBreak.Brk
  {
    if u.cal.locked then UartBreak.Clocked(u.cal.div, u.brk, line) else u.brk.(prev := UartBreak.Now(u.brk))
  }

  function NextUart(u: Uart, line: bool, cpu: Cpu): Uart
  {
    var arrives := Delivers(u.rx, line);
    Uart(UartBaud.Clocked(u.cal, u.lineD, line), NextRx(u, line), NextTx(u, cpu), NextBrk(u, line),
         if arrives then u.rx.sr else u.rdData, arrives || (u.rdValid && !cpu.read), line)
  }

  /** The clocked block of the source. */
  class Registers {
    var calLocked: bool
    var calDiv: nat
    var calActive: bool
    var calCnt: nat
    var calEdge: int
    var rxBusy: bool
    var rxTimer: int
    var rxBit: int
    var rxSr: Bits
    var tx: UartTx.Tx
    var brkTimer: int
    var brkCnt: int
    var brkPrev: bool
    var rdData: Bits
    var rdValid: bool
    var rxD: bool

    function State(): Uart
      reads this
    {
      Uart(UartBaud.Cal(calLocked, calDiv, calActive, calCnt, calEdge), Rx(rxBusy, rxTimer, rxBit, rxSr), tx,
           UartBreak.Brk(brkTimer, brkCnt, brkPrev), rdData, rdValid, rxD)
    }

    // Reset; registers the source does not reset keep what they held.
    method Reset()
      modifies this
      ensures AfterReset(State())
    {
      rxD, calLocked, calActive, rxBusy := true, false, false, false;
      tx := tx.(busy := false, pin := true);
      rdValid, brkCnt, brkTimer, brkPrev := false, 0, 0, false;
    }

    method ClockCal(s: Uart, line: bool)
      requires s.cal == UartBaud.Cal(calLocked, calDiv, calActive, calCnt, calEdge)
      modifies this`calLocked, this`calDiv, this`calActive, this`calCnt, this`calEdge
      ensures UartBaud.Cal(calLocked, calDiv, calActive, calCnt, calEdge) == UartBaud.Clocked(s.cal, s.lineD, line)
    {
      var fall := s.lineD && !line;
      if !s.cal.locked {
        if !s.cal.active {
          if fall { calActive, calCnt, calEdge := true, 0, 1; }
        } else {
          calCnt := (s.cal.cnt + 1) % 8192;
          if fall {
            if s.cal.edge == 4 {
              calDiv, calLocked, calActive := s.cal.cnt / 8, true, false;
            } else {
              calEdge := s.cal.edge + 1;
            }
          }
          if s.cal.cnt == 8191 { calActive := false; }
        }
      }
    }

    method ClockRx(s: Uart, line: bool)
      requires s.rx == Rx(rxBusy, rxTimer, rxBit, rxSr) && s.rdData == rdData
      modifies this`rxBusy, this`rxTimer, this`rxBit, this`rxSr, this`rdData, this`rdValid
      ensures Rx(rxBusy, rxTimer, rxBit, rxSr) == NextRx(s, line)
      ensures rdData == (if Delivers(s.rx, line) then s.rx.sr else s.rdData)
      ensures rdValid == (Delivers(s.rx, line) || old(rdValid))
    {
      if s.cal.locked && !s.rx.busy && s.lineD && !line {
        rxBusy, rxTimer, rxBit := true, s.cal.div / 2, 0;
      } else if s.rx.busy {
        if s.rx.timer == 0 {
          rxTimer, rxBit := s.cal.div, s.rx.bit + 1;
          if s.rx.bit == 0 {
            if line { rxBusy := false; }
          } else if 1 <= s.rx.bit <= 8 {
            rxSr := s.rx.sr[1..] + [line];
          } else if s.rx.bit == 9 {
            rxBusy := false;
            if line { rdData, rdValid := s.rx.sr, true; }
          }
        } else {
          rxTimer := s.rx.timer - 1;
        }
      }
    }

    method ClockBrk(s: Uart, line: bool)
      requires s.brk == UartBreak.Brk(brkTimer, brkCnt, brkPrev)
      modifies this`brkTimer, this`brkCnt, this`brkPrev
      ensures UartBreak.Brk(brkTimer, brkCnt, brkPrev) == NextBrk(s, line)
    {
      brkPrev := s.brk.cnt == 12;
      if s.cal.locked {
        if line {
          brkCnt, brkTimer := 0, 0;
        } else if s.brk.timer == s.cal.div {
          brkTimer := 0;
          if s.brk.cnt != 12 { brkCnt := s.brk.cnt + 1; }
        } else {
          brkTimer := s.brk.timer + 1;
        }
      }
    }

    method ClockTx(s: Uart, cpu: Cpu)
      requires tx == s.tx
      modifies this`tx
      ensures tx == NextTx(s, cpu)
    {
      if s.cal.locked && !s.tx.busy && cpu.write.WriteByte? {
        tx := UartTx.Tx(true, s.cal.div, 0, cpu.write.byte, false);
      } else if s.tx.busy {
        if s.tx.timer == 0 {
          tx := tx.(timer := s.cal.div, bit := s.tx.bit + 1);
          if s.tx.bit <= 7 {
            tx := tx.(pin := s.tx.sr[0], sr := s.tx.sr[1..] + [false]);
          } else if s.tx.bit == 8 {
            tx := tx.(pin := true);
          } else {
            tx := tx.(busy := false);
          }
        } else {
          tx := tx.(timer := s.tx.timer - 1);
        }
      }
    }

    // The read register: reading clears it unless a byte arrives.
    method ClockRead(cpu: Cpu)
      modifies this`rdValid
      ensures rdValid == (old(rdValid) && !cpu.read)
    {
      if cpu.read && rdValid { rdValid := false; }
    }

    // The blocks that watch the line for its timing.
    method ClockLine(s: Uart, line: bool)
      requires s.cal == UartBaud.Cal(calLocked, calDiv, calActive, calCnt, calEdge)
      requires s.brk == UartBreak.Brk(brkTimer, brkCnt, brkPrev)
      modifies this`calLocked, this`calDiv, this`calActive, this`calCnt, this`calEdge, this`brkTimer, this`brkCnt,
        this`brkPrev, this`rxD
      ensures UartBaud.Cal(calLocked, calDiv, calActive, calCnt, calEdge) == UartBaud.Clocked(s.cal, s.lineD, line)
      ensures UartBreak.Brk(brkTimer, brkCnt, brkPrev) == NextBrk(s, line) && rxD == line
    {
      hide *;
      ClockCal(s, line);
      ClockBrk(s, line);
      rxD := line;
    }

    // One clock: every block sees the registers as they were before the edge.
    method Clock(line: bool, cpu: Cpu)
      modifies this
      ensures State() == NextUart(old(State()), line, cpu)
    {
      hide NextRx, NextTx, NextBrk, UartBaud.Clocked, Delivers;
      var s := State();
      ClockRead(cpu);
      ClockRx(s, line);
      ClockTx(s, cpu);
      ClockLine(s, line);
    }
  }

  // The state reset leaves: what is not reset is arbitrary.
  predicate AfterReset(u: Uart)
  {
    && !u.cal.locked && !u.cal.active && !u.rx.busy && !u.tx.busy && u.tx.pin && !u.rdValid && u.lineD
    && u.brk == UartBreak.Brk(0, 0, false)
  }

  type CpuSide = int -> Cpu

  // The state n clocks after clock 0.
  function At(u: Uart, line: Signal, cpu: CpuSide, n: nat): Uart
  {
    if n == 0 then u else NextUart(At(u, line, cpu, n - 1), line(n - 1), cpu(n - 1))
  }

  // The bytes that reached the read register before clock n.
  function Arrived(u: Uart, line: Signal, cpu: CpuSide, n: nat): seq<Bits>
  {
    if n == 0 then []
    else
      var s := At(u, line, cpu, n - 1);
      Arrived(u, line, cpu, n - 1) + if Delivers(s.rx, line(n - 1)) then [s.rx.sr] else []
  }

  // Calibration runs by itself, and until it has locked everything else rests.
  lemma {:induction false} BeforeLock(u: Uart, line: Signal, cpu: CpuSide, n: nat)
    requires AfterReset(u) && line(-1)
    requires forall i :: 0 <= i < n ==> !UartBaud.State(u.cal, line, 0, i).locked
    ensures var s := At(u, line, cpu, n);
      && s.cal == UartBaud.State(u.cal, line, 0, n) && s.lineD == line(n - 1)
      && s.rx == u.rx && !s.tx.busy && s.tx.pin && !s.rdValid && s.brk == u.brk
    ensures Arrived(u, line, cpu, n) == []
  {
    hide UartBaud.Clocked;
    if n > 0 {
      BeforeLock(u, line, cpu, n - 1);
      assert !UartBaud.State(u.cal, line, 0, n - 1).locked;
    }
  }

  // The processor's writes from clock a on.
  function WritesFrom(cpu: CpuSide, a: int): UartTx.Writes { (i: int) => cpu(a + i).write }

  // From lock on receiver, transmitter and break detector run as described by themselves.
  lemma {:induction false} AfterLock(u: Uart, line: Signal, cpu: CpuSide, a: nat, n: nat)
    requires At(u, line, cpu, a).cal.locked && At(u, line, cpu, a).lineD == line(a - 1)
    ensures var s, t := At(u, line, cpu, a), At(u, line, cpu, a + n);
      && t.cal == s.cal && t.lineD == line(a + n - 1)
      && t.rx == After(s.cal.div, line, s.rx, a, n)
      && t.tx == UartTx.State(s.cal.div, WritesFrom(cpu, a), s.tx, n)
      && t.brk == UartBreak.State(s.cal.div, line, s.brk, a, n)
      && Arrived(u, line, cpu, a + n) == Arrived(u, line, cpu, a) + Delivered(s.cal.div, line, s.rx, a, n)
  {
    hide UartRx.Next, UartBreak.Clocked, UartTx.Clocked, Delivers, NextUart, At, Arrived;
    if n > 0 {
      AfterLock(u, line, cpu, a, n - 1);
      OneMoreClock(u, line, cpu, a, n);
      LockedClock(At(u, line, cpu, a + n - 1), line(a + n - 1), cpu(a + n - 1));
    }
  }

  lemma LockedClock(s: Uart, line: bool, cpu: Cpu)
    requires s.cal.locked
    ensures var t := NextUart(s, line, cpu);
      && t.cal == s.cal && t.lineD == line && t.rx == UartRx.Next(s.cal.div, s.rx, s.lineD, line)
      && t.tx == UartTx.Clocked(s.cal.div, s.tx, cpu.write) && t.brk == UartBreak.Clocked(s.cal.div, s.brk, line)
  {
    hide UartRx.Next, UartBreak.Clocked, UartTx.Clocked, Delivers;
  }

  lemma OneMoreClock(u: Uart, line: Signal, cpu: CpuSide, a: nat, n: nat)
    requires n > 0
    ensures At(u, line, cpu, a + n) == NextUart(At(u, line, cpu, a + n - 1), line(a + n - 1), cpu(a + n - 1))
    ensures var s := At(u, line, cpu, a + n - 1);
      Arrived(u, line, cpu, a + n) == Arrived(u, line, cpu, a + n - 1)
        + if Delivers(s.rx, line(a + n - 1)) then [s.rx.sr] else []
  {
    hide NextUart, Delivers;
  }

  // A byte that arrives is in the read register in the next clock, whatever the processor does.
  lemma ArrivesReadable(u: Uart, line: bool, cpu: Cpu)
    ensures Delivers(u.rx, line) ==> NextUart(u, line, cpu).rdValid && NextUart(u, line, cpu).rdData == u.rx.sr
    ensures !Delivers(u.rx, line) ==>
      NextUart(u, line, cpu).rdData == u.rdData && NextUart(u, line, cpu).rdValid == (u.rdValid && !cpu.read)
  {
  }

  // What the processor has read before clock n, and what it can still read.
  function Taken(u: Uart, line: Signal, cpu: CpuSide, n: nat): seq<Bits>
  {
    if n == 0 then []
    else
      var s := At(u, line, cpu, n - 1);
      Taken(u, line, cpu, n - 1) + if cpu(n - 1).read && s.rdValid then [s.rdData] else []
  }

  function Waiting(s: Uart): seq<Bits> { if s.rdValid then [s.rdData] else [] }

  // A byte arrives on one that has not been read and is not being read.
  predicate Overwrites(s: Uart, line: bool, cpu: Cpu) { Delivers(s.rx, line) && s.rdValid && !cpu.read }

  function Overwritten(u: Uart, line: Signal, cpu: CpuSide, n: nat): nat
  {
    if n == 0 then 0
    else Overwritten(u, line, cpu, n - 1)
         + if Overwrites(At(u, line, cpu, n - 1), line(n - 1), cpu(n - 1)) then 1 else 0
  }

  // The reader is in time: no arrival finds an unread byte that is not read in that clock.
  predicate InTime(u: Uart, line: Signal, cpu: CpuSide, n: nat)
  {
    forall k: nat {:trigger At(u, line, cpu, k)} :: k < n ==> !Overwrites(At(u, line, cpu, k), line(k), cpu(k))
  }

  // Every arrival is read, waiting, or overwritten.
  lemma {:induction false} Accounted(u: Uart, line: Signal, cpu: CpuSide, n: nat)
    requires !u.rdValid
    ensures |Arrived(u, line, cpu, n)|
         == |Taken(u, line, cpu, n)| + |Waiting(At(u, line, cpu, n))| + Overwritten(u, line, cpu, n)
    ensures Overwritten(u, line, cpu, n) == 0 ==>
      Arrived(u, line, cpu, n) == Taken(u, line, cpu, n) + Waiting(At(u, line, cpu, n))
  {
    hide Delivers, NextRx, NextTx, NextBrk, UartBaud.Clocked;
    if n > 0 { Accounted(u, line, cpu, n - 1); }
  }

  lemma {:induction false} NoneOverwritten(u: Uart, line: Signal, cpu: CpuSide, n: nat)
    ensures Overwritten(u, line, cpu, n) == 0 <==> InTime(u, line, cpu, n)
  {
    hide Overwrites, At;
    if n > 0 {
      NoneOverwritten(u, line, cpu, n - 1);
      assert Overwritten(u, line, cpu, n) == Overwritten(u, line, cpu, n - 1)
        + if Overwrites(At(u, line, cpu, n - 1), line(n - 1), cpu(n - 1)) then 1 else 0;
      if InTime(u, line, cpu, n - 1) && !Overwrites(At(u, line, cpu, n - 1), line(n - 1), cpu(n - 1)) {
        assert InTime(u, line, cpu, n);
      }
    }
  }

  // The processor gets exactly the bytes that arrived, in order, if and only if it is in time.
  lemma ReaderExact(u: Uart, line: Signal, cpu: CpuSide, n: nat)
    requires !u.rdValid
    ensures InTime(u, line, cpu, n)
       <==> Taken(u, line, cpu, n) + Waiting(At(u, line, cpu, n)) == Arrived(u, line, cpu, n)
  {
    hide *;
    Accounted(u, line, cpu, n);
    NoneOverwritten(u, line, cpu, n);
  }

  /* From reset: idle clocks, a 0x55 byte with a bit period of p0, then any stream of bytes from
     a sender of period p that the calibrated rate tolerates. The calibration sets the bit
     period to p0 exactly, its byte does not arrive, and the stream does, in order; and the
     processor reads exactly the stream if and only if it reads each byte in time. */
  lemma Session(u: Uart, line: Signal, cpu: CpuSide, gap: nat, p0: nat, p: nat, fs: seq<Spoken>)
    requires AfterReset(u) && 1 <= p0 <= 1024 && p > 0 && Tolerant(p, p0 - 1)
    requires forall i :: -1 <= i < gap ==> line(i)
    requires Carries(line, gap, p0, UartBaud.U) && Speaks(line, p, gap + 10 * p0, fs)
    ensures var n := gap + 10 * p0 + Duration(p, fs);
      && At(u, line, cpu, n).cal.locked && At(u, line, cpu, n).cal.div + 1 == p0
      && Arrived(u, line, cpu, n) == Bytes(fs) && !At(u, line, cpu, n).rx.busy
      && (InTime(u, line, cpu, n) <==> Taken(u, line, cpu, n) + Waiting(At(u, line, cpu, n)) == Bytes(fs))
  {
    hide *;
    NothingToRead(u);
    var a := gap + 8 * p0 + 1;
    var s := At(u, line, cpu, a);
    Calibrated(u, line, cpu, gap, p0);
    var rest := 2 * p0 - 1;
    LineAfterLock(line, gap, p0);
    StaysIdle(p0 - 1, line, s.rx, a, rest);
    AfterLock(u, line, cpu, a, rest);
    assert a + rest == gap + 10 * p0;
    StreamReceived(p0 - 1, line, s.rx, gap + 10 * p0, p, fs);
    AfterLock(u, line, cpu, gap + 10 * p0, Duration(p, fs));
    ReaderExact(u, line, cpu, gap + 10 * p0 + Duration(p, fs));
  }

  lemma NothingToRead(u: Uart)
    requires AfterReset(u)
    ensures !u.rdValid
  {
  }

  // The calibration byte locks the rate in its ninth bit, and up to then nothing else moved.
  lemma Calibrated(u: Uart, line: Signal, cpu: CpuSide, gap: nat, p0: nat)
    requires AfterReset(u) && 1 <= p0 <= 1024 && (forall i :: -1 <= i < gap ==> line(i))
      && Carries(line, gap, p0, UartBaud.U)
    ensures var s := At(u, line, cpu, gap + 8 * p0 + 1);
      && s.cal.locked && s.cal.div + 1 == p0 && !s.rx.busy && s.lineD == line(gap + 8 * p0)
        && s.brk == UartBreak.Brk(0, 0, false)
    ensures Arrived(u, line, cpu, gap + 8 * p0 + 1) == []
  {
    hide UartBaud.State, UartBaud.Clocked, Carries, UartRx.Next, UartTx.Clocked, UartBreak.Clocked, UartBreak.Now, At,
      Arrived;
    UartBaud.WaitsHigh(u.cal, line, 0, gap);
    UartBaud.SelfCalibrates(u.cal, line, gap, p0);
    forall i | 0 <= i < gap + 8 * p0 + 1 ensures !UartBaud.State(u.cal, line, 0, i).locked {
      if i < gap {
        UartBaud.WaitsHigh(u.cal, line, 0, i);
      } else {
        UartBaud.StateAdd(u.cal, line, 0, gap, i - gap);
      }
    }
    UartBaud.StateAdd(u.cal, line, 0, gap, 8 * p0 + 1);
    BeforeLock(u, line, cpu, gap + 8 * p0 + 1);
  }

  // What is left of the calibration byte has no falling edge.
  lemma LineAfterLock(line: Signal, t: int, p: nat)
    requires p > 0 && Carries(line, t, p, UartBaud.U) && line(t - 1)
    ensures forall i :: t + 8 * p + 1 <= i < t + 10 * p ==> !(line(i - 1) && !line(i))
    ensures line(t + 10 * p - 1)
  {
    hide Carries;
    forall i | t + 8 * p + 1 <= i < t + 10 * p ensures !(line(i - 1) && !line(i)) {
      UartBaud.FrameFalls(line, t, p, i - t);
    }
    UartBaud.FrameLevel(line, t, p, 10 * p - 1);
    LastBit(10 * p - 1, p);
  }

  // A byte written to a locked UART whose transmitter is idle goes out on the pin, whatever is
  // written and received meanwhile.
  lemma Sends(u: Uart, line: Signal, cpu: CpuSide, a: nat, o: nat)
    requires At(u, line, cpu, a).cal.locked && At(u, line, cpu, a).lineD == line(a - 1)
    requires !At(u, line, cpu, a).tx.busy && cpu(a).write.WriteByte?
    ensures var s, p := At(u, line, cpu, a), At(u, line, cpu, a).cal.div + 1;
      && (o < 10 * p ==> At(u, line, cpu, a + 1 + o).tx.pin == FrameBit(cpu(a).write.byte, o / p))
      && (o == 10 * p ==> !At(u, line, cpu, a + 1 + o).tx.busy && At(u, line, cpu, a + 1 + o).tx.pin)
  {
    hide At, Arrived, UartTx.State, UartTx.Clocked, UartTx.InFrame, After, Delivered, UartBreak.State, FrameBit;
    var s := At(u, line, cpu, a);
    var ws := WritesFrom(cpu, a);
    AfterLock(u, line, cpu, a, 1 + o);
    NothingSent(s.cal.div, ws, s.tx);
    if o <= 10 * (s.cal.div + 1) {
      UartTx.FrameSent(s.cal.div, ws, s.tx, 0, o);
      if o < 10 * (s.cal.div + 1) { UartTx.FramePin(s.cal.div, cpu(a).write.byte, o); }
    }
  }

  lemma NothingSent(div: nat, ws: UartTx.Writes, t: UartTx.Tx)
    ensures UartTx.State(div, ws, t, 0) == t
  {
  }

  // A receiver sees the same on a line that is shifted in time.
  lemma {:induction false} ShiftedLine(div: nat, line: Signal, other: Signal, r: Rx, a: int, n: nat)
    requires forall i :: -1 <= i < n ==> other(i) == line(a + i)
    ensures After(div, line, r, a, n) == After(div, other, r, 0, n)
    ensures Delivered(div, line, r, a, n) == Delivered(div, other, r, 0, n)
  {
    hide UartRx.Next, Delivers;
    if n > 0 {
      ShiftedLine(div, line, other, r, a, n - 1);
      assert other(n - 1) == line(a + (n - 1)) && other(n - 2) == line(a + (n - 2));
    }
  }

  /* Two locked UARTs of the same rate, v listening to u's pin: whenever u's transmitter is
     between frames, what has arrived at v is what u's processor has written since. */
  lemma Conversation(u: Uart, uLine: Signal, uCpu: CpuSide, v: Uart, vLine: Signal, vCpu: CpuSide, a: nat, n: nat)
    requires At(u, uLine, uCpu, a).cal.locked && At(u, uLine, uCpu, a).lineD == uLine(a - 1)
    requires At(v, vLine, vCpu, a).cal.locked && At(v, vLine, vCpu, a).lineD == vLine(a - 1) == true
    requires At(u, uLine, uCpu, a).cal.div == At(v, vLine, vCpu, a).cal.div >= 1
    requires !At(u, uLine, uCpu, a).tx.busy && At(u, uLine, uCpu, a).tx.pin && !At(v, vLine, vCpu, a).rx.busy
    requires forall i: nat :: a <= i < a + n ==> vLine(i) == At(u, uLine, uCpu, i).tx.pin
    requires !At(u, uLine, uCpu, a + n).tx.busy
    ensures Arrived(v, vLine, vCpu, a + n) == Arrived(v, vLine, vCpu, a)
      + UartTx.Accepted(At(u, uLine, uCpu, a).cal.div, WritesFrom(uCpu, a), At(u, uLine, uCpu, a).tx, n)
    ensures !At(v, vLine, vCpu, a + n).rx.busy
  {
    hide At, Arrived, UartTx.State, After, Delivered, UartBreak.State, UartTx.Accepted;
    var s, r := At(u, uLine, uCpu, a), At(v, vLine, vCpu, a);
    var div, ws := s.cal.div, WritesFrom(uCpu, a);
    var pin := UartTx.Pin(div, ws, s.tx);
    AfterLock(u, uLine, uCpu, a, n);
    AfterLock(v, vLine, vCpu, a, n);
    forall i | -1 <= i < n ensures pin(i) == vLine(a + i) {
      if i >= 0 { AfterLock(u, uLine, uCpu, a, i); }
    }
    ShiftedLine(div, vLine, pin, r.rx, a, n);
    UartTx.Loopback(div, ws, s.tx, r.rx, n);
  }
}
