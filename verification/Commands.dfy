/** The stub's commands on registers, memory and the step: what they answer and what they change. */
module Commands {
  import opened Arith
  import opened Machine
  import opened Hex
  import opened Rsp
  import opened Serial
  import opened Overlay
  import opened Breakpoints
  import opened NextPcs
  import Bits

  const PKT_BUF_SIZE := 280
  const NGDB_REGS := 33

  // A buffer that holds a text and then a NUL reads as that text.
  lemma {:induction false} TextOf(s: seq<Octet>, text: seq<Octet>)
    requires |text| < |s| && s[..|text|] == text && s[|text|] == '\0' && '\0' !in text
    ensures CString(s) == text
  {
    if text != [] {
      assert s[0] == text[0] && s[0] in text;
      assert s[1..][..|text| - 1] == text[1..];
      TextOf(s[1..], text[1..]);
    }
  }

  lemma {:induction false} EncodedText(bytes: seq<bv8>)
    ensures '\0' !in Encode(bytes) && '#' !in Encode(bytes)
  {
    hide NibToHex;
    if bytes != [] { EncodedText(bytes[1..]); }
  }

  lemma {:induction false} DigitsText(v: bv32, n: nat)
    ensures '\0' !in RegDigits(v, n) && '#' !in RegDigits(v, n)
    decreases n
  {
    hide Digit, Shr4, Shr8;
    if n > 0 { DigitsText(Shr8(v), n - 1); }
  }

  lemma RegText(v: bv32)
    ensures '\0' !in RegToHex(v) && '#' !in RegToHex(v)
  {
    DigitsText(v, 4);
  }

  lemma {:induction false} RegsText(regs: seq<bv32>)
    ensures '\0' !in RegsToHex(regs) && '#' !in RegsToHex(regs)
  {
    hide RegToHex;
    if regs != [] {
      RegText(regs[0]);
      RegsText(regs[1..]);
    }
  }

  lemma {:induction false} RegsAppend(a: seq<bv32>, v: bv32)
    ensures RegsToHex(a + [v]) == RegsToHex(a) + RegToHex(v)
  {
    hide RegToHex;
    if a == [] {
      assert [v][1..] == [];
      assert RegsToHex([v]) == RegToHex(v) + RegsToHex([]);
    } else {
      assert (a + [v])[1..] == a[1..] + [v];
      RegsAppend(a[1..], v);
    }
  }

  lemma {:induction false} RegsPrefix(s: seq<Octet>, n: nat)
    requires |s| >= 8 * (n + 1)
    ensures HexToRegs(s, n + 1) == HexToRegs(s, n) + [HexToReg(s[8 * n..8 * n + 8])]
  {
    hide HexToReg;
    if n > 0 {
      RegsPrefix(s[8..], n - 1);
      assert s[8..][8 * (n - 1)..8 * (n - 1) + 8] == s[8 * n..8 * n + 8];
    }
  }

  // u32_to_hex_le, into a buffer at a position.
  method PutReg(value: bv32, buf: array<Octet>, at: nat)
    requires at + 8 <= buf.Length
    modifies buf
    ensures buf[..at] == old(buf[..at]) && buf[at..at + 8] == RegToHex(value)
  {
    hide Digit, Shr4, Shr8, RegDigits;
    var v, i := value, 0;
    while i < 4
      invariant 0 <= i <= 4
      invariant buf[..at] == old(buf[..at])
      invariant buf[at..at + 2 * i] + RegDigits(v, 4 - i) == RegDigits(value, 4)
    {
      ghost var before := buf[at..at + 2 * i];
      DigitStep(v, 4 - i);
      buf[at + 2 * i] := Digit(Shr4(v));
      buf[at + 2 * i + 1] := Digit(v);
      assert buf[at..at + 2 * (i + 1)] == before + [Digit(Shr4(v)), Digit(v)];
      v, i := Shr8(v), i + 1;
    }
    NoDigitsLeft(v);
  }

  lemma NoDigitsLeft(v: bv32)
    ensures RegDigits(v, 0) == []
  {
  }

  // hex_le_to_u32.
  method GetReg(s: seq<Octet>) returns (v: bv32)
    requires |s| >= 8
    ensures v == HexToReg(s)
  {
    hide HexByte, Up, Or;
    v := 0;
    var i := 0;
    while i < 4
      invariant 0 <= i <= 4 && v == Gathered(s, i)
    {
      v := Or(v, Up(HexByte(s[2 * i], s[2 * i + 1]), i));
      i := i + 1;
    }
  }

  // Past the character c, if it is there.
  function Past(s: seq<Octet>, i: nat, c: Octet): (j: nat)
    requires i <= |s|
    ensures i <= j <= |s|
  {
    if i < |s| && s[i] == c then i + 1 else i
  }

  // The fields 'addr,len' of a packet, 32 bits each, and where the rest begins.
  datatype Fields = Fields(addr: int, len: nat, rest: nat)

  function ParseFields(s: seq<Octet>): (f: Fields)
    ensures f.rest <= |s|
  {
    var i := RunEnd(s, 0);
    var j := Past(s, i, ',');
    var k := RunEnd(s, j);
    Fields(Value(s, 0, i) % Pow2(32), Value(s, j, k) % Pow2(32), k)
  }

  method ReadFields(args: seq<Octet>) returns (addr: int, len: nat, k: nat)
    ensures Fields(addr, len, k) == ParseFields(args)
  {
    hide Pow2, RunEnd, Value;
    var i: nat;
    addr, i := ParseHex(args, 0);
    if i < |args| && args[i] == ',' { i := i + 1; }
    len, k := ParseHex(args, i);
  }

  // One number of a packet.
  lemma NumberParsed(pre: seq<Octet>, n: nat, rest: seq<Octet>)
    requires n < Pow2(32) && (rest != [] ==> !IsHex(rest[0]))
    ensures var s, j := pre + Digits(n) + rest, |pre| + |Digits(n)|;
      RunEnd(s, |pre|) == j && Value(s, |pre|, j) % Pow2(32) == n
  {
    hide Pow2, Digits, Value, RunEnd, HexToNib;
    NumberRead(pre, n, rest);
    RunEnds(pre + Digits(n) + rest, |pre|, |pre| + |Digits(n)|);
    DivMod(n, Pow2(32), 0, n);
  }

  // 'addr,len' as a host writes it, followed by anything but a digit.
  lemma FieldsRead(addr: nat, len: nat, rest: seq<Octet>)
    requires addr < Pow2(32) && len < Pow2(32) && (rest != [] ==> !IsHex(rest[0]))
    ensures var s := Digits(addr) + [','] + Digits(len) + rest;
      ParseFields(s) == Fields(addr, len, |s| - |rest|)
  {
    hide Pow2, Digits, Value, RunEnd, HexToNib;
    var s := Digits(addr) + [','] + Digits(len) + rest;
    NoDigit();
    assert s == [] + Digits(addr) + ([','] + Digits(len) + rest);
    NumberParsed([], addr, [','] + Digits(len) + rest);
    assert s == (Digits(addr) + [',']) + Digits(len) + rest;
    NumberParsed(Digits(addr) + [','], len, rest);
  }

  lemma NoDigit()
    ensures !IsHex(',') && !IsHex(':') && !IsHex('\0')
  {
  }

  // (int)len, as a loop bound.
  function Count(len: nat): nat { if len < 0x8000_0000 then len else 0 }

  // Where a resume packet says to go on: at its address, if it has one.
  function ResumePc(args: seq<Octet>, pc: bv32): bv32
  {
    if args == [] || args[0] == '\0' then pc
    else ToBits(Value(args, 0, RunEnd(args, 0)) % Pow2(32))
  }

  // The part of a memory dump that fits the reply.
  function Clamped(len: nat): nat { if len > (PKT_BUF_SIZE - 1) / 2 then (PKT_BUF_SIZE - 1) / 2 else len }

  // What put_packet sends for a text, with the answers found on the line from pos on.
  function Reply(line: Line, pos: nat, text: seq<Octet>): seq<Octet>
    requires pos <= |line.rx|
  {
    Copies(Frame(text), PutPacket(line.rx, pos, 3).frames)
  }

  class Stub {
    const line: Line
    const table: Table
    const gRegs: array<bv32>
    const pktBuf: array<Octet>
    var stepping: bool

    predicate Valid()
      reads this, line, table, table.bps
    {
      line.Valid() && table.Valid() && gRegs.Length == NGDB_REGS && pktBuf.Length == PKT_BUF_SIZE
    }

    constructor (rx: seq<Octet>, mem: Mem)
      requires |mem| >= 4
      ensures Valid() && !stepping && fresh(line) && fresh(table) && fresh(table.bps) && fresh(gRegs) && fresh(pktBuf)
      ensures line.rx == rx && table.mem == mem && forall i :: 0 <= i < NBP ==> !table.bps[i].used
    {
      line := new Line(rx);
      table := new Table(mem);
      gRegs := new bv32[NGDB_REGS];
      pktBuf := new Octet[PKT_BUF_SIZE];
      stepping := false;
    }

    // 'g': all registers with x0 as zero, in one frame.
    method ReadRegs() returns (status: int)
      requires Valid()
      modifies line, gRegs, pktBuf
      ensures Valid() && gRegs[..] == old(gRegs[..])[0 := 0]
      ensures line.tx == old(line.tx) + Reply(line, old(line.pos), RegsToHex(gRegs[..]))
    {
      hide RegToHex, RegsToHex, Frame;
      gRegs[0] := 0;
      var i := 0;
      assert RegsToHex([]) == [] by { NoRegs(); }
      while i < NGDB_REGS
        invariant 0 <= i <= NGDB_REGS
        invariant gRegs[..] == old(gRegs[..])[0 := 0]
        invariant line.pos == old(line.pos) && line.tx == old(line.tx)
        invariant pktBuf[..8 * i] == RegsToHex(gRegs[..i])
      {
        ghost var before := pktBuf[..8 * i];
        PutReg(gRegs[i], pktBuf, 8 * i);
        RegsAppend(gRegs[..i], gRegs[i]);
        assert gRegs[..i + 1] == gRegs[..i] + [gRegs[i]];
        assert pktBuf[..8 * (i + 1)] == before + pktBuf[8 * i..8 * i + 8];
        i := i + 1;
      }
      pktBuf[8 * NGDB_REGS] := '\0';
      assert gRegs[..NGDB_REGS] == gRegs[..];
      RegsText(gRegs[..]);
      TextOf(pktBuf[..], RegsToHex(gRegs[..]));
      assert pktBuf[..][8 * NGDB_REGS] == '\0';
      status := line.Put(pktBuf[..]);
    }

    method PutOk()
      requires Valid()
      modifies line
      ensures Valid() && line.tx == old(line.tx) + Reply(line, old(line.pos), ['O', 'K'])
    {
      hide Frame;
      TextOf(['O', 'K', '\0'], ['O', 'K']);
      var status := line.Put(['O', 'K', '\0']);
    }

    // 'G': the registers from a text of 33 times eight characters, x0 kept zero.
    method WriteRegs(args: seq<Octet>)
      requires Valid() && |args| == PKT_BUF_SIZE - 1
      modifies line, gRegs
      ensures Valid() && gRegs[..] == HexToRegs(args, NGDB_REGS)[0 := 0]
      ensures line.tx == old(line.tx) + Reply(line, old(line.pos), ['O', 'K'])
    {
      hide HexToReg, Reply;
      var i := 0;
      while i < NGDB_REGS
        invariant 0 <= i <= NGDB_REGS
        invariant gRegs[..i] == HexToRegs(args, i)
        invariant line.pos == old(line.pos) && line.tx == old(line.tx)
      {
        ghost var before := gRegs[..i];
        RegsPrefix(args, i);
        gRegs[i] := GetReg(args[8 * i..8 * i + 8]);
        assert gRegs[..i + 1] == before + [gRegs[i]];
        i := i + 1;
      }
      assert gRegs[..NGDB_REGS] == gRegs[..];
      gRegs[0] := 0;
      PutOk();
    }

    // 'm addr,len': at most 139 bytes, in one frame that fits the buffer.
    method ReadMem(args: seq<Octet>) returns (status: int)
      requires Valid()
      modifies line, pktBuf
      ensures Valid()
      ensures var f := ParseFields(args);
        line.tx == old(line.tx) + Reply(line, old(line.pos), Encode(Peek(table.mem, f.addr, Clamped(f.len))))
    {
      hide Encode, Frame, Peek, ParseFields;
      var addr, len, k := ReadFields(args);
      var bytes := Peek(table.mem, addr, Clamped(len));
      var n := MemToHex(bytes, pktBuf);
      pktBuf[n] := '\0';
      EncodedText(bytes);
      assert pktBuf[..][..n] == Encode(bytes);
      assert pktBuf[..][n] == '\0';
      TextOf(pktBuf[..], Encode(bytes));
      status := line.Put(pktBuf[..]);
    }

    // 'M addr,len:data'.
    method WriteMem(args: seq<Octet>)
      requires Valid()
      modifies line, table
      ensures Valid() && table.bps[..] == old(table.bps[..])
      ensures var f := ParseFields(args);
        table.mem == Poke(old(table.mem), f.addr, Decode(args[Past(args, f.rest, ':')..], Count(f.len)))
      ensures line.tx == old(line.tx) + Reply(line, old(line.pos), ['O', 'K'])
    {
      hide Decode, Poke, Reply, ParseFields;
      var addr, len, k := ReadFields(args);
      if k < |args| && args[k] == ':' { k := k + 1; }
      var bytes := HexToMem(args[k..], Count(len));
      table.mem := Poke(table.mem, addr, bytes);
      PutOk();
    }

    // The address of a 'c' or 's' packet.
    method SetPc(args: seq<Octet>)
      requires Valid()
      modifies gRegs
      ensures Valid()
      ensures gRegs[..] == old(gRegs[..])[NGDB_REGS - 1 := ResumePc(args, old(gRegs[NGDB_REGS - 1]))]
    {
      hide Pow2, Value, RunEnd, ToBits;
      if args != [] && args[0] != '\0' {
        var pc, k := ParseHex(args, 0);
        gRegs[NGDB_REGS - 1] := ToBits(pc);
      }
    }

    // 's addr'.
    method Step(args: seq<Octet>)
      requires Valid()
      modifies this`stepping, table, table.bps, gRegs
      ensures Valid() && stepping
      ensures gRegs[..] == old(gRegs[..])[NGDB_REGS - 1 := ResumePc(args, old(gRegs[NGDB_REGS - 1]))]
      ensures table.View() == PlantAll(old(table.View()),
        Successors(old(table.mem), ToWord(gRegs[NGDB_REGS - 1]), Words(gRegs[..])))
    {
      SetPc(args);
      var targets := Successors(table.mem, ToWord(gRegs[NGDB_REGS - 1]), Words(gRegs[..]));
      table.PlantTargets(targets);
      stepping := true;
    }

    method Reenter()
      requires Valid()
      modifies this`stepping, table, table.bps
      ensures Valid() && !stepping
      ensures table.View() == if old(stepping) then RemoveStep(old(table.View())) else old(table.View())
    {
      if stepping {
        table.RemoveStepBps();
        stepping := false;
      }
    }
  }

  // The 32 general registers of the frame.
  function Words(regs: seq<bv32>): (w: seq<Word>)
    requires |regs| == NGDB_REGS
    ensures |w| == 32
  {
    seq(32, i requires 0 <= i < 32 => ToWord(regs[i]))
  }

  lemma NoRegs()
    ensures RegsToHex([]) == []
  {
  }

  // G with what g answered puts the registers back, with x0 as zero.
  lemma GUndoesG(regs: seq<bv32>, rest: seq<Octet>)
    requires |regs| == NGDB_REGS
    ensures HexToRegs(RegsToHex(regs[0 := 0]) + rest, NGDB_REGS)[0 := 0] == regs[0 := 0]
  {
    RegsRoundTrip(regs[0 := 0], rest);
  }

  // The dump is as long as asked for or as the reply's buffer allows, with its NUL.
  lemma ClampExact(len: nat)
    ensures Clamped(len) <= len && 2 * Clamped(len) + 1 <= PKT_BUF_SIZE
    ensures Clamped(len) == len || 2 * (Clamped(len) + 1) + 1 > PKT_BUF_SIZE
  {
  }

  // What a host reads out of the m reply is memory, byte by byte.
  lemma DumpReads(m: Mem, addr: int, len: nat, k: nat)
    requires |m| > 0 && k < Clamped(len)
    ensures var text := Encode(Peek(m, addr, Clamped(len)));
      |Decode(text, Clamped(len))| == Clamped(len) && Decode(text, Clamped(len))[k] == Get(m, addr + k)
  {
    hide Encode, Decode;
    var bytes := Peek(m, addr, Clamped(len));
    RoundTrip(bytes, []);
    assert Encode(bytes) + [] == Encode(bytes);
  }

  // The address in a resume packet, and what a packet without one means.
  lemma ResumeExact(addr: nat, rest: seq<Octet>, pc: bv32)
    requires addr < Pow2(32) && (rest != [] ==> !IsHex(rest[0]))
    ensures ToWord(ResumePc(Digits(addr) + rest, pc)) == addr
    ensures ResumePc(['\0'] + rest, pc) == pc && ResumePc([], pc) == pc
  {
    hide Pow2, Digits, Value, RunEnd, HexToNib, ToBits, ToWord;
    var s := Digits(addr) + rest;
    assert s == [] + Digits(addr) + rest;
    NumberParsed([], addr, rest);
    FirstDigit(addr);
    assert s[0] == Digits(addr)[0];
    Bits.WordBack(addr);
  }

  lemma {:induction false} FirstDigit(n: nat)
    ensures Digits(n)[0] != '\0'
    decreases n
  {
    if n >= 16 { FirstDigit(n / 16); }
  }

  // The registers the step command hands to the predictor are those of the program, so wherever
  // the instruction at the saved PC goes, the command plants a trap there.
  lemma StepCovers(a: Arch, regs: seq<bv32>)
    requires Machine.Valid(a) && a.pc % 2 == 0 && |regs| == NGDB_REGS
    requires (forall i :: 0 <= i < 32 ==> a.regs[i] == regs[i] as int) && a.pc == regs[NGDB_REGS - 1] as int
    requires var insn := InsnAt(a.mem, a.pc); !insn.Illegal? && !insn.Ecall? && !insn.Ebreak? && !insn.Mret?
    ensures Predicts(Successors(a.mem, ToWord(regs[NGDB_REGS - 1]), Words(regs)), |a.mem|,
                     Target(a, InsnAt(a.mem, a.pc)))
  {
    hide InsnAt, Sized, Successors, Target, Predicts;
    assert Words(regs) == a.regs;
    PredictorCovers(a);
  }

  // Writing back what was read changes nothing.
  lemma RewriteKeeps(m: Mem, addr: int, len: nat, rest: seq<Octet>)
    requires |m| >= (PKT_BUF_SIZE - 1) / 2
    ensures Poke(m, addr, Decode(Encode(Peek(m, addr, Clamped(len))) + rest, Clamped(len))) == m
  {
    hide Encode, Decode, Offset;
    var n, bytes := Clamped(len), Peek(m, addr, Clamped(len));
    RoundTrip(bytes, rest);
    forall b | 0 <= b < |m| ensures Poke(m, addr, bytes)[b] == m[b] {
      PokeAt(m, addr, bytes, b);
      if Offset(|m|, addr, b) < n { PeekAt(m, addr, n, b); }
    }
  }

  // The fields and the data of an M packet.
  lemma DataRead(addr: nat, len: nat, data: seq<Octet>)
    requires addr < Pow2(32) && len < Pow2(32)
    ensures var args := Digits(addr) + [','] + Digits(len) + ([':'] + data);
      var f := ParseFields(args);
      f.addr == addr && f.len == len && args[Past(args, f.rest, ':')..] == data
  {
    hide Pow2, Digits, HexToNib, ParseFields;
    var args := Digits(addr) + [','] + Digits(len) + ([':'] + data);
    NoDigit();
    FieldsRead(addr, len, [':'] + data);
    assert args[ParseFields(args).rest + 1..] == data;
  }

  // An M packet with any bytes puts them there; one whose length does not fit an int puts nothing.
  lemma WritePacket(m: Mem, addr: nat, bytes: seq<bv8>, rest: seq<Octet>)
    requires |m| > 0 && addr < Pow2(32) && |bytes| < Pow2(32)
    ensures var args := Digits(addr) + [','] + Digits(|bytes|) + ([':'] + (Encode(bytes) + rest));
      var f := ParseFields(args);
      Poke(m, f.addr, Decode(args[Past(args, f.rest, ':')..], Count(f.len)))
      == if |bytes| < 0x8000_0000 then Poke(m, addr, bytes) else m
  {
    hide Pow2, Digits, Encode, Decode, Poke, HexToNib, ParseFields, Past;
    DataRead(addr, |bytes|, Encode(bytes) + rest);
    RoundTrip(bytes, rest);
    NothingDecoded(Encode(bytes) + rest);
    PokeNothing(m, addr);
  }

  lemma NothingDecoded(s: seq<Octet>)
    ensures Decode(s, 0) == []
  {
  }

  lemma PokeNothing(m: Mem, a: int)
    requires |m| > 0
    ensures Poke(m, a, []) == m
  {
    hide Offset;
  }

  // M with the address and what m answered there leaves memory as it was.
  lemma MUndoesM(m: Mem, addr: nat, len: nat, rest: seq<Octet>)
    requires |m| >= (PKT_BUF_SIZE - 1) / 2 && addr < Pow2(32)
    ensures var data := Encode(Peek(m, addr, Clamped(len))) + rest;
      var args := Digits(addr) + [','] + Digits(Clamped(len)) + ([':'] + data);
      var f := ParseFields(args);
      Poke(m, f.addr, Decode(args[Past(args, f.rest, ':')..], Count(f.len))) == m
  {
    hide Pow2, Digits, Encode, Decode, Poke, Peek, HexToNib, ParseFields, Past;
    Pow32();
    DataRead(addr, Clamped(len), Encode(Peek(m, addr, Clamped(len))) + rest);
    RewriteKeeps(m, addr, len, rest);
  }
}
