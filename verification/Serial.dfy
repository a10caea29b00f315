/** The stub's end of the serial line: get_packet and put_packet as loops over characters. */
module Serial {
  import opened Hex
  import opened Rsp

  // The part of a buffer before its first NUL.
  function CString(s: seq<Octet>): (t: seq<Octet>)
    ensures |t| <= |s| && t == s[..|t|] && '\0' !in t && (|t| < |s| ==> s[|t|] == '\0')
  {
    if s == [] || s[0] == '\0' then [] else [s[0]] + CString(s[1..])
  }

  // What put_packet sends, with the answers found on the line from position i: the frame,
  // up to three times, until '+' comes back.
  datatype Sent = Sent(acked: bool, frames: nat, next: nat, waiting: bool)

  function PutPacket(s: seq<Octet>, i: nat, tries: nat): (r: Sent)
    requires i <= |s|
    ensures r.next <= |s| && r.frames <= tries
    decreases tries
  {
    if tries == 0 then Sent(false, 0, i, false)
    else if i == |s| then Sent(false, 1, i, true)
    else if s[i] == '+' then Sent(true, 1, i + 1, false)
    else var r := PutPacket(s, i + 1, tries - 1); r.(frames := r.frames + 1)
  }

  function Copies(f: seq<Octet>, n: nat): seq<Octet>
  {
    if n == 0 then [] else f + Copies(f, n - 1)
  }

  /* An acknowledged packet was sent once more than it was refused, and the last copy is the
     one that was accepted. */
  lemma {:induction false} AckedExactly(s: seq<Octet>, i: nat, tries: nat)
    requires i <= |s|
    ensures var r := PutPacket(s, i, tries);
      && (r.acked <==> exists k :: i <= k < i + tries && k < |s| && s[k] == '+')
      && (r.acked ==> r.frames == r.next - i && s[r.next - 1] == '+' && '+' !in s[i..r.next - 1])
      && (!r.acked && !r.waiting ==> r.frames == tries && r.next == i + tries && '+' !in s[i..r.next])
    decreases tries
  {
    if tries > 0 && i < |s| && s[i] != '+' {
      AckedExactly(s, i + 1, tries - 1);
      var r := PutPacket(s, i + 1, tries - 1);
      if r.acked {
        assert s[i..r.next - 1] == [s[i]] + s[i + 1..r.next - 1];
      } else if !r.waiting {
        assert s[i..r.next] == [s[i]] + s[i + 1..r.next];
      }
    }
  }

  class Line {
    // What arrives, how much of it has been read, and what has been sent.
    const rx: seq<Octet>
    var pos: nat
    var tx: seq<Octet>

    predicate Valid()
      reads this
    {
      pos <= |rx|
    }

    constructor (rx: seq<Octet>)
      ensures Valid() && this.rx == rx && pos == 0 && tx == []
    {
      this.rx, pos, tx := rx, 0, [];
    }

    method Putc(c: Octet)
      modifies this`tx
      ensures tx == old(tx) + [c]
    {
      tx := tx + [c];
    }

    // One round of get_packet: -2 while input is missing, -1 for a wrong checksum.
    method Round(buf: array<Octet>) returns (len: int)
      requires Valid() && buf.Length > 0
      modifies this`pos, buf
      ensures Valid()
      ensures match Attempt(rx, old(pos), buf.Length)
        case Accepted(payload, next) => len == |payload| && buf[..len] == payload && buf[len] == '\0' && pos == next
        case Rejected(next) => len == -1 && pos == next
        case Starved => len == -2
    {
      hide Sum, Received, Kept, Total;
      ghost var start := pos;
      while pos < |rx| && rx[pos] != '$'
        invariant start <= pos <= |rx| && Find(rx, pos, '$') == Find(rx, start, '$')
      {
        pos := pos + 1;
      }
      if pos == |rx| { return -2; }
      pos := pos + 1;
      var cksum: int;
      len, cksum := ReadBody(buf);
      if pos == |rx| { return -2; }
      pos := pos + 1;
      buf[len] := '\0';
      if pos + 2 > |rx| { return -2; }
      var hi, lo := rx[pos], rx[pos + 1];
      pos := pos + 2;
      if Received(hi, lo) != cksum { return -1; }
    }

    // The characters up to '#', as many as fit, with their checksum.
    method ReadBody(buf: array<Octet>) returns (len: int, cksum: int)
      requires Valid() && buf.Length > 0
      modifies this`pos, buf
      ensures pos == Find(rx, old(pos), '#')
      ensures var body := rx[old(pos)..pos];
        len == |Kept(body, buf.Length)| && buf[..len] == Kept(body, buf.Length) && cksum == Sum(Kept(body, buf.Length))
    {
      hide Find, Sum, Kept;
      ghost var start := pos;
      len, cksum := 0, 0;
      EmptySum();
      while pos < |rx| && rx[pos] != '#'
        invariant start <= pos <= |rx| && Find(rx, pos, '#') == Find(rx, start, '#')
        invariant len == (if pos - start < buf.Length then pos - start else buf.Length - 1)
        invariant buf[..len] == rx[start..start + len]
        invariant cksum == Sum(buf[..len])
      {
        FindStep(rx, pos, '#');
        if len < buf.Length - 1 {
          ghost var before := buf[..len];
          buf[len] := rx[pos];
          assert buf[..len + 1] == before + [rx[pos]];
          SumStep(before, rx[pos]);
          cksum := (cksum + rx[pos] as int) % 256;
          len := len + 1;
        }
        pos := pos + 1;
      }
      FindStep(rx, pos, '#');
      KeptIs(rx, start, pos, len, buf.Length);
    }

    // get_packet.
    method Get(buf: array<Octet>) returns (len: int)
      requires Valid() && buf.Length > 0
      modifies this, buf
      ensures Valid()
      ensures var r := GetPacket(rx, old(pos), buf.Length, 3);
        && tx == old(tx) + r.acks
        && match r.last
           case Accepted(payload, next) => len == |payload| && buf[..len] == payload && buf[len] == '\0' && pos == next
           case Rejected(next) => len == -1 && pos == next
           case Starved => len == -2
    {
      hide Attempt;
      ghost var start := pos;
      var tries := 3;
      len := -1;
      while tries > 0
        invariant 0 <= tries <= 3 && Valid()
        invariant tries > 0 ==>
          && GetPacket(rx, start, buf.Length, 3).last == GetPacket(rx, pos, buf.Length, tries).last
          && old(tx) + GetPacket(rx, start, buf.Length, 3).acks == tx + GetPacket(rx, pos, buf.Length, tries).acks
        invariant tries == 0 ==>
          len == -1 && GetPacket(rx, start, buf.Length, 3).last == Rejected(pos)
            && tx == old(tx) + GetPacket(rx, start, buf.Length, 3).acks
      {
        len := Round(buf);
        if len == -2 { return; }
        if len >= 0 {
          Putc('+');
          return;
        }
        Putc('-');
        tries := tries - 1;
      }
    }

    // put_packet: data up to its NUL, framed; 1 when acknowledged, 0 when given up, -2 while
    // an answer is missing.
    method Put(data: seq<Octet>) returns (status: int)
      requires Valid() && '\0' in data
      modifies this
      ensures Valid()
      ensures var r := PutPacket(rx, old(pos), 3);
        && tx == old(tx) + Copies(Frame(CString(data)), r.frames)
        && pos == r.next && status == (if r.acked then 1 else if r.waiting then -2 else 0)
    {
      hide Frame, CString, PutPacket, Copies;
      ghost var all := PutPacket(rx, pos, 3);
      ghost var f := Frame(CString(data));
      var retry := 3;
      NoCopies(f);
      while retry > 0
        invariant 0 <= retry <= 3 && Valid()
        invariant all == PutPacket(rx, pos, retry).(frames := PutPacket(rx, pos, retry).frames + 3 - retry)
        invariant tx == old(tx) + Copies(f, 3 - retry)
      {
        PutStep(rx, pos, retry);
        SendFrame(data);
        CopiesEnd(f, 3 - retry);
        if pos == |rx| { return -2; }
        var c := rx[pos];
        pos := pos + 1;
        if c == '+' { return 1; }
        retry := retry - 1;
      }
      PutEnd(rx, pos);
      status := 0;
    }

    method SendFrame(data: seq<Octet>)
      requires '\0' in data
      modifies this`tx
      ensures tx == old(tx) + Frame(CString(data))
    {
      hide NibToHex, Total;
      ghost var text := CString(data);
      Putc('$');
      var p, cksum := 0, 0;
      EmptySum();
      while data[p] != '\0'
        invariant 0 <= p <= |text| && p < |data|
        invariant tx == old(tx) + ['$'] + text[..p] && cksum == Sum(text[..p])
        decreases |data| - p
      {
        Putc(data[p]);
        assert text[..p + 1] == text[..p] + [data[p]];
        SumStep(text[..p], data[p]);
        cksum := (cksum + data[p] as int) % 256;
        p := p + 1;
      }
      assert text[..p] == text;
      Putc('#');
      Putc(NibToHex(cksum / 16));
      Putc(NibToHex(cksum));
    }
  }

  lemma SumStep(s: seq<Octet>, c: Octet)
    ensures Sum(s + [c]) == (Sum(s) + c as int) % 256
  {
    assert (s + [c])[..|s|] == s;
    SumOfRemainders(Total(s), c as int);
    SumOfRemainders(Sum(s), c as int);
  }

  lemma EmptySum()
    ensures Sum([]) == 0
  {
  }

  lemma FindStep(s: seq<Octet>, i: nat, c: char)
    requires i <= |s|
    ensures Find(s, i, c) == if i == |s| || s[i] == c then i else Find(s, i + 1, c)
  {
  }

  lemma KeptIs(s: seq<Octet>, i: nat, j: nat, len: nat, max: nat)
    requires i <= j <= |s| && max > 0 && len == (if j - i < max then j - i else max - 1)
    ensures Kept(s[i..j], max) == s[i..i + len]
  {
  }

  lemma NoCopies(f: seq<Octet>)
    ensures Copies(f, 0) == []
  {
  }

  lemma PutStep(s: seq<Octet>, i: nat, tries: nat)
    requires i <= |s| && tries > 0
    ensures PutPacket(s, i, tries) ==
      if i == |s| then Sent(false, 1, i, true)
      else if s[i] == '+' then Sent(true, 1, i + 1, false)
      else PutPacket(s, i + 1, tries - 1).(frames := PutPacket(s, i + 1, tries - 1).frames + 1)
  {
  }

  lemma PutEnd(s: seq<Octet>, i: nat)
    requires i <= |s|
    ensures PutPacket(s, i, 0) == Sent(false, 0, i, false)
  {
  }

  lemma {:induction false} CopiesEnd(f: seq<Octet>, n: nat)
    ensures Copies(f, n + 1) == Copies(f, n) + f
  {
    if n > 0 { CopiesEnd(f, n - 1); }
  }

  // One side's put_packet and the other's get_packet over a line that changes nothing: the
  // payload arrives, and the '+' that goes back ends the transmission after one frame.
  lemma Delivered(payload: seq<Octet>, rest: seq<Octet>, answer: seq<Octet>, max: nat)
    requires '#' !in payload && '\0' !in payload && |payload| < max
    requires answer == GetPacket(Frame(payload) + rest, 0, max, 3).acks
    ensures GetPacket(Frame(payload) + rest, 0, max, 3).last == Accepted(payload, |Frame(payload)|)
    ensures PutPacket(answer, 0, 3) == Sent(true, 1, 1, false)
    ensures Copies(Frame(payload), PutPacket(answer, 0, 3).frames) == Frame(payload)
  {
    hide Frame, GetPacket;
    assert [] + Frame(payload) + rest == Frame(payload) + rest;
    FrameRoundTrip([], payload, rest, max);
  }
}
