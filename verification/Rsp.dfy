/** Framing of the Remote Serial Protocol (Overview section of the protocol's appendix in the GDB
    manual): $payload#checksum, acknowledged by '+' or refused by '-'. */
module Rsp {
  import opened Arith
  import opened Hex

  // The sum of a text's character codes, and its checksum.
  function Total(s: seq<Octet>): nat
  {
    if s == [] then 0 else Total(s[..|s| - 1]) + s[|s| - 1] as int
  }

  function Sum(s: seq<Octet>): int { Total(s) % 256 }

  function Frame(payload: seq<Octet>): (s: seq<Octet>)
    ensures |s| == |payload| + 4
  {
    ['$'] + payload + ['#', NibToHex(Sum(payload) / 16), NibToHex(Sum(payload))]
  }

  // The 8-bit reading of two checksum characters, -1 nibbles included.
  function Received(hi: char, lo: char): int
  {
    var h, l := HexToNib(hi), HexToNib(lo);
    if l < 0 then 255 else if h < 0 then 240 + l else 16 * h + l
  }

  function Find(s: seq<Octet>, i: nat, c: char): (j: nat)
    requires i <= |s|
    ensures i <= j <= |s| && (j < |s| ==> s[j] == c) && c !in s[i..j]
    decreases |s| - i
  {
    if i == |s| || s[i] == c then i else Find(s, i + 1, c)
  }

  // A payload buffer of max characters keeps this much, and a NUL.
  function Kept(body: seq<Octet>, max: nat): (k: seq<Octet>)
    requires max > 0
    ensures |k| < max
  {
    if |body| < max then body else body[..max - 1]
  }

  datatype Try = Starved | Accepted(payload: seq<Octet>, next: nat) | Rejected(next: nat)

  // One round of get_packet on the input from position i.
  function Attempt(s: seq<Octet>, i: nat, max: nat): (t: Try)
    requires i <= |s| && max > 0
    ensures t.Accepted? ==> |t.payload| < max && i + 4 <= t.next <= |s|
    ensures t.Rejected? ==> i + 4 <= t.next <= |s|
  {
    var d := Find(s, i, '$');
    if d == |s| then Starved
    else
      var h := Find(s, d + 1, '#');
      if h + 2 >= |s| then Starved
      else
        var kept := Kept(s[d + 1..h], max);
        if Received(s[h + 1], s[h + 2]) == Sum(kept) then Accepted(kept, h + 3) else Rejected(h + 3)
  }

  // get_packet: up to the given number of rounds; acks are the characters sent back.
  datatype Outcome = Outcome(last: Try, acks: seq<Octet>)

  function GetPacket(s: seq<Octet>, i: nat, max: nat, tries: nat): (r: Outcome)
    requires i <= |s| && max > 0 && tries > 0
    ensures r.last.Accepted? ==> |r.last.payload| < max && r.last.next <= |s|
    decreases tries
  {
    var t := Attempt(s, i, max);
    match t
    case Starved => Outcome(t, [])
    case Accepted(payload, next) => Outcome(t, ['+'])
    case Rejected(next) =>
      if tries == 1 then Outcome(t, ['-'])
      else var r := GetPacket(s, next, max, tries - 1); Outcome(r.last, ['-'] + r.acks)
  }

  lemma {:induction false} FindIn(prefix: seq<Octet>, c: Octet, rest: seq<Octet>, i: nat)
    requires i <= |prefix| && c !in prefix[i..]
    ensures Find(prefix + [c] + rest, i, c) == |prefix|
    decreases |prefix| - i
  {
    if i < |prefix| {
      assert prefix[i..] == [prefix[i]] + prefix[i + 1..];
      FindIn(prefix, c, rest, i + 1);
    }
  }

  // What one round from position i makes of a frame with any checksum characters, when no '$'
  // comes before it.
  lemma AttemptFrame(prefix: seq<Octet>, i: nat, body: seq<Octet>, hi: Octet, lo: Octet, rest: seq<Octet>, max: nat)
    requires i <= |prefix| && '$' !in prefix[i..] && '#' !in body && max > 0
    ensures var s, next := prefix + ['$'] + body + ['#', hi, lo] + rest, |prefix| + |body| + 4;
      Attempt(s, i, max) == if Received(hi, lo) == Sum(Kept(body, max)) then Accepted(Kept(body, max), next)
        else Rejected(next)
  {
    hide Received, Sum, Kept;
    var s := prefix + ['$'] + body + ['#', hi, lo] + rest;
    assert s == prefix + ['$'] + (body + ['#', hi, lo] + rest);
    FindIn(prefix, '$', body + ['#', hi, lo] + rest, i);
    var front := prefix + ['$'] + body;
    assert s == front + ['#'] + ([hi, lo] + rest);
    assert front[|prefix| + 1..] == body;
    FindIn(front, '#', [hi, lo] + rest, |prefix| + 1);
    assert s[|prefix| + 1..|front|] == body;
  }

  lemma ChecksumDigits(x: int)
    requires 0 <= x < 256
    ensures Received(NibToHex(x / 16), NibToHex(x)) == x
  {
    hide HexToNib, NibToHex;
  }

  // Receiving what was framed: payload intact, '+' sent, whatever came before and comes after.
  lemma FrameRoundTrip(prefix: seq<Octet>, payload: seq<Octet>, rest: seq<Octet>, max: nat)
    requires '$' !in prefix && '#' !in payload && |payload| < max
    ensures GetPacket(prefix + Frame(payload) + rest, 0, max, 3)
         == Outcome(Accepted(payload, |prefix| + |Frame(payload)|), ['+'])
  {
    hide Sum, NibToHex;
    var x := Sum(payload);
    assert prefix + Frame(payload) + rest == prefix + ['$'] + payload + ['#', NibToHex(x / 16), NibToHex(x)] + rest;
    AttemptFrame(prefix, 0, payload, NibToHex(x / 16), NibToHex(x), rest, max);
    SumRange(payload);
    ChecksumDigits(x);
  }

  lemma SumRange(s: seq<Octet>)
    ensures 0 <= Sum(s) < 256
  {
  }

  lemma {:induction false} TotalUpdate(s: seq<Octet>, k: nat, c: Octet)
    requires k < |s|
    ensures Total(s[k := c]) == Total(s) - s[k] as int + c as int
  {
    var n := |s| - 1;
    if k == n {
      assert s[k := c][..n] == s[..n];
    } else {
      assert s[k := c][..n] == s[..n][k := c];
      TotalUpdate(s[..n], k, c);
    }
  }

  // Remainders add up, less one modulus at most.
  lemma SumOfRemainders(x: int, y: int)
    ensures (x + y) % 256 == if x % 256 + y % 256 < 256 then x % 256 + y % 256 else x % 256 + y % 256 - 256
  {
    var r := x % 256 + y % 256;
    assert x + y == (x / 256 + y / 256) * 256 + r;
    if r < 256 {
      DivMod(x + y, 256, x / 256 + y / 256, r);
    } else {
      DivMod(x + y, 256, x / 256 + y / 256 + 1, r - 256);
    }
  }

  // Two different octets cannot be exchanged without changing the sum modulo 256.
  lemma DifferentSum(x: int, d: int)
    requires d != 0 && -256 < d < 256
    ensures (x + d) % 256 != x % 256
  {
    SumOfRemainders(x, d);
    DivMod(d, 256, if d < 0 then -1 else 0, if d < 0 then d + 256 else d);
  }

  lemma CorruptFrame(prefix: seq<Octet>, payload: seq<Octet>, k: nat, c: Octet, rest: seq<Octet>)
    requires k < |payload|
    ensures var x := Sum(payload);
      prefix + Frame(payload)[k + 1 := c] + rest == prefix + ['$'] + payload[k := c]
        + ['#', NibToHex(x / 16), NibToHex(x)] + rest
  {
    hide NibToHex, Sum;
  }

  // One character of the payload changed on the line, to anything but '#': refused.
  lemma CorruptionDetected(prefix: seq<Octet>, payload: seq<Octet>, k: nat, c: Octet, rest: seq<Octet>, max: nat)
    requires '$' !in prefix && '#' !in payload && |payload| < max
    requires k < |payload| && c != payload[k] && c != '#'
    ensures Attempt(prefix + Frame(payload)[k + 1 := c] + rest, 0, max) == Rejected(|prefix| + |Frame(payload)|)
  {
    hide NibToHex, Frame, Attempt, Total;
    var x := Sum(payload);
    var bad := payload[k := c];
    CorruptFrame(prefix, payload, k, c, rest);
    AttemptFrame(prefix, 0, bad, NibToHex(x / 16), NibToHex(x), rest, max);
    TotalUpdate(payload, k, c);
    DifferentSum(Total(payload), c as int - payload[k] as int);
    ChecksumDigits(x);
  }

  // A refused frame and its retransmission: the payload arrives at the second attempt.
  lemma Retransmission(payload: seq<Octet>, k: nat, c: Octet, rest: seq<Octet>, max: nat)
    requires '#' !in payload && |payload| < max && k < |payload| && c != payload[k] && c != '#'
    ensures var n := |Frame(payload)|;
      GetPacket(Frame(payload)[k + 1 := c] + Frame(payload) + rest, 0, max, 3)
        == Outcome(Accepted(payload, 2 * n), ['-', '+'])
  {
    var f := Frame(payload);
    var bad := f[k + 1 := c];
    hide Frame, Attempt, GetPacket;
    assert bad + f + rest == [] + bad + (f + rest);
    CorruptionDetected([], payload, k, c, f + rest, max);
    FrameAfter(bad, payload, rest, max);
    SecondTry(bad + f + rest, |f|, payload, 2 * |f|, max);
  }

  lemma SecondTry(s: seq<Octet>, i: nat, payload: seq<Octet>, next: nat, max: nat)
    requires i <= |s| && max > 0 && Attempt(s, 0, max) == Rejected(i) && Attempt(s, i, max) == Accepted(payload, next)
    ensures GetPacket(s, 0, max, 3) == Outcome(Accepted(payload, next), ['-', '+'])
  {
    hide Attempt;
    assert GetPacket(s, i, max, 2) == Outcome(Accepted(payload, next), ['+']);
  }

  // A frame received from its first character on.
  lemma FrameAfter(before: seq<Octet>, payload: seq<Octet>, rest: seq<Octet>, max: nat)
    requires '#' !in payload && |payload| < max
    ensures Attempt(before + Frame(payload) + rest, |before|, max) == Accepted(payload, |before| + |Frame(payload)|)
  {
    hide Sum, NibToHex;
    var x := Sum(payload);
    assert before + Frame(payload) + rest == before + ['$'] + payload + ['#', NibToHex(x / 16), NibToHex(x)] + rest;
    AttemptFrame(before, |before|, payload, NibToHex(x / 16), NibToHex(x), rest, max);
    SumRange(payload);
    ChecksumDigits(x);
  }

  /* Frames longer than the buffer: get_packet drops the rest of the payload and leaves it out
     of the checksum too, so it accepts a truncated payload exactly when what it dropped sums
     to a multiple of 256, and otherwise refuses every retransmission. */
  lemma OverlongFrame(prefix: seq<Octet>, payload: seq<Octet>, rest: seq<Octet>, max: nat)
    requires '$' !in prefix && '#' !in payload && 0 < max <= |payload|
    ensures Attempt(prefix + Frame(payload) + rest, 0, max).Accepted? <==> Sum(payload[max - 1..]) == 0
    ensures !Attempt(prefix + Frame(payload) + rest, 0, max).Starved?
  {
    hide NibToHex, Attempt, Total;
    var x := Sum(payload);
    assert prefix + Frame(payload) + rest == prefix + ['$'] + payload + ['#', NibToHex(x / 16), NibToHex(x)] + rest;
    AttemptFrame(prefix, 0, payload, NibToHex(x / 16), NibToHex(x), rest, max);
    ChecksumDigits(x);
    TotalSplit(payload, max - 1);
    SumOfRemainders(Total(payload[..max - 1]), Total(payload[max - 1..]));
  }

  lemma {:induction false} TotalSplit(s: seq<Octet>, k: nat)
    requires k <= |s|
    ensures Total(s) == Total(s[..k]) + Total(s[k..])
  {
    var n := |s| - 1;
    if k == |s| {
      assert s[..k] == s;
    } else {
      TotalSplit(s[..n], k);
      assert s[..n][..k] == s[..k] && s[..n][k..] == s[k..][..n - k];
    }
  }

  lemma {:induction false} TotalAppends(a: seq<Octet>, b: seq<Octet>)
    ensures Total(a + b) == Total(a) + Total(b)
    decreases |b|
  {
    if b == [] {
      assert a + b == a;
    } else {
      assert (a + b)[..|a + b| - 1] == a + b[..|b| - 1];
      TotalAppends(a, b[..|b| - 1]);
    }
  }

  // The checksum is the sum of the characters modulo 256.
  lemma SumAppends(a: seq<Octet>, b: seq<Octet>, c: Octet)
    ensures Sum([]) == 0 && Sum([c]) == c as int && Sum(a + b) == (Sum(a) + Sum(b)) % 256
  {
    TotalAppends(a, b);
    SumOfRemainders(Total(a), Total(b));
    assert [c][..0] == [];
  }

  // The frame every acceptance is answered with.
  lemma OkFrame()
    ensures Frame(['O', 'K']) == ['$', 'O', 'K', '#', '9', 'a']
  {
    assert ['O', 'K'][..1] == ['O'] && ['O'][..0] == [];
    assert Total(['O']) == 79;
    assert Total(['O', 'K']) == 154;
  }
}
