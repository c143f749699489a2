/**
  The ref-update section of a receive-pack request: pkt-lines up to a flush packet, followed by
  the pack, which the parser must leave unread.
 */
module ReceiveRequest {
  import opened ObjectIds
  import opened Ascii
  import opened Wrappers
  import opened Sequences
  import opened Keys
  import opened KvObjects
  import opened Refs

  datatype Error = EndOfInput | BadNumber | BadLength(n: nat) | BadObjectId | BadRefname | TooManyUpdates

  /** The updates and what is left to read, or the first error. */
  datatype Request = Read(updates: seq<RefUpdate>, rest: Bytes) | Failed(error: Error)

  function Nibble(b: byte): Option<nat> {
    if 48 <= b <= 57 then Some((b - 48) as nat)
    else if 97 <= b <= 102 then Some((b - 87) as nat)
    else if 65 <= b <= 70 then Some((b - 55) as nat)
    else None
  }

  function Digit(d: nat): byte
    requires d < 16
  {
    if d < 10 then (48 + d) as byte else (87 + d) as byte
  }

  /** A hexadecimal number; the standard library lets a plus sign precede it. */
  function Number(s: Bytes): Option<nat> {
    if |s| > 1 && s[0] == PLUS then Digits(s[1..]) else Digits(s)
  }

  function Digits(s: Bytes): Option<nat> {
    if s == [] then Some(0)
    else
      var high, low := Digits(s[..|s| - 1]), Nibble(s[|s| - 1]);
      if high.Some? && low.Some? then Some(16 * high.value + low.value) else None
  }

  /** Pairs of hexadecimal digits, of either case, as bytes. */
  function Unhex(s: Bytes): Option<Bytes> {
    if s == [] then Some([])
    else if |s| == 1 then None
    else
      var front, high, low := Unhex(s[..|s| - 2]), Nibble(s[|s| - 2]), Nibble(s[|s| - 1]);
      if front.None? || high.None? || low.None? then None
      else Some(front.value + [(16 * high.value + low.value) as byte])
  }

  function OidFromHex(s: Bytes): Option<Oid> {
    if |s| != 40 then None
    else
      var b := Unhex(s);
      if b.None? then None else OidFromBytes(b.value)
  }

  datatype Parsed = Ignored | Update(u: RefUpdate) | Malformed(error: Error)

  /** One command; a line with fewer than three fields is passed over. */
  function Command(line: Bytes, isUtf8: Bytes -> bool): Parsed {
    var i := Find(line, SPACE);
    if i == |line| then Ignored
    else
      var rest := line[i + 1..];
      var j := Find(rest, SPACE);
      if j == |rest| then Ignored
      else
        var oldOid, newOid, name := OidFromHex(line[..i]), OidFromHex(rest[..j]), rest[j + 1..];
        if oldOid.None? || newOid.None? then Malformed(BadObjectId)
        else if !isUtf8(name) then Malformed(BadRefname)
        else Update(RefUpdate(oldOid.value, newOid.value, name))
  }

  /** The payload without one trailing newline and, on the first line, without the capabilities. */
  function Line(data: Bytes, first: bool): Bytes {
    var line := if data != [] && data[|data| - 1] == NEWLINE then data[..|data| - 1] else data;
    if first then line[..Find(line, NUL)] else line
  }

  function Parse(body: Bytes, first: bool, got: seq<RefUpdate>, max: nat, isUtf8: Bytes -> bool): Request
    decreases |body|
  {
    if |body| < 4 then Failed(EndOfInput)
    else
      var n := Number(body[..4]);
      if n.None? then Failed(BadNumber)
      else if n.value == 0 then Read(got, body[4..])
      else if n.value < 4 then Failed(BadLength(n.value))
      else if |body| < n.value then Failed(EndOfInput)
      else
        match Command(Line(body[4..n.value], first), isUtf8)
        case Ignored => Parse(body[n.value..], false, got, max, isUtf8)
        case Malformed(e) => Failed(e)
        case Update(u) =>
          if |got| + 1 > max then Failed(TooManyUpdates) else Parse(body[n.value..], false, got + [u], max, isUtf8)
  }

  /** The reading loop: length, payload, command, until the flush packet. */
  method ReadReceiveRequest(body: Bytes, max: nat, isUtf8: Bytes -> bool) returns (r: Request)
    ensures r == Parse(body, true, [], max, isUtf8)
  {
    hide Command, Line, Number;
    var rest, first, updates := body, true, [];
    while true
      invariant Parse(rest, first, updates, max, isUtf8) == Parse(body, true, [], max, isUtf8)
      decreases |rest|
    {
      if |rest| < 4 {
        return Failed(EndOfInput);
      }
      var len := Number(rest[..4]);
      if len.None? {
        return Failed(BadNumber);
      }
      if len.value == 0 {
        return Read(updates, rest[4..]);
      }
      if len.value < 4 {
        return Failed(BadLength(len.value));
      }
      if |rest| < len.value {
        return Failed(EndOfInput);
      }
      var command := Command(Line(rest[4..len.value], first), isUtf8);
      if command.Malformed? {
        return Failed(command.error);
      }
      if command.Update? {
        if |updates| + 1 > max {
          return Failed(TooManyUpdates);
        }
        updates := updates + [command.u];
      }
      first, rest := false, rest[len.value..];
    }
  }

  // The sender's side.

  function Hex(b: Bytes): (s: Bytes)
    ensures |s| == 2 * |b|
  {
    if b == [] then [] else Hex(b[..|b| - 1]) + [Digit(b[|b| - 1] as nat / 16), Digit(b[|b| - 1] as nat % 16)]
  }

  function LengthField(n: nat): Bytes
    requires n < 0x1_0000
  {
    [Digit(n / 16 / 16 / 16), Digit(n / 16 / 16 % 16), Digit(n / 16 % 16), Digit(n % 16)]
  }

  const FLUSH: Bytes := [48, 48, 48, 48]

  /** A command to send, with or without the optional newline at the end. */
  datatype Sent = Sent(u: RefUpdate, newline: bool)

  function Payload(c: Sent, caps: Option<Bytes>): Bytes {
    Fields(c.u) + (if caps.Some? then [NUL] + caps.value else []) + if c.newline then [NEWLINE] else []
  }

  function Fields(u: RefUpdate): Bytes {
    Hex(OidBytes(u.oldOid)) + [SPACE] + Hex(OidBytes(u.newOid)) + [SPACE] + u.refname
  }

  function PktLine(data: Bytes): Bytes
    requires |data| + 4 < 0x1_0000
  {
    LengthField(|data| + 4) + data
  }

  /** The payload fits its length field, and no newline of the name can pass for the optional one. */
  predicate Sendable(c: Sent, caps: Option<Bytes>) {
    && |Payload(c, caps)| + 4 < 0x1_0000
    && (!c.newline && caps.None? && c.u.refname != [] ==> c.u.refname[|c.u.refname| - 1] != NEWLINE)
  }

  predicate AllSendable(cs: seq<Sent>, caps: Option<Bytes>) {
    forall i :: 0 <= i < |cs| ==> Sendable(cs[i], if i == 0 then caps else None)
  }

  /** Commands after the first one. */
  function Lines(cs: seq<Sent>): Bytes
    requires AllSendable(cs, None)
  {
    if cs == [] then []
    else
      assert forall i :: 0 <= i < |cs| - 1 ==> cs[1..][i] == cs[i + 1];
      PktLine(Payload(cs[0], None)) + Lines(cs[1..])
  }

  /** A whole request: capabilities ride on the first command. */
  function Encode(cs: seq<Sent>, caps: Option<Bytes>, pack: Bytes): Bytes
    requires AllSendable(cs, caps)
  {
    if cs == [] then FLUSH + pack
    else
      assert forall i :: 0 <= i < |cs| - 1 ==> cs[1..][i] == cs[i + 1];
      PktLine(Payload(cs[0], caps)) + (Lines(cs[1..]) + (FLUSH + pack))
  }

  function Updates(cs: seq<Sent>): seq<RefUpdate> {
    seq(|cs|, i requires 0 <= i < |cs| => cs[i].u)
  }

  /** A refname as it is seen on the first line. */
  function CutName(name: Bytes): Bytes {
    name[..Find(name, NUL)]
  }

  function Seen(cs: seq<Sent>): seq<RefUpdate> {
    if cs == [] then [] else [cs[0].u.(refname := CutName(cs[0].u.refname))] + Updates(cs[1..])
  }

  lemma NibbleDigit(d: nat)
    requires d < 16
    ensures Nibble(Digit(d)) == Some(d)
    ensures Digit(d) != SPACE && Digit(d) != NUL && Digit(d) != PLUS
  {
  }

  lemma ByteSplit(x: byte)
    ensures x as nat / 16 < 16 && x as nat % 16 < 16 && 16 * (x as nat / 16) + x as nat % 16 == x as nat
  {
  }

  lemma {:induction false} HexRoundTrip(b: Bytes)
    ensures Unhex(Hex(b)) == Some(b)
    ensures SPACE !in Hex(b) && NUL !in Hex(b)
    decreases |b|
  {
    hide Nibble, Digit, Unhex;
    if b == [] {
      EmptyUnhex();
    } else {
      var front, last := b[..|b| - 1], b[|b| - 1];
      ByteSplit(last);
      var high, low := last as nat / 16, last as nat % 16;
      assert Hex(b) == Hex(front) + [Digit(high), Digit(low)];
      hide Hex;
      HexRoundTrip(front);
      NibbleDigit(high);
      NibbleDigit(low);
      UnhexPair(Hex(front), Digit(high), Digit(low));
      assert b == front + [last];
    }
  }

  lemma EmptyUnhex()
    ensures Unhex([]) == Some([])
  {
  }

  lemma UnhexPair(s: Bytes, x: byte, y: byte)
    requires Unhex(s).Some? && Nibble(x).Some? && Nibble(y).Some?
    ensures Nibble(x).value < 16 && Nibble(y).value < 16
    ensures Unhex(s + [x, y]) == Some(Unhex(s).value + [(16 * Nibble(x).value + Nibble(y).value) as byte])
  {
    var t := s + [x, y];
    assert t[..|t| - 2] == s;
  }

  lemma OidHexRoundTrip(oid: Oid)
    ensures |Hex(OidBytes(oid))| == 40 && OidFromHex(Hex(OidBytes(oid))) == Some(oid)
    ensures SPACE !in Hex(OidBytes(oid)) && NUL !in Hex(OidBytes(oid))
  {
    hide Hex, Unhex, OidFromBytes, OidBytes;
    HexRoundTrip(OidBytes(oid));
    OidRoundTrip(oid);
  }

  /** `A` to `F` as `a` to `f`. */
  function Lowered(s: Bytes): Bytes {
    seq(|s|, i requires 0 <= i < |s| => if 65 <= s[i] <= 70 then s[i] + 32 else s[i])
  }

  predicate HexDigit(b: byte) {
    48 <= b <= 57 || 97 <= b <= 102 || 65 <= b <= 70
  }

  lemma NibbleIff(b: byte)
    ensures Nibble(b).Some? <==> HexDigit(b)
    ensures 65 <= b <= 70 ==> Nibble(b + 32) == Nibble(b)
  {
  }

  lemma UnhexParts(s: Bytes)
    requires |s| >= 2
    ensures Unhex(s) == var front, high, low := Unhex(s[..|s| - 2]), Nibble(s[|s| - 2]), Nibble(s[|s| - 1]);
      if front.None? || high.None? || low.None? then None
      else Some(front.value + [(16 * high.value + low.value) as byte])
  {
    hide Nibble;
  }

  lemma LoweredParts(s: Bytes)
    requires |s| >= 2
    ensures Lowered(s)[..|s| - 2] == Lowered(s[..|s| - 2])
    ensures Nibble(Lowered(s)[|s| - 2]) == Nibble(s[|s| - 2]) && Nibble(Lowered(s)[|s| - 1]) == Nibble(s[|s| - 1])
  {
    hide Nibble;
    NibbleIff(s[|s| - 2]);
    NibbleIff(s[|s| - 1]);
  }

  lemma {:induction false} UnhexIff(s: Bytes)
    ensures Unhex(s).Some? <==> |s| % 2 == 0 && forall i :: 0 <= i < |s| ==> HexDigit(s[i])
    ensures Unhex(s).Some? ==> |Unhex(s).value| == |s| / 2
    decreases |s|
  {
    hide Nibble, HexDigit;
    if |s| >= 2 {
      var front := s[..|s| - 2];
      UnhexIff(front);
      NibbleIff(s[|s| - 2]);
      NibbleIff(s[|s| - 1]);
      assert forall i :: 0 <= i < |front| ==> front[i] == s[i];
    }
  }

  lemma {:induction false} CaseIsIgnored(s: Bytes)
    ensures Unhex(Lowered(s)) == Unhex(s)
    decreases |s|
  {
    if |s| >= 2 {
      hide Nibble, Unhex, Lowered;
      assert |Lowered(s)| == |s| by { LoweredLength(s); }
      CaseIsIgnored(s[..|s| - 2]);
      LoweredParts(s);
      UnhexParts(s);
      UnhexParts(Lowered(s));
    }
  }

  /** An id is read from exactly forty hexadecimal digits, of either case; forty zeros are the null id. */
  lemma OidFromHexIff(s: Bytes)
    ensures OidFromHex(s).Some? <==>
      |s| == 40 && forall i :: 0 <= i < |s| ==> 48 <= s[i] <= 57 || 97 <= s[i] <= 102 || 65 <= s[i] <= 70
    ensures OidFromHex(Lowered(s)) == OidFromHex(s)
    ensures s == seq(40, _ => 48) ==> OidFromHex(s) == Some(NULL_OID)
  {
    hide Unhex, Lowered;
    UnhexIff(s);
    CaseIsIgnored(s);
    assert |Lowered(s)| == |s| by { LoweredLength(s); }
    if s == seq(40, _ => 48) {
      ZeroHex(20);
      OidHexRoundTrip(0);
      ZeroBytes(20);
      assert OidBytes(0) == seq(20, _ => 0);
    }
  }

  lemma LoweredLength(s: Bytes)
    ensures |Lowered(s)| == |s|
  {
  }

  lemma {:induction false} ZeroBytes(k: nat)
    ensures BigEndian(0, k) == seq(k, _ => 0)
  {
    if k > 0 { ZeroBytes(k - 1); }
  }

  lemma {:induction false} ZeroHex(k: nat)
    ensures Hex(seq(k, _ => 0)) == seq(2 * k, _ => 48)
  {
    if k > 0 {
      ZeroHex(k - 1);
      var b: Bytes := seq(k, _ => 0);
      assert b[..k - 1] == seq(k - 1, _ => 0);
    }
  }

  lemma DigitsSnoc(s: Bytes, d: nat)
    requires d < 16 && Digits(s).Some?
    ensures Digits(s + [Digit(d)]) == Some(16 * Digits(s).value + d)
  {
    NibbleDigit(d);
    assert (s + [Digit(d)])[..|s|] == s;
  }

  lemma FourDigits(a: nat, b: nat, c: nat, d: nat)
    requires a < 16 && b < 16 && c < 16 && d < 16
    ensures Number([Digit(a), Digit(b), Digit(c), Digit(d)]) == Some(16 * (16 * (16 * a + b) + c) + d)
  {
    assert Digits([]) == Some(0);
    hide Digit, Digits;
    DigitsSnoc([], a);
    var s1 := [Digit(a)];
    assert [] + [Digit(a)] == s1;
    DigitsSnoc(s1, b);
    DigitsSnoc(s1 + [Digit(b)], c);
    DigitsSnoc(s1 + [Digit(b)] + [Digit(c)], d);
    assert [Digit(a), Digit(b), Digit(c), Digit(d)] == s1 + [Digit(b)] + [Digit(c)] + [Digit(d)];
    NibbleDigit(a);
  }

  /** The library's number parser lets a plus sign stand for the first digit. */
  lemma PlusDigits(b: nat, c: nat, d: nat)
    requires b < 16 && c < 16 && d < 16
    ensures Number([43, Digit(b), Digit(c), Digit(d)]) == Some(16 * (16 * b + c) + d)
  {
    hide Digit;
    FourDigits(0, b, c, d);
    NibbleDigit(0);
    var digits := [Digit(b), Digit(c), Digit(d)];
    assert [43, Digit(b), Digit(c), Digit(d)][1..] == digits;
    assert Digits([]) == Some(0) && Digits([Digit(b)]) == Digits([] + [Digit(b)]);
    hide Digits;
    DigitsSnoc([], b);
    DigitsSnoc([Digit(b)], c);
    DigitsSnoc([Digit(b)] + [Digit(c)], d);
    assert digits == [Digit(b)] + [Digit(c)] + [Digit(d)];
  }

  lemma NumberRoundTrip(n: nat)
    requires n < 0x1_0000
    ensures Number(LengthField(n)) == Some(n)
    ensures n < 0x1000 ==> Number([43] + LengthField(n)[1..]) == Some(n)
  {
    PlusDigits(n / 16 / 16 % 16, n / 16 % 16, n % 16);
    hide Number, Digit;
    FourDigits(n / 16 / 16 / 16, n / 16 / 16 % 16, n / 16 % 16, n % 16);
  }

  lemma SplitAt(a: Bytes, b: byte, c: Bytes)
    requires b !in a
    ensures var s := a + [b] + c; Find(s, b) == |a| && s[..|a|] == a && s[|a| + 1..] == c
  {
    FindAt(a, b, a + [b] + c);
  }

  lemma FieldsCommand(u: RefUpdate, isUtf8: Bytes -> bool)
    requires isUtf8(u.refname)
    ensures Command(Fields(u), isUtf8) == Update(u)
  {
    hide Hex, OidBytes, OidFromHex, Find;
    OidHexRoundTrip(u.oldOid);
    OidHexRoundTrip(u.newOid);
    var a, b := Hex(OidBytes(u.oldOid)), Hex(OidBytes(u.newOid));
    SplitAt(a, SPACE, b + [SPACE] + u.refname);
    SplitAt(b, SPACE, u.refname);
    assert Fields(u) == a + [SPACE] + (b + [SPACE] + u.refname);
  }

  /** What the parser makes of a payload's text before it looks at the fields. */
  lemma PayloadLine(c: Sent, caps: Option<Bytes>, first: bool)
    requires Sendable(c, caps)
    requires first || caps.None?
    ensures Line(Payload(c, caps), first) == Fields(if first then c.u.(refname := CutName(c.u.refname)) else c.u)
  {
    hide Hex, OidBytes, Find;
    var fields := Fields(c.u);
    var tail := if caps.Some? then [NUL] + caps.value else [];
    var data := Payload(c, caps);
    var line := if data != [] && data[|data| - 1] == NEWLINE then data[..|data| - 1] else data;
    if caps.None? {
      assert tail == [];
      LastOfFields(c.u);
      assert line == fields;
    } else {
      assert fields + [NUL] <= line;
    }
    if first {
      CutFields(c.u, line);
    }
  }

  /** The last byte of the fields is the last of the name, or the space before an empty one. */
  lemma LastOfFields(u: RefUpdate)
    ensures |Fields(u)| > 0
    ensures Fields(u)[|Fields(u)| - 1] == if u.refname == [] then SPACE else u.refname[|u.refname| - 1]
  {
  }

  function Head(u: RefUpdate): Bytes {
    Hex(OidBytes(u.oldOid)) + [SPACE] + Hex(OidBytes(u.newOid)) + [SPACE]
  }

  lemma HeadHasNoNul(u: RefUpdate)
    ensures NUL !in Head(u) && Fields(u) == Head(u) + u.refname
  {
    hide Hex, OidBytes, OidFromHex;
    OidHexRoundTrip(u.oldOid);
    OidHexRoundTrip(u.newOid);
  }

  lemma CutFields(u: RefUpdate, line: Bytes)
    requires line == Fields(u) || Fields(u) + [NUL] <= line
    ensures line[..Find(line, NUL)] == Fields(u.(refname := CutName(u.refname)))
  {
    hide Head, Fields;
    var u' := u.(refname := CutName(u.refname));
    HeadHasNoNul(u);
    HeadHasNoNul(u');
    SameHead(u, u');
    var before := Head(u) + CutName(u.refname);
    assert before <= Fields(u) <= line;
    FindAt(before, NUL, line);
  }

  lemma SameHead(u: RefUpdate, u': RefUpdate)
    requires u.oldOid == u'.oldOid && u.newOid == u'.newOid
    ensures Head(u) == Head(u')
  {
  }

  /** One well-formed line is consumed whole, and nothing after it. */
  lemma LineStep(
      c: Sent, caps: Option<Bytes>, first: bool, tail: Bytes, got: seq<RefUpdate>, max: nat, isUtf8: Bytes -> bool)
    requires Sendable(c, caps) && (first || caps.None?)
    requires isUtf8(if first then CutName(c.u.refname) else c.u.refname)
    ensures Parse(PktLine(Payload(c, caps)) + tail, first, got, max, isUtf8) ==
      if |got| + 1 > max then Failed(TooManyUpdates)
      else Parse(tail, false, got + [if first then c.u.(refname := CutName(c.u.refname)) else c.u], max, isUtf8)
  {
    hide Payload, Line, Command, Number, Fields, Find;
    var data := Payload(c, caps);
    var body := PktLine(data) + tail;
    NumberRoundTrip(|data| + 4);
    assert body[..4] == LengthField(|data| + 4) && body[4..|data| + 4] == data && body[|data| + 4..] == tail;
    PayloadLine(c, caps, first);
    FieldsCommand(if first then c.u.(refname := CutName(c.u.refname)) else c.u, isUtf8);
  }

  lemma FlushStep(pack: Bytes, first: bool, got: seq<RefUpdate>, max: nat, isUtf8: Bytes -> bool)
    ensures Parse(FLUSH + pack, first, got, max, isUtf8) == Read(got, pack)
  {
    NumberRoundTrip(0);
    hide Number;
    assert (FLUSH + pack)[..4] == LengthField(0) && (FLUSH + pack)[4..] == pack;
  }

  lemma {:induction false} LinesRoundTrip(
      cs: seq<Sent>, pack: Bytes, got: seq<RefUpdate>, max: nat, isUtf8: Bytes -> bool)
    requires AllSendable(cs, None) && forall i :: 0 <= i < |cs| ==> isUtf8(cs[i].u.refname)
    requires |got| <= max
    ensures Parse(Lines(cs) + (FLUSH + pack), false, got, max, isUtf8) ==
      if |got| + |cs| <= max then Read(got + Updates(cs), pack) else Failed(TooManyUpdates)
    decreases |cs|
  {
    hide Parse, Payload, LengthField;
    if cs == [] {
      assert Lines(cs) + (FLUSH + pack) == FLUSH + pack;
      FlushStep(pack, false, got, max, isUtf8);
      assert got + Updates(cs) == got;
    } else {
      var rest := cs[1..];
      assert forall i :: 0 <= i < |rest| ==> rest[i] == cs[i + 1];
      assert Lines(cs) + (FLUSH + pack) == PktLine(Payload(cs[0], None)) + (Lines(rest) + (FLUSH + pack));
      LineStep(cs[0], None, false, Lines(rest) + (FLUSH + pack), got, max, isUtf8);
      if |got| + 1 <= max {
        LinesRoundTrip(rest, pack, got + [cs[0].u], max, isUtf8);
        assert got + [cs[0].u] + Updates(rest) == got + Updates(cs);
      }
    }
  }

  /** The first refname alone can come back changed, and only if it holds a NUL byte. */
  lemma SeenIsSentIff(cs: seq<Sent>)
    ensures Seen(cs) == Updates(cs) <==> cs == [] || NUL !in cs[0].u.refname
  {
    hide CutName;
    if cs != [] {
      CutIsWhole(cs[0].u.refname);
      assert Updates(cs) == [cs[0].u] + Updates(cs[1..]);
      assert Seen(cs)[0].refname == CutName(cs[0].u.refname) && Updates(cs)[0].refname == cs[0].u.refname;
    }
  }

  lemma CutIsWhole(name: Bytes)
    ensures CutName(name) == name <==> NUL !in name
  {
    assert name[..|name|] == name;
  }

  lemma SeenRest(cs: seq<Sent>, isUtf8: Bytes -> bool)
    requires cs != [] && forall u :: u in Seen(cs) ==> isUtf8(u.refname)
    ensures isUtf8(CutName(cs[0].u.refname)) && forall i :: 0 <= i < |cs| - 1 ==> isUtf8(cs[1..][i].u.refname)
  {
    hide CutName;
    assert Seen(cs)[0].refname == CutName(cs[0].u.refname);
    forall i | 0 <= i < |cs| - 1 ensures isUtf8(cs[1..][i].u.refname) {
      assert Seen(cs)[i + 1] == cs[1..][i].u;
    }
  }

  /**
    Parsing undoes encoding and leaves the pack unread: for any capabilities, any pack and any
    number of commands the limit allows; one command more is an error.  The first refname ends
    where a NUL byte starts the capabilities.
   */
  lemma RequestRoundTrip(cs: seq<Sent>, caps: Option<Bytes>, pack: Bytes, max: nat, isUtf8: Bytes -> bool)
    requires AllSendable(cs, caps) && forall u :: u in Seen(cs) ==> isUtf8(u.refname)
    ensures Parse(Encode(cs, caps, pack), true, [], max, isUtf8) ==
      if |cs| <= max then Read(Seen(cs), pack) else Failed(TooManyUpdates)
  {
    hide Parse, PktLine, Payload, Sendable, CutName, Lines;
    if cs == [] {
      FlushStep(pack, true, [], max, isUtf8);
    } else {
      var rest, head := cs[1..], cs[0].u.(refname := CutName(cs[0].u.refname));
      assert forall i :: 0 <= i < |rest| ==> rest[i] == cs[i + 1];
      SeenRest(cs, isUtf8);
      LineStep(cs[0], caps, true, Lines(rest) + (FLUSH + pack), [], max, isUtf8);
      if 1 <= max {
        assert [] + [head] == [head];
        LinesRoundTrip(rest, pack, [head], max, isUtf8);
      }
    }
  }

  /**
    The pack does not matter: whenever some input is accepted, what was left unread is a suffix
    of it, and any other suffix is left unread in the same way.
   */
  lemma {:induction false} PackIsNotRead(
      body: Bytes, first: bool, got: seq<RefUpdate>, max: nat, isUtf8: Bytes -> bool, pack: Bytes)
    requires Parse(body, first, got, max, isUtf8).Read?
    ensures var r := Parse(body, first, got, max, isUtf8);
      && |r.rest| <= |body| && body[|body| - |r.rest|..] == r.rest
      && Parse(body[..|body| - |r.rest|] + pack, first, got, max, isUtf8) == Read(r.updates, pack)
    decreases |body|
  {
    hide Line, Command, Number;
    var r := Parse(body, first, got, max, isUtf8);
    var n := Number(body[..4]).value;
    if n == 0 {
      Spliced(body, 4, 4, pack);
    } else {
      var command := Command(Line(body[4..n], first), isUtf8);
      var got' := if command.Update? then got + [command.u] else got;
      PackIsNotRead(body[n..], false, got', max, isUtf8, pack);
      Spliced(body, n, |body| - |r.rest|, pack);
    }
  }

  /** Replacing what comes after `k` changes nothing before it. */
  lemma Spliced(body: Bytes, n: nat, k: nat, pack: Bytes)
    requires 4 <= n <= k <= |body|
    ensures var s := body[..k] + pack;
      && s[..4] == body[..4] && s[4..n] == body[4..n] && s[n..] == body[n..][..k - n] + pack
      && (k == n ==> s[n..] == pack) && body[n..][k - n..] == body[k..]
  {
  }

  /** No accepted request has more updates than the limit, counting those already read. */
  lemma {:induction false} LimitHolds(body: Bytes, first: bool, got: seq<RefUpdate>, max: nat, isUtf8: Bytes -> bool)
    requires Parse(body, first, got, max, isUtf8).Read? && |got| <= max
    ensures |Parse(body, first, got, max, isUtf8).updates| <= max
    ensures forall u :: u in Parse(body, first, got, max, isUtf8).updates ==> u in got || isUtf8(u.refname)
    decreases |body|
  {
    hide Line, Number, Find, OidFromHex;
    var n := Number(body[..4]).value;
    if n != 0 {
      var command := Command(Line(body[4..n], first), isUtf8);
      var got' := if command.Update? then got + [command.u] else got;
      LimitHolds(body[n..], false, got', max, isUtf8);
    }
  }

  // Lines that are no commands.

  /** At most one space, so fewer than three fields. */
  predicate FewFields(line: Bytes) {
    forall i, j :: 0 <= i < j < |line| ==> line[i] != 32 || line[j] != 32
  }

  /** Exactly the lines with fewer than two spaces are passed over. */
  lemma IgnoredIff(line: Bytes, isUtf8: Bytes -> bool)
    ensures Command(line, isUtf8).Ignored? <==> FewFields(line)
  {
  }

  /** A command is three fields, the last of which may hold spaces; the first fault decides. */
  lemma CommandOf(a: Bytes, b: Bytes, name: Bytes, isUtf8: Bytes -> bool)
    requires 32 !in a && 32 !in b
    ensures Command(a + [32] + b + [32] + name, isUtf8) ==
      if OidFromHex(a).None? || OidFromHex(b).None? then Malformed(BadObjectId)
      else if !isUtf8(name) then Malformed(BadRefname)
      else Update(RefUpdate(OidFromHex(a).value, OidFromHex(b).value, name))
  {
    hide OidFromHex, Find;
    SplitAt(a, SPACE, b + [SPACE] + name);
    SplitAt(b, SPACE, name);
    assert a + [32] + b + [32] + name == a + [SPACE] + (b + [SPACE] + name);
  }

  /** Payloads in pkt-lines, up to a flush packet that `rest` follows. */
  ghost predicate Framed(body: Bytes, payloads: seq<Bytes>, rest: Bytes)
    decreases |payloads|
  {
    |body| >= 4 &&
    if payloads == [] then Number(body[..4]) == Some(0) && rest == body[4..]
    else
      var n := |payloads[0]| + 4;
      n <= |body| && Number(body[..4]) == Some(n) && body[4..n] == payloads[0] && Framed(body[n..], payloads[1..], rest)
  }

  /** The commands among the payloads; only the very first line may carry capabilities. */
  ghost function Commands(payloads: seq<Bytes>, first: bool, isUtf8: Bytes -> bool): seq<RefUpdate> {
    if payloads == [] then []
    else
      var command := Command(Line(payloads[0], first), isUtf8);
      (if command.Update? then [command.u] else []) + Commands(payloads[1..], false, isUtf8)
  }

  ghost predicate AllWell(payloads: seq<Bytes>, first: bool, isUtf8: Bytes -> bool) {
    payloads != [] ==>
      !Command(Line(payloads[0], first), isUtf8).Malformed? && AllWell(payloads[1..], false, isUtf8)
  }

  /** One framed line is read, and nothing after it. */
  lemma FramedStep(
      body: Bytes, data: Bytes, first: bool, got: seq<RefUpdate>, max: nat, isUtf8: Bytes -> bool)
    requires 4 <= |data| + 4 <= |body| && Number(body[..4]) == Some(|data| + 4) && body[4..|data| + 4] == data
    requires !Command(Line(data, first), isUtf8).Malformed?
    ensures var command, rest := Command(Line(data, first), isUtf8), body[|data| + 4..];
      && (command.Ignored? ==>
            Parse(body, first, got, max, isUtf8) == Parse(rest, false, got, max, isUtf8))
      && (command.Update? && |got| < max ==>
            Parse(body, first, got, max, isUtf8) == Parse(rest, false, got + [command.u], max, isUtf8))
  {
    hide Line, Command, Number;
  }

  lemma FramedEnd(
      body: Bytes, rest: Bytes, first: bool, got: seq<RefUpdate>, max: nat, isUtf8: Bytes -> bool)
    requires Framed(body, [], rest)
    ensures Parse(body, first, got, max, isUtf8) == Read(got + Commands([], first, isUtf8), rest)
  {
    hide Number;
    assert got + [] == got;
  }

  lemma {:induction false} FramedIsRead(
      body: Bytes, payloads: seq<Bytes>, rest: Bytes, first: bool, got: seq<RefUpdate>, max: nat,
      isUtf8: Bytes -> bool)
    requires Framed(body, payloads, rest) && AllWell(payloads, first, isUtf8)
    requires var us := Commands(payloads, first, isUtf8); us == [] || |got| + |us| <= max
    ensures Parse(body, first, got, max, isUtf8) == Read(got + Commands(payloads, first, isUtf8), rest)
    decreases |payloads|
  {
    hide Line, Command, Number, Parse, Framed, AllWell, Commands;
    if payloads == [] {
      FramedEnd(body, rest, first, got, max, isUtf8);
    } else {
      FirstPayload(body, payloads, rest, first, isUtf8);
      var command := Command(Line(payloads[0], first), isUtf8);
      var later, tail := Commands(payloads[1..], false, isUtf8), body[|payloads[0]| + 4..];
      FramedStep(body, payloads[0], first, got, max, isUtf8);
      if command.Update? {
        assert Commands(payloads, first, isUtf8) == [command.u] + later;
        FramedIsRead(tail, payloads[1..], rest, false, got + [command.u], max, isUtf8);
        assert got + [command.u] + later == got + ([command.u] + later);
      } else {
        assert Commands(payloads, first, isUtf8) == later;
        FramedIsRead(tail, payloads[1..], rest, false, got, max, isUtf8);
      }
    }
  }

  lemma FirstPayload(body: Bytes, payloads: seq<Bytes>, rest: Bytes, first: bool, isUtf8: Bytes -> bool)
    requires payloads != [] && Framed(body, payloads, rest) && AllWell(payloads, first, isUtf8)
    ensures var n, command := |payloads[0]| + 4, Command(Line(payloads[0], first), isUtf8);
      && n <= |body| && Number(body[..4]) == Some(n) && body[4..n] == payloads[0]
      && Framed(body[n..], payloads[1..], rest)
      && !command.Malformed? && AllWell(payloads[1..], false, isUtf8)
      && Commands(payloads, first, isUtf8)
         == (if command.Update? then [command.u] else []) + Commands(payloads[1..], false, isUtf8)
  {
    hide Line, Command, Number;
  }

  lemma {:induction false} ReadIsFramed(
      body: Bytes, first: bool, got: seq<RefUpdate>, max: nat, isUtf8: Bytes -> bool)
    returns (payloads: seq<Bytes>)
    requires Parse(body, first, got, max, isUtf8).Read?
    ensures var r, us := Parse(body, first, got, max, isUtf8), Commands(payloads, first, isUtf8);
      && Framed(body, payloads, r.rest) && AllWell(payloads, first, isUtf8)
      && r.updates == got + us && (us == [] || |got| + |us| <= max)
    decreases |body|
  {
    hide Line, Command, Number;
    var n := Number(body[..4]).value;
    if n == 0 {
      payloads := [];
      assert got + [] == got;
    } else {
      var data := body[4..n];
      var command := Command(Line(data, first), isUtf8);
      var mine := if command.Update? then [command.u] else [];
      assert got + [] == got;
      var later := ReadIsFramed(body[n..], false, got + mine, max, isUtf8);
      payloads := [data] + later;
      assert payloads[1..] == later;
      var us := Commands(later, false, isUtf8);
      assert got + mine + us == got + (mine + us);
    }
  }

  /**
    What is accepted: exactly pkt-lines that a flush packet ends, none of them a malformed
    command, with no more commands than the limit; the updates are the commands in order, and
    everything after the flush packet is left.
   */
  lemma AcceptedIff(body: Bytes, max: nat, isUtf8: Bytes -> bool, us: seq<RefUpdate>, rest: Bytes)
    ensures Parse(body, true, [], max, isUtf8) == Read(us, rest) <==>
      exists payloads ::
        && Framed(body, payloads, rest) && AllWell(payloads, true, isUtf8)
        && us == Commands(payloads, true, isUtf8) && |us| <= max
  {
    hide Parse, Line, Command, Number;
    if Parse(body, true, [], max, isUtf8) == Read(us, rest) {
      var payloads := ReadIsFramed(body, true, [], max, isUtf8);
      assert us == Commands(payloads, true, isUtf8);
    }
    if payloads :|
      && Framed(body, payloads, rest) && AllWell(payloads, true, isUtf8)
      && us == Commands(payloads, true, isUtf8) && |us| <= max
    {
      FramedIsRead(body, payloads, rest, true, [], max, isUtf8);
      assert [] + us == us;
    }
  }
}
