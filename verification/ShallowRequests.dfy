/**
  Requests with lines that are no commands, such as the `shallow` lines of a push from a shallow
  clone, and what becomes of the commands behind them.
 */
module ShallowRequests {
  import opened ObjectIds
  import opened Ascii
  import opened Wrappers
  import opened Keys
  import opened Refs
  import opened ReceiveRequest

  /** Lines that are no commands fit their length fields and have fewer than three fields. */
  predicate AllPassedOver(lines: seq<Bytes>) {
    forall i :: 0 <= i < |lines| ==> |lines[i]| + 4 < 0x1_0000 && FewFields(lines[i])
  }

  function PassedOver(lines: seq<Bytes>): Bytes
    requires AllPassedOver(lines)
  {
    if lines == [] then []
    else
      assert forall i :: 0 <= i < |lines| - 1 ==> lines[1..][i] == lines[i + 1];
      PktLine(lines[0]) + PassedOver(lines[1..])
  }

  lemma FewFieldsLeft(data: Bytes, first: bool)
    requires FewFields(data)
    ensures FewFields(Line(data, first))
  {
    assert Line(data, first) <= data;
  }

  /** Lines that are no commands leave one trace: what follows is not the first line any more. */
  lemma {:induction false} PassedOverLines(
      lines: seq<Bytes>, tail: Bytes, first: bool, got: seq<RefUpdate>, max: nat, isUtf8: Bytes -> bool)
    requires AllPassedOver(lines)
    ensures Parse(PassedOver(lines) + tail, first, got, max, isUtf8)
         == Parse(tail, first && lines == [], got, max, isUtf8)
    decreases |lines|
  {
    hide Parse, Line, Command, Number, FewFields, LengthField;
    if lines == [] {
      assert PassedOver(lines) + tail == tail;
    } else {
      var data, rest := lines[0], lines[1..];
      assert forall i :: 0 <= i < |rest| ==> rest[i] == lines[i + 1];
      var body := PktLine(data) + (PassedOver(rest) + tail);
      assert PassedOver(lines) + tail == body;
      PktParts(data, PassedOver(rest) + tail);
      FewFieldsLeft(data, first);
      IgnoredIff(Line(data, first), isUtf8);
      FramedStep(body, data, first, got, max, isUtf8);
      PassedOverLines(rest, tail, false, got, max, isUtf8);
    }
  }

  lemma PktParts(data: Bytes, tail: Bytes)
    requires |data| + 4 < 0x1_0000
    ensures var body := PktLine(data) + tail;
      && |data| + 4 <= |body| && Number(body[..4]) == Some(|data| + 4)
      && body[4..|data| + 4] == data && body[|data| + 4..] == tail
  {
    hide Number;
    NumberRoundTrip(|data| + 4);
    assert (PktLine(data) + tail)[..4] == LengthField(|data| + 4);
  }

  /** Without one newline at the end. */
  function Chomped(b: Bytes): Bytes {
    if b != [] && b[|b| - 1] == 10 then b[..|b| - 1] else b
  }

  /** The refname of a command that carries capabilities and is not the first line. */
  function LateName(c: Sent, caps: Bytes): Bytes {
    Chomped(c.u.refname + [0] + caps + if c.newline then [10] else [])
  }

  lemma LateNameDiffers(c: Sent, caps: Bytes)
    ensures |LateName(c, caps)| > |c.u.refname|
  {
    var b := c.u.refname + [0] + caps + if c.newline then [10] else [];
    assert caps == [] && !c.newline ==> b[|b| - 1] == 0;
  }

  lemma LateLine(c: Sent, caps: Bytes)
    ensures Line(Payload(c, Some(caps)), false) == Fields(c.u.(refname := LateName(c, caps)))
  {
    hide Hex, OidBytes;
    var b := c.u.refname + [0] + caps + if c.newline then [10] else [];
    assert Payload(c, Some(caps)) == Head(c.u) + b;
    assert Chomped(Head(c.u) + b) == Head(c.u) + Chomped(b);
    SameHead(c.u, c.u.(refname := LateName(c, caps)));
  }

  /** A command with capabilities behind the first line: they end up in its refname. */
  lemma LateStep(
      c: Sent, caps: Bytes, tail: Bytes, got: seq<RefUpdate>, max: nat, isUtf8: Bytes -> bool)
    requires |Payload(c, Some(caps))| + 4 < 0x1_0000
    ensures var name := LateName(c, caps);
      Parse(PktLine(Payload(c, Some(caps))) + tail, false, got, max, isUtf8) ==
      if !isUtf8(name) then Failed(BadRefname)
      else if |got| + 1 > max then Failed(TooManyUpdates)
      else Parse(tail, false, got + [c.u.(refname := name)], max, isUtf8)
  {
    hide Payload, Line, Command, Number, Fields, LateName, LengthField;
    PktParts(Payload(c, Some(caps)), tail);
    LateLine(c, caps);
    var u := c.u.(refname := LateName(c, caps));
    FieldsOutcome(u, isUtf8);
  }

  lemma FieldsOutcome(u: RefUpdate, isUtf8: Bytes -> bool)
    ensures Command(Fields(u), isUtf8) == if isUtf8(u.refname) then Update(u) else Malformed(BadRefname)
  {
    hide Hex, OidBytes, OidFromHex, Command;
    OidHexRoundTrip(u.oldOid);
    OidHexRoundTrip(u.newOid);
    CommandOf(Hex(OidBytes(u.oldOid)), Hex(OidBytes(u.newOid)), u.refname, isUtf8);
  }

  /** The refname under which a command is read, as the first line or a later one. */
  function NameRead(c: Sent, caps: Option<Bytes>, first: bool): Bytes {
    if first then CutName(c.u.refname) else if caps.Some? then LateName(c, caps.value) else c.u.refname
  }

  lemma {:induction false} GotIsKept(
      body: Bytes, first: bool, got: seq<RefUpdate>, max: nat, isUtf8: Bytes -> bool)
    requires Parse(body, first, got, max, isUtf8).Read?
    ensures got <= Parse(body, first, got, max, isUtf8).updates
    decreases |body|
  {
    hide Line, Number, Command;
    var n := Number(body[..4]).value;
    if n != 0 {
      var command := Command(Line(body[4..n], first), isUtf8);
      GotIsKept(body[n..], false, if command.Update? then got + [command.u] else got, max, isUtf8);
    }
  }

  /** If anything is accepted, the first command is read under that name. */
  lemma FirstCommand(
      c: Sent, caps: Option<Bytes>, first: bool, tail: Bytes, max: nat, isUtf8: Bytes -> bool)
    requires Sendable(c, caps) && Parse(PktLine(Payload(c, caps)) + tail, first, [], max, isUtf8).Read?
    ensures var us := Parse(PktLine(Payload(c, caps)) + tail, first, [], max, isUtf8).updates;
      us != [] && us[0] == c.u.(refname := NameRead(c, caps, first))
  {
    hide Payload, Line, Command, Number, Fields, LateName, CutName, LengthField;
    var u := c.u.(refname := NameRead(c, caps, first));
    PktParts(Payload(c, caps), tail);
    if first || caps.None? { PayloadLine(c, caps, first); } else { LateLine(c, caps.value); }
    FieldsOutcome(u, isUtf8);
    assert [] + [u] == [u];
    GotIsKept(tail, false, [u], max, isUtf8);
  }

  /**
    When the commands of a push come back as they were sent, whatever lines precede them that are
    no commands: exactly if the limit allows them, their names are UTF-8, and the first name has
    no NUL byte; behind such a line, exactly if no capabilities are sent.
   */
  lemma CommandsComeBackIff(
      lines: seq<Bytes>, cs: seq<Sent>, caps: Option<Bytes>, pack: Bytes, max: nat, isUtf8: Bytes -> bool)
    requires AllPassedOver(lines) && AllSendable(cs, caps)
    ensures Parse(PassedOver(lines) + Encode(cs, caps, pack), true, [], max, isUtf8) == Read(Updates(cs), pack) <==>
      && |cs| <= max && (forall i :: 0 <= i < |cs| ==> isUtf8(cs[i].u.refname))
      && (cs == [] || if lines == [] then NUL !in cs[0].u.refname else caps.None?)
  {
    hide Parse, PassedOver, Encode, Sendable, Updates, AllPassedOver;
    var body := Encode(cs, caps, pack);
    PassedOverLines(lines, body, true, [], max, isUtf8);
    if Parse(body, lines == [], [], max, isUtf8) == Read(Updates(cs), pack) {
      OnlyIfCarried(cs, caps, pack, lines == [], max, isUtf8);
    } else if |cs| <= max && (forall i :: 0 <= i < |cs| ==> isUtf8(cs[i].u.refname))
      && (cs == [] || if lines == [] then NUL !in cs[0].u.refname else caps.None?)
    {
      CarriedBack(cs, caps, pack, lines == [], max, isUtf8);
    }
  }

  lemma OnlyIfCarried(
      cs: seq<Sent>, caps: Option<Bytes>, pack: Bytes, first: bool, max: nat, isUtf8: Bytes -> bool)
    requires AllSendable(cs, caps)
    requires Parse(Encode(cs, caps, pack), first, [], max, isUtf8) == Read(Updates(cs), pack)
    ensures |cs| <= max && forall i :: 0 <= i < |cs| ==> isUtf8(cs[i].u.refname)
    ensures cs == [] || if first then NUL !in cs[0].u.refname else caps.None?
  {
    LimitHolds(Encode(cs, caps, pack), first, [], max, isUtf8);
    forall i | 0 <= i < |cs| ensures isUtf8(cs[i].u.refname) { assert Updates(cs)[i] in Updates(cs); }
    if cs != [] {
      hide Parse, PktLine, Payload, LateName, CutName;
      assert forall i :: 0 <= i < |cs| - 1 ==> cs[1..][i] == cs[i + 1];
      assert Encode(cs, caps, pack) == PktLine(Payload(cs[0], caps)) + (Lines(cs[1..]) + (FLUSH + pack));
      FirstCommand(cs[0], caps, first, Lines(cs[1..]) + (FLUSH + pack), max, isUtf8);
      assert NameRead(cs[0], caps, first) == cs[0].u.refname;
      if first { CutIsWhole(cs[0].u.refname); } else if caps.Some? { LateNameDiffers(cs[0], caps.value); }
    }
  }

  lemma CarriedBack(
      cs: seq<Sent>, caps: Option<Bytes>, pack: Bytes, first: bool, max: nat, isUtf8: Bytes -> bool)
    requires AllSendable(cs, caps) && |cs| <= max && forall i :: 0 <= i < |cs| ==> isUtf8(cs[i].u.refname)
    requires cs == [] || if first then NUL !in cs[0].u.refname else caps.None?
    ensures Parse(Encode(cs, caps, pack), first, [], max, isUtf8) == Read(Updates(cs), pack)
  {
    hide Parse, Payload, CutName, LengthField;
    if cs == [] {
      FlushStep(pack, first, [], max, isUtf8);
      assert Updates(cs) == [];
    } else if first {
      SeenIsSentIff(cs);
      forall u | u in Seen(cs) ensures isUtf8(u.refname) {
        var i :| 0 <= i < |Updates(cs)| && Updates(cs)[i] == u;
      }
      RequestRoundTrip(cs, caps, pack, max, isUtf8);
    } else {
      assert Encode(cs, caps, pack) == Lines(cs) + (FLUSH + pack) by {
        Regroup(PktLine(Payload(cs[0], None)), Lines(cs[1..]), FLUSH + pack);
      }
      LinesRoundTrip(cs, pack, [], max, isUtf8);
      assert [] + Updates(cs) == Updates(cs);
    }
  }

  lemma Regroup(a: Bytes, b: Bytes, c: Bytes)
    ensures a + b + c == a + (b + c)
  {
  }

  /** `shallow`, a space and an id: what a shallow clone sends before its commands. */
  function ShallowLine(oid: Oid): Bytes {
    [115, 104, 97, 108, 108, 111, 119, 32] + Hex(OidBytes(oid))
  }

  /** A push from a shallow clone: the ref is updated under a name that ends in the capabilities. */
  lemma ShallowPush(oid: Oid, u: RefUpdate, caps: Bytes, pack: Bytes, max: nat, isUtf8: Bytes -> bool)
    requires max >= 1 && |u.refname| + |caps| < 0xFF00 && isUtf8(u.refname + [0] + caps)
    ensures |ShallowLine(oid)| == 48 && |Payload(Sent(u, true), Some(caps))| + 4 < 0x1_0000
    ensures var body := PktLine(ShallowLine(oid)) + (PktLine(Payload(Sent(u, true), Some(caps))) + (FLUSH + pack));
      Parse(body, true, [], max, isUtf8) == Read([u.(refname := u.refname + [0] + caps)], pack)
  {
    hide Parse, Payload, PassedOver, LengthField, ShallowLine, AllPassedOver, Hex, LateName;
    var c, line, tail := Sent(u, true), ShallowLine(oid), FLUSH + pack;
    ShallowSizes(oid, u, caps);
    var sent := PktLine(Payload(c, Some(caps))) + tail;
    ShallowIsPassedOver(oid);
    PassedOverLines([line], sent, true, [], max, isUtf8);
    OnePassedOver(line, sent);
    LateStep(c, caps, tail, [], max, isUtf8);
    WholeLateName(u, caps);
    var late := u.(refname := u.refname + [0] + caps);
    assert [] + [late] == [late];
    FlushStep(pack, false, [late], max, isUtf8);
  }

  lemma WholeLateName(u: RefUpdate, caps: Bytes)
    ensures LateName(Sent(u, true), caps) == u.refname + [0] + caps
  {
  }

  lemma OnePassedOver(line: Bytes, tail: Bytes)
    requires AllPassedOver([line])
    ensures |line| + 4 < 0x1_0000 && PassedOver([line]) + tail == PktLine(line) + tail
  {
    hide LengthField;
    assert [line][0] == line && [line][1..] == [];
  }

  lemma ShallowSizes(oid: Oid, u: RefUpdate, caps: Bytes)
    requires |u.refname| + |caps| < 0xFF00
    ensures |ShallowLine(oid)| == 48 && |Payload(Sent(u, true), Some(caps))| + 4 < 0x1_0000
  {
    hide Hex;
    OidHexRoundTrip(oid);
    OidHexRoundTrip(u.oldOid);
    OidHexRoundTrip(u.newOid);
  }

  lemma ShallowIsPassedOver(oid: Oid)
    ensures AllPassedOver([ShallowLine(oid)])
  {
    hide Hex, OidBytes;
    OidHexRoundTrip(oid);
    var hex := Hex(OidBytes(oid));
    assert forall i :: 8 <= i < 48 ==> ShallowLine(oid)[i] == hex[i - 8];
  }
}
