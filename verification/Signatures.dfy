/**
  Recovering the bytes a commit signature was made over: the commit object without its
  `gpgsig` headers.
 */
module Signatures {
  import opened Ascii
  import opened Sequences
  import opened Keys

  /** `gpgsig` and a space. */
  const GPGSIG: Bytes := [103, 112, 103, 115, 105, 103, 32]

  /** `gpgsig-sha256` and a space. */
  const GPGSIG_SHA256: Bytes := [103, 112, 103, 115, 105, 103, 45, 115, 104, 97, 50, 53, 54, 32]

  /** Length of the first line, with its terminator. */
  function LineEnd(s: Bytes): (e: nat)
    requires s != []
    ensures 0 < e <= |s|
  {
    var i := Find(s, NEWLINE);
    if i < |s| then i + 1 else i
  }

  predicate IsBlank(line: Bytes) {
    line == [NEWLINE] || line == [RETURN, NEWLINE] || line == []
  }

  predicate IsSignature(line: Bytes) {
    GPGSIG <= line || GPGSIG_SHA256 <= line
  }

  predicate Indented(s: Bytes) {
    s != [] && s[0] == SPACE
  }

  /** What is left of the text, line by line, given what came before it. */
  function Strip(s: Bytes, inBody: bool, skipping: bool): Bytes
    decreases |s|
  {
    if s == [] then []
    else
      var line, rest := s[..LineEnd(s)], s[LineEnd(s)..];
      if inBody then line + Strip(rest, true, skipping)
      else if IsBlank(line) then line + Strip(rest, true, false)
      else if skipping && Indented(line) then Strip(rest, false, true)
      else if IsSignature(line) then Strip(rest, false, true)
      else line + Strip(rest, false, false)
  }

  /** The line loop with its two flags. */
  method StripGpgsig(raw: Bytes) returns (out: Bytes)
    ensures out == Strip(raw, false, false)
  {
    hide IsBlank, IsSignature, Indented, LineEnd;
    out := [];
    var bytes, inBody, skipping := raw, false, false;
    while bytes != []
      invariant out + Strip(bytes, inBody, skipping) == Strip(raw, false, false)
      decreases |bytes|
    {
      ghost var before := out;
      var line := bytes[..LineEnd(bytes)];
      bytes := bytes[LineEnd(bytes)..];
      if !inBody {
        if IsBlank(line) {
          inBody, skipping, out := true, false, out + line;
          Regroup(before, line, Strip(bytes, true, false));
          continue;
        }
        if skipping {
          if Indented(line) {
            continue;
          }
          skipping := false;
        }
        if IsSignature(line) {
          skipping := true;
          continue;
        }
      }
      out := out + line;
      Regroup(before, line, Strip(bytes, inBody, skipping));
    }
  }

  lemma Regroup(a: Bytes, b: Bytes, c: Bytes)
    ensures a + b + c == a + (b + c)
  {
  }

  /** A line with its terminator. */
  predicate IsLine(line: Bytes) {
    line != [] && LineEnd(line) == |line| && line[|line| - 1] == NEWLINE
  }

  lemma LineFirst(line: Bytes, rest: Bytes)
    requires IsLine(line)
    ensures LineEnd(line + rest) == |line| && (line + rest)[..|line|] == line && (line + rest)[|line|..] == rest
  {
    var before := line[..|line| - 1];
    assert NEWLINE !in before;
    FindAt(before, NEWLINE, line + rest);
  }

  /** A line that lacks its terminator is the last one. */
  lemma FirstLine(s: Bytes)
    requires s != []
    ensures IsLine(s[..LineEnd(s)]) || LineEnd(s) == |s|
  {
    var e := LineEnd(s);
    if e < |s| || s[e - 1] == NEWLINE {
      FindAt(s[..e - 1], NEWLINE, s[..e]);
    }
  }

  lemma {:induction false} BodyIsKept(s: Bytes, skipping: bool)
    ensures Strip(s, true, skipping) == s
    decreases |s|
  {
    if s != [] {
      BodyIsKept(s[LineEnd(s)..], skipping);
    }
  }

  /** Header lines, none of them a signature. */
  predicate PlainHeader(h: Bytes)
    decreases |h|
  {
    h == [] ||
    var line := h[..LineEnd(h)];
    IsLine(line) && !IsBlank(line) && !IsSignature(line) && PlainHeader(h[LineEnd(h)..])
  }

  predicate Continuation(c: Bytes)
    decreases |c|
  {
    c == [] ||
    var line := c[..LineEnd(c)];
    IsLine(line) && Indented(line) && Continuation(c[LineEnd(c)..])
  }

  /** A signature header with its continuation lines. */
  predicate SignatureBlock(b: Bytes) {
    b != [] && IsLine(b[..LineEnd(b)]) && IsSignature(b[..LineEnd(b)]) && Continuation(b[LineEnd(b)..])
  }

  lemma StripLine(line: Bytes, rest: Bytes, skipping: bool)
    requires IsLine(line) && !IsBlank(line)
    ensures Strip(line + rest, false, skipping) ==
      if skipping && Indented(line) then Strip(rest, false, true)
      else if IsSignature(line) then Strip(rest, false, true)
      else line + Strip(rest, false, false)
  {
    hide IsLine, IsBlank, IsSignature, Indented;
    LineFirst(line, rest);
    assert line != [] by { NonEmpty(line); }
  }

  lemma NonEmpty(line: Bytes)
    requires IsLine(line)
    ensures line != []
  {
  }

  lemma {:induction false} HeaderIsKept(h: Bytes, rest: Bytes)
    requires PlainHeader(h)
    ensures Strip(h + rest, false, false) == h + Strip(rest, false, false)
    decreases |h|
  {
    hide Strip, IsLine, IsBlank, IsSignature;
    if h == [] {
      assert h + rest == rest;
    } else {
      var line, tail := h[..LineEnd(h)], h[LineEnd(h)..];
      assert h == line + tail;
      Regroup(line, tail, rest);
      StripLine(line, tail + rest, false);
      HeaderIsKept(tail, rest);
      Regroup(line, tail, Strip(rest, false, false));
    }
  }

  lemma {:induction false} ContinuationIsDropped(c: Bytes, rest: Bytes)
    requires Continuation(c)
    ensures Strip(c + rest, false, true) == Strip(rest, false, true)
    decreases |c|
  {
    hide Strip, IsLine;
    if c == [] {
      assert c + rest == rest;
    } else {
      var line, tail := c[..LineEnd(c)], c[LineEnd(c)..];
      assert c == line + tail;
      Regroup(line, tail, rest);
      StripLine(line, tail + rest, true);
      ContinuationIsDropped(tail, rest);
    }
  }

  lemma BlockIsDropped(sig: Bytes, rest: Bytes)
    requires SignatureBlock(sig)
    ensures Strip(sig + rest, false, false) == Strip(rest, false, true)
  {
    var line, tail := sig[..LineEnd(sig)], sig[LineEnd(sig)..];
    assert sig == line + tail;
    Regroup(line, tail, rest);
    assert !IsBlank(line);
    hide Strip, IsLine, IsBlank, IsSignature;
    StripLine(line, tail + rest, false);
    ContinuationIsDropped(tail, rest);
  }

  lemma {:induction false} SkippingShortens(s: Bytes)
    ensures |Strip(s, false, true)| <= |Strip(s, false, false)|
    ensures Strip(s, false, true) == Strip(s, false, false) <==> !Indented(s)
    decreases |s|
  {
    hide IsBlank, IsSignature, LineEnd;
    if s != [] {
      var line, rest := s[..LineEnd(s)], s[LineEnd(s)..];
      assert Indented(line) == Indented(s);
      if Indented(s) {
        IndentedIsHeader(line);
        SkippingShortens(rest);
        assert |Strip(s, false, false)| == |line| + |Strip(rest, false, false)|;
      }
    }
  }

  lemma IndentedIsHeader(line: Bytes)
    requires Indented(line)
    ensures !IsBlank(line) && !IsSignature(line)
  {
  }

  /**
    Signing and stripping: taking a signature out of a commit gives the same as never having
    put it in, exactly when no indented line follows the signature's own lines.
   */
  lemma StripUndoesSigningIff(h: Bytes, sig: Bytes, rest: Bytes)
    requires PlainHeader(h) && SignatureBlock(sig)
    ensures Strip(h + sig + rest, false, false) == Strip(h + rest, false, false) <==> !Indented(rest)
  {
    hide PlainHeader, SignatureBlock;
    assert h + sig + rest == h + (sig + rest);
    HeaderIsKept(h, sig + rest);
    HeaderIsKept(h, rest);
    BlockIsDropped(sig, rest);
    SkippingShortens(rest);
    hide Strip;
    SameTail(h, Strip(rest, false, true), Strip(rest, false, false));
  }

  lemma SameTail(h: Bytes, a: Bytes, b: Bytes)
    ensures h + a == h + b <==> a == b
  {
    assert (h + a)[|h|..] == a && (h + b)[|h|..] == b;
  }

  /** The body: empty, or everything from the blank line on, whatever it says. */
  predicate IsBody(b: Bytes) {
    b == [] || b[0] == NEWLINE || [RETURN, NEWLINE] <= b
  }

  lemma BodyIsWhole(b: Bytes)
    requires IsBody(b)
    ensures Strip(b, false, false) == b && !Indented(b)
  {
    if b != [] {
      var blank := if b[0] == NEWLINE then [NEWLINE] else [RETURN, NEWLINE];
      FindAt(blank[..|blank| - 1], NEWLINE, b);
      BodyIsKept(b[|blank|..], false);
    }
  }

  /** The law signing is built on: header, signature, body strips to header, body. */
  lemma SignedPayload(h: Bytes, sig: Bytes, body: Bytes)
    requires PlainHeader(h) && SignatureBlock(sig) && IsBody(body)
    ensures Strip(h + sig + body, false, false) == h + body
  {
    hide PlainHeader, SignatureBlock, IsBody;
    BodyIsWhole(body);
    StripUndoesSigningIff(h, sig, body);
    HeaderIsKept(h, body);
  }

  /** Stripping again changes nothing, on any input at all. */
  lemma {:induction false} StripIsIdempotent(s: Bytes, skipping: bool)
    ensures Strip(Strip(s, false, skipping), false, false) == Strip(s, false, skipping)
    decreases |s|
  {
    if s != [] {
      var line, rest := s[..LineEnd(s)], s[LineEnd(s)..];
      if IsBlank(line) {
        BlankStartsBody(s, skipping);
        BlankStartsBody(s, false);
      } else {
        hide IsBlank, IsSignature, Indented, LineEnd, IsLine;
        if (skipping && Indented(line)) || IsSignature(line) {
          StripIsIdempotent(rest, true);
        } else {
          StripIsIdempotent(rest, false);
          FirstLine(s);
          LineAlone(s);
          var tail := Strip(rest, false, false);
          hide Strip;
          KeptAgain(line, tail);
        }
      }
    }
  }

  lemma BlankStartsBody(s: Bytes, skipping: bool)
    requires s != [] && IsBlank(s[..LineEnd(s)])
    ensures Strip(s, false, skipping) == s
  {
    BodyIsKept(s[LineEnd(s)..], false);
  }

  lemma LineAlone(s: Bytes)
    requires s != []
    ensures LineEnd(s[..LineEnd(s)]) == LineEnd(s)
    ensures LineEnd(s) == |s| ==> Strip(s[LineEnd(s)..], false, false) == []
  {
    var e := LineEnd(s);
    if s[e - 1] == NEWLINE {
      FindAt(s[..e - 1], NEWLINE, s[..e]);
    } else {
      FindAt(s[..e], NEWLINE, s[..e]);
    }
  }

  lemma KeptAgain(line: Bytes, tail: Bytes)
    requires line != [] && !IsBlank(line) && !IsSignature(line)
    requires IsLine(line) || (LineEnd(line) == |line| && tail == [])
    requires Strip(tail, false, false) == tail
    ensures Strip(line + tail, false, false) == line + tail
  {
    hide IsBlank, IsSignature, Indented;
    if IsLine(line) {
      StripLine(line, tail, false);
    } else {
      assert line + tail == line && line[..|line|] == line && line[|line|..] == [];
    }
  }

  /** Some header line is a signature. */
  predicate Signed(s: Bytes)
    decreases |s|
  {
    s != [] &&
    var line := s[..LineEnd(s)];
    !IsBlank(line) && (IsSignature(line) || Signed(s[LineEnd(s)..]))
  }

  lemma {:induction false} StripOnlyShortens(s: Bytes, inBody: bool, skipping: bool)
    ensures |Strip(s, inBody, skipping)| <= |s|
    decreases |s|
  {
    hide IsBlank, IsSignature, Indented, LineEnd;
    if s != [] {
      var rest := s[LineEnd(s)..];
      StripOnlyShortens(rest, inBody, skipping);
      StripOnlyShortens(rest, true, false);
      StripOnlyShortens(rest, false, true);
      StripOnlyShortens(rest, false, false);
    }
  }

  /** A commit is changed exactly when its header, not its message, carries a signature. */
  lemma ChangesOnlySignedIff(s: Bytes)
    ensures Strip(s, false, false) == s <==> !Signed(s)
    ensures Signed(s) ==> |Strip(s, false, false)| < |s|
    ensures !Signed(Strip(s, false, false))
  {
    hide Strip, Signed;
    StripsUnlessSigned(s);
    StripIsIdempotent(s, false);
    StripsUnlessSigned(Strip(s, false, false));
  }

  lemma {:induction false} StripsUnlessSigned(s: Bytes)
    ensures if Signed(s) then |Strip(s, false, false)| < |s| else Strip(s, false, false) == s
    decreases |s|
  {
    hide IsBlank, IsSignature, Indented, LineEnd;
    if s != [] {
      var line, rest := s[..LineEnd(s)], s[LineEnd(s)..];
      assert s == line + rest;
      if IsBlank(line) {
        BodyIsKept(rest, false);
      } else if IsSignature(line) {
        StripOnlyShortens(rest, false, true);
      } else {
        StripsUnlessSigned(rest);
      }
    }
  }

  /** The text of the lines. */
  function Joined(lines: seq<Bytes>): Bytes {
    if lines == [] then [] else Joined(lines[..|lines| - 1]) + lines[|lines| - 1]
  }

  /** A header line: some bytes, ended by the only newline among them, that are not just a line break. */
  predicate HeaderLine(line: Bytes) {
    && line != [10] && line != [13, 10]
    && line != [] && line[|line| - 1] == 10 && 10 !in line[..|line| - 1]
  }

  /** The line begins with `gpgsig` or `gpgsig-sha256` and a space. */
  predicate BeginsSignature(line: Bytes) {
    || [103, 112, 103, 115, 105, 103, 32] <= line
    || [103, 112, 103, 115, 105, 103, 45, 115, 104, 97, 50, 53, 54, 32] <= line
  }

  /** The line begins a signature, or only indented lines stand between it and one that does. */
  ghost predicate OfSignature(lines: seq<Bytes>, i: nat)
    requires i < |lines|
  {
    exists j :: 0 <= j <= i && BeginsSignature(lines[j]) && forall k :: j < k <= i ==> [32] <= lines[k]
  }

  /** The text of the lines that belong to no signature. */
  ghost function Unsigned(lines: seq<Bytes>): Bytes {
    if lines == [] then []
    else
      var last := |lines| - 1;
      Unsigned(lines[..last]) + if OfSignature(lines, last) then [] else lines[last]
  }

  lemma SignatureGoesOn(lines: seq<Bytes>, i: nat)
    requires i < |lines|
    ensures OfSignature(lines, i) <==>
      BeginsSignature(lines[i]) || (i > 0 && [32] <= lines[i] && OfSignature(lines, i - 1))
  {
    if i > 0 && [32] <= lines[i] && OfSignature(lines, i - 1) {
      var j :| 0 <= j <= i - 1 && BeginsSignature(lines[j]) && forall k :: j < k <= i - 1 ==> [32] <= lines[k];
      assert forall k :: j < k <= i ==> [32] <= lines[k];
    }
  }

  lemma HeaderLineIsLine(line: Bytes)
    requires HeaderLine(line)
    ensures IsLine(line) && !IsBlank(line)
    ensures IsSignature(line) <==> BeginsSignature(line)
    ensures Indented(line) <==> [32] <= line
  {
    FindAt(line[..|line| - 1], NEWLINE, line);
  }

  lemma SamePrefix(lines: seq<Bytes>, n: nat)
    requires n <= |lines|
    ensures forall i :: 0 <= i < n ==> (OfSignature(lines[..n], i) <==> OfSignature(lines, i))
  {
    hide BeginsSignature;
    forall i | 0 <= i < n ensures OfSignature(lines[..n], i) <==> OfSignature(lines, i) {
      assert forall k :: 0 <= k <= i ==> lines[..n][k] == lines[k];
    }
  }

  lemma LastLine(lines: seq<Bytes>, line: Bytes)
    ensures Joined(lines + [line]) == Joined(lines) + line
    ensures Unsigned(lines + [line])
         == Unsigned(lines) + if OfSignature(lines + [line], |lines|) then [] else line
    ensures OfSignature(lines + [line], |lines|) <==>
      BeginsSignature(line) || ([32] <= line && lines != [] && OfSignature(lines, |lines| - 1))
  {
    hide OfSignature, BeginsSignature, Joined, Unsigned;
    JoinedSnoc(lines, line);
    UnsignedSnoc(lines, line);
    SignatureGoesOn(lines + [line], |lines|);
    SamePrefix(lines + [line], |lines|);
    assert (lines + [line])[..|lines|] == lines && (lines + [line])[|lines|] == line;
  }

  lemma UnsignedSnoc(lines: seq<Bytes>, line: Bytes)
    ensures Unsigned(lines + [line]) == Unsigned(lines) + if OfSignature(lines + [line], |lines|) then [] else line
  {
    hide OfSignature;
    assert (lines + [line])[..|lines|] == lines;
  }

  /** One more line before the rest. */
  lemma FilterStep(before: seq<Bytes>, line: Bytes, rest: Bytes, skipping: bool)
    requires HeaderLine(line) && skipping == (before != [] && OfSignature(before, |before| - 1))
    requires Strip(Joined(before) + (line + rest), false, false)
          == Unsigned(before) + Strip(line + rest, false, skipping)
    ensures Strip(Joined(before + [line]) + rest, false, false)
         == Unsigned(before + [line]) + Strip(rest, false, OfSignature(before + [line], |before|))
  {
    hide Strip, HeaderLine, IsLine, IsBlank, IsSignature, Indented, BeginsSignature, OfSignature, Joined, Unsigned;
    LastLine(before, line);
    Regroup(Joined(before), line, rest);
    HeaderLineIsLine(line);
    StripLine(line, rest, skipping);
    if OfSignature(before + [line], |before|) {
      assert Unsigned(before) + [] == Unsigned(before);
    } else {
      Regroup(Unsigned(before), line, Strip(rest, false, false));
    }
  }

  lemma NoLines(rest: Bytes)
    ensures Joined([]) + rest == rest && Unsigned([]) == []
    ensures [] + Strip(rest, false, false) == Strip(rest, false, false)
  {
    hide Strip;
  }

  lemma {:induction false} LinesAreFiltered(lines: seq<Bytes>, rest: Bytes)
    requires forall i :: 0 <= i < |lines| ==> HeaderLine(lines[i])
    ensures Strip(Joined(lines) + rest, false, false)
         == Unsigned(lines) + Strip(rest, false, lines != [] && OfSignature(lines, |lines| - 1))
    decreases |lines|
  {
    hide Strip, HeaderLine, OfSignature, Joined, Unsigned;
    if lines == [] {
      NoLines(rest);
    } else {
      var before, line := lines[..|lines| - 1], lines[|lines| - 1];
      LinesAreFiltered(before, line + rest);
      FilterStep(before, line, rest, before != [] && OfSignature(before, |before| - 1));
      assert lines == before + [line];
    }
  }

  /**
    What is stripped, in bytes: of the lines before the first blank line, exactly those that
    begin with `gpgsig ` or `gpgsig-sha256 `, each with the indented lines after it.
   */
  lemma StripDropsSignatures(lines: seq<Bytes>, body: Bytes)
    requires forall i :: 0 <= i < |lines| ==> HeaderLine(lines[i])
    requires body == [] || body[0] == 10 || [13, 10] <= body
    ensures Strip(Joined(lines) + body, false, false) == Unsigned(lines) + body
  {
    hide HeaderLine, OfSignature, Unsigned, Joined;
    LinesAreFiltered(lines, body);
    BodyIsWhole(body);
    SkippingShortens(body);
  }

  /** A last line without its newline is kept or dropped as any other. */
  lemma OpenLine(line: Bytes, skipping: bool)
    requires line != [] && 10 !in line
    ensures Strip(line, false, skipping)
         == if BeginsSignature(line) || (skipping && [32] <= line) then [] else line
  {
    FindAt(line, NEWLINE, line);
    assert line[..LineEnd(line)] == line && line[LineEnd(line)..] == [];
  }

  /** The same for a text that ends without a newline before any blank line. */
  lemma StripDropsOpenLine(lines: seq<Bytes>, line: Bytes)
    requires forall i :: 0 <= i < |lines| ==> HeaderLine(lines[i])
    requires line != [] && 10 !in line
    ensures Strip(Joined(lines + [line]), false, false) == Unsigned(lines + [line])
  {
    hide HeaderLine, Strip, BeginsSignature, OfSignature, Joined, Unsigned;
    LastLine(lines, line);
    LinesAreFiltered(lines, line);
    OpenLine(line, lines != [] && OfSignature(lines, |lines| - 1));
  }

  /** Every text is of one of the two forms. */
  lemma {:induction false} EveryTextHasLines(s: Bytes) returns (lines: seq<Bytes>, rest: Bytes)
    ensures s == Joined(lines) + rest && forall i :: 0 <= i < |lines| ==> HeaderLine(lines[i])
    ensures rest == [] || rest[0] == 10 || [13, 10] <= rest || 10 !in rest
    decreases |s|
  {
    hide HeaderLine, Joined, LineEnd, Unsigned, Strip;
    lines, rest := [], s;
    NoLines(s);
    if 10 in s {
      FirstOfMany(s);
      var line, after := s[..LineEnd(s)], s[LineEnd(s)..];
      assert s == line + after;
      if HeaderLine(line) {
        var more, tail := EveryTextHasLines(after);
        lines, rest := [line] + more, tail;
        JoinedCons(line, more);
        Regroup(line, Joined(more), tail);
      }
    }
  }

  lemma FirstOfMany(s: Bytes)
    requires 10 in s
    ensures var line := s[..LineEnd(s)];
      HeaderLine(line) || (line == [10] && s[0] == 10) || (line == [13, 10] && [13, 10] <= s)
  {
    var i := Find(s, NEWLINE);
    assert s[..i + 1][..i] == s[..i];
  }

  lemma {:induction false} JoinedCons(line: Bytes, more: seq<Bytes>)
    ensures Joined([line] + more) == line + Joined(more)
  {
    if more == [] {
      assert [line] + more == [line] && [line][..0] == [];
    } else {
      var front, last := more[..|more| - 1], more[|more| - 1];
      JoinedCons(line, front);
      assert [line] + more == ([line] + front) + [last] && more == front + [last];
      hide Joined;
      JoinedSnoc([line] + front, last);
      JoinedSnoc(front, last);
      Regroup(line, Joined(front), last);
    }
  }

  lemma JoinedSnoc(lines: seq<Bytes>, line: Bytes)
    ensures Joined(lines + [line]) == Joined(lines) + line
  {
    assert (lines + [line])[..|lines|] == lines;
  }

  /** The lines `tree`, `parent`, `author` and `committer` of a commit belong to no signature. */
  lemma CommitHeadersStay(lines: seq<Bytes>, i: nat)
    requires i < |lines|
    requires || [116, 114, 101, 101, 32] <= lines[i]
             || [112, 97, 114, 101, 110, 116, 32] <= lines[i]
             || [97, 117, 116, 104, 111, 114, 32] <= lines[i]
             || [99, 111, 109, 109, 105, 116, 116, 101, 114, 32] <= lines[i]
    ensures !OfSignature(lines, i)
  {
    SignatureGoesOn(lines, i);
    assert lines[i][0] != 103 && lines[i][0] != 32;
  }
}
