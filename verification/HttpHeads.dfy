/** Whole heads on the byte-at-a-time machine: every request line and list of header lines is read as HttpGrammar
    says. */
module HttpHeads {
  import opened HttpTables
  import opened HttpReference
  import opened HttpInvariants
  import opened HttpRefinement
  import opened HttpChunks
  import opened HttpGrammar
  import opened HttpTokens

  // ----- between tokens -----

  predicate IsSpace(c: Byte) {
    c == 9 || c == 10 || c == 13 || c == 32
  }

  predicate AllSpace(text: seq<Byte>) {
    forall i :: 0 <= i < |text| ==> IsSpace(text[i])
  }

  predicate InValueState(m: Meta) {
    m in {WFK, MCK, CLV, SML, CHK}
  }

  predicate Bounded(length: int) {
    0 <= length <= MAX_REQUEST_BUF_SIZE + 1
  }

  /** Before a value white space is passed over, line ends among it. */
  lemma {:induction false} Spaces(trace: seq<Machine>, input: seq<Byte>, k: nat, m: Meta, length: int, headers: nat,
      out: seq<Tok>, blanks: seq<Byte>)
    requires IsTrace(trace, input) && Spells(input, k, blanks) && InValueState(m) && AllSpace(blanks)
    requires trace[k] == Between(HS, m, length, headers, k, out)
    ensures trace[k + |blanks|] == Between(HS, m, length, headers, k + |blanks|, out)
    ensures Bounded(length) ==> Smooth(trace, k, k + |blanks|)
    decreases |blanks|
  {
    if blanks != [] {
      FirstOf(input, k, blanks);
      SpaceAt(trace, input, k, m, length, headers, out);
      assert forall i :: 0 <= i < |blanks[1..]| ==> blanks[1..][i] == blanks[i + 1];
      Spaces(trace, input, k + 1, m, length, headers, out, blanks[1..]);
      if Bounded(length) {
        SmoothOn(trace, k, k + 1, k + |blanks|);
      }
    }
  }

  lemma SpaceAt(trace: seq<Machine>, input: seq<Byte>, k: nat, m: Meta, length: int, headers: nat, out: seq<Tok>)
    requires IsTrace(trace, input) && k < |input| && IsSpace(input[k]) && InValueState(m)
    requires trace[k] == Between(HS, m, length, headers, k, out)
    ensures trace[k + 1] == Between(HS, m, length, headers, k + 1, out)
    ensures Bounded(length) ==> Smooth(trace, k, k + 1)
  {
    SpaceStep(m, length, headers, k, out, input[k]);
    HeadByte(trace, input, k, HS);
  }

  lemma SpaceStep(m: Meta, length: int, headers: nat, pos: nat, out: seq<Tok>, c: Byte)
    requires IsSpace(c) && InValueState(m)
    ensures Destination(Between(HS, m, length, headers, pos, out).p, c) == HS
    ensures HeadStep(Between(HS, m, length, headers, pos, out), c, HS)
      == Between(HS, m, length, headers, pos + 1, out)
  {
  }

  /** The line feed after a start line or a header. */
  lemma NewLine(trace: seq<Machine>, input: seq<Byte>, k: nat, from: State, m: Meta, length: int, headers: nat,
      out: seq<Tok>)
    requires IsTrace(trace, input) && k < |input| && input[k] == 10 && (from == RR || from == HR)
             && (from == RR ==> m == ANY) && m in {ANY, SML, CHK}
    requires trace[k] == Between(from, m, length, headers, k, out)
    ensures trace[k + 1] == Between(if from == RR then RN else HE, m, length, headers, k + 1, out)
    ensures Bounded(length) ==> Smooth(trace, k, k + 1)
  {
    NewLineStep(from, m, length, headers, k, out);
    HeadByte(trace, input, k, if from == RR then RN else HE);
  }

  lemma NewLineStep(from: State, m: Meta, length: int, headers: nat, pos: nat, out: seq<Tok>)
    requires (from == RR || from == HR) && m in {ANY, SML, CHK}
    ensures var to := if from == RR then RN else HE;
      && Destination(Between(from, m, length, headers, pos, out).p, 10) == to
      && HeadStep(Between(from, m, length, headers, pos, out), 10, to) == Between(to, m, length, headers, pos + 1, out)
  {
  }

  /** The empty line that ends a head. */
  lemma EndOfHead(trace: seq<Machine>, input: seq<Byte>, k: nat, f: Framing, headers: nat, out: seq<Tok>)
    requires IsTrace(trace, input) && LineEnd(input, k) && IsFraming(f)
             && trace[k] == Between(HE, f.m, f.length, headers, k, out)
    ensures trace[k + 2] == HeadOver(f, headers, k + 2, out)
    ensures Bounded(f.length) && trace[k + 2].ending != Streaming ==> Smooth(trace, k, k + 2)
  {
    EndReturn(f, headers, k, out);
    HeadByte(trace, input, k, ER);
    EndFeed(f, headers, k + 1, out);
    HeadByte(trace, input, k + 1, HN);
  }

  lemma EndReturn(f: Framing, headers: nat, pos: nat, out: seq<Tok>)
    requires IsFraming(f)
    ensures Destination(Between(HE, f.m, f.length, headers, pos, out).p, 13) == ER
    ensures HeadStep(Between(HE, f.m, f.length, headers, pos, out), 13, ER)
      == Between(ER, f.m, f.length, headers, pos + 1, out)
  {
  }

  lemma EndFeed(f: Framing, headers: nat, pos: nat, out: seq<Tok>)
    requires IsFraming(f)
    ensures Destination(Between(ER, f.m, f.length, headers, pos, out).p, 10) == HN
    ensures HeadStep(Between(ER, f.m, f.length, headers, pos, out), 10, HN) == HeadOver(f, headers, pos + 1, out)
  {
  }

  // ----- a header line -----

  /** A part, the byte after it, and the rest. */
  lemma PartLies(input: seq<Byte>, k: nat, text: seq<Byte>, c: Byte, rest: seq<Byte>)
    requires Spells(input, k, text + ([c] + rest))
    ensures Spells(input, k, text) && k + |text| < |input| && input[k + |text|] == c
            && Spells(input, k + |text| + 1, rest)
  {
    SpellsParts(input, k, text, [c] + rest);
    FirstOf(input, k + |text|, [c] + rest);
    assert ([c] + rest)[1..] == rest;
  }

  lemma NameAt(trace: seq<Machine>, input: seq<Byte>, k: nat, from: State, f: Framing, name: seq<Byte>, headers: nat,
      out: seq<Tok>, a: nat, tame: bool)
    requires IsTrace(trace, input) && IsToken(HK, name) && IsFraming(f) && (from == RN || from == HE)
             && headers < MAX_HEADER_COUNT
    requires Spells(input, k, name) && a == k + |name| < |input| && input[a] == 58
    requires trace[k] == Between(from, f.m, f.length, headers, k, out)
    requires tame ==> |name| <= MAX_TOKEN_LENGTH && Bounded(f.length)
    ensures trace[a + 1] == Between(HS, Named(f.m, name), f.length, headers + 1, a + 1, out + [Tok(HeaderKey, name)])
    ensures tame ==> Smooth(trace, k, a + 1)
  {
    NameFrames(f, name);
    assert Continues(HK, name[0]);
    WholeToken(trace, input, k, from, HK, f.m, f.length, headers, out, name, FramedBy(HK, f.m, 0, name), f.length,
               headers + 1, a, tame);
  }

  lemma ValueAt(trace: seq<Machine>, input: seq<Byte>, c: nat, f: Framing, p: Pair, headers: nat, out: seq<Tok>,
      d: nat, tame: bool)
    requires IsTrace(trace, input) && IsToken(HV, p.value) && !IsBlank(p.value[0]) && IsFraming(f)
             && headers <= MAX_HEADER_COUNT
    requires Spells(input, c, p.value) && d == c + |p.value| && LineEnd(input, d)
    requires trace[c] == Between(HS, Named(f.m, p.name), f.length, headers, c, out)
    requires tame ==> IsTame(HV, Named(f.m, p.name), f.length, p.value)
    ensures var g := FramedOne(f, p);
      trace[d + 2] == Between(HE, g.m, g.length, headers, d + 2, out + [Tok(HeaderVal, p.value)])
    ensures tame ==> Smooth(trace, c, d + 2) && Bounded(FramedOne(f, p).length)
  {
    var m := Named(f.m, p.name);
    var g := FramedOne(f, p);
    ValueFrames(f, p);
    assert Continues(HV, p.value[0]);
    WholeToken(trace, input, c, HS, HV, m, f.length, headers, out, p.value, FramedBy(HV, m, 0, p.value), g.length,
               headers, d, tame);
    NewLine(trace, input, d + 1, HR, g.m, g.length, headers, out + [Tok(HeaderVal, p.value)]);
    if tame {
      Ends(HV, m, f.length, p.value);
      SmoothOn(trace, c, d + 1, d + 2);
    }
  }

  lemma TextLies(input: seq<Byte>, k: nat, h: Header)
    requires Spells(input, k, Text(h))
    ensures var a := k + |h.name|;
      && Spells(input, k, h.name) && a < |input| && input[a] == 58 && Spells(input, a + 1, h.blanks)
      && Spells(input, a + 1 + |h.blanks|, h.value)
  {
    PartLies(input, k, h.name, 58, h.blanks + h.value);
    SpellsParts(input, k + |h.name| + 1, h.blanks, h.value);
  }

  lemma BlanksAreSpace(blanks: seq<Byte>)
    requires AllBlank(blanks)
    ensures AllSpace(blanks)
  {
    forall i | 0 <= i < |blanks| ensures IsSpace(blanks[i]) {
      assert IsBlank(blanks[i]);
    }
  }

  /** From a line's first byte to its value, or its end if it has none. */
  lemma NameAndBlanks(trace: seq<Machine>, input: seq<Byte>, k: nat, from: State, f: Framing, h: Header, headers: nat,
      out: seq<Tok>, c: nat, tame: bool)
    requires IsTrace(trace, input) && IsHeader(h) && IsFraming(f) && (from == RN || from == HE)
             && headers < MAX_HEADER_COUNT
    requires Spells(input, k, Text(h)) && c == k + |h.name| + 1 + |h.blanks|
    requires trace[k] == Between(from, f.m, f.length, headers, k, out)
    requires tame ==> |h.name| <= MAX_TOKEN_LENGTH && Bounded(f.length)
    ensures trace[c] == Between(HS, Named(f.m, h.name), f.length, headers + 1, c, out + [Tok(HeaderKey, h.name)])
            && Spells(input, c, h.value)
    ensures tame ==> Smooth(trace, k, c)
  {
    var a := k + |h.name|;
    TextLies(input, k, h);
    NameAt(trace, input, k, from, f, h.name, headers, out, a, tame);
    BlanksAt(trace, input, a + 1, Named(f.m, h.name), f.length, headers + 1, out + [Tok(HeaderKey, h.name)], h.blanks,
             c, tame);
    if tame {
      SmoothOn(trace, k, a + 1, c);
    }
  }

  lemma BlanksAt(trace: seq<Machine>, input: seq<Byte>, k: nat, m: Meta, length: int, headers: nat, out: seq<Tok>,
      blanks: seq<Byte>, c: nat, tame: bool)
    requires IsTrace(trace, input) && Spells(input, k, blanks) && InValueState(m) && AllBlank(blanks)
             && c == k + |blanks|
    requires trace[k] == Between(HS, m, length, headers, k, out) && (tame ==> Bounded(length))
    ensures trace[c] == Between(HS, m, length, headers, c, out) && (tame ==> Smooth(trace, k, c))
  {
    BlanksAreSpace(blanks);
    Spaces(trace, input, k, m, length, headers, out, blanks);
  }

  lemma ThenLineEnd(input: seq<Byte>, k: nat, text: seq<Byte>)
    requires Spells(input, k, text + CRLF)
    ensures Spells(input, k, text) && Spells(input, k + |text|, CRLF) && LineEnd(input, k + |text|)
  {
    SpellsParts(input, k, text, CRLF);
    TwoBytes(input, k + |text|);
  }

  /** The text and its line end, as a value. */
  lemma ValueLine(trace: seq<Machine>, input: seq<Byte>, c: nat, f: Framing, p: Pair, headers: nat, out: seq<Tok>,
      e: nat, tame: bool)
    requires IsTrace(trace, input) && IsToken(HV, p.value) && !IsBlank(p.value[0]) && IsFraming(f)
             && headers <= MAX_HEADER_COUNT
    requires Spells(input, c, p.value + CRLF) && e == c + |p.value| + 2
    requires trace[c] == Between(HS, Named(f.m, p.name), f.length, headers, c, out)
    requires tame ==> IsTame(HV, Named(f.m, p.name), f.length, p.value)
    ensures var g := FramedOne(f, p);
      trace[e] == Between(HE, g.m, g.length, headers, e, out + [Tok(HeaderVal, p.value)])
    ensures tame ==> Smooth(trace, c, e) && Bounded(FramedOne(f, p).length)
  {
    ThenLineEnd(input, c, p.value);
    ValueAt(trace, input, c, f, p, headers, out, e - 2, tame);
  }

  /** A pair as it was reported. */
  ghost predicate Reads(trace: seq<Machine>, k: nat, e: nat, from: State, f: Framing, p: Pair, headers: nat,
      out: seq<Tok>)
    requires e < |trace| && k < |trace|
  {
    var g := FramedOne(f, p);
    && trace[k] == Between(from, f.m, f.length, headers, k, out)
    && trace[e] == Between(HE, g.m, g.length, headers + 1, e,
                           out + [Tok(HeaderKey, p.name)] + [Tok(HeaderVal, p.value)])
  }

  /** The limits that a pair must keep for the request to be one the parser frames. */
  predicate TamePair(f: Framing, p: Pair) {
    |p.name| <= MAX_TOKEN_LENGTH && Bounded(f.length) && IsTame(HV, Named(f.m, p.name), f.length, p.value)
  }

  /** A line with a value. */
  lemma FullLine(trace: seq<Machine>, input: seq<Byte>, k: nat, from: State, f: Framing, h: Header, headers: nat,
      out: seq<Tok>, e: nat, tame: bool)
    requires IsTrace(trace, input) && IsHeader(h) && h.value != [] && IsFraming(f) && (from == RN || from == HE)
             && headers < MAX_HEADER_COUNT
    requires Spells(input, k, Text(h) + CRLF) && e == k + |Text(h)| + 2
    requires trace[k] == Between(from, f.m, f.length, headers, k, out)
    requires tame ==> TamePair(f, Pair(h.name, h.value))
    ensures Reads(trace, k, e, from, f, Pair(h.name, h.value), headers, out)
    ensures tame ==> Smooth(trace, k, e) && Bounded(FramedOne(f, Pair(h.name, h.value)).length)
  {
    var c := k + |h.name| + 1 + |h.blanks|;
    ThenLineEnd(input, k, Text(h));
    NameAndBlanks(trace, input, k, from, f, h, headers, out, c, tame);
    ValueAt(trace, input, c, f, Pair(h.name, h.value), headers + 1, out + [Tok(HeaderKey, h.name)], e - 2, tame);
    if tame {
      SmoothOn(trace, k, c, e);
    }
  }

  /** A line without a value: its end is passed over with the blanks. */
  lemma EmptyLine(trace: seq<Machine>, input: seq<Byte>, k: nat, from: State, f: Framing, h: Header, headers: nat,
      out: seq<Tok>, e: nat, tame: bool)
    requires IsTrace(trace, input) && IsHeader(h) && h.value == [] && IsFraming(f) && (from == RN || from == HE)
             && headers < MAX_HEADER_COUNT
    requires Spells(input, k, Text(h) + CRLF) && e == k + |Text(h)| + 2
    requires trace[k] == Between(from, f.m, f.length, headers, k, out)
    requires tame ==> |h.name| <= MAX_TOKEN_LENGTH && Bounded(f.length)
    ensures trace[e] == Between(HS, Named(f.m, h.name), f.length, headers + 1, e, out + [Tok(HeaderKey, h.name)])
    ensures tame ==> Smooth(trace, k, e)
  {
    ThenLineEnd(input, k, Text(h));
    NameAndBlanks(trace, input, k, from, f, h, headers, out, e - 2, tame);
    Spaces(trace, input, e - 2, Named(f.m, h.name), f.length, headers + 1, out + [Tok(HeaderKey, h.name)], CRLF);
    if tame {
      SmoothOn(trace, k, e - 2, e);
    }
  }

  lemma TextIsValue(h: Header)
    requires IsHeader(h)
    ensures IsToken(HV, Text(h)) && !IsBlank(Text(h)[0])
  {
    var t := Text(h);
    assert Continues(HK, h.name[0]) && t[0] == h.name[0];
    forall i | 0 <= i < |t| ensures Continues(HV, t[i]) {
      if i < |h.name| {
        assert Continues(HK, h.name[i]);
      } else if |h.name| < i < |h.name| + 1 + |h.blanks| {
        assert t[i] == h.blanks[i - |h.name| - 1] && IsBlank(t[i]);
      } else if i > |h.name| {
        assert t[i] == h.value[i - |h.name| - 1 - |h.blanks|];
      }
    }
  }

  /** A line without a value and the line after it, which is taken for the value. */
  lemma TwoLines(trace: seq<Machine>, input: seq<Byte>, k: nat, from: State, f: Framing, h: Header, g: Header,
      headers: nat, out: seq<Tok>, j: nat, e: nat, tame: bool)
    requires IsTrace(trace, input) && IsHeader(h) && IsHeader(g) && h.value == [] && IsFraming(f)
             && (from == RN || from == HE) && headers < MAX_HEADER_COUNT
    requires Spells(input, k, Text(h) + CRLF) && j == k + |Text(h)| + 2 && Spells(input, j, Text(g) + CRLF)
             && e == j + |Text(g)| + 2
    requires trace[k] == Between(from, f.m, f.length, headers, k, out)
    requires tame ==> TamePair(f, Pair(h.name, Text(g)))
    ensures Reads(trace, k, e, from, f, Pair(h.name, Text(g)), headers, out)
    ensures tame ==> Smooth(trace, k, e) && Bounded(FramedOne(f, Pair(h.name, Text(g))).length)
  {
    EmptyLine(trace, input, k, from, f, h, headers, out, j, tame);
    TextIsValue(g);
    ValueLine(trace, input, j, f, Pair(h.name, Text(g)), headers + 1, out + [Tok(HeaderKey, h.name)], e, tame);
    if tame {
      SmoothOn(trace, k, j, e);
    }
  }

  // ----- all header lines -----

  predicate TamePairs(f: Framing, pairs: seq<Pair>)
    decreases |pairs|
  {
    if pairs == [] then Bounded(f.length)
    else TamePair(f, pairs[0]) && TamePairs(FramedOne(f, pairs[0]), pairs[1..])
  }

  /** The name that an unclosed head leaves without a value. */
  function Dangling(headers: seq<Header>): seq<Byte>
    requires Unclosed(headers)
  {
    if headers[0].value != [] then Dangling(headers[1..])
    else if |headers| == 1 then headers[0].name else Dangling(headers[2..])
  }

  /** The machine after the lines: between headers, or still waiting for a value. */
  function AfterLines(f: Framing, hs: seq<Header>, headers: nat, pos: nat, out: seq<Tok>): Machine {
    var g := FramedAll(f, Seen(hs));
    if Unclosed(hs) then
      Between(HS, Named(g.m, Dangling(hs)), g.length, headers + Count(hs), pos,
              out + PairTokens(Seen(hs)) + [Tok(HeaderKey, Dangling(hs))])
    else Between(HE, g.m, g.length, headers + Count(hs), pos, out + PairTokens(Seen(hs)))
  }

  /** The same for the lines after those that give one pair. */
  lemma AfterMore(f: Framing, hs: seq<Header>, rest: seq<Header>, p: Pair, headers: nat, pos: nat, out: seq<Tok>)
    requires hs != [] && Seen(hs) == [p] + Seen(rest) && Unclosed(hs) == Unclosed(rest)
             && (Unclosed(hs) ==> Dangling(hs) == Dangling(rest))
    ensures var out1 := out + [Tok(HeaderKey, p.name)] + [Tok(HeaderVal, p.value)];
      AfterLines(f, hs, headers, pos, out) == AfterLines(FramedOne(f, p), rest, headers + 1, pos, out1)
  {
    assert Seen(hs)[0] == p && Seen(hs)[1..] == Seen(rest);
    assert out + PairTokens(Seen(hs))
      == out + [Tok(HeaderKey, p.name)] + [Tok(HeaderVal, p.value)] + PairTokens(Seen(rest));
  }

  lemma AfterNone(f: Framing, headers: nat, pos: nat, out: seq<Tok>)
    ensures AfterLines(f, [], headers, pos, out) == Between(HE, f.m, f.length, headers, pos, out)
  {
  }

  lemma {:induction false} LinesRead(trace: seq<Machine>, input: seq<Byte>, k: nat, from: State, f: Framing,
      hs: seq<Header>, headers: nat, out: seq<Tok>, e: nat, tame: bool)
    requires IsTrace(trace, input) && AllHeaders(hs) && IsFraming(f) && (from == HE || (from == RN && hs != []))
             && headers + Count(hs) <= MAX_HEADER_COUNT
    requires Spells(input, k, Lines(hs)) && e == k + |Lines(hs)|
             && trace[k] == Between(from, f.m, f.length, headers, k, out)
    requires tame ==> TamePairs(f, Seen(hs)) && !Unclosed(hs)
    ensures trace[e] == AfterLines(f, hs, headers, e, out)
    ensures tame ==> Smooth(trace, k, e) && Bounded(FramedAll(f, Seen(hs)).length)
    decreases |hs|
  {
    if hs == [] {
      AfterNone(f, headers, e, out);
    } else if hs[0].value == [] && |hs| == 1 {
      LastEmpty(f, hs, headers, e, out);
      EmptyLine(trace, input, k, from, f, hs[0], headers, out, e, false);
    } else {
      var p, rest, j := FirstPair(trace, input, k, from, f, hs, headers, out, e, tame);
      FirstAdds(f, hs, headers, out, e, p, rest);
      LinesRead(trace, input, j, HE, FramedOne(f, p), rest, headers + 1,
                out + [Tok(HeaderKey, p.name)] + [Tok(HeaderVal, p.value)], e, tame);
      if tame {
        SmoothOn(trace, k, j, e);
      }
    }
  }

  /** p is the first pair, what is read of the text for it ends at j, and rest are the lines after it. */
  ghost predicate IsFirst(trace: seq<Machine>, input: seq<Byte>, k: nat, from: State, f: Framing, hs: seq<Header>,
      headers: nat, out: seq<Tok>, e: nat, p: Pair, rest: seq<Header>, j: nat)
    requires k < |trace|
  {
    && k <= j < |trace| && Reads(trace, k, j, from, f, p, headers, out)
    && Spells(input, j, Lines(rest)) && e == j + |Lines(rest)|
    && AddsUp(f, hs, headers, out, e, p, rest)
  }

  /** The first pair and the lines after it come to what all the lines come to. */
  ghost predicate AddsUp(f: Framing, hs: seq<Header>, headers: nat, out: seq<Tok>, e: nat, p: Pair, rest: seq<Header>) {
    && Seen(hs) == [p] + Seen(rest) && |rest| < |hs| && AllHeaders(rest) && Unclosed(hs) == Unclosed(rest)
    && AfterLines(f, hs, headers, e, out)
         == AfterLines(FramedOne(f, p), rest, headers + 1, e,
                       out + [Tok(HeaderKey, p.name)] + [Tok(HeaderVal, p.value)])
  }

  lemma FirstAdds(f: Framing, hs: seq<Header>, headers: nat, out: seq<Tok>, e: nat, p: Pair, rest: seq<Header>)
    requires AddsUp(f, hs, headers, out, e, p, rest)
    ensures Count(hs) == 1 + Count(rest)
    ensures FramedAll(f, Seen(hs)) == FramedAll(FramedOne(f, p), Seen(rest))
  {
    assert Seen(hs)[0] == p && Seen(hs)[1..] == Seen(rest);
  }

  /** The first pair, from one line or from two. */
  lemma FirstPair(trace: seq<Machine>, input: seq<Byte>, k: nat, from: State, f: Framing, hs: seq<Header>,
      headers: nat, out: seq<Tok>, e: nat, tame: bool) returns (p: Pair, rest: seq<Header>, j: nat)
    requires IsTrace(trace, input) && AllHeaders(hs) && IsFraming(f) && (from == RN || from == HE)
             && hs != [] && (hs[0].value != [] || |hs| > 1) && headers + Count(hs) <= MAX_HEADER_COUNT
    requires Spells(input, k, Lines(hs)) && e == k + |Lines(hs)|
             && trace[k] == Between(from, f.m, f.length, headers, k, out)
    requires tame ==> TamePairs(f, Seen(hs))
    ensures IsFirst(trace, input, k, from, f, hs, headers, out, e, p, rest, j)
    ensures tame ==> Smooth(trace, k, j) && TamePairs(FramedOne(f, p), Seen(rest))
  {
    if hs[0].value != [] {
      p, rest, j := FirstOfOne(trace, input, k, from, f, hs, headers, out, e, tame);
    } else {
      p, rest, j := FirstOfTwo(trace, input, k, from, f, hs, headers, out, e, tame);
    }
  }

  lemma FirstOfOne(trace: seq<Machine>, input: seq<Byte>, k: nat, from: State, f: Framing, hs: seq<Header>,
      headers: nat, out: seq<Tok>, e: nat, tame: bool) returns (p: Pair, rest: seq<Header>, j: nat)
    requires IsTrace(trace, input) && AllHeaders(hs) && IsFraming(f) && (from == RN || from == HE)
             && hs != [] && hs[0].value != [] && headers + Count(hs) <= MAX_HEADER_COUNT
    requires Spells(input, k, Lines(hs)) && e == k + |Lines(hs)|
             && trace[k] == Between(from, f.m, f.length, headers, k, out)
    requires tame ==> TamePairs(f, Seen(hs))
    ensures IsFirst(trace, input, k, from, f, hs, headers, out, e, p, rest, j)
    ensures tame ==> Smooth(trace, k, j) && TamePairs(FramedOne(f, p), Seen(rest))
  {
    p, rest, j := Pair(hs[0].name, hs[0].value), hs[1..], k + |Text(hs[0])| + 2;
    FirstLies(input, k, hs);
    FullStep(trace, input, k, from, f, hs, headers, out, j, e, tame);
  }

  lemma FirstOfTwo(trace: seq<Machine>, input: seq<Byte>, k: nat, from: State, f: Framing, hs: seq<Header>,
      headers: nat, out: seq<Tok>, e: nat, tame: bool) returns (p: Pair, rest: seq<Header>, j: nat)
    requires IsTrace(trace, input) && AllHeaders(hs) && IsFraming(f) && (from == RN || from == HE)
             && |hs| > 1 && hs[0].value == [] && headers + Count(hs) <= MAX_HEADER_COUNT
    requires Spells(input, k, Lines(hs)) && e == k + |Lines(hs)|
             && trace[k] == Between(from, f.m, f.length, headers, k, out)
    requires tame ==> TamePairs(f, Seen(hs))
    ensures IsFirst(trace, input, k, from, f, hs, headers, out, e, p, rest, j)
    ensures tame ==> Smooth(trace, k, j) && TamePairs(FramedOne(f, p), Seen(rest))
  {
    var j0 := k + |Text(hs[0])| + 2;
    FirstLies(input, k, hs);
    SecondLies(input, j0, hs);
    p, rest, j := Pair(hs[0].name, Text(hs[1])), hs[2..], j0 + |Text(hs[1])| + 2;
    TwoStep(trace, input, k, from, f, hs, headers, out, j0, j, e, tame);
  }

  lemma FirstLies(input: seq<Byte>, k: nat, hs: seq<Header>)
    requires hs != [] && Spells(input, k, Lines(hs))
    ensures Spells(input, k, Text(hs[0]) + CRLF) && Spells(input, k + |Text(hs[0])| + 2, Lines(hs[1..]))
    ensures |Lines(hs)| == |Text(hs[0])| + 2 + |Lines(hs[1..])|
  {
    SpellsParts(input, k, Text(hs[0]) + CRLF, Lines(hs[1..]));
  }

  lemma SecondLies(input: seq<Byte>, j: nat, hs: seq<Header>)
    requires |hs| > 1 && Spells(input, j, Lines(hs[1..]))
    ensures Spells(input, j, Text(hs[1]) + CRLF) && Spells(input, j + |Text(hs[1])| + 2, Lines(hs[2..]))
    ensures |Lines(hs)| == |Text(hs[0])| + 2 + |Text(hs[1])| + 2 + |Lines(hs[2..])|
  {
    SecondLine(hs);
    SpellsParts(input, j, Text(hs[1]) + CRLF, Lines(hs[2..]));
  }

  lemma {:induction false} SecondLine(hs: seq<Header>)
    requires |hs| > 1
    ensures Lines(hs[1..]) == Text(hs[1]) + CRLF + Lines(hs[2..])
    ensures |Lines(hs)| == |Text(hs[0])| + 2 + |Text(hs[1])| + 2 + |Lines(hs[2..])|
  {
    assert hs[1..][0] == hs[1] && hs[1..][1..] == hs[2..];
  }

  lemma {:induction false} LastEmpty(f: Framing, hs: seq<Header>, headers: nat, e: nat, out: seq<Tok>)
    requires |hs| == 1 && hs[0].value == []
    ensures Lines(hs) == Text(hs[0]) + CRLF
    ensures AfterLines(f, hs, headers, e, out)
      == Between(HS, Named(f.m, hs[0].name), f.length, headers + 1, e, out + [Tok(HeaderKey, hs[0].name)])
  {
    assert hs[1..] == [] && out + [] == out;
  }

  lemma {:induction false} SeenOfOne(hs: seq<Header>)
    requires hs != [] && hs[0].value != []
    ensures var p := Pair(hs[0].name, hs[0].value);
      Seen(hs) == [p] + Seen(hs[1..]) && Seen(hs)[0] == p && Seen(hs)[1..] == Seen(hs[1..])
  {
  }

  lemma FullStep(trace: seq<Machine>, input: seq<Byte>, k: nat, from: State, f: Framing, hs: seq<Header>,
      headers: nat, out: seq<Tok>, j: nat, e: nat, tame: bool)
    requires IsTrace(trace, input) && AllHeaders(hs) && hs != [] && hs[0].value != [] && IsFraming(f)
             && (from == RN || from == HE) && headers + Count(hs) <= MAX_HEADER_COUNT
    requires Spells(input, k, Text(hs[0]) + CRLF) && j == k + |Text(hs[0])| + 2
             && trace[k] == Between(from, f.m, f.length, headers, k, out)
    requires tame ==> TamePairs(f, Seen(hs))
    ensures var p := Pair(hs[0].name, hs[0].value);
      && Reads(trace, k, j, from, f, p, headers, out) && AddsUp(f, hs, headers, out, e, p, hs[1..])
      && (tame ==> Smooth(trace, k, j) && TamePairs(FramedOne(f, p), Seen(hs[1..])))
  {
    var p := Pair(hs[0].name, hs[0].value);
    SeenOfOne(hs);
    FullLine(trace, input, k, from, f, hs[0], headers, out, j, tame);
    assert forall i :: 0 <= i < |hs[1..]| ==> hs[1..][i] == hs[i + 1];
    AfterMore(f, hs, hs[1..], p, headers, e, out);
  }

  lemma TwoStep(trace: seq<Machine>, input: seq<Byte>, k: nat, from: State, f: Framing, hs: seq<Header>, headers: nat,
      out: seq<Tok>, j: nat, e1: nat, e: nat, tame: bool)
    requires IsTrace(trace, input) && AllHeaders(hs) && |hs| > 1 && hs[0].value == [] && IsFraming(f)
             && (from == RN || from == HE) && headers + Count(hs) <= MAX_HEADER_COUNT
    requires Spells(input, k, Text(hs[0]) + CRLF) && j == k + |Text(hs[0])| + 2
             && Spells(input, j, Text(hs[1]) + CRLF) && e1 == j + |Text(hs[1])| + 2
             && trace[k] == Between(from, f.m, f.length, headers, k, out)
    requires tame ==> TamePairs(f, Seen(hs))
    ensures var p := Pair(hs[0].name, Text(hs[1]));
      && Reads(trace, k, e1, from, f, p, headers, out) && AddsUp(f, hs, headers, out, e, p, hs[2..])
      && (tame ==> Smooth(trace, k, e1) && TamePairs(FramedOne(f, p), Seen(hs[2..])))
  {
    var p := Pair(hs[0].name, Text(hs[1]));
    assert Seen(hs)[0] == p && Seen(hs)[1..] == Seen(hs[2..]);
    TwoLines(trace, input, k, from, f, hs[0], hs[1], headers, out, j, e1, tame);
    assert forall i :: 0 <= i < |hs[2..]| ==> hs[2..][i] == hs[i + 2];
    AfterMore(f, hs, hs[2..], p, headers, e, out);
  }

  // ----- the request line -----

  predicate TameLine1(l: Line1) {
    |l.verb| <= MAX_TOKEN_LENGTH && |l.target| <= MAX_TOKEN_LENGTH && |l.version| <= MAX_TOKEN_LENGTH
  }

  /** A part of the request line. */
  lemma StartToken(trace: seq<Machine>, input: seq<Byte>, k: nat, from: State, s: State, out: seq<Tok>, text: seq<Byte>,
      e: nat, tame: bool)
    requires IsTrace(trace, input) && s in {MT, TR, VN} && IsToken(s, text) && Opens(from, s, text[0])
    requires Spells(input, k, text) && e == k + |text| < |input| && input[e] == Closer(s)
    requires trace[k] == Between(from, WFK, 0, 0, k, out)
    requires tame ==> |text| <= MAX_TOKEN_LENGTH
    ensures trace[e + 1]
              == Between(After(s), if s == VN then ANY else WFK, 0, 0, e + 1, out + [Tok(StartKind(s), text)])
    ensures tame ==> Smooth(trace, k, e + 1)
  {
    Settled(s, WFK, 0, text);
    WholeToken(trace, input, k, from, s, WFK, 0, 0, out, text, WFK, 0, 0, e, tame);
  }

  lemma RequestLine(trace: seq<Machine>, input: seq<Byte>, l: Line1, a: nat, b: nat, c: nat, tame: bool)
    requires IsTrace(trace, input) && IsLine1(l) && (tame ==> TameLine1(l))
    requires Spells(input, 0, l.verb) && a == |l.verb| < |input| && input[a] == 32
    requires Spells(input, a + 1, l.target) && b == a + 1 + |l.target| < |input| && input[b] == 32
    requires Spells(input, b + 1, l.version) && c == b + 1 + |l.version| && LineEnd(input, c)
    ensures trace[c + 2] == Between(RN, ANY, 0, 0, c + 2, Tokens1(l))
    ensures tame ==> Smooth(trace, 0, c + 2)
  {
    assert Continues(MT, l.verb[0]);
    StartToken(trace, input, 0, ST, MT, [], l.verb, a, tame);
    StartToken(trace, input, a + 1, MS, TR, [Tok(Method, l.verb)], l.target, b, tame);
    var out := [Tok(Method, l.verb), Tok(Target, l.target)];
    assert [Tok(Method, l.verb)] + [Tok(Target, l.target)] == out;
    VersionRuns(trace, input, l, b + 1, out, c, tame);
    assert out + [Tok(Version, l.version)] == Tokens1(l);
    if tame {
      SmoothOn(trace, 0, a + 1, b + 1);
      SmoothOn(trace, 0, b + 1, c + 2);
    }
  }

  lemma VersionRuns(trace: seq<Machine>, input: seq<Byte>, l: Line1, k: nat, out: seq<Tok>, c: nat, tame: bool)
    requires IsTrace(trace, input) && IsLine1(l) && (tame ==> TameLine1(l))
    requires Spells(input, k, l.version) && c == k + |l.version| && LineEnd(input, c)
    requires trace[k] == Between(TS, WFK, 0, 0, k, out)
    ensures trace[c + 2] == Between(RN, ANY, 0, 0, c + 2, out + [Tok(Version, l.version)])
    ensures tame ==> Smooth(trace, k, c + 2)
  {
    assert Continues(VN, l.version[0]);
    StartToken(trace, input, k, TS, VN, out, l.version, c, tame);
    NewLine(trace, input, c + 1, RR, ANY, 0, 0, out + [Tok(Version, l.version)]);
    if tame {
      SmoothOn(trace, k, c + 1, c + 2);
    }
  }

  /** Where the parts of a request line lie. */
  lemma RequestLineLies(input: seq<Byte>, l: Line1, rest: seq<Byte>, a: nat, b: nat, c: nat)
    requires Spells(input, 0, l.verb + ([32] + (l.target + ([32] + (l.version + (CRLF + rest))))))
    requires a == |l.verb| && b == a + 1 + |l.target| && c == b + 1 + |l.version|
    ensures Spells(input, 0, l.verb) && a < |input| && input[a] == 32
    ensures Spells(input, a + 1, l.target) && b < |input| && input[b] == 32
    ensures Spells(input, b + 1, l.version) && LineEnd(input, c) && Spells(input, c + 2, rest)
  {
    var r3 := l.version + (CRLF + rest);
    PartLies(input, 0, l.verb, 32, l.target + ([32] + r3));
    PartLies(input, a + 1, l.target, 32, r3);
    VersionLies(input, b + 1, l.version, rest, c);
  }

  lemma VersionLies(input: seq<Byte>, k: nat, version: seq<Byte>, rest: seq<Byte>, c: nat)
    requires Spells(input, k, version + (CRLF + rest)) && c == k + |version|
    ensures Spells(input, k, version) && LineEnd(input, c) && Spells(input, c + 2, rest)
  {
    SpellsParts(input, k, version, CRLF + rest);
    SpellsParts(input, c, CRLF, rest);
    TwoBytes(input, c);
  }

  lemma WholeSpells(input: seq<Byte>)
    ensures Spells(input, 0, input)
  {
  }

  lemma RequestLineRuns(trace: seq<Machine>, input: seq<Byte>, l: Line1, rest: seq<Byte>, c: nat, tame: bool)
    requires IsTrace(trace, input) && IsLine1(l) && (tame ==> TameLine1(l))
    requires input == l.verb + ([32] + (l.target + ([32] + (l.version + (CRLF + rest)))))
    requires c == |l.verb| + |l.target| + |l.version| + 4
    ensures Spells(input, c, rest) && |input| == c + |rest|
    ensures trace[c] == Between(RN, ANY, 0, 0, c, Tokens1(l)) && (tame ==> Smooth(trace, 0, c))
  {
    var a := |l.verb|;
    var b := a + 1 + |l.target|;
    WholeSpells(input);
    RequestLineLies(input, l, rest, a, b, c - 2);
    RequestLine(trace, input, l, a, b, c - 2, tame);
  }

  // ----- the whole head -----

  /** The machine after a head. */
  function HeadEnd(l: Line1, hs: seq<Header>): Machine {
    var f := FramedAll(START, Seen(hs));
    var out := Tokens1(l) + PairTokens(Seen(hs));
    if Unclosed(hs) then
      Between(HS, Named(f.m, Dangling(hs)), f.length, Count(hs), |Head(l, hs)|, out + [Tok(HeaderKey, Dangling(hs))])
    else HeadOver(f, Count(hs), |Head(l, hs)|, out)
  }

  /** The limits that keep a request among those the parser frames. */
  predicate TameHead(l: Line1, hs: seq<Header>) {
    TameLine1(l) && TamePairs(START, Seen(hs)) && !Unclosed(hs) && HeadEnd(l, hs).ending != Streaming
  }

  lemma LinesEnd(trace: seq<Machine>, input: seq<Byte>, l: Line1, hs: seq<Header>, c: nat, e: nat, tame: bool)
    requires IsTrace(trace, input) && AllHeaders(hs) && hs != [] && Count(hs) <= MAX_HEADER_COUNT
             && input == Head(l, hs) && (tame ==> TameHead(l, hs))
    requires Spells(input, e, CRLF) && |input| == e + 2 && trace[e] == AfterLines(START, hs, 0, e, Tokens1(l))
    requires tame ==> Smooth(trace, c, e) && Bounded(FramedAll(START, Seen(hs)).length)
    ensures trace[|input|] == HeadEnd(l, hs) && (tame ==> Smooth(trace, c, |input|))
  {
    var f := FramedAll(START, Seen(hs));
    var out := Tokens1(l) + PairTokens(Seen(hs));
    if Unclosed(hs) {
      var m := Named(f.m, Dangling(hs));
      Spaces(trace, input, e, m, f.length, Count(hs), out + [Tok(HeaderKey, Dangling(hs))], CRLF);
    } else {
      TwoBytes(input, e);
      EndOfHead(trace, input, e, f, Count(hs), out);
      if tame {
        SmoothOn(trace, c, e, e + 2);
      }
    }
  }

  /** Every head is read as the grammar of reports says: each line for what it says, or for the value of the line before
      it, and then the end, or none. */
  lemma HeadRead(trace: seq<Machine>, input: seq<Byte>, l: Line1, hs: seq<Header>, tame: bool)
    requires IsLine1(l) && AllHeaders(hs) && hs != [] && Count(hs) <= MAX_HEADER_COUNT
    requires IsTrace(trace, input) && input == Head(l, hs) && (tame ==> TameHead(l, hs))
    ensures trace[|input|] == HeadEnd(l, hs)
    ensures tame ==> Smooth(trace, 0, |input|)
  {
    var c, e := HeadLies(trace, input, l, hs, tame);
    FromLine1(trace, input, l, hs, c, e, tame);
    LinesEnd(trace, input, l, hs, 0, e, tame);
  }

  lemma HeadLies(trace: seq<Machine>, input: seq<Byte>, l: Line1, hs: seq<Header>, tame: bool) returns (c: nat, e: nat)
    requires IsLine1(l) && IsTrace(trace, input) && input == Head(l, hs) && (tame ==> TameLine1(l))
    ensures Spells(input, c, Lines(hs)) && e == c + |Lines(hs)| && Spells(input, e, CRLF) && |input| == e + 2
    ensures trace[c] == Between(RN, ANY, 0, 0, c, Tokens1(l)) && (tame ==> Smooth(trace, 0, c))
  {
    c := |l.verb| + |l.target| + |l.version| + 4;
    e := c + |Lines(hs)|;
    RequestLineRuns(trace, input, l, Lines(hs) + CRLF, c, tame);
    SpellsParts(input, c, Lines(hs), CRLF);
  }

  lemma FromLine1(trace: seq<Machine>, input: seq<Byte>, l: Line1, hs: seq<Header>, c: nat, e: nat, tame: bool)
    requires AllHeaders(hs) && hs != [] && Count(hs) <= MAX_HEADER_COUNT && IsTrace(trace, input)
    requires Spells(input, c, Lines(hs)) && e == c + |Lines(hs)| && trace[c] == Between(RN, ANY, 0, 0, c, Tokens1(l))
    requires tame ==> Smooth(trace, 0, c) && TamePairs(START, Seen(hs)) && !Unclosed(hs)
    ensures trace[e] == AfterLines(START, hs, 0, e, Tokens1(l))
    ensures tame ==> Smooth(trace, 0, e) && Bounded(FramedAll(START, Seen(hs)).length)
  {
    LinesRead(trace, input, c, RN, START, hs, 0, Tokens1(l), e, tame);
    if tame {
      SmoothOn(trace, 0, c, e);
    }
  }

  /** Without a header line the empty line is an error. */
  lemma NoHeaders(trace: seq<Machine>, input: seq<Byte>, l: Line1)
    requires IsLine1(l) && IsTrace(trace, input) && input == Head(l, [])
    ensures trace[|input|].ending == Failed && trace[|input|].out == Tokens1(l) + [Tok(Error, [])]
  {
    var c := |l.verb| + |l.target| + |l.version| + 4;
    BareHead(l);
    RequestLineRuns(trace, input, l, CRLF, c, false);
    FailsAtOnce(trace, input, c, Tokens1(l));
  }

  lemma BareHead(l: Line1)
    ensures Head(l, []) == l.verb + ([32] + (l.target + ([32] + (l.version + (CRLF + CRLF)))))
  {
    assert Lines([]) + CRLF == CRLF;
  }

  lemma FailsAtOnce(trace: seq<Machine>, input: seq<Byte>, c: nat, out: seq<Tok>)
    requires IsTrace(trace, input) && Spells(input, c, CRLF) && |input| == c + 2
             && trace[c] == Between(RN, ANY, 0, 0, c, out)
    ensures trace[|input|].ending == Failed && trace[|input|].out == out + [Tok(Error, [])]
  {
    TwoBytes(input, c);
    ReturnFails(c, out);
    HeadByte(trace, input, c, BR);
    Halted(trace, input, c + 1, 1);
  }

  lemma ReturnFails(pos: nat, out: seq<Tok>)
    ensures var r := Between(RN, ANY, 0, 0, pos, out);
      Destination(r.p, 13) == BR && HeadStep(r, 13, BR).ending == Failed
      && HeadStep(r, 13, BR).out == out + [Tok(Error, [])]
  {
  }
}
