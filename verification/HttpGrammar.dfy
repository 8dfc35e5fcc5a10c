/** The head of a request, section 3 of RFC 7230, and what the parser makes of it: which lines it takes for which
    header, and what it concludes about the body. */
module HttpGrammar {
  import opened HttpTables
  import opened HttpReference
  import opened HttpChunks

  // ----- the grammar -----

  /** A byte of a method or of a header name: a token character of section 3.2.6, or a comma. */
  predicate InName(c: Byte) {
    || c == 33 || 35 <= c <= 39 || 42 <= c <= 46 || IsDecimal(c) || 65 <= c <= 90 || 94 <= c <= 122 || c == 124
    || c == 126
  }

  predicate IsDecimal(c: Byte) {
    48 <= c <= 57
  }

  predicate InTarget(c: Byte) {
    33 <= c <= 126
  }

  predicate InVersion(c: Byte) {
    33 <= c <= 126 && c != 58 && c != 59
  }

  /** Optional white space. */
  predicate IsBlank(c: Byte) {
    c == 32 || c == 9
  }

  predicate AllBlank(text: seq<Byte>) {
    forall i :: 0 <= i < |text| ==> IsBlank(text[i])
  }

  predicate InValue(c: Byte) {
    c == 9 || 32 <= c <= 126
  }

  /** What may follow the first byte of a token in each of the states that a token is read in. */
  predicate Continues(s: State, c: Byte) {
    match s
    case MT => InName(c)
    case TR => InTarget(c)
    case VN => InVersion(c)
    case HK => InName(c)
    case HV => InValue(c)
    case _ => false
  }

  predicate AllContinue(s: State, text: seq<Byte>) {
    forall i :: 0 <= i < |text| ==> Continues(s, text[i])
  }

  predicate IsToken(s: State, text: seq<Byte>) {
    text != [] && AllContinue(s, text)
  }

  datatype Line1 = Line1(verb: seq<Byte>, target: seq<Byte>, version: seq<Byte>)

  predicate IsLine1(l: Line1) {
    && IsToken(MT, l.verb) && !IsDecimal(l.verb[0]) && IsToken(TR, l.target) && InVersion(l.target[0])
    && IsToken(VN, l.version)
  }

  /** A header line. The value may be empty, and the white space after it counts as part of it. */
  datatype Header = Header(name: seq<Byte>, blanks: seq<Byte>, value: seq<Byte>)

  predicate IsHeader(h: Header) {
    && IsToken(HK, h.name) && AllBlank(h.blanks) && AllContinue(HV, h.value)
    && (h.value != [] ==> !IsBlank(h.value[0]))
  }

  predicate AllHeaders(headers: seq<Header>) {
    forall i :: 0 <= i < |headers| ==> IsHeader(headers[i])
  }

  function Text(h: Header): seq<Byte> {
    h.name + ([58] + (h.blanks + h.value))
  }

  function Lines(headers: seq<Header>): seq<Byte> {
    if headers == [] then [] else (Text(headers[0]) + CRLF) + Lines(headers[1..])
  }

  function Head(l: Line1, headers: seq<Header>): seq<Byte> {
    l.verb + ([32] + (l.target + ([32] + (l.version + (CRLF + (Lines(headers) + CRLF))))))
  }

  // ----- which lines are taken for which header -----

  /** A header as the parser reports it. */
  datatype Pair = Pair(name: seq<Byte>, value: seq<Byte>)

  /** What the lines say. */
  function Own(headers: seq<Header>): (pairs: seq<Pair>)
    ensures |pairs| == |headers| && forall i :: 0 <= i < |pairs| ==> pairs[i] == Pair(headers[i].name, headers[i].value)
  {
    if headers == [] then [] else [Pair(headers[0].name, headers[0].value)] + Own(headers[1..])
  }

  /** What the parser reports: the line after an empty value is taken for the value. */
  function Seen(headers: seq<Header>): (pairs: seq<Pair>)
    ensures |pairs| <= |headers|
  {
    if headers == [] then []
    else if headers[0].value != [] then [Pair(headers[0].name, headers[0].value)] + Seen(headers[1..])
    else if |headers| == 1 then []
    else [Pair(headers[0].name, Text(headers[1]))] + Seen(headers[2..])
  }

  /** The last line's empty value takes the end of the head for white space. */
  predicate Unclosed(headers: seq<Header>) {
    if headers == [] then false
    else if headers[0].value != [] then Unclosed(headers[1..])
    else |headers| == 1 || Unclosed(headers[2..])
  }

  /** The names reported: with that of an unclosed line, one more than the values. */
  function Count(headers: seq<Header>): nat {
    |Seen(headers)| + if Unclosed(headers) then 1 else 0
  }

  predicate NoneEmpty(headers: seq<Header>) {
    forall i :: 0 <= i < |headers| ==> headers[i].value != []
  }

  /** The lines are taken for what they say exactly when no value is empty. */
  lemma {:induction false} SeenIsOwnIff(headers: seq<Header>)
    ensures NoneEmpty(headers) <==> |Seen(headers)| == |headers|
    ensures NoneEmpty(headers) ==> Seen(headers) == Own(headers) && !Unclosed(headers)
  {
    if headers != [] {
      SeenIsOwnIff(headers[1..]);
      assert NoneEmpty(headers) <==> headers[0].value != [] && NoneEmpty(headers[1..]) by {
        assert forall i :: 0 < i < |headers| ==> headers[i] == headers[1..][i - 1];
      }
    }
  }

  function Tokens1(l: Line1): seq<Tok> {
    [Tok(Method, l.verb), Tok(Target, l.target), Tok(Version, l.version)]
  }

  function PairTokens(pairs: seq<Pair>): (tokens: seq<Tok>)
    ensures |tokens| == 2 * |pairs|
  {
    if pairs == [] then []
    else [Tok(HeaderKey, pairs[0].name), Tok(HeaderVal, pairs[0].value)] + PairTokens(pairs[1..])
  }

  // ----- what the framing makes of a header -----

  predicate Spelled(text: seq<Byte>, pattern: seq<Byte>) {
    |text| == |pattern| && forall i :: 0 <= i < |text| ==> Lower(text[i]) == pattern[i]
  }

  /** text agrees with the pattern as far as it goes. */
  predicate Begins(text: seq<Byte>, pattern: seq<Byte>) {
    |text| <= |pattern| && forall i :: 0 <= i < |text| ==> Lower(text[i]) == pattern[i]
  }

  /** What a name is compared with for Content-Length: past its end the other name's characters are left in place. */
  const CONTENT_LENGTHING: seq<Byte> := CONTENT_LENGTH + TRANSFER_ENCODING[14..]

  /** What a name is taken for, when no header before it has settled the framing. */
  function KeyOutcome(name: seq<Byte>): Meta {
    if Begins(name, TRANSFER_ENCODING) then MTE else if Begins(name, CONTENT_LENGTHING) then MCL else WFK
  }

  /** The framing state once the name has ended. */
  function Named(m: Meta, name: seq<Byte>): Meta {
    if m != ANY then m
    else if KeyOutcome(name) == MTE then MCK else if KeyOutcome(name) == MCL then CLV else WFK
  }

  /** Every byte is taken for a digit. */
  function Number(before: int, text: seq<Byte>): int
    decreases |text|
  {
    if text == [] then before else Number(before * 10 + text[0] - 48, text[1..])
  }

  /** The framing state between headers, and the declared length. */
  datatype Framing = Framing(m: Meta, length: int)

  const START := Framing(ANY, 0)

  predicate IsFraming(f: Framing) {
    f.m in {ANY, SML, CHK}
  }

  function FramedOne(f: Framing, p: Pair): (g: Framing)
    ensures IsFraming(f) ==> IsFraming(g)
  {
    match Named(f.m, p.name)
    case MCK => Framing(if Begins(p.value, CHUNKED) then CHK else ANY, f.length)
    case CLV => Framing(SML, Number(f.length, p.value))
    case WFK => Framing(ANY, f.length)
    case _ => f
  }

  function FramedAll(f: Framing, pairs: seq<Pair>): (g: Framing)
    ensures IsFraming(f) ==> IsFraming(g)
    decreases |pairs|
  {
    if pairs == [] then f else FramedAll(FramedOne(f, pairs[0]), pairs[1..])
  }

  /** The machine after the empty line, with the position after it. */
  function HeadOver(f: Framing, headers: nat, pos: nat, out: seq<Tok>): Machine
    requires pos > 0
  {
    if f.m == CHK then Between(HN, ZER, f.length, headers, pos, out + [Tok(BodyStream, [])])
    else if f.m == SML && !CanContain(pos - 1, f.length) then
      Machine(Fields(HN, STR, f.length, 0, 0, headers), NoToken, [], pos, out + [Tok(BodyStream, [])], Streaming)
    else if f.m == SML && f.length != 0 then Between(HN, BDY, f.length, headers, pos, out)
    else
      Machine(Fields(HN, END, f.length, 0, 0, headers), NoToken, [], pos, out + [Tok(Body, [])] + [Tok(ReqEnd, [])],
              Finished)
  }
}
