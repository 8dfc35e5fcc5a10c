/** The parser as a machine that takes one byte at a time and keeps the bytes of the current token itself:
    what http_parse must mean however its input is split. */
module HttpReference {
  import opened HttpTables

  /** http_parser_t */
  datatype Fields = Fields(state: State, meta: Meta, contentLength: int, bodyConsumed: int, matchIndex: nat,
                           headerCount: nat)

  const ZEROED := Fields(ST, WFK, 0, 0, 0, 0)

  /** A token as the application sees it. */
  datatype Tok = Tok(kind: Kind, text: seq<Byte>)

  /** Streaming: the body does not fit the buffer and is handed over as it comes. */
  datatype Ending = Running | Failed | Finished | Streaming

  datatype Machine = Machine(p: Fields, kind: Kind, text: seq<Byte>, pos: nat, out: seq<Tok>, ending: Ending)

  const FRESH := Machine(ZEROED, NoToken, [], 0, [], Running)

  // ----- the parser's own fields -----

  /** HS_MATCH: the framing state after comparing c, and the character compared with, which the macro leaves behind. */
  function Match(m: Meta, e: Event, pattern: seq<Byte>, index: nat, before: int, c: Byte): (r: (Meta, int)) {
    var with := if index < |pattern| then pattern[index] as int else before;
    (if Lower(c) != with then MetaTransition(m, e) else m, with)
  }

  function MatchKey(m: Meta, index: nat, c: Byte): Meta {
    var (m1, with) := Match(m, NOT_TRANSFER_ENC, TRANSFER_ENCODING, index, 0, c);
    Match(m1, NOT_CONTENT_LEN, CONTENT_LENGTH, index, with, c).0
  }

  /** The new state, and what changing to it does. */
  function Enter(p: Fields, to: State): Fields {
    if p.state == to then p else
      var m := if p.state == CS then MetaTransition(p.meta, END_CHK_SIZE) else p.meta;
      p.(state := to, matchIndex := 0,
         headerCount := if to == HK then p.headerCount + 1 else p.headerCount,
         meta := if to == HS then MetaTransition(m, END_KEY) else m)
  }

  function HexValue(c: Byte): (v: int) {
    if 65 <= c <= 70 then c - 55 else if 97 <= c <= 102 then c - 87 else c - 48
  }

  predicate IsHex(c: Byte) {
    48 <= c <= 57 || 65 <= c <= 70 || 97 <= c <= 102
  }

  function CanContain(index: nat, size: int): bool {
    MAX_REQUEST_BUF_SIZE - index + 1 >= size
  }

  function FramingAtEnd(p: Fields, index: nat): Meta {
    if p.meta == SML && !CanContain(index, p.contentLength) then MetaTransition(p.meta, LARGE_BODY) else p.meta
  }

  /** What arriving in a state outside the bodies does; index is where the stream stands. */
  function Arrive(p: Fields, c: Byte, index: nat): Fields {
    match p.state
    case RR => p.(meta := MetaTransition(p.meta, END_VALUE))
    case HR => p.(meta := MetaTransition(p.meta, END_VALUE))
    case HK => p.(meta := MatchKey(p.meta, p.matchIndex, c), matchIndex := p.matchIndex + 1)
    case HV =>
      if p.meta == MCK then
        p.(meta := Match(p.meta, NOT_CHUNKED, CHUNKED, p.matchIndex, 0, c).0, matchIndex := p.matchIndex + 1)
      else if p.meta == CLV then p.(contentLength := p.contentLength * 10 + c - 48)
      else p
    case HN =>
      var m := MetaTransition(FramingAtEnd(p, index), END_HEADERS);
      p.(meta := if p.contentLength == 0 && m == BDY then END else m)
    case CS =>
      p.(meta := if c != 48 then MetaTransition(p.meta, NON_ZERO) else p.meta,
         contentLength := if IsHex(c) then p.contentLength * 16 + HexValue(c) else p.contentLength)
    case C2 => p.(meta := MetaTransition(p.meta, END_CHUNK))
    case _ => p
  }

  /** Tokens that stand for no bytes: an error, or the end of the head. */
  function Mark(entered: Fields, from: State, c: Byte, index: nat): Kind {
    if entered.state == BR then Error
    else if entered.state == HK && from != HK && entered.headerCount > MAX_HEADER_COUNT then Error
    else if entered.state == HN then
      if Arrive(entered, c, index).meta == END then Body
      else if FramingAtEnd(entered, index) == BIG || FramingAtEnd(entered, index) == CHK then BodyStream
      else NoToken
    else NoToken
  }

  /** The current token ends before the byte that leads to these states. */
  predicate EndsToken(from: State, to: State) {
    to == MS || to == TS || to == RR || to == HR || (to == HS && from != HS)
  }

  // ----- one byte -----

  predicate InBody(s: State) {
    s == CB || s == BD
  }

  function Destination(p: Fields, c: Byte): State
    requires p.state != BR
  {
    var to := Transition(p.state, TypeOf(c));
    if p.meta == ZER && p.state == HN && to == BD then CS else to
  }

  function Emitted(kind: Kind, text: seq<Byte>): seq<Tok> {
    if kind == NoToken then [] else [Tok(kind, text)]
  }

  function EndingOf(mark: Kind, m: Meta): Ending {
    if mark == Error then Failed else if m == END then Finished else if m == STR then Streaming else Running
  }

  /** The request ends as soon as the framing says so. */
  function Closing(ending: Ending): seq<Tok> {
    if ending == Finished then [Tok(ReqEnd, [])] else []
  }

  function HeadStep(r: Machine, c: Byte, to: State): Machine {
    var from := r.p.state;
    var entered := Enter(r.p, to);
    var p := Arrive(entered, c, r.pos);
    var mark := Mark(entered, from, c, r.pos);
    var (kind, text) := if from != to && StartKind(to) != NoToken then (StartKind(to), []) else (r.kind, r.text);
    var tokens := if mark != NoToken then [Tok(mark, [])] else if EndsToken(from, to) then Emitted(kind, text) else [];
    var (kind', text') := if EndsToken(from, to) then (NoToken, []) else (kind, text);
    var ending := EndingOf(mark, p.meta);
    Machine(p, kind', if kind' == NoToken then [] else text' + [c], r.pos + 1, r.out + tokens + Closing(ending), ending)
  }

  /** The parser once a body or a chunk is complete. */
  function BodyDone(p: Fields): Fields {
    p.(meta := MetaTransition(p.meta, NEXT), state := if p.state == CB then CD else p.state, contentLength := 0,
       bodyConsumed := 0)
  }

  function BodyStep(r: Machine, c: Byte, to: State): Machine {
    var p := Enter(r.p, to);
    var (kind, text) := if r.p.state != to then (StartKind(to), []) else (r.kind, r.text);
    var left := p.contentLength - p.bodyConsumed;
    if left <= 0 then
      // the last chunk: an empty token, and the byte is still to be looked at
      var done := BodyDone(p);
      var r' := Machine(done, NoToken, [], r.pos, r.out + Emitted(kind, text), Running);
      if done.state == CD then HeadStep(r', c, Destination(done, c)) else r'
    else if left == 1 then
      var done := BodyDone(p);
      var ending := EndingOf(NoToken, done.meta);
      Machine(done, NoToken, [], r.pos + 1, r.out + Emitted(kind, text + [c]) + Closing(ending), ending)
    else
      Machine(p.(bodyConsumed := p.bodyConsumed + 1), kind, text + [c], r.pos + 1, r.out, Running)
  }

  function Step(r: Machine, c: Byte): Machine {
    if r.ending != Running || r.p.state == BR then r
    else
      var to := Destination(r.p, c);
      if InBody(to) then BodyStep(r, c, to) else HeadStep(r, c, to)
  }

  // ----- traces: the machine before each byte of its input, and after the last -----

  ghost predicate IsTrace(trace: seq<Machine>, input: seq<Byte>) {
    && |trace| == |input| + 1 && trace[0] == FRESH
    && forall k {:trigger Stepped(trace, input, k)} :: 0 <= k < |input| ==> Stepped(trace, input, k)
  }

  ghost predicate Stepped(trace: seq<Machine>, input: seq<Byte>, k: nat)
    requires k < |input| && |trace| == |input| + 1
  {
    trace[k + 1] == Step(trace[k], input[k])
  }

  function Trace(input: seq<Byte>): (trace: seq<Machine>)
    ensures |trace| == |input| + 1
  {
    if input == [] then [FRESH]
    else
      var before := Trace(input[..|input| - 1]);
      before + [Step(before[|input| - 1], input[|input| - 1])]
  }

  /** The tokens of a whole input. */
  function Tokens(input: seq<Byte>): seq<Tok> {
    Trace(input)[|input|].out
  }

  lemma {:induction false} TraceIsTrace(input: seq<Byte>)
    ensures IsTrace(Trace(input), input)
  {
    if input != [] {
      var n := |input| - 1;
      TraceIsTrace(input[..n]);
      forall k | 0 <= k < |input| ensures Stepped(Trace(input), input, k) {
        if k < n {
          assert Stepped(Trace(input[..n]), input[..n], k);
        }
      }
    }
  }

  /** An input has one trace. */
  lemma {:induction false} TraceIsUnique(s: seq<Machine>, t: seq<Machine>, input: seq<Byte>, k: nat)
    requires IsTrace(s, input) && IsTrace(t, input) && k <= |input|
    ensures s[k] == t[k]
  {
    if k > 0 {
      TraceIsUnique(s, t, input, k - 1);
      assert Stepped(s, input, k - 1) && Stepped(t, input, k - 1);
    }
  }

  /** More input leaves the trace so far as it was. */
  lemma TraceGrows(input: seq<Byte>, more: seq<Byte>, trace: seq<Machine>) returns (longer: seq<Machine>)
    requires IsTrace(trace, input)
    ensures IsTrace(longer, input + more) && longer[..|trace|] == trace
  {
    longer := Trace(input + more);
    TraceIsTrace(input + more);
    forall k | 0 <= k <= |input| ensures longer[k] == trace[k] {
      SameSoFar(longer, input + more, trace, input, k);
    }
  }

  lemma {:induction false} SameSoFar(s: seq<Machine>, a: seq<Byte>, t: seq<Machine>, b: seq<Byte>, k: nat)
    requires IsTrace(s, a) && IsTrace(t, b) && b <= a && k <= |b|
    ensures s[k] == t[k]
  {
    if k > 0 {
      SameSoFar(s, a, t, b, k - 1);
      assert Stepped(s, a, k - 1) && Stepped(t, b, k - 1);
    }
  }

  // ----- what holds of every input -----

  /** Which framing states go with which parser states. */
  predicate Agree(s: State, m: Meta) {
    match s
    case RR => m == ANY
    case RN => m == ANY
    case HK => m == WFK || m == MTE || m == MCL || m == SML || m == CHK
    case HS => m == WFK || m == MCK || m == CLV || m == SML || m == CHK
    case HV => m == WFK || m == MCK || m == CLV || m == SML || m == CHK
    case HR => m == ANY || m == SML || m == CHK
    case HE => m == ANY || m == SML || m == CHK
    case ER => m == ANY || m == SML || m == CHK
    case HN => m == BDY || m == ZER
    case BD => m == BDY
    case CS => m == ZER || m == CSZ
    case CE => m == LST || m == CBD
    case CR => m == LST || m == CBD
    case CN => m == LST || m == CBD
    case CB => m == CBD
    case CD => m == LST || m == CBD
    case C1 => m == LST || m == CBD
    case C2 => m == ZER
    case BR => false
    case _ => m == WFK
  }

  predicate ParserCoherent(p: Fields) {
    && Agree(p.state, p.meta)
    && (!InBody(p.state) ==> p.bodyConsumed == 0)
    && (InBody(p.state) ==> 0 <= p.bodyConsumed < p.contentLength)
    && (p.meta in {WFK, ANY, MTE, MCL, MCK, CHK, ZER, LST} ==> p.contentLength == 0)
    && (p.state in {CS, CE, CR, CN, CB, CD, C1, C2} ==> p.contentLength >= 0)
    && (p.state in {CD, C1, C2} ==> p.contentLength == 0)
    && (p.state == HN && p.meta == BDY ==> p.contentLength != 0)
  }

  /** The current token is the one its state begins, and inside a body it holds what has been consumed of it. */
  predicate TokenCoherent(r: Machine) {
    && r.kind == StartKind(r.p.state) && (r.kind == NoToken ==> r.text == [])
    && (InBody(r.p.state) ==> |r.text| == r.p.bodyConsumed)
  }

  predicate Coherent(r: Machine) {
    ParserCoherent(r.p) && TokenCoherent(r)
  }

  /** A declared length never turns negative and stays within the buffer, and the body is not streamed. */
  predicate Framable(r: Machine) {
    0 <= r.p.contentLength <= MAX_REQUEST_BUF_SIZE + 1 && r.ending != Streaming
  }

  /** A start-line or header token has grown past the limit. */
  predicate LongToken(r: Machine) {
    r.ending == Running && r.kind != Body && r.kind != ChunkBody && |r.text| > MAX_TOKEN_LENGTH
  }

  predicate WithinLimits(r: Machine) {
    Framable(r) && !LongToken(r)
  }
}
