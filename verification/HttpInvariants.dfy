/** What holds of the parser on every input: the framing table's error entries, and its missing row, are never
    reached. */
module HttpInvariants {
  import opened HttpTables
  import opened HttpReference

  /** The first character of a header name decides: it cannot match both names. */
  lemma KeyStart(c: Byte)
    ensures MatchKey(ANY, 0, c) in {WFK, MTE, MCL}
  {
  }
  lemma NextKeyCoherent(p: Fields, c: Byte, to: State, index: nat)
    requires ParserCoherent(p) && (p.state == RN || p.state == HE) && to == Destination(p, c) && to != BR
    ensures var q := Arrive(Enter(p, to), c, index); EndingOf(NoToken, q.meta) == Running ==> ParserCoherent(q)
  {
    KeyStart(c);
  }

  lemma InKeyCoherent(p: Fields, c: Byte, to: State, index: nat)
    requires ParserCoherent(p) && p.state == HK && to == Destination(p, c) && to != BR
    ensures var q := Arrive(Enter(p, to), c, index); EndingOf(NoToken, q.meta) == Running ==> ParserCoherent(q)
  {
  }

  lemma KeyCoherent(p: Fields, c: Byte, to: State, index: nat)
    requires ParserCoherent(p) && (p.state == RN || p.state == HE || p.state == HK) && to == Destination(p, c)
             && to != BR
    ensures var q := Arrive(Enter(p, to), c, index); EndingOf(NoToken, q.meta) == Running ==> ParserCoherent(q)
  {
    if p.state == HK {
      InKeyCoherent(p, c, to, index);
    } else {
      NextKeyCoherent(p, c, to, index);
    }
  }

  lemma LineCoherent(p: Fields, c: Byte, to: State, index: nat)
    requires ParserCoherent(p) && p.state in {ST, MT, MS, TR, TS, VN, RR, HS} && to == Destination(p, c) && to != BR
    ensures var q := Arrive(Enter(p, to), c, index); EndingOf(NoToken, q.meta) == Running ==> ParserCoherent(q)
  {
  }
  lemma ValueCoherent(p: Fields, c: Byte, to: State, index: nat)
    requires ParserCoherent(p) && p.state in {HV, HR} && to == Destination(p, c) && to != BR
    ensures var q := Arrive(Enter(p, to), c, index); EndingOf(NoToken, q.meta) == Running ==> ParserCoherent(q)
  {
  }
  lemma EndCoherent(p: Fields, c: Byte, to: State, index: nat)
    requires ParserCoherent(p) && p.state in {ER, HN} && to == Destination(p, c) && to != BR && !InBody(to)
    ensures var q := Arrive(Enter(p, to), c, index); EndingOf(NoToken, q.meta) == Running ==> ParserCoherent(q)
  {
  }
  lemma SizeCoherent(p: Fields, c: Byte, to: State, index: nat)
    requires ParserCoherent(p) && p.state in {CS, C2} && to == Destination(p, c) && to != BR
    ensures var q := Arrive(Enter(p, to), c, index); EndingOf(NoToken, q.meta) == Running ==> ParserCoherent(q)
  {
  }
  lemma ChunkCoherent(p: Fields, c: Byte, to: State, index: nat)
    requires ParserCoherent(p) && p.state in {CE, CR, CD, C1} && to == Destination(p, c) && to != BR
    ensures var q := Arrive(Enter(p, to), c, index); EndingOf(NoToken, q.meta) == Running ==> ParserCoherent(q)
  {
  }

  /** Outside the bodies. */
  lemma HeadParserCoherent(p: Fields, c: Byte, to: State, index: nat)
    requires ParserCoherent(p) && to == Destination(p, c) && to != BR && !InBody(to)
    ensures var q := Arrive(Enter(p, to), c, index); EndingOf(NoToken, q.meta) == Running ==> ParserCoherent(q)
  {
    if p.state in {ST, MT, MS, TR, TS, VN, RR, HS} { LineCoherent(p, c, to, index); }
    else if p.state in {RN, HE, HK} { KeyCoherent(p, c, to, index); }
    else if p.state in {HV, HR} { ValueCoherent(p, c, to, index); }
    else if p.state in {ER, HN} { EndCoherent(p, c, to, index); }
    else if p.state in {CS, C2} { SizeCoherent(p, c, to, index); }
    else { ChunkCoherent(p, c, to, index); }
  }

  lemma ArriveKeepsState(p: Fields, c: Byte, to: State, index: nat)
    ensures Arrive(Enter(p, to), c, index).state == to
  {
  }

  lemma HeadTokenCoherent(r: Machine, c: Byte, to: State)
    requires Coherent(r) && to == Destination(r.p, c) && to != BR && !InBody(to)
    ensures TokenCoherent(HeadStep(r, c, to))
  {
    ArriveKeepsState(r.p, c, to, r.pos);
    var q := HeadStep(r, c, to);
    assert q.p.state == to;
    StartsAndEnds(r.p.state, to, c, r.p);
  }

  lemma StartsAndEnds(from: State, to: State, c: Byte, p: Fields)
    requires p.state == from && from != BR && to == Destination(p, c) && to != BR && !InBody(from) && !InBody(to)
    ensures StartKind(from) != NoToken && from != to ==> EndsToken(from, to)
    ensures EndsToken(from, to) ==> StartKind(to) == NoToken && from != to
  {
  }

  lemma HeadCoherent(r: Machine, c: Byte, to: State)
    requires r.ending == Running && Coherent(r) && to == Destination(r.p, c) && !InBody(to)
    ensures HeadStep(r, c, to).ending == Running ==> Coherent(HeadStep(r, c, to))
  {
    if to != BR {
      HeadParserCoherent(r.p, c, to, r.pos);
      HeadTokenCoherent(r, c, to);
    }
  }

  lemma IntoBody(p: Fields, c: Byte)
    requires ParserCoherent(p) && InBody(Destination(p, c))
    ensures var to := Destination(p, c);
            var e := Enter(p, to);
            e.state == to && e.meta == p.meta && e.contentLength == p.contentLength && e.bodyConsumed == p.bodyConsumed
    ensures Destination(p, c) == BD <==> p.state == HN || p.state == BD
    ensures p.meta == if Destination(p, c) == BD then BDY else if p.state == CB then CBD else p.meta
    ensures p.meta in {BDY, CBD, LST}
  {
  }

  lemma BodyCoherent(r: Machine, c: Byte, to: State)
    requires r.ending == Running && Coherent(r) && to == Destination(r.p, c) && InBody(to) && r.p.contentLength >= 0
    ensures BodyStep(r, c, to).ending == Running ==> Coherent(BodyStep(r, c, to))
  {
    IntoBody(r.p, c);
    var p := Enter(r.p, to);
    if p.contentLength - p.bodyConsumed <= 0 {
      var done := BodyDone(p);
      var (kind, text) := if r.p.state != to then (StartKind(to), []) else (r.kind, r.text);
      var r' := Machine(done, NoToken, [], r.pos, r.out + Emitted(kind, text), Running);
      assert to == CB;
      assert Coherent(r');
      HeadCoherent(r', c, Destination(done, c));
    }
  }

  lemma StepCoherent(r: Machine, c: Byte)
    requires r.ending == Running && Coherent(r) && r.p.contentLength >= 0
    ensures Step(r, c).ending == Running ==> Coherent(Step(r, c))
  {
    var to := Destination(r.p, c);
    if InBody(to) {
      BodyCoherent(r, c, to);
    } else {
      HeadCoherent(r, c, to);
    }
  }

  lemma HeadGrows(r: Machine, c: Byte, to: State)
    ensures r.out <= HeadStep(r, c, to).out
  {
  }

  lemma BodyGrows(r: Machine, c: Byte, to: State)
    ensures r.out <= BodyStep(r, c, to).out
  {
    var p := Enter(r.p, to);
    if p.contentLength - p.bodyConsumed <= 0 {
      var (kind, text) := if r.p.state != to then (StartKind(to), []) else (r.kind, r.text);
      var r' := Machine(BodyDone(p), NoToken, [], r.pos, r.out + Emitted(kind, text), Running);
      if r'.p.state == CD {
        HeadGrows(r', c, Destination(r'.p, c));
      }
    }
  }

  lemma OutGrows(r: Machine, c: Byte)
    ensures r.out <= Step(r, c).out
  {
    if r.ending == Running && r.p.state != BR {
      var to := Destination(r.p, c);
      if InBody(to) {
        BodyGrows(r, c, to);
      } else {
        HeadGrows(r, c, to);
      }
    }
  }

  lemma {:induction false} OutIsKept(trace: seq<Machine>, input: seq<Byte>, k: nat, n: nat)
    requires IsTrace(trace, input) && k + n <= |input|
    ensures trace[k].out <= trace[k + n].out
  {
    if n > 0 {
      OutIsKept(trace, input, k, n - 1);
      assert Stepped(trace, input, k + n - 1);
      OutGrows(trace[k + n - 1], input[k + n - 1]);
    }
  }

  /** Nothing after the end of the request matters. */
  lemma {:induction false} Halted(trace: seq<Machine>, input: seq<Byte>, k: nat, n: nat)
    requires IsTrace(trace, input) && k + n <= |input| && trace[k].ending != Running
    ensures trace[k + n] == trace[k]
  {
    if n > 0 {
      Halted(trace, input, k, n - 1);
      assert Stepped(trace, input, k + n - 1);
    }
  }

  /** The requests the parser frames: lengths within the limits all the way, and nothing after the last chunk. */
  ghost predicate FramedTrace(trace: seq<Machine>) {
    forall k {:trigger FramedAt(trace, k)} :: 0 <= k < |trace| ==> FramedAt(trace, k)
  }

  ghost predicate FramedAt(trace: seq<Machine>, k: nat)
    requires k < |trace|
  {
    Framable(trace[k]) && (k < |trace| - 1 ==> !ChunksOver(trace[k]))
  }

  /** The same, and no token of the head is too long. */
  ghost predicate CleanTrace(trace: seq<Machine>) {
    FramedTrace(trace) && forall k :: 0 <= k < |trace| ==> !LongToken(trace[k])
  }

  /** The request is over at the end of a chunked body. */
  predicate ChunksOver(r: Machine) {
    r.ending == Finished && r.p.state == C2
  }

  /** No declared length turns negative, neither in a Content-Length header nor in a chunk's size. */
  ghost predicate NeverNegative(trace: seq<Machine>) {
    forall k :: 0 <= k < |trace| ==> trace[k].p.contentLength >= 0
  }

  lemma FramedIsNeverNegative(trace: seq<Machine>)
    requires FramedTrace(trace)
    ensures NeverNegative(trace)
  {
    forall k | 0 <= k < |trace| ensures trace[k].p.contentLength >= 0 {
      assert FramedAt(trace, k);
    }
  }

  lemma {:induction false} CoherentByLengths(trace: seq<Machine>, input: seq<Byte>, k: nat)
    requires IsTrace(trace, input) && NeverNegative(trace) && k <= |input|
    ensures trace[k].ending == Running ==> Coherent(trace[k]) && trace[k].pos == k
  {
    if k > 0 {
      CoherentByLengths(trace, input, k - 1);
      TraceStep(trace, input, k - 1);
    }
  }

  lemma TraceCoherent(trace: seq<Machine>, input: seq<Byte>, k: nat)
    requires IsTrace(trace, input) && FramedTrace(trace) && k <= |input|
    ensures trace[k].ending == Running ==> Coherent(trace[k]) && trace[k].pos == k
  {
    FramedIsNeverNegative(trace);
    CoherentByLengths(trace, input, k);
  }

  lemma TraceStep(trace: seq<Machine>, input: seq<Byte>, k: nat)
    requires IsTrace(trace, input) && k < |input| && trace[k].p.contentLength >= 0
             && (trace[k].ending == Running ==> Coherent(trace[k]) && trace[k].pos == k)
    ensures trace[k + 1].ending == Running ==> Coherent(trace[k + 1]) && trace[k + 1].pos == k + 1
  {
    assert Stepped(trace, input, k);
    StepKeeps(trace[k], input[k], trace[k + 1]);
  }

  lemma StepKeeps(r: Machine, c: Byte, r': Machine)
    requires r' == Step(r, c) && r.p.contentLength >= 0 && (r.ending == Running ==> Coherent(r))
    ensures r'.ending == Running ==> Coherent(r') && r'.pos == r.pos + 1 && r.ending == Running
  {
    if r.ending == Running {
      StepCoherent(r, c);
      StepMoves(r, c);
    }
  }

  lemma StepMoves(r: Machine, c: Byte)
    requires r.ending == Running && Coherent(r) && r.p.contentLength >= 0
    ensures Step(r, c).pos == r.pos + 1
  {
  }

  ghost predicate Framed(input: seq<Byte>) {
    FramedTrace(Trace(input))
  }

  ghost predicate Clean(input: seq<Byte>) {
    CleanTrace(Trace(input))
  }

  lemma CoherentInTables(r: Machine)
    ensures Coherent(r) ==> r.p.meta != ERR && r.p.state != BR
  {
  }

  /** On every input whose declared lengths are not negative, whatever the length of its tokens and bodies, the framing
      state is never the error state, which has no row in its table, and the parser state is never BR, which has none in
      the other, until an error is reported. */
  lemma TransitionTablesAreNeverOverrun(trace: seq<Machine>, input: seq<Byte>, k: nat)
    requires IsTrace(trace, input) && NeverNegative(trace) && k <= |input|
    ensures trace[k].ending == Running ==> trace[k].p.meta != ERR && trace[k].p.state != BR
  {
    CoherentByLengths(trace, input, k);
    CoherentInTables(trace[k]);
  }

  /** hs_token_start_states is read on every change of state: outside it exactly when the byte leads to BR. */
  lemma StartsAreOverrunIff(p: Fields, c: Byte)
    requires p.state != BR
    ensures var to := Destination(p, c); to != p.state && Row(to) >= |TOKEN_START_STATES| <==> to == BR
  {
    var to := Destination(p, c);
    if to != BR {
      StartKindIsRow(to);
    }
  }

  /** HeadStep where any token is read from the table. */
  function HeadStepReading(r: Machine, c: Byte, to: State, read: Kind): Machine {
    var from := r.p.state;
    var entered := Enter(r.p, to);
    var p := Arrive(entered, c, r.pos);
    var mark := Mark(entered, from, c, r.pos);
    var (kind, text) := if from != to && read != NoToken then (read, []) else (r.kind, r.text);
    var tokens := if mark != NoToken then [Tok(mark, [])] else if EndsToken(from, to) then Emitted(kind, text) else [];
    var (kind', text') := if EndsToken(from, to) then (NoToken, []) else (kind, text);
    var ending := EndingOf(mark, p.meta);
    Machine(p, kind', if kind' == NoToken then [] else text' + [c], r.pos + 1, r.out + tokens + Closing(ending), ending)
  }

  /** Whatever lies past the end of the table, the byte brings the same error and the request is over; for every other
      destination the table says what is read. */
  lemma OverrunMakesNoDifference(r: Machine, c: Byte, to: State, read: Kind)
    ensures to == BR ==>
              HeadStepReading(r, c, to, read).out == r.out + [Tok(Error, [])] == HeadStep(r, c, to).out
              && HeadStepReading(r, c, to, read).ending == Failed == HeadStep(r, c, to).ending
    ensures to != BR && read == StartKind(to) ==> HeadStepReading(r, c, to, read) == HeadStep(r, c, to)
  {
  }
}
