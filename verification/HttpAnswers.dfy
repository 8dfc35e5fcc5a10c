/** How a request is answered when the input runs out at certain places, and when that depends on the places. */
module HttpAnswers {
  import opened HttpTables
  import opened HttpReference
  import opened HttpInvariants

  ghost predicate Within(ends: seq<nat>, lo: nat, hi: int) {
    forall i :: 0 <= i < |ends| ==> lo <= ends[i] <= hi
  }

  ghost predicate NoneLong(trace: seq<Machine>, ends: seq<nat>)
    requires Within(ends, 0, |trace| - 1)
  {
    forall i :: 0 <= i < |ends| ==> !LongToken(trace[ends[i]])
  }

  const REFUSAL := [Tok(Error, [])]

  /** The first place inside a token of the head that is too long by then brings the request to its end. */
  ghost function Answer(trace: seq<Machine>, ends: seq<nat>): seq<Tok>
    requires trace != [] && Within(ends, 0, |trace| - 1)
  {
    if ends == [] then trace[|trace| - 1].out
    else if LongToken(trace[ends[0]]) then trace[ends[0]].out + REFUSAL
    else Answer(trace, ends[1..])
  }

  lemma {:induction false} AnswerWhole(trace: seq<Machine>, ends: seq<nat>)
    requires trace != [] && Within(ends, 0, |trace| - 1) && NoneLong(trace, ends)
    ensures Answer(trace, ends) == trace[|trace| - 1].out
  {
    if ends != [] {
      AnswerWhole(trace, ends[1..]);
    }
  }

  lemma {:induction false} AnswerFirst(trace: seq<Machine>, a: seq<nat>, b: seq<nat>)
    requires trace != [] && Within(a + b, 0, |trace| - 1) && Within(a, 0, |trace| - 1) && Within(b, 0, |trace| - 1)
    ensures Answer(trace, a + b) == if NoneLong(trace, a) then Answer(trace, b) else Answer(trace, a)
  {
    if a == [] {
      assert a + b == b;
    } else {
      assert (a + b)[1..] == a[1..] + b;
      if !LongToken(trace[a[0]]) {
        AnswerFirst(trace, a[1..], b);
        assert NoneLong(trace, a) <==> NoneLong(trace, a[1..]);
      }
    }
  }

  /** Nothing is too long once the request has ended. */
  lemma HaltedNoneLong(trace: seq<Machine>, input: seq<Byte>, at: nat, ends: seq<nat>)
    requires IsTrace(trace, input) && at <= |input| && trace[at].ending != Running && Within(ends, at, |input|)
    ensures NoneLong(trace, ends) && trace[|input|] == trace[at]
  {
    Halted(trace, input, at, |input| - at);
    forall i | 0 <= i < |ends| ensures !LongToken(trace[ends[i]]) {
      Halted(trace, input, at, ends[i] - at);
    }
  }

  /** The request was answered by the reads in b, and what comes after them changes nothing. */
  ghost predicate Answered(trace: seq<Machine>, b: seq<nat>, at: nat, tokens: seq<Tok>)
    requires trace != [] && Within(b, 0, |trace| - 1) && at < |trace|
  {
    tokens == Answer(trace, b) && (NoneLong(trace, b) ==> trace[at].ending != Running)
  }

  lemma AnsweredFor(trace: seq<Machine>, input: seq<Byte>, a: seq<nat>, b: seq<nat>, c: seq<nat>, at: nat,
      tokens: seq<Tok>)
    requires IsTrace(trace, input) && at <= |input| && Within(a, 0, |input|) && Within(b, 0, |input|)
             && Within(c, at, |input|) && Within(a + b + c, 0, |input|)
    requires NoneLong(trace, a) && Answered(trace, b, at, tokens)
    ensures Answered(trace, a + b + c, at, tokens)
  {
    assert a + b + c == a + (b + c);
    AnswerFirst(trace, a, b + c);
    AnswerFirst(trace, b, c);
    if NoneLong(trace, b) {
      HaltedNoneLong(trace, input, at, c);
      AnswerWhole(trace, b);
      AnswerWhole(trace, c);
    } else {
      var i :| 0 <= i < |b| && LongToken(trace[b[i]]);
      assert (a + b + c)[|a| + i] == b[i];
    }
  }

  // ----- when the split matters -----

  predicate Refuses(tokens: seq<Tok>) {
    tokens != [] && tokens[|tokens| - 1].kind == Error
  }

  lemma HeadRefuses(r: Machine, c: Byte, to: State)
    requires !Refuses(r.out) && r.kind != Error
    ensures Refuses(HeadStep(r, c, to).out) <==> HeadStep(r, c, to).ending == Failed
  {
  }

  lemma BodyRefuses(r: Machine, c: Byte, to: State)
    requires !Refuses(r.out) && r.kind != Error && InBody(to)
    ensures Refuses(BodyStep(r, c, to).out) <==> BodyStep(r, c, to).ending == Failed
  {
    var p := Enter(r.p, to);
    if p.contentLength - p.bodyConsumed <= 0 {
      var (kind, text) := if r.p.state != to then (StartKind(to), []) else (r.kind, r.text);
      var r' := Machine(BodyDone(p), NoToken, [], r.pos, r.out + Emitted(kind, text), Running);
      if r'.p.state == CD {
        HeadRefuses(r', c, Destination(r'.p, c));
      }
    }
  }

  lemma StepRefuses(r: Machine, c: Byte)
    requires r.ending == Running && Coherent(r) && !Refuses(r.out)
    ensures Refuses(Step(r, c).out) <==> Step(r, c).ending == Failed
  {
    var to := Destination(r.p, c);
    if InBody(to) {
      BodyRefuses(r, c, to);
    } else {
      HeadRefuses(r, c, to);
    }
  }

  lemma RefusesNext(r: Machine, c: Byte, r': Machine)
    requires r' == Step(r, c) && (r.ending == Running ==> Coherent(r)) && (Refuses(r.out) <==> r.ending == Failed)
    ensures Refuses(r'.out) <==> r'.ending == Failed
  {
    if r.ending == Running {
      StepRefuses(r, c);
    }
  }

  lemma {:induction false} MachineRefuses(trace: seq<Machine>, input: seq<Byte>, k: nat)
    requires IsTrace(trace, input) && FramedTrace(trace) && k <= |input|
    ensures Refuses(trace[k].out) <==> trace[k].ending == Failed
  {
    if k > 0 {
      MachineRefuses(trace, input, k - 1);
      TraceCoherent(trace, input, k - 1);
      assert Stepped(trace, input, k - 1);
      RefusesNext(trace[k - 1], input[k - 1], trace[k]);
    }
  }

  /** A request is answered with an error exactly when the input runs out inside a token of the head that is too long by
      then, or the machine itself finds one. */
  lemma RefusedIff(trace: seq<Machine>, input: seq<Byte>, ends: seq<nat>)
    requires IsTrace(trace, input) && FramedTrace(trace) && Within(ends, 0, |input|)
    ensures Refuses(Answer(trace, ends)) <==>
              (exists i :: 0 <= i < |ends| && LongToken(trace[ends[i]])) || trace[|input|].ending == Failed
  {
    if NoneLong(trace, ends) {
      AnswerWhole(trace, ends);
      MachineRefuses(trace, input, |input|);
    } else {
      var i :| 0 <= i < |ends| && LongToken(trace[ends[i]]);
      AnswerRefuses(trace, ends, i);
    }
  }

  lemma {:induction false} AnswerRefuses(trace: seq<Machine>, ends: seq<nat>, i: nat)
    requires trace != [] && Within(ends, 0, |trace| - 1) && i < |ends| && LongToken(trace[ends[i]])
    ensures Refuses(Answer(trace, ends))
    decreases i
  {
    if !LongToken(trace[ends[0]]) {
      AnswerRefuses(trace, ends[1..], i - 1);
    }
  }

  /** How the bytes are split never matters if and only if every token of the head that grows too long is the last thing
      before an error anyway. */
  lemma SplitNeverMattersIff(trace: seq<Machine>, input: seq<Byte>)
    requires IsTrace(trace, input)
    ensures (forall ends :: Within(ends, 0, |input|) ==> Answer(trace, ends) == trace[|input|].out) <==>
              forall k :: 0 <= k <= |input| && LongToken(trace[k]) ==> trace[k].out + REFUSAL == trace[|input|].out
  {
    if forall ends :: Within(ends, 0, |input|) ==> Answer(trace, ends) == trace[|input|].out {
      forall k | 0 <= k <= |input| && LongToken(trace[k]) ensures trace[k].out + REFUSAL == trace[|input|].out {
        assert Answer(trace, [k]) == trace[k].out + REFUSAL;
      }
    }
    if forall k :: 0 <= k <= |input| && LongToken(trace[k]) ==> trace[k].out + REFUSAL == trace[|input|].out {
      forall ends | Within(ends, 0, |input|) ensures Answer(trace, ends) == trace[|input|].out {
        AnswersAgree(trace, input, ends);
      }
    }
  }

  lemma {:induction false} AnswersAgree(trace: seq<Machine>, input: seq<Byte>, ends: seq<nat>)
    requires IsTrace(trace, input) && Within(ends, 0, |input|)
    requires forall k :: 0 <= k <= |input| && LongToken(trace[k]) ==> trace[k].out + REFUSAL == trace[|input|].out
    ensures Answer(trace, ends) == trace[|input|].out
  {
    if ends != [] && !LongToken(trace[ends[0]]) {
      AnswersAgree(trace, input, ends[1..]);
    }
  }

  /** Fragmentation independence: a request without such a token is answered with its tokens, however it is split. */
  lemma CleanAnswer(input: seq<Byte>, ends: seq<nat>)
    requires Clean(input) && Within(ends, 0, |input|)
    ensures Framed(input) && Answer(Trace(input), ends) == Tokens(input)
  {
    AnswerWhole(Trace(input), ends);
  }
}
