/** One request read from a socket that delivers it in any pieces. */
module HttpRequest {
  import opened HttpTables
  import opened HttpReference
  import opened HttpInvariants
  import opened HttpStream
  import opened HttpParser
  import opened HttpRefinement

  lemma EmptyToken(v: View, r: Machine)
    requires v.index <= |v.buf| && TokenHeld(v, r) && TokenCoherent(r) && r.p.state == CN
    ensures v.token.len == 0
  {
  }

  /** Which of the three turns of the loop the next byte makes, as one effect on the values. */
  lemma OneTurn(v: View, p: Fields, r: Machine, fed: seq<Byte>, trace: seq<Machine>, out: seq<Tok>, c: Byte, to: State,
      a: Acted, v': View) returns (r': Machine, phase: Phase)
    requires IsTrace(trace, fed) && FramedTrace(trace) && Related(v, p, r, fed) && Reached(r, trace) && out == r.out
             && !v.consumed && v.index < |v.buf| && c == v.buf[v.index]
    requires to == Destination(p, c) && (InBody(to) ==> Left(p) >= 0 && 0 <= p.bodyConsumed)
    requires a == if InBody(to) then BodyActed(p, v, to) else HeadActed(p, v, c, to)
    requires v' == if a.v.consumed then a.v else Advanced(a.v, 1)
    ensures a.emitted.index + a.emitted.len <= |v.buf| && v'.buf == v.buf && v.index <= v'.index
    ensures Standing(v', a.p, r', fed, out + Shown(a.emitted, v.buf), phase, Reached(r', trace), trace[|fed|])
    ensures phase != Refused && (phase == Closed <==> a.emitted.kind == Error) && a.emitted.kind != ReqEnd
    ensures a.emitted.kind == NoToken ==> v.index < v'.index && (phase == Owing ==> v'.index == |v.buf| && to == C2)
  {
    if !InBody(to) {
      r' := HeadStep(r, c, to);
      HeadTurn(v, p, r, fed, trace, out, c, to, a, r');
      phase := PhaseOf(r'.ending);
    } else if Left(p) >= 1 {
      var n := if Left(p) <= |v.buf| - v.index then Left(p) else |v.buf| - v.index;
      r' := Taken(r, to, v.buf[v.index..v.index + n]);
      BodyTurn(v, p, r, fed, trace, out, to, n, a, r');
      phase := PhaseOf(r'.ending);
    } else {
      EmptyBody(p, c);
      EmptyToken(v, r);
      LastChunkActs(v, p);
      LastChunkTurn(v, p, r, fed, trace, a);
      r', phase := AfterLastChunk(r), Live;
    }
  }

  /** What a turn leaves: a new standing, one token more or none, and less to read. */
  ghost predicate TurnDone(v: View, fed: seq<Byte>, trace: seq<Machine>, out: seq<Tok>, a: Acted, v': View, r': Machine,
      phase: Phase)
    requires |trace| == |fed| + 1
  {
    && a.emitted.index + a.emitted.len <= |v.buf| && v'.buf == v.buf && v.index <= v'.index
    && Standing(v', a.p, r', fed, out + Shown(a.emitted, v.buf), phase, Reached(r', trace), trace[|fed|])
    && (Ended(phase) <==> a.emitted.kind == Error) && a.emitted.kind != ReqEnd
    && (a.emitted.kind == NoToken ==>
          v.index < v'.index && (phase == Owing ==> v'.index == |v.buf| && a.p.state == C2 && v'.token.len == 0))
  }

  /** The same, with what is left when the last chunk ends the request. */
  lemma FullTurn(v: View, p: Fields, r: Machine, fed: seq<Byte>, trace: seq<Machine>, out: seq<Tok>, c: Byte, to: State,
      a: Acted, v': View) returns (r': Machine, phase: Phase)
    requires IsTrace(trace, fed) && FramedTrace(trace) && Related(v, p, r, fed) && Reached(r, trace) && out == r.out
             && !v.consumed && v.index < |v.buf| && c == v.buf[v.index]
    requires to == Destination(p, c) && (InBody(to) ==> Left(p) >= 0 && 0 <= p.bodyConsumed)
    requires a == if InBody(to) then BodyActed(p, v, to) else HeadActed(p, v, c, to)
    requires v' == if a.v.consumed then a.v else Advanced(a.v, 1)
    ensures TurnDone(v, fed, trace, out, a, v', r', phase)
  {
    r', phase := OneTurn(v, p, r, fed, trace, out, c, to, a, v');
    if a.emitted.kind == NoToken && phase == Owing {
      ChunksOverClears(v, p, r, fed, c, to, a);
    }
  }

  class Request {
    const parser: Parser
    const stream: Stream
    ghost var fed: seq<Byte>         // everything received
    ghost var trace: seq<Machine>    // the machine on it
    ghost var out: seq<Tok>          // every token returned
    ghost var machine: Machine
    ghost var phase: Phase
    var tokens: seq<Tok>             // request->tokens

    ghost predicate Valid()
      reads this, parser, stream, stream.buf
    {
      && stream.Roomy() && IsTrace(trace, fed) && FramedTrace(trace)
      && Standing(stream.Seen(), parser.Value(), machine, fed, out, phase, Reached(machine, trace), trace[|fed|])
    }

    lemma NeverTooMany()
      requires Valid()
      ensures |out| <= |trace[|fed|].out| + 1
    {
      if phase == Live {
        NothingExtra(machine, fed, trace);
      }
    }

    /** All input read, and the request ended with its last chunk. */
    ghost predicate Over()
      reads this, parser, stream
    {
      stream.index == stream.length && parser.state == C2 && stream.token.len == 0
    }

    constructor ()
      ensures Valid() && fresh(parser) && fresh(stream) && fresh(stream.buf) && phase == Live && fed == [] && Settled()
              && tokens == [] && stream.buf.Length == 0
    {
      parser := new Parser();
      stream := new Stream();
      fed, trace, out, machine, phase, tokens := [], [FRESH], [], FRESH, Live, [];
      new;
      assert FramedAt(trace, 0);
    }

    method NextState(c: Byte) returns (to: State)
      requires parser.state != BR
      ensures to == Destination(parser.Value(), c)
    {
      to := Transition(parser.state, TypeOf(c));
      if parser.meta == ZER && parser.state == HN && to == BD {
        to := CS;
      }
    }

    /** The transition and the consumption of its character. */
    method Act(c: Byte, to: State) returns (t: Token, ghost a: Acted)
      requires stream.Roomy() && !stream.consumed && stream.index < stream.length
      requires InBody(to) ==> 0 <= parser.bodyConsumed <= parser.contentLength && Enter(parser.Value(), to).meta != STR
      modifies parser, stream`index, stream`length, stream`anchor, stream`token, stream`consumed, stream.buf
      ensures stream.Roomy() && t == a.emitted && parser.Value() == a.p && stream.length == old(stream.length)
      ensures a ==
                if InBody(to) then BodyActed(old(parser.Value()), old(stream.Seen()), to)
                else HeadActed(old(parser.Value()), old(stream.Seen()), c, to)
      ensures stream.Seen() == if a.v.consumed then a.v else Advanced(a.v, 1)
    {
      ghost var v, p := stream.Seen(), parser.Value();
      t := parser.TransitionAction(stream, c, to);
      a := Acted(parser.Value(), stream.Seen(), t);
      ActedIndex(p, v, c, to, a);
      stream.Consume();
    }

    /** One turn of the loop of http_parse, from the character read to its consumption. */
    method Advance(c: Byte) returns (t: Token)
      requires Valid() && phase == Live && !stream.consumed && stream.index < stream.length
               && c == stream.buf[stream.index]
      modifies this`out, this`machine, this`phase, parser, stream`index, stream`length, stream`anchor, stream`token,
          stream`consumed, stream.buf
      ensures Valid() && t.index + t.len <= stream.length == old(stream.length) && old(stream.index) <= stream.index
      ensures out == old(out) + Shown(t, stream.buf[..stream.length])
      ensures (Ended(phase) <==> t.kind == Error) && t.kind != ReqEnd
      ensures t.kind == NoToken ==> old(stream.index) < stream.index && (phase == Owing ==> Over())
    {
      ghost var v, p := stream.Seen(), parser.Value();
      BodyBounds(v, p, machine, fed, c);
      var to := NextState(c);
      ghost var a;
      t, a := Act(c, to);
      ghost var r', phase' := FullTurn(v, p, machine, fed, trace, out, c, to, a, stream.Seen());
      Record(v, a, r', phase');
    }

    /** The history after a turn. */
    ghost method Record(v: View, a: Acted, r': Machine, phase': Phase)
      requires stream.Roomy() && IsTrace(trace, fed) && FramedTrace(trace) && parser.Value() == a.p
               && TurnDone(v, fed, trace, out, a, stream.Seen(), r', phase')
      modifies this`out, this`machine, this`phase
      ensures Valid() && stream.Seen().buf == v.buf && a.emitted.index + a.emitted.len <= |v.buf|
              && v.index <= stream.index
      ensures out == old(out) + Shown(a.emitted, v.buf)
      ensures (Ended(phase) <==> a.emitted.kind == Error) && a.emitted.kind != ReqEnd
      ensures a.emitted.kind == NoToken ==> v.index < stream.index && (phase == Owing ==> Over())
    {
      machine, phase, out := r', phase', out + Shown(a.emitted, v.buf);
    }

    /** http_parse: the next token, or none when all that has been received is used up. */
    method Parse() returns (t: Token)
      requires Valid() && !Ended(phase)
      modifies this`out, this`machine, this`phase, parser, stream`index, stream`length, stream`anchor, stream`token,
          stream`consumed, stream.buf
      ensures Valid() && t.index + t.len <= stream.length && stream.length <= old(stream.length)
      ensures out == old(out) + Shown(t, stream.buf[..stream.length])
      ensures Ended(phase) <==> t.kind in {ReqEnd, Error}
      ensures t.kind == NoToken ==>
                stream.index == stream.length && out == trace[|fed|].out && !LongToken(trace[|fed|])
    {
      t := EmitEnd();
      if t.kind == NoToken {
        t := ParseOn();
        if t.kind == NoToken {
          t := OutOfInput();
        }
      }
    }

    /** Every token that what has been received can yield has been returned, and none of the head is too long so far,
        or the request has ended. */
    ghost predicate Settled()
      reads this, parser, stream, stream.buf
    {
      && Valid() && tokens == out
      && (!Ended(phase) ==>
            stream.index == stream.length && out == trace[|fed|].out && !LongToken(trace[|fed|]))
    }

    /** http_token_dyn_push, unless there is no token. */
    method Keep(t: Token)
      requires Valid() && t.index + t.len <= stream.length && out == tokens + Shown(t, stream.buf[..stream.length])
      modifies this`tokens
      ensures Valid() && tokens == out
    {
      assert stream.buf[..stream.length][t.index..t.index + t.len] == stream.buf[t.index..t.index + t.len];
      if t.kind != NoToken {
        tokens := tokens + [Tok(t.kind, stream.buf[t.index..t.index + t.len])];
      }
    }

    /** One call of http_parse from the loop of hs_read_and_process_request, and the token kept. */
    method TakeToken() returns (more: bool, open: bool)
      requires Valid() && !Ended(phase) && tokens == out
      modifies this, parser, stream, stream.buf
      ensures fed == old(fed) && trace == old(trace) && stream.buf == old(stream.buf)
      ensures Valid() && tokens == out && |old(out)| <= |out| <= |trace[|fed|].out| + 1
              && stream.length <= old(stream.length)
      ensures if more then !Ended(phase) && |old(out)| < |out| else Settled()
      ensures open <==> !Ended(phase)
    {
      var t := Parse();
      Keep(t);
      open := t.kind != ReqEnd && t.kind != Error;
      more := t.kind != NoToken && open;
      NeverTooMany();
    }

    /** The loop of hs_read_and_process_request: tokens until there are no more. */
    method Drain() returns (open: bool)
      requires Valid() && !Ended(phase) && tokens == out
      modifies this, parser, stream, stream.buf
      ensures fed == old(fed) && trace == old(trace) && stream.buf == old(stream.buf)
      ensures Settled() && stream.length <= old(stream.length) && (open <==> !Ended(phase))
    {
      var more;
      more, open := TakeToken();
      ghost var bound := |trace[|fed|].out| + 1;
      while more
        invariant fed == old(fed) && trace == old(trace) && stream.buf == old(stream.buf)
        invariant Valid() && tokens == out && |out| <= bound && stream.length <= old(stream.length)
                  && (open <==> !Ended(phase))
        invariant if more then open else Settled()
        decreases bound - |out|, more
      {
        more, open := TakeToken();
      }
    }

    /** The loop of http_parse. */
    method ParseOn() returns (t: Token)
      requires Valid() && phase == Live
      modifies this`out, this`machine, this`phase, parser, stream`index, stream`length, stream`anchor, stream`token,
          stream`consumed, stream.buf
      ensures Valid() && t.index + t.len <= stream.length == old(stream.length)
      ensures out == old(out) + Shown(t, stream.buf[..stream.length])
      ensures (Ended(phase) <==> t.kind == Error) && t.kind != ReqEnd
      ensures t.kind == NoToken ==> stream.index == stream.length && (phase == Live || (phase == Owing && Over()))
    {
      var more := true;
      t := NONE;
      while more && t.kind == NoToken
        invariant Valid() && t.index + t.len <= stream.length == old(stream.length)
                  && out == old(out) + Shown(t, stream.buf[..stream.length])
        invariant (Ended(phase) <==> t.kind == Error) && t.kind != ReqEnd
        invariant t.kind == NoToken ==> phase == Live || (phase == Owing && Over())
        invariant !more ==> t.kind == NoToken && stream.index == stream.length
        decreases stream.length - stream.index, more, t.kind == NoToken
      {
        more, t := NextTurn();
      }
    }

    method NextTurn() returns (more: bool, t: Token)
      requires Valid() && (phase == Live || (phase == Owing && Over()))
      modifies this`out, this`machine, this`phase, parser, stream`index, stream`length, stream`anchor, stream`token,
          stream`consumed, stream.buf
      ensures Valid() && t.index + t.len <= stream.length == old(stream.length) && old(stream.index) <= stream.index
      ensures out == old(out) + Shown(t, stream.buf[..stream.length])
      ensures (Ended(phase) <==> t.kind == Error) && t.kind != ReqEnd
      ensures t.kind == NoToken ==> phase == Live || (phase == Owing && Over())
      ensures more ==> t.kind != NoToken || old(stream.index) < stream.index
      ensures !more ==> t.kind == NoToken && stream.index == stream.length
    {
      var c;
      t := NONE;
      more, c := stream.Next();
      if more {
        t := Advance(c);
      }
    }

    /** hs_meta_emit at the start of http_parse. */
    method EmitEnd() returns (t: Token)
      requires Valid() && !Ended(phase)
      modifies this`out, this`phase, parser
      ensures Valid() && t in {NONE, Token(0, 0, ReqEnd)} && out == old(out) + Shown(t, stream.buf[..stream.length])
      ensures t == NONE ==> phase == Live == old(phase)
      ensures t != NONE ==> phase == Closed
    {
      if phase == Live {
        BodyBounds(stream.Seen(), parser.Value(), machine, fed, 0);
      }
      var kind := parser.MetaEmit();
      t := Token(0, 0, kind);
      if kind == ReqEnd {
        phase := Closed;
        out := out + [Tok(ReqEnd, [])];
      }
    }

    /** A partly read chunk makes room for what is to come. */
    method MakeRoom()
      requires Valid() && stream.index == stream.length && (phase == Live || (phase == Owing && Over()))
      modifies stream`index, stream`length, stream`token, stream.buf
      ensures Valid() && stream.index == stream.length <= old(stream.length) && (phase == Owing ==> Over())
    {
      if parser.state == CB {
        ShiftKeeps(stream.Seen(), parser.Value(), machine, fed);
        stream.Shift();
      }
    }

    /** What http_parse does when the input runs out. */
    method OutOfInput() returns (t: Token)
      requires Valid() && stream.index == stream.length && (phase == Live || (phase == Owing && Over()))
      modifies this`out, this`phase, parser, stream`index, stream`length, stream`token, stream.buf
      ensures Valid() && t.index == t.len == 0 && stream.length <= old(stream.length)
      ensures out == old(out) + Shown(t, stream.buf[..stream.length])
      ensures t.kind in {NoToken, ReqEnd, Error} && (t.kind == NoToken <==> !Ended(phase))
      ensures t.kind == NoToken ==>
                stream.index == stream.length && out == trace[|fed|].out && !LongToken(trace[|fed|])
    {
      MakeRoom();
      if phase == Live {
        AllRead(stream.Seen(), parser.Value(), machine, fed, trace);
      }
      t := EmitEnd();
      if stream.token.kind != ChunkBody && stream.token.kind != Body && stream.token.len > MAX_TOKEN_LENGTH {
        t := t.(kind := Error);
        Refuse();
      }
    }

    /** The history after an error for a token that is too long. */
    ghost method Refuse()
      requires Valid() && phase == Live && LongToken(trace[|fed|]) && out == trace[|fed|].out
      modifies this`out, this`phase
      ensures Valid() && phase == Refused && out == old(out) + [Tok(Error, [])]
    {
      out, phase := out + [Tok(Error, [])], Refused;
    }

    /** Reading from the socket: any number of further bytes arrives, as many as the buffer has room for. */
    method Receive(data: seq<Byte>, closed: bool) returns (taken: nat, dead: bool)
      requires Valid() && phase != Refused && FramedTrace(Trace(fed + data))
      modifies this`fed, this`trace, stream`buf, stream`length, stream.buf
      ensures Valid() && taken <= |data| && fed == old(fed) + data[..taken]
      ensures out == old(out) && phase == old(phase) && (stream.buf == old(stream.buf) || fresh(stream.buf))
      ensures stream.length == old(stream.length) + taken && stream.index == old(stream.index)
      ensures dead ==> (taken == 0 && stream.length == MAX_REQUEST_BUF_SIZE) || (closed && taken == |data|)
      ensures old(stream.index == stream.length) && data != [] && !dead ==> taken > 0
      ensures old(stream.index == stream.length) && taken < |data| ==> MAX_REQUEST_BUF_SIZE <= 2 * stream.length
      ensures old(stream.index == stream.length) && closed && !dead ==> stream.buf.Length == MAX_REQUEST_BUF_SIZE
      ensures stream.buf.Length == MAX_REQUEST_BUF_SIZE ==>
                old(stream.buf.Length) == MAX_REQUEST_BUF_SIZE || MAX_REQUEST_BUF_SIZE <= 2 * stream.length
    {
      ghost var v := stream.Seen();
      taken, dead := stream.ReadSocket(data, closed);
      ghost var longer := TraceGrows(fed, data[..taken], trace);
      FramedPrefix(fed + data, fed + data[..taken], longer);
      StandingGrows(v, parser.Value(), machine, fed, trace, out, phase, data[..taken], longer);
      fed, trace := fed + data[..taken], longer;
    }

    lemma EndOfTokens()
      requires Settled()
      ensures IsTrace(trace, fed)
      ensures if LongToken(trace[|fed|]) then phase == Refused && tokens == trace[|fed|].out + [Tok(Error, [])]
              else tokens == trace[|fed|].out && (Ended(phase) ==> trace[|fed|].ending != Running)
    {
    }

    lemma HoldsNoMoreThanWasFed()
      requires Settled() && !Ended(phase)
      ensures phase == Live && stream.length <= |fed|
    {
    }

    /** hs_read_and_process_request: one readable event, with data waiting in the socket. */
    method OnReadable(data: seq<Byte>, ghost whole: seq<Byte>) returns (taken: nat, open: bool, dead: bool)
      requires Settled() && !Ended(phase) && Framed(whole) && fed + data <= whole && data != []
      modifies this, parser, stream, stream.buf
      ensures Valid() && (stream.buf == old(stream.buf) || fresh(stream.buf))
      ensures taken <= |data| && fed == old(fed) + data[..taken] && (open <==> !Ended(phase))
      ensures if dead then |whole| > MAX_REQUEST_BUF_SIZE else taken > 0 && Settled()
      ensures taken < |data| ==> MAX_REQUEST_BUF_SIZE <= 2 * |whole|
      ensures stream.buf.Length == MAX_REQUEST_BUF_SIZE ==>
                old(stream.buf.Length) == MAX_REQUEST_BUF_SIZE || MAX_REQUEST_BUF_SIZE <= 2 * |whole|
    {
      FramedSoFar(whole, fed + data);
      HoldsNoMoreThanWasFed();
      open := true;
      taken, dead := Receive(data, false);
      if !dead {
        open := Drain();
      }
    }
  }

  lemma FramedPrefix(whole: seq<Byte>, part: seq<Byte>, trace: seq<Machine>)
    requires FramedTrace(Trace(whole)) && part <= whole && IsTrace(trace, part)
    ensures FramedTrace(trace)
  {
    TraceIsTrace(whole);
    forall k | 0 <= k < |trace| ensures FramedAt(trace, k) {
      SameSoFar(Trace(whole), whole, trace, part, k);
      assert FramedAt(Trace(whole), k);
    }
  }

  lemma FramedSoFar(whole: seq<Byte>, part: seq<Byte>)
    requires Framed(whole) && part <= whole
    ensures Framed(part)
  {
    TraceIsTrace(part);
    FramedPrefix(whole, part, Trace(part));
  }

  lemma BodyBounds(v: View, p: Fields, r: Machine, fed: seq<Byte>, c: Byte)
    requires Related(v, p, r, fed)
    ensures p.state != BR && p.meta != END && p.meta != SEN
            && (InBody(Destination(p, c)) ==>
                  0 <= p.bodyConsumed <= p.contentLength && Enter(p, Destination(p, c)).meta != STR)
  {
    if InBody(Destination(p, c)) {
      IntoBody(p, c);
    }
  }

  lemma ActedIndex(p: Fields, v: View, c: Byte, to: State, a: Acted)
    requires v.index < |v.buf| && !v.consumed && (InBody(to) ==> 0 <= p.bodyConsumed <= p.contentLength)
    requires (InBody(to) ==> Enter(p, to).meta != STR) && a == TransitionActed(p, v, c, to)
    ensures a == if InBody(to) then BodyActed(p, v, to) else HeadActed(p, v, c, to)
    ensures |a.v.buf| == |v.buf| && (!a.v.consumed ==> a.v.index == v.index)
  {
  }
}
