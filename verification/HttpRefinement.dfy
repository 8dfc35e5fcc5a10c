/** The parser on its buffer and the byte-at-a-time machine, one transition at a time. */
module HttpRefinement {
  import opened HttpTables
  import opened HttpReference
  import opened HttpInvariants
  import opened HttpStream
  import opened HttpParser

  predicate AfterHead(s: State) {
    s in {BD, CS, CB, CE, CR, CN, CD, C1, C2}
  }

  /** Up to the end of the head nothing has moved; after it, what lies below the anchor is still as received. */
  predicate Placed(v: View, s: State, pos: nat, fed: seq<Byte>)
    requires v.index <= |v.buf|
  {
    if AfterHead(s) then
      && v.anchor <= v.index && v.anchor <= |fed| && v.buf[..v.anchor] == fed[..v.anchor]
      && (InBody(s) ==> v.anchor <= v.token.index)
    else v.buf == fed && v.index == pos
  }

  predicate TokenHeld(v: View, r: Machine)
    requires v.index <= |v.buf|
  {
    && v.token.kind == r.kind && v.token.len == |r.text|
    && (r.kind != NoToken ==> v.token.index + v.token.len == v.index && v.buf[v.token.index..v.index] == r.text)
  }

  /** The parser has read fed up to the machine's position and stands where the machine does. */
  predicate Related(v: View, p: Fields, r: Machine, fed: seq<Byte>) {
    && r.ending == Running && Coherent(r) && r.p.contentLength >= 0 && p == r.p
    && v.index <= |v.buf| && v.index <= r.pos <= |fed| && v.buf[v.index..] == fed[r.pos..]
    && TokenHeld(v, r) && Placed(v, p.state, r.pos, fed)
  }

  /** The bytes a returned token stands for. */
  function Shown(t: Token, buf: seq<Byte>): seq<Tok>
    requires t.index + t.len <= |buf|
  {
    if t.kind == NoToken then [] else [Tok(t.kind, buf[t.index..t.index + t.len])]
  }

  lemma OneByte(buf: seq<Byte>, from: nat, index: nat)
    requires from <= index < |buf|
    ensures buf[from..index + 1] == buf[from..index] + [buf[index]]
  {
  }

  lemma RestMoves(v: View, fed: seq<Byte>, pos: nat, n: nat)
    requires v.index + n <= |v.buf| && pos <= |fed| && v.buf[v.index..] == fed[pos..]
    ensures pos + n <= |fed| && v.buf[v.index + n..] == fed[pos + n..]
            && v.buf[v.index..v.index + n] == fed[pos..pos + n]
  {
    assert v.buf[v.index..][n..] == v.buf[v.index + n..];
    assert fed[pos..][n..] == fed[pos + n..];
    assert v.buf[v.index..][..n] == v.buf[v.index..v.index + n];
    assert fed[pos..][..n] == fed[pos..pos + n];
  }

  // ----- outside the bodies -----

  /** The fields after a transition do not depend on where the stream stands, once the head is over. */
  lemma SameFields(v: View, p: Fields, r: Machine, fed: seq<Byte>, c: Byte, to: State)
    requires Related(v, p, r, fed) && to == Destination(p, c) && !InBody(to)
    ensures Arrive(Enter(p, to), c, v.index) == Arrive(Enter(p, to), c, r.pos)
    ensures Mark(Enter(p, to), p.state, c, v.index) == Mark(Enter(p, to), p.state, c, r.pos)
  {
    if to == HN {
      assert p.state == ER;
    }
  }

  /** What the transition does to the stream, from the two states alone. */
  function HeadView(v: View, from: State, to: State): View {
    var v0 := if from == HN then v.(anchor := v.index) else v;
    if EndsToken(from, to) then v0.(token := NONE)
    else if from != to && StartKind(to) != NoToken then v0.(token := Token(v.index, v.token.len, StartKind(to)))
    else v0
  }

  function HeadToken(v: View, from: State, to: State, mark: Kind): Token {
    if mark != NoToken then Token(0, 0, mark) else if EndsToken(from, to) then v.token else NONE
  }

  lemma ActedParts(p: Fields, v: View, c: Byte, to: State)
    requires EndsToken(p.state, to) ==> StartKind(to) == NoToken && p.state != to
    ensures HeadActed(p, v, c, to) ==
              Acted(Arrive(Enter(p, to), c, v.index), HeadView(v, p.state, to),
                    HeadToken(v, p.state, to, Mark(Enter(p, to), p.state, c, v.index)))
  {
    assert Enter(p, to).state == to;
  }

  /** How states begin and end tokens; a consequence of the tables. */
  predicate Turn(from: State, to: State) {
    && (EndsToken(from, to) ==> StartKind(to) == NoToken && from != to && StartKind(from) != NoToken)
    && (StartKind(from) != NoToken && from != to ==> EndsToken(from, to))
    && (AfterHead(from) ==> AfterHead(to)) && (!AfterHead(from) && AfterHead(to) ==> from == HN)
    && (AfterHead(to) ==> StartKind(to) == NoToken)
  }

  lemma Turns(p: Fields, c: Byte, to: State)
    requires ParserCoherent(p) && to == Destination(p, c) && to != BR && !InBody(to)
    ensures Turn(p.state, to)
  {
  }

  /** The machine's token after the transition and the byte. */
  lemma HeadTokenHeld(v: View, r: Machine, to: State, c: Byte)
    requires v.index < |v.buf| && c == v.buf[v.index] && TokenHeld(v, r) && TokenCoherent(r) && Turn(r.p.state, to)
    ensures TokenHeld(Advanced(HeadView(v, r.p.state, to), 1), HeadStep(r, c, to))
  {
    if StartKind(to) != NoToken && r.p.state != to {
      OneByte(v.buf, v.index, v.index);
    } else if r.kind != NoToken {
      OneByte(v.buf, v.token.index, v.index);
    }
  }

  lemma HeadEmits(v: View, r: Machine, to: State, c: Byte, mark: Kind)
    requires v.index < |v.buf| && TokenHeld(v, r) && TokenCoherent(r) && (mark == NoToken ==> Turn(r.p.state, to))
    requires mark == Mark(Enter(r.p, to), r.p.state, c, r.pos)
    ensures var t := HeadToken(v, r.p.state, to, mark);
            t.index + t.len <= |v.buf|
            && HeadStep(r, c, to).out == r.out + Shown(t, v.buf) + Closing(HeadStep(r, c, to).ending)
  {
  }

  lemma HeadPlaced(v: View, from: State, to: State, pos: nat, fed: seq<Byte>)
    requires v.index < |v.buf| && v.index <= pos < |fed| && Placed(v, from, pos, fed) && Turn(from, to) && !InBody(to)
    ensures Placed(Advanced(HeadView(v, from, to), 1), to, pos + 1, fed)
  {
  }

  lemma HeadStepParts(r: Machine, c: Byte, to: State)
    ensures HeadStep(r, c, to).p == Arrive(Enter(r.p, to), c, r.pos) && HeadStep(r, c, to).pos == r.pos + 1
  {
  }

  lemma HeadRelated(v: View, r: Machine, r': Machine, fed: seq<Byte>, to: State, c: Byte)
    requires v.index < |v.buf| && v.index <= r.pos <= |fed| && v.buf[v.index..] == fed[r.pos..]
             && Placed(v, r.p.state, r.pos, fed) && Turn(r.p.state, to) && !InBody(to)
    requires r'.ending == Running && Coherent(r') && r'.p.contentLength >= 0 && r'.p.state == to && r'.pos == r.pos + 1
    requires TokenHeld(Advanced(HeadView(v, r.p.state, to), 1), r')
    ensures Related(Advanced(HeadView(v, r.p.state, to), 1), r'.p, r', fed)
  {
    RestMoves(v, fed, r.pos, 1);
    HeadPlaced(v, r.p.state, to, r.pos, fed);
  }

  lemma HeadActs(v: View, p: Fields, r: Machine, fed: seq<Byte>, c: Byte, to: State)
    requires Related(v, p, r, fed) && v.index < |v.buf| && c == v.buf[v.index] && to == Destination(p, c) && !InBody(to)
             && to != BR
    ensures Turn(p.state, to)
    ensures HeadActed(p, v, c, to) ==
              Acted(HeadStep(r, c, to).p, HeadView(v, p.state, to),
                    HeadToken(v, p.state, to, Mark(Enter(p, to), p.state, c, r.pos)))
  {
    Turns(p, c, to);
    ActedParts(p, v, c, to);
    SameFields(v, p, r, fed, c, to);
    HeadStepParts(r, c, to);
  }

  lemma HeadFails(v: View, p: Fields, c: Byte, r: Machine)
    requires p == r.p
    ensures HeadActed(p, v, c, BR).emitted == Token(0, 0, Error) && HeadActed(p, v, c, BR).v.buf == v.buf
            && HeadActed(p, v, c, BR).v.index == v.index
    ensures HeadActed(p, v, c, BR).v.consumed == v.consumed && HeadActed(p, v, c, BR).p == HeadStep(r, c, BR).p
    ensures HeadStep(r, c, BR).ending == Failed && HeadStep(r, c, BR).out == r.out + [Tok(Error, [])]
  {
  }

  lemma HeadEnds(r: Machine, c: Byte, to: State)
    requires r.ending == Running && Coherent(r) && to == Destination(r.p, c) && !InBody(to) && to != BR
    ensures var mark := Mark(Enter(r.p, to), r.p.state, c, r.pos);
            mark == Error <==> HeadStep(r, c, to).ending == Failed
    ensures var mark := Mark(Enter(r.p, to), r.p.state, c, r.pos);
            HeadStep(r, c, to).ending == Finished ==> HeadStep(r, c, to).p.state == C2 || mark == Body
  {
    HeadParserMeta(r.p, c, to, r.pos);
  }

  /** Outside the bodies only the end of the head and the end of a chunk can end the request. */
  lemma HeadParserMeta(p: Fields, c: Byte, to: State, index: nat)
    requires ParserCoherent(p) && to == Destination(p, c) && !InBody(to) && to != BR
    ensures var q := Arrive(Enter(p, to), c, index); q.state == to && (q.meta == END ==> to == C2 || to == HN)
  {
    if p.state == CS {
      assert Enter(p, to).meta in {ZER, CSZ, LST, CBD};
    } else if to == HS {
      assert Enter(p, to).meta in {WFK, MCK, CLV, SML, CHK};
    } else {
      assert Enter(p, to).meta == p.meta;
    }
  }

  /** A transition outside the bodies. */
  lemma HeadTransition(v: View, p: Fields, r: Machine, fed: seq<Byte>, c: Byte, to: State, a: Acted)
    requires Related(v, p, r, fed) && !v.consumed && v.index < |v.buf| && c == v.buf[v.index] && to == Destination(p, c)
             && !InBody(to)
    requires a == HeadActed(p, v, c, to)
    ensures a.emitted.index + a.emitted.len <= |v.buf|
            && HeadStep(r, c, to).out == r.out + Shown(a.emitted, v.buf) + Closing(HeadStep(r, c, to).ending)
    ensures a.p == HeadStep(r, c, to).p && a.v.buf == v.buf && a.v.index == v.index && !a.v.consumed
    ensures a.emitted.kind == Error <==> HeadStep(r, c, to).ending == Failed
    ensures a.emitted.kind != ReqEnd
    ensures HeadStep(r, c, to).ending == Finished && a.emitted.kind == NoToken ==> HeadStep(r, c, to).p.state == C2
    ensures HeadStep(r, c, to).ending == Running && HeadStep(r, c, to).p.contentLength >= 0 ==>
              Related(Advanced(a.v, 1), a.p, HeadStep(r, c, to), fed)
  {
    if to == BR {
      HeadFails(v, p, c, r);
      assert a.emitted == Token(0, 0, Error);
      assert Shown(a.emitted, v.buf) == [Tok(Error, [])];
    } else {
      HeadActs(v, p, r, fed, c, to);
      var r' := HeadStep(r, c, to);
      HeadEmits(v, r, to, c, Mark(Enter(p, to), p.state, c, r.pos));
      HeadEnds(r, c, to);
      if r'.ending == Running && r'.p.contentLength >= 0 {
        HeadCoherent(r, c, to);
        ArriveKeepsState(p, c, to, r.pos);
        HeadTokenHeld(v, r, to, c);
        HeadStepParts(r, c, to);
        HeadRelated(v, r, r', fed, to, c);
      }
    }
  }

  // ----- inside the bodies -----

  function Left(p: Fields): int {
    p.contentLength - p.bodyConsumed
  }

  /** The machine once it has moved into the body, with no byte of it taken. */
  function AtBody(r: Machine, to: State): Machine {
    if r.p.state == to then r else Machine(Enter(r.p, to), StartKind(to), [], r.pos, r.out, r.ending)
  }

  function Partly(r: Machine, bytes: seq<Byte>): Machine {
    Machine(r.p.(bodyConsumed := r.p.bodyConsumed + |bytes|), r.kind, r.text + bytes, r.pos + |bytes|, r.out, Running)
  }

  function Wholly(r: Machine, bytes: seq<Byte>): Machine {
    var done := BodyDone(r.p);
    var ending := EndingOf(NoToken, done.meta);
    Machine(done, NoToken, [], r.pos + |bytes|, r.out + Emitted(r.kind, r.text + bytes) + Closing(ending), ending)
  }

  function Taken(r: Machine, to: State, bytes: seq<Byte>): Machine {
    if |bytes| == Left(r.p) then Wholly(AtBody(r, to), bytes) else Partly(AtBody(r, to), bytes)
  }

  lemma FirstByte(r: Machine, to: State, c: Byte)
    requires r.ending == Running && Coherent(r) && to == Destination(r.p, c) && InBody(to) && Left(r.p) >= 1
    ensures Step(r, c) == if Left(r.p) == 1 then Wholly(AtBody(r, to), [c]) else Partly(AtBody(r, to), [c])
    ensures AtBody(r, to).p.state == to && Left(AtBody(r, to).p) == Left(r.p)
  {
    IntoBody(r.p, c);
  }

  lemma NextByte(r: Machine, c: Byte)
    requires r.ending == Running && InBody(r.p.state) && Left(r.p) >= 1
    ensures Step(r, c) == if Left(r.p) == 1 then Wholly(r, [c]) else Partly(r, [c])
  {
  }

  lemma Together(r: Machine, a: seq<Byte>, b: seq<Byte>)
    ensures Partly(Partly(r, a), b) == Partly(r, a + b) && Wholly(Partly(r, a), b) == Wholly(r, a + b)
  {
    assert r.text + a + b == r.text + (a + b);
  }

  /** One byte more of a body partly taken. */
  lemma OneByteMore(at: Machine, bytes: seq<Byte>, c: Byte)
    requires at.ending == Running && InBody(at.p.state) && |bytes| < Left(at.p)
    ensures Step(Partly(at, bytes), c)
              == if |bytes| + 1 == Left(at.p) then Wholly(at, bytes + [c]) else Partly(at, bytes + [c])
  {
    NextByte(Partly(at, bytes), c);
    Together(at, bytes, [c]);
  }

  lemma AtBodyRuns(r: Machine, to: State, c: Byte)
    requires r.ending == Running && Coherent(r) && to == Destination(r.p, c) && InBody(to) && Left(r.p) >= 1
    ensures AtBody(r, to).ending == Running && InBody(AtBody(r, to).p.state) && Left(AtBody(r, to).p) == Left(r.p)
  {
    FirstByte(r, to, c);
  }

  /** Taking the body a byte at a time is taking it at once. */
  lemma {:induction false} BodyBytes(trace: seq<Machine>, fed: seq<Byte>, k: nat, to: State, n: nat)
    requires IsTrace(trace, fed) && k + n <= |fed| && 1 <= n <= Left(trace[k].p)
    requires trace[k].ending == Running && Coherent(trace[k]) && to == Destination(trace[k].p, fed[k]) && InBody(to)
    ensures trace[k + n] == Taken(trace[k], to, fed[k..k + n])
  {
    if n == 1 {
      BodyFirst(trace, fed, k, to);
    } else {
      BodyBytes(trace, fed, k, to, n - 1);
      AtBodyRuns(trace[k], to, fed[k]);
      BodyNext(trace, fed, k, n, AtBody(trace[k], to));
    }
  }

  lemma BodyFirst(trace: seq<Machine>, fed: seq<Byte>, k: nat, to: State)
    requires IsTrace(trace, fed) && k < |fed| && 1 <= Left(trace[k].p)
    requires trace[k].ending == Running && Coherent(trace[k]) && to == Destination(trace[k].p, fed[k]) && InBody(to)
    ensures trace[k + 1] == Taken(trace[k], to, fed[k..k + 1])
  {
    assert Stepped(trace, fed, k);
    assert fed[k..k + 1] == [fed[k]];
    FirstByte(trace[k], to, fed[k]);
  }

  lemma BodyNext(trace: seq<Machine>, fed: seq<Byte>, k: nat, n: nat, at: Machine)
    requires IsTrace(trace, fed) && k + n <= |fed| && 1 < n <= Left(at.p) && at.ending == Running && InBody(at.p.state)
    requires trace[k + n - 1] == Partly(at, fed[k..k + n - 1])
    ensures trace[k + n] == if n == Left(at.p) then Wholly(at, fed[k..k + n]) else Partly(at, fed[k..k + n])
  {
    assert Stepped(trace, fed, k + n - 1);
    OneByteMore(at, fed[k..k + n - 1], fed[k + n - 1]);
    assert fed[k..k + n] == fed[k..k + n - 1] + [fed[k + n - 1]];
  }

  lemma BodyView(v: View, p: Fields, r: Machine, fed: seq<Byte>, to: State)
    requires Related(v, p, r, fed) && v.index < |v.buf| && to == Destination(p, v.buf[v.index]) && InBody(to)
    ensures var w := Begun(p, v, to);
            var at := AtBody(r, to); TokenHeld(w, at) && w.buf == v.buf && w.index == v.index && at.kind != NoToken
    ensures var w := Begun(p, v, to);
            w.anchor <= w.index && w.anchor <= |fed| && w.buf[..w.anchor] == fed[..w.anchor]
            && w.anchor <= w.token.index
    ensures EnterActed(p, v, to) == Acted(AtBody(r, to).p, Begun(p, v, to), NONE)
  {
    IntoBody(p, v.buf[v.index]);
  }

  lemma Longest(buf: seq<Byte>, from: nat, index: nat, n: nat)
    requires from <= index && index + n <= |buf|
    ensures buf[from..index + n] == buf[from..index] + buf[index..index + n]
  {
  }

  lemma TakenAll(w: View, at: Machine, bytes: seq<Byte>)
    requires w.index <= |w.buf| && TokenHeld(w, at) && at.kind != NoToken && 1 <= Left(at.p) <= |w.buf| - w.index
             && 0 <= at.p.bodyConsumed
    requires bytes == w.buf[w.index..w.index + Left(at.p)]
    ensures var a := BodyTaken(at.p, w);
            a.p == Wholly(at, bytes).p && a.v.token == NONE && a.emitted.index + a.emitted.len <= |w.buf|
    ensures var a := BodyTaken(at.p, w); Shown(a.emitted, w.buf) == Emitted(at.kind, at.text + bytes)
  {
    Longest(w.buf, w.token.index, w.index, Left(at.p));
  }

  lemma TakenSome(w: View, at: Machine, bytes: seq<Byte>)
    requires w.index <= |w.buf| && TokenHeld(w, at) && at.kind != NoToken && Left(at.p) > |w.buf| - w.index
             && 0 <= at.p.bodyConsumed
    requires bytes == w.buf[w.index..]
    ensures var a := BodyTaken(at.p, w);
            a.p == Partly(at, bytes).p && a.emitted == NONE && TokenHeld(a.v, Partly(at, bytes))
            && a.v.token.index == w.token.index
  {
    Longest(w.buf, w.token.index, w.index, |w.buf| - w.index);
    assert w.buf[w.index..w.index + (|w.buf| - w.index)] == bytes;
  }

  /** The stream and the machine with the body begun. */
  predicate BodyReady(w: View, at: Machine, fed: seq<Byte>) {
    && w.index < |w.buf| && TokenHeld(w, at) && InBody(at.p.state) && at.kind == StartKind(at.p.state)
    && 1 <= Left(at.p) && 0 <= at.p.bodyConsumed
    && w.anchor <= w.index && w.anchor <= |fed| && w.buf[..w.anchor] == fed[..w.anchor] && w.anchor <= w.token.index
    && at.p.meta == (if at.p.state == BD then BDY else CBD)
  }

  lemma BodyReadied(v: View, p: Fields, r: Machine, fed: seq<Byte>, to: State)
    requires Related(v, p, r, fed) && v.index < |v.buf| && to == Destination(p, v.buf[v.index]) && InBody(to)
             && Left(p) >= 1
    ensures var w := Begun(p, v, to); BodyReady(w, AtBody(r, to), fed) && w.buf == v.buf && w.index == v.index
    ensures var at := AtBody(r, to);
            EnterActed(p, v, to) == Acted(at.p, Begun(p, v, to), NONE) && Left(at.p) == Left(p) && at.out == r.out
            && at.pos == r.pos
  {
    BodyView(v, p, r, fed, to);
    FirstByte(r, to, v.buf[v.index]);
    IntoBody(p, v.buf[v.index]);
  }

  lemma BodyOutcome(w: View, at: Machine, fed: seq<Byte>, n: nat, r': Machine)
    requires BodyReady(w, at, fed) && n == (if Left(at.p) <= |w.buf| - w.index then Left(at.p) else |w.buf| - w.index)
    requires r' ==
               if n == Left(at.p) then Wholly(at, w.buf[w.index..w.index + n])
               else Partly(at, w.buf[w.index..w.index + n])
    ensures var a := BodyTaken(at.p, w);
            a.p == r'.p && a.emitted.index + a.emitted.len <= |w.buf|
            && r'.out == at.out + Shown(a.emitted, w.buf) + Closing(r'.ending)
    ensures var a := BodyTaken(at.p, w);
            a.v.consumed && a.v.buf == w.buf && a.v.index == w.index + n && r'.pos == at.pos + n
    ensures var a := BodyTaken(at.p, w);
            r'.ending == Running ==> TokenHeld(a.v, r') && Placed(a.v, a.p.state, r'.pos, fed)
  {
    var bytes := w.buf[w.index..w.index + n];
    if n == Left(at.p) {
      TakenAll(w, at, bytes);
    } else {
      TakenSome(w, at, bytes);
    }
  }

  /** What a transition into or within a body comes to once the body has begun. */
  lemma BodyBegins(v: View, p: Fields, r: Machine, fed: seq<Byte>, to: State, n: nat, a: Acted, r': Machine, w: View,
      at: Machine)
    requires Related(v, p, r, fed) && v.index < |v.buf| && to == Destination(p, v.buf[v.index]) && InBody(to)
             && Left(p) >= 1 && v.index + n <= |v.buf| && w == Begun(p, v, to) && at == AtBody(r, to)
    requires a == BodyActed(p, v, to) && r' == Taken(r, to, v.buf[v.index..v.index + n])
    ensures BodyReady(w, at, fed) && w.buf == v.buf && w.index == v.index && Left(at.p) == Left(p) && at.out == r.out
            && at.pos == r.pos && a == BodyTaken(at.p, w)
    ensures var bytes := w.buf[w.index..w.index + n];
            r' == if n == Left(at.p) then Wholly(at, bytes) else Partly(at, bytes)
  {
    BodyReadied(v, p, r, fed, to);
    TakenIs(p, v, to, Acted(at.p, w, NONE), a);
  }

  /** A transition into or within a body of which at least one byte is missing. */
  lemma BodyTransition(v: View, p: Fields, r: Machine, fed: seq<Byte>, to: State, n: nat, a: Acted, r': Machine)
    requires Related(v, p, r, fed) && v.index < |v.buf| && to == Destination(p, v.buf[v.index]) && InBody(to)
             && Left(p) >= 1
    requires n == (if Left(p) <= |v.buf| - v.index then Left(p) else |v.buf| - v.index)
    requires a == BodyActed(p, v, to) && r' == Taken(r, to, v.buf[v.index..v.index + n])
    ensures a.p == r'.p && a.emitted.index + a.emitted.len <= |v.buf|
            && r'.out == r.out + Shown(a.emitted, v.buf) + Closing(r'.ending)
    ensures a.v.consumed && a.v.buf == v.buf && a.v.index == v.index + n && r'.pos == r.pos + n
    ensures r'.ending == Running ==> TokenHeld(a.v, r') && Placed(a.v, a.p.state, r'.pos, fed)
  {
    var w, at := Begun(p, v, to), AtBody(r, to);
    BodyBegins(v, p, r, fed, to, n, a, r', w, at);
    BodyOutcome(w, at, fed, n, r');
  }

  lemma TakenIs(p: Fields, v: View, to: State, entered: Acted, a: Acted)
    requires InBody(to) && v.index <= |v.buf| && 0 <= p.bodyConsumed <= p.contentLength
    requires EnterActed(p, v, to) == entered && a == BodyActed(p, v, to)
    ensures entered.v.index <= |entered.v.buf| && 0 <= entered.p.bodyConsumed <= entered.p.contentLength
            && a == BodyTaken(entered.p, entered.v)
  {
  }

  // ----- the last chunk, and making room -----

  /** The machine between the empty chunk's token and the byte that follows it. */
  function AfterLastChunk(r: Machine): Machine {
    Machine(BodyDone(Enter(r.p, CB)), NoToken, [], r.pos, r.out + [Tok(ChunkBody, [])], Running)
  }

  lemma LastChunkActs(v: View, p: Fields)
    requires v.index < |v.buf| && p.state == CN && p.bodyConsumed == 0 && p.contentLength == 0 && v.token.len == 0
    ensures BodyActed(p, v, CB)
              == Acted(BodyDone(Enter(p, CB)), v.(token := NONE, consumed := true), Token(v.index, 0, ChunkBody))
  {
  }

  lemma LastChunkRelated(v: View, p: Fields, r: Machine, fed: seq<Byte>)
    requires Related(v, p, r, fed) && p.state == CN && p.contentLength == 0
    ensures Related(v.(token := NONE, consumed := true), BodyDone(Enter(p, CB)), AfterLastChunk(r), fed)
  {
  }

  lemma EmptyChunkBody(r: Machine, c: Byte)
    requires r.ending == Running && r.p.state == CN && r.p.contentLength == 0 && r.p.bodyConsumed == 0
    ensures var q := AfterLastChunk(r);
            q.p.state == CD && q.ending == Running && BodyStep(r, c, CB) == HeadStep(q, c, Destination(q.p, c))
  {
    var done := BodyDone(Enter(r.p, CB));
    assert done.state == CD && Emitted(StartKind(CB), []) == [Tok(ChunkBody, [])];
    assert AfterLastChunk(r) == Machine(done, NoToken, [], r.pos, r.out + Emitted(StartKind(CB), []), Running);
  }

  lemma EmptyChunkStep(r: Machine, c: Byte)
    requires r.ending == Running && r.p.state == CN && r.p.contentLength == 0 && r.p.bodyConsumed == 0
    ensures Step(r, c) == BodyStep(r, c, CB)
  {
    assert Destination(r.p, c) == CB;
  }

  lemma AfterEmptyChunk(q: Machine, c: Byte)
    requires q.ending == Running && q.p.state == CD
    ensures Step(q, c) == HeadStep(q, c, Destination(q.p, c))
  {
    assert Destination(q.p, c) in {C1, BR};
  }

  /** A chunk of no bytes is emitted without taking a byte; the byte then goes on as if nothing had happened. */
  lemma LastChunkStep(r: Machine, c: Byte)
    requires r.ending == Running && Coherent(r) && r.p.state == CN && r.p.contentLength == 0
    ensures Step(AfterLastChunk(r), c) == Step(r, c)
  {
    EmptyChunkStep(r, c);
    EmptyChunkBody(r, c);
    AfterEmptyChunk(AfterLastChunk(r), c);
  }

  /** Only a chunk can be empty, and only when it begins. */
  lemma EmptyBody(p: Fields, c: Byte)
    requires ParserCoherent(p) && InBody(Destination(p, c)) && Left(p) == 0
    ensures p.state == CN && Destination(p, c) == CB && p.contentLength == 0 && p.bodyConsumed == 0
  {
    IntoBody(p, c);
  }

  /** Shifting a partly read chunk down to the anchor loses none of it. */
  lemma ShiftKeeps(v: View, p: Fields, r: Machine, fed: seq<Byte>)
    requires Related(v, p, r, fed) && p.state == CB && v.index == |v.buf|
    ensures v.anchor <= v.token.index && v.token.index + v.token.len <= |v.buf|
    ensures Related(Shifted(v), p, r, fed) && Shifted(v).index == |Shifted(v).buf|
  {
    var w := Shifted(v);
    assert r.kind == ChunkBody;
    assert fed[r.pos..] == [];
    assert w.buf[w.index..] == [];
    assert w.buf[w.token.index..w.index] == r.text;
    assert w.buf[..w.anchor] == v.buf[..v.anchor];
  }

  /** More input changes nothing that has been read. */
  lemma MoreInput(v: View, p: Fields, r: Machine, fed: seq<Byte>, data: seq<Byte>)
    requires Related(v, p, r, fed)
    ensures Related(v.(buf := v.buf + data), p, r, fed + data)
  {
    var w := v.(buf := v.buf + data);
    assert w.buf[w.index..] == v.buf[v.index..] + data;
    assert (fed + data)[r.pos..] == fed[r.pos..] + data;
    assert r.kind != NoToken ==> w.buf[w.token.index..w.index] == v.buf[v.token.index..v.index];
    if AfterHead(p.state) {
      assert w.buf[..w.anchor] == v.buf[..v.anchor];
      assert (fed + data)[..w.anchor] == fed[..v.anchor];
    }
  }

  // ----- where the reader stands -----

  /** In the request; owing its end; past its end or an error; or refused with a token that is too long. */
  datatype Phase = Live | Owing | Closed | Refused

  predicate Ended(phase: Phase) {
    phase == Closed || phase == Refused
  }

  /** The machine stands on the trace, give or take the token of an empty chunk. */
  ghost predicate Reached(r: Machine, trace: seq<Machine>) {
    && r.pos < |trace|
    && (r == trace[r.pos] || (r.pos < |trace| - 1 && Lagging(trace[r.pos], r)))
  }

  /** r is q with the token of the last chunk already out, and q's next byte still to come. */
  predicate Lagging(q: Machine, r: Machine) {
    q.ending == Running && Coherent(q) && q.p.state == CN && q.p.contentLength == 0 && r == AfterLastChunk(q)
  }

  /** What has been returned so far is what the machine emits up to the point reached; end is where the machine
      gets to on all of fed. */
  ghost predicate Standing(v: View, p: Fields, r: Machine, fed: seq<Byte>, out: seq<Tok>, phase: Phase, reached: bool,
      end: Machine) {
    && v.index <= |v.buf|
    && match phase
       case Live => Related(v, p, r, fed) && reached && out == r.out
       case Owing => p.meta == END && end.ending == Finished && out + [Tok(ReqEnd, [])] == end.out
       case Closed => end.ending in {Finished, Failed} && out == end.out
       case Refused => LongToken(end) && out == end.out + [Tok(Error, [])]
  }

  lemma NextByteReached(r: Machine, fed: seq<Byte>, trace: seq<Machine>)
    requires IsTrace(trace, fed) && Reached(r, trace) && r.pos < |fed|
    ensures Step(r, fed[r.pos]) == trace[r.pos + 1]
  {
    assert Stepped(trace, fed, r.pos);
    if r != trace[r.pos] {
      LastChunkStep(trace[r.pos], fed[r.pos]);
    }
  }

  /** The trace after k bytes, within the limits. */
  lemma StandingAfter(r': Machine, fed: seq<Byte>, trace: seq<Machine>, k: nat)
    requires IsTrace(trace, fed) && FramedTrace(trace) && k <= |fed| && r' == trace[k]
    ensures r'.ending != Streaming && r'.p.contentLength >= 0
    ensures r'.ending == Running ==> Reached(r', trace)
    ensures r'.ending != Running ==> trace[|fed|] == r'
    ensures ChunksOver(r') ==> k == |fed|
  {
    assert FramedAt(trace, k);
    TraceCoherent(trace, fed, k);
    if r'.ending != Running {
      Halted(trace, fed, k, |fed| - k);
    }
  }

  lemma StandingCoherent(r': Machine, fed: seq<Byte>, trace: seq<Machine>, k: nat)
    requires IsTrace(trace, fed) && FramedTrace(trace) && k <= |fed| && r' == trace[k]
    ensures r'.p.contentLength >= 0 && (r'.ending == Running ==> Reached(r', trace) && Coherent(r'))
            && (r'.ending != Running ==> trace[|fed|] == r')
  {
    StandingAfter(r', fed, trace, k);
    TraceCoherent(trace, fed, k);
  }

  function PhaseOf(ending: Ending): Phase {
    if ending == Running then Live else if ending == Finished then Owing else Closed
  }

  /** Reading on to where the machine stands. */
  lemma Lands(v: View, p: Fields, r': Machine, fed: seq<Byte>, out: seq<Tok>, reached: bool, end: Machine)
    requires v.index <= |v.buf| && out + Closing(r'.ending) == r'.out && (r'.ending == Finished ==> p.meta == END)
             && r'.ending != Streaming
    requires r'.ending == Running ==> reached && Related(v, p, r', fed)
    requires r'.ending != Running ==> end == r'
    ensures Standing(v, p, r', fed, out, PhaseOf(r'.ending), reached, end)
  {
    if r'.ending == Failed {
      assert out + Closing(r'.ending) == out;
    }
  }

  lemma HeadFinish(r: Machine, c: Byte, to: State)
    ensures HeadStep(r, c, to).ending == Finished ==> HeadStep(r, c, to).p.meta == END
  {
  }

  lemma HeadReached(v: View, r: Machine, fed: seq<Byte>, trace: seq<Machine>, c: Byte, to: State)
    requires IsTrace(trace, fed) && Reached(r, trace) && r.ending == Running && r.p.state != BR && v.index < |v.buf|
             && c == v.buf[v.index] && v.buf[v.index..] == fed[r.pos..]
    requires to == Destination(r.p, c) && !InBody(to)
    ensures r.pos < |fed| && HeadStep(r, c, to) == trace[r.pos + 1]
  {
    RestMoves(v, fed, r.pos, 1);
    assert fed[r.pos] == fed[r.pos..][0];
    NextByteReached(r, fed, trace);
  }

  predicate HeadMove(v: View, p: Fields, r: Machine, fed: seq<Byte>, out: seq<Tok>, c: Byte, to: State, a: Acted,
      r': Machine) {
    && Related(v, p, r, fed) && out == r.out && !v.consumed && v.index < |v.buf| && c == v.buf[v.index]
    && to == Destination(p, c) && !InBody(to) && a == HeadActed(p, v, c, to) && r' == HeadStep(r, c, to)
  }

  lemma HeadLands(v: View, p: Fields, r: Machine, fed: seq<Byte>, out: seq<Tok>, c: Byte, to: State, a: Acted,
      r': Machine, reached: bool, end: Machine)
    requires HeadMove(v, p, r, fed, out, c, to, a, r')
    requires r'.ending != Streaming && r'.p.contentLength >= 0 && (r'.ending == Running ==> reached)
             && (r'.ending != Running ==> end == r')
    ensures a.emitted.index + a.emitted.len <= |v.buf| && !a.v.consumed && a.v.buf == v.buf && a.v.index == v.index
    ensures Standing(Advanced(a.v, 1), a.p, r', fed, out + Shown(a.emitted, v.buf), PhaseOf(r'.ending), reached, end)
    ensures (r'.ending == Failed <==> a.emitted.kind == Error) && a.emitted.kind != ReqEnd
    ensures a.emitted.kind == NoToken && r'.ending == Finished ==> ChunksOver(r') && to == C2
  {
    ArriveKeepsState(r.p, c, to, r.pos);
    HeadTransition(v, p, r, fed, c, to, a);
    HeadFinish(r, c, to);
    Lands(Advanced(a.v, 1), a.p, r', fed, out + Shown(a.emitted, v.buf), reached, end);
  }

  lemma HeadStands(v: View, r: Machine, fed: seq<Byte>, trace: seq<Machine>, c: Byte, to: State, r': Machine)
    requires IsTrace(trace, fed) && FramedTrace(trace) && Reached(r, trace) && r.ending == Running && r.p.state != BR
             && v.index < |v.buf| && c == v.buf[v.index] && v.buf[v.index..] == fed[r.pos..]
    requires to == Destination(r.p, c) && !InBody(to) && r' == HeadStep(r, c, to)
    ensures r'.ending != Streaming && r'.p.contentLength >= 0 && (r'.ending == Running ==> Reached(r', trace))
            && (r'.ending != Running ==> trace[|fed|] == r')
    ensures ChunksOver(r') ==> v.index + 1 == |v.buf|
  {
    HeadReached(v, r, fed, trace, c, to);
    StandingAfter(r', fed, trace, r.pos + 1);
    assert |v.buf[v.index..]| == |fed[r.pos..]|;
  }

  lemma HeadMoves(v: View, p: Fields, r: Machine, fed: seq<Byte>, out: seq<Tok>, c: Byte, to: State, a: Acted,
      r': Machine)
    requires HeadMove(v, p, r, fed, out, c, to, a, r') && r.pos <= |fed|
    ensures r.ending == Running && r.p.state != BR && v.index < |v.buf| && c == v.buf[v.index]
            && v.buf[v.index..] == fed[r.pos..]
    ensures to == Destination(r.p, c) && !InBody(to) && r' == HeadStep(r, c, to)
  {
  }

  /** One turn of the loop of http_parse outside the bodies. */
  lemma HeadTurn(v: View, p: Fields, r: Machine, fed: seq<Byte>, trace: seq<Machine>, out: seq<Tok>, c: Byte, to: State,
      a: Acted, r': Machine)
    requires HeadMove(v, p, r, fed, out, c, to, a, r') && IsTrace(trace, fed) && FramedTrace(trace) && Reached(r, trace)
    ensures a.emitted.index + a.emitted.len <= |v.buf| && !a.v.consumed && a.v.buf == v.buf && a.v.index == v.index
    ensures Standing(Advanced(a.v, 1), a.p, r', fed, out + Shown(a.emitted, v.buf), PhaseOf(r'.ending),
                     Reached(r', trace), trace[|fed|])
            && r'.ending != Streaming
    ensures (r'.ending == Failed <==> a.emitted.kind == Error) && a.emitted.kind != ReqEnd
    ensures a.emitted.kind == NoToken && r'.ending == Finished ==> v.index + 1 == |v.buf| && to == C2
  {
    HeadMoves(v, p, r, fed, out, c, to, a, r');
    HeadStands(v, r, fed, trace, c, to, r');
    HeadLands(v, p, r, fed, out, c, to, a, r', Reached(r', trace), trace[|fed|]);
  }

  lemma BodyReached(v: View, r: Machine, fed: seq<Byte>, trace: seq<Machine>, to: State, n: nat)
    requires IsTrace(trace, fed) && Reached(r, trace) && r.ending == Running && Coherent(r) && v.index + n <= |v.buf|
             && v.buf[v.index..] == fed[r.pos..] && 1 <= n <= Left(r.p)
    requires to == Destination(r.p, v.buf[v.index]) && InBody(to)
    ensures r.pos + n <= |fed| && Taken(r, to, v.buf[v.index..v.index + n]) == trace[r.pos + n]
  {
    RestMoves(v, fed, r.pos, n);
    assert fed[r.pos] == fed[r.pos..][0];
    NotLagging(r, v.buf[v.index]);
    BodyBytes(trace, fed, r.pos, to, n);
  }

  lemma NotLagging(r: Machine, c: Byte)
    requires Coherent(r) && InBody(Destination(r.p, c))
    ensures forall q :: !Lagging(q, r)
  {
  }

  lemma BodyEnds(r: Machine, to: State, bytes: seq<Byte>)
    requires r.ending == Running && Coherent(r) && 1 <= |bytes| <= Left(r.p) && to == Destination(r.p, bytes[0])
             && InBody(to)
    ensures var r' := Taken(r, to, bytes);
            r'.ending in {Running, Finished} && (r'.ending == Finished ==> r'.p.meta == END && |bytes| == Left(r.p))
  {
    IntoBody(r.p, bytes[0]);
    FirstByte(r, to, bytes[0]);
  }

  lemma BodyEmits(p: Fields, v: View, to: State)
    requires 0 <= p.bodyConsumed <= p.contentLength && v.index <= |v.buf| && InBody(to)
    requires p.state == to ==> v.token.kind == StartKind(to)
    ensures BodyActed(p, v, to).emitted.kind == if Left(p) <= |v.buf| - v.index then StartKind(to) else NoToken
  {
    IntoKind(p, to);
  }

  lemma IntoKind(p: Fields, to: State)
    requires InBody(to)
    ensures StartKind(to) in {Body, ChunkBody} && Left(Enter(p, to)) == Left(p)
  {
  }

  /** What a turn inside a body returns, and where it leaves the stream. */
  lemma BodyActs(v: View, p: Fields, r: Machine, fed: seq<Byte>, to: State, n: nat, a: Acted, r': Machine)
    requires Related(v, p, r, fed) && v.index < |v.buf| && to == Destination(p, v.buf[v.index]) && InBody(to)
             && Left(p) >= 1
    requires n == (if Left(p) <= |v.buf| - v.index then Left(p) else |v.buf| - v.index)
    requires a == BodyActed(p, v, to) && r' == Taken(r, to, v.buf[v.index..v.index + n])
    ensures a.p == r'.p && a.emitted.index + a.emitted.len <= |v.buf|
            && r'.out == r.out + Shown(a.emitted, v.buf) + Closing(r'.ending)
    ensures a.v.consumed && a.v.buf == v.buf && a.v.index == v.index + n && r'.pos == r.pos + n
    ensures r'.ending == Running ==> TokenHeld(a.v, r') && Placed(a.v, a.p.state, r'.pos, fed)
    ensures r'.ending in {Running, Finished} && (r'.ending == Finished ==> r'.p.meta == END)
    ensures a.emitted.kind != Error && a.emitted.kind != ReqEnd && (a.emitted.kind == NoToken ==> r'.ending == Running)
  {
    BodyTransition(v, p, r, fed, to, n, a, r');
    BodyEnds(r, to, v.buf[v.index..v.index + n]);
    BodyEmits(p, v, to);
    IntoKind(p, to);
  }

  lemma BodyLands(v: View, p: Fields, r: Machine, fed: seq<Byte>, out: seq<Tok>, to: State, n: nat, a: Acted,
      r': Machine, reached: bool, end: Machine)
    requires Related(v, p, r, fed) && out == r.out && v.index < |v.buf| && to == Destination(p, v.buf[v.index])
             && InBody(to) && Left(p) >= 1
    requires n == (if Left(p) <= |v.buf| - v.index then Left(p) else |v.buf| - v.index)
    requires a == BodyActed(p, v, to) && r' == Taken(r, to, v.buf[v.index..v.index + n])
    requires r'.p.contentLength >= 0 && (r'.ending == Running ==> reached && Coherent(r'))
             && (r'.ending != Running ==> end == r')
    ensures a.emitted.index + a.emitted.len <= |v.buf| && a.v.consumed && a.v.buf == v.buf && a.v.index == v.index + n
    ensures Standing(a.v, a.p, r', fed, out + Shown(a.emitted, v.buf), PhaseOf(r'.ending), reached, end)
            && r'.ending in {Running, Finished}
    ensures a.emitted.kind != Error && a.emitted.kind != ReqEnd && (a.emitted.kind == NoToken ==> r'.ending == Running)
  {
    BodyActs(v, p, r, fed, to, n, a, r');
    RestMoves(v, fed, r.pos, n);
    Lands(a.v, a.p, r', fed, out + Shown(a.emitted, v.buf), reached, end);
  }

  lemma BodyStands(v: View, r: Machine, fed: seq<Byte>, trace: seq<Machine>, to: State, n: nat, r': Machine)
    requires IsTrace(trace, fed) && FramedTrace(trace) && Reached(r, trace) && r.ending == Running && Coherent(r)
             && v.index + n <= |v.buf| && v.buf[v.index..] == fed[r.pos..] && 1 <= n <= Left(r.p)
    requires to == Destination(r.p, v.buf[v.index]) && InBody(to) && r' == Taken(r, to, v.buf[v.index..v.index + n])
    ensures r'.p.contentLength >= 0 && (r'.ending == Running ==> Reached(r', trace) && Coherent(r'))
            && (r'.ending != Running ==> trace[|fed|] == r')
  {
    assert r.pos + n <= |fed| && r' == trace[r.pos + n] by {
      BodyReached(v, r, fed, trace, to, n);
    }
    StandingCoherent(r', fed, trace, r.pos + n);
  }

  /** One turn of the loop inside a body of which at least one byte is missing. */
  lemma BodyTurn(v: View, p: Fields, r: Machine, fed: seq<Byte>, trace: seq<Machine>, out: seq<Tok>, to: State, n: nat,
      a: Acted, r': Machine)
    requires IsTrace(trace, fed) && FramedTrace(trace) && Related(v, p, r, fed) && Reached(r, trace) && out == r.out
    requires v.index < |v.buf| && to == Destination(p, v.buf[v.index]) && InBody(to) && Left(p) >= 1
    requires n == (if Left(p) <= |v.buf| - v.index then Left(p) else |v.buf| - v.index)
    requires a == BodyActed(p, v, to) && r' == Taken(r, to, v.buf[v.index..v.index + n])
    ensures a.emitted.index + a.emitted.len <= |v.buf| && a.v.consumed && a.v.buf == v.buf && a.v.index == v.index + n
    ensures Standing(a.v, a.p, r', fed, out + Shown(a.emitted, v.buf), PhaseOf(r'.ending), Reached(r', trace),
                     trace[|fed|])
            && r'.ending in {Running, Finished}
    ensures a.emitted.kind != Error && a.emitted.kind != ReqEnd && (a.emitted.kind == NoToken ==> r'.ending == Running)
  {
    BodyStands(v, r, fed, trace, to, n, r');
    BodyLands(v, p, r, fed, out, to, n, a, r', Reached(r', trace), trace[|fed|]);
  }

  /** One turn of the loop on an empty chunk. */
  lemma LastChunkTurn(v: View, p: Fields, r: Machine, fed: seq<Byte>, trace: seq<Machine>, a: Acted)
    requires IsTrace(trace, fed) && Related(v, p, r, fed) && Reached(r, trace) && v.index < |v.buf| && p.state == CN
             && p.contentLength == 0 && p.bodyConsumed == 0
    requires a == Acted(BodyDone(Enter(p, CB)), v.(token := NONE, consumed := true), Token(v.index, 0, ChunkBody))
    ensures a.emitted.index + a.emitted.len <= |v.buf| && Related(a.v, a.p, AfterLastChunk(r), fed)
            && Reached(AfterLastChunk(r), trace) && AfterLastChunk(r).out == r.out + Shown(a.emitted, v.buf)
  {
    LastChunkRelated(v, p, r, fed);
    assert |v.buf[v.index..]| == |fed[r.pos..]|;
    LastChunkReached(r, trace);
    assert v.buf[v.index..v.index + 0] == [];
  }

  lemma LastChunkReached(r: Machine, trace: seq<Machine>)
    requires Reached(r, trace) && r.pos < |trace| - 1 && r.ending == Running && Coherent(r) && r.p.state == CN
             && r.p.contentLength == 0
    ensures Reached(AfterLastChunk(r), trace)
  {
  }

  /** The end of a chunked body leaves no token behind. */
  lemma ChunksOverClears(v: View, p: Fields, r: Machine, fed: seq<Byte>, c: Byte, to: State, a: Acted)
    requires Related(v, p, r, fed) && to == Destination(p, c) && to == C2 && a == HeadActed(p, v, c, to)
    ensures a.p.state == C2 && Advanced(a.v, 1).token.len == 0
  {
    assert p.state == C1;
  }

  // ----- more input, and the end of it -----

  lemma StandingGrows(v: View, p: Fields, r: Machine, fed: seq<Byte>, trace: seq<Machine>, out: seq<Tok>, phase: Phase,
      data: seq<Byte>, longer: seq<Machine>)
    requires IsTrace(trace, fed) && Standing(v, p, r, fed, out, phase, Reached(r, trace), trace[|fed|])
             && phase != Refused
    requires IsTrace(longer, fed + data) && longer[..|trace|] == trace
    ensures Standing(v.(buf := v.buf + data), p, r, fed + data, out, phase, Reached(r, longer), longer[|fed + data|])
  {
    assert forall k :: 0 <= k < |trace| ==> longer[k] == longer[..|trace|][k] == trace[k];
    if phase == Live {
      MoreInput(v, p, r, fed, data);
    } else {
      Halted(longer, fed + data, |fed|, |data|);
    }
  }

  /** All input read: the machine is at the end of the trace, with a token of the same length. */
  lemma AllRead(v: View, p: Fields, r: Machine, fed: seq<Byte>, trace: seq<Machine>)
    requires IsTrace(trace, fed) && FramedTrace(trace) && Related(v, p, r, fed) && Reached(r, trace)
             && v.index == |v.buf|
    ensures r == trace[|fed|]
    ensures LongToken(r) <==>
              v.token.kind != ChunkBody && v.token.kind != Body && v.token.len > MAX_TOKEN_LENGTH
  {
    assert |fed[r.pos..]| == 0;
  }

  /** What has been returned is never more than the whole input yields. */
  lemma NothingExtra(r: Machine, fed: seq<Byte>, trace: seq<Machine>)
    requires IsTrace(trace, fed) && Reached(r, trace)
    ensures r.out <= trace[|fed|].out
  {
    if r == trace[r.pos] {
      OutIsKept(trace, fed, r.pos, |fed| - r.pos);
    } else {
      NextByteReached(r, fed, trace);
      OutGrows(r, fed[r.pos]);
      OutIsKept(trace, fed, r.pos + 1, |fed| - r.pos - 1);
    }
  }
}
