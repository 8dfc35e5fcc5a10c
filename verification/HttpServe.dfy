/** A whole request served from its reads: how the network splits the bytes matters only where a token is too long. */
module HttpServe {
  import opened HttpTables
  import opened HttpReference
  import opened HttpInvariants
  import opened HttpStream
  import opened HttpParser
  import opened HttpRefinement
  import opened HttpRequest
  import opened HttpAnswers

  function Flatten(pieces: seq<seq<Byte>>): seq<Byte> {
    if pieces == [] then [] else pieces[0] + Flatten(pieces[1..])
  }

  /** Where the pieces end, when so many bytes came before them. */
  function Ends(pieces: seq<seq<Byte>>, before: nat): seq<nat> {
    if pieces == [] then [] else [before + |pieces[0]|] + Ends(pieces[1..], before + |pieces[0]|)
  }

  // ----- one read -----

  lemma SameState(w: seq<Machine>, whole: seq<Byte>, trace: seq<Machine>, fed: seq<Byte>)
    requires IsTrace(w, whole) && IsTrace(trace, fed) && fed <= whole
    ensures trace[|fed|] == w[|fed|]
  {
    SameSoFar(w, whole, trace, fed, |fed|);
  }

  /** The buffer is not at its largest, if the request is not large enough to make it so. */
  ghost predicate IsLean(request: Request, whole: seq<Byte>)
    reads request.stream
  {
    2 * |whole| < MAX_REQUEST_BUF_SIZE ==> request.stream.buf.Length < MAX_REQUEST_BUF_SIZE
  }

  /** One readable event, against the machine on the whole input. */
  method ReadEvent(request: Request, left: seq<Byte>, ghost w: seq<Machine>, ghost whole: seq<Byte>)
    returns (taken: nat, open: bool, dead: bool)
    requires IsTrace(w, whole) && Framed(whole) && request.Settled() && !Ended(request.phase)
             && request.fed + left <= whole && left != []
    modifies request, request.parser, request.stream, request.stream.buf
    ensures request.stream.buf == old(request.stream.buf) || fresh(request.stream.buf)
    ensures taken <= |left| && request.fed == old(request.fed) + left[..taken] && (open <==> !Ended(request.phase))
    ensures request.fed <= whole
    ensures if dead then |whole| > MAX_REQUEST_BUF_SIZE else taken > 0 && request.Settled()
    ensures taken < |left| ==> MAX_REQUEST_BUF_SIZE <= 2 * |whole|
    ensures old(IsLean(request, whole)) ==> IsLean(request, whole)
    ensures !dead && open ==> !LongToken(w[|request.fed|])
    ensures !dead && !open ==> Answered(w, [|request.fed|], |request.fed|, request.tokens)
  {
    taken, open, dead := request.OnReadable(left, whole);
    if !dead {
      EventOutcome(request, w, whole, open);
    }
  }

  lemma EventOutcome(request: Request, w: seq<Machine>, whole: seq<Byte>, open: bool)
    requires IsTrace(w, whole) && request.Settled() && request.fed <= whole && (open <==> !Ended(request.phase))
    ensures open ==> !LongToken(w[|request.fed|])
    ensures !open ==> Answered(w, [|request.fed|], |request.fed|, request.tokens)
  {
    SameState(w, whole, request.trace, request.fed);
    request.EndOfTokens();
    if !open && !LongToken(w[|request.fed|]) {
      HaltedNoneLong(w, whole, |request.fed|, []);
    }
  }

  // ----- one piece -----

  ghost predicate Ascending(ends: seq<nat>) {
    forall i, j :: 0 <= i < j < |ends| ==> ends[i] <= ends[j]
  }

  /** The places where the input ran out in a piece from one place to another; its end is the last of them. */
  ghost predicate Reads(ends: seq<nat>, from: nat, to: nat) {
    Within(ends, from, to) && Ascending(ends) && ends != [] && ends[|ends| - 1] == to
  }

  /** How far a piece has been read: the places so far, and what they came to. */
  ghost predicate Progress(w: seq<Machine>, ends: seq<nat>, from: nat, at: nat, open: bool, dead: bool,
      tokens: seq<Tok>) {
    && Within(ends, from, at) && at < |w| && Ascending(ends) && (ends != [] ==> ends[|ends| - 1] == at)
    && (ends == [] ==> open && !dead)
    && (!dead ==> if open then NoneLong(w, ends) && !LongToken(w[at]) else Answered(w, ends, at, tokens))
  }

  lemma ProgressOn(w: seq<Machine>, whole: seq<Byte>, ends: seq<nat>, from: nat, before: nat, at: nat, open: bool,
      dead: bool, tokens: seq<Tok>)
    requires IsTrace(w, whole) && from <= before <= at <= |whole| && Within(ends, from, before) && Ascending(ends)
             && NoneLong(w, ends)
    requires !dead ==> if open then !LongToken(w[at]) else Answered(w, [at], at, tokens)
    ensures Progress(w, ends + [at], from, at, open, dead, tokens)
  {
    if !dead && !open {
      assert ends + [at] + [] == ends + [at];
      AnsweredFor(w, whole, ends, [at], [], at, tokens);
    }
  }

  lemma ProgressEnds(w: seq<Machine>, whole: seq<Byte>, ends: seq<nat>, from: nat, at: nat, to: nat, open: bool,
      dead: bool, tokens: seq<Tok>) returns (all: seq<nat>)
    requires IsTrace(w, whole) && from <= at <= to <= |whole| && Progress(w, ends, from, at, open, dead, tokens)
             && (open && !dead ==> at == to)
    ensures Reads(all, from, to) && (!dead ==> if open then NoneLong(w, all) else Answered(w, all, to, tokens))
    ensures all == if ends != [] && at == to then ends else ends + [to]
  {
    all := if ends != [] && at == to then ends else ends + [to];
    if !dead && !open {
      AnsweredOn(w, whole, ends, at, to, tokens);
    }
  }

  /** Between the events that read a piece: end is everything up to the piece's end, and left is still to come. */
  ghost predicate Reading(request: Request, w: seq<Machine>, whole: seq<Byte>, end: seq<Byte>, from: nat,
      left: seq<Byte>, places: seq<nat>, open: bool, dead: bool)
    reads request, request.parser, request.stream, request.stream.buf
  {
    && (open <==> !Ended(request.phase)) && request.fed + left == end && end <= whole
    && from <= |request.fed| && IsTrace(w, whole) && IsLean(request, whole)
    && (if dead then |whole| > MAX_REQUEST_BUF_SIZE else request.Settled())
    && Progress(w, places, from, |request.fed|, open, dead, request.tokens)
    && (2 * |whole| < MAX_REQUEST_BUF_SIZE ==>
          if places == [] then |request.fed| == from else places == [|end|] && left == [])
  }

  /** One event more. */
  method ReadNext(request: Request, left: seq<Byte>, ghost w: seq<Machine>, ghost whole: seq<Byte>,
      ghost end: seq<Byte>, ghost from: nat, ghost places: seq<nat>)
    returns (left': seq<Byte>, open: bool, dead: bool, ghost places': seq<nat>)
    requires Reading(request, w, whole, end, from, left, places, true, false) && Framed(whole) && left != []
    modifies request, request.parser, request.stream, request.stream.buf
    ensures Reading(request, w, whole, end, from, left', places', open, dead) && places' != []
    ensures (request.stream.buf == old(request.stream.buf) || fresh(request.stream.buf))
            && |left'| <= |left| && (dead || |left'| < |left|)
  {
    var taken;
    ghost var before := request.fed;
    taken, open, dead := ReadEvent(request, left, w, whole);
    Parted(before, left, taken, request.fed);
    ProgressOn(w, whole, places, from, |before|, |request.fed|, open, dead, request.tokens);
    left', places' := left[taken..], places + [|request.fed|];
  }

  lemma BeginReading(request: Request, w: seq<Machine>, whole: seq<Byte>, piece: seq<Byte>)
    requires IsTrace(w, whole) && request.Settled() && !Ended(request.phase) && request.fed + piece <= whole
             && IsLean(request, whole)
    ensures Reading(request, w, whole, request.fed + piece, |request.fed|, piece, [], true, false)
  {
    SettledHere(request, w, whole);
  }

  /** A piece has been read up to end, or the request has ended before. */
  ghost predicate HasRead(request: Request, w: seq<Machine>, whole: seq<Byte>, end: seq<Byte>, from: nat,
      ends: seq<nat>, open: bool, dead: bool)
    reads request, request.parser, request.stream, request.stream.buf
  {
    && (open <==> !Ended(request.phase)) && from <= |end| < |w| && IsLean(request, whole)
    && (if dead then |whole| > MAX_REQUEST_BUF_SIZE else request.Settled() && (open ==> request.fed == end))
    && Reads(ends, from, |end|) && (2 * |whole| < MAX_REQUEST_BUF_SIZE ==> ends == [|end|])
    && (!dead ==> if open then NoneLong(w, ends) else Answered(w, ends, |end|, request.tokens))
  }

  lemma EndReading(request: Request, w: seq<Machine>, whole: seq<Byte>, end: seq<Byte>, from: nat, left: seq<Byte>,
      places: seq<nat>, open: bool, dead: bool) returns (ends: seq<nat>)
    requires Reading(request, w, whole, end, from, left, places, open, dead) && (left == [] || !open || dead)
    ensures HasRead(request, w, whole, end, from, ends, open, dead)
  {
    ends := ProgressEnds(w, whole, places, from, |request.fed|, |end|, open, dead, request.tokens);
  }

  /** One piece, in as many events as the buffer takes. */
  method Feed(request: Request, piece: seq<Byte>, ghost w: seq<Machine>, ghost whole: seq<Byte>)
    returns (open: bool, dead: bool, ghost ends: seq<nat>)
    requires IsTrace(w, whole) && Framed(whole) && IsLean(request, whole)
    requires request.Settled() && !Ended(request.phase) && request.fed + piece <= whole
    modifies request, request.parser, request.stream, request.stream.buf
    ensures HasRead(request, w, whole, old(request.fed) + piece, |old(request.fed)|, ends, open, dead)
    ensures request.stream.buf == old(request.stream.buf) || fresh(request.stream.buf)
  {
    open, dead := true, false;
    var left := piece;
    ghost var from, end := |request.fed|, request.fed + piece;
    ghost var places: seq<nat> := [];
    BeginReading(request, w, whole, piece);
    while left != [] && open && !dead
      invariant Reading(request, w, whole, end, from, left, places, open, dead)
      invariant request.stream.buf == old(request.stream.buf) || fresh(request.stream.buf)
      decreases |left|, !dead
    {
      left, open, dead, places := ReadNext(request, left, w, whole, end, from, places);
    }
    ends := EndReading(request, w, whole, end, from, left, places, open, dead);
  }

  lemma AnsweredOn(trace: seq<Machine>, input: seq<Byte>, ends: seq<nat>, at: nat, to: nat, tokens: seq<Tok>)
    requires IsTrace(trace, input) && at <= to <= |input| && Within(ends, 0, at) && Answered(trace, ends, at, tokens)
    ensures Answered(trace, ends, to, tokens) && Within(ends + [to], 0, |input|)
            && Answered(trace, ends + [to], to, tokens)
  {
    assert [] + ends + [to] == ends + [to];
    AnsweredFor(trace, input, [], ends, [to], at, tokens);
    if trace[at].ending != Running {
      Halted(trace, input, at, to - at);
    }
    assert NoneLong(trace, ends + [to]) ==> forall i :: 0 <= i < |ends| ==> (ends + [to])[i] == ends[i];
  }

  lemma SettledHere(request: Request, w: seq<Machine>, whole: seq<Byte>)
    requires IsTrace(w, whole) && request.Settled() && !Ended(request.phase) && request.fed <= whole
    ensures !LongToken(w[|request.fed|]) && request.tokens == w[|request.fed|].out
  {
    SameState(w, whole, request.trace, request.fed);
  }

  lemma Parted(before: seq<Byte>, left: seq<Byte>, taken: nat, after: seq<Byte>)
    requires taken <= |left| && after == before + left[..taken]
    ensures after + left[taken..] == before + left
  {
  }

  // ----- all pieces -----

  lemma {:induction false} FlattenSplit(pieces: seq<seq<Byte>>, k: nat)
    requires k < |pieces|
    ensures Flatten(pieces[..k + 1]) == Flatten(pieces[..k]) + pieces[k] && Flatten(pieces[..k + 1]) <= Flatten(pieces)
  {
    assert pieces[..k + 1][1..] == pieces[1..][..k];
    if k == 0 {
      assert Flatten(pieces[..1]) == pieces[0] + Flatten([]);
    } else {
      assert pieces[..k][1..] == pieces[1..][..k - 1];
      FlattenSplit(pieces[1..], k - 1);
    }
  }

  lemma {:induction false} EndsSplit(pieces: seq<seq<Byte>>, k: nat, before: nat)
    requires k <= |pieces|
    ensures Ends(pieces, before) == Ends(pieces[..k], before) + Ends(pieces[k..], before + |Flatten(pieces[..k])|)
  {
    if k > 0 {
      assert pieces[..k][1..] == pieces[1..][..k - 1] && pieces[1..][k - 1..] == pieces[k..];
      EndsSplit(pieces[1..], k - 1, before + |pieces[0]|);
    }
  }

  lemma {:induction false} EndsWithin(pieces: seq<seq<Byte>>, before: nat)
    ensures Within(Ends(pieces, before), before, before + |Flatten(pieces)|) && Ascending(Ends(pieces, before))
  {
    if pieces != [] {
      EndsWithin(pieces[1..], before + |pieces[0]|);
    }
  }

  /** fed is the first k pieces. */
  ghost predicate Fed(pieces: seq<seq<Byte>>, k: nat, fed: seq<Byte>) {
    k <= |pieces| && fed == Flatten(pieces[..k])
  }

  lemma FedNext(pieces: seq<seq<Byte>>, k: nat, fed: seq<Byte>)
    requires Fed(pieces, k, fed) && k < |pieces|
    ensures Fed(pieces, k + 1, fed + pieces[k]) && fed + pieces[k] <= Flatten(pieces)
  {
    FlattenSplit(pieces, k);
  }

  lemma FedAll(pieces: seq<seq<Byte>>, fed: seq<Byte>)
    ensures Fed(pieces, |pieces|, fed) ==> fed == Flatten(pieces)
  {
    assert pieces[..|pieces|] == pieces;
  }

  /** The places where the input runs out: the ends of the pieces, and others only where the buffer gets too full. */
  ghost predicate RunsOut(ends: seq<nat>, pieces: seq<seq<Byte>>, small: bool) {
    && Within(ends, 0, |Flatten(pieces)|) && Ascending(ends) && (forall e :: e in Ends(pieces, 0) ==> e in ends)
    && (small ==> ends == Ends(pieces, 0))
  }

  lemma RunsOn(ends: seq<nat>, more: seq<nat>, pieces: seq<seq<Byte>>, k: nat, small: bool)
    requires k < |pieces| && RunsOut(ends, pieces[..k], small)
    requires var at := |Flatten(pieces[..k])|;
      Reads(more, at, at + |pieces[k]|) && (small ==> more == [at + |pieces[k]|])
    ensures RunsOut(ends + more, pieces[..k + 1], small)
  {
    var at := |Flatten(pieces[..k])|;
    FlattenSplit(pieces, k);
    EndsSplit(pieces[..k + 1], k, 0);
    assert pieces[..k + 1][..k] == pieces[..k] && pieces[..k + 1][k..] == [pieces[k]];
    assert Ends([pieces[k]], at) == [at + |pieces[k]|];
    assert more[|more| - 1] in more;
  }

  lemma RunsRest(ends: seq<nat>, pieces: seq<seq<Byte>>, k: nat, small: bool) returns (rest: seq<nat>)
    requires k <= |pieces| && RunsOut(ends, pieces[..k], small)
    ensures Within(rest, |Flatten(pieces[..k])|, |Flatten(pieces)|) && RunsOut(ends + rest, pieces, small)
  {
    var at := |Flatten(pieces[..k])|;
    rest := Ends(pieces[k..], at);
    EndsSplit(pieces, k, 0);
    EndsWithin(pieces[k..], at);
    FlattenParts(pieces, k);
  }

  lemma {:induction false} FlattenParts(pieces: seq<seq<Byte>>, k: nat)
    requires k <= |pieces|
    ensures Flatten(pieces) == Flatten(pieces[..k]) + Flatten(pieces[k..])
  {
    if k > 0 {
      assert pieces[..k][1..] == pieces[1..][..k - 1] && pieces[1..][k - 1..] == pieces[k..];
      FlattenParts(pieces[1..], k - 1);
    }
  }

  /** How far the pieces have been read. */
  ghost predicate Through(w: seq<Machine>, pieces: seq<seq<Byte>>, k: nat, ends: seq<nat>, small: bool, open: bool,
      dead: bool, tokens: seq<Tok>) {
    && k <= |pieces| && RunsOut(ends, pieces[..k], small) && |Flatten(pieces[..k])| < |w|
    && (!dead ==> if open then NoneLong(w, ends) else Answered(w, ends, |Flatten(pieces[..k])|, tokens))
  }

  lemma ThroughOn(w: seq<Machine>, pieces: seq<seq<Byte>>, k: nat, ends: seq<nat>, more: seq<nat>, small: bool,
      open: bool, dead: bool, before: seq<Tok>, tokens: seq<Tok>)
    requires IsTrace(w, Flatten(pieces)) && Through(w, pieces, k, ends, small, true, false, before) && k < |pieces|
    requires var at := |Flatten(pieces[..k])|;
      && Reads(more, at, at + |pieces[k]|) && (small ==> more == [at + |pieces[k]|])
      && at + |pieces[k]| < |w|
      && (!dead ==> if open then NoneLong(w, more) else Answered(w, more, at + |pieces[k]|, tokens))
    ensures Through(w, pieces, k + 1, ends + more, small, open, dead, tokens)
  {
    FlattenSplit(pieces, k);
    RunsOn(ends, more, pieces, k, small);
    if !dead && !open {
      assert ends + more + [] == ends + more;
      AnsweredFor(w, Flatten(pieces), ends, more, [], |Flatten(pieces[..k])| + |pieces[k]|, tokens);
    }
  }

  lemma Completed(w: seq<Machine>, pieces: seq<seq<Byte>>, k: nat, ends: seq<nat>, small: bool, open: bool, dead: bool,
      tokens: seq<Tok>) returns (all: seq<nat>)
    requires IsTrace(w, Flatten(pieces)) && Through(w, pieces, k, ends, small, open, dead, tokens)
    requires open && !dead ==> k == |pieces| && tokens == w[|w| - 1].out
    ensures RunsOut(all, pieces, small) && (!dead ==> tokens == Answer(w, all))
  {
    var rest := RunsRest(ends, pieces, k, small);
    all := ends + rest;
    if !dead && open {
      assert pieces[..k] == pieces && pieces[k..] == [] && ends + [] == ends;
      AnswerWhole(w, ends);
      all := ends;
    } else if !dead {
      assert [] + ends + rest == all;
      AnsweredFor(w, Flatten(pieces), [], ends, rest, |Flatten(pieces[..k])|, tokens);
    }
  }

  /** Between the pieces. */
  ghost predicate Serving(request: Request, w: seq<Machine>, pieces: seq<seq<Byte>>, k: nat, ends: seq<nat>, open: bool,
      dead: bool)
    reads request, request.parser, request.stream, request.stream.buf
  {
    var whole := Flatten(pieces);
    && (open <==> !Ended(request.phase)) && IsTrace(w, whole) && IsLean(request, whole)
    && (if dead then |whole| > MAX_REQUEST_BUF_SIZE else request.Settled())
    && (open && !dead ==> Fed(pieces, k, request.fed))
    && Through(w, pieces, k, ends, IsSmall(pieces), open, dead, request.tokens)
  }

  /** The buffer never gets too full to take all that is there. */
  predicate IsSmall(pieces: seq<seq<Byte>>) {
    2 * |Flatten(pieces)| < MAX_REQUEST_BUF_SIZE
  }

  lemma BeforePiece(request: Request, w: seq<Machine>, pieces: seq<seq<Byte>>, k: nat, ends: seq<nat>)
    requires Serving(request, w, pieces, k, ends, true, false) && k < |pieces|
    ensures request.Settled() && !Ended(request.phase) && request.fed + pieces[k] <= Flatten(pieces)
            && IsTrace(w, Flatten(pieces)) && IsLean(request, Flatten(pieces))
    ensures request.fed == Flatten(pieces[..k])
            && Through(w, pieces, k, ends, IsSmall(pieces), true, false, request.tokens)
    ensures Fed(pieces, k + 1, request.fed + pieces[k])
  {
    FedNext(pieces, k, request.fed);
  }

  lemma AfterPiece(request: Request, w: seq<Machine>, pieces: seq<seq<Byte>>, k: nat, ends: seq<nat>, more: seq<nat>,
      before: seq<Tok>, open: bool, dead: bool)
    requires k < |pieces| && IsTrace(w, Flatten(pieces)) && Fed(pieces, k + 1, Flatten(pieces[..k]) + pieces[k])
    requires Through(w, pieces, k, ends, IsSmall(pieces), true, false, before)
    requires var fed := Flatten(pieces[..k]);
      HasRead(request, w, Flatten(pieces), fed + pieces[k], |fed|, more, open, dead)
    ensures Serving(request, w, pieces, k + 1, ends + more, open, dead)
  {
    ThroughOn(w, pieces, k, ends, more, IsSmall(pieces), open, dead, before, request.tokens);
  }

  /** One piece more. */
  method FeedNext(request: Request, ghost w: seq<Machine>, pieces: seq<seq<Byte>>, k: nat, ghost ends: seq<nat>)
    returns (open: bool, dead: bool, ghost ends': seq<nat>)
    requires Serving(request, w, pieces, k, ends, true, false) && Framed(Flatten(pieces)) && k < |pieces|
    modifies request, request.parser, request.stream, request.stream.buf
    ensures Serving(request, w, pieces, k + 1, ends', open, dead)
    ensures request.stream.buf == old(request.stream.buf) || fresh(request.stream.buf)
  {
    ghost var before := request.tokens;
    BeforePiece(request, w, pieces, k, ends);
    ghost var more;
    open, dead, more := Feed(request, pieces[k], w, Flatten(pieces));
    AfterPiece(request, w, pieces, k, ends, more, before, open, dead);
    ends' := ends + more;
  }

  lemma NoneYet(w: seq<Machine>, pieces: seq<seq<Byte>>, small: bool, tokens: seq<Tok>)
    requires w != []
    ensures Through(w, pieces, 0, [], small, true, false, tokens) && Fed(pieces, 0, [])
  {
    assert pieces[..0] == [];
  }

  lemma BeforeAll(request: Request, w: seq<Machine>, pieces: seq<seq<Byte>>)
    requires IsTrace(w, Flatten(pieces)) && request.Settled() && !Ended(request.phase) && request.fed == []
             && IsLean(request, Flatten(pieces))
    ensures Serving(request, w, pieces, 0, [], true, false)
  {
    NoneYet(w, pieces, IsSmall(pieces), request.tokens);
  }

  /** All pieces, up to the end of the request. */
  method FeedAll(request: Request, ghost w: seq<Machine>, pieces: seq<seq<Byte>>)
    returns (open: bool, dead: bool, ghost ends: seq<nat>)
    requires IsTrace(w, Flatten(pieces)) && Framed(Flatten(pieces)) && IsLean(request, Flatten(pieces))
    requires request.Settled() && !Ended(request.phase) && request.fed == []
    modifies request, request.parser, request.stream, request.stream.buf
    ensures dead ==> |Flatten(pieces)| > MAX_REQUEST_BUF_SIZE
    ensures RunsOut(ends, pieces, IsSmall(pieces))
    ensures !dead ==> request.tokens == Answer(w, ends)
    ensures open && !dead ==> request.Settled() && !Ended(request.phase) && request.fed == Flatten(pieces)
    ensures IsLean(request, Flatten(pieces))
    ensures request.stream.buf == old(request.stream.buf) || fresh(request.stream.buf)
  {
    open, dead := true, false;
    var k := 0;
    ghost var places: seq<nat> := [];
    BeforeAll(request, w, pieces);
    while k < |pieces| && open && !dead
      invariant 0 <= k <= |pieces| && Serving(request, w, pieces, k, places, open, dead)
      invariant request.stream.buf == old(request.stream.buf) || fresh(request.stream.buf)
    {
      open, dead, places := FeedNext(request, w, pieces, k, places);
      k := k + 1;
    }
    ends := Served(request, w, pieces, k, places, open, dead);
  }

  lemma Served(request: Request, w: seq<Machine>, pieces: seq<seq<Byte>>, k: nat, places: seq<nat>, open: bool,
      dead: bool) returns (ends: seq<nat>)
    requires Serving(request, w, pieces, k, places, open, dead) && k <= |pieces| && (open && !dead ==> k == |pieces|)
    ensures RunsOut(ends, pieces, IsSmall(pieces)) && (dead ==> |Flatten(pieces)| > MAX_REQUEST_BUF_SIZE)
    ensures !dead ==> request.tokens == Answer(w, ends)
    ensures open && !dead ==> request.Settled() && !Ended(request.phase) && request.fed == Flatten(pieces)
    ensures IsLean(request, Flatten(pieces))
  {
    if open && !dead {
      FedAll(pieces, request.fed);
      SettledHere(request, w, Flatten(pieces));
    }
    ends := Completed(w, pieces, k, places, IsSmall(pieces), open, dead, request.tokens);
  }

  /** Every request is answered as the byte-at-a-time machine answers it on the concatenation of the pieces, except that
      it is refused at the first place where the input runs out inside a token of the head that is too long by then.
      Only a request larger than the buffer can be given up. */
  method Serve(pieces: seq<seq<Byte>>) returns (tokens: seq<Tok>, dead: bool, ghost ends: seq<nat>)
    requires Framed(Flatten(pieces))
    ensures RunsOut(ends, pieces, IsSmall(pieces))
    ensures !dead ==> tokens == Answer(Trace(Flatten(pieces)), ends)
    ensures dead ==> |Flatten(pieces)| > MAX_REQUEST_BUF_SIZE
  {
    ghost var w := TraceOf(Flatten(pieces));
    var request := NewRequest();
    var open;
    open, dead, ends := FeedAll(request, w, pieces);
    tokens := request.tokens;
  }

  lemma TraceOf(input: seq<Byte>) returns (w: seq<Machine>)
    ensures w == Trace(input) && IsTrace(w, input)
  {
    w := Trace(input);
    TraceIsTrace(input);
  }

  method NewRequest() returns (request: Request)
    ensures fresh(request) && fresh(request.parser) && fresh(request.stream) && fresh(request.stream.buf)
    ensures request.Settled() && !Ended(request.phase) && request.fed == [] && request.stream.buf.Length == 0
  {
    request := new Request();
  }

  /** When the peer closes in the same event as its last bytes, the session ends before these are parsed: what has been
      answered is what the pieces before them bring, though the last bytes may have completed the request. */
  method ServeAndClose(pieces: seq<seq<Byte>>, last: seq<Byte>) returns (tokens: seq<Tok>)
    requires Framed(Flatten(pieces) + last) && Framed(Flatten(pieces))
    ensures 2 * |Flatten(pieces) + last| < MAX_REQUEST_BUF_SIZE ==>
              Within(Ends(pieces, 0), 0, |Flatten(pieces)|)
              && tokens == Answer(Trace(Flatten(pieces)), Ends(pieces, 0))
  {
    ghost var w := TraceOf(Flatten(pieces));
    var request := NewRequest();
    var open, dead;
    ghost var ends;
    open, dead, ends := FeedAll(request, w, pieces);
    if open && !dead {
      LastEvent(request, pieces, last);
    }
    tokens := request.tokens;
  }

  /** The event with the last bytes and the close; with a buffer at its largest the close may come in a later one. */
  method LastEvent(request: Request, ghost pieces: seq<seq<Byte>>, last: seq<Byte>)
    requires request.Settled() && !Ended(request.phase) && request.fed == Flatten(pieces)
    requires Framed(Flatten(pieces) + last) && IsLean(request, Flatten(pieces))
    modifies request, request.parser, request.stream, request.stream.buf
    ensures 2 * |Flatten(pieces) + last| < MAX_REQUEST_BUF_SIZE ==> request.tokens == old(request.tokens)
  {
    request.HoldsNoMoreThanWasFed();
    var taken, dead := request.Receive(last, true);
    if !dead {
      var open := request.Drain();
    }
  }
}
