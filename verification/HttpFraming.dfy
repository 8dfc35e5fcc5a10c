/** What a head says about the body and what the parser takes it to say: exactly which heads it reads as chunked. */
module HttpFraming {
  import opened HttpTables
  import opened HttpReference
  import opened HttpInvariants
  import opened HttpRefinement
  import opened HttpChunks
  import opened HttpGrammar
  import opened HttpTokens
  import opened HttpHeads

  // ----- which headers make the body chunked -----

  /** A header that the parser takes for "Transfer-Encoding: chunked"; the beginning of either word is enough. */
  predicate SaysChunked(p: Pair) {
    KeyOutcome(p.name) == MTE && Begins(p.value, CHUNKED)
  }

  /** A header that settles the framing one way or the other. */
  predicate Settles(p: Pair) {
    SaysChunked(p) || KeyOutcome(p.name) == MCL
  }

  /** The first header that settles the framing says that the body is chunked. */
  ghost predicate ChunkedAt(pairs: seq<Pair>, i: nat) {
    i < |pairs| && SaysChunked(pairs[i]) && forall j :: 0 <= j < i ==> !Settles(pairs[j])
  }

  ghost predicate SomeChunked(pairs: seq<Pair>) {
    exists i: nat :: ChunkedAt(pairs, i)
  }

  lemma {:induction false} Absorbed(f: Framing, pairs: seq<Pair>)
    requires f.m in {SML, CHK}
    ensures FramedAll(f, pairs) == f
    decreases |pairs|
  {
    if pairs != [] {
      Absorbed(f, pairs[1..]);
    }
  }

  /** A length is declared only by what settles the framing as a length. */
  lemma {:induction false} ChunkedIff(pairs: seq<Pair>)
    ensures FramedAll(START, pairs).m == CHK <==> SomeChunked(pairs)
    ensures FramedAll(START, pairs).m != SML ==> FramedAll(START, pairs).length == 0
    decreases |pairs|
  {
    if pairs != [] {
      var p, rest := pairs[0], pairs[1..];
      if Settles(p) {
        Absorbed(FramedOne(START, p), rest);
        assert SaysChunked(p) ==> ChunkedAt(pairs, 0);
      } else {
        assert FramedOne(START, p) == START;
        ChunkedIff(rest);
        ChunkedLater(pairs);
      }
    }
  }

  lemma {:induction false} ChunkedLater(pairs: seq<Pair>)
    requires pairs != [] && !Settles(pairs[0])
    ensures SomeChunked(pairs) <==> SomeChunked(pairs[1..])
  {
    if SomeChunked(pairs) {
      var i: nat :| ChunkedAt(pairs, i);
      assert forall j :: 0 <= j < |pairs[1..]| ==> pairs[1..][j] == pairs[j + 1];
      assert ChunkedAt(pairs[1..], i - 1);
    }
    if SomeChunked(pairs[1..]) {
      var i: nat :| ChunkedAt(pairs[1..], i);
      assert forall j :: 0 < j < |pairs| ==> pairs[j] == pairs[1..][j - 1];
      assert ChunkedAt(pairs, i + 1);
    }
  }

  // ----- which heads are read as chunked -----

  /** What a chunked head should come to. */
  function ChunkedTokens(l: Line1, hs: seq<Header>): seq<Tok> {
    Tokens1(l) + PairTokens(Own(hs)) + [Tok(BodyStream, [])]
  }

  /** A head's own tokens come out and the parser waits for chunks if and only if no value is empty and the first header
      that settles the framing says that the body is chunked. */
  lemma {:induction false} ReadAsChunkedIff(l: Line1, hs: seq<Header>)
    requires IsLine1(l) && AllHeaders(hs) && hs != [] && Count(hs) <= MAX_HEADER_COUNT
    ensures var r := Trace(Head(l, hs))[|Head(l, hs)|];
      r.out == ChunkedTokens(l, hs) && AtChunk(r) <==> NoneEmpty(hs) && SomeChunked(Own(hs))
  {
    var input := Head(l, hs);
    TraceIsTrace(input);
    HeadRead(Trace(input), input, l, hs, false);
    SeenIsOwnIff(hs);
    EndIsChunkedIff(l, hs);
    ChunkedIff(Own(hs));
  }

  lemma {:induction false} EndIsChunkedIff(l: Line1, hs: seq<Header>)
    requires NoneEmpty(hs) ==> Seen(hs) == Own(hs) && !Unclosed(hs)
    requires NoneEmpty(hs) <==> |Seen(hs)| == |hs|
    ensures HeadEnd(l, hs).out == ChunkedTokens(l, hs) && AtChunk(HeadEnd(l, hs)) <==>
              NoneEmpty(hs) && FramedAll(START, Own(hs)).m == CHK
  {
    var f := FramedAll(START, Seen(hs));
    ChunkedIff(Seen(hs));
    HeadHasEnd(l, hs);
    if HeadEnd(l, hs).out == ChunkedTokens(l, hs) && AtChunk(HeadEnd(l, hs)) {
      assert f.m == CHK && !Unclosed(hs);
      assert HeadEnd(l, hs).out == Tokens1(l) + PairTokens(Seen(hs)) + [Tok(BodyStream, [])];
      assert |HeadEnd(l, hs).out| == 4 + 2 * |Seen(hs)|;
    }
  }

  lemma {:induction false} HeadHasEnd(l: Line1, hs: seq<Header>)
    ensures |Head(l, hs)| > 2
  {
  }

  /** A name that neither framing header's begins with. */
  predicate IsPlain(name: seq<Byte>) {
    KeyOutcome(name) == WFK
  }

  /** With one Transfer-Encoding header, spelled in full, whose value is "chunked" and white space, and no other header
      about framing: the head is read as it should be if and only if no value is empty and there is no such white
      space. */
  lemma {:induction false} ReadAsChunkedExactly(l: Line1, hs: seq<Header>, i: nat, coding: seq<Byte>, after: seq<Byte>)
    requires IsLine1(l) && AllHeaders(hs) && Count(hs) <= MAX_HEADER_COUNT && i < |hs|
    requires Spelled(hs[i].name, TRANSFER_ENCODING) && Spelled(coding, CHUNKED) && AllBlank(after)
             && hs[i].value == coding + after
    requires forall j :: 0 <= j < |hs| && j != i ==> IsPlain(hs[j].name)
    ensures var r := Trace(Head(l, hs))[|Head(l, hs)|];
      r.out == ChunkedTokens(l, hs) && AtChunk(r) <==> NoneEmpty(hs) && after == []
  {
    ReadAsChunkedIff(l, hs);
    OneCoding(Own(hs), i, coding, after);
  }

  lemma {:induction false} OneCoding(pairs: seq<Pair>, i: nat, coding: seq<Byte>, after: seq<Byte>)
    requires i < |pairs| && Spelled(pairs[i].name, TRANSFER_ENCODING) && Spelled(coding, CHUNKED)
             && pairs[i].value == coding + after
    requires forall j :: 0 <= j < |pairs| && j != i ==> IsPlain(pairs[j].name)
    ensures SomeChunked(pairs) <==> after == []
  {
    assert KeyOutcome(pairs[i].name) == MTE;
    assert Begins(pairs[i].value, CHUNKED) <==> after == [] by {
      assert after == [] ==> pairs[i].value == coding;
    }
    if after == [] {
      assert ChunkedAt(pairs, i);
    }
  }

  // ----- whole chunked requests -----

  predicate ShortPairs(pairs: seq<Pair>) {
    forall i :: 0 <= i < |pairs| ==> |pairs[i].name| <= MAX_TOKEN_LENGTH && |pairs[i].value| <= MAX_TOKEN_LENGTH
  }

  lemma {:induction false} ShortIsTame(f: Framing, pairs: seq<Pair>)
    requires ShortPairs(pairs) && IsFraming(f) && FramedAll(f, pairs).m == CHK && f.m != SML && f.length == 0
    ensures TamePairs(f, pairs)
    decreases |pairs|
  {
    if pairs != [] {
      assert forall i :: 0 <= i < |pairs[1..]| ==> pairs[1..][i] == pairs[i + 1];
      if FramedOne(f, pairs[0]).m == SML {
        Absorbed(FramedOne(f, pairs[0]), pairs[1..]);
      }
      ShortIsTame(FramedOne(f, pairs[0]), pairs[1..]);
    }
  }

  /** Such a head, with no token over the limit, is followed by its chunks: a whole request is exactly the tokens of its
      head, its chunks in order, an empty chunk and the end. */
  lemma {:induction false} ChunkedMessage(l: Line1, hs: seq<Header>, i: nat, chunks: seq<Chunk>, last: Last)
    requires IsLine1(l) && TameLine1(l) && AllHeaders(hs) && |hs| <= MAX_HEADER_COUNT
    requires NoneEmpty(hs) && ChunkedAt(Own(hs), i) && ShortPairs(Own(hs))
    requires AllChunks(chunks) && IsLast(last)
    ensures var whole := Head(l, hs) + EncodeAll(chunks, last);
      Clean(whole) && Tokens(whole) == ChunkedTokens(l, hs) + BodyTokens(chunks)
  {
    HeadIsChunked(l, hs, i);
    ChunkedRequest(Head(l, hs), chunks, last);
  }

  lemma {:induction false} HeadIsChunked(l: Line1, hs: seq<Header>, i: nat)
    requires IsLine1(l) && TameLine1(l) && AllHeaders(hs) && |hs| <= MAX_HEADER_COUNT
    requires NoneEmpty(hs) && ChunkedAt(Own(hs), i) && ShortPairs(Own(hs))
    ensures ChunkedHead(Head(l, hs)) && Tokens(Head(l, hs)) == ChunkedTokens(l, hs)
  {
    var input := Head(l, hs);
    SeenIsOwnIff(hs);
    ChunkedIff(Own(hs));
    ShortIsTame(START, Own(hs));
    HeadHasEnd(l, hs);
    ReadAsChunkedIff(l, hs);
    TraceIsTrace(input);
    HeadRead(Trace(input), input, l, hs, true);
    SmoothIsClean(Trace(input), input);
  }

  // ----- heads that never end -----

  /** A head whose last line is left without a value is not over at its empty line: the parser is still before the
      value, and waits for more. */
  lemma {:induction false} NeverEnds(l: Line1, hs: seq<Header>)
    requires IsLine1(l) && AllHeaders(hs) && hs != [] && Count(hs) <= MAX_HEADER_COUNT && Unclosed(hs)
    ensures var r := Trace(Head(l, hs))[|Head(l, hs)|];
      && r.ending == Running && r.p.state == HS
      && r.out == Tokens1(l) + PairTokens(Seen(hs)) + [Tok(HeaderKey, Dangling(hs))]
  {
    var input := Head(l, hs);
    TraceIsTrace(input);
    HeadRead(Trace(input), input, l, hs, false);
  }

  // ----- bodies with a declared length -----

  /** The tokens of a head whose lines are taken for what they are taken, before anything about its body. */
  function HeadTokens(l: Line1, hs: seq<Header>): seq<Tok> {
    Tokens1(l) + PairTokens(Seen(hs))
  }

  /** What a request with a body should come to. */
  function BodyTokens1(l: Line1, hs: seq<Header>, body: seq<Byte>): seq<Tok> {
    HeadTokens(l, hs) + [Tok(Body, body)] + [Tok(ReqEnd, [])]
  }

  function InBody1(length: int, headers: nat, k: nat, out: seq<Tok>): Machine {
    Machine(Fields(BD, BDY, length, 0, 0, headers), Body, [], k, out, Running)
  }

  lemma {:induction false} BodyBegins(length: nat, headers: nat, k: nat, out: seq<Tok>, c: Byte)
    requires length > 0
    ensures var r := Between(HN, BDY, length, headers, k, out);
      && Destination(r.p, c) == BD && Coherent(r) && Left(r.p) == length
      && AtBody(r, BD) == InBody1(length, headers, k, out)
  {
  }

  lemma {:induction false} BodyPart(trace: seq<Machine>, input: seq<Byte>, k: nat, length: nat, headers: nat,
      out: seq<Tok>, t: nat)
    requires IsTrace(trace, input) && k + t <= |input| && trace[k] == Between(HN, BDY, length, headers, k, out)
             && 1 <= t <= length
    ensures trace[k + t] ==
              if t == length then Wholly(InBody1(length, headers, k, out), input[k..k + t])
              else Partly(InBody1(length, headers, k, out), input[k..k + t])
  {
    BodyBegins(length, headers, k, out, input[k]);
    BodyBytes(trace, input, k, BD, t);
  }

  lemma {:induction false} BodyWhole(length: nat, headers: nat, k: nat, out: seq<Tok>, body: seq<Byte>)
    ensures var r := Wholly(InBody1(length, headers, k, out), body);
      r.ending == Finished && r.out == out + [Tok(Body, body)] + [Tok(ReqEnd, [])] && r.p.contentLength == 0
  {
    assert [] + body == body;
  }

  lemma {:induction false} BodyHalf(length: nat, headers: nat, k: nat, out: seq<Tok>, body: seq<Byte>)
    ensures var r := Partly(InBody1(length, headers, k, out), body); r.ending == Running && r.out == out
    ensures var r := Partly(InBody1(length, headers, k, out), body);
      0 <= length <= MAX_REQUEST_BUF_SIZE + 1 ==> WithinLimits(r)
  {
  }

  /** A negative length: the first byte after the head brings an empty body. */
  lemma {:induction false} NegativeBody(r: Machine, c: Byte, r': Machine)
    requires r.ending == Running && r.p.state == HN && r.p.meta == BDY && r.p.contentLength < 0 && r.p.bodyConsumed == 0
    requires r' == Step(r, c)
    ensures r'.out == r.out + [Tok(Body, [])]
  {
    assert Destination(r.p, c) == BD;
  }

  /** What follows a head with a declared length, when exactly as many bytes come as body has. */
  lemma {:induction false} BodyIff(trace: seq<Machine>, input: seq<Byte>, k: nat, length: int, headers: nat,
      out: seq<Tok>, body: seq<Byte>)
    requires IsTrace(trace, input) && Spells(input, k, body) && |input| == k + |body| && k > 0
    requires trace[k] == HeadOver(Framing(SML, length), headers, k, out)
    ensures trace[|input|].out == out + [Tok(Body, body)] + [Tok(ReqEnd, [])] <==>
              length == |body| && CanContain(k - 1, length)
  {
    if !CanContain(k - 1, length) || length == 0 {
      OverAtOnce(trace, input, k, length, headers, out, body);
    } else {
      BodyToCome(trace, input, k, length, headers, out, body);
    }
  }

  lemma {:induction false} BodyToCome(trace: seq<Machine>, input: seq<Byte>, k: nat, length: int, headers: nat,
      out: seq<Tok>, body: seq<Byte>)
    requires IsTrace(trace, input) && Spells(input, k, body) && |input| == k + |body| && length != 0
    requires trace[k] == Between(HN, BDY, length, headers, k, out)
    ensures trace[|input|].out == out + [Tok(Body, body)] + [Tok(ReqEnd, [])] <==> length == |body|
  {
    if body == [] {
      assert trace[|input|].out == out;
    } else if length < 0 {
      NegativeEnd(trace, input, k, length, headers, out, body);
    } else if length <= |body| {
      EnoughBody(trace, input, k, length, headers, out, body);
    } else {
      BodyPart(trace, input, k, length, headers, out, |body|);
      BodyHalf(length, headers, k, out, input[k..k + |body|]);
    }
  }

  lemma {:induction false} NegativeEnd(trace: seq<Machine>, input: seq<Byte>, k: nat, length: int, headers: nat,
      out: seq<Tok>, body: seq<Byte>)
    requires IsTrace(trace, input) && |input| == k + |body| && body != [] && length < 0
    requires trace[k] == Between(HN, BDY, length, headers, k, out)
    ensures trace[|input|].out != out + [Tok(Body, body)] + [Tok(ReqEnd, [])]
  {
    NegativeAt(trace, input, k, out);
    OutIsKept(trace, input, k + 1, |body| - 1);
    Differs(trace[|input|].out, out, body);
  }

  lemma {:induction false} NegativeAt(trace: seq<Machine>, input: seq<Byte>, k: nat, out: seq<Tok>)
    requires IsTrace(trace, input) && k < |input|
    requires trace[k].ending == Running && trace[k].p.state == HN && trace[k].p.meta == BDY && trace[k].out == out
             && trace[k].p.contentLength < 0 && trace[k].p.bodyConsumed == 0
    ensures trace[k + 1].out == out + [Tok(Body, [])]
  {
    assert Stepped(trace, input, k);
    NegativeBody(trace[k], input[k], trace[k + 1]);
  }

  lemma {:induction false} OverAtOnce(trace: seq<Machine>, input: seq<Byte>, k: nat, length: int, headers: nat,
      out: seq<Tok>, body: seq<Byte>)
    requires IsTrace(trace, input) && |input| == k + |body| && k > 0 && (!CanContain(k - 1, length) || length == 0)
    requires trace[k] == HeadOver(Framing(SML, length), headers, k, out)
    ensures trace[|input|].out == out + [Tok(Body, body)] + [Tok(ReqEnd, [])] <==>
              length == |body| && CanContain(k - 1, length)
  {
    Halted(trace, input, k, |body|);
    if !CanContain(k - 1, length) {
      assert trace[k].out == out + [Tok(BodyStream, [])];
    } else {
      assert trace[k].out == out + [Tok(Body, [])] + [Tok(ReqEnd, [])];
      SameBody(out, [], body);
    }
  }

  lemma {:induction false} SameBody(out: seq<Tok>, a: seq<Byte>, b: seq<Byte>)
    ensures out + [Tok(Body, a)] + [Tok(ReqEnd, [])] == out + [Tok(Body, b)] + [Tok(ReqEnd, [])] <==> a == b
  {
    var x, y := out + [Tok(Body, a)] + [Tok(ReqEnd, [])], out + [Tok(Body, b)] + [Tok(ReqEnd, [])];
    assert x[|out|] == Tok(Body, a) && y[|out|] == Tok(Body, b);
  }

  lemma {:induction false} EnoughBody(trace: seq<Machine>, input: seq<Byte>, k: nat, length: nat, headers: nat,
      out: seq<Tok>, body: seq<Byte>)
    requires IsTrace(trace, input) && Spells(input, k, body) && |input| == k + |body| && 1 <= length <= |body|
    requires trace[k] == Between(HN, BDY, length, headers, k, out)
    ensures trace[|input|].out == out + [Tok(Body, body)] + [Tok(ReqEnd, [])] <==> length == |body|
  {
    var part := input[k..k + length];
    BodyPart(trace, input, k, length, headers, out, length);
    BodyWhole(length, headers, k, out, part);
    Halted(trace, input, k + length, |body| - length);
    SameBody(out, part, body);
    assert length == |body| ==> part == body;
  }

  lemma {:induction false} Differs(all: seq<Tok>, out: seq<Tok>, body: seq<Byte>)
    requires out + [Tok(Body, [])] <= all && body != []
    ensures all != out + [Tok(Body, body)] + [Tok(ReqEnd, [])]
  {
    assert all[|out|] == Tok(Body, []);
  }

  /** A request with a declared length comes out as its head and exactly its body if and only if the length the parser
      has made of the value is that of the body and the buffer can contain it. */
  lemma {:induction false} ReadWithBodyIff(l: Line1, hs: seq<Header>, body: seq<Byte>)
    requires IsLine1(l) && AllHeaders(hs) && hs != [] && Count(hs) <= MAX_HEADER_COUNT && !Unclosed(hs)
             && FramedAll(START, Seen(hs)).m == SML
    ensures var length := FramedAll(START, Seen(hs)).length;
      Tokens(Head(l, hs) + body) == BodyTokens1(l, hs, body) <==>
        length == |body| && |Head(l, hs)| + length <= MAX_REQUEST_BUF_SIZE + 2
  {
    var head, input := Head(l, hs), Head(l, hs) + body;
    HeadHasEnd(l, hs);
    TraceIsTrace(head);
    TraceIsTrace(input);
    HeadRead(Trace(head), head, l, hs, false);
    SameSoFar(Trace(input), input, Trace(head), head, |head|);
    assert Spells(input, |head|, body);
    BodyIff(Trace(input), input, |head|, FramedAll(START, Seen(hs)).length, Count(hs), HeadTokens(l, hs), body);
  }

  /** Such a request, with no token over the limit, is one that the splitting of the input does not matter to. */
  lemma {:induction false} BodyMessage(l: Line1, hs: seq<Header>, body: seq<Byte>)
    requires IsLine1(l) && AllHeaders(hs) && hs != [] && Count(hs) <= MAX_HEADER_COUNT && TameHead(l, hs)
             && FramedAll(START, Seen(hs)) == Framing(SML, |body|)
    ensures Clean(Head(l, hs) + body) && Tokens(Head(l, hs) + body) == BodyTokens1(l, hs, body)
  {
    var head, input := Head(l, hs), Head(l, hs) + body;
    HeadHasEnd(l, hs);
    ReadWithBodyIff(l, hs, body);
    TraceIsTrace(head);
    TraceIsTrace(input);
    HeadRead(Trace(head), head, l, hs, true);
    SmoothStart(Trace(head), head, body, Trace(input));
    if body == [] {
      assert input == head;
    } else {
      BodySmooth(Trace(input), input, |head|, |body|, Count(hs), HeadTokens(l, hs));
      SmoothOn(Trace(input), 0, |head|, |input|);
    }
    SmoothIsClean(Trace(input), input);
  }

  lemma {:induction false} SmoothStart(trace: seq<Machine>, head: seq<Byte>, body: seq<Byte>, longer: seq<Machine>)
    requires IsTrace(trace, head) && IsTrace(longer, head + body) && Smooth(trace, 0, |head|)
    ensures longer[|head|] == trace[|head|] && Smooth(longer, 0, |head|)
  {
    forall t | 0 <= t <= |head| ensures longer[t] == trace[t] {
      SameSoFar(longer, head + body, trace, head, t);
    }
  }

  lemma {:induction false} BodySmooth(trace: seq<Machine>, input: seq<Byte>, k: nat, length: nat, headers: nat,
      out: seq<Tok>)
    requires IsTrace(trace, input) && |input| == k + length && 1 <= length <= MAX_REQUEST_BUF_SIZE + 1
    requires trace[k] == Between(HN, BDY, length, headers, k, out)
    ensures Smooth(trace, k, |input|)
  {
    BodyPart(trace, input, k, length, headers, out, length);
    BodyWhole(length, headers, k, out, input[k..k + length]);
    forall t | k < t < |input| ensures WithinLimits(trace[t]) && trace[t].ending == Running {
      BodyAt(trace, input, k, length, headers, out, t - k);
    }
    assert WithinLimits(trace[|input|]);
  }

  lemma {:induction false} BodyAt(trace: seq<Machine>, input: seq<Byte>, k: nat, length: nat, headers: nat,
      out: seq<Tok>, t: nat)
    requires IsTrace(trace, input) && |input| == k + length && 1 <= t < length <= MAX_REQUEST_BUF_SIZE + 1
    requires trace[k] == Between(HN, BDY, length, headers, k, out)
    ensures WithinLimits(trace[k + t]) && trace[k + t].ending == Running
  {
    BodyPart(trace, input, k, length, headers, out, t);
    BodyHalf(length, headers, k, out, input[k..k + t]);
  }

  // ----- the value of Content-Length -----

  lemma {:induction false} NumberParts(before: int, a: seq<Byte>, b: seq<Byte>)
    ensures Number(before, a + b) == Number(Number(before, a), b)
    decreases |a|
  {
    if a == [] {
      assert a + b == b;
    } else {
      assert (a + b)[0] == a[0] && (a + b)[1..] == a[1..] + b;
      NumberParts(before * 10 + a[0] - 48, a[1..], b);
    }
  }

  /** Where white space read as digits can lead from a number d: never back to d. */
  predicate OffFrom(d: nat, x: int) {
    x < 0 || (x >= 5 && x > d) || (x == 1 && (d == 2 || d == 4)) || (x == 4 && d == 2)
  }

  lemma {:induction false} StaysOff(d: nat, x: int, after: seq<Byte>)
    requires OffFrom(d, x) && AllBlank(after)
    ensures OffFrom(d, Number(x, after)) && Number(x, after) != d
    decreases |after|
  {
    if after != [] {
      assert IsBlank(after[0]) && forall i :: 0 <= i < |after[1..]| ==> after[1..][i] == after[i + 1];
      StaysOff(d, x * 10 + after[0] - 48, after[1..]);
    }
  }

  /** The white space after the digits counts as digits, and the number is then always another one. */
  lemma {:induction false} DigitsExactly(digits: seq<Byte>, after: seq<Byte>, n: nat)
    requires AllDigits(digits) && AllBlank(after) && n == Number(0, digits)
    ensures Number(0, digits + after) == n <==> after == []
  {
    NumberParts(0, digits, after);
    if after != [] {
      assert IsBlank(after[0]) && forall i :: 0 <= i < |after[1..]| ==> after[1..][i] == after[i + 1];
      StaysOff(n, n * 10 + after[0] - 48, after[1..]);
    }
  }

  /** With one Content-Length header, spelled in full, no empty value and no other header about framing: the body comes
      out whole if and only if it has the number of bytes that the value spells, any byte being taken for a digit, and
      the buffer can contain it. */
  lemma {:induction false} ReadWithAnyLength(l: Line1, hs: seq<Header>, i: nat, body: seq<Byte>)
    requires IsLine1(l) && AllHeaders(hs) && |hs| <= MAX_HEADER_COUNT && NoneEmpty(hs) && i < |hs|
    requires Spelled(hs[i].name, CONTENT_LENGTH)
    requires forall j :: 0 <= j < |hs| && j != i ==> IsPlain(hs[j].name)
    ensures Tokens(Head(l, hs) + body) == BodyTokens1(l, hs, body) <==>
              Number(0, hs[i].value) == |body| && |Head(l, hs)| + |body| <= MAX_REQUEST_BUF_SIZE + 2
  {
    SeenIsOwnIff(hs);
    OneLength(START, Own(hs), i);
    ReadWithBodyIff(l, hs, body);
  }

  /** With one Content-Length header, spelled in full, whose value is digits and white space, no empty value and no
      other header about framing: a body of the number of bytes that the digits spell, if the buffer can contain it,
      comes out whole if and only if there is no such white space. */
  lemma {:induction false} ReadWithBodyExactly(l: Line1, hs: seq<Header>, i: nat, digits: seq<Byte>, after: seq<Byte>,
      body: seq<Byte>)
    requires IsLine1(l) && AllHeaders(hs) && |hs| <= MAX_HEADER_COUNT && NoneEmpty(hs) && i < |hs|
    requires Spelled(hs[i].name, CONTENT_LENGTH) && AllDigits(digits) && AllBlank(after)
             && hs[i].value == digits + after && Number(0, digits) == |body|
    requires forall j :: 0 <= j < |hs| && j != i ==> IsPlain(hs[j].name)
    requires |Head(l, hs)| + |body| <= MAX_REQUEST_BUF_SIZE + 2
    ensures Tokens(Head(l, hs) + body) == BodyTokens1(l, hs, body) <==> after == []
  {
    ReadWithAnyLength(l, hs, i, body);
    DigitsExactly(digits, after, |body|);
  }

  lemma {:induction false} OneLength(f: Framing, pairs: seq<Pair>, i: nat)
    requires f == START && i < |pairs| && Spelled(pairs[i].name, CONTENT_LENGTH)
    requires forall j :: 0 <= j < |pairs| && j != i ==> IsPlain(pairs[j].name)
    ensures FramedAll(f, pairs) == Framing(SML, Number(0, pairs[i].value))
    decreases |pairs|
  {
    assert forall j :: 0 <= j < |pairs[1..]| ==> pairs[1..][j] == pairs[j + 1];
    if i == 0 {
      FullName(pairs[0].name);
      Absorbed(FramedOne(f, pairs[0]), pairs[1..]);
    } else {
      OneLength(f, pairs[1..], i - 1);
    }
  }

  lemma {:induction false} FullName(name: seq<Byte>)
    requires Spelled(name, CONTENT_LENGTH)
    ensures KeyOutcome(name) == MCL
  {
    assert TRANSFER_ENCODING[0] == 116 && CONTENT_LENGTH[0] == 99 && |CONTENT_LENGTHING| == 17;
    assert forall i :: 0 <= i < 14 ==> CONTENT_LENGTHING[i] == CONTENT_LENGTH[i];
  }
}
