/** Requests at which the parser does not do what one might expect, each of them whole. */
module HttpExamples {
  import opened HttpTables
  import opened HttpReference
  import opened HttpInvariants
  import opened HttpChunks
  import opened HttpGrammar
  import opened HttpTokens
  import opened HttpHeads
  import opened HttpFraming
  import opened HttpAnswers

  // ----- heads that are not read as they are written -----

  /** One pair that says nothing about the body: the request has none. */
  lemma {:induction false} OnePlainPair(l: Line1, hs: seq<Header>, p: Pair)
    requires IsLine1(l) && AllHeaders(hs) && hs != [] && Count(hs) <= MAX_HEADER_COUNT && !Unclosed(hs)
    requires Seen(hs) == [p] && FramedOne(START, p) == START
    ensures Tokens(Head(l, hs)) == Plainly(l, p)
  {
    var input := Head(l, hs);
    TraceIsTrace(input);
    HeadRead(Trace(input), input, l, hs, false);
    OnePair(p);
  }

  lemma {:induction false} OnePair(p: Pair)
    ensures PairTokens([p]) == [Tok(HeaderKey, p.name), Tok(HeaderVal, p.value)]
    ensures FramedAll(START, [p]) == FramedOne(START, p)
  {
    assert [p][1..] == [];
  }

  /** A request with this header and without a body. */
  function Plainly(l: Line1, p: Pair): seq<Tok> {
    Tokens1(l) + [Tok(HeaderKey, p.name), Tok(HeaderVal, p.value)] + [Tok(Body, [])] + [Tok(ReqEnd, [])]
  }

  /** A name that has nothing to do with framing. */
  predicate IsOther(name: seq<Byte>) {
    IsToken(HK, name) && KeyOutcome(name) == WFK
  }

  /** Before another header line, whatever it says, an empty value takes it for its own: "X:", and then
      "Transfer-Encoding: chunked", is a request without a body whose X is "Transfer-Encoding: chunked". */
  lemma {:induction false} EmptyValueHidesLine(l: Line1, name: seq<Byte>, h: Header)
    requires IsLine1(l) && IsOther(name) && IsHeader(h)
    ensures Tokens(Head(l, [Header(name, [], []), h])) == Plainly(l, Pair(name, Text(h)))
  {
    var hs := [Header(name, [], []), h];
    assert hs[2..] == [];
    assert Seen(hs) == [Pair(name, Text(h))];
    OnePlainPair(l, hs, Pair(name, Text(h)));
  }

  /** As the last header it takes the end of the head with it. */
  lemma {:induction false} EmptyValueNeverEnds(l: Line1, name: seq<Byte>)
    requires IsLine1(l) && IsOther(name)
    ensures var input := Head(l, [Header(name, [], [])]);
      var r := Trace(input)[|input|];
      r.ending == Running && r.p.state == HS && r.out == Tokens1(l) + [Tok(HeaderKey, name)]
  {
    NeverEnds(l, [Header(name, [], [])]);
    assert Tokens1(l) + [] == Tokens1(l);
  }

  /** A header that would say that the body is chunked. */
  predicate IsCoded(h: Header) {
    IsHeader(h) && Spelled(h.name, TRANSFER_ENCODING) && Spelled(h.value, CHUNKED)
  }

  /** With a blank after it, "chunked" is not taken for what it is, and the request has no body. */
  lemma {:induction false} BlankHidesChunked(l: Line1, h: Header, blank: Byte)
    requires IsLine1(l) && IsCoded(h) && IsBlank(blank)
    ensures var g := h.(value := h.value + [blank]);
      IsHeader(g) && Tokens(Head(l, [g])) == Plainly(l, Pair(g.name, g.value))
  {
    var g := h.(value := h.value + [blank]);
    BlankContinues(h.value, blank);
    assert [g][1..] == [];
    assert Seen([g]) == [Pair(g.name, g.value)];
    OnePlainPair(l, [g], Pair(g.name, g.value));
  }

  lemma {:induction false} BlankContinues(value: seq<Byte>, blank: Byte)
    requires AllContinue(HV, value) && IsBlank(blank)
    ensures AllContinue(HV, value + [blank])
  {
    forall i | 0 <= i < |value + [blank]| ensures Continues(HV, (value + [blank])[i]) {
      assert i < |value| ==> Continues(HV, value[i]);
    }
  }

  /** "T: chunked" is taken for Transfer-Encoding, and the parser waits for chunks; and so for every other beginning of
      the name, and for every beginning of "chunked". */
  lemma {:induction false} BeginningIsTaken(l: Line1, h: Header)
    requires IsLine1(l) && IsHeader(h) && Begins(h.name, TRANSFER_ENCODING)
             && h.value != [] && Begins(h.value, CHUNKED)
    ensures var r := Trace(Head(l, [h]))[|Head(l, [h])|]; AtChunk(r) && r.out == ChunkedTokens(l, [h])
  {
    var hs := [h];
    assert hs[1..] == [];
    assert Own(hs)[0] == Pair(h.name, h.value);
    assert ChunkedAt(Own(hs), 0);
    SeenIsOwnIff(hs);
    ReadAsChunkedIff(l, hs);
  }

  // ----- these are requests -----

  /** "GET / HTTP/1.1" */
  const GET := Line1([71, 69, 84], [47], [72, 84, 84, 80, 47, 49, 46, 49])

  /** There are such request lines, names and headers: "GET / HTTP/1.1", "X", "transfer-encoding: chunked" and
      "T: chunked". */
  lemma {:induction false} GetIsLine1()
    ensures IsLine1(GET)
  {
  }

  lemma {:induction false} XIsOther()
    ensures IsOther([88])
  {
    assert TRANSFER_ENCODING[0] == 116 && CONTENT_LENGTHING[0] == 99;
  }

  lemma {:induction false} CodedExists()
    ensures IsCoded(Header(TRANSFER_ENCODING, [32], CHUNKED))
  {
    NameExists();
    ChunkedExists();
  }

  lemma {:induction false} NameExists()
    ensures IsToken(HK, TRANSFER_ENCODING) && Spelled(TRANSFER_ENCODING, TRANSFER_ENCODING)
  {
    assert |TRANSFER_ENCODING| == 17;
    forall i | 0 <= i < 17
      ensures Continues(HK, TRANSFER_ENCODING[i]) && Lower(TRANSFER_ENCODING[i]) == TRANSFER_ENCODING[i]
    {
    }
  }

  lemma {:induction false} ChunkedExists()
    ensures IsToken(HV, CHUNKED) && !IsBlank(CHUNKED[0]) && Spelled(CHUNKED, CHUNKED)
  {
  }

  lemma {:induction false} BeginningExists()
    ensures IsHeader(Header([84], [32], CHUNKED)) && Begins([84], TRANSFER_ENCODING) && [84] != TRANSFER_ENCODING
  {
    assert TRANSFER_ENCODING[0] == 116 && |TRANSFER_ENCODING| == 17;
  }

  /** A byte that is no digit counts as one: "Content-Length: 4:" is a body of fifty bytes. */
  lemma {:induction false} ColonCounts(l: Line1, body: seq<Byte>)
    requires IsLine1(l) && |body| == 50
    ensures var h := Header(CONTENT_LENGTH, [32], [52, 58]);
      && IsHeader(h) && Number(0, h.value) == 50
      && (|Head(l, [h])| + 50 <= MAX_REQUEST_BUF_SIZE ==> Tokens(Head(l, [h]) + body) == BodyTokens1(l, [h], body))
  {
    var h := Header(CONTENT_LENGTH, [32], [52, 58]);
    LengthIsToken();
    assert Number(0, [52, 58]) == Number(4, [52, 58][1..]) == Number(50, [52, 58][1..][1..]);
    ReadWithAnyLength(l, [h], 0, body);
  }

  lemma {:induction false} LengthIsToken()
    ensures IsToken(HK, CONTENT_LENGTH) && Spelled(CONTENT_LENGTH, CONTENT_LENGTH)
  {
  }

  // ----- a token over the limit -----

  /** The same bytes are refused when a read ends after the method, and answered when they come at once. */
  lemma {:induction false} SplitMatters(l: Line1, h: Header)
    requires IsLine1(l) && |l.verb| > MAX_TOKEN_LENGTH && IsHeader(h) && IsOther(h.name) && h.value != []
    ensures var input := Head(l, [h]);
      && |input| > |l.verb| && IsTrace(Trace(input), input)
      && Answer(Trace(input), [|l.verb|, |input|]) == REFUSAL
      && Answer(Trace(input), [|input|]) == Plainly(l, Pair(h.name, h.value))
  {
    var input, hs := Head(l, [h]), [h];
    TraceIsTrace(input);
    VerbFirst(Trace(input), input, l, hs);
    assert hs[1..] == [];
    assert Seen(hs) == [Pair(h.name, h.value)];
    OnePlainPair(l, hs, Pair(h.name, h.value));
    OneRead(Trace(input), input);
    TwoReads(Trace(input), |l.verb|, |input|);
    MachineRunsOn(l, hs);
  }

  lemma {:induction false} VerbFirst(trace: seq<Machine>, input: seq<Byte>, l: Line1, hs: seq<Header>)
    requires IsTrace(trace, input) && IsLine1(l) && input == Head(l, hs)
    ensures |input| > |l.verb| && trace[|l.verb|].ending == Running && trace[|l.verb|].kind == Method
            && trace[|l.verb|].text == l.verb && trace[|l.verb|].out == []
  {
    WholeSpells(input);
    PartLies(input, 0, l.verb, 32, l.target + ([32] + (l.version + (CRLF + (Lines(hs) + CRLF)))));
    assert Continues(MT, l.verb[0]);
    OpenToken(trace, input, 0, ST, MT, WFK, 0, 0, [], l.verb, FramedBy(MT, WFK, 0, l.verb), 0,
              ComparedBy(MT, WFK, 0, l.verb), 0, |l.verb|, false);
  }

  lemma {:induction false} TwoReads(trace: seq<Machine>, a: nat, b: nat)
    requires a < |trace| && b < |trace| && LongToken(trace[a]) && trace[a].out == []
    ensures Answer(trace, [a, b]) == REFUSAL
  {
  }

  lemma {:induction false} OneRead(trace: seq<Machine>, input: seq<Byte>)
    requires IsTrace(trace, input)
    ensures !LongToken(trace[|input|]) ==> Answer(trace, [|input|]) == trace[|input|].out
  {
    assert [|input|][1..] == [];
  }

  lemma {:induction false} MachineRunsOn(l: Line1, hs: seq<Header>)
    requires IsLine1(l) && AllHeaders(hs) && hs != [] && Count(hs) <= MAX_HEADER_COUNT
    ensures !LongToken(Trace(Head(l, hs))[|Head(l, hs)|])
  {
    var input := Head(l, hs);
    TraceIsTrace(input);
    HeadRead(Trace(input), input, l, hs, false);
  }

  /** There are such request lines: a method of 8193 letters. */
  lemma {:induction false} LongVerbsExist()
    ensures var l := GET.(verb := seq(8193, _ => 65)); IsLine1(l) && |l.verb| > MAX_TOKEN_LENGTH
  {
    GetIsLine1();
    var verb: seq<Byte> := seq(8193, _ => 65);
    assert forall i :: 0 <= i < 8193 ==> verb[i] == 65;
  }
}
