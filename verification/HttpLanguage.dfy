/** Which inputs the parser refuses: the bytes that may come in each of its states, as numbers. */
module HttpLanguage {
  import opened HttpTables
  import opened HttpReference
  import opened HttpInvariants
  import opened HttpStream
  import opened HttpRefinement
  import opened HttpChunks
  import opened HttpGrammar

  /** After a chunk's size line comes a carriage return, when the size is zero, or else data. */
  predicate MayFollow(p: Fields, c: Byte) {
    match p.state
    case ST => InName(c) && !IsDecimal(c)
    case MT => InName(c) || c == 32
    case MS => InVersion(c)
    case TR => InTarget(c) || c == 32
    case TS => InVersion(c)
    case VN => InVersion(c) || c == 13
    case RR => c == 10
    case RN => InName(c)
    case HK => InName(c) || c == 58
    case HS => c == 9 || c == 10 || c == 13 || 32 <= c <= 126
    case HV => InValue(c) || c == 13
    case HR => c == 10
    case HE => InName(c) || c == 13
    case ER => c == 10
    case CS => IsHex(c) || c == 13 || c == 59
    case CE => InExtension(c) || c == 13
    case CR => c == 10
    case CN => p.contentLength == 0 ==> c == 13
    case CD => c == 13
    case C1 => c == 10
    case C2 => IsHex(c)
    case BR => false
    case _ => true
  }

  /** A byte that is refused: one that may not follow, or that begins one header name too many. */
  predicate IsBad(r: Machine, c: Byte) {
    && r.ending == Running
    && (!MayFollow(r.p, c) || ((r.p.state == RN || r.p.state == HE) && c != 13 && r.p.headerCount >= 127))
  }

  /** The classes, byte by byte. */
  lemma Classes(c: Byte)
    ensures Word(TypeOf(c)) <==> InName(c)
    ensures TypeOf(c) == DIGIT <==> IsDecimal(c)
    ensures Word(TypeOf(c)) || TypeOf(c) == VCHAR <==> InVersion(c)
    ensures TypeOf(c) in {DIGIT, HEX} <==> IsHex(c)
    ensures TypeOf(c) == ETC <==> c > 126 || (c < 32 && c != 9 && c != 10 && c != 13)
    ensures TypeOf(c) == SPC <==> c == 32
    ensures TypeOf(c) == TAB <==> c == 9
    ensures TypeOf(c) == NL <==> c == 10
    ensures TypeOf(c) == CRET <==> c == 13
    ensures TypeOf(c) == COLN <==> c == 58
    ensures TypeOf(c) == SCOLN <==> c == 59
  {
  }

  /** The words that header names and values are compared with. */
  lemma Words()
    ensures Same(TRANSFER_ENCODING, "transfer-encoding") && Same(CONTENT_LENGTH, "content-length")
            && Same(CHUNKED, "chunked")
  {
  }

  predicate Same(bytes: seq<Byte>, text: string) {
    |bytes| == |text| && forall i :: 0 <= i < |text| ==> bytes[i] == text[i] as int
  }

  /** Hexadecimal digits count what they should, in either case. */
  lemma HexDigits(c: Byte)
    requires IsHex(c)
    ensures 0 <= HexValue(c) < 16 && Lower(c) == "0123456789abcdef"[HexValue(c)] as int
  {
    assert HexValue(c) < 10 ==> "0123456789abcdef"[HexValue(c)] == "0123456789"[HexValue(c)];
  }

  /** Outside the bodies the error state is reached by exactly the bytes that may not follow. */
  lemma BrokenIff(p: Fields, c: Byte)
    requires p.state != BR && (p.state == CN ==> p.contentLength > 0)
    ensures Destination(p, c) == BR <==> !MayFollow(p, c)
  {
    Classes(c);
  }

  /** One byte is refused if and only if it is a bad one. */
  lemma StepFailsIff(r: Machine, c: Byte)
    requires r.ending == Running && Coherent(r) && r.p.contentLength >= 0
    ensures Step(r, c).ending == Failed <==> IsBad(r, c)
    ensures IsBad(r, c) ==>
              Step(r, c).out in {r.out + [Tok(Error, [])], r.out + [Tok(ChunkBody, [])] + [Tok(Error, [])]}
  {
    var to := Destination(r.p, c);
    if InBody(to) {
      BodyFailsIff(r, c, to);
    } else {
      BrokenIff(r.p, c);
      HeadFailsIff(r, c, to);
    }
  }

  lemma HeadFailsIff(r: Machine, c: Byte, to: State)
    requires r.ending == Running && Coherent(r) && to == Destination(r.p, c) && !InBody(to)
    requires to == BR <==> !MayFollow(r.p, c)
    ensures HeadStep(r, c, to).ending == Failed <==> IsBad(r, c)
    ensures IsBad(r, c) ==> HeadStep(r, c, to).out == r.out + [Tok(Error, [])]
  {
    if to == BR {
      HeadFails(View([], 0, 0, NONE, false), r.p, c, r);
    } else {
      HeadEnds(r, c, to);
      TooManyIff(r, c, to);
      MarkIsLast(r, c, to);
    }
  }

  lemma MarkIsLast(r: Machine, c: Byte, to: State)
    ensures var mark := Mark(Enter(r.p, to), r.p.state, c, r.pos);
      mark == Error ==> HeadStep(r, c, to).out == r.out + [Tok(Error, [])]
  {
  }

  lemma TooManyIff(r: Machine, c: Byte, to: State)
    requires r.p.state != BR && to == Destination(r.p, c) && to != BR
    ensures Mark(Enter(r.p, to), r.p.state, c, r.pos) == Error <==>
              (r.p.state == RN || r.p.state == HE) && c != 13 && r.p.headerCount >= 127
  {
    assert TypeOf(c) == CRET <==> c == 13;
  }

  lemma BodyFailsIff(r: Machine, c: Byte, to: State)
    requires r.ending == Running && Coherent(r) && r.p.contentLength >= 0 && to == Destination(r.p, c) && InBody(to)
    ensures BodyStep(r, c, to).ending == Failed <==> IsBad(r, c)
    ensures IsBad(r, c) ==> BodyStep(r, c, to).out == r.out + [Tok(ChunkBody, [])] + [Tok(Error, [])]
  {
    IntoBodyFrom(r, c, to);
    if r.p.state == CN && r.p.contentLength == 0 {
      EmptyChunkBody(r, c);
      AfterData(AfterLastChunk(r), c);
    }
  }

  /** From where a body is entered or gone on with, and with how much of it left. */
  lemma IntoBodyFrom(r: Machine, c: Byte, to: State)
    requires r.ending == Running && Coherent(r) && r.p.contentLength >= 0 && to == Destination(r.p, c) && InBody(to)
    ensures r.p.state in {HN, BD, CN, CB} && (to == CB <==> r.p.state in {CN, CB})
    ensures Enter(r.p, to).contentLength == r.p.contentLength && Enter(r.p, to).bodyConsumed == r.p.bodyConsumed
    ensures r.p.contentLength - r.p.bodyConsumed <= 0 <==> r.p.state == CN && r.p.contentLength == 0
    ensures r.p.state == CN ==> r.p.bodyConsumed == 0
  {
  }

  lemma AfterData(r: Machine, c: Byte)
    requires r.p.state == CD
    ensures var r' := HeadStep(r, c, Destination(r.p, c));
      (r'.ending == Failed <==> c != 13) && (c != 13 ==> r'.out == r.out + [Tok(Error, [])])
  {
    assert TypeOf(c) == CRET <==> c == 13;
  }

  // ----- runs -----

  /** Some byte of the input is a bad one where the machine then is. */
  ghost predicate SomeBad(trace: seq<Machine>, input: seq<Byte>)
    requires |trace| == |input| + 1
  {
    exists k :: 0 <= k < |input| && IsBad(trace[k], input[k])
  }

  /** An input is refused if and only if it has a bad byte; what follows it changes nothing. */
  lemma RefusesExactly(trace: seq<Machine>, input: seq<Byte>)
    requires IsTrace(trace, input) && NeverNegative(trace)
    ensures trace[|input|].ending == Failed <==> SomeBad(trace, input)
  {
    if SomeBad(trace, input) {
      var k :| 0 <= k < |input| && IsBad(trace[k], input[k]);
      BadEnds(trace, input, k);
    }
    if trace[|input|].ending == Failed {
      var k := FirstFailure(trace, input, |input|);
      assert IsBad(trace[k], input[k]);
    }
  }

  lemma StepAt(trace: seq<Machine>, input: seq<Byte>, k: nat)
    requires IsTrace(trace, input) && NeverNegative(trace) && k < |input|
    ensures trace[k].ending == Running ==> (trace[k + 1].ending == Failed <==> IsBad(trace[k], input[k]))
    ensures IsBad(trace[k], input[k]) ==>
              trace[k + 1].out in {trace[k].out + [Tok(Error, [])],
                                   trace[k].out + [Tok(ChunkBody, [])] + [Tok(Error, [])]}
  {
    CoherentByLengths(trace, input, k);
    assert Stepped(trace, input, k);
    if trace[k].ending == Running {
      StepFailsIff(trace[k], input[k]);
    }
  }

  /** From a bad byte on the machine stays as it is, with the error as its last token. */
  lemma BadEnds(trace: seq<Machine>, input: seq<Byte>, k: nat)
    requires IsTrace(trace, input) && NeverNegative(trace) && k < |input| && IsBad(trace[k], input[k])
    ensures trace[|input|] == trace[k + 1] && trace[k + 1].ending == Failed
    ensures trace[|input|].out in {trace[k].out + [Tok(Error, [])],
                                   trace[k].out + [Tok(ChunkBody, [])] + [Tok(Error, [])]}
  {
    StepAt(trace, input, k);
    Halted(trace, input, k + 1, |input| - k - 1);
  }

  lemma {:induction false} FirstFailure(trace: seq<Machine>, input: seq<Byte>, n: nat) returns (k: nat)
    requires IsTrace(trace, input) && NeverNegative(trace) && n <= |input| && trace[n].ending == Failed
    ensures k < n && IsBad(trace[k], input[k])
  {
    k := n - 1;
    StepAt(trace, input, k);
    if trace[k].ending != Running {
      assert Stepped(trace, input, k);
      k := FirstFailure(trace, input, k);
    }
  }
}
