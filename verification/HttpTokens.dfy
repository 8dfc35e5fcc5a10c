/** The tokens of a head, one at a time, on the byte-at-a-time machine. */
module HttpTokens {
  import opened HttpTables
  import opened HttpReference
  import opened HttpInvariants
  import opened HttpRefinement
  import opened HttpChunks
  import opened HttpGrammar

  /** The machine inside a token. */
  function InToken(s: State, m: Meta, length: int, at: nat, headers: nat, text: seq<Byte>, pos: nat,
      out: seq<Tok>): Machine {
    Machine(Fields(s, m, length, 0, at, headers), StartKind(s), text, pos, out, Running)
  }

  predicate IsTokenState(s: State) {
    s in {MT, TR, VN, HK, HV}
  }

  /** The framing state after a further byte of a token, how far the comparison is, and the declared length. */
  function Framed(s: State, m: Meta, at: nat, c: Byte): Meta {
    if s == HK then MatchKey(m, at, c)
    else if s == HV && m == MCK then Match(m, NOT_CHUNKED, CHUNKED, at, 0, c).0
    else m
  }

  function Compared(s: State, m: Meta, at: nat): nat {
    if s == HK || (s == HV && m == MCK) then at + 1 else at
  }

  function Longer(s: State, m: Meta, length: int, c: Byte): int {
    if s == HV && m == CLV then length * 10 + c - 48 else length
  }

  /** The framing states a token can be read in. */
  predicate Settable(s: State, m: Meta) {
    if s == HK then m in {WFK, ANY, MTE, MCL, SML, CHK}
    else if s == HV then m in {WFK, MCK, CLV, SML, CHK}
    else m == WFK
  }

  lemma TokenGoesOn(s: State, m: Meta, length: int, at: nat, headers: nat, text: seq<Byte>, pos: nat, out: seq<Tok>,
      c: Byte)
    requires IsTokenState(s) && Continues(s, c) && Settable(s, m) && Settable(s, Framed(s, m, at, c))
    ensures Destination(InToken(s, m, length, at, headers, text, pos, out).p, c) == s
    ensures HeadStep(InToken(s, m, length, at, headers, text, pos, out), c, s)
      == InToken(s, Framed(s, m, at, c), Longer(s, m, length, c), Compared(s, m, at), headers, text + [c], pos + 1, out)
  {
  }

  lemma StaysSettable(s: State, m: Meta, at: nat, c: Byte)
    requires IsTokenState(s) && Settable(s, m)
    ensures Settable(s, Framed(s, m, at, c))
  {
  }

  /** The framing state after all of a token's further bytes. */
  function FramedBy(s: State, m: Meta, at: nat, rest: seq<Byte>): Meta
    decreases |rest|
  {
    if rest == [] then m else FramedBy(s, Framed(s, m, at, rest[0]), Compared(s, m, at), rest[1..])
  }

  /** The place of the comparison, which the next state forgets. */
  function ComparedBy(s: State, m: Meta, at: nat, rest: seq<Byte>): nat
    decreases |rest|
  {
    if rest == [] then at else ComparedBy(s, Framed(s, m, at, rest[0]), Compared(s, m, at), rest[1..])
  }

  function LongerBy(s: State, m: Meta, length: int, rest: seq<Byte>): int {
    if s == HV && m == CLV then Number(length, rest) else length
  }

  predicate AllDigits(text: seq<Byte>) {
    forall i :: 0 <= i < |text| ==> 48 <= text[i] <= 57
  }

  /** The declared length stays within the limits while these bytes are read. */
  predicate Modest(s: State, m: Meta, length: int, rest: seq<Byte>) {
    && 0 <= length <= MAX_REQUEST_BUF_SIZE + 1
    && (s == HV && m == CLV ==> AllDigits(rest) && Number(length, rest) <= MAX_REQUEST_BUF_SIZE + 1)
  }

  lemma {:induction false} NumberGrows(before: nat, digits: seq<Byte>)
    requires AllDigits(digits)
    ensures before <= Number(before, digits)
    decreases |digits|
  {
    if digits != [] {
      RestDigits(digits);
      NumberGrows(before * 10 + digits[0] - 48, digits[1..]);
    }
  }

  lemma RestDigits(digits: seq<Byte>)
    requires AllDigits(digits) && digits != []
    ensures 48 <= digits[0] <= 57 && AllDigits(digits[1..])
  {
    assert forall i :: 0 <= i < |digits[1..]| ==> digits[1..][i] == digits[i + 1];
  }

  lemma ModestRest(s: State, m: Meta, at: nat, length: int, rest: seq<Byte>)
    requires rest != [] && Modest(s, m, length, rest) && Settable(s, m)
    ensures Modest(s, Framed(s, m, at, rest[0]), Longer(s, m, length, rest[0]), rest[1..])
  {
    if s == HV && m == CLV {
      RestDigits(rest);
      NumberGrows(Longer(s, m, length, rest[0]), rest[1..]);
    }
  }

  lemma LongerRest(s: State, m: Meta, at: nat, length: int, rest: seq<Byte>)
    requires rest != [] && Settable(s, m)
    ensures LongerBy(s, Framed(s, m, at, rest[0]), Longer(s, m, length, rest[0]), rest[1..])
      == LongerBy(s, m, length, rest)
  {
  }

  lemma {:induction false} TokenRun(trace: seq<Machine>, input: seq<Byte>, k: nat, s: State, m: Meta, length: int,
      at: nat, headers: nat, text: seq<Byte>, out: seq<Tok>, rest: seq<Byte>, m': Meta, length': int, at': nat,
      whole: seq<Byte>, e: nat, tame: bool)
    requires IsTrace(trace, input) && IsTokenState(s) && Settable(s, m) && Spells(input, k, rest)
             && AllContinue(s, rest)
    requires trace[k] == InToken(s, m, length, at, headers, text, k, out) && whole == text + rest && e == k + |rest|
    requires m' == FramedBy(s, m, at, rest) && at' == ComparedBy(s, m, at, rest)
             && length' == LongerBy(s, m, length, rest)
    requires tame ==> |whole| <= MAX_TOKEN_LENGTH && Modest(s, m, length, rest)
    ensures trace[e] == InToken(s, m', length', at', headers, whole, e, out) && Settable(s, m')
    ensures tame ==> Smooth(trace, k, e)
    decreases |rest|
  {
    if rest == [] {
      assert whole == text;
    } else {
      FirstOf(input, k, rest);
      RestContinues(s, rest);
      if tame {
        ModestRest(s, m, at, length, rest);
      }
      TokenByte(trace, input, k, s, m, length, at, headers, text, out, tame);
      StaysSettable(s, m, at, rest[0]);
      LongerRest(s, m, at, length, rest);
      assert text + [rest[0]] + rest[1..] == whole;
      TokenRun(trace, input, k + 1, s, Framed(s, m, at, rest[0]), Longer(s, m, length, rest[0]), Compared(s, m, at),
               headers, text + [rest[0]], out, rest[1..], m', length', at', whole, e, tame);
      if tame {
        SmoothOn(trace, k, k + 1, e);
      }
    }
  }

  lemma RestContinues(s: State, rest: seq<Byte>)
    requires AllContinue(s, rest) && rest != []
    ensures Continues(s, rest[0]) && AllContinue(s, rest[1..])
  {
    assert forall i :: 0 <= i < |rest[1..]| ==> rest[1..][i] == rest[i + 1];
  }

  lemma TokenByte(trace: seq<Machine>, input: seq<Byte>, k: nat, s: State, m: Meta, length: int, at: nat, headers: nat,
      text: seq<Byte>, out: seq<Tok>, tame: bool)
    requires IsTrace(trace, input) && k < |input| && IsTokenState(s) && Settable(s, m) && Continues(s, input[k])
    requires trace[k] == InToken(s, m, length, at, headers, text, k, out)
    requires tame ==> |text| < MAX_TOKEN_LENGTH && 0 <= Longer(s, m, length, input[k]) <= MAX_REQUEST_BUF_SIZE + 1
    ensures trace[k + 1] == InToken(s, Framed(s, m, at, input[k]), Longer(s, m, length, input[k]), Compared(s, m, at),
                                    headers, text + [input[k]], k + 1, out)
    ensures tame ==> Smooth(trace, k, k + 1)
  {
    StaysSettable(s, m, at, input[k]);
    TokenGoesOn(s, m, length, at, headers, text, k, out, input[k]);
    HeadByte(trace, input, k, s);
  }

  /** A first byte that begins a token from the state before it. */
  predicate Opens(from: State, s: State, c: Byte) {
    match s
    case MT => from == ST && InName(c) && !IsDecimal(c)
    case TR => from == MS && InVersion(c)
    case VN => from == TS && InVersion(c)
    case HK => (from == RN || from == HE) && InName(c)
    case HV => from == HS && InValue(c) && !IsBlank(c)
    case _ => false
  }

  function Counted(s: State, headers: nat): nat {
    if s == HK then headers + 1 else headers
  }

  lemma TokenOpens(from: State, s: State, m: Meta, length: int, headers: nat, pos: nat, out: seq<Tok>, c: Byte)
    requires Opens(from, s, c) && Settable(s, m) && Settable(s, Framed(s, m, 0, c))
             && Counted(s, headers) <= MAX_HEADER_COUNT
    ensures Destination(Between(from, m, length, headers, pos, out).p, c) == s
    ensures HeadStep(Between(from, m, length, headers, pos, out), c, s)
      == InToken(s, Framed(s, m, 0, c), Longer(s, m, length, c), Compared(s, m, 0), Counted(s, headers), [c], pos + 1,
                 out)
  {
    OpensTo(from, s, m, c);
    match s
    case HK =>
    case HV =>
    case _ =>
  }

  lemma OpensTo(from: State, s: State, m: Meta, c: Byte)
    requires Opens(from, s, c) && Settable(s, m)
    ensures Transition(from, TypeOf(c)) == s
  {
  }

  /** The state after a token, the byte that leads there, and what it tells the framing. */
  function After(s: State): State {
    match s
    case MT => MS
    case TR => TS
    case VN => RR
    case HK => HS
    case _ => HR
  }

  function Closer(s: State): Byte {
    match s
    case MT => 32
    case TR => 32
    case HK => 58
    case _ => 13
  }

  function Closed(s: State, m: Meta): Meta {
    if s == HK then MetaTransition(m, END_KEY) else if s == VN || s == HV then MetaTransition(m, END_VALUE) else m
  }

  lemma TokenCloses(s: State, m: Meta, length: int, at: nat, headers: nat, text: seq<Byte>, pos: nat, out: seq<Tok>)
    requires IsTokenState(s) && Settable(s, m)
    ensures Destination(InToken(s, m, length, at, headers, text, pos, out).p, Closer(s)) == After(s)
    ensures HeadStep(InToken(s, m, length, at, headers, text, pos, out), Closer(s), After(s))
      == Between(After(s), Closed(s, m), length, headers, pos + 1, out + [Tok(StartKind(s), text)])
  {
    if s == HK {
      NameCloses(m, length, at, headers, text, pos, out);
    } else if s == HV {
      ValueCloses(m, length, at, headers, text, pos, out);
    } else if s == VN {
      VersionCloses(length, at, headers, text, pos, out);
    }
  }

  lemma NameCloses(m: Meta, length: int, at: nat, headers: nat, text: seq<Byte>, pos: nat, out: seq<Tok>)
    requires Settable(HK, m)
    ensures Destination(InToken(HK, m, length, at, headers, text, pos, out).p, 58) == HS
    ensures HeadStep(InToken(HK, m, length, at, headers, text, pos, out), 58, HS)
      == Between(HS, Closed(HK, m), length, headers, pos + 1, out + [Tok(HeaderKey, text)])
  {
  }

  lemma ValueCloses(m: Meta, length: int, at: nat, headers: nat, text: seq<Byte>, pos: nat, out: seq<Tok>)
    requires Settable(HV, m)
    ensures Destination(InToken(HV, m, length, at, headers, text, pos, out).p, 13) == HR
    ensures HeadStep(InToken(HV, m, length, at, headers, text, pos, out), 13, HR)
      == Between(HR, Closed(HV, m), length, headers, pos + 1, out + [Tok(HeaderVal, text)])
  {
  }

  lemma VersionCloses(length: int, at: nat, headers: nat, text: seq<Byte>, pos: nat, out: seq<Tok>)
    ensures Destination(InToken(VN, WFK, length, at, headers, text, pos, out).p, 13) == RR
    ensures HeadStep(InToken(VN, WFK, length, at, headers, text, pos, out), 13, RR)
      == Between(RR, ANY, length, headers, pos + 1, out + [Tok(Version, text)])
  {
  }

  /** What a token's bytes make of the framing state and the declared length. */
  ghost predicate Makes(s: State, m: Meta, length: int, text: seq<Byte>, m': Meta, length': int) {
    m' == FramedBy(s, m, 0, text) && length' == LongerBy(s, m, length, text)
  }

  predicate IsTame(s: State, m: Meta, length: int, text: seq<Byte>) {
    |text| <= MAX_TOKEN_LENGTH && Modest(s, m, length, text)
  }

  /** A whole token, with the byte after it. */
  lemma WholeToken(trace: seq<Machine>, input: seq<Byte>, k: nat, from: State, s: State, m: Meta, length: int,
      headers: nat, out: seq<Tok>, text: seq<Byte>, m': Meta, length': int, n: nat, e: nat, tame: bool)
    requires IsTrace(trace, input) && IsTokenState(s) && IsToken(s, text) && Spells(input, k, text)
    requires e == k + |text| < |input| && input[e] == Closer(s)
    requires Opens(from, s, text[0]) && Settable(s, m) && Counted(s, headers) == n <= MAX_HEADER_COUNT
    requires trace[k] == Between(from, m, length, headers, k, out) && Makes(s, m, length, text, m', length')
    requires tame ==> IsTame(s, m, length, text)
    ensures trace[e + 1] == Between(After(s), Closed(s, m'), length', n, e + 1, out + [Tok(StartKind(s), text)])
    ensures tame ==> Smooth(trace, k, e + 1)
  {
    var at := ComparedBy(s, m, 0, text);
    OpenToken(trace, input, k, from, s, m, length, headers, out, text, m', length', at, n, e, tame);
    CloseToken(trace, input, e, s, m', length', at, n, text, out, tame);
    if tame {
      SmoothOn(trace, k, e, e + 1);
    }
  }

  lemma OpenToken(trace: seq<Machine>, input: seq<Byte>, k: nat, from: State, s: State, m: Meta, length: int,
      headers: nat, out: seq<Tok>, text: seq<Byte>, m': Meta, length': int, at': nat, n: nat, e: nat, tame: bool)
    requires IsTrace(trace, input) && IsTokenState(s) && IsToken(s, text) && Spells(input, k, text) && e == k + |text|
    requires Opens(from, s, text[0]) && Settable(s, m) && Counted(s, headers) == n <= MAX_HEADER_COUNT
    requires trace[k] == Between(from, m, length, headers, k, out) && Makes(s, m, length, text, m', length')
             && at' == ComparedBy(s, m, 0, text)
    requires tame ==> IsTame(s, m, length, text)
    ensures trace[e] == InToken(s, m', length', at', n, text, e, out) && Settable(s, m')
    ensures tame ==> Smooth(trace, k, e) && 0 <= length' <= MAX_REQUEST_BUF_SIZE + 1
  {
    FirstOf(input, k, text);
    if tame {
      ModestRest(s, m, 0, length, text);
    }
    FirstByte(trace, input, k, from, s, m, length, headers, out, text[0], tame);
    LongerRest(s, m, 0, length, text);
    FurtherBytes(trace, input, k + 1, s, Framed(s, m, 0, text[0]), Longer(s, m, length, text[0]), Compared(s, m, 0), n,
                 out, text, m', length', at', e, tame);
    if tame {
      SmoothOn(trace, k, k + 1, e);
      Ends(s, m, length, text);
    }
  }

  lemma Ends(s: State, m: Meta, length: int, text: seq<Byte>)
    requires Modest(s, m, length, text)
    ensures 0 <= LongerBy(s, m, length, text) <= MAX_REQUEST_BUF_SIZE + 1
  {
    if s == HV && m == CLV {
      NumberGrows(length, text);
    }
  }

  lemma FurtherBytes(trace: seq<Machine>, input: seq<Byte>, k: nat, s: State, m: Meta, length: int, at: nat, n: nat,
      out: seq<Tok>, text: seq<Byte>, m': Meta, length': int, at': nat, e: nat, tame: bool)
    requires IsTrace(trace, input) && IsTokenState(s) && IsToken(s, text) && Spells(input, k, text[1..])
             && e + 1 == k + |text|
    requires Settable(s, m) && trace[k] == InToken(s, m, length, at, n, [text[0]], k, out)
    requires m' == FramedBy(s, m, at, text[1..]) && at' == ComparedBy(s, m, at, text[1..])
             && length' == LongerBy(s, m, length, text[1..])
    requires tame ==> |text| <= MAX_TOKEN_LENGTH && Modest(s, m, length, text[1..])
    ensures trace[e] == InToken(s, m', length', at', n, text, e, out) && Settable(s, m')
    ensures tame ==> Smooth(trace, k, e)
  {
    RestContinues(s, text);
    assert [text[0]] + text[1..] == text;
    TokenRun(trace, input, k, s, m, length, at, n, [text[0]], out, text[1..], m', length', at', text, e, tame);
  }

  lemma FirstByte(trace: seq<Machine>, input: seq<Byte>, k: nat, from: State, s: State, m: Meta, length: int,
      headers: nat, out: seq<Tok>, c: Byte, tame: bool)
    requires IsTrace(trace, input) && k < |input| && input[k] == c && IsTokenState(s)
    requires Opens(from, s, c) && Settable(s, m) && Counted(s, headers) <= MAX_HEADER_COUNT
    requires trace[k] == Between(from, m, length, headers, k, out)
    requires tame ==> 0 <= Longer(s, m, length, c) <= MAX_REQUEST_BUF_SIZE + 1
    ensures trace[k + 1] == InToken(s, Framed(s, m, 0, c), Longer(s, m, length, c), Compared(s, m, 0),
                                    Counted(s, headers), [c], k + 1, out)
    ensures Settable(s, Framed(s, m, 0, c)) && (tame ==> Smooth(trace, k, k + 1))
  {
    StaysSettable(s, m, 0, c);
    TokenOpens(from, s, m, length, headers, k, out, c);
    HeadByte(trace, input, k, s);
  }

  lemma CloseToken(trace: seq<Machine>, input: seq<Byte>, e: nat, s: State, m: Meta, length: int, at: nat, headers: nat,
      text: seq<Byte>, out: seq<Tok>, tame: bool)
    requires IsTrace(trace, input) && e < |input| && input[e] == Closer(s) && IsTokenState(s) && Settable(s, m)
    requires trace[e] == InToken(s, m, length, at, headers, text, e, out)
    requires tame ==> 0 <= length <= MAX_REQUEST_BUF_SIZE + 1
    ensures trace[e + 1] == Between(After(s), Closed(s, m), length, headers, e + 1, out + [Tok(StartKind(s), text)])
    ensures tame ==> Smooth(trace, e, e + 1)
  {
    TokenCloses(s, m, length, at, headers, text, e, out);
    HeadByte(trace, input, e, After(s));
  }

  // ----- what the framing makes of a name and a value -----

  lemma KeyByteMatches(at: nat, c: Byte, m: Meta)
    requires InName(c) && m in {MTE, MCL, WFK}
    ensures MatchKey(m, at, c) ==
      if m == MTE && at < |TRANSFER_ENCODING| && Lower(c) == TRANSFER_ENCODING[at] then MTE
      else if m == MCL && at < |CONTENT_LENGTHING| && Lower(c) == CONTENT_LENGTHING[at] then MCL
      else WFK
  {
    assert |CONTENT_LENGTHING| == 17 && Lower(c) != 0;
    assert at < 14 ==> CONTENT_LENGTHING[at] == CONTENT_LENGTH[at];
    assert 14 <= at < 17 ==> CONTENT_LENGTHING[at] == TRANSFER_ENCODING[14..][at - 14];
  }

  lemma KeyStep(name: seq<Byte>, i: nat)
    requires 0 < i < |name| && InName(name[i])
    ensures KeyOutcome(name[..i + 1]) == MatchKey(KeyOutcome(name[..i]), i, name[i])
  {
    KeyByteMatches(i, name[i], KeyOutcome(name[..i]));
    BeginsOn(name, i, TRANSFER_ENCODING);
    BeginsOn(name, i, CONTENT_LENGTHING);
    NotBoth(name[..i]);
  }

  lemma BeginsOn(name: seq<Byte>, i: nat, pattern: seq<Byte>)
    requires i < |name|
    ensures Begins(name[..i + 1], pattern) <==>
              Begins(name[..i], pattern) && i < |pattern| && Lower(name[i]) == pattern[i]
  {
    assert forall j :: 0 <= j < i ==> name[..i][j] == name[..i + 1][j] == name[j];
    assert name[..i + 1][i] == name[i];
  }

  lemma NotBoth(name: seq<Byte>)
    requires name != []
    ensures !(Begins(name, TRANSFER_ENCODING) && Begins(name, CONTENT_LENGTHING))
  {
    assert TRANSFER_ENCODING[0] == 116 && CONTENT_LENGTHING[0] == 99;
  }

  lemma KeyFirst(c: Byte)
    requires InName(c)
    ensures KeyOutcome([c]) == MatchKey(ANY, 0, c)
  {
    assert TRANSFER_ENCODING[0] == 116 && CONTENT_LENGTHING[0] == 99;
    assert Begins([c], TRANSFER_ENCODING) <==> Lower(c) == 116;
    assert Begins([c], CONTENT_LENGTHING) <==> Lower(c) == 99;
  }

  lemma {:induction false} KeyRun(name: seq<Byte>, i: nat)
    requires 0 < i <= |name| && AllContinue(HK, name)
    ensures FramedBy(HK, KeyOutcome(name[..i]), i, name[i..]) == KeyOutcome(name)
    decreases |name| - i
  {
    if i == |name| {
      assert name[..i] == name;
    } else {
      assert Continues(HK, name[i]) && name[i..][0] == name[i] && name[i..][1..] == name[i + 1..];
      KeyStep(name, i);
      KeyRun(name, i + 1);
    }
  }

  lemma KeyFrames(name: seq<Byte>)
    requires IsToken(HK, name)
    ensures FramedBy(HK, ANY, 0, name) == KeyOutcome(name)
  {
    assert Continues(HK, name[0]) && name[..1] == [name[0]];
    KeyFirst(name[0]);
    KeyRun(name, 1);
  }

  /** What is settled stays, whatever the token. */
  lemma {:induction false} Settled(s: State, m: Meta, at: nat, rest: seq<Byte>)
    requires (s == HK && m in {SML, CHK}) || (s == HV && m in {WFK, CLV, SML, CHK}) || (s in {MT, TR, VN} && m == WFK)
    ensures FramedBy(s, m, at, rest) == m
    decreases |rest|
  {
    if rest != [] {
      assert Framed(s, m, at, rest[0]) == m;
      Settled(s, m, Compared(s, m, at), rest[1..]);
    }
  }

  lemma NameFrames(f: Framing, name: seq<Byte>)
    requires IsToken(HK, name) && IsFraming(f)
    ensures Closed(HK, FramedBy(HK, f.m, 0, name)) == Named(f.m, name)
  {
    if f.m == ANY {
      KeyFrames(name);
    } else {
      Settled(HK, f.m, 0, name);
    }
  }

  lemma {:induction false} ChunkedRun(value: seq<Byte>, i: nat)
    requires i <= |value| && AllContinue(HV, value) && Begins(value[..i], CHUNKED)
    ensures FramedBy(HV, MCK, i, value[i..]) == if Begins(value, CHUNKED) then MCK else WFK
    decreases |value| - i
  {
    if i == |value| {
      assert value[..i] == value;
    } else {
      assert Continues(HV, value[i]) && value[i..][0] == value[i] && value[i..][1..] == value[i + 1..];
      BeginsOn(value, i, CHUNKED);
      if Begins(value[..i + 1], CHUNKED) {
        ChunkedRun(value, i + 1);
      } else {
        NotBegun(value, i + 1);
        Settled(HV, WFK, i + 1, value[i + 1..]);
      }
    }
  }

  lemma NotBegun(value: seq<Byte>, i: nat)
    requires i <= |value| && !Begins(value[..i], CHUNKED)
    ensures !Begins(value, CHUNKED)
  {
  }

  /** What a value makes of the framing that its name has led to. */
  lemma ValueFrames(f: Framing, p: Pair)
    requires IsToken(HV, p.value) && IsFraming(f)
    ensures var m := Named(f.m, p.name);
      FramedOne(f, p) == Framing(Closed(HV, FramedBy(HV, m, 0, p.value)), LongerBy(HV, m, f.length, p.value))
  {
    var m := Named(f.m, p.name);
    if m == MCK {
      assert p.value[..0] == [] && p.value[0..] == p.value;
      ChunkedRun(p.value, 0);
    } else {
      Settled(HV, m, 0, p.value);
    }
  }
}
