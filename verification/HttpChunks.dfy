/** Chunked bodies, section 4.1 of RFC 7230 without trailers: what a list of chunks is parsed into. */
module HttpChunks {
  import opened HttpTables
  import opened HttpReference
  import opened HttpInvariants
  import opened HttpRefinement

  /** Between i and j the request goes on, within the limits. */
  predicate Smooth(trace: seq<Machine>, i: nat, j: nat) {
    && i <= j < |trace|
    && (forall t {:trigger trace[t]} :: i < t <= j ==> WithinLimits(trace[t]))
    && (forall t {:trigger trace[t]} :: i <= t < j ==> trace[t].ending == Running)
  }

  lemma HeadByte(trace: seq<Machine>, input: seq<Byte>, k: nat, to: State)
    requires IsTrace(trace, input) && k < |input| && trace[k].ending == Running && trace[k].p.state != BR
    requires to == Destination(trace[k].p, input[k]) && !InBody(to)
    ensures trace[k + 1] == HeadStep(trace[k], input[k], to)
  {
    assert Stepped(trace, input, k);
  }

  lemma SmoothOn(trace: seq<Machine>, i: nat, j: nat, k: nat)
    requires Smooth(trace, i, j) && Smooth(trace, j, k)
    ensures Smooth(trace, i, k)
  {
  }

  /** A whole request that the machine gets through within the limits is one the parser frames. */
  lemma SmoothIsClean(trace: seq<Machine>, input: seq<Byte>)
    requires IsTrace(trace, input) && Smooth(trace, 0, |input|)
    ensures CleanTrace(trace)
  {
    forall k | 0 <= k < |trace| ensures FramedAt(trace, k) && !LongToken(trace[k]) {
      if k == 0 {
        assert trace[0] == FRESH;
      }
    }
  }

  // ----- the grammar -----

  datatype Chunk = Chunk(size: seq<Byte>, extension: seq<Byte>, data: seq<Byte>)

  /** The number a run of hex digits continues before to. */
  function HexNumber(before: nat, digits: seq<Byte>): nat
    requires AllHex(digits)
    decreases |digits|
  {
    if digits == [] then before else HexNumber(before * 16 + HexValue(digits[0]), digits[1..])
  }

  predicate AllHex(digits: seq<Byte>) {
    forall i :: 0 <= i < |digits| ==> IsHex(digits[i])
  }

  /** Nothing, or a semicolon and characters the parser lets through. */
  predicate IsExtension(e: seq<Byte>) {
    e == [] || (e[0] == 59 && forall i :: 0 <= i < |e| ==> InExtension(e[i]))
  }

  predicate IsChunk(c: Chunk) {
    && c.size != [] && AllHex(c.size) && IsExtension(c.extension)
    && c.data != [] && HexNumber(0, c.size) == |c.data| <= MAX_REQUEST_BUF_SIZE
  }

  /** The chunk of size zero that ends the body. */
  datatype Last = Last(zeros: seq<Byte>, extension: seq<Byte>)

  predicate IsLast(l: Last) {
    l.zeros != [] && (forall i :: 0 <= i < |l.zeros| ==> l.zeros[i] == 48) && IsExtension(l.extension)
  }

  const CRLF: seq<Byte> := [13, 10]

  function Encode(c: Chunk): seq<Byte> {
    c.size + (c.extension + (CRLF + (c.data + CRLF)))
  }

  function EncodeAll(chunks: seq<Chunk>, last: Last): seq<Byte> {
    if chunks == [] then last.zeros + (last.extension + (CRLF + CRLF))
    else Encode(chunks[0]) + EncodeAll(chunks[1..], last)
  }

  // ----- a chunk's size line -----

  /** The machine between tokens. */
  function Between(s: State, m: Meta, size: int, headers: nat, pos: nat, out: seq<Tok>): Machine {
    Machine(Fields(s, m, size, 0, 0, headers), NoToken, [], pos, out, Running)
  }

  predicate Spells(input: seq<Byte>, k: nat, bytes: seq<Byte>) {
    k + |bytes| <= |input| && input[k..k + |bytes|] == bytes
  }

  lemma SpellsParts(input: seq<Byte>, k: nat, a: seq<Byte>, b: seq<Byte>)
    requires Spells(input, k, a + b)
    ensures Spells(input, k, a) && Spells(input, k + |a|, b)
  {
    assert input[k..k + |a|] == (a + b)[..|a|];
    assert input[k + |a|..k + |a| + |b|] == (a + b)[|a|..];
  }

  /** Where a chunk may begin: after the head, or after another chunk. */
  predicate AtChunk(r: Machine) {
    && r.ending == Running && (r.p.state == HN || r.p.state == C2) && r.p.meta == ZER && r.p.contentLength == 0
    && r.p.bodyConsumed == 0 && r.kind == NoToken && r.text == []
  }

  lemma SizeBeginsIn(r: Machine, c: Byte)
    requires AtChunk(r) && IsHex(c)
    ensures Destination(r.p, c) == CS && TypeOf(c) in {DIGIT, HEX}
  {
  }

  lemma SizeBegins(r: Machine, c: Byte)
    requires AtChunk(r) && IsHex(c)
    ensures HeadStep(r, c, CS)
              == Between(CS, if c == 48 then ZER else CSZ, HexValue(c), r.p.headerCount, r.pos + 1, r.out)
  {
    assert Enter(r.p, CS) == Fields(CS, ZER, 0, 0, 0, r.p.headerCount);
  }

  lemma SizeGoesOn(m: Meta, size: nat, headers: nat, pos: nat, out: seq<Tok>, c: Byte)
    requires IsHex(c) && (m == ZER || m == CSZ)
    ensures Destination(Between(CS, m, size, headers, pos, out).p, c) == CS
    ensures HeadStep(Between(CS, m, size, headers, pos, out), c, CS)
              == Between(CS, if c == 48 then m else CSZ, size * 16 + HexValue(c), headers, pos + 1, out)
  {
  }

  function Noticed(size: nat): Meta {
    if size == 0 then ZER else CSZ
  }

  lemma {:induction false} HexGrows(before: nat, digits: seq<Byte>)
    requires AllHex(digits)
    ensures before <= HexNumber(before, digits)
    decreases |digits|
  {
    if digits != [] {
      HexGrows(before * 16 + HexValue(digits[0]), digits[1..]);
    }
  }

  lemma SizeBeginsAt(trace: seq<Machine>, input: seq<Byte>, k: nat)
    requires IsTrace(trace, input) && k < |input| && IsHex(input[k]) && AtChunk(trace[k])
    ensures trace[k + 1] ==
              Between(CS, Noticed(HexValue(input[k])), HexValue(input[k]), trace[k].p.headerCount, trace[k].pos + 1,
                      trace[k].out)
    ensures Smooth(trace, k, k + 1)
  {
    SizeBeginsIn(trace[k], input[k]);
    SizeBegins(trace[k], input[k]);
    HeadByte(trace, input, k, CS);
  }

  lemma SizeGoesOnAt(trace: seq<Machine>, input: seq<Byte>, k: nat, size: nat, headers: nat, out: seq<Tok>)
    requires IsTrace(trace, input) && k < |input| && IsHex(input[k])
             && trace[k] == Between(CS, Noticed(size), size, headers, k, out)
             && size * 16 + HexValue(input[k]) <= MAX_REQUEST_BUF_SIZE
    ensures var n := size * 16 + HexValue(input[k]);
            trace[k + 1] == Between(CS, Noticed(n), n, headers, k + 1, out) && Smooth(trace, k, k + 1)
  {
    SizeGoesOn(Noticed(size), size, headers, k, out, input[k]);
    HeadByte(trace, input, k, CS);
  }

  /** The value grows with each digit, and the parser notices when it leaves zero. */
  lemma {:induction false} SizeDigits(trace: seq<Machine>, input: seq<Byte>, k: nat, size: nat, headers: nat,
      out: seq<Tok>, digits: seq<Byte>, n: nat, e: nat)
    requires IsTrace(trace, input) && Spells(input, k, digits) && AllHex(digits)
             && HexNumber(size, digits) == n <= MAX_REQUEST_BUF_SIZE && e == k + |digits|
    requires trace[k] == Between(CS, Noticed(size), size, headers, k, out)
    ensures trace[e] == Between(CS, Noticed(n), n, headers, e, out) && Smooth(trace, k, e)
    decreases |digits|
  {
    if digits != [] {
      FirstOf(input, k, digits);
      var next := size * 16 + HexValue(digits[0]);
      HexGrows(next, digits[1..]);
      SizeGoesOnAt(trace, input, k, size, headers, out);
      SizeDigits(trace, input, k + 1, next, headers, out, digits[1..], n, e);
      SmoothOn(trace, k, k + 1, e);
    }
  }

  lemma FirstOf(input: seq<Byte>, k: nat, bytes: seq<Byte>)
    requires Spells(input, k, bytes) && bytes != []
    ensures input[k] == bytes[0] && Spells(input, k + 1, bytes[1..])
  {
    assert bytes == [bytes[0]] + bytes[1..];
    SpellsParts(input, k, [bytes[0]], bytes[1..]);
    assert input[k] == input[k..k + |bytes|][0];
  }

  lemma HexFirst(digits: seq<Byte>)
    requires AllHex(digits) && digits != []
    ensures HexNumber(0, digits) == HexNumber(HexValue(digits[0]), digits[1..])
            && HexValue(digits[0]) <= HexNumber(0, digits)
  {
    HexGrows(HexValue(digits[0]), digits[1..]);
  }

  lemma Size(trace: seq<Machine>, input: seq<Byte>, k: nat, digits: seq<Byte>, headers: nat, out: seq<Tok>, first: nat,
      n: nat, e: nat)
    requires IsTrace(trace, input) && Spells(input, k, digits) && AllHex(digits) && digits != [] && e == k + |digits|
    requires first == HexValue(digits[0]) && HexNumber(first, digits[1..]) == n <= MAX_REQUEST_BUF_SIZE && first <= n
    requires AtChunk(trace[k]) && trace[k].pos == k && trace[k].p.headerCount == headers && trace[k].out == out
    ensures trace[e] == Between(CS, Noticed(n), n, headers, e, out) && Smooth(trace, k, e)
  {
    FirstOf(input, k, digits);
    SizeBeginsAt(trace, input, k);
    SizeDigits(trace, input, k + 1, first, headers, out, digits[1..], n, e);
    SmoothOn(trace, k, k + 1, e);
  }

  /** The framing state once the size is known. */
  function Sized(size: nat): Meta {
    if size == 0 then LST else CBD
  }

  lemma AfterSize(size: nat, headers: nat, pos: nat, out: seq<Tok>, c: Byte)
    requires c == 59 || c == 13
    ensures var to := if c == 59 then CE else CR;
            Destination(Between(CS, Noticed(size), size, headers, pos, out).p, c) == to
            && HeadStep(Between(CS, Noticed(size), size, headers, pos, out), c, to)
                 == Between(to, Sized(size), size, headers, pos + 1, out)
  {
  }

  lemma AfterSizeAt(trace: seq<Machine>, input: seq<Byte>, k: nat, size: nat, headers: nat, out: seq<Tok>)
    requires IsTrace(trace, input) && k < |input| && (input[k] == 59 || input[k] == 13)
             && trace[k] == Between(CS, Noticed(size), size, headers, k, out) && size <= MAX_REQUEST_BUF_SIZE
    ensures trace[k + 1] == Between(if input[k] == 59 then CE else CR, Sized(size), size, headers, k + 1, out)
            && Smooth(trace, k, k + 1)
  {
    AfterSize(size, headers, k, out, input[k]);
    HeadByte(trace, input, k, if input[k] == 59 then CE else CR);
  }

  predicate InExtension(c: Byte) {
    c == 9 || 33 <= c <= 126
  }

  lemma ExtensionGoesOn(m: Meta, size: nat, headers: nat, pos: nat, out: seq<Tok>, c: Byte)
    requires m == LST || m == CBD
    requires InExtension(c) || c == 13
    ensures var to := if c == 13 then CR else CE;
            Destination(Between(CE, m, size, headers, pos, out).p, c) == to
            && HeadStep(Between(CE, m, size, headers, pos, out), c, to) == Between(to, m, size, headers, pos + 1, out)
  {
  }

  lemma ExtensionGoesOnAt(trace: seq<Machine>, input: seq<Byte>, k: nat, m: Meta, size: nat, headers: nat,
      out: seq<Tok>)
    requires IsTrace(trace, input) && k < |input| && (InExtension(input[k]) || input[k] == 13)
             && trace[k] == Between(CE, m, size, headers, k, out) && size <= MAX_REQUEST_BUF_SIZE
             && (m == LST || m == CBD)
    ensures trace[k + 1] == Between(if input[k] == 13 then CR else CE, m, size, headers, k + 1, out)
            && Smooth(trace, k, k + 1)
  {
    ExtensionGoesOn(m, size, headers, k, out, input[k]);
    HeadByte(trace, input, k, if input[k] == 13 then CR else CE);
  }

  lemma LineFeed(m: Meta, size: nat, headers: nat, pos: nat, out: seq<Tok>)
    requires m == LST || m == CBD
    ensures Destination(Between(CR, m, size, headers, pos, out).p, 10) == CN
            && HeadStep(Between(CR, m, size, headers, pos, out), 10, CN) == Between(CN, m, size, headers, pos + 1, out)
  {
  }

  lemma LineFeedAt(trace: seq<Machine>, input: seq<Byte>, k: nat, m: Meta, size: nat, headers: nat, out: seq<Tok>)
    requires IsTrace(trace, input) && k < |input| && input[k] == 10 && trace[k] == Between(CR, m, size, headers, k, out)
             && size <= MAX_REQUEST_BUF_SIZE && (m == LST || m == CBD)
    ensures trace[k + 1] == Between(CN, m, size, headers, k + 1, out) && Smooth(trace, k, k + 1)
  {
    LineFeed(m, size, headers, k, out);
    HeadByte(trace, input, k, CN);
  }

  lemma {:induction false} Extension(trace: seq<Machine>, input: seq<Byte>, k: nat, m: Meta, size: nat, headers: nat,
      out: seq<Tok>, rest: seq<Byte>)
    requires IsTrace(trace, input) && Spells(input, k, rest) && (forall i :: 0 <= i < |rest| ==> InExtension(rest[i]))
             && (m == LST || m == CBD) && size <= MAX_REQUEST_BUF_SIZE
    requires trace[k] == Between(CE, m, size, headers, k, out)
    ensures trace[k + |rest|] == Between(CE, m, size, headers, k + |rest|, out) && Smooth(trace, k, k + |rest|)
    decreases |rest|
  {
    if rest != [] {
      FirstOf(input, k, rest);
      assert InExtension(rest[0]);
      ExtensionGoesOnAt(trace, input, k, m, size, headers, out);
      Extension(trace, input, k + 1, m, size, headers, out, rest[1..]);
      SmoothOn(trace, k, k + 1, k + |rest|);
    }
  }

  /** From the last digit of the size to its carriage return. */
  lemma SizeEnds(trace: seq<Machine>, input: seq<Byte>, k: nat, size: nat, headers: nat, out: seq<Tok>,
      extension: seq<Byte>, e: nat)
    requires IsTrace(trace, input) && Spells(input, k, extension) && IsExtension(extension)
             && size <= MAX_REQUEST_BUF_SIZE && e == k + |extension|
    requires trace[k] == Between(CS, Noticed(size), size, headers, k, out) && e < |input| && input[e] == 13
    ensures trace[e + 1] == Between(CR, Sized(size), size, headers, e + 1, out) && Smooth(trace, k, e + 1)
  {
    if extension == [] {
      AfterSizeAt(trace, input, k, size, headers, out);
    } else {
      FirstOf(input, k, extension);
      AfterSizeAt(trace, input, k, size, headers, out);
      Extension(trace, input, k + 1, Sized(size), size, headers, out, extension[1..]);
      ExtensionGoesOnAt(trace, input, e, Sized(size), size, headers, out);
      SmoothOn(trace, k, k + 1, e);
      SmoothOn(trace, k, e, e + 1);
    }
  }

  lemma TwoBytes(input: seq<Byte>, k: nat)
    requires Spells(input, k, CRLF)
    ensures k + 2 <= |input| && input[k] == 13 && input[k + 1] == 10
  {
    assert input[k] == input[k..k + 2][0] && input[k + 1] == input[k..k + 2][1];
  }

  /** A line feed after a carriage return at e. */
  predicate LineEnd(input: seq<Byte>, e: nat) {
    e + 2 <= |input| && input[e] == 13 && input[e + 1] == 10
  }

  lemma LineEnds(trace: seq<Machine>, input: seq<Byte>, k: nat, size: nat, headers: nat, out: seq<Tok>,
      extension: seq<Byte>, e: nat)
    requires IsTrace(trace, input) && Spells(input, k, extension) && IsExtension(extension)
             && size <= MAX_REQUEST_BUF_SIZE && e == k + |extension|
    requires trace[k] == Between(CS, Noticed(size), size, headers, k, out) && LineEnd(input, e)
    ensures trace[e + 2] == Between(CN, Sized(size), size, headers, e + 2, out) && Smooth(trace, k, e + 2)
  {
    SizeEnds(trace, input, k, size, headers, out, extension, e);
    LineFeedAt(trace, input, e + 1, Sized(size), size, headers, out);
    SmoothOn(trace, k, e + 1, e + 2);
  }

  /** A chunk's first line, or that of the last one. */
  lemma SizeLine(trace: seq<Machine>, input: seq<Byte>, k: nat, digits: seq<Byte>, extension: seq<Byte>, headers: nat,
      out: seq<Tok>, n: nat, a: nat, e: nat)
    requires IsTrace(trace, input) && Spells(input, k, digits) && a == k + |digits| && Spells(input, a, extension)
             && e == a + |extension| && LineEnd(input, e)
    requires AtChunk(trace[k]) && trace[k].pos == k && trace[k].p.headerCount == headers && trace[k].out == out
    requires AllHex(digits) && digits != [] && n == HexNumber(0, digits) <= MAX_REQUEST_BUF_SIZE
             && IsExtension(extension)
    ensures trace[e + 2] == Between(CN, Sized(n), n, headers, e + 2, out) && Smooth(trace, k, e + 2)
  {
    HexFirst(digits);
    Size(trace, input, k, digits, headers, out, HexValue(digits[0]), n, a);
    LineEnds(trace, input, a, n, headers, out, extension, e);
    SmoothOn(trace, k, a, e + 2);
  }

  // ----- a chunk's data -----

  lemma DataReturn(m: Meta, headers: nat, pos: nat, out: seq<Tok>)
    requires m == CBD || m == LST
    ensures Destination(Between(CD, m, 0, headers, pos, out).p, 13) == C1
            && HeadStep(Between(CD, m, 0, headers, pos, out), 13, C1) == Between(C1, m, 0, headers, pos + 1, out)
  {
  }

  lemma DataFeed(headers: nat, pos: nat, out: seq<Tok>)
    ensures Destination(Between(C1, CBD, 0, headers, pos, out).p, 10) == C2
            && HeadStep(Between(C1, CBD, 0, headers, pos, out), 10, C2) == Between(C2, ZER, 0, headers, pos + 1, out)
  {
  }

  lemma DataReturnAt(trace: seq<Machine>, input: seq<Byte>, k: nat, headers: nat, out: seq<Tok>)
    requires IsTrace(trace, input) && k < |input| && input[k] == 13 && trace[k] == Between(CD, CBD, 0, headers, k, out)
    ensures trace[k + 1] == Between(C1, CBD, 0, headers, k + 1, out) && Smooth(trace, k, k + 1)
  {
    DataReturn(CBD, headers, k, out);
    HeadByte(trace, input, k, C1);
  }

  lemma DataFeedAt(trace: seq<Machine>, input: seq<Byte>, k: nat, headers: nat, out: seq<Tok>)
    requires IsTrace(trace, input) && k < |input| && input[k] == 10 && trace[k] == Between(C1, CBD, 0, headers, k, out)
    ensures trace[k + 1] == Between(C2, ZER, 0, headers, k + 1, out) && Smooth(trace, k, k + 1)
  {
    DataFeed(headers, k, out);
    HeadByte(trace, input, k, C2);
  }

  function InData(size: nat, headers: nat, k: nat, out: seq<Tok>): Machine {
    Machine(Fields(CB, CBD, size, 0, 0, headers), ChunkBody, [], k, out, Running)
  }

  lemma DataBegins(size: nat, headers: nat, k: nat, out: seq<Tok>, c: Byte)
    requires size > 0
    ensures var r := Between(CN, CBD, size, headers, k, out);
            Destination(r.p, c) == CB && Coherent(r) && Left(r.p) == size
            && AtBody(r, CB) == InData(size, headers, k, out)
  {
  }

  lemma DataWhole(size: nat, headers: nat, k: nat, out: seq<Tok>, data: seq<Byte>)
    requires data != []
    ensures Wholly(InData(size, headers, k, out), data)
              == Between(CD, CBD, 0, headers, k + |data|, out + [Tok(ChunkBody, data)])
  {
    assert [] + data == data;
  }

  lemma DataPart(size: nat, headers: nat, k: nat, out: seq<Tok>, data: seq<Byte>)
    requires size <= MAX_REQUEST_BUF_SIZE
    ensures WithinLimits(Partly(InData(size, headers, k, out), data))
            && Partly(InData(size, headers, k, out), data).ending == Running
  {
  }

  lemma DataBytes(trace: seq<Machine>, input: seq<Byte>, k: nat, size: nat, headers: nat, out: seq<Tok>, t: nat)
    requires IsTrace(trace, input) && k + size <= |input| && trace[k] == Between(CN, CBD, size, headers, k, out)
             && 1 <= t <= size
    ensures trace[k + t] ==
              if t == size then Wholly(InData(size, headers, k, out), input[k..k + t])
              else Partly(InData(size, headers, k, out), input[k..k + t])
  {
    DataBegins(size, headers, k, out, input[k]);
    BodyBytes(trace, input, k, CB, t);
  }

  lemma DataAt(trace: seq<Machine>, input: seq<Byte>, k: nat, size: nat, headers: nat, out: seq<Tok>, t: nat)
    requires IsTrace(trace, input) && k + size <= |input| && trace[k] == Between(CN, CBD, size, headers, k, out)
             && 1 <= t < size <= MAX_REQUEST_BUF_SIZE
    ensures WithinLimits(trace[k + t]) && trace[k + t].ending == Running
  {
    DataBytes(trace, input, k, size, headers, out, t);
    DataPart(size, headers, k, out, input[k..k + t]);
  }

  lemma Data(trace: seq<Machine>, input: seq<Byte>, k: nat, size: nat, headers: nat, out: seq<Tok>, e: nat)
    requires IsTrace(trace, input) && e == k + size <= |input| && trace[k] == Between(CN, CBD, size, headers, k, out)
             && 1 <= size <= MAX_REQUEST_BUF_SIZE
    ensures trace[e] == Between(CD, CBD, 0, headers, e, out + [Tok(ChunkBody, input[k..e])]) && Smooth(trace, k, e)
  {
    DataBytes(trace, input, k, size, headers, out, size);
    DataWhole(size, headers, k, out, input[k..e]);
    forall t | k < t < e ensures WithinLimits(trace[t]) && trace[t].ending == Running {
      DataAt(trace, input, k, size, headers, out, t - k);
    }
  }

  // ----- whole chunks -----

  /** Where the parts of a chunk lie. */
  predicate Laid(input: seq<Byte>, k: nat, c: Chunk, a: nat, b: nat, d: nat) {
    && a == k + |c.size| && b == a + |c.extension| && d == b + 2 + |c.data| && d + 2 <= |input|
    && Spells(input, k, c.size) && Spells(input, a, c.extension) && LineEnd(input, b)
    && input[b + 2..d] == c.data && LineEnd(input, d)
  }

  lemma Layout(input: seq<Byte>, k: nat, c: Chunk, a: nat, b: nat, d: nat)
    requires Spells(input, k, Encode(c)) && a == k + |c.size| && b == a + |c.extension| && d == b + 2 + |c.data|
    ensures Laid(input, k, c, a, b, d)
  {
    SpellsParts(input, k, c.size, c.extension + (CRLF + (c.data + CRLF)));
    SpellsParts(input, a, c.extension, CRLF + (c.data + CRLF));
    SpellsParts(input, b, CRLF, c.data + CRLF);
    SpellsParts(input, b + 2, c.data, CRLF);
    TwoBytes(input, b);
    TwoBytes(input, d);
  }

  lemma ChunkSize(trace: seq<Machine>, input: seq<Byte>, k: nat, c: Chunk, headers: nat, out: seq<Tok>, a: nat, b: nat,
      d: nat)
    requires IsTrace(trace, input) && IsChunk(c) && Laid(input, k, c, a, b, d)
    requires AtChunk(trace[k]) && trace[k].pos == k && trace[k].p.headerCount == headers && trace[k].out == out
    ensures trace[b + 2] == Between(CN, CBD, |c.data|, headers, b + 2, out) && Smooth(trace, k, b + 2)
  {
    SizeLine(trace, input, k, c.size, c.extension, headers, out, |c.data|, a, b);
  }

  /** A chunk's bytes become one token holding its data, and the parser is ready for the next chunk. */
  lemma OneChunk(trace: seq<Machine>, input: seq<Byte>, k: nat, c: Chunk, headers: nat, out: seq<Tok>, e: nat)
    requires IsTrace(trace, input) && IsChunk(c) && Spells(input, k, Encode(c)) && e == k + |Encode(c)|
    requires AtChunk(trace[k]) && trace[k].pos == k && trace[k].p.headerCount == headers && trace[k].out == out
    ensures trace[e] == Between(C2, ZER, 0, headers, e, out + [Tok(ChunkBody, c.data)]) && Smooth(trace, k, e)
  {
    var a := k + |c.size|;
    var b := a + |c.extension|;
    var d := b + 2 + |c.data|;
    Layout(input, k, c, a, b, d);
    ChunkSize(trace, input, k, c, headers, out, a, b, d);
    Data(trace, input, b + 2, |c.data|, headers, out, d);
    DataReturnAt(trace, input, d, headers, out + [Tok(ChunkBody, c.data)]);
    DataFeedAt(trace, input, d + 1, headers, out + [Tok(ChunkBody, c.data)]);
    SmoothOn(trace, k, b + 2, d);
    SmoothOn(trace, k, d, d + 1);
    SmoothOn(trace, k, d + 1, d + 2);
  }

  // ----- the last chunk -----

  lemma {:induction false} ZerosAreZero(zeros: seq<Byte>)
    requires forall i :: 0 <= i < |zeros| ==> zeros[i] == 48
    ensures AllHex(zeros) && HexNumber(0, zeros) == 0
  {
    if zeros != [] {
      ZerosAreZero(zeros[1..]);
    }
  }

  /** The empty chunk's token comes out with the carriage return that follows its line. */
  lemma LastReturn(headers: nat, pos: nat, out: seq<Tok>)
    ensures Step(Between(CN, LST, 0, headers, pos, out), 13)
              == Between(C1, LST, 0, headers, pos + 1, out + [Tok(ChunkBody, [])])
  {
    var r := Between(CN, LST, 0, headers, pos, out);
    var q := Between(CD, LST, 0, headers, pos, out + [Tok(ChunkBody, [])]);
    LastCoherent(headers, pos, out);
    LastChunkStep(r, 13);
    AfterEmptyChunk(q, 13);
    DataReturn(LST, headers, pos, out + [Tok(ChunkBody, [])]);
  }

  lemma LastCoherent(headers: nat, pos: nat, out: seq<Tok>)
    ensures Coherent(Between(CN, LST, 0, headers, pos, out))
    ensures AfterLastChunk(Between(CN, LST, 0, headers, pos, out))
              == Between(CD, LST, 0, headers, pos, out + [Tok(ChunkBody, [])])
  {
  }

  lemma LastFeed(headers: nat, pos: nat, out: seq<Tok>)
    ensures var r := Between(C1, LST, 0, headers, pos, out);
            Destination(r.p, 10) == C2
            && HeadStep(r, 10, C2)
                 == Machine(Fields(C2, END, 0, 0, 0, headers), NoToken, [], pos + 1, out + [Tok(ReqEnd, [])], Finished)
  {
  }

  lemma LastReturnAt(trace: seq<Machine>, input: seq<Byte>, k: nat, headers: nat, out: seq<Tok>)
    requires IsTrace(trace, input) && k < |input| && input[k] == 13 && trace[k] == Between(CN, LST, 0, headers, k, out)
    ensures trace[k + 1] == Between(C1, LST, 0, headers, k + 1, out + [Tok(ChunkBody, [])]) && Smooth(trace, k, k + 1)
  {
    assert Stepped(trace, input, k);
    LastReturn(headers, k, out);
  }

  lemma LastFeedAt(trace: seq<Machine>, input: seq<Byte>, k: nat, headers: nat, out: seq<Tok>)
    requires IsTrace(trace, input) && k < |input| && input[k] == 10 && trace[k] == Between(C1, LST, 0, headers, k, out)
    ensures trace[k + 1].out == out + [Tok(ReqEnd, [])] && trace[k + 1].ending == Finished && Smooth(trace, k, k + 1)
  {
    LastFeed(headers, k, out);
    HeadByte(trace, input, k, C2);
  }

  lemma LastLayout(input: seq<Byte>, k: nat, l: Last, a: nat, b: nat)
    requires Spells(input, k, l.zeros + (l.extension + (CRLF + CRLF))) && a == k + |l.zeros| && b == a + |l.extension|
    ensures Spells(input, k, l.zeros) && Spells(input, a, l.extension) && LineEnd(input, b) && LineEnd(input, b + 2)
  {
    SpellsParts(input, k, l.zeros, l.extension + (CRLF + CRLF));
    SpellsParts(input, a, l.extension, CRLF + CRLF);
    SpellsParts(input, b, CRLF, CRLF);
    TwoBytes(input, b);
    TwoBytes(input, b + 2);
  }

  lemma LastChunkEnds(trace: seq<Machine>, input: seq<Byte>, k: nat, l: Last, headers: nat, out: seq<Tok>, e: nat)
    requires IsTrace(trace, input) && IsLast(l) && Spells(input, k, l.zeros + (l.extension + (CRLF + CRLF)))
             && e == k + |l.zeros| + |l.extension| + 4
    requires AtChunk(trace[k]) && trace[k].pos == k && trace[k].p.headerCount == headers && trace[k].out == out
    ensures trace[e].out == out + [Tok(ChunkBody, [])] + [Tok(ReqEnd, [])] && trace[e].ending == Finished
            && Smooth(trace, k, e)
  {
    LastLayout(input, k, l, e - 4 - |l.extension|, e - 4);
    ZerosAreZero(l.zeros);
    SizeLine(trace, input, k, l.zeros, l.extension, headers, out, 0, e - 4 - |l.extension|, e - 4);
    LastReturnAt(trace, input, e - 2, headers, out);
    LastFeedAt(trace, input, e - 1, headers, out + [Tok(ChunkBody, [])]);
    SmoothOn(trace, k, e - 2, e - 1);
    SmoothOn(trace, k, e - 1, e);
  }

  /** The tokens of a chunked body: each chunk's data, an empty chunk, the end of the request. */
  function BodyTokens(chunks: seq<Chunk>): seq<Tok> {
    if chunks == [] then [Tok(ChunkBody, [])] + [Tok(ReqEnd, [])]
    else [Tok(ChunkBody, chunks[0].data)] + BodyTokens(chunks[1..])
  }

  /** What is left of the input is chunks and the last chunk. */
  predicate Remaining(input: seq<Byte>, k: nat, chunks: seq<Chunk>, last: Last) {
    k <= |input| && input[k..] == EncodeAll(chunks, last)
  }

  lemma OneLess(input: seq<Byte>, k: nat, chunks: seq<Chunk>, last: Last, e: nat)
    requires chunks != [] && Remaining(input, k, chunks, last) && e == k + |Encode(chunks[0])|
    ensures Spells(input, k, Encode(chunks[0])) && Remaining(input, e, chunks[1..], last)
  {
    var first, rest := Encode(chunks[0]), EncodeAll(chunks[1..], last);
    assert input[k..] == first + rest;
    assert input[k..e] == input[k..][..|first|];
    assert input[e..] == input[k..][|first|..];
  }

  lemma ReadyAgain(headers: nat, pos: nat, out: seq<Tok>)
    ensures var r := Between(C2, ZER, 0, headers, pos, out);
            AtChunk(r) && r.pos == pos && r.p.headerCount == headers && r.out == out
  {
  }

  predicate AllChunks(chunks: seq<Chunk>) {
    forall i :: 0 <= i < |chunks| ==> IsChunk(chunks[i])
  }

  lemma FirstChunk(trace: seq<Machine>, input: seq<Byte>, k: nat, chunks: seq<Chunk>, last: Last, headers: nat,
      out: seq<Tok>, e: nat)
    requires IsTrace(trace, input) && chunks != [] && AllChunks(chunks) && Remaining(input, k, chunks, last)
             && e == k + |Encode(chunks[0])|
    requires AtChunk(trace[k]) && trace[k].pos == k && trace[k].p.headerCount == headers && trace[k].out == out
    ensures AllChunks(chunks[1..]) && Remaining(input, e, chunks[1..], last)
    ensures AtChunk(trace[e]) && trace[e].pos == e && trace[e].p.headerCount == headers
            && trace[e].out == out + [Tok(ChunkBody, chunks[0].data)]
    ensures Smooth(trace, k, e)
  {
    OneLess(input, k, chunks, last, e);
    OneChunk(trace, input, k, chunks[0], headers, out, e);
    ReadyAgain(headers, e, out + [Tok(ChunkBody, chunks[0].data)]);
  }

  lemma NoMoreChunks(trace: seq<Machine>, input: seq<Byte>, k: nat, last: Last, headers: nat, out: seq<Tok>)
    requires IsTrace(trace, input) && IsLast(last) && Remaining(input, k, [], last)
    requires AtChunk(trace[k]) && trace[k].pos == k && trace[k].p.headerCount == headers && trace[k].out == out
    ensures trace[|input|].out == out + BodyTokens([]) && Smooth(trace, k, |input|)
  {
    assert input[k..|input|] == input[k..];
    LastChunkEnds(trace, input, k, last, headers, out, |input|);
    assert out + [Tok(ChunkBody, [])] + [Tok(ReqEnd, [])] == out + BodyTokens([]);
  }

  lemma {:induction false} ChunkedBody(trace: seq<Machine>, input: seq<Byte>, k: nat, chunks: seq<Chunk>, last: Last,
      headers: nat, out: seq<Tok>)
    requires IsTrace(trace, input) && AllChunks(chunks) && IsLast(last)
    requires Remaining(input, k, chunks, last)
    requires AtChunk(trace[k]) && trace[k].pos == k && trace[k].p.headerCount == headers && trace[k].out == out
    ensures trace[|input|].out == out + BodyTokens(chunks) && Smooth(trace, k, |input|)
    decreases |chunks|
  {
    if chunks == [] {
      NoMoreChunks(trace, input, k, last, headers, out);
    } else {
      var e, out' := k + |Encode(chunks[0])|, out + [Tok(ChunkBody, chunks[0].data)];
      FirstChunk(trace, input, k, chunks, last, headers, out, e);
      ChunkedBody(trace, input, e, chunks[1..], last, headers, out');
      SmoothOn(trace, k, e, |input|);
      assert out' + BodyTokens(chunks[1..]) == out + BodyTokens(chunks);
    }
  }

  /** A head that leaves the parser waiting for the first chunk. */
  ghost predicate ChunkedHead(head: seq<Byte>) {
    && Clean(head) && AtChunk(Trace(head)[|head|])
  }

  lemma SameStart(trace: seq<Machine>, head: seq<Byte>, body: seq<Byte>, longer: seq<Machine>)
    requires IsTrace(trace, head) && CleanTrace(trace) && trace[|head|].ending == Running
             && IsTrace(longer, head + body)
    ensures longer[|head|] == trace[|head|] && Smooth(longer, 0, |head|)
  {
    forall t | 0 <= t <= |head| ensures longer[t] == trace[t] && WithinLimits(trace[t]) && trace[t].ending == Running {
      SameSoFar(longer, head + body, trace, head, t);
      assert FramedAt(trace, t);
      if trace[t].ending != Running {
        Halted(trace, head, t, |head| - t);
      }
    }
  }

  /** For every list of non-empty chunks the tokens after the head are exactly those chunks in order, then an empty
      one, then the end of the request. */
  lemma ChunkedRequest(head: seq<Byte>, chunks: seq<Chunk>, last: Last)
    requires ChunkedHead(head) && AllChunks(chunks) && IsLast(last)
    ensures var whole := head + EncodeAll(chunks, last);
            Clean(whole) && Tokens(whole) == Tokens(head) + BodyTokens(chunks)
  {
    var body := EncodeAll(chunks, last);
    var whole := head + body;
    var trace := Trace(whole);
    TraceIsTrace(head);
    TraceIsTrace(whole);
    SameStart(Trace(head), head, body, trace);
    TraceCoherent(Trace(head), head, |head|);
    assert whole[|head|..] == body;
    ChunkedBody(trace, whole, |head|, chunks, last, trace[|head|].p.headerCount, Tokens(head));
    SmoothOn(trace, 0, |head|, |whole|);
    SmoothIsClean(trace, whole);
  }
}
