/** Punycode: the decoding procedure of section 6.2 of RFC 3492, the encoder of idna.c as a function, and the round
    trip. */
module Punycode {
  import opened Options
  import opened Utf8

  // ----- RFC 3492 -----

  /** Section 6.2: the threshold for the digit at k. */
  function Threshold(k: nat, bias: nat): (t: nat)
    ensures 1 <= t <= 26
  {
    if k <= bias then 1 else if k >= bias + 26 then 26 else k - bias
  }

  /** Section 6.1. */
  function Adapt(delta: nat, points: nat, first: bool): nat
    requires points > 0
  {
    var d := if first then delta / 700 else delta / 2;
    Settle(d + d / points, 0)
  }

  function Settle(delta: nat, k: nat): nat {
    if delta > 455 then Settle(delta / 35, k + 36) else k + 36 * delta / (delta + 38)
  }

  /** Section 5: a to z, in either case, are 0 to 25, and 0 to 9 are 26 to 35. */
  function DigitValue(c: Byte): int {
    if 97 <= c <= 122 then c - 97 else if 65 <= c <= 90 then c - 65 else if 48 <= c <= 57 then c - 22 else -1
  }

  /** One generalized variable-length integer: the loop of section 6.2, with what is left of the input. */
  function ReadInt(digits: seq<Byte>, k: nat, bias: nat, i: nat, w: nat): (r: Option<(nat, seq<Byte>)>)
    ensures r.Some? ==> |r.value.1| < |digits|
    decreases |digits|
  {
    if digits == [] || DigitValue(digits[0]) < 0 then None
    else
      var d := DigitValue(digits[0]);
      var t := Threshold(k, bias);
      if d < t then Some((i + d * w, digits[1..])) else ReadInt(digits[1..], k + 36, bias, i + d * w, w * (36 - t))
  }

  datatype Decoder = Decoder(n: nat, i: nat, bias: nat, out: seq<int>)

  /** What the decoder does with the integer it has read, old i included. */
  function Insert(st: Decoder, i: nat): Decoder
    requires st.i <= i
  {
    var len := |st.out| + 1;
    var at := i % len;
    Decoder(st.n + i / len, at + 1, Adapt(i - st.i, len, st.i == 0), st.out[..at] + [st.n + i / len] + st.out[at..])
  }

  lemma {:induction false} ReadGrows(digits: seq<Byte>, k: nat, bias: nat, i: nat, w: nat)
    ensures ReadInt(digits, k, bias, i, w).Some? ==> ReadInt(digits, k, bias, i, w).value.0 >= i
    decreases |digits|
  {
    if digits != [] && DigitValue(digits[0]) >= Threshold(k, bias) {
      ReadGrows(digits[1..], k + 36, bias, i + DigitValue(digits[0]) * w, w * (36 - Threshold(k, bias)));
    }
  }

  function DecodeFrom(st: Decoder, digits: seq<Byte>): Option<seq<int>>
    decreases |digits|
  {
    if digits == [] then Some(st.out)
    else
      var r := ReadInt(digits, 36, st.bias, st.i, 1);
      ReadGrows(digits, 36, st.bias, st.i, 1);
      if r.None? then None else DecodeFrom(Insert(st, r.value.0), r.value.1)
  }

  /** One past the last delimiter's index, or 0. */
  function AfterDelimiter(input: seq<Byte>): (b: nat)
    ensures b <= |input|
  {
    if input == [] then 0 else if input[|input| - 1] == 45 then |input| else AfterDelimiter(input[..|input| - 1])
  }

  /** Section 6.2: what comes before the last delimiter is copied, if there is anything before it. */
  function Decode(input: seq<Byte>): Option<seq<int>> {
    var b := AfterDelimiter(input);
    if b <= 1 then DecodeFrom(Decoder(128, 0, 72, []), input)
    else if exists i :: 0 <= i < b - 1 && input[i] >= 128 then None
    else DecodeFrom(Decoder(128, 0, 72, input[..b - 1]), input[b..])
  }

  // ----- the encoder -----

  function Alphabet(d: nat): (c: Byte)
    requires d < 36
    ensures DigitValue(c) == d && c != 45
  {
    if d < 26 then 97 + d else 22 + d
  }

  lemma Quotient(q: nat, t: nat)
    requires 1 <= t <= 26 && t <= q
    ensures (q - t) / (36 - t) < q && t + (q - t) % (36 - t) < 36
            && t + (q - t) % (36 - t) + (q - t) / (36 - t) * (36 - t) == q
  {
  }

  /** The digits of q from position k on. */
  function WriteInt(q: nat, k: nat, bias: nat): (digits: seq<Byte>)
    ensures digits != []
    decreases q
  {
    var t := Threshold(k, bias);
    if q < t then [Alphabet(q)]
    else
      Quotient(q, t);
      [Alphabet(t + (q - t) % (36 - t))] + WriteInt((q - t) / (36 - t), k + 36, bias)
  }

  lemma ReadStep(digits: seq<Byte>, k: nat, bias: nat, i: nat, w: nat, d: nat, i': nat, w': nat)
    requires digits != [] && DigitValue(digits[0]) == d >= Threshold(k, bias) && i' == i + d * w
             && w' == w * (36 - Threshold(k, bias))
    ensures ReadInt(digits, k, bias, i, w) == ReadInt(digits[1..], k + 36, bias, i', w')
  {
  }

  lemma ReadLast(digits: seq<Byte>, k: nat, bias: nat, i: nat, w: nat, d: nat, rest: seq<Byte>)
    requires d < Threshold(k, bias) && digits == [Alphabet(d)] + rest
    ensures ReadInt(digits, k, bias, i, w) == Some((i + d * w, rest))
  {
    assert digits[0] == Alphabet(d) && digits[1..] == rest;
  }

  lemma WriteLast(q: nat, k: nat, bias: nat)
    requires q < Threshold(k, bias)
    ensures WriteInt(q, k, bias) == [Alphabet(q)]
  {
  }

  lemma WriteStep(q: nat, k: nat, bias: nat, d: nat, more: nat)
    requires q >= Threshold(k, bias) && d == Threshold(k, bias) + (q - Threshold(k, bias)) % (36 - Threshold(k, bias))
             && more == (q - Threshold(k, bias)) / (36 - Threshold(k, bias))
    ensures d < 36 && more < q && WriteInt(q, k, bias) == [Alphabet(d)] + WriteInt(more, k + 36, bias)
  {
    Quotient(q, Threshold(k, bias));
  }

  lemma Weighed(i: nat, q: nat, y: nat, w: nat, d: nat, more: nat)
    requires d + more * y == q
    ensures i + d * w + more * (w * y) == i + q * w
  {
    assert more * (w * y) == more * y * w;
    assert d * w + more * y * w == (d + more * y) * w;
  }

  /** The first digit read; the rest by induction. */
  lemma ReadsOn(k: nat, bias: nat, i: nat, w: nat, written: seq<Byte>, tail: seq<Byte>, rest: seq<Byte>, d: nat,
      i': nat, w': nat, r: Option<(nat, seq<Byte>)>)
    requires Threshold(k, bias) <= d < 36 && written == [Alphabet(d)] + tail && i' == i + d * w
             && w' == w * (36 - Threshold(k, bias))
    requires ReadInt(tail + rest, k + 36, bias, i', w') == r
    ensures ReadInt(written + rest, k, bias, i, w) == r
  {
    assert (written + rest)[0] == Alphabet(d) && (written + rest)[1..] == tail + rest;
    ReadStep(written + rest, k, bias, i, w, d, i', w');
  }

  lemma Split(q: nat, k: nat, bias: nat) returns (d: nat, more: nat)
    requires q >= Threshold(k, bias)
    ensures Threshold(k, bias) <= d < 36 && more < q
            && WriteInt(q, k, bias) == [Alphabet(d)] + WriteInt(more, k + 36, bias)
            && d + more * (36 - Threshold(k, bias)) == q
  {
    var t := Threshold(k, bias);
    d, more := t + (q - t) % (36 - t), (q - t) / (36 - t);
    Quotient(q, t);
    WriteStep(q, k, bias, d, more);
  }

  /** A written integer reads back, whatever follows it. */
  lemma {:induction false} ReadsBack(q: nat, k: nat, bias: nat, i: nat, w: nat, written: seq<Byte>, rest: seq<Byte>)
    requires written == WriteInt(q, k, bias)
    ensures ReadInt(written + rest, k, bias, i, w) == Some((i + q * w, rest))
    decreases q
  {
    if q < Threshold(k, bias) {
      WriteLast(q, k, bias);
      ReadLast(written + rest, k, bias, i, w, q, rest);
    } else {
      var d, more := Split(q, k, bias);
      var tail, i', w' := WriteInt(more, k + 36, bias), i + d * w, w * (36 - Threshold(k, bias));
      ReadsBack(more, k + 36, bias, i', w', tail, rest);
      Weighed(i, q, 36 - Threshold(k, bias), w, d, more);
      ReadsOn(k, bias, i, w, written, tail, rest, d, i', w', Some((i + q * w, rest)));
    }
  }

  /** The encoder's variables: h code points are out, of which the last round's below n. */
  datatype Encoder = Encoder(n: nat, delta: nat, h: nat, bias: nat, first: bool)

  /** One pass over the label for the code point n. */
  function Pass(cs: seq<int>, j: nat, st: Encoder): (r: (Encoder, seq<Byte>))
    requires j <= |cs|
    ensures r.0.n == st.n
    decreases |cs| - j
  {
    if j == |cs| then (st, [])
    else if cs[j] < st.n then Pass(cs, j + 1, st.(delta := st.delta + 1))
    else if cs[j] > st.n then Pass(cs, j + 1, st)
    else
      var (end, more) := Pass(cs, j + 1, Emitted(st));
      (end, WriteInt(st.delta, 36, st.bias) + more)
  }

  /** After a code point has been written. */
  function Emitted(st: Encoder): Encoder {
    Encoder(st.n, 0, st.h + 1, Adapt(st.delta, st.h + 1, st.first), false)
  }

  /** The least code point from n on, or -1. */
  function NextPoint(cs: seq<int>, n: nat): (m: int)
    ensures m == -1 <==> forall i :: 0 <= i < |cs| ==> cs[i] < n
    ensures m != -1 ==> m >= n && m in cs && forall i :: 0 <= i < |cs| && cs[i] >= n ==> m <= cs[i]
  {
    if cs == [] then -1
    else
      var m := NextPoint(cs[1..], n);
      assert forall i :: 0 <= i < |cs| ==> i == 0 || cs[i] == cs[1..][i - 1];
      if cs[0] >= n && (m == -1 || cs[0] < m) then cs[0] else m
  }

  /** Skipping to the next code point. */
  function Skipped(st: Encoder, m: nat): Encoder
    requires m >= st.n
  {
    st.(delta := st.delta + (m - st.n) * (st.h + 1), n := m)
  }

  /** The digits of all passes. */
  function Rounds(cs: seq<int>, st: Encoder): seq<Byte>
    requires forall i :: 0 <= i < |cs| ==> cs[i] < 0x110000
    decreases 0x110000 - st.n, 1
  {
    var m := NextPoint(cs, st.n);
    if m == -1 then [] else RoundsAfter(cs, m, Pass(cs, 0, Skipped(st, m)))
  }

  /** The digits of one pass and of those after it. */
  function RoundsAfter(cs: seq<int>, m: nat, pass: (Encoder, seq<Byte>)): seq<Byte>
    requires m < 0x110000 && forall i :: 0 <= i < |cs| ==> cs[i] < 0x110000
    decreases 0x110000 - m, 0
  {
    pass.1 + Rounds(cs, pass.0.(delta := pass.0.delta + 1, n := m + 1))
  }

  /** The code points below b, in order. */
  function Below(cs: seq<int>, b: int): seq<int> {
    if cs == [] then [] else (if cs[0] < b then [cs[0]] else []) + Below(cs[1..], b)
  }

  /** The label's basic code points. */
  function Basic(cs: seq<int>): seq<Byte>
    requires Scalars(cs)
  {
    if cs == [] then [] else (if cs[0] < 128 then [cs[0]] else []) + Basic(cs[1..])
  }

  /** The basic code points, the delimiter when there are any, and the digits. */
  function Encoded(cs: seq<int>): seq<Byte>
    requires Scalars(cs)
  {
    Basic(cs) + (if Basic(cs) != [] then [45] else []) + Rounds(cs, Encoder(128, 0, |Basic(cs)|, 72, true))
  }

  lemma {:induction false} BasicIsBelow(cs: seq<int>)
    requires Scalars(cs)
    ensures Basic(cs) == Below(cs, 128) && forall i :: 0 <= i < |Basic(cs)| ==> Basic(cs)[i] < 128
  {
    if cs != [] {
      BasicIsBelow(cs[1..]);
    }
  }

  // ----- filters -----

  lemma {:induction false} BelowConcat(a: seq<int>, b: seq<int>, n: int)
    ensures Below(a + b, n) == Below(a, n) + Below(b, n)
  {
    if a == [] {
      assert a + b == b;
    } else {
      assert (a + b)[0] == a[0] && (a + b)[1..] == a[1..] + b;
      BelowConcat(a[1..], b, n);
    }
  }

  /** Nothing lies in [n, m): the filters agree. */
  lemma {:induction false} BelowGap(cs: seq<int>, n: int, m: int)
    requires n <= m && forall i :: 0 <= i < |cs| ==> cs[i] < n || cs[i] >= m
    ensures Below(cs, n) == Below(cs, m)
  {
    if cs != [] {
      assert forall i :: 0 <= i < |cs[1..]| ==> cs[1..][i] == cs[i + 1];
      BelowGap(cs[1..], n, m);
    }
  }

  lemma {:induction false} BelowAll(cs: seq<int>, n: int)
    requires forall i :: 0 <= i < |cs| ==> cs[i] < n
    ensures Below(cs, n) == cs
  {
    if cs != [] {
      assert forall i :: 0 <= i < |cs[1..]| ==> cs[1..][i] == cs[i + 1];
      BelowAll(cs[1..], n);
    }
  }

  /** The part of the label written when the pass for n has come to j. */
  function Written(cs: seq<int>, n: int, j: nat): seq<int>
    requires j <= |cs|
  {
    Below(cs[..j], n + 1) + Below(cs[j..], n)
  }

  /** Where the scan stands in it. */
  function Position(cs: seq<int>, n: int, j: nat): nat
    requires j <= |cs|
  {
    |Below(cs[..j], n + 1)|
  }

  lemma Advance(cs: seq<int>, n: int, j: nat)
    requires j < |cs|
    ensures Below(cs[..j + 1], n + 1) == Below(cs[..j], n + 1) + (if cs[j] <= n then [cs[j]] else [])
    ensures Below(cs[j..], n) == (if cs[j] < n then [cs[j]] else []) + Below(cs[j + 1..], n)
  {
    assert cs[..j + 1] == cs[..j] + [cs[j]];
    BelowConcat(cs[..j], [cs[j]], n + 1);
    assert cs[j..][1..] == cs[j + 1..];
  }

  // ----- the round trip -----

  /** The decoder has rebuilt what the encoder has written, and will count on to where the encoder stands. */
  predicate Linked(cs: seq<int>, j: nat, st: Encoder, dec: Decoder)
    requires j <= |cs|
  {
    && dec.bias == st.bias && dec.out == Written(cs, st.n, j) && |dec.out| == st.h && (st.first <==> dec.i == 0)
    && dec.n * (st.h + 1) + dec.i + st.delta == st.n * (st.h + 1) + Position(cs, st.n, j)
  }

  lemma Scale(a: int, len: int)
    requires len > 0
    ensures (a >= 1 ==> a * len >= len) && (a <= -1 ==> a * len <= -len)
  {
    if a >= 1 {
      assert (a - 1) * len >= 0;
    } else if a <= -1 {
      assert (-1 - a) * len >= 0;
    }
  }

  lemma Divide(n: int, len: nat, pos: nat, total: nat)
    requires pos < len && total == n * len + pos
    ensures total / len == n && total % len == pos
  {
    var q, r := total / len, total % len;
    assert total == q * len + r;
    assert (q - n) * len == pos - r;
    Scale(q - n, len);
  }

  /** The integer the decoder reads takes it to the encoder's code point and place. */
  lemma Counted(n: nat, i: nat, delta: nat, len: nat, n': nat, pos: nat)
    requires n * len + i + delta == n' * len + pos && pos < len
    ensures n + (i + delta) / len == n' && (i + delta) % len == pos
  {
    assert i + delta == (n' - n) * len + pos;
    Divide(n' - n, len, pos, i + delta);
  }

  lemma PositionWithin(cs: seq<int>, n: int, j: nat)
    requires j <= |cs|
    ensures Position(cs, n, j) <= |Written(cs, n, j)|
    ensures Written(cs, n, j)[..Position(cs, n, j)] == Below(cs[..j], n + 1)
            && Written(cs, n, j)[Position(cs, n, j)..] == Below(cs[j..], n)
  {
  }

  /** What is inserted at the place is the code point scanned. */
  lemma WrittenNext(cs: seq<int>, n: int, j: nat)
    requires j < |cs| && cs[j] == n
    ensures var p := Position(cs, n, j);
            p <= |Written(cs, n, j)| && Written(cs, n, j + 1) == Written(cs, n, j)[..p] + [n] + Written(cs, n, j)[p..]
            && Position(cs, n, j + 1) == p + 1
  {
    Advance(cs, n, j);
    PositionWithin(cs, n, j);
    PositionWithin(cs, n, j + 1);
  }

  lemma OneMore(n: nat, h: nat, pos: nat)
    ensures n * (h + 2) + (pos + 1) == n * (h + 1) + n + pos + 1
  {
  }

  /** One code point written and read. */
  lemma InsertedOne(cs: seq<int>, j: nat, st: Encoder, dec: Decoder)
    requires j < |cs| && cs[j] == st.n && Linked(cs, j, st, dec)
    ensures Linked(cs, j + 1, Emitted(st), Insert(dec, dec.i + st.delta))
  {
    var pos := Position(cs, st.n, j);
    PositionWithin(cs, st.n, j);
    Counted(dec.n, dec.i, st.delta, st.h + 1, st.n, pos);
    WrittenNext(cs, st.n, j);
  }

  /** The pass for n writes what the decoder reads. */
  lemma {:induction false} PassDecodes(cs: seq<int>, j: nat, st: Encoder, dec: Decoder, end: Encoder, digits: seq<Byte>,
      rest: seq<Byte>) returns (dec': Decoder)
    requires j <= |cs| && Linked(cs, j, st, dec) && Pass(cs, j, st) == (end, digits)
    ensures Linked(cs, |cs|, end, dec')
    ensures DecodeFrom(dec, digits + rest) == DecodeFrom(dec', rest)
    decreases |cs| - j
  {
    if j == |cs| {
      assert digits + rest == rest;
      dec' := dec;
    } else if cs[j] != st.n {
      Scanned(cs, j, st, dec);
      dec' := PassDecodes(cs, j + 1, if cs[j] < st.n then st.(delta := st.delta + 1) else st, dec, end, digits, rest);
    } else {
      var dec1, more := OneDecodes(cs, j, st, dec, end, digits, rest);
      dec' := PassDecodes(cs, j + 1, Emitted(st), dec1, end, more, rest);
    }
  }

  /** The pass at a code point that is written. */
  lemma OneDecodes(cs: seq<int>, j: nat, st: Encoder, dec: Decoder, end: Encoder, digits: seq<Byte>, rest: seq<Byte>)
    returns (dec1: Decoder, more: seq<Byte>)
    requires j < |cs| && cs[j] == st.n && Linked(cs, j, st, dec) && Pass(cs, j, st) == (end, digits)
    ensures Linked(cs, j + 1, Emitted(st), dec1) && Pass(cs, j + 1, Emitted(st)) == (end, more)
    ensures DecodeFrom(dec, digits + rest) == DecodeFrom(dec1, more + rest)
  {
    InsertedOne(cs, j, st, dec);
    more := PassSplit(cs, j, st, end, digits);
    dec1 := Insert(dec, dec.i + st.delta);
    ReadsOne(dec, st.delta, st.bias, digits, more, rest);
  }

  lemma PassSplit(cs: seq<int>, j: nat, st: Encoder, end: Encoder, digits: seq<Byte>) returns (more: seq<Byte>)
    requires j < |cs| && cs[j] == st.n && Pass(cs, j, st) == (end, digits)
    ensures Pass(cs, j + 1, Emitted(st)) == (end, more) && digits == WriteInt(st.delta, 36, st.bias) + more
  {
    more := Pass(cs, j + 1, Emitted(st)).1;
  }

  lemma Scanned(cs: seq<int>, j: nat, st: Encoder, dec: Decoder)
    requires j < |cs| && cs[j] != st.n && Linked(cs, j, st, dec)
    ensures Linked(cs, j + 1, if cs[j] < st.n then st.(delta := st.delta + 1) else st, dec)
  {
    Advance(cs, st.n, j);
    assert Written(cs, st.n, j + 1) == Written(cs, st.n, j);
  }

  lemma ReadsOne(dec: Decoder, delta: nat, bias: nat, digits: seq<Byte>, more: seq<Byte>, rest: seq<Byte>)
    requires bias == dec.bias && digits == WriteInt(delta, 36, bias) + more
    ensures DecodeFrom(dec, digits + rest) == DecodeFrom(Insert(dec, dec.i + delta), more + rest)
  {
    var first := WriteInt(delta, 36, bias);
    assert digits + rest == first + (more + rest);
    ReadsBack(delta, 36, bias, dec.i, 1, first, more + rest);
  }

  lemma WrittenStart(cs: seq<int>, n: int)
    ensures Written(cs, n, 0) == Below(cs, n) && Position(cs, n, 0) == 0
  {
    assert cs[0..] == cs && cs[..0] == [];
  }

  lemma WrittenEnd(cs: seq<int>, n: int)
    ensures Written(cs, n, |cs|) == Below(cs, n + 1) && Position(cs, n, |cs|) == |Below(cs, n + 1)|
  {
    assert cs[..|cs|] == cs && cs[|cs|..] == [];
  }

  lemma Distribute(n: int, m: int, len: int)
    ensures n * len + (m - n) * len == m * len
  {
  }

  /** Skipping to the next code point that occurs keeps the count. */
  lemma SkipLinked(cs: seq<int>, st: Encoder, dec: Decoder, m: nat)
    requires Linked(cs, 0, st, dec) && NextPoint(cs, st.n) == m
    ensures Linked(cs, 0, Skipped(st, m), dec)
  {
    NothingBetween(cs, st.n, m);
    WrittenStart(cs, st.n);
    WrittenStart(cs, m);
    Distribute(st.n, m, st.h + 1);
  }

  lemma NothingBetween(cs: seq<int>, n: nat, m: nat)
    requires NextPoint(cs, n) == m
    ensures Below(cs, n) == Below(cs, m) && n <= m
  {
    forall i | 0 <= i < |cs| ensures cs[i] < n || cs[i] >= m {
    }
    BelowGap(cs, n, m);
  }

  /** The end of one pass is the beginning of the next. */
  lemma RoundLinked(cs: seq<int>, st: Encoder, dec: Decoder)
    requires Linked(cs, |cs|, st, dec)
    ensures Linked(cs, 0, st.(delta := st.delta + 1, n := st.n + 1), dec)
  {
    WrittenEnd(cs, st.n);
    WrittenStart(cs, st.n + 1);
    Distribute(st.n, st.n + 1, st.h + 1);
  }

  lemma PointBound(cs: seq<int>, n: nat, m: int)
    requires Scalars(cs) && NextPoint(cs, n) == m
    ensures m < 0x110000
  {
    if m != -1 {
      var i :| 0 <= i < |cs| && cs[i] == m;
      assert Scalar(cs[i]);
    }
  }

  lemma RoundsUnfold(cs: seq<int>, st: Encoder, m: nat)
    requires Scalars(cs) && NextPoint(cs, st.n) == m && m < 0x110000
    ensures Rounds(cs, st) == RoundsAfter(cs, m, Pass(cs, 0, Skipped(st, m)))
  {
  }

  lemma RoundsStep(cs: seq<int>, st: Encoder, m: nat, end: Encoder, digits: seq<Byte>)
    requires Scalars(cs) && NextPoint(cs, st.n) == m && Pass(cs, 0, Skipped(st, m)) == (end, digits)
    ensures Rounds(cs, st) == digits + Rounds(cs, end.(delta := end.delta + 1, n := m + 1)) && m < 0x110000
            && end.n == m
  {
    PointBound(cs, st.n, m);
    RoundsUnfold(cs, st, m);
    RoundsAfterOne(cs, m, end, digits);
  }

  lemma RoundsAfterOne(cs: seq<int>, m: nat, end: Encoder, digits: seq<Byte>)
    requires Scalars(cs) && m < 0x110000
    ensures RoundsAfter(cs, m, (end, digits)) == digits + Rounds(cs, end.(delta := end.delta + 1, n := m + 1))
  {
  }

  lemma {:induction false} RoundsDecode(cs: seq<int>, st: Encoder, dec: Decoder)
    requires Scalars(cs) && Linked(cs, 0, st, dec)
    ensures DecodeFrom(dec, Rounds(cs, st)) == Some(cs)
    decreases 0x110000 - st.n
  {
    var m := NextPoint(cs, st.n);
    if m == -1 {
      WrittenStart(cs, st.n);
      BelowAll(cs, st.n);
      assert Rounds(cs, st) == [];
    } else {
      var (end, digits) := Pass(cs, 0, Skipped(st, m));
      RoundsStep(cs, st, m, end, digits);
      RoundDecodes(cs, st, dec, m, end, digits);
    }
  }

  lemma OneRoundDecodes(cs: seq<int>, st: Encoder, dec: Decoder, m: nat, end: Encoder, digits: seq<Byte>,
      rest: seq<Byte>) returns (dec': Decoder)
    requires Linked(cs, 0, st, dec) && NextPoint(cs, st.n) == m && Pass(cs, 0, Skipped(st, m)) == (end, digits)
    ensures Linked(cs, 0, end.(delta := end.delta + 1, n := end.n + 1), dec')
            && DecodeFrom(dec, digits + rest) == DecodeFrom(dec', rest)
  {
    SkipLinked(cs, st, dec, m);
    dec' := PassDecodes(cs, 0, Skipped(st, m), dec, end, digits, rest);
    RoundLinked(cs, end, dec');
  }

  lemma {:induction false} RoundDecodes(cs: seq<int>, st: Encoder, dec: Decoder, m: nat, end: Encoder,
      digits: seq<Byte>)
    requires Scalars(cs) && Linked(cs, 0, st, dec) && NextPoint(cs, st.n) == m
             && Pass(cs, 0, Skipped(st, m)) == (end, digits) && m < 0x110000 && end.n == m
    ensures DecodeFrom(dec, digits + Rounds(cs, end.(delta := end.delta + 1, n := m + 1))) == Some(cs)
    decreases 0x110000 - st.n, 0
  {
    var next := end.(delta := end.delta + 1, n := m + 1);
    var dec' := OneRoundDecodes(cs, st, dec, m, end, digits, Rounds(cs, next));
    RoundsDecode(cs, next, dec');
  }

  lemma {:induction false} DelimiterIsLast(input: seq<Byte>, b: nat)
    requires b <= |input| && (b > 0 ==> input[b - 1] == 45) && forall i :: b <= i < |input| ==> input[i] != 45
    ensures AfterDelimiter(input) == b
  {
    if b < |input| {
      DelimiterIsLast(input[..|input| - 1], b);
    }
  }

  predicate NoHyphen(s: seq<Byte>) {
    forall i :: 0 <= i < |s| ==> s[i] != 45
  }

  lemma {:induction false} WriteIntPlain(q: nat, k: nat, bias: nat)
    ensures NoHyphen(WriteInt(q, k, bias))
    decreases q
  {
    if q < Threshold(k, bias) {
      WriteLast(q, k, bias);
    } else {
      var _, more := Split(q, k, bias);
      WriteIntPlain(more, k + 36, bias);
    }
  }

  lemma {:induction false} PassPlain(cs: seq<int>, j: nat, st: Encoder)
    requires j <= |cs|
    ensures NoHyphen(Pass(cs, j, st).1)
    decreases |cs| - j
  {
    if j == |cs| {
    } else if cs[j] < st.n {
      PassPlain(cs, j + 1, st.(delta := st.delta + 1));
    } else if cs[j] > st.n {
      PassPlain(cs, j + 1, st);
    } else {
      PassPlain(cs, j + 1, Emitted(st));
      WriteIntPlain(st.delta, 36, st.bias);
    }
  }

  lemma {:induction false} RoundsPlain(cs: seq<int>, st: Encoder)
    requires Scalars(cs)
    ensures NoHyphen(Rounds(cs, st))
    decreases 0x110000 - st.n
  {
    var m := NextPoint(cs, st.n);
    if m != -1 {
      var (end, digits) := Pass(cs, 0, Skipped(st, m));
      RoundsStep(cs, st, m, end, digits);
      PassPlain(cs, 0, Skipped(st, m));
      RoundsPlain(cs, end.(delta := end.delta + 1, n := m + 1));
    }
  }

  lemma Started(cs: seq<int>)
    requires Scalars(cs)
    ensures Linked(cs, 0, Encoder(128, 0, |Basic(cs)|, 72, true), Decoder(128, 0, 72, Basic(cs)))
  {
    BasicIsBelow(cs);
    WrittenStart(cs, 128);
  }

  /** Where the decoder finds the basic code points and the digits. */
  lemma Divided(basic: seq<Byte>, digits: seq<Byte>)
    requires NoHyphen(digits) && forall i :: 0 <= i < |basic| ==> basic[i] < 128
    ensures Decode(basic + (if basic != [] then [45] else []) + digits)
              == DecodeFrom(Decoder(128, 0, 72, basic), digits)
  {
    if basic == [] {
      assert basic + [] + digits == digits;
      DelimiterIsLast(digits, 0);
    } else {
      var b, all := |basic| + 1, basic + [45] + digits;
      assert all[..b - 1] == basic && all[b..] == digits;
      assert forall i :: b <= i < |all| ==> all[i] == digits[i - b];
      DelimiterIsLast(all, b);
      assert forall i :: 0 <= i < b - 1 ==> all[i] == basic[i];
    }
  }

  /** The round trip: what the encoder makes of a label, the decoder of RFC 3492 turns back into it. */
  lemma RoundTrip(cs: seq<int>)
    requires Scalars(cs)
    ensures Decode(Encoded(cs)) == Some(cs)
  {
    var start := Encoder(128, 0, |Basic(cs)|, 72, true);
    BasicIsBelow(cs);
    RoundsPlain(cs, start);
    Divided(Basic(cs), Rounds(cs, start));
    Started(cs);
    RoundsDecode(cs, start, Decoder(128, 0, 72, Basic(cs)));
  }
}
