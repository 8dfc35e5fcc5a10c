/** Which bytes idna.c takes for UTF-8, and for which code points. */
module Utf8Reading {
  import opened Utf8

  // ----- one code point -----

  /** A byte that may follow the first one of a sequence. */
  predicate IsTrail(b: Byte) {
    b / 64 == 2
  }

  /** The bytes after the first, with the two bits that would make them such a byte. */
  function Mended(bytes: seq<Byte>): (r: seq<Byte>)
    requires bytes != []
    ensures |r| == |bytes|
  {
    [bytes[0]] + seq(|bytes| - 1, i requires 0 <= i < |bytes| - 1 => 0x80 + bytes[i + 1] % 64)
  }

  /** The two high bits of the bytes after the first, taken together: of one such a byte's, of two none, of three
      again such a byte's. */
  predicate Together(bytes: seq<Byte>) {
    && (|bytes| == 2 ==> bytes[1] / 64 == 2)
    && (|bytes| == 3 ==> bytes[1] / 64 == bytes[2] / 64)
    && (|bytes| == 4 ==> Paired(bytes[1], bytes[2], bytes[3]))
  }

  /** All three of them, or one. */
  predicate Odd(x: bool, y: bool, z: bool) {
    (x && y && z) || (x && !y && !z) || (!x && y && !z) || (!x && !y && z)
  }

  /** The two high bits of three bytes after the first. */
  predicate Paired(b: Byte, c: Byte, d: Byte) {
    Odd(b >= 128, c >= 128, d >= 128) && !Odd(b / 64 % 2 == 1, c / 64 % 2 == 1, d / 64 % 2 == 1)
  }

  lemma OddIs(x: nat, y: nat, z: nat)
    requires x <= 1 && y <= 1 && z <= 1
    ensures (x + y + z) % 2 == 1 <==> Odd(x == 1, y == 1, z == 1)
  {
  }

  lemma HighBit(b: Byte)
    ensures b / 128 == (if b >= 128 then 1 else 0) && 0 <= b / 64 % 2 <= 1
  {
  }

  lemma ContinuesIff(b: Byte, c: Byte, d: Byte)
    ensures Continues(b, c, d) <==> Paired(b, c, d)
  {
    HighBit(b);
    HighBit(c);
    HighBit(d);
    OddIs(b / 128, c / 128, d / 128);
    OddIs(b / 64 % 2, c / 64 % 2, d / 64 % 2);
  }

  predicate AllTrail(bytes: seq<Byte>) {
    forall i :: 1 <= i < |bytes| ==> IsTrail(bytes[i])
  }

  function Bytes(text: seq<Byte>, p: nat, pe: nat): (bytes: seq<Byte>)
    requires CanRead(text, p, pe)
    ensures |bytes| == Next(text, p, pe) - p >= 1
  {
    text[p..Next(text, p, pe)]
  }

  lemma Digits(v: int)
    requires 0 <= v
    ensures v == v / 64 * 64 + v % 64 && v == v / 4096 * 4096 + v / 64 % 64 * 64 + v % 64
    ensures v == v / 262144 * 262144 + v / 4096 % 64 * 4096 + v / 64 % 64 * 64 + v % 64
  {
    assert v / 4096 == v / 64 / 64 && v / 262144 == v / 4096 / 64;
  }

  lemma Tail(x: int)
    requires 0 <= x < 64
    ensures (0x80 + x) / 128 == 1 && (0x80 + x) / 64 % 2 == 0 && (0x80 + x) % 64 == x
  {
  }

  lemma Split2(x: nat, d: nat, v: int)
    requires v == x * 64 + d && d < 64
    ensures v / 64 == x && v % 64 == d
  {
  }

  lemma Split3(x: nat, c: nat, d: nat, v: int)
    requires v == x * 4096 + c * 64 + d && c < 64 && d < 64
    ensures v / 4096 == x && v / 64 % 64 == c && v % 64 == d
  {
    Split2(x * 64 + c, d, v);
    Split2(x, c, v / 64);
    assert v / 4096 == v / 64 / 64;
  }

  lemma Split4(x: nat, b: nat, c: nat, d: nat, v: int)
    requires v == x * 262144 + b * 4096 + c * 64 + d && b < 64 && c < 64 && d < 64
    ensures v / 262144 == x && v / 4096 % 64 == b && v / 64 % 64 == c && v % 64 == d
  {
    Split2((x * 64 + b) * 64 + c, d, v);
    Split3(x, b, c, v / 64);
    assert v / 262144 == v / 64 / 4096 && v / 4096 == v / 64 / 64;
  }

  lemma Taken2(a: Byte, d: Byte, v: int)
    requires 0xC0 <= a < 0xE0 && Scalar(v)
    ensures Checked(0, 0x80, 0x80 + a % 32, d, 0x80) == v <==> Spell(v) == [a, 0x80 + d % 64] && d / 64 == 2
  {
    Tail(a % 32);
    assert a == 0xC0 + a % 32;
    Split2(a % 32, d % 64, a % 32 * 64 + d % 64);
    Digits(v);
  }

  lemma SpelledBy3(a: Byte, c: nat, d: nat, v: int)
    requires 0xE0 <= a < 0xF0 && c < 64 && d < 64 && Scalar(v)
    ensures Spell(v) == [a, 0x80 + c, 0x80 + d] <==> v == a % 16 * 4096 + c * 64 + d && v >= 0x800
  {
    assert a == 0xE0 + a % 16;
    if v == a % 16 * 4096 + c * 64 + d {
      Split3(a % 16, c, d, v);
    } else if 0x800 <= v < 0x10000 {
      Digits(v);
    }
  }

  lemma Taken3(a: Byte, c: Byte, d: Byte, v: int)
    requires 0xE0 <= a < 0xF0 && Scalar(v)
    ensures Checked(0, 0x80 + a % 16, c, d, 0x800) == v
      <==> Spell(v) == [a, 0x80 + c % 64, 0x80 + d % 64] && c / 64 == d / 64
  {
    Alike(a % 16, c, d);
    SpelledBy3(a, c % 64, d % 64, v);
  }

  lemma Alike(x: nat, c: Byte, d: Byte)
    requires x < 16
    ensures Continues(0x80 + x, c, d) <==> c / 64 == d / 64
    ensures (0x80 + x) % 64 == x
  {
    assert c / 64 == c / 128 * 2 + c / 64 % 2 && d / 64 == d / 128 * 2 + d / 64 % 2;
    Parity(c / 128, d / 128);
    Parity(c / 64 % 2, d / 64 % 2);
  }

  lemma Parity(x: int, y: int)
    requires 0 <= x < 2 && 0 <= y < 2
    ensures (1 + x + y) % 2 == 1 <==> x == y
    ensures (x + y) % 2 == 0 <==> x == y
  {
  }

  lemma SpelledBy4(a: Byte, b: nat, c: nat, d: nat, v: int)
    requires 0xF0 <= a < 0xF8 && b < 64 && c < 64 && d < 64 && Scalar(v)
    ensures Spell(v) == [a, 0x80 + b, 0x80 + c, 0x80 + d]
      <==> v == a % 8 * 262144 + b * 4096 + c * 64 + d && v >= 0x10000
  {
    assert a == 0xF0 + a % 8;
    if v == a % 8 * 262144 + b * 4096 + c * 64 + d {
      Split4(a % 8, b, c, d, v);
    } else if v >= 0x10000 {
      Digits(v);
    }
  }

  lemma Taken4(a: Byte, b: Byte, c: Byte, d: Byte, v: int)
    requires 0xF0 <= a < 0xF8 && Scalar(v)
    ensures Checked(a % 8, b, c, d, 0x10000) == v
      <==> Spell(v) == [a, 0x80 + b % 64, 0x80 + c % 64, 0x80 + d % 64] && Paired(b, c, d)
  {
    ContinuesIff(b, c, d);
    SpelledBy4(a, b % 64, c % 64, d % 64, v);
  }

  /** A sequence is taken for v if and only if, the high bits of the bytes after the first put right, it spells v, and
      those bits together are what they should be: not each of them need be. */
  lemma TakenIff(text: seq<Byte>, p: nat, pe: nat, v: int)
    requires p < pe && CanRead(text, p, pe) && Scalar(v)
    ensures Value(text, p, pe) == v <==>
              Mended(Bytes(text, p, pe)) == Spell(v) && Together(Bytes(text, p, pe))
  {
    var n := Next(text, p, pe) - p;
    if n == 4 {
      TakenOfFour(text, p, pe, v);
    } else if n == 3 {
      TakenOfThree(text, p, pe, v);
    } else if n == 2 {
      TakenOfTwo(text, p, pe, v);
    } else {
      assert Bytes(text, p, pe) == [text[p]] == Mended(Bytes(text, p, pe));
    }
  }

  lemma TakenOfTwo(text: seq<Byte>, p: nat, pe: nat, v: int)
    requires p < pe && CanRead(text, p, pe) && Scalar(v) && Next(text, p, pe) == p + 2
    ensures Value(text, p, pe) == v <==>
              Mended(Bytes(text, p, pe)) == Spell(v) && Together(Bytes(text, p, pe))
  {
    var a, b := text[p], text[p + 1];
    assert Bytes(text, p, pe) == [a, b];
    MendedMany(a, b, 0, 0);
    Taken2(a, b, v);
  }

  lemma TakenOfThree(text: seq<Byte>, p: nat, pe: nat, v: int)
    requires p < pe && CanRead(text, p, pe) && Scalar(v) && Next(text, p, pe) == p + 3
    ensures Value(text, p, pe) == v <==>
              Mended(Bytes(text, p, pe)) == Spell(v) && Together(Bytes(text, p, pe))
  {
    var a, b, c := text[p], text[p + 1], text[p + 2];
    assert Bytes(text, p, pe) == [a, b, c];
    MendedMany(a, b, c, 0);
    Taken3(a, b, c, v);
  }

  lemma TakenOfFour(text: seq<Byte>, p: nat, pe: nat, v: int)
    requires p < pe && CanRead(text, p, pe) && Scalar(v) && Next(text, p, pe) == p + 4
    ensures Value(text, p, pe) == v <==>
              Mended(Bytes(text, p, pe)) == Spell(v) && Together(Bytes(text, p, pe))
  {
    var a, b, c, d := text[p], text[p + 1], text[p + 2], text[p + 3];
    assert Bytes(text, p, pe) == [a, b, c, d];
    MendedMany(a, b, c, d);
    Taken4(a, b, c, d, v);
  }

  lemma MendedMany(a: Byte, b: Byte, c: Byte, d: Byte)
    ensures Mended([a, b]) == [a, 0x80 + b % 64]
    ensures Mended([a, b, c]) == [a, 0x80 + b % 64, 0x80 + c % 64]
    ensures Mended([a, b, c, d]) == [a, 0x80 + b % 64, 0x80 + c % 64, 0x80 + d % 64]
  {
  }

  /** What is taken for v spells it, as section 3 of RFC 3629 has it, if and only if each byte after the first is one
      that may follow. */
  lemma SpellsIff(text: seq<Byte>, p: nat, pe: nat)
    requires p < pe && CanRead(text, p, pe) && Value(text, p, pe) != -1
    ensures Bytes(text, p, pe) == Spell(Value(text, p, pe)) <==> AllTrail(Bytes(text, p, pe))
  {
    TakenIff(text, p, pe, Value(text, p, pe));
  }

  // ----- many -----

  /** The bytes from p to q are taken for cs, one sequence after the other. */
  predicate TakenFor(text: seq<Byte>, p: nat, q: nat, cs: seq<int>)
    requires Scalars(cs)
    decreases |cs|
  {
    if cs == [] then p == q
    else
      && p < q && CanRead(text, p, q) && Next(text, p, q) <= q
      && Mended(Bytes(text, p, q)) == Spell(cs[0]) && Together(Bytes(text, p, q))
      && TakenFor(text, Next(text, p, q), q, cs[1..])
  }

  /** From q to pe there is nothing, or the beginning of a sequence. */
  predicate IsCut(text: seq<Byte>, q: nat, pe: nat) {
    q == pe || (q < pe && CanRead(text, q, pe) && Next(text, q, pe) > pe)
  }

  ghost predicate TakenCut(text: seq<Byte>, p: nat, pe: nat, cs: seq<int>)
    requires Scalars(cs)
  {
    exists q: nat :: p <= q <= pe && TakenFor(text, p, q, cs) && IsCut(text, q, pe)
  }

  /** The code points gone through are cs, none of them invalid, if and only if the bytes up to some place are taken for
      cs, and what is after it is nothing or the beginning of a sequence. */
  lemma {:induction false} PointsIff(text: seq<Byte>, p: nat, pe: nat, cs: seq<int>)
    requires p <= pe && Readable(text, p, pe) && Scalars(cs)
    ensures Points(text, p, pe) == cs <==> TakenCut(text, p, pe, cs)
    decreases |cs|
  {
    if cs == [] {
      if Points(text, p, pe) == cs {
        assert TakenFor(text, p, p, cs) && IsCut(text, p, pe);
      }
    } else if Points(text, p, pe) != [] {
      PointsFirst(text, p, pe, cs);
      var next := Next(text, p, pe);
      PointsIff(text, next, pe, cs[1..]);
      TakenIff(text, p, pe, cs[0]);
      if Points(text, p, pe) == cs {
        var q: nat :| next <= q <= pe && TakenFor(text, next, q, cs[1..]) && IsCut(text, q, pe);
        SameRead(text, p, pe, q);
        assert TakenFor(text, p, q, cs);
      }
    } else if TakenCut(text, p, pe, cs) {
      var q: nat :| p <= q <= pe && TakenFor(text, p, q, cs) && IsCut(text, q, pe);
      SameRead(text, p, pe, q);
    }
  }

  lemma PointsFirst(text: seq<Byte>, p: nat, pe: nat, cs: seq<int>)
    requires p <= pe && Readable(text, p, pe) && Points(text, p, pe) != [] && Scalars(cs) && cs != []
    ensures p < pe && Next(text, p, pe) <= pe
    ensures Points(text, p, pe) == cs <==>
              Value(text, p, pe) == cs[0] && Points(text, Next(text, p, pe), pe) == cs[1..]
    ensures TakenCut(text, p, pe, cs) ==>
              TakenCut(text, Next(text, p, pe), pe, cs[1..])
              && Mended(Bytes(text, p, pe)) == Spell(cs[0]) && Together(Bytes(text, p, pe))
  {
    if TakenCut(text, p, pe, cs) {
      var q: nat :| p <= q <= pe && TakenFor(text, p, q, cs) && IsCut(text, q, pe);
      SameRead(text, p, pe, q);
    }
  }

  // ----- UTF-8 -----

  /** What a spelling begins with says how long it is, and each byte after that may follow. */
  lemma SpellLength(v: int, distance: int)
    requires Scalar(v) && distance <= 0
    ensures Reads(Spell(v)[0], distance) == |Spell(v)| && AllTrail(Spell(v))
    ensures Mended(Spell(v)) == Spell(v) && Together(Spell(v))
  {
    TrailByte(v % 64);
    TrailByte(v / 64 % 64);
    TrailByte(v / 4096 % 64);
  }

  lemma TrailByte(x: nat)
    requires x < 64
    ensures (0x80 + x) / 64 == 2 && (0x80 + x) % 64 == x && (0x80 + x) / 128 == 1
  {
  }

  /** Where a code point is spelled it is read. */
  lemma SpelledIsRead(text: seq<Byte>, p: nat, pe: nat, v: int)
    requires Scalar(v) && p < pe && p + |Spell(v)| <= |text| && text[p..p + |Spell(v)|] == Spell(v)
    ensures CanRead(text, p, pe) && Next(text, p, pe) == p + |Spell(v)| && Value(text, p, pe) == v
  {
    assert text[p] == text[p..p + |Spell(v)|][0];
    SpellLength(v, p + 1 - pe);
    TakenIff(text, p, pe, v);
  }

  lemma SpelledFirst(text: seq<Byte>, p: nat, pe: nat, cs: seq<int>)
    requires Scalars(cs) && p <= pe < |text| && text[p..pe] == SpellAll(cs) && cs != []
    ensures var next := p + |Spell(cs[0])|;
      next <= pe && text[p..next] == Spell(cs[0]) && text[next..pe] == SpellAll(cs[1..])
  {
    var a, b := Spell(cs[0]), SpellAll(cs[1..]);
    assert SpellAll(cs) == a + b;
    Parts(text, p, pe, a, b);
  }

  lemma Parts(text: seq<Byte>, p: nat, pe: nat, a: seq<Byte>, b: seq<Byte>)
    requires p <= pe <= |text| && text[p..pe] == a + b
    ensures p + |a| <= pe && text[p..p + |a|] == a && text[p + |a|..pe] == b
  {
    assert text[p..p + |a|] == text[p..pe][..|a|];
    assert text[p + |a|..pe] == text[p..pe][|a|..];
  }

  /** Where UTF-8 of section 3 of RFC 3629 is, exactly its code points are gone through. */
  lemma {:induction false} SpelledPoints(text: seq<Byte>, p: nat, pe: nat, cs: seq<int>)
    requires Scalars(cs) && p <= pe && CanRead(text, pe, pe) && text[p..pe] == SpellAll(cs)
    ensures Readable(text, p, pe) && Points(text, p, pe) == cs
    decreases |cs|
  {
    if cs != [] {
      SpelledFirst(text, p, pe, cs);
      SpelledIsRead(text, p, pe, cs[0]);
      SpelledPoints(text, p + |Spell(cs[0])|, pe, cs[1..]);
    }
  }

  /** No sequence is cut off, and each byte after the first of one may follow. */
  predicate Sound(text: seq<Byte>, p: nat, pe: nat)
    decreases pe - p
  {
    p == pe
    || (p < pe && CanRead(text, p, pe) && Next(text, p, pe) <= pe && AllTrail(Bytes(text, p, pe))
        && Sound(text, Next(text, p, pe), pe))
  }

  /** The first of what is gone through. */
  lemma FirstSpelled(text: seq<Byte>, p: nat, pe: nat, cs: seq<int>)
    requires p < pe < |text| && CanRead(text, p, pe) && Next(text, p, pe) <= pe && Scalars(cs) && cs != []
             && Value(text, p, pe) == cs[0]
    ensures var next := Next(text, p, pe);
      text[p..pe] == SpellAll(cs) <==> AllTrail(Bytes(text, p, pe)) && text[next..pe] == SpellAll(cs[1..])
  {
    var next, bytes := Next(text, p, pe), Bytes(text, p, pe);
    SpellsIff(text, p, pe);
    TakenIff(text, p, pe, cs[0]);
    assert |Spell(cs[0])| == |Mended(bytes)| == |bytes|;
    assert text[p..pe] == bytes + text[next..pe];
    SameParts(bytes, text[next..pe], Spell(cs[0]), SpellAll(cs[1..]));
  }

  /** What is gone through without anything invalid is what the bytes spell if and only if that is so. */
  lemma {:induction false} SpelledIff(text: seq<Byte>, p: nat, pe: nat)
    requires p <= pe < |text| && Readable(text, p, pe) && Scalars(Points(text, p, pe))
    ensures text[p..pe] == SpellAll(Points(text, p, pe)) <==> Sound(text, p, pe)
    decreases pe - p
  {
    var cs := Points(text, p, pe);
    if cs == [] {
      assert text[p..pe] == [] <==> p == pe;
    } else {
      assert cs[1..] == Points(text, Next(text, p, pe), pe);
      assert forall i :: 0 <= i < |cs[1..]| ==> cs[1..][i] == cs[i + 1];
      FirstSpelled(text, p, pe, cs);
      SpelledIff(text, Next(text, p, pe), pe);
    }
  }

  lemma SameParts(a: seq<Byte>, b: seq<Byte>, c: seq<Byte>, d: seq<Byte>)
    requires |a| == |c|
    ensures a + b == c + d <==> a == c && b == d
  {
    if a + b == c + d {
      assert a == (a + b)[..|a|] == c && b == (a + b)[|a|..] == d;
    }
  }

  // ----- bytes that are not UTF-8 -----

  /** Two letters after a first byte of three are taken for a code point. */
  lemma LettersAreTaken(text: seq<Byte>)
    requires text == [0xE4, 0x41, 0x42, 0]
    ensures Readable(text, 0, 3) && Points(text, 0, 3) == [0x4042] && text[0..3] != SpellAll([0x4042])
  {
    assert Spell(0x4042) == [0xE4, 0x81, 0x82] && [0x4042][1..] == [];
    assert SpellAll([0x4042]) == Spell(0x4042);
    TakenIff(text, 0, 3, 0x4042);
    assert Points(text, 3, 3) == [];
    assert text[0..3][1] == 0x41;
  }

  /** A sequence that the end cuts off is passed over. */
  lemma CutIsDropped(text: seq<Byte>)
    requires text == [97, 0xC3, 0, 0]
    ensures Readable(text, 0, 2) && Points(text, 0, 2) == [97] && text[0..2] != SpellAll([97])
  {
    assert Points(text, 1, 2) == [];
    assert [97][1..] == [];
  }
}
