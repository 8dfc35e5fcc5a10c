/** UTF-8 decoding as idna.c does it, against the encoding of section 3 of RFC 3629. Bit operations are written as
    arithmetic: x & 63 is x % 64, and x << 6 is x * 64. */
module Utf8 {
  type Byte = x: int | 0 <= x < 256

  /** The code points UTF-8 can spell. */
  predicate Scalar(c: int) {
    0 <= c <= 0x10FFFF && !(0xD800 <= c <= 0xDFFF)
  }

  function Spell(c: int): (bytes: seq<Byte>)
    requires Scalar(c)
    ensures 1 <= |bytes| <= 4
  {
    if c < 0x80 then [c]
    else if c < 0x800 then [0xC0 + c / 64, 0x80 + c % 64]
    else if c < 0x10000 then [0xE0 + c / 4096, 0x80 + c / 64 % 64, 0x80 + c % 64]
    else [0xF0 + c / 262144, 0x80 + c / 4096 % 64, 0x80 + c / 64 % 64, 0x80 + c % 64]
  }

  predicate Scalars(cs: seq<int>) {
    forall i :: 0 <= i < |cs| ==> Scalar(cs[i])
  }

  function SpellAll(cs: seq<int>): seq<Byte>
    requires Scalars(cs)
  {
    if cs == [] then [] else Spell(cs[0]) + SpellAll(cs[1..])
  }

  /** 0x80 == (0xC0 & (b ^ c ^ d)): the top bits have odd parity, the next ones even. */
  predicate Continues(b: Byte, c: Byte, d: Byte) {
    (b / 128 + c / 128 + d / 128) % 2 == 1 && (b / 64 % 2 + c / 64 % 2 + d / 64 % 2) % 2 == 0
  }

  /** How many bytes uv__utf8_decode1 reads at p: the sequence length, less near pe, where the switch on the distance
      takes its shorter cases. */
  function Reads(a: Byte, distance: int): (n: nat)
    ensures 1 <= n <= 4
  {
    if a < 128 || a > 0xF7 then 1
    else if distance != 1 && distance != 2 && a > 0xEF then 4
    else if distance != 1 && a > 0xDF then 3
    else if a > 0xBF then 2
    else 1
  }

  /** What the slow path makes of its bytes, with -1 for an invalid sequence. */
  function Checked(a: int, b: Byte, c: Byte, d: Byte, min: int): int
    requires 0 <= a
  {
    if !Continues(b, c, d) then -1
    else
      var v := a * 262144 + b % 64 * 4096 + c % 64 * 64 + d % 64;
      if v < min || v > 0x10FFFF || 0xD800 <= v <= 0xDFFF then -1 else v
  }

  // ----- decoding any bytes -----

  /** uv__utf8_decode1 can be called at p: what it reads is there. */
  predicate CanRead(text: seq<Byte>, p: nat, pe: nat) {
    p < |text| && p + Reads(text[p], p + 1 - pe) <= |text|
  }

  function Next(text: seq<Byte>, p: nat, pe: nat): (next: nat)
    requires CanRead(text, p, pe)
    ensures p < next <= |text|
  {
    p + Reads(text[p], p + 1 - pe)
  }

  /** What is read at p: a code point, or -1. */
  function Value(text: seq<Byte>, p: nat, pe: nat): (c: int)
    requires CanRead(text, p, pe)
    ensures c == -1 || Scalar(c)
  {
    var a, n := text[p], Reads(text[p], p + 1 - pe);
    if a < 128 then a
    else if n == 4 then Checked(a % 8, text[p + 1], text[p + 2], text[p + 3], 0x10000)
    else if n == 3 then Checked(0, 0x80 + a % 16, text[p + 1], text[p + 2], 0x800)
    else if n == 2 then Checked(0, 0x80, 0x80 + a % 32, text[p + 1], 0x80)
    else -1
  }

  /** Wherever the end is, if it is not at p, the same is read. */
  lemma SameRead(text: seq<Byte>, p: nat, pe: nat, end: nat)
    requires p < pe && p < end && p < |text|
    ensures CanRead(text, p, pe) <==> CanRead(text, p, end)
    ensures CanRead(text, p, pe) ==>
              Next(text, p, pe) == Next(text, p, end) && Value(text, p, pe) == Value(text, p, end)
  {
  }

  /** uv__utf8_decode1; in the last step of a loop it is called at pe itself. */
  method Decode1(text: seq<Byte>, p: nat, pe: nat) returns (c: int, next: nat)
    requires CanRead(text, p, pe)
    ensures c == Value(text, p, pe) && next == Next(text, p, pe)
  {
    c := text[p];
    next := p + 1;
    if c >= 128 {
      c, next := Decode1Slow(text, next, pe, c);
    }
  }

  method Decode1Slow(text: seq<Byte>, p: nat, pe: nat, lead: Byte) returns (c: int, next: nat)
    requires p > 0 && CanRead(text, p - 1, pe) && lead == text[p - 1] >= 128
    ensures c == Value(text, p - 1, pe) && next == Next(text, p - 1, pe)
  {
    var a: int := lead;
    next := p;
    if a > 0xF7 {
      return -1, next;
    }
    var b, c', d, min;
    var distance := p - pe;
    if distance != 1 && distance != 2 && a > 0xEF {
      min := 0x10000;
      a := a % 8;
      b, c', d := text[next], text[next + 1], text[next + 2];
      next := next + 3;
    } else if distance != 1 && a > 0xDF {
      min := 0x800;
      b := 0x80 + a % 16;
      c', d := text[next], text[next + 1];
      next := next + 2;
      a := 0;
    } else if a > 0xBF {
      min := 0x80;
      b := 0x80;
      c' := 0x80 + a % 32;
      d := text[next];
      next := next + 1;
      a := 0;
    } else {
      return -1, next;
    }
    c := Checked(a, b, c', d, min);
  }

  // ----- going through bytes -----

  /** foreach_codepoint can go from p to pe. */
  predicate Readable(text: seq<Byte>, p: nat, pe: nat)
    decreases pe + 1 - p
  {
    p <= pe ==> CanRead(text, p, pe) && (Next(text, p, pe) <= pe ==> Readable(text, Next(text, p, pe), pe))
  }

  /** The code points, with -1 for what is none, that foreach_codepoint goes through: what would end past pe is not
      among them. */
  function Points(text: seq<Byte>, p: nat, pe: nat): (cs: seq<int>)
    requires Readable(text, p, pe)
    ensures forall i :: 0 <= i < |cs| ==> cs[i] == -1 || Scalar(cs[i])
    decreases pe + 1 - p
  {
    if p > pe || Next(text, p, pe) > pe then []
    else [Value(text, p, pe)] + Points(text, Next(text, p, pe), pe)
  }
}
