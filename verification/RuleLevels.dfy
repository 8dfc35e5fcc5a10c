/** The level bitmap of a rule of zlog, against the test the rule makes when it outputs: deps/zlog/src/rule.c. */
module RuleLevels {
  /** compare_char: '=', '!', '*' and '.'. */
  datatype Compare = Equal | Differs | Any | AtLeast

  const LEVELS := 256
  const BYTES := 32

  type Bitmap = seq<bv8>

  /** Bit k of a byte, from the left. */
  predicate Bit(a: bv8, k: int)
    requires 0 <= k < 8
  {
    (a >> (7 - k)) & 1 == 1
  }

  /** zlog_category_needless_level looks at this bit. */
  predicate BitOf(b: Bitmap, l: int)
    requires |b| == BYTES && 0 <= l < LEVELS
  {
    Bit(b[l / 8], l % 8)
  }

  /** zlog_rule_output: whether a rule outputs an event of a level. */
  predicate Outputs(compare: Compare, level: int, l: int) {
    match compare
    case Any => true
    case AtLeast => l >= level
    case Equal => l == level
    case Differs => l != level
  }

  /** '*' for every level, '.' from the level on, '=' at the level and '!' at every other. */
  lemma OutputsIff(compare: Compare, level: int, l: int)
    ensures compare == Any ==> Outputs(compare, level, l)
    ensures compare == AtLeast ==> (Outputs(compare, level, l) <==> level <= l)
    ensures compare == Equal ==> (Outputs(compare, level, l) <==> level == l)
    ensures compare == Differs ==> (Outputs(compare, level, l) <==> level < l || l < level)
  {
  }

  /** The lowest byte of an int. */
  function LowByte(x: bv32): bv8 {
    (x & 0xFF) as bv8
  }

  /** 1 << (7 - r) as it is stored in a byte; r is -1 for a level that is not in the list. */
  function OneBit(r: int): bv8
    requires -1 <= r < 8
  {
    LowByte((1 as bv32) << (7 - r))
  }

  /** ~(0xFF << (8 - r)) as it is stored in a byte. */
  function LastBits(r: int): bv8
    requires -1 <= r < 8
  {
    LowByte(!((0xFF as bv32) << (8 - r)))
  }

  lemma OneBitIs(r: int, k: int)
    requires -1 <= r < 8 && 0 <= k < 8
    ensures Bit(OneBit(r), k) <==> r == k
    ensures Bit(0xFF & !OneBit(r), k) <==> r != k
  {
    assert OneBit(-1) == 0 && OneBit(0) == 128 && OneBit(1) == 64 && OneBit(2) == 32 && OneBit(3) == 16;
    assert OneBit(4) == 8 && OneBit(5) == 4 && OneBit(6) == 2 && OneBit(7) == 1;
    EachBit(OneBit(r), k);
    EachBit(0xFF & !OneBit(r), k);
  }

  lemma LastBitsIs(r: int, k: int)
    requires -1 <= r < 8 && 0 <= k < 8
    ensures Bit(LastBits(r), k) <==> k >= r
  {
    assert LastBits(-1) == 255 && LastBits(0) == 255 && LastBits(1) == 127 && LastBits(2) == 63 && LastBits(3) == 31;
    assert LastBits(4) == 15 && LastBits(5) == 7 && LastBits(6) == 3 && LastBits(7) == 1;
    EachBit(LastBits(r), k);
  }

  lemma EachBit(a: bv8, k: int)
    requires 0 <= k < 8
    ensures Bit(a, k) <==>
              a & (if k == 0 then 128 else if k == 1 then 64 else if k == 2 then 32 else if k == 3 then 16
                   else if k == 4 then 8 else if k == 5 then 4 else if k == 6 then 2 else 1) != 0
  {
  }

  lemma EitherBit(a: bv8, b: bv8, k: int)
    requires 0 <= k < 8
    ensures Bit(a | b, k) <==> Bit(a, k) || Bit(b, k)
  {
    EachBit(a, k);
    EachBit(b, k);
    EachBit(a | b, k);
  }

  /** The quotient and the remainder of C, which round toward 0. */
  function Byte(level: int): (i: nat)
    requires -1 <= level < LEVELS
    ensures i < BYTES
  {
    if level < 0 then 0 else level / 8
  }

  function Rest(level: int): (r: int)
    requires -1 <= level < LEVELS
    ensures -1 <= r < 8
  {
    if level < 0 then level else level % 8
  }

  function Filled(v: bv8, n: nat): Bitmap {
    seq(n, _ => v)
  }

  /** The levels from one level on: part of a byte, and the bytes after it. */
  method FromLevel(level: int) returns (b: Bitmap)
    requires -1 <= level < LEVELS
    ensures |b| == BYTES && forall l :: 0 <= l < LEVELS ==> (BitOf(b, l) <==> l >= level)
  {
    b := Filled(0, BYTES);
    var i := Byte(level);
    b := b[i := b[i] | LastBits(Rest(level))];
    b := b[..i + 1] + Filled(0xFF, BYTES - i - 1);
    forall l | 0 <= l < LEVELS ensures BitOf(b, l) <==> l >= level {
      LastBitsIs(Rest(level), l % 8);
      EachBit(0, l % 8);
      EachBit(0xFF, l % 8);
      EitherBit(0, LastBits(Rest(level)), l % 8);
    }
  }

  lemma OneShows(level: int, b: Bitmap)
    requires -1 <= level < LEVELS
    ensures b == Filled(0, BYTES)[Byte(level) := 0 | OneBit(Rest(level))] ==> Shows(b, Equal, level)
    ensures b == Filled(0xFF, BYTES)[Byte(level) := 0xFF & !OneBit(Rest(level))] ==> Shows(b, Differs, level)
    ensures b == Filled(0xFF, BYTES) ==> Shows(b, Any, level)
  {
    forall l | 0 <= l < LEVELS
      ensures b == Filled(0, BYTES)[Byte(level) := 0 | OneBit(Rest(level))] ==> (BitOf(b, l) <==> l == level)
      ensures b == Filled(0xFF, BYTES)[Byte(level) := 0xFF & !OneBit(Rest(level))] ==> (BitOf(b, l) <==> l != level)
      ensures b == Filled(0xFF, BYTES) ==> BitOf(b, l)
    {
      OneBitIs(Rest(level), l % 8);
      EachBit(0, l % 8);
      EachBit(0xFF, l % 8);
      EitherBit(0, OneBit(Rest(level)), l % 8);
    }
  }

  /** The switch of zlog_rule_new: the bitmap says at which levels the rule outputs. */
  method LevelBitmap(compare: Compare, level: int) returns (b: Bitmap)
    requires -1 <= level < LEVELS
    ensures Shows(b, compare, level)
  {
    var i := Byte(level);
    match compare {
      case Equal =>
        b := Filled(0, BYTES);
        b := b[i := b[i] | OneBit(Rest(level))];
      case Differs =>
        b := Filled(0xFF, BYTES);
        b := b[i := b[i] & !OneBit(Rest(level))];
      case Any =>
        b := Filled(0xFF, BYTES);
      case AtLeast =>
        b := FromLevel(level);
    }
    OneShows(level, b);
  }

  ghost predicate Shows(b: Bitmap, compare: Compare, level: int) {
    |b| == BYTES && forall l :: 0 <= l < LEVELS ==> (BitOf(b, l) <==> Outputs(compare, level, l))
  }
}
