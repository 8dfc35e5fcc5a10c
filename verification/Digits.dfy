/** Numbers in decimal and hexadecimal, as printf writes them. */
module Digits {
  function Digit(n: nat): char
    requires n < 16
  {
    if n < 10 then '0' + n as char else 'a' + (n - 10) as char
  }

  /** "%u". */
  function Decimal(n: nat): (s: string)
    ensures |s| >= 1 && (n < 10 <==> |s| == 1)
  {
    if n < 10 then [Digit(n)] else Decimal(n / 10) + [Digit(n % 10)]
  }

  /** "%x". */
  function Hex(n: nat): (s: string)
    ensures |s| >= 1
  {
    if n < 16 then [Digit(n)] else Hex(n / 16) + [Digit(n % 16)]
  }

  /** The value of a digit, in lower case. */
  function Worth(c: char): int {
    if '0' <= c <= '9' then c as int - 48 else if 'a' <= c <= 'f' then c as int - 87 else -1
  }

  /** The value of a numeral. */
  function Meaning(s: string, base: nat): int {
    if s == "" then 0 else Meaning(s[..|s| - 1], base) * base + Worth(s[|s| - 1])
  }

  lemma MeaningOn(s: string, c: char, base: nat)
    ensures Meaning(s + [c], base) == Meaning(s, base) * base + Worth(c)
  {
    assert (s + [c])[..|s|] == s;
  }

  lemma OneDigit(n: nat, base: nat)
    requires n < 16
    ensures Worth(Digit(n)) == n && Meaning([Digit(n)], base) == n
    ensures if n < 10 then '0' <= Digit(n) <= '9' else 'a' <= Digit(n) <= 'f'
    ensures n > 0 ==> Digit(n) != '0'
  {
    assert [Digit(n)][..0] == "" && Meaning("", base) * base == 0;
  }

  /** The decimal numeral, with no leading zero. */
  lemma {:induction false} DecimalSpells(n: nat)
    ensures Meaning(Decimal(n), 10) == n && (n > 0 ==> Decimal(n)[0] != '0')
    ensures forall k :: 0 <= k < |Decimal(n)| ==> '0' <= Decimal(n)[k] <= '9'
  {
    OneDigit(n % 10, 10);
    if n >= 10 {
      DecimalSpells(n / 10);
      MeaningOn(Decimal(n / 10), Digit(n % 10), 10);
      DecimalOn(n);
    }
  }

  lemma DecimalOn(n: nat)
    requires n >= 10
    ensures Decimal(n) == Decimal(n / 10) + [Digit(n % 10)] && n / 10 > 0 && n == n / 10 * 10 + n % 10
  {
  }

  /** The hexadecimal numeral in lower case, with no leading zero. */
  lemma {:induction false} HexSpells(n: nat)
    ensures Meaning(Hex(n), 16) == n && (n > 0 ==> Hex(n)[0] != '0')
    ensures forall k :: 0 <= k < |Hex(n)| ==> '0' <= Hex(n)[k] <= '9' || 'a' <= Hex(n)[k] <= 'f'
  {
    OneDigit(n % 16, 16);
    if n >= 16 {
      HexSpells(n / 16);
      MeaningOn(Hex(n / 16), Digit(n % 16), 16);
      HexOn(n);
    }
  }

  lemma HexOn(n: nat)
    requires n >= 16
    ensures Hex(n) == Hex(n / 16) + [Digit(n % 16)] && n / 16 > 0 && n == n / 16 * 16 + n % 16
  {
  }

  lemma HexShort(n: nat)
    requires n < 65536
    ensures |Hex(n)| <= 4
  {
    if n >= 16 {
      assert |Hex(n / 16)| == if n / 16 < 16 then 1 else |Hex(n / 16 / 16)| + 1;
      assert n / 16 >= 16 ==> |Hex(n / 16 / 16)| == if n / 16 / 16 < 16 then 1 else |Hex(n / 16 / 16 / 16)| + 1;
    }
  }

  lemma DecimalShort(n: nat)
    requires n < 256
    ensures |Decimal(n)| <= 3
  {
    if n >= 10 {
      assert |Decimal(n / 10)| == if n / 10 < 10 then 1 else |Decimal(n / 10 / 10)| + 1;
    }
  }

  function Repeat(c: char, n: nat): (s: string)
    ensures |s| == n && forall k :: 0 <= k < n ==> s[k] == c
  {
    seq(n, _ => c)
  }

  /** The digits of a number after zeros up to a width. */
  function Padded(digits: string, width: nat): string {
    (if width > |digits| then Repeat('0', width - |digits|) else "") + digits
  }

  lemma PaddedIs(digits: string, width: nat)
    ensures var text, zeros := Padded(digits, width), if width > |digits| then width - |digits| else 0;
      && |text| == zeros + |digits| && text[zeros..] == digits && forall k :: 0 <= k < zeros ==> text[k] == '0'
  {
  }
}
