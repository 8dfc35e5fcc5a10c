/** The names of archived log files (deps/zlog/src/rotater.c): how an index is written into one and read back. */
module ArchiveNames {
  import opened Digits

  const MAXLEN_PATH := 1024

  /** Where the archives of a log are: the parts of their path before and after the index, the least number of its
      digits, and the path of the log itself. */
  datatype Place = Place(base: string, prefix: string, suffix: string, width: nat)

  /** "%.*s%0*d%s". */
  function Name(a: Place, n: nat): string {
    a.prefix + Padded(Decimal(n), a.width) + a.suffix
  }

  /** No archive is the log itself. */
  ghost predicate Apart(a: Place) {
    forall n: nat :: Name(a, n) != a.base
  }

  /** No archive is the log itself or looks like a directory. */
  ghost predicate Proper(a: Place) {
    Apart(a) && (a.suffix != "" ==> a.suffix[|a.suffix| - 1] != '/')
  }

  /** The same, and the index can be told from what follows it. */
  ghost predicate Sensible(a: Place) {
    Proper(a) && (a.suffix != "" ==> !IsDigit(a.suffix[0]))
  }

  predicate IsDigit(c: char) {
    '0' <= c <= '9'
  }

  function DigitValue(c: char): nat
    requires IsDigit(c)
  {
    (c - '0') as int
  }

  predicate IsSpace(c: char) {
    c == ' ' || '\t' <= c <= '\r'
  }

  /** How many digits a text begins with. */
  function DigitRun(s: string): (n: nat)
    ensures n <= |s| && forall k :: 0 <= k < n ==> IsDigit(s[k])
    ensures n < |s| ==> !IsDigit(s[n])
  {
    if s == "" || !IsDigit(s[0]) then 0 else 1 + DigitRun(s[1..])
  }

  function NumberOf(digits: string): nat
    requires forall k :: 0 <= k < |digits| ==> IsDigit(digits[k])
  {
    if digits == "" then 0 else NumberOf(digits[..|digits| - 1]) * 10 + DigitValue(digits[|digits| - 1])
  }

  function SpaceRun(s: string): (n: nat)
    ensures n <= |s|
  {
    if s == "" || !IsSpace(s[0]) then 0 else 1 + SpaceRun(s[1..])
  }

  /** sscanf with "%d%n": the number, and how far it read; an index of 0 and nothing read when there is none. */
  function Scanned(s: string): (int, nat) {
    var skip := SpaceRun(s);
    var signed := skip < |s| && (s[skip] == '-' || s[skip] == '+');
    var from := skip + if signed then 1 else 0;
    var n := DigitRun(s[from..]);
    if n == 0 then (0, 0)
    else
      var v: int := NumberOf(s[from..][..n]);
      (if signed && s[skip] == '-' then -v else v, from + n)
  }

  // ----- what is read -----

  /** A numeral as section 7.21.6.2 of ISO/IEC 9899:2011 has it for "%d": white space, a sign, and digits. */
  datatype Numeral = Numeral(spaces: string, sign: string, digits: string)

  predicate IsNumeral(x: Numeral) {
    && (forall k :: 0 <= k < |x.spaces| ==> IsSpace(x.spaces[k])) && |x.sign| <= 1
    && (x.sign != "" ==> x.sign[0] == '+' || x.sign[0] == '-')
    && x.digits != "" && forall k :: 0 <= k < |x.digits| ==> IsDigit(x.digits[k])
  }

  function NumeralText(x: Numeral): string {
    x.spaces + (x.sign + x.digits)
  }

  lemma {:induction false} RunOfDigits(digits: string, rest: string)
    requires forall k :: 0 <= k < |digits| ==> IsDigit(digits[k])
    requires rest != "" ==> !IsDigit(rest[0])
    ensures DigitRun(digits + rest) == |digits|
  {
    if digits == "" {
      assert digits + rest == rest;
    } else {
      assert (digits + rest)[1..] == digits[1..] + rest;
      RunOfDigits(digits[1..], rest);
    }
  }

  function NumeralValue(x: Numeral): int
    requires IsNumeral(x)
  {
    if x.sign != "" && x.sign[0] == '-' then 0 - NumberOf(x.digits) else NumberOf(x.digits)
  }

  lemma {:induction false} RunOfSpaces(spaces: string, rest: string)
    requires forall k :: 0 <= k < |spaces| ==> IsSpace(spaces[k])
    requires rest != "" ==> !IsSpace(rest[0])
    ensures SpaceRun(spaces + rest) == |spaces|
  {
    if spaces == "" {
      assert spaces + rest == rest;
    } else {
      assert (spaces + rest)[1..] == spaces[1..] + rest;
      RunOfSpaces(spaces[1..], rest);
    }
  }

  /** A text that begins with a numeral. */
  lemma NumeralIsRead(s: string, x: Numeral, rest: string)
    requires s == NumeralText(x) + rest && IsNumeral(x) && (rest != "" ==> !IsDigit(rest[0]))
    ensures Scanned(s) == (NumeralValue(x), |NumeralText(x)|)
  {
    var skip := NumeralParts(s, x, rest);
    ScannedParts(s, skip, |x.sign|, x.digits, rest);
  }

  lemma NumeralParts(s: string, x: Numeral, rest: string) returns (skip: nat)
    requires s == NumeralText(x) + rest && IsNumeral(x) && (rest != "" ==> !IsDigit(rest[0]))
    ensures skip == SpaceRun(s) == |x.spaces| < |s| && s[skip + |x.sign|..] == x.digits + rest
    ensures |x.sign| == (if s[skip] == '-' || s[skip] == '+' then 1 else 0)
    ensures s[skip] == '-' <==> x.sign != "" && x.sign[0] == '-'
    ensures DigitRun(x.digits + rest) == |x.digits|
  {
    skip := |x.spaces|;
    Regrouped(x.spaces, x.sign, x.digits, rest);
    AfterSpaces(x, rest);
    RunOfSpaces(x.spaces, x.sign + (x.digits + rest));
    RunOfDigits(x.digits, rest);
  }

  lemma AfterSpaces(x: Numeral, rest: string)
    requires IsNumeral(x)
    ensures var after := x.sign + (x.digits + rest);
      && after != "" && !IsSpace(after[0]) && (after[0] == '-' <==> x.sign != "" && x.sign[0] == '-')
      && (after[0] == '-' || after[0] == '+' <==> |x.sign| == 1)
  {
    var after := x.sign + (x.digits + rest);
    assert after[0] == if x.sign == "" then x.digits[0] else x.sign[0];
  }

  lemma Regrouped(a: string, b: string, c: string, d: string)
    ensures a + (b + c) + d == a + (b + (c + d)) && (a + (b + (c + d)))[|a| + |b|..] == c + d
  {
  }

  lemma ScannedParts(s: string, skip: nat, sign: nat, digits: string, rest: string)
    requires skip == SpaceRun(s) < |s| && sign == (if s[skip] == '-' || s[skip] == '+' then 1 else 0)
    requires s[skip + sign..] == digits + rest && DigitRun(digits + rest) == |digits| > 0
    ensures Scanned(s) == (if s[skip] == '-' then 0 - NumberOf(digits) else NumberOf(digits), skip + sign + |digits|)
  {
    assert (digits + rest)[..|digits|] == digits;
  }

  lemma {:induction false} SpacesOf(s: string)
    ensures forall k :: 0 <= k < SpaceRun(s) ==> IsSpace(s[k])
  {
    if s != "" && IsSpace(s[0]) {
      SpacesOf(s[1..]);
      assert forall k :: 1 <= k < |s| ==> s[k] == s[1..][k - 1];
    }
  }

  /** Nothing else is read. */
  lemma ReadIsNumeral(s: string) returns (x: Numeral, rest: string)
    requires Scanned(s) != (0, 0)
    ensures IsNumeral(x) && (rest != "" ==> !IsDigit(rest[0])) && s == NumeralText(x) + rest
  {
    var skip := SpaceRun(s);
    SpacesOf(s);
    var from := skip + if skip < |s| && (s[skip] == '-' || s[skip] == '+') then 1 else 0;
    var end := from + DigitRun(s[from..]);
    CutInFour(s, skip, from, end);
    x, rest := Numeral(s[..skip], s[skip..from], s[from..end]), s[end..];
    RunIsDigits(s, from, end);
  }

  lemma CutInFour(s: string, i: nat, j: nat, k: nat)
    requires i <= j <= k <= |s|
    ensures s == s[..i] + (s[i..j] + s[j..k]) + s[k..]
  {
  }

  lemma RunIsDigits(s: string, from: nat, end: nat)
    requires from <= |s| && end == from + DigitRun(s[from..])
    ensures (forall k :: 0 <= k < |s[from..end]| ==> IsDigit(s[from..end][k])) && (end < |s| ==> !IsDigit(s[end]))
  {
    assert forall k :: from <= k < end ==> s[k] == s[from..][k - from];
  }

  // ----- reading back what was written -----

  lemma {:induction false} DecimalIsDigits(n: nat)
    ensures forall k :: 0 <= k < |Decimal(n)| ==> IsDigit(Decimal(n)[k])
    ensures NumberOf(Decimal(n)) == n
  {
    if n >= 10 {
      DecimalIsDigits(n / 10);
      assert Decimal(n)[..|Decimal(n)| - 1] == Decimal(n / 10);
    }
  }

  lemma {:induction false} ZerosAhead(z: nat, digits: string)
    requires forall k :: 0 <= k < |digits| ==> IsDigit(digits[k])
    ensures forall k :: 0 <= k < z + |digits| ==> IsDigit((Repeat('0', z) + digits)[k])
    ensures NumberOf(Repeat('0', z) + digits) == NumberOf(digits)
    decreases z + |digits|
  {
    var s := Repeat('0', z) + digits;
    if digits != "" {
      var init := digits[..|digits| - 1];
      ZerosAhead(z, init);
      assert s[..|s| - 1] == Repeat('0', z) + init;
    } else if z > 0 {
      ZerosAhead(z - 1, "");
      assert s[..|s| - 1] == Repeat('0', z - 1) + "";
    }
  }

  lemma PaddedIsDigits(n: nat, width: nat)
    ensures forall k :: 0 <= k < |Padded(Decimal(n), width)| ==> IsDigit(Padded(Decimal(n), width)[k])
    ensures NumberOf(Padded(Decimal(n), width)) == n && |Padded(Decimal(n), width)| >= width
  {
    DecimalIsDigits(n);
    var d := Decimal(n);
    if width > |d| {
      ZerosAhead(width - |d|, d);
    } else {
      assert "" + d == d;
    }
  }

  /** The decimal digits of n between the two parts, with no more zeros ahead than the width asks for. */
  lemma NameIs(a: Place, n: nat) returns (digits: string)
    ensures Name(a, n) == a.prefix + digits + a.suffix && |digits| >= a.width
    ensures (forall k :: 0 <= k < |digits| ==> IsDigit(digits[k])) && NumberOf(digits) == n
    ensures |digits| == a.width || digits == "0" || (digits != "" && digits[0] != '0')
  {
    digits := Padded(Decimal(n), a.width);
    PaddedIsDigits(n, a.width);
    DecimalSpells(n);
    assert "" + Decimal(n) == Decimal(n);
  }

  /** The index is read back from a name. */
  lemma NameIsRead(a: Place, n: nat)
    requires Sensible(a)
    ensures |a.prefix| <= |Name(a, n)| && Scanned(Name(a, n)[|a.prefix|..]).0 == n
            && Scanned(Name(a, n)[|a.prefix|..]).1 >= a.width
    ensures Scanned(Name(a, n)[|a.prefix|..]).1 > 0
  {
    var d := Padded(Decimal(n), a.width);
    PaddedIsDigits(n, a.width);
    ScanDigits(d, a.suffix);
    assert Name(a, n)[|a.prefix|..] == d + a.suffix;
  }

  /** Whatever follows it, at least the index is read. */
  lemma NameIsWide(a: Place, n: nat)
    ensures |a.prefix| <= |Name(a, n)| && Scanned(Name(a, n)[|a.prefix|..]).1 >= a.width
    ensures Scanned(Name(a, n)[|a.prefix|..]).1 > 0 && Scanned(Name(a, n)[|a.prefix|..]).0 >= n
  {
    var d := Padded(Decimal(n), a.width);
    PaddedIsDigits(n, a.width);
    DigitsAtLeast(d, a.suffix);
    var s := Name(a, n)[|a.prefix|..];
    assert s == d + a.suffix && s[0] == d[0] && s[..|d|] == d;
    PlainScan(s);
    NumberGrows(s[..DigitRun(s)], |d|);
    assert s[..DigitRun(s)][..|d|] == d;
  }

  lemma {:induction false} NumberGrows(digits: string, k: nat)
    requires (forall i :: 0 <= i < |digits| ==> IsDigit(digits[i])) && k <= |digits|
    ensures NumberOf(digits[..k]) <= NumberOf(digits)
  {
    if k < |digits| {
      assert digits[..|digits| - 1][..k] == digits[..k];
      NumberGrows(digits[..|digits| - 1], k);
    } else {
      assert digits[..k] == digits;
    }
  }

  lemma {:induction false} DigitsAtLeast(digits: string, rest: string)
    requires forall k :: 0 <= k < |digits| ==> IsDigit(digits[k])
    ensures DigitRun(digits + rest) >= |digits|
  {
    if digits != "" {
      assert (digits + rest)[1..] == digits[1..] + rest;
      DigitsAtLeast(digits[1..], rest);
    }
  }

  lemma ScanDigits(d: string, rest: string)
    requires d != "" && (forall k :: 0 <= k < |d| ==> IsDigit(d[k])) && (rest != "" ==> !IsDigit(rest[0]))
    ensures Scanned(d + rest) == (NumberOf(d), |d|)
  {
    var s := d + rest;
    RunOfDigits(d, rest);
    assert s[0] == d[0] && s[..|d|] == d;
    PlainScan(s);
  }

  /** Without white space and a sign. */
  lemma PlainScan(s: string)
    requires s != "" && IsDigit(s[0])
    ensures Scanned(s) == (NumberOf(s[..DigitRun(s)]), DigitRun(s))
  {
    assert SpaceRun(s) == 0 && s[0..] == s;
  }

  lemma NamesDiffer(a: Place, m: nat, n: nat)
    requires Name(a, m) == Name(a, n)
    ensures m == n
  {
    PaddedIsDigits(m, a.width);
    PaddedIsDigits(n, a.width);
    var d, e := Padded(Decimal(m), a.width), Padded(Decimal(n), a.width);
    assert Name(a, m)[|a.prefix|..|a.prefix| + |d|] == d && Name(a, n)[|a.prefix|..|a.prefix| + |e|] == e;
  }
}
