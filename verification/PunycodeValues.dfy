/** What RFC 3492 sets as numbers, and what labels become by them. */
module PunycodeValues {
  import opened Utf8
  import opened Punycode
  import opened IdnaAscii

  // ----- the parameters of section 5 -----

  /** tmin 1 and tmax 26. */
  lemma ThresholdIs(k: nat, bias: nat)
    ensures k <= bias + 1 ==> Threshold(k, bias) == 1
    ensures k >= bias + 26 ==> Threshold(k, bias) == 26
    ensures bias + 1 <= k <= bias + 26 ==> Threshold(k, bias) == k - bias
  {
  }

  const ALPHABET := "abcdefghijklmnopqrstuvwxyz0123456789"

  lemma AlphabetIs(d: nat)
    requires d < 36
    ensures |ALPHABET| == 36 && Alphabet(d) == ALPHABET[d] as int
  {
    assert d < 13 ==> ALPHABET[d] == "abcdefghijklm"[d];
  }

  function Power(j: nat): (p: nat)
    ensures p > 0
  {
    if j == 0 then 1 else 35 * Power(j - 1)
  }

  lemma DividedAgain(d: nat, p: nat)
    requires p > 0
    ensures d / 35 / p == d / (35 * p)
  {
    var x, y := d / 35, d / 35 / p;
    assert d == 35 * x + d % 35 && x == p * y + x % p;
    assert d == 35 * p * y + (35 * (x % p) + d % 35);
    assert 35 * (x % p) + d % 35 < 35 * p;
    Quotients(d, 35 * p, y, 35 * (x % p) + d % 35);
  }

  lemma Quotients(d: nat, m: nat, y: nat, r: nat)
    requires m > 0 && d == m * y + r && r < m
    ensures d / m == y
  {
    assert d == m * (d / m) + d % m;
    assert m * (d / m - y) == r - d % m;
    NoMultiple(m, d / m - y);
  }

  lemma NoMultiple(m: nat, z: int)
    requires 0 - m < m * z < m
    ensures z == 0
  {
  }

  /** Section 6.1, in one step: delta is divided by 35 until it is at most 455. */
  lemma {:induction false} SettleIs(delta: nat, k: nat) returns (j: nat, x: nat)
    ensures x == delta / Power(j) <= 455 && (j > 0 ==> delta / Power(j - 1) > 455)
    ensures Settle(delta, k) == k + 36 * j + 36 * x / (x + 38)
    decreases delta
  {
    if delta <= 455 {
      j, x := 0, delta;
    } else {
      var j0;
      j0, x := SettleIs(delta / 35, k + 36);
      j := j0 + 1;
      DividedAgain(delta, Power(j0));
      if j0 > 0 {
        DividedAgain(delta, Power(j0 - 1));
      }
    }
  }

  /** e is delta over 700 the first time, and half of it later, and that over the number of code points more. */
  lemma AdaptIs(delta: nat, points: nat, first: bool, d: nat, e: nat) returns (j: nat, x: nat)
    requires points > 0 && d == (if first then delta / 700 else delta / 2) && e == d + d / points
    ensures x == e / Power(j) <= 455 && (j > 0 ==> e / Power(j - 1) > 455)
    ensures Adapt(delta, points, first) == 36 * j + 36 * x / (x + 38)
  {
    j, x := SettleIs(e, 0);
  }

  // ----- labels -----

  function Bytes(text: string): seq<Byte>
    requires forall i :: 0 <= i < |text| ==> text[i] < 128 as char
  {
    seq(|text|, i requires 0 <= i < |text| => text[i] as int)
  }

  lemma Less(cs: seq<int>, j: nat, st: Encoder)
    requires j < |cs| && cs[j] < st.n
    ensures Pass(cs, j, st) == Pass(cs, j + 1, st.(delta := st.delta + 1))
  {
  }

  lemma Greater(cs: seq<int>, j: nat, st: Encoder)
    requires j < |cs| && cs[j] > st.n
    ensures Pass(cs, j, st) == Pass(cs, j + 1, st)
  {
  }

  lemma At(cs: seq<int>, j: nat, st: Encoder, written: seq<Byte>, bias: nat)
    requires j < |cs| && cs[j] == st.n && written == WriteInt(st.delta, 36, st.bias)
             && bias == Adapt(st.delta, st.h + 1, st.first)
    ensures var rest := Pass(cs, j + 1, Encoder(st.n, 0, st.h + 1, bias, false));
      Pass(cs, j, st) == (rest.0, written + rest.1)
  {
  }

  lemma End(cs: seq<int>, st: Encoder)
    ensures Pass(cs, |cs|, st) == (st, [])
  {
  }

  /** Three digits. */
  lemma Three(q: nat, bias: nat, q1: nat, q2: nat, t: nat, u: nat, v: nat)
    requires t == Threshold(36, bias) && u == Threshold(72, bias) && v == Threshold(108, bias)
    requires q >= t && q1 == (q - t) / (36 - t) >= u && q2 == (q1 - u) / (36 - u) < v
    ensures WriteInt(q, 36, bias)
      == [Alphabet(t + (q - t) % (36 - t)), Alphabet(u + (q1 - u) % (36 - u)), Alphabet(q2)]
  {
    WriteStep(q, 36, bias, t + (q - t) % (36 - t), q1);
    WriteStep(q1, 72, bias, u + (q1 - u) % (36 - u), q2);
    WriteLast(q2, 108, bias);
  }

  // ----- a label with one code point that is not ASCII -----

  const BUECHER: seq<int> := [98, 252, 99, 104, 101, 114]

  lemma BuecherWritten()
    ensures WriteInt(745, 36, 72) == Bytes("kva") && Adapt(745, 6, true) == 0
  {
    Three(745, 72, 21, 0, 1, 1, 26);
    BuecherBias();
  }

  lemma BuecherBias()
    ensures Adapt(745, 6, true) == 0
  {
  }

  /** The pass for the second of six code points, when the others are less. */
  lemma SecondOfSix(cs: seq<int>, n: nat, delta: nat, h: nat, bias: nat, written: seq<Byte>, bias': nat)
    requires |cs| == 6 && cs[1] == n && cs[0] < n && cs[2] < n && cs[3] < n && cs[4] < n && cs[5] < n
    requires written == WriteInt(delta + 1, 36, bias) && bias' == Adapt(delta + 1, h + 1, true)
    ensures Pass(cs, 0, Encoder(n, delta, h, bias, true)) == (Encoder(n, 4, h + 1, bias', false), written)
  {
    Less(cs, 0, Encoder(n, delta, h, bias, true));
    At(cs, 1, Encoder(n, delta + 1, h, bias, true), written, bias');
    Less(cs, 2, Encoder(n, 0, h + 1, bias', false));
    Less(cs, 3, Encoder(n, 1, h + 1, bias', false));
    Less(cs, 4, Encoder(n, 2, h + 1, bias', false));
    Less(cs, 5, Encoder(n, 3, h + 1, bias', false));
    End(cs, Encoder(n, 4, h + 1, bias', false));
    assert written + [] == written;
  }

  lemma BuecherStarts()
    ensures Scalars(BUECHER) && Basic(BUECHER) == Bytes("bcher") && NextPoint(BUECHER, 128) == 252
            && NextPoint(BUECHER, 253) == -1
  {
    var cs := BUECHER;
    assert cs[1..] == [252, 99, 104, 101, 114] && cs[1..][1..] == [99, 104, 101, 114];
    assert Basic([99, 104, 101, 114]) == [99, 104, 101, 114] by {
      assert [99, 104, 101, 114][1..] == [104, 101, 114] && [104, 101, 114][1..] == [101, 114];
      assert [101, 114][1..] == [114] && [114][1..] == [];
    }
    assert cs[1] == 252;
  }

  /** One pass and what comes after it. */
  lemma RoundIs(cs: seq<int>, st: Encoder, m: nat, end: Encoder, digits: seq<Byte>, next: Encoder, more: seq<Byte>)
    requires Scalars(cs) && NextPoint(cs, st.n) == m && Pass(cs, 0, Skipped(st, m)) == (end, digits)
    requires next == end.(delta := end.delta + 1, n := m + 1) && Rounds(cs, next) == more
    ensures Rounds(cs, st) == digits + more
  {
    RoundsStep(cs, st, m, end, digits);
  }

  lemma NoRound(cs: seq<int>, st: Encoder)
    requires Scalars(cs) && NextPoint(cs, st.n) == -1
    ensures Rounds(cs, st) == []
  {
  }

  lemma LastIs(cs: seq<int>, st: Encoder, m: nat, end: Encoder, digits: seq<Byte>)
    requires Scalars(cs) && NextPoint(cs, st.n) == m && Pass(cs, 0, Skipped(st, m)) == (end, digits)
    requires NextPoint(cs, m + 1) == -1
    ensures Rounds(cs, st) == digits
  {
    var next := end.(delta := end.delta + 1, n := m + 1);
    NoRound(cs, next);
    RoundIs(cs, st, m, end, digits, next, []);
    assert digits + [] == digits;
  }

  lemma BuecherRounds()
    ensures Scalars(BUECHER) && Rounds(BUECHER, Encoder(128, 0, 5, 72, true)) == Bytes("kva")
  {
    BuecherStarts();
    BuecherWritten();
    SecondOfSix(BUECHER, 252, 744, 5, 72, Bytes("kva"), 0);
    LastIs(BUECHER, Encoder(128, 0, 5, 72, true), 252, Encoder(252, 4, 6, 0, false), Bytes("kva"));
  }

  lemma AceOf(cs: seq<int>, basic: seq<Byte>, digits: seq<Byte>)
    requires Scalars(cs) && Basic(cs) == basic && |basic| != |cs|
             && Rounds(cs, Encoder(128, 0, |basic|, 72, true)) == digits
    ensures Ace(cs) == PREFIX + (basic + (if basic != [] then [45] else []) + digits)
  {
  }

  /** The label is written as it should be. */
  lemma BuecherIs()
    ensures Scalars(BUECHER) && Ace(BUECHER) == Bytes("xn--bcher-kva")
  {
    BuecherStarts();
    BuecherRounds();
    AceOf(BUECHER, Bytes("bcher"), Bytes("kva"));
    BuecherText();
  }

  lemma BuecherText()
    ensures PREFIX + (Bytes("bcher") + [45] + Bytes("kva")) == Bytes("xn--bcher-kva")
  {
  }

  // ----- a label of three such code points -----

  const NIHONGO: seq<int> := [26085, 26412, 35486]

  /** The passes for the first, the second and the third of three code points in increasing order. */
  lemma FirstOfThree(cs: seq<int>, n: nat, st: Encoder, written: seq<Byte>, bias: nat)
    requires |cs| == 3 && st.n == n == cs[0] < cs[1] && n < cs[2]
    requires written == WriteInt(st.delta, 36, st.bias) && bias == Adapt(st.delta, st.h + 1, st.first)
    ensures Pass(cs, 0, st) == (Encoder(n, 0, st.h + 1, bias, false), written)
  {
    At(cs, 0, st, written, bias);
    Greater(cs, 1, Encoder(n, 0, st.h + 1, bias, false));
    Greater(cs, 2, Encoder(n, 0, st.h + 1, bias, false));
    End(cs, Encoder(n, 0, st.h + 1, bias, false));
    assert written + [] == written;
  }

  lemma SecondOfThree(cs: seq<int>, n: nat, st: Encoder, written: seq<Byte>, bias: nat)
    requires |cs| == 3 && cs[0] < st.n == n == cs[1] < cs[2]
    requires written == WriteInt(st.delta + 1, 36, st.bias) && bias == Adapt(st.delta + 1, st.h + 1, st.first)
    ensures Pass(cs, 0, st) == (Encoder(n, 0, st.h + 1, bias, false), written)
  {
    Less(cs, 0, st);
    At(cs, 1, st.(delta := st.delta + 1), written, bias);
    Greater(cs, 2, Encoder(n, 0, st.h + 1, bias, false));
    End(cs, Encoder(n, 0, st.h + 1, bias, false));
    assert written + [] == written;
  }

  lemma ThirdOfThree(cs: seq<int>, n: nat, st: Encoder, written: seq<Byte>, bias: nat)
    requires |cs| == 3 && cs[0] < n && cs[1] < st.n == n == cs[2]
    requires written == WriteInt(st.delta + 2, 36, st.bias) && bias == Adapt(st.delta + 2, st.h + 1, st.first)
    ensures Pass(cs, 0, st) == (Encoder(n, 0, st.h + 1, bias, false), written)
  {
    Less(cs, 0, st);
    Less(cs, 1, st.(delta := st.delta + 1));
    At(cs, 2, st.(delta := st.delta + 2), written, bias);
    End(cs, Encoder(n, 0, st.h + 1, bias, false));
    assert written + [] == written;
  }

  lemma ThreePoints(cs: seq<int>, a: nat, b: nat, c: nat)
    requires cs == [a, b, c] && 128 <= a < b < c
    ensures NextPoint(cs, 128) == a && NextPoint(cs, a + 1) == b && NextPoint(cs, b + 1) == c
            && NextPoint(cs, c + 1) == -1
  {
    assert cs[0] == a && cs[1] == b && cs[2] == c;
  }

  lemma LastRound(cs: seq<int>, a: nat, b: nat, c: nat, bias: nat, w: seq<Byte>, s: nat, bias': nat)
    requires Scalars(cs) && cs == [a, b, c] && 128 <= a < b < c
    requires s == 1 + (c - b - 1) * 3 && w == WriteInt(s + 2, 36, bias) && bias' == Adapt(s + 2, 3, false)
    ensures Rounds(cs, Encoder(b + 1, 1, 2, bias, false)) == w
  {
    ThreePoints(cs, a, b, c);
    ThirdOfThree(cs, c, Encoder(c, s, 2, bias, false), w, bias');
    assert Skipped(Encoder(b + 1, 1, 2, bias, false), c) == Encoder(c, s, 2, bias, false);
    LastIs(cs, Encoder(b + 1, 1, 2, bias, false), c, Encoder(c, 0, 3, bias', false), w);
  }

  lemma LastRounds(cs: seq<int>, a: nat, b: nat, c: nat, bias: nat, v: seq<Byte>, s: nat, bias': nat, w: seq<Byte>,
      s': nat)
    requires Scalars(cs) && cs == [a, b, c] && 128 <= a < b < c
    requires s == 1 + (b - a - 1) * 2 && v == WriteInt(s + 1, 36, bias) && bias' == Adapt(s + 1, 2, false)
    requires s' == 1 + (c - b - 1) * 3 && w == WriteInt(s' + 2, 36, bias')
    ensures Rounds(cs, Encoder(a + 1, 1, 1, bias, false)) == v + w
  {
    ThreePoints(cs, a, b, c);
    LastRound(cs, a, b, c, bias', w, s', Adapt(s' + 2, 3, false));
    SecondOfThree(cs, b, Encoder(b, s, 1, bias, false), v, bias');
    RoundIs(cs, Encoder(a + 1, 1, 1, bias, false), b, Encoder(b, 0, 2, bias', false), v,
            Encoder(b + 1, 1, 2, bias', false), w);
  }

  /** Three code points in increasing order: each is a pass, with the bias that the one before it leaves. */
  lemma RoundsOfThree(cs: seq<int>, a: nat, b: nat, c: nat, u: seq<Byte>, bias: nat, v: seq<Byte>, s: nat, bias': nat,
      w: seq<Byte>, s': nat)
    requires Scalars(cs) && cs == [a, b, c] && 128 <= a < b < c
    requires u == WriteInt(a - 128, 36, 72) && bias == Adapt(a - 128, 1, true)
    requires s == 1 + (b - a - 1) * 2 && v == WriteInt(s + 1, 36, bias) && bias' == Adapt(s + 1, 2, false)
    requires s' == 1 + (c - b - 1) * 3 && w == WriteInt(s' + 2, 36, bias')
    ensures Rounds(cs, Encoder(128, 0, 0, 72, true)) == u + (v + w)
  {
    ThreePoints(cs, a, b, c);
    LastRounds(cs, a, b, c, bias, v, s, bias', w, s');
    FirstOfThree(cs, a, Encoder(a, a - 128, 0, 72, true), u, bias);
    RoundIs(cs, Encoder(128, 0, 0, 72, true), a, Encoder(a, 0, 1, bias, false), u,
            Encoder(a + 1, 1, 1, bias, false), v + w);
  }

  lemma NihongoFirst()
    ensures WriteInt(25957, 36, 72) == Bytes("wgv")
  {
    Three(25957, 72, 741, 21, 1, 1, 26);
  }

  lemma NihongoSecond()
    ensures WriteInt(654, 36, 23) == Bytes("71a")
  {
    Three(654, 23, 27, 0, 13, 26, 26);
  }

  lemma NihongoLast()
    ensures WriteInt(27222, 36, 45) == Bytes("119e")
  {
    WriteStep(27222, 36, 45, 27, 777);
    WriteStep(777, 72, 45, 27, 75);
    WriteStep(75, 108, 45, 35, 4);
    WriteLast(4, 144, 45);
  }

  lemma NihongoBiases()
    ensures Adapt(25957, 1, true) == 23 && Adapt(654, 2, false) == 45
  {
    assert Settle(74, 0) == 23 && Settle(490, 0) == Settle(14, 36) == 45;
  }

  lemma NihongoRounds(cs: seq<int>)
    requires cs == NIHONGO
    ensures Scalars(cs) && Rounds(cs, Encoder(128, 0, 0, 72, true)) == Bytes("wgv") + (Bytes("71a") + Bytes("119e"))
  {
    NihongoFirst();
    NihongoSecond();
    NihongoLast();
    NihongoBiases();
    RoundsOfThree(cs, 26085, 26412, 35486, Bytes("wgv"), 23, Bytes("71a"), 653, 45, Bytes("119e"), 27220);
  }

  lemma NoneBasic(cs: seq<int>)
    requires Scalars(cs) && |cs| == 3 && cs[0] >= 128 && cs[1] >= 128 && cs[2] >= 128
    ensures Basic(cs) == []
  {
    assert [cs[2]][1..] == [] && Basic([cs[2]]) == [];
    assert [cs[1], cs[2]][1..] == [cs[2]] && Basic([cs[1], cs[2]]) == [];
    assert cs[1..] == [cs[1], cs[2]];
  }

  lemma AceOfThree(cs: seq<int>, digits: seq<Byte>, text: seq<Byte>)
    requires Scalars(cs) && |cs| == 3 && cs[0] >= 128 && cs[1] >= 128 && cs[2] >= 128
    requires Rounds(cs, Encoder(128, 0, 0, 72, true)) == digits && text == PREFIX + ([] + [] + digits)
    ensures Ace(cs) == text
  {
    NoneBasic(cs);
    AceOf(cs, [], digits);
  }

  lemma NihongoIs()
    ensures Scalars(NIHONGO) && Ace(NIHONGO) == Bytes("xn--wgv71a119e")
  {
    var cs, u, v, w, text := NIHONGO, Bytes("wgv"), Bytes("71a"), Bytes("119e"), Bytes("xn--wgv71a119e");
    NihongoRounds(cs);
    NihongoText();
    AceOfThree(cs, u + (v + w), text);
  }

  lemma NihongoText()
    ensures Bytes("xn--wgv71a119e") == PREFIX + ([] + [] + (Bytes("wgv") + (Bytes("71a") + Bytes("119e"))))
  {
  }

  // ----- full stops -----

  predicate NoStop(text: seq<int>) {
    forall i :: 0 <= i < |text| ==> text[i] !in {46, 12290, 65294, 65377}
  }

  lemma {:induction false} LabelGrows(part: seq<int>, text: seq<int>, rest: seq<int>)
    requires Scalars(part) && Scalars(text) && Scalars(rest) && NoStop(text)
    ensures Scalars(text + rest) && Scalars(part + text)
    ensures Name(part, text + rest) == Name(part + text, rest)
    decreases |text|
  {
    if text == [] {
      assert text + rest == rest && part + text == part;
    } else {
      assert (text + rest)[1..] == text[1..] + rest;
      assert part + [text[0]] + text[1..] == part + text;
      LabelGrows(part + [text[0]], text[1..], rest);
    }
  }

  /** These four code points end a label, and no other: it is written in its ASCII form, with a full stop after it. */
  lemma StopsAre(text: seq<int>, c: int, rest: seq<int>)
    requires Scalars(text) && Scalars(rest) && NoStop(text) && c in {46, 12290, 65294, 65377}
    ensures Scalars(text + ([c] + rest)) && Name([], text + ([c] + rest)) == Ace(text) + ([46] + Name([], rest))
    ensures Name([], text) == (if text != [] then Ace(text) else []) + [0]
  {
    LabelGrows([], text, [c] + rest);
    LabelGrows([], text, []);
    assert [] + text == text && text + [] == text && ([c] + rest)[1..] == rest;
  }
}
