/** What inet_ntop writes, inet_pton reads back. */
module InetRoundTrip {
  import opened Digits
  import opened InetText
  import opened InetParse

  // ----- IPv4: the texts that are read are exactly the ones that are written -----

  /** What has been read when done holds the finished octets and cur the one being read. */
  ghost function Prefix4(done: seq<int>, cur: nat, sawDigit: bool): string
    requires forall k :: 0 <= k < |done| ==> 0 <= done[k]
  {
    (if done == [] then "" else Prefix4(done[..|done| - 1], done[|done| - 1], true) + ".") + (if sawDigit then
                                                                                                Decimal(cur)
                                                                                              else "")
  }

  lemma Prefix4Dot(done: seq<int>, cur: nat)
    requires forall k :: 0 <= k < |done| ==> 0 <= done[k]
    ensures Prefix4(done + [cur], 0, false) == Prefix4(done, cur, true) + "."
  {
    assert (done + [cur])[..|done|] == done;
  }

  lemma Prefix4Digit(done: seq<int>, cur: nat, sawDigit: bool, d: nat)
    requires (forall k :: 0 <= k < |done| ==> 0 <= done[k]) && d < 10 && (if sawDigit then cur > 0 else cur == 0)
    ensures Prefix4(done, cur * 10 + d, true) == Prefix4(done, cur, sawDigit) + [Digit(d)]
  {
    assert sawDigit ==> Decimal(cur * 10 + d) == Decimal(cur) + [Digit(d)];
  }

  lemma Prefix4Text(o: seq<int>)
    requires Octets(o, 4)
    ensures Prefix4(o[..3], o[3], true) == Text4(o)
  {
    assert o[..3][..2] == o[..2] && o[..2][..1] == o[..1];
    assert Prefix4(o[..1], o[1], true) == Decimal(o[0]) + "." + Decimal(o[1]);
    assert Prefix4(o[..2], o[2], true) == Decimal(o[0]) + "." + Decimal(o[1]) + "." + Decimal(o[2]);
  }

  /** Whatever is read is the text of the octets it is read as. */
  lemma {:induction false} ReadIsText4(text: string, i: nat, done: seq<int>, cur: nat, sawDigit: bool)
    requires i <= |text| && |done| < 4 && Octets(done, |done|) && cur < 256 && (!sawDigit ==> cur == 0)
    requires text[..i] == Prefix4(done, cur, sawDigit)
    ensures var r := Parse4From(text, i, done, cur, sawDigit);
            r.Parsed? ==> Octets(r.bytes, 4) && text == Text4(r.bytes)
    decreases |text| - i
  {
    var r := Parse4From(text, i, done, cur, sawDigit);
    if r.Parsed? {
      if i == |text| {
        assert text[..i] == text;
        Prefix4Text(done + [cur]);
        assert (done + [cur])[..3] == done;
      } else {
        var d := DecimalDigit(text[i]);
        assert text[..i + 1] == text[..i] + [text[i]];
        if d >= 0 {
          Prefix4Digit(done, cur, sawDigit, d);
          ReadIsText4(text, i + 1, done, cur * 10 + d, true);
        } else {
          Prefix4Dot(done, cur);
          ReadIsText4(text, i + 1, done + [cur], 0, false);
        }
      }
    }
  }

  lemma {:induction false} ReadDecimal(text: string, i: nat, done: seq<int>, n: nat)
    requires i + |Decimal(n)| <= |text| && text[i..i + |Decimal(n)|] == Decimal(n) && n < 256 && |done| < 4
    ensures Parse4From(text, i, done, 0, false) == Parse4From(text, i + |Decimal(n)|, done, n, true)
  {
    var m := i + |Decimal(n)| - 1;
    assert text[m] == text[i..i + |Decimal(n)|][|Decimal(n)| - 1] == Digit(n % 10);
    if n >= 10 {
      assert text[i..m] == text[i..i + |Decimal(n)|][..m - i] == Decimal(n / 10);
      ReadDecimal(text, i, done, n / 10);
    }
  }

  /** Reading one octet and the dot after it. */
  lemma ReadOctet(text: string, i: nat, done: seq<int>, n: nat, rest: string) returns (j: nat)
    requires i <= |text| && text[i..] == Decimal(n) + ("." + rest) && n < 256 && |done| < 3
    ensures j <= |text| && text[j..] == rest
    ensures Parse4From(text, i, done, 0, false) == Parse4From(text, j, done + [n], 0, false)
  {
    var m := i + |Decimal(n)|;
    j := m + 1;
    assert text[i..][..|Decimal(n)|] == text[i..m] == Decimal(n);
    assert text[m] == text[i..][m - i] == '.';
    assert text[i..][j - i..] == text[j..] == rest;
    ReadDecimal(text, i, done, n);
  }

  lemma ReadLastOctet(text: string, i: nat, done: seq<int>, n: nat)
    requires i <= |text| && text[i..] == Decimal(n) && n < 256 && |done| == 3
    ensures Parse4From(text, i, done, 0, false) == Parsed(done + [n])
  {
    assert text[i..i + |Decimal(n)|] == Decimal(n);
    ReadDecimal(text, i, done, n);
  }

  /** The dotted text with its parts grouped to the right. */
  lemma Text4Parts(o: seq<int>)
    requires Octets(o, 4)
    ensures Text4(o) == Decimal(o[0]) + ("." + (Decimal(o[1]) + ("." + (Decimal(o[2]) + ("." + Decimal(o[3]))))))
  {
  }

  lemma TextIsRead4(o: seq<int>)
    requires Octets(o, 4)
    ensures Parse4(Text4(o)) == Parsed(o)
  {
    Text4Parts(o);
    DottedIsRead(Text4(o), o[0], o[1], o[2], o[3]);
    assert [] + [o[0]] + [o[1]] + [o[2]] + [o[3]] == o;
  }

  lemma DottedIsRead(t: string, a: nat, b: nat, c: nat, d: nat)
    requires a < 256 && b < 256 && c < 256 && d < 256
    requires t == Decimal(a) + ("." + (Decimal(b) + ("." + (Decimal(c) + ("." + Decimal(d))))))
    ensures Parse4(t) == Parsed([] + [a] + [b] + [c] + [d])
  {
    assert t[0..] == t;
    var i := ReadOctet(t, 0, [], a, Decimal(b) + ("." + (Decimal(c) + ("." + Decimal(d)))));
    var j := ReadOctet(t, i, [] + [a], b, Decimal(c) + ("." + Decimal(d)));
    var k := ReadOctet(t, j, [] + [a] + [b], c, Decimal(d));
    ReadLastOctet(t, k, [] + [a] + [b] + [c], d);
  }

  /** inet_pton4 accepts exactly what inet_ntop4 writes, and reads it back. */
  lemma Exact4(text: string, o: seq<int>)
    requires Octets(o, 4)
    ensures Parse4(text) == Parsed(o) <==> text == Text4(o)
  {
    TextIsRead4(o);
    ReadIsText4(text, 0, [], 0, false);
  }

  // ----- IPv6 -----

  lemma {:induction false} ReadHex(text: string, i: nat, token: nat, out: seq<int>, colon: int, n: nat)
    requires token <= i && i + |Hex(n)| <= |text| && text[i..i + |Hex(n)|] == Hex(n) && |Hex(n)| <= 4
    ensures Parse6From(text, i, token, State(out, colon, 0, 0))
              == Parse6From(text, i + |Hex(n)|, token, State(out, colon, |Hex(n)|, n))
  {
    var m := i + |Hex(n)| - 1;
    LastDigit(text, i, n);
    if n >= 16 {
      ReadHex(text, i, token, out, colon, n / 16);
      ReadDigit(text, m, token, State(out, colon, m - i, n / 16));
      assert n / 16 * 16 + n % 16 == n;
    }
  }

  lemma ReadDigit(text: string, i: nat, token: nat, s: State)
    requires token <= i < |text| && HexDigit(text[i]) >= 0 && s.seen < 4
    ensures Parse6From(text, i, token, s)
              == Parse6From(text, i + 1, token, s.(seen := s.seen + 1, val := s.val * 16 + HexDigit(text[i])))
  {
  }

  lemma LastDigit(text: string, i: nat, n: nat)
    requires i + |Hex(n)| <= |text| && text[i..i + |Hex(n)|] == Hex(n)
    ensures HexDigit(text[i + |Hex(n)| - 1]) == n % 16
    ensures n >= 16 ==> |Hex(n)| == |Hex(n / 16)| + 1 && text[i..i + |Hex(n / 16)|] == Hex(n / 16)
  {
    var init := if n < 16 then "" else Hex(n / 16);
    assert Hex(n) == init + [Digit(n % 16)];
    Chopped(text, i, init, Digit(n % 16));
  }

  lemma Chopped(text: string, i: nat, init: string, last: char)
    requires i + |init| < |text| && text[i..i + |init| + 1] == init + [last]
    ensures text[i..i + |init|] == init && text[i + |init|] == last
  {
    var h := text[i..i + |init| + 1];
    assert h[|init|] == last && h[..|init|] == text[i..i + |init|];
  }

  /** The digits before a dot are read as a group first, and then once more as an address. */
  lemma {:induction false} ReadToDot(text: string, i: nat, token: nat, m: nat, s: State)
    requires token <= i <= m < |text| && text[m] == '.' && s.seen + (m - i) <= 4 && |s.out| + 4 <= 16
    requires forall k :: i <= k < m ==> DecimalDigit(text[k]) >= 0
    ensures Parse4(text[token..]).Parsed? ==>
              Parse6From(text, i, token, s) == Spread(s.out + Parse4(text[token..]).bytes, s.colon)
    decreases m - i
  {
    if i < m {
      ReadToDot(text, i + 1, token, m, s.(seen := s.seen + 1, val := s.val * 16 + HexDigit(text[i])));
    }
  }

  lemma {:induction false} DecimalDigits(n: nat)
    ensures forall k :: 0 <= k < |Decimal(n)| ==> DecimalDigit(Decimal(n)[k]) >= 0
  {
    if n >= 10 {
      DecimalDigits(n / 10);
    }
  }

  lemma ReadEncapsulated(text: string, i: nat, out: seq<int>, colon: int, o: seq<int>)
    requires i <= |text| && Octets(o, 4) && text[i..] == Text4(o) && |out| + 4 <= 16
    ensures Parse6From(text, i, i, State(out, colon, 0, 0)) == Spread(out + o, colon)
  {
    TextIsRead4(o);
    DecimalDigits(o[0]);
    DecimalShort(o[0]);
    Text4Parts(o);
    var m := i + |Decimal(o[0])|;
    assert text[m] == text[i..][m - i] == '.';
    forall k | i <= k < m ensures DecimalDigit(text[k]) >= 0 {
      assert text[k] == text[i..][k - i] == Decimal(o[0])[k - i];
    }
    ReadToDot(text, i, i, m, State(out, colon, 0, 0));
  }

  ghost predicate Shortens(words: seq<int>, run: Run) {
    if run.base == -1 then true else run.len >= 1 && Zeros(words, run.base, run.len)
  }

  /** Where the double colon is once everything before word i has been read. */
  ghost function ColonAt(run: Run, i: int): int {
    if run.base != -1 && run.base < i then 2 * run.base else -1
  }

  /** The bytes that have been stored then: those of the words before i, without the run. */
  ghost function Before(src: seq<int>, run: Run, i: nat): seq<int>
    requires Octets(src, 16) && i <= 8 && Shortens(Words(src), run) && !Inside(run, i)
  {
    if ColonAt(run, i) == -1 then src[..2 * i] else src[..2 * run.base] + src[2 * (run.base + run.len)..2 * i]
  }

  /** The text of the words from i on, without the colon before it. */
  ghost function Body(src: seq<int>, run: Run, i: nat): string
    requires Octets(src, 16) && i < 8
  {
    if EndsIn4(Words(src), run, i) then Text4(src[12..]) else Hex(Words(src)[i]) + Format(src, run, i + 1)
  }

  lemma FormatBody(src: seq<int>, run: Run, i: nat)
    requires Octets(src, 16) && i < 8 && !Inside(run, i)
    ensures Format(src, run, i) == (if i == 0 then "" else ":") + Body(src, run, i)
  {
  }

  /** What is written for the run: a colon of its own, and the one of the word after it or of the end. */
  lemma {:induction false} FormatRun(src: seq<int>, run: Run, i: nat)
    requires Octets(src, 16) && Inside(run, i) && run.base + run.len <= 8 && 0 <= run.base
    ensures Format(src, run, i) == (if i == run.base then ":" else "") + Format(src, run, run.base + run.len)
    decreases 8 - i
  {
    if i + 1 < run.base + run.len {
      FormatRun(src, run, i + 1);
    }
  }

  lemma AfterRun(src: seq<int>, run: Run)
    requires Octets(src, 16) && run.base != -1 && Shortens(Words(src), run)
    ensures Format(src, run, run.base) == ":" + Format(src, run, run.base + run.len)
    ensures Format(src, run, run.base + run.len)
              == ":" + if run.base + run.len == 8 then "" else Body(src, run, run.base + run.len)
  {
    FormatRun(src, run, run.base);
    if run.base + run.len < 8 {
      FormatBody(src, run, run.base + run.len);
    }
  }

  lemma WholeBack(src: seq<int>, run: Run)
    requires Octets(src, 16) && Shortens(Words(src), run)
    ensures Spread(Before(src, run, 8), ColonAt(run, 8)) == Parsed(src)
  {
    var b, e := 2 * run.base, 2 * (run.base + run.len);
    if run.base == -1 {
      assert src[..16] == src;
    } else {
      var out := src[..b] + src[e..16];
      assert out[..b] == src[..b] && out[b..] == src[e..];
      forall k | b <= k < e ensures src[k] == 0 {
        assert Words(src)[k / 2] == 0;
      }
      assert src[..b] + seq(16 - |out|, _ => 0) + src[e..] == src;
    }
  }

  /** Storing a word appends its two bytes. */
  lemma StoredWord(src: seq<int>, run: Run, i: nat, seen: nat) returns (s: State)
    requires Octets(src, 16) && i < 8 && Shortens(Words(src), run) && !Inside(run, i)
    ensures s == Stored(State(Before(src, run, i), ColonAt(run, i), seen, Words(src)[i]))
            && |Before(src, run, i)| + 2 <= 16
    ensures s == if Inside(run, i + 1) then State(src[..2 * run.base], -1, 0, 0)
                 else State(Before(src, run, i + 1), ColonAt(run, i + 1), 0, 0)
  {
    var w := Words(src)[i];
    s := Stored(State(Before(src, run, i), ColonAt(run, i), seen, w));
    assert w / 256 % 256 == src[2 * i] && w % 256 == src[2 * i + 1];
    assert [src[2 * i], src[2 * i + 1]] == src[2 * i..2 * i + 2];
    if ColonAt(run, i) == -1 {
      assert src[..2 * i] + src[2 * i..2 * i + 2] == src[..2 * i + 2];
    } else {
      var e := 2 * (run.base + run.len);
      assert src[e..2 * i] + src[2 * i..2 * i + 2] == src[e..2 * i + 2];
      Joined(src[..2 * run.base], src[e..2 * i], src[2 * i..2 * i + 2]);
    }
  }

  lemma Joined(a: seq<int>, b: seq<int>, c: seq<int>)
    ensures a + b + c == a + (b + c)
  {
  }

  lemma ReadColon(text: string, i: nat, token: nat, s: State)
    requires token <= i < |text| && text[i] == ':'
    ensures s.seen > 0 && i + 1 < |text| && |s.out| + 2 <= 16 ==>
              Parse6From(text, i, token, s) == Parse6From(text, i + 1, i + 1, Stored(s))
    ensures s.seen == 0 && s.colon < 0 ==>
              Parse6From(text, i, token, s) == Parse6From(text, i + 1, i + 1, s.(colon := |s.out|))
  {
  }

  /** Reading the digits of word i. */
  lemma ReadWord(text: string, p: nat, src: seq<int>, run: Run, i: nat, s: State, rest: string)
    returns (m: nat, s': State)
    requires Octets(src, 16) && i < 8 && p <= |text| && text[p..] == Hex(Words(src)[i]) + rest && s.seen == 0
             && s.val == 0
    ensures p < m <= |text| && text[m..] == rest && s' == State(s.out, s.colon, m - p, Words(src)[i])
    ensures Parse6From(text, p, p, s) == Parse6From(text, m, p, s')
  {
    var h := Hex(Words(src)[i]);
    m, s' := p + |h|, State(s.out, s.colon, |h|, Words(src)[i]);
    assert text[p..][..|h|] == text[p..m] == h;
    assert text[p..][|h|..] == text[m..] == rest;
    HexShort(Words(src)[i]);
    ReadHex(text, p, p, s.out, s.colon, Words(src)[i]);
  }

  lemma EncapsulatedBack(text: string, p: nat, src: seq<int>, run: Run, out: seq<int>)
    requires Octets(src, 16) && Shortens(Words(src), run) && EndsIn4(Words(src), run, 6)
    requires p <= |text| && text[p..] == Text4(src[12..]) && out == Before(src, run, 6)
    ensures Parse6From(text, p, p, State(out, ColonAt(run, 6), 0, 0)) == Parsed(src)
  {
    ReadEncapsulated(text, p, out, ColonAt(run, 6), src[12..]);
    EncapsulatedBytes(src, run);
    WholeBack(src, run);
  }

  lemma EncapsulatedBytes(src: seq<int>, run: Run)
    requires Octets(src, 16) && Shortens(Words(src), run) && EndsIn4(Words(src), run, 6)
    ensures Before(src, run, 6) + src[12..] == Before(src, run, 8) && |Before(src, run, 6)| <= 2
            && ColonAt(run, 6) == ColonAt(run, 8)
  {
    var e := 2 * run.len;
    assert src[e..12] + src[12..] == src[e..16];
    assert src[..0] == [];
  }

  lemma TwoColons(text: string, m: nat, rest: string)
    requires m <= |text| && text[m..] == ":" + (":" + rest)
    ensures m + 2 <= |text| && text[m] == ':' && text[m + 1] == ':' && text[m + 2..] == rest
  {
    assert text[m] == text[m..][0] && text[m + 1] == text[m..][1] && text[m + 2..] == text[m..][2..];
  }

  lemma OneColon(text: string, m: nat, rest: string)
    requires m <= |text| && text[m..] == ":" + rest && rest != ""
    ensures m + 1 < |text| && text[m] == ':' && text[m + 1..] == rest
  {
    assert text[m] == text[m..][0] && text[m + 1..] == text[m..][1..];
  }

  /** Reading both colons after the word before the run. */
  lemma ReadTwoColons(text: string, m: nat, token: nat, s: State)
    requires token <= m && m + 1 < |text| && text[m] == ':' && text[m + 1] == ':' && s.seen > 0 && |s.out| + 2 <= 16
             && s.colon == -1
    ensures Parse6From(text, m, token, s) == Parse6From(text, m + 2, m + 2, State(Stored(s).out, |Stored(s).out|, 0, 0))
  {
    ReadColon(text, m, token, s);
    ReadColon(text, m + 1, m + 1, Stored(s));
  }

  lemma BeforeAfterRun(src: seq<int>, run: Run)
    requires Octets(src, 16) && run.base != -1 && Shortens(Words(src), run)
    ensures var e := run.base + run.len;
      e <= 8 && Before(src, run, e) == src[..2 * run.base] && ColonAt(run, e) == 2 * run.base == |src[..2 * run.base]|
  {
    var e := 2 * (run.base + run.len);
    assert src[..2 * run.base] + src[e..e] == src[..2 * run.base];
  }

  lemma {:induction false} ParseRest(text: string, p: nat, src: seq<int>, run: Run, i: nat)
    requires Octets(src, 16) && i < 8 && Shortens(Words(src), run) && !Inside(run, i)
    requires p <= |text| && text[p..] == Body(src, run, i)
    ensures Parse6From(text, p, p, State(Before(src, run, i), ColonAt(run, i), 0, 0)) == Parsed(src)
    decreases 8 - i, 1
  {
    if EndsIn4(Words(src), run, i) {
      EncapsulatedBack(text, p, src, run, Before(src, run, i));
    } else {
      var m,
          s := ReadWord(text, p, src, run, i, State(Before(src, run, i), ColonAt(run, i), 0, 0),
          Format(src, run, i + 1));
      var s' := StoredWord(src, run, i, s.seen);
      if i < 7 && Inside(run, i + 1) {
        ParseRun(text, m, p, src, run, i, s);
      } else {
        ParseNext(text, m, p, src, run, i, s);
      }
    }
  }

  /** From the end of a word that is not before the run. */
  lemma {:induction false} ParseNext(text: string, m: nat, token: nat, src: seq<int>, run: Run, i: nat, s: State)
    requires Octets(src, 16) && i < 8 && Shortens(Words(src), run) && !Inside(run, i) && !Inside(run, i + 1)
             && token <= m <= |text|
    requires s.seen > 0 && |s.out| + 2 <= 16 && s.colon == ColonAt(run, i)
    requires Stored(s) == State(Before(src, run, i + 1), ColonAt(run, i + 1), 0, 0)
             && text[m..] == Format(src, run, i + 1)
    ensures Parse6From(text, m, token, s) == Parsed(src)
    decreases 8 - i, 0
  {
    if i == 7 {
      WholeBack(src, run);
      assert text[m..] == "";
    } else {
      FormatBody(src, run, i + 1);
      OneColon(text, m, Body(src, run, i + 1));
      ReadColon(text, m, token, s);
      ParseRest(text, m + 1, src, run, i + 1);
    }
  }

  /** From the end of the word before the run. */
  lemma {:induction false} ParseRun(text: string, m: nat, token: nat, src: seq<int>, run: Run, i: nat, s: State)
    requires Octets(src, 16) && run.base == i + 1 && i < 7 && Shortens(Words(src), run) && token <= m <= |text|
    requires s.seen > 0 && |s.out| + 2 <= 16 && s.colon == -1 && Stored(s) == State(src[..2 * run.base], -1, 0, 0)
    requires text[m..] == Format(src, run, run.base)
    ensures Parse6From(text, m, token, s) == Parsed(src)
    decreases 8 - i, 0
  {
    var e := run.base + run.len;
    AfterRun(src, run);
    TwoColons(text, m, if e == 8 then "" else Body(src, run, e));
    ReadTwoColons(text, m, token, s);
    BeforeAfterRun(src, run);
    if e == 8 {
      WholeBack(src, run);
    } else {
      ParseRest(text, m + 2, src, run, e);
    }
  }

  /** A written address does not begin with a colon unless its run does. */
  lemma {:induction false} HexFirst(n: nat)
    ensures HexDigit(Hex(n)[0]) >= 0
  {
    if n >= 16 {
      HexFirst(n / 16);
    }
  }

  /** Any way of shortening the same address reads back. */
  lemma FormatIsRead(src: seq<int>, run: Run)
    requires Octets(src, 16) && Shortens(Words(src), run)
    ensures Parse6(Format(src, run, 0)) == Parsed(src)
  {
    var text := Format(src, run, 0);
    assert text[0..] == text;
    if run.base == 0 {
      var e := run.len;
      AfterRun(src, run);
      TwoColons(text, 0, if e == 8 then "" else Body(src, run, e));
      ReadColon(text, 1, 1, State([], -1, 0, 0));
      BeforeAfterRun(src, run);
      if e == 8 {
        WholeBack(src, run);
      } else {
        ParseRest(text, 2, src, run, e);
      }
    } else {
      FormatBody(src, run, 0);
      HexFirst(Words(src)[0]);
      assert Before(src, run, 0) == [];
      ParseRest(text, 0, src, run, 0);
    }
  }

  /** What inet_ntop6 writes, inet_pton6 reads back. */
  lemma RoundTrip6(src: seq<int>, text: string)
    requires IsText6(src, text)
    ensures Parse6(text) == Parsed(src)
  {
    var run :| FirstLongest(Words(src), run) && text == Format(src, run, 0);
    FormatIsRead(src, run);
  }

  /** An address has one text, and a text is that of one address. */
  lemma OneText6(src: seq<int>, text: string, src': seq<int>, text': string)
    requires IsText6(src, text) && IsText6(src', text')
    ensures src == src' <==> text == text'
  {
    RoundTrip6(src, text);
    RoundTrip6(src', text');
    if src == src' {
      var run :| FirstLongest(Words(src), run) && text == Format(src, run, 0);
      var run' :| FirstLongest(Words(src), run') && text' == Format(src, run', 0);
      OneFirstLongest(Words(src), run, run');
      if run.base == -1 {
        FormatPlain(src, run, run', 0);
      }
    }
  }

  lemma {:induction false} FormatPlain(src: seq<int>, run: Run, run': Run, i: nat)
    requires Octets(src, 16) && run.base == -1 && run'.base == -1 && i <= 8
    ensures Format(src, run, i) == Format(src, run', i)
    decreases 8 - i
  {
    if i < 8 {
      FormatPlain(src, run, run', i + 1);
    }
  }

  // ----- zones -----

  lemma {:induction false} NoPercentHex(n: nat)
    ensures '%' !in Hex(n)
  {
    if n >= 16 {
      NoPercentHex(n / 16);
    }
  }

  lemma {:induction false} NoPercentDecimal(n: nat)
    ensures '%' !in Decimal(n)
  {
    if n >= 10 {
      NoPercentDecimal(n / 10);
    }
  }

  lemma {:induction false} NoPercent(src: seq<int>, run: Run, i: nat)
    requires Octets(src, 16) && i <= 8
    ensures '%' !in Format(src, run, i)
    decreases 8 - i
  {
    if i < 8 {
      NoPercent(src, run, i + 1);
      NoPercentHex(Words(src)[i]);
      forall k | 12 <= k < 16 {
        NoPercentDecimal(src[k]);
      }
      assert '%' !in Text4(src[12..]);
    }
  }

  /** A zone after a written address does not change what is read. */
  lemma ZoneIsIgnored(src: seq<int>, text: string, zone: string)
    requires IsText6(src, text)
    ensures ParseZone(text + "%" + zone) == Parsed(src)
  {
    var run :| FirstLongest(Words(src), run) && text == Format(src, run, 0);
    FormatFits(src, run, 0);
    NoPercent(src, run, 0);
    var t := text + "%" + zone;
    assert t[..|text|] == text;
    ZoneAt(t, |text|);
    RoundTrip6(src, text);
  }
}
