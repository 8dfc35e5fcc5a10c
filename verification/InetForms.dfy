/** Which text inet_ntop6 writes for which bytes. */
module InetForms {
  import opened Digits
  import opened InetText
  import opened InetGrammar

  /** The IPv4-mapped and IPv4-compatible addresses of section 2.5.5 of RFC 4291, but for the compatible ones whose
      first two octets are zero. */
  ghost predicate Dotted(src: seq<int>)
    requires Octets(src, 16)
  {
    && (forall k :: 0 <= k < 10 ==> src[k] == 0)
    && if src[10] == 0 && src[11] == 0 then src[12] != 0 || src[13] != 0 else src[10] == 255 && src[11] == 255
  }

  function Hexes(words: seq<int>): (gs: seq<string>)
    requires forall k :: 0 <= k < |words| ==> words[k] >= 0
    ensures |gs| == |words| && forall k :: 0 <= k < |gs| ==> gs[k] == Hex(words[k])
  {
    seq(|words|, k requires 0 <= k < |words| => Hex(words[k]))
  }

  /** Where the words that are written in hexadecimal end, and what is written after them. */
  ghost function WordsEnd(src: seq<int>): nat
    requires Octets(src, 16)
  {
    if Dotted(src) then 6 else 8
  }

  ghost function DottedPart(src: seq<int>): (tail: seq<int>)
    requires Octets(src, 16)
    ensures IsTail(tail)
  {
    if Dotted(src) then src[12..] else []
  }

  lemma DottedIff(src: seq<int>, run: Run)
    requires Octets(src, 16) && FirstLongest(Words(src), run)
    ensures Dotted(src) <==> !Inside(run, 6) && Encapsulates(Words(src), run)
    ensures Dotted(src) ==> run.base == 0 && run.len in {5, 6}
  {
    var words := Words(src);
    if Dotted(src) {
      forall k | 0 <= k < 5 ensures words[k] == 0 {
        assert words[k] == src[2 * k] * 256 + src[2 * k + 1];
      }
      assert Zeros(words, 0, 5);
      assert words[5] == src[10] * 256 + src[11] && words[6] == src[12] * 256 + src[13];
      if words[5] == 0 {
        assert Zeros(words, 0, 6);
      }
    }
    if !Inside(run, 6) && Encapsulates(words, run) {
      forall k | 0 <= k < 10 ensures src[k] == 0 {
        assert words[k / 2] == 0 && words[k / 2] == src[k / 2 * 2] * 256 + src[k / 2 * 2 + 1];
      }
      assert words[5] == src[10] * 256 + src[11] && words[6] == src[12] * 256 + src[13];
      assert run.len == 6 && words[6] == 0 ==> Zeros(words, 0, 7);
    }
  }

  lemma JoinedOn(words: seq<int>, i: nat, e: nat, tail: seq<int>)
    requires (forall k :: 0 <= k < |words| ==> words[k] >= 0) && i < e <= |words| && IsTail(tail)
    ensures Joined(Hexes(words[i..e]), tail)
      == Hex(words[i]) + (if i + 1 == e && tail == [] then "" else ":" + Joined(Hexes(words[i + 1..e]), tail))
  {
    assert Hexes(words[i..e])[1..] == Hexes(words[i + 1..e]);
  }

  /** After the run, or without one. */
  lemma {:induction false} AfterIs(src: seq<int>, run: Run, i: nat)
    requires Octets(src, 16) && FirstLongest(Words(src), run) && 0 < i < 8
    requires run.base == -1 || (run.base + run.len <= i && run.base >= 0)
    requires i <= WordsEnd(src)
    ensures Format(src, run, i) == ":" + Joined(Hexes(Words(src)[i..WordsEnd(src)]), DottedPart(src))
    decreases 8 - i
  {
    var words, e, tail := Words(src), WordsEnd(src), DottedPart(src);
    DottedIff(src, run);
    if i < e {
      JoinedOn(words, i, e, tail);
      if i < 7 {
        AfterIs(src, run, i + 1);
      }
    }
  }

  /** What comes after the double colon. */
  ghost function Right(src: seq<int>, run: Run): string
    requires Octets(src, 16) && run.base >= 0 && run.len >= 0 && run.base + run.len <= WordsEnd(src)
  {
    Joined(Hexes(Words(src)[run.base + run.len..WordsEnd(src)]), DottedPart(src))
  }

  lemma {:induction false} InsideIs(src: seq<int>, run: Run, i: nat)
    requires Octets(src, 16) && FirstLongest(Words(src), run) && run.base != -1 && run.base < i <= run.base + run.len
    ensures run.base >= 0 && run.base + run.len <= WordsEnd(src) && Format(src, run, i) == ":" + Right(src, run)
    decreases 8 - i
  {
    DottedIff(src, run);
    assert Zeros(Words(src), run.base, run.len);
    if i < run.base + run.len {
      InsideIs(src, run, i + 1);
    } else if i < 8 {
      AfterIs(src, run, i);
    }
  }

  lemma {:induction false} BeforeIs(src: seq<int>, run: Run, i: nat, right: string)
    requires Octets(src, 16) && FirstLongest(Words(src), run) && run.base != -1 && i <= run.base
    requires Format(src, run, run.base) == "::" + right
    ensures Format(src, run, i) == (if 0 < i < run.base then ":" else "")
                                   + (Joined(Hexes(Words(src)[i..run.base]), []) + ("::" + right))
    decreases 8 - i
  {
    if i < run.base {
      BeforeIs(src, run, i + 1, right);
      JoinedOn(Words(src), i, run.base, []);
      WordIs(src, run, i);
      OneMore(Hex(Words(src)[i]), Joined(Hexes(Words(src)[i + 1..run.base]), []), "::" + right, i + 1 < run.base,
              Joined(Hexes(Words(src)[i..run.base]), []), Format(src, run, i + 1));
    } else {
      assert Hexes(Words(src)[i..i]) == [];
    }
  }

  lemma OneMore(word: string, rest: string, tail: string, more: bool, all: string, after: string)
    requires all == word + (if more then ":" + rest else "") && (!more ==> rest == "")
    requires after == (if more then ":" else "") + (rest + tail)
    ensures word + after == all + tail
  {
    Regrouped(word, rest, tail);
  }

  lemma WordIs(src: seq<int>, run: Run, i: nat)
    requires Octets(src, 16) && i < run.base && i < 8
    ensures Format(src, run, i) == (if i != 0 then ":" else "") + (Hex(Words(src)[i]) + Format(src, run, i + 1))
  {
  }

  lemma Regrouped(a: string, b: string, c: string)
    ensures a + (":" + (b + c)) == (a + (":" + b)) + c
    ensures a + ("" + ("" + c)) == (a + "") + c
  {
  }

  lemma RunIs(src: seq<int>, run: Run)
    requires Octets(src, 16) && FirstLongest(Words(src), run) && run.base != -1
    ensures run.base >= 0 && run.base + run.len <= WordsEnd(src)
    ensures Format(src, run, run.base) == "::" + Right(src, run)
  {
    assert Zeros(Words(src), run.base, run.len);
    InsideIs(src, run, run.base + 1);
    assert ":" + (":" + Right(src, run)) == "::" + Right(src, run);
  }

  /** The form that is written: the words in hexadecimal without leading zeros, but for the first longest run of at
      least two zero words, and the last four octets as an IPv4 address for the dotted ones. */
  ghost function Written(src: seq<int>, run: Run): (x: Form)
    requires Octets(src, 16)
             && (run.base != -1 ==> 0 <= run.base && 0 <= run.len && run.base + run.len <= WordsEnd(src))
    ensures IsTail(x.tail)
  {
    var words, e := Words(src), WordsEnd(src);
    if run.base == -1 then Form(Hexes(words[..e]), false, [], DottedPart(src))
    else Form(Hexes(words[..run.base]), true, Hexes(words[run.base + run.len..e]), DottedPart(src))
  }

  lemma TextIs(src: seq<int>, text: string) returns (run: Run)
    requires IsText6(src, text)
    ensures FirstLongest(Words(src), run)
    ensures run.base != -1 ==> 0 <= run.base && 0 <= run.len && run.base + run.len <= WordsEnd(src)
    ensures text == FormText(Written(src, run))
  {
    run :| FirstLongest(Words(src), run) && text == Format(src, run, 0);
    if run.base == -1 {
      DottedIff(src, run);
      WithoutRun(src, run);
    } else {
      RunIs(src, run);
      BeforeIs(src, run, 0, Right(src, run));
    }
  }

  lemma WithoutRun(src: seq<int>, run: Run)
    requires Octets(src, 16) && FirstLongest(Words(src), run) && run.base == -1 && !Dotted(src)
    ensures Format(src, run, 0) == Joined(Hexes(Words(src)[..8]), [])
  {
    JoinedOn(Words(src), 0, 8, []);
    AfterIs(src, run, 1);
  }

  // ----- the dotted forms -----

  ghost predicate Mapped(src: seq<int>)
    requires Octets(src, 16)
  {
    (forall k :: 0 <= k < 10 ==> src[k] == 0) && src[10] == 255 && src[11] == 255
  }

  lemma MappedIs(src: seq<int>, text: string)
    requires IsText6(src, text) && (forall k :: 0 <= k < 10 ==> src[k] == 0) && src[10] == 255 && src[11] == 255
    ensures text == "::ffff:" + Text4(src[12..])
  {
    var run := TextIs(src, text);
    MappedRun(src, run);
    MappedWritten(src, run, Hex(0xffff));
    JoinedOne(Hex(0xffff), src[12..]);
    FormOne(Hex(0xffff), src[12..]);
    HexFfff();
    MappedText(Text4(src[12..]));
  }

  lemma MappedText(t: string)
    ensures "::" + ("ffff" + (":" + t)) == "::ffff:" + t
  {
  }

  lemma MappedRun(src: seq<int>, run: Run)
    requires Octets(src, 16) && Mapped(src) && FirstLongest(Words(src), run)
    ensures Dotted(src) && run.base == 0 && run.len == 5 && Words(src)[5] == 0xffff
  {
    DottedIff(src, run);
    assert Words(src)[5] == src[10] * 256 + src[11] == 0xffff;
  }

  lemma MappedWritten(src: seq<int>, run: Run, g: string)
    requires Octets(src, 16) && Dotted(src) && run.base == 0 && run.len == 5 && Words(src)[5] == 0xffff
             && g == Hex(0xffff)
    ensures Written(src, run) == Form([], true, [g], src[12..])
  {
    var words := Words(src);
    assert words[5..6] == [0xffff] && words[..0] == [];
    assert Hexes(words[5..6]) == [g] && Hexes(words[..0]) == [];
  }

  lemma JoinedOne(g: string, tail: seq<int>)
    requires Octets(tail, 4)
    ensures Joined([g], tail) == g + (":" + Text4(tail))
  {
    var gs := [g];
    assert gs[1..] == [];
  }

  lemma FormOne(g: string, tail: seq<int>)
    requires Octets(tail, 4) && Joined([g], tail) == g + (":" + Text4(tail))
    ensures FormText(Form([], true, [g], tail)) == "::" + (g + (":" + Text4(tail)))
  {
  }

  lemma HexFfff()
    ensures Hex(0xffff) == "ffff"
  {
    assert Hex(0xf) == "f" && Hex(0xff) == "f" + "f" && Hex(0xfff) == "ff" + "f";
  }

  lemma CompatibleIs(src: seq<int>, text: string)
    requires IsText6(src, text) && (forall k :: 0 <= k < 12 ==> src[k] == 0) && (src[12] != 0 || src[13] != 0)
    ensures text == "::" + Text4(src[12..])
  {
    var run := TextIs(src, text);
    SixZeros(src, run);
    var words := Words(src);
    assert words[..0] == [] && words[6..6] == [];
    assert Hexes(words[..0]) == [] && Hexes(words[6..6]) == [];
    assert Written(src, run) == Form([], true, [], src[12..]);
  }

  lemma SixZeros(src: seq<int>, run: Run)
    requires Octets(src, 16) && (forall k :: 0 <= k < 12 ==> src[k] == 0) && (src[12] != 0 || src[13] != 0)
             && FirstLongest(Words(src), run)
    ensures Dotted(src) && run.base == 0 && run.len == 6
  {
    DottedIff(src, run);
    var words := Words(src);
    forall k | 0 <= k < 6 ensures words[k] == 0 {
      assert words[k] == src[2 * k] * 256 + src[2 * k + 1];
    }
    assert Zeros(words, 0, 6);
  }

  /** With fourteen zero bytes the last word is written in hexadecimal, whatever it is: the source's test for a run of
      seven words is made only at the sixth, which is inside such a run. */
  lemma LastWordIs(src: seq<int>, text: string)
    requires IsText6(src, text) && (forall k :: 0 <= k < 14 ==> src[k] == 0)
    ensures text == "::" + if src[14] == 0 && src[15] == 0 then "" else Hex(src[14] * 256 + src[15])
  {
    var run := TextIs(src, text);
    var words := Words(src);
    forall k | 0 <= k < 7 ensures words[k] == 0 {
      assert words[k] == src[2 * k] * 256 + src[2 * k + 1];
    }
    assert words[7] == src[14] * 256 + src[15];
    assert Zeros(words, 0, 7) && (words[7] == 0 ==> Zeros(words, 0, 8));
    if words[7] != 0 {
      assert Hexes(words[7..8]) == [Hex(words[7])];
    }
  }

  // ----- all others -----

  predicate IsPlain(c: char) {
    c == ':' || '0' <= c <= '9' || 'a' <= c <= 'f'
  }

  predicate AllPlain(text: string) {
    forall k :: 0 <= k < |text| ==> IsPlain(text[k])
  }

  lemma {:induction false} JoinedPlain(gs: seq<string>)
    requires forall i, k :: 0 <= i < |gs| && 0 <= k < |gs[i]| ==> IsPlain(gs[i][k])
    ensures AllPlain(Joined(gs, []))
  {
    if gs != [] {
      forall i, k | 0 <= i < |gs[1..]| && 0 <= k < |gs[1..][i]| ensures IsPlain(gs[1..][i][k]) {
        assert gs[1..][i] == gs[i + 1];
      }
      JoinedPlain(gs[1..]);
    }
  }

  lemma HexesPlain(words: seq<int>)
    requires forall k :: 0 <= k < |words| ==> words[k] >= 0
    ensures AllPlain(Joined(Hexes(words), []))
  {
    forall i, k | 0 <= i < |words| && 0 <= k < |Hexes(words)[i]| ensures IsPlain(Hexes(words)[i][k]) {
      HexSpells(words[i]);
    }
    JoinedPlain(Hexes(words));
  }

  /** Every other address is written in lower-case hexadecimal digits and colons alone. */
  lemma PlainIs(src: seq<int>, text: string)
    requires IsText6(src, text)
    ensures AllPlain(text) <==> !Dotted(src)
  {
    var run := TextIs(src, text);
    if Dotted(src) {
      DottedHasDot(src, text);
    } else {
      PlainForm(src, run);
    }
  }

  lemma DottedHasDot(src: seq<int>, text: string)
    requires IsText6(src, text) && Dotted(src)
    ensures !AllPlain(text)
  {
    if src[10] == 0 && src[11] == 0 {
      CompatibleHasDot(src, text);
    } else {
      MappedIs(src, text);
      HasDot("::ffff:", src[12..]);
    }
  }

  lemma CompatibleHasDot(src: seq<int>, text: string)
    requires IsText6(src, text) && Dotted(src) && src[10] == 0 && src[11] == 0
    ensures !AllPlain(text)
  {
    forall k | 0 <= k < 12 ensures src[k] == 0 {
      assert k < 10 || k == 10 || k == 11;
    }
    CompatibleIs(src, text);
    HasDot("::", src[12..]);
  }

  lemma PlainForm(src: seq<int>, run: Run)
    requires Octets(src, 16) && !Dotted(src)
             && (run.base != -1 ==> 0 <= run.base && 0 <= run.len && run.base + run.len <= 8)
    ensures AllPlain(FormText(Written(src, run)))
  {
    if run.base == -1 {
      HexesPlain(Words(src)[..8]);
    } else {
      HexesPlain(Words(src)[..run.base]);
      HexesPlain(Words(src)[run.base + run.len..8]);
    }
  }

  lemma HasDot(before: string, tail: seq<int>)
    requires Octets(tail, 4)
    ensures !AllPlain(before + Text4(tail))
  {
    var k := |before| + |Decimal(tail[0])|;
    assert (before + Text4(tail))[k] == Text4(tail)[|Decimal(tail[0])|] == '.';
  }
}
