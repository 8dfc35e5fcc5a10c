/** The log buffer of zlog (deps/zlog/src/buf.c): bounded, growing, and what it holds after any sequence of writes. */
module LogBuffer {
  import opened Digits

  const MAXLEN_PATH := 1024

  /** s with its end overlaid by t, as far as s reaches back. */
  function Overlaid(s: string, t: string): (r: string)
    ensures |r| == |s|
  {
    var k := if |t| < |s| then |t| else |s|;
    s[..|s| - k] + t[..k]
  }

  /** What is kept of everything that was written: all of it where it fits. */
  function Kept(whole: string, sizeMax: nat, truncate: string): string {
    if sizeMax == 0 || |whole| < sizeMax then whole else Overlaid(whole[..sizeMax - 1], truncate)
  }

  /** By position: all of it, or its beginning, whose last places the truncation text takes. */
  lemma KeptIs(whole: string, sizeMax: nat, truncate: string)
    ensures sizeMax == 0 || |whole| < sizeMax ==> Kept(whole, sizeMax, truncate) == whole
    ensures sizeMax != 0 && |whole| >= sizeMax ==>
              var kept := Kept(whole, sizeMax, truncate);
              var k := if |truncate| < sizeMax - 1 then |truncate| else sizeMax - 1;
              && |kept| == sizeMax - 1 && kept[..sizeMax - 1 - k] == whole[..sizeMax - 1 - k]
              && kept[sizeMax - 1 - k..] == truncate[..k]
  {
  }

  lemma OverlaidTwice(s: string, t: string)
    ensures Overlaid(Overlaid(s, t), t) == Overlaid(s, t)
  {
    var k := if |t| < |s| then |t| else |s|;
    assert Overlaid(s, t)[..|s| - k] == s[..|s| - k];
  }

  /** Writing what still fits and overlaying the end keeps what is kept of the whole. */
  lemma KeptMore(whole: string, more: string, sizeMax: nat, truncate: string)
    requires sizeMax > 0 && |whole| + |more| >= sizeMax && |Kept(whole, sizeMax, truncate)| < sizeMax
    ensures var kept := Kept(whole, sizeMax, truncate);
      && sizeMax - 1 - |kept| <= |more|
      && Overlaid(kept + more[..sizeMax - 1 - |kept|], truncate) == Kept(whole + more, sizeMax, truncate)
  {
    var kept := Kept(whole, sizeMax, truncate);
    if |whole| < sizeMax {
      assert whole + more[..sizeMax - 1 - |whole|] == (whole + more)[..sizeMax - 1];
    } else {
      OverlaidTwice(whole[..sizeMax - 1], truncate);
      assert (whole + more)[..sizeMax - 1] == whole[..sizeMax - 1];
      assert kept + more[..0] == kept;
    }
  }

  /** At most outWidth characters of a text, between spaces or zeros up to inWidth. */
  function Adjusted(str: string, leftAdjust: bool, zeroPad: bool, inWidth: nat, outWidth: nat): string {
    var source := if outWidth == 0 || |str| < outWidth then str else str[..outWidth];
    if |source| >= inWidth then source
    else if leftAdjust then source + Repeat(' ', inWidth - |source|)
    else Repeat(if zeroPad then '0' else ' ', inWidth - |source|) + source
  }

  lemma PaddedParts(p: string, width: nat, zeroLen: nat, outLen: nat)
    requires if width > |p| then zeroLen == width - |p| && outLen == width else zeroLen == 0 && outLen == |p|
    ensures Padded(p, width) == Repeat('0', zeroLen) + p && |Padded(p, width)| == outLen
  {
    assert Repeat('0', 0) + p == p;
    assert "" + p == p;
  }

  /** By position: the text, cut to a width when there is one, with spaces after it or spaces or zeros before it up to
      the other width. */
  lemma AdjustedIs(str: string, leftAdjust: bool, zeroPad: bool, inWidth: nat, outWidth: nat)
    ensures var text := Adjusted(str, leftAdjust, zeroPad, inWidth, outWidth);
      var n := if 0 < outWidth < |str| then outWidth else |str|;
      var pad := if inWidth > n then inWidth - n else 0;
      && |text| == n + pad
      && (leftAdjust ==> text[..n] == str[..n] && forall k :: n <= k < n + pad ==> text[k] == ' ')
      && (!leftAdjust ==>
            text[pad..] == str[..n] && forall k :: 0 <= k < pad ==> text[k] == if zeroPad then '0' else ' ')
  {
  }

  lemma AdjustedParts(str: string, leftAdjust: bool, zeroPad: bool, inWidth: nat, outWidth: nat, sourceLen: nat,
      spaceLen: nat)
    requires sourceLen == if outWidth == 0 || |str| < outWidth then |str| else outWidth
    requires spaceLen == if sourceLen >= inWidth then 0 else inWidth - sourceLen
    ensures var text, pad := Adjusted(str, leftAdjust, zeroPad, inWidth,
                                      outWidth), if !leftAdjust && zeroPad then '0' else ' ';
            && |text| == sourceLen + spaceLen
            && text ==
                 if leftAdjust then str[..sourceLen] + Repeat(pad, spaceLen)
                 else Repeat(pad, spaceLen) + str[..sourceLen]
  {
    assert str[..|str|] == str;
    assert Repeat(' ', 0) == "" && Repeat('0', 0) == "";
    assert str[..sourceLen] + "" == str[..sourceLen] && "" + str[..sourceLen] == str[..sourceLen];
  }

  /** The first characters of two parts. */
  lemma PartsCut(a: string, b: string, k: nat)
    requires k <= |a| + |b|
    ensures (a + b)[..k] == if k <= |a| then a[..k] + b[..0] else a + b[..k - |a|]
  {
  }

  lemma LeftCut(str: string, n: nat, pad: char, m: nat, k: nat)
    requires n <= |str| && k <= n + m
    ensures (str[..n] + Repeat(pad, m))[..k]
              == if n < k then str[..n] + Repeat(pad, k - n) else str[..k] + Repeat(pad, 0)
  {
    PartsCut(str[..n], Repeat(pad, m), k);
    assert n < k ==> Repeat(pad, m)[..k - n] == Repeat(pad, k - n);
    assert n >= k ==> str[..n][..k] == str[..k];
  }

  lemma RightCut(str: string, n: nat, pad: char, m: nat, k: nat)
    requires n <= |str| && k <= n + m
    ensures (Repeat(pad, m) + str[..n])[..k]
              == if m < k then Repeat(pad, m) + str[..k - m] else Repeat(pad, k) + str[..0]
  {
    PartsCut(Repeat(pad, m), str[..n], k);
    assert m >= k ==> Repeat(pad, m)[..k] == Repeat(pad, k);
    assert m < k ==> str[..n][..k - m] == str[..k - m];
  }

  datatype Created = Created(buf: Buf) | Refused

  class Buf {
    var start: array<char>
    var tail: nat
    var sizeReal: nat
    const sizeMax: nat
    const truncate: string
    /** Everything written since the last restart. */
    ghost var whole: string

    ghost predicate Fits()
      reads this, start
    {
      && sizeReal == start.Length >= 1 && tail <= End()
      && (sizeMax != 0 ==> sizeReal <= sizeMax)
      && |truncate| <= MAXLEN_PATH
    }

    ghost predicate Valid()
      reads this, start
    {
      Fits() && Content() == Kept(whole, sizeMax, truncate)
    }

    /** The last place, which is left for the closing zero. */
    function End(): int
      reads this
    {
      start.Length - 1
    }

    ghost function Content(): string
      requires tail <= start.Length
      reads this, start
    {
      start[..tail]
    }

    constructor (sizeMin: nat, sizeMax: nat, truncate: string)
      requires 0 < sizeMin && (sizeMax == 0 || sizeMin <= sizeMax) && |truncate| <= MAXLEN_PATH
      ensures Valid() && fresh(start) && whole == "" && sizeReal == sizeMin
      ensures this.sizeMax == sizeMax && this.truncate == truncate
    {
      this.sizeMax, this.truncate := sizeMax, truncate;
      start := new char[sizeMin](_ => '\0');
      tail, sizeReal, whole := 0, sizeMin, "";
    }

    /** What the buffer holds, by position. */
    lemma Holds()
      requires Valid()
      ensures sizeMax == 0 || |whole| < sizeMax ==> Content() == whole
      ensures sizeMax != 0 && |whole| >= sizeMax ==>
                var k := if |truncate| < sizeMax - 1 then |truncate| else sizeMax - 1;
                && |Content()| == sizeMax - 1 && Content()[..sizeMax - 1 - k] == whole[..sizeMax - 1 - k]
                && Content()[sizeMax - 1 - k..] == truncate[..k]
    {
      KeptIs(whole, sizeMax, truncate);
    }

    /** zlog_buf_restart. */
    method Restart()
      requires Valid()
      modifies this`tail, this`whole
      ensures Valid() && whole == "" && Content() == ""
    {
      tail, whole := 0, "";
    }

    /** zlog_buf_resize: more than zero when the limit keeps it from making enough room. */
    method Resize(increment: nat) returns (rc: int)
      requires Fits() && increment > 0
      modifies this`start, this`sizeReal
      ensures Fits() && Content() == old(Content()) && (start == old(start) || fresh(start))
      ensures rc == 0 || (rc == 1 && sizeMax != 0 && sizeReal == sizeMax)
      ensures rc == 0 <==> sizeMax == 0 || old(sizeReal) + increment <= sizeMax
      ensures rc == 0 ==> old(sizeReal) + increment <= sizeReal
    {
      rc := 0;
      if sizeMax != 0 && sizeReal >= sizeMax {
        return 1;
      }
      var newSize;
      if sizeMax == 0 {
        newSize := sizeReal + 3 * increment / 2;
      } else if sizeReal + increment <= sizeMax {
        newSize := sizeReal + increment;
      } else {
        newSize := sizeMax;
        rc := 1;
      }
      var p := new char[newSize](i requires 0 <= i reads this, start => if i < start.Length then start[i] else '\0');
      assert p[..tail] == start[..tail];
      start, sizeReal := p, newSize;
    }

    /** memcpy or memset at the tail. */
    method Put(s: string)
      requires Fits() && tail + |s| <= End()
      modifies this`tail, start
      ensures Fits() && Content() == old(Content()) + s
    {
      ghost var before := Content();
      forall i | 0 <= i < |s| {
        start[tail + i] := s[i];
      }
      tail := tail + |s|;
      assert Content()[..|before|] == before;
    }

    /** zlog_buf_truncate. */
    method Truncate()
      requires Fits()
      modifies start
      ensures Fits() && Content() == Overlaid(old(Content()), truncate)
      ensures var k := if |truncate| < tail then |truncate| else tail;
        Content()[..tail - k] == old(Content())[..tail - k] && Content()[tail - k..] == truncate[..k]
    {
      if truncate == "" {
        assert Overlaid(Content(), "") == Content();
        return;
      }
      var p := if tail < |truncate| then 0 else tail - |truncate|;
      forall i | p <= i < tail {
        start[i] := truncate[i - p];
      }
    }

    /** zlog_buf_new. */
    static method New(sizeMin: nat, sizeMax: nat, truncate: string) returns (made: Created)
      ensures made.Refused? <==> sizeMin == 0 || (sizeMax != 0 && sizeMax < sizeMin) || |truncate| > MAXLEN_PATH
      ensures made.Created? ==>
                && fresh(made.buf) && fresh(made.buf.start) && made.buf.Valid() && made.buf.whole == ""
                && made.buf.sizeMax == sizeMax && made.buf.truncate == truncate && made.buf.sizeReal == sizeMin
    {
      if sizeMin == 0 || (sizeMax != 0 && sizeMax < sizeMin) || |truncate| > MAXLEN_PATH {
        return Refused;
      }
      var buf := new Buf(sizeMin, sizeMax, truncate);
      return Created(buf);
    }

    /** What still fits of a text goes to the tail in two parts, and the end is overlaid. */
    method CutOff(ghost text: string, a: string, b: string)
      requires Valid() && sizeMax > 0 && sizeReal == sizeMax && |whole| + |text| >= sizeMax
      requires End() - tail <= |text| && a + b == text[..End() - tail]
      modifies this`tail, this`whole, start
      ensures Valid() && whole == old(whole) + text
    {
      KeptMore(whole, text, sizeMax, truncate);
      PutTwo(a, b);
      Truncate();
      whole := whole + text;
    }

    /** A text that fits goes to the tail in two parts. */
    method PutAll(ghost text: string, a: string, b: string)
      requires Valid() && tail + |text| <= End() && a + b == text
      modifies this`tail, this`whole, start
      ensures Valid() && whole == old(whole) + text
      ensures text != "" && sizeMax != 0 ==> |whole| < sizeMax
    {
      KeptAll(text);
      PutTwo(a, b);
      whole := whole + text;
    }

    /** A text that does not fit and cannot be made to reaches the limit. */
    lemma Limited(more: nat, size: nat)
      requires Valid() && sizeMax > 0 && size + (tail + more - (size - 1)) > sizeMax
      ensures |whole| + more >= sizeMax
    {
    }

    /** zlog_buf_append. */
    method Append(str: string) returns (rc: int)
      requires Valid()
      modifies this, start
      ensures Valid() && Wrote(old(whole), str, rc) && (start == old(start) || fresh(start))
    {
      assert str + "" == str;
      if tail + |str| > End() {
        ghost var size := sizeReal;
        rc := Resize(tail + |str| - End());
        if rc > 0 {
          var lenLeft := End() - tail;
          Limited(|str|, size);
          assert str[..lenLeft] + "" == str[..lenLeft];
          CutOff(str, str[..lenLeft], "");
          return 1;
        }
      }
      PutAll(str, str, "");
      return 0;
    }

    /** The effect of a write: everything of it is counted, and the result says whether some of it was cut off. */
    ghost predicate Wrote(before: string, str: string, rc: int)
      reads this
    {
      whole == before + str && rc == if str != "" && sizeMax != 0 && |whole| >= sizeMax then 1 else 0
    }

    lemma KeptAll(str: string)
      requires Valid() && tail + |str| <= End()
      ensures Kept(whole + str, sizeMax, truncate) == Kept(whole, sizeMax, truncate) + str
      ensures str != "" && sizeMax != 0 ==> |whole + str| < sizeMax
    {
      if str == "" {
        assert whole + str == whole;
      }
    }

    /** zlog_buf_vprintf, for the text that the format and its arguments make. */
    method Vprintf(text: string) returns (rc: int)
      requires Valid()
      modifies this, start
      ensures Valid() && Wrote(old(whole), text, rc) && (start == old(start) || fresh(start))
    {
      assert text + "" == text;
      var sizeLeft := start.Length - tail;
      var nwrite := |text|;
      if nwrite >= sizeLeft {
        ghost var size := sizeReal;
        rc := Resize(nwrite - sizeLeft + 1);
        if rc > 0 {
          sizeLeft := start.Length - tail;
          Limited(|text|, size);
          assert text[..sizeLeft - 1] + "" == text[..sizeLeft - 1];
          CutOff(text, text[..sizeLeft - 1], "");
          return 1;
        }
      }
      PutAll(text, text, "");
      return 0;
    }

    method PutTwo(a: string, b: string)
      requires Fits() && tail + |a| + |b| <= End()
      modifies this`tail, start
      ensures Fits() && Content() == old(Content()) + (a + b)
    {
      Put(a);
      Put(b);
    }

    /** The common end of the number writers: zeros and then digits. */
    method PrintfDigits(p: string, width: nat) returns (rc: int)
      requires Valid() && p != ""
      modifies this, start
      ensures Valid() && Wrote(old(whole), Padded(p, width), rc) && (start == old(start) || fresh(start))
    {
      var numLen := |p|;
      var zeroLen, outLen := 0, numLen;
      if width > numLen {
        zeroLen, outLen := width - numLen, width;
      }
      PaddedParts(p, width, zeroLen, outLen);
      if tail + outLen > End() {
        ghost var size := sizeReal;
        rc := Resize(outLen - (End() - tail));
        if rc > 0 {
          var lenLeft := End() - tail;
          Limited(outLen, size);
          PartsCut(Repeat('0', zeroLen), p, lenLeft);
          if lenLeft <= zeroLen {
            zeroLen, numLen := lenLeft, 0;
          } else {
            numLen := lenLeft - zeroLen;
          }
          CutOff(Padded(p, width), Repeat('0', zeroLen), p[..numLen]);
          return 1;
        }
      }
      PutAll(Padded(p, width), Repeat('0', zeroLen), p);
      return 0;
    }

    /** What fits of a text and the padding to its right. */
    method CutLeft(ghost text: string, str: string, source: nat, pad: char, space: nat)
      requires Valid() && sizeMax > 0 && sizeReal == sizeMax && |whole| + |text| >= sizeMax
      requires source <= |str| && text == str[..source] + Repeat(pad, space) && End() - tail <= |text|
      modifies this`tail, this`whole, start
      ensures Valid() && whole == old(whole) + text
    {
      var appendLen := End() - tail;
      var sourceLen, spaceLen := source, space;
      LeftCut(str, source, pad, space, appendLen);
      if sourceLen < appendLen {
        spaceLen := appendLen - sourceLen;
      } else {
        sourceLen, spaceLen := appendLen, 0;
      }
      CutOff(text, str[..sourceLen], Repeat(pad, spaceLen));
    }

    /** What fits of a text and the padding to its left. */
    method CutRight(ghost text: string, str: string, source: nat, pad: char, space: nat)
      requires Valid() && sizeMax > 0 && sizeReal == sizeMax && |whole| + |text| >= sizeMax
      requires source <= |str| && text == Repeat(pad, space) + str[..source] && End() - tail <= |text|
      modifies this`tail, this`whole, start
      ensures Valid() && whole == old(whole) + text
    {
      var appendLen := End() - tail;
      var sourceLen, spaceLen := source, space;
      RightCut(str, source, pad, space, appendLen);
      if spaceLen < appendLen {
        sourceLen := appendLen - spaceLen;
      } else {
        spaceLen, sourceLen := appendLen, 0;
      }
      CutOff(text, Repeat(pad, spaceLen), str[..sourceLen]);
    }

    /** zlog_buf_adjust_append. */
    method AdjustAppend(str: string, leftAdjust: bool, zeroPad: bool, inWidth: nat, outWidth: nat) returns (rc: int)
      requires Valid()
      modifies this, start
      ensures Valid() && Wrote(old(whole), Adjusted(str, leftAdjust, zeroPad, inWidth, outWidth), rc)
      ensures start == old(start) || fresh(start)
    {
      ghost var text := Adjusted(str, leftAdjust, zeroPad, inWidth, outWidth);
      var sourceLen := if outWidth == 0 || |str| < outWidth then |str| else outWidth;
      var appendLen, spaceLen := sourceLen, 0;
      if !(inWidth == 0 || sourceLen >= inWidth) {
        appendLen, spaceLen := inWidth, inWidth - sourceLen;
      }
      AdjustedParts(str, leftAdjust, zeroPad, inWidth, outWidth, sourceLen, spaceLen);
      var pad := if !leftAdjust && zeroPad then '0' else ' ';
      if appendLen > End() - tail {
        ghost var size := sizeReal;
        rc := Resize(appendLen - (End() - tail));
        if rc > 0 {
          Limited(appendLen, size);
          if leftAdjust {
            CutLeft(text, str, sourceLen, pad, spaceLen);
          } else {
            CutRight(text, str, sourceLen, pad, spaceLen);
          }
          return 1;
        }
      }
      if leftAdjust {
        PutAll(text, str[..sourceLen], Repeat(pad, spaceLen));
      } else {
        PutAll(text, Repeat(pad, spaceLen), str[..sourceLen]);
      }
      return 0;
    }

    /** zlog_buf_printf_dec32. */
    method PrintfDec32(n: nat, width: nat) returns (rc: int)
      requires Valid() && n < 0x1_0000_0000
      modifies this, start
      ensures Valid() && Wrote(old(whole), Padded(Decimal(n), width), rc) && (start == old(start) || fresh(start))
    {
      Decimal32(n);
      var p := DecimalDigits(n, INT32_LEN);
      rc := PrintfDigits(p, width);
    }

    /** zlog_buf_printf_dec64. */
    method PrintfDec64(n: nat, width: nat) returns (rc: int)
      requires Valid() && n < 0x1_0000_0000_0000_0000
      modifies this, start
      ensures Valid() && Wrote(old(whole), Padded(Decimal(n), width), rc) && (start == old(start) || fresh(start))
    {
      Decimal64(n);
      var p := DecimalDigits(n, INT64_LEN);
      rc := PrintfDigits(p, width);
    }

    /** zlog_buf_printf_hex. */
    method PrintfHex(n: nat, width: nat) returns (rc: int)
      requires Valid() && n < 0x1_0000_0000
      modifies this, start
      ensures Valid() && Wrote(old(whole), Padded(Hex(n), width), rc) && (start == old(start) || fresh(start))
    {
      Hex32(n);
      var p := HexDigits(n, INT32_LEN);
      rc := PrintfDigits(p, width);
    }
  }

  // ----- digits, from the last -----

  const INT32_LEN := 11
  const INT64_LEN := 20

  function Power(b: nat, e: nat): (p: nat)
    ensures b > 0 ==> p > 0
  {
    if e == 0 then 1 else b * Power(b, e - 1)
  }

  lemma {:induction false} DecimalAtMost(n: nat, k: nat)
    requires n < Power(10, k) && k > 0
    ensures |Decimal(n)| <= k
  {
    if n >= 10 {
      DecimalAtMost(n / 10, k - 1);
    }
  }

  lemma {:induction false} HexAtMost(n: nat, k: nat)
    requires n < Power(16, k) && k > 0
    ensures |Hex(n)| <= k
  {
    if n >= 16 {
      HexAtMost(n / 16, k - 1);
    }
  }

  lemma Decimal32(n: nat)
    requires n < 0x1_0000_0000
    ensures |Decimal(n)| <= INT32_LEN
  {
    assert Power(10, 5) == 100000;
    assert Power(10, 10) == 10000000000;
    DecimalAtMost(n, 10);
  }

  lemma Decimal64(n: nat)
    requires n < 0x1_0000_0000_0000_0000
    ensures |Decimal(n)| <= INT64_LEN
  {
    assert Power(10, 8) == 100000000;
    assert Power(10, 14) == 1000000 * Power(10, 8);
    assert Power(10, 20) == 1000000 * Power(10, 14);
    DecimalAtMost(n, 20);
  }

  lemma Hex32(n: nat)
    requires n < 0x1_0000_0000
    ensures |Hex(n)| <= INT32_LEN
  {
    assert Power(16, 8) == 0x1_0000_0000;
    HexAtMost(n, 8);
  }

  /** The digits as they are put before each other into a temporary of that length. */
  method DecimalDigits(n: nat, len: nat) returns (p: string)
    requires |Decimal(n)| <= len
    ensures p == Decimal(n)
  {
    var tmp := new char[len + 1];
    var at, rest := len - 1, n / 10;
    tmp[at] := Digit(n % 10);
    while rest > 0
      invariant 0 <= at < len && 0 <= rest
      invariant (if rest > 0 then Decimal(rest) else "") + tmp[at..len] == Decimal(n)
      decreases rest
    {
      at := at - 1;
      tmp[at] := Digit(rest % 10);
      rest := rest / 10;
    }
    return tmp[at..len];
  }

  method HexDigits(n: nat, len: nat) returns (p: string)
    requires |Hex(n)| <= len
    ensures p == Hex(n)
  {
    var tmp := new char[len + 1];
    var at, rest := len - 1, n / 16;
    tmp[at] := Digit(n % 16);
    while rest > 0
      invariant 0 <= at < len && 0 <= rest
      invariant (if rest > 0 then Hex(rest) else "") + tmp[at..len] == Hex(n)
      decreases rest
    {
      at := at - 1;
      tmp[at] := Digit(rest % 16);
      rest := rest / 16;
    }
    return tmp[at..len];
  }
}
