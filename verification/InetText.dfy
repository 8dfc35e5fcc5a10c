/** IPv4 and IPv6 addresses as text (deps/libuv/src/inet.c): what the texts are, and how they are written. */
module InetText {
  import opened Digits

  /** What writing into a buffer of a given size comes to. */
  datatype Printed = Printed(text: string) | Untouched | NoSpace

  ghost predicate Octets(s: seq<int>, n: nat) {
    |s| == n && forall k :: 0 <= k < n ==> 0 <= s[k] < 256
  }

  function Text4(src: seq<int>): string
    requires Octets(src, 4)
  {
    Decimal(src[0]) + "." + Decimal(src[1]) + "." + Decimal(src[2]) + "." + Decimal(src[3])
  }

  /** inet_ntop4. */
  method Ntop4(src: seq<int>, size: nat) returns (dst: Printed)
    requires Octets(src, 4)
    ensures dst == if |Text4(src)| < size then Printed(Text4(src)) else NoSpace
  {
    var tmp := Text4(src);
    return if |tmp| >= size then NoSpace else Printed(tmp);
  }

  // ----- IPv6 -----

  /** A run of zero words; there is none when base is -1. */
  datatype Run = Run(base: int, len: int)

  ghost predicate Zeros(words: seq<int>, b: int, l: int) {
    0 <= b && 0 <= l && b + l <= |words| && forall k :: b <= k < b + l ==> words[k] == 0
  }

  /** The run that is shortened: sections 4.2.2 and 4.2.3 of RFC 5952. */
  ghost predicate FirstLongest(words: seq<int>, run: Run) {
    if run.base == -1 then forall b, l :: Zeros(words, b, l) ==> l < 2
    else
      && run.len >= 2 && Zeros(words, run.base, run.len)
      && forall b, l :: Zeros(words, b, l) ==> l <= run.len && (b < run.base ==> l < run.len)
  }

  lemma OneFirstLongest(words: seq<int>, run: Run, run': Run)
    requires FirstLongest(words, run) && FirstLongest(words, run')
    ensures run.base == run'.base && (run.base != -1 ==> run == run')
  {
    assert run.base != -1 ==> Zeros(words, run.base, run.len);
    assert run'.base != -1 ==> Zeros(words, run'.base, run'.len);
  }

  function Words(src: seq<int>): (words: seq<int>)
    requires Octets(src, 16)
    ensures |words| == 8 && forall k :: 0 <= k < 8 ==> 0 <= words[k] < 65536
  {
    seq(8, k requires 0 <= k < 8 => src[2 * k] * 256 + src[2 * k + 1])
  }

  predicate Inside(run: Run, i: int) {
    run.base != -1 && run.base <= i < run.base + run.len
  }

  /** Whether the last four octets are written as an IPv4 address. */
  predicate Encapsulates(words: seq<int>, run: Run)
    requires |words| == 8
  {
    run.base == 0 && (run.len == 6 || (run.len == 7 && words[7] != 1) || (run.len == 5 && words[5] == 0xffff))
  }

  /** What is written from word i on. */
  function Format(src: seq<int>, run: Run, i: nat): string
    requires Octets(src, 16) && i <= 8
    decreases 8 - i
  {
    if i == 8 then (if run.base != -1 && run.base + run.len == 8 then ":" else "")
    else if Inside(run, i) then (if i == run.base then ":" else "") + Format(src, run, i + 1)
    else
      (if i != 0 then ":" else "") +
      (if i == 6 && Encapsulates(Words(src), run) then Text4(src[12..])
       else Hex(Words(src)[i]) + Format(src, run, i + 1))
  }

  ghost predicate IsText6(src: seq<int>, text: string) {
    Octets(src, 16) && exists run: Run :: FirstLongest(Words(src), run) && text == Format(src, run, 0)
  }

  // ----- inet_ntop6 -----

  /** Every run that ended before the current one is no longer than the best, and shorter if it began before it. */
  ghost predicate BestOf(words: seq<int>, best: Run, end: int) {
    && -1 <= best.base
    && (best.base != -1 ==> best.len >= 1 && Zeros(words, best.base, best.len) && best.base + best.len <= end)
    && forall b, l :: Zeros(words, b, l) && 1 <= l && b + l <= end ==>
         best.base != -1 && l <= best.len && (b < best.base ==> l < best.len)
  }

  ghost predicate Current(words: seq<int>, cur: Run, i: int) {
    && -1 <= cur.base <= i <= |words| && 0 <= i
    && (cur.base == -1 ==> i == 0 || words[i - 1] != 0)
    && (cur.base != -1 ==> Zeros(words, cur.base, cur.len) && cur.len >= 1 && cur.base + cur.len == i)
    && (cur.base > 0 ==> words[cur.base - 1] != 0)
  }

  method BestRun(words: seq<int>) returns (best: Run)
    requires |words| == 8
    ensures FirstLongest(words, best)
  {
    best := Run(-1, 0);
    var cur := Run(-1, 0);
    var i := 0;
    while i < 8
      invariant 0 <= i <= 8 && Current(words, cur, i)
      invariant BestOf(words, best, if cur.base == -1 then i else cur.base)
    {
      if words[i] == 0 {
        cur := if cur.base == -1 then Run(i, 1) else cur.(len := cur.len + 1);
      } else if cur.base != -1 {
        ghost var was := best;
        if best.base == -1 || cur.len > best.len {
          best := cur;
        }
        RunEnded(words, was, cur, best, i);
        cur := cur.(base := -1);
      } else {
        NoRun(words, best, i);
      }
      i := i + 1;
    }
    if cur.base != -1 {
      ghost var was := best;
      if best.base == -1 || cur.len > best.len {
        best := cur;
      }
      RunEnded(words, was, cur, best, i);
    }
    if best.base != -1 && best.len < 2 {
      best := best.(base := -1);
    }
  }

  lemma RunEnded(words: seq<int>, best: Run, cur: Run, best': Run, i: int)
    requires Current(words, cur, i) && cur.base != -1 && BestOf(words, best, cur.base)
    requires best' == if best.base == -1 || cur.len > best.len then cur else best
    ensures BestOf(words, best', i)
    ensures i < |words| && words[i] != 0 ==> BestOf(words, best', i + 1)
  {
    forall b, l | Zeros(words, b, l) && 1 <= l && b + l <= i
      ensures best'.base != -1 && l <= best'.len && (b < best'.base ==> l < best'.len)
    {
      NotAcross(words, b, l, cur.base);
    }
    if i < |words| && words[i] != 0 {
      NoRun(words, best', i);
    }
  }

  lemma NoRun(words: seq<int>, best: Run, i: int)
    requires 0 <= i < |words| && words[i] != 0 && BestOf(words, best, i)
    ensures BestOf(words, best, i + 1)
  {
    forall b, l | Zeros(words, b, l) && 1 <= l && b + l <= i + 1
      ensures b + l <= i
    {
      NotAcross(words, b, l, i + 1);
    }
  }

  /** A run of zeros does not reach over a word that is not zero. */
  lemma NotAcross(words: seq<int>, b: int, l: int, i: int)
    requires Zeros(words, b, l) && 0 <= i <= |words| && (i == 0 || words[i - 1] != 0)
    ensures i <= b || b + l < i || l == 0
  {
  }

  method WordsOf(src: seq<int>) returns (words: array<int>)
    requires Octets(src, 16)
    ensures words[..] == Words(src)
  {
    words := new int[8](_ => 0);
    var i := 0;
    while i < 16
      invariant 0 <= i <= 16
      invariant forall k ::
                  0 <= k < 8 ==>
                    words[k]
                      == (if 2 * k < i then src[2 * k] * 256 else 0) + (if 2 * k + 1 < i then src[2 * k + 1] else 0)
    {
      words[i / 2] := words[i / 2] + src[i] * (if i % 2 == 0 then 256 else 1);
      i := i + 1;
    }
  }

  /** The text fits the temporary buffer of 46 characters with its end. */
  lemma {:induction false} FormatFits(src: seq<int>, run: Run, i: nat)
    requires Octets(src, 16) && i <= 8
    ensures |Format(src, run, i)| <= 5 * (8 - i) + 6
    ensures i == 0 ==> |Format(src, run, i)| < 46
    decreases 8 - i
  {
    if i < 8 {
      FormatFits(src, run, i + 1);
      HexShort(Words(src)[i]);
      if i == 6 {
        Text4Short(src[12..]);
      }
    }
  }

  lemma Text4Short(src: seq<int>)
    requires Octets(src, 4)
    ensures |Text4(src)| <= 15
  {
    DecimalShort(src[0]);
    DecimalShort(src[1]);
    DecimalShort(src[2]);
    DecimalShort(src[3]);
  }

  /** What the loop writes for word i, unless an encapsulated address ends it. */
  function Piece(word: nat, run: Run, i: nat): string {
    if Inside(run, i) then (if i == run.base then ":" else "") else (if i != 0 then ":" else "") + Hex(word)
  }

  lemma FormatStep(src: seq<int>, run: Run, i: nat, tmp: string)
    requires Octets(src, 16) && i < 8 && (Inside(run, i) || i != 6 || !Encapsulates(Words(src), run))
    ensures tmp + Format(src, run, i) == tmp + Piece(Words(src)[i], run, i) + Format(src, run, i + 1)
  {
    Onward(tmp, Piece(Words(src)[i], run, i), Format(src, run, i + 1));
    Onward(if i != 0 then ":" else "", Hex(Words(src)[i]), Format(src, run, i + 1));
  }

  lemma FormatEnd(src: seq<int>, run: Run, tmp: string)
    requires Octets(src, 16) && !Inside(run, 6) && Encapsulates(Words(src), run)
    ensures tmp + Format(src, run, 6) == tmp + ":" + Text4(src[12..])
  {
    Onward(tmp, ":", Text4(src[12..]));
  }

  lemma PieceShort(word: nat, run: Run, i: nat)
    requires word < 65536
    ensures |Piece(word, run, i)| <= if i == 0 then 4 else 5
  {
    HexShort(word);
  }

  predicate EndsIn4(words: seq<int>, run: Run, i: nat)
    requires |words| == 8
  {
    i == 6 && !Inside(run, i) && Encapsulates(words, run)
  }

  /** One turn of the loop that formats the result; last when an encapsulated address ends it. */
  method WriteWord(words: seq<int>, tail: seq<int>, best: Run, i: nat, before: string) returns (tmp: string, last: bool)
    requires |words| == 8 && i < 8 && 0 <= words[i] && Octets(tail, 4) && (i == 6 ==> |before| < 30)
    ensures last == EndsIn4(words, best, i)
    ensures tmp == if last then before + ":" + Text4(tail) else before + Piece(words[i], best, i)
  {
    tmp, last := before, false;
    if Inside(best, i) {
      if i == best.base {
        tmp := tmp + ":";
      }
    } else if i == 6 && Encapsulates(words, best) {
      Text4Short(tail);
      tmp := tmp + ":";
      var v4 := Ntop4(tail, 46 - |tmp|);
      tmp, last := tmp + v4.text, true;
    } else {
      Onward(tmp, if i != 0 then ":" else "", Hex(words[i]));
      if i != 0 {
        tmp := tmp + ":";
      }
      tmp := tmp + Hex(words[i]);
    }
  }

  /** The loop that formats the result. */
  method FormatWords(src: seq<int>, words: seq<int>, best: Run) returns (tmp: string)
    requires Octets(src, 16) && words == Words(src)
    ensures tmp == Format(src, best, 0) && |tmp| < 46
  {
    FormatFits(src, best, 0);
    ghost var full := Format(src, best, 0);
    tmp := "";
    var i: nat, last := 0, false;
    while i < 8 && !last
      invariant i <= 8 && (!last ==> |tmp| <= if i == 0 then 0 else 5 * i - 1)
      invariant if last then tmp == full && best.base + best.len != 8 else tmp + Format(src, best, i) == full
      decreases 8 - i, !last
    {
      ghost var before := tmp;
      PieceShort(words[i], best, i);
      tmp, last := WriteWord(words, src[12..], best, i, tmp);
      if last {
        FormatEnd(src, best, before);
      } else {
        FormatStep(src, best, i, before);
        i := i + 1;
      }
    }
    if best.base != -1 && best.base + best.len == 8 {
      tmp := tmp + ":";
    }
  }

  lemma Onward(a: string, b: string, c: string)
    ensures a + (b + c) == a + b + c
  {
  }

  /** uv__strscpy and what inet_ntop6 makes of its result: a buffer of size zero is left alone without an error. */
  function Copied(text: string, size: nat): Printed {
    if size == 0 then Untouched else if |text| < size then Printed(text) else NoSpace
  }

  /** inet_ntop6. */
  method Ntop6(src: seq<int>, size: nat) returns (dst: Printed)
    requires Octets(src, 16)
    ensures exists text :: IsText6(src, text) && dst == Copied(text, size)
  {
    var words := WordsOf(src);
    var best := BestRun(words[..]);
    var tmp := FormatWords(src, words[..], best);
    assert IsText6(src, tmp);
    return Copied(tmp, size);
  }
}
