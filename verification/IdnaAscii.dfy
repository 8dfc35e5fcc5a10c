/** uv__idna_toascii of idna.c: labels to ASCII, written into a buffer that may be too small. */
module IdnaAscii {
  import opened Utf8
  import opened Punycode
  import opened Utf8Reading

  const UINT_MAX := 0xFFFF_FFFF

  /** "xn--" */
  const PREFIX: seq<Byte> := [120, 110, 45, 45]

  datatype Error = Ok | E2BIG | EINVAL

  /** What a label becomes. */
  function Ace(cs: seq<int>): seq<Byte>
    requires Scalars(cs)
  {
    if |Basic(cs)| == |cs| then Basic(cs) else PREFIX + Encoded(cs)
  }

  /** The output pointers *d and de. What does not fit is dropped, and everything after it. */
  class Output {
    var buf: array<Byte>
    var d: nat
    const start: nat
    ghost var full: seq<Byte>    // what would have been written into a buffer large enough

    ghost predicate Valid()
      reads this, buf
    {
      && start <= d <= buf.Length && d - start == (if |full| <= buf.Length - start then |full| else buf.Length - start)
      && buf[start..d] == full[..d - start]
    }

    constructor (buf: array<Byte>, start: nat)
      requires start <= buf.Length
      ensures Valid() && full == [] && this.buf == buf && this.start == start
    {
      this.buf, this.d, this.start, this.full := buf, start, start, [];
    }

    /** if (*d < de) *(*d)++ = c; */
    method Put(c: Byte)
      requires Valid()
      modifies this`d, this`full, buf
      ensures Valid() && full == old(full) + [c]
    {
      if d < buf.Length {
        buf[d] := c;
        d := d + 1;
        assert buf[start..d] == old(buf[start..d]) + [c];
      }
      full := full + [c];
    }
  }

  // ----- going through a label -----

  /** foreach_codepoint goes from p to se through what is in cs from j on. */
  ghost predicate Goes(text: seq<Byte>, p: nat, se: nat, cs: seq<int>, j: nat) {
    p <= se && Readable(text, p, se) && j <= |cs| && Points(text, p, se) == cs[j..]
  }

  /** The same, and none of it is invalid. */
  ghost predicate At(text: seq<Byte>, p: nat, se: nat, cs: seq<int>, j: nat) {
    Goes(text, p, se, cs, j) && Scalars(cs)
  }

  /** A step of foreach_codepoint has been taken for the j-th code point, or past the last. */
  ghost predicate Fetched(text: seq<Byte>, c: int, p: nat, se: nat, cs: seq<int>, j: nat) {
    j <= |cs| && if j < |cs| then c == cs[j] && Goes(text, p, se, cs, j + 1) else p > se
  }

  /** One step of foreach_codepoint: the next code point, or a position beyond the end. */
  method Fetch(text: seq<Byte>, p: nat, se: nat, ghost cs: seq<int>, ghost j: nat) returns (c: int, next: nat)
    requires Goes(text, p, se, cs, j)
    ensures Fetched(text, c, next, se, cs, j)
  {
    if j < |cs| {
      assert cs[j..][0] == cs[j] && cs[j..][1..] == cs[j + 1..];
    }
    c, next := Decode1(text, p, se);
  }

  lemma {:induction false} BasicGrows(cs: seq<int>, j: nat)
    requires Scalars(cs) && j < |cs|
    ensures Basic(cs[..j + 1]) == Basic(cs[..j]) + (if cs[j] < 128 then [cs[j]] else [])
  {
    if j == 0 {
      assert cs[..1] == [cs[0]];
    } else {
      assert cs[..j + 1][1..] == cs[1..][..j] && cs[..j][1..] == cs[1..][..j - 1];
      BasicGrows(cs[1..], j - 1);
    }
  }

  lemma {:induction false} BasicWithin(cs: seq<int>, j: nat)
    requires Scalars(cs) && j <= |cs|
    ensures |Basic(cs[..j])| <= j && |Basic(cs[..j])| <= |Basic(cs)|
    ensures |Basic(cs[..j])| == |Basic(cs)| ==> Basic(cs[..j]) == Basic(cs)
  {
    if j > 0 {
      assert cs[..j][1..] == cs[1..][..j - 1];
      BasicWithin(cs[1..], j - 1);
    }
  }

  /** The first loop: how many code points are basic, and how many are not, if none is invalid. */
  method CountPoints(text: seq<Byte>, s: nat, se: nat, ghost cs: seq<int>) returns (h: nat, todo: nat, err: Error)
    requires Goes(text, s, se, cs, 0)
    ensures err == if Scalars(cs) then Ok else EINVAL
    ensures err == Ok ==> h == |Basic(cs)| && todo == |cs| - h
  {
    h, todo, err := 0, 0, Ok;
    var c, p: nat := Fetch(text, s, se, cs, 0);
    ghost var j: nat := 0;
    PointsAre(text, s, se);
    while p <= se
      invariant Fetched(text, c, p, se, cs, j) && Scalars(cs[..j]) && h == |Basic(cs[..j])| && todo == j - h
      decreases |cs| - j
    {
      if c == -1 {
        return h, todo, EINVAL;
      }
      BasicNext(cs, j);
      if c < 128 {
        h := h + 1;
      } else {
        todo := todo + 1;
      }
      j := j + 1;
      c, p := Fetch(text, p, se, cs, j);
    }
    assert cs[..j] == cs;
  }

  lemma PointsAre(text: seq<Byte>, p: nat, se: nat)
    requires Readable(text, p, se)
    ensures var cs := Points(text, p, se);
      forall i :: 0 <= i < |cs| ==> cs[i] == -1 || Scalar(cs[i])
  {
  }

  lemma BasicNext(cs: seq<int>, j: nat)
    requires j < |cs| && Scalars(cs[..j]) && Scalar(cs[j])
    ensures Scalars(cs[..j + 1])
    ensures Basic(cs[..j + 1]) == Basic(cs[..j]) + (if cs[j] < 128 then [cs[j]] else [])
  {
    var part := cs[..j + 1];
    assert part[..j] == cs[..j] && part[..j + 1] == part && forall i :: 0 <= i < j ==> part[i] == cs[..j][i];
    BasicGrows(part, j);
  }

  lemma BasicPrefix(cs: seq<int>, j: nat, before: seq<Byte>)
    requires Scalars(cs) && j < |cs|
    ensures before + Basic(cs[..j + 1]) == before + Basic(cs[..j]) + (if cs[j] < 128 then [cs[j]] else [])
  {
    BasicGrows(cs, j);
  }

  /** The second loop: the basic code points, stopping at the last. */
  method CopyBasic(text: seq<Byte>, s: nat, se: nat, h: nat, out: Output, ghost cs: seq<int>)
    requires At(text, s, se, cs, 0) && h == |Basic(cs)| && out.Valid()
    modifies out`d, out`full, out.buf
    ensures out.Valid() && out.full == old(out.full) + Basic(cs)
  {
    var x: nat := 0;
    var c, p: nat := Fetch(text, s, se, cs, 0);
    ghost var j: nat, before := 0, out.full;
    while p <= se
      invariant Fetched(text, c, p, se, cs, j) && out.Valid() && Copied(cs, j, x, before, out.full)
      decreases |cs| - j
    {
      CopiedOn(cs, j, x, before, out.full);
      if c <= 127 {
        out.Put(c);
        x := x + 1;
        if x == h {
          BasicWithin(cs, j + 1);
          return;
        }
      }
      j := j + 1;
      c, p := Fetch(text, p, se, cs, j);
    }
    assert cs[..j] == cs;
  }

  /** Of the first j code points the x basic ones are in the output. */
  ghost predicate Copied(cs: seq<int>, j: nat, x: nat, before: seq<Byte>, full: seq<Byte>) {
    Scalars(cs) && j <= |cs| && x == |Basic(cs[..j])| && full == before + Basic(cs[..j])
  }

  lemma CopiedOn(cs: seq<int>, j: nat, x: nat, before: seq<Byte>, full: seq<Byte>)
    requires Copied(cs, j, x, before, full) && j < |cs|
    ensures if cs[j] < 128 then Copied(cs, j + 1, x + 1, before, full + [cs[j]])
            else Copied(cs, j + 1, x, before, full)
  {
    BasicGrows(cs, j);
    BasicPrefix(cs, j, before);
  }

  /** The least code point from n on; there is one. */
  method LeastFrom(text: seq<Byte>, s: nat, se: nat, n: nat, ghost cs: seq<int>) returns (m: nat)
    requires At(text, s, se, cs, 0) && NextPoint(cs, n) != -1
    ensures m == NextPoint(cs, n)
  {
    m := UINT_MAX;
    var c, p: nat := Fetch(text, s, se, cs, 0);
    ghost var j: nat := 0;
    while p <= se
      invariant Fetched(text, c, p, se, cs, j)
      invariant forall i :: 0 <= i < j && cs[i] >= n ==> m <= cs[i]
      invariant m == UINT_MAX || (m >= n && m in cs)
      decreases |cs| - j
    {
      if c >= n {
        if c < m {
          m := c;
        }
      }
      j := j + 1;
      c, p := Fetch(text, p, se, cs, j);
    }
    IsLeast(cs, n, m);
  }

  lemma IsLeast(cs: seq<int>, n: nat, m: nat)
    requires NextPoint(cs, n) != -1 && (forall i :: 0 <= i < |cs| ==> cs[i] < UINT_MAX)
    requires (forall i :: 0 <= i < |cs| && cs[i] >= n ==> m <= cs[i]) && (m == UINT_MAX || (m >= n && m in cs))
    ensures m == NextPoint(cs, n)
  {
    var i :| 0 <= i < |cs| && cs[i] == NextPoint(cs, n);
  }

  // ----- writing -----

  /** The loop that writes one integer. */
  method PutInt(delta: nat, bias: nat, out: Output)
    requires out.Valid()
    modifies out`d, out`full, out.buf
    ensures out.Valid() && out.full == old(out.full) + WriteInt(delta, 36, bias)
  {
    var k: nat, q: nat := 36, delta;
    var t := ThresholdAt(k, bias);
    ghost var all := old(out.full) + WriteInt(delta, 36, bias);
    while q >= t
      invariant t == Threshold(k, bias) && out.Valid() && out.full + WriteInt(q, k, bias) == all
      decreases q
    {
      q := PutDigit(q, k, t, bias, out);
      k := k + 36;
      t := ThresholdAt(k, bias);
    }
    WriteLast(q, k, bias);
    out.Put(Alphabet(q));
  }

  /** One digit that is not the last, and what is left. */
  method PutDigit(q: nat, k: nat, t: nat, bias: nat, out: Output) returns (rest: nat)
    requires out.Valid() && t == Threshold(k, bias) <= q
    modifies out`d, out`full, out.buf
    ensures out.Valid() && rest < q && out.full + WriteInt(rest, k + 36, bias) == old(out.full) + WriteInt(q, k, bias)
  {
    var x, y := q - t, 36 - t;
    Quotient(q, t);
    WriteStep(q, k, bias, t + x % y, x / y);
    out.Put(Alphabet(t + x % y));
    rest := x / y;
    Onwards(old(out.full), [Alphabet(t + x % y)], WriteInt(rest, k + 36, bias));
  }

  lemma Onwards(a: seq<Byte>, b: seq<Byte>, c: seq<Byte>)
    ensures a + b + c == a + (b + c)
  {
  }

  method ThresholdAt(k: nat, bias: nat) returns (t: nat)
    ensures t == Threshold(k, bias)
  {
    t := 1;
    if k > bias {
      t := k - bias;
    }
    if t > 26 {
      t := 26;
    }
  }

  lemma Damped(delta: nat)
    ensures delta / 2 / 350 == delta / 700
  {
    var a, b := delta / 2, delta / 2 / 350;
    assert delta == 2 * a + delta % 2 && a == 350 * b + a % 350;
    assert delta == 700 * b + (2 * (a % 350) + delta % 2);
  }

  /** The adaptation of the bias; delta is the value just written, h the code points now out. */
  method AdaptBias(delta: nat, h: nat, first: bool) returns (bias: nat)
    requires h > 0
    ensures bias == Adapt(delta, h, first)
  {
    Damped(delta);
    var d: nat := delta / 2;
    if first {
      d := d / 350;
    }
    bias := SettleBias(d + d / h);
  }

  method SettleBias(delta: nat) returns (bias: nat)
    ensures bias == Settle(delta, 0)
  {
    var d: nat := delta;
    bias := 0;
    while d > 455
      invariant Settle(d, bias) == Settle(delta, 0)
      decreases d
    {
      SettleStep(d, bias);
      d := d / 35;
      bias := bias + 36;
    }
    SettleEnd(d, bias);
    bias := bias + 36 * d / (d + 38);
  }

  lemma SettleStep(d: nat, k: nat)
    requires d > 455
    ensures Settle(d, k) == Settle(d / 35, k + 36)
  {
  }

  lemma SettleEnd(d: nat, k: nat)
    requires d <= 455
    ensures Settle(d, k) == k + 36 * d / (d + 38)
  {
  }

  // ----- the passes -----

  /** What holds of the encoder when the pass for its n has come to j: h counts what is written, and delta is
      bounded. */
  ghost predicate InCount(cs: seq<int>, j: nat, st: Encoder)
    requires j <= |cs|
  {
    && st.h == |Written(cs, st.n, j)| && st.delta <= st.n * (st.h + 1) + Position(cs, st.n, j)
    && st.delta <= UINT_MAX && st.n < 0x110000
  }

  /** The delta that would overflow can only come from a label this long. */
  predicate TooLong(cs: seq<int>) {
    (|cs| + 1) * 0x110000 > UINT_MAX
  }

  lemma {:induction false} BelowLength(cs: seq<int>, n: int)
    ensures |Below(cs, n)| <= |cs|
  {
    if cs != [] {
      BelowLength(cs[1..], n);
    }
  }

  lemma WrittenLength(cs: seq<int>, n: int, j: nat)
    requires j <= |cs|
    ensures |Written(cs, n, j)| <= |cs| && Position(cs, n, j) <= j
  {
    BelowLength(cs[..j], n + 1);
    BelowLength(cs[j..], n);
  }

  lemma Ceiling(n: nat, h: nat, pos: nat, len: nat, delta: nat)
    requires n < 0x110000 && pos <= h <= len && delta <= n * (h + 1) + pos
    ensures delta <= (len + 1) * 0x110000
  {
    assert n * (h + 1) + pos <= (n + 1) * (h + 1);
    assert (n + 1) * (h + 1) <= 0x110000 * (h + 1);
    assert 0x110000 * (h + 1) <= 0x110000 * (len + 1);
  }

  lemma NotNegative(n: nat, h: nat)
    ensures n * h >= 0
  {
  }

  lemma FullMeansLong(cs: seq<int>, j: nat, st: Encoder)
    requires j <= |cs| && InCount(cs, j, st) && st.delta == UINT_MAX
    ensures TooLong(cs)
  {
    WrittenLength(cs, st.n, j);
    PositionWithin(cs, st.n, j);
    Ceiling(st.n, st.h, Position(cs, st.n, j), |cs|, st.delta);
  }

  /** One code point of a pass that is not n. */
  lemma CountedOn(cs: seq<int>, j: nat, st: Encoder)
    requires j < |cs| && InCount(cs, j, st) && cs[j] != st.n
    ensures st.delta + 1 <= UINT_MAX || cs[j] > st.n ==>
              InCount(cs, j + 1, if cs[j] < st.n then st.(delta := st.delta + 1) else st)
    ensures st.delta == UINT_MAX ==> TooLong(cs)
  {
    if st.delta == UINT_MAX {
      FullMeansLong(cs, j, st);
    }
    Advance(cs, st.n, j);
    assert Written(cs, st.n, j + 1) == Written(cs, st.n, j);
  }

  lemma CountedEmitted(cs: seq<int>, j: nat, st: Encoder)
    requires j < |cs| && InCount(cs, j, st) && cs[j] == st.n
    ensures InCount(cs, j + 1, Emitted(st))
  {
    WrittenNext(cs, st.n, j);
    NotNegative(st.n, st.h + 2);
    assert Emitted(st).h == st.h + 1 && Emitted(st).delta == 0 && Emitted(st).n == st.n;
  }

  lemma PassStepOther(cs: seq<int>, j: nat, st: Encoder)
    requires j < |cs| && cs[j] != st.n
    ensures Pass(cs, j, st) == Pass(cs, j + 1, if cs[j] < st.n then st.(delta := st.delta + 1) else st)
  {
  }

  lemma PassStepSame(cs: seq<int>, j: nat, st: Encoder, done: seq<Byte>)
    requires j < |cs| && cs[j] == st.n
    ensures Pass(cs, j, st).0 == Pass(cs, j + 1, Emitted(st)).0
    ensures done + WriteInt(st.delta, 36, st.bias) + Pass(cs, j + 1, Emitted(st)).1 == done + Pass(cs, j, st).1
  {
  }

  /** Part of a pass is done: what it has written and what is to come make up the whole. */
  ghost predicate Passing(cs: seq<int>, j: nat, st: Encoder, done: seq<Byte>, end: Encoder, digits: seq<Byte>)
    requires j <= |cs|
  {
    InCount(cs, j, st) && Pass(cs, j, st).0 == end && done + Pass(cs, j, st).1 == digits && st.n == end.n
  }

  /** The body of the inner loop. */
  method Visit(c: int, st: Encoder, out: Output, ghost cs: seq<int>, ghost j: nat, ghost done: seq<Byte>,
      ghost end: Encoder, ghost digits: seq<Byte>) returns (next: Encoder, err: Error, ghost done': seq<Byte>)
    requires j < |cs| && c == cs[j] && Passing(cs, j, st, done, end, digits) && out.Valid()
    modifies out`d, out`full, out.buf
    ensures out.Valid() && err in {Ok, E2BIG} && (err == E2BIG ==> TooLong(cs))
    ensures err == Ok ==>
              Passing(cs, j + 1, next, done', end, digits) && done <= done'
              && out.full == old(out.full) + done'[|done|..]
    ensures next.h == (if c == st.n then st.h + 1 else st.h)
            && (err == Ok ==> next.delta == if c == st.n then 0 else if c < st.n then st.delta + 1 else st.delta)
  {
    next, err, done' := st, Ok, done;
    if c == st.n {
      CountedEmitted(cs, j, st);
      PassStepSame(cs, j, st, done);
      done' := done + WriteInt(st.delta, 36, st.bias);
      next := EmitOne(st, out);
    } else {
      CountedOn(cs, j, st);
      PassStepOther(cs, j, st);
      if c < st.n {
        if st.delta == UINT_MAX {
          return st, E2BIG, done;
        }
        next := st.(delta := st.delta + 1);
      }
    }
  }

  /** The inner loop: one pass over the label for the code point st.n. */
  method RunPass(text: seq<Byte>, s: nat, se: nat, out: Output, ghost cs: seq<int>, st: Encoder)
    returns (end: Encoder, err: Error)
    requires At(text, s, se, cs, 0) && InCount(cs, 0, st) && out.Valid() && st.n in cs
    modifies out`d, out`full, out.buf
    ensures out.Valid() && err in {Ok, E2BIG} && (err == E2BIG ==> TooLong(cs))
    ensures err == Ok ==>
              end == Pass(cs, 0, st).0 && out.full == old(out.full) + Pass(cs, 0, st).1 && InCount(cs, |cs|, end)
              && end.delta < |cs| && end.h > st.h
  {
    end, err := st, Ok;
    var c, p: nat := Fetch(text, s, se, cs, 0);
    ghost var j: nat, done: seq<Byte>, before := 0, [], out.full;
    ghost var last, digits := Pass(cs, 0, st).0, Pass(cs, 0, st).1;
    while p <= se
      invariant Fetched(text, c, p, se, cs, j) && Passing(cs, j, end, done, last, digits)
      invariant err == Ok && out.Valid() && out.full == before + done && Moved(cs, j, st, end)
      decreases |cs| - j
    {
      ghost var done', was := [], end;
      end, err, done' := Visit(c, end, out, cs, j, done, last, digits);
      if err != Ok {
        return;
      }
      Joined(before, done, done');
      MovedOn(cs, j, st, was, end);
      j, done := j + 1, done';
      c, p := Fetch(text, p, se, cs, j);
    }
    PassOver(cs, st, end, done, last, digits);
  }

  /** Once n has been met, delta counts only what followed it. */
  ghost predicate Moved(cs: seq<int>, j: nat, st: Encoder, end: Encoder)
    requires j <= |cs|
  {
    end.n == st.n && end.h >= st.h && (st.n in cs[..j] ==> end.delta < j && end.h > st.h)
  }

  lemma MovedOn(cs: seq<int>, j: nat, st: Encoder, was: Encoder, end: Encoder)
    requires j < |cs| && Moved(cs, j, st, was) && end.n == st.n
    requires end.h == (if cs[j] == st.n then was.h + 1 else was.h)
             && end.delta == if cs[j] == st.n then 0 else if cs[j] < st.n then was.delta + 1 else was.delta
    ensures Moved(cs, j + 1, st, end)
  {
    assert cs[..j + 1] == cs[..j] + [cs[j]];
  }

  lemma Joined(before: seq<Byte>, done: seq<Byte>, done': seq<Byte>)
    requires done <= done'
    ensures before + done + done'[|done|..] == before + done'
  {
  }

  lemma PassOver(cs: seq<int>, st: Encoder, end: Encoder, done: seq<Byte>, last: Encoder, digits: seq<Byte>)
    requires Passing(cs, |cs|, end, done, last, digits) && Moved(cs, |cs|, st, end) && st.n in cs
    ensures end == last && done == digits && end.delta < |cs| && end.h > st.h
  {
    assert cs[..|cs|] == cs;
  }

  method EmitOne(st: Encoder, out: Output) returns (next: Encoder)
    requires out.Valid()
    modifies out`d, out`full, out.buf
    ensures out.Valid() && next == Emitted(st) && out.full == old(out.full) + WriteInt(st.delta, 36, st.bias)
  {
    PutInt(st.delta, st.bias, out);
    var h := st.h + 1;
    var bias := AdaptBias(st.delta, h, st.first);
    next := Encoder(st.n, 0, h, bias, false);
  }

  // ----- all passes -----

  /** Between passes. */
  ghost predicate Between(cs: seq<int>, st: Encoder) {
    st.h == |Below(cs, st.n)| && st.delta <= st.n * (st.h + 1) && st.delta <= |cs| && st.n <= 0x110000
  }

  lemma SomeLeft(cs: seq<int>, st: Encoder)
    requires Between(cs, st) && st.h < |cs|
    ensures NextPoint(cs, st.n) != -1
  {
    if NextPoint(cs, st.n) == -1 {
      BelowAll(cs, st.n);
    }
  }

  lemma NoneLeft(cs: seq<int>, st: Encoder)
    requires Scalars(cs) && Between(cs, st) && st.h == |cs|
    ensures Rounds(cs, st) == []
  {
    BelowFull(cs, st.n);
  }

  lemma {:induction false} BelowFull(cs: seq<int>, n: int)
    requires |Below(cs, n)| == |cs|
    ensures forall i :: 0 <= i < |cs| ==> cs[i] < n
  {
    if cs != [] {
      BelowLength(cs[1..], n);
      BelowFull(cs[1..], n);
      assert forall i :: 0 <= i < |cs| ==> i == 0 || cs[i] == cs[1..][i - 1];
    }
  }

  /** delta + x * y does not wrap exactly when the test of the source lets it through. */
  lemma TestIsExact(delta: nat, x: nat, y: nat, grown: nat)
    requires delta <= UINT_MAX && y > 0 && grown == delta + x * y
    ensures x > (UINT_MAX - delta) / y <==> grown > UINT_MAX
  {
    var q, r := (UINT_MAX - delta) / y, (UINT_MAX - delta) % y;
    assert UINT_MAX - delta == q * y + r;
    if x > q {
      assert x * y >= (q + 1) * y;
    } else {
      assert x * y <= q * y;
    }
  }

  lemma SkipBounds(delta: nat, n: nat, m: nat, y: nat, h: nat, len: nat)
    requires delta <= n * y && n <= m < 0x110000 && y == h + 1 && h <= len
    ensures delta + (m - n) * y <= m * y <= (len + 1) * 0x110000
  {
    Distribute(n, m, y);
    Ceiling(m, h, 0, len, m * y);
  }

  lemma SkipCounts(cs: seq<int>, st: Encoder, m: nat, x: nat, y: nat, grown: nat)
    requires Scalars(cs) && Between(cs, st) && NextPoint(cs, st.n) == m && x == m - st.n && y == st.h + 1
             && grown == st.delta + x * y
    ensures m in cs && m < 0x110000 && st.n <= m && Skipped(st, m) == Encoder(m, grown, st.h, st.bias, st.first)
    ensures grown > UINT_MAX ==> TooLong(cs)
    ensures grown <= UINT_MAX ==> InCount(cs, 0, Encoder(m, grown, st.h, st.bias, st.first))
  {
    NothingBetween(cs, st.n, m);
    WrittenStart(cs, m);
    BelowLength(cs, st.n);
    SkipBounds(st.delta, st.n, m, y, st.h, |cs|);
  }

  lemma RoundCounts(cs: seq<int>, end: Encoder)
    requires InCount(cs, |cs|, end) && end.delta < |cs|
    ensures Between(cs, end.(delta := end.delta + 1, n := end.n + 1))
  {
    WrittenEnd(cs, end.n);
    Distribute(end.n, end.n + 1, end.h + 1);
  }

  lemma StartCounts(cs: seq<int>)
    requires Scalars(cs)
    ensures Between(cs, Encoder(128, 0, |Basic(cs)|, 72, true))
  {
    BasicIsBelow(cs);
    NotNegative(128, |Basic(cs)| + 1);
  }

  /** One turn of the outer loop. */
  method OneRound(text: seq<Byte>, s: nat, se: nat, out: Output, ghost cs: seq<int>,
      st: Encoder) returns (next: Encoder, err: Error, ghost digits: seq<Byte>)
    requires At(text, s, se, cs, 0) && Between(cs, st) && st.h < |cs| < UINT_MAX && out.Valid()
    modifies out`d, out`full, out.buf
    ensures out.Valid() && err in {Ok, E2BIG} && (err == E2BIG ==> TooLong(cs))
    ensures err == Ok ==>
              Between(cs, next) && next.h > st.h && out.full == old(out.full) + digits
              && Rounds(cs, st) == digits + Rounds(cs, next)
  {
    next, err, digits := st, Ok, [];
    SomeLeft(cs, st);
    var m := LeastFrom(text, s, se, st.n, cs);
    var x: nat, y: nat := m - st.n, st.h + 1;
    NotNegative(x, y);
    ghost var grown: nat := st.delta + x * y;
    SkipCounts(cs, st, m, x, y, grown);
    TestIsExact(st.delta, x, y, grown);
    if x > (UINT_MAX - st.delta) / y {
      return st, E2BIG, [];
    }
    next, err, digits := RoundFor(text, s, se, out, cs, st, m, Encoder(m, st.delta + x * y, st.h, st.bias, st.first));
  }

  method RoundFor(text: seq<Byte>, s: nat, se: nat, out: Output, ghost cs: seq<int>, ghost st: Encoder, ghost m: nat,
      skipped: Encoder) returns (next: Encoder, err: Error, ghost digits: seq<Byte>)
    requires At(text, s, se, cs, 0) && NextPoint(cs, st.n) == m && skipped == Skipped(st, m) && InCount(cs, 0, skipped)
             && m in cs && |cs| < UINT_MAX && out.Valid()
    modifies out`d, out`full, out.buf
    ensures out.Valid() && err in {Ok, E2BIG} && (err == E2BIG ==> TooLong(cs))
    ensures err == Ok ==>
              Between(cs, next) && next.h > st.h && out.full == old(out.full) + digits
              && Rounds(cs, st) == digits + Rounds(cs, next)
  {
    digits := Pass(cs, 0, skipped).1;
    next, err := RunPass(text, s, se, out, cs, skipped);
    if err == Ok {
      ghost var end := next;
      RoundCounts(cs, end);
      next := next.(delta := next.delta + 1, n := next.n + 1);
      RoundsStep(cs, st, m, end, digits);
    }
  }

  method EncodePoints(text: seq<Byte>, s: nat, se: nat, h: nat, todo: nat, out: Output,
      ghost cs: seq<int>) returns (err: Error)
    requires At(text, s, se, cs, 0) && h == |Basic(cs)| && todo == |cs| - h && |cs| < UINT_MAX && out.Valid()
    modifies out`d, out`full, out.buf
    ensures out.Valid() && err in {Ok, E2BIG} && (err == E2BIG ==> TooLong(cs))
    ensures err == Ok ==> out.full == old(out.full) + Rounds(cs, Encoder(128, 0, h, 72, true))
  {
    err := Ok;
    StartCounts(cs);
    var st, left: nat := Encoder(128, 0, h, 72, true), todo;
    ghost var done: seq<Byte>, all, before := [], Rounds(cs, st), out.full;
    while left > 0
      invariant err == Ok && Between(cs, st) && left == |cs| - st.h && out.Valid() && out.full == before + done
                && done + Rounds(cs, st) == all
      decreases left
    {
      var next;
      ghost var digits;
      BelowLength(cs, st.n);
      next, err, digits := OneRound(text, s, se, out, cs, st);
      if err != Ok {
        return;
      }
      BelowLength(cs, next.n);
      Regrouped(before, done, digits, Rounds(cs, next));
      left, st, done := left - (next.h - st.h), next, done + digits;
    }
    NoneLeft(cs, st);
  }

  lemma Regrouped(a: seq<Byte>, b: seq<Byte>, c: seq<Byte>, d: seq<Byte>)
    ensures a + b + c == a + (b + c) && b + (c + d) == b + c + d
  {
  }

  method PutPrefix(out: Output)
    requires out.Valid()
    modifies out`d, out`full, out.buf
    ensures out.Valid() && out.full == old(out.full) + PREFIX
  {
    out.Put(120);
    out.Put(110);
    out.Put(45);
    out.Put(45);
  }

  /** uv__idna_toascii_label, on any bytes: EINVAL if one of the code points is invalid, else the label's ASCII form, or
      E2BIG, which only a very long label can bring about. */
  method LabelToAscii(text: seq<Byte>, s: nat, se: nat, out: Output) returns (rc: int, err: Error)
    requires s <= se && Readable(text, s, se) && |Points(text, s, se)| < UINT_MAX && out.Valid()
    modifies out`d, out`full, out.buf
    ensures out.Valid() && (err == EINVAL <==> !Scalars(Points(text, s, se)))
    ensures err == EINVAL ==> out.full == old(out.full)
    ensures err == E2BIG ==> TooLong(Points(text, s, se))
    ensures err == Ok ==>
              var cs := Points(text, s, se);
              out.full == old(out.full) + Ace(cs) && rc == if |Basic(cs)| == |cs| then |cs| else 0
  {
    rc, err := 0, Ok;
    ghost var cs := Points(text, s, se);
    assert cs[0..] == cs;
    var h, todo;
    h, todo, err := CountPoints(text, s, se, cs);
    if err != Ok {
      return;
    }
    ghost var before := out.full;
    if todo > 0 {
      PutPrefix(out);
    }
    CopyBasic(text, s, se, h, out, cs);
    if todo == 0 {
      return h, Ok;
    }
    if h > 0 {
      out.Put(45);
    }
    ghost var head := out.full;
    assert head == before + (PREFIX + (Basic(cs) + (if h > 0 then [45] else [])));
    err := EncodePoints(text, s, se, h, todo, out, cs);
    AceIs(cs, before, head);
  }

  lemma Nested(a: seq<Byte>, b: seq<Byte>, c: seq<Byte>, d: seq<Byte>)
    ensures a + (b + c) + d == a + (b + (c + d))
  {
  }

  lemma AceIs(cs: seq<int>, before: seq<Byte>, head: seq<Byte>)
    requires Scalars(cs) && |Basic(cs)| != |cs|
             && head == before + (PREFIX + (Basic(cs) + (if |Basic(cs)| > 0 then [45] else [])))
    ensures head + Rounds(cs, Encoder(128, 0, |Basic(cs)|, 72, true)) == before + Ace(cs)
  {
    Nested(before, PREFIX, Basic(cs) + (if |Basic(cs)| > 0 then [45] else []),
        Rounds(cs, Encoder(128, 0, |Basic(cs)|, 72, true)));
  }

  // ----- whole names -----

  /** The full stops that end a label. */
  predicate Dot(c: int) {
    c == 0x2E || c == 0x3002 || c == 0xFF0E || c == 0xFF61
  }

  /** The ASCII form of a name, of whose current label some is read: labels with a full stop after each but perhaps
      the last, which is left out when it is empty, and a zero byte. */
  function Name(part: seq<int>, rest: seq<int>): seq<Byte>
    requires Scalars(part) && Scalars(rest)
    decreases |rest|
  {
    if rest == [] then (if part != [] then Ace(part) else []) + [0]
    else if Dot(rest[0]) then Ace(part) + ([46] + Name([], rest[1..]))
    else Name(part + [rest[0]], rest[1..])
  }

  /** What the loop over a name goes through: all code points, but for one that ends past se and is no full stop. */
  function Seen(text: seq<Byte>, p: nat, se: nat): (cs: seq<int>)
    requires Readable(text, p, se)
    ensures forall i :: 0 <= i < |cs| ==> cs[i] == -1 || Scalar(cs[i])
    decreases se + 1 - p
  {
    if p >= se || (Next(text, p, se) > se && !Dot(Value(text, p, se))) then []
    else [Value(text, p, se)] + Seen(text, Next(text, p, se), se)
  }

  /** Reading leads from p to q, over cs. */
  predicate Leads(text: seq<Byte>, p: nat, q: nat, cs: seq<int>)
    decreases |cs|
  {
    if cs == [] then p == q
    else
      && p < q && CanRead(text, p, q) && Value(text, p, q) == cs[0] && Next(text, p, q) <= q
      && Leads(text, Next(text, p, q), q, cs[1..])
  }

  lemma {:induction false} LeadsOn(text: seq<Byte>, p: nat, q: nat, cs: seq<int>, se: nat)
    requires Leads(text, p, q, cs) && q < se && CanRead(text, q, se) && Next(text, q, se) <= se
    ensures Leads(text, p, Next(text, q, se), cs + [Value(text, q, se)])
    decreases |cs|
  {
    var next, all := Next(text, q, se), cs + [Value(text, q, se)];
    if cs == [] {
      SameRead(text, q, se, next);
      assert all[1..] == [];
    } else {
      SameRead(text, p, q, next);
      LeadsOn(text, Next(text, p, q), q, cs[1..], se);
      assert all[0] == cs[0] && all[1..] == cs[1..] + [Value(text, q, se)];
    }
  }

  /** The code points up to st, where a full stop begins, and after it. */
  lemma {:induction false} LeadsTo(text: seq<Byte>, p: nat, st: nat, se: nat, cs: seq<int>)
    requires Leads(text, p, st, cs) && st <= se && Readable(text, st, se)
    ensures p <= se && Readable(text, p, se) && Points(text, p, se) == cs + Points(text, st, se)
    decreases |cs|
  {
    if cs != [] {
      SameRead(text, p, st, se);
      LeadsTo(text, Next(text, p, st), st, se, cs[1..]);
    }
  }

  lemma LabelIs(text: seq<Byte>, from: nat, st: nat, se: nat, part: seq<int>)
    requires Leads(text, from, st, part) && st < se && CanRead(text, st, se)
    ensures from <= st && Readable(text, from, st) && Points(text, from, st) == part
  {
    assert CanRead(text, st, st);
    LeadsTo(text, from, st, st, part);
    assert Points(text, st, st) == [];
  }

  // ----- the loop over a name -----

  /** Since from, part has been read; beyond se nothing is left to read, and the label that began at from, if any, ends
      at se. */
  ghost predicate Current(text: seq<Byte>, from: nat, si: nat, se: nat, part: seq<int>) {
    if si <= se then Leads(text, from, si, part)
    else if from < se then Readable(text, from, se) && Points(text, from, se) == part
    else part == []
  }

  /** Of all code points those in done are in the output, and those in part are the current label's; rest is to come. */
  ghost predicate Upto(all: seq<int>, done: seq<int>, part: seq<int>, rest: seq<int>, full: seq<Byte>) {
    && all == done + part + rest && Scalars(done)
    && (Scalars(part) && Scalars(rest) && Scalars(all) ==> full + Name(part, rest) == Name([], all))
  }

  ghost predicate Running(text: seq<Byte>, from: nat, si: nat, se: nat, all: seq<int>, done: seq<int>, part: seq<int>,
      full: seq<Byte>) {
    Readable(text, si, se) && Current(text, from, si, se, part) && Upto(all, done, part, Seen(text, si, se), full)
  }

  /** A code point of the current label. */
  lemma PointTaken(all: seq<int>, done: seq<int>, part: seq<int>, c: int, rest: seq<int>, full: seq<Byte>)
    requires Upto(all, done, part, [c] + rest, full) && !Dot(c)
    ensures Upto(all, done, part + [c], rest, full)
  {
    assert done + part + ([c] + rest) == done + (part + [c]) + rest;
    if Scalars(part + [c]) && Scalars(rest) && Scalars(all) {
      assert forall i :: 0 <= i < |part| ==> part[i] == (part + [c])[i];
      assert (part + [c])[|part|] == c && ([c] + rest)[1..] == rest;
    }
  }

  /** A full stop: the label's form and a full stop have been written. */
  lemma DotTaken(all: seq<int>, done: seq<int>, part: seq<int>, c: int, rest: seq<int>, full: seq<Byte>)
    requires Upto(all, done, part, [c] + rest, full) && Dot(c) && Scalars(part)
    ensures Upto(all, done + part + [c], [], rest, full + Ace(part) + [46])
  {
    assert done + part + ([c] + rest) == done + part + [c] + [] + rest;
    if Scalars(rest) && Scalars(all) {
      NameAtDot(part, c, rest, full);
    }
  }

  lemma NameAtDot(part: seq<int>, c: int, rest: seq<int>, full: seq<Byte>)
    requires Scalars(part) && Scalars(rest) && Dot(c)
    ensures Scalars([c] + rest) && full + Name(part, [c] + rest) == full + Ace(part) + [46] + Name([], rest)
  {
    assert ([c] + rest)[0] == c && ([c] + rest)[1..] == rest;
  }

  /** One code point is read; it is not a full stop. */
  lemma ReadOn(text: seq<Byte>, from: nat, si: nat, se: nat, part: seq<int>)
    requires si < se && Readable(text, si, se) && Leads(text, from, si, part)
    ensures var c, next := Value(text, si, se), Next(text, si, se);
      && Readable(text, next, se)
      && (next <= se ==> Seen(text, si, se) == [c] + Seen(text, next, se) && Current(text, from, next, se, part + [c]))
      && (next > se && !Dot(c) ==>
            Seen(text, si, se) == [] == Seen(text, next, se) && Current(text, from, next, se, part))
  {
    var next := Next(text, si, se);
    if next <= se {
      LeadsOn(text, from, si, part, se);
    } else {
      LeadsTo(text, from, si, se, part);
      assert Points(text, si, se) == [] && part + [] == part;
    }
  }

  /** The body of the loop: one more code point of the current label, or the label's end. */
  method TakeOne(text: seq<Byte>, from: nat, si: nat, se: nat, out: Output, ghost all: seq<int>, ghost done: seq<int>,
      ghost part: seq<int>)
    returns (next: nat, from': nat, err: Error, ghost done': seq<int>, ghost part': seq<int>)
    requires si < se && out.Valid() && Running(text, from, si, se, all, done, part, out.full) && |all| < UINT_MAX
    modifies out`d, out`full, out.buf
    ensures out.Valid() && (err == E2BIG ==> TooLong(all)) && (err == EINVAL ==> !Scalars(all))
    ensures next > si && (err == Ok ==> Running(text, from', next, se, all, done', part', out.full))
  {
    from', err, done', part' := from, Ok, done, part;
    ReadOn(text, from, si, se, part);
    var c;
    c, next := Decode1(text, si, se);
    ghost var rest := Seen(text, next, se);
    if c != 0x2E && c != 0x3002 && c != 0xFF0E && c != 0xFF61 {
      if next <= se {
        PointTaken(all, done, part, c, rest, out.full);
        part' := part + [c];
      }
    } else {
      LabelIs(text, from, si, se, part);
      InPart(all, done, part, Seen(text, si, se));
      var rc;
      ghost var before := out.full;
      rc, err := LabelToAscii(text, from, si, out);
      if err == Ok {
        DotTaken(all, done, part, c, rest, before);
        out.Put(46);
        from', done', part' := next, done + part + [c], [];
      }
    }
  }

  lemma InPart(all: seq<int>, done: seq<int>, part: seq<int>, rest: seq<int>)
    requires all == done + part + rest
    ensures |part| <= |all| && (TooLong(part) ==> TooLong(all)) && (Scalars(all) ==> Scalars(part))
  {
    assert forall i :: 0 <= i < |part| ==> part[i] == all[|done| + i];
  }

  /** uv__idna_toascii, on any bytes: the name's ASCII form as far as it fits, and the number of bytes written; an error
      only if a code point is invalid or a label very long. */
  method ToAscii(text: seq<Byte>, s: nat, se: nat, out: Output) returns (n: int, err: Error)
    requires s <= se && Readable(text, s, se) && |Seen(text, s, se)| < UINT_MAX && out.Valid() && out.full == []
    modifies out`d, out`full, out.buf
    ensures out.Valid() && (err == E2BIG ==> TooLong(Seen(text, s, se)))
    ensures err == EINVAL ==> !Scalars(Seen(text, s, se))
    ensures err == Ok ==> Scalars(Seen(text, s, se)) && out.full == Name([], Seen(text, s, se))
                          && n == out.d - out.start
  {
    n, err := 0, Ok;
    var si: nat, from: nat := s, s;
    ghost var all, done: seq<int>, part: seq<int> := Seen(text, s, se), [], [];
    assert all == done + part + all;
    while si < se
      invariant err == Ok && out.Valid() && Running(text, from, si, se, all, done, part, out.full)
      decreases se - si
    {
      si, from, err, done, part := TakeOne(text, from, si, se, out, all, done, part);
      if err != Ok {
        return;
      }
    }
    AtEnd(text, from, si, se, part);
    err := LastLabel(text, from, se, out, all, done, part);
    if err == Ok {
      out.Put(0);
      n := out.d - out.start;
    }
  }

  /** What comes after the loop, but for the zero byte. */
  method LastLabel(text: seq<Byte>, from: nat, se: nat, out: Output, ghost all: seq<int>, ghost done: seq<int>,
      ghost part: seq<int>) returns (err: Error)
    requires out.Valid() && Upto(all, done, part, [], out.full) && |all| < UINT_MAX
    requires if from < se then Readable(text, from, se) && Points(text, from, se) == part else part == []
    modifies out`d, out`full, out.buf
    ensures out.Valid() && (err == E2BIG ==> TooLong(all)) && (err == EINVAL ==> !Scalars(all))
    ensures err == Ok ==> Scalars(all) && out.full + [0] == Name([], all)
  {
    err := Ok;
    InPart(all, done, part, []);
    if from < se {
      var rc;
      rc, err := LabelToAscii(text, from, se, out);
    }
    if err == Ok {
      AllScalars(done, part, all);
    }
  }

  lemma AllScalars(done: seq<int>, part: seq<int>, all: seq<int>)
    requires Scalars(done) && Scalars(part) && all == done + part + []
    ensures Scalars(all)
  {
  }

  lemma AtEnd(text: seq<Byte>, from: nat, si: nat, se: nat, part: seq<int>)
    requires si >= se && Readable(text, si, se) && Current(text, from, si, se, part)
    ensures Seen(text, si, se) == []
    ensures from < se ==> Readable(text, from, se) && Points(text, from, se) == part
    ensures from >= se ==> part == []
  {
    if si == se && from < se {
      LeadsTo(text, from, si, se, part);
      assert Points(text, se, se) == [];
    }
  }

  // ----- what a name goes through -----

  /** Where the code points of foreach_codepoint end. */
  function End(text: seq<Byte>, p: nat, se: nat): (q: nat)
    requires p <= se && Readable(text, p, se)
    ensures p <= q <= se && CanRead(text, q, se)
    decreases se - p
  {
    if Next(text, p, se) > se then p else End(text, Next(text, p, se), se)
  }

  /** The loop over a name goes through the same code points, and a full stop that the end cuts off. */
  lemma {:induction false} SeenIsPoints(text: seq<Byte>, p: nat, se: nat)
    requires p <= se && Readable(text, p, se)
    ensures var q := End(text, p, se);
      Seen(text, p, se) == Points(text, p, se) + if q < se && Dot(Value(text, q, se)) then [Value(text, q, se)] else []
    decreases se - p
  {
    if Next(text, p, se) <= se {
      SeenIsPoints(text, Next(text, p, se), se);
    }
  }

  lemma {:induction false} SoundEnd(text: seq<Byte>, p: nat, se: nat)
    requires p <= se && Readable(text, p, se) && Sound(text, p, se)
    ensures End(text, p, se) == se
    decreases se - p
  {
    if p < se {
      SoundEnd(text, Next(text, p, se), se);
    }
  }

  /** A name in UTF-8 of section 3 of RFC 3629 is gone through as it is spelled. */
  lemma SpelledName(text: seq<Byte>, s: nat, se: nat, cs: seq<int>)
    requires Scalars(cs) && s <= se && CanRead(text, se, se) && text[s..se] == SpellAll(cs)
    ensures Readable(text, s, se) && Seen(text, s, se) == cs
  {
    SpelledPoints(text, s, se, cs);
    SpelledIff(text, s, se);
    SoundEnd(text, s, se);
    SeenIsPoints(text, s, se);
  }
}
