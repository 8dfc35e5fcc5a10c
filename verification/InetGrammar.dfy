/** Which texts inet_pton6 accepts, and for which address: section 2.2 of RFC 4291. */
module InetGrammar {
  import opened Digits
  import opened InetText
  import opened InetParse
  import opened InetRoundTrip

  predicate AllHex(g: string) {
    forall i :: 0 <= i < |g| ==> HexDigit(g[i]) >= 0
  }

  /** One to four hexadecimal digits. */
  predicate IsGroup(g: string) {
    1 <= |g| <= 4 && AllHex(g)
  }

  function Value(before: nat, g: string): nat
    requires AllHex(g)
    decreases |g|
  {
    if g == "" then before else Value(before * 16 + HexDigit(g[0]), g[1..])
  }

  predicate AllGroups(gs: seq<string>) {
    forall i :: 0 <= i < |gs| ==> IsGroup(gs[i])
  }

  /** Two bytes a group. */
  function Bytes(gs: seq<string>): (bytes: seq<int>)
    requires AllGroups(gs)
    ensures |bytes| == 2 * |gs|
  {
    if gs == [] then [] else [Value(0, gs[0]) / 256 % 256, Value(0, gs[0]) % 256] + Bytes(gs[1..])
  }

  /** An address in the last four bytes, or none. */
  ghost predicate IsTail(tail: seq<int>) {
    tail == [] || Octets(tail, 4)
  }

  ghost function TailText(tail: seq<int>): string
    requires IsTail(tail)
  {
    if tail == [] then "" else Text4(tail)
  }

  /** The groups, and the address after them, with colons between. */
  ghost function Joined(gs: seq<string>, tail: seq<int>): string
    requires IsTail(tail)
  {
    if gs == [] then TailText(tail)
    else if |gs| == 1 && tail == [] then gs[0]
    else gs[0] + (":" + Joined(gs[1..], tail))
  }

  /** Groups, and one double colon or none, and perhaps an IPv4 address at the end. */
  datatype Form = Form(left: seq<string>, gap: bool, right: seq<string>, tail: seq<int>)

  /** Without a double colon there are sixteen bytes, with one fewer. */
  ghost predicate IsForm(x: Form) {
    && AllGroups(x.left) && AllGroups(x.right) && IsTail(x.tail)
    && if x.gap then 2 * |x.left| + 2 * |x.right| + |x.tail| < 16
       else x.right == [] && 2 * |x.left| + |x.tail| == 16
  }

  /** The text of a form. */
  ghost function FormText(x: Form): string
    requires IsTail(x.tail)
  {
    if x.gap then Joined(x.left, []) + ("::" + Joined(x.right, x.tail)) else Joined(x.left, x.tail)
  }

  /** Its address: the double colon stands for as many zeros as are missing. */
  ghost function FormBytes(x: Form): (bytes: seq<int>)
    requires IsForm(x)
    ensures |bytes| == 16
  {
    var after := Bytes(x.right) + x.tail;
    if x.gap then Bytes(x.left) + seq(16 - 2 * |x.left| - |after|, _ => 0) + after else Bytes(x.left) + x.tail
  }

  // ----- what is left to read -----

  /** The text from where a group may begin: as above, but for what is before it. */
  ghost function Rest(x: Form): string
    requires IsTail(x.tail)
  {
    if !x.gap then Joined(x.left, x.tail)
    else if x.left == [] then ":" + Joined(x.right, x.tail)
    else Joined(x.left, []) + ("::" + Joined(x.right, x.tail))
  }

  /** What the bytes come to with those already there; colon is where a double colon was. */
  function Outcome(x: Form, out: seq<int>, colon: int): Parsed
    requires AllGroups(x.left) && AllGroups(x.right)
  {
    var bytes := out + Bytes(x.left) + (Bytes(x.right) + x.tail);
    if |bytes| > 16 then Invalid else Spread(bytes, if x.gap then |out| + 2 * |x.left| else colon)
  }

  ghost predicate IsRest(x: Form, colon: int) {
    && AllGroups(x.left) && AllGroups(x.right) && IsTail(x.tail) && (x.gap ==> colon == -1)
    && (!x.gap ==> x.right == [])
  }

  function Cons(g: string, x: Form): Form {
    x.(left := [g] + x.left)
  }

  /** A group, its colon, and the rest. */
  lemma RestCons(g: string, x: Form, colon: int)
    requires IsRest(x, colon) && IsGroup(g) && (x.gap || x.left != [] || x.tail != [])
    ensures IsRest(Cons(g, x), colon) && Rest(Cons(g, x)) == g + (":" + Rest(x))
  {
    var y := Cons(g, x);
    assert y.left[0] == g && y.left[1..] == x.left;
    if x.gap && x.left != [] {
      var t := "::" + Joined(x.right, x.tail);
      assert g + (":" + Joined(x.left, [])) + t == g + (":" + (Joined(x.left, []) + t));
    } else if x.gap {
      assert g + ("::" + Joined(x.right, x.tail)) == g + (":" + (":" + Joined(x.right, x.tail)));
    }
  }

  lemma OutcomeCons(g: string, x: Form, out: seq<int>, colon: int)
    requires IsRest(x, colon) && IsGroup(g)
    ensures IsRest(Cons(g, x), colon)
    ensures Outcome(Cons(g, x), out, colon)
      == Outcome(x, out + [Value(0, g) / 256 % 256, Value(0, g) % 256], colon)
  {
    var y := Cons(g, x);
    assert y.left[0] == g && y.left[1..] == x.left;
    var two := [Value(0, g) / 256 % 256, Value(0, g) % 256];
    assert out + (two + Bytes(x.left)) == out + two + Bytes(x.left);
  }

  // ----- reading one group -----

  /** How many hexadecimal digits there are from i on. */
  function Run(text: string, i: nat): (n: nat)
    requires i <= |text|
    ensures i + n <= |text| && forall k :: i <= k < i + n ==> HexDigit(text[k]) >= 0
    ensures i + n < |text| ==> HexDigit(text[i + n]) < 0
    decreases |text| - i
  {
    if i == |text| || HexDigit(text[i]) < 0 then 0 else 1 + Run(text, i + 1)
  }

  lemma RunIsHex(text: string, i: nat, n: nat)
    requires i + n <= |text| && forall k :: i <= k < i + n ==> HexDigit(text[k]) >= 0
    ensures AllHex(text[i..i + n])
    ensures n > 0 ==> text[i..i + n][0] == text[i] && text[i..i + n][1..] == text[i + 1..i + n]
  {
    var g := text[i..i + n];
    assert forall k :: 0 <= k < |g| ==> g[k] == text[i + k];
  }

  lemma {:induction false} ReadRun(text: string, i: nat, token: nat, s: State, n: nat)
    requires token <= i && i + n <= |text| && forall k :: i <= k < i + n ==> HexDigit(text[k]) >= 0
    requires s.seen <= 4
    ensures AllHex(text[i..i + n])
    ensures Parse6From(text, i, token, s)
      == if s.seen + n > 4 then Invalid
         else Parse6From(text, i + n, token, s.(seen := s.seen + n, val := Value(s.val, text[i..i + n])))
    decreases n
  {
    RunIsHex(text, i, n);
    if n > 0 {
      RunIsHex(text, i + 1, n - 1);
      if s.seen < 4 {
        ReadRun(text, i + 1, token, s.(seen := s.seen + 1, val := s.val * 16 + HexDigit(text[i])), n - 1);
      }
    } else {
      assert text[i..i] == "";
    }
  }

  /** A whole group, with what is to be read after it. */
  lemma ReadGroup(text: string, i: nat, out: seq<int>, colon: int, g: string, rest: string)
    requires i <= |text| && text[i..] == g + rest && IsGroup(g)
    ensures i + |g| <= |text| && text[i + |g|..] == rest
    ensures Parse6From(text, i, i, State(out, colon, 0, 0))
      == Parse6From(text, i + |g|, i, State(out, colon, |g|, Value(0, g)))
  {
    var n := |g|;
    assert text[i..][..n] == g && text[i..][n..] == rest;
    assert text[i..i + n] == g && text[i + n..] == rest;
    forall k | i <= k < i + n ensures HexDigit(text[k]) >= 0 {
      assert text[k] == g[k - i];
    }
    ReadRun(text, i, i, State(out, colon, 0, 0), n);
  }

  // ----- what is read is a form -----

  /** From a place where a group may begin: if an address comes out, the rest of the text is that of a form, and the
      address is its. */
  lemma {:induction false} ReadIsForm(text: string, i: nat, out: seq<int>, colon: int) returns (x: Form)
    requires i <= |text| && -1 <= colon <= |out| && |out| <= 16
    requires Parse6From(text, i, i, State(out, colon, 0, 0)).Parsed?
    ensures IsRest(x, colon) && text[i..] == Rest(x)
    ensures Parse6From(text, i, i, State(out, colon, 0, 0)) == Outcome(x, out, colon)
    decreases |text| - i
  {
    var n := Run(text, i);
    var g := text[i..i + n];
    ReadRun(text, i, i, State(out, colon, 0, 0), n);
    assert text[i..] == g + text[i + n..];
    if i + n < |text| && text[i + n] == '.' {
      x := ReadDotted(text, i, out, colon, n);
    } else if i + n == |text| {
      x := ReadLast(text, i, out, colon, n);
    } else if n == 0 {
      x := ReadGap(text, i, out, colon);
    } else {
      assert text[i + n] == ':';
      var two := [Value(0, g) / 256 % 256, Value(0, g) % 256];
      var y := ReadIsForm(text, i + n + 1, out + two, colon);
      assert text[i + n..] == ":" + text[i + n + 1..];
      NotNothing(y, text[i + n + 1..], colon);
      RestCons(g, y, colon);
      OutcomeCons(g, y, out, colon);
      x := Cons(g, y);
    }
  }

  lemma NotNothing(y: Form, rest: string, colon: int)
    requires IsRest(y, colon) && rest == Rest(y) && rest != ""
    ensures y.gap || y.left != [] || y.tail != []
  {
  }

  lemma ReadDotted(text: string, i: nat, out: seq<int>, colon: int, n: nat) returns (x: Form)
    requires i + n < |text| && text[i + n] == '.' && n <= 4 && -1 <= colon <= |out| && |out| <= 16
             && AllHex(text[i..i + n])
    requires var s := State(out, colon, n, Value(0, text[i..i + n]));
      Parse6From(text, i + n, i, s).Parsed?
    ensures IsRest(x, colon) && text[i..] == Rest(x)
    ensures Parse6From(text, i + n, i, State(out, colon, n, Value(0, text[i..i + n]))) == Outcome(x, out, colon)
  {
    var r := Parse4(text[i..]);
    ReadIsText4(text[i..], 0, [], 0, false);
    x := Form([], false, [], r.bytes);
    assert out + [] + ([] + r.bytes) == out + r.bytes;
  }

  lemma ReadLast(text: string, i: nat, out: seq<int>, colon: int, n: nat) returns (x: Form)
    requires i + n == |text| && n <= 4 && -1 <= colon <= |out| && |out| <= 16 && AllHex(text[i..i + n])
    requires Finish(State(out, colon, n, Value(0, text[i..i + n]))).Parsed?
    ensures IsRest(x, colon) && text[i..] == Rest(x)
    ensures Finish(State(out, colon, n, if n == 0 then 0 else Value(0, text[i..i + n]))) == Outcome(x, out, colon)
  {
    var g := text[i..i + n];
    if n == 0 {
      x := Form([], false, [], []);
      assert out + [] + ([] + []) == out;
    } else {
      assert text[i..] == g;
      x := Form([g], false, [], []);
      assert Bytes([g]) == [Value(0, g) / 256 % 256, Value(0, g) % 256] + [];
      assert out + Bytes([g]) + ([] + []) == out + [Value(0, g) / 256 % 256, Value(0, g) % 256];
    }
  }

  lemma {:induction false} ReadGap(text: string, i: nat, out: seq<int>, colon: int) returns (x: Form)
    requires i < |text| && HexDigit(text[i]) < 0 && text[i] != '.' && -1 <= colon <= |out| && |out| <= 16
    requires Parse6From(text, i, i, State(out, colon, 0, 0)).Parsed?
    ensures IsRest(x, colon) && text[i..] == Rest(x)
    ensures Parse6From(text, i, i, State(out, colon, 0, 0)) == Outcome(x, out, colon)
    decreases |text| - i, 0
  {
    GapStep(text, i, State(out, colon, 0, 0));
    var y := ReadIsForm(text, i + 1, out, |out|);
    x := Form([], true, y.left, y.tail);
    assert text[i..] == ":" + text[i + 1..];
    GapOutcome(y, out, colon);
  }

  lemma GapStep(text: string, i: nat, s: State)
    requires i < |text| && HexDigit(text[i]) < 0 && text[i] != '.' && s.seen == 0 && Parse6From(text, i, i, s).Parsed?
    ensures text[i] == ':' && s.colon < 0
    ensures Parse6From(text, i, i, s) == Parse6From(text, i + 1, i + 1, s.(colon := |s.out|))
  {
  }

  lemma GapOutcome(y: Form, out: seq<int>, colon: int)
    requires IsRest(y, |out|)
    ensures Outcome(Form([], true, y.left, y.tail), out, colon) == Outcome(y, out, |out|)
  {
    assert out + [] + (Bytes(y.left) + y.tail) == out + Bytes(y.left) + ([] + y.tail);
  }

  // ----- every form is read -----

  lemma {:induction false} FormRest(text: string, i: nat, out: seq<int>, colon: int, x: Form)
    requires i <= |text| && IsRest(x, colon) && text[i..] == Rest(x) && -1 <= colon <= |out|
    requires |out| + 2 * |x.left| + 2 * |x.right| + |x.tail| <= 16
    ensures Parse6From(text, i, i, State(out, colon, 0, 0)) == Outcome(x, out, colon)
    decreases |text| - i, 1
  {
    if x.left == [] {
      if x.gap {
        FormGap(text, i, out, colon, x);
      } else {
        FormTail(text, i, out, colon, x);
      }
    } else if |x.left| == 1 && x.tail == [] && !x.gap {
      FormLast(text, i, out, colon, x);
    } else {
      FormMore(text, i, out, colon, x);
    }
  }

  lemma {:induction false} FormMore(text: string, i: nat, out: seq<int>, colon: int, x: Form)
    requires i <= |text| && IsRest(x, colon) && text[i..] == Rest(x) && -1 <= colon <= |out|
    requires |out| + 2 * |x.left| + 2 * |x.right| + |x.tail| <= 16
    requires x.left != [] && (|x.left| > 1 || x.tail != [] || x.gap)
    ensures Parse6From(text, i, i, State(out, colon, 0, 0)) == Outcome(x, out, colon)
    decreases |text| - i, 0
  {
    var g, y := x.left[0], x.(left := x.left[1..]);
    var two := [Value(0, g) / 256 % 256, Value(0, g) % 256];
    assert x == Cons(g, y);
    SmallerRest(x, colon);
    RestCons(g, y, colon);
    OutcomeCons(g, y, out, colon);
    RestNotEmpty(y, colon);
    var m := GroupAndColon(text, i, out, colon, g, Rest(y));
    FormRest(text, m, out + two, colon, y);
  }

  lemma GroupAndColon(text: string, i: nat, out: seq<int>, colon: int, g: string, rest: string) returns (m: nat)
    requires i <= |text| && text[i..] == g + (":" + rest) && IsGroup(g) && rest != "" && |out| + 2 <= 16
    ensures i < m <= |text| && text[m..] == rest
    ensures Parse6From(text, i, i, State(out, colon, 0, 0))
      == Parse6From(text, m, m, State(out + [Value(0, g) / 256 % 256, Value(0, g) % 256], colon, 0, 0))
  {
    ReadGroup(text, i, out, colon, g, ":" + rest);
    var k := i + |g|;
    m := k + 1;
    assert text[k] == text[k..][0] == ':' && text[m..] == text[k..][1..] == rest;
    ReadColon(text, k, i, State(out, colon, |g|, Value(0, g)));
  }

  lemma SmallerRest(x: Form, colon: int)
    requires IsRest(x, colon) && x.left != []
    ensures IsRest(x.(left := x.left[1..]), colon) && IsGroup(x.left[0])
  {
    assert forall i :: 0 <= i < |x.left[1..]| ==> x.left[1..][i] == x.left[i + 1];
  }

  lemma JoinedNotEmpty(gs: seq<string>, tail: seq<int>)
    requires AllGroups(gs) && IsTail(tail) && (gs != [] || tail != [])
    ensures Joined(gs, tail) != "" && Joined(gs, tail)[0] != ':'
  {
    if gs == [] {
      Text4Parts(tail);
      DecimalDigits(tail[0]);
      assert DecimalDigit(Decimal(tail[0])[0]) >= 0;
      assert Text4(tail)[0] == Decimal(tail[0])[0];
    } else {
      assert IsGroup(gs[0]) && HexDigit(gs[0][0]) >= 0;
    }
  }

  lemma RestNotEmpty(x: Form, colon: int)
    requires IsRest(x, colon) && (x.gap || x.left != [] || x.tail != [])
    ensures Rest(x) != "" && (Rest(x)[0] == ':' <==> x.gap && x.left == [])
  {
    if x.left != [] {
      JoinedNotEmpty(x.left, if x.gap then [] else x.tail);
    } else if !x.gap {
      JoinedNotEmpty(x.left, x.tail);
    }
  }

  lemma {:induction false} FormGap(text: string, i: nat, out: seq<int>, colon: int, x: Form)
    requires i <= |text| && IsRest(x, colon) && text[i..] == Rest(x) && x.gap && x.left == []
    requires |out| + 2 * |x.right| + |x.tail| <= 16
    ensures Parse6From(text, i, i, State(out, colon, 0, 0)) == Outcome(x, out, colon)
    decreases |text| - i, 0
  {
    var y := Form(x.right, false, [], x.tail);
    assert text[i] == text[i..][0] == ':' && text[i + 1..] == text[i..][1..] == Rest(y);
    ReadColon(text, i, i, State(out, colon, 0, 0));
    FormRest(text, i + 1, out, |out|, y);
    assert out + [] + (Bytes(x.right) + x.tail) == out + Bytes(x.right) + ([] + x.tail);
  }

  lemma FormTail(text: string, i: nat, out: seq<int>, colon: int, x: Form)
    requires i <= |text| && IsRest(x, colon) && text[i..] == Rest(x) && !x.gap && x.left == []
    requires |out| + |x.tail| <= 16
    ensures Parse6From(text, i, i, State(out, colon, 0, 0)) == Outcome(x, out, colon)
  {
    assert out + [] + ([] + x.tail) == out + x.tail;
    if x.tail != [] {
      ReadEncapsulated(text, i, out, colon, x.tail);
    }
  }

  lemma FormLast(text: string, i: nat, out: seq<int>, colon: int, x: Form)
    requires i <= |text| && IsRest(x, colon) && text[i..] == Rest(x) && !x.gap && |x.left| == 1 && x.tail == []
    requires |out| + 2 <= 16
    ensures Parse6From(text, i, i, State(out, colon, 0, 0)) == Outcome(x, out, colon)
  {
    var g := x.left[0];
    assert text[i..] == g + "";
    ReadGroup(text, i, out, colon, g, "");
    var two := [Value(0, g) / 256 % 256, Value(0, g) % 256];
    assert x.left[1..] == [] && Bytes(x.left) == two + [];
    assert out + Bytes(x.left) + ([] + []) == out + two;
  }

  // ----- exactly the forms -----

  lemma TextIsRest(x: Form)
    requires IsForm(x)
    ensures IsRest(x, -1) && (x.gap || x.left != [] || x.tail != [])
    ensures FormText(x) == if x.gap && x.left == [] then ":" + Rest(x) else Rest(x)
  {
    if x.gap && x.left == [] {
      var t := Joined(x.right, x.tail);
      assert "" + ("::" + t) == ":" + (":" + t);
    }
  }

  lemma OutcomeIsBytes(x: Form)
    requires IsForm(x)
    ensures Outcome(x, [], -1) == Parsed(FormBytes(x))
  {
    var after := Bytes(x.right) + x.tail;
    var bytes := [] + Bytes(x.left) + after;
    assert bytes == Bytes(x.left) + after;
    if x.gap {
      assert bytes[..2 * |x.left|] == Bytes(x.left) && bytes[2 * |x.left|..] == after;
    } else {
      assert Bytes(x.right) == [] && after == x.tail;
    }
  }

  /** Every form is read as its address. */
  lemma FormIsAccepted(x: Form)
    requires IsForm(x)
    ensures Parse6(FormText(x)) == Parsed(FormBytes(x))
  {
    var text := FormText(x);
    TextIsRest(x);
    RestNotEmpty(x, -1);
    OutcomeIsBytes(x);
    if x.gap && x.left == [] {
      assert text[1..] == Rest(x) && text[0] == ':' && text[1] == Rest(x)[0];
      FormRest(text, 1, [], -1, x);
    } else {
      assert text[0..] == text;
      FormRest(text, 0, [], -1, x);
    }
  }

  /** Whatever is read is a form, of that address. */
  lemma AcceptedIsForm(text: string, o: seq<int>) returns (x: Form)
    requires Parse6(text) == Parsed(o)
    ensures IsForm(x) && FormText(x) == text && FormBytes(x) == o
  {
    var i := if |text| > 0 && text[0] == ':' then 1 else 0;
    x := ReadIsForm(text, i, [], -1);
    OutcomeFits(x);
    TextIsRest(x);
    RestNotEmpty(x, -1);
    OutcomeIsBytes(x);
    assert text == (if i == 1 then ":" else "") + text[i..];
    assert i == 1 ==> text[1] == text[1..][0];
  }

  lemma OutcomeFits(x: Form)
    requires IsRest(x, -1) && Outcome(x, [], -1).Parsed?
    ensures IsForm(x)
  {
    assert |[] + Bytes(x.left) + (Bytes(x.right) + x.tail)| == 2 * |x.left| + 2 * |x.right| + |x.tail|;
  }

  /** inet_pton6 accepts a text for an address if and only if it is written as eight groups of one to four hexadecimal
      digits in either case, where a double colon may stand, once, for one or more groups of zeros, and the last two
      groups may be an IPv4 address as inet_ntop4 writes it; and the address is theirs. */
  lemma Exact6(text: string, o: seq<int>)
    ensures Parse6(text) == Parsed(o) <==> exists x: Form :: IsForm(x) && FormText(x) == text && FormBytes(x) == o
  {
    if Parse6(text) == Parsed(o) {
      var x := AcceptedIsForm(text, o);
    }
    if x: Form :| IsForm(x) && FormText(x) == text && FormBytes(x) == o {
      FormIsAccepted(x);
    }
  }
}
