/** Reading addresses (deps/libuv/src/inet.c): the loops, as functions of what is left to read and as code. */
module InetParse {
  import opened Digits
  import opened InetText

  datatype Parsed = Parsed(bytes: seq<int>) | Invalid

  /** The place of a character among "0123456789", or -1. */
  function DecimalDigit(c: char): (d: int)
    ensures d < 10
  {
    if '0' <= c <= '9' then (c - '0') as int else -1
  }

  /** The place of a character among the hexadecimal digits of either case, or -1. */
  function HexDigit(c: char): (d: int)
    ensures d < 16
  {
    if '0' <= c <= '9' then (c - '0') as int
    else if 'a' <= c <= 'f' then (c - 'a') as int + 10
    else if 'A' <= c <= 'F' then (c - 'A') as int + 10
    else -1
  }

  // ----- IPv4 -----

  function Octet(sawDigit: bool): nat {
    if sawDigit then 1 else 0
  }

  /** What becomes of the text from i on, after the octets in done and with cur being read. */
  function Parse4From(text: string, i: nat, done: seq<int>, cur: nat, sawDigit: bool): Parsed
    requires i <= |text|
    decreases |text| - i
  {
    if i == |text| then if |done| + Octet(sawDigit) < 4 then Invalid else Parsed(done + [cur])
    else
      var d := DecimalDigit(text[i]);
      if d >= 0 then
        if (sawDigit && cur == 0) || cur * 10 + d > 255 || (!sawDigit && |done| + 1 > 4) then Invalid
        else Parse4From(text, i + 1, done, cur * 10 + d, true)
      else if text[i] == '.' && sawDigit then
        if |done| + 1 == 4 then Invalid else Parse4From(text, i + 1, done + [cur], 0, false)
      else Invalid
  }

  function Parse4(text: string): Parsed {
    Parse4From(text, 0, [], 0, false)
  }

  /** inet_pton4. */
  method Pton4(src: string) returns (dst: Parsed)
    ensures dst == Parse4(src) && (dst.Parsed? ==> |dst.bytes| == 4)
  {
    var tmp := new int[4](_ => 0);
    var tp, octets, i := 0, 0, 0;
    var sawDigit := false;
    while i < |src|
      invariant 0 <= i <= |src| && 0 <= tp < 4 && octets == tp + Octet(sawDigit) && 0 <= tmp[tp] < 256
      invariant !sawDigit ==> tmp[tp] == 0
      invariant Parse4(src) == Parse4From(src, i, tmp[..tp], tmp[tp], sawDigit)
    {
      var d := DecimalDigit(src[i]);
      if d >= 0 {
        var nw := tmp[tp] * 10 + d;
        if sawDigit && tmp[tp] == 0 {
          return Invalid;
        }
        if nw > 255 {
          return Invalid;
        }
        ghost var done := tmp[..tp];
        tmp[tp] := nw;
        assert tmp[..tp] == done;
        if !sawDigit {
          octets := octets + 1;
          if octets > 4 {
            return Invalid;
          }
          sawDigit := true;
        }
      } else if src[i] == '.' && sawDigit {
        if octets == 4 {
          return Invalid;
        }
        ghost var done := tmp[..tp] + [tmp[tp]];
        tp := tp + 1;
        tmp[tp] := 0;
        assert tmp[..tp] == done;
        sawDigit := false;
      } else {
        return Invalid;
      }
      i := i + 1;
    }
    if octets < 4 {
      return Invalid;
    }
    assert tmp[..] == tmp[..tp] + [tmp[tp]];
    return Parsed(tmp[..]);
  }

  // ----- IPv6 -----

  /** The bytes written so far, where the double colon was (-1: nowhere), and the group being read. */
  datatype State = State(out: seq<int>, colon: int, seen: nat, val: nat)

  function Stored(s: State): State {
    State(s.out + [s.val / 256 % 256, s.val % 256], s.colon, 0, 0)
  }

  /** What becomes of the text from i on; the group being read began at token. */
  function Parse6From(text: string, i: nat, token: nat, s: State): Parsed
    requires token <= i <= |text|
    decreases |text| - i
  {
    if i == |text| then Finish(s)
    else
      var d := HexDigit(text[i]);
      if d >= 0 then
        if s.seen + 1 > 4 then Invalid
        else Parse6From(text, i + 1, token, s.(seen := s.seen + 1, val := s.val * 16 + d))
      else if text[i] == ':' then
        if s.seen == 0 then
          if s.colon >= 0 then Invalid else Parse6From(text, i + 1, i + 1, s.(colon := |s.out|))
        else if i + 1 == |text| || |s.out| + 2 > 16 then Invalid
        else Parse6From(text, i + 1, i + 1, Stored(s))
      else if text[i] == '.' && |s.out| + 4 <= 16 then
        match Parse4(text[token..])
        case Parsed(bytes) => Finish(State(s.out + bytes, s.colon, 0, s.val))
        case Invalid => Invalid
      else Invalid
  }

  /** The last group, and the zeros the double colon stands for. */
  function Finish(s: State): Parsed {
    if s.seen > 0 then if |s.out| + 2 > 16 then Invalid else Spread(Stored(s).out, s.colon)
    else Spread(s.out, s.colon)
  }

  function Spread(out: seq<int>, colon: int): Parsed {
    if 0 <= colon <= |out| then
      if |out| >= 16 then Invalid else Parsed(out[..colon] + seq(16 - |out|, _ => 0) + out[colon..])
    else if |out| == 16 then Parsed(out) else Invalid
  }

  function Parse6(text: string): Parsed {
    if |text| > 0 && text[0] == ':' then
      if |text| == 1 || text[1] != ':' then Invalid else Parse6From(text, 1, 1, State([], -1, 0, 0))
    else Parse6From(text, 0, 0, State([], -1, 0, 0))
  }

  method Store(tmp: array<int>, tp: nat, val: nat)
    requires tmp.Length == 16 && tp + 2 <= 16
    modifies tmp
    ensures tmp[..tp + 2] == old(tmp[..tp]) + [val / 256 % 256, val % 256]
    ensures tmp[tp + 2..] == old(tmp[tp + 2..])
  {
    tmp[tp], tmp[tp + 1] := val / 256 % 256, val % 256;
  }

  /** The shift by hand that makes room for the zeros of the double colon. */
  method ShiftRight(tmp: array<int>, colon: nat, tp: nat)
    requires tmp.Length == 16 && colon <= tp < 16 && forall k :: tp <= k < 16 ==> tmp[k] == 0
    modifies tmp
    ensures Parsed(tmp[..]) == Spread(old(tmp[..tp]), colon)
  {
    ghost var out := tmp[..tp];
    var n := tp - colon;
    var i := 1;
    while i <= n
      invariant 1 <= i <= n + 1
      invariant forall k :: 0 <= k <= tp - i ==> tmp[k] == out[k]
      invariant forall k :: tp - i < k <= 16 - i ==> tmp[k] == 0
      invariant forall k :: 16 - i < k < 16 ==> tmp[k] == out[k - 16 + tp]
    {
      tmp[16 - i] := tmp[colon + n - i];
      tmp[colon + n - i] := 0;
      i := i + 1;
    }
    assert tmp[..] == out[..colon] + seq(16 - tp, _ => 0) + out[colon..];
  }

  method CopyOctets(tmp: array<int>, tp: nat, bytes: seq<int>)
    requires tmp.Length == 16 && |bytes| == 4 && tp + 4 <= 16
    modifies tmp
    ensures tmp[..tp + 4] == old(tmp[..tp]) + bytes && tmp[tp + 4..] == old(tmp[tp + 4..])
  {
    tmp[tp], tmp[tp + 1], tmp[tp + 2], tmp[tp + 3] := bytes[0], bytes[1], bytes[2], bytes[3];
  }

  /** The end of inet_pton6: the last group, and the zeros the double colon stands for. */
  method Complete(tmp: array<int>, end: nat, colonp: int, seen: nat, val: nat) returns (dst: Parsed)
    requires tmp.Length == 16 && end <= 16 && -1 <= colonp <= end && forall k :: end <= k < 16 ==> tmp[k] == 0
    modifies tmp
    ensures dst == Finish(State(old(tmp[..end]), colonp, seen, val))
  {
    var tp := end;
    if seen > 0 {
      if tp + 2 > 16 {
        return Invalid;
      }
      Store(tmp, tp, val);
      tp := tp + 2;
      ghost var rest := tmp[tp..];
      assert forall k :: tp <= k < 16 ==> tmp[k] == rest[k - tp];
    }
    if colonp != -1 {
      if tp == 16 {
        return Invalid;
      }
      ShiftRight(tmp, colonp, tp);
      tp := 16;
    }
    if tp != 16 {
      return Invalid;
    }
    return Parsed(tmp[..]);
  }

  /** inet_pton6. */
  method Pton6(src: string) returns (dst: Parsed)
    ensures dst == Parse6(src)
  {
    var tmp := new int[16](_ => 0);
    var tp, colonp, i := 0, -1, 0;
    if |src| > 0 && src[0] == ':' {
      i := i + 1;
      if i == |src| || src[i] != ':' {
        return Invalid;
      }
    }
    var curtok, seen, val := i, 0, 0;
    var done := false;
    while i < |src| && !done
      invariant 0 <= curtok <= i <= |src| && 0 <= tp <= 16 && -1 <= colonp <= tp && 0 <= seen <= 4 && 0 <= val
      invariant forall k :: tp <= k < 16 ==> tmp[k] == 0
      invariant !done ==> Parse6(src) == Parse6From(src, i, curtok, State(tmp[..tp], colonp, seen, val))
      invariant done ==> Parse6(src) == Finish(State(tmp[..tp], colonp, seen, val))
      decreases |src| - i, !done
    {
      var d := HexDigit(src[i]);
      if d >= 0 {
        val := val * 16 + d;
        seen := seen + 1;
        if seen > 4 {
          return Invalid;
        }
        i := i + 1;
      } else if src[i] == ':' {
        curtok := i + 1;
        if seen == 0 {
          if colonp >= 0 {
            return Invalid;
          }
          colonp := tp;
          i := i + 1;
          continue;
        } else if i + 1 == |src| {
          return Invalid;
        }
        if tp + 2 > 16 {
          return Invalid;
        }
        Store(tmp, tp, val);
        tp := tp + 2;
        seen, val := 0, 0;
        i := i + 1;
      } else if src[i] == '.' && tp + 4 <= 16 {
        var v4 := Pton4(src[curtok..]);
        if v4.Invalid? {
          return Invalid;
        }
        CopyOctets(tmp, tp, v4.bytes);
        ghost var rest := tmp[tp + 4..];
        assert forall k :: tp + 4 <= k < 16 ==> tmp[k] == rest[k - tp - 4];
        tp, seen, done := tp + 4, 0, true;
      } else {
        return Invalid;
      }
    }
    dst := Complete(tmp, tp, colonp, seen, val);
  }

  // ----- uv_inet_pton: the zone of an address is left out -----

  /** uv_inet_pton for AF_INET6. */
  method Pton6Zone(src: string) returns (dst: Parsed)
    ensures dst == ParseZone(src)
  {
    var len := 0;
    while len < |src| && src[len] != '%'
      invariant 0 <= len <= |src| && '%' !in src[..len]
    {
      len := len + 1;
    }
    ZoneAt(src, len);
    if len < |src| && len > 45 {
      return Invalid;
    }
    dst := Pton6(src[..len]);
  }

  /** The place of the first percent sign, or the text's length. */
  ghost function Percent(src: string): (p: nat)
    ensures p <= |src| && '%' !in src[..p] && (p < |src| ==> src[p] == '%')
  {
    if src == "" || src[0] == '%' then 0
    else
      var p := 1 + Percent(src[1..]);
      assert src[..p] == [src[0]] + src[1..][..p - 1];
      p
  }

  lemma ZoneAt(src: string, p: nat)
    requires p <= |src| && '%' !in src[..p] && (p < |src| ==> src[p] == '%')
    ensures Percent(src) == p
  {
    var q := Percent(src);
    assert forall k :: 0 <= k < p ==> src[k] == src[..p][k];
    assert forall k :: 0 <= k < q ==> src[k] == src[..q][k];
  }

  ghost function ParseZone(src: string): Parsed {
    var p := Percent(src);
    if p < |src| && p > 45 then Invalid else Parse6(src[..p])
  }
}
