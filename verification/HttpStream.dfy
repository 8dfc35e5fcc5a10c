/** The buffer the parser reads from: hs_stream_t of src/http.h. */
module HttpStream {
  import opened HttpTables

  /** http_token_t */
  datatype Token = Token(index: nat, len: nat, kind: Kind)

  const NONE := Token(0, 0, NoToken)

  /** The stream's fields, with the bytes received and not yet dropped. */
  datatype View = View(buf: seq<Byte>, index: nat, anchor: nat, token: Token, consumed: bool)

  /** How many bytes a read brought. */
  function Received(bytes: int): nat {
    if bytes > 0 then bytes else 0
  }

  function Longer(t: Token, n: nat): Token {
    t.(len := if t.kind == NoToken then 0 else t.len + n)
  }

  function Advanced(v: View, n: nat): View {
    v.(index := v.index + n, token := Longer(v.token, n), consumed := true)
  }

  predicate CanGoBack(v: View, n: nat) {
    n <= v.index && (v.token.kind != NoToken ==> n <= v.token.len)
  }

  /** What a jump by -n does: the last n bytes of the token are before the stream again. */
  function Back(v: View, n: nat): View
    requires CanGoBack(v, n)
  {
    v.(index := v.index - n, consumed := true,
       token := v.token.(len := if v.token.kind == NoToken then 0 else v.token.len - n))
  }

  /** hs_stream_shift: the current token moves down to the anchor, and everything after it goes. */
  function Shifted(v: View): View
    requires v.anchor <= |v.buf| && v.token.index + v.token.len <= |v.buf|
  {
    if v.token.index == v.anchor then v
    else v.(buf := v.buf[..v.anchor] + v.buf[v.token.index..v.token.index + v.token.len],
            token := v.token.(index := v.anchor), index := v.token.len + v.anchor)
  }

  lemma ShiftedBytes(before: seq<Byte>, after: seq<Byte>, at: nat, gap: nat, len: nat)
    requires at + gap + len <= |before| && |after| == at + len
    requires forall k :: 0 <= k < at ==> after[k] == before[k]
    requires forall k :: at <= k < at + len ==> after[k] == before[k + gap]
    ensures after == before[..at] + before[at + gap..at + gap + len]
  {
  }

  lemma HeadOnly(before: seq<Byte>, at: nat, from: nat)
    requires at <= |before| && from <= |before|
    ensures before[..at] == before[..at] + before[from..from]
  {
  }

  class Stream {
    var buf: array<Byte>
    var length: nat
    var index: nat
    var anchor: nat
    var token: Token
    var consumed: bool   // HS_SF_CONSUMED

    ghost predicate Valid()
      reads this
    {
      index <= length <= buf.Length <= MAX_REQUEST_BUF_SIZE
    }

    /** Between reads there is room for one more byte, unless the buffer is at its largest. */
    ghost predicate Roomy()
      reads this
    {
      Valid() && (length < buf.Length || buf.Length == 0 || buf.Length == MAX_REQUEST_BUF_SIZE)
    }

    ghost function Seen(): View
      requires Valid()
      reads this, buf
    {
      View(buf[..length], index, anchor, token, consumed)
    }

    constructor ()
      ensures Roomy() && fresh(buf) && buf.Length == 0 && Seen() == View([], 0, 0, NONE, false)
    {
      buf := new Byte[0];
      length, index, anchor, token, consumed := 0, 0, 0, NONE, false;
    }

    /** Doubling the buffer, or allocating it. */
    method Grow()
      requires Valid() && length == buf.Length < MAX_REQUEST_BUF_SIZE
      modifies this`buf
      ensures Valid() && Seen() == old(Seen()) && length < buf.Length && fresh(buf)
      ensures if old(buf.Length) > 0 then buf.Length <= 2 * length else buf.Length == REQUEST_BUF_SIZE
    {
      var capacity := if buf.Length == 0 then REQUEST_BUF_SIZE else buf.Length * 2;
      if capacity > MAX_REQUEST_BUF_SIZE {
        capacity := MAX_REQUEST_BUF_SIZE;
      }
      var bigger := new Byte[capacity](_ => 0);
      var i := 0;
      while i < length
        invariant i <= length <= buf.Length <= bigger.Length && buf == old(buf)
        invariant forall k :: 0 <= k < i ==> bigger[k] == buf[k]
      {
        bigger[i] := buf[i];
        i := i + 1;
      }
      assert bigger[..length] == buf[..length];
      buf := bigger;
    }

    /** read(2): as much of what is there as fits; 0 when there is no room or the peer has closed, and -1 when nothing
        is there yet. */
    method ReadOnce(available: seq<Byte>, closed: bool) returns (bytes: int)
      requires Valid()
      modifies this`length, buf
      ensures Valid() && -1 <= bytes <= |available| && (bytes > 0 && length < buf.Length ==> bytes == |available|)
      ensures 0 < |available| <= old(buf.Length - length) ==> bytes == |available|
      ensures bytes == 0 <==> old(length) == buf.Length || (available == [] && closed)
      ensures bytes == -1 <==> old(length) < buf.Length && available == [] && !closed
      ensures Seen() == old(Seen()).(buf := old(buf[..length]) + available[..Received(bytes)])
    {
      if length < buf.Length && available == [] {
        assert old(buf[..length]) + available[..0] == buf[..length];
        return if closed then 0 else -1;
      }
      bytes := if |available| <= buf.Length - length then |available| else buf.Length - length;
      var i := 0;
      while i < bytes
        invariant 0 <= i <= bytes && length + bytes <= buf.Length && length == old(length)
        invariant buf[..length + i] == old(buf[..length]) + available[..i]
      {
        buf[length + i] := available[i];
        i := i + 1;
        assert buf[..length + i] == buf[..length + i - 1] + [available[i - 1]];
      }
      length := length + bytes;
    }

    /** hs_stream_read_socket: nothing while unread bytes remain, else reads until the socket has no more or the
        buffer is at its largest. Dead means that the last read returned 0, which ends the session: the buffer was full
        at its largest, or the peer had closed and all it sent was taken. */
    method ReadSocket(available: seq<Byte>, closed: bool) returns (taken: nat, dead: bool)
      requires Roomy()
      modifies this`buf, this`length, buf
      ensures Roomy() && taken <= |available|
      ensures buf == old(buf) || fresh(buf)
      ensures Seen() == old(Seen()).(buf := old(buf[..length]) + available[..taken])
      ensures old(index < length) ==> taken == 0 && !dead
      ensures old(index == length == MAX_REQUEST_BUF_SIZE) ==> dead
      ensures old(index == length && buf.Length == MAX_REQUEST_BUF_SIZE) && |available| <= old(buf.Length - length) ==>
                taken == |available|
      ensures old(index == length) && taken < |available| ==> buf.Length == MAX_REQUEST_BUF_SIZE <= 2 * length
      ensures old(index == length) && available != [] && !dead ==> taken > 0
      ensures dead ==> (taken == 0 && length == MAX_REQUEST_BUF_SIZE) || (closed && taken == |available|)
      ensures old(index == length) && closed && !dead ==> buf.Length == MAX_REQUEST_BUF_SIZE && taken > 0
      ensures buf.Length == MAX_REQUEST_BUF_SIZE ==>
                old(buf.Length) == MAX_REQUEST_BUF_SIZE || MAX_REQUEST_BUF_SIZE <= 2 * length
    {
      taken, dead := 0, false;
      if index < length {
        assert available[..0] == [];
        return;
      }
      if buf.Length == 0 {
        Grow();
      }
      assert old(buf[..length]) + available[..0] == old(buf[..length]);
      var bytes := ReadMore(available, 0, closed, old(buf[..length]));
      taken := Received(bytes);
      while bytes > 0 && buf.Length < MAX_REQUEST_BUF_SIZE
        invariant Roomy() && 0 <= taken <= |available| && 0 < buf.Length && (buf == old(buf) || fresh(buf))
        invariant Seen() == old(Seen()).(buf := old(buf[..length]) + available[..taken])
        invariant bytes <= 0 ==> Ended(bytes, taken, available, closed)
        invariant bytes > 0 ==> taken > 0
        invariant old(length == MAX_REQUEST_BUF_SIZE) ==> bytes == 0
        invariant old(buf.Length) == MAX_REQUEST_BUF_SIZE ==> buf.Length == MAX_REQUEST_BUF_SIZE
        invariant old(buf.Length) == MAX_REQUEST_BUF_SIZE && |available| <= old(buf.Length - length) ==>
                    taken == |available|
        invariant taken < |available| ==> buf.Length <= 2 * length
        invariant buf.Length == MAX_REQUEST_BUF_SIZE ==>
                    old(buf.Length) == MAX_REQUEST_BUF_SIZE || MAX_REQUEST_BUF_SIZE <= 2 * length
        invariant available != [] && bytes <= 0 && taken == 0 ==> bytes == 0
        decreases |available| - taken, bytes
      {
        bytes := ReadMore(available, taken, closed, old(buf[..length]));
        taken := taken + Received(bytes);
      }
      dead := bytes == 0;
    }

    /** Why a read returned nothing. */
    ghost predicate Ended(bytes: int, taken: nat, available: seq<Byte>, closed: bool)
      reads this
    {
      if bytes == 0 then
        (taken == 0 && length == buf.Length == MAX_REQUEST_BUF_SIZE) || (closed && taken == |available|)
      else !closed && taken == |available|
    }

    /** One turn of the loop: a read, and a larger buffer when it is full. */
    method ReadMore(available: seq<Byte>, taken: nat, closed: bool, ghost before: seq<Byte>) returns (bytes: int)
      requires Roomy() && 0 < buf.Length && taken <= |available| && buf[..length] == before + available[..taken]
      modifies this`buf, this`length, buf
      ensures Roomy() && (buf == old(buf) || fresh(buf)) && old(buf.Length) <= buf.Length
      ensures old(buf.Length) < MAX_REQUEST_BUF_SIZE ==> length < buf.Length
      ensures -1 <= bytes <= |available| - taken
      ensures bytes == 0 <==> old(length) == MAX_REQUEST_BUF_SIZE || (taken == |available| && closed)
      ensures bytes == -1 <==> old(length) < MAX_REQUEST_BUF_SIZE && taken == |available| && !closed
      ensures Seen() == old(Seen()).(buf := before + available[..taken + Received(bytes)])
      ensures taken + Received(bytes) < |available| || buf.Length > old(buf.Length) ==> buf.Length <= 2 * length
      ensures 0 < |available| - taken <= old(buf.Length - length) ==> taken + bytes == |available|
      ensures old(buf.Length) == MAX_REQUEST_BUF_SIZE ==> buf.Length == MAX_REQUEST_BUF_SIZE
    {
      bytes := ReadOnce(available[taken..], closed);
      assert before + available[..taken] + available[taken..][..Received(bytes)]
               == before + available[..taken + Received(bytes)];
      if length == buf.Length && buf.Length != MAX_REQUEST_BUF_SIZE {
        Grow();
      }
    }

    method Next() returns (more: bool, c: Byte)
      requires Valid()
      modifies this`consumed
      ensures Valid() && Seen() == old(Seen()).(consumed := false)
      ensures more <==> index < length
      ensures more ==> c == buf[index]
    {
      consumed := false;
      c := 0;
      more := index < length;
      if more {
        c := buf[index];
      }
    }

    method Consume()
      requires Valid() && (!consumed ==> index < length)
      modifies this`index, this`token, this`consumed
      ensures Valid() && Seen() == if old(consumed) then old(Seen()) else Advanced(old(Seen()), 1)
    {
      if consumed {
        return;
      }
      consumed := true;
      index := index + 1;
      token := Token(token.index, if token.kind == NoToken then 0 else token.len + 1, token.kind);
    }

    method BeginToken(kind: Kind)
      requires Valid()
      modifies this`token
      ensures Valid() && Seen() == old(Seen()).(token := Token(index, old(token.len), kind))
    {
      token := Token(index, token.len, kind);
    }

    /** The offset may be negative, as long as that leads neither out of the buffer nor out of the token. */
    method Jump(offset: int) returns (ok: bool)
      requires Valid() && (offset < 0 ==> CanGoBack(Seen(), -offset))
      modifies this`index, this`token, this`consumed
      ensures Valid() && (ok <==> old(index) + offset <= length)
      ensures Seen() ==
        if !ok then old(Seen()).(consumed := true)
        else if offset >= 0 then Advanced(old(Seen()), offset)
        else Back(old(Seen()), -offset)
    {
      consumed := true;
      if index + offset > length {
        return false;
      }
      index := index + offset;
      token := Token(token.index, if token.kind == NoToken then 0 else token.len + offset, token.kind);
      return true;
    }

    method JumpAll() returns (offset: nat)
      requires Valid()
      modifies this`index, this`token, this`consumed
      ensures Valid() && offset == length - old(index) && Seen() == Advanced(old(Seen()), offset)
    {
      offset := length - index;
      index := index + offset;
      consumed := true;
      token := Token(token.index, if token.kind == NoToken then 0 else token.len + offset, token.kind);
    }

    method Anchor()
      requires Valid()
      modifies this`anchor
      ensures Valid() && Seen() == old(Seen()).(anchor := index)
    {
      anchor := index;
    }

    method Emit() returns (emitted: Token)
      requires Valid()
      modifies this`token
      ensures Valid() && emitted == old(token) && Seen() == old(Seen()).(token := NONE)
    {
      emitted := token;
      token := NONE;
    }

    /** memmove of bytes bytes to at from gap further on. */
    method MoveDown(at: nat, gap: nat, bytes: nat)
      requires at + gap + bytes <= buf.Length
      modifies buf
      ensures forall k :: 0 <= k < at ==> buf[k] == old(buf[k])
      ensures forall k :: at <= k < at + bytes ==> buf[k] == old(buf[k + gap])
    {
      var i := 0;
      while i < bytes
        invariant 0 <= i <= bytes
        invariant forall k :: 0 <= k < at ==> buf[k] == old(buf[k])
        invariant forall k :: at <= k < at + i ==> buf[k] == old(buf[k + gap])
        invariant forall k :: at + i <= k < buf.Length ==> buf[k] == old(buf[k])
      {
        buf[at + i] := buf[at + i + gap];
        i := i + 1;
      }
    }

    /** The bytes from the token on are copied down in order, as memmove would. */
    method Shift()
      requires Valid() && anchor <= length && token.index + token.len <= length
               && (token.len > 0 ==> anchor <= token.index)
      modifies this`index, this`length, this`token, buf
      ensures Valid() && Seen() == Shifted(old(Seen())) && length <= old(length)
      ensures old(token.len) == 0 ==> buf[..] == old(buf[..])
    {
      if token.index == anchor {
        return;
      }
      if token.len > 0 {
        ShiftBytes();
      } else {
        HeadOnly(buf[..length], anchor, token.index);
        length := anchor;
      }
      index := token.len + anchor;
      token := Token(anchor, token.len, token.kind);
    }

    method ShiftBytes()
      requires Valid() && 0 < token.len && anchor <= token.index && token.index + token.len <= length
      modifies this`length, buf
      ensures length == anchor + token.len <= buf.Length
      ensures buf[..length] == old(buf[..length])[..anchor] + old(buf[..length])[token.index..token.index + token.len]
    {
      ghost var before := buf[..length];
      var gap, end := token.index - anchor, anchor + token.len;
      MoveDown(anchor, gap, length - token.index);
      assert forall k :: anchor <= k < end ==> buf[k] == before[k + gap];
      length := end;
      ShiftedBytes(before, buf[..end], anchor, gap, token.len);
    }
  }
}
