/** A body that does not fit the buffer, handed to the application as it arrives: what http_request_read_chunk brings,
    for any split of the input. */
module HttpUpload {
  import opened HttpTables
  import opened HttpReference
  import opened HttpStream
  import opened HttpParser
  import opened HttpRefinement
  import opened HttpGrammar
  import opened HttpHeads
  import opened HttpFraming
  import opened HttpServe

  lemma FlattenOn(pieces: seq<seq<Byte>>, piece: seq<Byte>)
    ensures Flatten(pieces + [piece]) == Flatten(pieces) + piece
  {
    FlattenSplit(pieces + [piece], |pieces|);
    assert (pieces + [piece])[..|pieces|] == pieces && (pieces + [piece])[..|pieces| + 1] == pieces + [piece];
  }

  // ----- which bodies -----

  /** A body is handed over as it arrives exactly when the buffer cannot contain its declared length after the head. */
  lemma {:induction false} StreamsIff(l: Line1, hs: seq<Header>)
    requires IsLine1(l) && AllHeaders(hs) && hs != [] && Count(hs) <= MAX_HEADER_COUNT && !Unclosed(hs)
    ensures var f, r := FramedAll(START, Seen(hs)), Trace(Head(l, hs))[|Head(l, hs)|];
      && (r.ending == Streaming <==> f.m == SML && |Head(l, hs)| + f.length > MAX_REQUEST_BUF_SIZE + 2)
      && (r.ending == Streaming ==>
            r.p == Fields(HN, STR, f.length, 0, 0, Count(hs)) && r.out == HeadTokens(l, hs) + [Tok(BodyStream, [])])
  {
    var head := Head(l, hs);
    HeadHasEnd(l, hs);
    TraceIsTrace(head);
    HeadRead(Trace(head), head, l, hs, false);
  }

  /** There the parser, on its buffer, returns BODY_STREAM and stands as an Upload begins: it has read what the machine
      has, the stream is behind the head, and there is no token. */
  lemma StreamsInPlace(v: View, p: Fields, r: Machine, fed: seq<Byte>, c: Byte, to: State, a: Acted)
    requires Related(v, p, r, fed) && !v.consumed && v.index < |v.buf| && c == v.buf[v.index] && to == Destination(p, c)
             && !InBody(to) && a == HeadActed(p, v, c, to)
    ensures HeadStep(r, c, to).ending == Streaming ==>
              && a.emitted == Token(0, 0, BodyStream) && a.p == HeadStep(r, c, to).p
              && a.p.state == HN && a.p.meta == STR && a.p.bodyConsumed == 0
              && Advanced(a.v, 1).buf == fed && Advanced(a.v, 1).index == r.pos + 1
              && Advanced(a.v, 1).token.kind == NoToken && Advanced(a.v, 1).token.len == 0
  {
    if HeadStep(r, c, to).ending == Streaming {
      StreamsAtHead(p, c, to, r.pos);
      HeadActs(v, p, r, fed, c, to);
    }
  }

  lemma StreamsAtHead(p: Fields, c: Byte, to: State, index: nat)
    requires ParserCoherent(p) && to == Destination(p, c) && !InBody(to)
    ensures var q := Arrive(Enter(p, to), c, index);
      to != BR && q.meta == STR ==>
        p.state == ER && to == HN && q.state == HN && q.bodyConsumed == 0 && FramingAtEnd(Enter(p, to), index) == BIG
    ensures to == BR ==> Mark(Enter(p, to), p.state, c, index) == Error
  {
  }

  /** As much of it is handed over as the declared length is as an int: all of it if and only if it fits one. */
  lemma WholeIff(length: int)
    requires 0 < length && 0 <= ToInt(length)
    ensures ToInt(length) == length <==> length < 0x8000_0000
  {
    Low(length);
  }

  lemma Low(length: int)
    requires 0 < length
    ensures length < 0x1_0000_0000 ==> length % 0x1_0000_0000 == length
  {
  }

  /** Five bytes, of a body declared to have 4294967301. */
  lemma LongBodyIsCut()
    ensures ToInt(4294967301) == 5
  {
    assert 4294967301 % 0x1_0000_0000 == 5;
  }

  // ----- handing over -----

  /** What is left of a declared length, as an int. */
  lemma LeftOver(length: int, taken: nat)
    requires 0 <= taken <= ToInt(length)
    ensures ToInt(length - taken) == ToInt(length) - taken
  {
  }

  /** The parser and the stream before and after a turn that hands over n bytes, left being left of the body. */
  predicate BeforeTurn(p: Fields, v: View, left: nat) {
    && p.meta == STR && p.state in {HN, BD} && left == ToInt(p.contentLength - p.bodyConsumed)
    && v.index <= |v.buf| && v.token.kind == NoToken && v.token.len == 0 && (p.state == BD ==> v.anchor == v.index)
    && v.index > 0
  }

  predicate AfterTurn(a: Acted, p: Fields, v: View, left: nat)
    requires v.index <= |v.buf|
  {
    && a.p.state == BD && a.v.consumed && a.v.token.kind == NoToken && a.v.token.len == 0
    && if left <= |v.buf| - v.index then
         a.emitted == Token(v.index, left, ChunkBody) && a.p.meta == SEN && a.v.buf == v.buf
         && a.v.index == v.index + left
       else
         && a.emitted == Token(v.index, |v.buf| - v.index, ChunkBody) && a.p.meta == STR
         && a.p.contentLength == p.contentLength && a.p.bodyConsumed == p.bodyConsumed + |v.buf| - v.index
         && a.v.index == a.v.anchor == |a.v.buf| == v.index
  }

  /** Entering the body changes nothing but where the anchor and the token are. */
  lemma EnteringIs(p: Fields, v: View, left: nat)
    requires BeforeTurn(p, v, left)
    ensures var a := EnterActed(p, v, BD);
      && a.p == p.(state := BD, matchIndex := a.p.matchIndex) && a.v == v.(anchor := v.index, token := a.v.token)
      && a.v.token.len == 0
  {
  }

  lemma TurnIs(p: Fields, v: View, c: Byte, left: nat)
    requires BeforeTurn(p, v, left)
    ensures CanAct(p, v, BD)
    ensures AfterTurn(TransitionActed(p, v, c, BD), p, v, left)
  {
    EnteringIs(p, v, left);
    var a := EnterActed(p, v, BD);
    HandsOver(a.p, a.v, left);
  }

  lemma HandsOver(p: Fields, v: View, left: nat)
    requires BeforeTurn(p, v.(token := NONE), left) && p.state == BD && v.token.len == 0
    ensures AfterTurn(StreamTaken(p, v), p, v, left)
  {
  }

  class Upload {
    const parser: Parser
    const stream: Stream
    const base: nat                  // where the body begins in the buffer
    const declared: int
    var chunks: seq<seq<Byte>>       // what the application has been given
    ghost var arrived: seq<Byte>     // what has been received of the body, and after it

    /** The part of the declared length that counts. */
    function Length(): int {
      ToInt(declared)
    }

    /** The stream between calls of http_parse. */
    ghost predicate Placed()
      reads this, parser, stream
    {
      && stream.Roomy() && stream.token.kind == NoToken && stream.token.len == 0
      && 0 < base < MAX_REQUEST_BUF_SIZE && parser.state in {HN, BD} && parser.meta in {STR, SEN, END}
      && (parser.meta == STR ==> stream.index == base && (parser.state == BD ==> stream.anchor == base))
    }

    ghost function Unread(): seq<Byte>
      requires stream.Valid()
      reads this, stream, stream.buf
    {
      stream.buf[stream.index..stream.length]
    }

    /** How far the parser is with the body, of which this has been given to the application. */
    ghost predicate Counted(given: nat)
      reads this, parser, stream
    {
      && 0 <= Length()
      && (parser.meta == STR ==>
            parser.contentLength == declared && parser.bodyConsumed == given && (chunks == [] || given < Length())
            && (chunks == [] ==> given == 0))
      && (parser.meta != STR ==> given == Length() && chunks != [])
      && (parser.meta == SEN ==> stream.index == base + |chunks[|chunks| - 1]|)
      && Shaped()
    }

    /** Only the last of all chunks is empty, if there is anything to hand over. */
    ghost predicate Shaped()
      reads this, parser
    {
      Length() > 0 ==>
        forall i :: 0 <= i < |chunks| ==> chunks[i] == [] ==> parser.meta == END && i == |chunks| - 1
    }

    ghost predicate Valid()
      reads this, parser, stream, stream.buf
    {
      && Placed() && Counted(|Flatten(chunks)|) && arrived == Flatten(chunks) + Unread()
      && (chunks != [] ==> arrived != []) && (parser.meta == END ==> Told())
    }

    /** The empty chunk has been given; the one before it did not end where the largest buffer does, or there was more
        behind it. */
    ghost predicate Told()
      requires stream.Valid()
      reads this, stream, stream.buf
    {
      && |chunks| >= 2 && chunks[|chunks| - 1] == []
      && (base + |chunks[|chunks| - 2]| == MAX_REQUEST_BUF_SIZE ==> Unread() != [])
    }

    /** After the head: hs_transition_action has returned BODY_STREAM. */
    constructor (parser: Parser, stream: Stream)
      requires parser.state == HN && parser.meta == STR && parser.bodyConsumed == 0 && 0 <= ToInt(parser.contentLength)
      requires stream.Roomy() && stream.token.kind == NoToken && stream.token.len == 0
               && 0 < stream.index < MAX_REQUEST_BUF_SIZE
      ensures Valid() && this.parser == parser && this.stream == stream && declared == parser.contentLength
              && base == stream.index && chunks == [] && arrived == Unread()
    {
      this.parser, this.stream, base, declared := parser, stream, stream.index, parser.contentLength;
      chunks, arrived := [], stream.buf[stream.index..stream.length];
    }

    /** What is there of the body becomes a token, and the buffer behind the head is free again. */
    method Take(c: Byte) returns (t: Token)
      requires Valid() && parser.meta == STR && Unread() != [] && !stream.consumed
      modifies parser, stream`index, stream`length, stream`anchor, stream`token, stream`consumed, stream.buf
      ensures Placed() && stream.buf[..] == old(stream.buf[..])
      ensures t.kind == ChunkBody && t.index == base && base + t.len <= stream.buf.Length
      ensures var left, there := Length() - |Flatten(chunks)|, old(|Unread()|);
        if left <= there then t.len == left && stream.index == base + left && stream.length == old(stream.length)
                              && parser.meta == SEN
        else t.len == there && stream.index == stream.length && parser.meta == STR
             && parser.contentLength == declared && parser.bodyConsumed == |Flatten(chunks)| + there
    {
      LeftOver(declared, |Flatten(chunks)|);
      ghost var v := stream.Seen();
      ghost var a;
      t, a := Turn(c, Length() - |Flatten(chunks)|);
      assert stream.length == |a.v.buf| && |v.buf| == old(stream.length);
    }

    /** The transition and the consumption of its character. */
    method Turn(c: Byte, ghost left: nat) returns (t: Token, ghost a: Acted)
      requires stream.Valid() && BeforeTurn(parser.Value(), stream.Seen(), left)
      modifies parser, stream`index, stream`length, stream`anchor, stream`token, stream`consumed, stream.buf
      ensures stream.Valid() && parser.Value() == a.p && stream.Seen() == a.v && t == a.emitted
      ensures AfterTurn(a, old(parser.Value()), old(stream.Seen()), left)
      ensures stream.buf[..] == old(stream.buf[..])
    {
      ghost var p, v := parser.Value(), stream.Seen();
      TurnIs(p, v, c, left);
      a := TransitionActed(p, v, c, BD);
      t := parser.TransitionAction(stream, c, BD);
      assert a == Acted(parser.Value(), stream.Seen(), t);
      stream.Consume();
    }

    /** http_parse, whose loop returns at its first turn. */
    method Parse() returns (t: Token)
      requires Valid() && parser.meta != END
      modifies parser, stream`index, stream`length, stream`anchor, stream`token, stream`consumed, stream.buf
      ensures Placed() && stream.buf[..] == old(stream.buf[..])
      ensures t.kind == NoToken <==> old(parser.meta == STR && Unread() == [])
      ensures t.kind == NoToken ==> Valid() && Unread() == []
      ensures old(parser.meta) == SEN ==>
                t == Token(0, 0, ChunkBody) && parser.meta == END && stream.Seen() == old(stream.Seen())
      ensures old(parser.meta == STR && Unread() != []) ==>
                t.kind == ChunkBody && t.index == base && HandedOver(|Flatten(chunks)|, old(Unread()), t.len)
    {
      var kind := parser.MetaEmit();
      t := Token(0, 0, kind);
      if kind == NoToken {
        var more, c := stream.Next();
        t := NONE;
        if more {
          t := Take(c);
        }
      }
    }

    /** A turn has handed over n of the bytes that were there. */
    ghost predicate HandedOver(given: nat, there: seq<Byte>, n: nat)
      reads this, parser, stream
    {
      && base + n <= stream.buf.Length
      && if Length() - given <= |there| then
           n == Length() - given && parser.meta == SEN && stream.index == base + n && stream.length == base + |there|
         else
           n == |there| && parser.meta == STR && parser.contentLength == declared
           && parser.bodyConsumed == given + n && stream.index == stream.length
    }

    /** The buffer is at its largest, with nothing unread and room for n bytes. */
    ghost predicate HasRoom(n: nat)
      reads stream
    {
      stream.index == stream.length && stream.length + n <= stream.buf.Length == MAX_REQUEST_BUF_SIZE
    }

    /** hs_stream_read_socket, with what is then unread. */
    method Fill(available: seq<Byte>) returns (taken: nat, dead: bool)
      requires Placed() && stream.index <= stream.length
      modifies stream`buf, stream`length, stream.buf
      ensures Placed() && taken <= |available| && Unread() == old(Unread()) + available[..taken]
      ensures stream.buf == old(stream.buf) || fresh(stream.buf)
      ensures dead <==> old(stream.index == stream.length == MAX_REQUEST_BUF_SIZE)
      ensures !dead && available != [] ==> Unread() != []
      ensures old(HasRoom(|available|)) ==> taken == |available|
    {
      ghost var v := stream.Seen();
      taken, dead := stream.ReadSocket(available, false);
      MoreUnread(v.buf, available[..taken], v.index);
      SeenUnread(v, available[..taken]);
    }

    lemma SeenUnread(v: View, more: seq<Byte>)
      requires stream.Valid() && stream.Seen() == v.(buf := v.buf + more) && v.index <= |v.buf|
      ensures stream.index == v.index && stream.anchor == v.anchor && stream.token == v.token
              && stream.length == |v.buf| + |more| && Unread() == (v.buf + more)[v.index..]
    {
      assert stream.Seen().buf == stream.buf[..stream.length] == v.buf + more;
      assert Unread() == stream.buf[..stream.length][stream.index..];
    }

    method Read(available: seq<Byte>) returns (taken: nat, dead: bool)
      requires Valid()
      modifies this`arrived, stream`buf, stream`length, stream.buf
      ensures Valid() && taken <= |available| && arrived == old(arrived) + available[..taken]
      ensures stream.buf == old(stream.buf) || fresh(stream.buf)
      ensures Unread() == old(Unread()) + available[..taken]
      ensures dead <==> old(stream.index == stream.length == MAX_REQUEST_BUF_SIZE)
      ensures !dead && available != [] ==> Unread() != []
      ensures old(HasRoom(|available|)) ==> taken == |available|
    {
      ghost var unread := Unread();
      taken, dead := Fill(available);
      arrived := arrived + available[..taken];
      assert Flatten(chunks) + (unread + available[..taken]) == Flatten(chunks) + unread + available[..taken];
    }

    /** http_request_read_chunk: what is there is read and parsed, and the application's callback is given a chunk of
        it. The session is dead when the body ends exactly where the largest buffer does: what is left of it then, the
        empty chunk, is never given. */
    method ReadChunk(available: seq<Byte>) returns (taken: nat, more: bool, dead: bool)
      requires Valid() && parser.meta != END
      modifies this`chunks, this`arrived, parser, stream, stream.buf
      ensures Valid() && taken <= |available| && arrived == old(arrived) + available[..taken]
      ensures stream.buf == old(stream.buf) || fresh(stream.buf)
      ensures dead <==> old(parser.meta == SEN && stream.index == stream.length == MAX_REQUEST_BUF_SIZE)
      ensures if more then !dead && Left() < old(Left())
              else chunks == old(chunks) && parser.meta == old(parser.meta)
                   && (!dead ==> available == [] && Unread() == [] && parser.meta == STR)
      ensures more && old(parser.meta) == STR ==>
                chunks != []
                && HandedOver(|Flatten(old(chunks))|, old(Unread()) + available[..taken], |chunks[|chunks| - 1]|)
      ensures old(HasRoom(|available|)) ==> taken == |available|
    {
      more := false;
      taken, dead := Read(available);
      if !dead {
        more := ParseOne();
      }
    }

    /** One call of http_parse, and the callback. */
    method ParseOne() returns (more: bool)
      requires Valid() && parser.meta != END
      requires parser.meta == SEN && stream.length == MAX_REQUEST_BUF_SIZE ==> Unread() != []
      modifies this`chunks, parser, stream`index, stream`length, stream`anchor, stream`token, stream`consumed,
          stream.buf
      ensures Valid()
      ensures more <==> old(parser.meta == SEN || Unread() != [])
      ensures if more then Left() < old(Left())
              else chunks == old(chunks) && parser.meta == STR && Unread() == []
      ensures more && old(parser.meta) == STR ==>
                chunks != [] && HandedOver(|Flatten(old(chunks))|, old(Unread()), |chunks[|chunks| - 1]|)
    {
      ghost var there := Unread();
      var t := Parse();
      more := t.kind != NoToken;
      if more {
        assert Given(t, there);
        Give(t, there);
      }
    }

    /** What is still to be given, counting the end of the body and the empty chunk. */
    ghost function Left(): int
      reads this, parser
    {
      if parser.meta == STR then 2 + Length() - |Flatten(chunks)| else if parser.meta == SEN then 1 else 0
    }

    ghost predicate NoneEmpty()
      reads this
    {
      Length() > 0 ==> forall i :: 0 <= i < |chunks| ==> chunks[i] != []
    }

    /** The parser has handed over a token of what was there, or the empty chunk. */
    ghost predicate Given(t: Token, there: seq<Byte>)
      reads this, parser, stream, stream.buf
    {
      && Placed() && 0 <= Length() && NoneEmpty() && |Flatten(chunks)| <= Length()
      && if parser.meta == END then
           && t == Token(0, 0, ChunkBody) && |Flatten(chunks)| == Length() && arrived == Flatten(chunks) + Unread()
           && chunks != [] && arrived != []
           && (base + |chunks[|chunks| - 1]| == MAX_REQUEST_BUF_SIZE ==> Unread() != [])
         else
           && (|Flatten(chunks)| < Length() || Length() == 0)
           && t.kind == ChunkBody && t.index == base && HandedOver(|Flatten(chunks)|, there, t.len)
           && there != [] && base + |there| <= stream.buf.Length && stream.buf[base..base + |there|] == there
           && arrived == Flatten(chunks) + there
    }

    /** The callback. */
    method Give(t: Token, ghost there: seq<Byte>)
      requires Given(t, there)
      modifies this`chunks
      ensures Valid() && |Flatten(chunks)| == |Flatten(old(chunks))| + t.len
      ensures |chunks| == |old(chunks)| + 1 && |chunks[|chunks| - 1]| == t.len
    {
      ghost var before := chunks;
      if parser.meta != END {
        TakenFrom(t, there);
        Regrouped(Flatten(before), there[..t.len], Unread());
      }
      var chunk := stream.buf[t.index..t.index + t.len];
      chunks := chunks + [chunk];
      FlattenOn(before, chunk);
    }

    /** What is left unread of what was there. */
    lemma TakenFrom(t: Token, there: seq<Byte>)
      requires Given(t, there) && parser.meta != END
      ensures stream.buf[t.index..t.index + t.len] == there[..t.len] && (t.len > 0 || Length() == 0)
      ensures there == stream.buf[t.index..t.index + t.len] + Unread()
    {
      assert there[..t.len] == stream.buf[base..base + |there|][..t.len];
      assert Unread() == stream.buf[base..base + |there|][t.len..];
    }

    /** The last bytes of a body fill the buffer, and its end is never told. */
    method LastFills(piece: seq<Byte>) returns (dead: bool)
      requires Valid() && parser.meta == STR && chunks != [] && HasRoom(|piece|)
               && |piece| == MAX_REQUEST_BUF_SIZE - base == Length() - |Flatten(chunks)|
      modifies this`chunks, this`arrived, parser, stream, stream.buf
      ensures Valid() && dead && AtTheEnd() && arrived == old(arrived) + piece
    {
      var taken, more;
      taken, more, dead := ReadChunk(piece);
      taken, more, dead := ReadChunk([]);
    }

    /** One event: the application asks for chunks until there is none, or it has been given the empty one. */
    method OnEvent(piece: seq<Byte>) returns (over: bool, dead: bool)
      requires Valid() && parser.meta != END
      modifies this`chunks, this`arrived, parser, stream, stream.buf
      ensures Valid() && old(arrived) <= arrived <= old(arrived) + piece && (over <==> parser.meta == END)
      ensures stream.buf == old(stream.buf) || fresh(stream.buf)
      ensures dead ==> AtTheEnd()
      ensures !over && !dead ==> parser.meta == STR && Unread() == [] && arrived == old(arrived) + piece
    {
      var rest, more := piece, true;
      dead := false;
      while more && !dead && parser.meta != END
        invariant Valid() && (stream.buf == old(stream.buf) || fresh(stream.buf))
        invariant old(arrived) <= arrived && arrived + rest == old(arrived) + piece && (dead ==> AtTheEnd())
        invariant !more && !dead ==> rest == [] && Unread() == [] && parser.meta == STR
        decreases Left(), more, !dead
      {
        ghost var before, was := arrived, rest;
        var taken;
        taken, more, dead := ReadChunk(rest);
        rest := rest[taken..];
        assert before + was[..taken] + was[taken..] == before + was;
      }
      over := parser.meta == END;
    }

    /** The body has ended where the largest buffer does, and nothing has come after it. */
    ghost predicate AtTheEnd()
      requires stream.Valid()
      reads this, parser, stream, stream.buf
    {
      parser.meta == SEN && chunks != [] && base + |chunks[|chunks| - 1]| == MAX_REQUEST_BUF_SIZE && Unread() == []
    }

    /** Between the pieces. */
    ghost predicate Between(all: seq<Byte>, over: bool, dead: bool)
      reads this, parser, stream, stream.buf
    {
      && Valid() && (over <==> parser.meta == END) && (dead ==> AtTheEnd()) && arrived <= all
      && (!over && !dead ==> parser.meta == STR && Unread() == [] && arrived == all)
    }

    /** For every split of the body, and of what comes after it, into reads: as long as there is less than the declared
        length the application has been given all that has arrived; then it has been given exactly that much, and the
        empty chunk, unless the body ends where the largest buffer does. */
    method HandOver(pieces: seq<seq<Byte>>) returns (over: bool, dead: bool)
      requires Valid() && parser.meta == STR && chunks == []
      modifies this`chunks, this`arrived, parser, stream, stream.buf
      ensures Valid() && NoneEmptyBut(over) && (over ==> Told()) && (dead ==> AtTheEnd())
      ensures var all := old(arrived) + Flatten(pieces);
        && (over || dead <==> all != [] && |all| >= Length())
        && Flatten(chunks) == if over || dead then all[..Length()] else all
    {
      ghost var first := arrived;
      over, dead := OnEvent([]);
      var k := 0;
      while k < |pieces| && !over && !dead
        invariant 0 <= k <= |pieces| && Between(first + Flatten(pieces[..k]), over, dead)
        invariant stream.buf == old(stream.buf) || fresh(stream.buf)
      {
        over, dead := OnEvent(pieces[k]);
        FlattenNext(first, pieces, k);
        k := k + 1;
      }
      Concluded(first, pieces, k, over, dead);
    }

    lemma Concluded(first: seq<Byte>, pieces: seq<seq<Byte>>, k: nat, over: bool, dead: bool)
      requires k <= |pieces| && Between(first + Flatten(pieces[..k]), over, dead)
               && (!over && !dead ==> k == |pieces|)
      ensures NoneEmptyBut(over) && (over ==> Told())
      ensures var all := first + Flatten(pieces);
        && (over || dead <==> all != [] && |all| >= Length())
        && Flatten(chunks) == if over || dead then all[..Length()] else all
    {
      assert pieces[..|pieces|] == pieces;
      FlattenPrefix(pieces, k);
      Arrived(first + Flatten(pieces));
    }

    ghost predicate NoneEmptyBut(last: bool)
      reads this
    {
      Length() > 0 ==> forall i :: 0 <= i < |chunks| ==> chunks[i] == [] ==> last && i == |chunks| - 1
    }

    lemma Arrived(all: seq<Byte>)
      requires Valid() && arrived <= all
      ensures parser.meta != STR ==> all != [] && |all| >= Length() && Flatten(chunks) == all[..Length()]
      ensures parser.meta == STR && Unread() == [] && arrived == all ==>
                Flatten(chunks) == all && (all == [] || |all| < Length())
    {
      assert Flatten(chunks) <= arrived;
    }
  }

  lemma FlattenNext(first: seq<Byte>, pieces: seq<seq<Byte>>, k: nat)
    requires k < |pieces|
    ensures first + Flatten(pieces[..k + 1]) == first + Flatten(pieces[..k]) + pieces[k]
  {
    FlattenSplit(pieces, k);
    assert first + (Flatten(pieces[..k]) + pieces[k]) == first + Flatten(pieces[..k]) + pieces[k];
  }

  lemma FlattenPrefix(pieces: seq<seq<Byte>>, k: nat)
    requires k <= |pieces|
    ensures Flatten(pieces[..k]) <= Flatten(pieces)
  {
    FlattenParts(pieces, k);
  }

  lemma Regrouped(a: seq<Byte>, b: seq<Byte>, c: seq<Byte>)
    ensures a + b + c == a + (b + c)
  {
  }

  lemma MoreUnread(buf: seq<Byte>, more: seq<Byte>, index: nat)
    requires index <= |buf|
    ensures (buf + more)[index..] == buf[index..] + more
  {
  }
}
