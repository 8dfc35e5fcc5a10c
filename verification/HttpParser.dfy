/** http_parse of src/http.h, working on a stream in place. */
module HttpParser {
  import opened HttpTables
  import opened HttpReference
  import opened HttpStream

  // ----- what one transition does, as values -----

  datatype Acted = Acted(p: Fields, v: View, emitted: Token)

  /** Anchoring and beginning a token, as a state is entered. */
  function Begun(p: Fields, v: View, to: State): View {
    var v0 := if p.state == HN then v.(anchor := v.index) else v;
    if p.state != to && StartKind(to) != NoToken then v0.(token := Token(v.index, v.token.len, StartKind(to))) else v0
  }

  function EnterActed(p: Fields, v: View, to: State): Acted {
    var begun := Begun(p, v, to);
    if to == HS && p.state != HS then Acted(Enter(p, to), begun.(token := NONE), begun.token)
    else Acted(Enter(p, to), begun,
               if to == HK && p.state != HK && p.headerCount + 1 > MAX_HEADER_COUNT then Token(0, 0, Error) else NONE)
  }

  function ArriveActed(p: Fields, v: View, c: Byte, entering: Token): Acted {
    var q := Arrive(p, c, v.index);
    if p.state in {MS, TS, RR, HR} then Acted(q, v.(token := NONE), v.token)
    else if p.state == BR then Acted(q, v, Token(0, 0, Error))
    else if p.state == HN && Mark(p, ER, c, v.index) != NoToken then Acted(q, v, Token(0, 0, Mark(p, ER, c, v.index)))
    else Acted(q, v, entering)
  }

  function HeadActed(p: Fields, v: View, c: Byte, to: State): Acted {
    var entered := EnterActed(p, v, to);
    ArriveActed(entered.p, entered.v, c, entered.emitted)
  }

  /** As much of the body as the stream holds. */
  function BodyTaken(p: Fields, v: View): Acted
    requires 0 <= p.bodyConsumed <= p.contentLength && v.index <= |v.buf|
  {
    var left := p.contentLength - p.bodyConsumed;
    var there := |v.buf| - v.index;
    if left <= there then Acted(BodyDone(p), Advanced(v, left).(token := NONE), Advanced(v, left).token)
    else Acted(p.(bodyConsumed := p.bodyConsumed + there), Advanced(v, there), NONE)
  }

  function BodyActed(p: Fields, v: View, to: State): Acted
    requires 0 <= p.bodyConsumed <= p.contentLength && v.index <= |v.buf| && InBody(to)
  {
    BodyTaken(EnterActed(p, v, to).p, EnterActed(p, v, to).v)
  }

  /** The conversion to an int of 32 bits. */
  function ToInt(x: int): (r: int)
    ensures -0x8000_0000 <= r < 0x8000_0000 && (r - x) % 0x1_0000_0000 == 0
  {
    var low := x % 0x1_0000_0000;
    if low < 0x8000_0000 then low else low - 0x1_0000_0000
  }

  /** A body that is handed over as it arrives: what the stream holds of it is a token of its own, and what is left of
      the buffer behind the head is free again. */
  function StreamTaken(p: Fields, v: View): Acted
    requires 0 <= ToInt(p.contentLength - p.bodyConsumed) && v.anchor <= v.index <= |v.buf|
  {
    Streamed(p, v.(token := Token(v.index, v.token.len, ChunkBody)), ToInt(p.contentLength - p.bodyConsumed))
  }

  function Streamed(p: Fields, begun: View, left: nat): Acted
    requires begun.anchor <= begun.index <= |begun.buf|
  {
    var there := |begun.buf| - begun.index;
    if left <= there then Acted(BodyDone(p), Advanced(begun, left).(token := NONE), Advanced(begun, left).token)
    else Acted(p.(bodyConsumed := p.bodyConsumed + there), Shifted(Advanced(begun, there).(token := NONE)),
               Advanced(begun, there).token)
  }

  function StreamActed(p: Fields, v: View, to: State): Acted
    requires 0 <= ToInt(p.contentLength - p.bodyConsumed) && v.index <= |v.buf| && InBody(to)
             && Begun(p, v, to).anchor <= v.index
  {
    StreamTaken(EnterActed(p, v, to).p, EnterActed(p, v, to).v)
  }

  predicate CanAct(p: Fields, v: View, to: State) {
    && v.index <= |v.buf|
    && (InBody(to) ==>
          if Enter(p, to).meta == STR then
            Begun(p, v, to).anchor <= v.index && 0 <= ToInt(p.contentLength - p.bodyConsumed)
          else 0 <= p.bodyConsumed <= p.contentLength)
  }

  function TransitionActed(p: Fields, v: View, c: Byte, to: State): Acted
    requires CanAct(p, v, to)
  {
    if !InBody(to) then HeadActed(p, v, c, to)
    else if Enter(p, to).meta == STR then StreamActed(p, v, to)
    else BodyActed(p, v, to)
  }

  class Parser {
    var state: State
    var meta: Meta
    var contentLength: int
    var bodyConsumed: int
    var matchIndex: nat
    var headerCount: nat

    function Value(): Fields
      reads this
    {
      Fields(state, meta, contentLength, bodyConsumed, matchIndex, headerCount)
    }

    constructor ()
      ensures Value() == ZEROED
    {
      state, meta, contentLength, bodyConsumed, matchIndex, headerCount := ST, WFK, 0, 0, 0, 0;
    }

    /** The memset that follows the end of a request. */
    method Clear()
      modifies this
      ensures Value() == ZEROED
    {
      state, meta, contentLength, bodyConsumed, matchIndex, headerCount := ST, WFK, 0, 0, 0, 0;
    }

    method TriggerMeta(event: Event)
      modifies this`meta
      ensures meta == MetaTransition(old(meta), event)
    {
      meta := MetaTransition(meta, event);
    }

    /** HS_MATCH, where m is a local variable of the caller that the macro overwrites. */
    method MatchAgainst(pattern: seq<Byte>, event: Event, c: Byte, m: int) returns (m': int)
      modifies this`meta
      ensures (meta, m') == Match(old(meta), event, pattern, matchIndex, m, c)
    {
      m' := if matchIndex < |pattern| then pattern[matchIndex] as int else m;
      if Lower(c) != m' {
        TriggerMeta(event);
      }
    }

    /** The part of hs_transition_action for a change of state. */
    method EnterAction(stream: Stream, to: State) returns (emitted: Token)
      requires stream.Valid()
      modifies this, stream`anchor, stream`token
      ensures stream.Valid()
              && Acted(Value(), stream.Seen(), emitted) == EnterActed(old(Value()), old(stream.Seen()), to)
    {
      var from := state;
      state := to;
      emitted := NONE;
      if from == HN {
        stream.Anchor();
      }
      if from != to {
        if StartKind(to) != NoToken {
          stream.BeginToken(StartKind(to));
        }
        if from == CS {
          TriggerMeta(END_CHK_SIZE);
        }
        if to == HK {
          headerCount := headerCount + 1;
          if headerCount > MAX_HEADER_COUNT {
            emitted := Token(0, 0, Error);
          }
        } else if to == HS {
          TriggerMeta(END_KEY);
          emitted := stream.Emit();
        }
        matchIndex := 0;
      }
    }

    method HexDigit(c: Byte)
      modifies this`contentLength
      ensures contentLength == if IsHex(c) then old(contentLength) * 16 + HexValue(c) else old(contentLength)
    {
      if 65 <= c <= 70 {
        contentLength := contentLength * 0x10;
        contentLength := contentLength + c - 55;
      } else if 97 <= c <= 102 {
        contentLength := contentLength * 0x10;
        contentLength := contentLength + c - 87;
      } else if 48 <= c <= 57 {
        contentLength := contentLength * 0x10;
        contentLength := contentLength + c - 48;
      }
    }

    method EndOfHead(index: nat) returns (kind: Kind)
      requires state == HN
      modifies this`meta
      ensures Value() == Arrive(old(Value()), 0, index) && kind == Mark(old(Value()), ER, 0, index)
    {
      kind := NoToken;
      if meta == SML && !CanContain(index, contentLength) {
        TriggerMeta(LARGE_BODY);
      }
      if meta == BIG || meta == CHK {
        kind := BodyStream;
      }
      TriggerMeta(END_HEADERS);
      if contentLength == 0 && meta == BDY {
        meta := END;
      }
      if meta == END {
        kind := Body;
      }
    }

    /** The switch of hs_transition_action outside the bodies. */
    method ArriveAction(stream: Stream, c: Byte, entering: Token) returns (emitted: Token)
      requires stream.Valid() && !InBody(state)
      modifies this, stream`token
      ensures stream.Valid()
              && Acted(Value(), stream.Seen(), emitted) == ArriveActed(old(Value()), old(stream.Seen()), c, entering)
    {
      emitted := entering;
      match state
      case MS => emitted := stream.Emit();
      case TS => emitted := stream.Emit();
      case RR => TriggerMeta(END_VALUE); emitted := stream.Emit();
      case HR => TriggerMeta(END_VALUE); emitted := stream.Emit();
      case HK =>
        var m := MatchAgainst(TRANSFER_ENCODING, NOT_TRANSFER_ENC, c, 0);
        m := MatchAgainst(CONTENT_LENGTH, NOT_CONTENT_LEN, c, m);
        matchIndex := matchIndex + 1;
      case HV =>
        if meta == MCK {
          var m := MatchAgainst(CHUNKED, NOT_CHUNKED, c, 0);
          matchIndex := matchIndex + 1;
        } else if meta == CLV {
          contentLength := contentLength * 10;
          contentLength := contentLength + c - 48;
        }
      case HN =>
        var kind := EndOfHead(stream.index);
        if kind != NoToken {
          emitted := Token(0, 0, kind);
        }
      case CS =>
        if c != 48 {
          TriggerMeta(NON_ZERO);
        }
        HexDigit(c);
      case C2 => TriggerMeta(END_CHUNK);
      case BR => emitted := Token(0, 0, Error);
      case _ =>
    }

    method FinishBody()
      modifies this
      ensures Value() == BodyDone(old(Value()))
    {
      TriggerMeta(NEXT);
      if state == CB {
        state := CD;
      }
      contentLength := 0;
      bodyConsumed := 0;
    }

    /** The switch of hs_transition_action inside a body that is kept whole. */
    method BodyAction(stream: Stream) returns (emitted: Token)
      requires stream.Valid() && InBody(state) && 0 <= bodyConsumed <= contentLength && meta != STR
      modifies this, stream`index, stream`token, stream`consumed
      ensures stream.Valid() && Acted(Value(), stream.Seen(), emitted) == BodyTaken(old(Value()), old(stream.Seen()))
    {
      emitted := NONE;
      var left := contentLength - bodyConsumed;
      var ok := stream.Jump(left);
      if ok {
        emitted := stream.Emit();
        FinishBody();
      } else {
        var offset := stream.JumpAll();
        bodyConsumed := bodyConsumed + offset;
      }
    }

    /** The same inside a body that is handed over as it arrives. */
    method StreamAction(stream: Stream) returns (emitted: Token)
      requires stream.Valid() && InBody(state) && 0 <= ToInt(contentLength - bodyConsumed) && meta == STR
               && stream.anchor <= stream.index
      modifies this, stream`index, stream`length, stream`token, stream`consumed, stream.buf
      ensures stream.Valid() && Acted(Value(), stream.Seen(), emitted) == StreamTaken(old(Value()), old(stream.Seen()))
      ensures stream.buf[..] == old(stream.buf[..])
    {
      stream.BeginToken(ChunkBody);
      emitted := HandOver(stream, ToInt(contentLength - bodyConsumed));
    }

    /** As much as the stream holds of what is left of the body. */
    method HandOver(stream: Stream, left: nat) returns (emitted: Token)
      requires stream.Valid() && stream.anchor <= stream.index
      modifies this, stream`index, stream`length, stream`token, stream`consumed, stream.buf
      ensures stream.Valid()
              && Acted(Value(), stream.Seen(), emitted) == Streamed(old(Value()), old(stream.Seen()), left)
      ensures stream.buf[..] == old(stream.buf[..])
    {
      var ok := stream.Jump(left);
      if ok {
        emitted := stream.Emit();
        FinishBody();
      } else {
        emitted := StreamRest(stream);
      }
    }

    method StreamRest(stream: Stream) returns (emitted: Token)
      requires stream.Valid() && stream.anchor <= stream.index
      modifies this`bodyConsumed, stream`index, stream`length, stream`token, stream`consumed, stream.buf
      ensures stream.Valid() && stream.buf[..] == old(stream.buf[..])
      ensures var v, there := old(stream.Seen()), old(stream.length - stream.index);
        && bodyConsumed == old(bodyConsumed) + there && emitted == Advanced(v, there).token
        && stream.Seen() == Shifted(Advanced(v, there).(token := NONE))
    {
      var offset := stream.JumpAll();
      bodyConsumed := bodyConsumed + offset;
      emitted := stream.Emit();
      stream.Shift();
    }

    /** hs_transition_action */
    method TransitionAction(stream: Stream, c: Byte, to: State) returns (emitted: Token)
      requires stream.Valid() && CanAct(Value(), stream.Seen(), to)
      modifies this, stream`index, stream`length, stream`anchor, stream`token, stream`consumed, stream.buf
      ensures stream.Valid()
      ensures Acted(Value(), stream.Seen(), emitted) == TransitionActed(old(Value()), old(stream.Seen()), c, to)
      ensures stream.buf[..] == old(stream.buf[..])
    {
      emitted := EnterAction(stream, to);
      if !InBody(to) {
        emitted := ArriveAction(stream, c, emitted);
      } else if meta == STR {
        emitted := StreamAction(stream);
      } else {
        emitted := BodyAction(stream);
      }
    }

    /** hs_meta_emit */
    method MetaEmit() returns (kind: Kind)
      modifies this
      ensures kind == if old(meta) == SEN then ChunkBody else if old(meta) == END then ReqEnd else NoToken
      ensures Value() ==
                if old(meta) == SEN then old(Value()).(meta := END)
                else if old(meta) == END then ZEROED else old(Value())
    {
      kind := NoToken;
      if meta == SEN {
        kind := ChunkBody;
        TriggerMeta(NEXT);
      } else if meta == END {
        kind := ReqEnd;
        Clear();
      }
    }
  }
}
