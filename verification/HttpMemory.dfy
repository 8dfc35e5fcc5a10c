/** The server's account of the memory its buffers take: memused in src/http.h. */
module HttpMemory {
  import opened HttpTables

  const RESPONSE_BUF_SIZE := 1024
  const MAX_TOTAL_MEM := 4294967296

  datatype Stage = Init | Read | Write | Nop

  /** What grwprintf prints, by length, or what grwmemcpy copies. */
  datatype Print = Text(bytes: nat) | Copy(size: nat)

  /** What comes from outside, in the order it is asked for: what the parser finds, and what the application does in its
      callbacks until they return. */
  datatype Item = Found(kind: Kind) | Respond(prints: seq<Print>) | RespondChunk(prints: seq<Print>)
    | RespondChunkEnd(prints: seq<Print>) | ReadChunk | FreeBuffer | Connection(keep: bool) | Return

  class Server {
    var memused: int

    constructor ()
      ensures memused == 0
    {
      memused := 0;
    }
  }

  class Session {
    const server: Server
    var state: Stage
    var buf: bool            // whether stream.buf is not null
    var capacity: nat
    var index: nat
    var length: nat
    var total: nat
    var keepAlive: bool
    var automatic: bool
    var chunked: bool
    var end: bool

    /** What the session's buffer takes. */
    function Held(): nat
      reads this
    {
      if buf then capacity else 0
    }

    /** A session that waits for a request holds no buffer, so that beginning one loses none. */
    ghost predicate Valid()
      reads this
    {
      state == Init ==> !buf
    }

    constructor (server: Server)
      ensures Valid() && Held() == 0 && this.server == server && state == Init
    {
      this.server, state, buf, capacity, index, length, total := server, Init, false, 0, 0, 0, 0;
      keepAlive, automatic, chunked, end := false, false, false, false;
    }

    /** hs_free_buffer. */
    method FreeBuf()
      modifies this`buf, server`memused
      ensures !buf && server.memused == old(server.memused) - old(Held())
    {
      if buf {
        server.memused := server.memused - capacity;
        buf := false;
      }
    }

    /** hs_stream_read_socket; read answers any number of bytes that fit, or that there is nothing. */
    method ReadSocket() returns (open: bool)
      requires state != Init
      modifies this`buf, this`capacity, this`length, this`total, server`memused
      ensures server.memused - Held() == old(server.memused - Held())
    {
      if index < length {
        return true;
      }
      if !buf {
        server.memused := server.memused + REQUEST_BUF_SIZE;
        buf, capacity := true, REQUEST_BUF_SIZE;
      }
      var bytes := ReadOnce();
      while bytes > 0 && capacity < MAX_REQUEST_BUF_SIZE
        invariant buf && server.memused - Held() == old(server.memused - Held())
        decreases MAX_REQUEST_BUF_SIZE - length, bytes
      {
        bytes := ReadOnce();
      }
      open := bytes != 0;
    }

    method ReadOnce() returns (bytes: int)
      requires buf
      modifies this`capacity, this`length, this`total, server`memused
      ensures buf && server.memused - Held() == old(server.memused - Held())
      ensures if bytes > 0 then length == old(length) + bytes && length <= old(capacity) else length == old(length)
    {
      bytes := *;
      if bytes < -1 || bytes > capacity - length {
        bytes := -1;
      }
      if bytes > 0 {
        length, total := length + bytes, total + bytes;
      }
      if length == capacity && capacity != MAX_REQUEST_BUF_SIZE {
        server.memused := server.memused - capacity;
        capacity := capacity * 2;
        if capacity > MAX_REQUEST_BUF_SIZE {
          capacity := MAX_REQUEST_BUF_SIZE;
        }
        server.memused := server.memused + capacity;
      }
    }

    // ----- responses -----

    /** grwprintf, which after growing counts what it has printed twice, and grwmemcpy. */
    method Grow(p: Print, capacity0: nat, size0: nat) returns (capacity: nat, size: nat)
      requires capacity0 > 0
      modifies server`memused
      ensures capacity > 0 && server.memused - capacity == old(server.memused) - capacity0
    {
      capacity, size := capacity0, size0;
      match p {
        case Text(bytes) =>
          var added := bytes;
          if bytes + size > capacity {
            server.memused := server.memused - capacity;
            while bytes + size > capacity
              invariant capacity > 0
              decreases bytes + size - capacity
            {
              capacity := capacity * 2;
            }
            server.memused := server.memused + capacity;
            added := added + bytes;
          }
          size := size + added;
        case Copy(n) =>
          if size + n > capacity {
            server.memused := server.memused - capacity;
            capacity := size + n;
            server.memused := server.memused + capacity;
          }
          size := size + n;
      }
    }

    /** The buffer of a response, from grwprintf_init on. */
    method Build(prints: seq<Print>) returns (built: nat, size: nat)
      modifies server`memused
      ensures server.memused == old(server.memused) + built
    {
      server.memused := server.memused + RESPONSE_BUF_SIZE;
      built, size := RESPONSE_BUF_SIZE, 0;
      var i := 0;
      while i < |prints|
        invariant built > 0 && server.memused == old(server.memused) + built
      {
        built, size := Grow(prints[i], built, size);
        i := i + 1;
      }
    }

    /** http_end_response: the response's buffer takes the place of the request's. */
    method EndResponse(built: nat, size: nat, script: seq<Item>) returns (rest: seq<Item>)
      requires Valid()
      modifies this, server`memused
      ensures Valid() && server.memused - Held() == old(server.memused) - old(Held()) - built && |rest| <= |script|
      decreases |script|, 2
    {
      FreeBuf();
      buf, total, length, capacity, state := true, 0, size, built, Write;
      rest := WriteResponse(script);
    }

    /** http_respond. */
    method RespondWith(prints: seq<Print>, script: seq<Item>) returns (rest: seq<Item>)
      requires Valid()
      modifies this, server`memused
      ensures Valid() && server.memused - Held() == old(server.memused - Held()) && |rest| <= |script|
      decreases |script|, 3
    {
      DetectKeepAlive();
      var built, size := Build(prints);
      rest := EndResponse(built, size, script);
    }

    /** hs_auto_detect_keep_alive, as the request's version and headers say. */
    method DetectKeepAlive()
      modifies this`keepAlive
    {
      if automatic {
        keepAlive := *;
      }
    }

    /** http_respond_chunk. */
    method RespondChunkWith(prints: seq<Print>, script: seq<Item>) returns (rest: seq<Item>)
      requires Valid()
      modifies this, server`memused
      ensures Valid() && server.memused - Held() == old(server.memused - Held()) && |rest| <= |script|
      decreases |script|, 3
    {
      if !chunked {
        chunked := true;
        DetectKeepAlive();
      }
      var built, size := Build(prints);
      rest := EndResponse(built, size, script);
    }

    /** http_respond_chunk_end. */
    method RespondChunkEndWith(prints: seq<Print>, script: seq<Item>) returns (rest: seq<Item>)
      requires Valid()
      modifies this, server`memused
      ensures Valid() && server.memused - Held() == old(server.memused - Held()) && |rest| <= |script|
      decreases |script|, 3
    {
      var built, size := Build(prints);
      chunked := false;
      rest := EndResponse(built, size, script);
    }

    /** hs_write_client_socket. */
    method WriteSocket() returns (ok: bool)
      modifies this`total
    {
      var bytes: int := *;
      if 0 < bytes && bytes + total <= length {
        total := total + bytes;
      }
      ok := *;
    }

    /** hs_write_response. */
    method WriteResponse(script: seq<Item>) returns (rest: seq<Item>)
      requires Valid()
      modifies this, server`memused
      ensures Valid() && server.memused - Held() == old(server.memused - Held()) && |rest| <= |script|
      decreases |script|, 1
    {
      rest := script;
      var ok := WriteSocket();
      if !ok {
        end := true;
      } else if total != length {
        state := Write;
      } else if chunked {
        state := Write;
        FreeBuf();
        rest := Callback(script);
      } else if keepAlive {
        state := Init;
        FreeBuf();
      } else {
        end := true;
      }
    }

    // ----- the application and the session -----

    /** What the application does in a callback. */
    method Callback(script: seq<Item>) returns (rest: seq<Item>)
      requires Valid()
      modifies this, server`memused
      ensures Valid() && server.memused - Held() == old(server.memused - Held()) && |rest| <= |script|
      decreases |script|, 0
    {
      rest := script;
      while rest != [] && !rest[0].Return?
        invariant Valid() && server.memused - Held() == old(server.memused - Held()) && |rest| <= |script|
        decreases |rest|
      {
        var item := rest[0];
        rest := rest[1..];
        rest := Do(item, rest);
      }
      if rest != [] {
        rest := rest[1..];
      }
    }

    method Do(item: Item, script: seq<Item>) returns (rest: seq<Item>)
      requires Valid()
      modifies this, server`memused
      ensures Valid() && server.memused - Held() == old(server.memused - Held()) && |rest| <= |script|
      decreases |script|, 4
    {
      rest := script;
      match item {
        case Respond(prints) => rest := RespondWith(prints, script);
        case RespondChunk(prints) => rest := RespondChunkWith(prints, script);
        case RespondChunkEnd(prints) => rest := RespondChunkEndWith(prints, script);
        case ReadChunk => rest := ReadAndProcess(script);
        case FreeBuffer => FreeBuf();
        case Connection(keep) => automatic, keepAlive := false, keep;
        case _ =>
      }
    }

    /** hs_error_response, which writes the response once more after it has been ended. */
    method ErrorResponse(script: seq<Item>) returns (rest: seq<Item>)
      requires Valid()
      modifies this, server`memused
      ensures Valid() && server.memused - Held() == old(server.memused - Held()) && |rest| <= |script|
      decreases |script|, 4
    {
      var prints: seq<Print> := *;
      rest := RespondWith(prints, script);
      rest := WriteResponse(rest);
    }

    /** http_parse, of which only the kind of the token matters here, and that it moves in the stream as it likes. */
    method Parse(script: seq<Item>) returns (kind: Kind, rest: seq<Item>)
      modifies this`index, this`length
      ensures if kind == NoToken then |rest| <= |script| else |rest| < |script|
    {
      index, length := *, *;
      if script != [] && script[0].Found? {
        return script[0].kind, script[1..];
      }
      return NoToken, script;
    }

    /** hs_read_and_process_request. */
    method ReadAndProcess(script: seq<Item>) returns (rest: seq<Item>)
      requires Valid()
      modifies this, server`memused
      ensures Valid() && server.memused - Held() == old(server.memused - Held()) && |rest| <= |script|
      decreases |script|, 1
    {
      rest := script;
      state := Read;
      var open := ReadSocket();
      if !open {
        end := true;
        return;
      }
      var more := true;
      while more
        invariant Valid() && server.memused - Held() == old(server.memused - Held()) && |rest| <= |script|
        decreases |rest|, more
      {
        var kind;
        kind, rest := Parse(rest);
        match kind {
          case Error => rest := ErrorResponse(rest);
          case Body =>
            state := Nop;
            rest := Callback(rest);
          case BodyStream =>
            state := Nop;
            rest := Callback(rest);
          case ChunkBody =>
            state := Nop;
            rest := Callback(rest);
          case _ =>
        }
        more := kind != NoToken && state == Read;
      }
    }

    /** hs_init_session: the stream is cleared, which must not lose a buffer. */
    method Begin()
      requires Valid() && state == Init
      modifies this
      ensures Valid() && server.memused == old(server.memused) && Held() == old(Held()) == 0 && state == Init
    {
      automatic, keepAlive, chunked, end := true, false, false, false;
      buf, capacity, index, length, total := false, 0, 0, 0, 0;
    }

    /** http_session: what an event leads to, and whether the session is over. */
    method OnEvent(script: seq<Item>) returns (rest: seq<Item>, over: bool)
      requires Valid()
      modifies this, server`memused
      ensures Valid() && server.memused - Held() == old(server.memused - Held())
      ensures old(state) == Init && old(server.memused) > MAX_TOTAL_MEM ==> !over
    {
      rest, over := script, false;
      if state == Init {
        Begin();
        state := Read;
        if server.memused > MAX_TOTAL_MEM {
          rest := ErrorResponse(script);
          return;
        }
        rest := ReadAndProcess(script);
      } else if state == Read {
        rest := ReadAndProcess(script);
      } else if state == Write {
        rest := WriteResponse(script);
      }
      over := end;
    }
  }

  // ----- all sessions -----

  ghost function Sum(held: map<Session, nat>): int {
    if held == map[] then 0
    else
      var s :| s in held;
      held[s] + Sum(held - {s})
  }

  /** Which session is taken first does not matter. */
  lemma {:induction false} SumWithout(held: map<Session, nat>, s: Session)
    requires s in held
    ensures Sum(held) == held[s] + Sum(held - {s})
    decreases |held|
  {
    var t :| t in held && Sum(held) == held[t] + Sum(held - {t});
    if s != t {
      SumWithout(held - {t}, s);
      SumWithout(held - {s}, t);
      assert held - {t} - {s} == held - {s} - {t};
    }
  }

  lemma SumWith(held: map<Session, nat>, s: Session, n: nat)
    ensures Sum(held[s := n]) == n + Sum(held - {s})
    ensures Sum(held - {s}) == Sum(held) - if s in held then held[s] else 0
  {
    SumWithout(held[s := n], s);
    assert held[s := n] - {s} == held - {s};
    if s in held {
      SumWithout(held, s);
    } else {
      assert held - {s} == held;
    }
  }

  class Host {
    const server: Server
    ghost var held: map<Session, nat>   // what the buffer of every live session takes

    /** memused is the sum of the capacities of the buffers of all live sessions. */
    ghost predicate Valid()
      reads this, server, held.Keys
    {
      && server.memused == Sum(held)
      && forall s {:trigger s in held} :: s in held ==> s.server == server && s.Valid() && held[s] == s.Held()
    }

    /** http_server_init. */
    constructor ()
      ensures Valid() && held == map[] && fresh(server)
    {
      server := new Server();
      held := map[];
    }

    /** hs_accept_connections, for one connection. */
    method Accept(script: seq<Item>) returns (s: Session, over: bool)
      requires Valid()
      modifies this, server, held.Keys
      ensures Valid() && fresh(s) && (over <==> s !in held) && held - {s} == old(held)
    {
      s := new Session(server);
      SumWith(held, s, 0);
      held := held[s := 0];
      over := OnIo(s, script);
    }

    /** The handler of a session's events. */
    method OnIo(s: Session, script: seq<Item>) returns (over: bool)
      requires Valid() && s in held
      modifies this, server, held.Keys
      ensures Valid() && (over <==> s !in held) && held - {s} == old(held) - {s}
    {
      var rest;
      rest, over := s.OnEvent(script);
      Settle(s);
      if over {
        End(s);
      }
    }

    /** The history after an event of one session. */
    ghost method Settle(s: Session)
      requires s in held && server.memused - s.Held() == Sum(held) - held[s] && s.server == server && s.Valid()
      requires forall t {:trigger t in held} :: t in held && t != s ==>
                 t.server == server && t.Valid() && held[t] == t.Held()
      modifies this`held
      ensures Valid() && s in held && held - {s} == old(held) - {s}
    {
      SumWith(held, s, s.Held());
      held := held[s := s.Held()];
    }

    /** hs_end_session, which a time-out also leads to. */
    method End(s: Session)
      requires Valid() && s in held
      modifies this, server, s
      ensures Valid() && held == old(held) - {s}
    {
      SumWith(held, s, 0);
      s.FreeBuf();
      held := held - {s};
    }
  }
}
