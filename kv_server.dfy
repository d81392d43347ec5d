/** The per-connection pipeline of the key/value server: framing requests
    out of the read buffer, answering them, and flushing the answers.

    The pure functions KvStep, Drain and ServeReads say what one request,
    one drain of the read buffer, and one readable event come to; the
    methods are the source's loops over the connection's two arrays, proved
    to reach exactly those outcomes. */
module KvServer {
  import opened Bytes
  import opened Wrappers
  import opened Wire
  import opened ServerHeader
  import opened Commands
  import opened Buffers
  import opened Sockets
  import opened Transmit
  import opened KvRequests
  import opened Registries

  // ------------------------------------------------------------------
  // Specification

  /** What the front of the read buffer calls for: wait for more bytes,
      end the connection, or send a response frame after consuming `used`
      bytes and moving the store to `entries`. */
  datatype KvAction = Incomplete | Fail | Respond(frame: Bytes, used: nat, entries: Entries)

  function KvStep(pending: Bytes, m: Entries): (r: KvAction)
    requires Bounded(m)
    ensures r.Respond? ==>
      && 4 <= r.used <= |pending| && r.used <= BUF_CAP
      && 8 <= |r.frame| <= 8 + MAX_VALUE && Bounded(r.entries)
  {
    if |pending| < 4 then Incomplete
    else
      var len := U32At(pending, 0);
      if len > MAX_MSG then Fail
      else if 4 + len > |pending| then Incomplete
      else
        var body := pending[4..4 + len];
        match DoRequestSpec(body, m)
        case None => Fail
        case Some(o) =>
          ResponsesFit(body, m);
          Respond(ResponseFrame(o.code, o.payload), 4 + len, o.entries)
  }

  /** Where a connection ends up: its state, unread bytes, store, the bytes
      it wrote, what is left of the write script, and what it still has to send. */
  datatype Served = Served(state: nat, pending: Bytes, entries: Entries, sent: Bytes,
                           script: seq<WriteStep>, unsent: Bytes)

  /** The drain loop of `tryFillRbuf`: answer requests one after another for
      as long as each answer goes out in full. */
  function Drain(pending: Bytes, m: Entries, out: seq<WriteStep>): (r: Served)
    requires Bounded(m)
    ensures Bounded(r.entries) && r.state <= STATE_DONE
    ensures r.state == STATE_REQ ==> r.unsent == []
    ensures r.state == STATE_RESP ==> r.unsent != []
    ensures |r.pending| <= |pending|
    decreases |pending|
  {
    match KvStep(pending, m)
    case Incomplete => Served(STATE_REQ, pending, m, [], out, [])
    case Fail => Served(STATE_DONE, pending, m, [], out, [])
    case Respond(frame, used, m') =>
      var (e, w, rest) := Flush(out, |frame|);
      if e == Flushed then
        var d := Drain(pending[used..], m', rest);
        d.(sent := frame + d.sent)
      else
        Served(if e == Blocked then STATE_RESP else STATE_DONE, pending[used..], m', frame[..w], rest, frame[w..])
  }

  /** `stateRequest`: read, drain, and read again while the connection stays
      in STATE_REQ; also returns what is left of the read script and the
      bytes read. */
  function ServeReads(pending: Bytes, m: Entries, inc: seq<ReadStep>, out: seq<WriteStep>)
    : (r: (Served, seq<ReadStep>, Bytes))
    requires Bounded(m) && |pending| < BUF_CAP
    ensures Bounded(r.0.entries) && r.0.state <= STATE_DONE
    ensures r.0.state == STATE_REQ ==> r.0.unsent == []
    ensures r.0.state == STATE_RESP ==> r.0.unsent != []
    ensures r.0.state != STATE_DONE ==> |r.0.pending| < BUF_CAP
    decreases ReadFuel(inc)
  {
    var (step, rest) := NextRead(inc, BUF_CAP - |pending|);
    match step
    case ReadAgain => (Served(STATE_REQ, pending, m, [], out, []), rest, [])
    case ReadError => (Served(STATE_DONE, pending, m, [], out, []), rest, [])
    case Deliver(d) =>
      if d == [] then (Served(STATE_DONE, pending, m, [], out, []), rest, [])
      else
        var s := Drain(pending + d, m, out);
        DrainFits(pending + d, m, out);
        if s.state != STATE_REQ then (s, rest, d)
        else
          NextReadFuel(inc, BUF_CAP - |pending|);
          var (t, rest', got) := ServeReads(s.pending, s.entries, rest, s.script);
          (t.(sent := s.sent + t.sent), rest', d + got)
  }

  // ------------------------------------------------------------------
  // Properties of the specification

  /** A request still waiting for bytes never fills the buffer: a complete
      header announces at most MAX_MSG bytes, and 4 + MAX_MSG is the buffer. */
  lemma KvStepIncompleteFits(pending: Bytes, m: Entries)
    requires Bounded(m) && |pending| <= BUF_CAP
    requires KvStep(pending, m) == Incomplete
    ensures |pending| < BUF_CAP
  {
    if |pending| >= 4 {
      assert U32At(pending, 0) <= MAX_MSG;
    }
  }

  /** So a connection that goes back to reading always has room in its read
      buffer, which is what `tryFillRbuf` asserts on entry. */
  lemma {:induction false} DrainFits(pending: Bytes, m: Entries, out: seq<WriteStep>)
    requires Bounded(m) && |pending| <= BUF_CAP
    ensures var r := Drain(pending, m, out);
      r.state != STATE_DONE ==> |r.pending| < BUF_CAP
    decreases |pending|
  {
    match KvStep(pending, m)
    case Incomplete => KvStepIncompleteFits(pending, m);
    case Fail =>
    case Respond(frame, used, m') =>
      var (e, w, rest) := Flush(out, |frame|);
      if e == Flushed {
        DrainFits(pending[used..], m', rest);
      }
  }

  /** Once the front of the buffer holds a whole frame (or a bad header),
      bytes arriving behind it do not change what it calls for. */
  lemma KvStepStable(pending: Bytes, more: Bytes, m: Entries)
    requires Bounded(m) && KvStep(pending, m) != Incomplete
    ensures KvStep(pending + more, m) == KvStep(pending, m)
  {
    var p := pending + more;
    assert p[0..4] == pending[0..4];
    var len := U32At(pending, 0);
    if len <= MAX_MSG {
      assert p[4..4 + len] == pending[4..4 + len];
    }
  }

  /** Until all of a request's bytes have arrived the server waits: every
      strict prefix of a frame it would answer is Incomplete. */
  lemma KvStepWaits(pending: Bytes, cut: nat, m: Entries)
    requires Bounded(m) && KvStep(pending, m).Respond?
    requires cut < KvStep(pending, m).used
    ensures KvStep(pending[..cut], m) == Incomplete
  {
    if cut >= 4 {
      assert pending[..cut][0..4] == pending[0..4];
    }
  }

  /** End to end: a frame built by the client is answered with the response
      frame of executing its arguments, and exactly the frame is consumed. */
  lemma KvStepOfRequest(args: seq<Bytes>, rest: Bytes, m: Entries)
    requires BodyLen(args) <= MAX_MSG && Bounded(m)
    ensures var o := Execute(args, m);
      && |o.payload| <= MAX_VALUE
      && KvStep(RequestFrame(args) + rest, m)
           == Respond(ResponseFrame(o.code, o.payload), 4 + BodyLen(args), o.entries)
  {
    ExecuteFits(args, m);
    var f := RequestFrame(args);
    var p := f + rest;
    var len := BodyLen(args);
    RequestRoundTrip(args);
    assert p[0..4] == f[..4];
    assert U32At(p, 0) == len;
    assert p[4..4 + len] == f[4..];
    KvStepAnswers(p, m, args);
  }

  /** A complete frame at the front whose body parses as cmd is answered
      with the response frame of executing cmd, and exactly the frame is
      consumed. */
  lemma KvStepAnswers(p: Bytes, m: Entries, cmd: seq<Bytes>)
    requires Bounded(m) && 4 <= |p| && U32At(p, 0) <= MAX_MSG && 4 + U32At(p, 0) <= |p|
    requires ParseBody(p[4..4 + U32At(p, 0)]) == Some(cmd)
    ensures var o := Execute(cmd, m);
      KvStep(p, m) == Respond(ResponseFrame(o.code, o.payload), 4 + U32At(p, 0), o.entries)
  {
  }

  /** Request frames sent back to back. */
  function RequestStream(reqs: seq<seq<Bytes>>): Bytes
    requires forall i :: 0 <= i < |reqs| ==> BodyLen(reqs[i]) <= MAX_MSG
  {
    if reqs == [] then [] else RequestFrame(reqs[0]) + RequestStream(reqs[1..])
  }

  /** The responses to a sequence of requests, each executed on the store the
      one before it left, and the store after the last. */
  function Conversation(reqs: seq<seq<Bytes>>, m: Entries): (r: (Bytes, Entries))
    requires Bounded(m)
    requires forall i :: 0 <= i < |reqs| ==> BodyLen(reqs[i]) <= MAX_MSG
    ensures Bounded(r.1)
  {
    if reqs == [] then ([], m)
    else
      var o := Execute(reqs[0], m);
      ExecuteFits(reqs[0], m);
      var (rs, m') := Conversation(reqs[1..], o.entries);
      (ResponseFrame(o.code, o.payload) + rs, m')
  }

  /** One unfolding of Drain on a request whose response goes out in full. */
  lemma DrainFlushed(pending: Bytes, m: Entries, out: seq<WriteStep>)
    requires Bounded(m) && KvStep(pending, m).Respond?
    requires Flush(out, |KvStep(pending, m).frame|).0 == Flushed
    ensures var k := KvStep(pending, m);
      var d := Drain(pending[k.used..], k.entries, Flush(out, |k.frame|).2);
      Drain(pending, m, out) == d.(sent := k.frame + d.sent)
  {
  }

  /** A client's request at the front of the buffer, answered by a write
      with room for the whole response, leaves the rest to the next round. */
  lemma DrainFirstRequest(args: seq<Bytes>, tail: Bytes, m: Entries, after: seq<WriteStep>,
                          stream: Bytes, script: seq<WriteStep>)
    requires BodyLen(args) <= MAX_MSG && Bounded(m)
    requires stream == RequestFrame(args) + tail && script == [Accept(BUF_CAP)] + after
    ensures var o := Execute(args, m);
      && Bounded(o.entries) && |o.payload| <= MAX_VALUE
      && var d := Drain(tail, o.entries, after);
         Drain(stream, m, script) == d.(sent := ResponseFrame(o.code, o.payload) + d.sent)
  {
    var o := Execute(args, m);
    ExecuteFits(args, m);
    var frame := ResponseFrame(o.code, o.payload);
    KvStepOfRequest(args, tail, m);
    FlushWhole(BUF_CAP, |frame|, after);
    DrainFlushed(stream, m, script);
    assert stream[4 + BodyLen(args)..] == tail;
  }

  /** Pipelining: requests that arrive together are answered in the order
      they arrived, each on the store its predecessors left, and the
      connection ends up reading again with nothing left over. */
  lemma {:induction false} DrainPipelined(reqs: seq<seq<Bytes>>, m: Entries, out: seq<WriteStep>)
    requires Bounded(m)
    requires forall i :: 0 <= i < |reqs| ==> BodyLen(reqs[i]) <= MAX_MSG
    ensures var (responses, m') := Conversation(reqs, m);
      Drain(RequestStream(reqs), m, Accepts(|reqs|) + out)
        == Served(STATE_REQ, [], m', responses, out, [])
  {
    if reqs == [] {
      assert Accepts(0) + out == out;
    } else {
      var args := reqs[0];
      var o := Execute(args, m);
      ExecuteFits(args, m);
      var tail := RequestStream(reqs[1..]);
      var after := Accepts(|reqs| - 1) + out;
      AcceptsFront(|reqs|, out);
      DrainFirstRequest(args, tail, m, after, RequestStream(reqs), Accepts(|reqs|) + out);
      DrainPipelined(reqs[1..], o.entries, out);
    }
  }

  /** A lone request, with room to write its answer, is answered and
      consumed, and the connection reads again. */
  lemma DrainLoneRequest(args: seq<Bytes>, m: Entries)
    requires BodyLen(args) <= MAX_MSG && Bounded(m)
    ensures |Execute(args, m).payload| <= MAX_VALUE
    ensures var o := Execute(args, m);
      Drain(RequestFrame(args), m, [Accept(BUF_CAP)])
        == Served(STATE_REQ, [], o.entries, ResponseFrame(o.code, o.payload), [], [])
  {
    DrainFirstRequest(args, [], m, [], RequestFrame(args), [Accept(BUF_CAP)]);
    DrainIdle(Execute(args, m).entries, []);
  }

  /** Nothing buffered: nothing is written and the connection reads on. */
  lemma DrainIdle(m: Entries, out: seq<WriteStep>)
    requires Bounded(m)
    ensures Drain([], m, out) == Served(STATE_REQ, [], m, [], out, [])
  {
    assert KvStep([], m) == Incomplete;
  }

  // ------------------------------------------------------------------
  // The connection

  /** The connection, the socket and the store are where the outcome s
      puts them, the socket having written s.sent after sent0. */
  ghost predicate Reached(conn: Conn, sock: Socket, store: Store, s: Served, sent0: Bytes)
    reads conn, conn.rbuf, conn.wbuf, sock, store
  {
    && conn.Valid() && store.Valid()
    && conn.state == s.state && conn.Pending() == s.pending && store.entries == s.entries
    && sock.sent == sent0 + s.sent && sock.outgoing == s.script
    && (s.state == STATE_REQ ==> conn.wbufSize == 0 && conn.wbufSent == 0)
    && (s.state != STATE_REQ ==> conn.Unsent() == s.unsent)
  }

  /** Reaching s after having written done is reaching s with done in front
      of what it sent. */
  lemma ReachedAfter(conn: Conn, sock: Socket, store: Store, s: Served, sent0: Bytes, done: Bytes)
    requires Reached(conn, sock, store, s, sent0 + done)
    ensures Reached(conn, sock, store, s.(sent := done + s.sent), sent0)
  {
    assert sent0 + done + s.sent == sent0 + (done + s.sent);
  }

  /** The response header in front of a payload of wlen bytes already at
      offset 8 of the write buffer: `le32(4 + wlen)`, then `le32(rescode)`. */
  method FrameResponse(conn: Conn, rescode: nat, wlen: nat)
    requires conn.Valid() && conn.wbufSent == 0 && rescode < U32_LIMIT && 8 + wlen <= BUF_CAP
    modifies conn, conn.wbuf
    ensures conn.Valid() && conn.wbufSize == 8 + wlen
    ensures conn.wbuf[..conn.wbufSize] == ResponseFrame(rescode, old(conn.wbuf[8..8 + wlen]))
    ensures conn.fd == old(conn.fd) && conn.state == old(conn.state)
    ensures conn.rbufSize == old(conn.rbufSize) && conn.wbufSent == old(conn.wbufSent)
  {
    ghost var payload := conn.wbuf[8..8 + wlen];
    var len := wlen + 4;
    Memcpy(conn.wbuf, 0, LE32(len));
    Memcpy(conn.wbuf, 4, LE32(rescode));
    conn.wbufSize := 4 + len;
    assert conn.wbuf[8..conn.wbufSize] == payload;
    assert conn.wbuf[..conn.wbufSize]
      == conn.wbuf[0..4] + conn.wbuf[4..8] + conn.wbuf[8..conn.wbufSize];
  }

  /** `tryOneRequest`: take one request off the front of the read buffer,
      answer it into the write buffer, close the gap with memmove, and flush.
      It reports whether the answer went out in full, so that draining can go on. */
  method TryOneRequest(conn: Conn, sock: Socket, store: Store) returns (more: bool)
    requires conn.Valid() && store.Valid()
    requires conn.state == STATE_REQ && conn.wbufSize == 0 && conn.wbufSent == 0
    modifies conn, conn.rbuf, conn.wbuf, sock, store
    ensures conn.Valid() && store.Valid() && conn.fd == old(conn.fd)
    ensures sock.incoming == old(sock.incoming) && sock.received == old(sock.received)
    ensures match KvStep(old(conn.Pending()), old(store.entries))
      case Incomplete =>
        && !more && conn.state == STATE_REQ && conn.wbufSize == 0 && conn.wbufSent == 0
        && conn.Pending() == old(conn.Pending()) && store.entries == old(store.entries)
        && sock.sent == old(sock.sent) && sock.outgoing == old(sock.outgoing)
      case Fail =>
        && !more && conn.state == STATE_DONE && conn.wbufSize == 0 && conn.wbufSent == 0
        && conn.Pending() == old(conn.Pending()) && store.entries == old(store.entries)
        && sock.sent == old(sock.sent) && sock.outgoing == old(sock.outgoing)
      case Respond(frame, used, m') =>
        var (e, w, rest) := Flush(old(sock.outgoing), |frame|);
        && store.entries == m' && conn.Pending() == old(conn.Pending())[used..]
        && sock.outgoing == rest && sock.sent == old(sock.sent) + frame[..w]
        && (more <==> e == Flushed)
        && (e == Flushed ==> conn.state == STATE_REQ && conn.wbufSize == 0 && conn.wbufSent == 0)
        && (e == Blocked ==> conn.state == STATE_RESP)
        && (e == Broken ==> conn.state == STATE_DONE)
        && (e != Flushed ==> conn.Unsent() == frame[w..])
  {
    ghost var pending := conn.Pending();
    if conn.rbufSize < 4 {
      return false;
    }
    assert conn.rbuf[0..4] == pending[0..4];
    var len := U32(conn.rbuf[0..4]);
    if len > MAX_MSG {
      conn.state := STATE_DONE;
      return false;
    }
    if 4 + len > conn.rbufSize {
      return false;
    }
    more := AnswerRequest(conn, sock, store, len);
  }

  /** The second half of `tryOneRequest`, once a whole frame of len body
      bytes is buffered: answer it, frame the answer, drop the request from
      the read buffer, and flush. */
  method AnswerRequest(conn: Conn, sock: Socket, store: Store, len: nat) returns (more: bool)
    requires conn.Valid() && store.Valid()
    requires conn.state == STATE_REQ && conn.wbufSize == 0 && conn.wbufSent == 0
    requires 4 <= conn.rbufSize && len == U32(conn.rbuf[0..4]) && len <= MAX_MSG
    requires 4 + len <= conn.rbufSize
    modifies conn, conn.rbuf, conn.wbuf, sock, store
    ensures conn.Valid() && store.Valid() && conn.fd == old(conn.fd)
    ensures sock.incoming == old(sock.incoming) && sock.received == old(sock.received)
    ensures match KvStep(old(conn.Pending()), old(store.entries))
      case Incomplete => false
      case Fail =>
        && !more && conn.state == STATE_DONE && conn.wbufSize == 0 && conn.wbufSent == 0
        && conn.Pending() == old(conn.Pending()) && store.entries == old(store.entries)
        && sock.sent == old(sock.sent) && sock.outgoing == old(sock.outgoing)
      case Respond(frame, used, m') =>
        var (e, w, rest) := Flush(old(sock.outgoing), |frame|);
        && store.entries == m' && conn.Pending() == old(conn.Pending())[used..]
        && sock.outgoing == rest && sock.sent == old(sock.sent) + frame[..w]
        && (more <==> e == Flushed)
        && (e == Flushed ==> conn.state == STATE_REQ && conn.wbufSize == 0 && conn.wbufSent == 0)
        && (e == Blocked ==> conn.state == STATE_RESP)
        && (e == Broken ==> conn.state == STATE_DONE)
        && (e != Flushed ==> conn.Unsent() == frame[w..])
  {
    ghost var pending := conn.Pending();
    ghost var m := store.entries;
    var err, rescode, wlen := ExecuteInPlace(conn, store, len);
    if err != 0 {
      conn.state := STATE_DONE;
      return false;
    }
    more := RespondAndSend(conn, sock, 4 + len, rescode, wlen, KvStep(pending, m).frame);
  }

  /** The `do_request` call of `tryOneRequest`: the body at offset 4 of the
      read buffer is executed on the store and the payload written at offset
      8 of the write buffer. It fails exactly when KvStep fails; otherwise
      the code and payload make up KvStep's response frame. */
  method ExecuteInPlace(conn: Conn, store: Store, len: nat) returns (err: int, rescode: nat, wlen: nat)
    requires conn.Valid() && store.Valid() && conn.wbufSent == 0
    requires 4 <= conn.rbufSize && len == U32(conn.rbuf[0..4]) && len <= MAX_MSG
    requires 4 + len <= conn.rbufSize
    modifies conn.wbuf, store
    ensures store.Valid()
    ensures var k := KvStep(old(conn.Pending()), old(store.entries));
      && (err == 0 <==> k.Respond?)
      && (err != 0 ==> k == Fail && store.entries == old(store.entries))
      && (err == 0 ==>
            && rescode < U32_LIMIT && 8 + wlen <= BUF_CAP && k.used == 4 + len
            && k.frame == ResponseFrame(rescode, conn.wbuf[8..8 + wlen]) && k.entries == store.entries)
  {
    ghost var pending := conn.Pending();
    ghost var m := store.entries;
    assert conn.rbuf[0..4] == pending[0..4];
    ghost var body := pending[4..4 + len];
    assert conn.rbuf[4..4 + len] == body by {
      assert forall i :: 4 <= i < 4 + len ==> conn.rbuf[i] == pending[i];
    }
    err, rescode, wlen := DoRequest(store, conn.rbuf, 4, len, conn.wbuf, 8);
    if err != 0 {
      return;
    }
    ghost var o := DoRequestSpec(body, m).value;
    ResponsesFit(body, m);
    assert rescode == o.code && wlen == |o.payload| <= MAX_VALUE;
    assert conn.wbuf[8..8 + wlen] == o.payload;
    assert KvStep(pending, m) == Respond(ResponseFrame(o.code, o.payload), 4 + len, o.entries);
  }

  /** The end of a successful `tryOneRequest`: the response header goes in
      front of the payload already in wbuf, the request leaves rbuf, and
      `state_res` writes the frame. */
  method RespondAndSend(conn: Conn, sock: Socket, used: nat, rescode: nat, wlen: nat, ghost frame: Bytes)
    returns (more: bool)
    requires conn.Valid() && conn.state == STATE_REQ && conn.wbufSent == 0
    requires used <= conn.rbufSize && rescode < U32_LIMIT && 8 + wlen <= BUF_CAP
    requires frame == ResponseFrame(rescode, conn.wbuf[8..8 + wlen])
    modifies conn, conn.rbuf, conn.wbuf, sock
    ensures conn.Valid() && conn.fd == old(conn.fd)
    ensures sock.incoming == old(sock.incoming) && sock.received == old(sock.received)
    ensures conn.Pending() == old(conn.Pending())[used..]
    ensures var (e, w, rest) := Flush(old(sock.outgoing), |frame|);
      && sock.outgoing == rest && sock.sent == old(sock.sent) + frame[..w]
      && (more <==> e == Flushed)
      && (e == Flushed ==> conn.state == STATE_REQ && conn.wbufSize == 0 && conn.wbufSent == 0)
      && (e == Blocked ==> conn.state == STATE_RESP)
      && (e == Broken ==> conn.state == STATE_DONE)
      && (e != Flushed ==> conn.Unsent() == frame[w..])
  {
    FrameResponse(conn, rescode, wlen);
    ConsumeRequest(conn, used);
    assert conn.Unsent() == frame && conn.wbufSize - conn.wbufSent == |frame|;
    more := SendResponse(conn, sock, frame);
  }

  /** One round of the drain loop: one `tryOneRequest`, which either
      leaves the connection reading with the bytes it wrote in front of the
      rest of the drain, or ends the drain where Drain says. */
  method DrainOnce(conn: Conn, sock: Socket, store: Store) returns (more: bool, ghost wrote: Bytes)
    requires conn.Valid() && store.Valid()
    requires conn.state == STATE_REQ && conn.wbufSize == 0 && conn.wbufSent == 0
    modifies conn, conn.rbuf, conn.wbuf, sock, store
    ensures conn.Valid() && store.Valid() && conn.fd == old(conn.fd)
    ensures sock.incoming == old(sock.incoming) && sock.received == old(sock.received)
    ensures |conn.Pending()| <= old(|conn.Pending()|)
    ensures more ==> |conn.Pending()| < old(|conn.Pending()|)
    ensures more ==>
      && conn.state == STATE_REQ && conn.wbufSize == 0 && conn.wbufSent == 0
      && sock.sent == old(sock.sent) + wrote
      && var d := Drain(conn.Pending(), store.entries, sock.outgoing);
         Drain(old(conn.Pending()), old(store.entries), old(sock.outgoing)) == d.(sent := wrote + d.sent)
    ensures !more ==>
      Reached(conn, sock, store, Drain(old(conn.Pending()), old(store.entries), old(sock.outgoing)), old(sock.sent))
  {
    ghost var k := KvStep(conn.Pending(), store.entries);
    ghost var out := sock.outgoing;
    more := TryOneRequest(conn, sock, store);
    wrote := [];
    match k
    case Incomplete =>
    case Fail =>
    case Respond(frame, used, m') =>
      var (e, w, rest) := Flush(out, |frame|);
      if e == Flushed {
        assert frame[..w] == frame;
        wrote := frame;
      }
  }

  /** The drain loop of `tryFillRbuf`, `while (tryOneRequest(conn)) {}`:
      its outcome is exactly Drain. */
  method DrainRequests(conn: Conn, sock: Socket, store: Store)
    requires conn.Valid() && store.Valid()
    requires conn.state == STATE_REQ && conn.wbufSize == 0 && conn.wbufSent == 0
    modifies conn, conn.rbuf, conn.wbuf, sock, store
    ensures conn.fd == old(conn.fd)
    ensures sock.incoming == old(sock.incoming) && sock.received == old(sock.received)
    ensures Reached(conn, sock, store,
                    Drain(old(conn.Pending()), old(store.entries), old(sock.outgoing)), old(sock.sent))
  {
    ghost var total := Drain(conn.Pending(), store.entries, sock.outgoing);
    ghost var done: Bytes := [];
    assert total == total.(sent := done + total.sent);
    var more := true;
    while more
      invariant conn.Valid() && store.Valid() && conn.fd == old(conn.fd)
      invariant sock.incoming == old(sock.incoming) && sock.received == old(sock.received)
      invariant more ==> conn.state == STATE_REQ && conn.wbufSize == 0 && conn.wbufSent == 0
      invariant more ==> sock.sent == old(sock.sent) + done
      invariant more ==> var d := Drain(conn.Pending(), store.entries, sock.outgoing);
        total == d.(sent := done + d.sent)
      invariant !more ==> Reached(conn, sock, store, total, old(sock.sent))
      decreases |conn.Pending()| + (if more then 1 else 0)
    {
      ghost var d := Drain(conn.Pending(), store.entries, sock.outgoing);
      ghost var wrote;
      more, wrote := DrainOnce(conn, sock, store);
      if more {
        ghost var d' := Drain(conn.Pending(), store.entries, sock.outgoing);
        assert d == d'.(sent := wrote + d'.sent);
        ConcatAssoc(done, wrote, d'.sent);
        ConcatAssoc(old(sock.sent), done, wrote);
        done := done + wrote;
      } else {
        ReachedAfter(conn, sock, store, d, old(sock.sent), done);
      }
    }
  }

  /** `tryFillRbuf`: one read into the free end of the read buffer, then the
      drain loop. Would-block changes nothing; a read error or end of stream
      ends the connection whatever is buffered; delivered bytes are drained
      exactly as Drain says. It reports whether the connection is still reading. */
  method TryFillRbuf(conn: Conn, sock: Socket, store: Store) returns (more: bool)
    requires conn.Resting() && conn.state == STATE_REQ && store.Valid()
    modifies conn, conn.rbuf, conn.wbuf, sock, store
    ensures conn.Resting() && conn.fd == old(conn.fd)
    ensures var (step, rest) := NextRead(old(sock.incoming), BUF_CAP - old(conn.rbufSize));
      && sock.incoming == rest
      && sock.received == old(sock.received) + (if step.Deliver? then step.data else [])
      && (step.Deliver? && step.data != [] ==>
            var s := Drain(old(conn.Pending()) + step.data, old(store.entries), old(sock.outgoing));
            Reached(conn, sock, store, s, old(sock.sent)) && (more <==> s.state == STATE_REQ))
      && (!step.Deliver? || step.data == [] ==>
            var s := Served(if step.ReadAgain? then STATE_REQ else STATE_DONE,
                            old(conn.Pending()), old(store.entries), [], old(sock.outgoing), []);
            Reached(conn, sock, store, s, old(sock.sent)) && !more)
  {
    var step := ReadIntoRbuf(conn, sock);
    if step.ReadAgain? {
      return false;
    }
    if step.ReadError? || step.data == [] {
      conn.state := STATE_DONE;
      return false;
    }
    more := ServeBuffered(conn, sock, store);
  }

  /** The rest of `tryFillRbuf` after a read that delivered bytes: serve
      every complete request in the read buffer, and go on reading exactly
      when that left the connection reading. */
  method ServeBuffered(conn: Conn, sock: Socket, store: Store) returns (more: bool)
    requires conn.Valid() && store.Valid()
    requires conn.state == STATE_REQ && conn.wbufSize == 0 && conn.wbufSent == 0
    modifies conn, conn.rbuf, conn.wbuf, sock, store
    ensures conn.Resting() && conn.fd == old(conn.fd)
    ensures sock.incoming == old(sock.incoming) && sock.received == old(sock.received)
    ensures var s := Drain(old(conn.Pending()), old(store.entries), old(sock.outgoing));
      Reached(conn, sock, store, s, old(sock.sent)) && (more <==> s.state == STATE_REQ)
  {
    DrainFits(conn.Pending(), store.entries, sock.outgoing);
    DrainRequests(conn, sock, store);
    more := conn.state == STATE_REQ;
  }

  /** One round of the `stateRequest` loop: one `tryFillRbuf`, which either
      leaves the connection reading with what it wrote and read in front of
      the rest of ServeReads, or ends the loop where ServeReads says. */
  method ReadOnce(conn: Conn, sock: Socket, store: Store) returns (more: bool, ghost wrote: Bytes, ghost got: Bytes)
    requires conn.Resting() && conn.state == STATE_REQ && store.Valid()
    modifies conn, conn.rbuf, conn.wbuf, sock, store
    ensures conn.Resting() && conn.fd == old(conn.fd)
    ensures ReadFuel(sock.incoming) <= old(ReadFuel(sock.incoming))
    ensures more ==> ReadFuel(sock.incoming) < old(ReadFuel(sock.incoming))
    ensures more ==>
      && conn.state == STATE_REQ && store.Valid()
      && sock.sent == old(sock.sent) + wrote && sock.received == old(sock.received) + got
      && var (s, rest, g) := ServeReads(conn.Pending(), store.entries, sock.incoming, sock.outgoing);
         ServeReads(old(conn.Pending()), old(store.entries), old(sock.incoming), old(sock.outgoing))
           == (s.(sent := wrote + s.sent), rest, got + g)
    ensures !more ==>
      var (s, rest, g) :=
        ServeReads(old(conn.Pending()), old(store.entries), old(sock.incoming), old(sock.outgoing));
      && Reached(conn, sock, store, s, old(sock.sent))
      && sock.incoming == rest && sock.received == old(sock.received) + g
  {
    ghost var inc := sock.incoming;
    ghost var pending := conn.Pending();
    ghost var m := store.entries;
    ghost var out := sock.outgoing;
    if inc != [] {
      NextReadFuel(inc, BUF_CAP - conn.rbufSize);
    }
    more := TryFillRbuf(conn, sock, store);
    wrote, got := [], [];
    var (step, rest) := NextRead(inc, BUF_CAP - |pending|);
    if step.Deliver? && step.data != [] {
      var s := Drain(pending + step.data, m, out);
      DrainFits(pending + step.data, m, out);
      if more {
        wrote, got := s.sent, step.data;
      }
    }
  }

  /** `stateRequest`: fill and drain until a read would block, the stream
      ends, or a response is held up; the outcome is ServeReads. */
  method StateRequest(conn: Conn, sock: Socket, store: Store)
    requires conn.Resting() && conn.state == STATE_REQ && store.Valid()
    modifies conn, conn.rbuf, conn.wbuf, sock, store
    ensures conn.Resting() && conn.fd == old(conn.fd)
    ensures var (s, rest, got) :=
        ServeReads(old(conn.Pending()), old(store.entries), old(sock.incoming), old(sock.outgoing));
      && Reached(conn, sock, store, s, old(sock.sent))
      && sock.incoming == rest && sock.received == old(sock.received) + got
  {
    ghost var total := ServeReads(conn.Pending(), store.entries, sock.incoming, sock.outgoing);
    ghost var doneSent: Bytes := [];
    ghost var doneGot: Bytes := [];
    assert doneSent + total.0.sent == total.0.sent && doneGot + total.2 == total.2;
    assert total == (total.0.(sent := doneSent + total.0.sent), total.1, doneGot + total.2);
    var more := true;
    while more
      invariant conn.Resting() && conn.fd == old(conn.fd)
      invariant more ==> conn.state == STATE_REQ && store.Valid()
      invariant more ==> sock.sent == old(sock.sent) + doneSent
      invariant more ==> sock.received == old(sock.received) + doneGot
      invariant more ==> var (s, rest, got) :=
          ServeReads(conn.Pending(), store.entries, sock.incoming, sock.outgoing);
        total == (s.(sent := doneSent + s.sent), rest, doneGot + got)
      invariant !more ==> var (s, rest, got) := total;
        && Reached(conn, sock, store, s, old(sock.sent))
        && sock.incoming == rest && sock.received == old(sock.received) + got
      decreases ReadFuel(sock.incoming) + (if more then 1 else 0)
    {
      ghost var r := ServeReads(conn.Pending(), store.entries, sock.incoming, sock.outgoing);
      ghost var received := sock.received;
      ghost var wrote, got;
      more, wrote, got := ReadOnce(conn, sock, store);
      if more {
        ghost var r' := ServeReads(conn.Pending(), store.entries, sock.incoming, sock.outgoing);
        ConcatAssoc(doneSent, wrote, r'.0.sent);
        ConcatAssoc(doneGot, got, r'.2);
        ConcatAssoc(old(sock.sent), doneSent, wrote);
        ConcatAssoc(old(sock.received), doneGot, got);
        doneSent, doneGot := doneSent + wrote, doneGot + got;
      } else {
        ReachedAfter(conn, sock, store, r.0, old(sock.sent), doneSent);
        ConcatAssoc(old(sock.received), doneGot, r.2);
      }
    }
  }

  /** `connectionIO`: a reading connection reads, a sending one flushes; the
      source asserts that no other state reaches it. Either way the resting
      invariant is kept, so the entry assertion of `tryFillRbuf` always holds. */
  method ConnectionIO(conn: Conn, sock: Socket, store: Store)
    requires conn.Resting() && store.Valid()
    requires conn.state == STATE_REQ || conn.state == STATE_RESP
    modifies conn, conn.rbuf, conn.wbuf, sock, store
    ensures conn.Resting() && store.Valid() && conn.fd == old(conn.fd)
    ensures old(conn.state) == STATE_REQ ==>
      var (s, rest, got) :=
        ServeReads(old(conn.Pending()), old(store.entries), old(sock.incoming), old(sock.outgoing));
      && Reached(conn, sock, store, s, old(sock.sent))
      && sock.incoming == rest && sock.received == old(sock.received) + got
    ensures old(conn.state) == STATE_RESP ==>
      var (e, w, rest) := Flush(old(sock.outgoing), old(conn.wbufSize - conn.wbufSent));
      var s := Served(if e == Flushed then STATE_REQ else if e == Blocked then STATE_RESP else STATE_DONE,
                      old(conn.Pending()), old(store.entries), old(conn.Unsent())[..w], rest,
                      if e == Flushed then [] else old(conn.Unsent())[w..]);
      && Reached(conn, sock, store, s, old(sock.sent))
      && sock.incoming == old(sock.incoming) && sock.received == old(sock.received)
  {
    if conn.state == STATE_REQ {
      StateRequest(conn, sock, store);
    } else {
      ghost var unsent := conn.Unsent();
      StateResponse(conn, sock);
      assert conn.Valid() && conn.state != STATE_REQ ==> conn.Unsent() == unsent[conn.wbufSent - old(conn.wbufSent)..];
    }
  }

  // ------------------------------------------------------------------
  // The connection table

  /** `connPut` as this server writes it: the slot is assigned without
      growing the table, so the descriptor has to be in range already. */
  method ConnPutInPlace(reg: Registry, conn: Conn)
    requires 0 <= conn.fd < |reg.slots|
    modifies reg
    ensures reg.slots == old(reg.slots)[conn.fd := conn]
  {
    reg.slots := reg.slots[conn.fd := conn];
  }

  /** The table the event loop starts with has no slot at all, so no
      accepted descriptor is in range of ConnPutInPlace. */
  method FirstAcceptOutOfRange(connfd: int) returns (inRange: bool)
    ensures !inRange
  {
    var reg := new Registry();
    inRange := 0 <= connfd < |reg.slots|;
  }

  /** `acceptNewConn`, with the outcome of `accept` (a descriptor, or a
      negative number on failure) and of `malloc` as inputs: a failure
      leaves the table as it was; otherwise a connection in its initial
      state is filed under its descriptor, with the table grown as needed. */
  method AcceptNewConn(reg: Registry, connfd: int, mallocOk: bool) returns (r: int, conn: Conn?)
    modifies reg
    ensures connfd < 0 || !mallocOk ==> r == -1 && conn == null && reg.slots == old(reg.slots)
    ensures connfd >= 0 && mallocOk ==>
      && r == 0 && conn != null && fresh(conn) && conn.Resting()
      && conn.fd == connfd && conn.state == STATE_REQ
      && conn.rbufSize == 0 && conn.wbufSize == 0 && conn.wbufSent == 0
      && |reg.slots| == (if connfd < |old(reg.slots)| then |old(reg.slots)| else connfd + 1)
      && reg.slots[connfd] == conn
      && (forall i :: 0 <= i < |reg.slots| && i != connfd ==>
            reg.slots[i] == if i < |old(reg.slots)| then old(reg.slots)[i] else null)
    ensures old(reg.Indexed()) ==> reg.Indexed()
  {
    if connfd < 0 {
      return -1, null;
    }
    if !mallocOk {
      return -1, null;
    }
    conn := new Conn();
    conn.fd := connfd;
    conn.state := STATE_REQ;
    conn.rbufSize := 0;
    conn.wbufSize := 0;
    conn.wbufSent := 0;
    ConnPut(reg, conn);
    r := 0;
  }
}
