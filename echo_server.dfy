/** The echo variant of the server: each length-prefixed text frame read
    from a connection is written back to it unchanged.

    The pure functions EchoStep, EchoDrain and EchoServeReads say what one
    frame, one drain of the read buffer, and one readable event come to;
    the methods are the source's loops over the connection's two arrays,
    proved to reach exactly those outcomes. The drain and read loops run
    on the corrected step TryOneRequest, which enters STATE_RESP when a
    write blocks; TryOneRequestAsWritten is the step as the source has it. */
module EchoServer {
  import opened Bytes
  import opened Wire
  import opened ServerHeader
  import opened Buffers
  import opened Sockets
  import opened Transmit
  import opened Registries

  // ------------------------------------------------------------------
  // Specification

  /** What the front of the read buffer calls for: wait for more bytes,
      end the connection, or send back the whole frame at the front. */
  datatype EchoAction = Wait | Close | Echo(frame: Bytes)

  function EchoStep(pending: Bytes): (r: EchoAction)
    ensures r.Echo? ==>
      && 4 <= |r.frame| <= |pending| && |r.frame| <= BUF_CAP
      && r.frame == pending[..|r.frame|]
      && |r.frame| == 4 + U32At(pending, 0)
  {
    if |pending| < 4 then Wait
    else
      var len := U32At(pending, 0);
      if len > MAX_MSG then Close
      else if 4 + len > |pending| then Wait
      else Echo(pending[..4 + len])
  }

  /** Where a connection ends up: its state, unread bytes, the bytes it
      wrote, what is left of the write script, and what it still has to send. */
  datatype Echoed = Echoed(state: nat, pending: Bytes, sent: Bytes, script: seq<WriteStep>, unsent: Bytes)

  /** The drain loop of the echo `tryFillRbuf`: send frames back one after
      another for as long as each goes out in full. It runs on the corrected
      step (TryOneRequest), which enters STATE_RESP when a write blocks; the
      code as written stays in STATE_REQ there (TryOneRequestAsWritten). */
  function EchoDrain(pending: Bytes, out: seq<WriteStep>): (r: Echoed)
    ensures r.state <= STATE_DONE
    ensures r.state == STATE_REQ ==> r.unsent == []
    ensures r.state == STATE_RESP ==> r.unsent != []
    ensures |r.pending| <= |pending|
    decreases |pending|
  {
    match EchoStep(pending)
    case Wait => Echoed(STATE_REQ, pending, [], out, [])
    case Close => Echoed(STATE_DONE, pending, [], out, [])
    case Echo(frame) =>
      var (e, w, rest) := Flush(out, |frame|);
      if e == Flushed then
        var d := EchoDrain(pending[|frame|..], rest);
        d.(sent := frame + d.sent)
      else
        Echoed(if e == Blocked then STATE_RESP else STATE_DONE, pending[|frame|..], frame[..w], rest, frame[w..])
  }

  /** The echo `stateRequest`: read, drain, and read again while the
      connection stays in STATE_REQ; also returns what is left of the read
      script and the bytes read. */
  function EchoServeReads(pending: Bytes, inc: seq<ReadStep>, out: seq<WriteStep>)
    : (r: (Echoed, seq<ReadStep>, Bytes))
    requires |pending| < BUF_CAP
    ensures r.0.state <= STATE_DONE
    ensures r.0.state == STATE_REQ ==> r.0.unsent == []
    ensures r.0.state == STATE_RESP ==> r.0.unsent != []
    ensures r.0.state != STATE_DONE ==> |r.0.pending| < BUF_CAP
    decreases ReadFuel(inc)
  {
    var (step, rest) := NextRead(inc, BUF_CAP - |pending|);
    match step
    case ReadAgain => (Echoed(STATE_REQ, pending, [], out, []), rest, [])
    case ReadError => (Echoed(STATE_DONE, pending, [], out, []), rest, [])
    case Deliver(d) =>
      if d == [] then (Echoed(STATE_DONE, pending, [], out, []), rest, [])
      else
        var s := EchoDrain(pending + d, out);
        EchoDrainFits(pending + d, out);
        if s.state != STATE_REQ then (s, rest, d)
        else
          NextReadFuel(inc, BUF_CAP - |pending|);
          var (t, rest', got) := EchoServeReads(s.pending, rest, s.script);
          (t.(sent := s.sent + t.sent), rest', d + got)
  }

  // ------------------------------------------------------------------
  // Properties of the specification

  /** A frame still waiting for bytes never fills the buffer. */
  lemma EchoWaitFits(pending: Bytes)
    requires |pending| <= BUF_CAP && EchoStep(pending) == Wait
    ensures |pending| < BUF_CAP
  {
    if |pending| >= 4 {
      assert U32At(pending, 0) <= MAX_MSG;
    }
  }

  /** So a connection that goes back to reading always has room in its
      read buffer, which is what the echo `tryFillRbuf` asserts on entry. */
  lemma {:induction false} EchoDrainFits(pending: Bytes, out: seq<WriteStep>)
    requires |pending| <= BUF_CAP
    ensures var r := EchoDrain(pending, out);
      r.state != STATE_DONE ==> |r.pending| < BUF_CAP
    decreases |pending|
  {
    match EchoStep(pending)
    case Wait => EchoWaitFits(pending);
    case Close =>
    case Echo(frame) =>
      var (e, w, rest) := Flush(out, |frame|);
      if e == Flushed {
        EchoDrainFits(pending[|frame|..], rest);
      }
  }

  /** Until all of a frame's bytes have arrived the server waits. */
  lemma EchoWaits(pending: Bytes, cut: nat)
    requires EchoStep(pending).Echo? && cut < |EchoStep(pending).frame|
    ensures EchoStep(pending[..cut]) == Wait
  {
    if cut >= 4 {
      assert pending[..cut][0..4] == pending[0..4];
    }
  }

  /** A frame built by the text client is sent back exactly, and exactly
      it is consumed. */
  lemma EchoOfTextFrame(text: Bytes, rest: Bytes)
    requires |text| <= MAX_MSG
    ensures EchoStep(TextFrame(text) + rest) == Echo(TextFrame(text))
  {
    var f := TextFrame(text);
    var p := f + rest;
    LE32RoundTrip(|text|);
    assert p[0..4] == f[..4] == LE32(|text|);
    assert p[..4 + |text|] == f;
  }

  /** Text frames sent back to back. */
  function TextStream(texts: seq<Bytes>): Bytes
    requires forall i :: 0 <= i < |texts| ==> |texts[i]| <= MAX_MSG
  {
    if texts == [] then [] else TextFrame(texts[0]) + TextStream(texts[1..])
  }

  /** A whole frame at the front, with a write that takes it at once, goes
      back before whatever the rest of the bytes lead to. */
  lemma EchoFirstFrame(text: Bytes, tail: Bytes, after: seq<WriteStep>)
    requires |text| <= MAX_MSG
    ensures var d := EchoDrain(tail, after);
      EchoDrain(TextFrame(text) + tail, [Accept(BUF_CAP)] + after)
        == d.(sent := TextFrame(text) + d.sent)
  {
    var f := TextFrame(text);
    var stream := f + tail;
    EchoOfTextFrame(text, tail);
    FlushWhole(BUF_CAP, |f|, after);
    assert stream[|f|..] == tail;
  }

  /** Pipelining: frames that arrive together come back in the order they
      arrived, byte for byte, and the connection ends up reading again with
      nothing left over. */
  lemma {:induction false} EchoPipelined(texts: seq<Bytes>, out: seq<WriteStep>)
    requires forall i :: 0 <= i < |texts| ==> |texts[i]| <= MAX_MSG
    ensures EchoDrain(TextStream(texts), Accepts(|texts|) + out)
      == Echoed(STATE_REQ, [], TextStream(texts), out, [])
  {
    if texts == [] {
      assert Accepts(0) + out == out;
    } else {
      var tail := TextStream(texts[1..]);
      AcceptsFront(|texts|, out);
      EchoFirstFrame(texts[0], tail, Accepts(|texts| - 1) + out);
      EchoPipelined(texts[1..], out);
    }
  }

  // ------------------------------------------------------------------
  // The connection

  /** The connection and the socket are where the outcome s puts them, the
      socket having written s.sent after sent0. */
  ghost predicate EchoReached(conn: Conn, sock: Socket, s: Echoed, sent0: Bytes)
    reads conn, conn.rbuf, conn.wbuf, sock
  {
    && conn.Valid()
    && conn.state == s.state && conn.Pending() == s.pending
    && sock.sent == sent0 + s.sent && sock.outgoing == s.script
    && (s.state == STATE_REQ ==> conn.wbufSize == 0 && conn.wbufSent == 0)
    && (s.state != STATE_REQ ==> conn.Unsent() == s.unsent)
  }

  /** Reaching s after having written done is reaching s with done in front
      of what it sent. */
  lemma EchoReachedAfter(conn: Conn, sock: Socket, s: Echoed, sent0: Bytes, done: Bytes)
    requires EchoReached(conn, sock, s, sent0 + done)
    ensures EchoReached(conn, sock, s.(sent := done + s.sent), sent0)
  {
    ConcatAssoc(sent0, done, s.sent);
  }

  /** The two copies into the write buffer: the length field, rewritten
      from the value read out of it, and the len body bytes. */
  method CopyFrame(conn: Conn, len: nat)
    requires conn.Valid() && conn.wbufSent == 0
    requires 4 + len <= conn.rbufSize && len == U32(conn.rbuf[0..4])
    modifies conn, conn.wbuf
    ensures conn.Valid() && conn.wbufSize == 4 + len
    ensures conn.wbuf[..conn.wbufSize] == conn.rbuf[..4 + len]
    ensures conn.fd == old(conn.fd) && conn.state == old(conn.state)
    ensures conn.rbufSize == old(conn.rbufSize) && conn.wbufSent == old(conn.wbufSent)
    ensures conn.Pending() == old(conn.Pending())
  {
    U32RoundTrip(conn.rbuf[0..4]);
    Memcpy(conn.wbuf, 0, LE32(len));
    Memcpy(conn.wbuf, 4, conn.rbuf[4..4 + len]);
    conn.wbufSize := 4 + len;
    assert conn.wbuf[..conn.wbufSize] == conn.wbuf[0..4] + conn.wbuf[4..4 + len];
    assert conn.rbuf[..4 + len] == conn.rbuf[0..4] + conn.rbuf[4..4 + len];
  }

  /** The frame at the front of the read buffer becomes the queued
      response, and leaves the read buffer. */
  method MoveFrame(conn: Conn, len: nat)
    requires conn.Valid() && conn.wbufSent == 0
    requires 4 + len <= conn.rbufSize && len == U32(conn.rbuf[0..4])
    modifies conn, conn.rbuf, conn.wbuf
    ensures conn.Valid() && conn.fd == old(conn.fd) && conn.state == old(conn.state)
    ensures conn.wbufSent == 0 && conn.wbufSize == 4 + len
    ensures conn.Unsent() == old(conn.Pending())[..4 + len]
    ensures conn.Pending() == old(conn.Pending())[4 + len..]
  {
    ghost var frame := conn.Pending()[..4 + len];
    CopyFrame(conn, len);
    assert conn.Unsent() == frame;
    ConsumeRequest(conn, 4 + len);
  }

  /** `tryOneRequest` of the echo server, with the connection turned to
      STATE_RESP before the flush as the key/value server does: copy the
      frame at the front of the read buffer into the write buffer, drop it
      from the read buffer, and flush. It reports whether the frame went
      back in full, so that draining can go on. */
  method TryOneRequest(conn: Conn, sock: Socket) returns (more: bool)
    requires conn.Valid() && conn.state == STATE_REQ && conn.wbufSize == 0 && conn.wbufSent == 0
    modifies conn, conn.rbuf, conn.wbuf, sock
    ensures conn.Valid() && conn.fd == old(conn.fd)
    ensures sock.incoming == old(sock.incoming) && sock.received == old(sock.received)
    ensures match EchoStep(old(conn.Pending()))
      case Wait =>
        && !more && conn.state == STATE_REQ && conn.wbufSize == 0 && conn.wbufSent == 0
        && conn.Pending() == old(conn.Pending())
        && sock.sent == old(sock.sent) && sock.outgoing == old(sock.outgoing)
      case Close =>
        && !more && conn.state == STATE_DONE && conn.wbufSize == 0 && conn.wbufSent == 0
        && conn.Pending() == old(conn.Pending())
        && sock.sent == old(sock.sent) && sock.outgoing == old(sock.outgoing)
      case Echo(frame) =>
        var (e, w, rest) := Flush(old(sock.outgoing), |frame|);
        && conn.Pending() == old(conn.Pending())[|frame|..]
        && sock.outgoing == rest && sock.sent == old(sock.sent) + frame[..w]
        && (more <==> e == Flushed)
        && (e == Flushed ==> conn.state == STATE_REQ && conn.wbufSize == 0 && conn.wbufSent == 0)
        && (e == Blocked ==> conn.state == STATE_RESP)
        && (e == Broken ==> conn.state == STATE_DONE)
        && (e != Flushed ==> conn.Unsent() == frame[w..])
  {
    ghost var pending := conn.Pending();
    if conn.rbufSize < 4 {
      return false;
    }
    assert conn.rbuf[0..4] == pending[0..4];
    var len := U32(conn.rbuf[0..4]);
    if len > MAX_MSG {
      conn.state := STATE_DONE;
      return false;
    }
    if 4 + len > conn.rbufSize {
      return false;
    }
    ghost var frame := pending[..4 + len];
    MoveFrame(conn, len);
    assert EchoStep(pending) == Echo(frame);
    more := SendResponse(conn, sock, frame);
  }

  /** `tryOneRequest` exactly as the echo server writes it: the flush starts
      with the connection still in STATE_REQ, so a write that would block
      leaves it in STATE_REQ with part of the frame unsent, and the call
      reports true, as if the frame had gone out. */
  method TryOneRequestAsWritten(conn: Conn, sock: Socket) returns (more: bool)
    requires conn.Valid() && conn.state == STATE_REQ && conn.wbufSize == 0 && conn.wbufSent == 0
    modifies conn, conn.rbuf, conn.wbuf, sock
    ensures conn.Valid() && conn.fd == old(conn.fd)
    ensures sock.incoming == old(sock.incoming) && sock.received == old(sock.received)
    ensures match EchoStep(old(conn.Pending()))
      case Wait =>
        && !more && conn.state == STATE_REQ && conn.wbufSize == 0 && conn.wbufSent == 0
        && conn.Pending() == old(conn.Pending())
        && sock.sent == old(sock.sent) && sock.outgoing == old(sock.outgoing)
      case Close =>
        && !more && conn.state == STATE_DONE && conn.wbufSize == 0 && conn.wbufSent == 0
        && conn.Pending() == old(conn.Pending())
        && sock.sent == old(sock.sent) && sock.outgoing == old(sock.outgoing)
      case Echo(frame) =>
        var (e, w, rest) := Flush(old(sock.outgoing), |frame|);
        && conn.Pending() == old(conn.Pending())[|frame|..]
        && sock.outgoing == rest && sock.sent == old(sock.sent) + frame[..w]
        && (more <==> e != Broken)
        && (e == Flushed ==> conn.state == STATE_REQ && conn.wbufSize == 0 && conn.wbufSent == 0)
        && (e == Blocked ==> conn.state == STATE_REQ && conn.wbufSent == w && conn.Unsent() == frame[w..])
        && (e == Broken ==> conn.state == STATE_DONE)
  {
    ghost var pending := conn.Pending();
    if conn.rbufSize < 4 {
      return false;
    }
    assert conn.rbuf[0..4] == pending[0..4];
    var len := U32(conn.rbuf[0..4]);
    if len > MAX_MSG {
      conn.state := STATE_DONE;
      return false;
    }
    if 4 + len > conn.rbufSize {
      return false;
    }
    ghost var frame := pending[..4 + len];
    MoveFrame(conn, len);
    assert EchoStep(pending) == Echo(frame);
    more := SendInPlace(conn, sock, frame);
  }

  /** The flush of the echo `tryOneRequest` as written: the connection stays
      in STATE_REQ while it flushes, so a partial write leaves it reading
      with the write cursor where the write stopped. */
  method SendInPlace(conn: Conn, sock: Socket, ghost frame: Bytes) returns (more: bool)
    requires conn.Valid() && conn.state == STATE_REQ && conn.wbufSent == 0 && conn.Unsent() == frame
    modifies conn, sock
    ensures conn.Valid() && conn.fd == old(conn.fd) && conn.Pending() == old(conn.Pending())
    ensures sock.incoming == old(sock.incoming) && sock.received == old(sock.received)
    ensures var (e, w, rest) := Flush(old(sock.outgoing), |frame|);
      && sock.outgoing == rest && sock.sent == old(sock.sent) + frame[..w]
      && (more <==> e != Broken)
      && (e == Flushed ==> conn.state == STATE_REQ && conn.wbufSize == 0 && conn.wbufSent == 0)
      && (e == Blocked ==> conn.state == STATE_REQ && conn.wbufSent == w && conn.Unsent() == frame[w..])
      && (e == Broken ==> conn.state == STATE_DONE)
  {
    StateResponse(conn, sock);
    more := conn.state == STATE_REQ;
  }

  /** The frame of the one-byte text "a" is echoed whole. */
  lemma OneByteFrame()
    ensures EchoStep([1, 0, 0, 0, 97]) == Echo([1, 0, 0, 0, 97])
  {
    assert U32([1, 0, 0, 0]) == 1 by {
      assert FromLittleEndian([1, 0, 0, 0]) == 1 + 256 * FromLittleEndian([0, 0, 0]);
    }
    assert [1, 0, 0, 0, 97][0..4] == [1, 0, 0, 0];
  }

  /** A write that takes two of five bytes, then a write that would block. */
  lemma PartialThenBlocked()
    ensures Flush([Accept(2)], 5) == (Blocked, 2, [])
  {
    assert NextWrite([Accept(2)], 5) == (Accept(2), []);
    assert NextWrite([], 3) == (WriteAgain, []);
    assert Flush([], 3) == (Blocked, 0, []);
  }

  /** A five-byte frame (length 1, body 'a') whose reply meets a write that
      takes two bytes and then a write that would block: as written, the
      call reports true and leaves the connection reading with the send
      cursor at 2 of 5, so the drain loop goes on to copy the next frame
      over the three bytes still owed. */
  method StaleCursorAfterPartialWrite() returns (more: bool, state: nat, sent: nat, size: nat)
    ensures more && state == STATE_REQ && sent == 2 && size == 5
  {
    var conn := new Conn();
    Memcpy(conn.rbuf, 0, [1, 0, 0, 0, 97]);
    conn.rbufSize := 5;
    assert conn.Pending() == [1, 0, 0, 0, 97];
    OneByteFrame();
    var sock := new Socket([], [Accept(2)]);
    PartialThenBlocked();
    more := TryOneRequestAsWritten(conn, sock);
    state, sent, size := conn.state, conn.wbufSent, conn.wbufSize;
  }

  /** One round of the drain loop: one `tryOneRequest`, which either leaves
      the connection reading with the bytes it wrote in front of the rest
      of the drain, or ends the drain where EchoDrain says. */
  method DrainOnce(conn: Conn, sock: Socket) returns (more: bool, ghost wrote: Bytes)
    requires conn.Valid() && conn.state == STATE_REQ && conn.wbufSize == 0 && conn.wbufSent == 0
    modifies conn, conn.rbuf, conn.wbuf, sock
    ensures conn.Valid() && conn.fd == old(conn.fd)
    ensures sock.incoming == old(sock.incoming) && sock.received == old(sock.received)
    ensures |conn.Pending()| <= old(|conn.Pending()|)
    ensures more ==> |conn.Pending()| < old(|conn.Pending()|)
    ensures more ==>
      && conn.state == STATE_REQ && conn.wbufSize == 0 && conn.wbufSent == 0
      && sock.sent == old(sock.sent) + wrote
      && var d := EchoDrain(conn.Pending(), sock.outgoing);
         EchoDrain(old(conn.Pending()), old(sock.outgoing)) == d.(sent := wrote + d.sent)
    ensures !more ==> EchoReached(conn, sock, EchoDrain(old(conn.Pending()), old(sock.outgoing)), old(sock.sent))
  {
    ghost var k := EchoStep(conn.Pending());
    ghost var out := sock.outgoing;
    more := TryOneRequest(conn, sock);
    wrote := [];
    match k
    case Wait =>
    case Close =>
    case Echo(frame) =>
      var (e, w, rest) := Flush(out, |frame|);
      if e == Flushed {
        assert frame[..w] == frame;
        wrote := frame;
      }
  }

  /** The drain loop of the echo `tryFillRbuf`: its outcome is exactly EchoDrain. */
  method DrainRequests(conn: Conn, sock: Socket)
    requires conn.Valid() && conn.state == STATE_REQ && conn.wbufSize == 0 && conn.wbufSent == 0
    modifies conn, conn.rbuf, conn.wbuf, sock
    ensures conn.fd == old(conn.fd)
    ensures sock.incoming == old(sock.incoming) && sock.received == old(sock.received)
    ensures EchoReached(conn, sock, EchoDrain(old(conn.Pending()), old(sock.outgoing)), old(sock.sent))
  {
    ghost var total := EchoDrain(conn.Pending(), sock.outgoing);
    ghost var done: Bytes := [];
    assert total == total.(sent := done + total.sent);
    var more := true;
    while more
      invariant conn.Valid() && conn.fd == old(conn.fd)
      invariant sock.incoming == old(sock.incoming) && sock.received == old(sock.received)
      invariant more ==> conn.state == STATE_REQ && conn.wbufSize == 0 && conn.wbufSent == 0
      invariant more ==> sock.sent == old(sock.sent) + done
      invariant more ==> var d := EchoDrain(conn.Pending(), sock.outgoing);
        total == d.(sent := done + d.sent)
      invariant !more ==> EchoReached(conn, sock, total, old(sock.sent))
      decreases |conn.Pending()| + (if more then 1 else 0)
    {
      ghost var d := EchoDrain(conn.Pending(), sock.outgoing);
      ghost var wrote;
      more, wrote := DrainOnce(conn, sock);
      if more {
        ghost var d' := EchoDrain(conn.Pending(), sock.outgoing);
        ConcatAssoc(done, wrote, d'.sent);
        ConcatAssoc(old(sock.sent), done, wrote);
        done := done + wrote;
      } else {
        EchoReachedAfter(conn, sock, d, old(sock.sent), done);
      }
    }
  }

  /** The echo `tryFillRbuf`: one read into the free end of the read
      buffer, then the drain loop. Would-block changes nothing; a read
      error or end of stream ends the connection whatever is buffered;
      delivered bytes are drained exactly as EchoDrain says. It reports
      whether the connection is still reading. */
  method TryFillRbuf(conn: Conn, sock: Socket) returns (more: bool)
    requires conn.Resting() && conn.state == STATE_REQ
    modifies conn, conn.rbuf, conn.wbuf, sock
    ensures conn.Resting() && conn.fd == old(conn.fd)
    ensures var (step, rest) := NextRead(old(sock.incoming), BUF_CAP - old(conn.rbufSize));
      && sock.incoming == rest
      && sock.received == old(sock.received) + (if step.Deliver? then step.data else [])
      && (step.Deliver? && step.data != [] ==>
            var s := EchoDrain(old(conn.Pending()) + step.data, old(sock.outgoing));
            EchoReached(conn, sock, s, old(sock.sent)) && (more <==> s.state == STATE_REQ))
      && (!step.Deliver? || step.data == [] ==>
            var s := Echoed(if step.ReadAgain? then STATE_REQ else STATE_DONE,
                            old(conn.Pending()), [], old(sock.outgoing), []);
            EchoReached(conn, sock, s, old(sock.sent)) && !more)
  {
    var step := ReadIntoRbuf(conn, sock);
    if step.ReadAgain? {
      return false;
    }
    if step.ReadError? || step.data == [] {
      conn.state := STATE_DONE;
      return false;
    }
    more := ServeBuffered(conn, sock);
  }

  /** The rest of `tryFillRbuf` after a read that delivered bytes: echo
      every complete frame in the read buffer, and go on reading exactly
      when that left the connection reading. */
  method ServeBuffered(conn: Conn, sock: Socket) returns (more: bool)
    requires conn.Valid() && conn.state == STATE_REQ && conn.wbufSize == 0 && conn.wbufSent == 0
    modifies conn, conn.rbuf, conn.wbuf, sock
    ensures conn.Resting() && conn.fd == old(conn.fd)
    ensures sock.incoming == old(sock.incoming) && sock.received == old(sock.received)
    ensures var s := EchoDrain(old(conn.Pending()), old(sock.outgoing));
      EchoReached(conn, sock, s, old(sock.sent)) && (more <==> s.state == STATE_REQ)
  {
    EchoDrainFits(conn.Pending(), sock.outgoing);
    DrainRequests(conn, sock);
    more := conn.state == STATE_REQ;
  }

  /** One round of the echo `stateRequest` loop: one `tryFillRbuf`, which
      either leaves the connection reading with what it wrote and read in
      front of the rest of EchoServeReads, or ends the loop where
      EchoServeReads says. */
  method ReadOnce(conn: Conn, sock: Socket) returns (more: bool, ghost wrote: Bytes, ghost got: Bytes)
    requires conn.Resting() && conn.state == STATE_REQ
    modifies conn, conn.rbuf, conn.wbuf, sock
    ensures conn.Resting() && conn.fd == old(conn.fd)
    ensures ReadFuel(sock.incoming) <= old(ReadFuel(sock.incoming))
    ensures more ==> ReadFuel(sock.incoming) < old(ReadFuel(sock.incoming))
    ensures more ==>
      && conn.state == STATE_REQ
      && sock.sent == old(sock.sent) + wrote && sock.received == old(sock.received) + got
      && var (s, rest, g) := EchoServeReads(conn.Pending(), sock.incoming, sock.outgoing);
         EchoServeReads(old(conn.Pending()), old(sock.incoming), old(sock.outgoing))
           == (s.(sent := wrote + s.sent), rest, got + g)
    ensures !more ==>
      var (s, rest, g) := EchoServeReads(old(conn.Pending()), old(sock.incoming), old(sock.outgoing));
      && EchoReached(conn, sock, s, old(sock.sent))
      && sock.incoming == rest && sock.received == old(sock.received) + g
  {
    ghost var inc := sock.incoming;
    ghost var pending := conn.Pending();
    ghost var out := sock.outgoing;
    if inc != [] {
      NextReadFuel(inc, BUF_CAP - conn.rbufSize);
    }
    more := TryFillRbuf(conn, sock);
    wrote, got := [], [];
    var (step, rest) := NextRead(inc, BUF_CAP - |pending|);
    if step.Deliver? && step.data != [] {
      var s := EchoDrain(pending + step.data, out);
      EchoDrainFits(pending + step.data, out);
      if more {
        wrote, got := s.sent, step.data;
      }
    }
  }

  /** The echo `stateRequest`: fill and drain until a read would block,
      the stream ends, or a frame is held up; the outcome is EchoServeReads. */
  method StateRequest(conn: Conn, sock: Socket)
    requires conn.Resting() && conn.state == STATE_REQ
    modifies conn, conn.rbuf, conn.wbuf, sock
    ensures conn.Resting() && conn.fd == old(conn.fd)
    ensures var (s, rest, got) := EchoServeReads(old(conn.Pending()), old(sock.incoming), old(sock.outgoing));
      && EchoReached(conn, sock, s, old(sock.sent))
      && sock.incoming == rest && sock.received == old(sock.received) + got
  {
    ghost var total := EchoServeReads(conn.Pending(), sock.incoming, sock.outgoing);
    ghost var doneSent: Bytes := [];
    ghost var doneGot: Bytes := [];
    assert doneSent + total.0.sent == total.0.sent && doneGot + total.2 == total.2;
    assert total == (total.0.(sent := doneSent + total.0.sent), total.1, doneGot + total.2);
    var more := true;
    while more
      invariant conn.Resting() && conn.fd == old(conn.fd)
      invariant more ==> conn.state == STATE_REQ
      invariant more ==> sock.sent == old(sock.sent) + doneSent
      invariant more ==> sock.received == old(sock.received) + doneGot
      invariant more ==> var (s, rest, got) := EchoServeReads(conn.Pending(), sock.incoming, sock.outgoing);
        total == (s.(sent := doneSent + s.sent), rest, doneGot + got)
      invariant !more ==> var (s, rest, got) := total;
        && EchoReached(conn, sock, s, old(sock.sent))
        && sock.incoming == rest && sock.received == old(sock.received) + got
      decreases ReadFuel(sock.incoming) + (if more then 1 else 0)
    {
      ghost var r := EchoServeReads(conn.Pending(), sock.incoming, sock.outgoing);
      ghost var wrote, got;
      more, wrote, got := ReadOnce(conn, sock);
      if more {
        ghost var r' := EchoServeReads(conn.Pending(), sock.incoming, sock.outgoing);
        ConcatAssoc(doneSent, wrote, r'.0.sent);
        ConcatAssoc(doneGot, got, r'.2);
        ConcatAssoc(old(sock.sent), doneSent, wrote);
        ConcatAssoc(old(sock.received), doneGot, got);
        doneSent, doneGot := doneSent + wrote, doneGot + got;
      } else {
        EchoReachedAfter(conn, sock, r.0, old(sock.sent), doneSent);
        ConcatAssoc(old(sock.received), doneGot, r.2);
      }
    }
  }

  /** The echo `connectionIO`: a reading connection reads, a sending one
      flushes; the source asserts that no other state reaches it. */
  method ConnectionIO(conn: Conn, sock: Socket)
    requires conn.Resting() && (conn.state == STATE_REQ || conn.state == STATE_RESP)
    modifies conn, conn.rbuf, conn.wbuf, sock
    ensures conn.Resting() && conn.fd == old(conn.fd)
    ensures old(conn.state) == STATE_REQ ==>
      var (s, rest, got) := EchoServeReads(old(conn.Pending()), old(sock.incoming), old(sock.outgoing));
      && EchoReached(conn, sock, s, old(sock.sent))
      && sock.incoming == rest && sock.received == old(sock.received) + got
    ensures old(conn.state) == STATE_RESP ==>
      var (e, w, rest) := Flush(old(sock.outgoing), old(conn.wbufSize - conn.wbufSent));
      var s := Echoed(if e == Flushed then STATE_REQ else if e == Blocked then STATE_RESP else STATE_DONE,
                      old(conn.Pending()), old(conn.Unsent())[..w], rest,
                      if e == Flushed then [] else old(conn.Unsent())[w..]);
      && EchoReached(conn, sock, s, old(sock.sent))
      && sock.incoming == old(sock.incoming) && sock.received == old(sock.received)
  {
    if conn.state == STATE_REQ {
      StateRequest(conn, sock);
    } else {
      ghost var unsent := conn.Unsent();
      StateResponse(conn, sock);
      assert conn.Valid() && conn.state != STATE_REQ ==> conn.Unsent() == unsent[conn.wbufSent - old(conn.wbufSent)..];
    }
  }

  // ------------------------------------------------------------------
  // The connection table

  /** The echo `acceptNewConn`, with the outcome of `accept` (a descriptor,
      or a negative number on failure) as input: a failure leaves the table
      as it was; otherwise a connection in its initial state is filed under
      its descriptor by the growing ConnPut. */
  method AcceptNewConn(reg: Registry, connfd: int) returns (r: int, conn: Conn?)
    modifies reg
    ensures connfd < 0 ==> r == -1 && conn == null && reg.slots == old(reg.slots)
    ensures connfd >= 0 ==>
      && r == 0 && conn != null && fresh(conn) && conn.Resting()
      && conn.fd == connfd && conn.state == STATE_REQ
      && conn.rbufSize == 0 && conn.wbufSize == 0 && conn.wbufSent == 0
      && |reg.slots| == (if connfd < |old(reg.slots)| then |old(reg.slots)| else connfd + 1)
      && reg.slots[connfd] == conn
      && (forall i :: 0 <= i < |reg.slots| && i != connfd ==>
            reg.slots[i] == if i < |old(reg.slots)| then old(reg.slots)[i] else null)
    ensures old(reg.Indexed()) ==> reg.Indexed()
  {
    if connfd < 0 {
      return -1, null;
    }
    conn := new Conn();
    conn.fd := connfd;
    conn.state := STATE_REQ;
    conn.rbufSize := 0;
    conn.wbufSize := 0;
    conn.wbufSent := 0;
    ConnPut(reg, conn);
    r := 0;
  }
}
