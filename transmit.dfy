/** What both servers share word for word: the read into the free end of
    the read buffer, `tryFlushWbuf` and `stateResponse`, which send the
    queued response of a connection, and the memmove that drops a consumed
    request from the read buffer. */
module Transmit {
  import opened Bytes
  import opened Sockets
  import opened ServerHeader
  import opened Buffers

  /** How a flush of the write buffer ends. */
  datatype FlushEnd = Flushed | Blocked | Broken

  /** What writing count unsent bytes against a write script comes to: how it
      ends, how many bytes went out, and what is left of the script. Writing
      goes on while each write takes some but not all of what is left. */
  function Flush(script: seq<WriteStep>, count: nat): (r: (FlushEnd, nat, seq<WriteStep>))
    ensures r.1 <= count
    ensures r.0 == Flushed ==> r.1 == count
    ensures count > 0 && r.1 == count ==> r.0 == Flushed
    decreases |script|
  {
    var (step, rest) := NextWrite(script, count);
    match step
    case WriteAgain => (Blocked, 0, rest)
    case WriteError => (Broken, 0, rest)
    case Accept(k) =>
      if k == count then (Flushed, k, rest)
      else
        var (e, n, r) := Flush(rest, count - k);
        (e, k + n, r)
  }

  /** A write script that takes every response, up to a full buffer, in one write. */
  function Accepts(n: nat): seq<WriteStep>
  {
    seq(n, _ => Accept(BUF_CAP))
  }

  /** The first of n such writes, then the other n - 1. */
  lemma AcceptsFront(n: nat, out: seq<WriteStep>)
    requires n > 0
    ensures Accepts(n) + out == [Accept(BUF_CAP)] + (Accepts(n - 1) + out)
  {
    assert Accepts(n) == [Accept(BUF_CAP)] + Accepts(n - 1);
  }

  /** A write with room for all of a non-empty buffer flushes it at once. */
  lemma FlushWhole(room: nat, count: nat, out: seq<WriteStep>)
    requires 0 < count <= room
    ensures Flush([Accept(room)] + out, count) == (Flushed, count, out)
  {
    assert ([Accept(room)] + out)[1..] == out;
  }

  lemma PrefixConcat(u: Bytes, a: nat, b: nat)
    requires a <= b <= |u|
    ensures u[..a] + u[a..][..b - a] == u[..b]
  {
  }

  /** The read of `tryFillRbuf`: at most the free room of the read buffer is
      read into its free end, and what a read delivers joins the unread
      bytes (the `rbufSize += rv` that follows a successful read). */
  method ReadIntoRbuf(conn: Conn, sock: Socket) returns (step: ReadStep)
    requires conn.Valid() && conn.rbufSize < BUF_CAP
    modifies conn, conn.rbuf, sock
    ensures conn.Valid() && conn.fd == old(conn.fd) && conn.state == old(conn.state)
    ensures conn.wbufSize == old(conn.wbufSize) && conn.wbufSent == old(conn.wbufSent)
    ensures (step, sock.incoming) == NextRead(old(sock.incoming), BUF_CAP - old(conn.rbufSize))
    ensures sock.received == old(sock.received) + (if step.Deliver? then step.data else [])
    ensures sock.outgoing == old(sock.outgoing) && sock.sent == old(sock.sent)
    ensures conn.Pending() == old(conn.Pending()) + (if step.Deliver? then step.data else [])
  {
    ghost var pending := conn.Pending();
    var cap := BUF_CAP - conn.rbufSize;
    step := sock.Read(conn.rbuf, conn.rbufSize, cap);
    if step.Deliver? {
      conn.rbufSize := conn.rbufSize + |step.data|;
      assert conn.rbuf[..conn.rbufSize] == conn.rbuf[..|pending|] + conn.rbuf[|pending|..conn.rbufSize];
    } else {
      assert pending + [] == pending;
    }
  }

  /** `tryFlushWbuf`: one write of the unsent bytes. A full write resets both
      counters and returns to reading; a partial one advances the cursor and
      asks to write again; would-block changes nothing; a failure ends the
      connection. */
  method TryFlushWbuf(conn: Conn, sock: Socket) returns (more: bool)
    requires conn.Valid()
    modifies conn, sock
    ensures conn.Valid()
    ensures conn.fd == old(conn.fd) && conn.rbufSize == old(conn.rbufSize)
    ensures sock.incoming == old(sock.incoming) && sock.received == old(sock.received)
    ensures var (step, rest) := NextWrite(old(sock.outgoing), old(conn.wbufSize - conn.wbufSent));
      var w := if step.Accept? then step.room else 0;
      && sock.outgoing == rest
      && sock.sent == old(sock.sent) + old(conn.Unsent())[..w]
      && (more <==> step.Accept? && w < old(conn.wbufSize - conn.wbufSent))
      && (step.Accept? && !more ==>
            conn.state == STATE_REQ && conn.wbufSize == 0 && conn.wbufSent == 0)
      && (step.WriteError? ==> conn.state == STATE_DONE)
      && (!step.Accept? || more ==>
            && (step.WriteAgain? || more ==> conn.state == old(conn.state))
            && conn.wbufSize == old(conn.wbufSize)
            && conn.wbufSent == old(conn.wbufSent) + w)
  {
    var remain := conn.wbufSize - conn.wbufSent;
    var step := sock.Write(conn.wbuf, conn.wbufSent, remain);
    assert step.Accept? ==> conn.Unsent()[..step.room] == conn.wbuf[conn.wbufSent..conn.wbufSent + step.room];
    if step.WriteAgain? {
      return false;
    }
    if step.WriteError? {
      conn.state := STATE_DONE;
      return false;
    }
    conn.wbufSent := conn.wbufSent + step.room;
    if conn.wbufSent == conn.wbufSize {
      conn.state := STATE_REQ;
      conn.wbufSent := 0;
      conn.wbufSize := 0;
      return false;
    }
    return true;
  }

  /** The count of bytes already written in front of what the rest of a
      Flush writes. */
  function Advanced(done: nat, f: (FlushEnd, nat, seq<WriteStep>)): (FlushEnd, nat, seq<WriteStep>)
  {
    (f.0, done + f.1, f.2)
  }

  /** `stateResponse` still writing: the connection is as the loop found it
      but for the cursor, and the bytes written so far are the front of the
      unsent ones, in front of the Flush of the rest. */
  ghost predicate Flushing(conn: Conn, sock: Socket, unsent: Bytes, st: nat, size: nat, sent0: nat,
                           before: Bytes, total: (FlushEnd, nat, seq<WriteStep>))
    reads conn, conn.wbuf, sock
  {
    && conn.Valid() && conn.state == st && conn.wbufSize == size
    && sent0 <= conn.wbufSent && |unsent| == size - sent0
    && conn.Unsent() == unsent[conn.wbufSent - sent0..]
    && sock.sent == before + unsent[..conn.wbufSent - sent0]
    && total == Advanced(conn.wbufSent - sent0, Flush(sock.outgoing, conn.wbufSize - conn.wbufSent))
  }

  /** `stateResponse` done: the connection and the socket are where the
      Flush of the whole unsent response says. */
  ghost predicate FlushEnded(conn: Conn, sock: Socket, unsent: Bytes, st: nat, size: nat, sent0: nat,
                          before: Bytes, total: (FlushEnd, nat, seq<WriteStep>))
    reads conn, conn.wbuf, sock
  {
    var (e, w, rest) := total;
    && conn.Valid() && w <= |unsent|
    && sock.outgoing == rest
    && sock.sent == before + unsent[..w]
    && (e == Flushed ==> conn.state == STATE_REQ && conn.wbufSize == 0 && conn.wbufSent == 0)
    && (e == Blocked ==> conn.state == st)
    && (e == Broken ==> conn.state == STATE_DONE)
    && (e != Flushed ==> conn.wbufSize == size && conn.wbufSent == sent0 + w)
    && (e != Flushed ==> conn.Unsent() == unsent[w..])
  }

  /** One pass of the `stateResponse` loop: one `tryFlushWbuf`, after which
      the loop either goes on writing or has ended where Flush says. */
  method FlushPass(conn: Conn, sock: Socket, ghost unsent: Bytes, ghost st: nat, ghost size: nat,
                   ghost sent0: nat, ghost before: Bytes, ghost total: (FlushEnd, nat, seq<WriteStep>))
    returns (more: bool)
    requires Flushing(conn, sock, unsent, st, size, sent0, before, total)
    modifies conn, sock
    ensures conn.Valid()
    ensures conn.fd == old(conn.fd) && conn.rbufSize == old(conn.rbufSize)
    ensures sock.incoming == old(sock.incoming) && sock.received == old(sock.received)
    ensures more ==> Flushing(conn, sock, unsent, st, size, sent0, before, total)
    ensures |sock.outgoing| <= old(|sock.outgoing|)
    ensures more ==> |sock.outgoing| < old(|sock.outgoing|)
    ensures !more ==> FlushEnded(conn, sock, unsent, st, size, sent0, before, total)
  {
    ghost var done := conn.wbufSent - sent0;
    ghost var sentBefore := sock.sent;
    more := TryFlushWbuf(conn, sock);
    PrefixConcat(unsent, done, done + (|sock.sent| - |sentBefore|));
  }

  /** `stateResponse`: write until the buffer is empty, a write would block,
      or a write fails; the outcome is exactly that of Flush. */
  method StateResponse(conn: Conn, sock: Socket)
    requires conn.Valid()
    modifies conn, sock
    ensures conn.Valid()
    ensures conn.fd == old(conn.fd) && conn.rbufSize == old(conn.rbufSize)
    ensures sock.incoming == old(sock.incoming) && sock.received == old(sock.received)
    ensures var (e, w, rest) := Flush(old(sock.outgoing), old(conn.wbufSize - conn.wbufSent));
      && sock.outgoing == rest
      && sock.sent == old(sock.sent) + old(conn.Unsent())[..w]
      && (e == Flushed ==> conn.state == STATE_REQ && conn.wbufSize == 0 && conn.wbufSent == 0)
      && (e == Blocked ==> conn.state == old(conn.state))
      && (e == Broken ==> conn.state == STATE_DONE)
      && (e != Flushed ==> conn.wbufSize == old(conn.wbufSize) && conn.wbufSent == old(conn.wbufSent) + w)
      && (e != Flushed ==> conn.Unsent() == old(conn.Unsent())[w..])
  {
    ghost var unsent := conn.Unsent();
    ghost var st, size, sent0, before := conn.state, conn.wbufSize, conn.wbufSent, sock.sent;
    ghost var total := Flush(sock.outgoing, |unsent|);
    assert unsent[0..] == unsent && before + unsent[..0] == before;
    var more := true;
    while more
      invariant conn.Valid()
      invariant conn.fd == old(conn.fd) && conn.rbufSize == old(conn.rbufSize)
      invariant sock.incoming == old(sock.incoming) && sock.received == old(sock.received)
      invariant more ==> Flushing(conn, sock, unsent, st, size, sent0, before, total)
      invariant !more ==> FlushEnded(conn, sock, unsent, st, size, sent0, before, total)
      decreases |sock.outgoing| + (if more then 1 else 0)
    {
      more := FlushPass(conn, sock, unsent, st, size, sent0, before, total);
    }
  }

  /** Removing the used bytes of a request: what follows them moves to the
      front of the read buffer, in order. */
  method ConsumeRequest(conn: Conn, used: nat)
    requires conn.Valid() && used <= conn.rbufSize
    modifies conn, conn.rbuf
    ensures conn.Valid() && conn.Pending() == old(conn.Pending())[used..]
    ensures conn.fd == old(conn.fd) && conn.state == old(conn.state)
    ensures conn.wbufSize == old(conn.wbufSize) && conn.wbufSent == old(conn.wbufSent)
  {
    var remain := conn.rbufSize - used;
    if remain > 0 {
      Memmove(conn.rbuf, used, remain);
    }
    conn.rbufSize := remain;
  }

  /** The flush at the end of `tryOneRequest`: with the frame queued, the
      connection turns to sending and writes as Flush says; it reports
      whether the frame went out in full. */
  method SendResponse(conn: Conn, sock: Socket, ghost frame: Bytes) returns (more: bool)
    requires conn.Valid() && conn.wbufSent == 0 && conn.Unsent() == frame
    modifies conn, sock
    ensures conn.Valid() && conn.fd == old(conn.fd) && conn.Pending() == old(conn.Pending())
    ensures sock.incoming == old(sock.incoming) && sock.received == old(sock.received)
    ensures var (e, w, rest) := Flush(old(sock.outgoing), |frame|);
      && sock.outgoing == rest && sock.sent == old(sock.sent) + frame[..w]
      && (more <==> e == Flushed)
      && (e == Flushed ==> conn.state == STATE_REQ && conn.wbufSize == 0 && conn.wbufSent == 0)
      && (e == Blocked ==> conn.state == STATE_RESP)
      && (e == Broken ==> conn.state == STATE_DONE)
      && (e != Flushed ==> conn.Unsent() == frame[w..])
  {
    conn.state := STATE_RESP;
    StateResponse(conn, sock);
    more := conn.state == STATE_REQ;
  }
}
