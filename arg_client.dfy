/** The argument-list client of `Client.cpp`: `sendRequest` frames a command
    as a request and writes it; `readRequest` reads one response back and
    takes its status code and payload apart. */
module ArgClient {
  import opened Bytes
  import opened Wrappers
  import opened Wire
  import opened Sockets
  import opened Buffers
  import opened BlockingIo
  import opened Commands
  import opened Transmit
  import opened ServerHeader
  import opened KvServer

  // ------------------------------------------------------------------
  // The length sum as written

  /** The body length summed in a `uint32_t`, as `sendRequest` does it:
      start from acc and add `4 + s.size()` for each argument, wrapping at 2^32. */
  function WrappedSum(acc: nat, cmd: seq<Bytes>): nat
    decreases |cmd|
  {
    if cmd == [] then acc
    else WrappedSum((acc + 4 + |cmd[0]|) % U32_LIMIT, cmd[1..])
  }

  /** `len` after the summing loop of `sendRequest`. */
  function WrappedBodyLen(cmd: seq<Bytes>): nat
  {
    WrappedSum(4, cmd)
  }

  /** The wrapping sum is the true sum taken modulo 2^32. */
  lemma {:induction false} WrappedSumIsModulo(acc: nat, cmd: seq<Bytes>)
    requires acc < U32_LIMIT
    ensures WrappedSum(acc, cmd) == (acc + ArgsSize(cmd)) % U32_LIMIT
    decreases |cmd|
  {
    if cmd != [] {
      var acc' := (acc + 4 + |cmd[0]|) % U32_LIMIT;
      WrappedSumIsModulo(acc', cmd[1..]);
      ModuloOfSum(acc + 4 + |cmd[0]|, ArgsSize(cmd[1..]));
    }
  }

  lemma ModuloOfSum(a: nat, b: nat)
    ensures ((a % U32_LIMIT) + b) % U32_LIMIT == (a + b) % U32_LIMIT
  {
  }

  /** `len` as written is the body length modulo 2^32, so it agrees with the
      body length exactly when that fits in 32 bits. */
  lemma WrappedBodyLenIsModulo(cmd: seq<Bytes>)
    ensures WrappedBodyLen(cmd) == BodyLen(cmd) % U32_LIMIT
    ensures BodyLen(cmd) < U32_LIMIT ==> WrappedBodyLen(cmd) == BodyLen(cmd)
  {
    WrappedSumIsModulo(4, cmd);
  }

  /** One argument of 2^32 - 8 bytes makes a body of 2^32 bytes, which the
      wrapping sum counts as 0: the 4096-byte check lets it through, and
      the copy loop would then write far past the 4100-byte `wbuf`. */
  lemma WrapBypassesLimit()
    ensures var cmd := [seq(U32_LIMIT - 8, _ => 0)];
      && BodyLen(cmd) == U32_LIMIT && BodyLen(cmd) > MAX_MSG
      && WrappedBodyLen(cmd) == 0 && WrappedBodyLen(cmd) <= MAX_MSG
  {
    var cmd: seq<Bytes> := [seq(U32_LIMIT - 8, _ => 0)];
    assert cmd[1..] == [];
    assert ArgsSize(cmd) == 4 + (U32_LIMIT - 8);
    assert WrappedSum(4, cmd) == WrappedSum(U32_LIMIT % U32_LIMIT, []);
  }

  // ------------------------------------------------------------------
  // Sending

  /** Adding one argument at the end appends its length field and its bytes. */
  lemma {:induction false} EncodeArgsSnoc(args: seq<Bytes>, s: Bytes)
    requires ArgsSize(args + [s]) < U32_LIMIT
    ensures ArgsSize(args + [s]) == ArgsSize(args) + 4 + |s|
    ensures EncodeArgs(args + [s]) == EncodeArgs(args) + LE32(|s|) + s
  {
    ArgsSizeSnoc(args, s);
    if args == [] {
      assert [s][1..] == [];
      assert EncodeArgs([s]) == LE32(|s|) + s + [];
    } else {
      assert (args + [s])[1..] == args[1..] + [s];
      ArgsSizeSnoc(args[1..], s);
      EncodeArgsSnoc(args[1..], s);
      var h := LE32(|args[0]|) + args[0];
      var t := EncodeArgs(args[1..]);
      var tail := LE32(|s|) + s;
      assert EncodeArgs(args + [s]) == h + EncodeArgs(args[1..] + [s]);
      ConcatAssoc(t, LE32(|s|), s);
      assert EncodeArgs(args[1..] + [s]) == t + tail;
      ConcatAssoc(h, t, tail);
      assert EncodeArgs(args) == h + t;
      ConcatAssoc(EncodeArgs(args), LE32(|s|), s);
    }
  }

  /** The summing loop of `sendRequest`, on unbounded integers. */
  method SumLengths(cmd: seq<Bytes>) returns (len: nat)
    ensures len == BodyLen(cmd)
  {
    len := 4;
    var i := 0;
    while i < |cmd|
      invariant 0 <= i <= |cmd|
      invariant len == 4 + ArgsSize(cmd[..i])
    {
      ArgsSizeSnoc(cmd[..i], cmd[i]);
      assert cmd[..i + 1] == cmd[..i] + [cmd[i]];
      len := len + 4 + |cmd[i]|;
      i := i + 1;
    }
    assert cmd[..|cmd|] == cmd;
  }

  /** Argument i joins the arguments before it: its length field and bytes
      add to the sizes and follow their encoding. */
  lemma ArgAppended(cmd: seq<Bytes>, i: nat, head: Bytes)
    requires i < |cmd| && ArgsSize(cmd[..i]) + ArgsSize(cmd[i..]) < U32_LIMIT
    ensures ArgsSize(cmd[i..]) == 4 + |cmd[i]| + ArgsSize(cmd[i + 1..])
    ensures ArgsSize(cmd[..i + 1]) == ArgsSize(cmd[..i]) + 4 + |cmd[i]|
    ensures head + EncodeArgs(cmd[..i + 1]) == head + EncodeArgs(cmd[..i]) + LE32(|cmd[i]|) + cmd[i]
  {
    var s := cmd[i];
    assert cmd[i..][1..] == cmd[i + 1..];
    assert cmd[..i + 1] == cmd[..i] + [s];
    ArgsSizeSnoc(cmd[..i], s);
    EncodeArgsSnoc(cmd[..i], s);
    var e := EncodeArgs(cmd[..i]);
    ConcatAssoc(head, e, LE32(|s|));
    ConcatAssoc(head, e + LE32(|s|), s);
  }

  /** One turn of the copying loop of `sendRequest`: argument i goes in at
      the cursor, its 4-byte length and then its bytes, so the buffer holds
      the arguments up to and including i. */
  method PutArg(wbuf: array<Byte>, cmd: seq<Bytes>, i: nat, cur: nat, ghost head: Bytes, ghost total: nat)
    returns (cur': nat)
    requires i < |cmd| && cur == |head| + ArgsSize(cmd[..i])
    requires cur + ArgsSize(cmd[i..]) == total <= wbuf.Length < U32_LIMIT
    requires wbuf[..cur] == head + EncodeArgs(cmd[..i])
    modifies wbuf
    ensures cur' + ArgsSize(cmd[i + 1..]) == total
    ensures cur' == |head| + ArgsSize(cmd[..i + 1])
    ensures wbuf[..cur'] == head + EncodeArgs(cmd[..i + 1])
  {
    var s := cmd[i];
    ArgAppended(cmd, i, head);
    Append(wbuf, cur, LE32(|s|));
    ghost var w1 := wbuf[..cur + 4];
    Append(wbuf, cur + 4, s);
    cur' := cur + 4 + |s|;
  }

  /** The copying part of `sendRequest`: the length, the argument count, and
      each argument's length and bytes at a moving cursor; the buffer then
      starts with the request frame of cmd. */
  method FillRequest(wbuf: array<Byte>, cmd: seq<Bytes>, len: nat)
    requires len == BodyLen(cmd) <= MAX_MSG && wbuf.Length == 4 + MAX_MSG
    modifies wbuf
    ensures wbuf[..4 + len] == RequestFrame(cmd)
  {
    ghost var head := LE32(len) + LE32(|cmd|);
    Memcpy(wbuf, 0, LE32(len));
    Memcpy(wbuf, 4, LE32(|cmd|));
    assert wbuf[..8] == head + EncodeArgs(cmd[..0]);
    var cur := 8;
    var i := 0;
    assert cmd[0..] == cmd;
    while i < |cmd|
      invariant 0 <= i <= |cmd|
      invariant cur + ArgsSize(cmd[i..]) == 4 + len
      invariant cur == |head| + ArgsSize(cmd[..i])
      invariant wbuf[..cur] == head + EncodeArgs(cmd[..i])
    {
      cur := PutArg(wbuf, cmd, i, cur, head, 4 + len);
      i := i + 1;
    }
    RequestFrameParts(cmd, len);
  }

  /** The request frame is the two header fields followed by the encoded
      arguments, all of them. */
  lemma RequestFrameParts(cmd: seq<Bytes>, len: nat)
    requires len == BodyLen(cmd) < U32_LIMIT
    ensures cmd[..|cmd|] == cmd
    ensures RequestFrame(cmd) == LE32(len) + LE32(|cmd|) + EncodeArgs(cmd)
  {
    assert cmd[..|cmd|] == cmd;
    ConcatAssoc(LE32(len), LE32(|cmd|), EncodeArgs(cmd));
  }

  /** `sendRequest(fd, cmd)`, with the body length summed without wrapping:
      a body over 4096 bytes is refused with -1 before anything is written;
      otherwise the request frame of cmd is handed to `write_all`, and the
      result is 0 exactly when all of it went out. */
  method SendRequest(sock: Socket, cmd: seq<Bytes>) returns (err: int)
    modifies sock
    ensures err == 0 || err == -1
    ensures sock.incoming == old(sock.incoming) && sock.received == old(sock.received)
    ensures BodyLen(cmd) > MAX_MSG ==>
      err == -1 && sock.outgoing == old(sock.outgoing) && sock.sent == old(sock.sent)
    ensures BodyLen(cmd) <= MAX_MSG ==>
      var frame := RequestFrame(cmd);
      var (ok, w, rest) := Scatter(old(sock.outgoing), |frame|);
      && (err == 0 <==> ok)
      && sock.outgoing == rest
      && sock.sent == old(sock.sent) + frame[..w]
  {
    var len := SumLengths(cmd);
    if len > MAX_MSG {
      return -1;
    }
    var wbuf := new Byte[4 + MAX_MSG];
    FillRequest(wbuf, cmd, len);
    ghost var frame := wbuf[..4 + len];
    err := WriteAll(sock, wbuf, 0, 4 + len);
    ghost var w := Scatter(old(sock.outgoing), 4 + len).1;
    assert wbuf[0..w] == frame[..w];
  }

  // ------------------------------------------------------------------
  // Receiving

  /** What `readRequest` makes of a read script: the status code and payload
      of the response when it succeeds (None when it returns -1), every byte
      it read, and what is left of the script. On top of the framed read, a
      body shorter than the 4-byte status is refused. */
  function ReceiveResponse(script: seq<ReadStep>): (r: (Option<(nat, Bytes)>, Bytes, seq<ReadStep>))
  {
    var (res, got, rest) := ReceiveFrame(script);
    if res.None? || |res.value| < 4 then (None, got, rest)
    else (Some((U32At(res.value, 0), res.value[4..])), got, rest)
  }

  /** A header announcing more than 4096 bytes ends the read after the
      header: nothing of the body is read. */
  lemma ReceiveTooLong(script: seq<ReadStep>)
    requires var (ok, head, _) := Gather(script, 4); ok && U32(head) > MAX_MSG
    ensures var r := ReceiveResponse(script);
      r.0 == None && |r.1| == 4 && r.2 == Gather(script, 4).2
  {
  }

  /** Whatever the client accepts is a well-formed response frame, read in
      full, and the status and payload it reports are those of that frame. */
  lemma ReceivedIsDecoded(script: seq<ReadStep>)
    requires ReceiveResponse(script).0.Some?
    ensures var (res, got, _) := ReceiveResponse(script);
      DecodeResponse(got) == res
  {
    var (res, got, _) := ReceiveFrame(script);
    ReceivedIsFrame(script);
    var b := res.value;
    assert got[0..4] == LE32(|b|);
    LE32RoundTrip(|b|);
    assert got[4..8] == b[0..4];
    assert got[8..] == b[4..];
  }

  /** A response frame that arrives in one delivery is read exactly, and its
      status and payload come back unchanged. */
  lemma ReceiveResponseFrame(code: nat, payload: Bytes, more: seq<ReadStep>)
    requires code < U32_LIMIT && 4 + |payload| <= MAX_MSG
    ensures ReceiveResponse([Deliver(ResponseFrame(code, payload))] + more)
      == (Some((code, payload)), ResponseFrame(code, payload), more)
  {
    var b := LE32(code) + payload;
    assert ResponseFrame(code, payload) == TextFrame(b);
    ReceiveWholeFrame(b, more);
    assert b[0..4] == LE32(code);
    LE32RoundTrip(code);
    assert b[4..] == payload;
  }

  /** `readRequest(fd)`: read one response and report its status code and
      payload (the values it prints); the result is 0 exactly when it did. */
  method ReadRequest(sock: Socket) returns (err: int, response: Option<(nat, Bytes)>)
    modifies sock
    ensures var (res, got, rest) := ReceiveResponse(old(sock.incoming));
      && response == res
      && (err == 0 <==> res.Some?) && (err == 0 || err == -1)
      && sock.incoming == rest && sock.received == old(sock.received) + got
    ensures sock.outgoing == old(sock.outgoing) && sock.sent == old(sock.sent)
  {
    var rbuf := new Byte[4 + MAX_MSG + 1];
    var len;
    err, len := ReadFrame(sock, rbuf);
    if err != 0 {
      return err, None;
    }
    if len < 4 {
      return -1, None;
    }
    assert rbuf[4..8] == rbuf[4..4 + len][0..4];
    assert rbuf[8..4 + len] == rbuf[4..4 + len][4..];
    var code := U32(rbuf[4..8]);
    response := Some((code, rbuf[8..4 + len]));
  }

  // ------------------------------------------------------------------
  // Client and key-value server together

  /** A query end to end: the request frame `sendRequest` builds for cmd,
      answered by the server with room to write, comes back to `readRequest`
      as the status and payload of executing cmd on the store. */
  lemma QueryRoundTrip(cmd: seq<Bytes>, m: Entries, more: seq<ReadStep>)
    requires BodyLen(cmd) <= MAX_MSG && Bounded(m)
    ensures |Execute(cmd, m).payload| <= MAX_VALUE
    ensures var o := Execute(cmd, m);
      var d := Drain(RequestFrame(cmd), m, [Accept(BUF_CAP)]);
      && d.sent == ResponseFrame(o.code, o.payload)
      && d.state == STATE_REQ && d.pending == [] && d.entries == o.entries
      && ReceiveResponse([Deliver(d.sent)] + more).0 == Some((o.code, o.payload))
  {
    var o := Execute(cmd, m);
    DrainLoneRequest(cmd, m);
    ReceiveResponseFrame(o.code, o.payload, more);
  }
}
