/** The text client of `main_v2/Client.cpp`, the partner of the echo server:
    `sendRequest` frames a C string as its length and its bytes and writes
    it; `readRequest` reads one such frame back. */
module TextClient {
  import opened Bytes
  import opened Wrappers
  import opened Wire
  import opened Sockets
  import opened Buffers
  import opened BlockingIo
  import opened Commands
  import opened Transmit
  import opened ServerHeader
  import opened EchoServer

  /** The frame `sendRequest(fd, txt)` writes, or None when it refuses the
      text. The length is `strlen(txt)` cast to `uint32_t`, so it is taken
      modulo 2^32; a length over 4096 is refused, and otherwise the header
      is followed by that many bytes of the string. */
  function TextRequest(txt: Bytes): (r: Option<Bytes>)
  {
    var text := CStr(txt);
    var len := |text| % U32_LIMIT;
    if len > MAX_MSG then None else Some(TextFrame(text[..len]))
  }

  /** A string without NUL bytes of at most 4096 bytes goes out as its text
      frame; one longer than that (and shorter than 2^32) is refused. */
  lemma TextRequestOfPlain(t: Bytes)
    requires 0 !in t && |t| < U32_LIMIT
    ensures |t| <= MAX_MSG ==> TextRequest(t) == Some(TextFrame(t))
    ensures |t| > MAX_MSG ==> TextRequest(t) == None
  {
    CStrOfPlain(t);
    var len := |t| % U32_LIMIT;
    assert len == |t| by {
      SmallModulo(|t|);
    }
    if len <= MAX_MSG {
      assert t[..len] == t;
    }
  }

  lemma SmallModulo(x: nat)
    requires x < U32_LIMIT
    ensures x % U32_LIMIT == x
  {
  }

  /** The boundary: a text of 4096 bytes is sent and one of 4097 is refused. */
  lemma TextRequestLimit()
    ensures TextRequest(seq(MAX_MSG, _ => 97)).Some?
    ensures TextRequest(seq(MAX_MSG + 1, _ => 97)) == None
  {
    var a: Bytes := seq(MAX_MSG, _ => 97);
    var b: Bytes := seq(MAX_MSG + 1, _ => 97);
    assert forall i :: 0 <= i < |a| ==> a[i] == 97;
    assert 0 !in a;
    assert forall i :: 0 <= i < |b| ==> b[i] == 97;
    assert 0 !in b;
    TextRequestOfPlain(a);
    TextRequestOfPlain(b);
  }

  /** `sendRequest(fd, txt)`: refuses with -1, before writing anything, a
      text whose length is over 4096; otherwise hands its frame to
      `write_all`, and the result is 0 exactly when all of it went out. */
  method SendText(sock: Socket, txt: Bytes) returns (err: int)
    modifies sock
    ensures err == 0 || err == -1
    ensures sock.incoming == old(sock.incoming) && sock.received == old(sock.received)
    ensures TextRequest(txt) == None ==>
      err == -1 && sock.outgoing == old(sock.outgoing) && sock.sent == old(sock.sent)
    ensures TextRequest(txt).Some? ==>
      var frame := TextRequest(txt).value;
      var (ok, w, rest) := Scatter(old(sock.outgoing), |frame|);
      && (err == 0 <==> ok)
      && sock.outgoing == rest
      && sock.sent == old(sock.sent) + frame[..w]
  {
    var text := CStr(txt);
    var len := |text| % U32_LIMIT;
    if len > MAX_MSG {
      return -1;
    }
    var wbuf := new Byte[4 + MAX_MSG];
    Memcpy(wbuf, 0, LE32(len));
    Memcpy(wbuf, 4, text[..len]);
    assert wbuf[0..4 + len] == wbuf[..4] + wbuf[4..4 + len];
    err := WriteAll(sock, wbuf, 0, 4 + len);
  }

  /** `readRequest(fd)`: read one frame and report its body (which it then
      prints up to its first NUL); the result is 0 exactly when it did. */
  method ReadText(sock: Socket) returns (err: int, body: Option<Bytes>)
    modifies sock
    ensures var (res, got, rest) := ReceiveFrame(old(sock.incoming));
      && body == res
      && (err == 0 <==> res.Some?) && (err == 0 || err == -1)
      && sock.incoming == rest && sock.received == old(sock.received) + got
    ensures sock.outgoing == old(sock.outgoing) && sock.sent == old(sock.sent)
  {
    var rbuf := new Byte[4 + MAX_MSG + 1];
    var len;
    err, len := ReadFrame(sock, rbuf);
    if err != 0 {
      return err, None;
    }
    body := Some(rbuf[4..4 + len]);
    rbuf[4 + len] := 0;
  }

  /** Client, echo server and client again: a string without NUL bytes of at
      most 4096 bytes is framed, sent back byte for byte by the echo server,
      and read back as the same text. */
  lemma EchoRoundTrip(t: Bytes, more: seq<ReadStep>)
    requires 0 !in t && |t| <= MAX_MSG
    ensures TextRequest(t) == Some(TextFrame(t))
    ensures var d := EchoDrain(TextFrame(t), [Accept(BUF_CAP)]);
      && d.sent == TextFrame(t) && d.state == STATE_REQ && d.pending == []
      && ReceiveFrame([Deliver(d.sent)] + more).0 == Some(t)
  {
    TextRequestOfPlain(t);
    EchoPipelined([t], []);
    assert [t][1..] == [];
    assert TextStream([t]) == TextFrame(t) + [];
    assert Accepts(1) + [] == [Accept(BUF_CAP)];
    ReceiveWholeFrame(t, more);
  }
}
