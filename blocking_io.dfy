/** The clients' blocking transfer loops, `read_full` and `write_all`: keep
    calling `read` or `write` on the rest of the buffer until n bytes have
    moved, and give up with -1 at the first call that moves nothing or fails. */
module BlockingIo {
  import opened Bytes
  import opened Wrappers
  import opened Wire
  import opened Sockets

  /** What reading n bytes against a read script comes to: whether all n
      arrived, the bytes that did, and what is left of the script. A read
      that delivers nothing (end of stream), would block, or fails ends it. */
  function Gather(script: seq<ReadStep>, n: nat): (r: (bool, Bytes, seq<ReadStep>))
    ensures r.0 ==> |r.1| == n
    ensures !r.0 ==> |r.1| < n
    decreases n
  {
    if n == 0 then (true, [], script)
    else
      var (step, rest) := NextRead(script, n);
      match step
      case Deliver(d) =>
        if d == [] then (false, [], rest)
        else
          var (ok, more, rest') := Gather(rest, n - |d|);
          (ok, d + more, rest')
      case _ => (false, [], rest)
  }

  /** What writing n bytes against a write script comes to: whether all n
      went out, how many did, and what is left of the script. A write that
      takes nothing, would block, or fails ends it. */
  function Scatter(script: seq<WriteStep>, n: nat): (r: (bool, nat, seq<WriteStep>))
    ensures r.1 <= n
    ensures r.0 <==> r.1 == n
    decreases n
  {
    if n == 0 then (true, 0, script)
    else
      var (step, rest) := NextWrite(script, n);
      match step
      case Accept(k) =>
        if k == 0 then (false, 0, rest)
        else
          var (ok, w, rest') := Scatter(rest, n - k);
          (ok, k + w, rest')
      case _ => (false, 0, rest)
  }

  /** The bytes got so far in front of what the rest of a Gather brings. */
  function Behind(got: Bytes, g: (bool, Bytes, seq<ReadStep>)): (bool, Bytes, seq<ReadStep>)
  {
    (g.0, got + g.1, g.2)
  }

  /** The bytes sent so far in front of what the rest of a Scatter sends. */
  function After(sent: nat, s: (bool, nat, seq<WriteStep>)): (bool, nat, seq<WriteStep>)
  {
    (s.0, sent + s.1, s.2)
  }

  /** A read that delivers some bytes leaves the rest of the Gather to the
      rest of the script. */
  lemma GatherDelivered(script: seq<ReadStep>, n: nat)
    requires n > 0
    requires var step := NextRead(script, n).0; step.Deliver? && step.data != []
    ensures var (step, rest) := NextRead(script, n);
      Gather(script, n) == Behind(step.data, Gather(rest, n - |step.data|))
  {
  }

  /** One pass of the `read_full` loop: a read of at most the `left` bytes
      still wanted, at offset pos. `ok` says it delivered some bytes, which
      then follow the ones got so far in the buffer, on the socket and in the
      Gather of the whole read; pos' and left' are the cursor and the count
      moved on past them. */
  method ReadPiece(sock: Socket, buf: array<Byte>, at: nat, pos: nat, left: nat,
                   ghost got: Bytes, ghost total: (bool, Bytes, seq<ReadStep>),
                   ghost buf0: seq<Byte>, ghost rec0: Bytes)
    returns (ok: bool, pos': nat, left': nat, ghost got': Bytes)
    requires left > 0 && pos == at + |got| && pos + left <= buf.Length == |buf0|
    requires total == Behind(got, Gather(sock.incoming, left))
    requires sock.received == rec0 + got
    requires forall i :: at <= i < pos ==> buf[i] == got[i - at]
    requires forall i :: 0 <= i < buf.Length && !(at <= i < pos) ==> buf[i] == buf0[i]
    modifies sock, buf
    ensures sock.outgoing == old(sock.outgoing) && sock.sent == old(sock.sent)
    ensures pos' == at + |got'| && pos' + left' == pos + left
    ensures sock.received == rec0 + got'
    ensures ok ==> left' < left && total == Behind(got', Gather(sock.incoming, left'))
    ensures !ok ==> got' == got && total == (false, got, sock.incoming)
    ensures forall i :: at <= i < pos' ==> buf[i] == got'[i - at]
    ensures forall i :: 0 <= i < buf.Length && !(at <= i < pos') ==> buf[i] == buf0[i]
  {
    ghost var inc := sock.incoming;
    var step := sock.Read(buf, pos, left);
    if !step.Deliver? || step.data == [] {
      assert got + [] == got;
      assert rec0 + got + [] == rec0 + got;
      return false, pos, left, got;
    }
    var data := step.data;
    ghost var g := Gather(sock.incoming, left - |data|);
    assert NextRead(inc, left) == (step, sock.incoming);
    GatherDelivered(inc, left);
    assert Gather(inc, left) == (g.0, data + g.1, g.2);
    ConcatAssoc(got, data, g.1);
    assert total == (g.0, (got + data) + g.1, g.2);
    ConcatAssoc(rec0, got, data);
    return true, pos + |data|, left - |data|, got + data;
  }

  /** `read_full(fd, &buf[at], n)`: the bytes read land at offset at, and
      the result is 0 exactly when all n of them arrived. */
  method ReadFull(sock: Socket, buf: array<Byte>, at: nat, n: nat) returns (err: int)
    requires at + n <= buf.Length
    modifies sock, buf
    ensures var (ok, data, rest) := Gather(old(sock.incoming), n);
      && (err == 0 || err == -1) && (err == 0 <==> ok)
      && sock.incoming == rest && sock.received == old(sock.received) + data
      && buf[at..at + |data|] == data
    ensures forall i :: 0 <= i < buf.Length && !(at <= i < at + n) ==> buf[i] == old(buf[i])
    ensures sock.outgoing == old(sock.outgoing) && sock.sent == old(sock.sent)
  {
    var pos: nat := at;
    var left: nat := n;
    ghost var got: Bytes := [];
    ghost var total := Gather(sock.incoming, n);
    ghost var buf0 := buf[..];
    ghost var rec0 := sock.received;
    assert [] + total.1 == total.1;
    assert rec0 + [] == rec0;
    err := 0;
    while left > 0
      invariant pos == at + |got| && pos + left == at + n
      invariant total == Behind(got, Gather(sock.incoming, left))
      invariant sock.received == rec0 + got
      invariant forall i :: at <= i < pos ==> buf[i] == got[i - at]
      invariant forall i :: 0 <= i < buf.Length && !(at <= i < pos) ==> buf[i] == buf0[i]
      invariant sock.outgoing == old(sock.outgoing) && sock.sent == old(sock.sent)
      decreases left
    {
      var ok;
      ok, pos, left, got := ReadPiece(sock, buf, at, pos, left, got, total, buf0, rec0);
      if !ok {
        err := -1;
        break;
      }
    }
    if err == 0 {
      assert got + [] == got;
    }
    SliceOfElements(buf[..], at, got);
    assert buf[at..at + |got|] == buf[..][at..at + |got|];
  }

  /** One pass of the `write_all` loop: a write of at most the `left` bytes
      still to go, from offset pos. `ok` says it took some bytes, which then
      follow the ones sent so far, here and in the Scatter of the whole write;
      pos' and left' are the cursor and the count moved on past them. */
  method WritePiece(sock: Socket, src: array<Byte>, from: nat, pos: nat, left: nat,
                    ghost total: (bool, nat, seq<WriteStep>), ghost a: Bytes, ghost sent0: Bytes)
    returns (ok: bool, pos': nat, left': nat)
    requires left > 0 && from <= pos && pos + left <= src.Length && src[..] == a
    requires total == After(pos - from, Scatter(sock.outgoing, left))
    requires sock.sent == sent0 + a[from..pos]
    modifies sock
    ensures sock.incoming == old(sock.incoming) && sock.received == old(sock.received)
    ensures ok ==> from <= pos' && pos' + left' == pos + left && left' < left
    ensures ok ==> total == After(pos' - from, Scatter(sock.outgoing, left'))
    ensures ok ==> sock.sent == sent0 + a[from..pos']
    ensures !ok ==> pos' == pos && left' == left
    ensures !ok ==> total == (false, pos - from, sock.outgoing) && sock.sent == old(sock.sent)
  {
    var step := sock.Write(src, pos, left);
    if !step.Accept? || step.room == 0 {
      return false, pos, left;
    }
    var k := step.room;
    assert a[from..pos + k] == a[from..pos] + a[pos..pos + k];
    ConcatAssoc(sent0, a[from..pos], a[pos..pos + k]);
    return true, pos + k, left - k;
  }

  /** `write_all(fd, &src[from], n)`: the bytes written are the front of the
      n given, and the result is 0 exactly when all n went out. */
  method WriteAll(sock: Socket, src: array<Byte>, from: nat, n: nat) returns (err: int)
    requires from + n <= src.Length
    modifies sock
    ensures var (ok, w, rest) := Scatter(old(sock.outgoing), n);
      && (err == 0 || err == -1) && (err == 0 <==> ok)
      && sock.outgoing == rest && sock.sent == old(sock.sent) + src[from..from + w]
    ensures sock.incoming == old(sock.incoming) && sock.received == old(sock.received)
  {
    var pos: nat := from;
    var left: nat := n;
    ghost var total := Scatter(sock.outgoing, n);
    ghost var a := src[..];
    ghost var sent0 := sock.sent;
    err := 0;
    while left > 0
      invariant from <= pos && pos + left == from + n
      invariant total == After(pos - from, Scatter(sock.outgoing, left))
      invariant sock.sent == sent0 + a[from..pos]
      invariant sock.incoming == old(sock.incoming) && sock.received == old(sock.received)
      decreases left
    {
      var ok;
      ok, pos, left := WritePiece(sock, src, from, pos, left, total, a, sent0);
      if !ok {
        err := -1;
        break;
      }
    }
    assert src[from..pos] == a[from..pos];
  }

  // ------------------------------------------------------------------
  // Framed reads

  /** What the clients' `readRequest` makes of a read script before it looks
      at the body: the body of the frame when it arrives (None when it
      returns -1), every byte it read, and what is left of the script. A
      header over 4096 is refused without reading further; a body that does
      not arrive in full is refused. */
  function ReceiveFrame(script: seq<ReadStep>): (r: (Option<Bytes>, Bytes, seq<ReadStep>))
  {
    var (ok, head, rest) := Gather(script, 4);
    if !ok then (None, head, rest)
    else
      var len := U32(head);
      if len > MAX_MSG then (None, head, rest)
      else
        var (ok', body, rest') := Gather(rest, len);
        if !ok' then (None, head + body, rest')
        else (Some(body), head + body, rest')
  }

  /** The framed read of `readRequest`: the 4-byte header into rbuf[0..4),
      a length over 4096 refused, then that many bytes into rbuf[4..). The
      result is 0 exactly when the whole frame arrived, and its body is then
      rbuf[4..4 + len). */
  method ReadFrame(sock: Socket, rbuf: array<Byte>) returns (err: int, len: nat)
    requires rbuf.Length >= 4 + MAX_MSG
    modifies sock, rbuf
    ensures var (res, got, rest) := ReceiveFrame(old(sock.incoming));
      && (err == 0 <==> res.Some?) && (err == 0 || err == -1)
      && sock.incoming == rest && sock.received == old(sock.received) + got
      && (res.Some? ==> len == |res.value| <= MAX_MSG && rbuf[4..4 + len] == res.value)
    ensures sock.outgoing == old(sock.outgoing) && sock.sent == old(sock.sent)
  {
    ghost var inc := sock.incoming;
    ghost var received := sock.received;
    len := 0;
    err := ReadFull(sock, rbuf, 0, 4);
    if err != 0 {
      return;
    }
    var head := rbuf[0..4];
    len := U32(head);
    if len > MAX_MSG {
      return -1, len;
    }
    ghost var first := Gather(inc, 4);
    err := ReadFull(sock, rbuf, 4, len);
    ghost var second := Gather(first.2, len);
    ConcatAssoc(received, head, second.1);
  }

  /** What `readRequest` accepts is a whole frame of the body it reports. */
  lemma ReceivedIsFrame(script: seq<ReadStep>)
    requires ReceiveFrame(script).0.Some?
    ensures var (res, got, _) := ReceiveFrame(script);
      |res.value| <= MAX_MSG && got == TextFrame(res.value)
  {
    var (ok, head, rest) := Gather(script, 4);
    U32RoundTrip(head);
  }

  /** A frame that arrives in one delivery is read exactly. */
  lemma ReceiveWholeFrame(t: Bytes, more: seq<ReadStep>)
    requires |t| <= MAX_MSG
    ensures ReceiveFrame([Deliver(TextFrame(t))] + more) == (Some(t), TextFrame(t), more)
  {
    var f := TextFrame(t);
    GatherOne(f, 4, more);
    assert f[..4] == LE32(|t|);
    LE32RoundTrip(|t|);
    assert f[..4] + f[4..] == f;
    if t == [] {
      assert f[4..] == [];
      assert Gather([Deliver(f[4..])] + more, 0) == (true, [], [Deliver(f[4..])] + more);
    } else {
      GatherOne(f[4..], |t|, more);
      assert f[4..][..|t|] == t;
    }
  }

  // ------------------------------------------------------------------
  // Properties

  /** One delivery of at least n bytes satisfies a read of n, and what it
      delivers beyond n stays for the next read. */
  lemma GatherOne(d: Bytes, n: nat, more: seq<ReadStep>)
    requires 0 < n <= |d|
    ensures Gather([Deliver(d)] + more, n)
      == (true, d[..n], if |d| == n then more else [Deliver(d[n..])] + more)
  {
    var script := [Deliver(d)] + more;
    assert script[1..] == more;
    if |d| == n {
      assert d[..n] == d;
      assert d[..n] + [] == d[..n];
    } else {
      assert d[..n] + [] == d[..n];
    }
  }

  /** Bytes that arrive in pieces (none of them empty) are read the same
      however they are cut: a read of their total length returns them all. */
  lemma {:induction false} GatherPieces(pieces: seq<Bytes>, more: seq<ReadStep>)
    requires forall i :: 0 <= i < |pieces| ==> pieces[i] != []
    ensures Gather(Deliveries(pieces) + more, |Concat(pieces)|) == (true, Concat(pieces), more)
  {
    if pieces != [] {
      var d := pieces[0];
      var script := Deliveries(pieces) + more;
      assert script == [Deliver(d)] + (Deliveries(pieces[1..]) + more);
      assert script[1..] == Deliveries(pieces[1..]) + more;
      GatherPieces(pieces[1..], more);
      var n := |Concat(pieces)|;
      assert n == |d| + |Concat(pieces[1..])|;
      assert NextRead(script, n) == (Deliver(d), script[1..]);
      assert Gather(script, n) == (true, d + Concat(pieces[1..]), more);
    } else {
      assert Deliveries(pieces) + more == more;
    }
  }

  /** Pieces as one delivery each. */
  function Deliveries(pieces: seq<Bytes>): seq<ReadStep>
  {
    if pieces == [] then [] else [Deliver(pieces[0])] + Deliveries(pieces[1..])
  }

  /** The pieces laid end to end. */
  function Concat(pieces: seq<Bytes>): Bytes
  {
    if pieces == [] then [] else pieces[0] + Concat(pieces[1..])
  }

  /** One write with room for all n bytes sends them at once. */
  lemma ScatterOne(k: nat, n: nat, more: seq<WriteStep>)
    requires 0 < n <= k
    ensures Scatter([Accept(k)] + more, n) == (true, n, more)
  {
    assert ([Accept(k)] + more)[1..] == more;
  }

  /** Writes that each take some bytes send all n whenever their rooms add
      up to at least n; the write that completes the n takes only what is left. */
  lemma {:induction false} ScatterRooms(rooms: seq<nat>, n: nat, more: seq<WriteStep>)
    requires forall i :: 0 <= i < |rooms| ==> rooms[i] > 0
    requires n <= Sum(rooms)
    ensures Scatter(AcceptsOf(rooms) + more, n).0
  {
    if n > 0 {
      var script := AcceptsOf(rooms) + more;
      assert rooms != [];
      assert script == [Accept(rooms[0])] + (AcceptsOf(rooms[1..]) + more);
      assert script[1..] == AcceptsOf(rooms[1..]) + more;
      if rooms[0] < n {
        ScatterRooms(rooms[1..], n - rooms[0], more);
      }
    }
  }

  /** Write steps with the given rooms. */
  function AcceptsOf(rooms: seq<nat>): seq<WriteStep>
  {
    if rooms == [] then [] else [Accept(rooms[0])] + AcceptsOf(rooms[1..])
  }

  function Sum(rooms: seq<nat>): nat
  {
    if rooms == [] then 0 else rooms[0] + Sum(rooms[1..])
  }
}
