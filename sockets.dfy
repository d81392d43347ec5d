/** A scripted stand-in for a connected socket.

    The `read` and `write` system calls are replaced by two scripts fixed in
    advance: each read consumes the next `ReadStep` and each write the next
    `WriteStep`. A read step delivers bytes (none means end of stream), or
    reports that the call would block, or fails; a write step accepts up to
    some number of bytes, or would block, or fails. The socket records every
    byte read and written, in order. */
module Sockets {
  import opened Bytes

  datatype ReadStep = Deliver(data: Bytes) | ReadAgain | ReadError
  datatype WriteStep = Accept(room: nat) | WriteAgain | WriteError

  function Min(a: nat, b: nat): nat
  {
    if a <= b then a else b
  }

  /** One `read` of at most cap bytes: a delivery longer than cap is split and
      its rest stays at the head of the script; an exhausted script would block. */
  function NextRead(script: seq<ReadStep>, cap: nat): (r: (ReadStep, seq<ReadStep>))
    requires cap > 0
    ensures r.0.Deliver? ==> |r.0.data| <= cap
  {
    if script == [] then (ReadAgain, [])
    else match script[0]
      case Deliver(d) =>
        if |d| <= cap then (Deliver(d), script[1..])
        else (Deliver(d[..cap]), [Deliver(d[cap..])] + script[1..])
      case other => (other, script[1..])
  }

  /** One `write` of count bytes: an accepting step takes as many as it has
      room for; an exhausted script would block. */
  function NextWrite(script: seq<WriteStep>, count: nat): (r: (WriteStep, seq<WriteStep>))
    ensures |r.1| == if script == [] then 0 else |script| - 1
    ensures script == [] ==> r.0 == WriteAgain
    ensures r.0.Accept? ==> r.0.room <= count
  {
    if script == [] then (WriteAgain, [])
    else match script[0]
      case Accept(k) => (Accept(Min(k, count)), script[1..])
      case other => (other, script[1..])
  }

  /** A measure that every read consuming a step or a byte makes smaller. */
  ghost function ReadFuel(script: seq<ReadStep>): nat
  {
    if script == [] then 0
    else (if script[0].Deliver? then 1 + |script[0].data| else 1) + ReadFuel(script[1..])
  }

  /** Every read that consumes a step, or splits one, leaves less to read. */
  lemma NextReadFuel(script: seq<ReadStep>, cap: nat)
    requires cap > 0 && script != []
    ensures ReadFuel(NextRead(script, cap).1) < ReadFuel(script)
  {
    var rest := NextRead(script, cap).1;
    if script[0].Deliver? && |script[0].data| > cap {
      assert rest[1..] == script[1..];
    }
  }

  class Socket {
    /** What the peer will do on the coming reads and writes. */
    var incoming: seq<ReadStep>
    var outgoing: seq<WriteStep>
    /** Every byte read from and written to the socket so far. */
    var received: Bytes
    var sent: Bytes

    constructor (incoming: seq<ReadStep>, outgoing: seq<WriteStep>)
      ensures this.incoming == incoming && this.outgoing == outgoing
      ensures received == [] && sent == []
    {
      this.incoming := incoming;
      this.outgoing := outgoing;
      received := [];
      sent := [];
    }

    /** `read(fd, &dst[at], cap)`: the delivered bytes land at offset at. */
    method Read(dst: array<Byte>, at: nat, cap: nat) returns (step: ReadStep)
      requires cap > 0 && at + cap <= dst.Length
      modifies this, dst
      ensures (step, incoming) == NextRead(old(incoming), cap)
      ensures step.Deliver? ==> received == old(received) + step.data
      ensures !step.Deliver? ==> received == old(received)
      ensures outgoing == old(outgoing) && sent == old(sent)
      ensures var n := if step.Deliver? then |step.data| else 0;
        && dst[..at] == old(dst[..at])
        && dst[at..at + n] == (if step.Deliver? then step.data else [])
        && dst[at + n..] == old(dst[at + n..])
        && forall i :: 0 <= i < dst.Length && !(at <= i < at + n) ==> dst[i] == old(dst[i])
    {
      var next := NextRead(incoming, cap);
      step, incoming := next.0, next.1;
      if step.Deliver? {
        var data := step.data;
        forall i | at <= i < at + |data| {
          dst[i] := data[i - at];
        }
        received := received + data;
      }
    }

    /** `write(fd, &src[from], count)`: an accepted step reports how many of
        the count bytes went out, and those are the ones at the front. */
    method Write(src: array<Byte>, from: nat, count: nat) returns (step: WriteStep)
      requires from + count <= src.Length
      modifies this
      ensures (step, outgoing) == NextWrite(old(outgoing), count)
      ensures step.Accept? ==> sent == old(sent) + src[from..from + step.room]
      ensures !step.Accept? ==> sent == old(sent)
      ensures incoming == old(incoming) && received == old(received)
    {
      var next := NextWrite(outgoing, count);
      step, outgoing := next.0, next.1;
      if step.Accept? {
        sent := sent + src[from..from + step.room];
      }
    }
  }
}
