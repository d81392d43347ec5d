/** The connection record and the enumerations shared by both servers. */
module ServerHeader {
  import opened Bytes

  // Connection states.
  const STATE_REQ: nat := 0
  const STATE_RESP: nat := 1
  const STATE_DONE: nat := 2

  // Response codes.
  const RES_OK: nat := 0
  const RES_ERR: nat := 1
  const RES_NX: nat := 2

  /** Capacity of each connection buffer: one length prefix plus a largest body. */
  const BUF_CAP: nat := 4 + 4096

  /** One accepted socket: its descriptor, its state, and its two fixed buffers
      with their fill level and send cursor. */
  class Conn {
    var fd: int
    var state: nat
    var rbufSize: nat
    const rbuf: array<Byte>
    var wbufSize: nat
    var wbufSent: nat
    const wbuf: array<Byte>

    ghost predicate Valid()
      reads this
    {
      && rbuf.Length == BUF_CAP && wbuf.Length == BUF_CAP && rbuf != wbuf
      && rbufSize <= BUF_CAP
      && wbufSent <= wbufSize <= BUF_CAP
      && state <= STATE_DONE
    }

    /** What holds between two calls on a live connection: a reading
        connection has room for at least one more byte and nothing queued
        to send, and a connection waiting to send has something left. */
    ghost predicate Resting()
      reads this
    {
      && Valid()
      && (state != STATE_DONE ==> rbufSize < BUF_CAP)
      && (state == STATE_REQ ==> wbufSize == 0 && wbufSent == 0)
      && (state == STATE_RESP ==> wbufSent < wbufSize)
    }

    /** The default member values of the record. */
    constructor ()
      ensures Resting() && fresh(rbuf) && fresh(wbuf)
      ensures fd == -1 && state == STATE_REQ
      ensures rbufSize == 0 && wbufSize == 0 && wbufSent == 0
    {
      fd := -1;
      state := STATE_REQ;
      rbufSize := 0;
      rbuf := new Byte[BUF_CAP];
      wbufSize := 0;
      wbufSent := 0;
      wbuf := new Byte[BUF_CAP];
    }

    /** Bytes read but not yet consumed by a request. */
    ghost function Pending(): Bytes
      reads this, rbuf
      requires Valid()
    {
      rbuf[..rbufSize]
    }

    /** Bytes of the queued response not yet written. */
    ghost function Unsent(): Bytes
      reads this, wbuf
      requires Valid()
    {
      wbuf[wbufSent..wbufSize]
    }
  }
}
