/** The request layer of the key/value server: `parseReq` walking the body
    with a cursor, and `do_get`, `do_set`, `do_del` and `do_request` working
    on the global map and writing the payload into the response buffer. */
module KvRequests {
  import opened Bytes
  import opened Wrappers
  import opened Wire
  import opened ServerHeader
  import opened Commands
  import opened Buffers

  /** The global map `g_map`. Every value in it came through a SET body, so
      it is never longer than MAX_VALUE bytes. */
  class Store {
    var entries: map<Bytes, Bytes>

    ghost predicate Valid()
      reads this
    {
      Bounded(entries)
    }

    /** The map starts out empty. */
    constructor ()
      ensures entries == map[] && Valid()
    {
      entries := map[];
    }
  }

  /** Prefixing the arguments read so far to the outcome of reading the rest. */
  function Prepend(done: seq<Bytes>, rest: Option<seq<Bytes>>): Option<seq<Bytes>>
  {
    match rest
    case None => None
    case Some(r) => Some(done + r)
  }

  /** Reading one more argument moves it from the rest to the arguments
      read so far. */
  lemma PrependArg(body: Bytes, pos: nat, n: nat, out: seq<Bytes>, arg: Bytes, next: nat)
    requires n > 0 && pos + 4 <= |body| && next == pos + 4 + U32At(body, pos) <= |body|
    requires arg == body[pos + 4..next]
    ensures Prepend(out, ParseArgs(body, pos, n)) == Prepend(out + [arg], ParseArgs(body, next, n - 1))
  {
    var tail := ParseArgs(body, next, n - 1);
    assert ParseArgs(body, pos, n) == Prepend([arg], tail);
    if tail.Some? {
      assert out + ([arg] + tail.value) == (out + [arg]) + tail.value;
    }
  }

  /** `parseReq` on the len bytes at offset off of data: -1 exactly when
      ParseBody rejects them, and otherwise 0 with the arguments it reads. */
  method ParseReq(data: array<Byte>, off: nat, len: nat) returns (err: int, out: seq<Bytes>)
    requires off + len <= data.Length
    ensures err == 0 || err == -1
    ensures err == 0 <==> ParseBody(data[off..off + len]).Some?
    ensures err == 0 ==> out == ParseBody(data[off..off + len]).value
  {
    ghost var body := data[off..off + len];
    assert forall i :: 0 <= i < len ==> body[i] == data[off + i];
    out := [];
    if len < 4 {
      return -1, out;
    }
    assert data[off..off + 4] == body[0..4];
    var n: nat := U32(data[off..off + 4]);
    if n > MAX_ARGS {
      return -1, out;
    }
    var pos := 4;
    assert ParseBody(body) == ParseArgs(body, 4, n);
    assert ParseBody(body) == Prepend(out, ParseArgs(body, pos, n)) by {
      var t := ParseArgs(body, 4, n);
      if t.Some? {
        assert [] + t.value == t.value;
      }
    }
    while n > 0
      invariant 4 <= pos <= len
      invariant ParseBody(body) == Prepend(out, ParseArgs(body, pos, n))
      decreases n
    {
      if pos + 4 > len {
        return -1, out;
      }
      SliceOfSlice(data[..], off, len, pos, pos + 4);
      var sz := U32(data[off + pos..off + pos + 4]);
      assert sz == U32At(body, pos);
      if pos + 4 + sz > len {
        return -1, out;
      }
      var arg := data[off + pos + 4..off + pos + 4 + sz];
      SliceOfSlice(data[..], off, len, pos + 4, pos + 4 + sz);
      var next := pos + 4 + sz;
      PrependArg(body, pos, n, out, arg, next);
      out := out + [arg];
      pos := next;
      n := n - 1;
    }
    if pos != len {
      return -1, out;
    }
    assert out + [] == out;
    return 0, out;
  }

  /** `do_get`: a present key's value is copied to offset at of res and its
      length returned with RES_OK; an absent key gives RES_NX and leaves the
      length at the 0 the caller started from. */
  method DoGet(store: Store, cmd: seq<Bytes>, res: array<Byte>, at: nat) returns (code: nat, reslen: nat)
    requires |cmd| >= 2 && store.Valid() && at + MAX_VALUE <= res.Length
    modifies res
    ensures cmd[1] in store.entries ==>
      code == RES_OK && reslen == |store.entries[cmd[1]]| && res[at..at + reslen] == store.entries[cmd[1]]
    ensures cmd[1] !in store.entries ==> code == RES_NX && reslen == 0
    ensures res[..at] == old(res[..at]) && res[at + reslen..] == old(res[at + reslen..])
  {
    if cmd[1] !in store.entries {
      return RES_NX, 0;
    }
    var val := store.entries[cmd[1]];
    Memcpy(res, at, val);
    return RES_OK, |val|;
  }

  /** `do_set`: the key is bound to the value, replacing any earlier one. */
  method DoSet(store: Store, cmd: seq<Bytes>) returns (code: nat)
    requires |cmd| >= 3
    modifies store
    ensures store.entries == old(store.entries)[cmd[1] := cmd[2]]
    ensures code == RES_OK
  {
    store.entries := store.entries[cmd[1] := cmd[2]];
    return RES_OK;
  }

  /** `do_del`: the key is unbound, and the answer is RES_OK whether or not it was bound. */
  method DoDel(store: Store, cmd: seq<Bytes>) returns (code: nat)
    requires |cmd| >= 2
    modifies store
    ensures store.entries == old(store.entries) - {cmd[1]}
    ensures code == RES_OK
  {
    store.entries := store.entries - {cmd[1]};
    return RES_OK;
  }

  /** `do_request` on the len request bytes at offset off of req, writing the
      payload at offset at of res: -1 when the body does not parse, and
      otherwise 0 with the code, payload and new map DoRequestSpec gives. */
  method DoRequest(store: Store, req: array<Byte>, off: nat, len: nat, res: array<Byte>, at: nat)
    returns (err: int, code: nat, reslen: nat)
    requires store.Valid() && req != res
    requires off + len <= req.Length && len <= MAX_MSG
    requires at + MAX_VALUE <= res.Length
    modifies store, res
    ensures store.Valid()
    ensures var spec := DoRequestSpec(req[off..off + len], old(store.entries));
      && (err == 0 || err == -1)
      && (err == 0 <==> spec.Some?)
      && (err != 0 ==> store.entries == old(store.entries))
      && (spec.Some? ==>
            && code == spec.value.code && store.entries == spec.value.entries
            && reslen == |spec.value.payload| && res[at..at + reslen] == spec.value.payload)
    ensures res[..at] == old(res[..at])
  {
    ghost var body := req[off..off + len];
    ghost var m := store.entries;
    var cmd;
    err, cmd := ParseReq(req, off, len);
    if err != 0 {
      return -1, 0, 0;
    }
    ResponsesFit(body, m);
    reslen := 0;
    if |cmd| == 2 && CmdIs(cmd[0], GET) {
      code, reslen := DoGet(store, cmd, res, at);
    } else if |cmd| == 3 && CmdIs(cmd[0], SET) {
      code := DoSet(store, cmd);
    } else if |cmd| == 2 && CmdIs(cmd[0], DEL) {
      code := DoDel(store, cmd);
    } else {
      code := RES_ERR;
      // strcpy copies the terminating NUL as well; only 11 bytes are counted.
      Memcpy(res, at, UNKNOWN_CMD + [0]);
      assert res[at..at + 11] == (UNKNOWN_CMD + [0])[..11];
      reslen := |UNKNOWN_CMD|;
    }
  }
}
