/** The framed wire format shared by the clients and the servers.

    Every message is a 32-bit little-endian body length followed by the body.
    A request body is `le32 argc` followed by `argc` arguments, each a 32-bit
    length and that many raw bytes; a response body is `le32 rescode` followed
    by the payload; the text variant's body is just the text. */
module Wire {
  import opened Bytes
  import opened Wrappers

  /** Largest body either end accepts (`k_max_msg`, `maxMsgLen`). */
  const MAX_MSG: nat := 4096
  /** Largest argument count the server accepts (`k_max_args`). */
  const MAX_ARGS: nat := 1024

  // ------------------------------------------------------------------
  // Request bodies

  /** Bytes taken by the arguments: a 4-byte length plus the bytes of each. */
  function ArgsSize(args: seq<Bytes>): (r: nat)
    ensures r >= 4 * |args|
  {
    if args == [] then 0 else 4 + |args[0]| + ArgsSize(args[1..])
  }

  /** Body length of a request: the argument count field plus the arguments. */
  function BodyLen(args: seq<Bytes>): nat
  {
    4 + ArgsSize(args)
  }

  /** Adding one argument at the end adds its 4-byte length field and its bytes. */
  lemma {:induction false} ArgsSizeSnoc(args: seq<Bytes>, s: Bytes)
    ensures ArgsSize(args + [s]) == ArgsSize(args) + 4 + |s|
  {
    if args != [] {
      assert (args + [s])[1..] == args[1..] + [s];
      ArgsSizeSnoc(args[1..], s);
    } else {
      assert [s][1..] == [];
    }
  }

  function EncodeArgs(args: seq<Bytes>): (r: Bytes)
    requires ArgsSize(args) < U32_LIMIT
    ensures |r| == ArgsSize(args)
  {
    if args == [] then [] else LE32(|args[0]|) + args[0] + EncodeArgs(args[1..])
  }

  /** A request body: `le32 argc` and the arguments. */
  function EncodeBody(args: seq<Bytes>): (r: Bytes)
    requires BodyLen(args) < U32_LIMIT
    ensures |r| == BodyLen(args)
  {
    LE32(|args|) + EncodeArgs(args)
  }

  /** A whole request frame: the body length, then the body. */
  function RequestFrame(args: seq<Bytes>): (r: Bytes)
    requires BodyLen(args) < U32_LIMIT
    ensures |r| == 4 + BodyLen(args)
  {
    LE32(BodyLen(args)) + EncodeBody(args)
  }

  /** The server's reading of `n` arguments from offset `pos`: each needs a
      complete length field and that many bytes, and after the last one the
      cursor must sit exactly at the end of the body. */
  function ParseArgs(data: Bytes, pos: nat, n: nat): (r: Option<seq<Bytes>>)
    requires pos <= |data|
    ensures r.Some? ==> |r.value| == n
    decreases n
  {
    if n == 0 then
      if pos == |data| then Some([]) else None
    else if pos + 4 > |data| then None
    else
      var sz := U32At(data, pos);
      if pos + 4 + sz > |data| then None
      else
        match ParseArgs(data, pos + 4 + sz, n - 1)
        case None => None
        case Some(rest) => Some([data[pos + 4 .. pos + 4 + sz]] + rest)
  }

  /** What parsing a request body yields: the argument list, or None (-1). */
  function ParseBody(body: Bytes): Option<seq<Bytes>>
  {
    if |body| < 4 then None
    else
      var n := U32At(body, 0);
      if n > MAX_ARGS then None else ParseArgs(body, 4, n)
  }

  /** The arguments encoded after any prefix are read back exactly. */
  lemma {:induction false} ParseEncodedArgs(pre: Bytes, args: seq<Bytes>)
    requires ArgsSize(args) < U32_LIMIT
    ensures ParseArgs(pre + EncodeArgs(args), |pre|, |args|) == Some(args)
    decreases |args|
  {
    var d := pre + EncodeArgs(args);
    if args != [] {
      var a := args[0];
      var pre' := pre + LE32(|a|) + a;
      assert d == pre' + EncodeArgs(args[1..]);
      assert d[|pre|..|pre| + 4] == LE32(|a|);
      LE32RoundTrip(|a|);
      assert U32At(d, |pre|) == |a|;
      assert d[|pre| + 4 .. |pre| + 4 + |a|] == a;
      ParseEncodedArgs(pre', args[1..]);
      assert [a] + args[1..] == args;
    }
  }

  /** Whatever the parser accepts is the encoding of what it returns. */
  lemma {:induction false} ParsedArgsAreEncoded(data: Bytes, pos: nat, n: nat)
    requires pos <= |data| < U32_LIMIT
    requires ParseArgs(data, pos, n).Some?
    ensures var args := ParseArgs(data, pos, n).value;
      ArgsSize(args) == |data| - pos && data[pos..] == EncodeArgs(args)
    decreases n
  {
    var args := ParseArgs(data, pos, n).value;
    if n > 0 {
      var sz := U32At(data, pos);
      var next := pos + 4 + sz;
      ParsedArgsAreEncoded(data, next, n - 1);
      var rest := ParseArgs(data, next, n - 1).value;
      assert args == [data[pos + 4 .. next]] + rest;
      assert args[1..] == rest;
      U32RoundTrip(data[pos..pos + 4]);
      assert data[pos..] == data[pos..pos + 4] + data[pos + 4 .. next] + data[next..];
    }
  }

  /** A successful parse consumes one exact length of input: any strict
      prefix or strict extension of an accepted body is rejected. So a body
      cut short anywhere, or followed by trailing bytes, gives None. */
  lemma {:induction false} ParseArgsExactLength(data: Bytes, other: Bytes, pos: nat, n: nat)
    requires pos <= |data| && pos <= |other|
    requires other != data && (other <= data || data <= other)
    requires ParseArgs(data, pos, n).Some?
    ensures ParseArgs(other, pos, n) == None
    decreases n
  {
    if n > 0 && pos + 4 <= |other| {
      assert other[pos..pos + 4] == data[pos..pos + 4];
      var next := pos + 4 + U32At(data, pos);
      if next <= |other| {
        ParseArgsExactLength(data, other, next, n - 1);
      }
    }
  }

  /** Every argument list the server's limits allow is parsed back from its body. */
  lemma ParseBodyOfEncoding(args: seq<Bytes>)
    requires |args| <= MAX_ARGS && BodyLen(args) < U32_LIMIT
    ensures ParseBody(EncodeBody(args)) == Some(args)
  {
    var body := EncodeBody(args);
    assert body[0..4] == LE32(|args|);
    LE32RoundTrip(|args|);
    ParseEncodedArgs(LE32(|args|), args);
  }

  /** A body the parser accepts is exactly the encoding of the arguments it returns. */
  lemma ParsedBodyIsEncoding(body: Bytes)
    requires |body| < U32_LIMIT && ParseBody(body).Some?
    ensures var args := ParseBody(body).value;
      |args| <= MAX_ARGS && BodyLen(args) == |body| && body == EncodeBody(args)
  {
    var args := ParseBody(body).value;
    ParsedArgsAreEncoded(body, 4, U32At(body, 0));
    U32RoundTrip(body[0..4]);
    assert body == body[0..4] + body[4..];
  }

  /** An accepted body followed by trailing bytes, or cut short, is rejected. */
  lemma ParseBodyExactLength(body: Bytes, other: Bytes)
    requires ParseBody(body).Some?
    requires other != body && (other <= body || body <= other)
    ensures ParseBody(other) == None
  {
    if |other| >= 4 {
      assert other[0..4] == body[0..4];
      ParseArgsExactLength(body, other, 4, U32At(body, 0));
    }
  }

  /** A body of at most MAX_MSG bytes carries at most 1023 arguments, so the
      server's limit of MAX_ARGS never rejects a request a client can build. */
  lemma RequestArgCountBound(args: seq<Bytes>)
    requires BodyLen(args) <= MAX_MSG
    ensures |args| <= (MAX_MSG - 4) / 4 < MAX_ARGS
  {
  }

  /** Client-to-server round trip: the body after the length field of a frame
      the client builds parses back to the same argument list. */
  lemma RequestRoundTrip(args: seq<Bytes>)
    requires BodyLen(args) <= MAX_MSG
    ensures U32(RequestFrame(args)[..4]) == BodyLen(args)
    ensures ParseBody(RequestFrame(args)[4..]) == Some(args)
  {
    RequestArgCountBound(args);
    var f := RequestFrame(args);
    assert f[..4] == LE32(BodyLen(args)) && f[4..] == EncodeBody(args);
    LE32RoundTrip(BodyLen(args));
    ParseBodyOfEncoding(args);
  }

  // ------------------------------------------------------------------
  // Response frames

  /** `le32(4 + |payload|) ++ le32(rescode) ++ payload`. */
  function ResponseFrame(code: nat, payload: Bytes): (r: Bytes)
    requires code < U32_LIMIT && 4 + |payload| < U32_LIMIT
    ensures |r| == 8 + |payload|
  {
    LE32(4 + |payload|) + LE32(code) + payload
  }

  /** How a client reads a complete response frame: the length must be at
      most MAX_MSG, the body exactly that long and at least 4 bytes; the code
      is its first field and the payload the rest. */
  function DecodeResponse(frame: Bytes): Option<(nat, Bytes)>
  {
    if |frame| < 4 then None
    else
      var len := U32At(frame, 0);
      if len > MAX_MSG || |frame| != 4 + len || len < 4 then None
      else Some((U32At(frame, 4), frame[8..]))
  }

  /** Server-to-client round trip: a frame the server builds decodes to its code and payload. */
  lemma ResponseRoundTrip(code: nat, payload: Bytes)
    requires code < U32_LIMIT && 4 + |payload| <= MAX_MSG
    ensures DecodeResponse(ResponseFrame(code, payload)) == Some((code, payload))
  {
    var f := ResponseFrame(code, payload);
    assert f[0..4] == LE32(4 + |payload|) && f[4..8] == LE32(code) && f[8..] == payload;
    LE32RoundTrip(4 + |payload|);
    LE32RoundTrip(code);
  }

  /** The converse: every frame a client accepts is the frame of what it decodes to. */
  lemma DecodedResponseIsFrame(frame: Bytes)
    requires DecodeResponse(frame).Some?
    ensures var (code, payload) := DecodeResponse(frame).value;
      4 + |payload| <= MAX_MSG && frame == ResponseFrame(code, payload)
  {
    U32RoundTrip(frame[0..4]);
    U32RoundTrip(frame[4..8]);
    assert frame == frame[0..4] + frame[4..8] + frame[8..];
  }

  // ------------------------------------------------------------------
  // Text frames (the echo variant)

  /** `le32(|text|) ++ text`. */
  function TextFrame(text: Bytes): (r: Bytes)
    requires |text| < U32_LIMIT
    ensures |r| == 4 + |text|
  {
    LE32(|text|) + text
  }
}
