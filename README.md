# redicpp in Dafny

A model of the request pipeline of redicpp, a small non-blocking key-value
server in C++, together with the clients that talk to it. Properties of the
model are proved.

- **The wire format.** Every message is a little-endian 32-bit body length
  followed by the body.
  - A request body is an argument count, then each argument as a 32-bit
    length and its bytes.
  - A response body is a 32-bit status code and a payload.
  - The echo variant sends plain text frames: a length and the text.
- **The key-value server** (`building/Server.cpp`) keeps one record per
  connection: a state (REQ, RESP, DONE) and two 4100-byte buffers with a
  fill level and a send cursor. On each readiness event it does this:
  - it reads what the socket offers;
  - it answers every complete request in the read buffer with GET, SET or
    DEL over a byte-string map;
  - it writes each response until the write would block.
- **The echo server** (root `Server.cpp`) runs the same machine but sends
  each frame back unchanged. Its connection table grows on demand. Its
  `tryOneRequest` never sets STATE_RESP before flushing (see "## Findings");
  the drain and read loops of the model run on the corrected step, which
  does.
- **The clients.**
  - `Client.cpp` frames an argument list and decodes the status and payload
    of the reply.
  - `main_v2/Client.cpp` frames a C string and reads a text frame back.
  - Both move bytes with the blocking loops `read_full` and `write_all`.

## How the model is built

- **Sockets.** The `read` and `write` system calls are replaced by a
  `Socket` object driven by two scripts fixed in advance (`sockets.dfy`).
  - Each read takes the next step: bytes delivered (none means end of
    stream), would block, or error. A delivery larger than the room offered
    is split.
  - Each write takes the next step: accept up to some number of bytes,
    would block, or error.
  - The socket records every byte read and written, so contracts can state
    exactly what went out and what was consumed.
- **The connection record.** `Conn` is a class over two `array<Byte>`
  buffers of 4100 bytes each.
  - The server operations are methods with loops that change the record in
    place.
  - Each method is proved against a pure specification of what the loop
    comes to: `KvStep`, `Drain` and `ServeReads` for the key-value server,
    and `EchoStep`, `EchoDrain` and `EchoServeReads` for the echo server.
  - The properties of those specifications are lemmas: pipelining, waiting
    for more bytes, and the buffer bounds.
- **The store.** The global `g_map` is a `Store` object holding a
  `map<Bytes, Bytes>`.
- **The connection table.** `fd2conn` is a `Registry` object holding a
  sequence of nullable connections.
- **Where both servers agree.** The code both servers share word for word
  (`tryFlushWbuf`, `stateResponse` and the compaction of the read buffer)
  is modelled once, in `transmit.dfy`.
- **Where both clients agree.** The two `readRequest` functions read a
  frame the same way: 4 header bytes, a length check against 4096, then the
  body. That read is modelled once (`BlockingIo.ReadFrame`, specified by
  `BlockingIo.ReceiveFrame`), and each client adds its own handling of the
  body.
- **Details the code decides.**
  - A SET body of at most 4096 bytes leaves at most 4096 - 19 = 4077 bytes
    for the value, and that bound is the one used (`Commands.MAX_VALUE`).
  - `cmd_is` compares the `c_str()` of the command word, so the word is cut
    at its first NUL byte (`Commands.CmdIsStopsAtNul`).

## Model

| member | source | states |
|---|---|---|
| Bytes.LE32RoundTrip | Client.cpp:109 | a 32-bit field written little-endian reads back as the same value |
| Bytes.U32RoundTrip | Client.cpp:136 | rewriting a field with the value read from it gives the same four bytes |
| Wire.ParseArgs | building/Server.cpp:145-157 | a successful argument walk yields exactly the declared number of strings |
| Wire.ParseEncodedArgs | building/Server.cpp:145-157 | arguments encoded as length and bytes after any prefix are read back exactly, in order |
| Wire.ParsedArgsAreEncoded | building/Server.cpp:145-157 | whatever the argument walk accepts is the encoding of the strings it returns, so the cursor ends exactly after them |
| Wire.ParseArgsExactLength | building/Server.cpp:147-161 | a strict prefix or extension of an accepted input is rejected: length fields past the end, and trailing bytes, give -1 |
| Wire.ParseBodyOfEncoding | building/Server.cpp:135-162 | every list of at most 1024 arguments is parsed back from its body |
| Wire.ParsedBodyIsEncoding | building/Server.cpp:135-162 | a body the parser accepts is exactly the encoding of the list it returns |
| Wire.ParseBodyExactLength | building/Server.cpp:159-161 | an accepted body followed by trailing garbage, or cut short, is rejected |
| Wire.RequestArgCountBound | building/Server.cpp:141-143 | a body of at most 4096 bytes has at most 1023 arguments, so the 1024-argument cap never rejects a client request |
| Wire.RequestRoundTrip | Client.cpp:108-119 | the client's frame carries the body length in front and a body the server parses back to the same argument list |
| Wire.ResponseRoundTrip | building/Server.cpp:248-251 | the response frame the server builds decodes to its status code and payload |
| Wire.DecodedResponseIsFrame | Client.cpp:135-156 | every frame the client accepts is the server frame of the code and payload it reports |
| Commands.CStr | building/Server.cpp:193 | `c_str()` shows a prefix of the word with no NUL, ending where the first NUL was |
| Commands.CmdIsIgnoresCase | building/Server.cpp:192-194 | command words match regardless of letter case |
| Commands.CmdIsPlainWord | building/Server.cpp:192-194 | for words without NUL, a match means equal after lower-casing, and the converse |
| Commands.CmdIsStopsAtNul | building/Server.cpp:193 | "get" followed by a NUL and any bytes still matches "get" |
| Commands.CommandWordsDistinct | building/Server.cpp:202-207 | no word matches two of get, set and del |
| Commands.Execute | building/Server.cpp:202-215 | every command is answered RES_OK, RES_ERR or RES_NX |
| Commands.GetMissing | building/Server.cpp:167-170 | GET of an absent key answers RES_NX with an empty payload and no change |
| Commands.SetThenGet | building/Server.cpp:171-182 | after SET k v, GET k answers RES_OK with v |
| Commands.DelThenGet | building/Server.cpp:185-189 | DEL answers RES_OK whether or not the key existed, and a later GET answers RES_NX |
| Commands.OnlyNamedKeyChanges | building/Server.cpp:178-190 | no key other than the named one changes; only SET and DEL change the store |
| Commands.UnknownCommand | building/Server.cpp:208-214 | anything other than get/2, set/3 or del/2 answers RES_ERR with the 11-byte "Unknown cmd" and leaves the store alone |
| Commands.ArityIsExact | building/Server.cpp:202-207 | get, set or del with one argument too few or too many is an unknown command |
| Commands.ResponsesFit | building/Server.cpp:172 | when the store starts bounded, every parsed request of at most 4096 bytes keeps stored values within 4077 bytes and gives a payload that fits behind the 8-byte header |
| Commands.ExecuteFits | building/Server.cpp:196-207 | `do_request` on a client-built body executes exactly its argument list, and the result fits |
| KvRequests.Store.constructor | building/Server.cpp:165 | the store starts empty |
| KvRequests.ParseReq | building/Server.cpp:135-163 | returns 0 exactly when the body parses, and then the list is the parsed one; otherwise -1 |
| KvRequests.DoGet | building/Server.cpp:167-176 | a present key gives RES_OK and its value copied into the response area; an absent one gives RES_NX and length 0 |
| KvRequests.DoSet | building/Server.cpp:178-183 | the key is inserted or overwritten, and RES_OK is returned |
| KvRequests.DoDel | building/Server.cpp:185-190 | the key is removed if present, and RES_OK is returned |
| KvRequests.DoRequest | building/Server.cpp:196-217 | -1 with the store untouched on a bad body; otherwise the code, new store and payload of executing the parsed command |
| ServerHeader.Conn.constructor | building/Server.h:18-26 | a new record has fd -1, state REQ, empty buffers of 4100 bytes, and satisfies the connection invariant |
| Buffers.Memcpy | building/Server.cpp:249-250 | the bytes land at the offset and nothing else in the buffer changes |
| Buffers.Memmove | building/Server.cpp:257-259 | the moved bytes arrive at the front in order, even when the ranges overlap |
| Sockets.NextRead | building/Server.cpp:273-276 | a read never delivers more than the room offered |
| Sockets.Socket.Read | building/Server.cpp:273-276 | the delivered bytes land at the read offset, the rest of the buffer is unchanged, and the transcript grows by them |
| Sockets.Socket.Write | building/Server.cpp:311-314 | an accepted write sends the front of the requested bytes |
| Transmit.Flush | building/Server.cpp:309-339 | the bytes a flush writes never exceed what was queued, and the flush ends Flushed exactly when all of it went out |
| Transmit.FlushWhole | building/Server.cpp:324-332 | one write with room for the whole buffer flushes it at once |
| Transmit.TryFlushWbuf | building/Server.cpp:309-335 | the cursor advances by the bytes written and stays within the fill level; a full write resets both counters and returns to REQ; a partial write returns true with the state unchanged; would-block changes nothing; an error sets DONE |
| Transmit.StateResponse | building/Server.cpp:337-339 | the write loop ends exactly as Flush says, and what is still unsent is the rest of the queued bytes |
| Transmit.ConsumeRequest | building/Server.cpp:256-260 | the consumed request leaves the read buffer and the remaining bytes move to the front in order |
| Transmit.SendResponse | building/Server.cpp:262-267 | with the frame queued, the connection turns to RESP and writes as Flush says; the drain goes on only after a full flush |
| Transmit.ReadIntoRbuf | building/Server.cpp:273-296 | one read offers the free room of the read buffer; what it delivers is appended to the unread bytes and to the socket transcript, and nothing else changes |
| KvServer.KvStep | building/Server.cpp:219-251 | a response consumes 4 + len bytes of the buffer and its frame fits the 4100-byte write buffer |
| KvServer.KvStepIncompleteFits | building/Server.cpp:271 | a buffer left waiting for more bytes is never full |
| KvServer.DrainFits | building/Server.cpp:271-301 | after any drain, a connection that is not done has room to read |
| KvServer.KvStepStable | building/Server.cpp:221-235 | once the front of the buffer decides an outcome, later bytes do not change it |
| KvServer.KvStepWaits | building/Server.cpp:221-235 | any strict prefix of a complete request waits for more bytes and changes nothing |
| KvServer.KvStepOfRequest | building/Server.cpp:219-251 | a client-built request is answered with the response frame of executing its arguments, consuming exactly the frame |
| KvServer.Drain | building/Server.cpp:299-302 | a drain that ends reading leaves nothing unsent; one that ends sending leaves something unsent |
| KvServer.ServeReads | building/Server.cpp:270-307 | a connection that is not done after the read loop has room left in its read buffer |
| KvServer.DrainFlushed | building/Server.cpp:262-267 | a fully flushed response is followed by the drain of the rest of the buffer on the updated store |
| KvServer.DrainFirstRequest | building/Server.cpp:219-267 | a request at the front, with room to write, is answered and the rest is drained on the new store |
| KvServer.DrainPipelined | building/Server.cpp:301 | pipelined requests are answered in arrival order, each on the store its predecessors left, and the connection returns to reading with nothing left |
| KvServer.DrainLoneRequest | building/Server.cpp:219-301 | a lone request with room to write its answer is answered and consumed, the store is the one executing it leaves, and the connection reads again |
| KvServer.FrameResponse | building/Server.cpp:248-251 | the write buffer becomes le32(4+wlen), le32(rescode) and the payload, and its size is 8 + wlen |
| KvServer.TryOneRequest | building/Server.cpp:219-268 | fewer than 4 or 4+len bytes: false and nothing changes; len over 4096 or a bad body: DONE; otherwise the response is queued and flushed, the request leaves the buffer, and the result is true exactly on a full flush |
| KvServer.AnswerRequest | building/Server.cpp:237-267 | for a complete request, the outcome is exactly the Fail or Respond outcome of KvStep |
| KvServer.ExecuteInPlace | building/Server.cpp:237-247 | do_request on the body at offset 4 fails exactly when KvStep fails, leaving the store alone; otherwise the code and the payload at offset 8 make up KvStep's response frame and the store is the one KvStep gives |
| KvServer.RespondAndSend | building/Server.cpp:248-267 | the frame header goes in front of the payload, the request leaves the read buffer, and the connection turns to RESP and writes as Flush says |
| KvServer.DrainOnce | building/Server.cpp:301 | one round of the drain loop follows Drain |
| KvServer.DrainRequests | building/Server.cpp:301 | the drain loop reaches exactly the state, buffer, store and socket transcript Drain gives |
| KvServer.TryFillRbuf | building/Server.cpp:270-303 | would-block: nothing changes; EOF or error: DONE, whatever is buffered; otherwise the bytes are appended, stay within the capacity, and requests are drained in arrival order |
| KvServer.ServeBuffered | building/Server.cpp:299-302 | after a delivery, the requests in the buffer are drained as Drain says, the connection keeps its invariant, and it reads on exactly when Drain ends reading |
| KvServer.ReadOnce | building/Server.cpp:305-307 | one round of the read loop follows ServeReads |
| KvServer.StateRequest | building/Server.cpp:305-307 | the read loop reaches exactly the outcome ServeReads gives, and keeps the connection invariant |
| KvServer.ConnectionIO | building/Server.cpp:341-349 | a reading connection runs the read loop; a sending one runs the write loop; no other state is accepted |
| KvServer.ConnPutInPlace | building/Server.cpp:103-105 | as written: the slot is assigned without growing the table, so the descriptor must already be in range |
| KvServer.FirstAcceptOutOfRange | building/Server.cpp:35 | the table starts empty, so no descriptor is in range on the first accept |
| KvServer.AcceptNewConn | building/Server.cpp:107-131 | corrected (files the connection with the growing Registries.ConnPut, not KvServer.ConnPutInPlace): a failed accept or allocation returns -1 with the table unchanged; otherwise a REQ connection with empty buffers is filed under its descriptor |
| Registries.Registry.constructor | Server.cpp:42 | the table starts empty |
| Registries.ConnPut | Server.cpp:139-144 | the table grows to at least fd+1 slots, the connection is stored at fd, every other slot keeps its value (new slots are null), and a table indexed by descriptor stays so |
| EchoServer.EchoStep | Server.cpp:173-190 | an echoed frame is the first 4 + len bytes of the buffer and fits the write buffer |
| EchoServer.EchoDrain | Server.cpp:227-228 | corrected (drains on EchoServer.TryOneRequest): a drain that ends reading leaves nothing unsent |
| EchoServer.EchoServeReads | Server.cpp:201-233 | corrected (drains on EchoServer.TryOneRequest): a connection that is not done after the read loop has room left in its read buffer |
| EchoServer.EchoWaitFits | Server.cpp:202 | a buffer left waiting for more bytes is never full |
| EchoServer.EchoDrainFits | Server.cpp:202-227 | corrected (drains on EchoServer.TryOneRequest): after any drain, a connection that is not done has room to read |
| EchoServer.EchoWaits | Server.cpp:174-186 | any strict prefix of a complete frame waits for more bytes |
| EchoServer.EchoOfTextFrame | Server.cpp:177-190 | a text client's frame is echoed whole, and exactly it is consumed |
| EchoServer.EchoPipelined | Server.cpp:227 | pipelined frames come back byte for byte in arrival order, and the connection returns to reading with nothing left |
| EchoServer.EchoFirstFrame | Server.cpp:173-199 | a whole frame at the front, with a write that takes it at once, goes back before whatever the rest of the bytes lead to |
| EchoServer.CopyFrame | Server.cpp:188-190 | wbuf[0..4+len) equals rbuf[0..4+len) byte for byte, and wbuf_size = 4 + len |
| EchoServer.MoveFrame | Server.cpp:188-196 | the frame at the front of the read buffer becomes the unsent bytes and the read buffer keeps only what follows it |
| EchoServer.TryOneRequest | Server.cpp:173-199 | corrected (state set to RESP before flushing): short buffers give false and no change; len over 4096 gives DONE; otherwise the frame is echoed and consumed, and the result is true exactly on a full flush |
| EchoServer.TryOneRequestAsWritten | Server.cpp:173-199 | as written: after a partial write that then blocks, the result is true, the state is still REQ, and the cursor is left part way through the frame |
| EchoServer.SendInPlace | Server.cpp:197-198 | as written: flushing without leaving REQ; a partial write that then blocks returns true in REQ with the cursor where the write stopped |
| EchoServer.OneByteFrame | Server.cpp:177-190 | the frame of the text "a" is echoed whole |
| EchoServer.PartialThenBlocked | Server.cpp:235-262 | a write of 2 of 5 bytes followed by would-block ends the flush Blocked after 2 bytes |
| EchoServer.StaleCursorAfterPartialWrite | Server.cpp:197-198 | on that input the written code returns true with state REQ, cursor 2 and size 5 |
| EchoServer.DrainOnce | Server.cpp:227 | corrected (drains on EchoServer.TryOneRequest): one round of the drain loop follows EchoDrain |
| EchoServer.DrainRequests | Server.cpp:227 | corrected (drains on EchoServer.TryOneRequest): the drain loop reaches exactly what EchoDrain gives |
| EchoServer.TryFillRbuf | Server.cpp:201-229 | corrected (drains on EchoServer.TryOneRequest): would-block: nothing changes; EOF or error: DONE; otherwise the bytes are appended within the capacity and frames are echoed in arrival order |
| EchoServer.ServeBuffered | Server.cpp:225-228 | corrected (drains on EchoServer.TryOneRequest): after a delivery, the frames in the buffer are echoed as EchoDrain says, and the connection reads on exactly when EchoDrain ends reading |
| EchoServer.ReadOnce | Server.cpp:231-233 | corrected (drains on EchoServer.TryOneRequest): one round of the read loop follows EchoServeReads |
| EchoServer.StateRequest | Server.cpp:231-233 | corrected (drains on EchoServer.TryOneRequest): the read loop reaches exactly what EchoServeReads gives, and keeps the connection invariant |
| EchoServer.ConnectionIO | Server.cpp:264-272 | corrected (drains on EchoServer.TryOneRequest): a reading connection runs the read loop; a sending one runs the write loop; no other state is accepted |
| EchoServer.AcceptNewConn | Server.cpp:148-171 | a failed accept returns -1 with the table unchanged; otherwise a REQ connection with empty buffers is filed under its descriptor, the table growing as needed |
| BlockingIo.Gather | main_v2/Client.cpp:53-69 | reading n bytes yields exactly n on success and fewer on failure |
| BlockingIo.Scatter | main_v2/Client.cpp:78-94 | writing n bytes sends at most n, and succeeds exactly when all n went out |
| BlockingIo.ReadFull | main_v2/Client.cpp:53-69 | the bytes read land in order at the offset, nothing else in the buffer changes, and 0 is returned exactly when all n arrived; the first read returning 0 or failing gives -1 |
| BlockingIo.WriteAll | main_v2/Client.cpp:78-94 | the bytes written are the front of the n given, in order, and 0 is returned exactly when all n went out |
| BlockingIo.GatherOne | main_v2/Client.cpp:55-66 | one delivery of at least n bytes completes the read, and its excess stays for the next read |
| BlockingIo.GatherPieces | main_v2/Client.cpp:55-66 | bytes arriving in any number of non-empty pieces are read whole by one read_full of their total |
| BlockingIo.ScatterOne | main_v2/Client.cpp:80-91 | one write with room for all n bytes completes the write |
| BlockingIo.ScatterRooms | main_v2/Client.cpp:80-91 | writes that each take some bytes complete the write whenever their rooms add up to n |
| BlockingIo.ReadFrame | main_v2/Client.cpp:115-144 | the framed read shared by both clients: 4 header bytes, a length over 4096 refused with -1 before any body byte is read, then exactly len body bytes at offset 4; the result is 0 exactly when ReceiveFrame accepts, and the socket consumes what ReceiveFrame says |
| BlockingIo.ReceivedIsFrame | main_v2/Client.cpp:115-144 | whatever the framed read accepts is a whole frame of at most 4096 bytes: the bytes read are le32(len) followed by the body |
| BlockingIo.ReceiveWholeFrame | main_v2/Client.cpp:115-144 | a frame that arrives in one delivery is read exactly, and the rest of the script is left for the next read |
| ArgClient.WrappedSumIsModulo | Client.cpp:100-103 | the uint32_t sum as written is the true sum modulo 2^32 |
| ArgClient.WrappedBodyLenIsModulo | Client.cpp:100-103 | the length as written agrees with the body length exactly when that fits in 32 bits |
| ArgClient.WrapBypassesLimit | Client.cpp:100-107 | a body of 2^32 bytes is counted as 0 and passes the 4096-byte check |
| ArgClient.EncodeArgsSnoc | Client.cpp:113-118 | one more argument appends its length field and its bytes to the encoding |
| ArgClient.SumLengths | Client.cpp:100-103 | corrected (sums without the `uint32_t` wrap-around; ArgClient.WrapBypassesLimit is the as-written half): the summing loop computes 4 + the sum of (4 + size) over the arguments |
| ArgClient.PutArg | Client.cpp:114-117 | one turn of the copy loop appends the argument's length and bytes at the cursor |
| ArgClient.FillRequest | Client.cpp:108-118 | the buffer then starts with le32(len), le32(argc) and each argument as length and bytes, and the cursor ends at 4 + len |
| ArgClient.SendRequest | Client.cpp:99-120 | corrected (length summed without the `uint32_t` wrap-around; ArgClient.WrapBypassesLimit is the as-written half): a body over 4096 bytes gives -1 before anything is written; otherwise exactly the request frame is handed to write_all, and 0 means all of it went out |
| ArgClient.ReceiveTooLong | Client.cpp:137-140 | a header over 4096 gives -1 without reading any body |
| ArgClient.ReceivedIsDecoded | Client.cpp:122-157 | what the client accepts is a well-formed response, and the status and payload it reports are the frame's |
| ArgClient.ReceiveResponseFrame | Client.cpp:122-157 | a server frame that arrives whole is read exactly, with its status and payload unchanged |
| ArgClient.ReadRequest | Client.cpp:122-158 | reads 4 bytes, refuses a length over 4096, reads that many body bytes, refuses a body under 4 bytes, and reports le32 of body[0..4) and body[4..len) |
| ArgClient.QueryRoundTrip | Client.cpp:99-158 | a request from sendRequest, answered by the key-value server, comes back to readRequest as the status and payload of executing it |
| TextClient.TextRequestOfPlain | main_v2/Client.cpp:99-113 | a NUL-free string of at most 4096 bytes is sent as its text frame; a longer one is refused |
| TextClient.TextRequestLimit | main_v2/Client.cpp:101-105 | a 4096-byte text is sent and a 4097-byte one refused |
| TextClient.SendText | main_v2/Client.cpp:99-113 | a text over 4096 bytes gives -1 before writing; otherwise le32(len) and the len text bytes, 4 + len in all, are handed to write_all |
| TextClient.ReadText | main_v2/Client.cpp:115-150 | reads 4 bytes, refuses a length over 4096, reads exactly len body bytes, and gives -1 when they do not all arrive |
| TextClient.EchoRoundTrip | main_v2/Client.cpp:107-112 | a text sent by the client is echoed byte for byte and read back as the same text |

## Left out

- Socket setup and teardown (`socket`, `bind`, `listen`, `connect`, `close`, `fcntl`), `die`/`abort`, destructors and `stop()`: operating-system setup with no logic to model.
- The `poll()` event loop, including its interest set and the teardown of DONE connections: it depends on operating-system readiness, and the per-connection work it dispatches is modelled by `ConnectionIO`.
- The `EINTR` retry loops around `read` and `write`: an interrupted call is not a script step, so the retry is invisible in the model.
- The distinction between "EOF" and "read() error" in the clients: it only selects a diagnostic message, and both paths return -1.
- Logging and printing: `msg`, `fprintf`, `std::cout` (including the echo server's "Client says" line and the clients' printing of the reply), and `logRequest`.
- The `accept_mutex` and other concurrency: the model is single-threaded.
- `read_full` and `write_all` in root `Server.cpp`: nothing in the server calls them.
- KvRequests.DoGet, KvRequests.DoRequest: the store's values are assumed to be at most 4077 bytes (`Store.Valid`). That is an invariant of the store, proved preserved by `Commands.ResponsesFit`; the source only asserts it.
- EchoServer.EchoDrain, EchoServer.EchoServeReads, EchoServer.EchoDrainFits, EchoServer.DrainOnce, EchoServer.DrainRequests, EchoServer.TryFillRbuf, EchoServer.ServeBuffered, EchoServer.ReadOnce, EchoServer.StateRequest, EchoServer.ConnectionIO: these run on the corrected `EchoServer.TryOneRequest`. The as-written drain after a write that blocks is not modelled: the loop staying in REQ and overwriting the unsent echo with the next frame, the stale `wbuf_sent` cursor, and the unsigned underflow of `wbuf_size - wbuf_sent` at Server.cpp:238. Only the single step is modelled as written (`EchoServer.TryOneRequestAsWritten`). Where every write takes its frame whole (`EchoServer.EchoPipelined`, `TextClient.EchoRoundTrip`), the written and corrected code agree.
- TextClient.ReadText: it reports the received body; the source's NUL terminator and its printing of the body up to the first NUL are not part of the contract.

## Findings

| source | as written | input that shows it | evidently intended | confidence | as-written member | corrected member |
|---|---|---|---|---|---|---|
| Client.cpp:100-107 | the body length is summed in a `uint32_t`, so it wraps at 2^32 before the 4096-byte check | one argument of 2^32 - 8 bytes: the sum wraps to 0, the check passes, and the copy loop writes the argument far past the 4100-byte `wbuf` | sum without wrapping, so such a request is refused with -1 | not executed; high | ArgClient.WrapBypassesLimit | ArgClient.SendRequest |
| Server.cpp:197 | the echo `tryOneRequest` calls `stateResponse` without first setting STATE_RESP | frame of the text "a" (5 bytes); a write takes 2 bytes and the next would block: the call returns true in state REQ with 3 bytes unsent, the drain loop goes on, and the connection is polled only for reading | set STATE_RESP before flushing, as building/Server.cpp:263 does | not executed; high | EchoServer.StaleCursorAfterPartialWrite | EchoServer.TryOneRequest |
| building/Server.cpp:103-105 | `connPut` stores into `fd2conn[conn->fd]` without growing the table, and the table starts empty (building/Server.cpp:35) | the first accepted connection, whatever its descriptor: the store is out of range | grow the table to fd + 1 slots first, as Server.cpp:139-144 does | not executed; high | KvServer.FirstAcceptOutOfRange | Registries.ConnPut |
