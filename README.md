# UDP stop-and-wait file transfer, modelled in Dafny

The system is a small file-transfer program over UDP: a client
(`client_dir/uftp_client.c`) and a server (`server_dir/uftp_server.c`).
The two files come from different revisions of the protocol, and each is
modelled against its own environment.

The **client** reads a command line (`ls`, `delete`, `exit`, `put <file>`,
`get <file>`). It picks the verb by prefix and extracts the file name. It
then sends the command as one frame and runs a reply loop until `END`,
`EXIT`, an error token or a timeout.
- A frame is the payload followed by a 4-byte sequence trailer. The trailer
  is the `unsigned int` counter, copied in little-endian byte order.
- `sendPacket` is a bounded stop-and-wait sender. It makes at most six
  transmissions and takes any datagram as the acknowledgement.
- `getPacket` sends `GEN_ACK` for every datagram it receives. It discards
  datagrams whose trailer is not the expected number.
- `sendFile` cuts a file into reads of at most 1024 bytes. It sends them
  with consecutive numbers, then `END`.

The **server** has no framing and no acknowledgements. It handles `exit`,
`ls` and `get` by prefix, and answers anything else with `BADINPT`. Its
`sendPacket` calls `sendto` until the whole packet is counted as sent.

Sockets, files and the console are replaced by inputs:
- Each `recvfrom` outcome is an element of a `seq<Recv>`
  (`Timeout | Datagram(bytes) | RecvError`). Once the sequence is used up,
  every further wait times out.
- The server's `sendto` results are a `seq<int>`. Once that is used up, a
  call sends the whole remainder.
- File contents are byte sequences. A directory listing is a sequence of
  names.

Every client method and the server's `SendPacket` return what they put on
the wire and the inputs they did not consume. The server's `ListDirectory`,
`ReadFile` and `HandleRequest` return the packets they hand to `sendPacket`.
Every method is proved equal to a specification function. The protocol properties are
lemmas about those functions.

Modules:
- `Base`: bytes, the wrapping 32-bit counter, and the C string primitives
  (`bzero`, `strcspn`, `strcmp`, `strncmp`).
- `Tokens`: the control tokens and verbs.
- `Framing`: frames and trailers.
- `Chunking`: the `fread` loop.
- `ClientTransport`: `sendPacket`, `getPacket`, `sendFile`.
- `ClientSession`: the classifier, the file name, the reply loop, a command
  and a session.
- `Server`: dispatch, the get file name, the readdir and fread loops, and
  the send-all loop.

A `get` of a file that is missing on the server still leaves an empty
local file. The client opens the local file with `fopen(name, "w")`
(client_dir/uftp_client.c:133) before it sends the request.
`ClientSession.Command` models that: see `CommandFiles` below.

## Model

| member | source | states |
|---|---|---|
| Base.Succ | client_dir/uftp_client.c:146 | `send_byte_order++` (and every other `++` on a sequence counter) adds one modulo 2^32 |
| Base.SpanUntil | client_dir/uftp_client.c:94 | `strcspn`: no stop byte occurs before the returned index, and a stop byte sits at it unless the input ends there |
| Base.CString | client_dir/uftp_client.c:175 | the C string in a buffer is the NUL-free prefix that ends at the first NUL |
| Base.TokenIsPrefix | client_dir/uftp_client.c:175-181 | `strcmp(buf, t) == 0` holds exactly when `buf` starts with `t` and a NUL or the buffer's end follows it |
| Framing.NumberRoundTrip | client_dir/uftp_client.c:257 | reading the 4 trailer bytes back gives the sequence number that was written |
| Framing.TrailerRoundTrip | client_dir/uftp_client.c:351 | every 4-byte trailer is the encoding of the number read from it |
| Framing.Frame | client_dir/uftp_client.c:253-257 | a frame of a `len`-byte payload is `len + 4` bytes long |
| Framing.Trailer | client_dir/uftp_client.c:351 | the sequence number is the little-endian value of the datagram's last 4 bytes (no contract of its own; its round trips are `TrailerRoundTrip` and `FrameRoundTrip`) |
| Framing.Payload | client_dir/uftp_client.c:359 | the payload is the datagram without its last 4 bytes, which follow it |
| Framing.FrameRoundTrip | client_dir/uftp_client.c:253-257 | decoding a frame gives back its payload and its sequence number |
| Framing.UnframeRoundTrip | client_dir/uftp_client.c:351-361 | every datagram of at least 4 bytes is the frame of its payload and trailer |
| Chunking.Chunks | client_dir/uftp_client.c:319-324 | each `fread` chunk holds between 1 and 1024 bytes |
| Chunking.ChunksFlatten | client_dir/uftp_client.c:319-324 | the chunks of a file, concatenated in order, are the file |
| Chunking.ChunksShape | server_dir/uftp_server.c:143-148 | there are ceil(size/1024) chunks; all but the last are full; an empty file has none |
| ClientTransport.Received | client_dir/uftp_client.c:276 | `recvfrom` keeps a datagram that fits the buffer whole, and exactly the first `cap` bytes of a longer one |
| ClientTransport.FirstAnswer | client_dir/uftp_client.c:271-291 | the first of the next waits that does not time out, or the limit if they all do |
| ClientTransport.Send | client_dir/uftp_client.c:271-291 | `sendPacket` transmits between 1 and 6 times and consumes one receive outcome per transmission |
| ClientTransport.SendPacket | client_dir/uftp_client.c:247-313 | the goto retry loop equals `Send`, and every transmission is the same frame of the payload and number |
| ClientTransport.SendGivesUpAfterSix | client_dir/uftp_client.c:278-291 | `sendPacket` returns -1 exactly when six waits in a row time out, after exactly six transmissions |
| ClientTransport.SendAcceptsAnyReply | client_dir/uftp_client.c:298-312 | the first datagram is the acknowledgement, whatever it holds; its (truncated) length is returned |
| ClientTransport.Get | client_dir/uftp_client.c:329-362 | `getPacket` consumes input only; a returned payload is at most 1024 bytes |
| ClientTransport.GetPacket | client_dir/uftp_client.c:329-362 | the do-while loop equals `Get`, and everything it sends is `GEN_ACK` |
| ClientTransport.Stale | client_dir/uftp_client.c:351-356 | a datagram is skipped when the trailer read from it is not the expected number (a definition, used by `GetSkipsStale`) |
| ClientTransport.GetAcceptsExpected | client_dir/uftp_client.c:348-361 | a frame with the expected number is acknowledged once, and its payload is returned exactly |
| ClientTransport.GetSkipsStale | client_dir/uftp_client.c:333-356 | every datagram with a different trailer is acknowledged and skipped; the result is otherwise the same |
| ClientTransport.SendFile | client_dir/uftp_client.c:315-327 | the `fread` loop then `END` equals sending the file's packets with consecutive numbers from `*byte_num` |
| ClientTransport.SendStream | client_dir/uftp_client.c:319-325 | one `sendPacket` per packet with consecutive numbers, stopping only at an `error()` (a definition; `StreamShape` and `StreamRest` state its properties) |
| ClientTransport.StreamRest | client_dir/uftp_client.c:319-325 | streaming only consumes receive outcomes, and leaves well-formed input well-formed |
| ClientTransport.StreamShape | client_dir/uftp_client.c:319-325 | one `sendPacket` per packet with numbers `seqNo + i`; each sends 1 to 6 copies of its frame; the counter advances by the number of packets; only `error()` stops early |
| ClientTransport.FileStream | client_dir/uftp_client.c:315-327 | the packets are ceil(size/1024) chunks that concatenate to the file, then `END`; an empty file sends only `END`; the counter advances by chunks + 1 |
| ClientSession.CommandText | client_dir/uftp_client.c:94-146 | the command sent is the typed text up to its first newline (or NUL) |
| ClientSession.Terminated | client_dir/uftp_client.c:89-94 | the 1024-byte zeroed buffer keeps the typed line up to its first newline (or NUL), with a NUL at that point |
| ClientSession.NameStart | client_dir/uftp_client.c:100 | the delimiter is the first space, newline or NUL of the terminated line (there always is one), and the name starts right after it |
| ClientSession.FileName | client_dir/uftp_client.c:97-101 | the file name is the NUL-free text from the name start up to the next NUL, under 256 bytes |
| ClientSession.NameAfterSpace | client_dir/uftp_client.c:97-101 | the file name is the text after the first space up to the newline; the copy is defined only when the name is under 256 bytes |
| ClientSession.NoSpaceNoName | client_dir/uftp_client.c:100-101 | a line without a space has an empty file name |
| ClientSession.Classify | client_dir/uftp_client.c:109-142 | the verb found is a prefix of the command; no verb is found only when no verb is a prefix |
| ClientSession.VerbsExclusive | client_dir/uftp_client.c:109-128 | no command starts with two different verbs |
| ClientSession.ClassifyExact | client_dir/uftp_client.c:109-128 | the command is classified as a verb exactly when it starts with that verb, so the ls, delete, exit, put, get order never matters |
| ClientSession.Parse | client_dir/uftp_client.c:89-101 | the command text fits the 1024-byte buffer |
| ClientSession.React | client_dir/uftp_client.c:175-238 | exact `EXIT` exits and exact `END` completes. Otherwise get+`NOFILE` prefix, put without the `PUT_ACK` prefix and delete+`DELETE_ERR` prefix return to the prompt, and these are the only aborts. Any other get payload is stored, a put acked with `PUT_ACK` streams the file, and delete, ls and exit replies are ignored |
| ClientSession.ReplyPrefixesAreNoTokens | client_dir/uftp_client.c:175-235 | a reply that starts with `NOFILE`, `PUT_ACK` or `DELETE_ERR` is neither exact `EXIT` nor exact `END`, so the mode tests decide it |
| ClientSession.PlainIsStored | client_dir/uftp_client.c:210-218 | a get stores a payload exactly when it is not exact `EXIT`, not exact `END` and does not start with `NOFILE` |
| ClientSession.Replies | client_dir/uftp_client.c:161-241 | the reply loop returns to the prompt only for silence, `NOFILE`, a bad put reply or `DELETE_ERR`; only get writes to the local file |
| ClientSession.TokenEndsReplies | client_dir/uftp_client.c:175-202 | an expected `EXIT` or `END` is acknowledged and ends the loop: the process exits, or the command completes |
| ClientSession.SilenceReturnsToPrompt | client_dir/uftp_client.c:166-170 | a `getPacket` timeout returns to the prompt without sending anything |
| ClientSession.GetReassembles | client_dir/uftp_client.c:161-219 | a get answered by numbered chunks and `END` writes the chunks' concatenation, sending one ack per packet and advancing the counter by chunks + 1 |
| ClientSession.PutAckStreamsFile | client_dir/uftp_client.c:220-231 | a `PUT_ACK` reply is acknowledged and then the whole file is streamed from the send counter |
| ClientSession.ReplyStep | client_dir/uftp_client.c:163-238 | one pass of the reply loop either ends it with the outcome `Replies` gives, or consumes input and continues from the state `Replies` continues from |
| ClientSession.RunReplies | client_dir/uftp_client.c:161-241 | the reply loop, with both counters reset to 0, equals `Replies` |
| ClientSession.Command | client_dir/uftp_client.c:104-241 | a command consumes receive outcomes only |
| ClientSession.CommandLocalChecks | client_dir/uftp_client.c:109-142 | each abort happens exactly when its cause holds: no verb, a put whose file `access` cannot find (a missing file or the empty name of a bare `put`), a get whose local file `fopen` cannot create (including the empty name). None of them sends anything or changes the files |
| ClientSession.CommandFirstFrame | client_dir/uftp_client.c:144-146 | a command that sends anything first sends its command text as frame 0 |
| ClientSession.CommandFiles | client_dir/uftp_client.c:128-137 | only a get changes the local files, and only its own file |
| ClientSession.RunRequest | client_dir/uftp_client.c:86-241 | one pass from `get_usr` equals `Command` |
| ClientSession.SessionOutcomes | client_dir/uftp_client.c:86-88 | commands run in turn, and the session stops only after a command that exits the process |
| ClientSession.RunSession | client_dir/uftp_client.c:86-242 | the `goto get_usr` loop over the typed lines equals `Session` |
| ClientSession.Session | client_dir/uftp_client.c:86-242 | commands run in turn from `get_usr`, and the first one that ends the process ends the session (a definition; `SessionOutcomes` states its properties) |
| Server.SendPacket | server_dir/uftp_server.c:161-172 | the send-all loop equals `SendAll` |
| Server.SendAll | server_dir/uftp_server.c:161-172 | `sendto` of the unsent tail until the count reaches `len`, ending in `error` on a negative result (a definition; the `SendAll…` lemmas state its properties) |
| Server.SendAllShape | server_dir/uftp_server.c:164-169 | a normal return counts at least the packet's length, and every `sendto` is given an unsent tail of the packet |
| Server.SendAllFailsOnlyOnError | server_dir/uftp_server.c:165-166 | without a negative `sendto` result the loop returns normally |
| Server.SendAllStopsOnError | server_dir/uftp_server.c:166 | a negative `sendto` result ends the loop in `error` |
| Server.SendAllExact | server_dir/uftp_server.c:161-172 | when every `sendto` the loop makes sends between 0 and the remaining count, the loop returns exactly `len`; results it never reaches are unconstrained |
| Server.SendAllWhole | server_dir/uftp_server.c:165-171 | a `sendto` that sends the whole packet gives one datagram equal to the packet, and returns its length |
| Server.Request | server_dir/uftp_server.c:90-91 | the request buffer is 1024 bytes |
| Server.RequestPrefix | server_dir/uftp_server.c:107 | a verb test on the zeroed buffer is the same test on the datagram |
| Server.Dispatch | server_dir/uftp_server.c:107-156 | exit is tested first, then ls, then get |
| Server.DispatchByVerb | server_dir/uftp_server.c:107-156 | a request goes to the branch of the verb it starts with; `put`, `delete` and anything else are unknown |
| Server.NameAfterSeparator | server_dir/uftp_server.c:130-132 | for a request (zeroed by `bzero` first) of the verb, a space or newline, and a name that ends the datagram or is followed by a NUL, the get file name is that name; it is defined only when under 256 bytes |
| Server.NameStart | server_dir/uftp_server.c:131 | the delimiter is the first space, newline or NUL of the buffer, or its end, and the name starts right after it |
| Server.FileName | server_dir/uftp_server.c:130-132 | the name is the NUL-free text from the name start up to the next NUL or the buffer's end |
| Server.NoSeparatorNoName | server_dir/uftp_server.c:131-132 | a short request without a separator has an empty file name |
| Server.Listing | server_dir/uftp_server.c:118-124 | one packet per directory entry |
| Server.ListDirectory | server_dir/uftp_server.c:118-126 | the readdir loop sends each entry's name with a space appended, in order, then `END` |
| Server.ReadFile | server_dir/uftp_server.c:141-150 | the fread loop sends the file's chunks, then `END` |
| Server.HandleRequest | server_dir/uftp_server.c:106-156 | one pass of the request loop equals `Response` |
| Server.Response | server_dir/uftp_server.c:106-156 | the packets handed to `sendPacket` for one request, branch by branch (a definition; the per-verb `…Replies` lemmas state its properties) |
| Server.ExitReplies | server_dir/uftp_server.c:107-111 | an `exit` request gets exactly `EXIT`, `END` |
| Server.LsReplies | server_dir/uftp_server.c:112-127 | an `ls` request gets one packet per entry in order, each the name plus a space, then `END`; if the directory cannot be opened, nothing |
| Server.GetMissingReplies | server_dir/uftp_server.c:128-138 | a `get` of a missing file gets exactly `NOFILE`, `END` |
| Server.GetFileReplies | server_dir/uftp_server.c:139-151 | a `get` of a file gets chunks of 1 to 1024 bytes that concatenate to the file, then `END`; an empty file gets only `END` |
| Server.UnknownReplies | server_dir/uftp_server.c:152-156 | any other request gets a single `BADINPT` and no `END` |
| Server.ListTwoFiles | server_dir/uftp_server.c:112-127 | `ls` when `readdir` lists exactly `a.txt` and `b.txt` gets `"a.txt "`, `"b.txt "`, `END` |

## Left out

- Socket set-up (socket, `gethostbyname`, `gethostbyaddr`, `inet_ntoa`, bind, `SO_REUSEADDR`) and the concrete receive timeouts. A timeout is a `Timeout` outcome; `setsockopt` failures are not modelled.
- Console I/O (`fgets`, `printf`, `fprintf`). The client session takes the typed lines, already parsed by `Parse`, as input.
- `error()` and `exit()`: they are the terminal outcomes `Fatal` and `Exited` (client), or `ok == false` (server send loop).
- The byte order of the trailer is fixed to little-endian (the `memcpy` of a native `unsigned int` on an x86 host).
- Undefined behaviour is excluded by preconditions, not reproduced:
  - `LineOk`: the client's 256-byte file-name copy.
  - `WellFormed`: a datagram shorter than 4 bytes reaching `getPacket` is undefined behaviour. Which datagram reaches which call is only known while running, so the whole receive stream is required to hold datagrams of at least 4 bytes, the acks `sendPacket` takes included.
  - `Server.NameOk`: the server's unbounded `strlen` and 256-byte `strncpy`.
  - `Server.EntryOk`: for an `ls` request only, every directory entry must leave room in `d_name` for the appended space.
  - Every file in `Server.Disk.files` opens for reading, because `fopen` there is unchecked.
  - `sendPacket` passes `&clientaddr`, the address of its pointer parameter, to `recvfrom`, so a received datagram overwrites that local pointer. This happens only when a datagram arrives, and `sendPacket` then returns without using the pointer again, so it is taken as harmless.
- ClientSession.Command: the local file system is an abstraction (`LocalFs`: file contents, unreadable and uncreatable names). Partial writes, `fclose` and stdio buffering are not modelled, nor is the `rw_fd` left open when a get or put aborts.
- ClientSession.Command: requires `WellFormed` of the whole receive stream, so a command whose `sendPacket` is acked by a datagram shorter than 4 bytes is outside the model, though the program handles it.
- ClientSession.Replies: requires `WellFormed` of the receive stream, so a reply loop in which a `sendPacket` (the put stream) is acked by a datagram shorter than 4 bytes is outside the model.
- ClientSession.RunReplies: requires `WellFormed` of the receive stream, for the same reason as `ClientSession.Replies`.
- ClientSession.RunRequest: requires `WellFormed` of the receive stream, for the same reason as `ClientSession.Command`.
- ClientSession.Session: requires `WellFormed` of the receive stream, so a session in which any `sendPacket` is acked by a datagram shorter than 4 bytes is outside the model.
- ClientSession.PutAckStreamsFile: requires `WellFormed` of the receive stream, so a put whose streamed chunks are acked by datagrams shorter than 4 bytes is outside the model.
- ClientSession.CommandLocalChecks: requires `WellFormed` of the receive stream, for the same reason as `ClientSession.Command`.
- ClientSession.CommandFirstFrame: requires `WellFormed` of the receive stream, for the same reason as `ClientSession.Command`.
- ClientSession.CommandFiles: requires `WellFormed` of the receive stream, for the same reason as `ClientSession.Command`.
- ClientSession.SessionOutcomes: requires `WellFormed` of the receive stream, for the same reason as `ClientSession.Session`.
- ClientSession.RunSession: requires `WellFormed` of the receive stream, for the same reason as `ClientSession.Session`.
- ClientSession.ReplyStep: requires `WellFormed` of the receive stream, for the same reason as `ClientSession.Replies`.
- ClientSession.TokenEndsReplies: requires `WellFormed` of the receive stream, for the same reason as `ClientSession.Replies`.
- ClientSession.SilenceReturnsToPrompt: requires `WellFormed` of the receive stream, for the same reason as `ClientSession.Replies`.
- ClientSession.GetReassembles: requires `WellFormed` of the receive stream, for the same reason as `ClientSession.Replies`.
- ClientTransport.SendPacket: every return resets `SO_RCVTIMEO` to `tv_usec = 0`, and with `tv_sec` at 0 that turns the receive timeout off. Every later wait, including the `getPacket` that follows a put's `sendFile`, then blocks. The model keeps the timeout: a `Timeout` outcome after those resets (for instance `Prompt(ServerSilent)` after a put) has no counterpart in the program.
- ClientTransport.SendFile: its return value (the last `fread` result) is never used by its caller, so it is not modelled.
- ClientSession.RunSession: the loop runs over the typed lines until one ends the process or the lines run out; the input running out has no counterpart in the program.
- Server: only one pass of the endless request loop is modelled. The loop carries no state from one request to the next, since `buf` is zeroed before each `recvfrom`. A failing `recvfrom` or `gethostbyaddr` ends the process and is left out.
- Server.HandleRequest: returns the packets handed to `sendPacket`. Their transmission, including a `sendto` error that ends the process part-way through the replies, is modelled separately by `Server.SendPacket`.
- Server.Disk: the directory listing and the readable files are independent inputs, so the model does not tie the names `readdir` returns to the files `access` finds.
- Server.Listing: the listing is whatever `readdir` returns, in its order. The loop does not skip `.` and `..`, so in a real directory they are sent like any other entry (`". "`, `".. "`); the model neither adds nor removes them.
- Control tokens travel in-band. A file chunk that is exactly `END` or `EXIT`, or that starts with `NOFILE`, is taken as that token by the client's reply loop; `ClientSession.GetReassembles` therefore requires plain chunks (`Plain`).
- Multiple clients sharing the server socket, and any interoperation proof between this client and this server (they are different protocol revisions).
