# osmoload protocol engine, modelled in Dafny

`osmoload` is the host-side client of the OsmocomBB bootloader. It connects
to the loader over a stream socket and issues one command: a ping, a reset
or power-off, a jump into the ROM or flash loader, a single memory
peek (`memget`), poke (`memput`) or jump, or a chunked transfer that dumps a
memory range to a file (`memdump`) or loads a file into memory (`memload`).
Every message travels as a frame: a two-byte big-endian length, then the
payload, whose first byte is the opcode.

This project models the protocol engine of `src/host/osmocon/osmoload.c`
and proves properties of that model.

- `wire.dfy` (module `Wire`) covers the byte and integer encodings the
  protocol uses. These are big-endian u16 and u32 fields, and `uint32_t`
  addition, which wraps around modulo 2^32.
- `protocol.dfy` (module `Protocol`) covers the opcodes, the request
  builders, the frame, and the decoding of a reply. It also covers taking one
  frame off the inbound stream. The opcode byte values are defined in
  `loader/protocol.h`, which is not part of this model. The model takes them as a
  parameter instead (`Numbering`): nine distinct bytes, one per opcode.
- `transfer.dfy` (module `Transfer`) covers how a dump or load of N bytes
  is cut into requests of at most `MEM_MSG_MAX` (240) bytes. It does this
  through the `Plan` of a job, a closed form `ChunkAt` of its i-th request,
  and the invariant `SoFar` that ties the cursor to the chunks already
  requested.
- `commands.dfy` (module `Commands`) covers the top-level commands with
  their arguments, and the checks `loader_command` applies before it sends
  anything. These are the memput hex conversion loop and the memget length
  check.
- `session.dfy` (module `Osmoload`) covers the client's global state record
  as a class `Session`. Its methods follow the C functions one by one:
  sending each request, the dump and load steps and their starts, reply
  dispatch, the read callback, the query timeout, and the command switch
  with its timer arming.

The outside world appears in the model as follows:

- The socket is a ghost log `sent` of the frames written to it.
- The dump file is the sequence `dump`, and the file being loaded is the
  sequence `image`.
- The inbound stream is a byte sequence handed to `ReadCb`.
- A call to `exit(2)` sets the flag `exited`.
- Scheduling and expiry of the 500 ms query timer are the flag `timerArmed`
  and the method `Timeout`.

The session invariant `Valid` states the following:

- The transfer cursor satisfies `cur_address == req_address + cur_length`
  in 32-bit arithmetic.
- The chunks requested so far are exactly the first chunks of the
  transfer.
- While a transfer runs, the frames sent are the ghost log `before` of
  those sent until it began, followed by exactly those chunks' MEM_READ (or
  MEM_WRITE) requests, in order.

These facts are stated on plain values by `Transfer.DumpOk` and
`Transfer.LoadOk`. `DumpStart`/`LoadStart` establish them for a new
transfer, and `ReadStep`/`WriteStep` carry them across one request.

`DumpComplete` and `LoadComplete` follow from this invariant. When the cursor
reaches the requested length, the client has sent
ceil(N/240) requests, which are those of the whole plan. For a load,
those requests carry the image's first N bytes exactly once, in order.

Replies are read front to back: the opcode, then that opcode's fields.
Bytes after the last field are ignored, as the code ignores them.

## Model

| member | source | states |
|---|---|---|
| `Wire.WrapAdd` | src/host/osmocon/osmoload.c:426-427 | cursor advance in `uint32_t`: the plain sum when it fits, the sum minus 2^32 when it wraps once |
| `Wire.WrapAddTwice` | src/host/osmocon/osmoload.c:426-427 | two successive wrapping advances equal one advance by their sum, so stepping the cursor chunk by chunk keeps it at start + bytes requested |
| `Wire.U16Bytes` | src/host/osmocon/osmoload.c:148 | the length prefix (`htons`) is two bytes, high byte first |
| `Wire.U16Value` | src/host/osmocon/osmoload.c:290 | the length read from two prefix bytes (`ntohs`) has the first byte as its high byte and the second as its low byte |
| `Wire.U16RoundTrip` | src/host/osmocon/osmoload.c:148 | the big-endian length prefix (`htons`) read back (`ntohs`) gives the original length |
| `Wire.U32Bytes` | src/host/osmocon/osmoload.c:361 | a u32 field (`msgb_put_u32`) is four bytes, most significant first |
| `Wire.U32Value` | src/host/osmocon/osmoload.c:203 | the big-endian value of four bytes (`msgb_get_u32`); `U32RoundTrip` and `U32BytesOfValue` make it the exact inverse of `U32Bytes` |
| `Wire.U32RoundTrip` | src/host/osmocon/osmoload.c:361 | a u32 field written big-endian reads back as the same value |
| `Wire.U16BytesOfValue` | src/host/osmocon/osmoload.c:290 | any two received prefix bytes are the encoding of the length read from them |
| `Wire.U32BytesOfValue` | src/host/osmocon/osmoload.c:203 | any four received bytes are the encoding of the u32 the reader takes from them, so nothing is lost reading an address |
| `Protocol.CodeInjective` | src/host/osmocon/osmoload.c:251-253 | with distinct opcode values, comparing the pending command byte to the reply byte is comparing the opcodes, in both directions |
| `Protocol.OpcodeOf` | src/host/osmocon/osmoload.c:191-218 | a reply byte names the opcode whose value it is, or no opcode at all (the unknown-reply branch) |
| `Protocol.OpcodeOfCode` | src/host/osmocon/osmoload.c:191-212 | each opcode's own byte is recognised as that opcode |
| `Protocol.QueryPayload` | src/host/osmocon/osmoload.c:345-354 | an opcode-only request is the opcode's byte alone; `RequestReplyLayouts` shows it has its reply's layout |
| `Protocol.MemGetPayload` | src/host/osmocon/osmoload.c:356-367 | a MEM_READ request is the opcode byte, the u8 length and the big-endian address; `RequestReplyLayouts` shows the reply is this request followed by the data |
| `Protocol.MemPutPayload` | src/host/osmocon/osmoload.c:369-381 | a MEM_WRITE request is the opcode byte, the u8 length, the big-endian address and the data; `RequestReplyLayouts` shows it is its reply followed by the data |
| `Protocol.JumpPayload` | src/host/osmocon/osmoload.c:383-393 | a JUMP request is the opcode byte and the big-endian address, which is also its reply's layout |
| `Protocol.Frame` | src/host/osmocon/osmoload.c:146-166 | a frame is 2 + n bytes, its prefix holds the payload length n, and the payload follows unchanged |
| `Protocol.GetU8` | src/host/osmocon/osmoload.c:184 | a u8 is taken off the front exactly when one byte remains, and the byte plus the rest is the input |
| `Protocol.GetU32` | src/host/osmocon/osmoload.c:203 | a u32 is taken off the front exactly when four bytes remain, and its encoding plus the rest is the input |
| `Protocol.GetBytes` | src/host/osmocon/osmoload.c:204 | k raw bytes are taken exactly when k remain, and they plus the rest are the input |
| `Protocol.DecodeFields` | src/host/osmocon/osmoload.c:191-212 | the fields read after an opcode form a well-formed reply of that opcode, and their layout is a prefix of what was read |
| `Protocol.Decode` | src/host/osmocon/osmoload.c:184-218 | unknown opcode exactly when the first byte is no opcode's value; a decoded reply starts with its opcode's byte, is well formed, and its layout is a prefix of the payload |
| `Protocol.DecodeReplyPayload` | src/host/osmocon/osmoload.c:191-212 | decoding inverts the reply layout: any well-formed reply, followed by any bytes, decodes to itself |
| `Protocol.DecodeCutShort` | src/host/osmocon/osmoload.c:201-212 | a reply cut short before its last field is never mistaken for a reply; it decodes to `Truncated` |
| `Protocol.RequestReplyLayouts` | src/host/osmocon/osmoload.c:356-393 | the MEM_READ reply is its request plus the data, the MEM_WRITE request is its reply plus the data, and JUMP and opcode-only requests have the layout of their replies |
| `Protocol.EchoDecodes` | src/host/osmocon/osmoload.c:201-212 | the answer to each request the client sends decodes to the length and address it asked for (and the data, for MEM_READ) |
| `Protocol.ReadFrame` | src/host/osmocon/osmoload.c:284-303 | fewer than 2 bytes is a short read; exactly when the declared length exceeds 256 the frame is dropped after the prefix; exactly when the stream holds fewer bytes than a declared length within the limit, the payload is short, with that length; a delivered payload is at most 256 bytes and the stream is its frame plus the rest |
| `Protocol.ReadFrameOfFrame` | src/host/osmocon/osmoload.c:290-303 | framing round trip: reading back a frame the client writes, followed by anything, delivers its payload and leaves the rest |
| `Protocol.ReadFrameCutShort` | src/host/osmocon/osmoload.c:298-302 | a frame cut anywhere in its payload is dropped as a short payload, never delivered |
| `Transfer.ChunkLength` | src/host/osmocon/osmoload.c:415 | a request moves what remains capped at 240 bytes: never more than remains, and all of it when under 240 |
| `Transfer.Next` | src/host/osmocon/osmoload.c:415-421 | the next request is at the cursor's offset and address and stays within the requested length |
| `Transfer.Step` | src/host/osmocon/osmoload.c:426-427 | after a request the cursor has strictly advanced but not past the requested length, which is unchanged |
| `Transfer.StepConsistent` | src/host/osmocon/osmoload.c:426-427 | advancing both cursors by the request length keeps `cur_address == req_address + cur_length` (mod 2^32) |
| `Transfer.Plan` | src/host/osmocon/osmoload.c:407-427 | the requests a transfer makes from its cursor on: the next chunk, then the plan after one step; `PlanCount`, `PlanAt` and `PlanCovers` give its size, closed form and coverage |
| `Transfer.PlanCount` | src/host/osmocon/osmoload.c:407-427 | a transfer of r remaining bytes takes ceil(r/240) requests |
| `Transfer.PlanAt` | src/host/osmocon/osmoload.c:407-427 | request i is at offset cur + 240*i and address cur + 240*i (mod 2^32), and is 240 long unless fewer bytes are left |
| `Transfer.LastChunk` | src/host/osmocon/osmoload.c:415 | the last request carries r mod 240 bytes, or a full 240 when 240 divides r |
| `Transfer.ChunkAt` | src/host/osmocon/osmoload.c:415-427 | the i-th chunk of a transfer ends within the transfer |
| `Transfer.SoFarStep` | src/host/osmocon/osmoload.c:415-427 | the request sent next is the transfer's next chunk, and after it the requested chunks still reach exactly to the cursor |
| `Transfer.SoFarComplete` | src/host/osmocon/osmoload.c:407-413 | once the cursor reaches the requested length, the chunks requested are the whole plan of the transfer |
| `Transfer.PlanCovers` | src/host/osmocon/osmoload.c:396-428 | the plan's lengths add up to the remaining byte count, and every request lies between the cursor and the requested length |
| `Transfer.PlanCarriesImage` | src/host/osmocon/osmoload.c:442-466 | the load requests carry the file's bytes from the cursor to the requested length, each exactly once and in order |
| `Transfer.ChunkBytes` | src/host/osmocon/osmoload.c:450-459 | a chunk within the file carries the file's bytes at its offset, and always exactly its length of bytes |
| `Transfer.ReadRequestsAppend` | src/host/osmocon/osmoload.c:415-427 | requesting one more dump chunk appends exactly its MEM_READ frame to the requests so far |
| `Transfer.WriteRequestsAppend` | src/host/osmocon/osmoload.c:442-466 | writing one more load chunk appends exactly its MEM_WRITE frame to the requests so far |
| `Transfer.DumpStart` | src/host/osmocon/osmoload.c:469-486 | a dump that has just started has a consistent cursor, no chunks and no requests of its own |
| `Transfer.LoadStart` | src/host/osmocon/osmoload.c:488-516 | a load that has just started from a file at least as long as the transfer has a consistent cursor, no chunks and no requests |
| `Transfer.ReadStep` | src/host/osmocon/osmoload.c:415-427 | requesting the next chunk of a running dump and moving the cursor past it keeps the dump's invariant |
| `Transfer.WriteStep` | src/host/osmocon/osmoload.c:442-466 | the next chunk of a running load lies within the file, and writing it and moving the cursor past it keeps the load's invariant |
| `Transfer.PlanOf500At1000` | src/host/osmocon/osmoload.c:396-428 | 500 bytes at 0x1000 go as 240 at 0x1000, 240 at 0x10F0 and 20 at 0x11E0 |
| `Commands.DigitValue` | src/host/osmocon/osmoload.c:567 | a hex digit, in either case, has a value below 16 |
| `Commands.PairValue` | src/host/osmocon/osmoload.c:567-572 | a pair of hex digits denotes one byte, high digit first |
| `Commands.ValidHexBytes` | src/host/osmocon/osmoload.c:557-573 | the arguments memput accepts: an even number of hex digits, all of them valid pairs, at most 240 bytes' worth; `ParseHexBytes` accepts exactly these |
| `Commands.HexBytes` | src/host/osmocon/osmoload.c:561-573 | the hex argument denotes one byte per pair of digits |
| `Commands.ParseHexBytes` | src/host/osmocon/osmoload.c:557-573 | an odd length is invalid; the argument is accepted exactly when it is at most 240 valid pairs, and then yields their bytes; "too long" exactly when the first 240 pairs are valid and more follow |
| `Commands.MemGetLength` | src/host/osmocon/osmoload.c:585-590 | the length keeps only its low byte (`uint8_t`), and that byte is accepted exactly when it is at most 240 |
| `Commands.Request` | src/host/osmocon/osmoload.c:535-602 | every non-transfer command sends one request starting with its opcode's byte (never INIT) that fits a message, and is refused exactly for bad memput hex or a memget length over the limit |
| `Osmoload.Session.constructor` | src/host/osmocon/osmoload.c:60-83 | the zero-initialised state record: initial state, nothing sent, no timer, not quitting |
| `Osmoload.Session.SendRequest` | src/host/osmocon/osmoload.c:146-166 | exactly one frame of the payload is appended to the socket |
| `Osmoload.Session.SendQuery` | src/host/osmocon/osmoload.c:345-354 | one opcode-only frame is sent, and the session waits for that opcode |
| `Osmoload.Session.SendMemGet` | src/host/osmocon/osmoload.c:356-367 | one MEM_READ frame for length and address is sent, and the session waits for MEM_READ |
| `Osmoload.Session.SendMemPut` | src/host/osmocon/osmoload.c:369-381 | one MEM_WRITE frame carrying the data is sent, and the session waits for MEM_WRITE |
| `Osmoload.Session.SendJump` | src/host/osmocon/osmoload.c:383-393 | one JUMP frame is sent, and the session waits for JUMP |
| `Osmoload.Session.SendNextRead` | src/host/osmocon/osmoload.c:415-427 | the dump's next chunk is requested at the cursor, and both cursors move past it, keeping the invariant |
| `Osmoload.Session.SendNextWrite` | src/host/osmocon/osmoload.c:442-466 | the load's next chunk is sent with the file bytes at its offset, and both cursors move past it, keeping the invariant |
| `Osmoload.Session.DoMemdump` | src/host/osmocon/osmoload.c:396-428 | the reply data is appended to the dump file; when nothing remains the run ends, otherwise exactly the next chunk is requested |
| `Osmoload.Session.DoMemload` | src/host/osmocon/osmoload.c:430-467 | when nothing remains the run ends, otherwise exactly the next chunk is written |
| `Osmoload.Session.StartMemdump` | src/host/osmocon/osmoload.c:469-486 | the file is emptied, the job is set to (length, address, 0, address), and the first chunk is requested; a zero length ends the run at once |
| `Osmoload.Session.StartMemload` | src/host/osmocon/osmoload.c:488-516 | the length is the file size kept to 32 bits, and the first chunk is written; an empty file ends the run at once |
| `Osmoload.Session.DumpComplete` | src/host/osmocon/osmoload.c:396-428 | a finished dump has requested its whole plan: after the frames sent before it, ceil(N/240) frames, which are the MEM_READ requests of the plan in order |
| `Osmoload.Session.LoadComplete` | src/host/osmocon/osmoload.c:430-467 | a finished load has written its whole plan: after the frames sent before it, ceil(N/240) MEM_WRITE frames, whose chunks carry the image's first N bytes exactly once in order |
| `Osmoload.Session.HandleReply` | src/host/osmocon/osmoload.c:177-270 | a truncated reply is discarded; an unknown opcode ends the run; a pending query ends exactly on its own opcode; a dump advances only on MEM_READ and a load only on MEM_WRITE; nothing else changes |
| `Osmoload.Session.ReadCb` | src/host/osmocon/osmoload.c:272-310 | a short prefix exits; an oversized length or short payload returns -1 without dispatching; a complete frame is dispatched and returns 0 with the rest of the stream |
| `Osmoload.Session.Timeout` | src/host/osmocon/osmoload.c:518-522 | an expired query timer ends the process |
| `Osmoload.Session.MemPutCommand` | src/host/osmocon/osmoload.c:545-575 | valid hex is sent as one MEM_WRITE of its bytes; anything else exits before sending |
| `Osmoload.Session.MemGetCommand` | src/host/osmocon/osmoload.c:576-592 | an accepted length is sent as one MEM_READ; a refused one exits before sending |
| `Osmoload.Session.MemDumpCommand` | src/host/osmocon/osmoload.c:603-616 | enters the dump state and starts the dump |
| `Osmoload.Session.MemLoadCommand` | src/host/osmocon/osmoload.c:617-628 | enters the load state and starts the load |
| `Osmoload.Session.QueryCommand` | src/host/osmocon/osmoload.c:535-602 | each command that sends one request does so and waits for its reply, or is refused without sending and leaves the pending query as it was |
| `Osmoload.Session.Issue` | src/host/osmocon/osmoload.c:535-628 | each command either sends its one request and waits for its reply, is refused without sending, or starts its transfer; a non-transfer command leaves the transfer, its bookkeeping and both files unchanged, a refused one also the pending query, and a transfer leaves the pending query and the other file unchanged |
| `Osmoload.Session.Command` | src/host/osmocon/osmoload.c:524-640 | issues the command with everything `Issue` promises, including what it leaves unchanged, and arms the query timer exactly when a query is pending; a dump or load never arms it |

## Left out

- Opcode byte values: they come from `loader/protocol.h`, which is not part of this model. They are a parameter (nine distinct bytes).
- Protocol.Decode: a reply shorter than its opcode's fields makes the C code read past the received bytes, which is undefined. The model decodes it to `Truncated`, and `HandleReply` discards it without acting.
- Message buffer internals: the msgb library's buffers are modelled as byte sequences built and read front to back.
- `loader_do_memload`'s `fread` loop: it is replaced by slicing the file image at the cursor. The loop subtracts the count read (`c -= rc`), so one non-empty read ends it. For a regular file read in order, that one read returns exactly the chunk's bytes at its offset, which is what the model sends (`ChunkBytes`; a chunk reaching past the image, which no load produces, would carry zeros). Short reads, read errors and a file that changes size after `stat` are not modelled.
- Osmoload.Session.StartMemload: the file content is taken as given. A failing `stat` or `fopen` is an `exit(1)` I/O path and is left out; the same goes for `StartMemdump`'s `fopen`.
- Osmoload.Session.DoMemdump: `fwrite` and `ferror` on the dump file are not modelled. The file is the sequence of bytes written to it.
- Osmoload.Session.SendRequest: failed or partial `write` calls, which exit with status 2, are not modelled. Every frame is written whole.
- Osmoload.Session.ReadCb: a failed `msgb_alloc` and `read`'s `errno` are left out. A partial payload read is modelled as consuming the bytes that were there. The comparison of a negative `read` result against `sizeof(len)` is not modelled, since a stream has no negative length.
- Command-line parsing: `strtoul` and the argument-count checks that call `usage` are left out, and so are the `help` and unknown-command branches, which only print usage and exit. Addresses and the memdump length arrive as `u32` values, i.e. after the truncation to `uint32_t`. The memget count is the `unsigned long` that `strtoul` returns; the model accepts any natural number (a superset of those values) and models the `uint8_t` truncation.
- Commands.ParseHexBytes: `sscanf("%02x")` leniency is not modelled. The C code accepts leading whitespace, a sign, or a single hex digit followed by a character that is not a hex digit. The model accepts a pair exactly when both characters are hex digits.
- Printing: progress dots, hexdumps, confirmations and all other console output are left out.
- Debug flags, socket connection, the select loop, and `main`'s option handling are left out. `quit` is the flag the main loop tests.
- Osmoload.Session.Timeout: the 500 ms duration and the timer library itself are left out. Arming is the flag `timerArmed`, and expiry is a call to `Timeout`.
