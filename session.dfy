/** The client's session: it issues one top-level command, matches the
    replies that come back, and drives chunked memory transfers to their
    end. The fields are those of the client's global state record; the
    socket is stood in for by the ghost log `sent` of the frames written to
    it, the dump file by `dump`, and the file being loaded by `image`. */
module Osmoload {
  import opened Wire
  import opened Protocol
  import opened Transfer
  import Commands

  /** STATE_INIT, STATE_QUERY_PENDING, STATE_DUMP_IN_PROGRESS and
      STATE_LOAD_IN_PROGRESS. */
  datatype State = Initial | QueryPending | DumpInProgress | LoadInProgress

  class Session {
    /** Byte value of each opcode, as the firmware defines them. */
    const codes: Numbering

    /** The main loop stops once this is set. */
    var quit: bool
    var state: State
    /** Opcode byte of the pending query. */
    var command: byte
    /** The 500 ms query timeout has been scheduled. */
    var timerArmed: bool
    /** The process has ended with exit status 2. */
    var exited: bool

    var reqLength: u32
    var reqAddress: u32
    var curLength: u32
    var curAddress: u32

    /** Everything written to the dump file. */
    var dump: seq<byte>
    /** The content of the file being loaded. */
    var image: seq<byte>

    /** Every frame written to the socket, oldest first. */
    ghost var sent: seq<seq<byte>>
    /** The opcode `command` holds the byte of. */
    ghost var pending: Opcode
    /** The frames sent before the current transfer started. */
    ghost var before: seq<seq<byte>>
    /** The chunks the current transfer has requested so far. */
    ghost var chunks: seq<Chunk>

    function Progress(): Job
      reads this`reqLength, this`reqAddress, this`curLength, this`curAddress
    {
      Job(reqLength, reqAddress, curLength, curAddress)
    }

    /** The session invariant: a pending query holds the byte of a request
        opcode, and a running dump or load is in the state `DumpOk` or
        `LoadOk` describes (its cursor consistent, its chunks requested so
        far the transfer's first ones, and exactly their requests sent since
        it started). */
    ghost predicate Valid()
      reads this`reqLength, this`reqAddress, this`curLength, this`curAddress, this`state, this`pending,
            this`command, this`sent, this`before, this`chunks, this`image
    {
      && Distinct(codes)
      && (state == QueryPending ==> pending != Init && command == Code(codes, pending))
      && (state == DumpInProgress ==> DumpOk(codes, Progress(), chunks, before, sent))
      && (state == LoadInProgress ==> LoadOk(codes, Progress(), chunks, before, sent, image))
    }

    /** The zero-initialised state record, with `quit` cleared. */
    constructor (codes: Numbering)
      requires Distinct(codes)
      ensures Valid() && this.codes == codes
      ensures state == Initial && !quit && !timerArmed && !exited
      ensures Progress() == Job(0, 0, 0, 0) && dump == [] && image == [] && sent == []
    {
      this.codes := codes;
      quit, state, command, timerArmed, exited := false, Initial, 0, false, false;
      reqLength, reqAddress, curLength, curAddress := 0, 0, 0, 0;
      dump, image := [], [];
      sent, pending, before, chunks := [], Init, [], [];
    }

    // -------------------------------------------------------------------
    // What a step leaves behind, stated once for the methods that share it

    /** Neither the transfer, the dump file nor the socket changed. */
    twostate predicate Quiet()
      reads this`quit, this`state, this`command, this`exited, this`reqLength, this`reqAddress,
            this`curLength, this`curAddress, this`dump, this`image, this`sent, this`pending,
            this`before, this`chunks
    {
      && dump == old(dump) && curLength == old(curLength) && curAddress == old(curAddress)
      && sent == old(sent) && chunks == old(chunks)
    }

    /** Neither the transfer, its ghost bookkeeping, the dump file nor the
        file being loaded changed. */
    twostate predicate TransferKept()
      reads this`reqLength, this`reqAddress, this`curLength, this`curAddress, this`dump, this`image,
            this`before, this`chunks
    {
      && dump == old(dump) && image == old(image) && Progress() == old(Progress())
      && before == old(before) && chunks == old(chunks)
    }

    /** The pending query, if any, is the one there was. */
    twostate predicate QueryKept()
      reads this`command, this`pending
    {
      command == old(command) && pending == old(pending)
    }

    /** The transfer's next chunk went out as `frame`, and both cursors
        moved past it. */
    twostate predicate Advanced(frame: seq<byte>)
      reads this`quit, this`state, this`command, this`exited, this`reqLength, this`reqAddress,
            this`curLength, this`curAddress, this`dump, this`image, this`sent, this`pending,
            this`before, this`chunks
    {
      && old(curLength) < old(reqLength)
      && Progress() == Step(old(Progress()))
      && sent == old(sent) + [frame]
      && chunks == old(chunks) + [Next(old(Progress()))]
    }

    /** One step of a dump: the reply's data goes to the file; then, if
        nothing remains, the run ends; otherwise the next chunk is requested
        at the cursor and both cursors move past it. */
    twostate predicate DumpStepped(data: seq<byte>)
      reads this`quit, this`state, this`command, this`exited, this`reqLength, this`reqAddress,
            this`curLength, this`curAddress, this`dump, this`image, this`sent, this`pending,
            this`before, this`chunks
    {
      && dump == old(dump) + data
      && if old(curLength) >= old(reqLength) then
           quit && Progress() == old(Progress()) && sent == old(sent) && chunks == old(chunks)
         else
           quit == old(quit) && Advanced(ReadRequest(codes, Next(old(Progress()))))
    }

    /** One step of a load: the same, with the next chunk's bytes taken from
        the image at the chunk's offset. */
    twostate predicate LoadStepped()
      reads this`quit, this`state, this`command, this`exited, this`reqLength, this`reqAddress,
            this`curLength, this`curAddress, this`dump, this`image, this`sent, this`pending,
            this`before, this`chunks
    {
      && dump == old(dump) && image == old(image)
      && if old(curLength) >= old(reqLength) then
           quit && Progress() == old(Progress()) && sent == old(sent) && chunks == old(chunks)
         else
           var c := Next(old(Progress()));
           && quit == old(quit)
           && c.offset + c.length <= |image|
           && Advanced(WriteRequest(codes, c, image))
    }

    /** What handling one received payload does. A payload too short for
        its opcode's fields is discarded. An unknown opcode ends the run and
        changes nothing else. Otherwise, by state: a pending query ends the
        run exactly when the reply carries the pending opcode; a dump
        advances only on a MEM_READ reply, and a load only on a MEM_WRITE
        reply; every other reply changes nothing. */
    twostate predicate Dispatched(payload: seq<byte>)
      reads this`quit, this`state, this`command, this`exited, this`reqLength, this`reqAddress,
            this`curLength, this`curAddress, this`dump, this`image, this`sent, this`pending,
            this`before, this`chunks
    {
      match Decode(codes, payload)
      case Truncated => quit == old(quit) && Quiet()
      case UnknownOpcode(_) => quit && Quiet()
      case Known(r) =>
        match old(state)
        case Initial => quit == old(quit) && Quiet()
        case QueryPending => (quit <==> old(quit) || r.Op() == old(pending)) && Quiet()
        case DumpInProgress =>
          if r.MemReadReply? then DumpStepped(r.data) else quit == old(quit) && Quiet()
        case LoadInProgress =>
          if r.MemWriteReply? then LoadStepped() else quit == old(quit) && Quiet()
    }

    /** A query went out: one frame with `payload`, and the session now
        waits for the reply carrying `op`. */
    ghost predicate Requested(op: Opcode, payload: seq<byte>, quit0: bool, sent0: seq<seq<byte>>)
      reads this`quit, this`state, this`command, this`exited, this`reqLength, this`reqAddress,
            this`curLength, this`curAddress, this`dump, this`image, this`sent, this`pending,
            this`before, this`chunks
    {
      && |payload| <= MSGB_MAX
      && !exited && quit == quit0
      && sent == sent0 + [Frame(payload)]
      && state == QueryPending && pending == op && command == Code(codes, op)
    }

    /** A command was refused before anything was sent. */
    ghost predicate Refused(quit0: bool, state0: State, sent0: seq<seq<byte>>)
      reads this`quit, this`state, this`command, this`exited, this`reqLength, this`reqAddress,
            this`curLength, this`curAddress, this`dump, this`image, this`sent, this`pending,
            this`before, this`chunks
    {
      exited && quit == quit0 && state == state0 && sent == sent0
    }

    /** A dump of `length` bytes at `address` started: the file is empty,
        the transfer is set up, and its first chunk is requested, or the run
        ends at once when there is nothing to dump. */
    ghost predicate DumpStarted(length: u32, address: u32, quit0: bool, sent0: seq<seq<byte>>)
      reads this`quit, this`state, this`command, this`exited, this`reqLength, this`reqAddress,
            this`curLength, this`curAddress, this`dump, this`image, this`sent, this`pending,
            this`before, this`chunks
    {
      var j := Start(length, address);
      && dump == [] && reqLength == length && reqAddress == address
      && before == sent0
      && if length == 0 then
           quit && sent == sent0 && chunks == [] && Progress() == j
         else
           && quit == quit0
           && sent == sent0 + [ReadRequest(codes, Next(j))]
           && chunks == [Next(j)] && Progress() == Step(j)
    }

    /** A load of `file` at `address` started: the length is the file size
        stored in a uint32_t, and the first chunk is requested, or the run
        ends at once when there is nothing to load. */
    ghost predicate LoadStarted(address: u32, file: seq<byte>, quit0: bool, sent0: seq<seq<byte>>)
      reads this`quit, this`state, this`command, this`exited, this`reqLength, this`reqAddress,
            this`curLength, this`curAddress, this`dump, this`image, this`sent, this`pending,
            this`before, this`chunks
    {
      var j := Start(reqLength, address);
      && image == file && reqLength == |file| % U32_MODULUS && reqAddress == address
      && before == sent0
      && if j.reqLength == 0 then
           quit && sent == sent0 && chunks == [] && Progress() == j
         else
           && quit == quit0
           && Next(j).offset + Next(j).length <= |file|
           && sent == sent0 + [WriteRequest(codes, Next(j), file)]
           && chunks == [Next(j)] && Progress() == Step(j)
    }

    /** What issuing `cmd` did: a query command sends its one request and
        waits for the reply; memput and memget do the same once their
        arguments pass their checks, and are refused otherwise; memdump and
        memload start their transfer. */
    ghost predicate Issued(cmd: Commands.Cmd, quit0: bool, state0: State, sent0: seq<seq<byte>>)
      reads this`quit, this`state, this`command, this`exited, this`reqLength, this`reqAddress,
            this`curLength, this`curAddress, this`dump, this`image, this`sent, this`pending,
            this`before, this`chunks
    {
      if cmd.MemDump? then
        !exited && state == DumpInProgress && DumpStarted(cmd.length, cmd.address, quit0, sent0)
      else if cmd.MemLoad? then
        !exited && state == LoadInProgress && LoadStarted(cmd.address, cmd.image, quit0, sent0)
      else
        match Commands.Request(codes, cmd)
        case Some(q) => Requested(q.op, q.payload, quit0, sent0)
        case None => Refused(quit0, state0, sent0)
    }

    // -------------------------------------------------------------------
    // Sending requests

    /** Writes one frame to the socket: the length prefix, then the payload. */
    method SendRequest(payload: seq<byte>)
      requires |payload| <= MSGB_MAX
      modifies this`sent
      ensures sent == old(sent) + [Frame(payload)]
    {
      sent := sent + [Frame(payload)];
    }

    /** Sends a request that is the opcode alone and waits for its reply. */
    method SendQuery(op: Opcode)
      requires Valid() && op != Init
      modifies this`sent, this`state, this`command, this`pending
      ensures Valid()
      ensures sent == old(sent) + [Frame(QueryPayload(codes, op))]
      ensures state == QueryPending && pending == op && command == Code(codes, op)
    {
      SendRequest(QueryPayload(codes, op));
      state := QueryPending;
      command := Code(codes, op);
      pending := op;
    }

    /** Sends a single MEM_READ request and waits for its reply. */
    method SendMemGet(length: byte, address: u32)
      requires Valid()
      modifies this`sent, this`state, this`command, this`pending
      ensures Valid()
      ensures sent == old(sent) + [Frame(MemGetPayload(codes, length, address))]
      ensures state == QueryPending && pending == MemRead && command == Code(codes, MemRead)
    {
      SendRequest(MemGetPayload(codes, length, address));
      state := QueryPending;
      command := Code(codes, MemRead);
      pending := MemRead;
    }

    /** Sends a single MEM_WRITE request carrying `data` and waits for its
        reply. The message buffer has room for at most MSGB_MAX bytes. */
    method SendMemPut(length: byte, address: u32, data: seq<byte>)
      requires Valid() && |data| == length && 6 + length <= MSGB_MAX
      modifies this`sent, this`state, this`command, this`pending
      ensures Valid()
      ensures sent == old(sent) + [Frame(MemPutPayload(codes, length, address, data))]
      ensures state == QueryPending && pending == MemWrite && command == Code(codes, MemWrite)
    {
      SendRequest(MemPutPayload(codes, length, address, data));
      state := QueryPending;
      command := Code(codes, MemWrite);
      pending := MemWrite;
    }

    /** Sends a JUMP request and waits for its reply. */
    method SendJump(address: u32)
      requires Valid()
      modifies this`sent, this`state, this`command, this`pending
      ensures Valid()
      ensures sent == old(sent) + [Frame(JumpPayload(codes, address))]
      ensures state == QueryPending && pending == Jump && command == Code(codes, Jump)
    {
      SendRequest(JumpPayload(codes, address));
      state := QueryPending;
      command := Code(codes, Jump);
      pending := Jump;
    }

    // -------------------------------------------------------------------
    // Chunked transfers

    /** Requests the dump's next chunk at the cursor and moves the cursor
        past it, as soon as the request is sent. */
    method SendNextRead()
      requires Valid() && state == DumpInProgress && curLength < reqLength
      modifies this`curLength, this`curAddress, this`sent, this`chunks
      ensures Valid()
      ensures Advanced(ReadRequest(codes, Next(old(Progress()))))
    {
      var j := Progress();
      var c, k := Next(j), Step(j);
      ReadStep(codes, j, chunks, before, sent);
      SendRequest(MemGetPayload(codes, c.length, c.address));
      chunks, curLength, curAddress := chunks + [c], k.curLength, k.curAddress;
      assert Progress() == k;
    }

    /** Requests the load's next chunk and moves the cursor past it. */
    method SendNextWrite()
      requires Valid() && state == LoadInProgress && curLength < reqLength
      modifies this`curLength, this`curAddress, this`sent, this`chunks
      ensures Valid()
      ensures Next(old(Progress())).offset + Next(old(Progress())).length <= |image|
      ensures Advanced(WriteRequest(codes, Next(old(Progress())), image))
    {
      var j := Progress();
      var c, k := Next(j), Step(j);
      WriteStep(codes, j, chunks, before, sent, image);
      SendRequest(MemPutPayload(codes, c.length, c.address, ChunkBytes(c, image)));
      chunks, curLength, curAddress := chunks + [c], k.curLength, k.curAddress;
      assert Progress() == k;
    }

    /** Writes the data of a MEM_READ reply to the dump file and requests
        the next chunk, or ends the run when nothing remains. The reply's
        own length and data are written as they are, unchecked. */
    method DoMemdump(data: seq<byte>)
      requires Valid() && state == DumpInProgress
      modifies this`dump, this`quit, this`curLength, this`curAddress, this`sent, this`chunks
      ensures Valid()
      ensures DumpStepped(data)
    {
      dump := dump + data;
      if curLength == reqLength {
        quit := true;
        return;
      }
      SendNextRead();
    }

    /** Requests the next chunk of a load, or ends the run when nothing
        remains. */
    method DoMemload()
      requires Valid() && state == LoadInProgress
      modifies this`quit, this`curLength, this`curAddress, this`sent, this`chunks
      ensures Valid()
      ensures LoadStepped()
    {
      if curLength == reqLength {
        quit := true;
        return;
      }
      SendNextWrite();
    }

    /** Starts a dump of `length` bytes at `address` into an emptied file. */
    method StartMemdump(length: u32, address: u32)
      requires Distinct(codes) && state == DumpInProgress
      modifies this`dump, this`quit, this`reqLength, this`reqAddress, this`curLength,
               this`curAddress, this`sent, this`chunks, this`before
      ensures Valid()
      ensures DumpStarted(length, address, old(quit), old(sent))
    {
      dump := [];
      reqLength, reqAddress := length, address;
      curLength, curAddress := 0, address;
      before, chunks := sent, [];
      assert Progress() == Start(length, address);
      DumpStart(codes, length, address, sent);
      DoMemdump([]);
    }

    /** Starts loading `file` at `address`. */
    method StartMemload(address: u32, file: seq<byte>)
      requires Distinct(codes) && state == LoadInProgress
      modifies this`image, this`quit, this`reqLength, this`reqAddress, this`curLength,
               this`curAddress, this`sent, this`chunks, this`before
      ensures Valid()
      ensures LoadStarted(address, file, old(quit), old(sent))
    {
      image := file;
      var length: u32 := |file| % U32_MODULUS;
      reqLength, reqAddress := length, address;
      curLength, curAddress := 0, address;
      before, chunks := sent, [];
      assert Progress() == Start(length, address);
      LoadStart(codes, length, address, sent, image);
      DoMemload();
    }

    /** When a dump has requested every byte, the frames it sent are the
        requests of its whole plan: ceil(N / MEM_MSG_MAX) of them, in plan
        order. */
    lemma DumpComplete()
      requires Valid() && state == DumpInProgress && curLength == reqLength
      ensures chunks == Plan(Start(reqLength, reqAddress))
      ensures sent == before + ReadRequests(codes, Plan(Start(reqLength, reqAddress)))
      ensures |sent| == |before| + (reqLength + MEM_MSG_MAX - 1) / MEM_MSG_MAX
    {
      SoFarComplete(Progress(), chunks);
      PlanCount(Start(reqLength, reqAddress));
    }

    /** When a load has sent every byte, its frames are the requests of its
        whole plan, and together they carry the image's first req_length
        bytes exactly once, in order. */
    lemma LoadComplete()
      requires Valid() && state == LoadInProgress && curLength == reqLength
      ensures chunks == Plan(Start(reqLength, reqAddress))
      ensures sent == before + WriteRequests(codes, chunks, image)
      ensures |sent| == |before| + (reqLength + MEM_MSG_MAX - 1) / MEM_MSG_MAX
      ensures PlanData(chunks, image) == image[..reqLength]
    {
      SoFarComplete(Progress(), chunks);
      PlanCount(Start(reqLength, reqAddress));
      PlanCarriesImage(Start(reqLength, reqAddress), image);
    }

    // -------------------------------------------------------------------
    // Receiving replies

    /** Takes one reply apart and acts on it according to the state. */
    method HandleReply(payload: seq<byte>)
      requires Valid()
      modifies this`quit, this`dump, this`curLength, this`curAddress, this`sent, this`chunks
      ensures Valid()
      ensures Dispatched(payload)
    {
      match Decode(codes, payload) {
        case Truncated =>
        case UnknownOpcode(_) =>
          quit := true;
        case Known(r) =>
          var cmd := payload[0];
          match state {
            case Initial =>
            case QueryPending =>
              CodeInjective(codes, pending, r.Op());
              if command == cmd {
                quit := true;
              }
            case DumpInProgress =>
              if r.MemReadReply? {
                DoMemdump(r.data);
              }
            case LoadInProgress =>
              if r.MemWriteReply? {
                DoMemload();
              }
          }
      }
    }

    /** Reads one frame off the socket: a stream with fewer than two bytes
        ends the process; a declared length over MSGB_MAX, or fewer payload
        bytes than declared, drops the frame without dispatching it;
        otherwise the payload is handled. Returns the callback's result and
        what is left of the stream. */
    method ReadCb(stream: seq<byte>) returns (rc: int, rest: seq<byte>)
      requires Valid() && !exited
      modifies this`exited, this`quit, this`dump, this`curLength, this`curAddress, this`sent, this`chunks
      ensures Valid()
      ensures ReadFrame(stream).ShortPrefix? ==> exited && quit == old(quit) && Quiet()
      ensures ReadFrame(stream).Oversized? ==>
                rc == -1 && rest == stream[2..] && !exited && quit == old(quit) && Quiet()
      ensures ReadFrame(stream).ShortPayload? ==>
                rc == -1 && rest == [] && !exited && quit == old(quit) && Quiet()
      ensures ReadFrame(stream).Delivered? ==>
                rc == 0 && rest == ReadFrame(stream).rest && !exited && Dispatched(ReadFrame(stream).payload)
    {
      match ReadFrame(stream) {
        case ShortPrefix =>
          exited := true;
          rc, rest := -1, [];
        case Oversized(_, after) =>
          rc, rest := -1, after;
        case ShortPayload(_) =>
          rc, rest := -1, [];
        case Delivered(payload, after) =>
          HandleReply(payload);
          rc, rest := 0, after;
      }
    }

    /** The query timeout fires: the process ends. */
    method Timeout()
      requires timerArmed && !exited
      modifies this`exited
      ensures exited
    {
      exited := true;
    }

    // -------------------------------------------------------------------
    // The top-level command

    /** The memput branch: the hex argument is converted into the message
        buffer and sent as one MEM_WRITE request, or refused before anything
        is sent. */
    method MemPutCommand(address: u32, hex: string)
      requires Valid() && !exited
      modifies this`exited, this`sent, this`state, this`command, this`pending
      ensures Valid()
      ensures if Commands.ValidHexBytes(hex) then
                var data := Commands.HexBytes(hex);
                Requested(MemWrite, MemPutPayload(codes, |data|, address, data), old(quit), old(sent))
              else Refused(old(quit), old(state), old(sent)) && QueryKept()
    {
      var parsed := Commands.ParseHexBytes(hex);
      match parsed {
        case Err(_) =>
          exited := true;
        case Ok(data) =>
          var length: byte := |data| % 0x100;
          SendMemPut(length, address, data);
      }
    }

    /** The memget branch: a length that passes its check is sent as one
        MEM_READ request; any other is refused before anything is sent. */
    method MemGetCommand(address: u32, count: nat)
      requires Valid() && !exited
      modifies this`exited, this`sent, this`state, this`command, this`pending
      ensures Valid()
      ensures match Commands.MemGetLength(count)
              case Ok(length) => Requested(MemRead, MemGetPayload(codes, length, address), old(quit), old(sent))
              case Err(_) => Refused(old(quit), old(state), old(sent)) && QueryKept()
    {
      match Commands.MemGetLength(count) {
        case Err(_) =>
          exited := true;
        case Ok(length) =>
          SendMemGet(length, address);
      }
    }

    /** The memdump branch: enters the dump state and starts the transfer. */
    method MemDumpCommand(address: u32, length: u32)
      requires Valid() && !exited
      modifies this`state, this`dump, this`quit, this`reqLength, this`reqAddress, this`curLength,
               this`curAddress, this`sent, this`chunks, this`before
      ensures Valid()
      ensures state == DumpInProgress && DumpStarted(length, address, old(quit), old(sent))
    {
      state := DumpInProgress;
      StartMemdump(length, address);
    }

    /** The memload branch: enters the load state and starts the transfer. */
    method MemLoadCommand(address: u32, file: seq<byte>)
      requires Valid() && !exited
      modifies this`state, this`image, this`quit, this`reqLength, this`reqAddress, this`curLength,
               this`curAddress, this`sent, this`chunks, this`before
      ensures Valid()
      ensures state == LoadInProgress && LoadStarted(address, file, old(quit), old(sent))
    {
      state := LoadInProgress;
      StartMemload(address, file);
    }

    /** The command switch's branches that send one request and wait for
        its reply: the query commands, memput, memget and jump. Refused
        arguments end the process before anything is sent, and leave the
        pending query as it was. */
    method QueryCommand(cmd: Commands.Cmd)
      requires Valid() && !exited && !cmd.MemDump? && !cmd.MemLoad?
      modifies this`exited, this`sent, this`state, this`command, this`pending
      ensures Valid()
      ensures match Commands.Request(codes, cmd)
              case Some(q) => Requested(q.op, q.payload, old(quit), old(sent))
              case None => Refused(old(quit), old(state), old(sent)) && QueryKept()
    {
      match cmd {
        case Ping => SendQuery(Opcode.Ping);
        case Off => SendQuery(PowerOff);
        case Reset => SendQuery(Opcode.Reset);
        case JumpRom => SendQuery(EnterRomLoader);
        case JumpFlash => SendQuery(EnterFlashLoader);
        case MemPut(address, hex) => MemPutCommand(address, hex);
        case MemGet(address, count) => MemGetCommand(address, count);
        case JumpTo(address) => SendJump(address);
      }
    }

    /** The command switch: runs the branch for `cmd`. A branch that sends
        one request leaves the transfer and both files alone; a transfer
        leaves the pending query and the other file alone. */
    method Issue(cmd: Commands.Cmd)
      requires Valid() && !exited
      modifies this`quit, this`state, this`command, this`exited, this`reqLength, this`reqAddress,
               this`curLength, this`curAddress, this`dump, this`image, this`sent, this`pending,
               this`before, this`chunks
      ensures Valid()
      ensures Issued(cmd, old(quit), old(state), old(sent))
      ensures !cmd.MemDump? && !cmd.MemLoad? ==> TransferKept()
      ensures !cmd.MemDump? && !cmd.MemLoad? && Commands.Request(codes, cmd).None? ==> QueryKept()
      ensures cmd.MemDump? ==> image == old(image) && QueryKept()
      ensures cmd.MemLoad? ==> dump == old(dump) && QueryKept()
    {
      if cmd.MemDump? {
        MemDumpCommand(cmd.address, cmd.length);
      } else if cmd.MemLoad? {
        MemLoadCommand(cmd.address, cmd.image);
      } else {
        QueryCommand(cmd);
      }
    }

    /** Issues one command. Arguments that fail their checks end the process
        before anything is sent. Afterwards the query timeout is armed when
        a query is pending, and never by a dump or a load. */
    method Command(cmd: Commands.Cmd)
      requires Valid() && !exited
      modifies this
      ensures Valid()
      ensures timerArmed <==> old(timerArmed) || (!exited && state == QueryPending)
      ensures Issued(cmd, old(quit), old(state), old(sent))
      ensures !cmd.MemDump? && !cmd.MemLoad? ==> TransferKept()
      ensures !cmd.MemDump? && !cmd.MemLoad? && Commands.Request(codes, cmd).None? ==> QueryKept()
      ensures cmd.MemDump? ==> image == old(image) && QueryKept()
      ensures cmd.MemLoad? ==> dump == old(dump) && QueryKept()
    {
      Issue(cmd);
      if !exited && state == QueryPending {
        timerArmed := true;
      }
    }
  }
}
