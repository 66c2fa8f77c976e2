/** Chunked memory transfers: how a dump or load of N bytes at address A is
    cut into requests of at most MEM_MSG_MAX bytes, one chunk at a time from
    the progress of the transfer. */
module Transfer {
  import opened Wire
  import opened Protocol

  /** Progress of one transfer: the fields req_length, req_address,
      cur_length and cur_address of the client's state. */
  datatype Job = Job(reqLength: u32, reqAddress: u32, curLength: u32, curAddress: u32)

  /** Number of bytes one request moves. */
  type ChunkSize = n: int | 1 <= n <= MEM_MSG_MAX witness 1

  /** One request of a transfer: `length` bytes at `address`, which is byte
      `offset` of the transfer. */
  datatype Chunk = Chunk(offset: nat, address: u32, length: ChunkSize)

  /** The job as it stands when a transfer of `length` bytes at `address`
      starts. */
  function Start(length: u32, address: u32): Job {
    Job(length, address, 0, address)
  }

  /** The same transfer, back at its start. */
  function Origin(j: Job): Job {
    Start(j.reqLength, j.reqAddress)
  }

  /** The cursor address is the start address plus the bytes requested so
      far (in uint32_t arithmetic), and never more than the requested
      length has been requested. */
  predicate Consistent(j: Job) {
    j.curLength <= j.reqLength && j.curAddress == WrapAdd(j.reqAddress, j.curLength)
  }

  /** Greedy chunk-length rule: what remains, capped at MEM_MSG_MAX. */
  function ChunkLength(remaining: nat): (n: ChunkSize)
    requires remaining > 0
    ensures n <= remaining
    ensures n < MEM_MSG_MAX ==> n == remaining
  {
    if remaining < MEM_MSG_MAX then remaining else MEM_MSG_MAX
  }

  /** The request that goes out next while bytes remain. */
  function Next(j: Job): (c: Chunk)
    requires j.curLength < j.reqLength
    ensures c.offset == j.curLength && c.address == j.curAddress
    ensures c.offset + c.length <= j.reqLength
  {
    Chunk(j.curLength, j.curAddress, ChunkLength(j.reqLength - j.curLength))
  }

  /** The job once that request is sent: both cursors move by its length. */
  function Step(j: Job): (k: Job)
    requires j.curLength < j.reqLength
    ensures k.reqLength == j.reqLength && k.reqAddress == j.reqAddress
    ensures j.curLength < k.curLength <= j.reqLength
  {
    var n := ChunkLength(j.reqLength - j.curLength);
    Job(j.reqLength, j.reqAddress, j.curLength + n, WrapAdd(j.curAddress, n))
  }

  /** Sending a request keeps the cursor consistent. */
  lemma StepConsistent(j: Job)
    requires Consistent(j) && j.curLength < j.reqLength
    ensures Consistent(Step(j))
  {
    WrapAddTwice(j.reqAddress, j.curLength, ChunkLength(j.reqLength - j.curLength));
  }

  /** Every request the job still has to send, in order. */
  function Plan(j: Job): seq<Chunk>
    requires j.curLength <= j.reqLength
    decreases j.reqLength - j.curLength
  {
    if j.curLength == j.reqLength then [] else [Next(j)] + Plan(Step(j))
  }

  function Min(a: int, b: int): int {
    if a < b then a else b
  }

  /** Number of requests: the remaining byte count divided by MEM_MSG_MAX,
      rounded up. */
  lemma {:induction false} PlanCount(j: Job)
    requires j.curLength <= j.reqLength
    ensures |Plan(j)| == (j.reqLength - j.curLength + MEM_MSG_MAX - 1) / MEM_MSG_MAX
    decreases j.reqLength - j.curLength
  {
    if j.curLength < j.reqLength {
      PlanCount(Step(j));
    }
  }

  /** Request `i` of the plan moves bytes `i * MEM_MSG_MAX` onwards of what
      remains, at the cursor address plus that much, and is a full
      MEM_MSG_MAX long unless fewer bytes are left. */
  lemma {:induction false} PlanAt(j: Job, i: nat)
    requires j.curLength <= j.reqLength && i < |Plan(j)|
    ensures Plan(j)[i].offset == j.curLength + i * MEM_MSG_MAX
    ensures Plan(j)[i].address == WrapAdd(j.curAddress, i * MEM_MSG_MAX)
    ensures Plan(j)[i].length == Min(MEM_MSG_MAX, j.reqLength - j.curLength - i * MEM_MSG_MAX)
    decreases i
  {
    if i > 0 {
      var k := Step(j);
      PlanAt(k, i - 1);
      assert k.curLength == j.curLength + MEM_MSG_MAX;
      WrapAddTwice(j.curAddress, MEM_MSG_MAX, (i - 1) * MEM_MSG_MAX);
    }
  }

  /** The last request carries what is left over: the remaining count
      modulo MEM_MSG_MAX, or a full MEM_MSG_MAX when it divides evenly. */
  lemma LastChunk(j: Job)
    requires j.curLength < j.reqLength
    ensures var p := Plan(j); var r := j.reqLength - j.curLength;
      p[|p| - 1].length == if r % MEM_MSG_MAX == 0 then MEM_MSG_MAX else r % MEM_MSG_MAX
  {
    var r := j.reqLength - j.curLength;
    PlanCount(j);
    var n := |Plan(j)|;
    LastOfCeiling(r);
    PlanAt(j, n - 1);
  }

  lemma LastOfCeiling(r: nat)
    requires r > 0
    ensures (r + MEM_MSG_MAX - 1) / MEM_MSG_MAX >= 1
    ensures var n := (r + MEM_MSG_MAX - 1) / MEM_MSG_MAX;
      r - (n - 1) * MEM_MSG_MAX == if r % MEM_MSG_MAX == 0 then MEM_MSG_MAX else r % MEM_MSG_MAX
  {
    var q, m := r / MEM_MSG_MAX, r % MEM_MSG_MAX;
    assert r == MEM_MSG_MAX * q + m;
    if m == 0 {
      assert (r + MEM_MSG_MAX - 1) / MEM_MSG_MAX == q;
    } else {
      assert (r + MEM_MSG_MAX - 1) / MEM_MSG_MAX == q + 1;
    }
  }

  /** Chunk `i` of a transfer of `length` bytes at `address`: bytes
      `i * MEM_MSG_MAX` onwards, at the address that many bytes on, and
      MEM_MSG_MAX long unless fewer bytes are left. */
  function ChunkAt(length: u32, address: u32, i: nat): (c: Chunk)
    requires i * MEM_MSG_MAX < length
    ensures c.offset + c.length <= length
  {
    Chunk(i * MEM_MSG_MAX, WrapAdd(address, i * MEM_MSG_MAX), Min(MEM_MSG_MAX, length - i * MEM_MSG_MAX))
  }

  /** `done` is what the job has requested so far: the transfer's first
      |done| chunks, which together reach exactly up to the cursor. */
  predicate SoFar(j: Job, done: seq<Chunk>) {
    && j.curLength == Min(j.reqLength, |done| * MEM_MSG_MAX)
    && forall i :: 0 <= i < |done| ==>
         i * MEM_MSG_MAX < j.reqLength && done[i] == ChunkAt(j.reqLength, j.reqAddress, i)
  }

  /** The request that goes out next is the transfer's next chunk. */
  lemma SoFarStep(j: Job, done: seq<Chunk>)
    requires Consistent(j) && SoFar(j, done) && j.curLength < j.reqLength
    ensures Next(j) == ChunkAt(j.reqLength, j.reqAddress, |done|)
    ensures SoFar(Step(j), done + [Next(j)])
    ensures Consistent(Step(j))
  {
    StepConsistent(j);
    assert j.curLength == |done| * MEM_MSG_MAX;
    var k := Step(j);
    assert k.curLength == Min(k.reqLength, (|done| + 1) * MEM_MSG_MAX);
  }

  /** Once the cursor reaches the requested length, what was requested is
      the whole plan of the transfer. */
  lemma SoFarComplete(j: Job, done: seq<Chunk>)
    requires SoFar(j, done) && j.curLength == j.reqLength
    ensures done == Plan(Origin(j))
  {
    var o := Origin(j);
    PlanCount(o);
    var r := j.reqLength;
    if |done| > 0 {
      assert (|done| - 1) * MEM_MSG_MAX < r <= |done| * MEM_MSG_MAX;
    }
    assert |done| == (r + MEM_MSG_MAX - 1) / MEM_MSG_MAX;
    forall i | 0 <= i < |done|
      ensures done[i] == Plan(o)[i]
    {
      PlanAt(o, i);
    }
  }

  function TotalLength(p: seq<Chunk>): nat {
    if p == [] then 0 else p[0].length + TotalLength(p[1..])
  }

  /** The plan moves exactly the remaining bytes, in contiguous chunks that
      stay within the transfer. */
  lemma {:induction false} PlanCovers(j: Job)
    requires j.curLength <= j.reqLength
    ensures TotalLength(Plan(j)) == j.reqLength - j.curLength
    ensures forall c :: c in Plan(j) ==> j.curLength <= c.offset && c.offset + c.length <= j.reqLength
    decreases j.reqLength - j.curLength
  {
    if j.curLength < j.reqLength {
      PlanCovers(Step(j));
      assert Plan(j)[1..] == Plan(Step(j));
    }
  }

  /** The bytes of `image` that the chunks of `p` carry, one after another. */
  function PlanData(p: seq<Chunk>, image: seq<byte>): seq<byte>
    requires forall c :: c in p ==> c.offset + c.length <= |image|
  {
    if p == [] then [] else image[p[0].offset..p[0].offset + p[0].length] + PlanData(p[1..], image)
  }

  /** Loading from an image: the plan's chunks carry the image's bytes
      from the cursor to the requested length, each exactly once and in
      order. */
  lemma {:induction false} PlanCarriesImage(j: Job, image: seq<byte>)
    requires j.curLength <= j.reqLength <= |image|
    ensures forall c :: c in Plan(j) ==> c.offset + c.length <= |image|
    ensures PlanData(Plan(j), image) == image[j.curLength..j.reqLength]
    decreases j.reqLength - j.curLength
  {
    if j.curLength < j.reqLength {
      var c, k := Next(j), Step(j);
      PlanCarriesImage(k, image);
      assert Plan(j)[1..] == Plan(k);
      assert k.curLength == c.offset + c.length;
      assert image[j.curLength..j.reqLength] == image[c.offset..k.curLength] + image[k.curLength..j.reqLength];
    }
  }

  /** Worked example: 500 bytes at 0x1000 go out as 240 at 0x1000, 240 at
      0x10F0 and 20 at 0x11E0. */
  lemma PlanOf500At1000()
    ensures Plan(Start(500, 0x1000)) ==
      [Chunk(0, 0x1000, 240), Chunk(240, 0x10F0, 240), Chunk(480, 0x11E0, 20)]
  {
    var j0 := Start(500, 0x1000);
    var j1 := Step(j0);
    var j2 := Step(j1);
    var j3 := Step(j2);
    assert j3.curLength == 500;
    assert Plan(j2) == [Chunk(480, 0x11E0, 20)];
    assert Plan(j1) == [Chunk(240, 0x10F0, 240)] + Plan(j2);
  }

  // ---------------------------------------------------------------------
  // The frame each chunk goes out in

  /** The MEM_READ request of a dump chunk. */
  function ReadRequest(codes: Numbering, c: Chunk): seq<byte> {
    Frame(MemGetPayload(codes, c.length, c.address))
  }

  /** The bytes a load chunk carries: the image's bytes at the chunk's
      offset. A chunk reaching past the end of the image, which no load
      produces, carries zeros. */
  function ChunkBytes(c: Chunk, image: seq<byte>): (d: seq<byte>)
    ensures |d| == c.length
    ensures c.offset + c.length <= |image| ==> d == image[c.offset..c.offset + c.length]
  {
    if c.offset + c.length <= |image| then image[c.offset..c.offset + c.length]
    else seq(c.length, _ => 0)
  }

  /** The MEM_WRITE request of a load chunk, carrying its bytes. */
  function WriteRequest(codes: Numbering, c: Chunk, image: seq<byte>): seq<byte> {
    Frame(MemPutPayload(codes, c.length, c.address, ChunkBytes(c, image)))
  }

  /** The MEM_READ requests of `chunks`, one frame per chunk, in order. */
  function ReadRequests(codes: Numbering, chunks: seq<Chunk>): (log: seq<seq<byte>>)
    ensures |log| == |chunks|
  {
    if chunks == [] then [] else [ReadRequest(codes, chunks[0])] + ReadRequests(codes, chunks[1..])
  }

  /** The MEM_WRITE requests of `chunks` for a load from `image`. */
  function WriteRequests(codes: Numbering, chunks: seq<Chunk>, image: seq<byte>): (log: seq<seq<byte>>)
    ensures |log| == |chunks|
  {
    if chunks == [] then []
    else
      [WriteRequest(codes, chunks[0], image)] + WriteRequests(codes, chunks[1..], image)
  }

  /** Requesting one more chunk appends its request. */
  lemma {:induction false} ReadRequestsAppend(codes: Numbering, chunks: seq<Chunk>, c: Chunk)
    ensures ReadRequests(codes, chunks + [c]) == ReadRequests(codes, chunks) + [ReadRequest(codes, c)]
  {
    if chunks != [] {
      assert (chunks + [c])[1..] == chunks[1..] + [c];
      ReadRequestsAppend(codes, chunks[1..], c);
    }
  }

  lemma {:induction false} WriteRequestsAppend(codes: Numbering, chunks: seq<Chunk>, image: seq<byte>, c: Chunk)
    ensures WriteRequests(codes, chunks + [c], image) ==
            WriteRequests(codes, chunks, image) + [WriteRequest(codes, c, image)]
  {
    if chunks != [] {
      assert (chunks + [c])[1..] == chunks[1..] + [c];
      WriteRequestsAppend(codes, chunks[1..], image, c);
    }
  }

  /** The state of a running dump: the cursor is consistent, the chunks
      requested so far are the transfer's first chunks up to the cursor,
      and the frames sent are those sent `before` it started followed by
      the MEM_READ request of each chunk, in order. */
  ghost predicate DumpOk(codes: Numbering, j: Job, done: seq<Chunk>, before: seq<seq<byte>>, sent: seq<seq<byte>>) {
    && Consistent(j) && SoFar(j, done)
    && sent == before + ReadRequests(codes, done)
  }

  /** The state of a running load from `image`: the same, with the
      transfer within the image and MEM_WRITE requests carrying its bytes. */
  ghost predicate LoadOk(codes: Numbering, j: Job, done: seq<Chunk>, before: seq<seq<byte>>, sent: seq<seq<byte>>,
                         image: seq<byte>) {
    && Consistent(j) && SoFar(j, done)
    && j.reqLength <= |image|
    && sent == before + WriteRequests(codes, done, image)
  }

  /** A dump starts with nothing requested. */
  lemma DumpStart(codes: Numbering, length: u32, address: u32, sent: seq<seq<byte>>)
    ensures DumpOk(codes, Start(length, address), [], sent, sent)
  {
  }

  /** A load starts with nothing requested. */
  lemma LoadStart(codes: Numbering, length: u32, address: u32, sent: seq<seq<byte>>, image: seq<byte>)
    requires length <= |image|
    ensures LoadOk(codes, Start(length, address), [], sent, sent, image)
  {
  }

  /** One dump step: sending the next chunk's MEM_READ request and moving
      the cursor past it keeps a running dump's state. */
  lemma ReadStep(codes: Numbering, j: Job, done: seq<Chunk>, before: seq<seq<byte>>, sent: seq<seq<byte>>)
    requires DumpOk(codes, j, done, before, sent) && j.curLength < j.reqLength
    ensures DumpOk(codes, Step(j), done + [Next(j)], before, sent + [ReadRequest(codes, Next(j))])
  {
    SoFarStep(j, done);
    ReadRequestsAppend(codes, done, Next(j));
  }

  /** One load step: the next chunk lies in the image, and sending its
      MEM_WRITE request and moving the cursor past it keeps a running
      load's state. */
  lemma WriteStep(codes: Numbering, j: Job, done: seq<Chunk>, before: seq<seq<byte>>, sent: seq<seq<byte>>,
                  image: seq<byte>)
    requires LoadOk(codes, j, done, before, sent, image) && j.curLength < j.reqLength
    ensures Next(j).offset + Next(j).length <= |image|
    ensures LoadOk(codes, Step(j), done + [Next(j)], before, sent + [WriteRequest(codes, Next(j), image)], image)
  {
    SoFarStep(j, done);
    WriteRequestsAppend(codes, done, image, Next(j));
  }
}
