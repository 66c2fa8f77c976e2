/** The wire format of the bootloader protocol: opcodes, the layout of each
    request and reply, and the frame that carries one message over the
    stream (a 2-byte big-endian length prefix followed by the payload). */
module Protocol {
  import opened Wire

  /** Size of the buffer every message is built in and read into. */
  const MSGB_MAX: nat := 256

  /** Largest memory payload one request may carry. */
  const MEM_MSG_MAX: nat := MSGB_MAX - 16

  /** The protocol's opcodes. `Init` is only ever sent by the loader. */
  datatype Opcode =
    | Init
    | Ping
    | Reset
    | PowerOff
    | EnterRomLoader
    | EnterFlashLoader
    | MemRead
    | MemWrite
    | Jump

  /** Opcodes whose messages carry nothing but the opcode byte. */
  predicate NoFields(op: Opcode) {
    !(op.MemRead? || op.MemWrite? || op.Jump?)
  }

  /** The byte value of each opcode, listed in the order of the constructors
      of `Opcode`. The firmware fixes these values; the model takes them as
      a parameter. */
  type Numbering = s: seq<byte> | |s| == 9 witness [0, 1, 2, 3, 4, 5, 6, 7, 8]

  function Index(op: Opcode): (i: nat)
    ensures i < 9
  {
    match op
    case Init => 0
    case Ping => 1
    case Reset => 2
    case PowerOff => 3
    case EnterRomLoader => 4
    case EnterFlashLoader => 5
    case MemRead => 6
    case MemWrite => 7
    case Jump => 8
  }

  /** No two opcodes share a byte value. */
  predicate Distinct(codes: Numbering) {
    forall i, j :: 0 <= i < j < 9 ==> codes[i] != codes[j]
  }

  function Code(codes: Numbering, op: Opcode): byte {
    codes[Index(op)]
  }

  lemma CodeInjective(codes: Numbering, a: Opcode, b: Opcode)
    requires Distinct(codes)
    ensures Code(codes, a) == Code(codes, b) <==> a == b
  {
    if a != b {
      assert Index(a) != Index(b);
      if Index(a) < Index(b) {
        assert codes[Index(a)] != codes[Index(b)];
      } else {
        assert codes[Index(b)] != codes[Index(a)];
      }
    }
  }

  /** The opcode a received byte names, if any; every other byte is an
      unknown reply. */
  function OpcodeOf(codes: Numbering, b: byte): (r: Option<Opcode>)
    ensures r.Some? ==> Code(codes, r.value) == b
    ensures r.None? ==> forall op :: Code(codes, op) != b
  {
    if b == Code(codes, Init) then Some(Init)
    else if b == Code(codes, Ping) then Some(Ping)
    else if b == Code(codes, Reset) then Some(Reset)
    else if b == Code(codes, PowerOff) then Some(PowerOff)
    else if b == Code(codes, EnterRomLoader) then Some(EnterRomLoader)
    else if b == Code(codes, EnterFlashLoader) then Some(EnterFlashLoader)
    else if b == Code(codes, MemRead) then Some(MemRead)
    else if b == Code(codes, MemWrite) then Some(MemWrite)
    else if b == Code(codes, Jump) then Some(Jump)
    else None
  }

  lemma OpcodeOfCode(codes: Numbering, op: Opcode)
    requires Distinct(codes)
    ensures OpcodeOf(codes, Code(codes, op)) == Some(op)
  {
    var r := OpcodeOf(codes, Code(codes, op));
    CodeInjective(codes, r.value, op);
  }

  // ---------------------------------------------------------------------
  // Requests, as the client lays them out

  /** A request made of the opcode alone (ping, reset, power-off and the
      two loader jumps). */
  function QueryPayload(codes: Numbering, op: Opcode): seq<byte> {
    [Code(codes, op)]
  }

  /** MEM_READ request: opcode, u8 length, u32 address. */
  function MemGetPayload(codes: Numbering, length: byte, address: u32): seq<byte> {
    [Code(codes, MemRead), length] + U32Bytes(address)
  }

  /** MEM_WRITE request: opcode, u8 length, u32 address, then the bytes. */
  function MemPutPayload(codes: Numbering, length: byte, address: u32, data: seq<byte>): seq<byte>
    requires |data| == length
  {
    [Code(codes, MemWrite), length] + U32Bytes(address) + data
  }

  /** JUMP request: opcode, u32 address. */
  function JumpPayload(codes: Numbering, address: u32): seq<byte> {
    [Code(codes, Jump)] + U32Bytes(address)
  }

  /** The bytes written to the stream for one message: the payload length
      as a big-endian u16, then the payload. The prefix counts the payload
      only, never itself. */
  function Frame(payload: seq<byte>): (f: seq<byte>)
    requires |payload| <= MSGB_MAX
    ensures |f| == 2 + |payload|
    ensures U16Value(f[0], f[1]) == |payload|
    ensures f[2..] == payload
  {
    U16RoundTrip(|payload|);
    U16Bytes(|payload|) + payload
  }

  // ---------------------------------------------------------------------
  // Replies, as the loader lays them out and the client takes them apart

  /** A decoded reply. `Notice` stands for the replies without fields
      (INIT, PING, RESET, POWEROFF, ENTER_ROM_LOADER, ENTER_FLASH_LOADER). */
  datatype Reply =
    | Notice(op: Opcode)
    | MemReadReply(length: byte, address: u32, data: seq<byte>)
    | MemWriteReply(length: byte, address: u32)
    | JumpReply(address: u32)
  {
    function Op(): Opcode {
      match this
      case Notice(op) => op
      case MemReadReply(_, _, _) => MemRead
      case MemWriteReply(_, _) => MemWrite
      case JumpReply(_) => Jump
    }
  }

  predicate WellFormed(r: Reply) {
    && (r.Notice? ==> NoFields(r.op))
    && (r.MemReadReply? ==> |r.data| == r.length)
  }

  /** The fields of a reply, in the order the loader lays them out after
      the opcode byte. */
  function Fields(r: Reply): seq<byte> {
    match r
    case Notice(_) => []
    case MemReadReply(length, address, data) => [length] + U32Bytes(address) + data
    case MemWriteReply(length, address) => [length] + U32Bytes(address)
    case JumpReply(address) => U32Bytes(address)
  }

  /** The payload the loader sends for a reply. */
  function ReplyPayload(codes: Numbering, r: Reply): seq<byte> {
    [Code(codes, r.Op())] + Fields(r)
  }

  /** Reading one u8 field off the front of what is left of a message. */
  function GetU8(s: seq<byte>): (r: Option<(byte, seq<byte>)>)
    ensures r.Some? <==> |s| >= 1
    ensures r.Some? ==> s == [r.value.0] + r.value.1
  {
    if |s| < 1 then None else Some((s[0], s[1..]))
  }

  /** Reading one big-endian u32 field off the front. */
  function GetU32(s: seq<byte>): (r: Option<(u32, seq<byte>)>)
    ensures r.Some? <==> |s| >= 4
    ensures r.Some? ==> s == U32Bytes(r.value.0) + r.value.1
  {
    if |s| < 4 then None
    else
      U32BytesOfValue(s[..4]);
      assert s == s[..4] + s[4..];
      Some((U32Value(s[..4]), s[4..]))
  }

  /** Reading `k` raw bytes off the front. */
  function GetBytes(s: seq<byte>, k: nat): (r: Option<(seq<byte>, seq<byte>)>)
    ensures r.Some? <==> |s| >= k
    ensures r.Some? ==> |r.value.0| == k && s == r.value.0 + r.value.1
  {
    if |s| < k then None
    else
      assert s == s[..k] + s[k..];
      Some((s[..k], s[k..]))
  }

  /** Outcome of taking a reply apart. `Truncated` is a payload too short
      for the fields of its opcode (an empty one included). */
  datatype Decoded = Known(reply: Reply) | UnknownOpcode(code: byte) | Truncated

  /** The fields that follow opcode `op`, read front to back. */
  function DecodeFields(op: Opcode, s: seq<byte>): (f: Option<Reply>)
    ensures f.Some? ==> f.value.Op() == op && WellFormed(f.value) && Fields(f.value) <= s
  {
    if NoFields(op) then Some(Notice(op))
    else if op == MemRead then
      var length :- GetU8(s);
      var address :- GetU32(length.1);
      var data :- GetBytes(address.1, length.0);
      assert s == ([length.0] + U32Bytes(address.0) + data.0) + data.1;
      Some(MemReadReply(length.0, address.0, data.0))
    else if op == MemWrite then
      var length :- GetU8(s);
      var address :- GetU32(length.1);
      assert s == ([length.0] + U32Bytes(address.0)) + address.1;
      Some(MemWriteReply(length.0, address.0))
    else
      var address :- GetU32(s);
      Some(JumpReply(address.0))
  }

  /** Taking a received payload apart: the opcode, then its fields. Bytes
      after the last field are ignored. */
  function Decode(codes: Numbering, payload: seq<byte>): (d: Decoded)
    ensures d.UnknownOpcode? <==> |payload| >= 1 && forall op :: Code(codes, op) != payload[0]
    ensures d.UnknownOpcode? ==> d.code == payload[0]
    ensures d.Known? ==> |payload| >= 1 && payload[0] == Code(codes, d.reply.Op())
    ensures d.Known? ==> WellFormed(d.reply) && ReplyPayload(codes, d.reply) <= payload
  {
    match GetU8(payload)
    case None => Truncated
    case Some(head) =>
      match OpcodeOf(codes, head.0)
      case None => UnknownOpcode(head.0)
      case Some(op) =>
        match DecodeFields(op, head.1)
        case None => Truncated
        case Some(r) => Known(r)
  }

  /** Decoding is the inverse of the loader's layout: a well-formed reply,
      with any bytes after it, decodes to itself. */
  lemma {:induction false} DecodeReplyPayload(codes: Numbering, r: Reply, tail: seq<byte>)
    requires Distinct(codes) && WellFormed(r)
    ensures Decode(codes, ReplyPayload(codes, r) + tail) == Known(r)
  {
    var p := ReplyPayload(codes, r) + tail;
    OpcodeOfCode(codes, r.Op());
    assert p[1..] == Fields(r) + tail;
    DecodeFieldsOfLayout(r, tail);
    DecodeOfFields(codes, p, r);
  }

  /** A payload whose first byte names the opcode of `r`, followed by the
      fields of `r`, decodes to `r`. */
  lemma DecodeOfFields(codes: Numbering, p: seq<byte>, r: Reply)
    requires |p| >= 1 && OpcodeOf(codes, p[0]) == Some(r.Op())
    requires DecodeFields(r.Op(), p[1..]) == Some(r)
    ensures Decode(codes, p) == Known(r)
  {
    assert GetU8(p) == Some((p[0], p[1..]));
  }

  /** The fields of a well-formed reply, read back after its opcode byte. */
  lemma DecodeFieldsOfLayout(r: Reply, tail: seq<byte>)
    requires WellFormed(r)
    ensures DecodeFields(r.Op(), Fields(r) + tail) == Some(r)
  {
    match r
    case Notice(op) =>
    case MemReadReply(length, address, data) =>
      MemReadFields(length, address, data, tail);
    case MemWriteReply(length, address) =>
      MemWriteFields(length, address, tail);
    case JumpReply(address) =>
      AddressField(address, tail);
  }

  lemma AddressField(address: u32, tail: seq<byte>)
    ensures GetU32(U32Bytes(address) + tail) == Some((address, tail))
  {
    var s := U32Bytes(address) + tail;
    U32RoundTrip(address);
    assert s[..4] == U32Bytes(address);
    assert s[4..] == tail;
  }

  lemma MemReadFields(length: byte, address: u32, data: seq<byte>, tail: seq<byte>)
    requires |data| == length
    ensures DecodeFields(MemRead, Fields(MemReadReply(length, address, data)) + tail)
            == Some(MemReadReply(length, address, data))
  {
    var after := U32Bytes(address) + (data + tail);
    assert Fields(MemReadReply(length, address, data)) + tail == [length] + after;
    assert ([length] + after)[1..] == after;
    AddressField(address, data + tail);
    assert (data + tail)[..length] == data;
    assert GetBytes(data + tail, length) == Some((data, tail));
  }

  lemma MemWriteFields(length: byte, address: u32, tail: seq<byte>)
    ensures DecodeFields(MemWrite, Fields(MemWriteReply(length, address)) + tail)
            == Some(MemWriteReply(length, address))
  {
    var after := U32Bytes(address) + tail;
    assert Fields(MemWriteReply(length, address)) + tail == [length] + after;
    assert ([length] + after)[1..] == after;
    AddressField(address, tail);
  }

  /** A reply cut short anywhere before its last field decodes to
      `Truncated`: it is never mistaken for another reply. */
  lemma {:induction false} DecodeCutShort(codes: Numbering, r: Reply, k: nat)
    requires Distinct(codes) && WellFormed(r)
    requires k < |ReplyPayload(codes, r)|
    ensures Decode(codes, ReplyPayload(codes, r)[..k]) == Truncated
  {
    var p := ReplyPayload(codes, r)[..k];
    if k > 0 {
      OpcodeOfCode(codes, r.Op());
      assert p[0] == Code(codes, r.Op());
      assert |p[1..]| == k - 1;
    }
  }

  /** The request and reply layouts agree field by field: a MEM_READ reply
      is the request followed by the data, a MEM_WRITE request is its reply
      followed by the data, and JUMP and the opcode-only requests are echoed
      unchanged. */
  lemma RequestReplyLayouts(codes: Numbering, op: Opcode, length: byte, address: u32, data: seq<byte>)
    requires |data| == length
    ensures ReplyPayload(codes, MemReadReply(length, address, data)) == MemGetPayload(codes, length, address) + data
    ensures MemPutPayload(codes, length, address, data) == ReplyPayload(codes, MemWriteReply(length, address)) + data
    ensures JumpPayload(codes, address) == ReplyPayload(codes, JumpReply(address))
    ensures QueryPayload(codes, op) == ReplyPayload(codes, Notice(op))
  {
  }

  /** What the client decodes from the echo of each request it can send:
      the length and address it asked for, plus the data for MEM_READ. */
  lemma {:induction false} EchoDecodes(codes: Numbering, op: Opcode, length: byte, address: u32, data: seq<byte>)
    requires Distinct(codes) && NoFields(op) && |data| == length
    ensures Decode(codes, MemGetPayload(codes, length, address) + data) == Known(MemReadReply(length, address, data))
    ensures Decode(codes, MemPutPayload(codes, length, address, data)) == Known(MemWriteReply(length, address))
    ensures Decode(codes, JumpPayload(codes, address)) == Known(JumpReply(address))
    ensures Decode(codes, QueryPayload(codes, op)) == Known(Notice(op))
  {
    RequestReplyLayouts(codes, op, length, address, data);
    DecodeReplyPayload(codes, MemReadReply(length, address, data), []);
    assert ReplyPayload(codes, MemReadReply(length, address, data)) + [] == MemGetPayload(codes, length, address) + data;
    DecodeReplyPayload(codes, MemWriteReply(length, address), data);
    DecodeReplyPayload(codes, JumpReply(address), []);
    assert ReplyPayload(codes, JumpReply(address)) + [] == JumpPayload(codes, address);
    DecodeReplyPayload(codes, Notice(op), []);
    assert ReplyPayload(codes, Notice(op)) + [] == QueryPayload(codes, op);
  }

  // ---------------------------------------------------------------------
  // Taking one frame off the inbound stream

  /** What one read of the stream yields. A frame whose declared length is
      over MSGB_MAX is dropped after its prefix, leaving its payload unread;
      a frame with fewer payload bytes than declared is dropped with the
      bytes that were there. */
  datatype Intake =
    | ShortPrefix
    | Oversized(declared: nat, rest: seq<byte>)
    | ShortPayload(declared: nat)
    | Delivered(payload: seq<byte>, rest: seq<byte>)

  function ReadFrame(stream: seq<byte>): (r: Intake)
    ensures r.ShortPrefix? <==> |stream| < 2
    ensures r.Oversized? <==> |stream| >= 2 && U16Value(stream[0], stream[1]) > MSGB_MAX
    ensures r.Oversized? ==> r == Oversized(U16Value(stream[0], stream[1]), stream[2..])
    ensures r.ShortPayload? <==>
              |stream| >= 2 && U16Value(stream[0], stream[1]) <= MSGB_MAX &&
              |stream| < 2 + U16Value(stream[0], stream[1])
    ensures r.ShortPayload? ==> r.declared == U16Value(stream[0], stream[1])
    ensures r.Delivered? ==> |r.payload| <= MSGB_MAX && stream == Frame(r.payload) + r.rest
  {
    if |stream| < 2 then ShortPrefix
    else
      var declared := U16Value(stream[0], stream[1]);
      if declared > MSGB_MAX then Oversized(declared, stream[2..])
      else if |stream| - 2 < declared then ShortPayload(declared)
      else
        var payload := stream[2..2 + declared];
        U16BytesOfValue(stream[0], stream[1]);
        assert stream[..2] == [stream[0], stream[1]];
        assert stream == Frame(payload) + stream[2 + declared..];
        Delivered(payload, stream[2 + declared..])
  }

  /** Framing round trip: a frame the client sends, read back off a stream
      with anything after it, delivers its payload and leaves the rest. */
  lemma ReadFrameOfFrame(payload: seq<byte>, more: seq<byte>)
    requires |payload| <= MSGB_MAX
    ensures ReadFrame(Frame(payload) + more) == Delivered(payload, more)
  {
    var s := Frame(payload) + more;
    assert s[..2] == Frame(payload)[..2];
    assert s[2..2 + |payload|] == payload;
    assert s[2 + |payload|..] == more;
  }

  /** A frame cut short anywhere in its payload is dropped, never delivered. */
  lemma ReadFrameCutShort(payload: seq<byte>, k: nat)
    requires |payload| <= MSGB_MAX && k < |payload|
    ensures ReadFrame(Frame(payload)[..2 + k]) == ShortPayload(|payload|)
  {
    var s := Frame(payload)[..2 + k];
    assert s[0] == Frame(payload)[0] && s[1] == Frame(payload)[1];
  }
}
