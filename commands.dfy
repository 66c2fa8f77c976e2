/** The top-level commands of the client and the checks it applies to their
    arguments before anything is sent. */
module Commands {
  import opened Wire
  import opened Protocol

  /** A command with its arguments already converted from the command line.
      `MemGet.count` is the number the length argument denotes, before it
      is stored in a uint8_t; `MemLoad.image` is the content of the file
      to load. */
  datatype Cmd =
    | Ping
    | Off
    | Reset
    | JumpRom
    | JumpFlash
    | MemPut(address: u32, hex: string)
    | MemGet(address: u32, count: nat)
    | JumpTo(address: u32)
    | MemDump(address: u32, length: u32)
    | MemLoad(address: u32, image: seq<byte>)

  /** Why a command was refused (the client prints a message and exits). */
  datatype CmdError = InvalidHex | ValueTooLong | TooManyBytes

  datatype Result<T> = Ok(value: T) | Err(error: CmdError)

  predicate IsHexDigit(c: char) {
    '0' <= c <= '9' || 'a' <= c <= 'f' || 'A' <= c <= 'F'
  }

  function DigitValue(c: char): (v: nat)
    requires IsHexDigit(c)
    ensures v < 16
  {
    if '0' <= c <= '9' then c as int - '0' as int
    else if 'a' <= c <= 'f' then c as int - 'a' as int + 10
    else c as int - 'A' as int + 10
  }

  /** Characters `2i` and `2i+1` of the argument are two hex digits. */
  predicate PairOk(hex: string, i: nat)
    requires 2 * i + 1 < |hex|
  {
    IsHexDigit(hex[2 * i]) && IsHexDigit(hex[2 * i + 1])
  }

  function PairValue(hex: string, i: nat): byte
    requires 2 * i + 1 < |hex| && PairOk(hex, i)
  {
    DigitValue(hex[2 * i]) * 16 + DigitValue(hex[2 * i + 1])
  }

  /** An argument memput accepts: an even number of hex digits, at most
      MEM_MSG_MAX bytes' worth. */
  predicate ValidHexBytes(hex: string) {
    && |hex| % 2 == 0
    && |hex| / 2 <= MEM_MSG_MAX
    && forall i :: 0 <= i < |hex| / 2 ==> PairOk(hex, i)
  }

  /** The bytes such an argument denotes, one per pair of digits. */
  function HexBytes(hex: string): (b: seq<byte>)
    requires ValidHexBytes(hex)
    ensures |b| == |hex| / 2
  {
    seq(|hex| / 2, i requires 0 <= i < |hex| / 2 => PairValue(hex, i))
  }

  /** The memput branch's conversion of its hex argument into the message
      buffer: an odd length is refused first; then pairs are converted in
      order, a bad pair among the first MEM_MSG_MAX refusing the argument,
      and a pair beyond those refusing it as too long. */
  method ParseHexBytes(hex: string) returns (r: Result<seq<byte>>)
    ensures |hex| % 2 == 1 ==> r == Err(InvalidHex)
    ensures r.Ok? <==> ValidHexBytes(hex)
    ensures r.Ok? ==> r.value == HexBytes(hex)
    ensures r == Err(ValueTooLong) <==>
              && |hex| % 2 == 0 && |hex| / 2 > MEM_MSG_MAX
              && forall i :: 0 <= i < MEM_MSG_MAX ==> PairOk(hex, i)
  {
    if |hex| % 2 == 1 {
      return Err(InvalidHex);
    }
    var buf := new byte[MEM_MSG_MAX](_ => 23);
    var i := 0;
    while i <= MEM_MSG_MAX && i < |hex| / 2
      invariant 0 <= i <= |hex| / 2 && i <= MEM_MSG_MAX
      invariant forall k :: 0 <= k < i ==> PairOk(hex, k) && buf[k] == PairValue(hex, k)
    {
      if i >= MEM_MSG_MAX {
        return Err(ValueTooLong);
      }
      if !PairOk(hex, i) {
        return Err(InvalidHex);
      }
      buf[i] := PairValue(hex, i);
      i := i + 1;
    }
    assert buf[..i] == HexBytes(hex);
    return Ok(buf[..i]);
  }

  /** The memget branch's check of its length: the number is first stored
      in a uint8_t (so only its low byte survives), and that byte is
      refused when it exceeds MEM_MSG_MAX. */
  function MemGetLength(arg: nat): (r: Result<byte>)
    ensures r.Ok? <==> arg % 0x100 <= MEM_MSG_MAX
    ensures r.Ok? ==> r.value <= MEM_MSG_MAX && r.value % 0x100 == arg % 0x100
    ensures arg <= MEM_MSG_MAX ==> r == Ok(arg)
    ensures MEM_MSG_MAX < arg < 0x100 ==> r == Err(TooManyBytes)
  {
    var length: byte := arg % 0x100;
    if length > MEM_MSG_MAX then Err(TooManyBytes) else Ok(length)
  }

  /** A request the client sends and then waits for: its opcode and its
      payload. */
  datatype Query = Query(op: Opcode, payload: seq<byte>)

  /** The one request a command other than memdump and memload sends, or
      None when its arguments are refused. Every such request fits one
      message, starts with its opcode's byte, and is one the firmware
      answers (never INIT). */
  function Request(codes: Numbering, cmd: Cmd): (q: Option<Query>)
    requires !cmd.MemDump? && !cmd.MemLoad?
    ensures q.Some? ==>
              && |q.value.payload| <= MSGB_MAX && q.value.op != Init
              && |q.value.payload| >= 1 && q.value.payload[0] == Code(codes, q.value.op)
    ensures q.None? <==>
              || (cmd.MemPut? && !ValidHexBytes(cmd.hex))
              || (cmd.MemGet? && MemGetLength(cmd.count).Err?)
  {
    match cmd
    case Ping => Some(Query(Opcode.Ping, QueryPayload(codes, Opcode.Ping)))
    case Off => Some(Query(PowerOff, QueryPayload(codes, PowerOff)))
    case Reset => Some(Query(Opcode.Reset, QueryPayload(codes, Opcode.Reset)))
    case JumpRom => Some(Query(EnterRomLoader, QueryPayload(codes, EnterRomLoader)))
    case JumpFlash => Some(Query(EnterFlashLoader, QueryPayload(codes, EnterFlashLoader)))
    case MemPut(address, hex) =>
      if ValidHexBytes(hex) then
        var data := HexBytes(hex);
        Some(Query(MemWrite, MemPutPayload(codes, |data|, address, data)))
      else None
    case MemGet(address, count) =>
      (match MemGetLength(count)
       case Ok(length) => Some(Query(MemRead, MemGetPayload(codes, length, address)))
       case Err(_) => None)
    case JumpTo(address) => Some(Query(Jump, JumpPayload(codes, address)))
  }
}
