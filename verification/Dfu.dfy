/**
 * The DFU class bootloader: a control-request state machine with a secure flag, flash
 * and EEPROM programming, upload, blank check and erase.
 */
module Dfu {
  import opened Bytes
  import opened FlashMemory
  import opened Endpoints

  datatype State = Idle | DnloadIdle | UploadIdle | Error {
    function Code(): byte {
      match this
      case Idle => 2
      case DnloadIdle => 5
      case UploadIdle => 9
      case Error => 10
    }
  }

  datatype Status = Ok | ErrWrite | ErrCheckErased | ErrAddress {
    function Code(): byte {
      match this
      case Ok => 0
      case ErrWrite => 3
      case ErrCheckErased => 5
      case ErrAddress => 8
    }
  }

  const COMMAND_PROG_START: byte := 0x01
  const COMMAND_DISP_DATA: byte := 0x03
  const COMMAND_WRITE: byte := 0x04
  const COMMAND_READ: byte := 0x05
  const COMMAND_CHANGE_BASE_ADDR: byte := 0x06

  const FILLER_SIZE: nat := 26
  const SUFFIX_SIZE: nat := 16
  const ENDPOINT_SIZE: nat := 32

  /** The five command parameter bytes; those a command does not send keep their value. */
  type Parameters = p: seq<byte> | |p| == 5 witness [0, 0, 0, 0, 0]
  type Signature = s: seq<byte> | |s| == 3 witness [0, 0, 0]

  /** The bootloader's variables, its memories and the chip's signature. */
  datatype Device = Device(
    secure: bool, running: bool, waitForExit: bool, state: State, status: Status,
    command: byte, data: Parameters, dataSize: word, response: byte, appStart: word,
    page64: byte, startAddr: word, endAddr: word, watchdog: bool,
    signature: Signature, flash: Flash, eeprom: seq<byte>)

  datatype Request =
    | Dnload(length: word, packets: seq<seq<byte>>)
    | Upload(length: word)
    | GetStatus(length: word)
    | ClrStatus(length: word)
    | GetState(length: word)
    | Abort(length: word)
    | Other(length: word)

  /** What the host sees; `detached` marks a request cut short by unplugging. */
  datatype Reply = Reply(packets: seq<seq<byte>>, stalled: bool, detached: bool)

  // ---------------------------------------------------------------------------
  // Command handlers
  // ---------------------------------------------------------------------------

  /** Chips of up to 64KB have no use for the 64KB page number. */
  function Address(chip: Chip, page64: byte, offset: word): nat {
    if chip.size > 0x10000 then page64 * 0x10000 + offset else offset
  }

  function FlashAddress(d: Device): nat { Address(d.flash.chip, d.page64, d.startAddr) }

  function LoadAddresses(d: Device): Device {
    d.(startAddr := Word(d.data[1], d.data[2]), endAddr := Word(d.data[3], d.data[4]))
  }

  function MemProg(d: Device): Device {
    if d.data[0] == 0x00 then
      var l := LoadAddresses(d);
      l.(flash := l.flash.PageErase(FlashAddress(l)), state := DnloadIdle)
    else if d.data[0] == 0x01 then LoadAddresses(d).(state := DnloadIdle)
    else d
  }

  /** The first cell from `i` on, below `end`, that is not erased. */
  function FirstProgrammed(memory: seq<byte>, i: nat, end: nat): (r: Option<nat>)
    requires i <= end <= |memory|
    ensures r.Some? ==> i <= r.value < end && memory[r.value] != ERASED
    ensures r.Some? ==> forall j :: i <= j < r.value ==> memory[j] == ERASED
    ensures r.None? ==> forall j :: i <= j < end ==> memory[j] == ERASED
    decreases end - i
  {
    if i == end then None
    else if memory[i] != ERASED then Some(i)
    else FirstProgrammed(memory, i + 1, end)
  }

  function BlankCheck(d: Device): Device {
    match FirstProgrammed(d.flash.memory, 0, d.flash.chip.bootStart)
    case None => d
    case Some(a) =>
      d.(page64 := Wrap8(a / 0x10000), startAddr := Wrap16(a), state := Error, status := ErrCheckErased)
  }

  function MemRead(d: Device): Device {
    if d.data[0] == 0x00 || d.data[0] == 0x02 then LoadAddresses(d).(state := UploadIdle)
    else if d.data[0] == 0x01 then BlankCheck(d)
    else d
  }

  predicate IsErase(d: Device) { d.data[0] == 0x00 && d.data[1] == 0xFF }

  function StartApplication(d: Device): Device {
    var w := d.(waitForExit := true);
    if d.dataSize != 0 then
      if d.data[1] == 0x01 then w.(appStart := Word(d.data[3], d.data[4])) else w
    else if d.data[1] == 0x00 then w.(watchdog := true)
    else if d.flash.Read(0) == 0xFF && d.flash.Read(1) == 0xFF then w.(running := false)
    else w
  }

  function WriteCommand(d: Device): Device {
    if d.data[0] == 0x03 then StartApplication(d)
    else if IsErase(d) then d.(flash := EraseFrom(d.flash, 0).RwwEnable(), secure := false)
    else d
  }

  function BootloaderInfo(index: byte): Option<byte> {
    match index
    case 0 => Some(0x20)
    case 1 => Some(0xDC)
    case 2 => Some(0xFB)
    case _ => None
  }

  function SignatureInfo(signature: Signature, index: byte): Option<byte> {
    match index
    case 0x30 => Some(0x58)
    case 0x31 => Some(signature[0])
    case 0x60 => Some(signature[1])
    case 0x61 => Some(signature[2])
    case _ => None
  }

  function ReadCommand(d: Device): Device {
    var answer := if d.data[0] == 0x00 then BootloaderInfo(d.data[1]) else SignatureInfo(d.signature, d.data[1]);
    if d.data[0] > 0x01 then d
    else match answer
      case Some(b) => d.(response := b)
      case None => d.(state := Error, status := ErrAddress)
  }

  /** In secure mode only information reads and the chip erase are let through. */
  predicate Rejected(d: Device) {
    d.secure && !((d.command == COMMAND_WRITE && IsErase(d)) || d.command == COMMAND_READ)
  }

  function Process(d: Device): (r: Device)
    ensures r.secure ==> d.secure
  {
    if Rejected(d) then d.(state := Error, status := ErrWrite)
    else match d.command
      case 0x01 => MemProg(d)
      case 0x03 => MemRead(d)
      case 0x04 => WriteCommand(d)
      case 0x05 => ReadCommand(d)
      case 0x06 => if d.data[0] == 0x03 && d.data[1] == 0x00 then d.(page64 := d.data[2]) else d
      case _ => d
  }

  // ---------------------------------------------------------------------------
  // The data stage of a download
  // ---------------------------------------------------------------------------

  /** Skipping filler: turning over an empty bank uses up one of the counts. */
  function Discard(e: OutEndpoint, count: nat): OutEndpoint
    decreases count
  {
    if count == 0 || e.Dry() then e
    else if e.bank == [] then Discard(e.Next(), count - 1)
    else Discard(e.Drop(), count - 1)
  }

  datatype FlashWrite = FlashWrite(flash: Flash, out: OutEndpoint, completed: bool)

  /** The flash programming loop, with `left` words to go. */
  function WriteWords(f: Flash, addr: nat, page: nat, inPage: nat, left: nat, e: OutEndpoint): (r: FlashWrite)
    ensures r.flash.chip == f.chip
    decreases left
  {
    if left == 0 then FlashWrite(f, e, true)
    else if e.Dry() then FlashWrite(f, e, false)
    else
      var r := e.Ready();
      var filled := f.PageFill(addr, r.Peek(), r.Drop().Peek());
      var rest := r.Drop().Drop();
      if left == 1 then FlashWrite(filled.PageWrite(page), rest, true)
      else if inPage + 1 == f.chip.pageSize / 2 then
        WriteWords(filled.PageWrite(page).PageErase(addr + 2), addr + 2, addr + 2, 0, left - 1, rest)
      else WriteWords(filled, addr + 2, page, inPage + 1, left - 1, rest)
  }

  /** One round of the loop. */
  lemma WriteStep(f: Flash, addr: nat, page: nat, inPage: nat, left: nat, e: OutEndpoint)
    requires left > 0 && !e.Dry()
    ensures var r := e.Ready();
      var filled := f.PageFill(addr, r.Peek(), r.Drop().Peek());
      var rest := r.Drop().Drop();
      WriteWords(f, addr, page, inPage, left, e)
      == (if left == 1 then FlashWrite(filled.PageWrite(page), rest, true)
          else if inPage + 1 == f.chip.pageSize / 2 then
            WriteWords(filled.PageWrite(page).PageErase(addr + 2), addr + 2, addr + 2, 0, left - 1, rest)
          else WriteWords(filled, addr + 2, page, inPage + 1, left - 1, rest))
  {
  }

  /** The loop ends when no word is left, or when the host has gone. */
  lemma WriteEnds(f: Flash, addr: nat, page: nat, inPage: nat, left: nat, e: OutEndpoint)
    requires left == 0 || e.Dry()
    ensures WriteWords(f, addr, page, inPage, left, e) == FlashWrite(f, e, left == 0)
  {
  }

  datatype EepromWrite = EepromWrite(eeprom: seq<byte>, addr: word, out: OutEndpoint, completed: bool)

  function WriteEeprom(m: seq<byte>, addr: word, left: nat, e: OutEndpoint): EepromWrite
    decreases left
  {
    if left == 0 then EepromWrite(m, addr, e, true)
    else if e.Dry() then EepromWrite(m, addr, e, false)
    else
      var r := e.Ready();
      WriteEeprom(UpdateByte(m, addr, r.Peek()), Wrap16(addr + 1), left - 1, r.Drop())
  }

  /** The number of bytes from the start to the end address, as a 16-bit count. */
  function BytesRemaining(d: Device): word { Wrap16(0x10000 + d.endAddr - d.startAddr + 1) }

  function Programmed(d: Device, e: OutEndpoint): (r: (Device, bool))
    ensures r.0.secure == d.secure
  {
    var body := Discard(Discard(e, FILLER_SIZE), d.startAddr % ENDPOINT_SIZE);
    if d.data[0] == 0x00 then
      var addr := FlashAddress(d);
      var w := WriteWords(d.flash, addr, addr, 0, BytesRemaining(d) / 2, body);
      if w.completed then (d.(flash := w.flash.RwwEnable(), startAddr := d.endAddr), true)
      else (d.(flash := w.flash), false)
    else
      var w := WriteEeprom(d.eeprom, d.startAddr, BytesRemaining(d), body);
      (d.(eeprom := w.eeprom, startAddr := w.addr), w.completed)
  }

  // ---------------------------------------------------------------------------
  // Requests
  // ---------------------------------------------------------------------------

  /** A 16-bit counter after `n` decrements. */
  function CountDown(x: word, n: nat): (r: word)
    requires n <= 0x10000
    ensures n <= x ==> r == x - n
  {
    Wrap16(0x10000 + x - n)
  }

  lemma CountDownAdd(x: word, m: nat, n: nat)
    requires m + n <= 0x10000
    ensures CountDown(CountDown(x, m), n) == CountDown(x, m + n)
  {
  }

  /** The command byte and as many parameters as the bank holds, at most five. */
  function TakeCommand(d: Device, e: OutEndpoint): Device {
    var n := Min(5, |e.Drop().bank|);
    d.(command := e.Peek(), data := e.Drop().bank[..n] + d.data[n..],
       dataSize := CountDown(d.dataSize, 1 + n))
  }

  function AfterCommand(e: OutEndpoint): OutEndpoint {
    var bank := e.Drop().bank;
    e.(bank := bank[Min(5, |bank|)..])
  }

  /** A pending exit is acted on first. */
  function FinishExit(d: Device): (r: Device)
    ensures r.secure ==> d.secure
  {
    if d.waitForExit then Process(d).(waitForExit := false) else d
  }

  /** Programs the data stage if one is due; the flag tells of a detach. */
  function FinishDownload(d: Device, e: OutEndpoint): (r: (Device, bool))
    ensures r.0.secure == d.secure
  {
    if d.state != DnloadIdle then (d, false)
    else if d.dataSize == 0 then (d.(state := Idle), false)
    else
      var p := Programmed(d, e);
      (p.0, !p.1)
  }

  /** The command carried by the first packet, and the data stage it may ask for. */
  function RunCommand(d: Device, packets: seq<seq<byte>>): (r: (Device, Reply))
    requires packets != []
    ensures (r.0.secure ==> d.secure) && r.1.packets == []
  {
    var e := OutEndpoint(packets[0], packets[1..]);
    var c := TakeCommand(d, e);
    var f := FinishDownload(Process(c), AfterCommand(e));
    (f.0, Reply([], Rejected(c), f.1))
  }

  function Download(before: Device, packets: seq<seq<byte>>): (r: (Device, Reply))
    ensures r.0.secure ==> before.secure
  {
    var d := FinishExit(before);
    var stalled := before.waitForExit && Rejected(before);
    if d.dataSize == 0 then
      var f := FinishDownload(d, OutEndpoint([], []));
      (f.0, Reply([], stalled, f.1))
    else if packets == [] then (d, Reply([], stalled, true))
    else
      var r := RunCommand(d, packets);
      (r.0, Reply([], stalled || r.1.stalled, r.1.detached))
  }

  function ReadFlash(f: Flash, addr: nat, n: nat): (s: seq<byte>)
    ensures |s| == n
  {
    seq<byte>(n, i requires 0 <= i < n => f.Read(addr + i))
  }

  function ReadEeprom(eeprom: seq<byte>, addr: word, n: nat): (s: seq<byte>)
    ensures |s| == n
  {
    seq<byte>(n, i requires 0 <= i < n => ReadEepromByte(eeprom, Wrap16(addr + i)))
  }

  function LittleEndian(w: word): seq<byte> { [w % 0x100, w / 0x100] }

  function UploadBytes(d: Device): seq<byte> {
    if d.state != UploadIdle then
      if d.state == Error && d.data[0] == 0x01 then LittleEndian(d.startAddr) else [d.response]
    else if d.data[0] == 0x00 then ReadFlash(d.flash, FlashAddress(d), BytesRemaining(d) / 2 * 2)
    else if d.data[0] == 0x02 then ReadEeprom(d.eeprom, d.startAddr, BytesRemaining(d))
    else []
  }

  function AfterUpload(d: Device): Device {
    if d.state != UploadIdle then d
    else if d.data[0] == 0x00 then d.(startAddr := d.endAddr, state := Idle)
    else if d.data[0] == 0x02 then d.(startAddr := Wrap16(d.startAddr + BytesRemaining(d)), state := Idle)
    else d.(state := Idle)
  }

  /** One control request to the DFU interface. */
  function Handle(before: Device, r: Request): (result: (Device, Reply))
    ensures result.0.secure ==> before.secure
  {
    var d := before.(dataSize := r.length);
    match r
    case Dnload(_, packets) => Download(d, packets)
    case Upload(_) => (AfterUpload(d), Reply(DataStage(ENDPOINT_SIZE, UploadBytes(d)), false, false))
    case GetStatus(_) => (d, Reply([[d.status.Code(), 0, 0, 0, d.state.Code(), 0]], false, false))
    case ClrStatus(_) => (d.(status := Ok), Reply([], false, false))
    case GetState(_) => (d, Reply([[d.state.Code()]], false, false))
    case Abort(_) => (d.(state := Idle), Reply([], false, false))
    case Other(_) => (d, Reply([], false, false))
  }

  /** A sequence of requests: the final state and all the replies. */
  function HandleAll(d: Device, rs: seq<Request>): (result: (Device, seq<Reply>))
    decreases |rs|
  {
    if rs == [] then (d, [])
    else
      var first := Handle(d, rs[0]);
      var rest := HandleAll(first.0, rs[1..]);
      (rest.0, [first.1] + rest.1)
  }
}
