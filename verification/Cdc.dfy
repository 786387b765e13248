/**
 * The CDC class bootloader: AVR109 commands over a byte stream, with an address that
 * increments by itself as memory is read and written.
 */
module Cdc {
  import opened Bytes
  import opened FlashMemory
  import opened Endpoints

  const EPSIZE: nat := 16
  const CR: byte := 0x0D
  const UNKNOWN: byte := 0x3F
  const YES: byte := 0x59

  const SET_ADDRESS: byte := 0x41
  const BLOCK_WRITE: byte := 0x42
  const BLOCK_READ: byte := 0x67
  const TYPE_FLASH: byte := 0x46
  const TYPE_EEPROM: byte := 0x45

  /** What the fuses and the signature row of the chip answer. */
  datatype Rows = Rows(
    lowFuse: byte, highFuse: byte, extendedFuse: byte, signature1: byte, signature2: byte, signature3: byte)

  datatype Programmer = Programmer(
    addr: nat, running: bool, lockBits: byte, rows: Rows, flash: Flash, eeprom: seq<byte>)

  /** The bytes of a command; a host that sends too few is read as sending zeros. */
  function At(input: seq<byte>, i: nat): byte { if i < |input| then input[i] else 0 }
  function Slice(input: seq<byte>, from: nat, n: nat): (s: seq<byte>)
    ensures |s| == n
  {
    seq<byte>(n, i requires 0 <= i < n => At(input, from + i))
  }

  datatype Answer = Answer(next: Programmer, response: seq<byte>)

  // ---------------------------------------------------------------------------
  // Addresses
  // ---------------------------------------------------------------------------

  /** A byte shifted left by nine in a 16-bit signed int and stored in 32 bits. */
  function ShiftNine(high: byte): nat {
    var shifted := Wrap16(high * 0x200);
    if shifted < 0x8000 then shifted else shifted + 0xFFFF_0000
  }

  function SetAddress(high: byte, low: byte): nat { ShiftNine(high) + low * 2 }

  /**
   * The address set is twice the word address exactly when that fits in 15 bits; otherwise
   * bit 15 is copied into the upper half and bit 16 is lost.
   */
  lemma SetAddressExact(high: byte, low: byte)
    ensures var double := 0x200 * (high as int) + 2 * low;
      SetAddress(high, low) == if high < 0x40 then double
                               else if high < 0x80 then 0xFFFF_0000 + double
                               else if high < 0xC0 then double - 0x1_0000
                               else 0xFFFF_0000 + double - 0x1_0000
    ensures SetAddress(high, low) == 2 * Word(high, low) <==> high < 0x40
  {
    if high < 0x40 {
      assert Wrap16(high * 0x200) == high * 0x200;
    } else if high < 0x80 {
      assert Wrap16(high * 0x200) == high * 0x200;
    } else {
      Remainder(high * 0x200, 0x10000, 1, (high - 0x80) * 0x200);
    }
  }

  /** `CurrAddress | 1` for the second byte of a word. */
  function ByteAddress(addr: nat, second: bool): nat {
    if second then addr - addr % 2 + 1 else addr
  }

  function EepromAddress(addr: nat): word { Wrap16(addr / 2) }

  // ---------------------------------------------------------------------------
  // Blocks
  // ---------------------------------------------------------------------------

  function ReadFlashBlock(f: Flash, addr: nat, second: bool, n: nat): (s: seq<byte>)
    ensures |s| == n
    decreases n
  {
    if n == 0 then []
    else
      var next := if second then Wrap32(addr + 2) else addr;
      [f.Read(ByteAddress(addr, second))] + ReadFlashBlock(f, next, !second, n - 1)
  }

  lemma ReadFlashBlockStep(f: Flash, addr: nat, second: bool, n: nat)
    ensures n > 0 ==>
            var next := if second then Wrap32(addr + 2) else addr;
            ReadFlashBlock(f, addr, second, n)
            == [f.Read(ByteAddress(addr, second))] + ReadFlashBlock(f, next, !second, n - 1)
    ensures n == 0 ==> ReadFlashBlock(f, addr, second, n) == []
  {
  }

  function ReadEepromBlock(eeprom: seq<byte>, addr: nat, n: nat): (s: seq<byte>)
    ensures |s| == n
    decreases n
  {
    if n == 0 then []
    else [ReadEepromByte(eeprom, EepromAddress(addr))] + ReadEepromBlock(eeprom, Wrap32(addr + 2), n - 1)
  }

  /** The address after `n` steps of two. */
  function Advance(addr: nat, n: nat): nat
    decreases n
  {
    if n == 0 then addr else Advance(Wrap32(addr + 2), n - 1)
  }

  /** Fills the page buffer word by word; an odd last byte is dropped. */
  function FillBlock(f: Flash, addr: nat, bytes: seq<byte>): (r: Flash)
    ensures r.chip == f.chip && r.memory == f.memory
    decreases |bytes|
  {
    if |bytes| < 2 then f else FillBlock(f.PageFill(addr, bytes[0], bytes[1]), Wrap32(addr + 2), bytes[2..])
  }

  lemma FillBlockStep(f: Flash, addr: nat, bytes: seq<byte>)
    ensures |bytes| >= 2 ==>
            FillBlock(f, addr, bytes) == FillBlock(f.PageFill(addr, bytes[0], bytes[1]), Wrap32(addr + 2), bytes[2..])
    ensures |bytes| < 2 ==> FillBlock(f, addr, bytes) == f
  {
  }

  function WriteEepromBlock(eeprom: seq<byte>, addr: nat, bytes: seq<byte>): seq<byte>
    decreases |bytes|
  {
    if bytes == [] then eeprom
    else WriteEepromBlock(UpdateByte(eeprom, EepromAddress(addr), bytes[0]), Wrap32(addr + 2), bytes[1..])
  }

  function BlockSize(input: seq<byte>): word { Word(At(input, 1), At(input, 2)) }

  function ReadBlock(s: Programmer, input: seq<byte>): Answer {
    var n := BlockSize(input);
    var enabled := s.(flash := s.flash.RwwEnable());
    if At(input, 3) == TYPE_FLASH then
      Answer(enabled.(addr := Advance(s.addr, n / 2)), ReadFlashBlock(s.flash, s.addr, false, n))
    else Answer(enabled.(addr := Advance(s.addr, n)), ReadEepromBlock(s.eeprom, s.addr, n))
  }

  function WriteBlock(s: Programmer, input: seq<byte>): Answer {
    var bytes := Slice(input, 4, BlockSize(input));
    if At(input, 3) == TYPE_FLASH then
      Answer(s.(flash := FillBlock(s.flash.PageErase(s.addr), s.addr, bytes).PageWrite(s.addr),
                addr := Advance(s.addr, |bytes| / 2)), [CR])
    else Answer(s.(eeprom := WriteEepromBlock(s.eeprom, s.addr, bytes), addr := Advance(s.addr, |bytes|)), [CR])
  }

  function Block(s: Programmer, input: seq<byte>): Answer {
    if At(input, 3) != TYPE_FLASH && At(input, 3) != TYPE_EEPROM then Answer(s, [UNKNOWN])
    else if At(input, 0) == BLOCK_READ then ReadBlock(s, input)
    else WriteBlock(s, input)
  }

  // ---------------------------------------------------------------------------
  // Commands
  // ---------------------------------------------------------------------------

  /** Commands that work on memory one byte, word or page at a time. */
  function SingleAccess(s: Programmer, command: byte, argument: byte): Answer {
    match command
    case 0x43 => Answer(s.(flash := s.flash.PageFill(s.addr, argument, 0)), [CR])
    case 0x63 =>
      Answer(s.(flash := s.flash.PageFill(ByteAddress(s.addr, true), argument, 0), addr := Wrap32(s.addr + 2)), [CR])
    case 0x6D => Answer(s.(flash := s.flash.PageWrite(s.addr)), [CR])
    case 0x52 => Answer(s, [s.flash.Read(s.addr + 1), s.flash.Read(s.addr)])
    case 0x44 =>
      Answer(s.(eeprom := UpdateByte(s.eeprom, EepromAddress(s.addr), argument), addr := Wrap32(s.addr + 2)), [CR])
    case 0x64 => Answer(s.(addr := Wrap32(s.addr + 2)), [ReadEepromByte(s.eeprom, EepromAddress(s.addr))])
    case 27 => Answer(s, [])
    case _ => Answer(s, [UNKNOWN])
  }

  /** Commands that only ask for information. */
  function Inquiry(s: Programmer, command: byte): Option<seq<byte>> {
    match command
    case 0x78 => Some([CR])
    case 0x79 => Some([CR])
    case 0x54 => Some([CR])
    case 0x50 => Some([CR])
    case 0x4C => Some([CR])
    case 0x74 => Some([0x44, 0x00])
    case 0x61 => Some([YES])
    case 0x70 => Some([0x53])
    case 0x53 => Some([0x4C, 0x55, 0x46, 0x41, 0x43, 0x44, 0x43])
    case 0x56 => Some([0x31, 0x30])
    case 0x73 => Some([s.rows.signature3, s.rows.signature2, s.rows.signature1])
    case 0x72 => Some([s.lockBits])
    case 0x46 => Some([s.rows.lowFuse])
    case 0x4E => Some([s.rows.highFuse])
    case 0x51 => Some([s.rows.extendedFuse])
    case 0x62 => Some([YES, s.flash.chip.pageSize / 0x100, s.flash.chip.pageSize % 0x100])
    case _ => None
  }

  /** One AVR109 command: the new state and the response. */
  function Execute(s: Programmer, input: seq<byte>): Answer {
    match At(input, 0)
    case 0x45 => Answer(s.(running := false), [CR])
    case 0x41 => Answer(s.(addr := SetAddress(At(input, 1), At(input, 2))), [CR])
    case 0x65 => Answer(s.(flash := EraseFrom(s.flash, 0)), [CR])
    case 0x6C => Answer(s.(lockBits := At(input, 1)), [CR])
    case 0x42 => Block(s, input)
    case 0x67 => Block(s, input)
    case command =>
      match Inquiry(s, command)
      case Some(response) => Answer(s, response)
      case None => SingleAccess(s, command, At(input, 1))
  }

  /** One call of the command task with the packets of one command: the reply packets too. */
  function Task(s: Programmer, packets: seq<seq<byte>>): (r: (Programmer, seq<seq<byte>>)) {
    if packets == [] then (s, [])
    else
      var answer := Execute(s, Flatten(packets));
      (answer.next, Terminated(EPSIZE, answer.response))
  }

  function Tasks(s: Programmer, commands: seq<seq<seq<byte>>>): Programmer
    decreases |commands|
  {
    if commands == [] then s else Tasks(Task(s, commands[0]).0, commands[1..])
  }
}
