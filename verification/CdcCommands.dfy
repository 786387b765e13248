/** What the AVR109 commands other than block access do, in terms of the bytes on the wire. */
module CdcCommands {
  import opened Bytes
  import opened FlashMemory
  import opened Endpoints
  import opened Cdc

  /** Packets, however cut, that spell a command. */
  ghost predicate Spells(packets: seq<seq<byte>>, command: seq<byte>) {
    packets != [] && Flatten(packets) == command
  }

  lemma TaskExecutes(s: Programmer, packets: seq<seq<byte>>, command: seq<byte>)
    requires Spells(packets, command)
    ensures var a := Execute(s, command);
      && Task(s, packets).0 == a.next
      && (|a.response| < 16 ==> Task(s, packets).1 == [a.response])
  {
    hide Execute, Flatten;
  }

  // ---------------------------------------------------------------------------
  // Erasing and leaving
  // ---------------------------------------------------------------------------

  /**
   * The chip erase leaves the old page buffer in page 0 and erases every other application
   * page; the boot section, the EEPROM and everything else is as before.
   */
  lemma EraseCommand(s: Programmer, packets: seq<seq<byte>>)
    requires Spells(packets, [0x65])
    ensures var r := Task(s, packets);
      && r.1 == [[0x0D]] && r.0 == s.(flash := r.0.flash) && r.0.flash.chip == s.flash.chip
      && (forall i :: s.flash.chip.bootStart <= i < |s.flash.memory| ==> r.0.flash.memory[i] == s.flash.memory[i])
      && (forall i :: s.flash.chip.pageSize <= i < s.flash.chip.bootStart ==> r.0.flash.memory[i] == 0xFF)
      && (forall i :: 0 <= i < s.flash.chip.pageSize && i < s.flash.chip.bootStart ==>
            r.0.flash.memory[i] == s.flash.buffer[i])
  {
    hide EraseFrom, Flatten, Task, Inquiry, SingleAccess, Block, SetAddress;
    TaskExecutes(s, packets, [0x65]);
    EraseWritesBuffer(s.flash);
  }

  /** With an empty page buffer the whole application section ends up erased. */
  lemma EraseBlanks(s: Programmer, packets: seq<seq<byte>>)
    requires Spells(packets, [0x65]) && s.flash.BufferBlank()
    ensures var r := Task(s, packets).0;
      forall i :: 0 <= i < s.flash.chip.bootStart ==> r.flash.memory[i] == 0xFF
  {
    hide Task, Flatten;
    EraseCommand(s, packets);
  }

  lemma ExitCommand(s: Programmer, packets: seq<seq<byte>>)
    requires Spells(packets, [0x45])
    ensures Task(s, packets) == (s.(running := false), [[0x0D]])
  {
    hide EraseFrom, Flatten, Task, Inquiry, SingleAccess, Block, SetAddress;
    TaskExecutes(s, packets, [0x45]);
  }

  /** No command but the exit ends the session. */
  lemma OnlyExitStops(s: Programmer, packets: seq<seq<byte>>)
    ensures Task(s, packets).0.running <==> s.running && !(packets != [] && At(Flatten(packets), 0) == 0x45)
  {
    hide EraseFrom, Flatten, Terminated, SetAddress, Advance, ReadFlashBlock, ReadEepromBlock, FillBlock,
         WriteEepromBlock, Slice, BlockSize, RawFlash.PageErase, RawFlash.PageWrite, RawFlash.PageFill, Chip.Offset;
  }

  /** Over every sequence of commands the session has ended if and only if one was an exit. */
  lemma {:induction false} SessionStops(s: Programmer, commands: seq<seq<seq<byte>>>)
    ensures !Tasks(s, commands).running <==>
            !s.running || exists i :: 0 <= i < |commands| && commands[i] != [] && At(Flatten(commands[i]), 0) == 0x45
    decreases |commands|
  {
    hide Task, Flatten, At;
    if commands != [] {
      OnlyExitStops(s, commands[0]);
      var rest := commands[1..];
      SessionStops(Task(s, commands[0]).0, rest);
      assert forall i :: 0 <= i < |rest| ==> rest[i] == commands[i + 1];
      assert forall i :: 0 < i < |commands| ==> commands[i] == rest[i - 1];
    }
  }

  // ---------------------------------------------------------------------------
  // One word or byte at a time
  // ---------------------------------------------------------------------------

  /** The word at the address, high byte first. */
  lemma ReadWordCommand(s: Programmer, packets: seq<seq<byte>>)
    requires Spells(packets, [0x52])
    ensures Task(s, packets) == (s, [[s.flash.Read(s.addr + 1), s.flash.Read(s.addr)]])
  {
    hide EraseFrom, Flatten, Task, Block, SetAddress, RawFlash.Read;
    TaskExecutes(s, packets, [0x52]);
  }

  /** One of the two words of the buffer that a fill leaves: the byte, and a zero above it. */
  ghost predicate Fills(before: Flash, after: Flash, addr: nat, b: byte) {
    var slot := addr - before.chip.PageOf(addr);
    && slot + 1 < before.chip.pageSize
    && after.chip == before.chip && after.memory == before.memory && after.log == before.log
    && after.buffer == before.buffer[slot := b][slot + 1 := 0]
  }

  /** Both fill commands put a word into the buffer; only the one for the low byte moves on. */
  lemma FillCommands(s: Programmer, packets: seq<seq<byte>>, command: byte, b: byte)
    requires s.addr % 2 == 0 && Spells(packets, [command, b]) && (command == 0x43 || command == 0x63)
    ensures var r := Task(s, packets);
      && r.1 == [[0x0D]]
      && r.0 == s.(flash := r.0.flash, addr := if command == 0x63 then Wrap32(s.addr + 2) else s.addr)
      && Fills(s.flash, r.0.flash, s.addr, b)
  {
    hide EraseFrom, Flatten, Task, Block, SetAddress, Wrap32, Chip.PageOf, Chip.Offset;
    TaskExecutes(s, packets, [command, b]);
    var page := s.flash.chip.PageOf(s.addr);
    WordInPage(s.flash.chip, s.addr);
    PageOfWithin(s.flash.chip, page, s.addr + 1);
    assert (s.addr - page) / 2 * 2 == s.addr - page == (s.addr + 1 - page) / 2 * 2;
  }

  /**
   * The high-byte and the low-byte command for one word: both fill the low half, so the
   * buffer holds the word sent if and only if its high byte is 0.
   */
  lemma ByteFillExact(s: Programmer, first: seq<seq<byte>>, second: seq<seq<byte>>, high: byte, low: byte)
    requires s.addr % 2 == 0 && Spells(first, [0x43, high]) && Spells(second, [0x63, low])
    ensures var buffer, slot := Task(Task(s, first).0, second).0.flash.buffer, s.addr - s.flash.chip.PageOf(s.addr);
      && slot + 1 < |buffer| && buffer[slot..slot + 2] == [low, 0]
      && (buffer[slot..slot + 2] == [low, high] <==> high == 0)
  {
    hide Task, Spells, Chip.PageOf, Chip.Offset, Wrap32;
    FillCommands(s, first, 0x43, high);
    FillCommands(Task(s, first).0, second, 0x63, low);
  }

  /** The page command programs the buffer into the page of the address. */
  lemma WritePageCommand(s: Programmer, packets: seq<seq<byte>>)
    requires Spells(packets, [0x6D])
    ensures var r, page := Task(s, packets), s.flash.chip.PageOf(s.addr);
      && r.1 == [[0x0D]] && r.0 == s.(flash := r.0.flash) && r.0.flash.BufferBlank()
      && r.0.flash.log == s.flash.log + [Write(page)]
      && (forall i :: 0 <= i < |s.flash.memory| && !(page <= i < page + s.flash.chip.pageSize) ==>
            r.0.flash.memory[i] == s.flash.memory[i])
      && (forall i :: page <= i < |s.flash.memory| && i < page + s.flash.chip.pageSize ==>
            r.0.flash.memory[i] == Program(s.flash.memory[i], s.flash.buffer[i - page]))
  {
    hide EraseFrom, Flatten, Task, Block, SetAddress, Chip.PageOf, Chip.Offset, Program;
    TaskExecutes(s, packets, [0x6D]);
  }

  /** The EEPROM byte commands write and read the cell of the word address, and move on. */
  lemma EepromByteCommands(s: Programmer, k: nat, write: seq<seq<byte>>, read: seq<seq<byte>>, b: byte)
    requires s.addr == 2 * k && k < |s.eeprom| <= 0x10000
    requires Spells(write, [0x44, b]) && Spells(read, [0x64])
    ensures Task(s, write) == (s.(eeprom := s.eeprom[k := b], addr := 2 * k + 2), [[0x0D]])
    ensures Task(s, read) == (s.(addr := 2 * k + 2), [[s.eeprom[k]]])
  {
    hide EraseFrom, Flatten, Task, Block, SetAddress, Wrap32, EepromAddress;
    TaskExecutes(s, write, [0x44, b]);
    TaskExecutes(s, read, [0x64]);
    CellAddress(k);
  }

  lemma CellAddress(k: nat)
    requires k < 0x10000
    ensures EepromAddress(2 * k) == k && Wrap32(2 * k + 2) == 2 * k + 2
  {
  }

  // ---------------------------------------------------------------------------
  // Lock bits and inquiries
  // ---------------------------------------------------------------------------

  /** Lock bits are read back as they were set. */
  lemma LockBits(s: Programmer, write: seq<seq<byte>>, read: seq<seq<byte>>, b: byte)
    requires Spells(write, [0x6C, b]) && Spells(read, [0x72])
    ensures Task(s, write) == (s.(lockBits := b), [[0x0D]])
    ensures Task(Task(s, write).0, read).1 == [[b]]
  {
    hide EraseFrom, Flatten, Task, Block, SetAddress, SingleAccess;
    TaskExecutes(s, write, [0x6C, b]);
    TaskExecutes(s.(lockBits := b), read, [0x72]);
  }

  function Ascii(text: string): seq<byte>
    requires forall i :: 0 <= i < |text| ==> text[i] < 128 as char
  {
    seq<byte>(|text|, i requires 0 <= i < |text| => text[i] as int)
  }

  /** The command of one character is answered with these bytes and changes nothing. */
  ghost predicate Answers(s: Programmer, command: char, reply: seq<byte>)
    requires command < 128 as char
  {
    Task(s, [[command as int]]) == (s, [reply])
  }

  /** The answers to the commands that only ask for fixed information. */
  lemma Identification(s: Programmer)
    ensures Answers(s, 'S', Ascii("LUFACDC")) && Answers(s, 'V', Ascii("10"))
    ensures Answers(s, 'p', Ascii("S")) && Answers(s, 'a', Ascii("Y")) && Answers(s, 't', [0x44, 0x00])
    ensures Answers(s, 'P', [0x0D]) && Answers(s, 'L', [0x0D])
    ensures Answers(s, 'T', [0x0D]) && Answers(s, 'x', [0x0D]) && Answers(s, 'y', [0x0D])
    ensures Answers(s, 27 as char, [])
  {
    hide EraseFrom, Block, SetAddress, Flatten, Task;
    Ask(s, 'S'); Ask(s, 'V'); Ask(s, 'p'); Ask(s, 'a'); Ask(s, 't');
    Ask(s, 'P'); Ask(s, 'L'); Ask(s, 'T'); Ask(s, 'x'); Ask(s, 'y'); Ask(s, 27 as char);
    assert Ascii("LUFACDC") == [0x4C, 0x55, 0x46, 0x41, 0x43, 0x44, 0x43];
    assert Ascii("10") == [0x31, 0x30] && Ascii("S") == [0x53] && Ascii("Y") == [0x59];
  }

  /** The answers about the chip: page size high byte first, signature, fuses and lock bits. */
  lemma ChipInquiries(s: Programmer)
    ensures Answers(s, 'b', [0x59, s.flash.chip.pageSize / 0x100, s.flash.chip.pageSize % 0x100])
    ensures Answers(s, 's', [s.rows.signature3, s.rows.signature2, s.rows.signature1])
    ensures Answers(s, 'F', [s.rows.lowFuse]) && Answers(s, 'N', [s.rows.highFuse])
    ensures Answers(s, 'Q', [s.rows.extendedFuse]) && Answers(s, 'r', [s.lockBits])
  {
    hide EraseFrom, Block, SetAddress, Flatten, Task;
    Ask(s, 'b'); Ask(s, 's'); Ask(s, 'F'); Ask(s, 'N'); Ask(s, 'Q'); Ask(s, 'r');
  }

  lemma Ask(s: Programmer, command: char)
    requires command < 128 as char
    ensures var a := Execute(s, [command as int]);
      |a.response| < 16 ==> Task(s, [[command as int]]) == (a.next, [a.response])
  {
    hide Execute;
    FlattenOne([command as int]);
    TaskExecutes(s, [[command as int]], [command as int]);
  }

  /** Every byte that is no command, but for the escape, is answered with a question mark. */
  lemma UnknownCommand(s: Programmer, packets: seq<seq<byte>>, command: seq<byte>)
    requires Spells(packets, command) && command != [] && command[0] != 27
    requires command[0] !in {0x41, 0x42, 0x43, 0x44, 0x45, 0x46, 0x4C, 0x4E, 0x50, 0x51, 0x52, 0x53, 0x54, 0x56, 0x61,
                             0x62, 0x63, 0x64, 0x65, 0x67, 0x6C, 0x6D, 0x70, 0x72, 0x73, 0x74, 0x78, 0x79}
    ensures Task(s, packets) == (s, [[0x3F]])
  {
    hide EraseFrom, Block, SetAddress, Flatten, Task;
    TaskExecutes(s, packets, command);
  }

  /** So is a block command for a memory that is neither flash nor EEPROM. */
  lemma UnknownMemory(s: Programmer, packets: seq<seq<byte>>, command: seq<byte>)
    requires Spells(packets, command) && |command| >= 4 && (command[0] == 0x42 || command[0] == 0x67)
    requires command[3] != 0x46 && command[3] != 0x45
    ensures Task(s, packets) == (s, [[0x3F]])
  {
    hide EraseFrom, SetAddress, Flatten, Task, ReadBlock, WriteBlock, Inquiry, SingleAccess;
    TaskExecutes(s, packets, command);
  }
}
