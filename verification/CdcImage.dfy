/** Programming and reading back an image with the automatically incremented address. */
module CdcImage {
  import opened Bytes
  import opened FlashMemory
  import opened Endpoints
  import opened Cdc

  // ---------------------------------------------------------------------------
  // The address
  // ---------------------------------------------------------------------------

  /** The address always selects the first byte of a word. */
  ghost predicate WordAddressed(s: Programmer) { s.addr % 2 == 0 && s.addr < WORD32 }

  lemma StepEven(addr: nat)
    requires addr % 2 == 0
    ensures Wrap32(addr + 2) % 2 == 0 && Wrap32(addr + 2) < WORD32
  {
    var x := addr + 2;
    Remainder(x, 2, addr / 2 + 1, 0);
    Remainder(Wrap32(x), 2, x / 2 - x / 0x1_0000_0000 * 0x8000_0000, 0);
  }

  lemma {:induction false} AdvanceEven(addr: nat, n: nat)
    requires addr % 2 == 0 && addr < WORD32
    ensures Advance(addr, n) % 2 == 0 && Advance(addr, n) < WORD32
    decreases n
  {
    if n > 0 {
      StepEven(addr);
      AdvanceEven(Wrap32(addr + 2), n - 1);
    }
  }

  lemma SetAddressEven(high: byte, low: byte)
    ensures SetAddress(high, low) % 2 == 0 && SetAddress(high, low) < WORD32
  {
    var shifted := Wrap16(high * 0x200);
    if high < 0x80 {
      Remainder(high * 0x200, 0x10000, 0, high * 0x200);
      Remainder(SetAddress(high, low), 2, (if shifted < 0x8000 then 0 else 0x7FFF_8000) + high * 0x100 + low, 0);
    } else {
      var rest := high - 0x80;
      Remainder(high * 0x200, 0x10000, 1, rest * 0x200);
      Remainder(SetAddress(high, low), 2, (if shifted < 0x8000 then 0 else 0x7FFF_8000) + rest * 0x100 + low, 0);
    }
  }

  lemma SingleAccessEven(s: Programmer, command: byte, argument: byte)
    requires WordAddressed(s)
    ensures WordAddressed(SingleAccess(s, command, argument).next)
  {
    hide Wrap32, EepromAddress, ByteAddress, UpdateByte;
    StepEven(s.addr);
  }

  lemma BlockEven(s: Programmer, input: seq<byte>)
    requires WordAddressed(s)
    ensures WordAddressed(Block(s, input).next)
  {
    hide Advance, ReadFlashBlock, ReadEepromBlock, FillBlock, WriteEepromBlock, BlockSize;
    AdvanceEven(s.addr, BlockSize(input) / 2);
    AdvanceEven(s.addr, BlockSize(input));
  }

  lemma ExecuteEven(s: Programmer, input: seq<byte>)
    requires WordAddressed(s)
    ensures WordAddressed(Execute(s, input).next)
  {
    hide SingleAccess, Block, SetAddress, EraseFrom, Inquiry;
    SetAddressEven(At(input, 1), At(input, 2));
    BlockEven(s, input);
    SingleAccessEven(s, At(input, 0), At(input, 1));
  }

  lemma TaskKeepsWordAddress(s: Programmer, packets: seq<seq<byte>>)
    requires WordAddressed(s)
    ensures WordAddressed(Task(s, packets).0)
  {
    hide Execute, Terminated, Flatten;
    ExecuteEven(s, Flatten(packets));
  }

  /** After every sequence of commands the address is even. */
  lemma {:induction false} AddressAlwaysEven(s: Programmer, commands: seq<seq<seq<byte>>>)
    requires WordAddressed(s)
    ensures WordAddressed(Tasks(s, commands))
    decreases |commands|
  {
    if commands != [] {
      hide Task;
      TaskKeepsWordAddress(s, commands[0]);
      AddressAlwaysEven(Task(s, commands[0]).0, commands[1..]);
    }
  }

  lemma {:induction false} AdvancePlain(addr: nat, n: nat)
    requires addr + 2 * n < WORD32
    ensures Advance(addr, n) == addr + 2 * n
    decreases n
  {
    if n > 0 {
      hide Wrap32;
      assert Wrap32(addr + 2) == addr + 2 by { NoWrap(addr + 2); }
      AdvancePlain(addr + 2, n - 1);
    }
  }

  // ---------------------------------------------------------------------------
  // Blocks
  // ---------------------------------------------------------------------------

  lemma {:induction false} FillBlockPlain(f: Flash, addr: nat, bytes: seq<byte>)
    requires addr + |bytes| <= WORD32
    ensures FillBlock(f, addr, bytes) == FillWords(f, addr, bytes)
    decreases |bytes|
  {
    if |bytes| >= 2 {
      hide RawFlash.PageFill;
      if |bytes| >= 4 {
        assert Wrap32(addr + 2) == addr + 2;
        FillBlockPlain(f.PageFill(addr, bytes[0], bytes[1]), addr + 2, bytes[2..]);
      }
    }
  }

  /** Byte `i` of a block read from an even address is the cell `i` further on. */
  lemma {:induction false} ReadBlockAt(f: Flash, addr: nat, second: bool, n: nat, i: nat)
    requires addr % 2 == 0 && i < n && addr + (if second then 1 else 0) + n < WORD32
    ensures ReadFlashBlock(f, addr, second, n)[i] == f.Read(addr + (if second then 1 else 0) + i)
    decreases n
  {
    hide RawFlash.Read;
    if i > 0 {
      if second {
        Remainder(addr + 2, 2, addr / 2 + 1, 0);
        assert Wrap32(addr + 2) == addr + 2;
        if n > 1 {
          ReadBlockAt(f, addr + 2, false, n - 1, i - 1);
        }
      } else {
        ReadBlockAt(f, addr, true, n - 1, i - 1);
      }
    }
  }

  // ---------------------------------------------------------------------------
  // Commands as the host sends them
  // ---------------------------------------------------------------------------

  function SetAddressCommand(addr: nat): seq<byte>
    requires addr < 0x8000
  {
    [SET_ADDRESS, addr / 0x200, addr / 2 % 0x100]
  }

  function WriteCommand(memoryType: byte, bytes: seq<byte>): seq<byte>
    requires |bytes| < 0x10000
  {
    [BLOCK_WRITE, |bytes| / 0x100, |bytes| % 0x100, memoryType] + bytes
  }

  function BlockWriteCommand(bytes: seq<byte>): seq<byte>
    requires |bytes| < 0x10000
  {
    WriteCommand(TYPE_FLASH, bytes)
  }

  lemma WriteFields(memoryType: byte, bytes: seq<byte>)
    requires |bytes| < 0x10000
    ensures var input := WriteCommand(memoryType, bytes);
      && At(input, 0) == BLOCK_WRITE && At(input, 3) == memoryType
      && BlockSize(input) == |bytes| && Slice(input, 4, |bytes|) == bytes
  {
    var input := WriteCommand(memoryType, bytes);
    assert |Slice(input, 4, |bytes|)| == |bytes|;
    forall i | 0 <= i < |bytes|
      ensures Slice(input, 4, |bytes|)[i] == bytes[i]
    {
    }
  }

  function BlockReadCommand(n: word): seq<byte> {
    [BLOCK_READ, n / 0x100, n % 0x100, TYPE_FLASH]
  }

  lemma TaskSetAddress(s: Programmer, packets: seq<seq<byte>>, addr: nat)
    requires addr < 0x8000 && addr % 2 == 0 && packets != [] && Flatten(packets) == SetAddressCommand(addr)
    ensures Task(s, packets).0 == s.(addr := addr)
  {
    hide Terminated, Flatten, EraseFrom, Block, Inquiry, SingleAccess, SetAddress;
    var high, low := addr / 0x200, addr / 2 % 0x100;
    assert SetAddress(high, low) == addr by { SplitAddress(addr); }
    var input := SetAddressCommand(addr);
    assert At(input, 0) == SET_ADDRESS && At(input, 1) == high && At(input, 2) == low;
  }

  lemma SplitAddress(addr: nat)
    requires addr < 0x8000 && addr % 2 == 0
    ensures SetAddress(addr / 0x200, addr / 2 % 0x100) == addr
  {
    hide SetAddress;
    var high, low := addr / 0x200, addr / 2 % 0x100;
    assert addr / 2 / 0x100 == high;
    SetAddressExact(high, low);
  }

  /** Writing one page from a page boundary stores it and moves on to the next page. */
  lemma TaskWritePage(s: Programmer, packets: seq<seq<byte>>, bytes: seq<byte>)
    requires s.flash.chip.Aligned(s.addr) && |bytes| == s.flash.chip.pageSize && s.addr + |bytes| < WORD32
    requires packets != [] && Flatten(packets) == BlockWriteCommand(bytes)
    ensures var r := Task(s, packets).0;
      && r == s.(addr := s.addr + |bytes|, flash := r.flash) && r.flash.chip == s.flash.chip
      && r.flash.memory == Stored(s.flash.chip, s.flash.memory, s.addr, bytes)
  {
    hide Terminated, Flatten, EraseFrom, ReadBlock, Inquiry, SingleAccess, SetAddress, Advance, FillBlock,
         FillWords, Stored, Chip.Offset, RawFlash.PageErase, RawFlash.PageWrite, At, Slice, BlockSize, WriteCommand;
    EvenPage(s.flash.chip);
    WriteFields(TYPE_FLASH, bytes);
    AdvancePlain(s.addr, |bytes| / 2);
    FillBlockPlain(s.flash.PageErase(s.addr), s.addr, bytes);
    ProgramPage(s.flash, s.addr, bytes);
  }

  /** A shorter block is stored from an empty page buffer, without an odd last byte. */
  lemma TaskWritePart(s: Programmer, packets: seq<seq<byte>>, bytes: seq<byte>)
    requires s.flash.chip.Aligned(s.addr) && 2 <= |bytes| <= s.flash.chip.pageSize && s.addr + |bytes| < WORD32
    requires s.flash.BufferBlank() && packets != [] && Flatten(packets) == BlockWriteCommand(bytes)
    ensures var r := Task(s, packets);
      && r.1 == [[0x0D]] && r.0 == s.(addr := s.addr + |bytes| / 2 * 2, flash := r.0.flash)
      && r.0.flash.memory == Stored(s.flash.chip, s.flash.memory, s.addr, bytes[..|bytes| / 2 * 2])
  {
    hide Flatten, EraseFrom, ReadBlock, Inquiry, SingleAccess, SetAddress, Advance, FillBlock, FillWords, Stored,
         Chip.Offset, RawFlash.PageErase, RawFlash.PageWrite, At, Slice, BlockSize, WriteCommand;
    WriteFields(TYPE_FLASH, bytes);
    AdvancePlain(s.addr, |bytes| / 2);
    FillBlockPlain(s.flash.PageErase(s.addr), s.addr, bytes);
    ProgramPart(s.flash, s.addr, bytes);
  }

  /** One block-write command per page, each cut into packets in any way. */
  ghost predicate PageCommands(commands: seq<seq<seq<byte>>>, pages: seq<seq<byte>>, pageSize: nat)
    requires pageSize < 0x10000
  {
    && |commands| == |pages|
    && forall i :: 0 <= i < |pages| ==>
         |pages[i]| == pageSize && commands[i] != [] && Flatten(commands[i]) == BlockWriteCommand(pages[i])
  }

  /** Page-sized block writes with no addressing in between store the concatenated image. */
  lemma {:induction false} WritePages(s: Programmer, commands: seq<seq<seq<byte>>>, pages: seq<seq<byte>>)
    requires s.flash.chip.Aligned(s.addr) && PageCommands(commands, pages, s.flash.chip.pageSize)
    requires s.addr + |Flatten(pages)| < WORD32
    ensures var r := Tasks(s, commands);
      && r == s.(addr := s.addr + |Flatten(pages)|, flash := r.flash) && r.flash.chip == s.flash.chip
      && r.flash.memory == Stored(s.flash.chip, s.flash.memory, s.addr, Flatten(pages))
    decreases |pages|
  {
    hide Task, Stored, BlockWriteCommand, Chip.Offset;
    if pages == [] {
      StoredNothing(s.flash.chip, s.flash.memory, s.addr);
    } else {
      hide Flatten;
      var first := Task(s, commands[0]).0;
      assert pages == [pages[0]] + pages[1..];
      FlattenCons(pages[0], pages[1..]);
      TaskWritePage(s, commands[0], pages[0]);
      PageAfter(s.flash.chip, s.addr);
      WritePages(first, commands[1..], pages[1..]);
      StoredAppend(s.flash.chip, s.flash.memory, s.addr, pages[0], Flatten(pages[1..]));
    }
  }

  /** Only the address has moved, to `addr`, and the page buffer is empty. */
  ghost predicate Emptied(before: Programmer, after: Programmer, addr: nat) {
    && after == before.(flash := after.flash, addr := addr)
    && after.flash.chip == before.flash.chip && after.flash.memory == before.flash.memory
    && after.flash.log == before.flash.log && after.flash.BufferBlank()
  }

  /** A block read of `n` bytes, before the cells are looked at. */
  lemma TaskReads(s: Programmer, packets: seq<seq<byte>>, n: word)
    requires packets != [] && Flatten(packets) == BlockReadCommand(n)
    ensures Task(s, packets).1 == Terminated(EPSIZE, ReadFlashBlock(s.flash, s.addr, false, n))
    ensures Task(s, packets).0 == s.(flash := s.flash.RwwEnable(), addr := Advance(s.addr, n / 2))
  {
    hide Terminated, Flatten, EraseFrom, WriteBlock, Inquiry, SingleAccess, SetAddress, Advance, ReadFlashBlock,
         RawFlash.RwwEnable;
    assert BlockSize(BlockReadCommand(n)) == n;
  }

  lemma BlockCells(s: Programmer, n: word, cells: seq<byte>)
    requires s.addr % 2 == 0 && s.addr + n < WORD32 && |cells| == n
    requires forall i :: 0 <= i < n ==> cells[i] == s.flash.Read(s.addr + i)
    ensures ReadFlashBlock(s.flash, s.addr, false, n) == cells
  {
    hide ReadFlashBlock, RawFlash.Read;
    forall i | 0 <= i < n
      ensures ReadFlashBlock(s.flash, s.addr, false, n)[i] == cells[i]
    {
      ReadBlockAt(s.flash, s.addr, false, n, i);
    }
  }

  /** A block read returns consecutive cells, moves on and empties the page buffer. */
  lemma TaskReadBlock(s: Programmer, packets: seq<seq<byte>>, n: word, cells: seq<byte>)
    requires s.addr % 2 == 0 && s.addr + n < WORD32 && |cells| == n
    requires packets != [] && Flatten(packets) == BlockReadCommand(n)
    requires forall i :: 0 <= i < n ==> cells[i] == s.flash.Read(s.addr + i)
    ensures Task(s, packets).1 == Terminated(EPSIZE, cells)
    ensures Emptied(s, Task(s, packets).0, s.addr + n / 2 * 2)
  {
    hide Task, Terminated, Flatten, Advance, ReadFlashBlock, BlockReadCommand, RawFlash.Read,
         RawFlash.RwwEnable, Emptied;
    TaskReads(s, packets, n);
    EnableEmpties(s, Advance(s.addr, n / 2));
    BlockCells(s, n, cells);
    AdvancePlain(s.addr, n / 2);
  }

  /** After one set-address to a page boundary, page-sized block writes store the image. */
  lemma WriteImage(s: Programmer, addr: nat, setup: seq<seq<byte>>, writes: seq<seq<seq<byte>>>, pages: seq<seq<byte>>)
    requires addr < 0x8000 && s.flash.chip.Aligned(addr) && addr + |Flatten(pages)| < WORD32
    requires setup != [] && Flatten(setup) == SetAddressCommand(addr)
    requires PageCommands(writes, pages, s.flash.chip.pageSize)
    ensures var r := Tasks(s, [setup] + writes);
      && r == s.(addr := addr + |Flatten(pages)|, flash := r.flash) && r.flash.chip == s.flash.chip
      && r.flash.memory == Stored(s.flash.chip, s.flash.memory, addr, Flatten(pages))
  {
    hide Task, Stored, Flatten, SetAddressCommand, PageCommands;
    EvenBoundary(s.flash.chip, addr);
    TaskSetAddress(s, setup, addr);
    FirstTask(s, setup, writes);
    WritePages(s.(addr := addr), writes, pages);
  }

  /**
   * After one set-address to a page boundary, page-sized block writes program the image;
   * going back to the address and block-reading `n` bytes returns the image's first `n`,
   * in full packets ended by a short one.
   */
  lemma AutoIncrementRoundTrip(s: Programmer, addr: nat, setup: seq<seq<byte>>, writes: seq<seq<seq<byte>>>,
                               pages: seq<seq<byte>>, read: seq<seq<byte>>, n: word)
    requires addr < 0x8000 && s.flash.chip.Aligned(addr) && addr + |Flatten(pages)| <= s.flash.chip.size
    requires setup != [] && Flatten(setup) == SetAddressCommand(addr)
    requires PageCommands(writes, pages, s.flash.chip.pageSize)
    requires read != [] && Flatten(read) == BlockReadCommand(n) && n <= |Flatten(pages)|
    ensures var programmed := Tasks(s, [setup] + writes);
      var replied := Task(Task(programmed, setup).0, read);
      && programmed.flash.memory == Stored(s.flash.chip, s.flash.memory, addr, Flatten(pages))
      && IsTransfer(16, replied.1) && Flatten(replied.1) == Flatten(pages)[..n]
  {
    hide Task, Stored, Flatten, SetAddressCommand, BlockReadCommand, IsTransfer, Terminated, PageCommands;
    var image := Flatten(pages);
    EvenBoundary(s.flash.chip, addr);
    WriteImage(s, addr, setup, writes, pages);
    var programmed := Tasks(s, [setup] + writes);
    TaskSetAddress(programmed, setup, addr);
    StoredCells(programmed.flash, s.flash.memory, addr, image, n);
    TaskReadBlock(programmed.(addr := addr), read, n, image[..n]);
    TerminatedIsTransfer(EPSIZE, image[..n]);
  }

  lemma FirstTask(s: Programmer, first: seq<seq<byte>>, rest: seq<seq<seq<byte>>>)
    ensures Tasks(s, [first] + rest) == Tasks(Task(s, first).0, rest)
  {
    assert ([first] + rest)[1..] == rest;
  }

  // ---------------------------------------------------------------------------
  // EEPROM blocks
  // ---------------------------------------------------------------------------

  /** The bytes from EEPROM cell `k` on. */
  ghost predicate EepromHolds(eeprom: seq<byte>, k: nat, bytes: seq<byte>) {
    k + |bytes| <= |eeprom| && forall i :: 0 <= i < |bytes| ==> eeprom[k + i] == bytes[i]
  }

  /** Each EEPROM cell takes a word of address space. */
  lemma EepromStep(k: nat, half: nat)
    requires k < 0x10000 && half < 2
    ensures Wrap32(2 * k + half + 2) == 2 * (k + 1) + half && EepromAddress(2 * k + half) == k
  {
  }

  lemma {:induction false} WriteEepromHolds(eeprom: seq<byte>, k: nat, half: nat, bytes: seq<byte>)
    requires half < 2 && k + |bytes| <= |eeprom| <= 0x10000
    ensures var r := WriteEepromBlock(eeprom, 2 * k + half, bytes);
      && |r| == |eeprom| && EepromHolds(r, k, bytes)
      && forall j :: 0 <= j < k || k + |bytes| <= j < |eeprom| ==> r[j] == eeprom[j]
    decreases |bytes|
  {
    if bytes != [] {
      hide Wrap32, EepromAddress;
      EepromStep(k, half);
      var updated, rest := eeprom[k := bytes[0]], bytes[1..];
      WriteEepromHolds(updated, k + 1, half, rest);
      var r := WriteEepromBlock(updated, 2 * (k + 1) + half, rest);
      forall i | 0 <= i < |bytes|
        ensures r[k + i] == bytes[i]
      {
        if i > 0 {
          assert r[k + 1 + (i - 1)] == rest[i - 1];
        }
      }
    }
  }

  lemma {:induction false} ReadEepromHeld(eeprom: seq<byte>, k: nat, half: nat, bytes: seq<byte>)
    requires half < 2 && |eeprom| <= 0x10000 && EepromHolds(eeprom, k, bytes)
    ensures ReadEepromBlock(eeprom, 2 * k + half, |bytes|) == bytes
    decreases |bytes|
  {
    if bytes != [] {
      hide Wrap32, EepromAddress;
      EepromStep(k, half);
      var rest := bytes[1..];
      forall i | 0 <= i < |rest|
        ensures eeprom[k + 1 + i] == rest[i]
      {
        assert eeprom[k + (i + 1)] == bytes[i + 1];
      }
      assert eeprom[k + 0] == bytes[0];
      ReadEepromHeld(eeprom, k + 1, half, rest);
    }
  }

  /**
   * EEPROM bytes written as a block are read back as a block from the same address, and no
   * other cell changes.
   */
  lemma EepromBlockRoundTrip(eeprom: seq<byte>, addr: nat, bytes: seq<byte>)
    requires addr / 2 + |bytes| <= |eeprom| <= 0x10000
    ensures var r := WriteEepromBlock(eeprom, addr, bytes);
      && ReadEepromBlock(r, addr, |bytes|) == bytes && |r| == |eeprom|
      && forall j :: 0 <= j < addr / 2 || addr / 2 + |bytes| <= j < |eeprom| ==> r[j] == eeprom[j]
  {
    hide WriteEepromBlock, ReadEepromBlock, EepromHolds;
    var k, half := addr / 2, addr % 2;
    assert addr == 2 * k + half;
    WriteEepromHolds(eeprom, k, half, bytes);
    ReadEepromHeld(WriteEepromBlock(eeprom, addr, bytes), k, half, bytes);
  }

  function EepromWriteCommand(bytes: seq<byte>): seq<byte>
    requires |bytes| < 0x10000
  {
    WriteCommand(TYPE_EEPROM, bytes)
  }

  function EepromReadCommand(n: word): seq<byte> {
    [BLOCK_READ, n / 0x100, n % 0x100, TYPE_EEPROM]
  }

  lemma TaskWriteEeprom(s: Programmer, packets: seq<seq<byte>>, bytes: seq<byte>)
    requires |bytes| < 0x10000 && packets != [] && Flatten(packets) == EepromWriteCommand(bytes)
    ensures Task(s, packets).0
         == s.(eeprom := WriteEepromBlock(s.eeprom, s.addr, bytes), addr := Advance(s.addr, |bytes|))
  {
    hide Terminated, Flatten, EraseFrom, ReadBlock, Inquiry, SingleAccess, SetAddress, Advance, WriteEepromBlock,
         FillBlock, RawFlash.PageErase, RawFlash.PageWrite, Chip.Offset, At, Slice, BlockSize, WriteCommand;
    WriteFields(TYPE_EEPROM, bytes);
  }

  lemma TaskReadEeprom(s: Programmer, packets: seq<seq<byte>>, n: word)
    requires packets != [] && Flatten(packets) == EepromReadCommand(n)
    ensures Task(s, packets).1 == Terminated(EPSIZE, ReadEepromBlock(s.eeprom, s.addr, n))
    ensures Emptied(s, Task(s, packets).0, Advance(s.addr, n))
  {
    hide Terminated, Flatten, EraseFrom, WriteBlock, Inquiry, SingleAccess, SetAddress, Advance, ReadEepromBlock,
         ReadFlashBlock, RawFlash.RwwEnable, Emptied, At, BlockSize, EepromReadCommand, Chip.Offset;
    EepromReadFields(n);
    EnableEmpties(s, Advance(s.addr, n));
  }

  lemma EepromReadFields(n: word)
    ensures var input := EepromReadCommand(n);
      At(input, 0) == BLOCK_READ && At(input, 3) == TYPE_EEPROM && BlockSize(input) == n
  {
  }

  lemma EnableEmpties(s: Programmer, addr: nat)
    ensures Emptied(s, s.(flash := s.flash.RwwEnable(), addr := addr), addr)
  {
  }

  /**
   * Setting the address to EEPROM cell `k`, writing a block, going back and reading a block
   * returns the bytes; no other cell and nothing of the flash has changed.
   */
  lemma EepromRoundTrip(s: Programmer, k: nat, setup: seq<seq<byte>>, write: seq<seq<byte>>, bytes: seq<byte>,
                        read: seq<seq<byte>>)
    requires k < 0x4000 && |bytes| < 0x10000 && k + |bytes| <= |s.eeprom| <= 0x10000
    requires setup != [] && Flatten(setup) == SetAddressCommand(2 * k)
    requires write != [] && Flatten(write) == EepromWriteCommand(bytes)
    requires read != [] && Flatten(read) == EepromReadCommand(|bytes|)
    ensures var written := Tasks(s, [setup, write]);
      var replied := Task(Task(written, setup).0, read);
      && IsTransfer(16, replied.1) && Flatten(replied.1) == bytes
      && written.flash == s.flash && |written.eeprom| == |s.eeprom|
      && forall j :: 0 <= j < k || k + |bytes| <= j < |s.eeprom| ==> written.eeprom[j] == s.eeprom[j]
  {
    hide Task, Flatten, SetAddressCommand, EepromWriteCommand, EepromReadCommand, IsTransfer, Terminated,
         WriteEepromBlock, ReadEepromBlock, Advance;
    var at := s.(addr := 2 * k);
    TaskSetAddress(s, setup, 2 * k);
    TaskWriteEeprom(at, write, bytes);
    var written := Task(at, write).0;
    assert [setup, write][1..] == [write] && [write][1..] == [];
    assert Tasks(s, [setup, write]) == Tasks(at, [write]) == Tasks(written, []) == written;
    EepromBlockRoundTrip(s.eeprom, 2 * k, bytes);
    TaskSetAddress(written, setup, 2 * k);
    TaskReadEeprom(written.(addr := 2 * k), read, |bytes|);
    TerminatedIsTransfer(EPSIZE, bytes);
  }
}
