/**
 * The paged program memory every bootloader drives: a flash array, the temporary
 * page buffer in front of it, and the record of the erase and write operations
 * issued so far.
 */
module FlashMemory {

  import opened Bytes

  const ERASED: byte := 0xFF

  /**
   * The chip parameters: SPM_PAGESIZE, BOOT_START_ADDR and the size of the flash, whose
   * addresses are a 64KB page number of one byte and a 16-bit offset. Pages are a whole
   * number of 32-byte endpoint banks, and their words are counted in one byte.
   */
  datatype Chip = Chip(pageSize: nat, bootStart: nat, size: nat) {
    predicate Valid() {
      && 32 <= pageSize <= 256 && pageSize % 32 == 0
      && Aligned(bootStart)
      && Aligned(size)
      && bootStart <= size <= 0x100_0000
    }

    /** How far into its page `a` is: `a % SPM_PAGESIZE`, counted off page by page. */
    function Offset(a: nat): (offset: nat)
      requires pageSize > 0
      ensures offset < pageSize && offset <= a
    {
      if a < pageSize then a else Offset(a - pageSize)
    }

    predicate Aligned(a: nat)
      requires pageSize > 0
    {
      Offset(a) == 0
    }

    /** First address of the page holding `a`: `a & ~(SPM_PAGESIZE - 1)`. */
    function PageOf(a: nat): (page: nat)
      requires Valid()
      ensures page <= a < page + pageSize
      ensures Aligned(page)
    {
      PageAligned(a);
      a - Offset(a)
    }

    lemma {:induction false} PageAligned(a: nat)
      requires pageSize > 0
      ensures Aligned(a - Offset(a))
    {
      if a >= pageSize {
        PageAligned(a - pageSize);
      }
    }

    lemma {:induction false} OffsetIsRemainder(a: nat)
      requires pageSize > 0
      ensures Offset(a) == a % pageSize
    {
      if a < pageSize {
        Remainder(a, pageSize, 0, a);
      } else {
        OffsetIsRemainder(a - pageSize);
        Remainder(a, pageSize, (a - pageSize) / pageSize + 1, Offset(a - pageSize));
      }
    }

    /** The first page boundary at or after `a`. */
    function RoundUp(a: nat): (end: nat)
      requires Valid()
      ensures a <= end < a + pageSize
      ensures Aligned(end)
    {
      PageOf(a + pageSize - 1)
    }
  }

  /** A page boundary is the page of every address up to the next boundary. */
  lemma {:induction false} PageOfWithin(chip: Chip, page: nat, a: nat)
    requires chip.Valid() && chip.Aligned(page)
    requires page <= a < page + chip.pageSize
    ensures chip.PageOf(a) == page
    decreases page
  {
    if page > 0 {
      FirstPage(chip, page);
      PageOfWithin(chip, page - chip.pageSize, a - chip.pageSize);
    }
  }

  /** The first page boundary after 0 is a page further on. */
  lemma FirstPage(chip: Chip, a: nat)
    requires chip.Valid() && chip.Aligned(a) && a > 0
    ensures a >= chip.pageSize
  {
  }

  lemma ZeroAligned(chip: Chip)
    requires chip.Valid()
    ensures chip.Aligned(0) && chip.PageOf(0) == 0
  {
  }

  lemma PageBefore(chip: Chip, page: nat)
    requires chip.Valid() && chip.Aligned(page) && page >= chip.pageSize
    ensures chip.Aligned(page - chip.pageSize)
  {
  }

  lemma PageAfter(chip: Chip, page: nat)
    requires chip.Valid() && chip.Aligned(page)
    ensures chip.Aligned(page + chip.pageSize)
  {
  }

  /** A page boundary is also an endpoint bank boundary. */
  lemma {:induction false} BankBoundary(chip: Chip, page: nat)
    requires chip.Valid() && chip.Aligned(page)
    ensures page % 32 == 0
    decreases page
  {
    if page > 0 {
      FirstPage(chip, page);
      BankBoundary(chip, page - chip.pageSize);
    }
  }

  lemma EvenBoundary(chip: Chip, page: nat)
    requires chip.Valid() && chip.Aligned(page)
    ensures page % 2 == 0
  {
    hide Chip.Offset, Chip.Valid;
    BankBoundary(chip, page);
    Remainder(page, 2, 16 * (page / 32), 0);
  }

  lemma EvenPage(chip: Chip)
    requires chip.Valid()
    ensures chip.pageSize % 2 == 0
  {
  }

  /** Pages are whole numbers of words, so a word never straddles two of them. */
  lemma WordInPage(chip: Chip, n: nat)
    requires chip.Valid() && n % 2 == 0
    ensures (n - chip.PageOf(n)) % 2 == 0 && n + 2 <= chip.PageOf(n) + chip.pageSize
    ensures n < chip.bootStart ==> n + 2 <= chip.bootStart
  {
    hide Chip.PageOf;
    var page := chip.PageOf(n);
    EvenBoundary(chip, page);
    EvenBoundary(chip, chip.bootStart);
    Remainder(n - page, 2, n / 2 - page / 2, 0);
  }

  lemma WholePages(chip: Chip, a: nat)
    requires chip.Valid() && chip.Aligned(a) && a < chip.bootStart
    ensures a + chip.pageSize <= chip.bootStart
  {
    if a + chip.pageSize > chip.bootStart {
      PageOfWithin(chip, a, chip.bootStart);
      PageOfWithin(chip, chip.bootStart, chip.bootStart);
    }
  }

  datatype Event = Erase(page: nat) | Write(page: nat)

  /**
   * Programming a flash cell can only clear bits, so the cell ends up holding the
   * bitwise AND of its old contents and the value written.
   */
  function Program(cell: nat, value: nat): (r: nat)
    ensures r <= cell
    decreases cell
  {
    if cell == 0 then 0
    else 2 * Program(cell / 2, value / 2) + (if cell % 2 == 1 && value % 2 == 1 then 1 else 0)
  }

  /** An erased cell takes whatever value is written to it. */
  lemma ProgramErased(value: byte)
    ensures Program(ERASED, value) == value
  {
    ProgramOnes(value, 127, 64);
  }

  lemma {:induction false} ProgramOnes(value: nat, half: nat, bound: nat)
    requires half == 2 * bound - 1 && value <= 2 * half + 1
    requires bound in {1, 2, 4, 8, 16, 32, 64}
    ensures Program(2 * half + 1, value) == value
    decreases bound
  {
    if bound == 1 {
      assert Program(1, value / 2) == value / 2;
    } else {
      ProgramOnes(value / 2, half / 2, bound / 2);
    }
  }

  function Blank(n: nat): (s: seq<byte>)
    ensures |s| == n
    ensures forall i :: 0 <= i < n ==> s[i] == ERASED
  {
    seq(n, _ => ERASED)
  }

  datatype RawFlash = RawFlash(chip: Chip, memory: seq<byte>, buffer: seq<byte>, log: seq<Event>) {
    predicate Valid() {
      && chip.Valid()
      && |memory| == chip.size
      && |buffer| == chip.pageSize
    }

    /** boot_page_erase: every cell of the page of `a` becomes 0xFF. */
    function PageErase(a: nat): (f: RawFlash)
      requires Valid()
      ensures f.Valid() && f.chip == chip
    {
      var page := chip.PageOf(a);
      this.(memory := seq(|memory|, i requires 0 <= i < |memory| =>
                if page <= i < page + chip.pageSize then ERASED else memory[i]),
            log := log + [Erase(page)])
    }

    /** boot_page_fill: the low bit of the address does not select anything. */
    function PageFill(a: nat, low: byte, high: byte): (f: RawFlash)
      requires Valid()
      ensures f.Valid() && f.chip == chip && f.memory == memory && f.log == log
    {
      var slot := (a - chip.PageOf(a)) / 2 * 2;
      this.(buffer := buffer[slot := low][slot + 1 := high])
    }

    /** boot_page_write: programs the buffer into the page of `a` and blanks the buffer. */
    function PageWrite(a: nat): (f: RawFlash)
      requires Valid()
      ensures f.Valid() && f.chip == chip && f.buffer == Blank(chip.pageSize)
    {
      var page := chip.PageOf(a);
      this.(memory := seq(|memory|, i requires 0 <= i < |memory| =>
                if page <= i < page + chip.pageSize then Program(memory[i], buffer[i - page]) as byte else memory[i]),
            buffer := Blank(chip.pageSize),
            log := log + [Write(page)])
    }

    /** boot_rww_enable: leaving the read-while-write lock also empties the page buffer. */
    function RwwEnable(): (f: RawFlash)
      requires Valid()
      ensures f.Valid() && f.chip == chip && f.memory == memory && f.log == log
    {
      this.(buffer := Blank(chip.pageSize))
    }

    /** pgm_read_byte; addresses past the end of the chip read as unprogrammed. */
    function Read(a: nat): byte
      requires Valid()
    {
      if a < |memory| then memory[a] else ERASED
    }

    predicate BufferBlank()
      requires Valid()
    {
      buffer == Blank(chip.pageSize)
    }
  }

  type Flash = f: RawFlash | f.Valid() witness RawFlash(Chip(128, 0, 0), [], Blank(128), [])

  // ---------------------------------------------------------------------------
  // The reference: what storing `data` at `start` means for the whole memory
  // ---------------------------------------------------------------------------

  /**
   * `memory` after `data` has been stored from page boundary `start`: the data, then
   * erased cells up to the end of its last page, and every other cell as it was.
   */
  ghost function Stored(chip: Chip, memory: seq<byte>, start: nat, data: seq<byte>): (m: seq<byte>)
    requires chip.Valid()
    ensures |m| == |memory|
  {
    var end := start + |data|;
    seq(|memory|, i requires 0 <= i < |memory| =>
      if start <= i < end then data[i - start]
      else if end <= i < chip.RoundUp(end) then ERASED
      else memory[i])
  }

  lemma StoredNothing(chip: Chip, memory: seq<byte>, start: nat)
    requires chip.Valid() && chip.Aligned(start)
    ensures Stored(chip, memory, start, []) == memory
  {
    PageOfWithin(chip, start, start + chip.pageSize - 1);
    assert chip.RoundUp(start) == start;
  }

  /** Storing page-sized pieces one after the other is storing their concatenation. */
  lemma StoredAppend(chip: Chip, memory: seq<byte>, start: nat, first: seq<byte>, second: seq<byte>)
    requires chip.Valid() && chip.Aligned(start)
    requires chip.Aligned(start + |first|)
    ensures Stored(chip, Stored(chip, memory, start, first), start + |first|, second)
         == Stored(chip, memory, start, first + second)
  {
    var middle := start + |first|;
    PageOfWithin(chip, middle, middle + chip.pageSize - 1);
    assert chip.RoundUp(middle) == middle;
    assert middle + |second| == start + |first + second|;
  }

  /** Stored data is read back cell by cell. */
  lemma StoredCells(f: Flash, memory: seq<byte>, addr: nat, data: seq<byte>, n: nat)
    requires f.memory == Stored(f.chip, memory, addr, data) && addr + |data| <= f.chip.size && n <= |data|
    ensures forall i :: 0 <= i < n ==> data[..n][i] == f.Read(addr + i)
  {
    hide Chip.RoundUp;
    forall i | 0 <= i < n
      ensures data[..n][i] == f.Read(addr + i)
    {
      assert f.memory[addr + i] == data[addr + i - addr];
    }
  }

  // ---------------------------------------------------------------------------
  // A page in progress: erased in memory, partly filled in the buffer
  // ---------------------------------------------------------------------------

  /**
   * The page at `page` of `memory` has been erased in `f`, and the buffer holds `data`
   * for its first cells.
   */
  ghost predicate Filling(f: Flash, memory: seq<byte>, page: nat, data: seq<byte>) {
    && f.chip.Aligned(page)
    && |memory| == |f.memory|
    && (forall i :: 0 <= i < |memory| ==>
          f.memory[i] == if page <= i < page + f.chip.pageSize then ERASED else memory[i])
    && data <= f.buffer
  }

  /** A page being filled with nothing left over in the rest of the buffer. */
  ghost predicate InProgress(f: Flash, memory: seq<byte>, page: nat, data: seq<byte>) {
    && Filling(f, memory, page, data)
    && forall i :: |data| <= i < f.chip.pageSize ==> f.buffer[i] == ERASED
  }

  lemma BeginPage(f: Flash, page: nat)
    requires f.chip.Aligned(page)
    ensures Filling(f.PageErase(page), f.memory, page, [])
    ensures f.BufferBlank() ==> InProgress(f.PageErase(page), f.memory, page, [])
  {
    hide Chip.PageOf;
    PageOfWithin(f.chip, page, page);
  }

  lemma FillPage(f: Flash, memory: seq<byte>, page: nat, data: seq<byte>, low: byte, high: byte)
    requires Filling(f, memory, page, data) || InProgress(f, memory, page, data)
    requires |data| % 2 == 0 && |data| < f.chip.pageSize
    ensures Filling(f.PageFill(page + |data|, low, high), memory, page, data + [low, high])
    ensures InProgress(f, memory, page, data) ==>
            InProgress(f.PageFill(page + |data|, low, high), memory, page, data + [low, high])
  {
    hide Chip.PageOf;
    PageOfWithin(f.chip, page, page + |data|);
    assert |data| / 2 * 2 == |data|;
  }

  /** The data ends in the page it starts in. */
  lemma RoundUpInPage(chip: Chip, page: nat, n: nat)
    requires chip.Valid() && chip.Aligned(page) && 0 < n <= chip.pageSize
    ensures chip.RoundUp(page + n) == page + chip.pageSize
  {
    hide Chip.PageOf;
    PageAfter(chip, page);
    PageOfWithin(chip, page + chip.pageSize, page + n + chip.pageSize - 1);
  }

  /** Writing the page leaves the data followed by erased cells. */
  lemma EndPage(f: Flash, memory: seq<byte>, page: nat, data: seq<byte>)
    requires data != []
    requires (Filling(f, memory, page, data) && |data| == f.chip.pageSize) || InProgress(f, memory, page, data)
    ensures f.PageWrite(page).memory == Stored(f.chip, memory, page, data)
  {
    hide Program, Chip.PageOf, Chip.RoundUp;
    PageOfWithin(f.chip, page, page);
    RoundUpInPage(f.chip, page, |data|);
    forall i | 0 <= i < |memory|
      ensures f.PageWrite(page).memory[i] == Stored(f.chip, memory, page, data)[i]
    {
      if page <= i < page + f.chip.pageSize {
        ProgramErased(f.buffer[i - page]);
      }
    }
  }

  // ---------------------------------------------------------------------------
  // Erasing the application section
  // ---------------------------------------------------------------------------

  /** Erases and writes back every application page from page boundary `a` on. */
  function EraseFrom(f: Flash, a: nat): (r: Flash)
    ensures r.chip == f.chip
    decreases f.chip.bootStart - a
  {
    if a >= f.chip.bootStart then f
    else EraseFrom(f.PageErase(a).PageWrite(a), a + f.chip.pageSize)
  }

  /** The cells from `a` up to the boot section are erased, the others as in `memory`. */
  ghost predicate ErasedFrom(f: Flash, memory: seq<byte>, a: nat) {
    && |f.memory| == |memory|
    && forall i :: 0 <= i < |memory| ==> f.memory[i] == if a <= i < f.chip.bootStart then ERASED else memory[i]
  }

  lemma EraseOnePage(f: Flash, a: nat)
    requires f.BufferBlank() && f.chip.Aligned(a)
    ensures var r := f.PageErase(a).PageWrite(a);
      && r.BufferBlank() && |r.memory| == |f.memory|
      && forall i :: 0 <= i < |f.memory| ==>
           r.memory[i] == if a <= i < a + f.chip.pageSize then ERASED else f.memory[i]
  {
    hide Program, Chip.PageOf;
    PageOfWithin(f.chip, a, a);
    ProgramErased(ERASED);
  }

  lemma {:induction false} EraseErases(f: Flash, a: nat)
    requires f.BufferBlank() && f.chip.Aligned(a)
    ensures EraseFrom(f, a).BufferBlank() && ErasedFrom(EraseFrom(f, a), f.memory, a)
    decreases f.chip.bootStart - a
  {
    if a < f.chip.bootStart {
      hide RawFlash.PageErase, RawFlash.PageWrite;
      EraseOnePage(f, a);
      PageAfter(f.chip, a);
      WholePages(f.chip, a);
      EraseErases(f.PageErase(a).PageWrite(a), a + f.chip.pageSize);
    }
  }

  /**
   * Whatever is in the page buffer when the loop starts is written into page 0; all other
   * application pages are erased.
   */
  ghost predicate ErasedButFor(f: Flash, memory: seq<byte>, buffer: seq<byte>) {
    && |f.memory| == |memory| && |buffer| == f.chip.pageSize
    && forall i :: 0 <= i < |memory| ==>
         f.memory[i] == if i >= f.chip.bootStart then memory[i]
                        else if i < f.chip.pageSize then buffer[i] else ERASED
  }

  lemma EraseWritesBuffer(f: Flash)
    ensures ErasedButFor(EraseFrom(f, 0), f.memory, f.buffer)
  {
    if f.chip.bootStart > 0 {
      hide RawFlash.PageErase, RawFlash.PageWrite, Chip.Offset;
      FirstPageWritten(f);
      ZeroAligned(f.chip);
      PageAfter(f.chip, 0);
      WholePages(f.chip, 0);
      EraseErases(f.PageErase(0).PageWrite(0), f.chip.pageSize);
    }
  }

  lemma FirstPageWritten(f: Flash)
    ensures var r := f.PageErase(0).PageWrite(0);
      && r.chip == f.chip && r.BufferBlank() && |r.memory| == |f.memory|
      && forall i :: 0 <= i < |f.memory| ==> r.memory[i] == if i < f.chip.pageSize then f.buffer[i] else f.memory[i]
  {
    hide Program, Chip.PageOf, Chip.Offset;
    ZeroAligned(f.chip);
    var r := f.PageErase(0).PageWrite(0);
    forall i | 0 <= i < |f.memory|
      ensures r.memory[i] == if i < f.chip.pageSize then f.buffer[i] else f.memory[i]
    {
      if i < f.chip.pageSize {
        ProgramErased(f.buffer[i]);
      }
    }
  }

  // ---------------------------------------------------------------------------
  // Words filled in one after the other
  // ---------------------------------------------------------------------------

  function FillWords(f: Flash, addr: nat, bytes: seq<byte>): (r: Flash)
    ensures r.chip == f.chip && r.memory == f.memory && r.log == f.log
    decreases |bytes|
  {
    if |bytes| < 2 then f else FillWords(f.PageFill(addr, bytes[0], bytes[1]), addr + 2, bytes[2..])
  }

  lemma {:induction false} FillWordsFills(f: Flash, memory: seq<byte>, page: nat, done: seq<byte>, bytes: seq<byte>)
    requires Filling(f, memory, page, done) && |done| % 2 == 0 && |bytes| % 2 == 0
    requires |done| + |bytes| <= f.chip.pageSize
    ensures Filling(FillWords(f, page + |done|, bytes), memory, page, done + bytes)
    ensures InProgress(f, memory, page, done) ==>
            InProgress(FillWords(f, page + |done|, bytes), memory, page, done + bytes)
    decreases |bytes|
  {
    hide Filling, InProgress, RawFlash.PageFill, FillWords;
    if bytes == [] {
      assert done + bytes == done;
      FillNoWords(f, page + |done|);
    } else {
      var more, rest := done + [bytes[0], bytes[1]], bytes[2..];
      FillPage(f, memory, page, done, bytes[0], bytes[1]);
      FillWordsStep(f, page + |done|, bytes);
      FillWordsFills(f.PageFill(page + |done|, bytes[0], bytes[1]), memory, page, more, rest);
      assert more + rest == done + bytes;
    }
  }

  /** An odd last byte is dropped. */
  lemma {:induction false} FillWordsWhole(f: Flash, addr: nat, bytes: seq<byte>)
    ensures FillWords(f, addr, bytes) == FillWords(f, addr, bytes[..|bytes| / 2 * 2])
    decreases |bytes|
  {
    hide RawFlash.PageFill;
    if |bytes| >= 2 {
      var whole, rest := bytes[..|bytes| / 2 * 2], bytes[2..];
      assert whole[2..] == rest[..|rest| / 2 * 2] && whole[0] == bytes[0] && whole[1] == bytes[1];
      FillWordsWhole(f.PageFill(addr, bytes[0], bytes[1]), addr + 2, rest);
    }
  }

  lemma EvenPart(n: nat)
    ensures n / 2 * 2 <= n < n / 2 * 2 + 2 && n / 2 * 2 % 2 == 0 && (n >= 2 ==> n / 2 * 2 >= 2)
  {
  }

  lemma ProgramWords(f: Flash, page: nat, bytes: seq<byte>)
    requires f.chip.Aligned(page) && 2 <= |bytes| <= f.chip.pageSize && |bytes| % 2 == 0 && f.BufferBlank()
    ensures FillWords(f.PageErase(page), page, bytes).PageWrite(page).memory == Stored(f.chip, f.memory, page, bytes)
  {
    hide Filling, InProgress, Stored, RawFlash.PageErase, RawFlash.PageWrite, FillWords, Chip.Offset, Chip.Valid;
    BeginPage(f, page);
    FillWordsFills(f.PageErase(page), f.memory, page, [], bytes);
    assert [] + bytes == bytes;
    EndPage(FillWords(f.PageErase(page), page, bytes), f.memory, page, bytes);
  }

  /** Erasing, filling and writing part of a page stores it, from an empty buffer. */
  lemma ProgramPart(f: Flash, page: nat, bytes: seq<byte>)
    requires f.chip.Aligned(page) && 2 <= |bytes| <= f.chip.pageSize && f.BufferBlank()
    ensures FillWords(f.PageErase(page), page, bytes).PageWrite(page).memory
         == Stored(f.chip, f.memory, page, bytes[..|bytes| / 2 * 2])
  {
    hide Stored, RawFlash.PageErase, RawFlash.PageWrite, FillWords, Chip.Offset, Chip.Valid;
    var whole := bytes[..|bytes| / 2 * 2];
    EvenPart(|bytes|);
    FillWordsWhole(f.PageErase(page), page, bytes);
    ProgramWords(f, page, whole);
  }

  lemma FillNoWords(f: Flash, addr: nat)
    ensures FillWords(f, addr, []) == f
  {
  }

  lemma FillWordsStep(f: Flash, addr: nat, bytes: seq<byte>)
    requires |bytes| >= 2
    ensures FillWords(f, addr, bytes) == FillWords(f.PageFill(addr, bytes[0], bytes[1]), addr + 2, bytes[2..])
  {
  }

  /** Erasing, filling and writing a whole page stores it, whatever the buffer held. */
  lemma ProgramPage(f: Flash, page: nat, bytes: seq<byte>)
    requires f.chip.Aligned(page) && |bytes| == f.chip.pageSize
    ensures FillWords(f.PageErase(page), page, bytes).PageWrite(page).memory == Stored(f.chip, f.memory, page, bytes)
  {
    hide Filling, InProgress, Stored, RawFlash.PageErase, RawFlash.PageWrite, FillWords, Chip.Offset;
    EvenPage(f.chip);
    BeginPage(f, page);
    FillWordsFills(f.PageErase(page), f.memory, page, [], bytes);
    assert [] + bytes == bytes;
    EndPage(FillWords(f.PageErase(page), page, bytes), f.memory, page, bytes);
  }

  // ---------------------------------------------------------------------------
  // EEPROM: byte addressed; addresses past its end select nothing
  // ---------------------------------------------------------------------------

  function ReadEepromByte(eeprom: seq<byte>, addr: nat): byte {
    if addr < |eeprom| then eeprom[addr] else ERASED
  }

  function UpdateByte(eeprom: seq<byte>, addr: nat, b: byte): seq<byte> {
    if addr < |eeprom| then eeprom[addr := b] else eeprom
  }

  // ---------------------------------------------------------------------------
  // The device the bootloaders update in place
  // ---------------------------------------------------------------------------

  class FlashDevice {
    const chip: Chip
    var memory: seq<byte>
    var buffer: seq<byte>
    var log: seq<Event>

    ghost predicate Valid()
      reads this
    {
      RawFlash(chip, memory, buffer, log).Valid()
    }

    ghost function Value(): (f: Flash)
      reads this
      requires Valid()
    {
      RawFlash(chip, memory, buffer, log)
    }

    constructor (f: Flash)
      ensures Valid() && Value() == f
    {
      chip, memory, buffer, log := f.chip, f.memory, f.buffer, f.log;
    }

    method PageErase(a: nat)
      requires Valid()
      modifies this
      ensures Valid() && Value() == old(Value()).PageErase(a)
    {
      var f := RawFlash(chip, memory, buffer, log).PageErase(a);
      memory, log := f.memory, f.log;
    }

    method PageFill(a: nat, low: byte, high: byte)
      requires Valid()
      modifies this
      ensures Valid() && Value() == old(Value()).PageFill(a, low, high)
    {
      buffer := RawFlash(chip, memory, buffer, log).PageFill(a, low, high).buffer;
    }

    method PageWrite(a: nat)
      requires Valid()
      modifies this
      ensures Valid() && Value() == old(Value()).PageWrite(a)
    {
      var f := RawFlash(chip, memory, buffer, log).PageWrite(a);
      memory, buffer, log := f.memory, f.buffer, f.log;
    }

    method RwwEnable()
      requires Valid()
      modifies this
      ensures Valid() && Value() == old(Value()).RwwEnable()
    {
      buffer := Blank(chip.pageSize);
    }

    method ReadByte(a: nat) returns (b: byte)
      requires Valid()
      ensures b == Value().Read(a)
    {
      b := if a < |memory| then memory[a] else ERASED;
    }

    /** Clears the application section page by page. */
    method EraseApplication()
      requires Valid()
      modifies this
      ensures Valid() && Value() == EraseFrom(old(Value()), 0)
    {
      hide RawFlash.PageErase, RawFlash.PageWrite;
      var a := 0;
      while a < chip.bootStart
        invariant Valid() && EraseFrom(Value(), a) == EraseFrom(old(Value()), 0)
      {
        PageErase(a);
        PageWrite(a);
        a := a + chip.pageSize;
      }
    }
  }
}
