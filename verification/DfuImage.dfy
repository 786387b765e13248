/** Programming an image over DFU and reading it back. */
module DfuImage {
  import opened Bytes
  import opened FlashMemory
  import opened Endpoints
  import opened Dfu
  import opened DfuPages

  // ---------------------------------------------------------------------------
  // Requests
  // ---------------------------------------------------------------------------

  function BigEndian(w: word): seq<byte> { [w / 0x100, w % 0x100] }

  /** A command with a start and an end address. */
  function AddressedCommand(command: byte, memoryType: byte, start: word, end: word): seq<byte> {
    [command, memoryType] + BigEndian(start) + BigEndian(end)
  }

  lemma CommandLength(command: byte, memoryType: byte, start: word, end: word)
    ensures |AddressedCommand(command, memoryType, start, end)| == 6
  {
  }

  /** The first packet starts with a flash programming command for `n` bytes at `start`. */
  ghost predicate ProgramCommand(packets: seq<seq<byte>>, start: word, n: nat) {
    && packets != [] && 2 <= n < 0x10000 && start + n <= 0x10000
    && |packets[0]| >= 32
    && packets[0][..6] == AddressedCommand(COMMAND_PROG_START, 0x00, start, start + n - 1)
  }

  /** The packets after command and filler. */
  ghost function Body(packets: seq<seq<byte>>): OutEndpoint
    requires packets != [] && |packets[0]| >= 32
  {
    OutEndpoint(packets[0][32..], packets[1..])
  }

  /**
   * If the start address is off a bank boundary, command and filler are a packet of their
   * own, as the 32-byte endpoint has it, and the next packet holds all the alignment bytes.
   */
  ghost predicate Framed(packets: seq<seq<byte>>, start: word) {
    && packets != [] && |packets[0]| >= 32
    && (start % ENDPOINT_SIZE > 0 ==>
          |packets[0]| == 32 && |packets| > 1 && |packets[1]| >= start % ENDPOINT_SIZE)
  }

  /** What the host sends after the alignment bytes. */
  ghost function Sent(packets: seq<seq<byte>>, start: word): seq<byte>
    requires Framed(packets, start)
  {
    if start % ENDPOINT_SIZE == 0 then Body(packets).Pending()
    else packets[1][start % ENDPOINT_SIZE..] + Flatten(packets[2..])
  }

  /** What the loop reads: off a bank boundary the last alignment byte comes first. */
  ghost function Stream(packets: seq<seq<byte>>, start: word): OutEndpoint
    requires Framed(packets, start)
  {
    if start % ENDPOINT_SIZE == 0 then Body(packets)
    else OutEndpoint(packets[1][start % ENDPOINT_SIZE - 1..], packets[2..])
  }

  /**
   * The packets of a flash programming request for `data`. From a bank boundary the packets
   * that carry its words end between words, as full 32-byte packets do.
   */
  ghost predicate ProgramPackets(packets: seq<seq<byte>>, start: word, data: seq<byte>) {
    && ProgramCommand(packets, start, |data|)
    && Framed(packets, start) && data <= Sent(packets, start)
    && (start % ENDPOINT_SIZE == 0 ==> Body(packets).Carries(|data| / 2 * 2))
  }

  /** The whole words of the data; an odd last byte is not programmed. */
  ghost function WholeWords(data: seq<byte>): (words: seq<byte>)
    ensures |data| % 2 == 0 ==> words == data
    ensures |words| == |data| / 2 * 2
  {
    data[..|data| / 2 * 2]
  }

  /** What is programmed in place of `data`. */
  ghost function Arrived(packets: seq<seq<byte>>, start: word, data: seq<byte>): (bytes: seq<byte>)
    requires ProgramPackets(packets, start, data)
    ensures |bytes| == |data| / 2 * 2
    ensures start % ENDPOINT_SIZE == 0 ==> bytes == WholeWords(data)
    ensures start % ENDPOINT_SIZE > 0 ==> bytes[0] == packets[1][start % ENDPOINT_SIZE - 1]
  {
    StreamCovers(packets, start, data);
    Stream(packets, start).Words()[..|data| / 2 * 2]
  }

  lemma StreamCovers(packets: seq<seq<byte>>, start: word, data: seq<byte>)
    requires ProgramPackets(packets, start, data)
    ensures var words, n := Stream(packets, start).Words(), |data| / 2 * 2;
      && n <= |words|
      && (start % ENDPOINT_SIZE == 0 ==> words[..n] == WholeWords(data))
      && (start % ENDPOINT_SIZE > 0 ==> words[0] == packets[1][start % ENDPOINT_SIZE - 1])
  {
    hide AddressedCommand, PaddedAll, Flatten, OutEndpoint.Carries;
    if start % ENDPOINT_SIZE == 0 {
      CarriedInOrder(Body(packets), |data| / 2 * 2);
    } else {
      WordsCover(packets[2..]);
    }
  }

  function Zeros(n: nat): (s: seq<byte>)
    ensures |s| == n
  {
    seq(n, _ => 0)
  }

  /** Filler inside one bank is skipped byte by byte. */
  lemma {:induction false} DiscardBank(e: OutEndpoint, n: nat)
    requires n <= |e.bank|
    ensures Discard(e, n) == e.(bank := e.bank[n..])
    decreases n
  {
    if n > 0 {
      DiscardBank(e.Drop(), n - 1);
      assert e.Drop().bank[n - 1..] == e.bank[n..];
    }
  }

  /** A device waiting for a command: unlocked and with an empty page buffer. */
  ghost predicate Available(d: Device) {
    !d.secure && !d.waitForExit && d.flash.BufferBlank()
  }

  lemma CommandAddresses(d: Device, e: OutEndpoint, command: byte, memoryType: byte, start: word, end: word)
    requires |e.bank| >= 6 && e.bank[..6] == AddressedCommand(command, memoryType, start, end)
    ensures var c := TakeCommand(d, e);
      && c.command == command && c.data[0] == memoryType
      && LoadAddresses(c) == c.(startAddr := start, endAddr := end)
      && c == d.(command := command, data := c.data, dataSize := CountDown(d.dataSize, 6))
    ensures AfterCommand(e) == e.(bank := e.bank[6..])
  {
    var b := e.bank[..6];
    assert b[0] == command && b[1] == memoryType && b[2] == start / 0x100 && b[3] == start % 0x100
        && b[4] == end / 0x100 && b[5] == end % 0x100;
    assert e.Drop().bank == e.bank[1..];
    var c := TakeCommand(d, e);
    assert c.data == e.bank[1..6];
    assert c.data[1] == start / 0x100 && c.data[2] == start % 0x100;
    assert c.data[3] == end / 0x100 && c.data[4] == end % 0x100;
  }

  /** Filler that starts on a used-up bank loses one count to turning it over. */
  lemma TurnoverCostsOne(e: OutEndpoint, n: nat)
    requires e.bank == [] && e.queue != [] && 0 < n <= |e.queue[0]|
    ensures Discard(e, n) == OutEndpoint(e.queue[0][n - 1..], e.queue[1..])
  {
    DiscardBank(e.Next(), n - 1);
  }

  lemma CountBytes(d: Device, n: nat)
    requires 0 < n < 0x10000 && d.startAddr + n <= 0x10000 && d.endAddr == d.startAddr + n - 1
    ensures BytesRemaining(d) == n
  {
  }

  ghost function Even(addr: nat): nat { addr - addr % 2 }

  /** What the loop leaves when the words that arrive are `bytes`. */
  ghost predicate Programs(f: Flash, g: Flash, memory: seq<byte>, addr: nat, bytes: seq<byte>) {
    && g.chip == f.chip && g.BufferBlank()
    && g.memory == Wrapped(f.chip, memory, Even(addr), bytes)
    && g.log == f.log + PageWrites(f.chip, Even(addr), |bytes|)
  }

  /** The data stage of a programming command, from the freshly erased first page. */
  lemma ProgramStage(d: Device, e: OutEndpoint, memory: seq<byte>, n: nat, bytes: seq<byte>)
    requires d.data[0] == 0x00 && 2 <= n < 0x10000
    requires d.startAddr + n <= 0x10000 && d.endAddr == d.startAddr + n - 1
    requires Turning(d.flash, memory, Even(FlashAddress(d)), [])
    requires Received(Discard(Discard(e, FILLER_SIZE), d.startAddr % ENDPOINT_SIZE), n / 2) == Some(bytes)
    ensures var p := Programmed(d, e);
      && p.1 && p.0 == d.(flash := p.0.flash, startAddr := d.endAddr)
      && Programs(d.flash, p.0.flash, memory, FlashAddress(d), bytes)
  {
    hide WriteWords, WriteEeprom, Wrapped, Turning, PageWrites, Discard, BytesRemaining, Received, FlashAddress,
         Chip.Offset;
    CountBytes(d, n);
    assert |bytes| == 2 * (n / 2) && |bytes| / 2 == n / 2;
    WriteAll(d.flash, memory, FlashAddress(d), bytes, Discard(Discard(e, FILLER_SIZE), d.startAddr % ENDPOINT_SIZE));
  }

  /** The programming command erases the first page and opens the data stage. */
  lemma ProcessProgram(d: Device, e: OutEndpoint, start: word, end: word)
    requires !d.secure && |e.bank| >= 6 && e.bank[..6] == AddressedCommand(COMMAND_PROG_START, 0x00, start, end)
    ensures var c := TakeCommand(d, e);
      && Process(c) == d.(command := COMMAND_PROG_START, data := c.data, dataSize := CountDown(d.dataSize, 6),
                          startAddr := start, endAddr := end, state := DnloadIdle,
                          flash := d.flash.PageErase(Address(d.flash.chip, d.page64, start)))
      && c.data[0] == 0x00 && !Rejected(c) && AfterCommand(e) == e.(bank := e.bank[6..])
  {
    hide RawFlash.PageErase, CountDown, TakeCommand, AfterCommand, LoadAddresses;
    CommandAddresses(d, e, COMMAND_PROG_START, 0x00, start, end);
  }

  /** The words a programming request delivers, once filler and alignment are skipped. */
  ghost function Arriving(packets: seq<seq<byte>>, start: word, n: nat): Option<seq<byte>>
    requires ProgramCommand(packets, start, n)
  {
    var e := OutEndpoint(packets[0][6..], packets[1..]);
    Received(Discard(Discard(e, FILLER_SIZE), start % ENDPOINT_SIZE), n / 2)
  }

  lemma RunProgram(d: Device, packets: seq<seq<byte>>, start: word, n: nat, bytes: seq<byte>)
    requires Available(d) && d.dataSize > 6
    requires ProgramCommand(packets, start, n) && Arriving(packets, start, n) == Some(bytes)
    ensures var r, addr := RunCommand(d, packets), Address(d.flash.chip, d.page64, start);
      && r.1 == Reply([], false, false) && Available(r.0) && r.0.page64 == d.page64
      && Programs(d.flash.PageErase(addr), r.0.flash, d.flash.memory, addr, bytes)
  {
    hide Process, Rejected, Programmed, CountDown, TakeCommand, AfterCommand, Chip.PageOf, Chip.Offset,
         RawFlash.PageErase, Received, Discard, Address, Turning, Programs, AddressedCommand;
    var e := OutEndpoint(packets[0], packets[1..]);
    var addr := Address(d.flash.chip, d.page64, start);
    ProcessProgram(d, e, start, start + n - 1);
    EvenErase(d.flash, addr);
    TurnBegin(d.flash, Even(addr));
    ProgramStage(Process(TakeCommand(d, e)), AfterCommand(e), d.flash.memory, n, bytes);
    ProgramsBlank(d.flash.PageErase(addr), RunCommand(d, packets).0.flash, d.flash.memory, addr, bytes);
  }

  lemma ProgramsBlank(f: Flash, g: Flash, memory: seq<byte>, addr: nat, bytes: seq<byte>)
    requires Programs(f, g, memory, addr, bytes)
    ensures g.BufferBlank()
  {
  }

  lemma EvenErase(f: Flash, addr: nat)
    ensures f.PageErase(addr) == f.PageErase(Even(addr)) && f.chip.PageOf(addr) == f.chip.PageOf(Even(addr))
  {
    hide RawFlash.PageErase, Chip.PageOf, Chip.Offset, Chip.Valid;
    assert Even(addr) == 2 * (addr / 2);
    Remainder(Even(addr), 2, addr / 2, 0);
    LowBit(f, Even(addr), 0, 0);
  }

  /**
   * A programming request at any address: each page's worth of the words that arrive is
   * turned in its page, from the even start address on; each page is erased and written
   * once, in ascending order.
   */
  lemma ProgramRequest(d: Device, length: word, packets: seq<seq<byte>>, start: word, n: nat, bytes: seq<byte>)
    requires Available(d) && length > 6
    requires ProgramCommand(packets, start, n) && Arriving(packets, start, n) == Some(bytes)
    ensures var r, addr := Handle(d, Dnload(length, packets)), Address(d.flash.chip, d.page64, start);
      && r.1 == Reply([], false, false)
      && Available(r.0) && r.0.flash.chip == d.flash.chip && r.0.page64 == d.page64
      && r.0.flash.memory == Wrapped(d.flash.chip, d.flash.memory, Even(addr), bytes)
      && r.0.flash.log == d.flash.log + [Erase(d.flash.chip.PageOf(addr))]
                          + PageWrites(d.flash.chip, Even(addr), |bytes|)
  {
    hide Handle, RunCommand, Wrapped, PageWrites, Arriving, AddressedCommand, Address, Chip.PageOf;
    HandleDnload(d, length, packets);
    RunProgram(d.(dataSize := length), packets, start, n, bytes);
  }

  /** Filler and alignment bytes are skipped, less the one that turning over a bank costs. */
  lemma ArrivesAsStream(packets: seq<seq<byte>>, start: word, data: seq<byte>)
    requires ProgramPackets(packets, start, data)
    ensures Arriving(packets, start, |data|) == Some(Arrived(packets, start, data))
  {
    hide Discard, Received, AddressedCommand, OutEndpoint.Words, OutEndpoint.Carries, OutEndpoint.Pending;
    var e, a := OutEndpoint(packets[0][6..], packets[1..]), start % ENDPOINT_SIZE;
    DiscardBank(e, FILLER_SIZE);
    assert e.(bank := e.bank[FILLER_SIZE..]) == Body(packets);
    if a == 0 {
      DiscardBank(Body(packets), 0);
      assert Body(packets).bank[0..] == Body(packets).bank;
    } else {
      TurnoverCostsOne(Body(packets), a);
      assert packets[1..][1..] == packets[2..];
    }
    StreamCovers(packets, start, data);
    ReceivedWords(Stream(packets, start), |data| / 2);
  }

  lemma EvenAddress(chip: Chip, page64: byte, start: word)
    requires start % ENDPOINT_SIZE == 0
    ensures Even(Address(chip, page64, start)) == Address(chip, page64, start)
  {
    var half := 16 * (start / ENDPOINT_SIZE) + (if chip.size > 0x10000 then page64 * 0x8000 else 0);
    assert Address(chip, page64, start) == 2 * half;
    Remainder(Address(chip, page64, start), 2, half, 0);
  }

  /**
   * A programming request at any address: each page's worth of what arrives is turned in
   * its page, from the even start address on. From a page boundary the data itself is
   * stored: the rest of the last page is erased and every other cell is as before.
   */
  lemma ProgramImage(d: Device, length: word, packets: seq<seq<byte>>, start: word, data: seq<byte>)
    requires Available(d) && length > 6 && ProgramPackets(packets, start, data)
    requires Address(d.flash.chip, d.page64, start) + |data| <= d.flash.chip.size
    ensures var r, chip := Handle(d, Dnload(length, packets)), d.flash.chip;
      var addr, bytes := Address(chip, d.page64, start), Arrived(packets, start, data);
      && r.1 == Reply([], false, false)
      && Available(r.0) && r.0.flash.chip == chip && r.0.page64 == d.page64
      && r.0.flash.memory == Wrapped(chip, d.flash.memory, Even(addr), bytes)
      && (chip.Aligned(addr) ==> r.0.flash.memory == Stored(chip, d.flash.memory, addr, WholeWords(data)))
      && r.0.flash.log == d.flash.log + [Erase(chip.PageOf(addr))] + PageWrites(chip, Even(addr), |bytes|)
  {
    hide Stored, Handle, Wrapped, PageWrites, Arriving, Arrived, ProgramPackets, Address, Even, Chip.PageOf,
         Chip.Offset;
    PacketBounds(packets, start, data);
    ArrivesAsStream(packets, start, data);
    ProgramRequest(d, length, packets, start, |data|, Arrived(packets, start, data));
    var addr := Address(d.flash.chip, d.page64, start);
    if d.flash.chip.Aligned(addr) {
      AlignedStart(d.flash.chip, d.page64, start);
      EvenAddress(d.flash.chip, d.page64, start);
      WrappedAligned(d.flash.chip, d.flash.memory, addr, WholeWords(data));
    }
  }

  /** A page boundary is also an endpoint bank boundary, so no alignment filler is due. */
  lemma AlignedStart(chip: Chip, page64: byte, start: word)
    requires chip.Valid() && chip.Aligned(Address(chip, page64, start))
    ensures start % ENDPOINT_SIZE == 0
  {
    hide Chip.Offset, Chip.Valid;
    var addr := Address(chip, page64, start);
    BankBoundary(chip, addr);
    if chip.size > 0x10000 {
      var q := addr / ENDPOINT_SIZE - 0x800 * page64;
      assert start == ENDPOINT_SIZE * q;
    }
  }

  lemma HandleDnload(d: Device, length: word, packets: seq<seq<byte>>)
    requires !d.waitForExit && length != 0 && packets != []
    ensures Handle(d, Dnload(length, packets)) == RunCommand(d.(dataSize := length), packets)
  {
    hide RunCommand, FinishDownload, Process, UploadBytes;
  }

  /** A memory read command and an upload return the cells they name. */
  lemma ReadBack(d: Device, start: word, n: nat, length: word)
    requires !d.secure && !d.waitForExit && 0 < n < 0x10000 && start + n <= 0x10000
    ensures var command := AddressedCommand(COMMAND_DISP_DATA, 0x00, start, start + n - 1);
      var r := Handle(d, Dnload(6, [command]));
      var u, addr := Handle(r.0, Upload(length)), Address(d.flash.chip, d.page64, start);
      && r.1 == Reply([], false, false)
      && u.1 == Reply(DataStage(ENDPOINT_SIZE, ReadFlash(d.flash, addr, n / 2 * 2)), false, false)
      && u.0 == d.(command := u.0.command, data := u.0.data, dataSize := length, startAddr := start + n - 1,
                   endAddr := start + n - 1, state := Idle)
  {
    hide DataStage, ReadFlash, Programmed, TakeCommand, AfterCommand, LoadAddresses, BytesRemaining;
    var command := AddressedCommand(COMMAND_DISP_DATA, 0x00, start, start + n - 1);
    var e := OutEndpoint([command][0], [command][1..]);
    var sized := d.(dataSize := 6);
    assert command[..6] == command;
    CommandAddresses(sized, e, COMMAND_DISP_DATA, 0x00, start, start + n - 1);
    var c := TakeCommand(sized, e);
    var m := Process(c);
    assert m == c.(startAddr := start, endAddr := start + n - 1, state := UploadIdle);
    CountBytes(m.(dataSize := length), n);
  }

  lemma ReadsCells(f: Flash, addr: nat, n: nat)
    requires addr + n <= f.chip.size
    ensures ReadFlash(f, addr, n) == f.memory[addr..addr + n]
  {
    forall i | 0 <= i < n
      ensures ReadFlash(f, addr, n)[i] == f.memory[addr..addr + n][i]
    {
      assert ReadFlash(f, addr, n)[i] == f.Read(addr + i);
    }
  }

  /** The cell at the start address holds the first byte that arrived. */
  lemma StartCell(chip: Chip, memory: seq<byte>, addr: nat, data: seq<byte>)
    requires chip.Valid() && data != [] && addr < |memory|
    ensures Wrapped(chip, memory, addr, data)[addr] == data[0]
  {
    hide Wrapped, Chip.PageOf, Chip.Offset;
    if |data| <= chip.pageSize {
      WrappedPage(chip, memory, addr, data);
    } else {
      WrappedUnfolds(chip, memory, addr, data);
      PageOfNext(chip, addr);
      var first := data[..chip.pageSize];
      WrappedBefore(chip, Put(memory, chip.PageOf(addr), Turned(chip, addr, first)), addr + chip.pageSize,
                    data[chip.pageSize..], addr);
    }
  }

  /**
   * Programming and then reading the same range returns what stands in the cells. It is the
   * data, however the host cut it into packets, if it starts at a bank boundary and either
   * starts at a page boundary or ends in the page it starts in. From an even address off a
   * bank boundary the last alignment byte stands in the first cell.
   */
  lemma ProgramThenUpload(d: Device, length: word, packets: seq<seq<byte>>, start: word, data: seq<byte>,
                          uploadLength: word)
    requires Available(d) && length > 6 && ProgramPackets(packets, start, data)
    requires Address(d.flash.chip, d.page64, start) + |data| <= d.flash.chip.size
    ensures var chip, addr, words := d.flash.chip, Address(d.flash.chip, d.page64, start), WholeWords(data);
      var programmed := Handle(d, Dnload(length, packets));
      var command := AddressedCommand(COMMAND_DISP_DATA, 0x00, start, start + |data| - 1);
      var asked := Handle(programmed.0, Dnload(6, [command]));
      var uploaded := Handle(asked.0, Upload(uploadLength));
      && uploaded.0.flash == programmed.0.flash
      && Flatten(uploaded.1.packets)
         == Wrapped(chip, d.flash.memory, Even(addr), Arrived(packets, start, data))[addr..addr + |words|]
      && (start % ENDPOINT_SIZE == 0 && (chip.Aligned(addr) || addr + |words| <= chip.PageOf(addr) + chip.pageSize) ==>
            Flatten(uploaded.1.packets) == words)
      && (start % ENDPOINT_SIZE > 0 && addr % 2 == 0 && Flatten(uploaded.1.packets) == words ==>
            data[0] == packets[1][start % ENDPOINT_SIZE - 1])
  {
    hide Handle, Wrapped, Stored, PageWrites, ReadFlash, DataStage, ProgramPackets, Address, Chip.PageOf, Chip.Offset,
         AddressedCommand, Arrived;
    PacketBounds(packets, start, data);
    ProgramImage(d, length, packets, start, data);
    var chip, programmed, words := d.flash.chip, Handle(d, Dnload(length, packets)).0, WholeWords(data);
    var addr, bytes := Address(chip, d.page64, start), Arrived(packets, start, data);
    ReadBack(programmed, start, |data|, uploadLength);
    ReadsCells(programmed.flash, addr, |words|);
    DataStageBytes(ENDPOINT_SIZE, ReadFlash(programmed.flash, addr, |words|));
    if start % ENDPOINT_SIZE == 0 {
      EvenAddress(chip, d.page64, start);
      if chip.Aligned(addr) || addr + |words| <= chip.PageOf(addr) + chip.pageSize {
        WrappedInPlace(chip, d.flash.memory, addr, words);
      }
    } else {
      StartCell(chip, d.flash.memory, Even(addr), bytes);
    }
  }

  lemma PacketBounds(packets: seq<seq<byte>>, start: word, data: seq<byte>)
    requires ProgramPackets(packets, start, data)
    ensures ProgramCommand(packets, start, |data|) && 2 <= |data| < 0x10000 && start + |data| <= 0x10000
    ensures start % ENDPOINT_SIZE > 0 ==> |packets| > 1 && |packets[1]| >= start % ENDPOINT_SIZE
  {
  }
}
