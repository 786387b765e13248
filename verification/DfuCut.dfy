/** Downloads that are cut short by unplugging: what they leave behind. */
module DfuCut {
  import opened Bytes
  import opened FlashMemory
  import opened Endpoints
  import opened Dfu
  import opened DfuPages
  import opened DfuImage
  import opened DfuEeprom

  // ---------------------------------------------------------------------------
  // Flash
  // ---------------------------------------------------------------------------

  /** The flash so far, the address of the page at hand and the words buffered for it. */
  datatype Stage = Stage(memory: seq<byte>, addr: nat, words: seq<byte>)

  /** After `data`: every full page's worth is written, and the rest is buffered. */
  ghost function StageAfter(chip: Chip, memory: seq<byte>, addr: nat, data: seq<byte>): (s: Stage)
    requires chip.Valid()
    ensures |s.memory| == |memory|
    decreases |data|
  {
    if |data| < chip.pageSize then Stage(memory, addr, data)
    else
      var first, rest := data[..chip.pageSize], data[chip.pageSize..];
      StageAfter(chip, Put(memory, chip.PageOf(addr), Turned(chip, addr, first)), addr + chip.pageSize, rest)
  }

  /** The host sends exactly these words and then goes. */
  ghost predicate Ends(e: OutEndpoint, bytes: seq<byte>) {
    |bytes| % 2 == 0 && Received(e, |bytes| / 2) == Some(bytes) && Received(e, |bytes| / 2 + 1) == None
  }

  lemma NoMore(e: OutEndpoint)
    requires Ends(e, [])
    ensures e.Dry()
  {
    assert e.Dry() || Received(e.Ready().Drop().Drop(), 0) == Some([]);
  }

  lemma EndsNext(e: OutEndpoint, bytes: seq<byte>)
    requires Ends(e, bytes) && bytes != []
    ensures Ends(e.Ready().Drop().Drop(), bytes[2..])
  {
    hide OutEndpoint.Ready, OutEndpoint.Peek, OutEndpoint.Drop;
    NextWord(e, bytes);
    assert |bytes[2..]| / 2 + 1 == |bytes| / 2 && (|bytes| - 2) / 2 == |bytes[2..]| / 2;
    assert Received(e.Ready().Drop().Drop(), |bytes| / 2) == None;
  }

  lemma StageTurns(chip: Chip, memory: seq<byte>, addr: nat, first: seq<byte>, rest: seq<byte>)
    requires chip.Valid() && |first| == chip.pageSize
    ensures StageAfter(chip, memory, addr, first + rest)
         == StageAfter(chip, Put(memory, chip.PageOf(addr), Turned(chip, addr, first)), addr + chip.pageSize, rest)
  {
    hide Put, Turned, Chip.PageOf;
    assert (first + rest)[..chip.pageSize] == first && (first + rest)[chip.pageSize..] == rest;
  }

  /** The loop has no more words: it gives up with the page at hand erased and buffered. */
  ghost predicate GaveUp(w: FlashWrite, chip: Chip, memory: seq<byte>, addr: nat, data: seq<byte>)
    requires chip.Valid()
  {
    var s := StageAfter(chip, memory, addr, data);
    !w.completed && w.flash.chip == chip && Turning(w.flash, s.memory, s.addr, s.words)
  }

  lemma GivesUp(f: Flash, memory: seq<byte>, addr: nat, data: seq<byte>, inPage: nat, left: nat, e: OutEndpoint)
    requires Turning(f, memory, addr, data) && |data| < f.chip.pageSize && e.Dry() && left > 0
    ensures GaveUp(WriteWords(f, addr + |data|, addr, inPage, left, e), f.chip, memory, addr, data)
  {
    hide Turning;
    WriteEnds(f, addr + |data|, addr, inPage, left, e);
  }

  lemma {:induction false} CutTurned(f: Flash, memory: seq<byte>, addr: nat, done: seq<byte>, rest: seq<byte>,
                                     left: nat, e: OutEndpoint)
    requires Turning(f, memory, addr, done) && addr % 2 == 0 && |done| % 2 == 0 && |done| < f.chip.pageSize
    requires Ends(e, rest) && |rest| / 2 < left
    ensures GaveUp(WriteWords(f, addr + |done|, addr, |done| / 2, left, e), f.chip, memory, addr, done + rest)
    decreases |rest|
  {
    hide Turning, Turned, Put, StageAfter, GaveUp, WriteWords, Received, Chip.PageOf, Chip.Offset, Chip.Valid,
         RawFlash.PageErase, RawFlash.PageFill, RawFlash.PageWrite, OutEndpoint.Ready, OutEndpoint.Peek,
         OutEndpoint.Drop, OutEndpoint.Dry;
    var chip := f.chip;
    if rest == [] {
      NoMore(e);
      GivesUp(f, memory, addr, done, |done| / 2, left, e);
      assert done + rest == done;
    } else {
      NextWord(e, rest);
      EndsNext(e, rest);
      TurnFill(f, memory, addr, done, rest[0], rest[1]);
      WriteStep(f, addr + |done|, addr, |done| / 2, left, e);
      Counters(chip, |done|, |rest|);
      var filled := f.PageFill(addr + |done|, rest[0], rest[1]);
      var more, tail, out := done + [rest[0], rest[1]], rest[2..], e.Ready().Drop().Drop();
      assert more + tail == done + rest && |more| == |done| + 2 && |tail| == |rest| - 2;
      if |more| == chip.pageSize {
        TurnOver(filled, memory, addr, more);
        var next := filled.PageWrite(addr).PageErase(addr + chip.pageSize);
        var m := Put(memory, chip.PageOf(addr), Turned(chip, addr, more));
        CutTurned(next, m, addr + chip.pageSize, [], tail, left - 1, out);
        assert [] + tail == tail;
        StageTurns(chip, memory, addr, more, tail);
        GaveUpOver(WriteWords(next, addr + chip.pageSize, addr + chip.pageSize, 0, left - 1, out), chip, memory, addr,
                   more, tail);
      } else {
        CutTurned(filled, memory, addr, more, tail, left - 1, out);
      }
    }
  }

  lemma GaveUpOver(w: FlashWrite, chip: Chip, memory: seq<byte>, addr: nat, first: seq<byte>, rest: seq<byte>)
    requires chip.Valid() && |first| == chip.pageSize
    requires GaveUp(w, chip, Put(memory, chip.PageOf(addr), Turned(chip, addr, first)), addr + chip.pageSize, rest)
    ensures GaveUp(w, chip, memory, addr, first + rest)
  {
    hide Put, Turned, Turning, StageAfter, Chip.PageOf;
    StageTurns(chip, memory, addr, first, rest);
  }

  /** The endpoint at which the data stage of a request starts. */
  ghost function DataAt(packets: seq<seq<byte>>, start: word): OutEndpoint
    requires packets != [] && |packets[0]| >= 6
  {
    Discard(Discard(OutEndpoint(packets[0][6..], packets[1..]), FILLER_SIZE), start % ENDPOINT_SIZE)
  }

  /**
   * A flash download cut short is reported as such. The pages filled so far are written;
   * the page at hand stays erased, with the words for it left in the page buffer.
   */
  lemma CutShort(d: Device, length: word, packets: seq<seq<byte>>, start: word, n: nat, bytes: seq<byte>)
    requires Available(d) && length > 6 && ProgramCommand(packets, start, n)
    requires Ends(DataAt(packets, start), bytes) && |bytes| < n / 2 * 2
    ensures var r, chip := Handle(d, Dnload(length, packets)), d.flash.chip;
      var s := StageAfter(chip, d.flash.memory, Even(Address(chip, d.page64, start)), bytes);
      && r.1 == Reply([], false, true) && r.0.state == DnloadIdle && r.0.startAddr == start && r.0.flash.chip == chip
      && r.0.flash.memory == Put(s.memory, chip.PageOf(s.addr), Blank(chip.pageSize))
      && r.0.flash.buffer == Turned(chip, s.addr, s.words)
  {
    hide Handle, Process, Rejected, CountDown, TakeCommand, AfterCommand, Chip.PageOf, Chip.Offset, Discard, Received,
         WriteWords, WriteEeprom, BytesRemaining, AddressedCommand, RawFlash.PageErase, StageAfter, Turned, Put,
         Address;
    HandleDnload(d, length, packets);
    var sized, e := d.(dataSize := length), OutEndpoint(packets[0], packets[1..]);
    var addr := Address(d.flash.chip, d.page64, start);
    ProcessProgram(sized, e, start, start + n - 1);
    var p := Process(TakeCommand(sized, e));
    CountBytes(p, n);
    EvenErase(d.flash, addr);
    TurnBegin(d.flash, Even(addr));
    CutAll(p.flash, d.flash.memory, addr, bytes, n / 2, DataAt(packets, start));
  }

  lemma CutAll(f: Flash, memory: seq<byte>, addr: nat, bytes: seq<byte>, left: nat, e: OutEndpoint)
    requires Turning(f, memory, Even(addr), []) && Ends(e, bytes) && |bytes| / 2 < left
    ensures GaveUp(WriteWords(f, addr, addr, 0, left, e), f.chip, memory, Even(addr), bytes)
  {
    hide Turning, GaveUp, WriteWords, Received, Chip.Offset;
    var even := Even(addr);
    assert even == 2 * (addr / 2);
    Remainder(even, 2, addr / 2, 0);
    CutTurned(f, memory, even, [], bytes, left, e);
    assert [] + bytes == bytes;
    if addr % 2 == 1 {
      LowBitIgnored(f, even, even, 0, left, e);
    }
  }

  // ---------------------------------------------------------------------------
  // EEPROM
  // ---------------------------------------------------------------------------

  /** With too few bytes the loop stores those there are. */
  lemma {:induction false} WriteEepromCut(m: seq<byte>, addr: word, left: nat, e: OutEndpoint)
    requires NoEmptyPackets(e) && |e.Pending()| < left
    requires addr + |e.Pending()| <= |m| && addr + |e.Pending()| < 0x10000
    ensures var w := WriteEeprom(m, addr, left, e);
      !w.completed && w.eeprom == Overlaid(m, addr, e.Pending()) && w.addr == addr + |e.Pending()|
    decreases left
  {
    hide NoEmptyPackets, Overlaid;
    var data := e.Pending();
    if data == [] {
      NothingPending(e);
      assert Overlaid(m, addr, data) == m by { OverlaidNothing(m, addr); }
    } else {
      hide OutEndpoint.Ready, OutEndpoint.Peek, OutEndpoint.Drop, OutEndpoint.Pending, OutEndpoint.Dry;
      ReadNext(e);
      assert Wrap16(addr + 1) == addr + 1;
      OverlaidStep(m, addr, data);
      WriteEepromCut(m[addr := data[0]], addr + 1, left - 1, e.Ready().Drop());
    }
  }

  lemma NothingPending(e: OutEndpoint)
    requires NoEmptyPackets(e) && e.Pending() == []
    ensures e.Dry()
  {
  }

  lemma OverlaidNothing(m: seq<byte>, addr: nat)
    requires addr <= |m|
    ensures Overlaid(m, addr, []) == m
  {
  }

  /** An EEPROM download cut short is reported as such and has stored the bytes that came. */
  lemma EepromCutShort(d: Device, length: word, packets: seq<seq<byte>>, start: word, n: nat)
    requires !d.secure && !d.waitForExit && length > 6 && 0 < n && start + n < 0x10000
    requires packets != [] && |packets[0]| >= 6
    requires packets[0][..6] == AddressedCommand(COMMAND_PROG_START, 0x01, start, start + n - 1)
    requires var e := DataAt(packets, start);
      NoEmptyPackets(e) && |e.Pending()| < n && start + |e.Pending()| <= |d.eeprom|
    ensures var r, bytes := Handle(d, Dnload(length, packets)), DataAt(packets, start).Pending();
      && r.1 == Reply([], false, true) && r.0.state == DnloadIdle && r.0.flash == d.flash
      && r.0.eeprom == Overlaid(d.eeprom, start, bytes) && r.0.startAddr == start + |bytes|
  {
    hide Handle, Process, Rejected, CountDown, TakeCommand, AfterCommand, Discard, WriteWords, WriteEeprom,
         BytesRemaining, AddressedCommand, Overlaid, NoEmptyPackets, OutEndpoint.Pending;
    HandleDnload(d, length, packets);
    var sized, e := d.(dataSize := length), OutEndpoint(packets[0], packets[1..]);
    ProcessEepromProgram(sized, e, start, start + n - 1);
    var p := Process(TakeCommand(sized, e));
    CountBytes(p, n);
    WriteEepromCut(d.eeprom, start, n, DataAt(packets, start));
  }
}
