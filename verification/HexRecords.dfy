/**
 * Data records in any order: when the boot section is left alone. The parser keeps its
 * page in step with the address it has just passed, so a record that ends exactly at the
 * boot section, or one without data that lies in it, can leave a boot page as the one to be
 * erased next.
 */
module HexRecords {
  import opened Bytes
  import opened FlashMemory
  import opened HexParser
  import opened HexStreams
  import opened HexImage

  // ---------------------------------------------------------------------------
  // Only what is logged changes
  // ---------------------------------------------------------------------------

  /** `b` comes after `a`: events were added, and other pages kept their cells. */
  ghost predicate Later(a: Flash, b: Flash) {
    && a.chip == b.chip && a.log <= b.log
    && forall i :: 0 <= i < |a.memory| && a.memory[i] != b.memory[i] ==>
         exists k :: |a.log| <= k < |b.log| && b.log[k].page == a.chip.PageOf(i)
  }

  lemma LaterTrans(a: Flash, b: Flash, c: Flash)
    requires Later(a, b) && Later(b, c)
    ensures Later(a, c)
  {
    hide Chip.PageOf, Chip.Offset;
    forall i | 0 <= i < |a.memory| && a.memory[i] != c.memory[i]
      ensures exists k :: |a.log| <= k < |c.log| && c.log[k].page == a.chip.PageOf(i)
    {
      if a.memory[i] != b.memory[i] {
        var k :| |a.log| <= k < |b.log| && b.log[k].page == a.chip.PageOf(i);
        assert c.log[k] == b.log[k];
      }
    }
  }

  lemma LaterOps(f: Flash, a: nat)
    ensures Later(f, f) && Later(f, f.PageErase(a)) && Later(f, f.PageWrite(a))
  {
    hide Chip.Offset, Program;
    var page := f.chip.PageOf(a);
    var e, w := f.PageErase(a), f.PageWrite(a);
    assert e.log[|f.log|].page == page && w.log[|f.log|].page == page;
    forall i | page <= i < page + f.chip.pageSize
      ensures f.chip.PageOf(i) == page
    {
      PageOfWithin(f.chip, page, i);
    }
  }

  lemma FlushLater(h: Parser)
    ensures Later(h.flash, FlushIfRequired(h).flash)
  {
    hide Later, Chip.PageOf, RawFlash.PageWrite;
    LaterOps(h.flash, h.pageStart);
  }

  lemma FillLater(f: Flash, a: nat, low: byte, high: byte)
    ensures Later(f, f.PageFill(a, low, high))
  {
  }

  lemma WordLater(h: Parser)
    ensures Later(h.flash, AcceptWord(h).flash)
  {
    hide Later, FlushIfRequired, Chip.PageOf, RawFlash.PageErase, RawFlash.PageFill;
    LaterOps(h.flash, h.pageStart);
    if h.recordType == DATA {
      var erased := if h.dirty then h.flash else h.flash.PageErase(h.pageStart);
      var filled := erased.PageFill(h.addr, h.prevData, h.data);
      FillLater(erased, h.addr, h.prevData, h.data);
      LaterTrans(h.flash, erased, filled);
      var g := h.(flash := filled, dirty := true, addr := Wrap32(h.addr + 2));
      FlushLater(g);
      LaterTrans(h.flash, filled, FlushIfRequired(g).flash);
    }
  }

  lemma AcceptLater(h: Parser)
    requires Counted(h)
    ensures Later(h.flash, Accept(h).flash)
  {
    hide Later, AcceptWord, FlushIfRequired, Wrap8, Wrap32;
    LaterOps(h.flash, 0);
    if h.state == ReadData {
      WordLater(h.(checksum := Wrap8(h.checksum + h.data), dataRem := h.dataRem - 1));
    } else if h.state == Checksum {
      FlushLater(h);
    }
  }

  lemma FeedLater(h: Parser, c: char)
    requires Counted(h)
    ensures Later(h.flash, Feed(h, c).flash)
  {
    hide Later, Accept, Wrap8;
    LaterOps(h.flash, 0);
    if h.state != WaitLine && c != ':' && HexToDecimal(c) >= 0 && h.readMSB {
      AcceptLater(h.(data := Wrap8(h.data * 0x10 + HexToDecimal(c)), readMSB := false));
    }
  }

  /** On every text a cell changes only if an event names its page. */
  lemma {:induction false} OnlyLoggedPagesChange(h: Parser, text: string)
    requires Counted(h)
    ensures Later(h.flash, Run(h, text).flash)
    decreases |text|
  {
    hide Later, Feed;
    if text == "" {
      LaterOps(h.flash, 0);
    } else {
      FeedLater(h, text[0]);
      var next := Feed(h, text[0]);
      OnlyLoggedPagesChange(next, text[1..]);
      LaterTrans(h.flash, next.flash, Run(h, text).flash);
    }
  }

  // ---------------------------------------------------------------------------
  // Records
  // ---------------------------------------------------------------------------

  /** A data record with the byte sent for its checksum, right or wrong. */
  datatype DataRecord = DataRecord(addr: nat, data: seq<byte>, check: byte)

  /** Whole words, or none, at an even address in the application section or not. */
  predicate WholeWords(r: DataRecord) {
    r.addr < 0x10000 && r.addr % 2 == 0 && |r.data| < 0x100 && |r.data| % 2 == 0
  }

  predicate AllWholeWords(rs: seq<DataRecord>) {
    forall i :: 0 <= i < |rs| ==> WholeWords(rs[i])
  }

  /** The record carries data into the application section. */
  predicate Programs(end: nat, r: DataRecord) { r.data != [] && r.addr < end }

  function PrintDataRecord(r: DataRecord): string
    requires r.addr < 0x10000 && |r.data| < 0x100
  {
    PrintEnding(r.addr, DATA, r.data, r.check)
  }

  function PrintRecords(rs: seq<DataRecord>): string
    requires AllWholeWords(rs)
  {
    if rs == [] then "" else PrintDataRecord(rs[0]) + PrintRecords(rs[1..])
  }

  lemma {:induction false} PrintRecordsSnoc(rs: seq<DataRecord>)
    requires AllWholeWords(rs) && rs != []
    ensures PrintRecords(rs) == PrintRecords(rs[..|rs| - 1]) + PrintDataRecord(rs[|rs| - 1])
    decreases |rs|
  {
    hide PrintDataRecord;
    var n := |rs| - 1;
    if n > 0 {
      assert rs[1..][..n - 1] == rs[..n][1..];
      PrintRecordsSnoc(rs[1..]);
    }
  }

  // ---------------------------------------------------------------------------
  // The page at hand, from the records alone
  // ---------------------------------------------------------------------------

  /** The page a word would go to next, and whether it has been erased and is being filled. */
  datatype Cursor = Cursor(page: nat, filling: bool)

  /** After a word the page is that of the next address; on leaving a page it is written. */
  function AfterWord(chip: Chip, c: Cursor, next: nat): Cursor
    requires chip.Valid()
  {
    Cursor(chip.PageOf(next), c.page == chip.PageOf(next))
  }

  /** After `n` data bytes from `addr` on; at the boot section the rest is dropped. */
  function AfterData(chip: Chip, c: Cursor, addr: nat, n: nat): Cursor
    requires chip.Valid()
    decreases n
  {
    if n < 2 then c
    else if addr >= chip.bootStart then c.(filling := false)
    else AfterData(chip, AfterWord(chip, c, addr + 2), addr + 2, n - 2)
  }

  /** The page being filled is left for that of an address. */
  function Leave(chip: Chip, c: Cursor, addr: nat): Cursor
    requires chip.Valid()
  {
    if c.filling && c.page != chip.PageOf(addr) then Cursor(chip.PageOf(addr), false) else c
  }

  /** A record without data only leaves the page being filled, if its checksum is right. */
  function AfterRecord(chip: Chip, c: Cursor, r: DataRecord): Cursor
    requires chip.Valid() && WholeWords(r)
  {
    if r.data != [] then AfterData(chip, c, r.addr, |r.data|)
    else if r.check == RightCheck(r.addr, DATA, []) then Leave(chip, c, r.addr)
    else c
  }

  function CursorAfter(chip: Chip, rs: seq<DataRecord>): Cursor
    requires chip.Valid() && AllWholeWords(rs)
  {
    if rs == [] then Cursor(0, false) else AfterRecord(chip, CursorAfter(chip, rs[..|rs| - 1]), rs[|rs| - 1])
  }

  /** Record `k` carries data into the application section while a boot page is at hand. */
  predicate Strikes(chip: Chip, rs: seq<DataRecord>, k: nat)
    requires chip.Valid() && AllWholeWords(rs) && k < |rs|
  {
    Programs(chip.bootStart, rs[k]) && CursorAfter(chip, rs[..k]).page >= chip.bootStart
  }

  predicate AnyStrikes(chip: Chip, rs: seq<DataRecord>)
    requires chip.Valid() && AllWholeWords(rs)
  {
    exists k :: 0 <= k < |rs| && Strikes(chip, rs, k)
  }

  lemma StrikesSnoc(chip: Chip, rs: seq<DataRecord>)
    requires chip.Valid() && AllWholeWords(rs) && rs != []
    ensures var n := |rs| - 1;
      var atBoot := CursorAfter(chip, rs[..n]).page >= chip.bootStart;
      AnyStrikes(chip, rs) <==> AnyStrikes(chip, rs[..n]) || (Programs(chip.bootStart, rs[n]) && atBoot)
  {
    hide CursorAfter, Programs;
    var n := |rs| - 1;
    forall k | 0 <= k < n
      ensures Strikes(chip, rs, k) <==> Strikes(chip, rs[..n], k)
    {
      assert rs[..n][..k] == rs[..k];
    }
    var atBoot := CursorAfter(chip, rs[..n]).page >= chip.bootStart;
    assert Strikes(chip, rs, n) <==> Programs(chip.bootStart, rs[n]) && atBoot;
  }

  // ---------------------------------------------------------------------------
  // The parser follows the cursor
  // ---------------------------------------------------------------------------

  /** No event names a page from `end` on. */
  ghost predicate Below(log: seq<Event>, end: nat) {
    forall k :: 0 <= k < |log| ==> log[k].page < end
  }

  /** The parser is at the cursor, and the boot section has been left alone so far. */
  ghost predicate Spared(h: Parser, c: Cursor) {
    && h.base == 0 && h.pageStart == c.page && h.dirty == c.filling
    && h.flash.chip.Aligned(c.page) && Below(h.flash.log, h.flash.chip.bootStart)
    && (c.filling ==> c.page < h.flash.chip.bootStart)
  }

  lemma SparedFrame(h: Parser, g: Parser, c: Cursor)
    requires Spared(h, c) && g.base == h.base && g.pageStart == h.pageStart && g.flash == h.flash
    ensures g.dirty == h.dirty ==> Spared(g, c)
    ensures !g.dirty ==> Spared(g, c.(filling := false))
  {
  }

  /** A word in the application section moves the page to the one of the next address. */
  lemma SparedWord(h: Parser, c: Cursor)
    requires Spared(h, c) && c.page < h.flash.chip.bootStart && h.recordType == DATA
    requires h.addr < h.flash.chip.bootStart && h.addr % 2 == 0
    ensures var r := AcceptWord(h);
      && Spared(r, AfterWord(h.flash.chip, c, h.addr + 2)) && r.addr == h.addr + 2 <= h.flash.chip.bootStart
  {
    hide Chip.Offset, Program, Wrap32;
    var chip := h.flash.chip;
    WordInPage(chip, h.addr);
    NoWrap(h.addr + 2);
    PageOfWithin(chip, h.pageStart, h.pageStart);
  }

  /** The parser is past the data field: at the checksum, or skipping the rest of the line. */
  ghost predicate Settled(h: Parser, addr: nat, checksum: byte) {
    h.state == WaitLine ||
    (h.state == Checksum && h.recordType == DATA && h.addr == addr && h.checksum == checksum &&
     h.pageStart == h.flash.chip.PageOf(addr))
  }

  lemma TakeSparedWord(h: Parser, c: Cursor, low: byte, high: byte)
    requires Counted(h) && Spared(h, c) && c.page < h.flash.chip.bootStart
    requires h.state == ReadData && h.recordType == DATA
    requires h.addr < h.flash.chip.bootStart && h.addr % 2 == 0 && h.dataRem % 2 == 0
    ensures var r := TakeByte(TakeByte(h, low), high);
      && Spared(r, AfterWord(h.flash.chip, c, h.addr + 2)) && r.addr == h.addr + 2 <= h.flash.chip.bootStart
      && r.recordType == DATA && r.dataRem == h.dataRem - 2
      && r.state == (if h.dataRem == 2 then Checksum else ReadData)
      && r.checksum == Wrap8(Wrap8(h.checksum + low) + high)
  {
    hide AcceptWord, Spared, Wrap8, AcceptChecksum, Chip.PageOf;
    var sum := Wrap8(Wrap8(h.checksum + low) + high);
    var w := h.(prevData := low, data := high, checksum := sum, dataRem := h.dataRem - 2);
    SparedFrame(h, w, c);
    SparedWord(w, c);
    WordFrame(w);
    var loaded := AcceptWord(w);
    SparedFrame(loaded, loaded.(state := Checksum), AfterWord(h.flash.chip, c, h.addr + 2));
  }

  lemma {:induction false} SkipLine(h: Parser, c: Cursor, bytes: seq<byte>)
    requires Counted(h) && Spared(h, c) && h.state == WaitLine
    ensures Spared(TakeBytes(h, bytes), c) && TakeBytes(h, bytes).state == WaitLine
    decreases |bytes|
  {
    hide Spared, Accept;
    if bytes != [] {
      SparedFrame(h, TakeByte(h, bytes[0]), c);
      SkipLine(TakeByte(h, bytes[0]), c, bytes[1..]);
    }
  }

  lemma TakeGuarded(h: Parser, c: Cursor, b: byte)
    requires Counted(h) && Spared(h, c) && h.state == ReadData && h.addr >= h.flash.chip.bootStart
    ensures Spared(TakeByte(h, b), c.(filling := false)) && TakeByte(h, b).state == WaitLine
  {
    hide AcceptWord, Spared, Wrap8, AcceptChecksum;
    SparedFrame(h, TakeByte(h, b), c);
  }

  /** Data for the boot section is dropped, and with it the page being filled. */
  lemma TakeGuardedData(h: Parser, c: Cursor, data: seq<byte>)
    requires Counted(h) && Spared(h, c) && h.state == ReadData && h.addr >= h.flash.chip.bootStart
    requires data != []
    ensures Spared(TakeBytes(h, data), c.(filling := false)) && TakeBytes(h, data).state == WaitLine
  {
    hide Spared, TakeByte, TakeBytes;
    TakeGuarded(h, c, data[0]);
    assert data == [data[0]] + data[1..];
    TakeCons(h, data[0], data[1..]);
    SkipLine(TakeByte(h, data[0]), c.(filling := false), data[1..]);
  }

  lemma {:induction false} TakeSparedData(h: Parser, c: Cursor, data: seq<byte>)
    requires Counted(h) && Spared(h, c) && h.state == ReadData && h.recordType == DATA
    requires h.addr % 2 == 0 && |data| % 2 == 0 && h.dataRem == |data|
    requires h.addr < h.flash.chip.bootStart ==> c.page < h.flash.chip.bootStart
    ensures var r := TakeBytes(h, data);
      && Spared(r, AfterData(h.flash.chip, c, h.addr, |data|))
      && Settled(r, h.addr + |data|, AddAll(h.checksum, data))
    decreases |data|
  {
    hide Spared, TakeByte, TakeBytes, AddAll, Wrap8, Chip.PageOf, Chip.Offset;
    var end := h.flash.chip.bootStart;
    if h.addr >= end {
      TakeGuardedData(h, c, data);
    } else {
      TakeSparedWord(h, c, data[0], data[1]);
      var r, rest := TakeByte(TakeByte(h, data[0]), data[1]), data[2..];
      assert data == [data[0]] + ([data[1]] + rest);
      TakeCons(h, data[0], [data[1]] + rest);
      TakeCons(TakeByte(h, data[0]), data[1], rest);
      var next := AfterWord(h.flash.chip, c, h.addr + 2);
      if rest == [] {
        TakeNone(r);
        SparedPage(r, next);
      } else {
        TakeSparedData(r, next, rest);
      }
    }
  }

  lemma SparedPage(h: Parser, c: Cursor)
    requires Spared(h, c)
    ensures h.base == 0 && h.pageStart == c.page && Below(h.flash.log, h.flash.chip.bootStart)
    ensures c.filling ==> c.page < h.flash.chip.bootStart
  {
  }

  /** The checksum byte, right or wrong: the page is already that of the address. */
  lemma TakeSettled(h: Parser, c: Cursor, addr: nat, checksum: byte, check: byte)
    requires Counted(h) && Spared(h, c) && Settled(h, addr, checksum)
    ensures Spared(TakeByte(h, check), c)
  {
    hide Wrap8, RawFlash.PageWrite, AcceptData, Chip.PageOf;
    SparedFrame(h, TakeByte(h, check), c);
  }

  /** A checksum byte after no data: the page being filled may be left for another. */
  lemma FlushSpared(h: Parser, c: Cursor)
    requires Spared(h, c)
    ensures Spared(FlushIfRequired(h), Leave(h.flash.chip, c, h.addr))
  {
    hide Chip.Offset, Program;
    PageOfWithin(h.flash.chip, h.pageStart, h.pageStart);
  }

  lemma TakeFlush(h: Parser, c: Cursor, check: byte)
    requires Counted(h) && Spared(h, c) && h.state == Checksum
    ensures Spared(TakeByte(h, check),
                   if check == CheckByte(h.checksum) then Leave(h.flash.chip, c, h.addr) else c)
  {
    hide Wrap8, FlushIfRequired, AcceptData, Spared, Leave;
    var g := h.(data := check);
    SparedFrame(h, g, c);
    if check == CheckByte(h.checksum) {
      FlushSpared(g, c);
      SparedFrame(FlushIfRequired(g), TakeByte(h, check), Leave(h.flash.chip, c, h.addr));
    }
  }

  // ---------------------------------------------------------------------------
  // Whole records
  // ---------------------------------------------------------------------------

  /** The data field and the checksum of a data record. */
  lemma FinishSparedRecord(h: Parser, c: Cursor, r: DataRecord)
    requires Counted(h) && Spared(h, c) && h.recordType == DATA && h.dataRem == |r.data| && h.addr == r.addr
    requires h.state == (if r.data == [] then Checksum else ReadData)
    requires WholeWords(r) && (r.data == [] ==> CheckByte(h.checksum) == RightCheck(r.addr, DATA, []))
    requires Programs(h.flash.chip.bootStart, r) ==> c.page < h.flash.chip.bootStart
    ensures Spared(TakeByte(TakeBytes(h, r.data), r.check), AfterRecord(h.flash.chip, c, r))
  {
    hide TakeByte, TakeBytes, Spared, AddAll, CheckByte, RightCheck, AfterData, Leave, Chip.PageOf, Chip.Offset;
    if r.data == [] {
      TakeNone(h);
      TakeFlush(h, c, r.check);
    } else {
      TakeSparedData(h, c, r.data);
      var after := AfterData(h.flash.chip, c, h.addr, |r.data|);
      TakeSettled(TakeBytes(h, r.data), after, h.addr + |r.data|, AddAll(h.checksum, r.data), r.check);
    }
  }

  lemma EmptyCheck(addr: nat)
    requires addr < 0x10000
    ensures CheckByte(AddAll(0, Header(addr, DATA, 0))) == RightCheck(addr, DATA, [])
  {
    hide Sum, AddAll, Wrap8;
    AddAllIsSum(0, Header(addr, DATA, 0));
    assert Body(addr, DATA, []) == Header(addr, DATA, 0);
  }

  /** A record moves the cursor and spares the boot section, unless it strikes. */
  lemma RunSparedRecord(h: Parser, c: Cursor, r: DataRecord)
    requires Counted(h) && Spared(h, c) && WholeWords(r)
    requires Programs(h.flash.chip.bootStart, r) ==> c.page < h.flash.chip.bootStart
    ensures Spared(Run(h, PrintDataRecord(r)), AfterRecord(h.flash.chip, c, r))
  {
    hide Feed, TakeByte, TakeBytes, PrintEnding, Spared, AddAll, Wrap8, Header, CheckByte, RightCheck, AfterRecord;
    var header := Header(r.addr, DATA, |r.data|);
    RunEnding(h, r.addr, DATA, r.data, r.check);
    SparedPage(h, c);
    TakeHeader(h, r.addr, DATA, |r.data|);
    var begun := TakeBytes(Feed(h, ':'), header);
    SparedFrame(h, begun, c);
    EmptyCheck(r.addr);
    FinishSparedRecord(begun, c, r);
  }

  lemma {:induction false} TakeLater(h: Parser, bytes: seq<byte>)
    requires Counted(h)
    ensures Later(h.flash, TakeBytes(h, bytes).flash)
    decreases |bytes|
  {
    hide Later, Accept;
    LaterOps(h.flash, 0);
    if bytes != [] {
      AcceptLater(h.(data := bytes[0]));
      var next := TakeByte(h, bytes[0]);
      TakeLater(next, bytes[1..]);
      LaterTrans(h.flash, next.flash, TakeBytes(h, bytes).flash);
    }
  }

  lemma WordErases(h: Parser)
    requires h.recordType == DATA && !h.dirty && h.flash.chip.Aligned(h.pageStart)
    ensures Erase(h.pageStart) in AcceptWord(h).flash.log
  {
    hide Chip.Offset, Later, RawFlash.PageFill, FlushIfRequired;
    PageOfWithin(h.flash.chip, h.pageStart, h.pageStart);
    var erased := h.flash.PageErase(h.pageStart);
    assert erased.log[|h.flash.log|] == Erase(h.pageStart);
    var g := h.(flash := erased.PageFill(h.addr, h.prevData, h.data), dirty := true, addr := Wrap32(h.addr + 2));
    FlushLater(g);
    EventStays(g.flash, FlushIfRequired(g).flash, Erase(h.pageStart));
  }

  lemma EventStays(a: Flash, b: Flash, event: Event)
    requires Later(a, b) && event in a.log
    ensures event in b.log
  {
    var k :| 0 <= k < |a.log| && a.log[k] == event;
    assert b.log[k] == event;
  }

  /** With nothing being filled, the first word of a record erases the page at hand. */
  lemma TakeErasing(h: Parser, low: byte, high: byte)
    requires Counted(h) && !h.dirty && h.flash.chip.Aligned(h.pageStart)
    requires h.state == ReadData && h.recordType == DATA
    requires h.addr < h.flash.chip.bootStart && h.dataRem % 2 == 0
    ensures Erase(h.pageStart) in TakeByte(TakeByte(h, low), high).flash.log
  {
    hide Wrap8, Wrap32, AcceptChecksum, Chip.Offset, Chip.PageOf, RawFlash.PageFill, FlushIfRequired, AcceptWord;
    var sum := Wrap8(Wrap8(h.checksum + low) + high);
    var w := h.(prevData := low, data := high, checksum := sum, dataRem := h.dataRem - 2);
    WordErases(w);
    assert TakeByte(TakeByte(h, low), high).flash == AcceptWord(w).flash;
  }

  /** A record that strikes erases the boot page at hand. */
  lemma RunErasingRecord(h: Parser, c: Cursor, r: DataRecord)
    requires Counted(h) && Spared(h, c) && WholeWords(r)
    requires Programs(h.flash.chip.bootStart, r) && c.page >= h.flash.chip.bootStart
    ensures Erase(c.page) in Run(h, PrintDataRecord(r)).flash.log
  {
    hide Feed, TakeByte, TakeBytes, PrintEnding, AddAll, Wrap8, Header, Later, Chip.Offset;
    var header := Header(r.addr, DATA, |r.data|);
    RunEnding(h, r.addr, DATA, r.data, r.check);
    TakeHeader(h, r.addr, DATA, |r.data|);
    var begun := TakeBytes(Feed(h, ':'), header);
    TakeErasing(begun, r.data[0], r.data[1]);
    var word, rest := TakeByte(TakeByte(begun, r.data[0]), r.data[1]), r.data[2..];
    assert r.data == [r.data[0]] + ([r.data[1]] + rest);
    TakeCons(begun, r.data[0], [r.data[1]] + rest);
    TakeCons(TakeByte(begun, r.data[0]), r.data[1], rest);
    TakeAppend(word, rest, [r.check]);
    TakeCons(TakeBytes(word, rest), r.check, []);
    assert [r.check] + [] == [r.check];
    TakeNone(TakeByte(TakeBytes(word, rest), r.check));
    TakeLater(word, rest + [r.check]);
    EventStays(word.flash, TakeBytes(word, rest + [r.check]).flash, Erase(c.page));
  }

  // ---------------------------------------------------------------------------
  // Sequences of records
  // ---------------------------------------------------------------------------

  /** A page from `end` on has been erased. */
  ghost predicate BootErased(log: seq<Event>, end: nat) {
    exists k :: 0 <= k < |log| && log[k].Erase? && log[k].page >= end
  }

  lemma BootStaysErased(a: Flash, b: Flash, end: nat)
    requires Later(a, b) && BootErased(a.log, end)
    ensures BootErased(b.log, end)
  {
    var k :| 0 <= k < |a.log| && a.log[k].Erase? && a.log[k].page >= end;
    assert b.log[k] == a.log[k];
  }

  /** The parser follows the cursor until a record strikes; then a boot page is erased. */
  lemma {:induction false} RunRecords(h: Parser, rs: seq<DataRecord>)
    requires PowerUp(h) && AllWholeWords(rs)
    ensures var chip, r := h.flash.chip, Run(h, PrintRecords(rs));
      if AnyStrikes(chip, rs) then BootErased(r.flash.log, chip.bootStart)
      else Spared(r, CursorAfter(chip, rs))
    decreases |rs|
  {
    hide Spared, PrintDataRecord, Run, Programs, AfterRecord, AnyStrikes, Later, BootErased;
    var chip := h.flash.chip;
    if rs == [] {
      RunNothing(h);
      SparedAtFirst(h);
    } else {
      var n := |rs| - 1;
      var front, last := rs[..n], rs[n];
      StrikesSnoc(chip, rs);
      Apart(h, rs);
      RunRecords(h, front);
      var c, before := CursorAfter(chip, front), Run(h, PrintRecords(front));
      var after := Run(before, PrintDataRecord(last));
      OnlyLoggedPagesChange(before, PrintDataRecord(last));
      if AnyStrikes(chip, front) {
        BootStaysErased(before.flash, after.flash, chip.bootStart);
      } else if Programs(chip.bootStart, last) && c.page >= chip.bootStart {
        RunErasingRecord(before, c, last);
        ErasedEvent(after.flash.log, c.page, chip.bootStart);
      } else {
        RunSparedRecord(before, c, last);
      }
    }
  }

  lemma ErasedEvent(log: seq<Event>, page: nat, end: nat)
    requires Erase(page) in log && page >= end
    ensures BootErased(log, end) && !Below(log, end)
  {
  }

  lemma SparedAtFirst(h: Parser)
    requires PowerUp(h)
    ensures Spared(h, Cursor(0, false)) && !AnyStrikes(h.flash.chip, [])
  {
  }

  lemma Apart(h: Parser, rs: seq<DataRecord>)
    requires Counted(h) && rs != [] && AllWholeWords(rs)
    ensures WholeWords(rs[|rs| - 1]) && AllWholeWords(rs[..|rs| - 1])
    ensures Run(h, PrintRecords(rs)) == Run(Run(h, PrintRecords(rs[..|rs| - 1])), PrintDataRecord(rs[|rs| - 1]))
  {
    hide Run, PrintDataRecord, PrintRecords;
    PrintRecordsSnoc(rs);
    RunAppend(h, PrintRecords(rs[..|rs| - 1]), PrintDataRecord(rs[|rs| - 1]));
  }

  /** The end-of-file record may still write the page being filled. */
  lemma RunEndSpared(h: Parser, c: Cursor)
    requires Counted(h) && Spared(h, c)
    ensures Below(Run(h, PrintRecord(0, END_OF_FILE, [])).flash.log, h.flash.chip.bootStart)
  {
    hide Feed, TakeByte, TakeBytes, PrintRecord, Header, Spared, AddAll, Wrap8, CheckByte, Leave;
    var header := Header(0, END_OF_FILE, 0);
    RunRecord(h, 0, END_OF_FILE, []);
    SparedPage(h, c);
    TakeHeader(h, 0, END_OF_FILE, 0);
    var begun := TakeBytes(Feed(h, ':'), header);
    TakeNone(begun);
    SparedFrame(h, begun, c);
    TakeFlush(begun, c, CheckByte(begun.checksum));
    SparedPage(TakeByte(begun, CheckByte(begun.checksum)), Leave(h.flash.chip, c, 0));
  }

  /** With no event for a boot page, the boot section holds what it held. */
  lemma BootCellsKept(a: Flash, b: Flash)
    requires Later(a, b) && Below(b.log, a.chip.bootStart)
    ensures a.memory[a.chip.bootStart..] == b.memory[a.chip.bootStart..]
  {
    hide Chip.PageOf, Chip.Offset;
    var end := a.chip.bootStart;
    forall i | end <= i < |a.memory|
      ensures a.memory[i] == b.memory[i]
    {
      var page := a.chip.PageOf(i);
      if page < end {
        WholePages(a.chip, page);
      }
    }
  }

  /**
   * Records of whole words in any order and at any addresses, with or without data and with
   * right or wrong checksums, then the end of the file: the boot section is left alone if and only if no record carries
   * data into the application section while a boot page is at hand. The first record that
   * does so erases that page.
   */
  lemma BootSectionExact(h: Parser, rs: seq<DataRecord>, text: string)
    requires PowerUp(h) && AllWholeWords(rs)
    requires Clean(text) == Clean(PrintRecords(rs) + PrintRecord(0, END_OF_FILE, []))
    ensures var chip, r := h.flash.chip, Run(h, text);
      && (Below(r.flash.log, chip.bootStart) <==> !AnyStrikes(chip, rs))
      && (AnyStrikes(chip, rs) ==> BootErased(r.flash.log, chip.bootStart))
      && (!AnyStrikes(chip, rs) ==> r.flash.memory[chip.bootStart..] == h.flash.memory[chip.bootStart..])
  {
    hide Run, Clean, PrintRecord, PrintRecords, Spared, AnyStrikes, Later, WholeWords, CursorAfter;
    var chip, end := h.flash.chip, h.flash.chip.bootStart;
    var data, eof := PrintRecords(rs), PrintRecord(0, END_OF_FILE, []);
    SameCleanText(h, text, data + eof);
    RunAppend(h, data, eof);
    RunRecords(h, rs);
    var read := Run(h, data);
    OnlyLoggedPagesChange(read, eof);
    OnlyLoggedPagesChange(h, text);
    if AnyStrikes(chip, rs) {
      BootStaysErased(read.flash, Run(read, eof).flash, end);
    } else {
      RunEndSpared(read, CursorAfter(chip, rs));
      BootCellsKept(h.flash, Run(h, text).flash);
    }
  }

  // ---------------------------------------------------------------------------
  // Without empty records in the boot section
  // ---------------------------------------------------------------------------

  /** The record fills the application section up to its end, and may run over it. */
  predicate Reaches(end: nat, r: DataRecord) { r.addr < end <= r.addr + |r.data| }

  ghost predicate AnyReaches(end: nat, rs: seq<DataRecord>) {
    exists i :: 0 <= i < |rs| && Reaches(end, rs[i])
  }

  /** Some record carries data into the application section after another has filled it up. */
  ghost predicate Continues(end: nat, rs: seq<DataRecord>) {
    exists i, j :: 0 <= i < j < |rs| && Reaches(end, rs[i]) && Programs(end, rs[j])
  }

  lemma ContinuesSnoc(end: nat, rs: seq<DataRecord>)
    requires rs != []
    ensures var front, last := rs[..|rs| - 1], rs[|rs| - 1];
      && (AnyReaches(end, rs) <==> AnyReaches(end, front) || Reaches(end, last))
      && (Continues(end, rs) <==> Continues(end, front) || (AnyReaches(end, front) && Programs(end, last)))
  {
    hide Programs, Reaches;
    var front := rs[..|rs| - 1];
    assert forall i :: 0 <= i < |front| ==> front[i] == rs[i];
  }

  /** Data from an application address ends at the page of the last address it gets to. */
  lemma {:induction false} AfterDataPage(chip: Chip, c: Cursor, addr: nat, n: nat)
    requires chip.Valid() && addr % 2 == 0 && n % 2 == 0
    requires (c.page >= chip.bootStart <==> addr >= chip.bootStart) && (c.filling ==> c.page < chip.bootStart)
    ensures var after := AfterData(chip, c, addr, n);
      && (after.page >= chip.bootStart <==> addr + n >= chip.bootStart)
      && (after.filling ==> after.page < chip.bootStart)
      && (addr < chip.bootStart == addr + n ==> after.page == chip.bootStart)
    decreases n
  {
    hide Chip.PageOf, Chip.Offset;
    if n > 0 && addr < chip.bootStart {
      WordInPage(chip, addr);
      BoundaryPage(chip, addr + 2);
      PageOfWithin(chip, chip.bootStart, chip.bootStart);
      AfterDataPage(chip, AfterWord(chip, c, addr + 2), addr + 2, n - 2);
    }
  }

  lemma BoundaryPage(chip: Chip, a: nat)
    requires chip.Valid()
    ensures chip.PageOf(a) >= chip.bootStart <==> a >= chip.bootStart
  {
    hide Chip.PageOf, Chip.Offset;
    var page := chip.PageOf(a);
    if page < chip.bootStart {
      WholePages(chip, page);
    }
  }

  /**
   * If records without data keep to application addresses, a record strikes if and only if
   * it carries data into the application section after another one has filled it up.
   */
  lemma {:induction false} StrikesContinue(chip: Chip, rs: seq<DataRecord>)
    requires chip.Valid() && AllWholeWords(rs)
    requires forall i :: 0 <= i < |rs| && rs[i].data == [] ==> rs[i].addr < chip.bootStart
    ensures AnyStrikes(chip, rs) <==> Continues(chip.bootStart, rs)
    ensures var c := CursorAfter(chip, rs);
      !AnyStrikes(chip, rs) ==>
        && (c.page >= chip.bootStart <==> AnyReaches(chip.bootStart, rs) || chip.bootStart == 0)
        && (c.filling ==> c.page < chip.bootStart)
    decreases |rs|
  {
    hide AnyStrikes, Continues, AnyReaches, AfterRecord, Chip.PageOf, Chip.Offset;
    if rs == [] {
      NoRecords(chip);
    } else {
      var n := |rs| - 1;
      StrikesSnoc(chip, rs);
      ContinuesSnoc(chip.bootStart, rs);
      StrikesContinue(chip, rs[..n]);
      if !AnyStrikes(chip, rs) {
        AfterRecordPage(chip, CursorAfter(chip, rs[..n]), rs[n]);
      }
    }
  }

  lemma NoRecords(chip: Chip)
    requires chip.Valid()
    ensures !AnyStrikes(chip, []) && !Continues(chip.bootStart, []) && !AnyReaches(chip.bootStart, [])
  {
  }

  lemma AfterRecordPage(chip: Chip, c: Cursor, r: DataRecord)
    requires chip.Valid() && WholeWords(r) && (r.data == [] ==> r.addr < chip.bootStart)
    requires c.filling ==> c.page < chip.bootStart
    requires Programs(chip.bootStart, r) ==> c.page < chip.bootStart
    ensures var after := AfterRecord(chip, c, r);
      && (after.page >= chip.bootStart <==> c.page >= chip.bootStart || Reaches(chip.bootStart, r))
      && (after.filling ==> after.page < chip.bootStart)
      && (r.addr < chip.bootStart == r.addr + |r.data| ==> after.page == chip.bootStart)
  {
    hide Chip.PageOf, Chip.Offset, AfterData, RightCheck;
    BoundaryPage(chip, r.addr);
    if r.data != [] {
      if r.addr >= chip.bootStart {
        DroppedData(chip, c, r.addr, |r.data|);
      } else {
        AfterDataPage(chip, c, r.addr, |r.data|);
      }
    }
  }

  lemma DroppedData(chip: Chip, c: Cursor, addr: nat, n: nat)
    requires chip.Valid() && addr >= chip.bootStart && n >= 2
    ensures AfterData(chip, c, addr, n) == c.(filling := false)
  {
  }

  // ---------------------------------------------------------------------------
  // Two files that erase a boot page
  // ---------------------------------------------------------------------------

  lemma PrintedRight(addr: nat, recordType: byte, data: seq<byte>)
    requires addr < 0x10000 && |data| < 0x100
    ensures PrintRecord(addr, recordType, data)
         == PrintEnding(addr, recordType, data, RightCheck(addr, recordType, data))
  {
  }

  lemma {:induction false} FillSection(h: Parser, c: Cursor, addr: nat, chunks: seq<seq<byte>>)
    requires Counted(h) && Spared(h, c) && c.page < h.flash.chip.bootStart && Printable(chunks) && chunks != []
    requires addr % 2 == 0 && addr + |Flatten(chunks)| == h.flash.chip.bootStart <= 0x10000
    ensures Spared(Run(h, PrintData(addr, chunks)), Cursor(h.flash.chip.bootStart, false))
    decreases |chunks|
  {
    hide Spared, PrintRecord, PrintEnding, RightCheck, Run, Flatten, Printable, AfterRecord, Chip.PageOf, Chip.Offset;
    PrintableTail(chunks);
    var chip, data, rest := h.flash.chip, chunks[0], chunks[1..];
    var r := DataRecord(addr, data, RightCheck(addr, DATA, data));
    PrintedRight(addr, DATA, data);
    RunSparedRecord(h, c, r);
    var next, after := Run(h, PrintDataRecord(r)), AfterRecord(chip, c, r);
    RunAppend(h, PrintDataRecord(r), PrintData(addr + |data|, rest));
    SparedPage(h, c);
    AfterRecordPage(chip, c, r);
    if rest == [] {
      FlattenNothing();
      RunNothing(next);
      SparedPage(next, after);
    } else {
      PrintableTail(rest);
      FillSection(next, after, addr + |data|, rest);
    }
  }

  /** A word for address 0 after an image that fills the section erases the first boot page. */
  lemma RestartErasesBoot(h: Parser, chunks: seq<seq<byte>>)
    requires PowerUp(h) && Printable(chunks)
    requires 0 < |Flatten(chunks)| == h.flash.chip.bootStart <= 0x10000
    ensures Erase(h.flash.chip.bootStart) in
            Run(h, PrintData(0, chunks) + PrintRecord(0, DATA, [0x12, 0x34])).flash.log
  {
    hide Spared, PrintRecord, PrintEnding, RightCheck, Run, PrintData, Printable;
    SparedAtFirst(h);
    FillSection(h, Cursor(0, false), 0, chunks);
    var end, word := h.flash.chip.bootStart, [0x12, 0x34];
    PrintedRight(0, DATA, word);
    RunErasingRecord(Run(h, PrintData(0, chunks)), Cursor(end, false), DataRecord(0, word, RightCheck(0, DATA, word)));
    RunAppend(h, PrintData(0, chunks), PrintRecord(0, DATA, [0x12, 0x34]));
  }

  /** So does a word after a record without data for the boot section, if a page was begun. */
  lemma EmptyRecordErasesBoot(h: Parser)
    requires PowerUp(h) && 0 < h.flash.chip.bootStart < 0x10000
    ensures var end := h.flash.chip.bootStart;
      var word := PrintRecord(0, DATA, [0x12, 0x34]);
      Erase(end) in Run(h, word + PrintRecord(end, DATA, []) + word).flash.log
  {
    hide Spared, PrintRecord, PrintEnding, RightCheck, Run, AfterRecord;
    var chip, end := h.flash.chip, h.flash.chip.bootStart;
    var word := DataRecord(0, [0x12, 0x34], RightCheck(0, DATA, [0x12, 0x34]));
    var empty := DataRecord(end, [], RightCheck(end, DATA, []));
    PrintedRight(0, DATA, [0x12, 0x34]);
    PrintedRight(end, DATA, []);
    EvenBoundary(chip, end);
    SparedAtFirst(h);
    RunSparedRecord(h, Cursor(0, false), word);
    var begun := Run(h, PrintDataRecord(word));
    OneWord(chip, word, empty);
    RunSparedRecord(begun, Cursor(0, true), empty);
    var moved := Run(begun, PrintDataRecord(empty));
    RunErasingRecord(moved, Cursor(end, false), word);
    RunAppend(h, PrintDataRecord(word), PrintDataRecord(empty));
    RunAppend(h, PrintDataRecord(word) + PrintDataRecord(empty), PrintDataRecord(word));
  }

  lemma OneWord(chip: Chip, word: DataRecord, empty: DataRecord)
    requires chip.Valid() && chip.bootStart > 0 && WholeWords(word) && WholeWords(empty)
    requires word.addr == 0 && |word.data| == 2
    requires empty.addr == chip.bootStart && empty.data == [] && empty.check == RightCheck(empty.addr, DATA, [])
    ensures AfterRecord(chip, Cursor(0, false), word) == Cursor(0, true)
    ensures AfterRecord(chip, Cursor(0, true), empty) == Cursor(chip.bootStart, false)
  {
    hide Chip.PageOf, Chip.Offset, RightCheck;
    ZeroAligned(chip);
    PageOfWithin(chip, 0, 2);
    PageOfWithin(chip, chip.bootStart, chip.bootStart);
  }
}
