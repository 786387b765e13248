/** The HID class bootloader: every report carries one page and the address it goes to. */
module Hid {
  import opened Bytes
  import opened FlashMemory
  import opened Endpoints

  const START_APPLICATION: word := 0xFFFF

  datatype Device = Device(running: bool, flash: Flash)

  /** Chips with more than 64KB of flash send the address in units of 256 bytes. */
  function PageAddress(chip: Chip, address: word): nat {
    if chip.size > 0x10000 then address * 0x100 else address
  }

  /** A report as it is sent: the address, low byte first, and a page. */
  datatype Report = Report(low: byte, high: byte, payload: seq<byte>)

  function Handle(d: Device, r: Report): Device {
    var address := Word(r.high, r.low);
    var page := PageAddress(d.flash.chip, address);
    if address == START_APPLICATION then d.(running := false)
    else if page < d.flash.chip.bootStart then
      d.(flash := FillWords(d.flash.PageErase(page), page, r.payload).PageWrite(page).RwwEnable())
    else d
  }

  function HandleAll(d: Device, rs: seq<Report>): Device
    decreases |rs|
  {
    if rs == [] then d else Handle(HandleAll(d, rs[..|rs| - 1]), rs[|rs| - 1])
  }

  // ---------------------------------------------------------------------------
  // Last writer wins
  // ---------------------------------------------------------------------------

  /** The two address bytes FF FF start the application. */
  predicate Starts(r: Report) { r.low == 0xFF && r.high == 0xFF }

  /** The address the two bytes stand for; chips with more than 64KB count in 256 bytes. */
  function Target(chip: Chip, r: Report): nat {
    (if chip.size <= 0x10000 then 1 else 256) * (r.low as int + 256 * (r.high as int))
  }

  /** The report programs the page at `page`. */
  predicate Addresses(chip: Chip, r: Report, page: nat) {
    !Starts(r) && Target(chip, r) == page && page < chip.bootStart
  }

  lemma TargetIsPage(chip: Chip, r: Report)
    ensures PageAddress(chip, Word(r.high, r.low)) == Target(chip, r)
    ensures Word(r.high, r.low) == START_APPLICATION <==> Starts(r)
  {
  }

  /** A whole page for a page boundary. */
  predicate WellFormed(chip: Chip, r: Report)
    requires chip.Valid()
  {
    chip.Aligned(Target(chip, r)) && |r.payload| == chip.pageSize
  }

  /** What the last of the reports addressed to the page of cell `i` puts there. */
  ghost function LastWritten(chip: Chip, rs: seq<Report>, memory: seq<byte>, i: nat): byte
    requires chip.Valid() && i < |memory|
    requires forall j :: 0 <= j < |rs| ==> WellFormed(chip, rs[j])
    decreases |rs|
  {
    if rs == [] then memory[i]
    else
      var last := rs[|rs| - 1];
      assert WellFormed(chip, last);
      if Addresses(chip, last, chip.PageOf(i)) then last.payload[i - chip.PageOf(i)]
      else LastWritten(chip, rs[..|rs| - 1], memory, i)
  }

  lemma HandleStores(d: Device, r: Report)
    requires WellFormed(d.flash.chip, r)
    ensures var chip, page := d.flash.chip, Target(d.flash.chip, r);
      && Handle(d, r).flash.chip == chip
      && Handle(d, r).flash.memory ==
         if Addresses(chip, r, page) then Stored(chip, d.flash.memory, page, r.payload) else d.flash.memory
  {
    hide FillWords, Stored, RawFlash.PageErase, RawFlash.PageWrite, Target, PageAddress, Word;
    var page := Target(d.flash.chip, r);
    TargetIsPage(d.flash.chip, r);
    ProgramPage(d.flash, page, r.payload);
  }

  /** The reports carry the pages of an image in order, from address 0. */
  ghost predicate ReportsFor(chip: Chip, rs: seq<Report>, pages: seq<seq<byte>>) {
    && |rs| == |pages|
    && forall i :: 0 <= i < |rs| ==>
         && rs[i].payload == pages[i] && |pages[i]| == chip.pageSize && !Starts(rs[i])
         && Target(chip, rs[i]) == |Flatten(pages[..i])|
  }

  lemma ReportsForFront(chip: Chip, rs: seq<Report>, pages: seq<seq<byte>>)
    requires ReportsFor(chip, rs, pages) && rs != []
    ensures ReportsFor(chip, rs[..|rs| - 1], pages[..|rs| - 1])
  {
    hide Flatten, Target;
    var n := |rs| - 1;
    forall i | 0 <= i < n
      ensures pages[..n][..i] == pages[..i]
    {
    }
  }

  lemma LastReport(d: Device, rs: seq<Report>)
    requires rs != []
    ensures HandleAll(d, rs) == Handle(HandleAll(d, rs[..|rs| - 1]), rs[|rs| - 1])
  {
  }

  /** Reporting the pages of an image one by one stores the image. */
  lemma {:induction false} ReportImage(d: Device, rs: seq<Report>, pages: seq<seq<byte>>)
    requires ReportsFor(d.flash.chip, rs, pages) && |Flatten(pages)| <= d.flash.chip.bootStart
    ensures HandleAll(d, rs).flash.chip == d.flash.chip && d.flash.chip.Aligned(|Flatten(pages)|)
    ensures HandleAll(d, rs).flash.memory == Stored(d.flash.chip, d.flash.memory, 0, Flatten(pages))
    decreases |rs|
  {
    hide Handle, Stored;
    var chip := d.flash.chip;
    if rs == [] {
      StoredNothing(chip, d.flash.memory, 0);
    } else {
      hide Flatten, HandleAll;
      var n := |rs| - 1;
      var front, last := pages[..n], pages[n];
      assert pages == front + [last];
      FlattenAppend(front, [last]);
      FlattenOne(last);
      ReportsForFront(chip, rs, pages);
      ReportImage(d, rs[..n], front);
      LastReport(d, rs);
      PageAfter(chip, |Flatten(front)|);
      HandleStores(HandleAll(d, rs[..n]), rs[n]);
      StoredAppend(chip, d.flash.memory, 0, Flatten(front), last);
    }
  }

  /** Storing a whole page changes the cells of that page and no others. */
  lemma StoredCell(chip: Chip, memory: seq<byte>, page: nat, payload: seq<byte>, i: nat)
    requires chip.Valid() && chip.Aligned(page) && |payload| == chip.pageSize && i < |memory|
    ensures Stored(chip, memory, page, payload)[i] == if chip.PageOf(i) == page then payload[i - page] else memory[i]
  {
    hide Chip.PageOf;
    RoundUpInPage(chip, page, chip.pageSize);
    if page <= i < page + chip.pageSize {
      PageOfWithin(chip, page, i);
    }
  }

  /**
   * After any sequence of page reports each application page holds the payload of the
   * last report addressed to it, or what it held before if there was none.
   */
  lemma {:induction false} LastWriterWins(d: Device, rs: seq<Report>, i: nat)
    requires i < |d.flash.memory|
    requires forall j :: 0 <= j < |rs| ==> WellFormed(d.flash.chip, rs[j])
    ensures HandleAll(d, rs).flash.chip == d.flash.chip
    ensures HandleAll(d, rs).flash.memory[i] == LastWritten(d.flash.chip, rs, d.flash.memory, i)
    decreases |rs|
  {
    if rs != [] {
      hide Handle, Stored, Target, Chip.PageOf;
      var chip, front, last := d.flash.chip, rs[..|rs| - 1], rs[|rs| - 1];
      LastWriterWins(d, front, i);
      var before := HandleAll(d, front);
      HandleStores(before, last);
      var page := Target(chip, last);
      StoredCell(chip, before.flash.memory, page, last.payload, i);
    }
  }

  /** Whatever a report carries, and wherever it is for, the boot section is as before. */
  lemma HandleSparesBoot(d: Device, r: Report, i: nat)
    requires d.flash.chip.bootStart <= i < |d.flash.memory|
    ensures Handle(d, r).flash.chip == d.flash.chip && Handle(d, r).flash.memory[i] == d.flash.memory[i]
  {
    hide FillWords, Program, Chip.PageOf, Chip.Offset;
    var page := PageAddress(d.flash.chip, Word(r.high, r.low));
    if page < d.flash.chip.bootStart {
      WholePages(d.flash.chip, d.flash.chip.PageOf(page));
    }
  }

  /** No sequence of reports reaches the boot section. */
  lemma {:induction false} BootSectionUntouched(d: Device, rs: seq<Report>, i: nat)
    requires d.flash.chip.bootStart <= i < |d.flash.memory|
    ensures HandleAll(d, rs).flash.chip == d.flash.chip
    ensures HandleAll(d, rs).flash.memory[i] == d.flash.memory[i]
    decreases |rs|
  {
    if rs != [] {
      hide Handle;
      BootSectionUntouched(d, rs[..|rs| - 1], i);
      HandleSparesBoot(HandleAll(d, rs[..|rs| - 1]), rs[|rs| - 1], i);
    }
  }

  /** Over every sequence of reports the session has ended if and only if one was FF FF. */
  lemma {:induction false} SessionEnds(d: Device, rs: seq<Report>)
    ensures !HandleAll(d, rs).running <==>
            !d.running || exists i :: 0 <= i < |rs| && rs[i].low == 0xFF && rs[i].high == 0xFF
    decreases |rs|
  {
    if rs != [] {
      hide FillWords, RawFlash.PageErase, RawFlash.PageWrite, RawFlash.RwwEnable;
      var n := |rs| - 1;
      SessionEnds(d, rs[..n]);
      TargetIsPage(d.flash.chip, rs[n]);
      assert forall i :: 0 <= i < n ==> rs[..n][i] == rs[i];
    }
  }

  // ---------------------------------------------------------------------------
  // The bootloader in place
  // ---------------------------------------------------------------------------

  class Bootloader {
    var running: bool
    var out: OutEndpoint
    const flash: FlashDevice

    ghost predicate Valid()
      reads this, flash
    {
      flash.Valid()
    }

    ghost function Value(): (d: Device)
      reads this, flash
      requires Valid()
    {
      Device(running, flash.Value())
    }

    constructor (device: FlashDevice)
      requires device.Valid()
      ensures Valid() && flash == device && Value() == Device(true, device.Value())
    {
      running, out, flash := true, OutEndpoint([], []), device;
    }

    method ReadWordLE(ghost pending: seq<byte>) returns (low: byte, high: byte)
      requires out.Even() && |pending| >= 2 && out.Pending() == pending
      modifies this`out
      ensures out.Even() && out.Pending() == pending[2..] && low == pending[0] && high == pending[1]
    {
      ReadWord(out);
      if out.bank == [] {
        out := out.Next();
      }
      low := out.Peek();
      out := out.Drop();
      high := out.Peek();
      out := out.Drop();
    }

    /**
     * A set-report request, in packets of whole words; the host supplies the address and
     * a page of data.
     */
    method SetReport(packets: seq<seq<byte>>)
      requires Valid() && packets != []
      requires OutEndpoint(packets[0], packets[1..]).Even() && |packets[0]| > 0
      requires |Flatten(packets)| >= 2 + flash.chip.pageSize
      modifies this, flash
      ensures Valid()
      ensures var sent := Flatten(packets);
        Value() == Handle(old(Value()), Report(sent[0], sent[1], sent[2..2 + flash.chip.pageSize]))
    {
      hide FillWords, RawFlash.PageErase, RawFlash.PageWrite, RawFlash.PageFill, OutEndpoint.Even,
           OutEndpoint.Pending, Flatten;
      ghost var sent := Flatten(packets);
      out := OutEndpoint(packets[0], packets[1..]);
      assert out.Pending() == sent by { FirstBank(packets); }
      var low, high := ReadWordLE(sent);
      var address := Word(high, low);
      var page := PageAddress(flash.chip, address);
      if address == START_APPLICATION {
        running := false;
      } else if page < flash.chip.bootStart {
        flash.PageErase(page);
        assert sent[2..][..flash.chip.pageSize] == sent[2..2 + flash.chip.pageSize];
        WritePage(page, sent[2..]);
        flash.PageWrite(page);
        flash.RwwEnable();
      }
    }

    method WritePage(page: nat, ghost pending: seq<byte>)
      requires Valid() && out.Even() && out.Pending() == pending && |pending| >= flash.chip.pageSize
      modifies this`out, flash
      ensures Valid() && flash.Value() == FillWords(old(flash.Value()), page, pending[..flash.chip.pageSize])
    {
      hide RawFlash.PageFill, OutEndpoint.Even, OutEndpoint.Pending;
      ghost var bytes := pending[..flash.chip.pageSize];
      var n := 0;
      assert pending[0..] == pending && bytes[0..] == bytes;
      while n < flash.chip.pageSize / 2
        invariant 0 <= n <= flash.chip.pageSize / 2 && Valid() && out.Even() && out.Pending() == pending[2 * n..]
        invariant FillWords(flash.Value(), page + 2 * n, bytes[2 * n..]) == FillWords(old(flash.Value()), page, bytes)
      {
        var low, high := ReadWordLE(pending[2 * n..]);
        assert pending[2 * n..][2..] == pending[2 * (n + 1)..];
        assert bytes[2 * n..][2..] == bytes[2 * (n + 1)..];
        flash.PageFill(page + 2 * n, low, high);
        n := n + 1;
      }
    }
  }

  lemma FirstBank(packets: seq<seq<byte>>)
    requires packets != []
    ensures OutEndpoint(packets[0], packets[1..]).Pending() == Flatten(packets)
  {
  }
}
