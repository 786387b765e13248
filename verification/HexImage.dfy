/**
 * Printing an image as Intel HEX and feeding the text to the parser: what ends up in
 * the flash, for every image and every way of cutting it into data records.
 */
module HexImage {
  import opened Bytes
  import opened FlashMemory
  import opened HexParser
  import opened HexStreams

  // ---------------------------------------------------------------------------
  // The printer
  // ---------------------------------------------------------------------------

  function HexDigit(d: nat): (c: char)
    requires d < 0x10
    ensures HexToDecimal(c) == d && c != ':'
  {
    if d < 10 then '0' + d as char else 'A' + (d - 10) as char
  }

  function HexBytes(bytes: seq<byte>): string {
    if bytes == [] then ""
    else [HexDigit(bytes[0] / 0x10), HexDigit(bytes[0] % 0x10)] + HexBytes(bytes[1..])
  }

  function Header(addr: nat, recordType: byte, count: byte): seq<byte>
    requires addr < 0x10000
  {
    [count, addr / 0x100, addr % 0x100, recordType]
  }

  /** The fields of a record that its checksum covers. */
  function Body(addr: nat, recordType: byte, data: seq<byte>): seq<byte>
    requires addr < 0x10000 && |data| < 0x100
  {
    Header(addr, recordType, |data|) + data
  }

  /** The fields followed by the byte that brings their sum to 0 mod 256. */
  function Checked(body: seq<byte>): seq<byte> {
    body + [Wrap8(0x100 - Wrap8(Sum(body)))]
  }

  function PrintLine(bytes: seq<byte>): string {
    [':'] + HexBytes(bytes)
  }

  function PrintRecord(addr: nat, recordType: byte, data: seq<byte>): string
    requires addr < 0x10000 && |data| < 0x100
  {
    PrintLine(Checked(Body(addr, recordType, data)))
  }

  /** A record that ends with any byte for its checksum, right or wrong. */
  function PrintEnding(addr: nat, recordType: byte, data: seq<byte>, check: byte): string
    requires addr < 0x10000 && |data| < 0x100
  {
    PrintLine(Body(addr, recordType, data) + [check])
  }

  /** Data fields a record can carry whole words of. */
  predicate Printable(chunks: seq<seq<byte>>) {
    forall i :: 0 <= i < |chunks| ==> 0 < |chunks[i]| < 0x100 && |chunks[i]| % 2 == 0
  }

  lemma PrintableTail(chunks: seq<seq<byte>>)
    requires Printable(chunks) && chunks != []
    ensures Printable(chunks[1..]) && Flatten(chunks) == chunks[0] + Flatten(chunks[1..])
    ensures 0 < |chunks[0]| < 0x100 && |chunks[0]| % 2 == 0
  {
  }

  /** Data records for the chunks, at consecutive addresses from `addr`. */
  function PrintData(addr: nat, chunks: seq<seq<byte>>): string
    requires Printable(chunks) && addr + |Flatten(chunks)| <= 0x10000
    decreases |chunks|
  {
    if chunks == [] then ""
    else
      PrintableTail(chunks);
      PrintRecord(addr, DATA, chunks[0]) + PrintData(addr + |chunks[0]|, chunks[1..])
  }

  /** The same with any checksum bytes. */
  function PrintDataEnding(addr: nat, chunks: seq<seq<byte>>, checks: seq<byte>): string
    requires Printable(chunks) && addr + |Flatten(chunks)| <= 0x10000 && |checks| == |chunks|
    decreases |chunks|
  {
    if chunks == [] then ""
    else
      PrintableTail(chunks);
      PrintEnding(addr, DATA, chunks[0], checks[0]) + PrintDataEnding(addr + |chunks[0]|, chunks[1..], checks[1..])
  }

  /** End-of-file records with the given bytes for their checksum, which is 0xFF. */
  function PrintEnds(checks: seq<byte>): string {
    if checks == [] then ""
    else PrintEnds(checks[..|checks| - 1]) + PrintEnding(0, END_OF_FILE, [], checks[|checks| - 1])
  }

  function PrintImage(chunks: seq<seq<byte>>): string
    requires Printable(chunks) && |Flatten(chunks)| <= 0x10000
  {
    PrintData(0, chunks) + PrintRecord(0, END_OF_FILE, [])
  }

  // ---------------------------------------------------------------------------
  // Whole bytes instead of digits
  // ---------------------------------------------------------------------------

  function TakeByte(h: Parser, b: byte): (r: Parser)
    requires Counted(h)
    ensures Counted(r) && r.flash.chip == h.flash.chip
  {
    if h.state == WaitLine then h.(checksum := 0, addr := h.base, readMSB := false)
    else Accept(h.(data := b))
  }

  function TakeBytes(h: Parser, bytes: seq<byte>): (r: Parser)
    requires Counted(h)
    ensures Counted(r) && r.flash.chip == h.flash.chip
    decreases |bytes|
  {
    if bytes == [] then h else TakeBytes(TakeByte(h, bytes[0]), bytes[1..])
  }

  lemma {:induction false} TakeAppend(h: Parser, a: seq<byte>, b: seq<byte>)
    requires Counted(h)
    ensures TakeBytes(h, a + b) == TakeBytes(TakeBytes(h, a), b)
    decreases |a|
  {
    if a == [] {
      assert a + b == b;
    } else {
      assert (a + b)[0] == a[0] && (a + b)[1..] == a[1..] + b;
      TakeAppend(TakeByte(h, a[0]), a[1..], b);
    }
  }

  lemma KeepsPairing(h: Parser, b: byte)
    requires Counted(h) && !h.readMSB
    ensures !TakeByte(h, b).readMSB
  {
    hide AcceptWord, AcceptChecksum, Wrap8, Wrap32;
    var g := h.(data := b);
    if h.state == ReadData {
      WordFrame(g.(checksum := Wrap8(g.checksum + g.data), dataRem := g.dataRem - 1));
    } else if h.state == Checksum {
      ChecksumFrame(g);
    }
  }

  lemma TwoDigits(data: byte, b: byte)
    ensures Wrap8(Wrap8(data * 0x10 + b / 0x10) * 0x10 + b % 0x10) == b
  {
    hide Wrap8;
    ShiftDigit(data, b / 0x10);
    ShiftDigit(Wrap8(data * 0x10 + b / 0x10), b % 0x10);
  }

  lemma RunByte(h: Parser, b: byte)
    requires Counted(h) && !h.readMSB
    ensures Feed(Feed(h, HexDigit(b / 0x10)), HexDigit(b % 0x10)) == TakeByte(h, b)
  {
    hide Accept, Wrap8;
    TwoDigits(h.data, b);
  }

  /** Printed bytes are read back as those bytes. */
  lemma {:induction false} RunHex(h: Parser, bytes: seq<byte>)
    requires Counted(h) && !h.readMSB
    ensures Run(h, HexBytes(bytes)) == TakeBytes(h, bytes)
    decreases |bytes|
  {
    hide Feed, TakeByte;
    if bytes != [] {
      var high, low := HexDigit(bytes[0] / 0x10), HexDigit(bytes[0] % 0x10);
      var rest := HexBytes(bytes[1..]);
      var text := [high, low] + rest;
      assert text[0] == high && text[1..] == [low] + rest;
      assert ([low] + rest)[0] == low && ([low] + rest)[1..] == rest;
      RunByte(h, bytes[0]);
      KeepsPairing(h, bytes[0]);
      RunHex(TakeByte(h, bytes[0]), bytes[1..]);
    }
  }

  // ---------------------------------------------------------------------------
  // The image being loaded
  // ---------------------------------------------------------------------------

  /** The part of the first `n` bytes that lies in the application section. */
  ghost function Reached(h: Parser, n: nat): nat { Min(n, h.flash.chip.bootStart) }

  /**
   * The first `n` bytes of the image have been read: the full pages among them are in
   * the flash that first held `memory`, and the rest is on its way through the buffer.
   */
  ghost predicate Loaded(h: Parser, memory: seq<byte>, image: seq<byte>, n: nat) {
    var chip := h.flash.chip;
    var m := Reached(h, n);
    var page := chip.PageOf(m);
    && n <= |image| && |memory| == |h.flash.memory|
    && h.base == 0 && h.running && h.pageStart == page
    && (if m == page then
          !h.dirty && h.flash.BufferBlank() && h.flash.memory == Stored(chip, memory, 0, image[..m])
        else
          h.dirty && InProgress(h.flash, Stored(chip, memory, 0, image[..page]), page, image[page..m]))
  }

  /** Only the fields named here matter to `Loaded`. */
  lemma LoadedFrame(h: Parser, g: Parser, memory: seq<byte>, image: seq<byte>, n: nat)
    requires Loaded(h, memory, image, n)
    requires g.base == h.base && g.running == h.running && g.pageStart == h.pageStart
    requires g.dirty == h.dirty && g.flash == h.flash
    ensures Loaded(g, memory, image, n)
  {
  }

  /** The word at `n` lands in the buffer of its page, erased first if it is the first one. */
  lemma FillWord(h: Parser, memory: seq<byte>, image: seq<byte>, n: nat)
    requires Loaded(h, memory, image, n)
    requires n % 2 == 0 && n < h.flash.chip.bootStart && n + 2 <= |image|
    ensures
      var chip, page := h.flash.chip, h.flash.chip.PageOf(n);
      var ready := if h.dirty then h.flash else h.flash.PageErase(h.pageStart);
      && n + 2 <= page + chip.pageSize
      && InProgress(ready.PageFill(n, image[n], image[n + 1]), Stored(chip, memory, 0, image[..page]), page,
                    image[page..n + 2])
  {
    hide Stored, InProgress, RawFlash.PageErase, RawFlash.PageFill, Chip.PageOf;
    var chip := h.flash.chip;
    var page := chip.PageOf(n);
    var before := Stored(chip, memory, 0, image[..page]);
    WordInPage(chip, n);
    if !h.dirty {
      BeginPage(h.flash, page);
      assert image[page..n] == [];
    }
    var ready := if h.dirty then h.flash else h.flash.PageErase(page);
    FillPage(ready, before, page, image[page..n], image[n], image[n + 1]);
    assert image[page..n] + [image[n], image[n + 1]] == image[page..n + 2];
    assert page + |image[page..n]| == n;
  }

  /** The page just filled to its end is written, and the next one is due. */
  lemma CompletePage(h: Parser, memory: seq<byte>, image: seq<byte>, n: nat, filled: Flash)
    requires 0 < n <= |image| && filled.chip.Aligned(n) && n <= filled.chip.bootStart
    requires n >= filled.chip.pageSize && |memory| == |filled.memory|
    requires var page := n - filled.chip.pageSize;
      InProgress(filled, Stored(filled.chip, memory, 0, image[..page]), page, image[page..n])
    requires h.base == 0 && h.running && h.pageStart == n && !h.dirty
    requires h.flash == filled.PageWrite(n - filled.chip.pageSize)
    ensures Loaded(h, memory, image, n)
  {
    hide Stored, InProgress, RawFlash.PageWrite, Chip.PageOf;
    var chip := filled.chip;
    var page := n - chip.pageSize;
    PageOfWithin(chip, n, n);
    PageBefore(chip, n);
    EndPage(filled, Stored(chip, memory, 0, image[..page]), page, image[page..n]);
    StoredAppend(chip, memory, 0, image[..page], image[page..n]);
    assert image[..page] + image[page..n] == image[..n];
    assert |h.flash.memory| == chip.size;
  }

  /** Reading the word at `n` loads two more bytes. */
  lemma LoadWord(h: Parser, memory: seq<byte>, image: seq<byte>, n: nat)
    requires Loaded(h, memory, image, n)
    requires n % 2 == 0 && n < h.flash.chip.bootStart && n + 2 <= |image| <= 0x10000
    requires h.recordType == DATA && h.addr == n && h.prevData == image[n] && h.data == image[n + 1]
    ensures Loaded(AcceptWord(h), memory, image, n + 2) && AcceptWord(h).addr == n + 2
  {
    hide Stored, InProgress, RawFlash.PageErase, RawFlash.PageFill, RawFlash.PageWrite, Chip.PageOf, Wrap32;
    var chip := h.flash.chip;
    var page := chip.PageOf(n);
    FillWord(h, memory, image, n);
    WordInPage(chip, n);
    assert Wrap32(n + 2) == n + 2 by { NoWrap(n + 2); }
    var ready := if h.dirty then h.flash else h.flash.PageErase(h.pageStart);
    var filled := ready.PageFill(n, image[n], image[n + 1]);
    if n + 2 == page + chip.pageSize {
      PageAfter(chip, page);
      PageOfWithin(chip, n + 2, n + 2);
      CompletePage(AcceptWord(h), memory, image, n + 2, filled);
    } else {
      PageOfWithin(chip, page, n + 2);
    }
  }

  /** The state in which a data record's bytes are read into the image at `n`. */
  ghost predicate Reading(h: Parser, memory: seq<byte>, image: seq<byte>, n: nat, left: nat) {
    && Loaded(h, memory, image, n)
    && h.state == ReadData && h.recordType == DATA && h.addr == n && h.dataRem == left
  }

  /** Two data bytes below the boot section are loaded; they may be the record's last. */
  lemma TakeWord(h: Parser, memory: seq<byte>, image: seq<byte>, n: nat, left: nat)
    requires Reading(h, memory, image, n, left) && Counted(h)
    requires n % 2 == 0 && left % 2 == 0 && n + left <= |image| <= 0x10000
    requires n < h.flash.chip.bootStart
    ensures var r := TakeByte(TakeByte(h, image[n]), image[n + 1]);
      && Loaded(r, memory, image, n + 2) && r.addr == n + 2 && r.recordType == DATA
      && r.dataRem == left - 2 && r.state == (if left == 2 then Checksum else ReadData)
      && r.checksum == Wrap8(Wrap8(h.checksum + image[n]) + image[n + 1])
  {
    hide AcceptWord, Loaded, Wrap8, AcceptChecksum, Chip.Offset;
    var sum := Wrap8(Wrap8(h.checksum + image[n]) + image[n + 1]);
    var w := h.(prevData := image[n], data := image[n + 1], checksum := sum, dataRem := h.dataRem - 2);
    LoadedFrame(h, w, memory, image, n);
    LoadWord(w, memory, image, n);
    WordFrame(w);
    var loaded := AcceptWord(w);
    LoadedFrame(loaded, loaded.(state := Checksum), memory, image, n + 2);
  }

  /** Once a record has run into the boot section the rest of its line is skipped. */
  lemma {:induction false} SkipBytes(h: Parser, memory: seq<byte>, image: seq<byte>, n: nat, bytes: seq<byte>)
    requires Loaded(h, memory, image, n) && h.state == WaitLine
    ensures Loaded(TakeBytes(h, bytes), memory, image, n) && TakeBytes(h, bytes).state == WaitLine
    decreases |bytes|
  {
    hide Loaded, Accept;
    if bytes != [] {
      LoadedFrame(h, TakeByte(h, bytes[0]), memory, image, n);
      SkipBytes(TakeByte(h, bytes[0]), memory, image, n, bytes[1..]);
    }
  }

  /** Past the boundary nothing of the image is loaded any more. */
  lemma LoadedPastBoundary(h: Parser, memory: seq<byte>, image: seq<byte>, n: nat, further: nat)
    requires Loaded(h, memory, image, n) && h.flash.chip.bootStart <= n <= further <= |image|
    ensures Loaded(h, memory, image, further) && !h.dirty
  {
    PageOfWithin(h.flash.chip, h.flash.chip.bootStart, h.flash.chip.bootStart);
  }

  lemma HitBoundary(h: Parser, memory: seq<byte>, image: seq<byte>, n: nat, left: nat, b: byte)
    requires Reading(h, memory, image, n, left) && Counted(h)
    requires h.flash.chip.bootStart <= n <= |image|
    ensures Loaded(TakeByte(h, b), memory, image, n) && TakeByte(h, b).state == WaitLine
  {
    hide Loaded, Wrap8, AcceptWord, AcceptChecksum;
    LoadedPastBoundary(h, memory, image, n, n);
    LoadedFrame(h, TakeByte(h, b), memory, image, n);
  }

  /** After the data field: at the checksum with everything counted, or skipping the line. */
  ghost predicate DataDone(h: Parser, memory: seq<byte>, image: seq<byte>, n: nat, checksum: byte) {
    && Loaded(h, memory, image, n)
    && (h.state == WaitLine ||
        (h.state == Checksum && h.recordType == DATA && h.addr == n && n <= h.flash.chip.bootStart &&
         h.checksum == checksum))
  }

  function AddAll(checksum: byte, bytes: seq<byte>): byte
    decreases |bytes|
  {
    if bytes == [] then checksum else AddAll(Wrap8(checksum + bytes[0]), bytes[1..])
  }

  lemma {:induction false} TakeData(h: Parser, memory: seq<byte>, image: seq<byte>, n: nat, left: nat)
    requires Reading(h, memory, image, n, left) && Counted(h)
    requires n % 2 == 0 && left % 2 == 0 && n + left <= |image| <= 0x10000
    ensures DataDone(TakeBytes(h, image[n..n + left]), memory, image, n + left, AddAll(h.checksum, image[n..n + left]))
    decreases left
  {
    hide Loaded, TakeByte, TakeBytes, AddAll, Wrap8, Chip.Offset;
    var bytes := image[n..n + left];
    if n >= h.flash.chip.bootStart {
      HitBoundary(h, memory, image, n, left, bytes[0]);
      var skipping := TakeByte(h, bytes[0]);
      assert bytes == [bytes[0]] + bytes[1..];
      TakeCons(h, bytes[0], bytes[1..]);
      SkipBytes(skipping, memory, image, n, bytes[1..]);
      LoadedPastBoundary(TakeBytes(h, bytes), memory, image, n, n + left);
    } else {
      TakeWord(h, memory, image, n, left);
      WordInPage(h.flash.chip, n);
      var r := TakeByte(TakeByte(h, image[n]), image[n + 1]);
      var rest := image[n + 2..n + left];
      assert bytes == [image[n]] + ([image[n + 1]] + rest);
      TakeCons(h, image[n], [image[n + 1]] + rest);
      TakeCons(TakeByte(h, image[n]), image[n + 1], rest);
      if left > 2 {
        TakeData(r, memory, image, n + 2, left - 2);
      } else {
        TakeNone(r);
        assert rest == [];
      }
    }
  }

  // ---------------------------------------------------------------------------
  // Whole records
  // ---------------------------------------------------------------------------

  lemma {:induction false} AddAllIsSum(checksum: byte, bytes: seq<byte>)
    ensures AddAll(checksum, bytes) == Wrap8(checksum + Sum(bytes))
    decreases |bytes|
  {
    if bytes == [] {
    } else {
      hide Wrap8;
      var last := |bytes| - 1;
      Wrap8Add(checksum + Sum(bytes[..last]), bytes[last]);
      AddAllPush(checksum, bytes[..last], bytes[last]);
      assert bytes[..last] + [bytes[last]] == bytes;
      AddAllIsSum(checksum, bytes[..last]);
    }
  }

  lemma {:induction false} AddAllPush(checksum: byte, bytes: seq<byte>, b: byte)
    ensures AddAll(checksum, bytes + [b]) == Wrap8(AddAll(checksum, bytes) + b)
    decreases |bytes|
  {
    hide Wrap8;
    if bytes == [] {
      assert AddAll(checksum, [b]) == AddAll(Wrap8(checksum + b), [b][1..]);
    } else {
      assert (bytes + [b])[0] == bytes[0] && (bytes + [b])[1..] == bytes[1..] + [b];
      AddAllPush(Wrap8(checksum + bytes[0]), bytes[1..], b);
    }
  }

  lemma {:induction false} AddAllAppend(checksum: byte, a: seq<byte>, b: seq<byte>)
    ensures AddAll(checksum, a + b) == AddAll(AddAll(checksum, a), b)
    decreases |a|
  {
    hide Wrap8;
    if a == [] {
      assert a + b == b;
    } else {
      assert (a + b)[0] == a[0] && (a + b)[1..] == a[1..] + b;
      AddAllAppend(Wrap8(checksum + a[0]), a[1..], b);
    }
  }

  lemma HeaderAddress(addr: nat)
    requires addr < 0x10000
    ensures Wrap32(Wrap32(addr / 0x100 * 0x100) + addr % 0x100) == addr
  {
  }

  /** A ':' and the four header bytes open a record whatever the parser was doing. */
  lemma TakeHeader(h: Parser, addr: nat, recordType: byte, count: byte)
    requires Counted(h) && h.base == 0 && addr < 0x10000
    ensures var header := Header(addr, recordType, count);
      var r := TakeBytes(Feed(h, ':'), header);
      && r.state == (if count != 0 then ReadData else Checksum)
      && r.recordType == recordType && r.addr == addr && r.dataRem == count && !r.readMSB
      && r.checksum == AddAll(0, header)
      && r.base == h.base && r.running == h.running && r.pageStart == h.pageStart
      && r.dirty == h.dirty && r.flash == h.flash
  {
    hide AcceptData, AcceptChecksum, Wrap8, Wrap32, AddAll;
    HeaderAddress(addr);
    var high, low := addr / 0x100, addr % 0x100;
    var h0 := Feed(h, ':');
    var h1 := TakeByte(h0, count);
    var h2 := TakeByte(h1, high);
    var h3 := TakeByte(h2, low);
    assert h3.addr == addr;
    var r := TakeByte(h3, recordType);
    TakeCons(h0, count, [high, low, recordType]);
    TakeCons(h1, high, [low, recordType]);
    TakeCons(h2, low, [recordType]);
    TakeCons(h3, recordType, []);
    assert [count] + [high, low, recordType] == [count, high, low, recordType];
    assert [high] + [low, recordType] == [high, low, recordType];
    assert [low] + [recordType] == [low, recordType];
    assert [recordType] + [] == [recordType];
    TakeNone(r);
  }

  lemma TakeCons(h: Parser, b: byte, rest: seq<byte>)
    requires Counted(h)
    ensures TakeBytes(h, [b] + rest) == TakeBytes(TakeByte(h, b), rest)
    ensures forall checksum: byte :: AddAll(checksum, [b] + rest) == AddAll(Wrap8(checksum + b), rest)
  {
    assert ([b] + rest)[0] == b && ([b] + rest)[1..] == rest;
  }

  lemma RunLine(h: Parser, bytes: seq<byte>)
    requires Counted(h)
    ensures Run(h, PrintLine(bytes)) == TakeBytes(Feed(h, ':'), bytes)
  {
    hide Feed, TakeBytes, HexBytes;
    var digits := HexBytes(bytes);
    assert ([':'] + digits)[0] == ':' && ([':'] + digits)[1..] == digits;
    FeedColon(h);
    RunHex(Feed(h, ':'), bytes);
  }

  lemma TakeParts(h: Parser, header: seq<byte>, data: seq<byte>, check: byte)
    requires Counted(h)
    ensures TakeBytes(h, header + data + [check]) == TakeByte(TakeBytes(TakeBytes(h, header), data), check)
  {
    hide TakeByte;
    TakeAppend(h, header + data, [check]);
    TakeAppend(h, header, data);
    assert [check][1..] == [];
  }

  /** The checksum byte a record is printed with, from the parser's running sum. */
  function CheckByte(sum: byte): byte { Wrap8(0x100 - sum) }

  lemma TakeChecked(h: Parser, header: seq<byte>, data: seq<byte>)
    requires Counted(h)
    ensures TakeBytes(h, Checked(header + data))
         == TakeByte(TakeBytes(TakeBytes(h, header), data), CheckByte(AddAll(AddAll(0, header), data)))
  {
    hide TakeByte, TakeBytes, AddAll, Sum, Wrap8;
    AddAllIsSum(0, header + data);
    AddAllAppend(0, header, data);
    TakeParts(h, header, data, CheckByte(AddAll(AddAll(0, header), data)));
  }

  lemma RunPrinted(h: Parser, addr: nat, recordType: byte, data: seq<byte>)
    requires Counted(h) && addr < 0x10000 && |data| < 0x100
    ensures Run(h, PrintRecord(addr, recordType, data))
         == TakeBytes(Feed(h, ':'), Checked(Body(addr, recordType, data)))
  {
    hide Run, Feed, TakeBytes, PrintLine, Checked, Body;
    RunLine(h, Checked(Body(addr, recordType, data)));
  }

  lemma RunEnding(h: Parser, addr: nat, recordType: byte, data: seq<byte>, check: byte)
    requires Counted(h) && addr < 0x10000 && |data| < 0x100
    ensures var header := Header(addr, recordType, |data|);
      Run(h, PrintEnding(addr, recordType, data, check))
      == TakeByte(TakeBytes(TakeBytes(Feed(h, ':'), header), data), check)
  {
    hide Run, Feed, TakeByte, TakeBytes, PrintLine, Header;
    RunLine(h, Body(addr, recordType, data) + [check]);
    TakeParts(Feed(h, ':'), Header(addr, recordType, |data|), data, check);
  }

  lemma RunRecord(h: Parser, addr: nat, recordType: byte, data: seq<byte>)
    requires Counted(h) && addr < 0x10000 && |data| < 0x100
    ensures var header := Header(addr, recordType, |data|);
      Run(h, PrintRecord(addr, recordType, data))
      == TakeByte(TakeBytes(TakeBytes(Feed(h, ':'), header), data), CheckByte(AddAll(AddAll(0, header), data)))
  {
    hide Feed, TakeByte, TakeBytes, Checked, CheckByte, AddAll, Run, Header, PrintRecord;
    RunPrinted(h, addr, recordType, data);
    TakeChecked(Feed(h, ':'), Header(addr, recordType, |data|), data);
  }

  lemma FeedColon(h: Parser)
    requires Counted(h)
    ensures !Feed(h, ':').readMSB
  {
  }

  /** A checksum after a data record, right or wrong, leaves the page being filled. */
  lemma TakeCheck(h: Parser, memory: seq<byte>, image: seq<byte>, n: nat, checksum: byte, check: byte)
    requires DataDone(h, memory, image, n, checksum) && Counted(h)
    ensures Loaded(TakeByte(h, check), memory, image, n)
  {
    hide InProgress, Stored, Wrap8, RawFlash.PageWrite, AcceptData;
    LoadedFrame(h, TakeByte(h, check), memory, image, n);
  }

  /** A printed data record loads its data, whatever its checksum. */
  lemma RunDataRecord(h: Parser, memory: seq<byte>, image: seq<byte>, n: nat, data: seq<byte>, check: byte)
    requires Loaded(h, memory, image, n) && Counted(h)
    requires n % 2 == 0 && n + |data| <= |image| <= 0x10000 && data == image[n..n + |data|]
    requires 0 < |data| < 0x100 && |data| % 2 == 0
    ensures Loaded(Run(h, PrintEnding(n, DATA, data, check)), memory, image, n + |data|)
  {
    hide Feed, TakeByte, TakeBytes, PrintEnding, Loaded, AddAll, Wrap8, Header;
    var header := Header(n, DATA, |data|);
    RunEnding(h, n, DATA, data, check);
    assert h.base == 0 by { LoadedBase(h, memory, image, n); }
    TakeHeader(h, n, DATA, |data|);
    var begun := TakeBytes(Feed(h, ':'), header);
    LoadedFrame(h, begun, memory, image, n);
    TakeData(begun, memory, image, n, |data|);
    TakeCheck(TakeBytes(begun, data), memory, image, n + |data|, AddAll(AddAll(0, header), data), check);
  }

  lemma LoadedBase(h: Parser, memory: seq<byte>, image: seq<byte>, n: nat)
    requires Loaded(h, memory, image, n)
    ensures h.base == 0 && h.running
  {
  }

  lemma RunNothing(h: Parser)
    requires Counted(h)
    ensures Run(h, "") == h
  {
  }

  lemma {:induction false} RunData(h: Parser, memory: seq<byte>, image: seq<byte>, n: nat, chunks: seq<seq<byte>>,
                                   checks: seq<byte>)
    requires Loaded(h, memory, image, n) && Counted(h) && n % 2 == 0 && n <= |image|
    requires Printable(chunks) && |image| <= 0x10000 && image[n..] == Flatten(chunks) && |checks| == |chunks|
    ensures Loaded(Run(h, PrintDataEnding(n, chunks, checks)), memory, image, |image|)
    decreases |chunks|
  {
    hide Loaded, PrintEnding, Run, Flatten, Printable;
    if chunks == [] {
      RunNothing(h);
      assert image[n..] == [] by { FlattenNothing(); }
    } else {
      PrintableTail(chunks);
      var data, rest := chunks[0], chunks[1..];
      assert |image| == n + |data| + |Flatten(rest)|;
      assert image[n..n + |data|] == image[n..][..|data|] == data;
      assert image[n + |data|..] == image[n..][|data|..] == Flatten(rest);
      var record := PrintEnding(n, DATA, data, checks[0]);
      RunDataRecord(h, memory, image, n, data, checks[0]);
      RunAppend(h, record, PrintDataEnding(n + |data|, rest, checks[1..]));
      RunData(Run(h, record), memory, image, n + |data|, rest, checks[1..]);
    }
  }

  /** The byte that brings the sum of the record to 0 mod 256. */
  function RightCheck(addr: nat, recordType: byte, data: seq<byte>): byte
    requires addr < 0x10000 && |data| < 0x100
  {
    CheckByte(Wrap8(Sum(Body(addr, recordType, data))))
  }

  /** The checksums the records are printed with. */
  function RightChecks(addr: nat, chunks: seq<seq<byte>>): (checks: seq<byte>)
    requires Printable(chunks) && addr + |Flatten(chunks)| <= 0x10000
    ensures |checks| == |chunks|
    decreases |chunks|
  {
    if chunks == [] then []
    else
      PrintableTail(chunks);
      [RightCheck(addr, DATA, chunks[0])] + RightChecks(addr + |chunks[0]|, chunks[1..])
  }

  lemma {:induction false} PrintDataRight(addr: nat, chunks: seq<seq<byte>>)
    requires Printable(chunks) && addr + |Flatten(chunks)| <= 0x10000
    ensures PrintData(addr, chunks) == PrintDataEnding(addr, chunks, RightChecks(addr, chunks))
    decreases |chunks|
  {
    hide PrintLine, Body, Sum, Wrap8, Flatten, Printable;
    if chunks != [] {
      PrintableTail(chunks);
      var checks := RightChecks(addr, chunks);
      assert checks[1..] == RightChecks(addr + |chunks[0]|, chunks[1..]);
      PrintDataRight(addr + |chunks[0]|, chunks[1..]);
    }
  }

  // ---------------------------------------------------------------------------
  // The end of the file, and the whole session
  // ---------------------------------------------------------------------------

  /**
   * What a session leaves of the `m` bytes that lie in the application section: all of
   * them, except that a single page that was never left is erased and not written.
   */
  ghost function Kept(chip: Chip, image: seq<byte>): (kept: seq<byte>) {
    var m := Min(|image|, chip.bootStart);
    if m < chip.pageSize then Blank(m) else image[..m]
  }

  /** The flush at the end-of-file record, whose own address is 0. */
  lemma FinalFlush(h: Parser, memory: seq<byte>, image: seq<byte>)
    requires Loaded(h, memory, image, |image|) && h.addr == 0
    ensures FlushIfRequired(h).flash.memory == Stored(h.flash.chip, memory, 0, Kept(h.flash.chip, image))
    ensures FlushIfRequired(h).recordType == h.recordType
  {
    hide RawFlash.PageWrite, Chip.PageOf, Chip.Offset, Stored, InProgress;
    var chip := h.flash.chip;
    var m := Min(|image|, chip.bootStart);
    var page := chip.PageOf(m);
    ZeroAligned(chip);
    if m == page {
      if m == 0 {
        assert image[..0] == Blank(0);
      } else {
        FirstPage(chip, m);
      }
    } else if page == 0 {
      UnwrittenPage(h, memory, image, m);
    } else {
      FirstPage(chip, page);
      var before := Stored(chip, memory, 0, image[..page]);
      EndPage(h.flash, before, page, image[page..m]);
      StoredAppend(chip, memory, 0, image[..page], image[page..m]);
      assert image[..page] + image[page..m] == image[..m];
    }
  }

  lemma UnwrittenPage(h: Parser, memory: seq<byte>, image: seq<byte>, m: nat)
    requires 0 < m < h.flash.chip.pageSize && m <= |image|
    requires InProgress(h.flash, Stored(h.flash.chip, memory, 0, image[..0]), 0, image[..m])
    ensures h.flash.memory == Stored(h.flash.chip, memory, 0, Blank(m))
  {
    var chip := h.flash.chip;
    PageOfWithin(chip, chip.pageSize, m + chip.pageSize - 1);
    PageOfWithin(chip, 0, chip.pageSize - 1);
    assert chip.RoundUp(0 + |Blank(m)|) == chip.pageSize;
    assert image[..0] == [];
    StoredNothing(chip, memory, 0);
  }

  lemma RunEndOfFile(h: Parser, memory: seq<byte>, image: seq<byte>)
    requires Loaded(h, memory, image, |image|) && Counted(h)
    ensures var r := Run(h, PrintRecord(0, END_OF_FILE, []));
      !r.running && r.flash.memory == Stored(h.flash.chip, memory, 0, Kept(h.flash.chip, image))
  {
    hide Feed, TakeBytes, PrintRecord, Header, Loaded, AddAll, Wrap8, FlushIfRequired, AcceptData, Stored, Kept;
    var header := Header(0, END_OF_FILE, 0);
    RunRecord(h, 0, END_OF_FILE, []);
    assert h.base == 0 by { LoadedBase(h, memory, image, |image|); }
    TakeHeader(h, 0, END_OF_FILE, 0);
    var begun := TakeBytes(Feed(h, ':'), header);
    assert TakeBytes(begun, []) == begun by { TakeNone(begun); }
    assert AddAll(AddAll(0, header), []) == begun.checksum by { TakeNone(begun); }
    var checked := begun.(data := CheckByte(begun.checksum));
    LoadedFrame(h, checked, memory, image, |image|);
    FinalFlush(checked, memory, image);
  }

  lemma TakeNone(h: Parser)
    requires Counted(h)
    ensures TakeBytes(h, []) == h && AddAll(h.checksum, []) == h.checksum
  {
  }

  /** The first session after power-up starts with nothing loaded. */
  lemma NothingLoaded(h: Parser, image: seq<byte>)
    requires PowerUp(h)
    ensures Loaded(h, h.flash.memory, image, 0)
  {
    PageOfWithin(h.flash.chip, 0, 0);
    assert image[..0] == [];
    StoredNothing(h.flash.chip, h.flash.memory, 0);
  }

  /** A wrong checksum makes an end-of-file record do nothing at all. */
  lemma RunWrongEnd(h: Parser, memory: seq<byte>, image: seq<byte>, check: byte)
    requires Loaded(h, memory, image, |image|) && Counted(h) && check != 0xFF
    ensures var r := Run(h, PrintEnding(0, END_OF_FILE, [], check));
      Loaded(r, memory, image, |image|) && r.flash == h.flash && r.running
  {
    hide Feed, TakeBytes, PrintEnding, Loaded, AddAll, Wrap8, FlushIfRequired, AcceptData;
    var header := Header(0, END_OF_FILE, 0);
    RunEnding(h, 0, END_OF_FILE, [], check);
    assert h.base == 0 && h.running by { LoadedBase(h, memory, image, |image|); }
    TakeHeader(h, 0, END_OF_FILE, 0);
    var begun := TakeBytes(Feed(h, ':'), header);
    TakeNone(begun);
    EndSum();
    LoadedFrame(h, begun.(data := check), memory, image, |image|);
  }

  lemma EndSum()
    ensures AddAll(0, Header(0, END_OF_FILE, 0)) == 1 && Wrap8(0x100 - 1) == 0xFF
  {
    assert AddAll(1, []) == 1;
    assert AddAll(0, [1]) == 1 && AddAll(0, [0, 1]) == 1 && AddAll(0, [0, 0, 1]) == 1;
  }

  lemma {:induction false} RunWrongEnds(h: Parser, memory: seq<byte>, image: seq<byte>, checks: seq<byte>)
    requires Loaded(h, memory, image, |image|) && Counted(h) && 0xFF !in checks
    ensures var r := Run(h, PrintEnds(checks));
      Loaded(r, memory, image, |image|) && r.flash == h.flash && r.running
    decreases |checks|
  {
    hide Loaded, Run, PrintEnding;
    if checks == [] {
      RunNothing(h);
      LoadedBase(h, memory, image, |image|);
    } else {
      var n := |checks| - 1;
      RunWrongEnds(h, memory, image, checks[..n]);
      RunWrongEnd(Run(h, PrintEnds(checks[..n])), memory, image, checks[n]);
      RunAppend(h, PrintEnds(checks[..n]), PrintEnding(0, END_OF_FILE, [], checks[n]));
    }
  }

  /**
   * Checksums do not guard the data: the records may end with any checksum bytes, right or
   * wrong. End-of-file records with a wrong checksum change no cell and append no event,
   * and the session goes on. The first one with the right checksum ends it and leaves
   * exactly `Kept` of the image at address 0, every other page of the flash untouched.
   */
  lemma LoadAnyChecksums(h: Parser, chunks: seq<seq<byte>>, checks: seq<byte>, ends: seq<byte>, text: string)
    requires PowerUp(h)
    requires Printable(chunks) && |Flatten(chunks)| <= 0x10000 && |checks| == |chunks| && 0xFF !in ends
    requires Clean(text)
          == Clean(PrintDataEnding(0, chunks, checks) + PrintEnds(ends) + PrintRecord(0, END_OF_FILE, []))
    ensures !Run(h, text).running
    ensures Run(h, text).flash.memory == Stored(h.flash.chip, h.flash.memory, 0, Kept(h.flash.chip, Flatten(chunks)))
    ensures var data := PrintDataEnding(0, chunks, checks);
      Run(h, data + PrintEnds(ends)).running && Run(h, data + PrintEnds(ends)).flash == Run(h, data).flash
  {
    hide Loaded, Run, PrintRecord, Clean, Kept, Stored;
    var image := Flatten(chunks);
    var memory := h.flash.memory;
    NothingLoaded(h, image);
    assert image[0..] == image;
    RunData(h, memory, image, 0, chunks, checks);
    var data, end := PrintDataEnding(0, chunks, checks), PrintRecord(0, END_OF_FILE, []);
    RunWrongEnds(Run(h, data), memory, image, ends);
    RunAppend(h, data, PrintEnds(ends));
    RunEndOfFile(Run(h, data + PrintEnds(ends)), memory, image);
    RunAppend(h, data + PrintEnds(ends), end);
    SameCleanText(h, text, data + PrintEnds(ends) + end);
  }

  /**
   * Any text whose significant characters are the image printed as data records and an
   * end-of-file record stops the bootloader and leaves exactly `Kept` of the image at
   * address 0, every other page of the flash untouched. Data beyond the application
   * section is dropped.
   */
  lemma LoadImage(h: Parser, chunks: seq<seq<byte>>, text: string)
    requires PowerUp(h)
    requires Printable(chunks) && |Flatten(chunks)| <= 0x10000
    requires Clean(text) == Clean(PrintImage(chunks))
    ensures !Run(h, text).running
    ensures Run(h, text).flash.memory == Stored(h.flash.chip, h.flash.memory, 0, Kept(h.flash.chip, Flatten(chunks)))
  {
    hide Run, PrintRecord, Clean, Kept, Stored, PrintData, PrintDataEnding, Flatten, Printable;
    var data := PrintDataEnding(0, chunks, RightChecks(0, chunks));
    PrintDataRight(0, chunks);
    assert data + PrintEnds([]) == data;
    LoadAnyChecksums(h, chunks, RightChecks(0, chunks), [], text);
  }

  /** An image that runs past the application section fills it and stops at its end. */
  lemma OverrunStops(h: Parser, chunks: seq<seq<byte>>, text: string)
    requires PowerUp(h) && Printable(chunks) && |Flatten(chunks)| <= 0x10000
    requires Clean(text) == Clean(PrintImage(chunks))
    requires 0 < h.flash.chip.bootStart <= |Flatten(chunks)|
    ensures var end, r := h.flash.chip.bootStart, Run(h, text);
      && r.flash.memory[..end] == Flatten(chunks)[..end]
      && r.flash.memory[end..] == h.flash.memory[end..]
      && !r.running
  {
    hide Run, Clean, PrintImage, Printable, Flatten;
    LoadImage(h, chunks, text);
    var chip, image := h.flash.chip, Flatten(chunks);
    WholePages(chip, 0);
    assert chip.RoundUp(chip.bootStart) == chip.bootStart by {
      PageOfWithin(chip, chip.bootStart, chip.bootStart + chip.pageSize - 1);
    }
    StoredPrefix(chip, h.flash.memory, image[..chip.bootStart]);
  }

  /** The image ends up in the flash exactly if it fills a page or is all 0xFF anyway. */
  lemma LoadImageExact(h: Parser, chunks: seq<seq<byte>>, text: string)
    requires PowerUp(h)
    requires Printable(chunks) && |Flatten(chunks)| <= 0x10000
    requires Clean(text) == Clean(PrintImage(chunks))
    ensures var chip, image := h.flash.chip, Flatten(chunks);
      var m := Min(|image|, chip.bootStart);
      (Run(h, text).flash.memory == Stored(chip, h.flash.memory, 0, image[..m]))
      <==> (m >= chip.pageSize || image[..m] == Blank(m))
  {
    hide Run, Clean, PrintImage;
    LoadImage(h, chunks, text);
    var chip, image := h.flash.chip, Flatten(chunks);
    var m := Min(|image|, chip.bootStart);
    if m < chip.pageSize {
      StoredPrefix(chip, h.flash.memory, Blank(m));
      StoredPrefix(chip, h.flash.memory, image[..m]);
    }
  }

  lemma StoredPrefix(chip: Chip, memory: seq<byte>, data: seq<byte>)
    requires chip.Valid() && |data| <= |memory|
    ensures Stored(chip, memory, 0, data)[..|data|] == data
  {
  }

  /** Two bytes alone are lost: their page is erased and never written. */
  lemma ShortImageLost(h: Parser)
    requires PowerUp(h) && h.flash.chip.bootStart > 0
    ensures Run(h, PrintImage([[0x12, 0x34]])).flash.memory[0] == ERASED
    ensures !Run(h, PrintImage([[0x12, 0x34]])).running
  {
    hide Run, Clean, PrintImage;
    var chunks: seq<seq<byte>> := [[0x12, 0x34]];
    FlattenOne(chunks[0]);
    LoadImage(h, chunks, PrintImage(chunks));
    WholePages(h.flash.chip, 0);
  }
}
