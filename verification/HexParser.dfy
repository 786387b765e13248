/**
 * The Printer class bootloader: an Intel HEX parser fed one character at a time, with
 * a flash page that is erased on the first word written to it and programmed when an
 * address outside it turns up.
 */
module HexParser {
  import opened Bytes
  import opened FlashMemory

  datatype ParserState =
    | WaitLine | ByteCount | AddressHigh | AddressLow | RecordType | ReadData | Checksum

  const DATA: byte := 0
  const END_OF_FILE: byte := 1
  const EXTENDED_SEGMENT_ADDRESS: byte := 2
  const EXTENDED_LINEAR_ADDRESS: byte := 4

  /** The HEXParser structure with the PageDirty and RunBootloader flags and the flash. */
  datatype Parser = Parser(
    state: ParserState, prevData: byte, data: byte, readMSB: bool, recordType: byte,
    dataRem: byte, checksum: byte, pageStart: nat, base: nat, addr: nat,
    dirty: bool, running: bool, flash: Flash)

  /** A digit's value, or -1; only upper-case digits are recognised. */
  function HexToDecimal(c: char): (d: int)
    ensures -1 <= d < 16
  {
    if 'A' <= c <= 'F' then 10 + (c as int - 'A' as int)
    else if '0' <= c <= '9' then c as int - '0' as int
    else -1
  }

  function FlushIfRequired(h: Parser): (r: Parser)
    ensures r.flash.chip == h.flash.chip
  {
    var page := h.flash.chip.PageOf(h.addr);
    if !h.dirty || h.pageStart == page then h
    else h.(flash := h.flash.PageWrite(h.pageStart), pageStart := page, dirty := false)
  }

  /** The word made of the previous and the current data byte has been read. */
  function AcceptWord(h: Parser): (r: Parser)
    ensures r.flash.chip == h.flash.chip
  {
    if h.recordType == DATA then
      var erased := if h.dirty then h.flash else h.flash.PageErase(h.pageStart);
      FlushIfRequired(h.(flash := erased.PageFill(h.addr, h.prevData, h.data),
                         dirty := true, addr := Wrap32(h.addr + 2)))
    else if h.recordType == EXTENDED_SEGMENT_ADDRESS then
      h.(base := (h.data * 0x100 + h.prevData) * 0x10)
    else if h.recordType == EXTENDED_LINEAR_ADDRESS then
      h.(base := (h.data * 0x100 + h.prevData) * 0x10000)
    else h
  }

  function AcceptData(h: Parser): (r: Parser)
    requires h.dataRem > 0
    ensures r.flash.chip == h.flash.chip
  {
    var g := h.(dataRem := h.dataRem - 1);
    if g.addr >= g.flash.chip.bootStart then g.(state := WaitLine, dirty := false)
    else if g.dataRem % 2 == 1 then g.(prevData := g.data)
    else
      var w := AcceptWord(g);
      if w.dataRem == 0 then w.(state := Checksum) else w
  }

  function AcceptChecksum(h: Parser): (r: Parser)
    ensures r.flash.chip == h.flash.chip
  {
    if h.data != Wrap8(0x100 - h.checksum) then h
    else
      var f := FlushIfRequired(h);
      if f.recordType == END_OF_FILE then f.(running := false) else f
  }

  /** READ_DATA is only ever entered and kept with data left to read. */
  predicate Counted(h: Parser) {
    h.state == ReadData ==> h.dataRem > 0
  }

  /** One decoded byte, in `h.data`, is processed. */
  function Accept(h: Parser): (r: Parser)
    requires Counted(h)
    ensures Counted(r) && r.flash.chip == h.flash.chip
  {
    var g := if h.state == Checksum then h else h.(checksum := Wrap8(h.checksum + h.data));
    match g.state
    case WaitLine => g
    case ByteCount => g.(dataRem := g.data, state := AddressHigh)
    case AddressHigh => g.(addr := Wrap32(g.addr + g.data * 0x100), state := AddressLow)
    case AddressLow => g.(addr := Wrap32(g.addr + g.data), state := RecordType)
    case RecordType => g.(recordType := g.data, state := if g.dataRem != 0 then ReadData else Checksum)
    case ReadData => AcceptData(g)
    case Checksum => AcceptChecksum(g)
  }

  function Feed(h: Parser, c: char): (r: Parser)
    requires Counted(h)
    ensures Counted(r) && r.flash.chip == h.flash.chip
  {
    if h.state == WaitLine || c == ':' then
      h.(checksum := 0, addr := h.base, readMSB := false, state := if c == ':' then ByteCount else h.state)
    else
      var digit := HexToDecimal(c);
      if digit < 0 then h
      else
        var g := h.(data := Wrap8(h.data * 0x10 + digit), readMSB := !h.readMSB);
        if g.readMSB then g else Accept(g)
  }

  /** A whole text, one character after the other. */
  function Run(h: Parser, text: string): (r: Parser)
    requires Counted(h)
    ensures Counted(r) && r.flash.chip == h.flash.chip
    decreases |text|
  {
    if text == "" then h else Run(Feed(h, text[0]), text[1..])
  }

  lemma {:induction false} RunAppend(h: Parser, a: string, b: string)
    requires Counted(h)
    ensures Run(h, a + b) == Run(Run(h, a), b)
    decreases |a|
  {
    if a == "" {
      assert a + b == b;
    } else {
      assert (a + b)[0] == a[0] && (a + b)[1..] == a[1..] + b;
      RunAppend(Feed(h, a[0]), a[1..], b);
    }
  }

  lemma RunSnoc(h: Parser, text: string, c: char)
    requires Counted(h)
    ensures Run(h, text + [c]) == Feed(Run(h, text), c)
  {
    RunAppend(h, text, [c]);
    assert [c][1..] == "";
  }

  /** The state a session starts in; the flash contents are arbitrary. */
  ghost predicate PowerUp(h: Parser) {
    && h.state == WaitLine
    && h.pageStart == 0 && h.base == 0 && !h.dirty && h.running
    && h.flash.BufferBlank() && h.flash.log == []
  }

  /** The bootloader itself, updating its variables and the flash in place. */
  class PrinterBootloader {
    var state: ParserState
    var prevData: byte
    var data: byte
    var readMSB: bool
    var recordType: byte
    var dataRem: byte
    var checksum: byte
    var pageStart: nat
    var base: nat
    var addr: nat
    var dirty: bool
    var running: bool
    const flash: FlashDevice

    ghost predicate Valid()
      reads this, flash
    {
      flash.Valid()
    }

    ghost function Value(): (h: Parser)
      reads this, flash
      requires Valid()
    {
      Parser(state, prevData, data, readMSB, recordType, dataRem, checksum,
             pageStart, base, addr, dirty, running, flash.Value())
    }

    constructor (device: FlashDevice)
      requires device.Valid() && device.Value().BufferBlank() && device.log == []
      ensures Valid() && PowerUp(Value()) && flash == device
    {
      state, prevData, data, readMSB, recordType, dataRem, checksum := WaitLine, 0, 0, false, 0, 0, 0;
      pageStart, base, addr, dirty, running, flash := 0, 0, 0, false, true, device;
    }

    method FlushPageIfRequired()
      requires Valid()
      modifies this, flash
      ensures Valid() && Value() == FlushIfRequired(old(Value()))
    {
      if !dirty {
        return;
      }
      var newPageStart := flash.chip.PageOf(addr);
      if pageStart != newPageStart {
        flash.PageWrite(pageStart);
        pageStart := newPageStart;
        dirty := false;
      }
    }

    method ProcessWord()
      requires Valid()
      modifies this, flash
      ensures Valid() && Value() == AcceptWord(old(Value()))
    {
      hide FlushIfRequired, RawFlash.PageErase, RawFlash.PageFill;
      match recordType {
        case 0 =>
          if !dirty {
            flash.PageErase(pageStart);
            dirty := true;
          }
          flash.PageFill(addr, prevData, data);
          addr := Wrap32(addr + 2);
          FlushPageIfRequired();
        case 2 => base := (data * 0x100 + prevData) * 0x10;
        case 4 => base := (data * 0x100 + prevData) * 0x10000;
        case _ =>
      }
    }

    method ProcessData()
      requires Valid() && dataRem > 0
      modifies this, flash
      ensures Valid() && Value() == AcceptData(old(Value()))
    {
      hide AcceptWord;
      dataRem := dataRem - 1;
      if addr >= flash.chip.bootStart {
        state := WaitLine;
        dirty := false;
      } else if dataRem % 2 == 1 {
        prevData := data;
      } else {
        ProcessWord();
        if dataRem == 0 {
          state := Checksum;
        }
      }
    }

    method ProcessChecksum()
      requires Valid()
      modifies this, flash
      ensures Valid() && Value() == AcceptChecksum(old(Value()))
    {
      if data == Wrap8(0x100 - checksum) {
        FlushPageIfRequired();
        if recordType == END_OF_FILE {
          running := false;
        }
      }
    }

    method ProcessByte()
      requires Valid() && Counted(Value())
      modifies this, flash
      ensures Valid() && Value() == Accept(old(Value()))
    {
      hide AcceptData, AcceptChecksum;
      if state != Checksum {
        checksum := Wrap8(checksum + data);
      }
      match state {
        case WaitLine =>
        case ByteCount =>
          dataRem, state := data, AddressHigh;
        case AddressHigh =>
          addr, state := Wrap32(addr + data * 0x100), AddressLow;
        case AddressLow =>
          addr, state := Wrap32(addr + data), RecordType;
        case RecordType =>
          recordType, state := data, if dataRem != 0 then ReadData else Checksum;
        case ReadData =>
          ProcessData();
        case Checksum =>
          ProcessChecksum();
      }
    }

    method ParseIntelHEXByte(c: char)
      requires Valid() && Counted(Value())
      modifies this, flash
      ensures Valid() && Value() == Feed(old(Value()), c)
    {
      hide Accept;
      if state == WaitLine || c == ':' {
        checksum, addr, readMSB := 0, base, false;
        if c == ':' {
          state := ByteCount;
        }
        return;
      }
      var digit := HexToDecimal(c);
      if digit < 0 {
        return;
      }
      data := Wrap8(data * 0x10 + digit);
      readMSB := !readMSB;
      if !readMSB {
        ProcessByte();
      }
    }

    /** One received packet is fed to the parser to its end, whatever it does. */
    method ReceivePacket(text: string)
      requires Valid() && Counted(Value())
      modifies this, flash
      ensures Valid() && Value() == Run(old(Value()), text)
    {
      var i := 0;
      while i < |text|
        invariant 0 <= i <= |text|
        invariant Valid() && Counted(Value()) && Run(Value(), text[i..]) == Run(old(Value()), text)
      {
        ParseIntelHEXByte(text[i]);
        assert text[i..][1..] == text[i + 1..];
        i := i + 1;
      }
    }
  }
}
