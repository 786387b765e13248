/**
 * What holds of the parser on every character stream: filler is invisible, every page
 * write follows its own erase, and the session ends exactly on a complete end-of-file
 * record.
 */
module HexStreams {
  import opened Bytes
  import opened FlashMemory
  import opened HexParser

  // ---------------------------------------------------------------------------
  // Filler characters
  // ---------------------------------------------------------------------------

  predicate Significant(c: char) {
    c == ':' || HexToDecimal(c) >= 0
  }

  /** `text` without the characters that are neither ':' nor an upper-case digit. */
  function Clean(text: string): string {
    if text == "" then ""
    else if Significant(text[0]) then [text[0]] + Clean(text[1..])
    else Clean(text[1..])
  }

  /** Equal up to the three fields that filler resets while no record is open. */
  ghost predicate Similar(a: Parser, b: Parser) {
    if a.state == WaitLine then a == b.(checksum := a.checksum, addr := a.addr, readMSB := a.readMSB)
    else a == b
  }

  lemma FeedSimilar(a: Parser, b: Parser, c: char)
    requires Counted(a) && Counted(b) && Similar(a, b)
    ensures Similar(Feed(a, c), Feed(b, c))
    ensures !Significant(c) ==> Similar(Feed(a, c), b)
  {
  }

  /** Deleting all filler from any text changes neither the flash nor the session's end. */
  lemma {:induction false} FillerInvisible(a: Parser, b: Parser, text: string)
    requires Counted(a) && Counted(b) && Similar(a, b)
    ensures Similar(Run(a, text), Run(b, Clean(text)))
    decreases |text|
  {
    if text != "" {
      var c, rest := text[0], text[1..];
      FeedSimilar(a, b, c);
      if Significant(c) {
        var cleaned := [c] + Clean(rest);
        assert cleaned[0] == c && cleaned[1..] == Clean(rest);
        FillerInvisible(Feed(a, c), Feed(b, c), rest);
      } else {
        FillerInvisible(Feed(a, c), b, rest);
      }
    }
  }

  /** Two texts with the same significant characters program the same flash. */
  lemma SameCleanText(h: Parser, s: string, t: string)
    requires Counted(h) && Clean(s) == Clean(t)
    ensures Run(h, s).flash == Run(h, t).flash && Run(h, s).running == Run(h, t).running
  {
    FillerInvisible(h, h, s);
    FillerInvisible(h, h, t);
  }

  // ---------------------------------------------------------------------------
  // Page discipline
  // ---------------------------------------------------------------------------

  /** Each page write comes directly after the erase of the same page. */
  ghost predicate Disciplined(log: seq<Event>) {
    forall i :: 0 <= i < |log| && log[i].Write? ==> i > 0 && log[i - 1] == Erase(log[i].page)
  }

  ghost predicate PagesInOrder(h: Parser) {
    && Disciplined(h.flash.log)
    && h.flash.chip.Aligned(h.pageStart)
    && (h.dirty ==> |h.flash.log| > 0 && h.flash.log[|h.flash.log| - 1] == Erase(h.pageStart))
  }

  lemma FlushInOrder(h: Parser)
    requires PagesInOrder(h)
    ensures PagesInOrder(FlushIfRequired(h))
  {
    hide Chip.Offset;
    PageOfWithin(h.flash.chip, h.pageStart, h.pageStart);
  }

  lemma WordInOrder(h: Parser)
    requires PagesInOrder(h)
    ensures PagesInOrder(AcceptWord(h))
  {
    hide FlushIfRequired, Chip.Offset, Chip.PageOf;
    if h.recordType == DATA {
      PageOfWithin(h.flash.chip, h.pageStart, h.pageStart);
      var erased := if h.dirty then h.flash else h.flash.PageErase(h.pageStart);
      FlushInOrder(h.(flash := erased.PageFill(h.addr, h.prevData, h.data),
                      dirty := true, addr := Wrap32(h.addr + 2)));
    }
  }

  lemma AcceptInOrder(h: Parser)
    requires Counted(h) && PagesInOrder(h)
    ensures PagesInOrder(Accept(h))
  {
    hide AcceptWord, FlushIfRequired;
    if h.state == ReadData {
      WordInOrder(h.(checksum := Wrap8(h.checksum + h.data), dataRem := h.dataRem - 1));
    } else if h.state == Checksum {
      FlushInOrder(h);
    }
  }

  lemma FeedInOrder(h: Parser, c: char)
    requires Counted(h) && PagesInOrder(h)
    ensures PagesInOrder(Feed(h, c))
  {
    hide Accept;
    if h.state != WaitLine && c != ':' && HexToDecimal(c) >= 0 && h.readMSB {
      AcceptInOrder(h.(data := Wrap8(h.data * 0x10 + HexToDecimal(c)), readMSB := false));
    }
  }

  /** On every text, each page that is written was erased by the event just before. */
  lemma {:induction false} PageDiscipline(h: Parser, text: string)
    requires Counted(h) && PagesInOrder(h)
    ensures PagesInOrder(Run(h, text))
    decreases |text|
  {
    if text != "" {
      FeedInOrder(h, text[0]);
      PageDiscipline(Feed(h, text[0]), text[1..]);
    }
  }

  lemma PageDisciplineFromPowerUp(h: Parser, text: string)
    requires PowerUp(h)
    ensures Disciplined(Run(h, text).flash.log)
  {
    PageDiscipline(h, text);
  }

  // ---------------------------------------------------------------------------
  // The end of a session
  // ---------------------------------------------------------------------------

  /** The bytes spelled out since the last ':', if there was one, and an unpaired digit. */
  datatype Line = Line(open: bool, bytes: seq<byte>, pending: Option<nat>)

  function Extend(line: Line, c: char): Line {
    if c == ':' then Line(true, [], None)
    else if HexToDecimal(c) < 0 then line
    else match line.pending
      case None => line.(pending := Some(HexToDecimal(c)))
      case Some(high) => line.(bytes := line.bytes + [Wrap8(high * 0x10 + HexToDecimal(c))], pending := None)
  }

  function LastLine(text: string): Line {
    if text == "" then Line(false, [], None)
    else Extend(LastLine(text[..|text| - 1]), text[|text| - 1])
  }

  function Sum(bytes: seq<byte>): nat {
    if bytes == [] then 0 else Sum(bytes[..|bytes| - 1]) + bytes[|bytes| - 1]
  }

  /** The address a record is loaded to: its 16-bit offset above the base. */
  function LoadAddress(base: nat, bytes: seq<byte>): nat
    requires |bytes| >= 3
  {
    Wrap32(base + 0x100 * (bytes[1] as int) + bytes[2])
  }

  /** Where the checksum field of the record starts. */
  function BodyLength(bytes: seq<byte>): nat
    requires |bytes| > 0
  {
    4 + (bytes[0] as int)
  }

  /** A record of `bytes[0]` data bytes is complete up to its checksum field. */
  predicate Complete(bytes: seq<byte>) {
    |bytes| > 0 && |bytes| >= BodyLength(bytes)
  }

  /**
   * The line consists of a complete end-of-file record and at least one more byte, the
   * last of which brings the sum of the record to 0 mod 256; if the record carries data,
   * its address lies in the application section.
   */
  predicate EndsSession(line: Line, base: nat, bootStart: nat) {
    && line.open && line.pending == None
    && Complete(line.bytes)
    && var n := BodyLength(line.bytes);
    && |line.bytes| > n
    && line.bytes[3] == END_OF_FILE
    && Wrap8(Sum(line.bytes[..n]) + line.bytes[|line.bytes| - 1]) == 0
    && (line.bytes[0] > 0 ==> LoadAddress(base, line.bytes) < bootStart)
  }

  /** How far into the record the parser is, in terms of the bytes of the line. */
  ghost predicate FollowsFields(h: Parser, bytes: seq<byte>) {
    && (|bytes| > 0 && h.state != Checksum && h.state != WaitLine ==> |bytes| + h.dataRem <= BodyLength(bytes))
    && match h.state
       case WaitLine =>
         && |bytes| > 4
         && (bytes[3] == END_OF_FILE ==> bytes[0] > 0 && LoadAddress(h.base, bytes) >= h.flash.chip.bootStart)
       case ByteCount => bytes == [] && h.addr == h.base
       case AddressHigh => |bytes| == 1 && h.dataRem == bytes[0] && h.addr == h.base
       case AddressLow => |bytes| == 2 && h.dataRem == bytes[0] && h.addr == Wrap32(h.base + 0x100 * (bytes[1] as int))
       case RecordType => |bytes| == 3 && h.dataRem == bytes[0] && h.addr == LoadAddress(h.base, bytes)
       case ReadData =>
         && |bytes| >= 4 && h.recordType == bytes[3]
         && |bytes| + h.dataRem == BodyLength(bytes)
         && (h.recordType == END_OF_FILE ==> h.addr == LoadAddress(h.base, bytes))
         && (h.recordType == END_OF_FILE && |bytes| > 4 ==> h.addr < h.flash.chip.bootStart)
       case Checksum =>
         && |bytes| >= 4 && h.recordType == bytes[3] && Complete(bytes)
         && (h.recordType == END_OF_FILE && bytes[0] > 0 ==> LoadAddress(h.base, bytes) < h.flash.chip.bootStart)
  }

  /** The running checksum is that of the record, whose own checksum field is left out. */
  ghost predicate FollowsSum(h: Parser, bytes: seq<byte>) {
    if h.state == Checksum then Complete(bytes) && h.checksum == Wrap8(Sum(bytes[..BodyLength(bytes)]))
    else h.state != WaitLine ==> h.checksum == Wrap8(Sum(bytes))
  }

  ghost predicate FollowsDigits(h: Parser, pending: Option<nat>) {
    h.state != WaitLine ==>
      && h.readMSB == pending.Some?
      && (pending.Some? ==> pending.value == h.data % 0x10)
  }

  /** The parser agrees with the line it is reading. */
  ghost predicate Follows(h: Parser, line: Line) {
    && Counted(h)
    && h.base < WORD32
    && (if line.open then FollowsFields(h, line.bytes) && FollowsSum(h, line.bytes) && FollowsDigits(h, line.pending)
        else h.state == WaitLine)
  }

  lemma SumPush(bytes: seq<byte>, b: byte)
    ensures Sum(bytes + [b]) == Sum(bytes) + b
    ensures Wrap8(Sum(bytes + [b])) == Wrap8(Wrap8(Sum(bytes)) + b)
  {
    assert (bytes + [b])[..|bytes|] == bytes;
    Wrap8Add(Sum(bytes), b);
  }

  /** Words of records other than end-of-file touch neither the count nor the type. */
  lemma WordFrame(h: Parser)
    ensures var w := AcceptWord(h);
      && w.state == h.state && w.recordType == h.recordType && w.dataRem == h.dataRem
      && w.checksum == h.checksum && w.data == h.data && w.readMSB == h.readMSB
      && w.running == h.running && w.flash.chip == h.flash.chip
      && (h.recordType == END_OF_FILE ==> w == h)
      && (h.base < WORD32 ==> w.base < WORD32)
  {
  }

  lemma ChecksumFrame(h: Parser)
    ensures var r := AcceptChecksum(h);
      && r.state == h.state && r.recordType == h.recordType && r.dataRem == h.dataRem
      && r.checksum == h.checksum && r.data == h.data && r.readMSB == h.readMSB
      && r.base == h.base && r.flash.chip == h.flash.chip
      && (h.running ==> (!r.running <==> h.recordType == END_OF_FILE && Wrap8(h.data + h.checksum) == 0))
  {
  }

  lemma LoadAddressPush(base: nat, bytes: seq<byte>, b: byte)
    requires |bytes| >= 3
    ensures LoadAddress(base, bytes + [b]) == LoadAddress(base, bytes)
  {
  }

  /** The parser and the line are in step before `h.data` is accepted. */
  ghost predicate ByteDue(h: Parser, line: Line) {
    && h.state != WaitLine && !h.readMSB && line.open
    && Counted(h) && h.base < WORD32
    && FollowsFields(h, line.bytes) && FollowsSum(h, line.bytes)
  }

  function Push(line: Line, b: byte): Line {
    line.(bytes := line.bytes + [b], pending := None)
  }

  lemma CountFollows(h: Parser, line: Line)
    requires ByteDue(h, line) && h.state in {ByteCount, AddressHigh}
    ensures Follows(Accept(h), Push(line, h.data))
  {
    hide Wrap8, Wrap32, Sum, LoadAddress, AcceptData, AcceptChecksum;
    SumPush(line.bytes, h.data);
  }

  lemma AddressLoaded(base: nat, bytes: seq<byte>, low: byte)
    requires |bytes| == 2
    ensures Wrap32(Wrap32(base + 0x100 * (bytes[1] as int)) + low) == LoadAddress(base, bytes + [low])
  {
    hide Wrap32;
    Wrap32Add(base + 0x100 * (bytes[1] as int), low);
  }

  lemma AddressFollows(h: Parser, line: Line)
    requires ByteDue(h, line) && h.state == AddressLow
    ensures Follows(Accept(h), Push(line, h.data))
  {
    hide LoadAddress, Sum, Wrap8, Wrap32, AcceptData, AcceptChecksum;
    AddressLoaded(h.base, line.bytes, h.data);
    SumPush(line.bytes, h.data);
  }

  lemma TypeFollows(h: Parser, line: Line)
    requires ByteDue(h, line) && h.state == RecordType
    ensures Follows(Accept(h), Push(line, h.data))
  {
    hide LoadAddress, Sum, Wrap8, Wrap32, AcceptData, AcceptChecksum;
    var bytes := line.bytes + [h.data];
    SumPush(line.bytes, h.data);
    LoadAddressPush(h.base, line.bytes, h.data);
    if h.dataRem == 0 {
      assert bytes[..BodyLength(bytes)] == bytes;
    }
  }

  lemma DataFollows(h: Parser, line: Line)
    requires ByteDue(h, line) && h.state == ReadData
    ensures Follows(Accept(h), Push(line, h.data))
  {
    hide AcceptWord, AcceptChecksum, LoadAddress, Wrap8, Wrap32;
    var bytes := line.bytes + [h.data];
    SumPush(line.bytes, h.data);
    LoadAddressPush(h.base, line.bytes, h.data);
    WordFrame(h.(checksum := Wrap8(h.checksum + h.data), dataRem := h.dataRem - 1));
    if h.dataRem == 1 {
      assert bytes[..BodyLength(bytes)] == bytes;
    }
  }

  lemma CheckFollows(h: Parser, line: Line)
    requires ByteDue(h, line) && h.state == Checksum
    ensures Follows(Accept(h), Push(line, h.data))
  {
    hide AcceptChecksum, AcceptData, LoadAddress, Wrap8, Wrap32;
    var bytes := line.bytes + [h.data];
    ChecksumFrame(h);
    LoadAddressPush(h.base, line.bytes, h.data);
    assert bytes[..BodyLength(bytes)] == line.bytes[..BodyLength(line.bytes)];
  }

  /** One more byte of the line keeps the parser and the line in step. */
  lemma AcceptFollows(h: Parser, line: Line)
    requires ByteDue(h, line)
    ensures Follows(Accept(h), Push(line, h.data))
  {
    hide Accept, Follows;
    match h.state {
      case ByteCount => CountFollows(h, line);
      case AddressHigh => CountFollows(h, line);
      case AddressLow => AddressFollows(h, line);
      case RecordType => TypeFollows(h, line);
      case ReadData => DataFollows(h, line);
      case Checksum => CheckFollows(h, line);
    }
  }

  lemma FeedFollows(h: Parser, line: Line, c: char)
    requires Follows(h, line)
    ensures Follows(Feed(h, c), Extend(line, c))
  {
    if h.state == WaitLine || c == ':' || HexToDecimal(c) < 0 {
      SkipFollows(h, line, c);
    } else {
      DigitFollows(h, line, c);
    }
  }

  lemma SkipFollows(h: Parser, line: Line, c: char)
    requires Follows(h, line)
    requires h.state == WaitLine || c == ':' || HexToDecimal(c) < 0
    ensures Follows(Feed(h, c), Extend(line, c))
  {
    hide LoadAddress, Accept, Wrap32;
    if line.open && c != ':' && HexToDecimal(c) >= 0 && line.pending.Some? {
      LoadAddressPush(h.base, line.bytes, Wrap8(line.pending.value * 0x10 + HexToDecimal(c)));
    }
  }

  lemma PairDigits(data: byte, digit: nat)
    requires digit < 0x10
    ensures Wrap8(data * 0x10 + digit) % 0x10 == digit
    ensures Wrap8(data * 0x10 + digit) == Wrap8(data % 0x10 * 0x10 + digit)
  {
    ShiftDigit(data, digit);
  }

  lemma DigitFollows(h: Parser, line: Line, c: char)
    requires Follows(h, line)
    requires h.state != WaitLine && c != ':' && HexToDecimal(c) >= 0
    ensures Follows(Feed(h, c), Extend(line, c))
  {
    hide Accept, FollowsFields, FollowsSum, Wrap8;
    PairDigits(h.data, HexToDecimal(c));
    var g := h.(data := Wrap8(h.data * 0x10 + HexToDecimal(c)), readMSB := !h.readMSB);
    DigitFrame(h, g, line.bytes);
    if h.readMSB {
      AcceptFollows(g, line);
    }
  }

  lemma DigitFrame(h: Parser, g: Parser, bytes: seq<byte>)
    requires FollowsFields(h, bytes) && FollowsSum(h, bytes)
    requires g == h.(data := g.data, readMSB := g.readMSB)
    ensures FollowsFields(g, bytes) && FollowsSum(g, bytes)
  {
  }

  /** The parser and the line agree after every text. */
  lemma {:induction false} RunFollows(h: Parser, text: string)
    requires PowerUp(h)
    ensures Follows(Run(h, text), LastLine(text))
    decreases |text|
  {
    if text != "" {
      var front, c := text[..|text| - 1], text[|text| - 1];
      assert text == front + [c];
      RunSnoc(h, front, c);
      RunFollows(h, front);
      FeedFollows(Run(h, front), LastLine(front), c);
    }
  }

  /** No state but the checksum one clears the run flag, and nothing sets it. */
  lemma RunningFrame(h: Parser)
    requires Counted(h)
    ensures h.state != Checksum ==> Accept(h).running == h.running
    ensures !h.running ==> !Accept(h).running
  {
    hide AcceptWord, FlushIfRequired, Wrap8, Wrap32;
    if h.state == ReadData {
      WordFrame(h.(checksum := Wrap8(h.checksum + h.data), dataRem := h.dataRem - 1));
    } else if h.state == Checksum {
      FlushFrame(h);
    }
  }

  lemma FlushFrame(h: Parser)
    ensures FlushIfRequired(h).running == h.running
  {
  }

  lemma StaysStopped(h: Parser, c: char)
    requires Counted(h) && !h.running
    ensures !Feed(h, c).running
  {
    hide Accept, Wrap8;
    if h.state != WaitLine && c != ':' && HexToDecimal(c) >= 0 && h.readMSB {
      RunningFrame(h.(data := Wrap8(h.data * 0x10 + HexToDecimal(c)), readMSB := false));
    }
  }

  /** The last byte of a line, in the checksum state, ends the session or not. */
  lemma ChecksumEnds(h: Parser, line: Line)
    requires ByteDue(h, line) && h.state == Checksum && h.running
    ensures !Accept(h).running <==> EndsSession(Push(line, h.data), h.base, h.flash.chip.bootStart)
  {
    hide AcceptChecksum, LoadAddress, Wrap32, Sum;
    ChecksumFrame(h);
    LoadAddressPush(h.base, line.bytes, h.data);
    var bytes := line.bytes + [h.data];
    assert bytes[..BodyLength(bytes)] == line.bytes[..BodyLength(line.bytes)];
  }

  lemma FeedEnds(h: Parser, line: Line, c: char)
    requires Follows(h, line) && h.running
    ensures !Feed(h, c).running <==>
            HexToDecimal(c) >= 0 && EndsSession(Extend(line, c), h.base, h.flash.chip.bootStart)
  {
    hide Accept, LoadAddress, FollowsSum, Sum, Wrap8, Wrap32;
    var digit := HexToDecimal(c);
    if h.state == WaitLine {
      if line.open && digit >= 0 && line.pending.Some? {
        LoadAddressPush(h.base, line.bytes, Wrap8(line.pending.value * 0x10 + digit));
      }
    } else if c != ':' && digit >= 0 && h.readMSB {
      var g := h.(data := Wrap8(h.data * 0x10 + digit), readMSB := false);
      PairDigits(h.data, digit);
      DigitFrame(h, g, line.bytes);
      RunningFrame(g);
      if h.state == Checksum {
        ChecksumEnds(g, line);
      }
    }
  }
}
