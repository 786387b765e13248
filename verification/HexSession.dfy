/**
 * The end of a session in terms of the text alone: what a reader who knows where the boot
 * section starts makes of the text, and that the parser stops exactly where that reader
 * sees a complete end-of-file record.
 */
module HexSession {
  import opened Bytes
  import opened FlashMemory
  import opened HexParser
  import opened HexStreams

  // ---------------------------------------------------------------------------
  // Reading a text
  // ---------------------------------------------------------------------------

  /** The line being read, the base address at its start and now, and the odd data byte. */
  datatype Context = Context(line: Line, lineBase: nat, base: nat, odd: byte)

  /** Words complete before data byte `k` of `n`; bytes are paired from the record's end. */
  function WordsBefore(n: nat, k: nat): nat { (k + n % 2) / 2 }

  /** The address the next data byte of the line is for. */
  function Due(lineBase: nat, bytes: seq<byte>): nat
    requires |bytes| >= 4
  {
    LoadAddress(lineBase, bytes) + (if bytes[3] == DATA then 2 * WordsBefore(bytes[0], |bytes| - 4) else 0)
  }

  /** A byte after these is a data byte for the application section, which ends at `end`. */
  predicate DataDue(lineBase: nat, bytes: seq<byte>, end: nat) {
    4 <= |bytes| < BodyLength(bytes) && Due(lineBase, bytes) < end
  }

  /** A complete word of an extended-address record sets the base. */
  function TakeIn(c: Context, b: byte, end: nat): Context {
    var bytes := c.line.bytes;
    if !DataDue(c.lineBase, bytes, end) then c
    else if (BodyLength(bytes) - |bytes| - 1) % 2 == 1 then c.(odd := b)
    else if bytes[3] == EXTENDED_SEGMENT_ADDRESS then c.(base := (b * 0x100 + c.odd) * 0x10)
    else if bytes[3] == EXTENDED_LINEAR_ADDRESS then c.(base := (b * 0x100 + c.odd) * 0x10000)
    else c
  }

  function ReadChar(c: Context, ch: char, end: nat): Context {
    var line := Extend(c.line, ch);
    if ch == ':' then c.(line := line, lineBase := c.base)
    else if !line.open || line.bytes == c.line.bytes then c.(line := line)
    else TakeIn(c, line.bytes[|line.bytes| - 1], end).(line := line)
  }

  /** A text, starting with an arbitrary odd byte left over. */
  function Read(odd: byte, end: nat, text: string): Context {
    if text == "" then Context(Line(false, [], None), 0, 0, odd)
    else ReadChar(Read(odd, end, text[..|text| - 1]), text[|text| - 1], end)
  }

  // ---------------------------------------------------------------------------
  // The parser agrees with the reader
  // ---------------------------------------------------------------------------

  ghost predicate Located(h: Parser, c: Context) {
    && h.base == c.base && h.prevData == c.odd
    && (c.line.open ==>
          match h.state
          case WaitLine => |c.line.bytes| >= 4 && Due(c.lineBase, c.line.bytes) >= h.flash.chip.bootStart
          case ReadData => |c.line.bytes| >= 4 && h.addr == Due(c.lineBase, c.line.bytes)
          case Checksum => Complete(c.line.bytes)
          case _ => |c.line.bytes| < 4 && c.lineBase == c.base)
  }

  lemma WordsStep(n: nat, k: nat)
    requires k < n
    ensures WordsBefore(n, k + 1) == WordsBefore(n, k) + (if (n - 1 - k) % 2 == 1 then 0 else 1)
  {
  }

  lemma DuePush(lineBase: nat, bytes: seq<byte>, b: byte)
    requires |bytes| >= 4
    ensures Due(lineBase, bytes + [b]) >= Due(lineBase, bytes)
    ensures |bytes| < BodyLength(bytes) ==>
            Due(lineBase, bytes + [b]) == Due(lineBase, bytes) +
            (if bytes[3] != DATA || (BodyLength(bytes) - |bytes| - 1) % 2 == 1 then 0 else 2)
  {
    hide LoadAddress;
    LoadAddressPush(lineBase, bytes, b);
    if |bytes| < BodyLength(bytes) {
      hide WordsBefore;
      WordsStep(bytes[0], |bytes| - 4);
    }
  }

  lemma WordAddress(h: Parser)
    requires h.addr < 0x100_0000
    ensures var w := AcceptWord(h);
      && w.addr == (if h.recordType == DATA then h.addr + 2 else h.addr) && w.prevData == h.prevData
      && w.base == (if h.recordType == EXTENDED_SEGMENT_ADDRESS then (h.data * 0x100 + h.prevData) * 0x10
                    else if h.recordType == EXTENDED_LINEAR_ADDRESS then (h.data * 0x100 + h.prevData) * 0x10000
                    else h.base)
  {
    hide RawFlash.PageErase, RawFlash.PageFill, RawFlash.PageWrite, Chip.PageOf, Wrap32;
    NoWrap(h.addr + 2);
  }

  /** A byte of the data field. */
  lemma DataLocated(h: Parser, c: Context)
    requires ByteDue(h, c.line) && Located(h, c) && h.state == ReadData
    ensures Located(Accept(h), TakeIn(c, h.data, h.flash.chip.bootStart).(line := Push(c.line, h.data)))
  {
    hide AcceptWord, AcceptChecksum, Due, Sum, Wrap8, Wrap32;
    var bytes := c.line.bytes;
    DuePush(c.lineBase, bytes, h.data);
    var g := h.(checksum := Wrap8(h.checksum + h.data), dataRem := h.dataRem - 1);
    WordFrame(g);
    if h.addr < h.flash.chip.bootStart {
      WordAddress(g);
    }
  }

  /** A byte of the header or of the checksum field. */
  lemma FieldLocated(h: Parser, c: Context)
    requires ByteDue(h, c.line) && Located(h, c) && h.state != ReadData
    ensures Located(Accept(h), TakeIn(c, h.data, h.flash.chip.bootStart).(line := Push(c.line, h.data)))
  {
    hide AcceptData, AcceptChecksum, LoadAddress, Sum, Wrap8, Wrap32;
    if h.state == Checksum {
      ChecksumFrame(h);
      ChecksumOdd(h);
    } else if h.state == RecordType {
      LoadAddressPush(c.lineBase, c.line.bytes, h.data);
    }
  }

  lemma ChecksumOdd(h: Parser)
    ensures AcceptChecksum(h).prevData == h.prevData
  {
  }

  lemma DigitLocated(h: Parser, c: Context, ch: char)
    requires Follows(h, c.line) && Located(h, c)
    requires h.state != WaitLine && ch != ':' && HexToDecimal(ch) >= 0
    ensures Located(Feed(h, ch), ReadChar(c, ch, h.flash.chip.bootStart))
  {
    hide Accept, FollowsFields, FollowsSum, TakeIn, Due, Wrap8;
    PairDigits(h.data, HexToDecimal(ch));
    var g := h.(data := Wrap8(h.data * 0x10 + HexToDecimal(ch)), readMSB := !h.readMSB);
    DigitFrame(h, g, c.line.bytes);
    if h.readMSB {
      assert (c.line.bytes + [g.data])[|c.line.bytes|] == g.data;
      if h.state == ReadData {
        DataLocated(g, c);
      } else {
        FieldLocated(g, c);
      }
    }
  }

  lemma SkipLocated(h: Parser, c: Context, ch: char)
    requires Follows(h, c.line) && Located(h, c)
    requires h.state == WaitLine || ch == ':' || HexToDecimal(ch) < 0
    ensures Located(Feed(h, ch), ReadChar(c, ch, h.flash.chip.bootStart))
  {
    hide Due, Accept, Wrap8, FollowsSum, FollowsDigits;
    if c.line.open && ch != ':' && HexToDecimal(ch) >= 0 && c.line.pending.Some? {
      DuePush(c.lineBase, c.line.bytes, Wrap8(c.line.pending.value * 0x10 + HexToDecimal(ch)));
    }
  }

  /** After every text the parser's base address is the reader's. */
  lemma {:induction false} RunLocated(h: Parser, text: string)
    requires PowerUp(h)
    ensures var c := Read(h.prevData, h.flash.chip.bootStart, text);
      c.line == LastLine(text) && Located(Run(h, text), c)
    decreases |text|
  {
    hide Feed, ReadChar, Follows, Located, Extend;
    if text == "" {
      assert Located(h, Read(h.prevData, h.flash.chip.bootStart, text)) by { StartLocated(h); }
    } else {
      var front, ch := text[..|text| - 1], text[|text| - 1];
      assert text == front + [ch];
      RunSnoc(h, front, ch);
      RunFollows(h, front);
      RunLocated(h, front);
      var before, c := Run(h, front), Read(h.prevData, h.flash.chip.bootStart, front);
      if before.state == WaitLine || ch == ':' || HexToDecimal(ch) < 0 {
        SkipLocated(before, c, ch);
      } else {
        DigitLocated(before, c, ch);
      }
      ReadExtends(c, ch, h.flash.chip.bootStart);
    }
  }

  lemma StartLocated(h: Parser)
    requires PowerUp(h)
    ensures Located(h, Context(Line(false, [], None), 0, 0, h.prevData))
  {
  }

  lemma ReadExtends(c: Context, ch: char, end: nat)
    ensures ReadChar(c, ch, end).line == Extend(c.line, ch)
  {
  }

  // ---------------------------------------------------------------------------
  // The end
  // ---------------------------------------------------------------------------

  /** The text up to and including position `k` ends the session at that position. */
  predicate EndsAt(odd: byte, end: nat, text: string, k: nat)
    requires k < |text|
  {
    && HexToDecimal(text[k]) >= 0
    && EndsSession(LastLine(text[..k + 1]), Read(odd, end, text[..k]).base, end)
  }

  /**
   * The bootloader stops on exactly those texts in which some character completes an
   * end-of-file record with a correct checksum.
   */
  lemma {:induction false} SessionEnds(h: Parser, text: string)
    requires PowerUp(h)
    ensures !Run(h, text).running <==>
            exists k :: 0 <= k < |text| && EndsAt(h.prevData, h.flash.chip.bootStart, text, k)
    decreases |text|
  {
    hide Feed, ReadChar, Follows, Located, Extend, EndsSession, Read;
    if text == "" {
      RunEmpty(h);
    } else {
      var n, odd, end := |text| - 1, h.prevData, h.flash.chip.bootStart;
      var front, c := text[..n], text[n];
      assert text == front + [c] && text[..n + 1] == text;
      var before := Run(h, front);
      RunSnoc(h, front, c);
      RunFollows(h, front);
      RunLocated(h, front);
      LocatedBase(before, Read(odd, end, front));
      LastLineExtends(front, c);
      SessionEnds(h, front);
      if before.running {
        FeedEnds(before, LastLine(front), c);
        assert !Run(h, text).running <==> EndsAt(odd, end, text, n);
      } else {
        StaysStopped(before, c);
      }
      forall k | 0 <= k < n
        ensures EndsAt(odd, end, text, k) <==> EndsAt(odd, end, front, k)
      {
        assert front[..k] == text[..k] && front[..k + 1] == text[..k + 1];
      }
    }
  }

  lemma RunEmpty(h: Parser)
    requires Counted(h)
    ensures Run(h, "") == h
  {
  }

  lemma LocatedBase(h: Parser, c: Context)
    requires Located(h, c)
    ensures h.base == c.base
  {
  }

  lemma LastLineExtends(front: string, c: char)
    ensures LastLine(front + [c]) == Extend(LastLine(front), c)
  {
    assert (front + [c])[..|front|] == front;
  }
}
