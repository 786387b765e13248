/**
 * The flash programming loop of a DFU download, from any address. The loop counts words
 * and turns the page after a page's worth of them, wherever in the page it started; words
 * past the end of the page wrap around to its beginning.
 */
module DfuPages {
  import opened Bytes
  import opened FlashMemory
  import opened Endpoints
  import opened Dfu

  // ---------------------------------------------------------------------------
  // The reference: what the loop leaves in the flash
  // ---------------------------------------------------------------------------

  /** The page filled from the offset of `addr` on with `data`, around its end if need be. */
  ghost function Turned(chip: Chip, addr: nat, data: seq<byte>): (cells: seq<byte>)
    requires chip.Valid()
    ensures |cells| == chip.pageSize
  {
    var offset := addr - chip.PageOf(addr);
    seq(chip.pageSize, x requires 0 <= x < chip.pageSize =>
      var j := if x >= offset then x - offset else x - offset + chip.pageSize;
      if j < |data| then data[j] else ERASED)
  }

  ghost function Put(memory: seq<byte>, page: nat, cells: seq<byte>): (m: seq<byte>)
    ensures |m| == |memory|
  {
    seq(|memory|, i requires 0 <= i < |memory| => if page <= i < page + |cells| then cells[i - page] else memory[i])
  }

  /** `memory` after `data` has been taken a page's worth at a time, each turned in its page. */
  ghost function Wrapped(chip: Chip, memory: seq<byte>, addr: nat, data: seq<byte>): (m: seq<byte>)
    requires chip.Valid()
    ensures |m| == |memory|
    decreases |data|
  {
    if |data| <= chip.pageSize then Put(memory, chip.PageOf(addr), Turned(chip, addr, data))
    else
      var first := Put(memory, chip.PageOf(addr), Turned(chip, addr, data[..chip.pageSize]));
      Wrapped(chip, first, addr + chip.pageSize, data[chip.pageSize..])
  }

  /** The writes, and the erases between them, for `n` bytes from `addr` on. */
  ghost function PageWrites(chip: Chip, addr: nat, n: nat): seq<Event>
    requires chip.Valid()
    decreases n
  {
    var page := chip.PageOf(addr);
    if n <= chip.pageSize then [Write(page)]
    else [Write(page), Erase(page + chip.pageSize)] + PageWrites(chip, addr + chip.pageSize, n - chip.pageSize)
  }

  // ---------------------------------------------------------------------------
  // The words that arrive
  // ---------------------------------------------------------------------------

  /** The next words as the loop reads them, if the host sends as many. */
  ghost function Received(e: OutEndpoint, words: nat): (r: Option<seq<byte>>)
    ensures r.Some? ==> |r.value| == 2 * words
    decreases words
  {
    if words == 0 then Some([])
    else if e.Dry() then None
    else
      var r := e.Ready();
      match Received(r.Drop().Drop(), words - 1)
      case None => None
      case Some(rest) => Some([r.Peek(), r.Drop().Peek()] + rest)
  }

  /** What is received are the words of the packets. */
  lemma {:induction false} ReceivedWords(e: OutEndpoint, words: nat)
    requires 2 * words <= |e.Words()|
    ensures Received(e, words) == Some(e.Words()[..2 * words])
    decreases words
  {
    hide OutEndpoint.Words, OutEndpoint.Ready, OutEndpoint.Peek, OutEndpoint.Drop, OutEndpoint.Dry;
    if words > 0 {
      TakeWord(e);
      var stream := e.Words();
      ReceivedWords(e.Ready().Drop().Drop(), words - 1);
      assert stream[..2 * words] == [stream[0], stream[1]] + stream[2..][..2 * (words - 1)];
    }
  }

  // ---------------------------------------------------------------------------
  // One page
  // ---------------------------------------------------------------------------

  /** The page of `addr` is erased in `f`, and the buffer holds `data`, turned. */
  ghost predicate Turning(f: Flash, memory: seq<byte>, addr: nat, data: seq<byte>) {
    && |memory| == |f.memory| && f.buffer == Turned(f.chip, addr, data)
    && f.memory == Put(memory, f.chip.PageOf(addr), Blank(f.chip.pageSize))
  }

  lemma TurnBegin(f: Flash, addr: nat)
    requires f.BufferBlank()
    ensures Turning(f.PageErase(addr), f.memory, addr, [])
    ensures f.PageErase(addr).log == f.log + [Erase(f.chip.PageOf(addr))]
  {
    hide Chip.PageOf, Chip.Offset;
  }

  /** The next word goes to the slot after the last one, around the end of the page. */
  lemma FillSlot(chip: Chip, addr: nat, n: nat)
    requires chip.Valid() && addr % 2 == 0 && n % 2 == 0 && n < chip.pageSize
    ensures var offset := addr - chip.PageOf(addr);
      var slot := (addr + n - chip.PageOf(addr + n)) / 2 * 2;
      && slot == (if offset + n < chip.pageSize then offset + n else offset + n - chip.pageSize)
      && slot + 1 < chip.pageSize && slot % 2 == 0
  {
    hide Chip.PageOf, Chip.Offset, Chip.Valid;
    var page := chip.PageOf(addr);
    WordInPage(chip, addr);
    Remainder(addr + n, 2, addr / 2 + n / 2, 0);
    WordInPage(chip, addr + n);
    if addr + n < page + chip.pageSize {
      PageOfWithin(chip, page, addr + n);
    } else {
      PageAfter(chip, page);
      PageOfWithin(chip, page + chip.pageSize, addr + n);
    }
    var slot := addr + n - chip.PageOf(addr + n);
    assert slot == 2 * (slot / 2);
  }

  lemma TurnFill(f: Flash, memory: seq<byte>, addr: nat, data: seq<byte>, low: byte, high: byte)
    requires Turning(f, memory, addr, data) && addr % 2 == 0 && |data| % 2 == 0 && |data| < f.chip.pageSize
    ensures |data| + 2 <= f.chip.pageSize
    ensures Turning(f.PageFill(addr + |data|, low, high), memory, addr, data + [low, high])
  {
    hide Chip.PageOf, Chip.Offset, Chip.Valid, Put;
    var chip, n := f.chip, |data|;
    FillSlot(chip, addr, n);
    EvenPage(chip);
    var offset := addr - chip.PageOf(addr);
    var slot := (addr + n - chip.PageOf(addr + n)) / 2 * 2;
    var filled := f.buffer[slot := low][slot + 1 := high];
    var due := Turned(chip, addr, data + [low, high]);
    forall x | 0 <= x < chip.pageSize
      ensures filled[x] == due[x]
    {
      var j := if x >= offset then x - offset else x - offset + chip.pageSize;
      assert (x == slot <==> j == n) && (x == slot + 1 <==> j == n + 1);
    }
    assert filled == due;
  }

  lemma TurnWrite(f: Flash, memory: seq<byte>, addr: nat, data: seq<byte>)
    requires Turning(f, memory, addr, data)
    ensures var w := f.PageWrite(addr);
      && w.memory == Put(memory, f.chip.PageOf(addr), Turned(f.chip, addr, data))
      && w.BufferBlank() && w.log == f.log + [Write(f.chip.PageOf(addr))]
  {
    hide Program, Chip.PageOf, Chip.Offset, Turned;
    var page := f.chip.PageOf(addr);
    forall i | 0 <= i < |memory|
      ensures f.PageWrite(addr).memory[i] == Put(memory, page, Turned(f.chip, addr, data))[i]
    {
      if page <= i < page + f.chip.pageSize {
        ProgramErased(f.buffer[i - page]);
      }
    }
  }

  // ---------------------------------------------------------------------------
  // The loop
  // ---------------------------------------------------------------------------

  /** The loop's word counters in terms of bytes. */
  lemma Counters(chip: Chip, done: nat, left: nat)
    requires chip.Valid() && done % 2 == 0 && left % 2 == 0 && left >= 2
    ensures (done + 2) / 2 == done / 2 + 1 && (left - 2) / 2 == left / 2 - 1 && (left / 2 == 1 <==> left == 2)
    ensures done / 2 + 1 == chip.pageSize / 2 <==> done + 2 == chip.pageSize
  {
    EvenPage(chip);
  }

  ghost predicate Finished(w: FlashWrite, chip: Chip, memory: seq<byte>, addr: nat, data: seq<byte>, log: seq<Event>)
    requires chip.Valid()
  {
    w.completed && w.flash.memory == Wrapped(chip, memory, addr, data) && w.flash.log == log
  }

  lemma NextWord(e: OutEndpoint, rest: seq<byte>)
    requires rest != [] && |rest| % 2 == 0 && Received(e, |rest| / 2) == Some(rest)
    ensures !e.Dry() && |rest| >= 2
    ensures var r := e.Ready();
      && r.Peek() == rest[0] && r.Drop().Peek() == rest[1]
      && Received(r.Drop().Drop(), (|rest| - 2) / 2) == Some(rest[2..])
  {
    hide OutEndpoint.Ready, OutEndpoint.Peek, OutEndpoint.Drop, OutEndpoint.Dry;
    assert (|rest| - 2) / 2 == |rest| / 2 - 1;
    var more := Received(e.Ready().Drop().Drop(), |rest| / 2 - 1);
    assert rest == [e.Ready().Peek(), e.Ready().Drop().Peek()] + more.value;
    assert rest[2..] == more.value;
  }

  lemma WrappedPages(chip: Chip, memory: seq<byte>, addr: nat, first: seq<byte>, rest: seq<byte>)
    requires chip.Valid() && |first| == chip.pageSize && rest != []
    ensures var m := Put(memory, chip.PageOf(addr), Turned(chip, addr, first));
      && Wrapped(chip, memory, addr, first + rest) == Wrapped(chip, m, addr + chip.pageSize, rest)
      && PageWrites(chip, addr, |first + rest|)
         == [Write(chip.PageOf(addr)), Erase(chip.PageOf(addr) + chip.pageSize)]
            + PageWrites(chip, addr + chip.pageSize, |rest|)
  {
    hide Put, Turned, Chip.PageOf;
    assert (first + rest)[..chip.pageSize] == first && (first + rest)[chip.pageSize..] == rest;
  }

  lemma WrappedUnfolds(chip: Chip, memory: seq<byte>, addr: nat, data: seq<byte>)
    requires chip.Valid() && |data| > chip.pageSize
    ensures var first, rest := data[..chip.pageSize], data[chip.pageSize..];
      Wrapped(chip, memory, addr, data)
      == Wrapped(chip, Put(memory, chip.PageOf(addr), Turned(chip, addr, first)), addr + chip.pageSize, rest)
  {
    hide Put, Turned, Chip.PageOf;
  }

  lemma WrappedPage(chip: Chip, memory: seq<byte>, addr: nat, data: seq<byte>)
    requires chip.Valid() && |data| <= chip.pageSize
    ensures Wrapped(chip, memory, addr, data) == Put(memory, chip.PageOf(addr), Turned(chip, addr, data))
    ensures PageWrites(chip, addr, |data|) == [Write(chip.PageOf(addr))]
  {
  }

  lemma PageOfNext(chip: Chip, addr: nat)
    requires chip.Valid()
    ensures chip.PageOf(addr + chip.pageSize) == chip.PageOf(addr) + chip.pageSize
  {
  }

  /** The last word of the page at hand: the page is written and the next one begun. */
  lemma TurnOver(f: Flash, memory: seq<byte>, addr: nat, data: seq<byte>)
    requires Turning(f, memory, addr, data)
    ensures var written := f.PageWrite(addr);
      var next := written.PageErase(addr + f.chip.pageSize);
      && Turning(next, Put(memory, f.chip.PageOf(addr), Turned(f.chip, addr, data)), addr + f.chip.pageSize, [])
      && next.log == f.log + [Write(f.chip.PageOf(addr)), Erase(f.chip.PageOf(addr) + f.chip.pageSize)]
  {
    hide Turning, RawFlash.PageWrite, RawFlash.PageErase, Chip.PageOf, Put, Turned;
    TurnWrite(f, memory, addr, data);
    TurnBegin(f.PageWrite(addr), addr + f.chip.pageSize);
    PageOfNext(f.chip, addr);
  }

  /** From any point of the loop, the words still to come end up turned in their pages. */
  lemma {:induction false} WriteTurned(f: Flash, memory: seq<byte>, addr: nat, done: seq<byte>, rest: seq<byte>,
                                       e: OutEndpoint)
    requires Turning(f, memory, addr, done) && addr % 2 == 0 && |done| % 2 == 0 && |done| < f.chip.pageSize
    requires rest != [] && |rest| % 2 == 0 && Received(e, |rest| / 2) == Some(rest)
    ensures Finished(WriteWords(f, addr + |done|, addr, |done| / 2, |rest| / 2, e), f.chip, memory, addr, done + rest,
                     f.log + PageWrites(f.chip, addr, |done| + |rest|))
    decreases |rest|
  {
    hide Turning, Turned, Put, Wrapped, PageWrites, Finished, WriteWords, Received,
         Chip.PageOf, Chip.Offset, Chip.Valid, RawFlash.PageErase, RawFlash.PageFill, RawFlash.PageWrite,
         OutEndpoint.Ready, OutEndpoint.Peek, OutEndpoint.Drop, OutEndpoint.Dry;
    var chip := f.chip;
    NextWord(e, rest);
    TurnFill(f, memory, addr, done, rest[0], rest[1]);
    WriteStep(f, addr + |done|, addr, |done| / 2, |rest| / 2, e);
    Counters(chip, |done|, |rest|);
    var filled := f.PageFill(addr + |done|, rest[0], rest[1]);
    var more, tail, out := done + [rest[0], rest[1]], rest[2..], e.Ready().Drop().Drop();
    assert more + tail == done + rest && |more| == |done| + 2 && |tail| == |rest| - 2;
    if |rest| == 2 {
      assert tail == [] && more == done + rest;
      FinishPage(filled, memory, addr, more, out);
    } else if |more| == chip.pageSize {
      TurnOver(filled, memory, addr, more);
      var next := filled.PageWrite(addr).PageErase(addr + chip.pageSize);
      var m := Put(memory, chip.PageOf(addr), Turned(chip, addr, more));
      WriteTurned(next, m, addr + chip.pageSize, [], tail, out);
      assert [] + tail == tail;
      var w := WriteWords(next, addr + chip.pageSize, addr + chip.pageSize, 0, |tail| / 2, out);
      FinishOver(w, filled.log, chip, memory, addr, more, tail);
    } else {
      WriteTurned(filled, memory, addr, more, tail, out);
    }
  }

  lemma FinishPage(f: Flash, memory: seq<byte>, addr: nat, data: seq<byte>, out: OutEndpoint)
    requires Turning(f, memory, addr, data) && |data| <= f.chip.pageSize
    ensures Finished(FlashWrite(f.PageWrite(addr), out, true), f.chip, memory, addr, data,
                     f.log + PageWrites(f.chip, addr, |data|))
  {
    hide Turning, Turned, Put, RawFlash.PageWrite, Chip.PageOf;
    TurnWrite(f, memory, addr, data);
    WrappedPage(f.chip, memory, addr, data);
  }

  lemma FinishOver(w: FlashWrite, log: seq<Event>, chip: Chip, memory: seq<byte>, addr: nat, first: seq<byte>,
                   rest: seq<byte>)
    requires chip.Valid() && |first| == chip.pageSize && rest != []
    requires var page := chip.PageOf(addr);
      Finished(w, chip, Put(memory, page, Turned(chip, addr, first)), addr + chip.pageSize, rest,
               log + [Write(page), Erase(page + chip.pageSize)] + PageWrites(chip, addr + chip.pageSize, |rest|))
    ensures Finished(w, chip, memory, addr, first + rest, log + PageWrites(chip, addr, |first| + |rest|))
  {
    hide Turned, Put, Wrapped, PageWrites, Chip.PageOf;
    WrappedPages(chip, memory, addr, first, rest);
  }

  /** The low bit of an address selects nothing. */
  lemma LowBit(f: Flash, a: nat, low: byte, high: byte)
    requires a % 2 == 0
    ensures f.chip.PageOf(a + 1) == f.chip.PageOf(a)
    ensures f.PageErase(a + 1) == f.PageErase(a) && f.PageWrite(a + 1) == f.PageWrite(a)
    ensures f.PageFill(a + 1, low, high) == f.PageFill(a, low, high)
  {
    hide Chip.PageOf, Chip.Offset, Chip.Valid, Program;
    var page := f.chip.PageOf(a);
    WordInPage(f.chip, a);
    PageOfWithin(f.chip, page, a + 1);
    assert (a + 1 - page) / 2 == (a - page) / 2;
  }

  lemma {:induction false} LowBitIgnored(f: Flash, addr: nat, page: nat, inPage: nat, left: nat, e: OutEndpoint)
    requires addr % 2 == 0 && page % 2 == 0
    ensures WriteWords(f, addr + 1, page + 1, inPage, left, e) == WriteWords(f, addr, page, inPage, left, e)
    decreases left
  {
    hide WriteWords, Chip.PageOf, RawFlash.PageErase, RawFlash.PageFill, RawFlash.PageWrite, OutEndpoint.Ready,
         OutEndpoint.Peek, OutEndpoint.Drop, OutEndpoint.Dry;
    if left == 0 || e.Dry() {
      WriteEnds(f, addr + 1, page + 1, inPage, left, e);
      WriteEnds(f, addr, page, inPage, left, e);
    } else {
      WriteStep(f, addr + 1, page + 1, inPage, left, e);
      WriteStep(f, addr, page, inPage, left, e);
      var low, high := e.Ready().Peek(), e.Ready().Drop().Peek();
      LowBit(f, addr, low, high);
      var filled, rest := f.PageFill(addr, low, high), e.Ready().Drop().Drop();
      LowBit(filled, page, 0, 0);
      if left > 1 {
        if inPage + 1 == f.chip.pageSize / 2 {
          var written := filled.PageWrite(page);
          LowBit(written, addr + 2, 0, 0);
          LowBitIgnored(written.PageErase(addr + 2), addr + 2, addr + 2, 0, left - 1, rest);
        } else {
          LowBitIgnored(filled, addr + 2, page, inPage + 1, left - 1, rest);
        }
      }
    }
  }

  /** The whole loop from a freshly erased page: what arrives goes to the even address. */
  lemma WriteAll(f: Flash, memory: seq<byte>, addr: nat, data: seq<byte>, e: OutEndpoint)
    requires Turning(f, memory, addr - addr % 2, [])
    requires data != [] && |data| % 2 == 0 && Received(e, |data| / 2) == Some(data)
    ensures Finished(WriteWords(f, addr, addr, 0, |data| / 2, e), f.chip, memory, addr - addr % 2, data,
                     f.log + PageWrites(f.chip, addr - addr % 2, |data|))
  {
    hide Turning, Finished, WriteWords, Received, PageWrites, Chip.Offset;
    var even := addr - addr % 2;
    assert even == 2 * (addr / 2);
    Remainder(even, 2, addr / 2, 0);
    WriteTurned(f, memory, even, [], data, e);
    assert [] + data == data;
    if addr % 2 == 1 {
      LowBitIgnored(f, even, even, 0, |data| / 2, e);
    }
  }

  // ---------------------------------------------------------------------------
  // When the data ends up where it was sent
  // ---------------------------------------------------------------------------

  /** Every byte is at its own address. */
  ghost predicate InPlace(m: seq<byte>, addr: nat, data: seq<byte>) {
    addr + |data| <= |m| && m[addr..addr + |data|] == data
  }

  /** From a page boundary the data is stored as it is. */
  lemma {:induction false} WrappedAligned(chip: Chip, memory: seq<byte>, addr: nat, data: seq<byte>)
    requires chip.Valid() && chip.Aligned(addr) && data != []
    ensures Wrapped(chip, memory, addr, data) == Stored(chip, memory, addr, data)
    decreases |data|
  {
    hide Wrapped, Stored, Put, Turned, Chip.PageOf, Chip.Offset;
    var p := chip.pageSize;
    if |data| <= p {
      WrappedPage(chip, memory, addr, data);
      PutAligned(chip, memory, addr, data);
    } else {
      var first, rest := data[..p], data[p..];
      assert data == first + rest;
      WrappedPages(chip, memory, addr, first, rest);
      PutAligned(chip, memory, addr, first);
      PageAfter(chip, addr);
      WrappedAligned(chip, Stored(chip, memory, addr, first), addr + p, rest);
      StoredAppend(chip, memory, addr, first, rest);
    }
  }

  lemma PutAligned(chip: Chip, memory: seq<byte>, addr: nat, data: seq<byte>)
    requires chip.Valid() && chip.Aligned(addr) && 0 < |data| <= chip.pageSize
    ensures Put(memory, chip.PageOf(addr), Turned(chip, addr, data)) == Stored(chip, memory, addr, data)
  {
    hide Chip.PageOf, Chip.Offset, Chip.RoundUp;
    PageOfWithin(chip, addr, addr);
    RoundUpInPage(chip, addr, |data|);
  }

  /** Data that ends in the page it starts in is in place. */
  lemma WrappedInPage(chip: Chip, memory: seq<byte>, addr: nat, data: seq<byte>)
    requires chip.Valid() && addr + |data| <= chip.PageOf(addr) + chip.pageSize && addr + |data| <= |memory|
    ensures InPlace(Wrapped(chip, memory, addr, data), addr, data)
  {
    hide Wrapped, Put, Turned, Chip.PageOf, Chip.Offset, Chip.Valid;
    WrappedPage(chip, memory, addr, data);
    var m := Wrapped(chip, memory, addr, data);
    forall i | 0 <= i < |data|
      ensures m[addr + i] == data[i]
    {
      PutCell(chip, memory, addr, data, addr + i);
    }
  }

  /** A cell of the page once it is written. */
  lemma PutCell(chip: Chip, memory: seq<byte>, addr: nat, data: seq<byte>, i: nat)
    requires chip.Valid() && chip.PageOf(addr) <= i < |memory| && i < chip.PageOf(addr) + chip.pageSize
    ensures var j := if i >= addr then i - addr else i - addr + chip.pageSize;
      Put(memory, chip.PageOf(addr), Turned(chip, addr, data))[i] == if j < |data| then data[j] else ERASED
  {
    hide Chip.PageOf, Chip.Offset, Chip.Valid;
  }

  /** The first cell of the page after the one the data starts in, if the data gets there. */
  lemma NextPageCell(chip: Chip, memory: seq<byte>, addr: nat, data: seq<byte>)
    requires chip.Valid()
    requires var next := chip.PageOf(addr) + chip.pageSize;
      addr > chip.PageOf(addr) && next < addr + |data| <= |memory|
    ensures var next := chip.PageOf(addr) + chip.pageSize;
      var j := next + chip.pageSize - addr;
      Wrapped(chip, memory, addr, data)[next] ==
        if |data| <= chip.pageSize then memory[next] else if j < |data| then data[j] else ERASED
  {
    hide Wrapped, Put, Turned, Chip.PageOf, Chip.Offset, Chip.Valid;
    if |data| <= chip.pageSize {
      WrappedPage(chip, memory, addr, data);
      PutCells(chip, memory, addr, data);
    } else {
      SecondPageCell(chip, memory, addr, data);
    }
  }

  lemma SecondPageCell(chip: Chip, memory: seq<byte>, addr: nat, data: seq<byte>)
    requires chip.Valid() && |data| > chip.pageSize
    requires addr > chip.PageOf(addr) && chip.PageOf(addr) + chip.pageSize < |memory|
    ensures var next := chip.PageOf(addr) + chip.pageSize;
      var j := next + chip.pageSize - addr;
      Wrapped(chip, memory, addr, data)[next] == if j < |data| then data[j] else ERASED
  {
    hide Wrapped, Put, Turned, Chip.PageOf, Chip.Offset, Chip.Valid;
    var p, page := chip.pageSize, chip.PageOf(addr);
    WrappedUnfolds(chip, memory, addr, data);
    PageOfNext(chip, addr);
    FirstCell(chip, Put(memory, page, Turned(chip, addr, data[..p])), addr + p, data[p..]);
    SliceAt(data, p, page + p - addr);
  }

  lemma SliceAt(data: seq<byte>, p: nat, k: nat)
    requires p <= |data|
    ensures |data[p..]| == |data| - p && (p + k < |data| ==> data[p..][k] == data[p + k])
  {
  }

  /** The first cell of the page, and the cells past its end. */
  lemma PutCells(chip: Chip, memory: seq<byte>, addr: nat, data: seq<byte>)
    requires chip.Valid() && addr > chip.PageOf(addr) && chip.PageOf(addr) < |memory|
    ensures var page, j := chip.PageOf(addr), chip.PageOf(addr) + chip.pageSize - addr;
      var m := Put(memory, page, Turned(chip, addr, data));
      && m[page] == (if j < |data| then data[j] else ERASED)
      && forall i :: page + chip.pageSize <= i < |memory| ==> m[i] == memory[i]
  {
    hide Chip.PageOf, Chip.Offset;
  }

  /** The loop comes to each page once, so later pages do not change it. */
  lemma FirstCell(chip: Chip, memory: seq<byte>, addr: nat, data: seq<byte>)
    requires chip.Valid() && data != [] && addr > chip.PageOf(addr) && chip.PageOf(addr) < |memory|
    ensures var page, j := chip.PageOf(addr), chip.PageOf(addr) + chip.pageSize - addr;
      Wrapped(chip, memory, addr, data)[page] == if j < |data| then data[j] else ERASED
  {
    hide Wrapped, Put, Turned, PageWrites, Chip.PageOf, Chip.Offset, Chip.Valid;
    var p, page := chip.pageSize, chip.PageOf(addr);
    if |data| <= p {
      WrappedPage(chip, memory, addr, data);
      PutCells(chip, memory, addr, data);
    } else {
      var first, rest := data[..p], data[p..];
      WrappedUnfolds(chip, memory, addr, data);
      PutCells(chip, memory, addr, first);
      PageOfNext(chip, addr);
      WrappedBefore(chip, Put(memory, page, Turned(chip, addr, first)), addr + p, rest, page);
    }
  }

  lemma {:induction false} WrappedBefore(chip: Chip, memory: seq<byte>, addr: nat, data: seq<byte>, i: nat)
    requires chip.Valid() && i < chip.PageOf(addr) && i < |memory|
    ensures Wrapped(chip, memory, addr, data)[i] == memory[i]
    decreases |data|
  {
    hide Wrapped, Turned, Chip.PageOf, Chip.Offset;
    if |data| <= chip.pageSize {
      WrappedPage(chip, memory, addr, data);
    } else {
      var first, rest := data[..chip.pageSize], data[chip.pageSize..];
      WrappedUnfolds(chip, memory, addr, data);
      PageOfNext(chip, addr);
      WrappedBefore(chip, Put(memory, chip.PageOf(addr), Turned(chip, addr, first)), addr + chip.pageSize, rest, i);
    }
  }

  /** A byte other than the three that could stand there by chance. */
  function Unlike(a: byte, b: byte, c: byte): (r: byte)
    ensures r != a && r != b && r != c
  {
    if 0 !in {a, b, c} then 0 else if 1 !in {a, b, c} then 1 else if 2 !in {a, b, c} then 2 else 3
  }

  /** Some data of every length that runs over the end of its page is not in place. */
  lemma Misplaced(chip: Chip, memory: seq<byte>, addr: nat, n: nat) returns (data: seq<byte>)
    requires chip.Valid() && addr > chip.PageOf(addr)
    requires chip.PageOf(addr) + chip.pageSize < addr + n <= |memory|
    ensures |data| == n && !InPlace(Wrapped(chip, memory, addr, data), addr, data)
  {
    hide Wrapped, InPlace, Chip.PageOf, Chip.Offset;
    var next := chip.PageOf(addr) + chip.pageSize;
    var b := Unlike(memory[next], ERASED, 0);
    data := seq(n, i => if i == next - addr then b else 0);
    NextPageCell(chip, memory, addr, data);
    NotInPlace(Wrapped(chip, memory, addr, data), addr, data, next);
  }

  /**
   * All words of a length that the loop reads end up in place if and only if they start at
   * a page boundary or end in the page they start in.
   */
  lemma InPlaceExact(chip: Chip, memory: seq<byte>, addr: nat, n: nat)
    requires chip.Valid() && 0 < n && addr + n <= |memory| && addr % 2 == 0 && n % 2 == 0
    ensures (forall data: seq<byte> :: |data| == n ==> InPlace(Wrapped(chip, memory, addr, data), addr, data))
       <==> chip.Aligned(addr) || addr + n <= chip.PageOf(addr) + chip.pageSize
  {
    hide Wrapped, InPlace, Chip.PageOf, Chip.Offset;
    if chip.Aligned(addr) || addr + n <= chip.PageOf(addr) + chip.pageSize {
      forall data: seq<byte> | |data| == n
        ensures InPlace(Wrapped(chip, memory, addr, data), addr, data)
      {
        WrappedInPlace(chip, memory, addr, data);
      }
    } else {
      var data := Misplaced(chip, memory, addr, n);
    }
  }

  lemma WrappedInPlace(chip: Chip, memory: seq<byte>, addr: nat, data: seq<byte>)
    requires chip.Valid() && data != [] && addr + |data| <= |memory|
    requires chip.Aligned(addr) || addr + |data| <= chip.PageOf(addr) + chip.pageSize
    ensures InPlace(Wrapped(chip, memory, addr, data), addr, data)
  {
    hide Wrapped, InPlace, Stored, Chip.PageOf, Chip.Offset;
    if chip.Aligned(addr) {
      WrappedAligned(chip, memory, addr, data);
      StoredInPlace(chip, memory, addr, data);
    } else {
      WrappedInPage(chip, memory, addr, data);
    }
  }

  lemma StoredInPlace(chip: Chip, memory: seq<byte>, addr: nat, data: seq<byte>)
    requires chip.Valid() && addr + |data| <= |memory|
    ensures InPlace(Stored(chip, memory, addr, data), addr, data)
  {
    hide Chip.RoundUp;
  }

  lemma NotInPlace(m: seq<byte>, addr: nat, data: seq<byte>, i: nat)
    requires addr <= i < addr + |data| <= |m| && m[i] != data[i - addr]
    ensures !InPlace(m, addr, data)
  {
    assert m[addr..addr + |data|][i - addr] == m[i];
  }

  /** A cell is erased, as it was, or one of the bytes. */
  lemma {:induction false} WrappedCell(chip: Chip, memory: seq<byte>, addr: nat, data: seq<byte>, i: nat)
    requires chip.Valid() && i < |memory|
    ensures var b := Wrapped(chip, memory, addr, data)[i];
      b == ERASED || b == memory[i] || b in data
    decreases |data|
  {
    hide Wrapped, Chip.PageOf, Chip.Offset;
    if |data| <= chip.pageSize {
      WrappedPage(chip, memory, addr, data);
    } else {
      var first, rest := data[..chip.pageSize], data[chip.pageSize..];
      WrappedUnfolds(chip, memory, addr, data);
      WrappedCell(chip, Put(memory, chip.PageOf(addr), Turned(chip, addr, first)), addr + chip.pageSize, rest, i);
    }
  }

  /** Data of up to a page that runs over the end of its page: the tail is put at the front. */
  lemma TailAtFront(chip: Chip, memory: seq<byte>, addr: nat, data: seq<byte>)
    requires chip.Valid() && |data| <= chip.pageSize && addr % 2 == 0 && |data| % 2 == 0
    requires chip.PageOf(addr) + chip.pageSize < addr + |data| <= |memory|
    ensures var page, m := chip.PageOf(addr), Wrapped(chip, memory, addr, data);
      && (forall i :: page <= i < addr + |data| - chip.pageSize ==> m[i] == data[i + chip.pageSize - addr])
      && (forall i :: page + chip.pageSize <= i < |memory| ==> m[i] == memory[i])
  {
    hide Wrapped, Put, Turned, Chip.PageOf, Chip.Offset, Chip.Valid;
    WrappedPage(chip, memory, addr, data);
    PutCells(chip, memory, addr, data);
    var page, m := chip.PageOf(addr), Wrapped(chip, memory, addr, data);
    forall i | page <= i < addr + |data| - chip.pageSize
      ensures m[i] == data[i + chip.pageSize - addr]
    {
      PutCell(chip, memory, addr, data, i);
    }
  }
}
