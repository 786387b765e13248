/** Erasing the application section and checking that it is blank. */
module DfuBlank {
  import opened Bytes
  import opened FlashMemory
  import opened Endpoints
  import opened Dfu

  // ---------------------------------------------------------------------------
  // The page buffer between requests
  // ---------------------------------------------------------------------------

  lemma ProcessKeepsBlank(d: Device)
    requires d.flash.BufferBlank()
    ensures Process(d).flash.BufferBlank()
  {
    hide EraseFrom;
  }

  lemma FinishKeepsBlank(d: Device, e: OutEndpoint)
    requires d.flash.BufferBlank() && !FinishDownload(d, e).1
    ensures FinishDownload(d, e).0.flash.BufferBlank()
  {
    hide WriteWords, WriteEeprom, Discard;
  }

  lemma RunCommandKeepsBlank(d: Device, packets: seq<seq<byte>>)
    requires packets != [] && d.flash.BufferBlank() && !RunCommand(d, packets).1.detached
    ensures RunCommand(d, packets).0.flash.BufferBlank()
  {
    hide Process, FinishDownload, TakeCommand;
    var e := OutEndpoint(packets[0], packets[1..]);
    TakeCommandKeepsFlash(d, e);
    ProcessKeepsBlank(TakeCommand(d, e));
    FinishKeepsBlank(Process(TakeCommand(d, e)), AfterCommand(e));
  }

  lemma HandleKeepsBlank(d: Device, r: Request)
    requires d.flash.BufferBlank() && !Handle(d, r).1.detached
    ensures Handle(d, r).0.flash.BufferBlank()
  {
    hide Process, FinishDownload, RunCommand, DataStage, UploadBytes;
    if r.Dnload? {
      var sized := d.(dataSize := r.length);
      ProcessKeepsBlank(sized);
      if FinishExit(sized).dataSize == 0 {
        FinishKeepsBlank(FinishExit(sized), OutEndpoint([], []));
      } else if r.packets != [] {
        RunCommandKeepsBlank(FinishExit(sized), r.packets);
      }
    }
  }

  lemma TakeCommandKeepsFlash(d: Device, e: OutEndpoint)
    ensures TakeCommand(d, e).flash == d.flash
  {
  }

  /** Over every run in which no request is cut short, each request starts with an empty buffer. */
  lemma {:induction false} BufferBlankBetweenRequests(d: Device, rs: seq<Request>)
    requires d.flash.BufferBlank()
    requires forall i :: 0 <= i < |HandleAll(d, rs).1| ==> !HandleAll(d, rs).1[i].detached
    ensures HandleAll(d, rs).0.flash.BufferBlank()
    decreases |rs|
  {
    if rs != [] {
      hide Handle;
      var first := Handle(d, rs[0]);
      var rest := HandleAll(first.0, rs[1..]);
      assert HandleAll(d, rs).1[0] == first.1;
      assert HandleAll(d, rs).1[1..] == rest.1;
      HandleKeepsBlank(d, rs[0]);
      BufferBlankBetweenRequests(first.0, rs[1..]);
    }
  }

  // ---------------------------------------------------------------------------
  // The two commands as requests
  // ---------------------------------------------------------------------------

  /** A request that carries nothing but the given command bytes. */
  function Plain(command: seq<byte>): Request
    requires 2 <= |command| <= 6
  {
    Dnload(|command|, [command])
  }

  lemma HandlePlain(d: Device, command: seq<byte>)
    requires 2 <= |command| <= 6 && !d.waitForExit && d.state != DnloadIdle
    requires command[0] != COMMAND_PROG_START || d.secure || command[1] > 0x01
    ensures var e := OutEndpoint(command, []);
      var c := TakeCommand(d.(dataSize := |command|), e);
      && Handle(d, Plain(command)) == (Process(c), Reply([], Rejected(c), false))
      && c == d.(command := command[0], data := c.data, dataSize := 0)
      && c.data[..|command| - 1] == command[1..] && c.data[|command| - 1..] == d.data[|command| - 1..]
  {
    hide EraseFrom, Programmed, UploadBytes;
    var e := OutEndpoint(command, []);
    assert [command][0] == command && [command][1..] == [];
    var bank := e.Drop().bank;
    assert bank == command[1..];
    var n := |command| - 1;
    var c := TakeCommand(d.(dataSize := |command|), e);
    assert Min(5, |bank|) == n && bank[..n] == command[1..];
    assert c.data == command[1..] + d.data[n..];
    assert AfterCommand(e) == OutEndpoint([], []) && c.data[0] == command[1];
    assert Process(c).state != DnloadIdle;
  }

  const BLANK_CHECK: seq<byte> := [COMMAND_DISP_DATA, 0x01]
  const ERASE: seq<byte> := [COMMAND_WRITE, 0x00, 0xFF]

  ghost predicate ApplicationBlank(f: Flash) {
    forall i :: 0 <= i < f.chip.bootStart ==> f.memory[i] == ERASED
  }

  /** A device that has accepted every command so far and has no transfer open. */
  ghost predicate Waiting(d: Device) {
    d.state == Idle && d.status == Ok && !d.waitForExit
  }

  /**
   * The blank check fails exactly when some application cell is programmed; it then keeps
   * the least such address, whose low half the next upload reports.
   */
  lemma BlankCheckExact(d: Device, length: word)
    requires Waiting(d) && !d.secure
    ensures var r := Handle(d, Plain(BLANK_CHECK)).0;
      && r.flash == d.flash
      && (r.status == ErrCheckErased <==> !ApplicationBlank(d.flash))
      && (r.status != ErrCheckErased ==> r.state == Idle && r.status == Ok)
      && (r.status == ErrCheckErased ==>
            var a := r.page64 * 0x10000 + r.startAddr;
            && r.state == Error && a < d.flash.chip.bootStart && d.flash.memory[a] != ERASED
            && (forall i :: 0 <= i < a ==> d.flash.memory[i] == ERASED)
            && Handle(r, Upload(length)).1.packets == [[a % 0x100, a / 0x100 % 0x100]])
  {
    hide Handle;
    HandlePlain(d, BLANK_CHECK);
    var c := TakeCommand(d.(dataSize := 2), OutEndpoint(BLANK_CHECK, []));
    assert c.data[0] == c.data[..1][0] == 0x01;
    assert Process(c) == BlankCheck(c);
    var r := BlankCheck(c);
    var found := FirstProgrammed(d.flash.memory, 0, d.flash.chip.bootStart);
    if found.Some? {
      SplitAddress(found.value);
      UploadAddress(r, length);
      LowBytes(found.value);
    }
  }

  lemma SplitAddress(a: nat)
    requires a < 0x100_0000
    ensures Wrap8(a / 0x10000) * 0x10000 + Wrap16(a) == a
  {
  }

  lemma UploadAddress(d: Device, length: word)
    requires d.state == Error && d.data[0] == 0x01
    ensures Handle(d, Upload(length)).1.packets == [LittleEndian(d.startAddr)]
  {
  }

  lemma LowBytes(a: nat)
    ensures LittleEndian(Wrap16(a)) == [a % 0x100, a / 0x100 % 0x100]
  {
    Remainder(a, 0x100, a / 0x100, Wrap16(a) % 0x100);
  }

  /**
   * The erase command is accepted locked or not, unlocks the device and leaves the boot
   * section alone. It blanks the application section, and a check right after it succeeds,
   * if and only if no words were left in the page buffer.
   */
  lemma EraseThenBlankCheck(d: Device)
    requires Waiting(d)
    ensures var erased := Handle(d, Plain(ERASE));
      && erased.1 == Reply([], false, false) && !erased.0.secure
      && ErasedButFor(erased.0.flash, d.flash.memory, d.flash.buffer)
      && (ApplicationBlank(erased.0.flash) <==> d.flash.chip.bootStart == 0 || d.flash.BufferBlank())
      && (Handle(erased.0, Plain(BLANK_CHECK)).0.status == Ok <==> d.flash.chip.bootStart == 0 || d.flash.BufferBlank())
  {
    hide Handle, EraseFrom, ErasedButFor, ApplicationBlank;
    HandlePlain(d, ERASE);
    var c := TakeCommand(d.(dataSize := 3), OutEndpoint(ERASE, []));
    assert c.data[0] == c.data[..2][0] == 0x00 && c.data[1] == c.data[..2][1] == 0xFF;
    EraseWritesBuffer(d.flash);
    var erased := Handle(d, Plain(ERASE)).0;
    assert erased == c.(flash := EraseFrom(d.flash, 0).RwwEnable(), secure := false);
    EnableKeeps(EraseFrom(d.flash, 0), d.flash.memory, d.flash.buffer);
    BlankButFor(erased.flash, d.flash);
    BlankCheckExact(erased, 0);
  }

  lemma EnableKeeps(f: Flash, memory: seq<byte>, buffer: seq<byte>)
    requires ErasedButFor(f, memory, buffer)
    ensures ErasedButFor(f.RwwEnable(), memory, buffer)
  {
  }

  lemma BlankButFor(f: Flash, before: Flash)
    requires f.chip == before.chip && ErasedButFor(f, before.memory, before.buffer)
    ensures ApplicationBlank(f) <==> f.chip.bootStart == 0 || before.BufferBlank()
  {
    hide Chip.Offset;
    if f.chip.bootStart > 0 {
      ZeroAligned(f.chip);
      WholePages(f.chip, 0);
      if ApplicationBlank(f) {
        assert forall i :: 0 <= i < f.chip.pageSize ==> before.buffer[i] == f.memory[i];
        assert before.buffer == Blank(f.chip.pageSize);
      }
    }
  }

  /** After a run in which no request was cut short, an erase and a check succeed. */
  lemma EraseAfterWholeRequests(d: Device, rs: seq<Request>)
    requires d.flash.BufferBlank() && Waiting(HandleAll(d, rs).0)
    requires forall i :: 0 <= i < |HandleAll(d, rs).1| ==> !HandleAll(d, rs).1[i].detached
    ensures var erased := Handle(HandleAll(d, rs).0, Plain(ERASE)).0;
      ApplicationBlank(erased.flash) && Handle(erased, Plain(BLANK_CHECK)).0.status == Ok
  {
    hide Handle, HandleAll, ApplicationBlank;
    BufferBlankBetweenRequests(d, rs);
    EraseThenBlankCheck(HandleAll(d, rs).0);
  }
}
