/** Starting the application, clearing an error, and reading the information tables. */
module DfuCommands {
  import opened Bytes
  import opened FlashMemory
  import opened Endpoints
  import opened Dfu
  import opened DfuBlank
  import DfuPages
  import DfuImage

  // ---------------------------------------------------------------------------
  // What ends the bootloader
  // ---------------------------------------------------------------------------

  /** No application: the first word of the flash is erased. */
  predicate ResetVectorBlank(f: Flash) { f.Read(0) == ERASED && f.Read(1) == ERASED }

  /** The command at hand is a start by jump with no data left, and it is let through. */
  predicate StartsByJump(d: Device) {
    !d.secure && d.command == COMMAND_WRITE && d.data[0] == 0x03 && d.data[1] != 0x00 && d.dataSize == 0
  }

  lemma ProcessRunning(d: Device)
    ensures Process(d).running <==> d.running && !(StartsByJump(d) && ResetVectorBlank(d.flash))
  {
    hide EraseFrom, RawFlash.PageErase, RawFlash.RwwEnable, FirstProgrammed;
  }

  /** The states in which a request has its command processed: a pending exit, then its own. */
  function Processed(before: Device, r: Request): seq<Device> {
    if !r.Dnload? then []
    else
      var d := before.(dataSize := r.length);
      var e := FinishExit(d);
      (if d.waitForExit then [d] else []) +
      (if e.dataSize == 0 || r.packets == [] then [] else [TakeCommand(e, OutEndpoint(r.packets[0], r.packets[1..]))])
  }

  /** The request stops the bootloader: it starts by jump while no application is there. */
  predicate Stops(d: Device, r: Request) {
    exists c :: c in Processed(d, r) && StartsByJump(c) && ResetVectorBlank(c.flash)
  }

  lemma FinishRunning(d: Device, e: OutEndpoint)
    ensures FinishDownload(d, e).0.running == d.running
  {
    hide WriteWords, WriteEeprom, Discard, BytesRemaining;
  }

  lemma CommandRunning(d: Device, packets: seq<seq<byte>>)
    requires packets != []
    ensures var c := TakeCommand(d, OutEndpoint(packets[0], packets[1..]));
      RunCommand(d, packets).0.running <==> d.running && !(StartsByJump(c) && ResetVectorBlank(c.flash))
  {
    hide Process, FinishDownload, StartsByJump, ResetVectorBlank, CountDown;
    var e := OutEndpoint(packets[0], packets[1..]);
    var c := TakeCommand(d, e);
    ProcessRunning(c);
    FinishRunning(Process(c), AfterCommand(e));
  }

  lemma HandleRunning(d: Device, r: Request)
    ensures Handle(d, r).0.running <==> d.running && !Stops(d, r)
  {
    hide Process, FinishDownload, RunCommand, TakeCommand, StartsByJump, ResetVectorBlank, DataStage, UploadBytes;
    if r.Dnload? {
      var sized := d.(dataSize := r.length);
      var e := FinishExit(sized);
      ProcessRunning(sized);
      FinishRunning(e, OutEndpoint([], []));
      assert sized.waitForExit ==> Processed(d, r)[0] == sized;
      if e.dataSize != 0 && r.packets != [] {
        CommandRunning(e, r.packets);
        assert Processed(d, r)[|Processed(d, r)| - 1] == TakeCommand(e, OutEndpoint(r.packets[0], r.packets[1..]));
      }
    }
  }

  /**
   * Over every sequence of requests, the bootloader has ended if and only if one of them
   * processed a start by jump while the reset vector was blank.
   */
  lemma {:induction false} StopsExactly(d: Device, rs: seq<Request>)
    ensures !HandleAll(d, rs).0.running <==>
            !d.running || exists k :: 0 <= k < |rs| && Stops(HandleAll(d, rs[..k]).0, rs[k])
    decreases |rs|
  {
    hide Handle, Stops;
    if rs != [] {
      var n := |rs| - 1;
      var front := rs[..n];
      LastRequest(d, rs);
      StopsExactly(d, front);
      HandleRunning(HandleAll(d, front).0, rs[n]);
      assert forall k :: 0 <= k < n ==> front[..k] == rs[..k];
    }
  }

  lemma {:induction false} LastRequest(d: Device, rs: seq<Request>)
    requires rs != []
    ensures HandleAll(d, rs).0 == Handle(HandleAll(d, rs[..|rs| - 1]).0, rs[|rs| - 1]).0
    decreases |rs|
  {
    hide Handle;
    if |rs| > 1 {
      assert rs[1..][..|rs| - 2] == rs[..|rs| - 1][1..];
      LastRequest(Handle(d, rs[0]).0, rs[1..]);
    }
  }

  /** The command that starts the application by a jump to an address. */
  function JumpCommand(high: byte, low: byte): seq<byte> { [COMMAND_WRITE, 0x03, 0x01, high, low] }

  /** An unlocked device with no download open and no exit pending. */
  ghost predicate Ready(d: Device) { !d.secure && !d.waitForExit && d.state != DnloadIdle }

  /**
   * A jump to the application, and the empty download that completes it, end the
   * bootloader if and only if there is no application to jump to.
   */
  lemma JumpStartExact(d: Device, high: byte, low: byte)
    requires Ready(d) && d.running
    ensures var asked := Handle(d, Plain(JumpCommand(high, low))).0;
      var done := Handle(asked, Dnload(0, [])).0;
      && asked.running == done.running && done.flash == d.flash && asked.waitForExit && !done.waitForExit
      && (!done.running <==> ResetVectorBlank(d.flash))
  {
    hide Handle, ResetVectorBlank;
    var command := JumpCommand(high, low);
    HandlePlain(d, command);
    var c := TakeCommand(d.(dataSize := |command|), OutEndpoint(command, []));
    assert c.data[0] == c.data[..4][0] == 0x03 && c.data[1] == c.data[..4][1] == 0x01;
    ProcessRunning(c);
    var asked := Handle(d, Plain(command)).0;
    assert asked == Process(c) == c.(waitForExit := true, running := asked.running);
    FinishJump(asked);
  }

  lemma FinishJump(d: Device)
    requires d.waitForExit && !d.secure && d.state != DnloadIdle && d.command == COMMAND_WRITE
    requires d.data[0] == 0x03 && d.data[1] == 0x01 && (d.running <==> !ResetVectorBlank(d.flash))
    ensures var done := Handle(d, Dnload(0, [])).0;
      done.running == d.running && done.flash == d.flash && !done.waitForExit
  {
    hide EraseFrom, MemProg, MemRead, ReadCommand, UploadBytes, Programmed;
    var sized := d.(dataSize := 0);
    ProcessRunning(sized);
    assert Process(sized) == sized.(running := Process(sized).running);
  }

  /** An application just loaded at address 0 is not started by a jump. */
  lemma LoadedApplicationRefused(d: Device, length: word, packets: seq<seq<byte>>, data: seq<byte>, high: byte,
                                 low: byte)
    requires DfuImage.Available(d) && d.running && d.page64 == 0 && length > 6
    requires DfuImage.ProgramPackets(packets, 0, data) && |data| <= d.flash.chip.size && data[0] != ERASED
    ensures var loaded := Handle(Handle(d, Dnload(length, packets)).0, Dnload(0, [])).0;
      Handle(Handle(loaded, Plain(JumpCommand(high, low))).0, Dnload(0, [])).0.running
  {
    hide Handle, Stored, DfuImage.ProgramPackets, DfuPages.PageWrites, DfuPages.Wrapped, StartsByJump;
    DfuImage.PacketBounds(packets, 0, data);
    ZeroAligned(d.flash.chip);
    DfuImage.ProgramImage(d, length, packets, 0, data);
    var programmed := Handle(d, Dnload(length, packets)).0;
    ProgramKeepsRunning(d, length, packets, data);
    CloseDownload(programmed);
    var loaded := Handle(programmed, Dnload(0, [])).0;
    var words := DfuImage.WholeWords(data);
    StoredCells(programmed.flash, d.flash.memory, 0, words, 1);
    assert words[..1][0] == programmed.flash.Read(0 + 0);
    JumpStartExact(loaded, high, low);
  }

  lemma ProgramKeepsRunning(d: Device, length: word, packets: seq<seq<byte>>, data: seq<byte>)
    requires !d.waitForExit && length != 0 && DfuImage.ProgramPackets(packets, 0, data)
    ensures Handle(d, Dnload(length, packets)).0.running == d.running
  {
    hide Handle, OutEndpoint.Carries, OutEndpoint.Pending, CountDown;
    HandleRunning(d, Dnload(length, packets));
    assert packets[0][..6][0] == COMMAND_PROG_START;
  }

  /** An empty download closes the one before it. */
  lemma CloseDownload(d: Device)
    requires !d.waitForExit
    ensures var r := Handle(d, Dnload(0, [])).0;
      r == d.(dataSize := 0, state := if d.state == DnloadIdle then Idle else d.state)
  {
    hide Process, UploadBytes, Programmed;
  }

  // ---------------------------------------------------------------------------
  // Leaving the error state
  // ---------------------------------------------------------------------------

  /** An upload ends a pending one; without one it returns the response byte. */
  lemma UploadExact(d: Device, length: word)
    ensures var r := Handle(d, Upload(length));
      && r.0 == d.(dataSize := length, startAddr := r.0.startAddr,
                   state := if d.state == UploadIdle then Idle else d.state)
      && (d.state != UploadIdle ==> r.0.startAddr == d.startAddr)
      && (d.state != UploadIdle && !(d.state == Error && d.data[0] == 0x01) ==> r.1.packets == [[d.response]])
      && (d.state == UploadIdle && d.data[0] != 0x00 && d.data[0] != 0x02 ==>
            r.1.packets == [[]] && r.0.startAddr == d.startAddr)
  {
    hide Download, ReadFlash, ReadEeprom;
  }

  lemma WithoutDownload(d: Device, r: Request)
    requires !r.Dnload? && d.state in {Idle, Error}
    ensures Handle(d, r).0 == d.(dataSize := r.length, state := if r.Abort? then Idle else d.state,
                                 status := if r.ClrStatus? then Ok else d.status)
  {
    hide UploadBytes, DataStage;
  }

  /** Clearing the status leaves the device idle exactly if it was idle. */
  lemma ClearStatusExact(d: Device, length: word)
    ensures var r := Handle(d, ClrStatus(length)).0;
      r.status == Ok && (r.state == Idle <==> d.state == Idle)
  {
  }

  /** Without a download, a device in the error state leaves it exactly by an abort. */
  lemma {:induction false} LeavesErrorByAbort(d: Device, rs: seq<Request>)
    requires d.state in {Idle, Error} && forall i :: 0 <= i < |rs| ==> !rs[i].Dnload?
    ensures HandleAll(d, rs).0.state == Error <==>
            d.state == Error && forall i :: 0 <= i < |rs| ==> !rs[i].Abort?
    ensures HandleAll(d, rs).0.status
         == if exists i :: 0 <= i < |rs| && rs[i].ClrStatus? then Ok else d.status
    decreases |rs|
  {
    hide Handle;
    if rs != [] {
      WithoutDownload(d, rs[0]);
      assert forall i :: 0 <= i < |rs[1..]| ==> rs[1..][i] == rs[i + 1];
      assert forall i :: 0 < i < |rs| ==> rs[i] == rs[1..][i - 1];
      LeavesErrorByAbort(Handle(d, rs[0]).0, rs[1..]);
    }
  }

  /** After a failed blank check the status can be cleared; the error state stays. */
  lemma ClearAfterFailedCheck(d: Device, length: word)
    requires Waiting(d) && !d.secure && !ApplicationBlank(d.flash)
    ensures var cleared := Handle(Handle(d, Plain(BLANK_CHECK)).0, ClrStatus(length)).0;
      && cleared.status == Ok && cleared.state == Error
      && Handle(cleared, GetStatus(6)).1.packets == [[0, 0, 0, 0, 10, 0]]
  {
    BlankCheckExact(d, 0);
    ClearAndAsk(Handle(d, Plain(BLANK_CHECK)).0, length);
  }

  lemma ClearAndAsk(d: Device, length: word)
    requires d.state == Error
    ensures var cleared := Handle(d, ClrStatus(length)).0;
      && cleared.status == Ok && cleared.state == Error
      && Handle(cleared, GetStatus(6)).1.packets == [[0, 0, 0, 0, 10, 0]]
  {
    hide UploadBytes, DataStage, Download;
  }

  // ---------------------------------------------------------------------------
  // Information tables
  // ---------------------------------------------------------------------------

  /** The reply to an information read and an upload, if the index is in the table. */
  ghost predicate Replies(d: Device, table: byte, index: byte, length: word, b: byte) {
    var r := Handle(d, Plain([0x05, table, index])).0;
    r.state == d.state && r.status == d.status && Handle(r, Upload(length)).1.packets == [[b]]
  }

  /**
   * Locked or not, an information read followed by an upload returns the byte the table
   * has at the index: version and identification in table 0, the signature in table 1. Any
   * other index is an address error. No memory changes.
   */
  lemma InformationExact(d: Device, table: byte, index: byte, length: word)
    requires d.state == Idle && !d.waitForExit && table <= 1
    ensures var r := Handle(d, Plain([0x05, table, index]));
      r.1 == Reply([], false, false) && r.0.flash == d.flash && r.0.eeprom == d.eeprom
    ensures table == 0 && index == 0 ==> Replies(d, table, index, length, 0x20)
    ensures table == 0 && index == 1 ==> Replies(d, table, index, length, 0xDC)
    ensures table == 0 && index == 2 ==> Replies(d, table, index, length, 0xFB)
    ensures table == 1 && index == 0x30 ==> Replies(d, table, index, length, 0x58)
    ensures table == 1 && index == 0x31 ==> Replies(d, table, index, length, d.signature[0])
    ensures table == 1 && index == 0x60 ==> Replies(d, table, index, length, d.signature[1])
    ensures table == 1 && index == 0x61 ==> Replies(d, table, index, length, d.signature[2])
    ensures (table == 0 && index > 2) || (table == 1 && index !in {0x30, 0x31, 0x60, 0x61}) ==>
            Reports(Handle(d, Plain([0x05, table, index])).0, 8, 10)
  {
    hide Handle;
    var command := [0x05, table, index];
    HandlePlain(d, command);
    var c := TakeCommand(d.(dataSize := 3), OutEndpoint(command, []));
    assert c.data[0] == c.data[..2][0] == table && c.data[1] == c.data[..2][1] == index;
    assert !Rejected(c) && Process(c) == ReadCommand(c);
    if Process(c).state == Idle {
      UploadResponse(Process(c), length);
    } else {
      StatusBytes(Process(c));
    }
  }

  lemma UploadResponse(d: Device, length: word)
    requires d.state == Idle
    ensures Handle(d, Upload(length)).1.packets == [[d.response]]
  {
    hide Download;
  }

  // ---------------------------------------------------------------------------
  // Status and state as the host sees them
  // ---------------------------------------------------------------------------

  /** A status request is answered with this status and state, a state request with the state. */
  ghost predicate Reports(d: Device, status: byte, state: byte) {
    && Handle(d, GetStatus(6)).1 == Reply([[status, 0, 0, 0, state, 0]], false, false)
    && Handle(d, GetState(1)).1 == Reply([[state]], false, false)
  }

  /** The codes of the USB DFU class. */
  lemma StatusBytes(d: Device)
    ensures var status := if d.status == Ok then 0 else if d.status == ErrWrite then 3
                          else if d.status == ErrCheckErased then 5 else 8;
      var state := if d.state == Idle then 2 else if d.state == DnloadIdle then 5
                   else if d.state == UploadIdle then 9 else 10;
      Reports(d, status, state)
  {
    hide UploadBytes, DataStage, Download;
  }

  // ---------------------------------------------------------------------------
  // Locked devices
  // ---------------------------------------------------------------------------

  /** The erase command and information reads are let through a lock. */
  predicate Permitted(command: seq<byte>)
    requires |command| >= 3
  {
    command[0] == 0x05 || (command[0] == 0x04 && command[1] == 0x00 && command[2] == 0xFF)
  }

  /** A locked device stalls every other command, reports a write error and changes nothing else. */
  lemma LockedRejects(d: Device, command: seq<byte>)
    requires d.secure && !d.waitForExit && d.state != DnloadIdle && 3 <= |command| <= 6
    ensures var r := Handle(d, Plain(command));
      && r.1.stalled == !Permitted(command)
      && (r.1.stalled ==>
            && r.0 == d.(command := r.0.command, data := r.0.data, dataSize := 0, state := Error, status := ErrWrite)
            && Reports(r.0, 3, 10))
  {
    hide Handle, WriteCommand, ReadCommand, MemProg, MemRead;
    HandlePlain(d, command);
    var c := TakeCommand(d.(dataSize := |command|), OutEndpoint(command, []));
    var n := |command| - 1;
    assert c.data[0] == c.data[..n][0] == command[1] && c.data[1] == c.data[..n][1] == command[2];
    if Rejected(c) {
      StatusBytes(Process(c));
    }
  }

  /** The lock refuses the command at hand. */
  predicate Refused(d: Device) {
    d.secure && d.command != 0x05 && !(d.command == 0x04 && d.data[0] == 0x00 && d.data[1] == 0xFF)
  }

  /** A request stalls if and only if the lock refuses a command it processes. */
  lemma StallsExactly(d: Device, r: Request)
    ensures Handle(d, r).1.stalled <==> exists c :: c in Processed(d, r) && Refused(c)
  {
    hide Process, FinishDownload, TakeCommand, DataStage, UploadBytes, Rejected, Refused;
    if r.Dnload? {
      var sized := d.(dataSize := r.length);
      var e := FinishExit(sized);
      SameRefusal(sized);
      assert sized.waitForExit ==> Processed(d, r)[0] == sized;
      if e.dataSize != 0 && r.packets != [] {
        var c := TakeCommand(e, OutEndpoint(r.packets[0], r.packets[1..]));
        SameRefusal(c);
        assert Processed(d, r)[|Processed(d, r)| - 1] == c;
      }
    }
  }

  lemma SameRefusal(d: Device)
    ensures Rejected(d) <==> Refused(d)
  {
  }

  /** Over every run a locked device has no exit pending, so no pending exit is ever refused. */
  lemma {:induction false} LockedNeverExits(d: Device, rs: seq<Request>)
    requires !(d.secure && d.waitForExit)
    ensures !(HandleAll(d, rs).0.secure && HandleAll(d, rs).0.waitForExit)
    decreases |rs|
  {
    if rs != [] {
      hide Handle;
      HandleKeepsExit(d, rs[0]);
      LockedNeverExits(Handle(d, rs[0]).0, rs[1..]);
    }
  }

  lemma HandleKeepsExit(d: Device, r: Request)
    requires !(d.secure && d.waitForExit)
    ensures !(Handle(d, r).0.secure && Handle(d, r).0.waitForExit)
  {
    hide Process, FinishDownload, TakeCommand, DataStage, UploadBytes;
    if r.Dnload? {
      var sized := d.(dataSize := r.length);
      var e := FinishExit(sized);
      FinishKeepsExit(e, OutEndpoint([], []));
      if e.dataSize != 0 && r.packets != [] {
        var out := OutEndpoint(r.packets[0], r.packets[1..]);
        TakeKeepsExit(e, out);
        ProcessKeepsExit(TakeCommand(e, out));
        FinishKeepsExit(Process(TakeCommand(e, out)), AfterCommand(out));
      }
    }
  }

  lemma TakeKeepsExit(d: Device, e: OutEndpoint)
    ensures TakeCommand(d, e).secure == d.secure && TakeCommand(d, e).waitForExit == d.waitForExit
  {
  }

  lemma ProcessKeepsExit(d: Device)
    requires !(d.secure && d.waitForExit)
    ensures !(Process(d).secure && Process(d).waitForExit)
  {
    hide EraseFrom, RawFlash.PageErase, FirstProgrammed;
  }

  lemma FinishKeepsExit(d: Device, e: OutEndpoint)
    ensures var r := FinishDownload(d, e).0;
      r.secure == d.secure && r.waitForExit == d.waitForExit
  {
    hide WriteWords, WriteEeprom, Discard, BytesRemaining;
  }

  // ---------------------------------------------------------------------------
  // Commands that do nothing
  // ---------------------------------------------------------------------------

  /** A command byte, or its first parameter, that names nothing the bootloader knows. */
  predicate Meaningless(command: seq<byte>)
    requires |command| >= 3
  {
    || command[0] !in {0x01, 0x03, 0x04, 0x05, 0x06}
    || (command[0] == 0x01 && command[1] > 0x01)
    || (command[0] == 0x03 && command[1] > 0x02)
    || (command[0] == 0x04 && command[1] != 0x03 && !(command[1] == 0x00 && command[2] == 0xFF))
    || (command[0] == 0x05 && command[1] > 0x01)
    || (command[0] == 0x06 && (command[1] != 0x03 || command[2] != 0x00))
  }

  /** Such a command is accepted and changes no memory, no address and no status. */
  lemma IgnoresMeaningless(d: Device, command: seq<byte>)
    requires Ready(d) && 3 <= |command| <= 6 && Meaningless(command)
    ensures var r := Handle(d, Plain(command));
      r.1 == Reply([], false, false) && r.0 == d.(command := r.0.command, data := r.0.data, dataSize := 0)
  {
    hide Handle, EraseFrom, LoadAddresses, BlankCheck, StartApplication, BootloaderInfo, SignatureInfo;
    HandlePlain(d, command);
    var c := TakeCommand(d.(dataSize := |command|), OutEndpoint(command, []));
    var n := |command| - 1;
    assert c.data[0] == c.data[..n][0] == command[1] && c.data[1] == c.data[..n][1] == command[2];
  }

  // ---------------------------------------------------------------------------
  // The 64KB page
  // ---------------------------------------------------------------------------

  /** Where offset `start` of 64KB page `p` is; chips of up to 64KB have only one. */
  function Located(chip: Chip, p: byte, start: word): nat {
    start + (if chip.size > 0x10000 then 0x10000 * (p as int) else 0)
  }

  /** The command sets the page and touches nothing else. */
  lemma SelectPage(d: Device, p: byte)
    requires Ready(d)
    ensures var r := Handle(d, Plain([0x06, 0x03, 0x00, p]));
      && r.1 == Reply([], false, false)
      && r.0 == d.(command := r.0.command, data := r.0.data, dataSize := 0, page64 := p)
      && forall start: word :: Address(d.flash.chip, r.0.page64, start) == Located(d.flash.chip, p, start)
  {
    hide Handle, WriteCommand, ReadCommand, MemProg, MemRead;
    var command := [0x06, 0x03, 0x00, p];
    HandlePlain(d, command);
    var c := TakeCommand(d.(dataSize := 4), OutEndpoint(command, []));
    assert c.data[0] == c.data[..3][0] == 0x03 && c.data[1] == c.data[..3][1] == 0x00;
    assert c.data[2] == c.data[..3][2] == p;
  }

  /** What a download for `addr` leaves in the flash. */
  ghost predicate ProgrammedAt(before: Flash, after: Flash, addr: nat, packets: seq<seq<byte>>, start: word,
                               data: seq<byte>)
    requires DfuImage.ProgramPackets(packets, start, data)
  {
    && after.memory
       == DfuPages.Wrapped(before.chip, before.memory, addr - addr % 2, DfuImage.Arrived(packets, start, data))
    && (before.chip.Aligned(addr) ==>
          after.memory == Stored(before.chip, before.memory, addr, DfuImage.WholeWords(data)))
  }

  /** A download after the command is stored in that page. */
  lemma ProgramInPage(d: Device, p: byte, length: word, packets: seq<seq<byte>>, start: word, data: seq<byte>)
    requires DfuImage.Available(d) && Ready(d) && length > 6 && DfuImage.ProgramPackets(packets, start, data)
    requires Located(d.flash.chip, p, start) + |data| <= d.flash.chip.size
    ensures var selected := Handle(d, Plain([0x06, 0x03, 0x00, p])).0;
      var r := Handle(selected, Dnload(length, packets));
      && r.1 == Reply([], false, false)
      && ProgrammedAt(d.flash, r.0.flash, Located(d.flash.chip, p, start), packets, start, data)
  {
    hide Handle, Stored, DfuPages.Wrapped, DfuPages.PageWrites, DfuImage.ProgramPackets, DfuImage.Arrived, Address,
         Located, Chip.Offset;
    SelectPage(d, p);
    DfuImage.ProgramImage(Handle(d, Plain([0x06, 0x03, 0x00, p])).0, length, packets, start, data);
  }

  /** A read command and an upload after it return the cells of that page. */
  lemma ReadFromPage(d: Device, p: byte, start: word, n: nat, length: word)
    requires Ready(d) && 0 < n < 0x10000 && start + n <= 0x10000
    requires Located(d.flash.chip, p, start) + n <= d.flash.chip.size
    ensures var selected := Handle(d, Plain([0x06, 0x03, 0x00, p])).0;
      var command := [0x03, 0x00, start / 0x100, start % 0x100, (start + n - 1) / 0x100, (start + n - 1) % 0x100];
      var asked := Handle(selected, Dnload(6, [command])).0;
      var addr := Located(d.flash.chip, p, start);
      Flatten(Handle(asked, Upload(length)).1.packets) == d.flash.memory[addr..addr + n / 2 * 2]
  {
    hide Handle, ReadFlash, DataStage, Address, Located, Flatten;
    SelectPage(d, p);
    var selected, addr := Handle(d, Plain([0x06, 0x03, 0x00, p])).0, Located(d.flash.chip, p, start);
    DfuImage.ReadBack(selected, start, n, length);
    var end := start + n - 1;
    assert DfuImage.AddressedCommand(COMMAND_DISP_DATA, 0x00, start, end)
        == [0x03, 0x00, start / 0x100, start % 0x100, end / 0x100, end % 0x100];
    DfuImage.ReadsCells(selected.flash, addr, n / 2 * 2);
    DataStageBytes(ENDPOINT_SIZE, ReadFlash(selected.flash, addr, n / 2 * 2));
  }

  // ---------------------------------------------------------------------------
  // The other ways to start the application
  // ---------------------------------------------------------------------------

  /** A start by watchdog arms it and leaves the exit pending. */
  lemma WatchdogStart(d: Device)
    requires Ready(d)
    ensures var r := Handle(d, Plain([0x04, 0x03, 0x00])).0;
      r == d.(command := r.command, data := r.data, dataSize := 0, watchdog := true, waitForExit := true)
  {
    hide Handle, ReadCommand, MemProg, MemRead;
    var command := [0x04, 0x03, 0x00];
    HandlePlain(d, command);
    var c := TakeCommand(d.(dataSize := 3), OutEndpoint(command, []));
    assert c.data[0] == c.data[..2][0] == 0x03 && c.data[1] == c.data[..2][1] == 0x00;
  }

  /** A start by jump with more data to come keeps the address to jump to; nothing starts yet. */
  lemma AddressedStart(d: Device, length: word, first: seq<byte>, more: seq<seq<byte>>)
    requires Ready(d) && length > 6 && |first| >= 6 && first[0] == 0x04 && first[1] == 0x03
    ensures var r := Handle(d, Dnload(length, [first] + more)).0;
      && r == d.(command := r.command, data := r.data, dataSize := length - 6, appStart := r.appStart,
                 waitForExit := true)
      && r.appStart == (if first[2] == 0x01 then 0x100 * (first[4] as int) + first[5] else d.appStart)
  {
    hide ReadCommand, MemProg, MemRead, CountDown, Programmed, UploadBytes;
    var packets := [first] + more;
    assert packets[0] == first && packets[1..] == more;
    var e := OutEndpoint(first, more);
    var c := TakeCommand(d.(dataSize := length), e);
    assert e.Drop().bank == first[1..] && c.data == first[1..6];
    assert c.data[0] == 0x03 && c.data[1] == first[2] && c.data[3] == first[4] && c.data[4] == first[5];
    DfuImage.HandleDnload(d, length, packets);
  }
}
