/**
 * Secure mode: until the application section has been erased, nothing the bootloader
 * answers or remembers depends on what that section holds.
 */
module DfuSecure {
  import opened Bytes
  import opened FlashMemory
  import opened Endpoints
  import opened Dfu

  /** The two flashes differ at most in the cells from `a` up to the boot section. */
  ghost predicate AgreeOutside(f: Flash, g: Flash, a: nat) {
    && f.chip == g.chip && f.buffer == g.buffer && f.log == g.log
    && forall i :: 0 <= i < |f.memory| && !(a <= i < f.chip.bootStart) ==> f.memory[i] == g.memory[i]
  }

  /** Erasing and writing back a page makes it the same on both devices. */
  lemma ErasePageAgree(f: Flash, g: Flash, a: nat)
    requires AgreeOutside(f, g, a) && f.chip.Aligned(a)
    ensures AgreeOutside(f.PageErase(a).PageWrite(a), g.PageErase(a).PageWrite(a), a + f.chip.pageSize)
  {
    hide Program, Chip.PageOf;
    PageOfWithin(f.chip, a, a);
  }

  lemma {:induction false} EraseAgree(f: Flash, g: Flash, a: nat)
    requires AgreeOutside(f, g, a) && f.chip.Aligned(a)
    ensures EraseFrom(f, a) == EraseFrom(g, a)
    decreases f.chip.bootStart - a
  {
    hide RawFlash.PageErase, RawFlash.PageWrite, AgreeOutside, Chip.Offset;
    SameChip(f, g, a);
    if a < f.chip.bootStart {
      ErasePageAgree(f, g, a);
      PageAfter(f.chip, a);
      EraseAgree(f.PageErase(a).PageWrite(a), g.PageErase(a).PageWrite(a), a + f.chip.pageSize);
    }
  }

  lemma SameChip(f: Flash, g: Flash, a: nat)
    requires AgreeOutside(f, g, a)
    ensures f.chip == g.chip && (a >= f.chip.bootStart ==> f == g)
  {
    if a >= f.chip.bootStart {
      assert f.memory == g.memory;
    }
  }

  /**
   * Two devices no host can tell apart: while secure they may differ in the application
   * section, and no transfer is open; once unlocked they are equal.
   */
  ghost predicate Alike(d: Device, e: Device) {
    if d.secure then
      && e == d.(flash := e.flash) && AgreeOutside(d.flash, e.flash, 0)
      && (d.state == Idle || d.state == Error) && !d.waitForExit
    else d == e
  }

  lemma ProcessAlike(d: Device, e: Device)
    requires Alike(d, e)
    ensures Alike(Process(d), Process(e)) && Rejected(d) == Rejected(e)
  {
    hide EraseFrom;
    if d.secure && d.command == COMMAND_WRITE && IsErase(d) {
      EraseAgree(d.flash, e.flash, 0);
    }
  }

  lemma RunCommandAlike(d: Device, e: Device, packets: seq<seq<byte>>)
    requires Alike(d, e) && packets != []
    ensures Alike(RunCommand(d, packets).0, RunCommand(e, packets).0)
    ensures RunCommand(d, packets).1 == RunCommand(e, packets).1
  {
    hide Process, Rejected, Programmed, CountDown;
    var out := OutEndpoint(packets[0], packets[1..]);
    ProcessAlike(TakeCommand(d, out), TakeCommand(e, out));
  }

  lemma HandleAlike(d: Device, e: Device, r: Request)
    requires Alike(d, e)
    ensures Alike(Handle(d, r).0, Handle(e, r).0) && Handle(d, r).1 == Handle(e, r).1
  {
    hide RunCommand, Programmed, Process, DataStage, ReadFlash, ReadEeprom;
    var d', e' := d.(dataSize := r.length), e.(dataSize := r.length);
    if r.Dnload? && r.length != 0 && r.packets != [] && d.secure {
      RunCommandAlike(d', e', r.packets);
    }
  }

  /**
   * Two devices that start secure and differ only in the application section give the
   * same replies to every sequence of requests, and are equal as soon as they unlock.
   */
  lemma {:induction false} SecureModeHidesFlash(d: Device, e: Device, rs: seq<Request>)
    requires Alike(d, e)
    ensures HandleAll(d, rs).1 == HandleAll(e, rs).1
    ensures Alike(HandleAll(d, rs).0, HandleAll(e, rs).0)
    decreases |rs|
  {
    if rs != [] {
      hide Handle, Alike;
      HandleAlike(d, e, rs[0]);
      SecureModeHidesFlash(Handle(d, rs[0]).0, Handle(e, rs[0]).0, rs[1..]);
    }
  }

  /** As long as a device is locked, no request has changed its memories. */
  lemma {:induction false} SecureModeKeepsMemory(d: Device, rs: seq<Request>)
    requires Alike(d, d) && d.secure && HandleAll(d, rs).0.secure
    ensures HandleAll(d, rs).0.flash == d.flash && HandleAll(d, rs).0.eeprom == d.eeprom
    decreases |rs|
  {
    if rs != [] {
      hide Handle, Alike;
      var next := Handle(d, rs[0]).0;
      StaysUnlocked(next, rs[1..]);
      HandleAlike(d, d, rs[0]);
      HandleKeepsMemory(d, rs[0]);
      SecureModeKeepsMemory(next, rs[1..]);
    }
  }

  lemma HandleKeepsMemory(d: Device, r: Request)
    requires Alike(d, d) && d.secure && Handle(d, r).0.secure
    ensures Handle(d, r).0.flash == d.flash && Handle(d, r).0.eeprom == d.eeprom
  {
    hide EraseFrom, Programmed, DataStage, CountDown;
  }

  /** The secure flag, once cleared, stays cleared. */
  lemma {:induction false} StaysUnlocked(d: Device, rs: seq<Request>)
    ensures HandleAll(d, rs).0.secure ==> d.secure
    decreases |rs|
  {
    if rs != [] {
      hide Handle;
      StaysUnlocked(Handle(d, rs[0]).0, rs[1..]);
    }
  }
}
