/** The DFU bootloader updating its variables, endpoint and flash in place. */
module DfuBootloader {
  import opened Bytes
  import opened FlashMemory
  import opened Endpoints
  import opened Dfu

  class Bootloader {
    var secure: bool
    var running: bool
    var waitForExit: bool
    var state: State
    var status: Status
    var command: byte
    var data: Parameters
    var dataSize: word
    var response: byte
    var appStart: word
    var page64: byte
    var startAddr: word
    var endAddr: word
    var watchdog: bool
    var eeprom: seq<byte>
    var out: OutEndpoint
    var reply: InEndpoint
    const signature: Signature
    const flash: FlashDevice

    ghost predicate Valid()
      reads this, flash
    {
      flash.Valid()
    }

    ghost function Value(): (d: Device)
      reads this, flash
      requires Valid()
    {
      Device(secure, running, waitForExit, state, status, command, data, dataSize, response, appStart,
             page64, startAddr, endAddr, watchdog, signature, flash.Value(), eeprom)
    }

    constructor (isSecure: bool, chipSignature: Signature, contents: seq<byte>, device: FlashDevice)
      requires device.Valid()
      ensures Valid() && flash == device
      ensures Value() == Device(isSecure, true, false, Idle, Ok, 0, [0, 0, 0, 0, 0], 0, 0, 0, 0, 0, 0, false,
                                chipSignature, device.Value(), contents)
    {
      secure, running, waitForExit, state, status := isSecure, true, false, Idle, Ok;
      command, data, dataSize, response, appStart := 0, [0, 0, 0, 0, 0], 0, 0, 0;
      page64, startAddr, endAddr, watchdog, eeprom := 0, 0, 0, false, contents;
      out, reply := OutEndpoint([], []), InEndpoint(ENDPOINT_SIZE, [], []);
      signature, flash := chipSignature, device;
    }

    method LoadStartEndAddresses()
      requires Valid()
      modifies this`startAddr, this`endAddr
      ensures Valid() && Value() == LoadAddresses(old(Value()))
    {
      startAddr := Word(data[1], data[2]);
      endAddr := Word(data[3], data[4]);
    }

    method ProcessMemProgCommand()
      requires Valid()
      modifies this`startAddr, this`endAddr, this`state, flash
      ensures Valid() && Value() == MemProg(old(Value()))
    {
      hide RawFlash.PageErase;
      if data[0] == 0x00 || data[0] == 0x01 {
        LoadStartEndAddresses();
        if data[0] == 0x00 {
          flash.PageErase(Address(flash.chip, page64, startAddr));
        }
        state := DnloadIdle;
      }
    }

    method CheckBlank()
      requires Valid()
      modifies this`startAddr, this`state, this`status, this`page64
      ensures Valid() && Value() == BlankCheck(old(Value()))
    {
      var end := flash.chip.bootStart;
      var a := 0;
      while a < end
        invariant 0 <= a <= end && Valid() && Value() == old(Value())
        invariant FirstProgrammed(flash.memory, a, end) == FirstProgrammed(flash.memory, 0, end)
      {
        var b := flash.ReadByte(a);
        if b != ERASED {
          page64 := Wrap8(a / 0x10000);
          startAddr := Wrap16(a);
          state := Error;
          status := ErrCheckErased;
          return;
        }
        a := a + 1;
      }
    }

    method ProcessMemReadCommand()
      requires Valid()
      modifies this`startAddr, this`endAddr, this`state, this`status, this`page64
      ensures Valid() && Value() == MemRead(old(Value()))
    {
      hide BlankCheck;
      if data[0] == 0x00 || data[0] == 0x02 {
        LoadStartEndAddresses();
        state := UploadIdle;
      } else if data[0] == 0x01 {
        CheckBlank();
      }
    }

    method ProcessStartApplication()
      requires Valid()
      modifies this`waitForExit, this`appStart, this`watchdog, this`running
      ensures Valid() && Value() == StartApplication(old(Value()))
    {
      waitForExit := true;
      if dataSize != 0 {
        if data[1] == 0x01 {
          appStart := Word(data[3], data[4]);
        }
      } else if data[1] == 0x00 {
        watchdog := true;
      } else {
        var low := flash.ReadByte(0);
        var high := flash.ReadByte(1);
        if low == 0xFF && high == 0xFF {
          running := false;
        }
      }
    }

    method ProcessWriteCommand()
      requires Valid()
      modifies this`waitForExit, this`appStart, this`watchdog, this`running, this`secure, flash
      ensures Valid() && Value() == WriteCommand(old(Value()))
    {
      hide EraseFrom, StartApplication, RawFlash.RwwEnable;
      if data[0] == 0x03 {
        ProcessStartApplication();
      } else if data[0] == 0x00 && data[1] == 0xFF {
        flash.EraseApplication();
        flash.RwwEnable();
        secure := false;
      }
    }

    method ProcessReadCommand()
      requires Valid()
      modifies this`response, this`state, this`status
      ensures Valid() && Value() == ReadCommand(old(Value()))
    {
      var invalid := false;
      if data[0] == 0x00 {
        match BootloaderInfo(data[1]) {
          case Some(b) => response := b;
          case None => invalid := true;
        }
      } else if data[0] == 0x01 {
        match SignatureInfo(signature, data[1]) {
          case Some(b) => response := b;
          case None => invalid := true;
        }
      }
      if invalid {
        state := Error;
        status := ErrAddress;
      }
    }

    method ProcessBootloaderCommand() returns (stalled: bool)
      requires Valid()
      modifies this`secure, this`running, this`waitForExit, this`state, this`status, this`response,
               this`appStart, this`page64, this`startAddr, this`endAddr, this`watchdog, flash
      ensures Valid() && Value() == Process(old(Value())) && stalled == Rejected(old(Value()))
    {
      hide MemProg, MemRead, WriteCommand, ReadCommand;
      stalled := false;
      if secure && !((command == COMMAND_WRITE && data[0] == 0x00 && data[1] == 0xFF) || command == COMMAND_READ) {
        state := Error;
        status := ErrWrite;
        stalled := true;
        return;
      }
      match command {
        case 0x01 => ProcessMemProgCommand();
        case 0x03 => ProcessMemReadCommand();
        case 0x04 => ProcessWriteCommand();
        case 0x05 => ProcessReadCommand();
        case 0x06 =>
          if data[0] == 0x03 && data[1] == 0x00 {
            page64 := data[2];
          }
        case _ =>
      }
    }

    method DiscardFillerBytes(count: nat)
      modifies this`out
      ensures out == Discard(old(out), count)
    {
      var n := count;
      while n > 0
        invariant Discard(out, n) == Discard(old(out), count)
      {
        n := n - 1;
        if out.bank == [] {
          if out.queue == [] {
            return;
          }
          out := out.Next();
        } else {
          out := out.Drop();
        }
      }
    }

    method WriteFlash(words: nat) returns (completed: bool)
      requires Valid()
      modifies this`out, flash
      ensures Valid()
      ensures var addr := Address(flash.chip, page64, startAddr);
        FlashWrite(flash.Value(), out, completed) == WriteWords(old(flash.Value()), addr, addr, 0, words, old(out))
    {
      hide RawFlash.PageErase, RawFlash.PageFill, RawFlash.PageWrite, WriteWords;
      var start: nat := Address(flash.chip, page64, startAddr);
      var addr, page, inPage, left := start, start, 0, words;
      while left > 0
        invariant Valid()
        invariant WriteWords(flash.Value(), addr, page, inPage, left, out)
               == WriteWords(old(flash.Value()), start, start, 0, words, old(out))
      {
        if out.bank == [] && out.queue == [] {
          WriteEnds(flash.Value(), addr, page, inPage, left, out);
          return false;
        }
        WriteStep(flash.Value(), addr, page, inPage, left, out);
        if out.bank == [] {
          out := out.Next();
        }
        var low := out.Peek();
        out := out.Drop();
        var high := out.Peek();
        out := out.Drop();
        flash.PageFill(addr, low, high);
        inPage, addr, left := inPage + 1, addr + 2, left - 1;
        if inPage == flash.chip.pageSize / 2 || left == 0 {
          flash.PageWrite(page);
          if left != 0 {
            page, inPage := addr, 0;
            flash.PageErase(addr);
          } else {
            WriteEnds(flash.Value(), addr, page, inPage, left, out);
          }
        }
      }
      WriteEnds(flash.Value(), addr, page, inPage, left, out);
      return true;
    }

    method WriteEepromBytes(count: nat) returns (completed: bool)
      modifies this`out, this`eeprom, this`startAddr
      ensures EepromWrite(eeprom, startAddr, out, completed)
           == WriteEeprom(old(eeprom), old(startAddr), count, old(out))
    {
      var left := count;
      while left > 0
        invariant WriteEeprom(eeprom, startAddr, left, out) == WriteEeprom(old(eeprom), old(startAddr), count, old(out))
      {
        if out.bank == [] {
          if out.queue == [] {
            return false;
          }
          out := out.Next();
        }
        eeprom := UpdateByte(eeprom, startAddr, out.Peek());
        out := out.Drop();
        startAddr := Wrap16(startAddr + 1);
        left := left - 1;
      }
      return true;
    }

    method ReceiveProgram() returns (completed: bool)
      requires Valid()
      modifies this`out, this`eeprom, this`startAddr, flash
      ensures Valid() && (Value(), completed) == Programmed(old(Value()), old(out))
    {
      hide Discard, WriteWords, WriteEeprom;
      DiscardFillerBytes(FILLER_SIZE);
      DiscardFillerBytes(startAddr % ENDPOINT_SIZE);
      var remaining := Wrap16(0x10000 + endAddr - startAddr + 1);
      if data[0] == 0x00 {
        completed := WriteFlash(remaining / 2);
        if !completed {
          return;
        }
        startAddr := endAddr;
        flash.RwwEnable();
      } else {
        completed := WriteEepromBytes(remaining);
        if !completed {
          return;
        }
      }
      DiscardFillerBytes(SUFFIX_SIZE);
    }

    method ReadParameters()
      modifies this`out, this`data, this`dataSize
      ensures var n := Min(5, |old(out.bank)|);
        && out == old(out).(bank := old(out.bank)[n..])
        && data == old(out.bank)[..n] + old(data)[n..]
        && dataSize == CountDown(old(dataSize), n)
    {
      hide CountDown;
      var n := 0;
      while n < 5 && out.bank != []
        invariant 0 <= n <= 5 && n <= |old(out.bank)|
        invariant out == OutEndpoint(old(out.bank)[n..], old(out.queue))
        invariant forall i :: 0 <= i < n ==> data[i] == old(out.bank)[i]
        invariant forall i :: n <= i < 5 ==> data[i] == old(data)[i]
        invariant dataSize == CountDown(old(dataSize), n)
      {
        data := data[n := out.Peek()];
        out := out.Drop();
        CountDownAdd(old(dataSize), n, 1);
        dataSize := CountDown(dataSize, 1);
        n := n + 1;
      }
      assert data == old(out.bank)[..n] + old(data)[n..];
    }

    method ReceiveCommand(packets: seq<seq<byte>>)
      requires Valid() && packets != []
      modifies this`out, this`command, this`data, this`dataSize
      ensures Valid()
      ensures var e := OutEndpoint(packets[0], packets[1..]);
        Value() == TakeCommand(old(Value()), e) && out == AfterCommand(e)
    {
      hide CountDown;
      ghost var before, e := Value(), OutEndpoint(packets[0], packets[1..]);
      out := OutEndpoint(packets[0], packets[1..]);
      command := out.Peek();
      out := out.Drop();
      CountDownAdd(dataSize, 1, Min(5, |out.bank|));
      dataSize := CountDown(dataSize, 1);
      ReadParameters();
      assert data == TakeCommand(before, e).data && dataSize == TakeCommand(before, e).dataSize;
    }

    method FinishDnload() returns (detached: bool)
      requires Valid()
      modifies this, flash
      ensures Valid() && reply == old(reply)
      ensures (Value(), detached) == FinishDownload(old(Value()), old(out))
    {
      hide Programmed;
      detached := false;
      if state == DnloadIdle {
        if dataSize == 0 {
          state := Idle;
        } else {
          var completed := ReceiveProgram();
          detached := !completed;
        }
      }
    }

    method ActOnExit() returns (stalled: bool)
      requires Valid()
      modifies this`secure, this`running, this`waitForExit, this`state, this`status, this`response,
               this`appStart, this`page64, this`startAddr, this`endAddr, this`watchdog, flash
      ensures Valid() && Value() == FinishExit(old(Value()))
      ensures stalled == (old(waitForExit) && Rejected(old(Value())))
    {
      hide Process, Rejected;
      stalled := false;
      if waitForExit {
        stalled := ProcessBootloaderCommand();
        waitForExit := false;
      }
    }

    method ProcessCommandStage(packets: seq<seq<byte>>) returns (stalled: bool, detached: bool)
      requires Valid() && packets != []
      modifies this, flash
      ensures Valid() && reply == old(reply)
      ensures (Value(), Reply([], stalled, detached)) == RunCommand(old(Value()), packets)
    {
      hide Process, TakeCommand, AfterCommand, FinishDownload, Rejected;
      ReceiveCommand(packets);
      stalled := ProcessBootloaderCommand();
      detached := FinishDnload();
    }

    method Dnload(packets: seq<seq<byte>>) returns (stalled: bool, detached: bool)
      requires Valid()
      modifies this, flash
      ensures Valid() && reply == old(reply)
      ensures (Value(), Reply([], stalled, detached)) == Download(old(Value()), packets)
    {
      hide RunCommand, FinishDownload, FinishExit, Rejected;
      out := OutEndpoint([], []);
      stalled := ActOnExit();
      if dataSize == 0 {
        detached := FinishDnload();
      } else if packets == [] {
        detached := true;
      } else {
        var rejected;
        rejected, detached := ProcessCommandStage(packets);
        stalled := stalled || rejected;
      }
    }

    /** A full bank is sent before more is written to it. */
    method MakeRoom()
      requires reply.Valid()
      modifies this`reply
      ensures reply.Valid() && reply.size == old(reply.size) && reply.Written() == old(reply.Written())
      ensures |reply.bank| < reply.size && (|reply.bank| == |old(reply.bank)| || reply.bank == [])
    {
      if |reply.bank| == reply.size {
        FlattenAppend(reply.sent, [reply.bank]);
        FlattenOne(reply.bank);
        reply := reply.Send();
      }
    }

    method WriteByte(b: byte)
      requires reply.Valid()
      modifies this`reply
      ensures reply.Valid() && reply.size == old(reply.size) && reply.bank != []
      ensures reply.Written() == old(reply.Written()) + [b]
    {
      MakeRoom();
      reply := reply.(bank := reply.bank + [b]);
    }

    method WriteWord(low: byte, high: byte)
      requires reply.Valid() && reply.size % 2 == 0 && |reply.bank| % 2 == 0
      modifies this`reply
      ensures reply.Valid() && reply.size == old(reply.size) && reply.bank != [] && |reply.bank| % 2 == 0
      ensures reply.Written() == old(reply.Written()) + [low, high]
    {
      MakeRoom();
      reply := reply.(bank := reply.bank + [low, high]);
    }

    method UploadFlash(words: nat)
      requires Valid() && reply == InEndpoint(ENDPOINT_SIZE, [], [])
      modifies this`reply
      ensures reply.Valid() && reply.size == ENDPOINT_SIZE && (reply.bank == [] ==> reply.sent == [])
      ensures reply.Written() == ReadFlash(flash.Value(), Address(flash.chip, page64, startAddr), words * 2)
    {
      var addr: nat := Address(flash.chip, page64, startAddr);
      var n := 0;
      while n < words
        invariant 0 <= n <= words
        invariant reply.Valid() && reply.size == ENDPOINT_SIZE && |reply.bank| % 2 == 0
        invariant reply.bank == [] ==> reply.sent == []
        invariant reply.Written() == ReadFlash(flash.Value(), addr, n * 2)
      {
        var low := flash.ReadByte(addr + n * 2);
        var high := flash.ReadByte(addr + n * 2 + 1);
        WriteWord(low, high);
        n := n + 1;
      }
    }

    method UploadEeprom(count: nat)
      requires Valid() && reply == InEndpoint(ENDPOINT_SIZE, [], [])
      modifies this`reply, this`startAddr
      ensures reply.Valid() && reply.size == ENDPOINT_SIZE && (reply.bank == [] ==> reply.sent == [])
      ensures reply.Written() == ReadEeprom(eeprom, old(startAddr), count)
      ensures startAddr == Wrap16(old(startAddr) + count)
    {
      assert Wrap16(startAddr + 0) == startAddr;
      hide Wrap16;
      var n := 0;
      while n < count
        invariant 0 <= n <= count
        invariant reply.Valid() && reply.size == ENDPOINT_SIZE
        invariant reply.bank == [] ==> reply.sent == []
        invariant reply.Written() == ReadEeprom(eeprom, old(startAddr), n)
        invariant startAddr == Wrap16(old(startAddr) + n)
      {
        WriteByte(ReadEepromByte(eeprom, startAddr));
        Wrap16Add(old(startAddr) + n, 1);
        startAddr := Wrap16(startAddr + 1);
        n := n + 1;
      }
    }

    method Upload()
      requires Valid()
      modifies this`reply, this`startAddr, this`state
      ensures Valid() && Value() == AfterUpload(old(Value()))
      ensures reply.sent == DataStage(ENDPOINT_SIZE, UploadBytes(old(Value())))
    {
      hide ReadFlash, ReadEeprom, RawFlash.Read, DataStage;
      ghost var before := Value();
      reply := InEndpoint(ENDPOINT_SIZE, [], []);
      if state != UploadIdle {
        if state == Error && data[0] == 0x01 {
          WriteWord(startAddr % 0x100, startAddr / 0x100);
        } else {
          WriteByte(response);
        }
      } else {
        var remaining := Wrap16(0x10000 + endAddr - startAddr + 1);
        if data[0] == 0x00 {
          UploadFlash(remaining / 2);
          startAddr := endAddr;
        } else if data[0] == 0x02 {
          UploadEeprom(remaining);
        }
        state := Idle;
      }
      assert reply.Written() == UploadBytes(before);
      StageSent(reply);
      reply := reply.Send();
    }

    method ControlRequest(r: Request) returns (stalled: bool, detached: bool)
      requires Valid()
      modifies this, flash
      ensures Valid() && (Value(), Reply(reply.sent, stalled, detached)) == Handle(old(Value()), r)
    {
      hide Download, DataStage, UploadBytes, AfterUpload;
      dataSize := r.length;
      reply := InEndpoint(ENDPOINT_SIZE, [], []);
      stalled, detached := false, false;
      match r {
        case Dnload(_, packets) =>
          stalled, detached := Dnload(packets);
        case Upload(_) =>
          Upload();
        case GetStatus(_) =>
          reply := reply.(bank := [status.Code(), 0, 0, 0, state.Code(), 0]).Send();
          assert reply.sent == [[status.Code(), 0, 0, 0, state.Code(), 0]];
        case ClrStatus(_) =>
          status := Ok;
        case GetState(_) =>
          reply := reply.(bank := [state.Code()]).Send();
          assert reply.sent == [[state.Code()]];
        case Abort(_) =>
          state := Idle;
        case Other(_) =>
      }
    }
  }
}
