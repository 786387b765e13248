/** The CDC bootloader working on endpoint banks, its variables and the flash in place. */
module CdcBootloader {
  import opened Bytes
  import opened FlashMemory
  import opened Endpoints
  import opened Cdc

  /** The input from position `i` on. */
  function Rest(input: seq<byte>, i: nat): seq<byte> { if i <= |input| then input[i..] else [] }

  class Bootloader {
    var addr: nat
    var running: bool
    var lockBits: byte
    var eeprom: seq<byte>
    var out: OutEndpoint
    var reply: InEndpoint
    const rows: Rows
    const flash: FlashDevice

    ghost predicate Valid()
      reads this, flash
    {
      flash.Valid()
    }

    ghost function Value(): (s: Programmer)
      reads this, flash
      requires Valid()
    {
      Programmer(addr, running, lockBits, rows, flash.Value(), eeprom)
    }

    constructor (device: FlashDevice, chipRows: Rows, contents: seq<byte>, locks: byte)
      requires device.Valid()
      ensures Valid() && flash == device && Value() == Programmer(0, true, locks, chipRows, device.Value(), contents)
    {
      addr, running, lockBits, eeprom := 0, true, locks, contents;
      out, reply := OutEndpoint([], []), InEndpoint(EPSIZE, [], []);
      rows, flash := chipRows, device;
    }

    /** The next byte of the input, over any number of packet boundaries. */
    method FetchNextCommandByte(ghost input: seq<byte>, ghost i: nat) returns (b: byte)
      requires out.Pending() == Rest(input, i)
      modifies this`out
      ensures b == At(input, i) && out.Pending() == Rest(input, i + 1)
    {
      while out.bank == []
        invariant out.Pending() == Rest(input, i)
        decreases |out.queue|
      {
        if out.queue == [] {
          return 0;
        }
        out := out.Next();
      }
      b := out.bank[0];
      assert out.Pending()[0] == b && out.Pending()[1..] == out.bank[1..] + Flatten(out.queue);
      out := out.Drop();
    }

    method WriteNextResponseByte(b: byte)
      requires reply.Valid()
      modifies this`reply
      ensures reply.Valid() && reply.size == old(reply.size) && reply.Written() == old(reply.Written()) + [b]
    {
      if |reply.bank| == reply.size {
        FlattenAppend(reply.sent, [reply.bank]);
        FlattenOne(reply.bank);
        reply := reply.Send();
      }
      reply := reply.(bank := reply.bank + [b]);
    }

    method Respond(response: seq<byte>)
      requires reply.Valid()
      modifies this`reply
      ensures reply.Valid() && reply.size == old(reply.size) && reply.Written() == old(reply.Written()) + response
    {
      var i := 0;
      while i < |response|
        invariant 0 <= i <= |response| && reply.Valid() && reply.size == old(reply.size)
        invariant reply.Written() == old(reply.Written()) + response[..i]
      {
        WriteNextResponseByte(response[i]);
        i := i + 1;
      }
      assert response[..i] == response;
    }

    method ReadFlashBytes(n: nat)
      requires Valid() && reply.Valid()
      modifies this`reply, this`addr
      ensures reply.Valid() && reply.size == old(reply.size)
      ensures reply.Written() == old(reply.Written()) + ReadFlashBlock(flash.Value(), old(addr), false, n)
      ensures addr == Advance(old(addr), n / 2)
    {
      hide RawFlash.Read, Wrap32, ByteAddress, ReadFlashBlock, InEndpoint.Written;
      ghost var words := 0;
      var left, second := n, false;
      while left > 0
        invariant 0 <= left <= n && reply.Valid() && reply.size == old(reply.size)
        invariant n - left == 2 * words + (if second then 1 else 0)
        invariant reply.Written() + ReadFlashBlock(flash.Value(), addr, second, left)
               == old(reply.Written()) + ReadFlashBlock(flash.Value(), old(addr), false, n)
        invariant Advance(addr, n / 2 - words) == Advance(old(addr), n / 2)
      {
        ReadFlashBlockStep(flash.Value(), addr, second, left);
        var b := flash.ReadByte(ByteAddress(addr, second));
        ghost var before := reply.Written();
        WriteNextResponseByte(b);
        if second {
          addr := Wrap32(addr + 2);
          words := words + 1;
        }
        second, left := !second, left - 1;
        assert before + ([b] + ReadFlashBlock(flash.Value(), addr, second, left))
            == reply.Written() + ReadFlashBlock(flash.Value(), addr, second, left);
      }
      ReadFlashBlockStep(flash.Value(), addr, second, left);
    }

    method ReadEepromBytes(n: nat)
      requires reply.Valid()
      modifies this`reply, this`addr
      ensures reply.Valid() && reply.size == old(reply.size)
      ensures reply.Written() == old(reply.Written()) + ReadEepromBlock(eeprom, old(addr), n)
      ensures addr == Advance(old(addr), n)
    {
      hide Wrap32;
      var left := n;
      while left > 0
        invariant 0 <= left <= n && reply.Valid() && reply.size == old(reply.size)
        invariant reply.Written() + ReadEepromBlock(eeprom, addr, left)
               == old(reply.Written()) + ReadEepromBlock(eeprom, old(addr), n)
        invariant Advance(addr, left) == Advance(old(addr), n)
      {
        var b := ReadEepromByte(eeprom, EepromAddress(addr));
        ghost var before := reply.Written();
        WriteNextResponseByte(b);
        addr, left := Wrap32(addr + 2), left - 1;
        assert before + ([b] + ReadEepromBlock(eeprom, addr, left))
            == reply.Written() + ReadEepromBlock(eeprom, addr, left);
      }
    }

    method WriteFlashBytes(n: nat, ghost input: seq<byte>)
      requires Valid() && out.Pending() == Rest(input, 4)
      modifies this`out, this`addr, flash
      ensures Valid() && addr == Advance(old(addr), n / 2)
      ensures flash.Value() == FillBlock(old(flash.Value()), old(addr), Slice(input, 4, n))
    {
      hide RawFlash.PageFill, Wrap32, OutEndpoint.Pending, Rest, FillBlock;
      ghost var bytes := Slice(input, 4, n);
      ghost var words := 0;
      var done, second, low := 0, false, 0;
      assert bytes[0..] == bytes;
      while done < n
        invariant 0 <= done <= n && Valid() && out.Pending() == Rest(input, 4 + done)
        invariant done == 2 * words + (if second then 1 else 0)
        invariant second ==> low == bytes[2 * words]
        invariant FillBlock(flash.Value(), addr, bytes[2 * words..]) == FillBlock(old(flash.Value()), old(addr), bytes)
        invariant Advance(addr, n / 2 - words) == Advance(old(addr), n / 2)
      {
        var b := FetchNextCommandByte(input, 4 + done);
        assert b == bytes[done];
        if second {
          FillBlockStep(flash.Value(), addr, bytes[2 * words..]);
          assert bytes[2 * words..][2..] == bytes[2 * (words + 1)..];
          flash.PageFill(addr, low, b);
          addr := Wrap32(addr + 2);
          words := words + 1;
        } else {
          low := b;
        }
        second, done := !second, done + 1;
      }
      FillBlockStep(flash.Value(), addr, bytes[2 * words..]);
    }

    method WriteEepromBytes(n: nat, ghost input: seq<byte>)
      requires out.Pending() == Rest(input, 4)
      modifies this`out, this`addr, this`eeprom
      ensures addr == Advance(old(addr), n)
      ensures eeprom == WriteEepromBlock(old(eeprom), old(addr), Slice(input, 4, n))
    {
      hide Wrap32, OutEndpoint.Pending, Rest, UpdateByte;
      ghost var bytes := Slice(input, 4, n);
      var done := 0;
      assert bytes[0..] == bytes;
      while done < n
        invariant 0 <= done <= n && out.Pending() == Rest(input, 4 + done)
        invariant WriteEepromBlock(eeprom, addr, bytes[done..]) == WriteEepromBlock(old(eeprom), old(addr), bytes)
        invariant Advance(addr, n - done) == Advance(old(addr), n)
      {
        var b := FetchNextCommandByte(input, 4 + done);
        assert bytes[done..][0] == b && bytes[done..][1..] == bytes[done + 1..];
        eeprom := UpdateByte(eeprom, EepromAddress(addr), b);
        addr, done := Wrap32(addr + 2), done + 1;
      }
    }

    method ReadMemoryBlock(n: word, memoryType: byte, ghost input: seq<byte>)
      requires Valid() && reply.Valid() && n == BlockSize(input) && memoryType == At(input, 3)
      modifies this`reply, this`addr, flash
      ensures Valid() && reply.Valid() && reply.size == old(reply.size)
      ensures Value() == ReadBlock(old(Value()), input).next
      ensures reply.Written() == old(reply.Written()) + ReadBlock(old(Value()), input).response
    {
      hide ReadFlashBlock, ReadEepromBlock, Advance, BlockSize;
      flash.RwwEnable();
      if memoryType == TYPE_FLASH {
        SameReads(old(flash.Value()), addr, false, n);
        ReadFlashBytes(n);
      } else {
        ReadEepromBytes(n);
      }
    }

    method WriteMemoryBlock(n: word, memoryType: byte, ghost input: seq<byte>)
      requires Valid() && reply.Valid() && n == BlockSize(input) && memoryType == At(input, 3)
      requires out.Pending() == Rest(input, 4)
      modifies this`out, this`reply, this`addr, this`eeprom, flash
      ensures Valid() && reply.Valid() && reply.size == old(reply.size)
      ensures Value() == WriteBlock(old(Value()), input).next
      ensures reply.Written() == old(reply.Written()) + WriteBlock(old(Value()), input).response
    {
      hide FillBlock, WriteEepromBlock, Advance, BlockSize, RawFlash.PageErase, RawFlash.PageWrite, Slice;
      var pageStart := addr;
      if memoryType == TYPE_FLASH {
        flash.PageErase(pageStart);
        WriteFlashBytes(n, input);
        flash.PageWrite(pageStart);
      } else {
        WriteEepromBytes(n, input);
      }
      WriteNextResponseByte(CR);
    }

    method ReadWriteMemoryBlock(command: byte, ghost input: seq<byte>)
      requires Valid() && reply.Valid() && command == At(input, 0) && out.Pending() == Rest(input, 1)
      modifies this`out, this`reply, this`addr, this`eeprom, flash
      ensures Valid() && reply.Valid() && reply.size == old(reply.size)
      ensures Value() == Block(old(Value()), input).next
      ensures reply.Written() == old(reply.Written()) + Block(old(Value()), input).response
    {
      hide ReadBlock, WriteBlock, OutEndpoint.Pending, Rest, InEndpoint.Written;
      var high := FetchNextCommandByte(input, 1);
      var low := FetchNextCommandByte(input, 2);
      var memoryType := FetchNextCommandByte(input, 3);
      if memoryType != TYPE_FLASH && memoryType != TYPE_EEPROM {
        WriteNextResponseByte(UNKNOWN);
      } else if command == BLOCK_READ {
        ReadMemoryBlock(Word(high, low), memoryType, input);
      } else {
        WriteMemoryBlock(Word(high, low), memoryType, input);
      }
    }

    method AccessOnce(command: byte, ghost input: seq<byte>)
      requires Valid() && reply.Valid() && out.Pending() == Rest(input, 1)
      modifies this`out, this`reply, this`addr, this`eeprom, flash
      ensures Valid() && reply.Valid() && reply.size == old(reply.size)
      ensures Value() == SingleAccess(old(Value()), command, At(input, 1)).next
      ensures reply.Written() == old(reply.Written()) + SingleAccess(old(Value()), command, At(input, 1)).response
    {
      hide OutEndpoint.Pending, Rest, InEndpoint.Written, RawFlash.PageFill, RawFlash.PageWrite, RawFlash.Read,
           UpdateByte, Wrap32, EepromAddress, ByteAddress;
      match command {
        case 0x43 =>
          var b := FetchNextCommandByte(input, 1);
          flash.PageFill(addr, b, 0);
          WriteNextResponseByte(CR);
        case 0x63 =>
          var b := FetchNextCommandByte(input, 1);
          flash.PageFill(ByteAddress(addr, true), b, 0);
          addr := Wrap32(addr + 2);
          WriteNextResponseByte(CR);
        case 0x6D =>
          flash.PageWrite(addr);
          WriteNextResponseByte(CR);
        case 0x52 =>
          var low := flash.ReadByte(addr);
          var high := flash.ReadByte(addr + 1);
          Respond([high, low]);
        case 0x44 =>
          var b := FetchNextCommandByte(input, 1);
          eeprom := UpdateByte(eeprom, EepromAddress(addr), b);
          addr := Wrap32(addr + 2);
          WriteNextResponseByte(CR);
        case 0x64 =>
          WriteNextResponseByte(ReadEepromByte(eeprom, EepromAddress(addr)));
          addr := Wrap32(addr + 2);
        case 27 =>
          assert reply.Written() + [] == reply.Written();
        case _ =>
          WriteNextResponseByte(UNKNOWN);
      }
    }

    /** The commands other than block access and single accesses. */
    method RunCommand(command: byte, ghost input: seq<byte>)
      requires Valid() && reply.Valid() && command == At(input, 0) && out.Pending() == Rest(input, 1)
      modifies this`out, this`reply, this`addr, this`running, this`lockBits, this`eeprom, flash
      ensures Valid() && reply.Valid() && reply.size == old(reply.size)
      ensures Value() == Execute(old(Value()), input).next
      ensures reply.Written() == old(reply.Written()) + Execute(old(Value()), input).response
    {
      hide OutEndpoint.Pending, Rest, InEndpoint.Written, EraseFrom, Block, SingleAccess, Inquiry, SetAddress;
      match command {
        case 0x45 =>
          running := false;
          WriteNextResponseByte(CR);
        case 0x41 =>
          var high := FetchNextCommandByte(input, 1);
          var low := FetchNextCommandByte(input, 2);
          addr := SetAddress(high, low);
          WriteNextResponseByte(CR);
        case 0x65 =>
          flash.EraseApplication();
          WriteNextResponseByte(CR);
        case 0x6C =>
          lockBits := FetchNextCommandByte(input, 1);
          WriteNextResponseByte(CR);
        case 0x42 => ReadWriteMemoryBlock(command, input);
        case 0x67 => ReadWriteMemoryBlock(command, input);
        case _ =>
          match Answered(command) {
            case Some(response) => Respond(response);
            case None => AccessOnce(command, input);
          }
      }
    }

    function Answered(command: byte): (r: Option<seq<byte>>)
      requires Valid()
      reads this, flash
      ensures r == Inquiry(Value(), command)
    {
      var contents := RawFlash(flash.chip, flash.memory, flash.buffer, flash.log);
      Inquiry(Programmer(addr, running, lockBits, rows, contents, eeprom), command)
    }

    /**
     * One command: its response goes out as full packets and a final short one, which is
     * empty if the response fills its packets exactly.
     */
    method CdcTask(packets: seq<seq<byte>>)
      requires Valid()
      modifies this, flash
      ensures Valid() && (Value(), reply.sent) == Task(old(Value()), packets)
    {
      hide Execute, Terminated, InEndpoint.Written;
      reply := InEndpoint(EPSIZE, [], []);
      if packets == [] {
        return;
      }
      ghost var input, answer := Flatten(packets), Execute(Value(), Flatten(packets));
      out := OutEndpoint(packets[0], packets[1..]);
      assert out.Pending() == Rest(input, 0);
      assert reply.Written() == [] by { NothingWritten(EPSIZE); }
      var command := FetchNextCommandByte(input, 0);
      RunCommand(command, input);
      assert reply.Written() == answer.response;
      TransferSent(reply);
      var full := |reply.bank| == reply.size;
      reply := reply.Send();
      if full {
        reply := reply.Send();
      }
    }
  }

  /** Emptying the page buffer does not change what is read. */
  lemma {:induction false} SameReads(f: Flash, addr: nat, second: bool, n: nat)
    ensures ReadFlashBlock(f.RwwEnable(), addr, second, n) == ReadFlashBlock(f, addr, second, n)
    decreases n
  {
    if n > 0 {
      SameReads(f, if second then Wrap32(addr + 2) else addr, !second, n - 1);
    }
  }
}
