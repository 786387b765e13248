/** The exact condition under which a flash range programmed over DFU is read back as sent. */
module DfuExact {
  import opened Bytes
  import opened FlashMemory
  import opened Endpoints
  import opened Dfu
  import opened DfuPages
  import opened DfuImage

  /** What the host gets from downloading, asking for the same `n` bytes and uploading. */
  ghost function Uploaded(d: Device, length: word, packets: seq<seq<byte>>, start: word, n: nat, uploadLength: word)
    : seq<byte>
    requires 0 < n && start + n <= 0x10000
  {
    var programmed := Handle(d, Dnload(length, packets));
    var command := AddressedCommand(COMMAND_DISP_DATA, 0x00, start, start + n - 1);
    var asked := Handle(programmed.0, Dnload(6, [command]));
    Flatten(Handle(asked.0, Upload(uploadLength)).1.packets)
  }

  /** The request can be answered: nothing is pending and the range is in the flash. */
  ghost predicate Programmable(d: Device, length: word, start: word, n: nat) {
    && Available(d) && length > 6 && 2 <= n < 0x10000 && start + n <= 0x10000
    && Address(d.flash.chip, d.page64, start) + n <= d.flash.chip.size
  }

  /** From a bank boundary, and from a page boundary or into one page only. */
  predicate Storable(chip: Chip, addr: nat, start: word, n: nat)
    requires chip.Valid()
  {
    start % ENDPOINT_SIZE == 0 && (chip.Aligned(addr) || addr + n / 2 * 2 <= chip.PageOf(addr) + chip.pageSize)
  }

  // ---------------------------------------------------------------------------
  // Downloads that fail
  // ---------------------------------------------------------------------------

  /** Command and filler in a packet, then zeros for alignment and the data in another. */
  ghost function Simple(start: word, data: seq<byte>): seq<seq<byte>>
    requires 2 <= |data| && start + |data| <= 0x10000
  {
    [AddressedCommand(COMMAND_PROG_START, 0x00, start, start + |data| - 1) + Zeros(26),
     Zeros(start % ENDPOINT_SIZE) + data]
  }

  lemma SimpleIsDownload(start: word, data: seq<byte>)
    requires 2 <= |data| < 0x10000 && start + |data| <= 0x10000
    ensures ProgramPackets(Simple(start, data), start, data)
    ensures start % ENDPOINT_SIZE > 0 ==>
            Arrived(Simple(start, data), start, data) == ([0] + data)[..|data| / 2 * 2]
  {
    hide AddressedCommand, Zeros;
    var command, a := AddressedCommand(COMMAND_PROG_START, 0x00, start, start + |data| - 1), start % ENDPOINT_SIZE;
    CommandLength(COMMAND_PROG_START, 0x00, start, start + |data| - 1);
    var packets := Simple(start, data);
    assert packets[0][..6] == command && packets[0][32..] == [];
    assert packets[1..] == [packets[1]] && packets[2..] == [];
    FlattenOne(packets[1]);
    if a == 0 {
      assert packets[1] == data;
      assert Body(packets).Pending() == data;
      assert Body(packets).Next().Carries(|data| / 2 * 2);
    } else {
      assert packets[1][a..] == data && packets[1][a..] + [] == data;
      SimpleArrives(start, data);
    }
  }

  lemma SimpleArrives(start: word, data: seq<byte>)
    requires 2 <= |data| && start + |data| <= 0x10000 && start % ENDPOINT_SIZE > 0
    requires ProgramPackets(Simple(start, data), start, data)
    ensures Arrived(Simple(start, data), start, data) == ([0] + data)[..|data| / 2 * 2]
  {
    hide AddressedCommand;
    var packets, a := Simple(start, data), start % ENDPOINT_SIZE;
    assert packets[1][a - 1..] == [0] + data && packets[2..] == [];
    assert Stream(packets, start) == OutEndpoint([0] + data, []);
    assert OutEndpoint([0] + data, []).Words() == Padded([0] + data);
  }

  /** What comes back are the cells of the range. */
  lemma UploadedCells(d: Device, length: word, packets: seq<seq<byte>>, start: word, data: seq<byte>,
                      uploadLength: word)
    requires Programmable(d, length, start, |data|) && ProgramPackets(packets, start, data)
    ensures var chip, addr, w := d.flash.chip, Address(d.flash.chip, d.page64, start), |data| / 2 * 2;
      Uploaded(d, length, packets, start, |data|, uploadLength)
      == Wrapped(chip, d.flash.memory, Even(addr), Arrived(packets, start, data))[addr..addr + w]
  {
    hide Handle, Wrapped, AddressedCommand, ProgramPackets, Arrived, Address;
    ProgramThenUpload(d, length, packets, start, data, uploadLength);
  }

  /** From a bank boundary, some words that run over the end of their page are lost. */
  lemma StraddlingFails(d: Device, length: word, start: word, n: nat, uploadLength: word) returns (data: seq<byte>)
    requires Programmable(d, length, start, n) && start % ENDPOINT_SIZE == 0
    requires !Storable(d.flash.chip, Address(d.flash.chip, d.page64, start), start, n)
    ensures |data| == n && ProgramPackets(Simple(start, data), start, data)
    ensures Uploaded(d, length, Simple(start, data), start, n, uploadLength) != WholeWords(data)
  {
    hide Handle, Wrapped, ProgramPackets, Address, Uploaded, Simple, Arrived, Chip.PageOf, Chip.Offset;
    var chip, addr, w := d.flash.chip, Address(d.flash.chip, d.page64, start), n / 2 * 2;
    var words := Misplaced(chip, d.flash.memory, addr, w);
    data := words + Zeros(n - w);
    assert WholeWords(data) == words;
    SimpleIsDownload(start, data);
    EvenAddress(chip, d.page64, start);
    UploadedCells(d, length, Simple(start, data), start, data, uploadLength);
  }

  /** From an even address off a bank boundary, the first byte is lost. */
  lemma EvenStartFails(d: Device, length: word, start: word, n: nat, uploadLength: word) returns (data: seq<byte>)
    requires Programmable(d, length, start, n) && start % ENDPOINT_SIZE > 0
    requires Address(d.flash.chip, d.page64, start) % 2 == 0
    ensures |data| == n && ProgramPackets(Simple(start, data), start, data)
    ensures Uploaded(d, length, Simple(start, data), start, n, uploadLength) != WholeWords(data)
  {
    hide Handle, Wrapped, ProgramPackets, Address, Uploaded, Simple, Arrived, Chip.PageOf, Chip.Offset;
    var chip, addr, w := d.flash.chip, Address(d.flash.chip, d.page64, start), n / 2 * 2;
    data := [1] + Zeros(n - 1);
    SimpleIsDownload(start, data);
    UploadedCells(d, length, Simple(start, data), start, data, uploadLength);
    var bytes := ([0] + data)[..w];
    StartCell(chip, d.flash.memory, addr, bytes);
    var m := Wrapped(chip, d.flash.memory, addr, bytes);
    assert m[addr..addr + w][0] == m[addr] == 0 && WholeWords(data)[0] == 1;
  }

  /** From an odd address, the last byte is lost: the word before it is programmed as well. */
  lemma OddStartFails(d: Device, length: word, start: word, n: nat, uploadLength: word) returns (data: seq<byte>)
    requires Programmable(d, length, start, n) && start % ENDPOINT_SIZE > 0
    requires Address(d.flash.chip, d.page64, start) % 2 == 1
    ensures |data| == n && ProgramPackets(Simple(start, data), start, data)
    ensures Uploaded(d, length, Simple(start, data), start, n, uploadLength) != WholeWords(data)
  {
    hide Handle, Wrapped, ProgramPackets, Address, Uploaded, Simple, Arrived, Chip.PageOf, Chip.Offset;
    var chip, addr, w := d.flash.chip, Address(d.flash.chip, d.page64, start), n / 2 * 2;
    var last := addr + w - 1;
    var b := Unlike(d.flash.memory[last], ERASED, 0);
    data := seq(n, i => if i == w - 1 then b else 0);
    SimpleIsDownload(start, data);
    UploadedCells(d, length, Simple(start, data), start, data, uploadLength);
    var bytes := ([0] + data)[..w];
    assert forall i :: 0 <= i < w ==> bytes[i] == 0;
    WrappedCell(chip, d.flash.memory, Even(addr), bytes, last);
    var m := Wrapped(chip, d.flash.memory, Even(addr), bytes);
    assert m[addr..addr + w][w - 1] == m[last] && WholeWords(data)[w - 1] == b;
  }

  // ---------------------------------------------------------------------------
  // The exact condition
  // ---------------------------------------------------------------------------

  /**
   * Whatever data of a length is downloaded to a start address, however it is cut into
   * packets, it is read back as sent if and only if the start address is at a bank boundary
   * and the range starts at a page boundary or lies in one page.
   */
  lemma RoundTripExact(d: Device, length: word, start: word, n: nat, uploadLength: word)
    requires Programmable(d, length, start, n)
    ensures (forall packets, data :: |data| == n && ProgramPackets(packets, start, data) ==>
               Uploaded(d, length, packets, start, n, uploadLength) == WholeWords(data))
       <==> Storable(d.flash.chip, Address(d.flash.chip, d.page64, start), start, n)
  {
    hide Handle, Wrapped, ProgramPackets, Address, Uploaded, Simple, WholeWords, Chip.PageOf, Chip.Offset;
    var addr := Address(d.flash.chip, d.page64, start);
    if Storable(d.flash.chip, addr, start, n) {
      forall packets, data | |data| == n && ProgramPackets(packets, start, data)
        ensures Uploaded(d, length, packets, start, n, uploadLength) == WholeWords(data)
      {
        StorableReadsBack(d, length, packets, start, data, uploadLength);
      }
    } else if start % ENDPOINT_SIZE == 0 {
      var data := StraddlingFails(d, length, start, n, uploadLength);
    } else if addr % 2 == 0 {
      var data := EvenStartFails(d, length, start, n, uploadLength);
    } else {
      var data := OddStartFails(d, length, start, n, uploadLength);
    }
  }

  lemma StorableReadsBack(d: Device, length: word, packets: seq<seq<byte>>, start: word, data: seq<byte>,
                          uploadLength: word)
    requires Programmable(d, length, start, |data|) && ProgramPackets(packets, start, data)
    requires Storable(d.flash.chip, Address(d.flash.chip, d.page64, start), start, |data|)
    ensures Uploaded(d, length, packets, start, |data|, uploadLength) == WholeWords(data)
  {
    hide Handle, Wrapped, AddressedCommand, ProgramPackets, Arrived, Address, Chip.PageOf, Chip.Offset;
    ProgramThenUpload(d, length, packets, start, data, uploadLength);
  }

  /** Two bytes for address 1: the second one is not programmed. */
  lemma TwoBytesAtOne(d: Device, length: word, packets: seq<seq<byte>>, data: seq<byte>, uploadLength: word)
    requires Programmable(d, length, 1, 2) && d.page64 == 0
    requires |data| == 2 && ProgramPackets(packets, 1, data) && data[1] != ERASED
    ensures Handle(d, Dnload(length, packets)).0.flash.Read(2) == ERASED
    ensures Uploaded(d, length, packets, 1, 2, uploadLength) != data
  {
    hide Handle, Wrapped, ProgramPackets, Uploaded, Arrived, Chip.PageOf, Chip.Offset;
    var chip, bytes := d.flash.chip, Arrived(packets, 1, data);
    ProgramImage(d, length, packets, 1, data);
    UploadedCells(d, length, packets, 1, data, uploadLength);
    ZeroAligned(chip);
    WrappedPage(chip, d.flash.memory, 0, bytes);
    PutCell(chip, d.flash.memory, 0, bytes, 2);
    var m := Wrapped(chip, d.flash.memory, 0, bytes);
    assert m[1..3][1] == m[2];
  }
}
