/** Programming the EEPROM over DFU and reading it back. */
module DfuEeprom {
  import opened Bytes
  import opened FlashMemory
  import opened Endpoints
  import opened Dfu
  import opened DfuImage

  /** Every packet still to come carries something. */
  ghost predicate NoEmptyPackets(e: OutEndpoint) {
    forall i :: 0 <= i < |e.queue| ==> |e.queue[i]| > 0
  }

  /** Reading a byte takes the next one, wherever the packets were cut. */
  lemma ReadNext(e: OutEndpoint)
    requires NoEmptyPackets(e) && e.Pending() != []
    ensures !e.Dry() && e.Ready().Peek() == e.Pending()[0]
    ensures NoEmptyPackets(e.Ready().Drop()) && e.Ready().Drop().Pending() == e.Pending()[1..]
  {
    var r := e.Ready();
    assert r.Pending() == e.Pending() && r.bank != [];
    assert r.Pending()[1..] == r.bank[1..] + Flatten(r.queue);
  }

  /** The memory with `data` at `addr`. */
  ghost function Overlaid(m: seq<byte>, addr: nat, data: seq<byte>): (r: seq<byte>)
    requires addr + |data| <= |m|
    ensures |r| == |m|
  {
    m[..addr] + data + m[addr + |data|..]
  }

  lemma OverlaidStep(m: seq<byte>, addr: nat, data: seq<byte>)
    requires data != [] && addr + |data| <= |m|
    ensures Overlaid(m[addr := data[0]], addr + 1, data[1..]) == Overlaid(m, addr, data)
  {
  }

  /** The EEPROM loop stores the data byte by byte and ends one past it. */
  lemma {:induction false} WriteEepromStores(m: seq<byte>, addr: word, data: seq<byte>, e: OutEndpoint)
    requires addr + |data| <= |m| && addr + |data| < 0x10000 && NoEmptyPackets(e) && data <= e.Pending()
    ensures var w := WriteEeprom(m, addr, |data|, e);
      w.completed && w.eeprom == Overlaid(m, addr, data) && w.addr == addr + |data|
    decreases |data|
  {
    if data == [] {
      assert Overlaid(m, addr, data) == m;
    } else {
      hide OutEndpoint.Ready, OutEndpoint.Peek, OutEndpoint.Drop, OutEndpoint.Pending, OutEndpoint.Dry,
           NoEmptyPackets, Overlaid;
      ReadNext(e);
      var rest := e.Ready().Drop();
      assert e.Pending()[0] == data[0] && data[1..] <= rest.Pending();
      assert Wrap16(addr + 1) == addr + 1;
      OverlaidStep(m, addr, data);
      WriteEepromStores(m[addr := data[0]], addr + 1, data[1..], rest);
    }
  }

  /**
   * The packets of an EEPROM programming request: the command and the filler, as many
   * alignment bytes as the start address is past a bank boundary, then the data, cut
   * anywhere. If there are alignment bytes, command and filler are a packet of their own,
   * as the 32-byte endpoint has it, and the next packet holds all of them.
   */
  ghost predicate EepromPackets(packets: seq<seq<byte>>, start: word, alignment: seq<byte>, data: seq<byte>) {
    && packets != [] && 0 < |data| && start + |data| < 0x10000
    && |alignment| == start % ENDPOINT_SIZE
    && |packets[0]| >= 32
    && packets[0][..6] == AddressedCommand(COMMAND_PROG_START, 0x01, start, start + |data| - 1)
    && NoEmptyPackets(OutEndpoint([], packets[1..]))
    && (alignment != [] ==> |packets[0]| == 32 && |packets| > 1 && |packets[1]| >= |alignment|)
    && alignment + data <= OutEndpoint(packets[0][32..], packets[1..]).Pending()
  }

  /** What the loop takes for the data: the last alignment byte is taken for its first byte. */
  ghost function Taken(alignment: seq<byte>, data: seq<byte>): (taken: seq<byte>)
    ensures |taken| == |data|
  {
    if alignment == [] then data else ([alignment[|alignment| - 1]] + data)[..|data|]
  }

  /** The alignment bytes do no harm. */
  ghost predicate Harmless(alignment: seq<byte>, data: seq<byte>) {
    alignment == [] || forall i :: 0 <= i < |data| ==> data[i] == alignment[|alignment| - 1]
  }

  lemma {:induction false} ShiftedConstant(b: byte, data: seq<byte>, i: nat)
    requires i < |data| && ([b] + data)[..|data|] == data
    ensures data[i] == b
  {
    assert data[i] == ([b] + data)[i];
    if i > 0 {
      ShiftedConstant(b, data, i - 1);
    }
  }

  /** The data arrives as sent if and only if it only repeats the last alignment byte. */
  lemma TakenExact(alignment: seq<byte>, data: seq<byte>)
    ensures Taken(alignment, data) == data <==> Harmless(alignment, data)
  {
    if alignment != [] && Taken(alignment, data) == data {
      forall i | 0 <= i < |data|
        ensures data[i] == alignment[|alignment| - 1]
      {
        ShiftedConstant(alignment[|alignment| - 1], data, i);
      }
    }
  }

  lemma ProcessEepromProgram(d: Device, e: OutEndpoint, start: word, end: word)
    requires !d.secure && |e.bank| >= 6 && e.bank[..6] == AddressedCommand(COMMAND_PROG_START, 0x01, start, end)
    ensures var c := TakeCommand(d, e);
      && Process(c) == d.(command := COMMAND_PROG_START, data := c.data, dataSize := CountDown(d.dataSize, 6),
                          startAddr := start, endAddr := end, state := DnloadIdle)
      && c.data[0] == 0x01 && !Rejected(c) && AfterCommand(e) == e.(bank := e.bank[6..])
  {
    hide CountDown, TakeCommand, AfterCommand, LoadAddresses;
    CommandAddresses(d, e, COMMAND_PROG_START, 0x01, start, end);
  }

  /** What is left of the packets once filler and alignment bytes are skipped. */
  lemma SkipAlignment(e: OutEndpoint, alignment: seq<byte>, data: seq<byte>)
    requires |e.bank| >= FILLER_SIZE && NoEmptyPackets(e)
    requires alignment != [] ==> |e.bank| == FILLER_SIZE && e.queue != [] && |e.queue[0]| >= |alignment|
    requires alignment + data <= e.(bank := e.bank[FILLER_SIZE..]).Pending()
    ensures var body := Discard(Discard(e, FILLER_SIZE), |alignment|);
      NoEmptyPackets(body) && Taken(alignment, data) <= body.Pending()
  {
    hide Discard, Taken, Flatten;
    var rest := e.(bank := e.bank[FILLER_SIZE..]);
    DiscardBank(e, FILLER_SIZE);
    if alignment == [] {
      DiscardBank(rest, 0);
      assert rest.bank[0..] == rest.bank && alignment + data == data;
      TakenAll(data);
    } else {
      TurnoverCostsOne(rest, |alignment|);
      assert e.queue == [e.queue[0]] + e.queue[1..];
      FlattenCons(e.queue[0], e.queue[1..]);
      assert rest.bank == [];
      TakenFromStream(e.queue[0], Flatten(e.queue[1..]), alignment, data);
    }
  }

  lemma TakenAll(data: seq<byte>)
    ensures Taken([], data) == data
  {
  }

  lemma TakenFromStream(first: seq<byte>, more: seq<byte>, alignment: seq<byte>, data: seq<byte>)
    requires 0 < |alignment| <= |first| && alignment + data <= first + more
    ensures Taken(alignment, data) <= first[|alignment| - 1..] + more
  {
    var n, stream := |alignment|, first + more;
    assert first[n - 1..] + more == stream[n - 1..];
    forall i | 0 <= i < |data|
      ensures Taken(alignment, data)[i] == stream[n - 1..][i]
    {
      assert stream[n - 1 + i] == (alignment + data)[n - 1 + i];
    }
  }

  lemma EepromStage(d: Device, e: OutEndpoint, alignment: seq<byte>, data: seq<byte>)
    requires d.data[0] == 0x01 && |alignment| == d.startAddr % ENDPOINT_SIZE
    requires 0 < |data| && d.startAddr + |data| < 0x10000 && d.startAddr + |data| <= |d.eeprom|
    requires d.endAddr == d.startAddr + |data| - 1
    requires |e.bank| >= FILLER_SIZE && NoEmptyPackets(e)
    requires alignment != [] ==> |e.bank| == FILLER_SIZE && e.queue != [] && |e.queue[0]| >= |alignment|
    requires alignment + data <= e.(bank := e.bank[FILLER_SIZE..]).Pending()
    ensures Programmed(d, e) ==
      (d.(eeprom := Overlaid(d.eeprom, d.startAddr, Taken(alignment, data)), startAddr := d.startAddr + |data|), true)
  {
    hide WriteEeprom, WriteWords, Discard, BytesRemaining, Overlaid, OutEndpoint.Pending, Taken;
    SkipAlignment(e, alignment, data);
    CountBytes(d, |data|);
    WriteEepromStores(d.eeprom, d.startAddr, Taken(alignment, data), Discard(Discard(e, FILLER_SIZE), |alignment|));
  }

  /**
   * The request stores what was taken for the data and touches nothing else of the
   * memories; that is the data itself if and only if the alignment bytes are harmless.
   */
  lemma ProgramEeprom(d: Device, length: word, packets: seq<seq<byte>>, start: word, alignment: seq<byte>,
                      data: seq<byte>)
    requires !d.secure && !d.waitForExit && length > 6
    requires EepromPackets(packets, start, alignment, data) && start + |data| <= |d.eeprom|
    ensures var r := Handle(d, Dnload(length, packets));
      && r.1 == Reply([], false, false) && !r.0.secure && !r.0.waitForExit
      && r.0.eeprom == Overlaid(d.eeprom, start, Taken(alignment, data)) && r.0.flash == d.flash
      && (r.0.eeprom == Overlaid(d.eeprom, start, data) <==> Harmless(alignment, data))
  {
    hide Overlaid, Process, Rejected, Programmed, CountDown, TakeCommand, AfterCommand, OutEndpoint.Pending, Taken,
         Harmless;
    HandleDnload(d, length, packets);
    var sized, e := d.(dataSize := length), OutEndpoint(packets[0], packets[1..]);
    ProcessEepromProgram(sized, e, start, start + |data| - 1);
    var body := AfterCommand(e);
    assert body.(bank := body.bank[FILLER_SIZE..]) == OutEndpoint(packets[0][32..], packets[1..]);
    EepromStage(Process(TakeCommand(sized, e)), body, alignment, data);
    TakenExact(alignment, data);
    OverlaidInjective(d.eeprom, start, Taken(alignment, data), data);
  }

  lemma OverlaidInjective(m: seq<byte>, start: nat, a: seq<byte>, b: seq<byte>)
    requires |a| == |b| && start + |a| <= |m|
    ensures Overlaid(m, start, a) == Overlaid(m, start, b) <==> a == b
  {
    assert Overlaid(m, start, a)[start..start + |a|] == a;
    assert Overlaid(m, start, b)[start..start + |b|] == b;
  }

  /** An EEPROM read command and an upload return the bytes they name. */
  lemma ReadEepromBack(d: Device, start: word, n: nat, length: word)
    requires !d.secure && !d.waitForExit && 0 < n && start + n < 0x10000
    ensures var command := AddressedCommand(COMMAND_DISP_DATA, 0x02, start, start + n - 1);
      var r := Handle(d, Dnload(6, [command]));
      var u := Handle(r.0, Upload(length));
      && u.1 == Reply(DataStage(ENDPOINT_SIZE, ReadEeprom(d.eeprom, start, n)), false, false)
      && u.0 == d.(command := u.0.command, data := u.0.data, dataSize := length, startAddr := start + n,
                   endAddr := start + n - 1, state := Idle)
  {
    hide DataStage, ReadEeprom, Programmed, TakeCommand, AfterCommand, LoadAddresses, BytesRemaining;
    var command := AddressedCommand(COMMAND_DISP_DATA, 0x02, start, start + n - 1);
    var e := OutEndpoint([command][0], [command][1..]);
    var sized := d.(dataSize := 6);
    assert command[..6] == command;
    CommandAddresses(sized, e, COMMAND_DISP_DATA, 0x02, start, start + n - 1);
    var c := TakeCommand(sized, e);
    assert Process(c) == c.(startAddr := start, endAddr := start + n - 1, state := UploadIdle);
    CountBytes(Process(c).(dataSize := length), n);
  }

  lemma OverlaidReads(m: seq<byte>, start: word, data: seq<byte>)
    requires start + |data| <= |m| && start + |data| < 0x10000
    ensures ReadEeprom(Overlaid(m, start, data), start, |data|) == data
  {
    forall i | 0 <= i < |data|
      ensures ReadEeprom(Overlaid(m, start, data), start, |data|)[i] == data[i]
    {
      assert Wrap16(start + i) == start + i;
      var r := Overlaid(m, start, data);
      assert ReadEeprom(r, start, |data|)[i] == ReadEepromByte(r, Wrap16(start + i));
      assert r[start + i] == data[i];
    }
  }

  /**
   * EEPROM contents programmed over DFU are read back as they were taken, so the host gets
   * back what it sent if and only if the alignment bytes are harmless.
   */
  lemma EepromRoundTrip(d: Device, length: word, packets: seq<seq<byte>>, start: word, alignment: seq<byte>,
                        data: seq<byte>, uploadLength: word)
    requires !d.secure && !d.waitForExit && length > 6
    requires EepromPackets(packets, start, alignment, data) && start + |data| <= |d.eeprom|
    ensures var programmed := Handle(d, Dnload(length, packets));
      var command := AddressedCommand(COMMAND_DISP_DATA, 0x02, start, start + |data| - 1);
      var asked := Handle(programmed.0, Dnload(6, [command]));
      var uploaded := Flatten(Handle(asked.0, Upload(uploadLength)).1.packets);
      uploaded == Taken(alignment, data) && (uploaded == data <==> Harmless(alignment, data))
  {
    hide Handle, Overlaid, ReadEeprom, DataStage, EepromPackets, AddressedCommand, Taken, Harmless;
    EepromBounds(packets, start, alignment, data);
    ProgramEeprom(d, length, packets, start, alignment, data);
    ReadEepromBack(Handle(d, Dnload(length, packets)).0, start, |data|, uploadLength);
    OverlaidReads(d.eeprom, start, Taken(alignment, data));
    DataStageBytes(ENDPOINT_SIZE, Taken(alignment, data));
    TakenExact(alignment, data);
  }

  lemma EepromBounds(packets: seq<seq<byte>>, start: word, alignment: seq<byte>, data: seq<byte>)
    requires EepromPackets(packets, start, alignment, data)
    ensures 0 < |data| && start + |data| < 0x10000
  {
  }

  /** One byte for address 1, sent with a zero alignment byte: the zero is stored instead. */
  lemma UnalignedByteLost(d: Device, b: byte)
    requires !d.secure && !d.waitForExit && |d.eeprom| > 1 && b != 0
    ensures var head := AddressedCommand(COMMAND_PROG_START, 0x01, 1, 1) + Zeros(26);
      ReadEepromByte(Handle(d, Dnload(34, [head, [0, b]])).0.eeprom, 1) == 0
  {
    hide Handle, Overlaid, AddressedCommand, Zeros;
    var command := AddressedCommand(COMMAND_PROG_START, 0x01, 1, 1);
    assert |command| == 6 by { CommandLength(COMMAND_PROG_START, 0x01, 1, 1); }
    var head := command + Zeros(26);
    var packets: seq<seq<byte>> := [head, [0, b]];
    assert head[..6] == command && head[32..] == [];
    var e := OutEndpoint([], packets[1..]);
    assert packets[1..] == [[0, b]];
    FlattenOne([0, b]);
    assert e.Pending() == [0, b] == [0] + [b];
    assert EepromPackets(packets, 1, [0], [b]);
    ProgramEeprom(d, 34, packets, 1, [0], [b]);
    assert Taken([0], [b]) == [0];
    OverlaidAt(d.eeprom, 1, [0]);
  }

  lemma OverlaidAt(m: seq<byte>, start: nat, data: seq<byte>)
    requires data != [] && start + |data| <= |m|
    ensures Overlaid(m, start, data)[start] == data[0]
  {
  }
}
