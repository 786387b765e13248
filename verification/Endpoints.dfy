/** USB endpoints as the firmware sees them: one bank at a time of a sequence of packets. */
module Endpoints {
  import opened Bytes

  // ---------------------------------------------------------------------------
  // From the host
  // ---------------------------------------------------------------------------

  /**
   * The bank being read and the packets the host sends after it. Clearing the bank waits
   * for the next packet; when there is none, the wait only ends because the device was
   * detached.
   */
  datatype OutEndpoint = OutEndpoint(bank: seq<byte>, queue: seq<seq<byte>>) {

    /** Endpoint_ClearOUT followed by the wait, when another packet comes. */
    function Next(): OutEndpoint
      requires queue != []
    {
      OutEndpoint(queue[0], queue[1..])
    }

    /** Nothing in the bank and nothing to come. */
    predicate Dry() { bank == [] && queue == [] }

    /** The endpoint after turning over an empty bank. */
    function Ready(): OutEndpoint
      requires !Dry()
    {
      if bank == [] then Next() else this
    }

    /** Endpoint_Read_8; an empty bank reads as 0. */
    function Peek(): byte { if bank == [] then 0 else bank[0] }
    function Drop(): OutEndpoint { if bank == [] then this else this.(bank := bank[1..]) }

    /** Every byte still to be read. */
    function Pending(): seq<byte> { bank + Flatten(queue) }

    /**
     * Every word still to be read. A bank that ends between the two bytes of a word, or is
     * empty on arrival, gives zeros for what it lacks.
     */
    function Words(): seq<byte> { (if bank == [] then [] else Padded(bank)) + PaddedAll(queue) }

    /** The packets that carry the next `n` bytes are not empty and end between words. */
    ghost predicate Carries(n: nat)
      decreases |queue|
    {
      n <= |bank| || (|bank| % 2 == 0 && queue != [] && queue[0] != [] && Next().Carries(n - |bank|))
    }

    /** Whole words per packet, and no empty packet. */
    predicate Even() {
      && |bank| % 2 == 0
      && forall i :: 0 <= i < |queue| ==> |queue[i]| > 0 && |queue[i]| % 2 == 0
    }
  }

  function Padded(packet: seq<byte>): seq<byte> {
    if packet == [] then [0, 0] else if |packet| % 2 == 1 then packet + [0] else packet
  }

  function PaddedAll(packets: seq<seq<byte>>): seq<byte> {
    if packets == [] then [] else Padded(packets[0]) + PaddedAll(packets[1..])
  }

  lemma PaddedStep(packet: seq<byte>)
    ensures |Padded(packet)| >= 2
    ensures var e := OutEndpoint(packet, []);
      && Padded(packet)[0] == e.Peek() && Padded(packet)[1] == e.Drop().Peek()
      && Padded(packet)[2..] == (if e.Drop().Drop().bank == [] then [] else Padded(e.Drop().Drop().bank))
  {
  }

  /** Reading a word takes the next of `Words`. */
  lemma TakeWord(e: OutEndpoint)
    requires e.Words() != []
    ensures !e.Dry() && |e.Words()| >= 2
    ensures var r := e.Ready();
      && r.Peek() == e.Words()[0] && r.Drop().Peek() == e.Words()[1]
      && r.Drop().Drop().Words() == e.Words()[2..]
  {
    hide Padded;
    var r := e.Ready();
    PaddedStep(r.bank);
    assert e.Words() == Padded(r.bank) + PaddedAll(r.queue);
    assert (Padded(r.bank) + PaddedAll(r.queue))[2..] == Padded(r.bank)[2..] + PaddedAll(r.queue);
  }

  /** There are at least as many bytes of words as bytes. */
  lemma {:induction false} WordsCover(packets: seq<seq<byte>>)
    ensures |PaddedAll(packets)| >= |Flatten(packets)|
    decreases |packets|
  {
    if packets != [] {
      WordsCover(packets[1..]);
    }
  }

  /** Packets that end between words deliver their bytes as they are. */
  lemma {:induction false} CarriedInOrder(e: OutEndpoint, n: nat)
    requires e.Carries(n) && n % 2 == 0
    ensures n <= |e.Words()| && n <= |e.Pending()| && e.Words()[..n] == e.Pending()[..n]
    decreases |e.queue|
  {
    if n > |e.bank| {
      var next := e.Next();
      CarriedInOrder(next, n - |e.bank|);
      assert e.Words() == e.bank + next.Words() && e.Pending() == e.bank + next.Pending();
    } else if n > 0 {
      assert e.Words()[..n] == e.bank[..n] == e.Pending()[..n];
    }
  }

  lemma ReadyKeeps(e: OutEndpoint)
    requires e.Even() && e.Pending() != []
    ensures !e.Dry() && |e.Ready().bank| >= 2
    ensures e.Ready().Even() && e.Ready().Pending() == e.Pending()
  {
  }

  /** Reading a word takes the next two bytes, wherever the packets were cut. */
  lemma ReadWord(e: OutEndpoint)
    requires e.Even() && |e.Pending()| >= 2
    ensures !e.Dry()
    ensures var r := e.Ready();
      && r.Peek() == e.Pending()[0] && r.Drop().Peek() == e.Pending()[1]
      && r.Drop().Drop().Even() && r.Drop().Drop().Pending() == e.Pending()[2..]
  {
    ReadyKeeps(e);
    var r := e.Ready();
    assert r.Drop().Drop().bank == r.bank[2..];
    assert r.Pending()[2..] == r.bank[2..] + Flatten(r.queue);
  }

  // ---------------------------------------------------------------------------
  // To the host
  // ---------------------------------------------------------------------------

  /** A response cut into full packets, ended by a short, possibly empty, one. */
  function Terminated(size: nat, bytes: seq<byte>): (packets: seq<seq<byte>>)
    requires size > 0
    ensures packets != []
    decreases |bytes|
  {
    if |bytes| < size then [bytes] else [bytes[..size]] + Terminated(size, bytes[size..])
  }

  /** The packets of a bulk transfer: all full but the last, which is short. */
  ghost predicate IsTransfer(size: nat, packets: seq<seq<byte>>) {
    && packets != []
    && (forall i :: 0 <= i < |packets| - 1 ==> |packets[i]| == size)
    && |packets[|packets| - 1]| < size
  }

  lemma TerminatedCons(size: nat, first: seq<byte>, rest: seq<byte>)
    requires size > 0 && |first| == size
    ensures Terminated(size, first + rest) == [first] + Terminated(size, rest)
  {
    assert (first + rest)[..size] == first && (first + rest)[size..] == rest;
  }

  lemma {:induction false} TerminatedIsTransfer(size: nat, bytes: seq<byte>)
    requires size > 0
    ensures Flatten(Terminated(size, bytes)) == bytes
    ensures IsTransfer(size, Terminated(size, bytes))
    decreases |bytes|
  {
    if |bytes| < size {
      FlattenOne(bytes);
    } else {
      hide Flatten, Terminated;
      var first, rest := bytes[..size], bytes[size..];
      assert bytes == first + rest;
      TerminatedCons(size, first, rest);
      TerminatedIsTransfer(size, rest);
      FlattenCons(first, Terminated(size, rest));
      TransferCons(size, first, Terminated(size, rest));
    }
  }

  lemma TransferCons(size: nat, first: seq<byte>, rest: seq<seq<byte>>)
    requires |first| == size && IsTransfer(size, rest)
    ensures IsTransfer(size, [first] + rest)
  {
  }

  /** The transfer is determined by its bytes: the host cannot misread where it ends. */
  lemma {:induction false} TransferUnique(size: nat, packets: seq<seq<byte>>)
    requires size > 0 && IsTransfer(size, packets)
    ensures packets == Terminated(size, Flatten(packets))
    decreases |packets|
  {
    if |packets| == 1 {
      assert packets == [packets[0]];
      FlattenOne(packets[0]);
    } else {
      hide Flatten, Terminated;
      var first, rest := packets[0], packets[1..];
      assert packets == [first] + rest;
      TransferUnique(size, rest);
      FlattenCons(first, rest);
      TerminatedCons(size, first, Flatten(rest));
    }
  }

  /** A data stage cut into full packets, the last of which may also be full. */
  function DataStage(size: nat, bytes: seq<byte>): (packets: seq<seq<byte>>)
    requires size > 0
    decreases |bytes|
  {
    if |bytes| <= size then [bytes] else [bytes[..size]] + DataStage(size, bytes[size..])
  }

  lemma DataStageCons(size: nat, first: seq<byte>, rest: seq<byte>)
    requires size > 0 && |first| == size && rest != []
    ensures DataStage(size, first + rest) == [first] + DataStage(size, rest)
  {
    assert (first + rest)[..size] == first && (first + rest)[size..] == rest;
  }

  lemma {:induction false} DataStageBytes(size: nat, bytes: seq<byte>)
    requires size > 0
    ensures Flatten(DataStage(size, bytes)) == bytes
    decreases |bytes|
  {
    if |bytes| <= size {
      FlattenOne(bytes);
    } else {
      hide Flatten, DataStage;
      var first, rest := bytes[..size], bytes[size..];
      assert bytes == first + rest;
      DataStageCons(size, first, rest);
      DataStageBytes(size, rest);
      FlattenCons(first, DataStage(size, rest));
    }
  }

  /** The bank being filled and the packets sent before it. */
  datatype InEndpoint = InEndpoint(size: nat, bank: seq<byte>, sent: seq<seq<byte>>) {
    predicate Valid() { size > 0 && |bank| <= size && forall i :: 0 <= i < |sent| ==> |sent[i]| == size }

    /** Endpoint_ClearIN. */
    function Send(): InEndpoint { this.(bank := [], sent := sent + [bank]) }

    /** Everything written so far. */
    function Written(): seq<byte> { Flatten(sent) + bank }
  }

  /** Packets already sent full and the cut of what follows are the cut of the whole. */
  lemma {:induction false} TerminatedAppend(size: nat, sent: seq<seq<byte>>, rest: seq<byte>)
    requires size > 0 && forall i :: 0 <= i < |sent| ==> |sent[i]| == size
    ensures Terminated(size, Flatten(sent) + rest) == sent + Terminated(size, rest)
    decreases |sent|
  {
    if sent == [] {
      assert Flatten(sent) + rest == rest;
    } else {
      hide Flatten, Terminated;
      var first, more := sent[0], sent[1..];
      assert sent == [first] + more;
      FlattenCons(first, more);
      TerminatedAppend(size, more, rest);
      assert first + Flatten(more) + rest == first + (Flatten(more) + rest);
      TerminatedCons(size, first, Flatten(more) + rest);
    }
  }

  lemma {:induction false} DataStageAppend(size: nat, sent: seq<seq<byte>>, rest: seq<byte>)
    requires size > 0 && rest != [] && forall i :: 0 <= i < |sent| ==> |sent[i]| == size
    ensures DataStage(size, Flatten(sent) + rest) == sent + DataStage(size, rest)
    decreases |sent|
  {
    if sent == [] {
      assert Flatten(sent) + rest == rest;
    } else {
      hide Flatten, DataStage;
      var first, more := sent[0], sent[1..];
      assert sent == [first] + more;
      FlattenCons(first, more);
      DataStageAppend(size, more, rest);
      assert first + Flatten(more) + rest == first + (Flatten(more) + rest);
      DataStageCons(size, first, Flatten(more) + rest);
    }
  }

  /** Sending the last bank completes the data stage. */
  lemma StageSent(e: InEndpoint)
    requires e.Valid() && (e.bank == [] ==> e.sent == [])
    ensures e.Send().sent == DataStage(e.size, e.Written())
  {
    if e.bank == [] {
      assert e.Written() == [];
    } else {
      DataStageAppend(e.size, e.sent, e.bank);
    }
  }

  lemma NothingWritten(size: nat)
    ensures InEndpoint(size, [], []).Written() == []
  {
  }

  /** Sending the last bank, and an empty packet if it was full, completes the transfer. */
  lemma TransferSent(e: InEndpoint)
    requires e.Valid()
    ensures (if |e.bank| == e.size then e.Send().Send() else e.Send()).sent == Terminated(e.size, e.Written())
  {
    if |e.bank| == e.size {
      var full := e.sent + [e.bank];
      TerminatedAppend(e.size, full, []);
      FlattenAppend(e.sent, [e.bank]);
      FlattenOne(e.bank);
      assert Flatten(full) + [] == e.Written();
    } else {
      TerminatedAppend(e.size, e.sent, e.bank);
    }
  }
}
