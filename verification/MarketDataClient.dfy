/** The market data client: every packet goes through the parser, and its
    sequence numbers through the initial-sync state machine. */
module MarketData {
  import opened Words
  import opened L2Book
  import opened BuilderModel
  import opened OrderbookBuilder
  import opened ItchWire
  import opened ItchParsing
  import opened Rewind

  /** The numbers a packet carries, filled into a vector of zeros. */
  method PopulateVector(first: uint64, count: uint16) returns (res: seq<uint64>)
    ensures res == Numbers(Range(first, count))
    ensures |res| == count
    ensures forall j :: 0 <= j < count ==> res[j] == if first + count < 0x1_0000_0000_0000_0000 then first + j else 0
  {
    res := Zeros(count);
    var bound := Add64(first, count);
    var i := first;
    var counter := 0;
    while i < bound
      invariant counter <= count
      invariant first + count < TWO64 ==> i == first + counter
      invariant TWO64 <= first + count ==> i == first && counter == 0 && bound < first
      invariant |res| == count
      invariant forall j :: 0 <= j < count ==> res[j] == if j < counter then first + j else 0
      decreases bound - i
    {
      res := res[i - first := first + counter];
      counter := counter + 1;
      i := i + 1;
    }
    assert res == Numbers(Range(first, count));
  }

  class MarketDataClient {
    const builder: ConcreteOrderbookBuilder
    const itchParser: ItchParser
    var missingSequenceNumbers: seq<uint64>
    var lastRequestedSequenceNumber: uint64
    var rewindTill: uint64
    var nextExpectedSeqNo: uint64
    var mode: Mode
    ghost var sent: seq<Request>  // what went out on the unicast socket

    ghost predicate Valid()
      reads this, builder, builder.Repr
    {
      itchParser.builder == builder && builder.Valid()
    }

    ghost function SyncState(): ClientState
      reads this
    {
      ClientState(mode, nextExpectedSeqNo, missingSequenceNumbers, lastRequestedSequenceNumber, rewindTill, sent)
    }

    constructor ()
      ensures Valid() && fresh(builder) && fresh(itchParser) && fresh(builder.Repr)
      ensures builder.State() == INITIAL && SyncState() == FRESH
      ensures mode == Initial && nextExpectedSeqNo == 1 && missingSequenceNumbers == [] && sent == []
      ensures lastRequestedSequenceNumber == 0 && rewindTill == 0
    {
      var b := new ConcreteOrderbookBuilder();
      builder := b;
      itchParser := new ItchParser(b);
      missingSequenceNumbers, sent := [], [];
      lastRequestedSequenceNumber, rewindTill, nextExpectedSeqNo := 0, 0, 1;
      mode := Initial;
    }

    /** The whole of `parse`: the books follow the packet's messages whatever the
        mode, then the sync state follows its sequence numbers. The packet must
        not make the client read the back of an empty stack. */
    method Parse(packet: bytes) returns (exited: bool)
      requires Valid() && ReadablePacket(packet)
      requires Run(builder.State(), PacketWalk(packet).events) != Undefined
      requires ClientStep(SyncState(), Range(SequenceOf(packet), CountOf(packet))).Some?
      modifies this, itchParser, builder, builder.Repr
      ensures Valid() && fresh(builder.Repr - old(builder.Repr))
      ensures (if exited then Exited else Running(builder.State()))
           == Run(old(builder.State()), PacketWalk(packet).events)
      ensures !exited ==>
                Some(SyncState()) == ClientStep(old(SyncState()), Range(SequenceOf(packet), CountOf(packet)))
      ensures !exited && !(old(mode) == Initial && SequenceOf(packet) != 1 && old(nextExpectedSeqNo) == 1) ==>
                && rewindTill == old(rewindTill)
                && nextExpectedSeqNo ==
                   if rewindTill < SequenceOf(packet) then
                     Add64(SequenceOf(packet), CountOf(packet))
                   else old(nextExpectedSeqNo)
    {
      StepTracksNumbers(SyncState(), Range(SequenceOf(packet), CountOf(packet)));
      hide PacketWalk, Run, CountOf, SequenceOf;
      var sequence, count;
      sequence, count, exited := itchParser.Parse(packet);
      if !exited {
        TrackPacket(sequence, count);
      }
    }

    method TrackPacket(sequence: uint64, count: uint16)
      requires ClientStep(SyncState(), Range(sequence, count)).Some?
      modifies this
      ensures Some(SyncState()) == ClientStep(old(SyncState()), Range(sequence, count))
    {
      if mode == Rewinding {
        AbsorbRewoundPacket(sequence, count);
      } else if mode == Initial && sequence != 1 && nextExpectedSeqNo == 1 {
        StartInitialSync(sequence);
        return;
      }
      if sequence > rewindTill {
        var gap := CalculateNextSequenceNumber(sequence, count);
        if gap {
          RequestMissingPackets(nextExpectedSeqNo, sequence);
        }
      }
    }

    method StartInitialSync(sequence: uint64)
      modifies this
      ensures SyncState() ==
              RequestMissing(old(SyncState()).(missing := old(missingSequenceNumbers) + SyncStack(sequence),
                                               lastRequested := 1, rewindTill := sequence), 1, sequence)
      ensures var n: nat := if sequence == 0 then 0xffff_ffff_ffff_ffff else sequence - 1;
              && |missingSequenceNumbers| == |old(missingSequenceNumbers)| + n
              && missingSequenceNumbers[..|old(missingSequenceNumbers)|] == old(missingSequenceNumbers)
              && var added := missingSequenceNumbers[|old(missingSequenceNumbers)|..];
                 forall i :: 0 <= i < n ==> added[i] == n - i
    {
      ghost var was, top := missingSequenceNumbers, if sequence == 0 then TWO64 else sequence;
      var i := Sub64(sequence, 1);
      while i > 0
        invariant 0 <= i < top
        invariant missingSequenceNumbers == was + Stack(top, i + 1)
        invariant unchanged(`lastRequestedSequenceNumber, `rewindTill, `nextExpectedSeqNo, `mode, `sent)
      {
        missingSequenceNumbers := missingSequenceNumbers + [i];
        i := i - 1;
      }
      lastRequestedSequenceNumber := 1;
      rewindTill := sequence;
      RequestMissingPackets(1, sequence);
    }

    method AbsorbRewoundPacket(sequence: uint64, count: uint16)
      requires AbsorbRewound(SyncState(), Range(sequence, count)).Some?
      modifies this
      ensures Some(SyncState()) == AbsorbRewound(old(SyncState()), Range(sequence, count))
    {
      var received := PopulateVector(sequence, count);
      var n := 0;
      while n < |received|
        invariant 0 <= n <= |received|
        invariant Drain(missingSequenceNumbers, received[n..]) == Drain(old(missingSequenceNumbers), received)
        invariant unchanged(`lastRequestedSequenceNumber, `rewindTill, `nextExpectedSeqNo, `mode, `sent)
      {
        assert received[n..][1..] == received[n + 1..];
        if missingSequenceNumbers[|missingSequenceNumbers| - 1] == received[n] {
          missingSequenceNumbers := missingSequenceNumbers[..|missingSequenceNumbers| - 1];
        }
        n := n + 1;
      }
      if missingSequenceNumbers == [] {
        mode := Continuous;
      } else {
        var back := missingSequenceNumbers[|missingSequenceNumbers| - 1];
        if lastRequestedSequenceNumber != back {
          lastRequestedSequenceNumber := back;
          RequestMissingPackets(back, Add64(missingSequenceNumbers[0], 1));
        }
      }
    }

    method CalculateNextSequenceNumber(received: uint64, count: uint16) returns (gap: bool)
      modifies `nextExpectedSeqNo
      ensures gap <==> old(nextExpectedSeqNo) != 0 && received != old(nextExpectedSeqNo)
      ensures nextExpectedSeqNo == Add64(received, count)
    {
      gap := nextExpectedSeqNo != 0 && received != nextExpectedSeqNo;
      nextExpectedSeqNo := Add64(received, count);
    }

    method RequestMissingPackets(expected: uint64, received: uint64)
      modifies `mode, `sent
      ensures SyncState() == RequestMissing(old(SyncState()), expected, received)
    {
      if received > expected {
        SendRewind(Request(expected, (received - expected) % TWO16));
      }
    }

    method SendRewind(request: Request)
      modifies `mode, `sent
      ensures mode == Rewinding && sent == old(sent) + [request]
    {
      mode := Rewinding;
      sent := sent + [request];
    }
  }

  function RangeOf(packet: bytes): Range
    requires HEADER_SIZE <= |packet|
  {
    Range(SequenceOf(packet), CountOf(packet))
  }

  function RangesOf(packets: seq<bytes>): (rs: seq<Range>)
    requires AllReadable(packets)
    ensures |rs| == |packets|
  {
    seq(|packets|, i requires 0 <= i < |packets| => RangeOf(packets[i]))
  }

  /** A series of packets through an actual client: the books fold the messages
      of every packet, and the sync state follows the run of ranges. */
  method ReceiveAll(client: MarketDataClient, packets: seq<bytes>) returns (exited: bool)
    requires client.Valid() && AllReadable(packets) && Feed(client.builder.State(), packets) != Undefined
    requires ClientRun(client.SyncState(), RangesOf(packets)).Some?
    modifies client, client.itchParser, client.builder, client.builder.Repr
    ensures client.Valid() && fresh(client.builder.Repr - old(client.builder.Repr))
    ensures (if exited then Exited else Running(client.builder.State())) == Feed(old(client.builder.State()), packets)
    ensures !exited ==> Some(client.SyncState()) == ClientRun(old(client.SyncState()), RangesOf(packets))
  {
    hide PacketWalk, Run, CountOf, SequenceOf, ClientStep;
    ghost var was, sync := client.builder.State(), client.SyncState();
    exited := false;
    var i := 0;
    assert packets[0..] == packets && RangesOf(packets)[0..] == RangesOf(packets);
    while i < |packets|
      invariant 0 <= i <= |packets|
      invariant client.Valid() && fresh(client.builder.Repr - old(client.builder.Repr))
      invariant Feed(client.builder.State(), packets[i..]) == Feed(was, packets)
      invariant ClientRun(client.SyncState(), RangesOf(packets)[i..]) == ClientRun(sync, RangesOf(packets))
    {
      ghost var rs := RangesOf(packets)[i..];
      assert packets[i..][0] == packets[i] && packets[i..][1..] == packets[i + 1..];
      assert rs[0] == RangeOf(packets[i]) && rs[1..] == RangesOf(packets)[i + 1..];
      exited := client.Parse(packets[i]);
      if exited {
        return;
      }
      i := i + 1;
    }
  }

  /** An actual new client and packets well numbered. It never syncs exactly if
      number 1 comes first, and again right after every empty packet at number 1;
      then it asks for nothing and expects the end of the last packet. */
  method StartUp(packets: seq<bytes>) returns (client: MarketDataClient, exited: bool)
    requires AllReadable(packets) && Feed(INITIAL, packets) != Undefined
    requires Numbered(RangesOf(packets)) && ClientRun(FRESH, RangesOf(packets)).Some?
    ensures fresh(client) && client.Valid()
    ensures var rs := RangesOf(packets);
            !exited ==>
              (client.mode == Initial <==>
                && (rs != [] ==> rs[0].first == 1)
                && forall i :: 0 < i < |rs| && rs[i - 1] == Range(1, 0) ==> rs[i].first == 1)
    ensures !exited && client.mode == Initial ==>
              && client.sent == [] && client.missingSequenceNumbers == [] && client.rewindTill == 0
              && client.nextExpectedSeqNo
                 == if packets == [] then 1 else SequenceOf(packets[|packets| - 1]) + CountOf(packets[|packets| - 1])
  {
    hide Feed, ClientRun, PacketWalk, CountOf, SequenceOf, Numbered;
    StartUpRunIsQuietOrSyncs(RangesOf(packets));
    client := new MarketDataClient();
    exited := ReceiveAll(client, packets);
  }

  /** A late joiner, as an actual client: its first packet starts at N above 1.
      Whatever follows, it expects the end of the last packet that starts above N,
      or still number 1. */
  method StartLate(packets: seq<bytes>) returns (client: MarketDataClient, exited: bool)
    requires AllReadable(packets) && packets != [] && 1 < SequenceOf(packets[0])
    requires Feed(INITIAL, packets) != Undefined && ClientRun(FRESH, RangesOf(packets)).Some?
    ensures fresh(client) && client.Valid()
    ensures !exited && (forall i :: 0 <= i < |packets| ==> RangesOf(packets)[i].first <= SequenceOf(packets[0])) ==>
              client.nextExpectedSeqNo == 1
    ensures forall i :: !exited && LastAbove(RangesOf(packets), SequenceOf(packets[0]), i) ==>
              client.nextExpectedSeqNo == Add64(SequenceOf(packets[i]), CountOf(packets[i]))
  {
    ghost var first, rest := RangeOf(packets[0]), RangesOf(packets[1..]);
    assert RangesOf(packets) == [first] + rest;
    hide Feed, ClientRun, PacketWalk, CountOf, SequenceOf;
    LateJoinerExpects(first, rest);
    ghost var next := ClientRun(FRESH, [first] + rest).value;
    client := new MarketDataClient();
    exited := ReceiveAll(client, packets);
    LastAboveInTail(first, rest);
  }
}
