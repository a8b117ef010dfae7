/** The ITCH parser: it walks the message blocks of a MoldUDP64 packet and drives
    the builder, and what a series of packets does to the books. */
module ItchParsing {
  import opened Words
  import opened PriceLevels
  import opened L2Book
  import opened LiveOrders
  import opened BuilderModel
  import opened OrderbookBuilder
  import opened ItchWire

  /** What the parser does with one packet, seen from the builder. */
  function PacketWalk(packet: bytes): Walk
    requires HEADER_SIZE <= |packet|
  {
    WalkBlocks(packet[HEADER_SIZE..], 0, CountOf(packet))
  }

  predicate ReadablePacket(packet: bytes) {
    HEADER_SIZE <= |packet| && PacketWalk(packet).Walked?
  }

  class ItchParser {
    const builder: ConcreteOrderbookBuilder
    var session: bytes

    constructor (builder: ConcreteOrderbookBuilder)
      ensures this.builder == builder
    {
      this.builder := builder;
      session := [];
    }

    /** Reads the header, then the payload. The buffer must hold what the walk
        reads, and the events must not reach an undefined step; both are
        unchecked. `exited` stands for the builder's exit(42). */
    method Parse(packet: bytes) returns (sequence: uint64, count: uint16, exited: bool)
      requires builder.Valid() && ReadablePacket(packet)
      requires Run(builder.State(), PacketWalk(packet).events) != Undefined
      modifies this, builder, builder.Repr
      ensures builder.Valid() && fresh(builder.Repr - old(builder.Repr))
      ensures sequence == SequenceOf(packet) && count == CountOf(packet) && session == packet[..10]
      ensures sequence == 0x1_0000_0000 * Load32(packet, 10) + Load32(packet, 14)
      ensures count == 256 * (packet[18] as int) + (packet[19] as int)
      ensures (if exited then Exited else Running(builder.State()))
           == Run(old(builder.State()), PacketWalk(packet).events)
    {
      session := packet[..10];
      sequence, count := SequenceOf(packet), CountOf(packet);
      HeaderByBytes(packet);
      hide SequenceOf, Load16, Load32, Load64, WalkBlocks, Run;
      exited := ParsePayload(packet[HEADER_SIZE..], count);
    }

    method ParsePayload(payload: bytes, count: uint16) returns (exited: bool)
      requires builder.Valid() && WalkBlocks(payload, 0, count).Walked?
      requires Run(builder.State(), WalkBlocks(payload, 0, count).events) != Undefined
      modifies builder, builder.Repr
      ensures builder.Valid() && fresh(builder.Repr - old(builder.Repr))
      ensures (if exited then Exited else Running(builder.State()))
           == Run(old(builder.State()), WalkBlocks(payload, 0, count).events)
    {
      hide Sorted, Index, Step, EventAt, Load16, Load32, Load64, KeyAt, ToInt32, SizeOf;
      ghost var all := WalkBlocks(payload, 0, count);
      ghost var was := builder.State();
      var offset: uint32 := 0;
      var i := 0;
      exited := false;
      while i < count
        invariant 0 <= i <= count
        invariant offset <= 65537 * i  // so the 32-bit offset never wraps
        invariant builder.Valid() && fresh(builder.Repr - old(builder.Repr))
        invariant WalkBlocks(payload, offset, count - i).Walked?
        invariant Run(builder.State(), WalkBlocks(payload, offset, count - i).events) == Run(was, all.events)
      {
        WalkHead(payload, offset, count - i);
        ghost var events := WalkBlocks(payload, offset, count - i).events;
        var block := offset;
        offset := Add32(offset, Load16(payload, block) + 2);
        exited := Handle(payload, block + 2);
        if exited {
          return;
        }
        i := i + 1;
      }
    }

    /** Dispatches on the message type; other types are ignored. */
    method Handle(payload: bytes, at: nat) returns (exited: bool)
      requires at < |payload| && at + SizeOf(payload[at]) <= |payload|
      requires builder.Valid() && Step(builder.State(), EventAt(payload, at)) != Undefined
      modifies builder, builder.Repr
      ensures builder.Valid() && fresh(builder.Repr - old(builder.Repr))
      ensures (if exited then Exited else Running(builder.State())) == Step(old(builder.State()), EventAt(payload, at))
      ensures payload[at] == 'A' as int ==>
                var key := OrderKey(Load32(payload, at + 13), Load64(payload, at + 5), payload[at + 17]);
                !exited && Running(builder.State())
                == Step(old(builder.State()), Add(key, ToInt32(Load32(payload, at + 30)), Load64(payload, at + 22)))
      ensures payload[at] == 'E' as int ==>
                var key := OrderKey(Load32(payload, at + 13), Load64(payload, at + 5), payload[at + 17]);
                !exited && Running(builder.State()) == Step(old(builder.State()), Execute(key, Load64(payload, at + 18)))
      ensures payload[at] == 'D' as int ==>
                var key := OrderKey(Load32(payload, at + 13), Load64(payload, at + 5), payload[at + 17]);
                (if exited then Exited else Running(builder.State())) == Step(old(builder.State()), Delete(key))
      ensures payload[at] !in {'A' as int, 'E' as int, 'D' as int} ==> !exited && builder.State() == old(builder.State())
    {
      exited := false;
      if payload[at] == ADD_ORDER {
        builder.AddOrder(KeyAt(payload, at), ToInt32(Load32(payload, at + 30)), Load64(payload, at + 22));
      } else if payload[at] == ORDER_EXECUTED {
        builder.ExecuteOrder(KeyAt(payload, at), Load64(payload, at + 18));
      } else if payload[at] == ORDER_DELETE {
        exited := builder.DeleteOrder(KeyAt(payload, at));
      }
    }
  }

  // ---- Series of packets ----

  predicate AllReadable(packets: seq<bytes>) {
    forall i :: 0 <= i < |packets| ==> ReadablePacket(packets[i])
  }

  /** The packets are parsed one after the other until the process ends. */
  function Feed(st: BuilderState, packets: seq<bytes>): Outcome
    requires AllReadable(packets)
    decreases |packets|
  {
    if packets == [] then Running(st)
    else
      var o := Run(st, PacketWalk(packets[0]).events);
      if o.Running? then Feed(o.state, packets[1..]) else o
  }

  /** Messages grouped into packets, each with its own sequence number. */
  datatype Batch = Batch(sequence: uint64, messages: seq<Message>)

  predicate SendableBatch(b: Batch) {
    |b.messages| < TWO16 && forall m :: m in b.messages ==> Sendable(m)
  }

  predicate AllSendable(bs: seq<Batch>) {
    forall i :: 0 <= i < |bs| ==> SendableBatch(bs[i])
  }

  function EncodeBatch(session: bytes, b: Batch): bytes
    requires |session| == 10 && SendableBatch(b)
  {
    Packet(session, b.sequence, EncodeAll(b.messages))
  }

  lemma EncodedBatchIsReadable(session: bytes, b: Batch)
    requires |session| == 10 && SendableBatch(b)
    ensures ReadablePacket(EncodeBatch(session, b))
  {
    hide Encode, EncodeAll, WalkBlocks, Load16, Load64;
    PacketRoundTrip(session, b.sequence, b.messages);
  }

  function EncodeBatches(session: bytes, bs: seq<Batch>): (ps: seq<bytes>)
    requires |session| == 10 && AllSendable(bs)
    ensures |ps| == |bs| && AllReadable(ps)
  {
    if bs == [] then []
    else
      EncodedBatchIsReadable(session, bs[0]);
      [EncodeBatch(session, bs[0])] + EncodeBatches(session, bs[1..])
  }

  function AllMessages(bs: seq<Batch>): seq<Message> {
    if bs == [] then [] else bs[0].messages + AllMessages(bs[1..])
  }

  /** Parsing a series of packets is folding the events of their messages over
      the builder's state. */
  lemma {:induction false} FeedingPacketsFoldsMessages(st: BuilderState, session: bytes, bs: seq<Batch>)
    requires |session| == 10 && AllSendable(bs)
    ensures Feed(st, EncodeBatches(session, bs)) == Run(st, EventsOf(AllMessages(bs)))
    decreases |bs|
  {
    if bs != [] {
      hide Step, Packet, EncodeAll, WalkBlocks;
      var ps := EncodeBatches(session, bs);
      var first := EventsOf(bs[0].messages);
      PacketRoundTrip(session, bs[0].sequence, bs[0].messages);
      assert PacketWalk(ps[0]).events == first;
      assert ps[1..] == EncodeBatches(session, bs[1..]);
      EventsOfConcat(bs[0].messages, AllMessages(bs[1..]));
      RunConcat(st, first, EventsOf(AllMessages(bs[1..])));
      var o := Run(st, first);
      if o.Running? {
        FeedingPacketsFoldsMessages(o.state, session, bs[1..]);
      }
    }
  }

  /** How messages are split into packets does not matter. */
  lemma PacketBoundariesDoNotMatter(st: BuilderState, session: bytes, a: seq<Batch>, b: seq<Batch>)
    requires |session| == 10
    requires AllSendable(a) && AllSendable(b)
    requires AllMessages(a) == AllMessages(b)
    ensures Feed(st, EncodeBatches(session, a)) == Feed(st, EncodeBatches(session, b))
  {
    FeedingPacketsFoldsMessages(st, session, a);
    FeedingPacketsFoldsMessages(st, session, b);
  }

  /** From the bytes of a well-formed feed to the books: the builder survives,
      its orders are those of the plain map, and its levels agree with them. */
  lemma BytesToAgreement(session: bytes, bs: seq<Batch>)
    requires |session| == 10 && AllSendable(bs)
    requires WellFormedRun(map[], EventsOf(AllMessages(bs)))
    ensures var o := Feed(INITIAL, EncodeBatches(session, bs));
            o.Running? && Agrees(o.state) && o.state.orders == OrdersAfter(map[], EventsOf(AllMessages(bs)))
  {
    FeedingPacketsFoldsMessages(INITIAL, session, bs);
    InitialAgrees();
    WellFormedRunAgrees(INITIAL, EventsOf(AllMessages(bs)));
  }

  /** Packets through an actual parser, one after the other. */
  method ParseSeries(parser: ItchParser, packets: seq<bytes>) returns (exited: bool)
    requires parser.builder.Valid() && AllReadable(packets)
    requires Feed(parser.builder.State(), packets) != Undefined
    modifies parser, parser.builder, parser.builder.Repr
    ensures parser.builder.Valid() && fresh(parser.builder.Repr - old(parser.builder.Repr))
    ensures (if exited then Exited else Running(parser.builder.State())) == Feed(old(parser.builder.State()), packets)
  {
    hide PacketWalk, Run, Sorted, Index;
    ghost var was := parser.builder.State();
    exited := false;
    var i := 0;
    assert packets[0..] == packets;
    while i < |packets|
      invariant 0 <= i <= |packets|
      invariant parser.builder.Valid() && fresh(parser.builder.Repr - old(parser.builder.Repr))
      invariant Feed(parser.builder.State(), packets[i..]) == Feed(was, packets)
    {
      assert packets[i..][0] == packets[i] && packets[i..][1..] == packets[i + 1..];
      var sequence, count;
      sequence, count, exited := parser.Parse(packets[i]);
      if exited {
        return;
      }
      i := i + 1;
    }
  }

  /** A well-formed feed, sent in packets and parsed into a new builder: no exit,
      the live orders are those of the plain map, and the levels agree. */
  method BuildBooks(session: bytes, bs: seq<Batch>) returns (builder: ConcreteOrderbookBuilder)
    requires |session| == 10 && AllSendable(bs) && WellFormedRun(map[], EventsOf(AllMessages(bs)))
    ensures fresh(builder) && fresh(builder.Repr) && builder.Valid()
    ensures Agrees(builder.State())
    ensures builder.orderMap == OrdersAfter(map[], EventsOf(AllMessages(bs)))
    ensures builder.orderbookMap.Keys == BooksNamed(EventsOf(AllMessages(bs)))
  {
    hide Feed, Sorted, Index, EncodeBatches;
    BytesToAgreement(session, bs);
    builder := new ConcreteOrderbookBuilder();
    var parser := new ItchParser(builder);
    FeedingPacketsFoldsMessages(INITIAL, session, bs);
    BooksAreThoseNamed(INITIAL, EventsOf(AllMessages(bs)));
    var exited := ParseSeries(parser, EncodeBatches(session, bs));
    assert builder.State().books.Keys == builder.orderbookMap.Keys;
  }
}
