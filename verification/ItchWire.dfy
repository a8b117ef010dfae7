/** ITCH messages as bytes, MoldUDP64 message blocks and downstream packets
    (MoldUDP64 Protocol Specification, "Downstream Packet" and "Message Block"),
    and the events that a buffer of blocks denotes. */
module ItchWire {
  import opened Words
  import opened L2Book
  import opened LiveOrders

  const ADD_ORDER: byte := 'A' as int
  const ORDER_EXECUTED: byte := 'E' as int
  const ORDER_DELETE: byte := 'D' as int

  const ADD_ORDER_SIZE := 37
  const ORDER_EXECUTED_SIZE := 52
  const ORDER_DELETE_SIZE := 18
  const HEADER_SIZE := 20

  /** The messages as the exchange sends them. `Other` is any message type that
      the parser has no handler for. */
  datatype Message =
    | AddOrder(nanoseconds: uint32, orderId: uint64, book: uint32, side: byte, position: uint32,
               qty: uint64, price: int32, attributes: uint16, lotType: byte)
    | OrderExecuted(nanoseconds: uint32, orderId: uint64, book: uint32, side: byte, qty: uint64,
                    matchId: uint64, comboGroup: uint32, reserved: bytes)
    | OrderDelete(nanoseconds: uint32, orderId: uint64, book: uint32, side: byte)
    | Other(data: bytes)

  predicate Sendable(m: Message) {
    match m
    case OrderExecuted(_, _, _, _, _, _, _, reserved) => |reserved| == 14
    case Other(data) => 0 < |data| < TWO16 && data[0] !in {ADD_ORDER, ORDER_EXECUTED, ORDER_DELETE}
    case _ => true
  }

  /** The fields that the three handled messages start with. */
  function Prefix(t: byte, ns: uint32, id: uint64, book: uint32, side: byte): (b: bytes)
    ensures |b| == 18 && b[0] == t && b[17] == side
    ensures b[5..13] == ToBytes(8, id) && b[13..17] == ToBytes(4, book)
  {
    [t] + ToBytes(4, ns) + ToBytes(8, id) + ToBytes(4, book) + [side]
  }

  function Encode(m: Message): (b: bytes)
    requires Sendable(m)
    ensures 0 < |b| < TWO16
    ensures m.AddOrder? ==> |b| == ADD_ORDER_SIZE
    ensures m.OrderExecuted? ==> |b| == ORDER_EXECUTED_SIZE
    ensures m.OrderDelete? ==> |b| == ORDER_DELETE_SIZE
  {
    match m
    case AddOrder(ns, id, book, side, position, qty, price, attributes, lotType) =>
      Prefix(ADD_ORDER, ns, id, book, side) + ToBytes(4, position) + ToBytes(8, qty)
      + ToBytes(4, OfInt32(price)) + ToBytes(2, attributes) + [lotType]
    case OrderExecuted(ns, id, book, side, qty, matchId, comboGroup, reserved) =>
      Prefix(ORDER_EXECUTED, ns, id, book, side) + ToBytes(8, qty) + ToBytes(8, matchId)
      + ToBytes(4, comboGroup) + reserved
    case OrderDelete(ns, id, book, side) =>
      Prefix(ORDER_DELETE, ns, id, book, side)
    case Other(data) => data
  }

  /** What a message means to the builder. */
  function EventOf(m: Message): Event {
    match m
    case AddOrder(_, id, book, side, _, qty, price, _, _) => Add(OrderKey(book, id, side), price, qty)
    case OrderExecuted(_, id, book, side, qty, _, _, _) => Execute(OrderKey(book, id, side), qty)
    case OrderDelete(_, id, book, side) => Delete(OrderKey(book, id, side))
    case Other(_) => Skip
  }

  function EventsOf(ms: seq<Message>): (es: seq<Event>)
    ensures |es| == |ms|
  {
    if ms == [] then [] else [EventOf(ms[0])] + EventsOf(ms[1..])
  }

  // ---- Reading a message out of a buffer ----

  /** How many bytes the handler of a message type reads. */
  function SizeOf(t: byte): nat {
    if t == ADD_ORDER then ADD_ORDER_SIZE
    else if t == ORDER_EXECUTED then ORDER_EXECUTED_SIZE
    else if t == ORDER_DELETE then ORDER_DELETE_SIZE
    else 1
  }

  function KeyAt(b: bytes, at: nat): OrderKey
    requires at + 18 <= |b|
  {
    OrderKey(Load32(b, at + 13), Load64(b, at + 5), b[at + 17])
  }

  function EventAt(b: bytes, at: nat): Event
    requires at < |b| && at + SizeOf(b[at]) <= |b|
  {
    if b[at] == ADD_ORDER then Add(KeyAt(b, at), ToInt32(Load32(b, at + 30)), Load64(b, at + 22))
    else if b[at] == ORDER_EXECUTED then Execute(KeyAt(b, at), Load64(b, at + 18))
    else if b[at] == ORDER_DELETE then Delete(KeyAt(b, at))
    else Skip
  }

  /** What the bytes of a message mean, by position: type at 0, order id at 5,
      book at 13, side at 17, quantity at 22 or 18, price at 30. A message type
      other than these three means nothing. */
  lemma EventByPosition(b: bytes, at: nat)
    requires at < |b| && at + SizeOf(b[at]) <= |b|
    ensures b[at] == 'A' as int ==>
              && at + 37 <= |b| && EventAt(b, at).Add?
              && EventAt(b, at).key == OrderKey(Load32(b, at + 13), Load64(b, at + 5), b[at + 17])
              && EventAt(b, at).price % 0x1_0000_0000 == Load32(b, at + 30)
              && EventAt(b, at).qty == Load64(b, at + 22)
    ensures b[at] == 'E' as int ==>
              && at + 52 <= |b|
              && EventAt(b, at) == Execute(OrderKey(Load32(b, at + 13), Load64(b, at + 5), b[at + 17]), Load64(b, at + 18))
    ensures b[at] == 'D' as int ==>
              && at + 18 <= |b|
              && EventAt(b, at) == Delete(OrderKey(Load32(b, at + 13), Load64(b, at + 5), b[at + 17]))
    ensures b[at] !in {'A' as int, 'E' as int, 'D' as int} ==> EventAt(b, at) == Skip && SizeOf(b[at]) == 1
  {
  }

  /** The layout of the wire forms, field by field. */
  lemma MessageLayout(m: Message)
    requires Sendable(m) && !m.Other?
    ensures var e := Encode(m);
            && Load32(e, 1) == m.nanoseconds && Load64(e, 5) == m.orderId && Load32(e, 13) == m.book && e[17] == m.side
    ensures m.OrderDelete? ==> |Encode(m)| == 18 && Encode(m)[0] == 'D' as int
    ensures m.OrderExecuted? ==>
              var e := Encode(m);
              && |e| == 52 && e[0] == 'E' as int && Load64(e, 18) == m.qty
              && Load64(e, 26) == m.matchId && Load32(e, 34) == m.comboGroup && e[38..] == m.reserved
    ensures m.AddOrder? ==>
              var e := Encode(m);
              && |e| == 37 && e[0] == 'A' as int && Load32(e, 18) == m.position && Load64(e, 22) == m.qty
              && ToInt32(Load32(e, 30)) == m.price && Load16(e, 34) == m.attributes && e[36] == m.lotType
  {
    match m
    case AddOrder(_, _, _, _, _, _, _, _, _) => AddOrderLayout(m);
    case OrderExecuted(_, _, _, _, _, _, _, _) => OrderExecutedLayout(m);
    case OrderDelete(ns, id, book, side) => PrefixLayout(Encode(m), ORDER_DELETE, ns, id, book, side);
  }

  lemma PrefixLayout(e: bytes, t: byte, ns: uint32, id: uint64, book: uint32, side: byte)
    requires 18 <= |e| && e[..18] == Prefix(t, ns, id, book, side)
    ensures e[0] == t && Load32(e, 1) == ns && Load64(e, 5) == id && Load32(e, 13) == book && e[17] == side
  {
    PowValues();
    var p := Prefix(t, ns, id, book, side);
    assert e[0] == e[..18][0] && e[17] == e[..18][17];
    assert e[1..5] == e[..18][1..5] && e[5..13] == e[..18][5..13] && e[13..17] == e[..18][13..17];
    assert p[1..5] == ToBytes(4, ns);
    LoadStored(e, 1, 4, ns);
    LoadStored(e, 5, 8, id);
    LoadStored(e, 13, 4, book);
  }

  lemma OrderExecutedLayout(m: Message)
    requires Sendable(m) && m.OrderExecuted?
    ensures var e := Encode(m);
            && Load32(e, 1) == m.nanoseconds && Load64(e, 5) == m.orderId && Load32(e, 13) == m.book && e[17] == m.side
            && e[0] == ORDER_EXECUTED && Load64(e, 18) == m.qty
            && Load64(e, 26) == m.matchId && Load32(e, 34) == m.comboGroup && e[38..] == m.reserved
  {
    PowValues();
    var e := Encode(m);
    var p := Prefix(ORDER_EXECUTED, m.nanoseconds, m.orderId, m.book, m.side);
    assert e[..18] == p;
    PrefixLayout(e, ORDER_EXECUTED, m.nanoseconds, m.orderId, m.book, m.side);
    assert e[18..26] == ToBytes(8, m.qty);
    LoadStored(e, 18, 8, m.qty);
    assert e[26..34] == ToBytes(8, m.matchId);
    LoadStored(e, 26, 8, m.matchId);
    assert e[34..38] == ToBytes(4, m.comboGroup);
    LoadStored(e, 34, 4, m.comboGroup);
  }

  lemma AddOrderLayout(m: Message)
    requires m.AddOrder?
    ensures var e := Encode(m);
            && Load32(e, 1) == m.nanoseconds && Load64(e, 5) == m.orderId && Load32(e, 13) == m.book && e[17] == m.side
            && e[0] == ADD_ORDER && Load32(e, 18) == m.position && Load64(e, 22) == m.qty
            && ToInt32(Load32(e, 30)) == m.price && Load16(e, 34) == m.attributes && e[36] == m.lotType
  {
    PowValues();
    var e := Encode(m);
    assert e[..18] == Prefix(ADD_ORDER, m.nanoseconds, m.orderId, m.book, m.side);
    PrefixLayout(e, ADD_ORDER, m.nanoseconds, m.orderId, m.book, m.side);
    assert e[18..22] == ToBytes(4, m.position);
    LoadStored(e, 18, 4, m.position);
    assert e[22..30] == ToBytes(8, m.qty);
    LoadStored(e, 22, 8, m.qty);
    assert e[30..34] == ToBytes(4, OfInt32(m.price));
    LoadStored(e, 30, 4, OfInt32(m.price));
    assert e[34..36] == ToBytes(2, m.attributes);
    LoadStored(e, 34, 2, m.attributes);
  }

  /** What a walk over message blocks reads: events and the final offset, or
      bytes that are not in the buffer. */
  datatype Walk = Overrun | Walked(events: seq<Event>, end: nat)

  predicate BlockInBuffer(b: bytes, at: nat) {
    at + 2 < |b| && at + 2 + SizeOf(b[at + 2]) <= |b|
  }

  function NextBlock(b: bytes, at: nat): nat
    requires BlockInBuffer(b, at)
  {
    at + 2 + Load16(b, at)
  }

  /** The walk over `count` blocks from an offset, in unbounded arithmetic. */
  function WalkBlocks(b: bytes, at: nat, count: nat): (w: Walk)
    ensures w.Walked? ==> |w.events| == count
    decreases count
  {
    if count == 0 then Walked([], at)
    else if !BlockInBuffer(b, at) then Overrun
    else
      match WalkBlocks(b, NextBlock(b, at), count - 1)
      case Overrun => Overrun
      case Walked(events, end) => Walked([EventAt(b, at + 2)] + events, end)
  }

  lemma WalkHead(b: bytes, at: nat, count: nat)
    requires 0 < count && WalkBlocks(b, at, count).Walked?
    ensures BlockInBuffer(b, at) && WalkBlocks(b, NextBlock(b, at), count - 1).Walked?
    ensures var w := WalkBlocks(b, at, count);
            w.events[0] == EventAt(b, at + 2) && w.events[1..] == WalkBlocks(b, NextBlock(b, at), count - 1).events
  {
    hide EventAt, NextBlock;
  }

  /** The length of a block is in its first two bytes, the more significant one
      first, and does not count these two. */
  lemma NextBlockByBytes(b: bytes, at: nat)
    requires BlockInBuffer(b, at)
    ensures NextBlock(b, at) == at + 2 + 256 * (b[at] as int) + (b[at + 1] as int)
  {
    Load16IsBigEndian(b, at);
  }

  /** A 16-bit number of blocks with 16-bit lengths ends within a 32-bit
      offset: the worst case, 65535 * 65537, is 2^32 - 1. */
  lemma {:induction false} OffsetsFit32Bits(b: bytes, at: nat, count: nat)
    requires WalkBlocks(b, at, count).Walked?
    ensures at + 2 * count <= WalkBlocks(b, at, count).end <= at + 65537 * count
    ensures at == 0 && count < TWO16 ==> WalkBlocks(b, at, count).end < TWO32
    decreases count
  {
    if count > 0 {
      OffsetsFit32Bits(b, NextBlock(b, at), count - 1);
    }
  }

  // ---- Message blocks and packets ----

  function Blocks(messages: seq<bytes>): bytes
    requires forall m :: m in messages ==> |m| < TWO16
  {
    if messages == [] then [] else Block(messages[0]) + Blocks(messages[1..])
  }

  function Header(session: bytes, sequence: uint64, count: uint16): (b: bytes)
    requires |session| == 10
    ensures |b| == HEADER_SIZE
  {
    session + ToBytes(8, sequence) + ToBytes(2, count)
  }

  function Packet(session: bytes, sequence: uint64, messages: seq<bytes>): bytes
    requires |session| == 10 && |messages| < TWO16
    requires forall m :: m in messages ==> |m| < TWO16
  {
    Header(session, sequence, |messages|) + Blocks(messages)
  }

  function EncodeAll(ms: seq<Message>): (bs: seq<bytes>)
    requires forall m :: m in ms ==> Sendable(m)
    ensures |bs| == |ms|
    ensures forall b :: b in bs ==> 0 < |b| < TWO16
  {
    if ms == [] then [] else [Encode(ms[0])] + EncodeAll(ms[1..])
  }

  function SequenceOf(b: bytes): uint64
    requires HEADER_SIZE <= |b|
  {
    Load64(b, 10)
  }

  function CountOf(b: bytes): uint16
    requires HEADER_SIZE <= |b|
  {
    Load16(b, 18)
  }

  /** Where the sequence number and the count are. */
  lemma HeaderByBytes(b: bytes)
    requires HEADER_SIZE <= |b|
    ensures SequenceOf(b) == 0x1_0000_0000 * Load32(b, 10) + Load32(b, 14)
    ensures CountOf(b) == 256 * (b[18] as int) + (b[19] as int)
  {
    WordsAreBigEndian(b, 10);
    Load16IsBigEndian(b, 18);
  }

  lemma BlocksConcat(a: seq<bytes>, b: seq<bytes>)
    requires forall m :: m in a + b ==> |m| < TWO16
    ensures forall m :: m in a ==> m in a + b
    ensures forall m :: m in b ==> m in a + b
    ensures Blocks(a + b) == Blocks(a) + Blocks(b)
    decreases |a|
  {
    if a == [] {
      assert a + b == b;
    } else {
      assert (a + b)[1..] == a[1..] + b;
      BlocksConcat(a[1..], b);
    }
  }

  // ---- Decoding undoes encoding ----

  /** A slice of a slice is a slice of the whole. */
  lemma Subslice(b: bytes, at: nat, all: bytes, lo: nat, hi: nat)
    requires at + |all| <= |b| && b[at..at + |all|] == all && lo <= hi <= |all|
    ensures b[at + lo..at + hi] == all[lo..hi]
  {
    forall i | lo <= i < hi ensures b[at + i] == all[i] {
      assert b[at..at + |all|][i] == all[i];
    }
  }

  lemma KeyIsRead(b: bytes, at: nat, t: byte, ns: uint32, id: uint64, book: uint32, side: byte)
    requires at + 18 <= |b| && b[at..at + 18] == Prefix(t, ns, id, book, side)
    ensures b[at] == t && KeyAt(b, at) == OrderKey(book, id, side)
  {
    PowValues();
    var e := Prefix(t, ns, id, book, side);
    assert b[at] == b[at..at + 18][0] && b[at + 17] == b[at..at + 18][17];
    Subslice(b, at, e, 5, 13);
    LoadStored(b, at + 5, 8, id);
    Subslice(b, at, e, 13, 17);
    LoadStored(b, at + 13, 4, book);
  }

  /** An encoded message is decoded in place, whatever surrounds it. */
  lemma EncodedEventIsRead(b: bytes, at: nat, m: Message)
    requires Sendable(m)
    requires at + |Encode(m)| <= |b| && b[at..at + |Encode(m)|] == Encode(m)
    ensures at + SizeOf(b[at]) <= |b|
    ensures EventAt(b, at) == EventOf(m)
  {
    var e := Encode(m);
    match m {
      case AddOrder(_, _, _, _, _, _, _, _, _) => AddOrderIsRead(b, at, m);
      case OrderExecuted(ns, id, book, side, qty, _, _, _) =>
        PowValues();
        Subslice(b, at, e, 0, 18);
        assert e[0..18] == Prefix(ORDER_EXECUTED, ns, id, book, side);
        KeyIsRead(b, at, ORDER_EXECUTED, ns, id, book, side);
        Subslice(b, at, e, 18, 26);
        assert e[18..26] == ToBytes(8, qty);
        LoadStored(b, at + 18, 8, qty);
      case OrderDelete(ns, id, book, side) =>
        assert e == Prefix(ORDER_DELETE, ns, id, book, side);
        KeyIsRead(b, at, ORDER_DELETE, ns, id, book, side);
      case Other(data) =>
        assert b[at] == b[at..at + |e|][0] == data[0];
    }
  }

  lemma AddOrderIsRead(b: bytes, at: nat, m: Message)
    requires m.AddOrder?
    requires at + |Encode(m)| <= |b| && b[at..at + |Encode(m)|] == Encode(m)
    ensures at + SizeOf(b[at]) <= |b|
    ensures EventAt(b, at) == EventOf(m)
  {
    PowValues();
    var AddOrder(ns, id, book, side, position, qty, price, _, _) := m;
    var e := Encode(m);
    Subslice(b, at, e, 0, 18);
    assert e[0..18] == Prefix(ADD_ORDER, ns, id, book, side);
    KeyIsRead(b, at, ADD_ORDER, ns, id, book, side);
    Subslice(b, at, e, 22, 30);
    assert e[22..30] == ToBytes(8, qty);
    LoadStored(b, at + 22, 8, qty);
    Subslice(b, at, e, 30, 34);
    assert e[30..34] == ToBytes(4, OfInt32(price));
    LoadStored(b, at + 30, 4, OfInt32(price));
  }

  ghost predicate LiesAt(b: bytes, at: nat, data: bytes) {
    at + |data| <= |b| && b[at..at + |data|] == data
  }

  /** Message bytes denote an event if they are read as that event wherever they
      lie in a buffer. */
  ghost predicate Denotes(data: bytes, e: Event) {
    && 0 < |data| < TWO16
    && forall b: bytes, at: nat {:trigger LiesAt(b, at, data)} :: LiesAt(b, at, data) ==>
         at + SizeOf(b[at]) <= |b| && EventAt(b, at) == e
  }

  /** The wire form of a message denotes the event of that message. */
  lemma EncodingDenotesEvent(m: Message)
    requires Sendable(m)
    ensures Denotes(Encode(m), EventOf(m))
  {
    forall b: bytes, at: nat | LiesAt(b, at, Encode(m))
      ensures at + SizeOf(b[at]) <= |b| && EventAt(b, at) == EventOf(m)
    {
      EncodedEventIsRead(b, at, m);
    }
  }

  /** The first of several blocks is read, and the walk moves on to the rest. */
  lemma BlockIsRead(b: bytes, at: nat, data: bytes, e: Event, rest: bytes)
    requires Denotes(data, e) && LiesAt(b, at, Block(data) + rest)
    ensures Load16(b, at) == |data|
    ensures at + 2 + SizeOf(b[at + 2]) <= |b| && EventAt(b, at + 2) == e
    ensures LiesAt(b, at + 2 + |data|, rest)
  {
    PowValues();
    var all := Block(data) + rest;
    Subslice(b, at, all, 0, 2);
    assert all[0..2] == ToBytes(2, |data|);
    LoadStored(b, at, 2, |data|);
    Subslice(b, at, all, 2, 2 + |data|);
    assert all[2..2 + |data|] == data;
    assert LiesAt(b, at + 2, data);
    Subslice(b, at, all, 2 + |data|, |all|);
    assert all[2 + |data|..|all|] == rest;
  }

  ghost predicate AllDenote(messages: seq<bytes>, events: seq<Event>) {
    |messages| == |events| &&
    (messages == [] || (Denotes(messages[0], events[0]) && AllDenote(messages[1..], events[1..])))
  }

  /** Walking over message blocks, anywhere in a buffer, reads exactly what the
      messages denote and ends where the blocks end. */
  lemma {:induction false} BlocksAreRead(b: bytes, at: nat, messages: seq<bytes>, events: seq<Event>)
    requires AllDenote(messages, events) && (forall m :: m in messages ==> |m| < TWO16)
    requires LiesAt(b, at, Blocks(messages))
    ensures WalkBlocks(b, at, |messages|) == Walked(events, at + |Blocks(messages)|)
    decreases |messages|
  {
    if messages == [] {
      assert Blocks(messages) == [];
    } else {
      hide Denotes, EventAt, SizeOf, Load16, Block, WalkBlocks;
      var next, end := at + 2 + |messages[0]|, at + |Blocks(messages)|;
      BlockIsRead(b, at, messages[0], events[0], Blocks(messages[1..]));
      BlocksAreRead(b, next, messages[1..], events[1..]);
      assert end == next + |Blocks(messages[1..])|;
      WalkOver(b, at, next, |messages| - 1, events, end);
    }
  }

  lemma WalkOver(b: bytes, at: nat, next: nat, n: nat, events: seq<Event>, end: nat)
    requires BlockInBuffer(b, at) && next == NextBlock(b, at) && events != []
    requires EventAt(b, at + 2) == events[0] && WalkBlocks(b, next, n) == Walked(events[1..], end)
    ensures WalkBlocks(b, at, n + 1) == Walked(events, end)
  {
    assert [events[0]] + events[1..] == events;
  }

  lemma {:induction false} EncodingsDenoteEvents(ms: seq<Message>)
    requires forall m :: m in ms ==> Sendable(m)
    ensures AllDenote(EncodeAll(ms), EventsOf(ms))
    decreases |ms|
  {
    if ms != [] {
      EncodingDenotesEvent(ms[0]);
      EncodingsDenoteEvents(ms[1..]);
    }
  }

  lemma HeaderIsRead(session: bytes, sequence: uint64, count: uint16, rest: bytes)
    requires |session| == 10
    ensures var p := Header(session, sequence, count) + rest;
            SequenceOf(p) == sequence && CountOf(p) == count && p[..10] == session && p[HEADER_SIZE..] == rest
  {
    PowValues();
    var p := Header(session, sequence, count) + rest;
    assert p[10..18] == ToBytes(8, sequence);
    LoadStored(p, 10, 8, sequence);
    assert p[18..20] == ToBytes(2, count);
    LoadStored(p, 18, 2, count);
  }

  /** A packet is read back: its sequence number, its message count, and the
      events of its messages, ending exactly at the end of the packet. */
  lemma PacketRoundTrip(session: bytes, sequence: uint64, ms: seq<Message>)
    requires |session| == 10 && |ms| < TWO16
    requires forall m :: m in ms ==> Sendable(m)
    ensures var p := Packet(session, sequence, EncodeAll(ms));
            && SequenceOf(p) == sequence && CountOf(p) == |ms| && p[..10] == session
            && WalkBlocks(p[HEADER_SIZE..], 0, |ms|) == Walked(EventsOf(ms), |p| - HEADER_SIZE)
  {
    var blocks := Blocks(EncodeAll(ms));
    HeaderIsRead(session, sequence, |ms|, blocks);
    EncodingsDenoteEvents(ms);
    assert blocks[0..0 + |blocks|] == blocks;
    BlocksAreRead(blocks, 0, EncodeAll(ms), EventsOf(ms));
  }

  lemma {:induction false} EventsOfConcat(a: seq<Message>, b: seq<Message>)
    ensures EventsOf(a + b) == EventsOf(a) + EventsOf(b)
    decreases |a|
  {
    if a == [] {
      assert a + b == b;
    } else {
      assert (a + b)[1..] == a[1..] + b;
      EventsOfConcat(a[1..], b);
    }
  }

  // ---- Orders on record ----

  function KeyOf(m: Message): OrderKey
    requires m.AddOrder?
  {
    OrderKey(m.book, m.orderId, m.side)
  }

  ghost predicate DistinctAdds(ms: seq<Message>) {
    && (forall i :: 0 <= i < |ms| ==> ms[i].AddOrder?)
    && (forall i, j :: 0 <= i < j < |ms| ==> KeyOf(ms[i]) != KeyOf(ms[j]))
  }

  /** Messages that add distinct orders leave exactly these orders on record,
      each with the fields of its message. */
  lemma {:induction false} AddedOrdersAreOnRecord(ms: seq<Message>)
    requires DistinctAdds(ms)
    ensures var orders := OrdersAfter(map[], EventsOf(ms));
            && orders.Keys == (set i | 0 <= i < |ms| :: KeyOf(ms[i]))
            && forall i :: 0 <= i < |ms| ==>
                 orders[KeyOf(ms[i])] == ItchOrder(ms[i].orderId, ms[i].price, ms[i].qty, ms[i].side, ms[i].book)
    decreases |ms|
  {
    if ms != [] {
      var n := |ms| - 1;
      var front, last := ms[..n], ms[n];
      AddedOrdersAreOnRecord(front);
      assert ms == front + [last];
      EventsOfConcat(front, [last]);
      assert EventsOf([last]) == [EventOf(last)];
      OrdersAfterConcat(map[], EventsOf(front), [EventOf(last)]);
      var before, after := OrdersAfter(map[], EventsOf(front)), OrdersAfter(map[], EventsOf(ms));
      assert after == OrdersStep(before, EventOf(last));
      assert after.Keys == before.Keys + {KeyOf(last)};
    }
  }

  // ---- The packet generator ----

  const SESSION_ID: bytes := [83, 69, 83, 83, 73, 79, 78, 49, 0, 0]  // "SESSION1", padded with zeros

  /** The generator's add-order message: fixed time stamp, no attributes, no lot
      type. Its unsigned price field cannot hold a negative price. */
  function MakeAddOrder(orderId: uint64, book: uint32, side: byte, position: uint32, qty: uint64, price: uint32): (b: bytes)
    ensures |b| == ADD_ORDER_SIZE
  {
    [ADD_ORDER] + ToBytes(4, 123456789) + ToBytes(8, orderId) + ToBytes(4, book) + [side] + ToBytes(4, position)
    + ToBytes(8, qty) + ToBytes(4, price) + ToBytes(2, 0) + [0]
  }

  /** The generator writes the wire form of the order; a price of 2^31 or more
      comes out negative. */
  lemma GeneratedAddOrder(orderId: uint64, book: uint32, side: byte, position: uint32, qty: uint64, price: uint32)
    ensures var m := AddOrder(123456789, orderId, book, side, position, qty, ToInt32(price), 0, 0);
            MakeAddOrder(orderId, book, side, position, qty, price) == Encode(m)
    ensures var b := MakeAddOrder(orderId, book, side, position, qty, price);
            |b| == 37 && b[0] == 'A' as int && ToInt32(price) == if price < 0x8000_0000 then price else price - 0x1_0000_0000
  {
    assert OfInt32(ToInt32(price)) == price;
  }

  lemma HeaderLayout(sequence: uint64, count: uint16, rest: bytes)
    ensures var p := Header(SESSION_ID, sequence, count) + rest;
            && p[..8] == seq(8, i requires 0 <= i < 8 => "SESSION1"[i] as int) && p[8..10] == [0, 0]
            && p[10..18] == ToBytes(8, sequence) && p[18..20] == ToBytes(2, count)
  {
    hide ToBytes;
  }

  method MakeMoldPacket(sequence: uint64, messages: seq<bytes>) returns (packet: bytes)
    requires |messages| < TWO16
    requires forall m :: m in messages ==> |m| < TWO16
    ensures packet == Packet(SESSION_ID, sequence, messages)
    ensures packet[..8] == seq(8, i requires 0 <= i < 8 => "SESSION1"[i] as int) && packet[8..10] == [0, 0]
    ensures packet[10..18] == ToBytes(8, sequence) && packet[18..20] == ToBytes(2, |messages|)
  {
    var header := SESSION_ID + ToBytes(8, sequence) + ToBytes(2, |messages|);
    var payload: bytes := [];
    for i := 0 to |messages|
      invariant payload == Blocks(messages[..i])
    {
      payload := payload + (ToBytes(2, |messages[i]|) + messages[i]);
      assert messages[..i + 1] == messages[..i] + [messages[i]];
      BlocksConcat(messages[..i], [messages[i]]);
    }
    assert messages[..|messages|] == messages;
    packet := header + payload;
    hide Blocks, ToBytes;
    HeaderLayout(sequence, |messages|, payload);
  }
}
