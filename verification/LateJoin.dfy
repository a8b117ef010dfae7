/** What a late joiner's books are worth. The client applies every packet as it
    comes, so live packets are applied before earlier messages that the rewinder
    sends only afterwards. */
module LateJoin {
  import opened Words
  import opened L2Book
  import opened LiveOrders
  import opened BuilderModel
  import opened OrderbookBuilder
  import opened ItchWire
  import opened ItchParsing
  import opened Rewind
  import opened MarketData
  import opened MergedFeed

  // ---- From packets ----

  function Repeat(turn: bool, n: nat): (t: Turns)
    ensures |t| == n
  {
    if n == 0 then [] else [turn] + Repeat(turn, n - 1)
  }

  /** The turns of the messages when packets arrive in turn. */
  function MessageTurns(rewound: seq<Batch>, live: seq<Batch>, turns: Turns): Turns
    requires InTurn(rewound, live, turns)
    decreases |turns|
  {
    if turns == [] then []
    else if turns[0] then Repeat(true, |live[0].messages|) + MessageTurns(rewound, live[1..], turns[1..])
    else Repeat(false, |rewound[0].messages|) + MessageTurns(rewound[1..], live, turns[1..])
  }

  lemma {:induction false} MergeLiveRun<T>(rewound: seq<T>, run: seq<T>, live: seq<T>, turns: Turns)
    requires InTurn(rewound, live, turns)
    ensures InTurn(rewound, run + live, Repeat(true, |run|) + turns)
    ensures Merge(rewound, run + live, Repeat(true, |run|) + turns) == run + Merge(rewound, live, turns)
    decreases |run|
  {
    var all := Repeat(true, |run|) + turns;
    if |run| == 0 {
      assert run + live == live && all == turns;
    } else {
      assert (run + live)[1..] == run[1..] + live;
      assert all[1..] == Repeat(true, |run[1..]|) + turns;
      MergeLiveRun(rewound, run[1..], live, turns);
    }
  }

  lemma {:induction false} MergeRewoundRun<T>(run: seq<T>, rewound: seq<T>, live: seq<T>, turns: Turns)
    requires InTurn(rewound, live, turns)
    ensures InTurn(run + rewound, live, Repeat(false, |run|) + turns)
    ensures Merge(run + rewound, live, Repeat(false, |run|) + turns) == run + Merge(rewound, live, turns)
    decreases |run|
  {
    var all := Repeat(false, |run|) + turns;
    if |run| == 0 {
      assert run + rewound == rewound && all == turns;
    } else {
      assert (run + rewound)[1..] == run[1..] + rewound;
      assert all[1..] == Repeat(false, |run[1..]|) + turns;
      MergeRewoundRun(run[1..], rewound, live, turns);
    }
  }

  function EventsIn(bs: seq<Batch>): seq<Event> {
    EventsOf(AllMessages(bs))
  }

  lemma EventsInFirst(bs: seq<Batch>)
    requires bs != []
    ensures EventsIn(bs) == EventsOf(bs[0].messages) + EventsIn(bs[1..])
  {
    EventsOfConcat(bs[0].messages, AllMessages(bs[1..]));
  }

  /** Merging packets merges their events. */
  lemma {:induction false} MergedPacketsMergeEvents(rewound: seq<Batch>, live: seq<Batch>, turns: Turns)
    requires InTurn(rewound, live, turns)
    ensures var ts := MessageTurns(rewound, live, turns);
            && InTurn(EventsIn(rewound), EventsIn(live), ts)
            && EventsIn(Merge(rewound, live, turns)) == Merge(EventsIn(rewound), EventsIn(live), ts)
    decreases |turns|
  {
    if turns != [] {
      var m := Merge(rewound, live, turns);
      EventsInFirst(m);
      if turns[0] {
        assert m[1..] == Merge(rewound, live[1..], turns[1..]);
        MergedPacketsMergeEvents(rewound, live[1..], turns[1..]);
        EventsInFirst(live);
        MergeLiveRun(EventsIn(rewound), EventsOf(live[0].messages), EventsIn(live[1..]),
                     MessageTurns(rewound, live[1..], turns[1..]));
      } else {
        assert m[1..] == Merge(rewound[1..], live, turns[1..]);
        MergedPacketsMergeEvents(rewound[1..], live, turns[1..]);
        EventsInFirst(rewound);
        MergeRewoundRun(EventsOf(rewound[0].messages), EventsIn(rewound[1..]), EventsIn(live),
                        MessageTurns(rewound[1..], live, turns[1..]));
      }
    }
  }

  lemma {:induction false} MergeIsSendable(rewound: seq<Batch>, live: seq<Batch>, turns: Turns)
    requires InTurn(rewound, live, turns) && AllSendable(rewound) && AllSendable(live)
    ensures AllSendable(Merge(rewound, live, turns))
    decreases |turns|
  {
    if turns != [] {
      if turns[0] {
        MergeIsSendable(rewound, live[1..], turns[1..]);
      } else {
        MergeIsSendable(rewound[1..], live, turns[1..]);
      }
    }
  }

  /** From the bytes of packets that arrive in turn to the books: a new builder
      survives, its levels agree with its orders, and these are the orders of the
      numbered feed exactly if all orders are left unharmed. */
  lemma LateJoinerHasRightOrdersIffUnharmed(session: bytes, rewound: seq<Batch>, live: seq<Batch>, turns: Turns)
    requires |session| == 10 && InTurn(rewound, live, turns) && AllSendable(rewound) && AllSendable(live)
    requires CompleteRun(map[], EventsIn(rewound) + EventsIn(live)) && AddedOnce(EventsIn(rewound) + EventsIn(live))
    requires FitsThroughout(map[], EventsIn(Merge(rewound, live, turns)))
    ensures AllSendable(Merge(rewound, live, turns))
    ensures InTurn(EventsIn(rewound), EventsIn(live), MessageTurns(rewound, live, turns))
    ensures var o := Feed(INITIAL, EncodeBatches(session, Merge(rewound, live, turns)));
            && o.Running? && Agrees(o.state)
            && (o.state.orders == OrdersAfter(map[], EventsIn(rewound) + EventsIn(live)) <==>
                forall key :: key in OrdersAfter(map[], EventsIn(rewound)) ==>
                  Unharmed(EventsIn(rewound), EventsIn(live), MessageTurns(rewound, live, turns), key))
  {
    var r, l, ts, m := EventsIn(rewound), EventsIn(live), MessageTurns(rewound, live, turns), Merge(rewound, live, turns);
    MergeIsSendable(rewound, live, turns);
    MergedPacketsMergeEvents(rewound, live, turns);
    MergedFeedIsWellFormed(r, l, ts);
    MergedOrdersAreRightIffUnharmed(r, l, ts);
    BytesToAgreement(session, m);
  }

  // ---- The client's whole sync ----

  function RangeOfBatch(b: Batch): Range
    requires SendableBatch(b)
  {
    Range(b.sequence, |b.messages|)
  }

  function Ranges(bs: seq<Batch>): (rs: seq<Range>)
    requires AllSendable(bs)
    ensures |rs| == |bs|
  {
    if bs == [] then [] else [RangeOfBatch(bs[0])] + Ranges(bs[1..])
  }

  /** Packets numbered without a gap from one number up to another; some may be
      empty. */
  predicate Chain(bs: seq<Batch>, from: uint64, till: uint64)
    requires AllSendable(bs)
    decreases |bs|
  {
    if bs == [] then from == till
    else
      bs[0].sequence == from && from + |bs[0].messages| <= till && Chain(bs[1..], from + |bs[0].messages|, till)
  }

  lemma RangeOfEncoded(session: bytes, b: Batch)
    requires |session| == 10 && SendableBatch(b)
    ensures ReadablePacket(EncodeBatch(session, b))
    ensures RangeOf(EncodeBatch(session, b)) == RangeOfBatch(b)
  {
    hide Encode, EncodeAll, WalkBlocks, Load16, Load64;
    PacketRoundTrip(session, b.sequence, b.messages);
  }

  lemma RangesOfTail(packets: seq<bytes>)
    requires packets != [] && AllReadable(packets)
    ensures AllReadable(packets[1..]) && RangesOf(packets) == [RangeOf(packets[0])] + RangesOf(packets[1..])
  {
    hide PacketWalk, RangeOf;
  }

  lemma {:induction false} RangesOfEncoded(session: bytes, bs: seq<Batch>)
    requires |session| == 10 && AllSendable(bs)
    ensures RangesOf(EncodeBatches(session, bs)) == Ranges(bs)
    decreases |bs|
  {
    hide EncodeBatch, RangesOf, ReadablePacket, RangeOf;
    if bs == [] {
      assert EncodeBatches(session, bs) == [];
    } else {
      var ps := EncodeBatches(session, bs);
      RangeOfEncoded(session, bs[0]);
      RangesOfEncoded(session, bs[1..]);
      assert ps[1..] == EncodeBatches(session, bs[1..]);
      RangesOfTail(ps);
    }
  }

  /** The ranges of merged packets are well numbered. */
  lemma {:induction false} MergeIsNumbered(rewound: seq<Batch>, live: seq<Batch>, turns: Turns,
                                           k: uint64, till: uint64, l: uint64, end: uint64)
    requires InTurn(rewound, live, turns) && AllSendable(rewound) && AllSendable(live)
    requires 0 < k && 0 < l && Chain(rewound, k, till) && Chain(live, l, end)
    ensures AllSendable(Merge(rewound, live, turns)) && Numbered(Ranges(Merge(rewound, live, turns)))
    decreases |turns|
  {
    MergeIsSendable(rewound, live, turns);
    if turns != [] {
      var m := Merge(rewound, live, turns);
      assert Ranges(m)[0] == RangeOfBatch(m[0]) && Ranges(m)[1..] == Ranges(m[1..]);
      if turns[0] {
        assert m[1..] == Merge(rewound, live[1..], turns[1..]);
        MergeIsNumbered(rewound, live[1..], turns[1..], k, till, l + |live[0].messages|, end);
      } else {
        assert m[1..] == Merge(rewound[1..], live, turns[1..]);
        MergeIsNumbered(rewound[1..], live, turns[1..], k + |rewound[0].messages|, till, l, end);
      }
      NumberedFromHead(Ranges(m));
    }
  }

  /** A packet that starts at the cursor moves it to its end, and one that starts
      at the first live number or above leaves it; neither overruns the sync. */
  lemma CursorTakesPacket(till: uint64, k: uint64, p: Range, rest: seq<Range>)
    requires 0 < k <= till && Numbered([p] + rest) && Numbered(rest)
    requires (p.first == k && p.first + p.count <= till) || till <= p.first
    requires Cursor(till, if p.first == k && k < till then k + p.count else k, rest) == Some(till)
    ensures Cursor(till, k, [p] + rest) == Some(till)
  {
    assert ([p] + rest)[1..] == rest;
  }

  /** The cursor of a sync walks up the rewound packets, whatever live packets
      come between, and no packet overruns the sync. */
  lemma {:induction false} SyncAbsorbsMerge(rewound: seq<Batch>, live: seq<Batch>, turns: Turns,
                                            k: uint64, till: uint64, l: uint64, end: uint64)
    requires InTurn(rewound, live, turns) && AllSendable(rewound) && AllSendable(live)
    requires 0 < k <= till <= l && Chain(rewound, k, till) && Chain(live, l, end)
    ensures AllSendable(Merge(rewound, live, turns)) && Numbered(Ranges(Merge(rewound, live, turns)))
    ensures Cursor(till, k, Ranges(Merge(rewound, live, turns))) == Some(till)
    decreases |turns|
  {
    MergeIsNumbered(rewound, live, turns, k, till, l, end);
    if turns != [] {
      hide Cursor, Numbered;
      var m := Merge(rewound, live, turns);
      var p, rest := RangeOfBatch(m[0]), Ranges(m[1..]);
      assert Ranges(m) == [p] + rest;
      if turns[0] {
        assert m[1..] == Merge(rewound, live[1..], turns[1..]);
        SyncAbsorbsMerge(rewound, live[1..], turns[1..], k, till, l + |live[0].messages|, end);
      } else {
        assert m[1..] == Merge(rewound[1..], live, turns[1..]);
        SyncAbsorbsMerge(rewound[1..], live, turns[1..], k + |rewound[0].messages|, till, l, end);
      }
      CursorTakesPacket(till, k, p, rest);
    } else {
      CursorAtEnd(till);
    }
  }

  lemma CursorAtEnd(till: uint64)
    ensures Cursor(till, till, []) == Some(till)
  {
  }

  lemma NumberedFromHead(rs: seq<Range>)
    requires rs != [] && 0 < rs[0].first && rs[0].first + rs[0].count < TWO64 && Numbered(rs[1..])
    ensures Numbered(rs)
  {
    forall i | 0 <= i < |rs| ensures 0 < rs[i].first && rs[i].first + rs[i].count < TWO64 {
      if 0 < i { assert rs[i] == rs[1..][i - 1]; }
    }
  }

  /** The run of a late joiner whose first packet is a live one, on number
      `till`, and who then gets the rewound packets among further live ones: it
      is defined and ends Continuous. */
  lemma LateJoinerBecomesContinuous(rewound: seq<Batch>, live: seq<Batch>, turns: Turns, till: uint64, end: uint64)
    requires InTurn(rewound, live, turns) && AllSendable(rewound) && AllSendable(live)
    requires turns != [] && turns[0] && 1 < till && Chain(rewound, 1, till) && Chain(live, till, end)
    ensures AllSendable(Merge(rewound, live, turns))
    ensures var r := ClientRun(FRESH, Ranges(Merge(rewound, live, turns))); r.Some? && r.value.mode == Continuous
  {
    MergeIsSendable(rewound, live, turns);
    var m := Merge(rewound, live, turns);
    var first, rest := RangeOfBatch(live[0]), Merge(rewound, live[1..], turns[1..]);
    assert m[0] == live[0] && m[1..] == rest;
    SyncAbsorbsMerge(rewound, live[1..], turns[1..], 1, till, till + |live[0].messages|, end);
    var all := Ranges(m);
    assert all == [first] + Ranges(rest);
    assert all[1..] == Ranges(rest);
    ChainStaysBelow(live[1..], till + |live[0].messages|, end);
    NumberedFromHead(all);
    LateJoinerSyncs(first, Ranges(rest));
  }

  lemma {:induction false} ChainStaysBelow(bs: seq<Batch>, from: uint64, till: uint64)
    requires AllSendable(bs) && Chain(bs, from, till)
    ensures from <= till
    decreases |bs|
  {
    if bs != [] {
      ChainStaysBelow(bs[1..], from + |bs[0].messages|, till);
    }
  }

  /** An actual client that joins late. It becomes Continuous, its levels agree
      with its orders, and yet the orders are those of the numbered feed exactly
      if the live packets left unharmed what the rewound range leaves live. */
  method JoinLate(session: bytes, rewound: seq<Batch>, live: seq<Batch>, turns: Turns, till: uint64, end: uint64)
    returns (client: MarketDataClient)
    requires |session| == 10 && InTurn(rewound, live, turns) && AllSendable(rewound) && AllSendable(live)
    requires turns != [] && turns[0] && 1 < till && Chain(rewound, 1, till) && Chain(live, till, end)
    requires CompleteRun(map[], EventsIn(rewound) + EventsIn(live)) && AddedOnce(EventsIn(rewound) + EventsIn(live))
    requires FitsThroughout(map[], EventsIn(Merge(rewound, live, turns)))
    ensures fresh(client) && client.Valid() && client.mode == Continuous
    ensures Agrees(client.builder.State())
    ensures InTurn(EventsIn(rewound), EventsIn(live), MessageTurns(rewound, live, turns))
    ensures client.builder.orderMap == OrdersAfter(map[], EventsIn(rewound) + EventsIn(live)) <==>
            forall key :: key in OrdersAfter(map[], EventsIn(rewound)) ==>
              Unharmed(EventsIn(rewound), EventsIn(live), MessageTurns(rewound, live, turns), key)
  {
    hide Feed, ClientRun, EncodeBatches, RangesOf, Ranges, CompleteRun, AddedOnce, FitsThroughout, Merge, MessageTurns;
    LateJoinerHasRightOrdersIffUnharmed(session, rewound, live, turns);
    LateJoinerBecomesContinuous(rewound, live, turns, till, end);
    RangesOfEncoded(session, Merge(rewound, live, turns));
    client := new MarketDataClient();
    var exited := ReceiveAll(client, EncodeBatches(session, Merge(rewound, live, turns)));
  }

  // ---- An order that comes back ----

  /** The client accepts the arrival 3, 1, 4, 2 and becomes Continuous, and yet
      an order that number 2 adds and number 4 deletes stays on its book, although
      the packet that started the sync harms nothing. */
  lemma AcceptedRunKeepsDeletedOrder(key: OrderKey, price: int32, qty: uint64)
    requires 0 < qty
    ensures var r := ClientRun(FRESH, [Range(3, 1), Range(1, 1), Range(4, 1), Range(2, 1)]);
            r.Some? && r.value.mode == Continuous
    ensures Idle([Skip], key)
    ensures key in OrdersAfter(map[], [Skip, Skip, Delete(key), Add(key, price, qty)])
    ensures key !in OrdersAfter(map[], [Skip, Add(key, price, qty)] + [Skip, Delete(key)])
  {
    DeletedBetweenRewoundOnes(key, price, qty);
    var rest := [Range(1, 1), Range(4, 1), Range(2, 1)];
    assert rest[1..] == [Range(4, 1), Range(2, 1)] && [Range(4, 1), Range(2, 1)][1..] == [Range(2, 1)];
    assert Cursor(3, 2, [Range(2, 1)]) == Some(3);
    assert Cursor(3, 2, [Range(4, 1), Range(2, 1)]) == Some(3);
    assert Cursor(3, 1, rest) == Some(3);
    assert [Range(3, 1)] + rest == [Range(3, 1), Range(1, 1), Range(4, 1), Range(2, 1)];
    LateJoinerSyncs(Range(3, 1), rest);
  }
}
