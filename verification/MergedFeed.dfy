/** Feeds in which live events arrive before earlier ones that are sent again
    only afterwards, the two kinds alternating in any way, and what they make of
    the live orders. */
module MergedFeed {
  import opened Words
  import opened LiveOrders

  // ---- Arrival orders ----

  /** Whose turn it is: true for a live arrival, false for a rewound one. */
  type Turns = seq<bool>

  /** The turns use up both sequences. */
  predicate InTurn<T>(rewound: seq<T>, live: seq<T>, turns: Turns)
    decreases |turns|
  {
    if turns == [] then |rewound| == 0 && |live| == 0
    else if turns[0] then 0 < |live| && InTurn(rewound, live[1..], turns[1..])
    else 0 < |rewound| && InTurn(rewound[1..], live, turns[1..])
  }

  /** The arrivals, each kind in its own order. */
  function Merge<T>(rewound: seq<T>, live: seq<T>, turns: Turns): (m: seq<T>)
    requires InTurn(rewound, live, turns)
    ensures |m| == |turns| == |rewound| + |live|
    decreases |turns|
  {
    if turns == [] then []
    else if turns[0] then [live[0]] + Merge(rewound, live[1..], turns[1..])
    else [rewound[0]] + Merge(rewound[1..], live, turns[1..])
  }

  /** How many live events arrive before the rewound addition of an order. */
  function EarlyCount(rewound: seq<Event>, live: seq<Event>, turns: Turns, key: OrderKey): (n: nat)
    requires InTurn(rewound, live, turns)
    ensures n <= |live|
    decreases |turns|
  {
    if turns == [] then 0
    else if turns[0] then 1 + EarlyCount(rewound, live[1..], turns[1..], key)
    else if IsAdd(rewound[0], key) then 0
    else EarlyCount(rewound[1..], live, turns[1..], key)
  }

  // ---- What a feed does to one order, in total ----

  predicate IsAdd(e: Event, key: OrderKey) {
    e.Add? && e.key == key
  }

  /** How often the events add an order. */
  function Added(events: seq<Event>, key: OrderKey): nat {
    if events == [] then 0 else (if IsAdd(events[0], key) then 1 else 0) + Added(events[1..], key)
  }

  /** How much of an order the events execute. */
  function Executed(events: seq<Event>, key: OrderKey): nat {
    if events == [] then 0
    else (if events[0].Execute? && events[0].key == key then events[0].qty else 0) + Executed(events[1..], key)
  }

  /** Whether the events delete an order. */
  predicate Deleted(events: seq<Event>, key: OrderKey) {
    events != [] && (events[0] == Delete(key) || Deleted(events[1..], key))
  }

  /** A complete feed: every execution and deletion names a live order. */
  ghost predicate CompleteRun(orders: OrderMap, events: seq<Event>)
    decreases |events|
  {
    events == [] ||
    (Orderly(orders, events[0]) && (events[0].Execute? || events[0].Delete? ==> events[0].key in orders) &&
     CompleteRun(OrdersStep(orders, events[0]), events[1..]))
  }

  /** No order is added twice. */
  ghost predicate AddedOnce(events: seq<Event>) {
    forall key :: Added(events, key) <= 1
  }

  /** The events execute nothing of an order and do not delete it. */
  predicate Idle(events: seq<Event>, key: OrderKey) {
    Executed(events, key) == 0 && !Deleted(events, key)
  }

  /** The live events about an order that come before its rewound addition are
      idle, or its live deletion comes after it. */
  predicate Unharmed(rewound: seq<Event>, live: seq<Event>, turns: Turns, key: OrderKey)
    requires InTurn(rewound, live, turns)
  {
    var n := EarlyCount(rewound, live, turns, key);
    Idle(live[..n], key) || Deleted(live[n..], key)
  }

  lemma {:induction false} CompleteRunConcat(orders: OrderMap, a: seq<Event>, b: seq<Event>)
    ensures CompleteRun(orders, a + b) <==> CompleteRun(orders, a) && CompleteRun(OrdersAfter(orders, a), b)
    decreases |a|
  {
    if a == [] {
      assert a + b == b;
    } else {
      assert (a + b)[1..] == a[1..] + b;
      CompleteRunConcat(OrdersStep(orders, a[0]), a[1..], b);
    }
  }

  lemma {:induction false} TotalsOfConcat(a: seq<Event>, b: seq<Event>, key: OrderKey)
    ensures Added(a + b, key) == Added(a, key) + Added(b, key)
    ensures Executed(a + b, key) == Executed(a, key) + Executed(b, key)
    ensures Deleted(a + b, key) <==> Deleted(a, key) || Deleted(b, key)
    decreases |a|
  {
    if a == [] {
      assert a + b == b;
    } else {
      assert (a + b)[1..] == a[1..] + b;
      TotalsOfConcat(a[1..], b, key);
    }
  }

  lemma {:induction false} HistoryConcat(a: seq<Event>, b: seq<Event>, key: OrderKey)
    ensures History(a + b, key) == History(a, key) + History(b, key)
    decreases |a|
  {
    if a == [] {
      assert a + b == b;
    } else {
      assert (a + b)[1..] == a[1..] + b;
      HistoryConcat(a[1..], b, key);
    }
  }

  // ---- An order after its addition ----

  datatype Entry = Gone | There(order: ItchOrder)

  function EntryOf(orders: OrderMap, key: OrderKey): Entry {
    if key in orders then There(orders[key]) else Gone
  }

  /** What is left of an order of which so much was executed, and which may have
      been deleted. */
  function Leftover(o: ItchOrder, executed: nat, deleted: bool): Entry {
    if deleted || o.leftQty <= executed then Gone else There(o.(leftQty := o.leftQty - executed))
  }

  /** An order that is not there and not added stays away. */
  lemma {:induction false} NotAddedIsAbsent(orders: OrderMap, events: seq<Event>, key: OrderKey)
    requires key !in orders && Added(events, key) == 0
    ensures key !in OrdersAfter(orders, events)
    ensures OrderlyFor(orders, events, key)
    decreases |events|
  {
    if events != [] {
      NotAddedIsAbsent(OrdersStep(orders, events[0]), events[1..], key);
    }
  }

  /** In a complete feed an order that is not there and not added is not named. */
  lemma {:induction false} NotAddedIsNotNamed(orders: OrderMap, events: seq<Event>, key: OrderKey)
    requires CompleteRun(orders, events) && key !in orders && Added(events, key) == 0
    ensures History(events, key) == [] && Idle(events, key)
    decreases |events|
  {
    if events != [] {
      NotAddedIsNotNamed(OrdersStep(orders, events[0]), events[1..], key);
    }
  }

  /** As long as the executions fit, only their total and a deletion matter, not
      the order in which they come. */
  lemma {:induction false} OnlyTotalsMatter(orders: OrderMap, events: seq<Event>, key: OrderKey)
    requires key in orders && 0 < orders[key].leftQty
    requires Added(events, key) == 0 && Executed(events, key) <= orders[key].leftQty
    ensures EntryOf(OrdersAfter(orders, events), key)
         == Leftover(orders[key], Executed(events, key), Deleted(events, key))
    ensures OrderlyFor(orders, events, key)
    decreases |events|
  {
    if events != [] {
      var next := OrdersStep(orders, events[0]);
      if key in next {
        OnlyTotalsMatter(next, events[1..], key);
      } else {
        NotAddedIsAbsent(next, events[1..], key);
      }
    }
  }

  /** A complete feed does not execute more than there is. */
  lemma {:induction false} ExecutionsFit(orders: OrderMap, events: seq<Event>, key: OrderKey)
    requires CompleteRun(orders, events) && key in orders && Added(events, key) == 0
    ensures Executed(events, key) <= orders[key].leftQty
    decreases |events|
  {
    if events != [] {
      var next := OrdersStep(orders, events[0]);
      if key in next {
        ExecutionsFit(next, events[1..], key);
      } else {
        NotAddedIsNotNamed(next, events[1..], key);
      }
    }
  }

  /** The order that the feed adds under a key. */
  function AddedOrder(events: seq<Event>, key: OrderKey): ItchOrder
    requires 0 < Added(events, key)
  {
    if IsAdd(events[0], key) then NewOrder(key, events[0].price, events[0].qty) else AddedOrder(events[1..], key)
  }

  /** The events after the addition of an order. */
  function SinceAdd(events: seq<Event>, key: OrderKey): seq<Event>
    requires 0 < Added(events, key)
  {
    if IsAdd(events[0], key) then events[1..] else SinceAdd(events[1..], key)
  }

  /** What the events since its addition leave of an order. */
  function LeftSinceAdd(events: seq<Event>, key: OrderKey): Entry
    requires 0 < Added(events, key)
  {
    var since := SinceAdd(events, key);
    Leftover(AddedOrder(events, key), Executed(since, key), Deleted(since, key))
  }

  /** An order added once ends up as what is left of it since its addition. */
  lemma {:induction false} AddedOrderLeaves(orders: OrderMap, events: seq<Event>, key: OrderKey)
    requires key !in orders && Added(events, key) == 1
    requires 0 < AddedOrder(events, key).leftQty
    requires Executed(SinceAdd(events, key), key) <= AddedOrder(events, key).leftQty
    ensures EntryOf(OrdersAfter(orders, events), key) == LeftSinceAdd(events, key)
    ensures OrderlyFor(orders, events, key)
    decreases |events|
  {
    var next := OrdersStep(orders, events[0]);
    if IsAdd(events[0], key) {
      OnlyTotalsMatter(next, events[1..], key);
    } else {
      AddedOrderLeaves(next, events[1..], key);
    }
  }

  /** In a complete feed nothing precedes the addition of an order, and what
      follows fits it. */
  lemma {:induction false} NothingBeforeAdd(orders: OrderMap, events: seq<Event>, key: OrderKey)
    requires CompleteRun(orders, events) && key !in orders && Added(events, key) == 1
    ensures 0 < AddedOrder(events, key).leftQty && Executed(events, key) <= AddedOrder(events, key).leftQty
    ensures Executed(SinceAdd(events, key), key) == Executed(events, key)
    ensures Deleted(SinceAdd(events, key), key) == Deleted(events, key)
    decreases |events|
  {
    var next := OrdersStep(orders, events[0]);
    if IsAdd(events[0], key) {
      ExecutionsFit(next, events[1..], key);
    } else {
      NothingBeforeAdd(next, events[1..], key);
    }
  }

  lemma {:induction false} AddedInFirst(a: seq<Event>, b: seq<Event>, key: OrderKey)
    requires 0 < Added(a, key)
    ensures 0 < Added(a + b, key) && AddedOrder(a + b, key) == AddedOrder(a, key)
    decreases |a|
  {
    TotalsOfConcat(a, b, key);
    assert (a + b)[1..] == a[1..] + b;
    if !IsAdd(a[0], key) {
      AddedInFirst(a[1..], b, key);
    }
  }

  // ---- The same order in a merged feed ----

  lemma {:induction false} TotalsOfMerge(rewound: seq<Event>, live: seq<Event>, turns: Turns, key: OrderKey)
    requires InTurn(rewound, live, turns)
    ensures var m := Merge(rewound, live, turns);
            && Added(m, key) == Added(rewound, key) + Added(live, key)
            && Executed(m, key) == Executed(rewound, key) + Executed(live, key)
            && (Deleted(m, key) <==> Deleted(rewound, key) || Deleted(live, key))
    decreases |turns|
  {
    if turns != [] {
      var m := Merge(rewound, live, turns);
      if turns[0] {
        assert m[1..] == Merge(rewound, live[1..], turns[1..]);
        TotalsOfMerge(rewound, live[1..], turns[1..], key);
      } else {
        assert m[1..] == Merge(rewound[1..], live, turns[1..]);
        TotalsOfMerge(rewound[1..], live, turns[1..], key);
      }
    }
  }

  /** Of an order added in the rewound range, a merge keeps the addition and,
      since then, what the live events from there on do to it. */
  ghost predicate KeepsAddition(rewound: seq<Event>, live: seq<Event>, turns: Turns, key: OrderKey)
    requires InTurn(rewound, live, turns) && 0 < Added(rewound, key)
  {
    var m, n, done := Merge(rewound, live, turns), EarlyCount(rewound, live, turns, key), SinceAdd(rewound, key);
    && 0 < Added(m, key)
    && AddedOrder(m, key) == AddedOrder(rewound, key)
    && Executed(SinceAdd(m, key), key) == Executed(done, key) + Executed(live[n..], key)
    && (Deleted(SinceAdd(m, key), key) <==> Deleted(done, key) || Deleted(live[n..], key))
  }

  lemma {:induction false} MergeKeepsAddition(rewound: seq<Event>, live: seq<Event>, turns: Turns, key: OrderKey)
    requires InTurn(rewound, live, turns) && 0 < Added(rewound, key) && Added(live, key) == 0
    ensures KeepsAddition(rewound, live, turns, key)
    decreases |turns|
  {
    var m := Merge(rewound, live, turns);
    if turns[0] {
      assert m[1..] == Merge(rewound, live[1..], turns[1..]);
      MergeKeepsAddition(rewound, live[1..], turns[1..], key);
      var n := EarlyCount(rewound, live[1..], turns[1..], key);
      assert live[1..][n..] == live[n + 1..];
    } else {
      assert m[1..] == Merge(rewound[1..], live, turns[1..]);
      if IsAdd(rewound[0], key) {
        TotalsOfMerge(rewound[1..], live, turns[1..], key);
        assert live[0..] == live;
      } else {
        MergeKeepsAddition(rewound[1..], live, turns[1..], key);
      }
    }
  }

  /** An order that the rewound range does not name has its live history. */
  lemma {:induction false} HistoryOfMerge(rewound: seq<Event>, live: seq<Event>, turns: Turns, key: OrderKey)
    requires InTurn(rewound, live, turns) && History(rewound, key) == []
    ensures History(Merge(rewound, live, turns), key) == History(live, key)
    decreases |turns|
  {
    if turns != [] {
      var m := Merge(rewound, live, turns);
      if turns[0] {
        assert m[1..] == Merge(rewound, live[1..], turns[1..]);
        HistoryOfMerge(rewound, live[1..], turns[1..], key);
      } else {
        assert m[1..] == Merge(rewound[1..], live, turns[1..]);
        HistoryOfMerge(rewound[1..], live, turns[1..], key);
      }
    }
  }

  /** The totals of the live events split at any point, and an order deleted in
      the first part is not named in the second. */
  lemma LiveTotalsSplit(orders: OrderMap, live: seq<Event>, n: nat, key: OrderKey)
    requires n <= |live| && CompleteRun(orders, live) && Added(live, key) == 0
    requires key in orders && 0 < orders[key].leftQty
    ensures Executed(live, key) == Executed(live[..n], key) + Executed(live[n..], key)
    ensures Deleted(live, key) <==> Deleted(live[..n], key) || Deleted(live[n..], key)
    ensures Deleted(live[..n], key) ==> Idle(live[n..], key)
  {
    assert live == live[..n] + live[n..];
    TotalsOfConcat(live[..n], live[n..], key);
    CompleteRunConcat(orders, live[..n], live[n..]);
    if Deleted(live[..n], key) {
      ExecutionsFit(orders, live[..n], key);
      OnlyTotalsMatter(orders, live[..n], key);
      NotAddedIsNotNamed(OrdersAfter(orders, live[..n]), live[n..], key);
    }
  }

  /** An order that the rewound range does not add, in the merged feed and in the
      numbered one. */
  lemma EntryNotRewound(rewound: seq<Event>, live: seq<Event>, turns: Turns, key: OrderKey)
    requires InTurn(rewound, live, turns)
    requires CompleteRun(map[], rewound + live) && Added(rewound, key) == 0
    ensures SameEntry(OrdersAfter(map[], Merge(rewound, live, turns)), OrdersAfter(map[], rewound + live), key)
    ensures key !in OrdersAfter(map[], rewound)
    ensures OrderlyFor(map[], Merge(rewound, live, turns), key) <==> OrderlyFor(map[], rewound + live, key)
  {
    var m, h := Merge(rewound, live, turns), History(live, key);
    CompleteRunConcat(map[], rewound, live);
    NotAddedIsNotNamed(map[], rewound, key);
    NotAddedIsAbsent(map[], rewound, key);
    HistoryOfMerge(rewound, live, turns, key);
    HistoryConcat(rewound, live, key);
    assert [] + h == h;
    OrderFollowsItsHistory(map[], map[], m, key);
    OrderFollowsItsHistory(map[], map[], rewound + live, key);
    OrderlyByHistory(map[], map[], m, key);
    OrderlyByHistory(map[], map[], rewound + live, key);
  }

  /** What the numbered feed leaves of an order that the rewound range adds. */
  lemma EntryInNumberedFeed(rewound: seq<Event>, live: seq<Event>, key: OrderKey)
    requires CompleteRun(map[], rewound + live) && Added(rewound, key) == 1 && Added(live, key) == 0
    ensures var o, done := AddedOrder(rewound, key), Executed(rewound, key);
            && 0 < o.leftQty && done + Executed(live, key) <= o.leftQty
            && EntryOf(OrdersAfter(map[], rewound), key) == Leftover(o, done, Deleted(rewound, key))
            && EntryOf(OrdersAfter(map[], rewound + live), key)
               == Leftover(o, done + Executed(live, key), Deleted(rewound, key) || Deleted(live, key))
  {
    CompleteRunConcat(map[], rewound, live);
    TotalsOfConcat(rewound, live, key);
    AddedInFirst(rewound, live, key);
    NothingBeforeAdd(map[], rewound, key);
    NothingBeforeAdd(map[], rewound + live, key);
    hide OrdersAfter, CompleteRun;
    AddedOrderLeaves(map[], rewound, key);
    AddedOrderLeaves(map[], rewound + live, key);
  }

  /** What the merged feed leaves of it: the live events before the addition are
      lost. */
  lemma EntryInMergedFeed(rewound: seq<Event>, live: seq<Event>, turns: Turns, key: OrderKey)
    requires InTurn(rewound, live, turns)
    requires CompleteRun(map[], rewound + live) && Added(rewound, key) == 1 && Added(live, key) == 0
    ensures var m, late := Merge(rewound, live, turns), live[EarlyCount(rewound, live, turns, key)..];
            && OrderlyFor(map[], m, key)
            && EntryOf(OrdersAfter(map[], m), key)
               == Leftover(AddedOrder(rewound, key), Executed(rewound, key) + Executed(late, key),
                           Deleted(rewound, key) || Deleted(late, key))
  {
    var m, n := Merge(rewound, live, turns), EarlyCount(rewound, live, turns, key);
    EntryInNumberedFeed(rewound, live, key);
    CompleteRunConcat(map[], rewound, live);
    NothingBeforeAdd(map[], rewound, key);
    assert live == live[..n] + live[n..];
    TotalsOfConcat(live[..n], live[n..], key);
    TotalsOfMerge(rewound, live, turns, key);
    MergeKeepsAddition(rewound, live, turns, key);
    hide OrdersAfter, CompleteRun, Merge;
    AddedOrderLeaves(map[], m, key);
  }

  /** One order comes out right iff it is not live after the rewound range or is
      left unharmed. */
  lemma MergedEntryIsRightIffUnharmed(rewound: seq<Event>, live: seq<Event>, turns: Turns, key: OrderKey)
    requires InTurn(rewound, live, turns)
    requires CompleteRun(map[], rewound + live) && AddedOnce(rewound + live)
    ensures SameEntry(OrdersAfter(map[], Merge(rewound, live, turns)), OrdersAfter(map[], rewound + live), key) <==>
            (key in OrdersAfter(map[], rewound) ==> Unharmed(rewound, live, turns, key))
  {
    TotalsOfConcat(rewound, live, key);
    assert Added(rewound + live, key) <= 1;
    hide OrdersAfter, Executed, Added, Merge, EarlyCount, AddedOrder;
    if Added(rewound, key) == 0 {
      EntryNotRewound(rewound, live, turns, key);
    } else {
      EntryInNumberedFeed(rewound, live, key);
      EntryInMergedFeed(rewound, live, turns, key);
      CompleteRunConcat(map[], rewound, live);
      var before, n := OrdersAfter(map[], rewound), EarlyCount(rewound, live, turns, key);
      if key in before {
        LiveTotalsSplit(before, live, n, key);
      } else {
        NotAddedIsNotNamed(before, live, key);
        assert live == live[..n] + live[n..];
        TotalsOfConcat(live[..n], live[n..], key);
      }
    }
  }

  /** However live and rewound events alternate, the live orders come out as in
      the numbered feed exactly if every order that is live after the rewound
      range is left unharmed. */
  lemma MergedOrdersAreRightIffUnharmed(rewound: seq<Event>, live: seq<Event>, turns: Turns)
    requires InTurn(rewound, live, turns)
    requires CompleteRun(map[], rewound + live) && AddedOnce(rewound + live)
    ensures OrdersAfter(map[], Merge(rewound, live, turns)) == OrdersAfter(map[], rewound + live) <==>
            forall key :: key in OrdersAfter(map[], rewound) ==> Unharmed(rewound, live, turns, key)
  {
    var merged, due := OrdersAfter(map[], Merge(rewound, live, turns)), OrdersAfter(map[], rewound + live);
    var before := OrdersAfter(map[], rewound);
    hide OrdersAfter, CompleteRun, AddedOnce, Unharmed;
    if forall key :: key in before ==> Unharmed(rewound, live, turns, key) {
      forall key ensures SameEntry(merged, due, key) { MergedEntryIsRightIffUnharmed(rewound, live, turns, key); }
      SameEntriesSameOrders(merged, due);
    }
    if merged == due {
      forall key | key in before ensures Unharmed(rewound, live, turns, key) {
        MergedEntryIsRightIffUnharmed(rewound, live, turns, key);
      }
    }
  }

  lemma SameEntriesSameOrders(a: OrderMap, b: OrderMap)
    requires forall key :: SameEntry(a, b, key)
    ensures a == b
  {
    forall key | key in a ensures key in b && a[key] == b[key] { assert SameEntry(a, b, key); }
    forall key | key in b ensures key in a { assert SameEntry(a, b, key); }
  }

  /** A merged feed is well formed whatever the turns, as long as no level
      outgrows its word on the way. */
  lemma MergedFeedIsWellFormed(rewound: seq<Event>, live: seq<Event>, turns: Turns)
    requires InTurn(rewound, live, turns)
    requires CompleteRun(map[], rewound + live) && AddedOnce(rewound + live)
    requires FitsThroughout(map[], Merge(rewound, live, turns))
    ensures WellFormedRun(map[], Merge(rewound, live, turns))
  {
    var m := Merge(rewound, live, turns);
    forall key ensures OrderlyFor(map[], m, key) {
      TotalsOfConcat(rewound, live, key);
      assert Added(rewound + live, key) <= 1;
      if Added(rewound, key) == 0 {
        EntryNotRewound(rewound, live, turns, key);
        CompleteIsOrderly(map[], rewound + live, key);
      } else {
        EntryInMergedFeed(rewound, live, turns, key);
      }
    }
    OrderlyIsWellFormed(map[], m);
  }

  lemma {:induction false} CompleteIsOrderly(orders: OrderMap, events: seq<Event>, key: OrderKey)
    requires CompleteRun(orders, events)
    ensures OrderlyFor(orders, events, key)
    decreases |events|
  {
    if events != [] {
      CompleteIsOrderly(OrdersStep(orders, events[0]), events[1..], key);
    }
  }

  // ---- All live events first ----

  function LiveFirst(rewound: nat, live: nat): Turns {
    seq(live, _ => true) + seq(rewound, _ => false)
  }

  lemma {:induction false} MergeLiveFirst(rewound: seq<Event>, live: seq<Event>, key: OrderKey)
    ensures var turns := LiveFirst(|rewound|, |live|);
            && InTurn(rewound, live, turns)
            && Merge(rewound, live, turns) == live + rewound
            && EarlyCount(rewound, live, turns, key) == |live|
    decreases |live|, |rewound|
  {
    var turns := LiveFirst(|rewound|, |live|);
    if live != [] {
      assert turns[1..] == LiveFirst(|rewound|, |live[1..]|);
      MergeLiveFirst(rewound, live[1..], key);
      assert [live[0]] + (live[1..] + rewound) == live + rewound;
    } else if rewound != [] {
      assert turns[1..] == LiveFirst(|rewound[1..]|, 0);
      MergeLiveFirst(rewound[1..], live, key);
      assert [rewound[0]] + (live + rewound[1..]) == live + rewound;
    }
  }

  /** When all live events come before all rewound ones, the live orders come out
      right exactly if the live events leave alone every order that the rewound
      ones leave live. */
  lemma LateOrdersAreRightIffUntouched(rewound: seq<Event>, live: seq<Event>)
    requires CompleteRun(map[], rewound + live) && AddedOnce(rewound + live)
    ensures OrdersAfter(map[], live + rewound) == OrdersAfter(map[], rewound + live) <==>
            forall key :: key in OrdersAfter(map[], rewound) ==> Idle(live, key)
  {
    var turns := LiveFirst(|rewound|, |live|);
    MergeLiveFirst(rewound, live, OrderKey(0, 0, 0));
    MergedOrdersAreRightIffUnharmed(rewound, live, turns);
    hide OrdersAfter, CompleteRun, AddedOnce, LiveFirst, Executed;
    forall key ensures Unharmed(rewound, live, turns, key) <==> Idle(live, key) {
      MergeLiveFirst(rewound, live, key);
      assert live[..|live|] == live && live[|live|..] == [];
    }
  }

  // ---- Orders that come back ----

  /** An order added in a rewound packet and deleted in the live packet that
      started the sync stays on the late joiner's book. */
  lemma DeletedOrderComesBack(key: OrderKey, price: int32, qty: uint64)
    requires 0 < qty
    ensures key in OrdersAfter(map[], [Delete(key)] + [Add(key, price, qty)])
    ensures key !in OrdersAfter(map[], [Add(key, price, qty)] + [Delete(key)])
  {
    var add, delete := [Add(key, price, qty)], [Delete(key)];
    OrdersAfterConcat(map[], add, delete);
    OrdersAfterConcat(map[], delete, add);
  }

  /** The turns of two live and two rewound events that alternate. */
  const ALTERNATE: Turns := [true, false, true, false]

  lemma AlternateTurns(rewound: seq<Event>, live: seq<Event>)
    requires |rewound| == 2 && |live| == 2
    ensures InTurn(rewound, live, ALTERNATE)
    ensures Merge(rewound, live, ALTERNATE) == [live[0], rewound[0], live[1], rewound[1]]
    ensures forall key :: !IsAdd(rewound[0], key) && IsAdd(rewound[1], key) ==>
                            EarlyCount(rewound, live, ALTERNATE, key) == 2
  {
    var r, l := rewound[1..], live[1..];
    assert ALTERNATE[1..] == [false, true, false] && [false, true, false][1..] == [true, false];
    assert [true, false][1..] == [false] && [false][1..] == [];
    assert r[1..] == [] && l[1..] == [];
    assert InTurn(r, [], [false]) && Merge(r, [], [false]) == [rewound[1]];
    assert InTurn(r, l, [true, false]) && Merge(r, l, [true, false]) == [live[1], rewound[1]];
    assert InTurn(rewound, l, [false, true, false]);
    assert Merge(rewound, l, [false, true, false]) == [rewound[0], live[1], rewound[1]];
  }

  /** It also stays when the deletion comes in a later live packet, between two
      rewound ones: of 1 to 4, number 2 adds the order, 4 deletes it, and they
      arrive as 3, 1, 4, 2. The packet that started the sync harms nothing. */
  lemma DeletedBetweenRewoundOnes(key: OrderKey, price: int32, qty: uint64)
    requires 0 < qty
    ensures var rewound, live := [Skip, Add(key, price, qty)], [Skip, Delete(key)];
            && InTurn(rewound, live, ALTERNATE)
            && Merge(rewound, live, ALTERNATE) == [Skip, Skip, Delete(key), Add(key, price, qty)]
            && Idle(live[..1], key) && !Unharmed(rewound, live, ALTERNATE, key)
            && key in OrdersAfter(map[], Merge(rewound, live, ALTERNATE))
            && key !in OrdersAfter(map[], rewound + live)
  {
    var rewound, live := [Skip, Add(key, price, qty)], [Skip, Delete(key)];
    AlternateTurns(rewound, live);
    hide InTurn, Merge, EarlyCount, OrdersAfter;
    assert live[..2] == live && live[2..] == [] && live[..1] == [Skip];
    assert live[1..] == [Delete(key)] && Deleted(live[1..], key) && Deleted(live, key);
    SkipIsIdle([Skip], key);
    SkipsDoNotMatter(key, price, qty);
  }

  lemma SkipIsIdle(events: seq<Event>, key: OrderKey)
    requires events == [Skip]
    ensures Idle(events, key)
  {
    assert events[1..] == [];
  }

  lemma SkipsDoNotMatter(key: OrderKey, price: int32, qty: uint64)
    requires 0 < qty
    ensures key in OrdersAfter(map[], [Skip, Skip, Delete(key), Add(key, price, qty)])
    ensures key !in OrdersAfter(map[], [Skip, Add(key, price, qty)] + [Skip, Delete(key)])
  {
    var add, delete := Add(key, price, qty), Delete(key);
    DeletedOrderComesBack(key, price, qty);
    assert [Skip, Skip, delete, add] == [Skip, Skip] + ([delete] + [add]);
    OrdersAfterConcat(map[], [Skip, Skip], [delete] + [add]);
    assert [Skip, add] + [Skip, delete] == [Skip] + ([add] + ([Skip] + [delete]));
    OrdersAfterConcat(map[], [Skip], [add] + ([Skip] + [delete]));
    OrdersAfterConcat(map[], [add], [Skip] + [delete]);
    OrdersAfterConcat(OrdersAfter(map[], [add]), [Skip], [delete]);
  }
}
