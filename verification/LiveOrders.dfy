/** The plain map of live orders, which the price levels must agree with, and
    the events of the feed that change it. */
module LiveOrders {
  import opened Words
  import opened L2Book

  /** An order is identified by its book, its id and its side. */
  datatype OrderKey = OrderKey(book: uint32, id: uint64, side: byte)

  datatype ItchOrder = ItchOrder(id: uint64, price: int32, leftQty: uint64, side: byte, book: uint32)

  type OrderMap = map<OrderKey, ItchOrder>

  datatype Event =
    | Add(key: OrderKey, price: int32, qty: uint64)
    | Execute(key: OrderKey, qty: uint64)
    | Delete(key: OrderKey)
    | Skip

  function NewOrder(key: OrderKey, price: int32, qty: uint64): ItchOrder {
    ItchOrder(key.id, price, qty, key.side, key.book)
  }

  /** What one event does to the live orders when books are left out of account. */
  function OrdersStep(orders: OrderMap, e: Event): OrderMap {
    match e
    case Add(key, price, qty) => orders[key := NewOrder(key, price, qty)]
    case Execute(key, qty) =>
      if key !in orders then orders
      else
        var left := Sub64(orders[key].leftQty, qty);
        if left == 0 then orders - {key} else orders[key := orders[key].(leftQty := left)]
    case Delete(key) => orders - {key}
    case Skip => orders
  }

  /** An addition puts its order on record, field by field, even over an order
      already there, and nothing else. */
  lemma AdditionRecords(orders: OrderMap, key: OrderKey, price: int32, qty: uint64)
    ensures var r := OrdersStep(orders, Add(key, price, qty));
            && r - {key} == orders - {key}
            && key in r && r[key] == ItchOrder(key.id, price, qty, key.side, key.book)
  {
  }

  /** An execution takes its quantity off one order, modulo 2^64, and drops the
      order exactly at zero; more than the order has left does not drop it. */
  lemma ExecutionCountsDown(orders: OrderMap, key: OrderKey, qty: uint64)
    ensures var r := OrdersStep(orders, Execute(key, qty));
            && r - {key} == orders - {key}
            && (key in r <==> key in orders && orders[key].leftQty != qty)
            && (key in r ==>
                  && (r[key].leftQty + qty) % 0x1_0000_0000_0000_0000 == orders[key].leftQty
                  && r[key] == orders[key].(leftQty := r[key].leftQty))
  {
  }

  function OrdersAfter(orders: OrderMap, events: seq<Event>): OrderMap
    decreases |events|
  {
    if events == [] then orders else OrdersAfter(OrdersStep(orders, events[0]), events[1..])
  }

  lemma {:induction false} OrdersAfterConcat(orders: OrderMap, a: seq<Event>, b: seq<Event>)
    ensures OrdersAfter(orders, a + b) == OrdersAfter(OrdersAfter(orders, a), b)
    decreases |a|
  {
    if a == [] {
      assert a + b == b;
    } else {
      assert (a + b)[1..] == a[1..] + b;
      OrdersAfterConcat(OrdersStep(orders, a[0]), a[1..], b);
    }
  }

  // ---- Quantities resting at a place in a book ----

  datatype Prices = At(price: int32) | Among(prices: set<int32>) | Anywhere {
    predicate Has(p: int32) {
      match this
      case At(price) => p == price
      case Among(prices) => p in prices
      case Anywhere => true
    }
  }

  /** A part of one side of one book. */
  datatype Place = Place(book: uint32, bid: bool, prices: Prices)

  predicate In(place: Place, key: OrderKey, price: int32) {
    key.book == place.book && IsBid(key.side) == place.bid && place.prices.Has(price)
  }

  function Share(place: Place, key: OrderKey, o: ItchOrder): nat {
    if In(place, key, o.price) then o.leftQty else 0
  }

  /** The total remaining quantity of the live orders at a place. */
  ghost function Resting(orders: OrderMap, place: Place): nat {
    if orders == map[] then 0
    else
      var key :| key in orders;
      Share(place, key, orders[key]) + Resting(orders - {key}, place)
  }

  /** Any order may be set aside first. */
  lemma {:induction false} RestingWithout(orders: OrderMap, place: Place, key: OrderKey)
    requires key in orders
    ensures Resting(orders, place) == Share(place, key, orders[key]) + Resting(orders - {key}, place)
    decreases |orders|
  {
    var first :| first in orders &&
      Resting(orders, place) == Share(place, first, orders[first]) + Resting(orders - {first}, place);
    if first != key {
      RestingWithout(orders - {first}, place, key);
      RestingWithout(orders - {key}, place, first);
      assert orders - {first} - {key} == orders - {key} - {first};
    }
  }

  /** Setting one entry changes the resting quantity by that entry's share. */
  lemma RestingWith(orders: OrderMap, place: Place, key: OrderKey, o: ItchOrder)
    ensures Resting(orders[key := o], place) == Share(place, key, o) + Resting(orders - {key}, place)
  {
    var next := orders[key := o];
    RestingWithout(next, place, key);
    assert next - {key} == orders - {key};
  }

  lemma RestingOthers(orders: OrderMap, place: Place, key: OrderKey)
    ensures Resting(orders, place)
         == (if key in orders then Share(place, key, orders[key]) else 0) + Resting(orders - {key}, place)
  {
    if key in orders {
      RestingWithout(orders, place, key);
    } else {
      assert orders - {key} == orders;
    }
  }

  /** Each live order is filed under its own key and has quantity left. */
  ghost predicate Live(orders: OrderMap) {
    forall key :: key in orders ==>
      && orders[key].leftQty > 0
      && orders[key] == NewOrder(key, orders[key].price, orders[key].leftQty)
  }

  ghost predicate Occupied(orders: OrderMap, place: Place) {
    exists key :: key in orders && In(place, key, orders[key].price)
  }

  /** Quantity rests at a place exactly when a live order is there. */
  lemma {:induction false} RestingIffOccupied(orders: OrderMap, place: Place)
    requires Live(orders)
    ensures Resting(orders, place) > 0 <==> Occupied(orders, place)
    decreases |orders|
  {
    if orders != map[] {
      var key :| key in orders;
      var rest := orders - {key};
      RestingWithout(orders, place, key);
      RestingIffOccupied(rest, place);
      if Occupied(rest, place) {
        var k :| k in rest && In(place, k, rest[k].price);
        assert k in orders && In(place, k, orders[k].price);
      }
      if Occupied(orders, place) {
        var k :| k in orders && In(place, k, orders[k].price);
        assert k == key || (k in rest && In(place, k, rest[k].price));
      }
    }
  }

  // ---- Well-formed feeds ----

  /** What the feed owes each order: a fresh key with a positive quantity, or an
      execution within the order's remainder. Executions and deletions of
      unknown orders are allowed. */
  predicate Orderly(orders: OrderMap, e: Event) {
    match e
    case Add(key, price, qty) => key !in orders && 0 < qty
    case Execute(key, qty) => key in orders ==> qty <= orders[key].leftQty
    case Delete(_) => true
    case Skip => true
  }

  /** The quantity of a level stays within its 64-bit word. */
  ghost predicate Fits(orders: OrderMap, e: Event) {
    e.Add? ==> Resting(orders, Place(e.key.book, IsBid(e.key.side), At(e.price))) + e.qty < TWO64
  }

  /** An event the book can absorb exactly. */
  ghost predicate WellFormed(orders: OrderMap, e: Event) {
    Orderly(orders, e) && Fits(orders, e)
  }

  ghost predicate WellFormedRun(orders: OrderMap, events: seq<Event>)
    decreases |events|
  {
    events == [] ||
    (WellFormed(orders, events[0]) && WellFormedRun(OrdersStep(orders, events[0]), events[1..]))
  }

  // ---- Each order depends on its own messages only ----

  predicate Concerns(e: Event, key: OrderKey) {
    !e.Skip? && e.key == key
  }

  /** The messages of a feed that name one order, in their order. */
  function History(events: seq<Event>, key: OrderKey): seq<Event> {
    if events == [] then []
    else if Concerns(events[0], key) then [events[0]] + History(events[1..], key)
    else History(events[1..], key)
  }

  ghost predicate SameEntry(a: OrderMap, b: OrderMap, key: OrderKey) {
    (key in a <==> key in b) && (key in a ==> a[key] == b[key])
  }

  /** An order ends up as if the feed had consisted of its own messages alone. */
  lemma {:induction false} OrderFollowsItsHistory(a: OrderMap, b: OrderMap, events: seq<Event>, key: OrderKey)
    requires SameEntry(a, b, key)
    ensures SameEntry(OrdersAfter(a, events), OrdersAfter(b, History(events, key)), key)
    decreases |events|
  {
    if events != [] {
      var e := events[0];
      var h := History(events, key);
      if Concerns(e, key) {
        assert h[0] == e && h[1..] == History(events[1..], key);
        OrderFollowsItsHistory(OrdersStep(a, e), OrdersStep(b, e), events[1..], key);
      } else {
        OrderFollowsItsHistory(OrdersStep(a, e), b, events[1..], key);
      }
    }
  }

  /** Feeds in which every order sees the same messages in the same order. */
  ghost predicate SameHistories(r: seq<Event>, s: seq<Event>) {
    forall key :: History(r, key) == History(s, key)
  }

  /** Reordering messages of different orders does not change the live orders. */
  lemma SameHistoriesSameOrders(orders: OrderMap, r: seq<Event>, s: seq<Event>)
    requires SameHistories(r, s)
    ensures OrdersAfter(orders, r) == OrdersAfter(orders, s)
  {
    var a, b := OrdersAfter(orders, r), OrdersAfter(orders, s);
    forall key ensures SameEntry(a, b, key) {
      OrderFollowsItsHistory(orders, orders, r, key);
      OrderFollowsItsHistory(orders, orders, s, key);
      assert History(r, key) == History(s, key);
    }
    forall key | key in a ensures key in b && a[key] == b[key] { assert SameEntry(a, b, key); }
    forall key | key in b ensures key in a { assert SameEntry(a, b, key); }
    assert a == b;
  }

  /** Swapping two adjacent messages about different orders keeps every history. */
  lemma SwapKeepsHistories(pre: seq<Event>, x: Event, y: Event, post: seq<Event>)
    requires x.Skip? || y.Skip? || x.key != y.key
    ensures SameHistories(pre + [x, y] + post, pre + [y, x] + post)
  {
    forall key ensures History(pre + [x, y] + post, key) == History(pre + [y, x] + post, key) {
      SwapKeepsHistory(pre, x, y, post, key);
    }
  }

  lemma {:induction false} SwapKeepsHistory(pre: seq<Event>, x: Event, y: Event, post: seq<Event>, key: OrderKey)
    requires x.Skip? || y.Skip? || x.key != y.key
    ensures History(pre + [x, y] + post, key) == History(pre + [y, x] + post, key)
  {
    if pre == [] {
      var r, s := pre + [x, y] + post, pre + [y, x] + post;
      assert r[1..] == [y] + post && s[1..] == [x] + post;
      assert ([y] + post)[1..] == post && ([x] + post)[1..] == post;
    } else {
      assert (pre + [x, y] + post)[1..] == pre[1..] + [x, y] + post;
      assert (pre + [y, x] + post)[1..] == pre[1..] + [y, x] + post;
      SwapKeepsHistory(pre[1..], x, y, post, key);
    }
  }

  ghost predicate FitsThroughout(orders: OrderMap, events: seq<Event>)
    decreases |events|
  {
    events == [] || (Fits(orders, events[0]) && FitsThroughout(OrdersStep(orders, events[0]), events[1..]))
  }

  /** The messages of one order are orderly wherever they occur in the feed. */
  predicate OrderlyFor(orders: OrderMap, events: seq<Event>, key: OrderKey)
    decreases |events|
  {
    events == [] ||
    ((Concerns(events[0], key) ==> Orderly(orders, events[0])) &&
     OrderlyFor(OrdersStep(orders, events[0]), events[1..], key))
  }

  lemma {:induction false} OrderlyByHistory(a: OrderMap, b: OrderMap, events: seq<Event>, key: OrderKey)
    requires SameEntry(a, b, key)
    ensures OrderlyFor(a, events, key) <==> OrderlyFor(b, History(events, key), key)
    decreases |events|
  {
    if events != [] {
      var e := events[0];
      var h := History(events, key);
      if Concerns(e, key) {
        assert h[0] == e && h[1..] == History(events[1..], key);
        OrderlyByHistory(OrdersStep(a, e), OrdersStep(b, e), events[1..], key);
      } else {
        OrderlyByHistory(OrdersStep(a, e), b, events[1..], key);
      }
    }
  }

  lemma {:induction false} WellFormedIsOrderly(orders: OrderMap, events: seq<Event>, key: OrderKey)
    requires WellFormedRun(orders, events)
    ensures FitsThroughout(orders, events) && OrderlyFor(orders, events, key)
    decreases |events|
  {
    if events != [] {
      WellFormedIsOrderly(OrdersStep(orders, events[0]), events[1..], key);
    }
  }

  lemma {:induction false} OrderlyIsWellFormed(orders: OrderMap, events: seq<Event>)
    requires FitsThroughout(orders, events)
    requires forall key :: OrderlyFor(orders, events, key)
    ensures WellFormedRun(orders, events)
    decreases |events|
  {
    if events != [] {
      var e := events[0];
      forall key ensures OrderlyFor(OrdersStep(orders, e), events[1..], key) {
        assert OrderlyFor(orders, events, key);
      }
      OrderlyIsWellFormed(OrdersStep(orders, e), events[1..]);
      if !e.Skip? {
        assert OrderlyFor(orders, events, e.key) && Concerns(e, e.key);
      }
    }
  }

  /** Reordering messages of different orders keeps a feed well formed, as long
      as no level outgrows its word on the way. */
  lemma SameHistoriesWellFormed(orders: OrderMap, r: seq<Event>, s: seq<Event>)
    requires SameHistories(r, s) && WellFormedRun(orders, r)
    ensures WellFormedRun(orders, s) <==> FitsThroughout(orders, s)
  {
    forall key ensures OrderlyFor(orders, s, key) {
      WellFormedIsOrderly(orders, r, key);
      OrderlyByHistory(orders, orders, r, key);
      OrderlyByHistory(orders, orders, s, key);
      assert History(r, key) == History(s, key);
    }
    if FitsThroughout(orders, s) {
      OrderlyIsWellFormed(orders, s);
    }
    if WellFormedRun(orders, s) {
      var key := OrderKey(0, 0, 0);
      WellFormedIsOrderly(orders, s, key);
    }
  }

  // ---- Conservation of quantity ----

  /** Quantity that passed through a place: put in by additions, taken out by
      executions, and withdrawn by deletions. */
  datatype Flow = Flow(added: nat, executed: nat, withdrawn: nat)

  function FlowOf(orders: OrderMap, e: Event, place: Place): Flow {
    match e
    case Add(key, price, qty) => Flow(if In(place, key, price) then qty else 0, 0, 0)
    case Execute(key, qty) => Flow(0, if key in orders && In(place, key, orders[key].price) then qty else 0, 0)
    case Delete(key) => Flow(0, 0, if key in orders then Share(place, key, orders[key]) else 0)
    case Skip => Flow(0, 0, 0)
  }

  function TotalFlow(orders: OrderMap, events: seq<Event>, place: Place): Flow
    decreases |events|
  {
    if events == [] then Flow(0, 0, 0)
    else
      var f := FlowOf(orders, events[0], place);
      var g := TotalFlow(OrdersStep(orders, events[0]), events[1..], place);
      Flow(f.added + g.added, f.executed + g.executed, f.withdrawn + g.withdrawn)
  }

  lemma StepConservesQuantity(orders: OrderMap, e: Event, place: Place)
    requires WellFormed(orders, e)
    ensures var f := FlowOf(orders, e, place);
            Resting(orders, place) + f.added == f.executed + f.withdrawn + Resting(OrdersStep(orders, e), place)
  {
    if !e.Skip? {
      RestingOthers(orders, place, e.key);
      match e
      case Add(key, price, qty) =>
        RestingWith(orders, place, key, NewOrder(key, price, qty));
      case Execute(key, qty) =>
        if key in orders {
          RestingWith(orders, place, key, orders[key].(leftQty := orders[key].leftQty - qty));
        }
      case Delete(key) =>
    }
  }

  /** Over every well-formed feed and at every place, the quantity resting at
      the start plus the quantity added equals the quantity executed plus the
      quantity withdrawn plus the quantity still resting. */
  lemma {:induction false} RunConservesQuantity(orders: OrderMap, events: seq<Event>, place: Place)
    requires WellFormedRun(orders, events)
    ensures var f := TotalFlow(orders, events, place);
            Resting(orders, place) + f.added
            == f.executed + f.withdrawn + Resting(OrdersAfter(orders, events), place)
    decreases |events|
  {
    if events != [] {
      StepConservesQuantity(orders, events[0], place);
      RunConservesQuantity(OrdersStep(orders, events[0]), events[1..], place);
    }
  }
}
