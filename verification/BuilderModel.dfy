/** The order book builder as a state machine over feed events, and what every
    run of it keeps: the price levels agree with the live orders. */
module BuilderModel {
  import opened Words
  import opened PriceLevels
  import opened L2Book
  import opened LiveOrders

  datatype BuilderState = BuilderState(orders: OrderMap, books: map<uint32, Book>)

  const EMPTY_BOOK := Book(map[], map[])
  const INITIAL := BuilderState(map[], map[])

  function BookAt(st: BuilderState, id: uint32): Book {
    if id in st.books then st.books[id] else EMPTY_BOOK
  }

  function SideAt(st: BuilderState, id: uint32, bid: bool): PriceIndex {
    SideOf(BookAt(st, id), bid)
  }

  /** One event either leaves the process running, or reaches exit(42), or
      dereferences a level that is not there. */
  datatype Outcome = Running(state: BuilderState) | Exited | Undefined

  function Step(st: BuilderState, e: Event): Outcome {
    match e
    case Add(key, price, qty) =>
      Running(BuilderState(st.orders[key := NewOrder(key, price, qty)],
                           st.books[key.book := AddToBook(BookAt(st, key.book), key.side, price, qty)]))
    case Execute(key, qty) =>
      if key !in st.orders then Running(st)
      else if st.orders[key].price !in SideAt(st, key.book, IsBid(key.side)) then Undefined
      else
        Running(BuilderState(OrdersStep(st.orders, e),
                             st.books[key.book := ExecuteInBook(BookAt(st, key.book), key.side, st.orders[key].price, qty)]))
    case Delete(key) =>
      if key !in st.orders then Running(st)
      else
        var o := st.orders[key];
        if o.price !in SideAt(st, key.book, IsBid(key.side)) then Exited
        else
          Running(BuilderState(st.orders - {key},
                               st.books[key.book := DeleteFromBook(BookAt(st, key.book), key.side, o.price, o.leftQty)]))
    case Skip => Running(st)
  }

  /** What an event does, in any state. An event about no live order (other
      than an addition) changes nothing. Otherwise it needs the level it is
      about, unless it adds, and moves that one quote: up by an addition, down to
      zero at most by an execution, down modulo 2^64 by a deletion. */
  lemma StepMovesOneQuote(st: BuilderState, e: Event, id: uint32, bid: bool, p: int32)
    requires !e.Skip?
    ensures !e.Add? && e.key !in st.orders ==> Step(st, e) == Running(st)
    ensures e.Add? ==> Step(st, e).Running?
    ensures e.key in st.orders && !e.Add? ==>
              var there := st.orders[e.key].price in SideAt(st, e.key.book, e.key.side == 'B' as int);
              Step(st, e).Running? == there && (!there ==> Step(st, e) == if e.Execute? then Undefined else Exited)
    ensures Step(st, e).Running? && (e.Add? || e.key in st.orders) ==>
              var price := if e.Add? then e.price else st.orders[e.key].price;
              var was, now := Quoted(SideAt(st, id, bid), p), Quoted(SideAt(Step(st, e).state, id, bid), p);
              if (id, bid, p) != (e.key.book, e.key.side == 'B' as int, price) then now == was
              else
                match e
                case Add(_, _, qty) => now == Add64(was, qty)
                case Execute(_, qty) => now == if qty < was then was - qty else 0
                case Delete(key) => was == Add64(now, st.orders[key].leftQty)
  {
    if e.Add? {
      AdditionMovesOneQuote(SideAt(st, e.key.book, IsBid(e.key.side)), e.price, e.qty);
      hide IndexAdd;
    } else if Step(st, e).Running? && e.key in st.orders {
      var o, m := st.orders[e.key], SideAt(st, e.key.book, IsBid(e.key.side));
      if e.Execute? {
        ExecutionMovesOneQuote(m, o.price, e.qty);
      } else {
        DeletionMovesOneQuote(m, o.price, o.leftQty);
      }
      hide IndexExecute, IndexDelete;
    }
  }

  function Run(st: BuilderState, events: seq<Event>): Outcome
    decreases |events|
  {
    if events == [] then Running(st)
    else
      var o := Step(st, events[0]);
      if o.Running? then Run(o.state, events[1..]) else o
  }

  lemma {:induction false} RunConcat(st: BuilderState, a: seq<Event>, b: seq<Event>)
    ensures Run(st, a + b) == if Run(st, a).Running? then Run(Run(st, a).state, b) else Run(st, a)
    decreases |a|
  {
    if a == [] {
      assert a + b == b;
    } else {
      assert (a + b)[1..] == a[1..] + b;
      if Step(st, a[0]).Running? {
        RunConcat(Step(st, a[0]).state, a[1..], b);
      }
    }
  }

  /** Events of other message types change nothing and can be dropped. */
  function Relevant(events: seq<Event>): seq<Event> {
    if events == [] then []
    else if events[0].Skip? then Relevant(events[1..])
    else [events[0]] + Relevant(events[1..])
  }

  lemma {:induction false} SkippedEventsDoNotMatter(st: BuilderState, events: seq<Event>)
    ensures Run(st, events) == Run(st, Relevant(events))
    decreases |events|
  {
    if events != [] {
      var r := Relevant(events);
      if events[0].Skip? {
        SkippedEventsDoNotMatter(st, events[1..]);
      } else {
        assert r[0] == events[0] && r[1..] == Relevant(events[1..]);
        if Step(st, events[0]).Running? {
          SkippedEventsDoNotMatter(Step(st, events[0]).state, events[1..]);
        }
      }
    }
  }

  // ---- Which books exist ----

  /** The books that the additions of a feed name. */
  function BooksNamed(events: seq<Event>): set<uint32> {
    if events == [] then {}
    else (if events[0].Add? then {events[0].key.book} else {}) + BooksNamed(events[1..])
  }

  /** In every run, well formed or not, a book exists iff an addition has named
      it: executions and deletions, of unknown orders or known ones, create
      none. */
  lemma {:induction false} BooksAreThoseNamed(st: BuilderState, events: seq<Event>)
    requires forall key :: key in st.orders ==> key.book in st.books
    requires Run(st, events).Running?
    ensures Run(st, events).state.books.Keys == st.books.Keys + BooksNamed(events)
    ensures forall key :: key in Run(st, events).state.orders ==> key.book in Run(st, events).state.books
    decreases |events|
  {
    if events != [] {
      hide AddToBook, ExecuteInBook, DeleteFromBook;
      BooksAreThoseNamed(Step(st, events[0]).state, events[1..]);
    }
  }

  // ---- Agreement of the levels with the live orders ----

  /** A price is quoted iff quantity rests there, and quotes that quantity. */
  ghost predicate LevelAgrees(st: BuilderState, id: uint32, bid: bool, p: int32) {
    var m, q := SideAt(st, id, bid), Resting(st.orders, Place(id, bid, At(p)));
    (p in m <==> q > 0) && (p in m ==> m[p] == q)
  }

  ghost predicate Agrees(st: BuilderState) {
    && Live(st.orders)
    && forall id: uint32, bid, p: int32 :: LevelAgrees(st, id, bid, p)
  }

  lemma InitialAgrees()
    ensures Agrees(INITIAL)
  {
  }

  /** The level of a live order is there and holds at least its quantity. */
  lemma LiveOrderIsQuoted(st: BuilderState, key: OrderKey)
    requires Agrees(st) && key in st.orders
    ensures var o, m := st.orders[key], SideAt(st, key.book, IsBid(key.side));
            key.book in st.books && o.price in m && o.leftQty <= m[o.price]
  {
    var o := st.orders[key];
    RestingWithout(st.orders, Place(key.book, IsBid(key.side), At(o.price)), key);
    assert LevelAgrees(st, key.book, IsBid(key.side), o.price);
  }

  /** What a step must leave in the one level it touches; all other levels keep
      what they had. */
  lemma AgreementAfterChange(st: BuilderState, next: BuilderState, key: OrderKey, price: int32)
    requires Agrees(st)
    requires Live(next.orders)
    requires st.orders - {key} == next.orders - {key}
    requires key in st.orders ==> st.orders[key].price == price
    requires key in next.orders ==> next.orders[key].price == price
    requires forall id: uint32, bid, p: int32 :: (id, bid, p) != (key.book, IsBid(key.side), price) ==>
               (p in SideAt(next, id, bid) <==> p in SideAt(st, id, bid)) &&
               (p in SideAt(next, id, bid) ==> SideAt(next, id, bid)[p] == SideAt(st, id, bid)[p])
    ensures Agrees(next) <==> LevelAgrees(next, key.book, IsBid(key.side), price)
  {
    forall id: uint32, bid, p: int32 | (id, bid, p) != (key.book, IsBid(key.side), price)
      ensures LevelAgrees(next, id, bid, p)
    {
      var place := Place(id, bid, At(p));
      RestingOthers(st.orders, place, key);
      RestingOthers(next.orders, place, key);
      assert LevelAgrees(st, id, bid, p);
    }
  }

  /** Adding under a live key leaves the overwritten order's quantity behind in
      its level. */
  lemma OverwritingDisagrees(st: BuilderState, key: OrderKey, price: int32, qty: uint64)
    requires Agrees(st) && key in st.orders
    ensures !Agrees(Step(st, Add(key, price, qty)).state)
  {
    hide Resting;
    var was, next := st.orders[key], Step(st, Add(key, price, qty)).state;
    var place := Place(key.book, IsBid(key.side), At(was.price));
    RestingWithout(st.orders, place, key);
    RestingWith(st.orders, place, key, NewOrder(key, price, qty));
    assert LevelAgrees(st, key.book, IsBid(key.side), was.price);
    assert !LevelAgrees(next, key.book, IsBid(key.side), was.price);
  }

  lemma AddAgreement(st: BuilderState, e: Event)
    requires Agrees(st) && e.Add?
    ensures Agrees(Step(st, e).state) <==> WellFormed(st.orders, e)
  {
    hide Resting;
    var Add(key, price, qty) := e;
    var next := Step(st, e).state;
    if key in st.orders {
      OverwritingDisagrees(st, key, price, qty);
    } else if qty == 0 {
      assert next.orders[key].leftQty == 0;
    } else {
      var place := Place(key.book, IsBid(key.side), At(price));
      RestingOthers(st.orders, place, key);
      RestingWith(st.orders, place, key, NewOrder(key, price, qty));
      assert LevelAgrees(st, key.book, IsBid(key.side), price);
      assert next.orders - {key} == st.orders - {key};
      AgreementAfterChange(st, next, key, price);
    }
  }

  lemma ExecuteAgreement(st: BuilderState, e: Event)
    requires Agrees(st) && e.Execute?
    ensures Step(st, e).Running?
    ensures Agrees(Step(st, e).state) <==> WellFormed(st.orders, e)
  {
    hide Resting;
    var Execute(key, qty) := e;
    if key in st.orders {
      LiveOrderIsQuoted(st, key);
      var o, next := st.orders[key], Step(st, e).state;
      var place := Place(key.book, IsBid(key.side), At(o.price));
      RestingWithout(st.orders, place, key);
      RestingOthers(next.orders, place, key);
      assert LevelAgrees(st, key.book, IsBid(key.side), o.price);
      assert next.orders - {key} == st.orders - {key};
      AgreementAfterChange(st, next, key, o.price);
    }
  }

  lemma DeleteAgreement(st: BuilderState, e: Event)
    requires Agrees(st) && e.Delete?
    ensures Step(st, e).Running? && Agrees(Step(st, e).state)
  {
    var key := e.key;
    if key in st.orders {
      LiveOrderIsQuoted(st, key);
      var o, next := st.orders[key], Step(st, e).state;
      var place := Place(key.book, IsBid(key.side), At(o.price));
      RestingWithout(st.orders, place, key);
      assert LevelAgrees(st, key.book, IsBid(key.side), o.price);
      assert next.orders - {key} == st.orders - {key};
      AgreementAfterChange(st, next, key, o.price);
    }
  }

  /** From agreement no event ends the process or is undefined, and the
      agreement survives the event exactly when the event is well formed. */
  lemma StepKeepsAgreementIffWellFormed(st: BuilderState, e: Event)
    requires Agrees(st)
    ensures Step(st, e).Running?
    ensures Step(st, e).state.orders == OrdersStep(st.orders, e)
    ensures Agrees(Step(st, e).state) <==> WellFormed(st.orders, e)
  {
    match e
    case Add(_, _, _) => AddAgreement(st, e);
    case Execute(_, _) => ExecuteAgreement(st, e);
    case Delete(_) => DeleteAgreement(st, e);
    case Skip =>
  }

  /** The levels agree with the live orders in every state of the run. */
  ghost predicate AgreesThroughout(st: BuilderState, events: seq<Event>)
    decreases |events|
  {
    && Agrees(st)
    && (events != [] ==> Step(st, events[0]).Running? && AgreesThroughout(Step(st, events[0]).state, events[1..]))
  }

  /** The levels agree with the live orders throughout a run exactly when the
      feed is well formed. */
  lemma {:induction false} AgreesThroughoutIffWellFormed(st: BuilderState, events: seq<Event>)
    requires Agrees(st)
    ensures AgreesThroughout(st, events) <==> WellFormedRun(st.orders, events)
    decreases |events|
  {
    if events != [] {
      StepKeepsAgreementIffWellFormed(st, events[0]);
      var next := Step(st, events[0]).state;
      if Agrees(next) {
        AgreesThroughoutIffWellFormed(next, events[1..]);
      }
    }
  }

  /** A well-formed run completes, ends in agreement, and its live orders are
      those of the plain map. */
  lemma {:induction false} WellFormedRunAgrees(st: BuilderState, events: seq<Event>)
    requires Agrees(st) && WellFormedRun(st.orders, events)
    ensures Run(st, events).Running?
    ensures Agrees(Run(st, events).state)
    ensures Run(st, events).state.orders == OrdersAfter(st.orders, events)
    decreases |events|
  {
    if events != [] {
      StepKeepsAgreementIffWellFormed(st, events[0]);
      WellFormedRunAgrees(Step(st, events[0]).state, events[1..]);
    }
  }

  // ---- No failing lookup and no wrap-around ----

  /** Every lookup of the step succeeds and every unsigned operation on a
      quantity has its true result. */
  ghost predicate StepIsExact(st: BuilderState, e: Event) {
    match e
    case Add(key, price, qty) =>
      var m := SideAt(st, key.book, IsBid(key.side));
      price in m ==> Add64(m[price], qty) == m[price] + qty
    case Execute(key, qty) =>
      key in st.orders ==>
        var o, m := st.orders[key], SideAt(st, key.book, IsBid(key.side));
        && key.book in st.books && o.price in m
        && qty <= m[o.price] && Sub64(o.leftQty, qty) == o.leftQty - qty
    case Delete(key) =>
      key in st.orders ==>
        var o, m := st.orders[key], SideAt(st, key.book, IsBid(key.side));
        key.book in st.books && o.price in m && Sub64(m[o.price], o.leftQty) == m[o.price] - o.leftQty
    case Skip => true
  }

  ghost predicate RunIsExact(st: BuilderState, events: seq<Event>)
    decreases |events|
  {
    events == [] ||
    (StepIsExact(st, events[0]) && Step(st, events[0]).Running? && RunIsExact(Step(st, events[0]).state, events[1..]))
  }

  lemma {:induction false} WellFormedRunIsExact(st: BuilderState, events: seq<Event>)
    requires Agrees(st) && WellFormedRun(st.orders, events)
    ensures RunIsExact(st, events)
    decreases |events|
  {
    if events != [] {
      var e := events[0];
      match e {
        case Add(key, price, qty) => assert LevelAgrees(st, key.book, IsBid(key.side), price);
        case Execute(key, qty) => if key in st.orders { LiveOrderIsQuoted(st, key); }
        case Delete(key) => if key in st.orders { LiveOrderIsQuoted(st, key); }
        case Skip =>
      }
      StepKeepsAgreementIffWellFormed(st, e);
      WellFormedRunIsExact(Step(st, e).state, events[1..]);
    }
  }

  // ---- Consequences of agreement ----

  /** The live orders alone determine every side of every book. */
  lemma AgreementIsCanonical(x: BuilderState, y: BuilderState, id: uint32)
    requires Agrees(x) && Agrees(y) && x.orders == y.orders
    ensures BookAt(x, id) == BookAt(y, id)
  {
    forall bid ensures SideAt(x, id, bid) == SideAt(y, id, bid) {
      var m, n := SideAt(x, id, bid), SideAt(y, id, bid);
      forall p: int32 ensures (p in m <==> p in n) && (p in m ==> m[p] == n[p]) {
        assert LevelAgrees(x, id, bid, p) && LevelAgrees(y, id, bid, p);
      }
      assert m == n;
    }
    assert SideAt(x, id, true) == BookAt(x, id).bids && SideAt(x, id, false) == BookAt(x, id).asks;
    assert SideAt(y, id, true) == BookAt(y, id).bids && SideAt(y, id, false) == BookAt(y, id).asks;
  }

  /** Two feeds in which every order sees the same messages build the same
      books, however the messages of different orders interleave, provided one
      feed is well formed and no level of the other outgrows its word. */
  lemma InterleavingDoesNotMatter(r: seq<Event>, s: seq<Event>, id: uint32)
    requires WellFormedRun(map[], r) && SameHistories(r, s) && FitsThroughout(map[], s)
    ensures Run(INITIAL, r).Running? && Run(INITIAL, s).Running?
    ensures Run(INITIAL, r).state.orders == Run(INITIAL, s).state.orders
    ensures BookAt(Run(INITIAL, r).state, id) == BookAt(Run(INITIAL, s).state, id)
  {
    InitialAgrees();
    SameHistoriesWellFormed(map[], r, s);
    WellFormedRunAgrees(INITIAL, r);
    WellFormedRunAgrees(INITIAL, s);
    SameHistoriesSameOrders(map[], r, s);
    AgreementIsCanonical(Run(INITIAL, r).state, Run(INITIAL, s).state, id);
  }

  /** The best quote of a side is the best price among its live orders. */
  lemma BestQuoteIsBestOrder(st: BuilderState, id: uint32, bid: bool, p: int32)
    requires Agrees(st)
    ensures IsHighest(SideAt(st, id, bid), p) <==>
            Occupied(st.orders, Place(id, bid, At(p))) &&
            forall q: int32 :: Occupied(st.orders, Place(id, bid, At(q))) ==> q <= p
    ensures IsLowest(SideAt(st, id, bid), p) <==>
            Occupied(st.orders, Place(id, bid, At(p))) &&
            forall q: int32 :: Occupied(st.orders, Place(id, bid, At(q))) ==> p <= q
  {
    forall q: int32 ensures q in SideAt(st, id, bid) <==> Occupied(st.orders, Place(id, bid, At(q))) {
      assert LevelAgrees(st, id, bid, q);
      RestingIffOccupied(st.orders, Place(id, bid, At(q)));
    }
  }

  // ---- Conservation in the levels ----

  /** The quantity quoted by a vector over all its levels. */
  function Total(s: seq<Level>): nat {
    if s == [] then 0 else Total(s[..|s| - 1]) + s[|s| - 1].qty
  }

  lemma {:induction false} TotalOfLevels(st: BuilderState, id: uint32, bid: bool, comp: Comparator, s: seq<Level>)
    requires Agrees(st) && Sorted(comp, s)
    requires forall i :: 0 <= i < |s| ==> s[i].price in SideAt(st, id, bid) && SideAt(st, id, bid)[s[i].price] == s[i].qty
    ensures Total(s) == Resting(st.orders, Place(id, bid, Among(Index(s).Keys)))
  {
    if s == [] {
      RestingNowhere(st.orders, id, bid);
      assert Index(s).Keys == {};
    } else {
      var back, front := s[|s| - 1], s[..|s| - 1];
      DropBack(comp, s);
      TotalOfLevels(st, id, bid, comp, front);
      assert LevelAgrees(st, id, bid, back.price);
      assert Index(s).Keys == Index(front).Keys + {back.price};
      RestingSplits(st.orders, id, bid, Index(front).Keys, back.price);
    }
  }

  lemma {:induction false} RestingNowhere(orders: OrderMap, id: uint32, bid: bool)
    ensures Resting(orders, Place(id, bid, Among({}))) == 0
    decreases |orders|
  {
    if orders != map[] {
      var key :| key in orders;
      RestingWithout(orders, Place(id, bid, Among({})), key);
      RestingNowhere(orders - {key}, id, bid);
    }
  }

  lemma {:induction false} RestingSplits(orders: OrderMap, id: uint32, bid: bool, ps: set<int32>, p: int32)
    requires p !in ps
    ensures Resting(orders, Place(id, bid, Among(ps + {p})))
         == Resting(orders, Place(id, bid, Among(ps))) + Resting(orders, Place(id, bid, At(p)))
    decreases |orders|
  {
    if orders != map[] {
      var key :| key in orders;
      RestingWithout(orders, Place(id, bid, Among(ps + {p})), key);
      RestingWithout(orders, Place(id, bid, Among(ps)), key);
      RestingWithout(orders, Place(id, bid, At(p)), key);
      RestingSplits(orders - {key}, id, bid, ps, p);
    }
  }

  lemma {:induction false} RestingEverywhere(orders: OrderMap, id: uint32, bid: bool, ps: set<int32>)
    requires forall key :: key in orders && key.book == id && IsBid(key.side) == bid ==> orders[key].price in ps
    ensures Resting(orders, Place(id, bid, Among(ps))) == Resting(orders, Place(id, bid, Anywhere))
    decreases |orders|
  {
    if orders != map[] {
      var key :| key in orders;
      RestingWithout(orders, Place(id, bid, Among(ps)), key);
      RestingWithout(orders, Place(id, bid, Anywhere), key);
      RestingEverywhere(orders - {key}, id, bid, ps);
    }
  }

  /** The levels of a side together hold what its live orders have left. */
  lemma SideTotalIsRestingTotal(st: BuilderState, id: uint32, bid: bool, comp: Comparator, s: seq<Level>)
    requires Agrees(st) && Sorted(comp, s) && Index(s) == SideAt(st, id, bid)
    ensures Total(s) == Resting(st.orders, Place(id, bid, Anywhere))
  {
    IndexEntries(comp, s);
    TotalOfLevels(st, id, bid, comp, s);
    forall key | key in st.orders && key.book == id && IsBid(key.side) == bid
      ensures st.orders[key].price in Index(s).Keys
    {
      LiveOrderIsQuoted(st, key);
    }
    RestingEverywhere(st.orders, id, bid, Index(s).Keys);
  }

  /** Over a well-formed run from the empty builder, what was added to a side is
      what was executed, withdrawn, or is now quoted by its levels. */
  lemma LevelsConserveQuantity(events: seq<Event>, id: uint32, bid: bool, comp: Comparator, s: seq<Level>)
    requires WellFormedRun(map[], events)
    requires Run(INITIAL, events).Running? && Sorted(comp, s) && Index(s) == SideAt(Run(INITIAL, events).state, id, bid)
    ensures var f := TotalFlow(map[], events, Place(id, bid, Anywhere));
            f.added == f.executed + f.withdrawn + Total(s)
    ensures forall i :: 0 <= i < |s| ==>
              var g := TotalFlow(map[], events, Place(id, bid, At(s[i].price)));
              g.added == g.executed + g.withdrawn + s[i].qty
  {
    InitialAgrees();
    WellFormedRunAgrees(INITIAL, events);
    var st := Run(INITIAL, events).state;
    SideTotalIsRestingTotal(st, id, bid, comp, s);
    RunConservesQuantity(map[], events, Place(id, bid, Anywhere));
    IndexEntries(comp, s);
    forall i | 0 <= i < |s|
      ensures var g := TotalFlow(map[], events, Place(id, bid, At(s[i].price)));
              g.added == g.executed + g.withdrawn + s[i].qty
    {
      assert LevelAgrees(st, id, bid, s[i].price);
      RunConservesQuantity(map[], events, Place(id, bid, At(s[i].price)));
    }
  }
}
