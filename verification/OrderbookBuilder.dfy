/** The order book builder itself: the map of live orders, the map of books, and
    the three feed handlers that edit both in place. */
module OrderbookBuilder {
  import opened Words
  import opened PriceLevels
  import opened L2Book
  import opened LiveOrders
  import opened BuilderModel

  class ConcreteOrderbookBuilder {
    var orderMap: OrderMap
    var orderbookMap: map<uint32, L2Orderbook>

    ghost var Repr: set<L2Orderbook>  // the books, and none of them twice

    ghost predicate Valid()
      reads `orderbookMap, `Repr, Repr
    {
      && (forall id :: id in orderbookMap ==> orderbookMap[id] in Repr && orderbookMap[id].Valid())
      && (forall a, b :: a in orderbookMap && b in orderbookMap && a != b ==> orderbookMap[a] != orderbookMap[b])
    }

    ghost function Books(): map<uint32, Book>
      requires Valid()
      reads `orderbookMap, `Repr, Repr
    {
      map id | id in orderbookMap :: orderbookMap[id].Value()
    }

    ghost function State(): BuilderState
      requires Valid()
      reads this, Repr
    {
      BuilderState(orderMap, Books())
    }

    constructor ()
      ensures Valid() && Repr == {}
      ensures State() == INITIAL
    {
      orderMap, orderbookMap, Repr := map[], map[], {};
    }

    /** The map subscript: an absent book is created empty. */
    method BookFor(id: uint32) returns (book: L2Orderbook)
      requires Valid()
      modifies this
      ensures Valid() && fresh(Repr - old(Repr)) && old(Repr) <= Repr
      ensures id in orderbookMap && orderbookMap[id] == book
      ensures orderMap == old(orderMap)
      ensures book.Value() == BookAt(old(State()), id)
      ensures Books() == old(Books())[id := BookAt(old(State()), id)]
    {
      hide Sorted, Index;
      if id !in orderbookMap {
        var b := new L2Orderbook();
        Repr := Repr + {b};
        orderbookMap := orderbookMap[id := b];
      }
      book := orderbookMap[id];
    }

    /** Editing one book in place changes that book's entry only. */
    twostate lemma OneBookEdited(id: uint32)
      requires old(Valid())
      requires orderbookMap == old(orderbookMap) && Repr == old(Repr) && id in orderbookMap
      requires orderbookMap[id].Valid()
      requires forall b :: b in orderbookMap && b != id ==> unchanged(orderbookMap[b])
      ensures Valid()
      ensures Books() == old(Books())[id := orderbookMap[id].Value()]
    {
    }

    method AddToLevels(id: uint32, side: byte, price: int32, qty: uint64)
      requires Valid()
      modifies this, Repr
      ensures Valid() && fresh(Repr - old(Repr))
      ensures orderMap == old(orderMap)
      ensures Books() == old(Books())[id := AddToBook(BookAt(old(State()), id), side, price, qty)]
    {
      hide Sorted, Index, AddToBook;
      var orderbook := BookFor(id);
      label Edit:
      orderbook.AddOrder(side, price, qty);
      OneBookEdited@Edit(id);
    }

    method ExecuteInLevels(id: uint32, side: byte, price: int32, qty: uint64)
      requires Valid() && price in SideAt(State(), id, IsBid(side))
      modifies this, Repr
      ensures Valid() && fresh(Repr - old(Repr))
      ensures orderMap == old(orderMap)
      ensures Books() == old(Books())[id := ExecuteInBook(BookAt(old(State()), id), side, price, qty)]
    {
      hide Sorted, Index, ExecuteInBook;
      var orderbook := BookFor(id);
      label Edit:
      orderbook.ExecuteOrder(side, price, qty);
      OneBookEdited@Edit(id);
    }

    method DeleteFromLevels(id: uint32, side: byte, price: int32, qty: uint64) returns (exited: bool)
      requires Valid()
      modifies this, Repr
      ensures Valid() && fresh(Repr - old(Repr))
      ensures orderMap == old(orderMap)
      ensures exited <==> price !in SideAt(old(State()), id, IsBid(side))
      ensures !exited ==>
                Books() == old(Books())[id := DeleteFromBook(BookAt(old(State()), id), side, price, qty)]
    {
      hide Sorted, Index, DeleteFromBook;
      var orderbook := BookFor(id);
      label Edit:
      exited := orderbook.DeleteOrder(side, price, qty);
      OneBookEdited@Edit(id);
    }

    method AddOrder(key: OrderKey, price: int32, qty: uint64)
      requires Valid()
      modifies this, Repr
      ensures Valid() && fresh(Repr - old(Repr))
      ensures Running(State()) == Step(old(State()), Add(key, price, qty))
    {
      hide Sorted, Index, AddToBook;
      orderMap := orderMap[key := NewOrder(key, price, qty)];
      AddToLevels(key.book, key.side, price, qty);
    }

    /** Takes the executed quantity off a live order and drops it when done. */
    method ReduceOrder(key: OrderKey, executedQty: uint64)
      requires key in orderMap
      modifies `orderMap
      ensures orderMap == OrdersStep(old(orderMap), Execute(key, executedQty))
    {
      ghost var orders := orderMap;
      orderMap := orderMap[key := orderMap[key].(leftQty := Sub64(orderMap[key].leftQty, executedQty))];
      if orderMap[key].leftQty == 0 {
        orderMap := orderMap - {key};
        assert orderMap == orders - {key};
      }
    }

    /** Executing against a level that is not there is undefined, so callers
        must not ask for it. */
    method ExecuteOrder(key: OrderKey, executedQty: uint64)
      requires Valid()
      requires Step(State(), Execute(key, executedQty)) != Undefined
      modifies this, Repr
      ensures Valid() && fresh(Repr - old(Repr))
      ensures Running(State()) == Step(old(State()), Execute(key, executedQty))
    {
      if key !in orderMap {
        return;
      }
      hide Sorted, Index, ExecuteInBook;
      ExecuteInLevels(key.book, key.side, orderMap[key].price, executedQty);
      ReduceOrder(key, executedQty);
    }

    /** `exited` tells that the process ended in exit(42). */
    method DeleteOrder(key: OrderKey) returns (exited: bool)
      requires Valid()
      modifies this, Repr
      ensures Valid() && fresh(Repr - old(Repr))
      ensures (if exited then Exited else Running(State())) == Step(old(State()), Delete(key))
    {
      if key !in orderMap {
        return false;
      }
      hide Sorted, Index, DeleteFromBook;
      exited := DeleteFromLevels(key.book, key.side, orderMap[key].price, orderMap[key].leftQty);
      if !exited {
        orderMap := orderMap - {key};
      }
    }
  }

  /** With both sides occupied, the best prices of a book are the highest price
      among its live bids and the lowest among its live asks. */
  method BestPricesOfLiveOrders(builder: ConcreteOrderbookBuilder, id: uint32) returns (bid: int32, ask: int32)
    requires builder.Valid() && Agrees(builder.State())
    requires exists key :: key in builder.orderMap && key.book == id && key.side == 'B' as int
    requires exists key :: key in builder.orderMap && key.book == id && key.side != 'B' as int
    ensures exists key :: key in builder.orderMap && key.book == id && key.side == 'B' as int
                          && builder.orderMap[key].price == bid
    ensures exists key :: key in builder.orderMap && key.book == id && key.side != 'B' as int
                          && builder.orderMap[key].price == ask
    ensures forall key :: key in builder.orderMap && key.book == id ==>
              var price := builder.orderMap[key].price;
              if key.side == 'B' as int then price <= bid else ask <= price
  {
    ghost var b: OrderKey :| b in builder.orderMap && b.book == id && b.side == 'B' as int;
    ghost var a: OrderKey :| a in builder.orderMap && a.book == id && a.side != 'B' as int;
    LiveOrderIsQuoted(builder.State(), b);
    LiveOrderIsQuoted(builder.State(), a);
    var book := builder.orderbookMap[id];
    bid, ask := book.GetBestPrices();
    BestQuoteIsBestOrder(builder.State(), id, true, bid);
    BestQuoteIsBestOrder(builder.State(), id, false, ask);
    forall key | key in builder.orderMap && key.book == id
      ensures var price := builder.orderMap[key].price; if key.side == 'B' as int then price <= bid else ask <= price
    {
      assert Occupied(builder.orderMap, Place(id, key.side == 'B' as int, At(builder.orderMap[key].price)));
    }
  }

  /** The vectors of a book are those of the canonical state: two builders whose
      books mean the same hold identical level vectors. */
  lemma SameStateSameVectors(x: ConcreteOrderbookBuilder, y: ConcreteOrderbookBuilder, id: uint32)
    requires x.Valid() && y.Valid() && id in x.orderbookMap && id in y.orderbookMap
    requires Agrees(x.State()) && Agrees(y.State()) && x.orderMap == y.orderMap
    ensures x.orderbookMap[id].bids == y.orderbookMap[id].bids
    ensures x.orderbookMap[id].asks == y.orderbookMap[id].asks
  {
    AgreementIsCanonical(x.State(), y.State(), id);
    EqualBooksHaveEqualVectors(x.orderbookMap[id], y.orderbookMap[id]);
  }
}
