/** The aggregated order book of one instrument: two level vectors edited in
    place by reverse scan, insert, erase and quantity updates. */
module L2Book {
  import opened Words
  import opened PriceLevels

  /** What an order book means: the quantity quoted at each price, per side. */
  datatype Book = Book(bids: PriceIndex, asks: PriceIndex)

  const BUY: byte := 'B' as int
  const INT_MAX: int32 := 0x7fff_ffff

  predicate IsBid(side: byte) { side == BUY }

  function SideOf(b: Book, bid: bool): PriceIndex {
    if bid then b.bids else b.asks
  }

  function WithSide(b: Book, bid: bool, m: PriceIndex): Book {
    if bid then b.(bids := m) else b.(asks := m)
  }

  // ---- Vector edits: each keeps the order and changes one index entry ----

  lemma InsertSorted(comp: Comparator, s: seq<Level>, k: nat, l: Level)
    requires k <= |s| && Sorted(comp, s)
    requires forall i :: 0 <= i < k ==> comp.Holds(s[i].price, l.price)
    requires forall i :: k <= i < |s| ==> comp.Holds(l.price, s[i].price)
    ensures Sorted(comp, s[..k] + [l] + s[k..])
  {
    var r := s[..k] + [l] + s[k..];
    forall i, j | 0 <= i < j < |r| ensures comp.Holds(r[i].price, r[j].price) {
      if i != k { assert r[i] == s[if i < k then i else i - 1]; }
      if j != k { assert r[j] == s[if j < k then j else j - 1]; }
    }
  }

  /** The entries after an insertion are the old ones and the new one. */
  lemma InsertEntries(comp: Comparator, s: seq<Level>, k: nat, l: Level)
    requires k <= |s| && Sorted(comp, s) && l.price !in Index(s)
    ensures var r, m := s[..k] + [l] + s[k..], Index(s)[l.price := l.qty];
            && (forall i :: 0 <= i < |r| ==> r[i].price in m && m[r[i].price] == r[i].qty)
            && (forall p :: p in m ==> HasPrice(r, p))
  {
    var r, m := s[..k] + [l] + s[k..], Index(s)[l.price := l.qty];
    IndexEntries(comp, s);
    hide Index, Sorted;
    forall p | p in m ensures HasPrice(r, p) {
      if p == l.price {
        assert r[k].price == p;
      } else {
        var i :| 0 <= i < |s| && s[i].price == p;
        assert r[if i < k then i else i + 1].price == p;
      }
    }
    forall i | 0 <= i < |r| ensures r[i].price in m && m[r[i].price] == r[i].qty {
      if i != k {
        assert r[i] == s[if i < k then i else i - 1];
      }
    }
  }

  lemma InsertLevel(comp: Comparator, s: seq<Level>, k: nat, l: Level)
    requires k <= |s| && Sorted(comp, s)
    requires forall i :: 0 <= i < k ==> comp.Holds(s[i].price, l.price)
    requires forall i :: k <= i < |s| ==> comp.Holds(l.price, s[i].price)
    ensures Sorted(comp, s[..k] + [l] + s[k..])
    ensures Index(s[..k] + [l] + s[k..]) == Index(s)[l.price := l.qty]
  {
    InsertSorted(comp, s, k, l);
    IndexEntries(comp, s);
    hide Index, Sorted;
    InsertEntries(comp, s, k, l);
    IndexIs(comp, s[..k] + [l] + s[k..], Index(s)[l.price := l.qty]);
  }

  lemma UpdateLevel(comp: Comparator, s: seq<Level>, k: nat, qty: uint64)
    requires k < |s| && Sorted(comp, s)
    ensures Sorted(comp, s[k := Level(s[k].price, qty)])
    ensures Index(s[k := Level(s[k].price, qty)]) == Index(s)[s[k].price := qty]
  {
    var r := s[k := Level(s[k].price, qty)];
    IndexEntries(comp, s);
    forall p | p in Index(s) ensures HasPrice(r, p) {
      var i :| 0 <= i < |s| && s[i].price == p;
      assert r[i].price == p;
    }
    IndexIs(comp, r, Index(s)[s[k].price := qty]);
  }

  lemma EraseSorted(comp: Comparator, s: seq<Level>, k: nat)
    requires k < |s| && Sorted(comp, s)
    ensures Sorted(comp, s[..k] + s[k + 1..])
  {
    var r := s[..k] + s[k + 1..];
    forall i, j | 0 <= i < j < |r| ensures comp.Holds(r[i].price, r[j].price) {
      assert r[i] == s[if i < k then i else i + 1];
      assert r[j] == s[if j < k then j else j + 1];
    }
  }

  /** The entries after an erasure are the old ones but one. */
  lemma EraseEntries(comp: Comparator, s: seq<Level>, k: nat)
    requires k < |s| && Sorted(comp, s)
    ensures var r, m := s[..k] + s[k + 1..], Index(s) - {s[k].price};
            && (forall i :: 0 <= i < |r| ==> r[i].price in m && m[r[i].price] == r[i].qty)
            && (forall p :: p in m ==> HasPrice(r, p))
  {
    var r, m := s[..k] + s[k + 1..], Index(s) - {s[k].price};
    IndexEntries(comp, s);
    assert forall j :: 0 <= j < |s| && j != k ==> s[j].price != s[k].price;
    hide Index, Sorted;
    forall i | 0 <= i < |r| ensures r[i].price in m && m[r[i].price] == r[i].qty {
      assert r[i] == s[if i < k then i else i + 1];
    }
    forall p | p in m ensures HasPrice(r, p) {
      var i :| 0 <= i < |s| && s[i].price == p;
      assert r[if i < k then i else i - 1].price == p;
    }
  }

  lemma EraseLevel(comp: Comparator, s: seq<Level>, k: nat)
    requires k < |s| && Sorted(comp, s)
    ensures Sorted(comp, s[..k] + s[k + 1..])
    ensures Index(s[..k] + s[k + 1..]) == Index(s) - {s[k].price}
  {
    EraseSorted(comp, s, k);
    EraseEntries(comp, s, k);
    hide Index, Sorted;
    IndexIs(comp, s[..k] + s[k + 1..], Index(s) - {s[k].price});
  }

  class L2Orderbook {
    var bids: seq<Level>
    var asks: seq<Level>

    ghost predicate Valid()
      reads this
    {
      Sorted(Less, bids) && Sorted(Greater, asks)
    }

    ghost function Value(): Book
      reads this
    {
      Book(Index(bids), Index(asks))
    }

    constructor ()
      ensures Valid() && Value() == Book(map[], map[])
    {
      bids, asks := [], [];
    }

    /** Scans from the back; -1 stands for the reverse end. */
    static method GetLevel(levels: seq<Level>, price: int32) returns (i: int)
      ensures -1 <= i < |levels|
      ensures 0 <= i ==> levels[i].price == price
      ensures i == -1 <==> !HasPrice(levels, price)
      ensures forall k :: i < k < |levels| ==> levels[k].price != price
    {
      i := |levels| - 1;
      while i != -1 && levels[i].price != price
        invariant -1 <= i < |levels|
        invariant forall k :: i < k < |levels| ==> levels[k].price != price
        decreases i
      {
        i := i - 1;
      }
    }

    static method AddOrderImpl(levels: seq<Level>, price: int32, qty: uint64, comp: Comparator) returns (r: seq<Level>)
      requires Sorted(comp, levels)
      ensures Sorted(comp, r)
      ensures Index(r) == IndexAdd(Index(levels), price, qty)
    {
      hide Index;
      IndexEntries(comp, levels);
      if |levels| == 0 {
        InsertLevel(comp, levels, 0, Level(price, qty));
        assert levels[..0] + [Level(price, qty)] + levels[0..] == [Level(price, qty)];
        return [Level(price, qty)];
      }
      r := levels;
      var i := GetLevel(levels, price);
      if i != -1 {
        UpdateLevel(comp, levels, i, Add64(levels[i].qty, qty));
        r := r[i := Level(price, Add64(r[i].qty, qty))];
      } else {
        var j := |levels| - 1;
        while j != -1
          invariant -1 <= j < |levels| && r == levels
          invariant forall k :: j < k < |levels| ==> comp.Holds(price, levels[k].price)
          decreases j
        {
          if comp.Holds(levels[j].price, price) {
            InsertLevel(comp, levels, j + 1, Level(price, qty));
            r := r[..j + 1] + [Level(price, qty)] + r[j + 1..];
            break;
          }
          j := j - 1;
        }
        if j == -1 {
          InsertLevel(comp, levels, 0, Level(price, qty));
          assert levels[..0] + [Level(price, qty)] + levels[0..] == [Level(price, qty)] + levels;
          r := [Level(price, qty)] + r;
        }
      }
    }

    /** A missing level ends the process: `exited` stands for exit(42). */
    static method DeleteOrderImpl(levels: seq<Level>, price: int32, qty: uint64, ghost comp: Comparator)
      returns (r: seq<Level>, exited: bool)
      requires Sorted(comp, levels)
      ensures exited <==> price !in Index(levels)
      ensures !exited ==> Sorted(comp, r) && Index(r) == IndexDelete(Index(levels), price, qty)
    {
      IndexEntries(comp, levels);
      r, exited := levels, false;
      var i := GetLevel(levels, price);
      if i == -1 {
        exited := true;
        return;
      }
      var left := Sub64(levels[i].qty, qty);
      UpdateLevel(comp, levels, i, left);
      r := r[i := Level(price, left)];
      if r[i].qty == 0 {
        EraseLevel(comp, r, i);
        assert Index(levels)[price := left] - {price} == Index(levels) - {price};
        r := r[..i] + r[i + 1..];
      }
    }

    /** Reducing a level that does not exist dereferences the reverse end, so
        callers must name a quoted price. */
    static method ExecuteOrderImpl(levels: seq<Level>, price: int32, qty: uint64, ghost comp: Comparator)
      returns (r: seq<Level>)
      requires Sorted(comp, levels) && price in Index(levels)
      ensures Sorted(comp, r)
      ensures Index(r) == IndexExecute(Index(levels), price, qty)
    {
      IndexEntries(comp, levels);
      var i := GetLevel(levels, price);
      if levels[i].qty > qty {
        UpdateLevel(comp, levels, i, levels[i].qty - qty);
        r := levels[i := Level(price, levels[i].qty - qty)];
      } else {
        EraseLevel(comp, levels, i);
        r := levels[..i] + levels[i + 1..];
      }
    }

    static method ReplaceOrderImpl(levels: seq<Level>, oldPrice: int32, oldQty: uint64, newPrice: int32, newQty: uint64,
                                   comp: Comparator) returns (r: seq<Level>)
      requires Sorted(comp, levels) && oldPrice in Index(levels)
      ensures Sorted(comp, r)
      ensures Index(r) == IndexReplace(Index(levels), oldPrice, oldQty, newPrice, newQty)
    {
      IndexEntries(comp, levels);
      var i := GetLevel(levels, oldPrice);
      if oldPrice == newPrice {
        var qty := Add64(Sub64(levels[i].qty, oldQty), newQty);
        UpdateLevel(comp, levels, i, qty);
        return levels[i := Level(oldPrice, qty)];
      }
      if levels[i].qty > oldQty {
        UpdateLevel(comp, levels, i, levels[i].qty - oldQty);
        r := levels[i := Level(oldPrice, levels[i].qty - oldQty)];
      } else {
        EraseLevel(comp, levels, i);
        r := levels[..i] + levels[i + 1..];
      }
      r := AddOrderImpl(r, newPrice, newQty, comp);
    }

    method AddOrder(side: byte, price: int32, qty: uint64)
      requires Valid()
      modifies this
      ensures Valid()
      ensures Value() == AddToBook(old(Value()), side, price, qty)
      ensures side == 'B' as int ==> asks == old(asks) && Index(bids) == IndexAdd(old(Index(bids)), price, qty)
      ensures side != 'B' as int ==> bids == old(bids) && Index(asks) == IndexAdd(old(Index(asks)), price, qty)
    {
      if side == BUY {
        bids := AddOrderImpl(bids, price, qty, Less);
      } else {
        asks := AddOrderImpl(asks, price, qty, Greater);
      }
    }

    method DeleteOrder(side: byte, price: int32, qty: uint64) returns (exited: bool)
      requires Valid()
      modifies this
      ensures Valid()
      ensures exited <==> price !in SideOf(old(Value()), IsBid(side))
      ensures exited ==> Value() == old(Value())
      ensures !exited ==> Value() == DeleteFromBook(old(Value()), side, price, qty)
      ensures side == 'B' as int ==> asks == old(asks) && (exited <==> price !in old(Index(bids)))
      ensures side != 'B' as int ==> bids == old(bids) && (exited <==> price !in old(Index(asks)))
      ensures side == 'B' as int && !exited ==> Index(bids) == IndexDelete(old(Index(bids)), price, qty)
      ensures side != 'B' as int && !exited ==> Index(asks) == IndexDelete(old(Index(asks)), price, qty)
    {
      var r;
      if side == BUY {
        r, exited := DeleteOrderImpl(bids, price, qty, Less);
        if !exited { bids := r; }
      } else {
        r, exited := DeleteOrderImpl(asks, price, qty, Greater);
        if !exited { asks := r; }
      }
    }

    method ReplaceOrder(side: byte, oldPrice: int32, oldQty: uint64, newPrice: int32, newQty: uint64)
      requires Valid() && oldPrice in SideOf(Value(), IsBid(side))
      modifies this
      ensures Valid()
      ensures Value() == ReplaceInBook(old(Value()), side, oldPrice, oldQty, newPrice, newQty)
      ensures side == 'B' as int ==>
                && oldPrice in old(Index(bids)) && asks == old(asks)
                && Index(bids) == IndexReplace(old(Index(bids)), oldPrice, oldQty, newPrice, newQty)
      ensures side != 'B' as int ==>
                && oldPrice in old(Index(asks)) && bids == old(bids)
                && Index(asks) == IndexReplace(old(Index(asks)), oldPrice, oldQty, newPrice, newQty)
    {
      if side == BUY {
        bids := ReplaceOrderImpl(bids, oldPrice, oldQty, newPrice, newQty, Less);
      } else {
        asks := ReplaceOrderImpl(asks, oldPrice, oldQty, newPrice, newQty, Greater);
      }
    }

    method ExecuteOrder(side: byte, price: int32, qty: uint64)
      requires Valid() && price in SideOf(Value(), IsBid(side))
      modifies this
      ensures Valid()
      ensures Value() == ExecuteInBook(old(Value()), side, price, qty)
      ensures side == 'B' as int ==>
                && price in old(Index(bids)) && asks == old(asks)
                && Index(bids) == IndexExecute(old(Index(bids)), price, qty)
      ensures side != 'B' as int ==>
                && price in old(Index(asks)) && bids == old(bids)
                && Index(asks) == IndexExecute(old(Index(asks)), price, qty)
    {
      if side == BUY {
        bids := ExecuteOrderImpl(bids, price, qty, Less);
      } else {
        asks := ExecuteOrderImpl(asks, price, qty, Greater);
      }
    }

    /** Reading the back of an empty vector is undefined, so both sides must quote. */
    method GetBestPrices() returns (bid: int32, ask: int32)
      requires Valid() && bids != [] && asks != []
      ensures IsHighest(Value().bids, bid)
      ensures IsLowest(Value().asks, ask)
    {
      bid, ask := bids[|bids| - 1].price, asks[|asks| - 1].price;
      IndexEntries(Less, bids);
      IndexEntries(Greater, asks);
    }

    /** The scan behind the "BAD ORDERBOOK" log line. On a valid book it fires
        exactly when a level is empty, the sides cross, or the price it meets
        first is INT_MAX. */
    method Dump() returns (bad: bool)
      requires Valid()
      ensures !bad <==>
              && (forall p :: p in Index(bids) ==> Index(bids)[p] != 0 && p < 0x7fff_ffff)
              && (forall p :: p in Index(asks) ==> Index(asks)[p] != 0 && p < 0x7fff_ffff)
              && (forall p, q :: p in Index(bids) && q in Index(asks) ==> p < q)
    {
      hide Index;
      var prevPrice := INT_MAX;
      bad := false;
      var i := 0;
      while i < |asks|
        invariant 0 <= i <= |asks|
        invariant prevPrice == if i == 0 then INT_MAX else asks[i - 1].price
        invariant !bad <==> (0 < i ==> asks[0].price != INT_MAX) && forall k :: 0 <= k < i ==> asks[k].qty != 0
      {
        if prevPrice <= asks[i].price { bad := true; }
        if asks[i].qty == 0 { bad := true; }
        prevPrice := asks[i].price;
        i := i + 1;
      }
      ghost var start := prevPrice;
      ghost var asksFine := !bad;
      var j := |bids| - 1;
      while j != -1
        invariant -1 <= j < |bids|
        invariant prevPrice == if j == |bids| - 1 then start else bids[j + 1].price
        invariant !bad <==> asksFine && (j < |bids| - 1 ==> bids[|bids| - 1].price < start)
                                     && forall k :: j < k < |bids| ==> bids[k].qty != 0
        decreases j
      {
        if prevPrice <= bids[j].price { bad := true; }
        if bids[j].qty == 0 { bad := true; }
        prevPrice := bids[j].price;
        j := j - 1;
      }
      DumpVerdict();
    }

    /** The verdict of the scan in terms of the vectors is the verdict in terms
        of the quoted quantities. */
    lemma DumpVerdict()
      requires Valid()
      ensures && (forall p :: p in Index(bids) ==> Index(bids)[p] != 0 && p < 0x7fff_ffff)
              && (forall p :: p in Index(asks) ==> Index(asks)[p] != 0 && p < 0x7fff_ffff)
              && (forall p, q :: p in Index(bids) && q in Index(asks) ==> p < q)
         <==>
              && (forall k :: 0 <= k < |asks| ==> asks[k].qty != 0)
              && (forall k :: 0 <= k < |bids| ==> bids[k].qty != 0)
              && (asks != [] ==> asks[0].price != INT_MAX)
              && (bids != [] ==> bids[|bids| - 1].price < if asks == [] then INT_MAX else asks[|asks| - 1].price)
    {
      SideVerdict(Less, bids, Index(bids));
      SideVerdict(Greater, asks, Index(asks));
      CrossVerdict(bids, asks, Index(bids), Index(asks));
      hide Index, Sorted;
    }
  }

  /** No quote of a side is empty or at INT_MAX iff no level is empty and its
      highest price is not INT_MAX. */
  lemma SideVerdict(comp: Comparator, s: seq<Level>, m: PriceIndex)
    requires Sorted(comp, s) && m == Index(s)
    ensures (forall p :: p in m ==> m[p] != 0 && p < 0x7fff_ffff)
       <==> && (forall k :: 0 <= k < |s| ==> s[k].qty != 0)
            && (s != [] ==> s[if comp.Less? then |s| - 1 else 0].price != INT_MAX)
  {
    var top := if comp.Less? then |s| - 1 else 0;
    IndexEntries(comp, s);
    assert forall k :: 0 <= k < |s| ==> s[k].price <= s[top].price;
    hide Index, Sorted;
    if forall p :: p in m ==> m[p] != 0 && p < 0x7fff_ffff {
      forall k | 0 <= k < |s| ensures s[k].qty != 0 { assert s[k].price in m; }
      if s != [] { assert s[top].price in m; }
    } else {
      var p :| p in m && !(m[p] != 0 && p < 0x7fff_ffff);
      var k :| 0 <= k < |s| && s[k].price == p;
    }
  }

  /** The back of a vector is the best of the quoted prices. */
  lemma BackIsBest(comp: Comparator, s: seq<Level>, m: PriceIndex)
    requires Sorted(comp, s) && m == Index(s)
    ensures s == [] ==> m == map[]
    ensures s != [] ==> s[|s| - 1].price in m
    ensures forall p :: p in m ==> s != [] && (p == s[|s| - 1].price || comp.Holds(p, s[|s| - 1].price))
  {
    IndexEntries(comp, s);
    hide Index;
    forall p | p in m ensures s != [] && (p == s[|s| - 1].price || comp.Holds(p, s[|s| - 1].price)) {
      var i :| 0 <= i < |s| && s[i].price == p;
    }
  }

  /** The sides do not cross iff their best prices do not. */
  lemma CrossVerdict(bids: seq<Level>, asks: seq<Level>, m: PriceIndex, n: PriceIndex)
    requires Sorted(Less, bids) && Sorted(Greater, asks) && m == Index(bids) && n == Index(asks)
    ensures (forall p, q :: p in m && q in n ==> p < q)
       <==> (bids != [] && asks != [] ==> bids[|bids| - 1].price < asks[|asks| - 1].price)
  {
    hide Index, Sorted;
    BackIsBest(Less, bids, m);
    BackIsBest(Greater, asks, n);
  }

  // ---- The public operations on the meaning of a book ----

  function AddToBook(b: Book, side: byte, price: int32, qty: uint64): Book {
    WithSide(b, IsBid(side), IndexAdd(SideOf(b, IsBid(side)), price, qty))
  }

  function DeleteFromBook(b: Book, side: byte, price: int32, qty: uint64): Book
    requires price in SideOf(b, IsBid(side))
  {
    WithSide(b, IsBid(side), IndexDelete(SideOf(b, IsBid(side)), price, qty))
  }

  function ExecuteInBook(b: Book, side: byte, price: int32, qty: uint64): Book
    requires price in SideOf(b, IsBid(side))
  {
    WithSide(b, IsBid(side), IndexExecute(SideOf(b, IsBid(side)), price, qty))
  }

  function ReplaceInBook(b: Book, side: byte, oldPrice: int32, oldQty: uint64, newPrice: int32, newQty: uint64): Book
    requires oldPrice in SideOf(b, IsBid(side))
  {
    WithSide(b, IsBid(side), IndexReplace(SideOf(b, IsBid(side)), oldPrice, oldQty, newPrice, newQty))
  }

  ghost predicate IsHighest(m: PriceIndex, p: int32) {
    p in m && forall q :: q in m ==> q <= p
  }

  ghost predicate IsLowest(m: PriceIndex, p: int32) {
    p in m && forall q :: q in m ==> p <= q
  }

  /** Two valid books that quote the same quantities hold identical vectors. */
  lemma EqualBooksHaveEqualVectors(x: L2Orderbook, y: L2Orderbook)
    requires x.Valid() && y.Valid() && x.Value() == y.Value()
    ensures x.bids == y.bids && x.asks == y.asks
  {
    SortedVectorIsCanonical(Less, x.bids, y.bids);
    SortedVectorIsCanonical(Greater, x.asks, y.asks);
  }

  /** ReplaceOrder leaves the vectors that DeleteOrder and then AddOrder would
      have left, exactly when the price stays the same or the level holds the
      replaced quantity. */
  method ReplaceVersusDeleteAdd(x: L2Orderbook, y: L2Orderbook, side: byte,
                                oldPrice: int32, oldQty: uint64, newPrice: int32, newQty: uint64)
    requires x != y && x.Valid() && y.Valid() && x.bids == y.bids && x.asks == y.asks
    requires oldPrice in SideOf(x.Value(), IsBid(side))
    modifies x, y
    ensures x.Valid() && y.Valid()
    ensures (x.bids == y.bids && x.asks == y.asks)
       <==> oldPrice == newPrice || oldQty <= SideOf(old(x.Value()), IsBid(side))[oldPrice]
  {
    ReplaceIsDeleteThenAdd(SideOf(x.Value(), IsBid(side)), oldPrice, oldQty, newPrice, newQty);
    x.ReplaceOrder(side, oldPrice, oldQty, newPrice, newQty);
    var exited := y.DeleteOrder(side, oldPrice, oldQty);
    y.AddOrder(side, newPrice, newQty);
    if x.Value() == y.Value() {
      EqualBooksHaveEqualVectors(x, y);
    }
  }
}
