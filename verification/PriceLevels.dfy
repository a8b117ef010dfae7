/** One side of an order book: a vector of price levels kept sorted with the
    best price at the back, and the plain price-to-quantity map it stands for. */
module PriceLevels {
  import opened Words

  datatype Level = Level(price: int32, qty: uint64)

  /** The comparator handed to the level functions: ascending prices for
      bids, descending prices for asks. */
  datatype Comparator = Less | Greater {
    predicate Holds(a: int32, b: int32) {
      match this
      case Less => a < b
      case Greater => a > b
    }
  }

  ghost predicate Sorted(comp: Comparator, s: seq<Level>) {
    forall i, j :: 0 <= i < j < |s| ==> comp.Holds(s[i].price, s[j].price)
  }

  /** The meaning of a level vector. */
  type PriceIndex = map<int32, uint64>

  function Index(s: seq<Level>): PriceIndex {
    if s == [] then map[] else Index(s[..|s| - 1])[s[|s| - 1].price := s[|s| - 1].qty]
  }

  ghost predicate HasPrice(s: seq<Level>, p: int32) {
    exists i :: 0 <= i < |s| && s[i].price == p
  }

  /** In a sorted vector a price is quoted iff some level carries it, and then
      the level's quantity is the quoted one. */
  lemma {:induction false} IndexEntries(comp: Comparator, s: seq<Level>)
    requires Sorted(comp, s)
    ensures forall i :: 0 <= i < |s| ==> s[i].price in Index(s) && Index(s)[s[i].price] == s[i].qty
    ensures forall p :: p in Index(s) ==> HasPrice(s, p)
  {
    if s != [] {
      var front := s[..|s| - 1];
      IndexEntries(comp, front);
      forall p | p in Index(s) ensures HasPrice(s, p) {
        if p == s[|s| - 1].price {
          assert s[|s| - 1].price == p;
        } else {
          assert p in Index(front) && HasPrice(front, p);
          var i :| 0 <= i < |front| && front[i].price == p;
          assert s[i].price == p;
        }
      }
    }
  }

  /** A vector is the index of m as soon as its entries are exactly those of m. */
  lemma IndexIs(comp: Comparator, s: seq<Level>, m: PriceIndex)
    requires Sorted(comp, s)
    requires forall i :: 0 <= i < |s| ==> s[i].price in m && m[s[i].price] == s[i].qty
    requires forall p :: p in m ==> HasPrice(s, p)
    ensures Index(s) == m
  {
    IndexEntries(comp, s);
    forall p | p in m ensures p in Index(s) && Index(s)[p] == m[p] {
      var i :| 0 <= i < |s| && s[i].price == p;
    }
    forall p | p in Index(s) ensures p in m {
      var i :| 0 <= i < |s| && s[i].price == p;
    }
  }

  /** Removing the back level removes its price from the index. */
  lemma DropBack(comp: Comparator, s: seq<Level>)
    requires Sorted(comp, s) && s != []
    ensures Sorted(comp, s[..|s| - 1])
    ensures Index(s[..|s| - 1]) == Index(s) - {s[|s| - 1].price}
  {
    var front, back := s[..|s| - 1], s[|s| - 1];
    assert back.price !in Index(front) by {
      IndexEntries(comp, front);
    }
    RemoveAdded(Index(front), back.price, back.qty);
  }

  lemma RemoveAdded(m: PriceIndex, p: int32, q: uint64)
    requires p !in m
    ensures m[p := q] - {p} == m
  {
  }

  /** Vectors with the same index have the same back level. */
  lemma BackIsDetermined(comp: Comparator, s: seq<Level>, t: seq<Level>)
    requires Sorted(comp, s) && Sorted(comp, t) && Index(s) == Index(t) && s != []
    ensures t != [] && s[|s| - 1] == t[|t| - 1]
  {
    hide Index;
    var a := s[|s| - 1];
    IndexEntries(comp, s);
    IndexEntries(comp, t);
    assert HasPrice(t, a.price);
    var i :| 0 <= i < |t| && t[i].price == a.price;
    var b := t[|t| - 1];
    assert HasPrice(s, b.price);
    var j :| 0 <= j < |s| && s[j].price == b.price;
    assert a.price == b.price || (comp.Holds(a.price, b.price) && comp.Holds(b.price, a.price));
  }

  /** Canonical form: a sorted vector is determined by the quantities it quotes. */
  lemma {:induction false} SortedVectorIsCanonical(comp: Comparator, s: seq<Level>, t: seq<Level>)
    requires Sorted(comp, s) && Sorted(comp, t) && Index(s) == Index(t)
    ensures s == t
  {
    if s != [] {
      BackIsDetermined(comp, s, t);
      DropBack(comp, s);
      DropBack(comp, t);
      SortedVectorIsCanonical(comp, s[..|s| - 1], t[..|t| - 1]);
      assert s == s[..|s| - 1] + [s[|s| - 1]] && t == t[..|t| - 1] + [t[|t| - 1]];
    } else if t != [] {
      BackIsDetermined(comp, t, s);
    }
  }

  // ---- What the level operations do to the price-to-quantity map ----

  function IndexAdd(m: PriceIndex, price: int32, qty: uint64): PriceIndex {
    m[price := if price in m then Add64(m[price], qty) else qty]
  }

  function IndexDelete(m: PriceIndex, price: int32, qty: uint64): PriceIndex
    requires price in m
  {
    var left := Sub64(m[price], qty);
    if left == 0 then m - {price} else m[price := left]
  }

  function IndexExecute(m: PriceIndex, price: int32, qty: uint64): PriceIndex
    requires price in m
  {
    if m[price] > qty then m[price := m[price] - qty] else m - {price}
  }

  function IndexReplace(m: PriceIndex, oldPrice: int32, oldQty: uint64, newPrice: int32, newQty: uint64): PriceIndex
    requires oldPrice in m
  {
    if oldPrice == newPrice then
      m[oldPrice := Add64(Sub64(m[oldPrice], oldQty), newQty)]
    else
      IndexAdd(IndexExecute(m, oldPrice, oldQty), newPrice, newQty)
  }

  /** The quantity quoted at a price, 0 if the price is not quoted. */
  function Quoted(m: PriceIndex, p: int32): uint64 {
    if p in m then m[p] else 0
  }

  ghost predicate SameElsewhere(m: PriceIndex, r: PriceIndex, prices: set<int32>) {
    forall p :: p !in prices ==> (p in m <==> p in r) && Quoted(m, p) == Quoted(r, p)
  }

  /** An addition moves one quote up, modulo 2^64. */
  lemma AdditionMovesOneQuote(m: PriceIndex, price: int32, qty: uint64)
    ensures var r := IndexAdd(m, price, qty);
            && SameElsewhere(m, r, {price})
            && price in r && r[price] == Add64(Quoted(m, price), qty)
  {
  }

  /** A deletion moves one quote down, modulo 2^64, and drops it at zero. */
  lemma DeletionMovesOneQuote(m: PriceIndex, price: int32, qty: uint64)
    requires price in m
    ensures var r := IndexDelete(m, price, qty);
            && SameElsewhere(m, r, {price})
            && (price in r <==> m[price] != qty)
            && m[price] == Add64(Quoted(r, price), qty)
  {
  }

  /** An execution moves one quote down, to zero at most, and drops it there. */
  lemma ExecutionMovesOneQuote(m: PriceIndex, price: int32, qty: uint64)
    requires price in m
    ensures var r := IndexExecute(m, price, qty);
            && SameElsewhere(m, r, {price})
            && (price in r <==> qty < m[price])
            && Quoted(r, price) == if qty < m[price] then m[price] - qty else 0
  {
  }

  /** A replacement at another price moves two quotes, the old one to zero at
      most; at the same price it moves that quote, which stays even at zero. */
  lemma ReplacementMovesTwoQuotes(m: PriceIndex, oldPrice: int32, oldQty: uint64, newPrice: int32, newQty: uint64)
    requires oldPrice in m
    ensures var r := IndexReplace(m, oldPrice, oldQty, newPrice, newQty);
            && SameElsewhere(m, r, {oldPrice, newPrice}) && newPrice in r
            && (oldPrice == newPrice ==>
                  Add64(r[oldPrice], oldQty) == Add64(m[oldPrice], newQty))
            && (oldPrice != newPrice ==>
                  && (oldPrice in r <==> oldQty < m[oldPrice])
                  && Quoted(r, oldPrice) == (if oldQty < m[oldPrice] then m[oldPrice] - oldQty else 0)
                  && r[newPrice] == Add64(Quoted(m, newPrice), newQty))
  {
    if oldPrice != newPrice {
      ExecutionMovesOneQuote(m, oldPrice, oldQty);
      AdditionMovesOneQuote(IndexExecute(m, oldPrice, oldQty), newPrice, newQty);
    }
  }

  /** A replacement is a deletion followed by an addition exactly when the
      price stays the same or the level holds the quantity being replaced. */
  lemma ReplaceIsDeleteThenAdd(m: PriceIndex, oldPrice: int32, oldQty: uint64, newPrice: int32, newQty: uint64)
    requires oldPrice in m
    ensures IndexReplace(m, oldPrice, oldQty, newPrice, newQty)
         == IndexAdd(IndexDelete(m, oldPrice, oldQty), newPrice, newQty)
       <==> oldPrice == newPrice || oldQty <= m[oldPrice]
  {
    var r := IndexReplace(m, oldPrice, oldQty, newPrice, newQty);
    var d := IndexAdd(IndexDelete(m, oldPrice, oldQty), newPrice, newQty);
    if oldPrice == newPrice || oldQty <= m[oldPrice] {
      assert r == d;
    } else {
      assert oldPrice !in r && oldPrice in d;
    }
  }

  /** A level of 5 from which 6 are replaced at another price: the replacement
      drops the level, the deletion leaves a wrapped-around quantity on it. */
  lemma ReplaceOfTooMuch()
    ensures IndexReplace(map[10 := 5], 10, 6, 11, 1) == map[11 := 1]
    ensures IndexAdd(IndexDelete(map[10 := 5], 10, 6), 11, 1) == map[10 := TWO64 - 1, 11 := 1]
  {
  }

  /** Execution and deletion differ only in how they treat an excess quantity. */
  lemma ExecuteIsDelete(m: PriceIndex, price: int32, qty: uint64)
    requires price in m
    ensures IndexExecute(m, price, qty) == IndexDelete(m, price, qty) <==> qty <= m[price]
  {
    if m[price] < qty {
      assert price !in IndexExecute(m, price, qty) && price in IndexDelete(m, price, qty);
    }
  }
}
