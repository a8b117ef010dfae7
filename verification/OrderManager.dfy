/** The order manager: the current token and the order slots, edited in place. */
module OrderManager {
  import opened Words
  import opened Tokens
  import opened OrderSlots

  class OrderManager {
    const orders: array<Order>
    const token: array<Char>

    ghost predicate Valid()
      reads this
    {
      orders.Length == ORDERS_SIZE && token.Length == TOKEN_LENGTH
    }

    constructor (last: uint32)
      ensures Valid() && fresh(orders) && fresh(token)
      ensures token[..] == Written(TOKEN_LENGTH, StartIndex(last))
      ensures orders.Length == 1024 && forall i :: 0 <= i < 1024 ==> orders[i] == Order(0, 0, 0, 0, true)
    {
      var slots := new Order[ORDERS_SIZE](_ => BLANK);
      var digits := new Char[TOKEN_LENGTH](_ => 0);
      var index: int := StartIndex(last);
      var i := TOKEN_LENGTH - 1;
      while i >= 0
        invariant -1 <= i < TOKEN_LENGTH
        invariant forall k :: 0 <= k < ORDERS_SIZE ==> slots[k] == BLANK
        invariant Written(i + 1, index) + digits[i + 1..] == Written(TOKEN_LENGTH, StartIndex(last))
      {
        ghost var tail := digits[i + 1..];
        digits[i] := ZERO + Rem10(index);
        assert digits[i..] == [ZERO + Rem10(index)] + tail;
        index := Quot10(index);
        i := i - 1;
      }
      token, orders := digits, slots;
    }

    /** Rewrites the token in place, from the back, passing on a carry from every
        nine it meets. */
    method NextToken() returns (t: Token)
      requires Valid()
      modifies token
      ensures t == token[..] == NextChars(old(token[..]))
      ensures CountedOn(old(token[..]), t)
    {
      hide NextChars, Rem10;
      ghost var was := token[..];
      var carry := 1;
      var i := TOKEN_LENGTH - 1;
      while i >= 0
        invariant -1 <= i < TOKEN_LENGTH
        invariant carry == Bit(i == TOKEN_LENGTH - 1 || was[i + 1] == NINE)
        invariant forall k :: 0 <= k <= i ==> token[k] == was[k]
        invariant forall k :: i < k < TOKEN_LENGTH ==> token[k] == NextChars(was)[k]
      {
        NextCharsIs(was, i);
        var isNine := Bit(token[i] == NINE);
        token[i] := ZERO + Rem10(token[i] - ZERO + carry);
        carry := isNine;
        i := i - 1;
      }
      t := token[..];
      assert t == NextChars(was);
      NextCharsByValue(was);
    }

    /** Accumulates the index in 64-bit arithmetic. */
    static method ParseOrderTokenDecimal(t: Token) returns (index: uint64)
      ensures index == ParseToken(t)
    {
      index := 0;
      var i := 0;
      while i < |t|
        invariant 0 <= i <= |t| && index == ParseToken(t[..i])
      {
        assert t[..i + 1][..i] == t[..i];
        WrapStep(Number(t[..i]), t[i] - ZERO);
        index := (index * 10 + (t[i] - ZERO)) % TWO64;
        i := i + 1;
      }
      assert t[..|t|] == t;
    }

    /** The number the destructor saves: accumulated in 32-bit arithmetic. */
    method SavedIndex() returns (index: uint32)
      requires Valid()
      ensures index == SavedNumber(token[..])
    {
      hide Number;
      index := 0;
      var i := 0;
      assert token[..0] == [] && SavedNumber([]) == 0 by { NumberOfPrefix(token[..], 0); }
      while i < token.Length
        invariant 0 <= i <= token.Length && index == SavedNumber(token[..i])
      {
        assert token[..][..i] == token[..i] && token[..][..i + 1] == token[..i + 1];
        NumberOfPrefix(token[..], i);
        WrapStep32(Number(token[..i]), token[i] - ZERO);
        index := (index * 10 + (token[i] - ZERO)) % TWO32;
        i := i + 1;
      }
      assert token[..token.Length] == token[..];
    }

    method OrderAccepted(t: Token, quantity: uint64, orderbookId: uint32, price: int32, side: Char)
      requires Valid()
      modifies orders
      ensures orders[..] == RespondInSlots(old(orders[..]), Accepted(t, quantity, orderbookId, price, side))
      ensures forall i :: 0 <= i < 1024 ==>
                orders[i] == if i == ParseToken(t) then Order(quantity, orderbookId, price, side, old(orders[i]).isValid)
                             else old(orders[i])
    {
      var index := ParseOrderTokenDecimal(t);
      if index >= ORDERS_SIZE {
        return;
      }
      orders[index] := orders[index].(orderbookId := orderbookId, quantity := quantity, price := price, side := side);
    }

    method OrderExecuted(t: Token, traded: uint64)
      requires Valid()
      modifies orders
      ensures orders[..] == RespondInSlots(old(orders[..]), Executed(t, traded))
      ensures forall i :: 0 <= i < 1024 ==>
                var was := old(orders[i]);
                orders[i] == if i != ParseToken(t) then was
                             else was.(quantity := Sub64(was.quantity, traded),
                                       isValid := was.isValid && traded != was.quantity)
    {
      var index := ParseOrderTokenDecimal(t);
      if index >= ORDERS_SIZE {
        return;
      }
      orders[index] := orders[index].(quantity := Sub64(orders[index].quantity, traded));
      if orders[index].quantity == 0 {
        orders[index] := orders[index].(isValid := false);
      }
    }

    method OrderDeleted(t: Token)
      requires Valid()
      modifies orders
      ensures orders[..] == RespondInSlots(old(orders[..]), Deleted(t))
      ensures forall i :: 0 <= i < 1024 ==>
                orders[i] == if i == ParseToken(t) then old(orders[i]).(isValid := false) else old(orders[i])
    {
      var index := ParseOrderTokenDecimal(t);
      if index >= ORDERS_SIZE {
        return;
      }
      orders[index] := orders[index].(isValid := false);
    }
  }

  /** Multiplying and adding may wrap at every step or once at the end. */
  lemma WrapStep(x: int, y: int)
    ensures (x % TWO64 * 10 + y) % TWO64 == (x * 10 + y) % TWO64
  {
    var q, r := x / TWO64, x % TWO64;
    assert x * 10 + y == (r * 10 + y) + q * 10 * TWO64;
  }

  lemma WrapStep32(x: int, y: int)
    ensures (x % TWO32 * 10 + y) % TWO32 == (x * 10 + y) % TWO32
  {
    var q, r := x / TWO32, x % TWO32;
    assert x * 10 + y == (r * 10 + y) + q * 10 * TWO32;
  }

  /** The number of a token grows by one character at a time. */
  lemma NumberOfPrefix(s: seq<Char>, i: nat)
    requires i <= |s|
    ensures Number([]) == 0
    ensures i < |s| ==> Number(s[..i + 1]) == 10 * Number(s[..i]) + (s[i] - ZERO)
  {
    if i < |s| {
      assert s[..i + 1][..i] == s[..i];
    }
  }

  function Sum(trades: seq<uint64>): nat {
    if trades == [] then 0 else Sum(trades[..|trades| - 1]) + trades[|trades| - 1]
  }

  lemma {:induction false} SumOfPrefix(trades: seq<uint64>, n: nat)
    requires n < |trades|
    ensures Sum(trades[..n + 1]) == Sum(trades[..n]) + trades[n] <= Sum(trades)
    decreases |trades| - n
  {
    assert trades[..n + 1][..n] == trades[..n];
    if n + 1 < |trades| {
      SumOfPrefix(trades, n + 1);
    } else {
      assert trades[..n + 1] == trades;
    }
  }

  /** A new manager, an acceptance and executions within the quantity: the order
      reads the accepted fields and what is left, and is valid exactly while
      something is left. */
  method AcceptAndExecute(last: uint32, t: Token, quantity: uint64, book: uint32, price: int32, side: Char,
                          trades: seq<uint64>) returns (order: Order)
    requires ParseToken(t) < 1024 && 0 < quantity && Sum(trades) <= quantity
    ensures order == Order(quantity - Sum(trades), book, price, side, Sum(trades) < quantity)
  {
    hide ParseToken, Written;
    var manager := new OrderManager(last);
    ghost var at := ParseToken(t);
    manager.OrderAccepted(t, quantity, book, price, side);
    assert trades[..0] == [];
    for i := 0 to |trades|
      invariant manager.Valid()
      invariant Sum(trades[..i]) <= quantity
      invariant manager.orders[at] == Order(quantity - Sum(trades[..i]), book, price, side, Sum(trades[..i]) < quantity)
    {
      SumOfPrefix(trades, i);
      manager.OrderExecuted(t, trades[i]);
    }
    assert trades[..|trades|] == trades;
    var index := OrderManager.ParseOrderTokenDecimal(t);
    order := manager.orders[index];
  }

  /** Shutting a manager down and starting a new one from what it saved. */
  method Restart(manager: OrderManager, ghost d: Digits) returns (next: OrderManager)
    requires manager.Valid() && |d| == TOKEN_LENGTH && manager.token[..] == Chars(d)
    ensures fresh(next) && next.Valid()
    ensures next.token[..] == Chars(Increment(d)) <==> Value(d) + 1 < 0x8000_0000
  {
    var saved := manager.SavedIndex();
    hide Number, Chars, Written, Increment;
    SavedDigits(d);
    RestartIsReferenceIncrement(d);
    next := new OrderManager(saved);
  }

  /** The next n tokens of a manager whose stream has come to position k of the
      fresh stream. */
  method Issue(manager: OrderManager, ghost k: nat, n: nat) returns (issued: seq<Token>)
    requires manager.Valid() && manager.token[..] == Chars(Stream(FIRST, k))
    modifies manager.token
    ensures manager.token[..] == Chars(Stream(FIRST, k + n)) && |issued| == n
    ensures forall i :: 0 <= i < n ==> issued[i] == Chars(Stream(FIRST, k + i + 1))
  {
    hide Next, Stream, NextChars, Chars;
    issued := [];
    while |issued| < n
      invariant |issued| <= n && manager.token[..] == Chars(Stream(FIRST, k + |issued|))
      invariant forall i :: 0 <= i < |issued| ==> issued[i] == Chars(Stream(FIRST, k + i + 1))
    {
      StreamUnrolled(FIRST, k + |issued|);
      NextCharsOnDigits(Stream(FIRST, k + |issued|));
      var t := manager.NextToken();
      issued := issued + [t];
    }
  }

  /** The first n tokens of a manager that started without a saved number are
      those of the fresh stream. */
  method IssueTokens(n: nat) returns (issued: seq<Token>)
    ensures |issued| == n
    ensures forall i :: 0 <= i < n ==> issued[i] == Chars(Stream(FIRST, i + 1))
  {
    hide Stream, Chars, Written;
    var manager := new OrderManager(0);
    FreshTokenIsFirst();
    StreamUnrolled(FIRST, 0);
    issued := Issue(manager, 0, n);
  }

  /** A fresh manager issues a token, the exchange accepts its order and deletes
      it; 10,000 tokens later the manager issues the same token, the exchange
      accepts a new order under it, and the slot of the new order is invalid. */
  method ReissueAfterDeletion(n: nat, quantity: uint64, book: uint32, price: int32, side: Char)
    returns (first: Token, again: Token, order: Order)
    requires Value(Stream(FIRST, n + 1)) < ORDERS_SIZE
    ensures first == again == Chars(Stream(FIRST, n + 1))
    ensures order == Order(quantity, book, price, side, false)
  {
    hide Stream, Chars, Written, Value, ParseToken;
    var manager := new OrderManager(0);
    FreshTokenIsFirst();
    StreamUnrolled(FIRST, 0);
    var issued := Issue(manager, 0, n + 1);
    first := issued[n];
    DigitTokenIndex(Stream(FIRST, n + 1));
    manager.OrderAccepted(first, quantity, book, price, side);
    manager.OrderDeleted(first);
    issued := Issue(manager, n + 1, 10000);
    again := issued[9999];
    FreshStreamRepeats(n + 1, n + 10001);
    manager.OrderAccepted(again, quantity, book, price, side);
    order := manager.orders[Value(Stream(FIRST, n + 1))];
  }
}
