/** Order tokens as characters, the slots they select, and what a run of
    exchange responses does to the slots. */
module OrderSlots {
  import opened Words
  import opened Tokens

  type Char = x: int | -128 <= x < 128

  const ZERO: Char := '0' as int
  const NINE: Char := '9' as int
  const ORDERS_SIZE := 1024

  type Token = s: seq<Char> | |s| == TOKEN_LENGTH witness [48, 48, 48, 48, 48, 48, 48, 48, 48, 48, 48, 48, 48, 48]

  /** C++ remainder and quotient by ten: they truncate toward zero. */
  function Rem10(x: int): (r: int)
    ensures -9 <= r <= 9
  {
    if 0 <= x then x % 10 else -((-x) % 10)
  }

  function Quot10(x: int): int {
    if 0 <= x then x / 10 else -((-x) / 10)
  }

  function Chars(d: Digits): (s: seq<Char>)
    ensures |s| == |d|
  {
    seq(|d|, i requires 0 <= i < |d| => ZERO + (d[i] as int))
  }

  // ---- nextToken on characters ----

  /** A character moved on by its carry, as the shipped loop computes it. */
  function NextChar(c: Char, carry: int): Char
    requires carry == 0 || carry == 1
  {
    ZERO + Rem10(c - ZERO + carry)
  }

  function NextChars(s: seq<Char>): (r: seq<Char>)
    ensures |r| == |s|
  {
    seq(|s|, i requires 0 <= i < |s| => NextChar(s[i], Bit(i == |s| - 1 || s[i + 1] == NINE)))
  }

  lemma NextCharsIs(s: seq<Char>, i: nat)
    requires i < |s|
    ensures NextChars(s)[i] == NextChar(s[i], Bit(i == |s| - 1 || s[i + 1] == NINE))
  {
  }

  /** Every digit moves on by one, modulo ten, if it is the last or stands before
      a '9', and stays otherwise. */
  ghost predicate CountedOn(s: seq<Char>, t: seq<Char>) {
    && |t| == |s|
    && forall i :: 0 <= i < |s| && '0' as int <= s[i] <= '9' as int ==>
         var carry := if i == |s| - 1 || s[i + 1] == '9' as int then 1 else 0;
         t[i] == '0' as int + (s[i] - '0' as int + carry) % 10
  }

  lemma NextCharsByValue(s: seq<Char>)
    ensures CountedOn(s, NextChars(s))
  {
  }

  lemma NextCharOnDigit(d: Digit, carry: bool)
    ensures NextChar(ZERO + (d as int), Bit(carry)) == ZERO + (Turn(d, Bit(carry)) as int)
  {
  }

  lemma CarryOnDigits(d: Digits, i: nat)
    requires i < |d|
    ensures CarryInto(d, i) == (i == |d| - 1 || Chars(d)[i + 1] == NINE)
  {
  }

  lemma NextCharsAt(d: Digits, i: nat)
    requires i < |d|
    ensures NextChars(Chars(d))[i] == Chars(Next(d))[i]
  {
    hide NextChar, Turn, CarryInto;
    CarryOnDigits(d, i);
    NextCharOnDigit(d[i], CarryInto(d, i));
    assert Chars(d)[i] == ZERO + (d[i] as int);
    assert Next(d)[i] == Turn(d[i], Bit(CarryInto(d, i)));
  }

  /** On digit tokens the character loop is the shipped digit increment. */
  lemma NextCharsOnDigits(d: Digits)
    ensures NextChars(Chars(d)) == Chars(Next(d))
  {
    forall i | 0 <= i < |d| ensures NextChars(Chars(d))[i] == Chars(Next(d))[i] {
      NextCharsAt(d, i);
    }
  }

  // ---- Parsing and the initial token ----

  /** The number a character string stands for; characters below '0' count
      negatively. */
  function Number(s: seq<Char>): int {
    if s == [] then 0 else 10 * Number(s[..|s| - 1]) + (s[|s| - 1] - ZERO)
  }

  /** The slot index of a token, in 64-bit arithmetic. */
  function ParseToken(s: seq<Char>): uint64 {
    Number(s) % TWO64
  }

  lemma {:induction false} NumberOfDigits(d: Digits)
    ensures Number(Chars(d)) == Value(d)
    decreases |d|
  {
    if d != [] {
      var n := |d| - 1;
      assert Chars(d)[..n] == Chars(d[..n]);
      NumberOfDigits(d[..n]);
    }
  }

  lemma TokenPower()
    ensures Pow10(TOKEN_LENGTH) == 100_000_000_000_000
  {
    assert Pow10(2) == 100;
    assert Pow10(4) == 10_000;
    assert Pow10(6) == 1_000_000;
    assert Pow10(8) == 100_000_000;
    assert Pow10(10) == 10_000_000_000;
    assert Pow10(12) == 1_000_000_000_000;
  }

  /** A digit token parses to its value, below 10^14. */
  lemma DigitTokenIndex(d: Digits)
    requires |d| == TOKEN_LENGTH
    ensures ParseToken(Chars(d)) == Value(d) < 100_000_000_000_000
  {
    hide Number, Value, Pow10;
    NumberOfDigits(d);
    TokenPower();
    SmallNumber(Value(d));
  }

  lemma SmallNumber(x: int)
    requires 0 <= x < TWO64
    ensures x % TWO64 == x
  {
  }

  /** Different digit tokens have different indices. */
  lemma ParseIsInjective(a: Digits, b: Digits)
    requires |a| == TOKEN_LENGTH && |b| == TOKEN_LENGTH
    ensures ParseToken(Chars(a)) == ParseToken(Chars(b)) <==> a == b
  {
    DigitTokenIndex(a);
    DigitTokenIndex(b);
    if Value(a) == Value(b) {
      ValueIsInjective(a, b);
    }
  }

  /** The characters the constructor's loop writes for an index. */
  function Written(n: nat, index: int): (s: seq<Char>)
    ensures |s| == n
  {
    if n == 0 then [] else Written(n - 1, Quot10(index)) + [ZERO + Rem10(index)]
  }

  /** The index the constructor starts from: a 32-bit sum, read as signed. */
  function StartIndex(last: uint32): int32 {
    ToInt32(Add32(last, 1))
  }

  predicate IsDigits(s: seq<Char>) {
    forall i :: 0 <= i < |s| ==> ZERO <= s[i] <= NINE
  }

  lemma QuotAndRem(index: int)
    ensures index == 10 * Quot10(index) + Rem10(index)
    ensures 0 <= index ==> 0 <= Quot10(index) && 0 <= Rem10(index)
    ensures index < 0 ==> Quot10(index) <= 0 && Rem10(index) <= 0
    ensures forall m: int :: 0 < m && -10 * m < index < 10 * m ==> -m < Quot10(index) < m
  {
  }

  lemma DigitsFromBack(s: seq<Char>)
    requires s != []
    ensures IsDigits(s) <==> IsDigits(s[..|s| - 1]) && ZERO <= s[|s| - 1] <= NINE
  {
    if IsDigits(s[..|s| - 1]) && ZERO <= s[|s| - 1] <= NINE {
      forall i | 0 <= i < |s| ensures ZERO <= s[i] <= NINE {
        if i < |s| - 1 { assert s[i] == s[..|s| - 1][i]; }
      }
    }
  }

  lemma {:induction false} WrittenNumber(n: nat, index: int)
    requires -(Pow10(n) as int) < index < Pow10(n)
    ensures Number(Written(n, index)) == index
    ensures IsDigits(Written(n, index)) <==> 0 <= index
  {
    if n > 0 {
      hide Rem10, Quot10, IsDigits;
      var s, q := Written(n, index), Quot10(index);
      assert s[..n - 1] == Written(n - 1, q);
      QuotAndRem(index);
      assert -(Pow10(n - 1) as int) < q < Pow10(n - 1);
      WrittenNumber(n - 1, q);
      DigitsFromBack(s);
    }
  }

  /** The constructor's token parses back to the number after the last used one,
      and consists of digits, exactly as far as these fit a signed word; only
      the very last 32-bit number also yields digits, all of them zero. From
      2^31 on it parses to that number less 2^32, as a 64-bit word. */
  lemma FreshTokenParsesBack(last: uint32)
    ensures ParseToken(Written(TOKEN_LENGTH, StartIndex(last))) == last + 1 <==> last + 1 < 0x8000_0000
    ensures IsDigits(Written(TOKEN_LENGTH, StartIndex(last))) <==> last + 1 < 0x8000_0000 || last + 1 == TWO32
    ensures ParseToken(Written(TOKEN_LENGTH, StartIndex(last))) ==
            if last + 1 < 0x8000_0000 then last + 1
            else if last == 0xffff_ffff then 0
            else 0xffff_ffff_0000_0000 + last + 1
  {
    var start := StartIndex(last);
    TokenPower();
    WrittenNumber(TOKEN_LENGTH, start);
    WrapSigned(start);
    hide Written, Number, IsDigits, Pow10;
  }

  lemma WrapSigned(i: int32)
    ensures i % TWO64 == if 0 <= i then i else TWO64 + i
  {
  }

  lemma {:induction false} WrittenValue(d: Digits)
    ensures Written(|d|, Value(d)) == Chars(d)
    decreases |d|
  {
    if d != [] {
      var n := |d| - 1;
      WrittenValue(d[..n]);
      assert Rem10(Value(d)) == d[n] && Quot10(Value(d)) == Value(d[..n]);
      assert Chars(d) == Chars(d[..n]) + [ZERO + (d[n] as int)];
    }
  }

  /** What the destructor saves of a token, in 32-bit arithmetic. */
  function SavedNumber(s: seq<Char>): uint32 {
    Number(s) % TWO32
  }

  lemma SavedDigits(d: Digits)
    ensures SavedNumber(Chars(d)) == Value(d) % TWO32
  {
    NumberOfDigits(d);
  }

  /** Saving the token on shutdown and starting again from it is the reference
      increment exactly as long as the number after it fits a signed word. */
  lemma RestartIsReferenceIncrement(d: Digits)
    requires |d| == TOKEN_LENGTH
    ensures Written(TOKEN_LENGTH, StartIndex(Value(d) % TWO32)) == Chars(Increment(d)) <==>
            Value(d) + 1 < 0x8000_0000
  {
    var start, after := StartIndex(Value(d) % TWO32), Value(Increment(d));
    TokenPower();
    IncrementCounts(d);
    hide Written, Number, Value, Increment, Chars;
    WrittenNumber(TOKEN_LENGTH, start);
    NumberOfDigits(Increment(d));
    WrittenValue(Increment(d));
    StartAfterSaving(Value(d));
  }

  /** The start index after saving is the next number exactly up to 2^31 - 1. */
  lemma StartAfterSaving(v: nat)
    requires v < 100_000_000_000_000
    ensures v + 1 < 0x8000_0000 ==> StartIndex(v % TWO32) == v + 1
    ensures 0x8000_0000 <= v + 1 ==> StartIndex(v % TWO32) < v + 1
    ensures v + 1 == 100_000_000_000_000 ==> StartIndex(v % TWO32) == 276_447_232
  {
  }

  /** The first number that is too large: a manager started after 2^31 - 1 gets
      a token with characters that are not digits. */
  lemma StartAfterLargestSignedNumber()
    ensures StartIndex(0x7fff_ffff) == -0x8000_0000
    ensures !IsDigits(Written(TOKEN_LENGTH, StartIndex(0x7fff_ffff)))
    ensures ParseToken(Written(TOKEN_LENGTH, StartIndex(0x7fff_ffff))) != 0x8000_0000
  {
    hide Written, ParseToken, IsDigits;
    FreshTokenParsesBack(0x7fff_ffff);
  }

  /** A manager created without a saved number starts the fresh stream. */
  lemma FreshTokenIsFirst()
    ensures Written(TOKEN_LENGTH, StartIndex(0)) == Chars(FIRST)
    ensures Chars(FIRST) == [48, 48, 48, 48, 48, 48, 48, 48, 48, 48, 48, 48, 48, 49]
  {
    WrittenValue(FIRST);
    assert Value(FIRST) == 1 by {
      ZerosHaveNoValue(FIRST[..13]);
    }
  }

  lemma {:induction false} ZerosHaveNoValue(d: Digits)
    requires forall i :: 0 <= i < |d| ==> d[i] == 0
    ensures Value(d) == 0
    decreases |d|
  {
    if d != [] {
      ZerosHaveNoValue(d[..|d| - 1]);
    }
  }

  // ---- Slots ----

  datatype Order = Order(quantity: uint64, orderbookId: uint32, price: int32, side: Char, isValid: bool)

  const BLANK := Order(0, 0, 0, 0, true)

  /** The exchange's responses about an order. */
  datatype Response =
    | Accepted(token: Token, quantity: uint64, orderbookId: uint32, price: int32, side: Char)
    | Executed(token: Token, traded: uint64)
    | Deleted(token: Token)

  /** What a response does to the order it is about. Acceptance fills in the
      fields but leaves the validity as it was. */
  function Respond(o: Order, r: Response): Order {
    match r
    case Accepted(_, quantity, book, price, side) => Order(quantity, book, price, side, o.isValid)
    case Executed(_, traded) =>
      var left := Sub64(o.quantity, traded);
      o.(quantity := left, isValid := o.isValid && left != 0)
    case Deleted(_) => o.(isValid := false)
  }

  /** A deletion marks the order and keeps what it reads; an execution changes
      the quantity alone. */
  lemma EndedOrderKeepsFields(o: Order, t: Token, traded: uint64)
    ensures Respond(o, Deleted(t)) == Order(o.quantity, o.orderbookId, o.price, o.side, false)
    ensures var r := Respond(o, Executed(t, traded));
            && r == Order(r.quantity, o.orderbookId, o.price, o.side, o.isValid && traded != o.quantity)
            && (r.quantity + traded == o.quantity || r.quantity + traded == o.quantity + 0x1_0000_0000_0000_0000)
  {
  }

  type Slots = s: seq<Order> | |s| == ORDERS_SIZE witness seq(ORDERS_SIZE, i => BLANK)

  function RespondInSlots(slots: Slots, r: Response): Slots {
    var i := ParseToken(r.token);
    if i < ORDERS_SIZE then slots[i := Respond(slots[i], r)] else slots
  }

  function SlotsAfter(slots: Slots, rs: seq<Response>): Slots
    decreases |rs|
  {
    if rs == [] then slots else SlotsAfter(RespondInSlots(slots, rs[0]), rs[1..])
  }

  function OrderAfter(o: Order, rs: seq<Response>): Order
    decreases |rs|
  {
    if rs == [] then o else OrderAfter(Respond(o, rs[0]), rs[1..])
  }

  /** The responses whose token selects slot i. */
  function Addressed(rs: seq<Response>, i: nat): seq<Response> {
    if rs == [] then []
    else if ParseToken(rs[0].token) == i then [rs[0]] + Addressed(rs[1..], i)
    else Addressed(rs[1..], i)
  }

  /** Over every run, a slot changes by the responses that select it and by
      nothing else; responses out of range change no slot. */
  lemma {:induction false} SlotsAreIndependent(slots: Slots, rs: seq<Response>, i: nat)
    requires i < ORDERS_SIZE
    ensures SlotsAfter(slots, rs)[i] == OrderAfter(slots[i], Addressed(rs, i))
    decreases |rs|
  {
    if rs != [] {
      var next := RespondInSlots(slots, rs[0]);
      SlotsAreIndependent(next, rs[1..], i);
      var mine := Addressed(rs, i);
      if ParseToken(rs[0].token) == i {
        assert mine[0] == rs[0] && mine[1..] == Addressed(rs[1..], i);
      }
    }
  }

  /** The responses that carry one token. */
  function Carrying(rs: seq<Response>, t: Token): seq<Response> {
    if rs == [] then []
    else if rs[0].token == t then [rs[0]] + Carrying(rs[1..], t)
    else Carrying(rs[1..], t)
  }

  ghost predicate DigitTokens(rs: seq<Response>) {
    forall i :: 0 <= i < |rs| ==> exists d: Digits :: |d| == TOKEN_LENGTH && rs[i].token == Chars(d)
  }

  lemma {:induction false} AddressedIsCarrying(rs: seq<Response>, d: Digits)
    requires DigitTokens(rs) && |d| == TOKEN_LENGTH
    ensures Addressed(rs, ParseToken(Chars(d))) == Carrying(rs, Chars(d))
    decreases |rs|
  {
    if rs != [] {
      var e: Digits :| |e| == TOKEN_LENGTH && rs[0].token == Chars(e);
      ParseIsInjective(d, e);
      forall i | 0 <= i < |rs[1..]|
        ensures exists f: Digits :: |f| == TOKEN_LENGTH && rs[1..][i].token == Chars(f)
      {
        assert rs[1..][i] == rs[i + 1];
      }
      AddressedIsCarrying(rs[1..], d);
      assert Chars(d) == rs[0].token <==> ParseToken(Chars(d)) == ParseToken(rs[0].token);
    }
  }

  /** With digit tokens the slots are a map keyed by token: what an in-range
      token reads depends on the responses that carry this very token. */
  lemma SlotsAreATokenMap(slots: Slots, rs: seq<Response>, d: Digits)
    requires DigitTokens(rs) && |d| == TOKEN_LENGTH && Value(d) < ORDERS_SIZE
    ensures ParseToken(Chars(d)) == Value(d)
    ensures SlotsAfter(slots, rs)[Value(d)] == OrderAfter(slots[Value(d)], Carrying(rs, Chars(d)))
  {
    DigitTokenIndex(d);
    AddressedIsCarrying(rs, d);
    SlotsAreIndependent(slots, rs, Value(d));
  }

  // ---- An accepted order counts down ----

  predicate Executions(rs: seq<Response>) {
    forall i :: 0 <= i < |rs| ==> rs[i].Executed?
  }

  function Traded(rs: seq<Response>): nat
    requires Executions(rs)
  {
    if rs == [] then 0 else rs[0].traded + Traded(rs[1..])
  }

  /** Executions within an order's quantity take off what they trade, and leave
      the order valid exactly while something is left. */
  lemma {:induction false} ExecutionsCountDown(o: Order, rs: seq<Response>)
    requires Executions(rs) && 0 < o.quantity && Traded(rs) <= o.quantity
    ensures OrderAfter(o, rs) ==
            o.(quantity := o.quantity - Traded(rs), isValid := o.isValid && Traded(rs) < o.quantity)
    decreases |rs|
  {
    if rs != [] {
      var next := Respond(o, rs[0]);
      if 0 < next.quantity {
        ExecutionsCountDown(next, rs[1..]);
      } else {
        UsedUpStaysUsedUp(next, rs[1..]);
      }
    }
  }

  lemma {:induction false} UsedUpStaysUsedUp(o: Order, rs: seq<Response>)
    requires Executions(rs) && o.quantity == 0 && !o.isValid && Traded(rs) == 0
    ensures OrderAfter(o, rs) == o
    decreases |rs|
  {
    if rs != [] {
      UsedUpStaysUsedUp(Respond(o, rs[0]), rs[1..]);
    }
  }

  /** What a slot reads after an acceptance and executions within its quantity,
      whatever the slot held before. */
  lemma AcceptedOrderCountsDown(o: Order, t: Token, quantity: uint64, book: uint32, price: int32, side: Char,
                                rs: seq<Response>)
    requires Executions(rs) && 0 < quantity && Traded(rs) <= quantity
    ensures OrderAfter(o, [Accepted(t, quantity, book, price, side)] + rs) ==
            Order(quantity - Traded(rs), book, price, side, o.isValid && Traded(rs) < quantity)
  {
    var accepted := Accepted(t, quantity, book, price, side);
    assert ([accepted] + rs)[1..] == rs;
    ExecutionsCountDown(Respond(o, accepted), rs);
  }

  // ---- A closed order stays closed ----

  /** The response ends the order: a deletion, or an execution to exactly zero. */
  predicate Ends(o: Order, r: Response) {
    r.Deleted? || (r.Executed? && r.traded == o.quantity)
  }

  predicate EndsSomewhere(o: Order, rs: seq<Response>)
    decreases |rs|
  {
    rs != [] && (Ends(o, rs[0]) || EndsSomewhere(Respond(o, rs[0]), rs[1..]))
  }

  /** A slot is marked invalid iff it was before or one of its responses ended
      the order; no later acceptance lifts the mark. */
  lemma {:induction false} InvalidIffEnded(o: Order, rs: seq<Response>)
    ensures OrderAfter(o, rs).isValid <==> o.isValid && !EndsSomewhere(o, rs)
    decreases |rs|
  {
    if rs != [] {
      InvalidIffEnded(Respond(o, rs[0]), rs[1..]);
    }
  }

  /** The response at position j ended the order of its slot. */
  predicate EndsAt(o: Order, rs: seq<Response>, j: nat)
    requires j < |rs|
  {
    rs[j].Deleted? || (rs[j].Executed? && rs[j].traded == OrderAfter(o, rs[..j]).quantity)
  }

  lemma {:induction false} SomeResponseEnds(o: Order, rs: seq<Response>)
    ensures EndsSomewhere(o, rs) <==> exists j :: 0 <= j < |rs| && EndsAt(o, rs, j)
    decreases |rs|
  {
    if rs != [] {
      var next, rest := Respond(o, rs[0]), rs[1..];
      SomeResponseEnds(next, rest);
      hide Respond;
      assert Ends(o, rs[0]) <==> EndsAt(o, rs, 0);
      forall j | 0 < j < |rs| ensures EndsAt(o, rs, j) <==> EndsAt(next, rest, j - 1) {
        assert rs[..j][0] == rs[0] && rs[..j][1..] == rest[..j - 1];
      }
      if EndsSomewhere(next, rest) {
        var j :| 0 <= j < |rest| && EndsAt(next, rest, j);
        assert EndsAt(o, rs, j + 1);
      }
    }
  }

  /** The slots of a new manager. */
  function NewSlots(): (slots: Slots) {
    seq(ORDERS_SIZE, i => BLANK)
  }

  /** From a new manager, over every run of responses, an order reads valid
      exactly if no response to its slot was a deletion or an execution of all
      that was left. */
  lemma NewSlotIsValidIffNothingEnded(rs: seq<Response>, i: nat)
    requires i < 1024
    ensures NewSlots()[i] == Order(0, 0, 0, 0, true)
    ensures var mine := Addressed(rs, i);
            SlotsAfter(NewSlots(), rs)[i].isValid <==> forall j :: 0 <= j < |mine| ==>
              !mine[j].Deleted?
              && !(mine[j].Executed? && mine[j].traded == OrderAfter(Order(0, 0, 0, 0, true), mine[..j]).quantity)
  {
    var mine := Addressed(rs, i);
    SlotsAreIndependent(NewSlots(), rs, i);
    InvalidIffEnded(BLANK, mine);
    SomeResponseEnds(BLANK, mine);
    hide OrderAfter, SlotsAfter, Addressed;
    forall j | 0 <= j < |mine|
      ensures EndsAt(BLANK, mine, j) <==>
              mine[j].Deleted?
              || (mine[j].Executed? && mine[j].traded == OrderAfter(Order(0, 0, 0, 0, true), mine[..j]).quantity)
    {
    }
  }

  /** The fresh stream reissues its tokens every 10,000 orders, and a token whose
      first order ended selects a slot that stays invalid for the next one. */
  lemma ReissuedTokenStaysInvalid(slots: Slots, rs: seq<Response>, n: nat, k: nat)
    requires Value(Stream(FIRST, n)) < ORDERS_SIZE
    requires EndsSomewhere(slots[Value(Stream(FIRST, n))],
                           Addressed(rs, Value(Stream(FIRST, n))))
    ensures Stream(FIRST, n + 10000 * k) == Stream(FIRST, n)
    ensures !SlotsAfter(slots, rs)[Value(Stream(FIRST, n + 10000 * k))].isValid
  {
    hide Stream;
    FreshStreamRepeats(n, n + 10000 * k);
    var i := Value(Stream(FIRST, n));
    SlotsAreIndependent(slots, rs, i);
    InvalidIffEnded(slots[i], Addressed(rs, i));
  }
}
