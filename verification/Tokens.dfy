/** Order tokens: 14 decimal digits that the order manager is meant to count up.
    The shipped increment passes a carry on from every nine, whether or not that
    nine itself received one; the reference increment does not. */
module Tokens {

  type Digit = x: int | 0 <= x < 10
  type Digits = seq<Digit>

  const TOKEN_LENGTH := 14

  function Pow10(n: nat): (r: nat)
    ensures 0 < r
  {
    if n == 0 then 1 else 10 * Pow10(n - 1)
  }

  /** The remainder, kept behind a name so that proofs use it by its laws. */
  function Mod(x: nat, m: nat): nat
    requires 0 < m
  {
    x % m
  }

  lemma MulKeepsOrder(a: nat, b: nat, m: nat)
    requires a <= b
    ensures a * m <= b * m
  {
  }

  /** Quotient and remainder are unique. */
  lemma SameLead(m: nat, a: int, b: int, r: int, s: int)
    requires 0 <= a && 0 <= b && 0 <= r < m && 0 <= s < m && m * a + r == m * b + s
    ensures a == b && r == s
  {
    MulKeepsOrder(if a < b then a + 1 else b, b, m);
    MulKeepsOrder(if b < a then b + 1 else a, a, m);
  }

  lemma ModOfSum(q: nat, r: nat, m: nat)
    requires r < m
    ensures Mod(q * m + r, m) == r
  {
    var x := q * m + r;
    var p := x / m;
    assert x == p * m + x % m;
    MulKeepsOrder(if p < q then p + 1 else q, q, m);
    MulKeepsOrder(if q < p then q + 1 else p, p, m);
  }

  lemma ModStep(x: nat, m: nat)
    requires 0 < m
    ensures Mod(x + 1, m) == if Mod(x, m) + 1 == m then 0 else Mod(x, m) + 1
  {
    var q, r := x / m, x % m;
    if r + 1 == m {
      assert x + 1 == (q + 1) * m + 0;
      ModOfSum(q + 1, 0, m);
    } else {
      assert x + 1 == q * m + (r + 1);
      ModOfSum(q, r + 1, m);
    }
  }

  lemma ModOfSmall(r: nat, m: nat)
    requires r < m
    ensures Mod(r, m) == r
  {
  }

  /** Counting on by one, around at m, counts the remainder. */
  lemma OneMore(x: nat, m: nat, was: nat, now: nat)
    requires 0 < m && was == Mod(x, m) && now == if was + 1 == m then 0 else was + 1
    ensures now == Mod(x + 1, m)
  {
    hide Mod;
    ModStep(x, m);
  }

  lemma ModOfSums(q: nat, r: nat, p: nat, u: nat, m: nat)
    requires r < m && u < m
    ensures Mod((q * m + r) + (p * m + u), m) == if r + u < m then r + u else r + u - m
  {
    hide Mod;
    if r + u < m {
      ModOfSum(q + p, r + u, m);
      assert (q + p) * m + (r + u) == (q * m + r) + (p * m + u);
    } else {
      ModOfSum(q + p + 1, r + u - m, m);
      assert (q + p + 1) * m + (r + u - m) == (q * m + r) + (p * m + u);
    }
  }

  lemma ModParts(x: nat, m: nat) returns (q: nat, r: nat)
    requires 0 < m
    ensures r == Mod(x, m) < m && x == q * m + r
  {
    q, r := x / m, x % m;
  }

  /** Adding n keeps a remainder exactly if n is a multiple. */
  lemma ModSame(x: nat, n: nat, m: nat)
    requires 0 < m
    ensures Mod(x + n, m) == Mod(x, m) <==> Mod(n, m) == 0
  {
    hide Mod;
    var q, r := ModParts(x, m);
    var p, u := ModParts(n, m);
    ModOfSums(q, r, p, u, m);
  }

  function Value(d: Digits): (v: nat)
    ensures v < Pow10(|d|)
  {
    if d == [] then 0 else 10 * Value(d[..|d| - 1]) + d[|d| - 1]
  }

  /** Equally long digit strings with the same value are the same. */
  lemma {:induction false} ValueIsInjective(a: Digits, b: Digits)
    requires |a| == |b| && Value(a) == Value(b)
    ensures a == b
    decreases |a|
  {
    if a != [] {
      var n := |a| - 1;
      ValueIsInjective(a[..n], b[..n]);
      assert a == a[..n] + [a[n]] && b == b[..n] + [b[n]];
    }
  }

  /** A digit moved on by up to ten, past nine to zero. */
  function Turn(d: Digit, k: int): Digit
    requires 0 <= k <= 10
  {
    var sum: int := d as int + k;
    if sum < 10 then sum else sum - 10
  }

  /** Nine more undoes one more. */
  lemma TurnBack(d: Digit, k: int)
    requires k == 0 || k == 1
    ensures Turn(Turn(d, k), 9 * k) == d && Turn(Turn(d, 9 * k), k) == d
  {
  }

  function Bit(b: bool): int { if b then 1 else 0 }

  // ---- The reference increment ----

  /** Counts up by one, from the back; all nines become all zeros. */
  function Increment(d: Digits): (r: Digits)
    ensures |r| == |d|
  {
    if d == [] then []
    else
      var n := |d| - 1;
      if d[n] < 9 then d[..n] + [d[n] + 1] else Increment(d[..n]) + [0]
  }

  lemma {:induction false} IncrementCounts(d: Digits)
    ensures Value(Increment(d)) == if Value(d) + 1 == Pow10(|d|) then 0 else Value(d) + 1
    decreases |d|
  {
    if d != [] {
      var n, r := |d| - 1, Increment(d);
      if d[n] < 9 {
        assert r[..n] == d[..n];
      } else {
        assert r[..n] == Increment(d[..n]);
        IncrementCounts(d[..n]);
      }
    }
  }

  predicate AllNines(d: Digits) {
    forall i :: 0 <= i < |d| ==> d[i] == 9
  }

  /** The reference increment changes a digit exactly when nines follow it up to
      the end. */
  lemma {:induction false} IncrementAt(d: Digits, i: nat)
    requires i < |d|
    ensures Increment(d)[i] == Turn(d[i], Bit(AllNines(d[i + 1..])))
    decreases |d|
  {
    var n := |d| - 1;
    if i == n {
    } else if d[n] < 9 {
      assert d[i + 1..][n - i - 1] == d[n];
    } else {
      IncrementAt(d[..n], i);
      var short, long := d[..n][i + 1..], d[i + 1..];
      assert long == short + [d[n]];
      assert AllNines(long) <==> AllNines(short) by {
        if AllNines(long) {
          forall k | 0 <= k < |short| ensures short[k] == 9 { assert long[k] == 9; }
        }
      }
    }
  }

  // ---- The shipped increment ----

  predicate CarryInto(d: Digits, i: int)
    requires 0 <= i < |d|
  {
    i == |d| - 1 || d[i + 1] == 9
  }

  /** Every digit moves on by its carry: the last one always has one, any other
      has one whenever its right neighbour is a nine. */
  function Next(d: Digits): (r: Digits)
    ensures |r| == |d|
  {
    seq(|d|, i requires 0 <= i < |d| => Turn(d[i], Bit(CarryInto(d, i))))
  }

  /** Past the first digit, a nine is followed by nines only. */
  predicate NinesTrail(d: Digits) {
    forall i :: 1 <= i < |d| && d[i] == 9 ==> AllNines(d[i..])
  }

  /** The shipped increment is the reference increment exactly on tokens whose
      nines, other than a leading one, all lie in the trailing run of nines. */
  lemma ShippedIsReferenceIffNinesTrail(d: Digits)
    ensures Next(d) == Increment(d) <==> NinesTrail(d)
  {
    if NinesTrail(d) {
      forall i | 0 <= i < |d| ensures Next(d)[i] == Increment(d)[i] {
        IncrementAt(d, i);
        if i + 1 < |d| {
          assert d[i + 1..][0] == d[i + 1];
        }
      }
    } else {
      var i :| 1 <= i < |d| && d[i] == 9 && !AllNines(d[i..]);
      IncrementAt(d, i - 1);
      assert Next(d)[i - 1] == Turn(d[i - 1], 1);
    }
  }

  /** The shipped increment, digit by digit from the back. */
  function Bump(d: Digits, carry: bool): (r: Digits)
    ensures |r| == |d|
  {
    if d == [] then []
    else
      var n := |d| - 1;
      Bump(d[..n], d[n] == 9) + [Turn(d[n], Bit(carry))]
  }

  lemma {:induction false} BumpAt(d: Digits, carry: bool, i: nat)
    requires i < |d|
    ensures Bump(d, carry)[i] == Turn(d[i], Bit(if i == |d| - 1 then carry else d[i + 1] == 9))
    decreases |d|
  {
    if i < |d| - 1 {
      BumpAt(d[..|d| - 1], d[|d| - 1] == 9, i);
    }
  }

  lemma NextIsBump(d: Digits)
    ensures Next(d) == Bump(d, true)
  {
    forall i | 0 <= i < |d| ensures Next(d)[i] == Bump(d, true)[i] {
      BumpAt(d, true, i);
    }
  }

  function Unbump(d: Digits, carry: bool): (r: Digits)
    ensures |r| == |d|
  {
    if d == [] then []
    else
      var n := |d| - 1;
      var last := Turn(d[n], 9 * Bit(carry));
      Unbump(d[..n], last == 9) + [last]
  }

  lemma {:induction false} UnbumpUndoesBump(d: Digits, carry: bool)
    ensures Unbump(Bump(d, carry), carry) == d
    decreases |d|
  {
    if d != [] {
      hide Turn;
      var n, b := |d| - 1, Bump(d, carry);
      TurnBack(d[n], Bit(carry));
      assert b[..n] == Bump(d[..n], d[n] == 9);
      UnbumpUndoesBump(d[..n], d[n] == 9);
      assert d == d[..n] + [d[n]];
    }
  }

  lemma {:induction false} BumpUndoesUnbump(d: Digits, carry: bool)
    ensures Bump(Unbump(d, carry), carry) == d
    decreases |d|
  {
    if d != [] {
      hide Turn;
      var n, u := |d| - 1, Unbump(d, carry);
      TurnBack(d[n], Bit(carry));
      assert u[..n] == Unbump(d[..n], u[n] == 9);
      BumpUndoesUnbump(d[..n], u[n] == 9);
      assert d == d[..n] + [d[n]];
    }
  }

  /** The shipped increment is a bijection: every token has exactly one
      predecessor. */
  lemma NextIsBijective(d: Digits)
    ensures Next(Unbump(d, true)) == d
    ensures forall e: Digits :: Next(e) == d ==> e == Unbump(d, true)
  {
    hide Next, Bump, Unbump;
    BumpUndoesUnbump(d, true);
    NextIsBump(Unbump(d, true));
    forall e: Digits | Next(e) == d ensures e == Unbump(d, true) {
      NextIsBump(e);
      UnbumpUndoesBump(e, true);
    }
  }

  // ---- Token streams ----

  /** The token after n increments. */
  function Stream(d: Digits, n: nat): (r: Digits)
    ensures |r| == |d|
  {
    if n == 0 then d else Next(Stream(d, n - 1))
  }

  lemma StreamUnrolled(d: Digits, n: nat)
    ensures Stream(d, 0) == d
    ensures Stream(d, n + 1) == Next(Stream(d, n))
  {
  }

  lemma {:induction false} StreamAdds(d: Digits, m: nat, n: nat)
    ensures Stream(Stream(d, m), n) == Stream(d, m + n)
    decreases n
  {
    hide Next, Stream;
    StreamUnrolled(Stream(d, m), 0);
    if n > 0 {
      StreamUnrolled(d, m + n - 1);
      StreamUnrolled(Stream(d, m), n - 1);
      StreamAdds(d, m, n - 1);
    }
  }

  /** The first token to come again is the one the stream started with. */
  lemma {:induction false} FirstRepeatIsStart(d: Digits, i: nat, j: nat)
    requires i <= j && Stream(d, i) == Stream(d, j)
    ensures Stream(d, j - i) == d
    decreases i
  {
    hide Next, Unbump, Stream;
    StreamUnrolled(d, 0);
    if i > 0 {
      StreamUnrolled(d, i - 1);
      StreamUnrolled(d, j - 1);
      var s, t := Stream(d, i - 1), Stream(d, j - 1);
      NextIsBijective(Next(s));
      assert s == Unbump(Next(s), true) == t;
      FirstRepeatIsStart(d, i - 1, j - 1);
    }
  }

  // ---- Any stream: the last four digits ----

  function Low(d: Digits): (r: Digits)
    requires 4 <= |d|
    ensures |r| == 4
  {
    d[|d| - 4..]
  }

  lemma LowOfNext(d: Digits)
    requires 4 <= |d|
    ensures Low(Next(d)) == Next(Low(d))
  {
  }

  lemma {:induction false} StreamOfLow(d: Digits, n: nat)
    requires 4 <= |d|
    ensures Low(Stream(d, n)) == Stream(Low(d), n)
    decreases n
  {
    if n > 0 {
      hide Next, Low;
      StreamOfLow(d, n - 1);
      LowOfNext(Stream(d, n - 1));
    }
  }

  /** The last four digits after a time of t0, t1 and t2 (ones, tens and
      hundreds), where a is the resting value of the third digit and b an offset
      of the fourth. The third digit goes round once per hundred steps and the
      fourth gains one. */
  function LowAt(a: Digit, b: Digit, t0: Digit, t1: Digit, t2: Digit): (r: Digits)
    ensures |r| == 4
  {
    [Turn(Turn(b, t2), Gained(a, t0, t1)), Turn(a, if t1 == 9 then t0 else 0), t1, t0]
  }

  function Gained(a: Digit, t0: Digit, t1: Digit): Digit {
    if a == 9 then (if t1 < 9 then t0 else Bit(0 < t0)) else Bit(t1 == 9 && 9 - a < t0)
  }

  lemma LowStepOnes(a: Digit, b: Digit, t0: Digit, t1: Digit, t2: Digit)
    requires t0 < 9
    ensures Next(LowAt(a, b, t0, t1, t2)) == LowAt(a, b, t0 + 1, t1, t2)
  {
  }

  lemma LowStepTens(a: Digit, b: Digit, t1: Digit, t2: Digit)
    requires t1 < 9
    ensures Next(LowAt(a, b, 9, t1, t2)) == LowAt(a, b, 0, t1 + 1, t2)
  {
  }

  lemma LowStepHundreds(a: Digit, b: Digit, t2: Digit)
    ensures Next(LowAt(a, b, 9, 9, t2)) == LowAt(a, b, 0, 0, Turn(t2, 1))
  {
  }

  /** Ones, tens and hundreds of a time within a thousand steps. */
  datatype Hand = Hand(t0: Digit, t1: Digit, t2: Digit)

  function Moment(h: Hand): nat {
    100 * h.t2 + 10 * h.t1 + h.t0
  }

  function Move(h: Hand): Hand {
    if h.t0 < 9 then h.(t0 := h.t0 + 1)
    else if h.t1 < 9 then Hand(0, h.t1 + 1, h.t2)
    else Hand(0, 0, Turn(h.t2, 1))
  }

  function HandAfter(h: Hand, n: nat): Hand {
    if n == 0 then h else Move(HandAfter(h, n - 1))
  }

  lemma MoveTakesOne(h: Hand)
    ensures Moment(Move(h)) == if Moment(h) + 1 == 1000 then 0 else Moment(h) + 1
  {
  }

  lemma MomentIsSmall(h: Hand)
    ensures Moment(h) < 1000
  {
  }

  lemma {:induction false} MomentAfter(h: Hand, n: nat)
    ensures Moment(HandAfter(h, n)) == Mod(Moment(h) + n, 1000)
    decreases n
  {
    hide Mod, Moment, Move;
    if n == 0 {
      MomentIsSmall(h);
      ModOfSmall(Moment(h), 1000);
    } else {
      MomentAfter(h, n - 1);
      MoveTakesOne(HandAfter(h, n - 1));
      OneMore(Moment(h) + n - 1, 1000, Moment(HandAfter(h, n - 1)), Moment(HandAfter(h, n)));
    }
  }

  lemma LowStep(a: Digit, b: Digit, h: Hand)
    ensures Next(LowAt(a, b, h.t0, h.t1, h.t2)) == LowAt(a, b, Move(h).t0, Move(h).t1, Move(h).t2)
  {
    hide Next, LowAt;
    if h.t0 < 9 {
      LowStepOnes(a, b, h.t0, h.t1, h.t2);
    } else if h.t1 < 9 {
      LowStepTens(a, b, h.t1, h.t2);
    } else {
      LowStepHundreds(a, b, h.t2);
    }
  }

  lemma {:induction false} LowStream(a: Digit, b: Digit, h: Hand, n: nat)
    ensures var g := HandAfter(h, n); Stream(LowAt(a, b, h.t0, h.t1, h.t2), n) == LowAt(a, b, g.t0, g.t1, g.t2)
    decreases n
  {
    if n > 0 {
      hide Next, LowAt, Move;
      LowStream(a, b, h, n - 1);
      LowStep(a, b, HandAfter(h, n - 1));
    }
  }

  lemma TurnTellsDigit(x: Digit, y: Digit, k: Digit)
    requires Turn(x, k) == Turn(y, k)
    ensures x == y
  {
  }

  lemma TurnTellsAmount(x: Digit, k: Digit, l: Digit)
    requires Turn(x, k) == Turn(x, l)
    ensures k == l
  {
  }

  lemma MomentTellsHand(g: Hand, h: Hand)
    requires Moment(g) == Moment(h)
    ensures g == h
  {
    SameLead(100, g.t2, h.t2, 10 * g.t1 + g.t0, 10 * h.t1 + h.t0);
    SameLead(10, g.t1, h.t1, g.t0, h.t0);
  }

  /** Different moments show different digits. */
  lemma LowTellsTime(a: Digit, b: Digit, g: Hand, h: Hand)
    ensures LowAt(a, b, g.t0, g.t1, g.t2) == LowAt(a, b, h.t0, h.t1, h.t2) <==> Moment(g) == Moment(h)
  {
    var s, r := LowAt(a, b, g.t0, g.t1, g.t2), LowAt(a, b, h.t0, h.t1, h.t2);
    if s == r {
      hide Turn, Gained;
      assert s[3] == r[3] && s[2] == r[2] && s[0] == r[0];
      TurnTellsDigit(Turn(b, g.t2), Turn(b, h.t2), Gained(a, g.t0, g.t1));
      TurnTellsAmount(b, g.t2, h.t2);
    }
    if Moment(g) == Moment(h) {
      MomentTellsHand(g, h);
    }
  }

  /** Every choice of four digits is shown by some such clock. */
  lemma LowHasClock(s: Digits) returns (a: Digit, b: Digit, h: Hand)
    requires |s| == 4
    ensures s == LowAt(a, b, h.t0, h.t1, h.t2)
  {
    h := Hand(s[3], s[2], 0);
    var back := 10 - (s[3] as int);
    a := if s[2] == 9 then Turn(s[1], back) else s[1];
    var lost := 10 - (Gained(a, s[3], s[2]) as int);
    b := Turn(s[0], lost);
  }

  /** The last four digits of every stream come round every 1000 steps and not
      in between. */
  lemma LowRepeatsEveryThousand(d: Digits, n: nat)
    requires 4 <= |d|
    ensures Low(Stream(d, n)) == Low(d) <==> n % 1000 == 0
  {
    hide LowAt, Moment, Low, Stream;
    var a, b, h := LowHasClock(Low(d));
    StreamOfLow(d, n);
    LowStream(a, b, h, n);
    LowTellsTime(a, b, HandAfter(h, n), h);
    MomentAfter(h, n);
    MomentAfter(h, 0);
    ModSame(Moment(h), n, 1000);
  }

  /** Any 1000 consecutive tokens of any stream are pairwise distinct. */
  lemma ThousandConsecutiveTokensDiffer(d: Digits, i: nat, j: nat)
    requires 4 <= |d| && i < j < i + 1000
    ensures Stream(d, i) != Stream(d, j)
  {
    hide Stream, Low;
    if Stream(d, i) == Stream(d, j) {
      FirstRepeatIsStart(d, i, j);
      LowRepeatsEveryThousand(d, j - i);
    }
  }

  // ---- The stream of a fresh order manager ----

  datatype Clock = Clock(t0: Digit, t1: Digit, t2: Digit, t3: Digit)

  /** The tokens a fresh manager can issue. The j-th digit from the back shows
      the decimal digit of the clock named by the lowest set bit of j, as long
      as the clock digits named by the other set bits are nines. */
  function Face(c: Clock): (r: Digits)
    ensures |r| == TOKEN_LENGTH
  {
    var Clock(t0, t1, t2, t3) := c;
    [ if t3 == 9 && t2 == 9 then t1 else 0,
      if t3 == 9 && t2 == 9 then t0 else 0,
      if t3 == 9 then t2 else 0,
      if t3 == 9 && t1 == 9 then t0 else 0,
      if t3 == 9 then t1 else 0,
      if t3 == 9 then t0 else 0,
      t3,
      if t2 == 9 && t1 == 9 then t0 else 0,
      if t2 == 9 then t1 else 0,
      if t2 == 9 then t0 else 0,
      t2,
      if t1 == 9 then t0 else 0,
      t1,
      t0 ]
  }

  function Tick(c: Clock): Clock {
    if c.t0 < 9 then c.(t0 := c.t0 + 1)
    else if c.t1 < 9 then Clock(0, c.t1 + 1, c.t2, c.t3)
    else if c.t2 < 9 then Clock(0, 0, c.t2 + 1, c.t3)
    else Clock(0, 0, 0, Turn(c.t3, 1))
  }

  lemma FaceStep(c: Clock)
    ensures Next(Face(c)) == Face(Tick(c))
  {
    var s, r := Face(c), Face(Tick(c));
    FaceStepLow(c);
    FaceStepHigh(c);
    forall i | 0 <= i < TOKEN_LENGTH ensures Next(s)[i] == r[i] {
    }
  }

  lemma FaceStepLow(c: Clock)
    ensures forall i :: 7 <= i < TOKEN_LENGTH ==> Next(Face(c))[i] == Face(Tick(c))[i]
  {
  }

  lemma FaceStepHigh(c: Clock)
    ensures forall i :: 0 <= i < 7 ==> Next(Face(c))[i] == Face(Tick(c))[i]
  {
  }

  function Time(c: Clock): nat {
    1000 * c.t3 + 100 * c.t2 + 10 * c.t1 + c.t0
  }

  function ClockAfter(c: Clock, n: nat): Clock {
    if n == 0 then c else Tick(ClockAfter(c, n - 1))
  }

  lemma TickTakesOne(c: Clock)
    ensures Time(Tick(c)) == if Time(c) + 1 == 10000 then 0 else Time(c) + 1
  {
  }

  lemma TimeIsSmall(c: Clock)
    ensures Time(c) < 10000
  {
  }

  lemma {:induction false} TimeAfter(c: Clock, n: nat)
    ensures Time(ClockAfter(c, n)) == Mod(Time(c) + n, 10000)
    decreases n
  {
    hide Mod, Time, Tick;
    if n == 0 {
      TimeIsSmall(c);
      ModOfSmall(Time(c), 10000);
    } else {
      TimeAfter(c, n - 1);
      TickTakesOne(ClockAfter(c, n - 1));
      OneMore(Time(c) + n - 1, 10000, Time(ClockAfter(c, n - 1)), Time(ClockAfter(c, n)));
    }
  }

  lemma {:induction false} FaceStream(c: Clock, n: nat)
    ensures Stream(Face(c), n) == Face(ClockAfter(c, n))
    decreases n
  {
    if n > 0 {
      FaceStream(c, n - 1);
      FaceStep(ClockAfter(c, n - 1));
    }
  }

  lemma FacesDiffer(x: Clock, y: Clock)
    ensures Face(x) == Face(y) <==> Time(x) == Time(y)
  {
    if Face(x) == Face(y) {
      assert Face(x)[13] == x.t0 && Face(x)[12] == x.t1 && Face(x)[10] == x.t2 && Face(x)[6] == x.t3;
      assert Face(y)[13] == y.t0 && Face(y)[12] == y.t1 && Face(y)[10] == y.t2 && Face(y)[6] == y.t3;
    }
    if Time(x) == Time(y) {
      TimeTellsClock(x, y);
    }
  }

  lemma TimeTellsClock(x: Clock, y: Clock)
    requires Time(x) == Time(y)
    ensures x == y
  {
    SameLead(1000, x.t3, y.t3, 100 * x.t2 + 10 * x.t1 + x.t0, 100 * y.t2 + 10 * y.t1 + y.t0);
    SameLead(100, x.t2, y.t2, 10 * x.t1 + x.t0, 10 * y.t1 + y.t0);
    SameLead(10, x.t1, y.t1, x.t0, y.t0);
  }

  /** The first token of a fresh manager: thirteen zeros and a one. */
  const FIRST: Digits := Face(Clock(1, 0, 0, 0))

  /** A fresh manager's stream repeats with a period of exactly 10,000 tokens,
      out of the 10^14 there are. */
  lemma FreshStreamPeriod(n: nat)
    ensures Stream(FIRST, n) == FIRST <==> n % 10000 == 0
  {
    hide Stream, Face, Time;
    var c := Clock(1, 0, 0, 0);
    FaceStream(c, n);
    FacesDiffer(ClockAfter(c, n), c);
    TimeAfter(c, n);
    TimeAfter(c, 0);
    ModSame(Time(c), n, 10000);
  }

  lemma FreshStreamRepeats(i: nat, j: nat)
    requires i <= j
    ensures Stream(FIRST, i) == Stream(FIRST, j) <==> (j - i) % 10000 == 0
  {
    hide Stream;
    FreshStreamPeriod(j - i);
    if Stream(FIRST, i) == Stream(FIRST, j) {
      FirstRepeatIsStart(FIRST, i, j);
    }
    StreamAdds(FIRST, j - i, i);
  }

  /** Under the reference increment no token comes again before all have been
      issued. */
  function ReferenceStream(d: Digits, n: nat): (r: Digits)
    ensures |r| == |d|
  {
    if n == 0 then d else Increment(ReferenceStream(d, n - 1))
  }

  lemma {:induction false} ReferenceStreamCounts(d: Digits, n: nat)
    ensures Value(ReferenceStream(d, n)) == Mod(Value(d) + n, Pow10(|d|))
    decreases n
  {
    hide Mod, Increment, Value, Pow10;
    if n == 0 {
      ModOfSmall(Value(d), Pow10(|d|));
    } else {
      var s := ReferenceStream(d, n - 1);
      ReferenceStreamCounts(d, n - 1);
      IncrementCounts(s);
      OneMore(Value(d) + n - 1, Pow10(|d|), Value(s), Value(Increment(s)));
    }
  }

  lemma ReferenceStreamPeriod(d: Digits, n: nat)
    ensures ReferenceStream(d, n) == d <==> n % Pow10(|d|) == 0
  {
    hide Increment, Value;
    ReferenceStreamCounts(d, n);
    ReferenceStreamCounts(d, 0);
    ModSame(Value(d), n, Pow10(|d|));
    if Value(ReferenceStream(d, n)) == Value(d) {
      ValueIsInjective(ReferenceStream(d, n), d);
    }
  }

  // ---- Where a fresh manager leaves the reference ----

  /** The token of a new manager and the first 89 it issues are those of the
      reference. */
  lemma {:induction false} FreshStreamStartsAsReference(n: nat)
    requires n < 90
    ensures Stream(FIRST, n) == ReferenceStream(FIRST, n)
    decreases n
  {
    hide Face, Next, Increment, NinesTrail, Mod, ClockAfter;
    if n > 0 {
      FreshStreamStartsAsReference(n - 1);
      var c := ClockAfter(Clock(1, 0, 0, 0), n - 1);
      FaceStream(Clock(1, 0, 0, 0), n - 1);
      TimeAfter(Clock(1, 0, 0, 0), n - 1);
      ModOfSmall(n, 10000);
      EarlyNinesTrail(c);
      ShippedIsReferenceIffNinesTrail(Face(c));
    }
  }

  lemma EarlyNinesTrail(c: Clock)
    requires Time(c) < 90
    ensures NinesTrail(Face(c))
  {
    var d := Face(c);
    forall i | 1 <= i < |d| && d[i] == 9 ensures AllNines(d[i..]) {
      assert i == 13;
    }
  }

  /** The next increment leaves it, and so it is in every round: the token ends
      in 090, and 191 follows instead of 091. */
  lemma FreshStreamLeavesReference(n: nat)
    requires n % 10000 == 89
    ensures var d := Stream(FIRST, n);
            && d[11..] == [0, 9, 0] && !NinesTrail(d)
            && Next(d)[11..] == [1, 9, 1] && Increment(d)[11..] == [0, 9, 1]
  {
    hide Stream, ClockAfter, Face, Next, Increment, NinesTrail, Mod;
    var start, c := Clock(1, 0, 0, 0), Clock(0, 9, 0, 0);
    FaceStream(start, n);
    TimeAfter(start, n);
    RoundAt90(n);
    TimeTellsClock(ClockAfter(start, n), c);
    FaceAt90();
  }

  lemma RoundAt90(n: nat)
    requires n % 10000 == 89
    ensures Mod(1 + n, 10000) == 90
  {
    ModStep(n, 10000);
  }

  lemma FaceAt90()
    ensures var d := Face(Clock(0, 9, 0, 0));
            && d[11..] == [0, 9, 0] && !NinesTrail(d)
            && Next(d)[11..] == [1, 9, 1] && Increment(d)[11..] == [0, 9, 1]
  {
    var d, e := Face(Clock(0, 9, 0, 0)), Face(Clock(1, 9, 0, 0));
    FaceStep(Clock(0, 9, 0, 0));
    hide Next, NinesTrail;
    assert d[11..] == [0, 9, 0] && e[11..] == [1, 9, 1];
    NotTrailing(d);
    IncrementOfSmall(d);
  }

  lemma NotTrailing(d: Digits)
    requires |d| == TOKEN_LENGTH && d[12] == 9 && d[13] == 0
    ensures !NinesTrail(d)
  {
    assert d[12..][1] == 0;
  }

  lemma IncrementOfSmall(d: Digits)
    requires |d| == TOKEN_LENGTH && d[11..] == [0, 9, 0]
    ensures Increment(d)[11..] == [0, 9, 1]
  {
    assert d[13] == d[11..][2];
    assert Increment(d) == d[..13] + [1];
    assert d[11] == d[11..][0] && d[12] == d[11..][1];
  }
}
