/** The initial-sync state machine of the market data client: which sequence
    numbers it is missing, what it asks the rewinder for, and when it is done. */
module Rewind {
  import opened Words

  datatype Mode = Initial | Rewinding | Continuous

  /** A request to the rewinder: the first sequence number and a 16-bit count. */
  datatype Request = Request(start: uint64, count: uint16)

  datatype ClientState = ClientState(
    mode: Mode,
    nextExpected: uint64,
    missing: seq<uint64>,   // a stack, the next number to receive at the back
    lastRequested: uint64,
    rewindTill: uint64,     // exclusive
    sent: seq<Request>      // what has gone to the rewinder, oldest first
  )

  const FRESH := ClientState(Initial, 1, [], 0, 0, [])

  /** The sequence numbers of one packet. */
  datatype Range = Range(first: uint64, count: uint16)

  predicate Contains(p: Range, n: int) {
    p.first <= n < p.first + p.count
  }

  /** `populateVector`: the loop bound is a wrapped sum, so a range that passes
      the end of the 64-bit space yields zeros. */
  function Numbers(p: Range): (r: seq<uint64>)
    ensures |r| == p.count
  {
    if p.first + p.count < TWO64 then Upward(p.first, p.count) else Zeros(p.count)
  }

  function Upward(first: uint64, count: nat): (r: seq<uint64>)
    requires first + count < TWO64
    ensures |r| == count && forall i :: 0 <= i < count ==> r[i] == first + i
    decreases count
  {
    if count == 0 then [] else [first] + Upward(first + 1, count - 1)
  }

  function Zeros(count: nat): (r: seq<uint64>)
    ensures |r| == count && forall i :: 0 <= i < count ==> r[i] == 0
  {
    if count == 0 then [] else [0] + Zeros(count - 1)
  }

  datatype Option<T> = None | Some(value: T)

  /** Pops each received number that is next on the stack. None if the back of
      an empty stack would be read, which is undefined. */
  function Drain(missing: seq<uint64>, received: seq<uint64>): Option<seq<uint64>>
    decreases |received|
  {
    if received == [] then Some(missing)
    else if missing == [] then None
    else if missing[|missing| - 1] == received[0] then Drain(missing[..|missing| - 1], received[1..])
    else Drain(missing, received[1..])
  }

  /** The numbers below `till`, down to k: the stack whose back is k. */
  function Stack(till: nat, k: nat): (r: seq<uint64>)
    requires k <= till <= TWO64
    ensures |r| == till - k && forall i :: 0 <= i < |r| ==> r[i] == till - 1 - i
    decreases till - k
  {
    if k == till then [] else Stack(till, k + 1) + [k]
  }

  /** What a sync pushes: the loop starts from one less than the sequence number
      of the packet, which is the largest 64-bit number if that is 0. */
  function SyncStack(first: uint64): seq<uint64> {
    Stack(if first == 0 then TWO64 else first, 1)
  }

  /** Sends a request if the second number is larger, and then is rewinding. */
  function RequestMissing(st: ClientState, expected: uint64, received: uint64): ClientState {
    if received > expected then
      st.(mode := Rewinding, sent := st.sent + [Request(expected, (received - expected) % TWO16)])
    else st
  }

  /** The tail of `parse`: sequence tracking outside the rewound range. By the
      time a gap is reported, the expected number has already moved past it. */
  function TrackSequence(st: ClientState, p: Range): ClientState {
    if p.first > st.rewindTill then
      var gap := st.nextExpected != 0 && p.first != st.nextExpected;
      var next := st.(nextExpected := Add64(p.first, p.count));
      if gap then RequestMissing(next, next.nextExpected, p.first) else next
    else st
  }

  /** The rewinding branch of `parse`. */
  function AbsorbRewound(st: ClientState, p: Range): Option<ClientState> {
    match Drain(st.missing, Numbers(p))
    case None => None
    case Some(left) =>
      var next := st.(missing := left);
      if left == [] then Some(next.(mode := Continuous))
      else
        var back := left[|left| - 1];
        if st.lastRequested != back then
          Some(RequestMissing(next.(lastRequested := back), back, Add64(left[0], 1)))
        else Some(next)
  }

  predicate StartsSync(st: ClientState, p: Range) {
    st.mode == Initial && p.first != 1 && st.nextExpected == 1
  }

  /** One packet through `parse`. */
  function ClientStep(st: ClientState, p: Range): Option<ClientState> {
    if st.mode == Rewinding then
      match AbsorbRewound(st, p)
      case None => None
      case Some(next) => Some(TrackSequence(next, p))
    else if StartsSync(st, p) then
      Some(RequestMissing(
        st.(missing := st.missing + SyncStack(p.first), lastRequested := 1, rewindTill := p.first), 1, p.first))
    else Some(TrackSequence(st, p))
  }

  function ClientRun(st: ClientState, packets: seq<Range>): Option<ClientState>
    decreases |packets|
  {
    if packets == [] then Some(st)
    else
      match ClientStep(st, packets[0])
      case None => None
      case Some(next) => ClientRun(next, packets[1..])
  }

  /** Packets as the feed numbers them: from 1 on, within 64 bits. */
  predicate Numbered(packets: seq<Range>) {
    forall i :: 0 <= i < |packets| ==> 0 < packets[i].first && packets[i].first + packets[i].count < TWO64
  }

  // ---- The stack as a cursor ----

  /** Draining the stack of all numbers from k on: a packet that contains k
      moves it to the packet's end, or runs off the stack if it goes beyond. */
  lemma {:induction false} DrainMovesCursor(till: uint64, k: uint64, first: uint64, count: nat)
    requires 0 < k < till && first + count < TWO64
    ensures Drain(Stack(till, k), Upward(first, count)) ==
            if !(first <= k < first + count) then Some(Stack(till, k))
            else if first + count <= till then Some(Stack(till, first + count))
            else None
    decreases count
  {
    if count > 0 {
      var s := Stack(till, k);
      assert s[|s| - 1] == k && s[..|s| - 1] == Stack(till, k + 1);
      assert Upward(first, count)[1..] == Upward(first + 1, count - 1);
      if first == k {
        if k + 1 < till {
          DrainMovesCursor(till, k + 1, first + 1, count - 1);
        }
      } else {
        DrainMovesCursor(till, k, first + 1, count - 1);
      }
    }
  }

  /** Where the cursor is after a packet. */
  function Advance(k: uint64, p: Range): uint64
    requires p.first + p.count < TWO64
  {
    if Contains(p, k) then p.first + p.count else k
  }

  /** A packet overruns the sync if it contains the cursor and reaches beyond
      the first live number. */
  predicate Overruns(till: uint64, k: uint64, p: Range) {
    Contains(p, k) && till < p.first + p.count
  }

  /** Syncing up to `till`, with everything from k on still missing. */
  ghost predicate Syncing(st: ClientState, till: uint64, k: uint64) {
    0 < k < till && st.mode == Rewinding && st.rewindTill == till && st.missing == Stack(till, k) && st.lastRequested == k
  }

  ghost predicate Synced(st: ClientState, till: uint64) {
    st.mode == Continuous && st.rewindTill == till && st.missing == []
  }

  function CatchUp(till: uint64, k: uint64): Request
    requires k <= till
  {
    Request(k, (till - k) % TWO16)
  }

  /** What one move of the cursor sends: the rest of the gap, unless the cursor
      stayed or finished. */
  function RequestOf(till: uint64, k: uint64, k': uint64): seq<Request> {
    if k < k' < till then [CatchUp(till, k')] else []
  }

  /** Outside the rewound range no request is ever sent, gap or no gap, unless
      the sequence number wraps around its 64-bit word. */
  lemma GapsAreNeverRequested(st: ClientState, p: Range)
    ensures TrackSequence(st, p).sent == st.sent <==>
              !(st.rewindTill < p.first && st.nextExpected != 0 && p.first != st.nextExpected && TWO64 <= p.first + p.count)
    ensures p.first + p.count < TWO64 ==>
              TrackSequence(st, p) ==
              st.(nextExpected := if st.rewindTill < p.first then p.first + p.count else st.nextExpected)
  {
  }

  /** The expected number, in every mode and for every packet: it becomes the
      end of the packet if that starts above the rewound range, and stays
      otherwise. The packet that starts the sync leaves it and sets the range. */
  lemma StepTracksNumbers(st: ClientState, p: Range)
    requires ClientStep(st, p).Some?
    ensures var next := ClientStep(st, p).value;
            if st.mode == Initial && p.first != 1 && st.nextExpected == 1 then
              next.nextExpected == 1 && next.rewindTill == p.first
            else
              && next.rewindTill == st.rewindTill
              && next.nextExpected == if st.rewindTill < p.first then Add64(p.first, p.count)
                                      else st.nextExpected
  {
  }

  /** The last packet of a run that starts above a number. */
  ghost predicate LastAbove(packets: seq<Range>, till: uint64, i: int) {
    && 0 <= i < |packets| && till < packets[i].first
    && forall j :: i < j < |packets| ==> packets[j].first <= till
  }

  /** A first packet at that number does not count. */
  lemma LastAboveInTail(p: Range, rest: seq<Range>)
    ensures forall i :: LastAbove([p] + rest, p.first, i) ==> 0 < i && LastAbove(rest, p.first, i - 1)
  {
    forall i | LastAbove([p] + rest, p.first, i) ensures 0 < i && LastAbove(rest, p.first, i - 1) {
      forall j | i - 1 < j < |rest| ensures rest[j].first <= p.first {
        assert rest[j] == ([p] + rest)[j + 1];
      }
    }
  }

  function EndOf(p: Range): uint64 {
    Add64(p.first, p.count)
  }

  /** The end of the last packet of a run that starts above a number. */
  function LastEnd(packets: seq<Range>, till: uint64, before: uint64): uint64
    decreases |packets|
  {
    if packets == [] then before
    else LastEnd(packets[1..], till, if till < packets[0].first then EndOf(packets[0]) else before)
  }

  lemma {:induction false} LastEndIs(packets: seq<Range>, till: uint64, before: uint64)
    ensures (forall i :: 0 <= i < |packets| ==> packets[i].first <= till) ==> LastEnd(packets, till, before) == before
    ensures forall i :: LastAbove(packets, till, i) ==> LastEnd(packets, till, before) == EndOf(packets[i])
    decreases |packets|
  {
    if packets != [] {
      hide EndOf;
      var rest := packets[1..];
      LastEndIs(rest, till, if till < packets[0].first then EndOf(packets[0]) else before);
      forall i | LastAbove(packets, till, i) ensures LastEnd(packets, till, before) == EndOf(packets[i]) {
        if i == 0 {
          forall j | 0 <= j < |rest| ensures rest[j].first <= till { assert rest[j] == packets[j + 1]; }
        } else {
          assert LastAbove(rest, till, i - 1) by {
            forall j | i - 1 < j < |rest| ensures rest[j].first <= till { assert rest[j] == packets[j + 1]; }
          }
        }
      }
    }
  }

  lemma StartedStepExpects(st: ClientState, p: Range)
    requires st.mode != Initial && ClientStep(st, p).Some?
    ensures var next := ClientStep(st, p).value;
            && next.mode != Initial && next.rewindTill == st.rewindTill
            && next.nextExpected == if st.rewindTill < p.first then EndOf(p) else st.nextExpected
  {
  }

  /** Over whole runs of a client that has started its sync, the expected number
      is the end of the last packet that starts above the rewound range. */
  lemma {:induction false} ExpectedFollowsLive(st: ClientState, packets: seq<Range>)
    requires st.mode != Initial && ClientRun(st, packets).Some?
    ensures var next := ClientRun(st, packets).value;
            next.mode != Initial && next.nextExpected == LastEnd(packets, st.rewindTill, st.nextExpected)
    decreases |packets|
  {
    if packets != [] {
      StartedStepExpects(st, packets[0]);
      hide ClientStep, EndOf;
      ExpectedFollowsLive(ClientStep(st, packets[0]).value, packets[1..]);
    }
  }

  /** One packet while syncing: it moves the cursor, finishes the sync, or is
      undefined, and a new request goes out exactly when the cursor moved
      without finishing. */
  lemma SyncStep(st: ClientState, till: uint64, k: uint64, p: Range)
    requires Syncing(st, till, k) && p.first + p.count < TWO64
    ensures ClientStep(st, p).None? <==> Overruns(till, k, p)
    ensures !Overruns(till, k, p) ==>
              var next, k' := ClientStep(st, p).value, Advance(k, p);
              && k <= k' <= till
              && (k' < till ==> Syncing(next, till, k'))
              && (k' == till ==> Synced(next, till) && next.lastRequested == k)
              && next.sent == st.sent + RequestOf(till, k, k')
  {
    DrainMovesCursor(till, k, p.first, p.count);
    assert Numbers(p) == Upward(p.first, p.count);
    if !Overruns(till, k, p) {
      GapsAreNeverRequested(AbsorbRewound(st, p).value, p);
    }
  }

  /** The first packet of a late joiner starts the sync at number 1. */
  lemma SyncStarts(st: ClientState, p: Range)
    requires st.mode == Initial && st.nextExpected == 1 && st.missing == [] && 1 < p.first
    ensures var next := ClientStep(st, p);
            && next.Some? && Syncing(next.value, p.first, 1)
            && next.value.sent == st.sent + [CatchUp(p.first, 1)]
  {
    assert st.missing + SyncStack(p.first) == Stack(p.first, 1);
  }

  // ---- Whole runs of a sync ----

  /** The cursor after a run of packets, frozen once it reaches `till`; None if
      a packet overruns the sync. */
  function Cursor(till: uint64, k: uint64, packets: seq<Range>): Option<uint64>
    requires k <= till && Numbered(packets)
    ensures var r := Cursor(till, k, packets); r.Some? ==> k <= r.value <= till
    decreases |packets|
  {
    if packets == [] || k == till then Some(k)
    else if Overruns(till, k, packets[0]) then None
    else Cursor(till, Advance(k, packets[0]), packets[1..])
  }

  /** The requests a run gives rise to: one for each move of the cursor that
      does not finish. */
  function Requests(till: uint64, k: uint64, packets: seq<Range>): seq<Request>
    requires k <= till && Numbered(packets)
    decreases |packets|
  {
    if packets == [] || k == till || Overruns(till, k, packets[0]) then []
    else
      var k' := Advance(k, packets[0]);
      RequestOf(till, k, k') + Requests(till, k', packets[1..])
  }

  /** After the sync no packet disturbs it and nothing more is requested. */
  lemma {:induction false} SyncedForGood(st: ClientState, till: uint64, packets: seq<Range>)
    requires Synced(st, till) && Numbered(packets)
    ensures ClientRun(st, packets).Some?
    ensures Synced(ClientRun(st, packets).value, till) && ClientRun(st, packets).value.sent == st.sent
    decreases |packets|
  {
    if packets != [] {
      GapsAreNeverRequested(st, packets[0]);
      SyncedForGood(ClientStep(st, packets[0]).value, till, packets[1..]);
    }
  }

  /** A run that has come to where the cursor says, having sent `rs` on top of
      what had been sent before. */
  ghost predicate Follows(run: Option<ClientState>, before: seq<Request>, till: uint64, cursor: Option<uint64>,
                          rs: seq<Request>) {
    && (run.Some? <==> cursor.Some?)
    && (run.Some? ==>
          && cursor.value <= till
          && (cursor.value < till ==> Syncing(run.value, till, cursor.value))
          && (cursor.value == till ==> Synced(run.value, till))
          && run.value.sent == before + rs)
  }

  /** In every run the client's stack is the cursor's: the run is defined iff no
      packet overruns the sync, it is done iff the cursor has reached the first
      live number, and the requests sent are those of the cursor's moves. */
  lemma {:induction false} SyncFollowsCursor(st: ClientState, till: uint64, k: uint64, packets: seq<Range>)
    requires Syncing(st, till, k) && Numbered(packets)
    ensures Follows(ClientRun(st, packets), st.sent, till, Cursor(till, k, packets), Requests(till, k, packets))
    decreases |packets|
  {
    if packets != [] {
      SyncStep(st, till, k, packets[0]);
      if !Overruns(till, k, packets[0]) {
        var next := ClientStep(st, packets[0]).value;
        if Advance(k, packets[0]) < till {
          SyncFollowsCursor(next, till, Advance(k, packets[0]), packets[1..]);
        } else {
          SyncedForGood(next, till, packets[1..]);
        }
        FollowsAfterStep(st, till, k, packets);
      }
    }
  }

  lemma FollowsAfterStep(st: ClientState, till: uint64, k: uint64, packets: seq<Range>)
    requires k < till && packets != [] && Numbered(packets) && !Overruns(till, k, packets[0])
    requires ClientStep(st, packets[0]).Some? && Advance(k, packets[0]) <= till
    requires var next, k' := ClientStep(st, packets[0]).value, Advance(k, packets[0]);
             && next.sent == st.sent + RequestOf(till, k, k')
             && Follows(ClientRun(next, packets[1..]), next.sent, till, Cursor(till, k', packets[1..]),
                        Requests(till, k', packets[1..]))
    ensures Follows(ClientRun(st, packets), st.sent, till, Cursor(till, k, packets), Requests(till, k, packets))
  {
    var next, k' := ClientStep(st, packets[0]).value, Advance(k, packets[0]);
    FollowsFromEarlier(ClientRun(next, packets[1..]), st.sent, RequestOf(till, k, k'), till,
                       Cursor(till, k', packets[1..]), Requests(till, k', packets[1..]));
    hide ClientStep, Follows, Contains, RequestOf;
  }

  /** Requests sent on the way may be counted as sent later. */
  lemma FollowsFromEarlier(run: Option<ClientState>, before: seq<Request>, move: seq<Request>, till: uint64,
                           cursor: Option<uint64>, later: seq<Request>)
    requires Follows(run, before + move, till, cursor, later)
    ensures Follows(run, before, till, cursor, move + later)
  {
    hide Syncing, Synced;
    assert (before + move) + later == before + (move + later);
  }

  ghost predicate Received(packets: seq<Range>, n: int) {
    exists i :: 0 <= i < |packets| && Contains(packets[i], n)
  }

  /** Everything below the cursor has been received. */
  lemma {:induction false} BelowCursorIsReceived(till: uint64, k: uint64, packets: seq<Range>, n: int)
    requires k <= till && Numbered(packets) && Cursor(till, k, packets).Some?
    requires k <= n < Cursor(till, k, packets).value
    ensures Received(packets, n)
    decreases |packets|
  {
    var p := packets[0];
    if Contains(p, n) {
    } else {
      BelowCursorIsReceived(till, Advance(k, p), packets[1..], n);
      var i :| 0 <= i < |packets[1..]| && Contains(packets[1..][i], n);
      assert Contains(packets[i + 1], n);
    }
  }

  /** Requests start at strictly rising numbers above k, each asks for the rest
      of the gap modulo 2^16, and there are fewer of them than missing numbers. */
  lemma {:induction false} RequestsAreBounded(till: uint64, k: uint64, packets: seq<Range>)
    requires k < till && Numbered(packets)
    ensures var rs := Requests(till, k, packets);
            && |rs| <= till - k - 1
            && (forall i :: 0 <= i < |rs| ==> k < rs[i].start < till && rs[i] == CatchUp(till, rs[i].start))
            && (forall i, j :: 0 <= i < j < |rs| ==> rs[i].start < rs[j].start)
    decreases |packets|
  {
    if packets != [] && !Overruns(till, k, packets[0]) && Advance(k, packets[0]) < till {
      RequestsAreBounded(till, Advance(k, packets[0]), packets[1..]);
    }
  }

  /** A gap of exactly 65,536 numbers asks for none. */
  lemma GapOf65536AsksForNothing(k: uint64)
    requires k + 65536 < TWO64
    ensures CatchUp(k + 65536, k) == Request(k, 0)
  {
  }

  /** A late joiner on number 3 that is sent 1 to 3 in one packet reads the back
      of an empty stack. */
  lemma OverrunIsUndefined()
    ensures ClientRun(FRESH, [Range(3, 1), Range(1, 3)]) == None
  {
    var first, second := Range(3, 1), Range(1, 3);
    SyncStarts(FRESH, first);
    var st := ClientStep(FRESH, first).value;
    SyncStep(st, 3, 1, second);
    var packets := [first, second];
    assert packets[1..] == [second];
    assert ClientRun(st, [second]) == None;
  }

  /** A request asks for the whole rest of the gap iff that fits 16 bits; what
      it leaves out is a multiple of 65,536. */
  lemma RequestCoversGap(till: uint64, k: uint64)
    requires k < till
    ensures CatchUp(till, k).start == k && (till - k - CatchUp(till, k).count) % 0x1_0000 == 0
    ensures CatchUp(till, k).count == till - k <==> till - k < 0x1_0000
  {
  }

  lemma {:induction false} ZerosAreNotMissing(missing: seq<uint64>, count: nat)
    requires missing != [] && missing[|missing| - 1] != 0
    ensures Drain(missing, Zeros(count)) == Some(missing)
    decreases count
  {
    if count > 0 {
      assert Zeros(count)[1..] == Zeros(count - 1);
      ZerosAreNotMissing(missing, count - 1);
    }
  }

  /** A packet whose numbers pass the end of the 64-bit space brings nothing that
      is missing, whatever its numbers. */
  lemma WrappedPacketIsNoAnswer(st: ClientState, till: uint64, k: uint64, p: Range)
    requires Syncing(st, till, k) && TWO64 <= p.first + p.count
    ensures ClientStep(st, p).Some? && Syncing(ClientStep(st, p).value, till, k)
  {
    ZerosAreNotMissing(st.missing, p.count);
  }

  /** After the sync, a gap before such a packet is requested: from its wrapped
      end, 65,536 less its count. The client is then rewinding with nothing
      missing, and the next packet that has a message reads the back of an empty
      stack. */
  lemma WrappedGapIsRequested(st: ClientState, till: uint64, p: Range, q: Range)
    requires Synced(st, till) && till < p.first && TWO64 <= p.first + p.count
    requires st.nextExpected != 0 && st.nextExpected != p.first && 0 < q.count
    ensures ClientStep(st, p).Some? && ClientStep(st, p).value.mode == Rewinding
    ensures ClientStep(st, p).value.sent == st.sent + [Request(p.first + p.count - TWO64, 0x1_0000 - p.count)]
    ensures ClientRun(st, [p, q]) == None
  {
    assert [p, q][1..] == [q];
  }

  /** A client whose first packet has number 0 stacks all 64-bit numbers but 0,
      asks for none and keeps waiting. */
  lemma SyncOnZero(count: uint16)
    ensures var r := ClientStep(FRESH, Range(0, count));
            && r.Some? && r.value.mode == Initial && r.value.sent == [] && r.value.nextExpected == 1
            && |r.value.missing| == 0xffff_ffff_ffff_ffff
            && forall i :: 0 <= i < |r.value.missing| ==> r.value.missing[i] == 0xffff_ffff_ffff_ffff - i
  {
    assert [] + SyncStack(0) == SyncStack(0);
  }

  /** The request for the number at the cursor has gone out; if the answer is
      lost it is not repeated: while no packet brings that number, the client
      stays where it is, silent. */
  lemma {:induction false} LostPacketStallsSync(st: ClientState, till: uint64, k: uint64, packets: seq<Range>)
    requires Syncing(st, till, k) && Numbered(packets) && !Received(packets, k)
    ensures ClientRun(st, packets).Some?
    ensures Syncing(ClientRun(st, packets).value, till, k) && ClientRun(st, packets).value.sent == st.sent
    decreases |packets|
  {
    if packets != [] {
      assert !Contains(packets[0], k);
      SyncStep(st, till, k, packets[0]);
      forall i | 0 <= i < |packets| - 1 ensures !Contains(packets[1..][i], k) {
        assert !Contains(packets[i + 1], k);
      }
      LostPacketStallsSync(ClientStep(st, packets[0]).value, till, k, packets[1..]);
    }
  }

  /** Packets that follow each other without gap from one number to another. */
  predicate Contiguous(packets: seq<Range>, k: uint64, till: uint64)
    requires Numbered(packets)
    decreases |packets|
  {
    if packets == [] then k == till
    else packets[0].first == k && 0 < packets[0].count && Contiguous(packets[1..], packets[0].first + packets[0].count, till)
  }

  lemma {:induction false} ContiguousOnlyRises(packets: seq<Range>, k: uint64, till: uint64)
    requires Numbered(packets) && Contiguous(packets, k, till)
    ensures k <= till && (packets != [] ==> k < till)
    decreases |packets|
  {
    if packets != [] {
      ContiguousOnlyRises(packets[1..], packets[0].first + packets[0].count, till);
    }
  }

  /** If the rewinder delivers the gap in order, the sync completes, with one
      request after each packet but the last. */
  lemma {:induction false} DeliveredGapCompletesSync(till: uint64, k: uint64, packets: seq<Range>)
    requires Numbered(packets) && Contiguous(packets, k, till) && k < till
    ensures Cursor(till, k, packets) == Some(till)
    ensures |Requests(till, k, packets)| == |packets| - 1
    decreases |packets|
  {
    var next: uint64 := packets[0].first + packets[0].count;
    ContiguousOnlyRises(packets[1..], next, till);
    if packets[1..] != [] {
      DeliveredGapCompletesSync(till, next, packets[1..]);
    }
  }

  // ---- Whole runs from start-up ----

  /** Requests that start at rising numbers up to `last` and ask for the rest of
      the gap below `till`. */
  ghost predicate RisingRequests(sent: seq<Request>, till: uint64, last: uint64) {
    && (forall i :: 0 <= i < |sent| ==> 0 < sent[i].start <= last && sent[i].start < till)
    && (forall i :: 0 <= i < |sent| && sent[i].start < till ==> sent[i] == CatchUp(till, sent[i].start))
    && (forall i, j :: 0 <= i < j < |sent| ==> sent[i].start < sent[j].start)
  }

  /** What holds of a client in every run from start-up: it waits, syncs or has
      synced, and every request it ever sent ends at the one sync point. */
  ghost predicate Consistent(st: ClientState) {
    && (st.mode == Initial ==> st.missing == [] && st.rewindTill == 0 && st.sent == [])
    && (st.mode == Rewinding ==> st.missing != [] && Syncing(st, st.rewindTill, st.missing[|st.missing| - 1]))
    && (st.mode == Continuous ==> st.missing == [])
    && RisingRequests(st.sent, st.rewindTill, st.lastRequested)
  }

  lemma OneMoreRequest(sent: seq<Request>, till: uint64, k: uint64, k': uint64)
    requires RisingRequests(sent, till, k) && 0 < k <= k' <= till
    ensures RisingRequests(sent + RequestOf(till, k, k'), till, k')
  {
  }

  lemma ConsistentWhileSyncing(st: ClientState, p: Range)
    requires Consistent(st) && st.mode == Rewinding && p.first + p.count < TWO64
    ensures ClientStep(st, p).Some? ==> Consistent(ClientStep(st, p).value)
  {
    var till, k := st.rewindTill, st.missing[|st.missing| - 1];
    SyncStep(st, till, k, p);
    if !Overruns(till, k, p) && Advance(k, p) < till {
      OneMoreRequest(st.sent, till, k, Advance(k, p));
    } else if !Overruns(till, k, p) {
      assert st.sent + RequestOf(till, k, till) == st.sent;
    }
    hide ClientStep, Contains, RisingRequests, RequestOf;
  }

  lemma ConsistentStep(st: ClientState, p: Range)
    requires Consistent(st) && p.first != 0 && p.first + p.count < TWO64
    ensures ClientStep(st, p).Some? ==> Consistent(ClientStep(st, p).value)
  {
    if st.mode == Rewinding {
      ConsistentWhileSyncing(st, p);
    } else if StartsSync(st, p) {
      SyncStarts(st, p);
    } else {
      GapsAreNeverRequested(st, p);
    }
  }

  /** In every run from start-up all requests concern the initial sync: they
      lie below its first live number, start at rising numbers, and a gap in
      the live stream is never among them. */
  lemma {:induction false} EveryRunIsConsistent(st: ClientState, packets: seq<Range>)
    requires Consistent(st) && Numbered(packets)
    ensures ClientRun(st, packets).Some? ==> Consistent(ClientRun(st, packets).value)
    decreases |packets|
  {
    if packets != [] {
      ConsistentStep(st, packets[0]);
      if ClientStep(st, packets[0]).Some? {
        EveryRunIsConsistent(ClientStep(st, packets[0]).value, packets[1..]);
      }
    }
  }

  lemma {:induction false} NeverInitialAgain(st: ClientState, packets: seq<Range>)
    requires st.mode != Initial && Numbered(packets)
    ensures ClientRun(st, packets).Some? ==> ClientRun(st, packets).value.mode != Initial
    decreases |packets|
  {
    if packets != [] && ClientStep(st, packets[0]).Some? {
      NeverInitialAgain(ClientStep(st, packets[0]).value, packets[1..]);
    }
  }

  /** No packet other than number 1 comes first, or right after an empty packet
      at number 1, which makes the client expect number 1 again. */
  predicate Quiet(atStart: bool, packets: seq<Range>)
    decreases |packets|
  {
    packets == [] ||
    (!(atStart && packets[0].first != 1) && Quiet(packets[0] == Range(1, 0), packets[1..]))
  }

  /** A client never syncs exactly in the quiet runs, and then sends nothing,
      whatever gaps the run has. */
  lemma {:induction false} NoSyncIffQuiet(st: ClientState, packets: seq<Range>)
    requires st.mode == Initial && st.rewindTill == 0 && st.missing == [] && Numbered(packets)
    ensures ClientRun(st, packets).Some? && ClientRun(st, packets).value.mode == Initial
       <==> Quiet(st.nextExpected == 1, packets)
    ensures Quiet(st.nextExpected == 1, packets) ==> ClientRun(st, packets).value.sent == st.sent
    decreases |packets|
  {
    if packets != [] {
      var p := packets[0];
      if StartsSync(st, p) {
        SyncStarts(st, p);
        NeverInitialAgain(ClientStep(st, p).value, packets[1..]);
      } else {
        GapsAreNeverRequested(st, p);
        NoSyncIffQuiet(ClientStep(st, p).value, packets[1..]);
      }
    }
  }

  /** Quiet, packet by packet. */
  lemma {:induction false} QuietPacketByPacket(atStart: bool, packets: seq<Range>)
    ensures Quiet(atStart, packets) <==>
            && (atStart && packets != [] ==> packets[0].first == 1)
            && forall i :: 0 < i < |packets| && packets[i - 1] == Range(1, 0) ==> packets[i].first == 1
    decreases |packets|
  {
    if packets != [] {
      var p, rest := packets[0], packets[1..];
      QuietPacketByPacket(p == Range(1, 0), rest);
      if Quiet(p == Range(1, 0), rest) {
        forall i | 0 < i < |packets| && packets[i - 1] == Range(1, 0) ensures packets[i].first == 1 {
          assert packets[i] == rest[i - 1] && (1 < i ==> packets[i - 1] == rest[i - 2]);
        }
      }
    }
  }

  /** What a client that never syncs expects: the end of the last packet. */
  lemma {:induction false} QuietRunExpects(st: ClientState, packets: seq<Range>)
    requires st.mode == Initial && st.rewindTill == 0 && st.missing == [] && Numbered(packets)
    requires Quiet(st.nextExpected == 1, packets)
    ensures ClientRun(st, packets) ==
            Some(if packets == [] then st
                 else st.(nextExpected := packets[|packets| - 1].first + packets[|packets| - 1].count))
    decreases |packets|
  {
    if packets != [] {
      GapsAreNeverRequested(st, packets[0]);
      QuietRunExpects(ClientStep(st, packets[0]).value, packets[1..]);
    }
  }

  /** A client from start-up never syncs exactly if number 1 comes first and
      again right after every empty packet at number 1. It then asks for nothing,
      whatever gaps the run has, and expects the end of the last packet. */
  lemma StartUpRunIsQuietOrSyncs(packets: seq<Range>)
    requires Numbered(packets)
    ensures ClientRun(FRESH, packets).Some? && ClientRun(FRESH, packets).value.mode == Initial
       <==> && (packets != [] ==> packets[0].first == 1)
            && forall i :: 0 < i < |packets| && packets[i - 1] == Range(1, 0) ==> packets[i].first == 1
    ensures ClientRun(FRESH, packets).Some? && ClientRun(FRESH, packets).value.mode == Initial ==>
              var end := if packets == [] then 1 else packets[|packets| - 1].first + packets[|packets| - 1].count;
              ClientRun(FRESH, packets).value == ClientState(Initial, end, [], 0, 0, [])
  {
    hide Quiet, ClientRun;
    NoSyncIffQuiet(FRESH, packets);
    QuietPacketByPacket(true, packets);
    if Quiet(true, packets) {
      QuietRunExpects(FRESH, packets);
    }
  }

  /** A client that has had number 1 with a message, and later a packet at number
      1 that is empty, takes the next packet for the start of the feed. */
  lemma EmptyPacketRestartsSync()
    ensures var r := ClientRun(FRESH, [Range(1, 1), Range(2, 1), Range(1, 0), Range(3, 1)]);
            r.Some? && r.value.mode == Rewinding && r.value.sent == [Request(1, 2)]
  {
    assert [Range(1, 1), Range(2, 1), Range(1, 0), Range(3, 1)][1..] == [Range(2, 1), Range(1, 0), Range(3, 1)];
    assert [Range(2, 1), Range(1, 0), Range(3, 1)][1..] == [Range(1, 0), Range(3, 1)];
    assert [Range(1, 0), Range(3, 1)][1..] == [Range(3, 1)];
    var st := ClientState(Initial, 1, [], 0, 0, []);
    assert ClientRun(FRESH, [Range(1, 1), Range(2, 1), Range(1, 0), Range(3, 1)]) == ClientRun(st, [Range(3, 1)]);
    SyncStarts(st, Range(3, 1));
    assert [Range(3, 1)][1..] == [];
  }

  /** Every run from start-up keeps the invariant. */
  lemma StartUpRunIsConsistent(packets: seq<Range>)
    requires Numbered(packets)
    ensures Consistent(FRESH)
    ensures ClientRun(FRESH, packets).Some? ==> Consistent(ClientRun(FRESH, packets).value)
  {
    EveryRunIsConsistent(FRESH, packets);
  }

  lemma StartExpects(p: Range)
    requires 1 < p.first
    ensures var r := ClientStep(FRESH, p);
            r.Some? && r.value.mode != Initial && r.value.rewindTill == p.first && r.value.nextExpected == 1
  {
    SyncStarts(FRESH, p);
  }

  /** What a late joiner expects after any run: the end of the last packet that
      starts above the number N of its first packet, or still number 1. */
  lemma LateJoinerExpects(p: Range, packets: seq<Range>)
    requires 1 < p.first && ClientRun(FRESH, [p] + packets).Some?
    ensures var next := ClientRun(FRESH, [p] + packets).value;
            && ((forall i :: 0 <= i < |packets| ==> packets[i].first <= p.first) ==> next.nextExpected == 1)
            && forall i :: LastAbove(packets, p.first, i) ==>
                 next.nextExpected == Add64(packets[i].first, packets[i].count)
  {
    assert ([p] + packets)[1..] == packets;
    assert forall q: Range :: EndOf(q) == Add64(q.first, q.count);
    LastEndIs(packets, p.first, 1);
    StartExpects(p);
    hide ClientStep, EndOf;
    ExpectedFollowsLive(ClientStep(FRESH, p).value, packets);
  }

  /** A late joiner whose first packet starts at N syncs exactly when the run
      brings the cursor from 1 to N, has then received all of 1 to N-1, and has
      sent at most N-1 requests. */
  lemma LateJoinerSyncs(p: Range, packets: seq<Range>)
    requires 1 < p.first && Numbered([p] + packets)
    ensures Numbered(packets)
    ensures var r, c := ClientRun(FRESH, [p] + packets), Cursor(p.first, 1, packets);
            && (r.Some? <==> c.Some?)
            && (r.Some? ==>
                  && (r.value.mode == Continuous <==> c.value == p.first)
                  && (r.value.mode == Continuous ==> forall n: uint64 :: 1 <= n < p.first ==> Received(packets, n))
                  && |r.value.sent| <= p.first - 1)
  {
    var all := [p] + packets;
    assert all[1..] == packets;
    forall i | 0 <= i < |packets| ensures 0 < packets[i].first && packets[i].first + packets[i].count < TWO64 {
      assert packets[i] == all[i + 1];
    }
    SyncStarts(FRESH, p);
    var st := ClientStep(FRESH, p).value;
    SyncFollowsCursor(st, p.first, 1, packets);
    RequestsAreBounded(p.first, 1, packets);
    var c := Cursor(p.first, 1, packets);
    if c == Some(p.first) {
      forall n: uint64 | 1 <= n < p.first ensures Received(packets, n) {
        BelowCursorIsReceived(p.first, 1, packets, n);
      }
    }
  }
}
