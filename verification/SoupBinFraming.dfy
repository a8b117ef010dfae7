/** Logical packets in a SoupBinTCP byte stream ("SoupBinTCP Logical Packets"):
    a 16-bit length, then that many bytes. */
module SoupBinFraming {
  import opened Words

  const BUFFER_SIZE := 4096

  function FrameSize(s: bytes): (n: nat)
    requires 2 <= |s|
    ensures 2 <= n < 2 + TWO16
  {
    2 + Load16(s, 0)
  }

  /** The length of a frame is in its first two bytes, the more significant one
      first, and does not count these two. */
  lemma FrameSizeByBytes(s: bytes)
    requires 2 <= |s|
    ensures FrameSize(s) == 2 + 256 * (s[0] as int) + (s[1] as int)
  {
    Load16IsBigEndian(s, 0);
  }

  predicate HasFrame(s: bytes) {
    2 <= |s| && FrameSize(s) <= |s|
  }

  /** The complete frames at the front of a byte string. */
  function Frames(s: bytes): seq<bytes>
    decreases |s|
  {
    if HasFrame(s) then [s[..FrameSize(s)]] + Frames(s[FrameSize(s)..]) else []
  }

  /** What follows the last complete frame. */
  function Rest(s: bytes): (r: bytes)
    ensures |r| <= |s| && !HasFrame(r)
    decreases |s|
  {
    if HasFrame(s) then Rest(s[FrameSize(s)..]) else s
  }

  lemma FrameSizeAt(s: bytes, at: nat)
    requires at + 2 <= |s|
    ensures FrameSize(s[at..]) == 2 + Load16(s[at..at + 2], 0)
  {
    assert s[at..][0..2] == s[at..at + 2][0..2];
  }

  lemma FirstFrame(s: bytes)
    requires HasFrame(s)
    ensures Frames(s) == [s[..FrameSize(s)]] + Frames(s[FrameSize(s)..]) && Rest(s) == Rest(s[FrameSize(s)..])
  {
  }

  /** The frame at an offset, if it is complete, is the next one to hand out. */
  lemma NextFrame(s: bytes, at: nat)
    requires at + 2 <= |s|
    ensures FrameSize(s[at..]) == 2 + Load16(s[at..at + 2], 0)
    ensures HasFrame(s[at..]) ==>
              var end := at + FrameSize(s[at..]);
              && Frames(s[at..]) == [s[at..end]] + Frames(s[end..])
              && Rest(s[at..]) == Rest(s[end..])
  {
    FrameSizeAt(s, at);
    hide Frames, Rest, FrameSize, Load16;
    if HasFrame(s[at..]) {
      FirstFrame(s[at..]);
      DropDrop(s, at, FrameSize(s[at..]));
    }
  }

  lemma DropDrop(s: bytes, at: nat, n: nat)
    requires at + n <= |s|
    ensures s[at..][..n] == s[at..at + n] && s[at..][n..] == s[at + n..]
  {
  }

  lemma NoFrame(s: bytes)
    requires !HasFrame(s)
    ensures Frames(s) == [] && Rest(s) == s
  {
  }

  function Flatten(frames: seq<bytes>): bytes {
    if frames == [] then [] else frames[0] + Flatten(frames[1..])
  }

  lemma FlattenFirst(first: bytes, later: seq<bytes>)
    ensures Flatten([]) == [] && Flatten([first] + later) == first + Flatten(later)
  {
    assert ([first] + later)[1..] == later;
  }

  /** Nothing is lost: the frames and the rest make up the bytes. */
  lemma {:induction false} FramesAndRest(s: bytes)
    ensures Flatten(Frames(s)) + Rest(s) == s
    decreases |s|
  {
    hide Flatten, Frames, Rest, FrameSize, Load16;
    if HasFrame(s) {
      var n := FrameSize(s);
      FirstFrame(s);
      FramesAndRest(s[n..]);
      FlattenFirst(s[..n], Frames(s[n..]));
      Reassemble(s, n, Flatten(Frames(s[n..])), Rest(s[n..]));
    } else {
      NoFrame(s);
      FlattenFirst([], []);
      assert [] + s == s;
    }
  }

  lemma Reassemble(s: bytes, n: nat, later: bytes, rest: bytes)
    requires n <= |s| && later + rest == s[n..]
    ensures (s[..n] + later) + rest == s
  {
    assert (s[..n] + later) + rest == s[..n] + (later + rest);
  }

  /** Later bytes do not change the length of a frame that has begun. */
  lemma FrameSizeOfPrefix(s: bytes, c: bytes)
    requires 2 <= |s|
    ensures FrameSize(s + c) == FrameSize(s)
  {
    assert (s + c)[0..2] == s[0..2];
  }

  /** Framing may stop after any byte: framing the rest together with what comes
      next finds the remaining frames of the whole. */
  lemma {:induction false} FramingResumes(s: bytes, c: bytes)
    ensures Frames(s + c) == Frames(s) + Frames(Rest(s) + c)
    ensures Rest(s + c) == Rest(Rest(s) + c)
    decreases |s|
  {
    hide Load16;
    if HasFrame(s) {
      var n := FrameSize(s);
      FrameSizeOfPrefix(s, c);
      assert (s + c)[..n] == s[..n] && (s + c)[n..] == s[n..] + c;
      FramingResumes(s[n..], c);
      var first, later, joined := [s[..n]], Frames(s[n..]), Frames(Rest(s) + c);
      assert first + (later + joined) == (first + later) + joined;
    }
  }

  // ---- The sender's side ----

  predicate ShortEnough(payloads: seq<bytes>) {
    forall i :: 0 <= i < |payloads| ==> |payloads[i]| < TWO16
  }

  function LogicalPackets(payloads: seq<bytes>): (r: seq<bytes>)
    requires ShortEnough(payloads)
    ensures |r| == |payloads|
  {
    if payloads == [] then [] else [Block(payloads[0])] + LogicalPackets(payloads[1..])
  }

  /** The frames of a stream of logical packets, cut off anywhere in the next
      one, are exactly those packets, and the rest is the cut-off piece. */
  lemma {:induction false} SentPacketsAreFramed(payloads: seq<bytes>, cut: bytes)
    requires ShortEnough(payloads) && !HasFrame(cut)
    ensures Frames(Flatten(LogicalPackets(payloads)) + cut) == LogicalPackets(payloads)
    ensures Rest(Flatten(LogicalPackets(payloads)) + cut) == cut
    decreases |payloads|
  {
    if payloads == [] {
      assert Flatten(LogicalPackets(payloads)) + cut == cut;
    } else {
      var b := Block(payloads[0]);
      var later := Flatten(LogicalPackets(payloads[1..])) + cut;
      var s := Flatten(LogicalPackets(payloads)) + cut;
      assert LogicalPackets(payloads)[1..] == LogicalPackets(payloads[1..]);
      assert s == b + later;
      PowValues();
      assert b[0..2] == ToBytes(2, |payloads[0]|);
      LoadStored(b, 0, 2, |payloads[0]|);
      FrameSizeOfPrefix(b, later);
      assert s[..|b|] == b && s[|b|..] == later;
      SentPacketsAreFramed(payloads[1..], cut);
    }
  }

  // ---- How far a receiver with a fixed buffer can get ----

  /** The number of bytes of a stream that fit through the buffer: all of them,
      or, at a frame larger than the buffer, one buffer full of that frame. */
  function Reach(s: bytes): (n: nat)
    ensures n <= |s|
    decreases |s|
  {
    if |s| < 2 then |s|
    else if BUFFER_SIZE < FrameSize(s) then (if |s| < BUFFER_SIZE then |s| else BUFFER_SIZE)
    else if |s| < FrameSize(s) then |s|
    else FrameSize(s) + Reach(s[FrameSize(s)..])
  }

  /** Short of that point the leftover is shorter than the buffer, so a read has
      room; at that point, if bytes remain, the leftover fills the buffer. */
  lemma {:induction false} RoomUntilReach(s: bytes, p: nat)
    requires p <= Reach(s)
    ensures |Rest(s[..p])| <= BUFFER_SIZE
    ensures p < Reach(s) ==> |Rest(s[..p])| < BUFFER_SIZE
    ensures p == Reach(s) < |s| ==> |Rest(s[..p])| == BUFFER_SIZE
    decreases |s|
  {
    if p < 2 {
      assert Rest(s[..p]) == s[..p];
    } else {
      assert s[..p] + s[p..] == s;
      FrameSizeOfPrefix(s[..p], s[p..]);
      var n := FrameSize(s);
      if n <= BUFFER_SIZE && n <= p {
        assert s[..p][n..] == s[n..][..p - n];
        RoomUntilReach(s[n..], p - n);
      } else {
        assert Rest(s[..p]) == s[..p];
      }
    }
  }

  predicate Fitting(frames: seq<bytes>) {
    forall i :: 0 <= i < |frames| ==> |frames[i]| <= BUFFER_SIZE
  }

  /** The frames that get through are all complete frames of the stream exactly
      when none of these is larger than the buffer. */
  lemma {:induction false} AllFramesGetThroughIffFitting(s: bytes)
    ensures Frames(s[..Reach(s)]) == Frames(s) <==> Fitting(Frames(s))
    decreases |s|
  {
    var r := Reach(s);
    assert s[..r] + s[r..] == s;
    if HasFrame(s) {
      var n := FrameSize(s);
      if n <= BUFFER_SIZE {
        FrameSizeOfPrefix(s[..r], s[r..]);
        assert s[..r][..n] == s[..n] && s[..r][n..] == s[n..][..r - n];
        AllFramesGetThroughIffFitting(s[n..]);
        assert Frames(s)[1..] == Frames(s[n..]);
        assert Frames(s[..r])[1..] == Frames(s[n..][..r - n]);
        FittingTail(Frames(s));
      } else {
        FrameSizeOfPrefix(s[..r], s[r..]);
        assert Frames(s[..r]) == [];
        assert |Frames(s)[0]| == n;
      }
    } else {
      if 2 <= r {
        FrameSizeOfPrefix(s[..r], s[r..]);
      }
      assert !HasFrame(s[..r]);
    }
  }

  /** What is framed in the buffer is no longer than the buffer. */
  lemma {:induction false} FramesFit(s: bytes)
    requires |s| <= BUFFER_SIZE
    ensures Fitting(Frames(s))
    decreases |s|
  {
    if HasFrame(s) {
      FramesFit(s[FrameSize(s)..]);
      FittingTail(Frames(s));
    }
  }

  /** A complete packet of 4095 bytes, 4097 with its length, is never handed out:
      the buffer takes 4096 bytes of it and no more. */
  lemma OversizedPacketIsStuck(payload: bytes)
    requires |payload| == 4095
    ensures Frames(Block(payload)) == [Block(payload)]
    ensures Reach(Block(payload)) == 4096 < |Block(payload)|
    ensures Frames(Block(payload)[..Reach(Block(payload))]) == []
  {
    var s := Block(payload);
    PowValues();
    assert s[0..2] == ToBytes(2, 4095);
    LoadStored(s, 0, 2, 4095);
    assert s[..4097] == s && s[4097..] == [];
    assert s[..4096][0..2] == s[0..2];
  }

  lemma FittingTail(frames: seq<bytes>)
    requires frames != []
    ensures Fitting(frames) <==> |frames[0]| <= BUFFER_SIZE && Fitting(frames[1..])
  {
    if |frames[0]| <= BUFFER_SIZE && Fitting(frames[1..]) {
      forall i | 0 <= i < |frames| ensures |frames[i]| <= BUFFER_SIZE {
        if 0 < i { assert frames[i] == frames[1..][i - 1]; }
      }
    }
  }

  // ---- Reading on ----

  /** Reading n more bytes of a stream frames them together with the leftover. */
  lemma ReadingOn(s: bytes, taken: nat, n: nat)
    requires taken + n <= |s|
    ensures var chunk, left := s[taken..][..n], Rest(s[..taken]);
            && s[..taken + n] == s[..taken] + chunk
            && Frames(s[..taken + n]) == Frames(s[..taken]) + Frames(left + chunk)
            && Rest(s[..taken + n]) == Rest(left + chunk)
  {
    var chunk := s[taken..][..n];
    assert s[..taken] + chunk == s[..taken + n];
    FramingResumes(s[..taken], chunk);
  }

  /** What one read takes: as much as the limit, the stream and the room behind
      the leftover allow. */
  function ReadSize(s: bytes, taken: nat, limit: nat): (n: nat)
    requires taken <= |s|
    ensures taken + n <= |s| && n <= limit
  {
    var left, room := |s| - taken, 4096 - |Rest(s[..taken])|;
    if room <= 0 then 0
    else if limit <= left && limit <= room then limit
    else if left <= room then left
    else room
  }

  /** What a series of reads has taken when one of them takes nothing, or the
      limits are used up. */
  function TakenBy(s: bytes, taken: nat, limits: seq<nat>): (n: nat)
    requires taken <= |s|
    ensures taken <= n <= |s|
    decreases |limits|
  {
    if limits == [] || ReadSize(s, taken, limits[0]) == 0 then taken
    else TakenBy(s, taken + ReadSize(s, taken, limits[0]), limits[1..])
  }

  lemma TakenByOneMore(s: bytes, taken: nat, limits: seq<nat>, steps: nat)
    requires taken <= |s| && steps < |limits|
    ensures var n := ReadSize(s, taken, limits[steps]);
            TakenBy(s, taken, limits[steps..]) ==
            if n == 0 then taken else TakenBy(s, taken + n, limits[steps + 1..])
  {
    assert limits[steps..][0] == limits[steps] && limits[steps..][1..] == limits[steps + 1..];
  }

  lemma TakenByNone(s: bytes, taken: nat)
    requires taken <= |s|
    ensures TakenBy(s, taken, []) == taken
  {
  }

  lemma ReadSizeIs(s: bytes, taken: nat, limit: nat, room: nat, n: nat)
    requires taken <= |s| && room == 4096 - |Rest(s[..taken])|
    requires n <= limit && n <= |s| - taken && n <= room && (n == limit || n == |s| - taken || n == room)
    ensures n == ReadSize(s, taken, limit)
  {
  }

  /** A stream that fits the buffer is taken by a single willing read. */
  lemma OneReadTakesSmallStream(s: bytes, limit: nat)
    requires |s| <= 4096 && |s| <= limit
    ensures TakenBy(s, 0, [limit]) == |s|
  {
    assert s[..0] == [] && |Rest([])| == 0;
    assert [limit][1..] == [];
  }

  /** A read into the room behind the leftover cannot pass the reach. */
  lemma StaysWithinReach(s: bytes, p: nat, n: nat)
    requires p <= Reach(s) && p + n <= |s|
    requires |Rest(s[..p])| + n <= BUFFER_SIZE
    ensures p + n <= Reach(s)
  {
    var m: nat := if Reach(s) < p + n then Reach(s) - p else n;
    RoomUntilReach(s, p + m);
    ReadingOn(s, p, m);
    hide Rest, Reach;
    assert |Rest(s[..p + m])| <= |Rest(s[..p])| + m;
  }

  lemma TakeTaken(s: bytes, n: nat, a: nat, b: nat)
    requires a <= b <= n <= |s|
    ensures s[..n][a..b] == s[a..b]
  {
  }

  lemma JoinSlices(s: bytes, a: nat, b: nat)
    requires a <= b <= |s|
    ensures s[..b] == s[..a] + s[a..b]
  {
  }
}
