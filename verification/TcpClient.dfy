/** The receiving half of the TCP client: a fixed buffer that reads fill behind
    the leftover of the previous ones, and the loop that hands out frames. */
module TcpClient {
  import opened Words
  import opened SoupBinFraming

  class TcpClient {
    const buffer: array<byte>
    var dataSize: nat
    ghost var received: bytes        // every byte read so far
    var handled: seq<bytes>          // the frames passed to the message handler

    ghost predicate Sized()
      reads this
    {
      buffer.Length == BUFFER_SIZE && dataSize <= BUFFER_SIZE
    }

    /** Between reads: the frames of everything received have been handled, and
        the buffer holds what is left over. */
    ghost predicate Valid()
      reads this, buffer
    {
      Sized() && handled == Frames(received) && buffer[..dataSize] == Rest(received)
    }

    constructor ()
      ensures Valid() && fresh(buffer) && received == [] && handled == []
    {
      buffer := new byte[BUFFER_SIZE](_ => 0);
      dataSize, received, handled := 0, [], [];
    }

    /** One read behind the data in the buffer. `pending` is what the peer has
        sent and `limit` how much the kernel is willing to return; with no room,
        or nothing to return, the result is 0. */
    method ReadFromSocket(pending: bytes, limit: nat) returns (n: nat)
      requires Sized()
      modifies this`dataSize, this`received, buffer
      ensures Sized()
      ensures n <= |pending| && n <= limit && n <= BUFFER_SIZE - old(dataSize)
      ensures n == limit || n == |pending| || n == BUFFER_SIZE - old(dataSize)
      ensures buffer[..dataSize] == old(buffer[..dataSize]) + pending[..n]
      ensures received == old(received) + pending[..n]
    {
      n := BUFFER_SIZE - dataSize;
      if |pending| < n { n := |pending|; }
      if limit < n { n := limit; }
      ghost var before := buffer[..dataSize];
      forall i | 0 <= i < n {
        buffer[dataSize + i] := pending[i];
      }
      assert buffer[..dataSize] == before;
      assert buffer[dataSize..dataSize + n] == pending[..n];
      JoinSlices(buffer[..], dataSize, dataSize + n);
      dataSize := dataSize + n;
      received := received + pending[..n];
    }

    method ProcessBuffer()
      requires Sized()
      modifies this`dataSize, this`handled, buffer
      ensures Sized()
      ensures handled == old(handled) + Frames(old(buffer[..dataSize]))
      ensures Fitting(Frames(old(buffer[..dataSize])))
      ensures buffer[..dataSize] == Rest(old(buffer[..dataSize]))
    {
      FramesFit(buffer[..dataSize]);
      var offset := HandleFrames();
      ghost var data := buffer[..dataSize];
      if offset > 0 {
        forall i | 0 <= i < dataSize - offset {
          buffer[i] := buffer[offset + i];
        }
        dataSize := dataSize - offset;
      }
      assert buffer[..dataSize] == data[offset..];
    }

    /** Hands out the complete frames in the buffer and tells where they end. */
    method HandleFrames() returns (offset: nat)
      requires Sized()
      modifies this`handled
      ensures offset <= dataSize
      ensures handled == old(handled) + Frames(buffer[..dataSize])
      ensures buffer[offset..dataSize] == Rest(buffer[..dataSize])
    {
      hide Frames, Rest, Load16, FrameSize;
      ghost var all, data := buffer[..], buffer[..dataSize];
      assert data[0..] == data;
      offset := 0;
      while dataSize - offset >= 2
        invariant 0 <= offset <= dataSize && buffer[..] == all
        invariant handled + Frames(data[offset..]) == old(handled) + Frames(data)
        invariant Rest(data[offset..]) == Rest(data)
        decreases dataSize - offset
      {
        NextFrame(data, offset);
        TakeTaken(all, dataSize, offset, offset + 2);
        var messageLength: int := Load16(buffer[offset..offset + 2], 0);
        if dataSize - offset < 2 + messageLength {
          break;
        }
        var length: uint16 := 2 + messageLength;  // the frame is in the buffer, so its length is not truncated
        TakeTaken(all, dataSize, offset, offset + length);
        var frame := buffer[offset..offset + length];
        MoveOn(old(handled) + Frames(data), handled, frame, Frames(data[offset + length..]));
        HandleMessage(frame);
        offset := offset + length;
      }
      TakeTaken(all, dataSize, offset, dataSize);
      assert data[offset..] == data[offset..dataSize];
      NoFrame(data[offset..]);
    }

    /** Hands a frame on; what becomes of it is not part of this model. */
    method HandleMessage(frame: bytes)
      modifies `handled
      ensures handled == old(handled) + [frame]
    {
      handled := handled + [frame];
    }

    /** The read loop, for any stream and any choice of read sizes. It ends when
        a stop is requested (all limits used up) or a read returns nothing.
        Each read takes as much as its limit, the stream and the room allow.
        What has been handled depends on how many bytes were read, not on how
        they were split, and with willing reads the loop gets exactly as far as
        the buffer allows. */
    method StartRead(stream: bytes, limits: seq<nat>) returns (steps: nat, taken: nat)
      requires Valid() && received == []
      modifies this, buffer
      ensures Valid()
      ensures steps <= |limits| && steps <= taken <= Reach(stream) && received == stream[..taken]
      ensures taken == TakenBy(stream, 0, limits)
      ensures handled == Frames(stream[..taken]) && Flatten(handled) + buffer[..dataSize] == stream[..taken]
      ensures steps < |limits| && 0 < limits[steps] ==> taken == Reach(stream)
      ensures taken == |stream| ==> handled == Frames(stream)
    {
      hide Frames, Rest, Reach, Flatten, TakenBy, ReadSize;
      steps, taken := 0, 0;
      assert limits[0..] == limits;
      while steps < |limits|
        invariant Valid() && steps <= |limits| && steps <= taken <= Reach(stream) && received == stream[..taken]
        invariant TakenBy(stream, taken, limits[steps..]) == TakenBy(stream, 0, limits)
      {
        RoomUntilReach(stream, taken);
        TakenByOneMore(stream, taken, limits, steps);
        ghost var room := BUFFER_SIZE - dataSize;
        var n := ReadFromSocket(stream[taken..], limits[steps]);
        ReadingOn(stream, taken, n);
        ReadSizeIs(stream, taken, limits[steps], room, n);
        if n == 0 {
          break;
        }
        StaysWithinReach(stream, taken, n);
        taken := taken + n;
        ProcessBuffer();
        steps := steps + 1;
      }
      assert steps == |limits| ==> limits[steps..] == [];
      TakenByNone(stream, taken);
      FramesAndRest(stream[..taken]);
      assert stream[..|stream|] == stream;
    }
  }

  /** Handing out the next frame moves it from the frames to come to the frames
      handed out. */
  lemma MoveOn(total: seq<bytes>, handled: seq<bytes>, frame: bytes, later: seq<bytes>)
    requires handled + ([frame] + later) == total
    ensures (handled + [frame]) + later == total
  {
  }

  /** Two runs over the same stream, each with its own willing reads, hand out
      the same frames once neither can read on. */
  method ChunkingDoesNotMatter(stream: bytes, a: seq<nat>, b: seq<nat>) returns (x: seq<bytes>, y: seq<bytes>)
    requires |stream| < |a| && |stream| < |b|
    requires (forall i :: 0 <= i < |a| ==> 0 < a[i]) && (forall i :: 0 <= i < |b| ==> 0 < b[i])
    ensures x == y == Frames(stream[..Reach(stream)])
    ensures x == Frames(stream) <==> Fitting(Frames(stream))
  {
    x := ReadAll(stream, a);
    y := ReadAll(stream, b);
    AllFramesGetThroughIffFitting(stream);
  }

  method ReadAll(stream: bytes, limits: seq<nat>) returns (frames: seq<bytes>)
    requires |stream| < |limits| && forall i :: 0 <= i < |limits| ==> 0 < limits[i]
    ensures frames == Frames(stream[..Reach(stream)])
  {
    var client := new TcpClient();
    var steps, taken := client.StartRead(stream, limits);
    frames := client.handled;
  }
}
