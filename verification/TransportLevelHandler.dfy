/** The receiving and sending end over a byte stream. */
module Transport {
  import opened Sequences
  import opened Bytes
  import opened CircularBuffers
  import opened Deframer
  import opened FrameFormat
  import opened HaierFrames
  import opened ParserCursor
  import opened Reception
  import opened Resync
  import opened Rings
  import opened Stuffing
  import opened WireBuffer

  /** The user's stream: what has arrived and not been read, and what has been written. */
  class ProtocolStream {
    var arrived: seq<byte>
    var sent: seq<byte>

    constructor ()
      ensures arrived == [] && sent == []
    {
      arrived, sent := [], [];
    }

    function Available(): nat
      reads this
    {
      |arrived|
    }

    /** Reads min(len, available) bytes to dst from index at. */
    method ReadArray(dst: array<byte>, at: nat, len: nat) returns (n: nat)
      requires at + Min(len, |arrived|) <= dst.Length
      modifies this`arrived, dst
      ensures n == Min(len, |old(arrived)|)
      ensures arrived == old(arrived)[n..]
      ensures dst[..] == old(dst[..at]) + old(arrived)[..n] + old(dst[at + n..])
    {
      n := Min(len, |arrived|);
      for i := 0 to n
        invariant arrived == old(arrived)
        invariant dst[..at] == old(dst[..at]) && dst[at..at + i] == arrived[..i]
        invariant dst[at + n..] == old(dst[at + n..])
      {
        dst[at + i] := arrived[i];
      }
      arrived := arrived[n..];
      assert dst[..] == dst[..at] + dst[at..at + n] + dst[at + n..];
    }

    method WriteArray(src: array<byte>, len: nat)
      requires len <= src.Length
      modifies this`sent
      ensures sent == old(sent) + src[..len]
    {
      sent := sent + src[..len];
    }
  }

  /** Copies a byte unless it follows a separator; a byte that does must be the escape byte. */
  method UnstuffByte(b: byte, afterSeparator: bool, into: array<byte>, hPos: nat, ghost before: seq<byte>, ghost out: seq<byte>)
    returns (ok: bool, next: nat)
    requires hPos <= into.Length && into[..hPos] == before + out && (!afterSeparator ==> hPos < into.Length)
    modifies into
    ensures ok == (afterSeparator ==> b == SEPARATOR_POST_BYTE)
    ensures next == |before| + |Copied(out, b, afterSeparator)| <= into.Length
    ensures into[..next] == before + Copied(out, b, afterSeparator)
  {
    ok, next := true, hPos;
    if !afterSeparator {
      into[hPos] := b;
      next := hPos + 1;
      ConcatAssociative(before, out, [b]);
      assert into[..next] == into[..hPos] + [into[hPos]];
    } else if b != SEPARATOR_POST_BYTE {
      ok := false;
    }
  }

  class TransportLevelHandler {
    const stream: ProtocolStream
    const buffer: CircularBuffer<byte>
    const currentFrame: HaierFrame
    var pos: nat
    var sepCount: nat
    var frameStartFound: bool
    var incomingQueue: seq<Frame>

    /** What loops have read since the last overflow, if there has been one, and all frames parsed from it. */
    ghost var chunks: seq<seq<byte>>
    ghost var parsed: seq<Frame>
    /** The bytes behind the cursor are the separators they are taken for; a loss in the middle of a hunt ends that. */
    ghost var exact: bool

    /** The representation is sound; nothing is said about the cursor. */
    ghost predicate Sound()
      reads this`frameStartFound, buffer, currentFrame
    {
      && buffer.Valid() && currentFrame.Valid() && buffer.capacity >= CIRCULAR_BUFFER_MINIMUM_SIZE
      && currentFrame.status != FRAME_COMPLETE
      && (!frameStartFound ==> currentFrame.IsEmpty())
      && (currentFrame.status == FRAME_EMPTY ==> currentFrame.IsEmpty())
    }

    ghost function StageOf(): Stage
      reads this`frameStartFound, currentFrame
    {
      if !frameStartFound then Hunting
      else if currentFrame.status == FRAME_EMPTY then Started
      else InBody(currentFrame.HeadOf())
    }

    /** The parser state in the sense of Deframer. */
    ghost function StateOf(): State
      requires buffer.Valid()
      reads this`frameStartFound, buffer, buffer.buffer, currentFrame
    {
      State(ModeIn(StageOf(), buffer.Contents()), buffer.Contents())
    }

    /** The representation is sound and the cursor, with drop bytes to be discarded, is in step with the bytes. */
    ghost predicate InStep(drop: nat)
      reads this`frameStartFound, this`pos, this`sepCount, this`exact, buffer, buffer.buffer, currentFrame
    {
      Sound() && CursorOk(StageOf(), exact, buffer.Contents(), drop, pos, sepCount)
    }

    ghost predicate Valid()
      reads this`frameStartFound, this`pos, this`sepCount, this`exact, buffer, buffer.buffer, currentFrame
    {
      InStep(0)
    }

    /** The frames parsed are those of the chunks read, and there is nothing more to parse. */
    ghost predicate CaughtUp()
      requires buffer.Valid()
      reads this`chunks, this`parsed, this`frameStartFound, buffer, buffer.buffer, currentFrame
    {
      Settles(StateOf(), chunks, parsed)
    }

    constructor (stream: ProtocolStream, bufferSize: nat)
      ensures Valid() && CaughtUp() && chunks == [] && this.stream == stream
      ensures fresh(buffer) && fresh(buffer.buffer) && fresh(currentFrame)
      ensures StateOf() == State(Hunt, []) && exact && incomingQueue == []
      ensures buffer.capacity == if bufferSize < 128 then 128 else bufferSize
    {
      this.stream := stream;
      buffer := new CircularBuffer<byte>(bufferSize);
      currentFrame := new HaierFrame();
      pos, sepCount, frameStartFound, incomingQueue, exact := 0, 0, false, [], true;
      chunks, parsed := [], [];
      new;
      SettlesIff(State(Hunt, []), [], []);
    }

    // ----- parsing -----

    /** The held byte at an index; s names the held bytes for the callers. */
    method ByteAt(index: nat, ghost s: seq<byte>) returns (b: byte)
      requires buffer.Valid() && buffer.Contents() == s && index < |s|
      ensures b == s[index]
    {
      b := buffer.At(index);
    }

    method FollowsSeparator(index: nat, start: nat, ghost s: seq<byte>) returns (after: bool)
      requires buffer.Valid() && buffer.Contents() == s && start <= index < |s|
      ensures after == (index > start && s[index - 1] == SEPARATOR_BYTE)
    {
      after := index != start && buffer.At(index - 1) == SEPARATOR_BYTE;
    }

    /** Forgets the frame begun and hunts from the first held byte. */
    method Restart()
      requires buffer.Valid() && buffer.capacity >= CIRCULAR_BUFFER_MINIMUM_SIZE
      modifies this`pos, this`sepCount, this`frameStartFound, this`exact, currentFrame
      ensures InStep(0) && StageOf() == Hunting && pos == 0 && exact
    {
      currentFrame.Reset();
      pos, sepCount, frameStartFound, exact := 0, 0, false, true;
    }

    method Discard(size: nat)
      requires buffer.Valid() && size <= |buffer.Contents()|
      modifies buffer`head, buffer`isEmpty
      ensures buffer.Valid() && buffer.Contents() == old(buffer.Contents())[size..]
    {
      var _ := buffer.Drop(size);
    }

    /** Discards the oldest bytes; the cursor stays on its byte. */
    method DropHeld(size: nat)
      requires buffer.Valid() && size <= pos && size <= |buffer.Contents()|
      modifies this`pos, buffer`head, buffer`isEmpty
      ensures buffer.Valid() && buffer.Contents() == old(buffer.Contents())[size..] && pos == old(pos) - size
    {
      pos := pos - size;
      Discard(size);
    }

    /** A frame starts after the discardable bytes, or seems to. */
    method StartFound(drop: nat)
      requires InStep(drop) && !frameStartFound && pos < |buffer.Contents()|
      requires buffer.Contents()[pos] != SEPARATOR_BYTE && pos - drop == FRAME_SEPARATORS_COUNT
      modifies this`pos, this`frameStartFound, buffer`head, buffer`isEmpty
      ensures Valid() && StageOf() == Started && pos == old(pos) - drop + 1
      ensures buffer.Contents() == old(buffer.Contents())[drop..]
      ensures Run(StateOf()) == old(Run(State(Hunt, buffer.Contents()[drop..])))
    {
      HuntFound(exact, buffer.Contents(), drop, pos);
      frameStartFound := true;
      if drop > 0 {
        DropHeld(drop);
      }
      pos := pos + 1;
    }

    /** A separator extends the run of separators, of which the last two are kept. */
    method HuntOnSeparator(bytesToDrop: nat) returns (drop: nat)
      requires InStep(bytesToDrop) && !frameStartFound && pos < |buffer.Contents()| && buffer.Contents()[pos] == SEPARATOR_BYTE
      modifies this`pos
      ensures InStep(drop) && pos == old(pos) + 1
      ensures Run(State(Hunt, buffer.Contents()[drop..])) == old(Run(State(Hunt, buffer.Contents()[bytesToDrop..])))
    {
      drop := bytesToDrop;
      if pos + 1 - drop > FRAME_SEPARATORS_COUNT {
        drop := pos + 1 - FRAME_SEPARATORS_COUNT;
      }
      HuntSeparator(exact, buffer.Contents(), bytesToDrop, pos, drop);
      pos := pos + 1;
    }

    /** Any other byte that starts no frame ends it. */
    method HuntOnOther(bytesToDrop: nat) returns (drop: nat)
      requires InStep(bytesToDrop) && !frameStartFound && pos < |buffer.Contents()| && buffer.Contents()[pos] != SEPARATOR_BYTE
      requires pos - bytesToDrop < FRAME_SEPARATORS_COUNT
      modifies this`pos, this`exact
      ensures InStep(drop) && pos == old(pos) + 1 && exact
      ensures Run(State(Hunt, buffer.Contents()[drop..])) == old(Run(State(Hunt, buffer.Contents()[bytesToDrop..])))
    {
      HuntOther(exact, buffer.Contents(), bytesToDrop, pos);
      drop := pos + 1;
      pos := pos + 1;
      exact := true;
    }

    /** One byte while hunting. */
    method HuntByte(bytesToDrop: nat) returns (drop: nat)
      requires InStep(bytesToDrop) && !frameStartFound && pos < |buffer.Contents()|
      modifies this`pos, this`frameStartFound, this`exact, buffer`head, buffer`isEmpty
      ensures InStep(drop) && currentFrame.status == FRAME_EMPTY && (old(exact) ==> exact)
      ensures Run(Remaining(drop)) == old(Run(State(Hunt, buffer.Contents()[bytesToDrop..])))
      ensures |buffer.Contents()| <= old(|buffer.Contents()|)
      ensures |buffer.Contents()| - pos < old(|buffer.Contents()| - pos)
    {
      var b := ByteAt(pos, buffer.Contents());
      if b == SEPARATOR_BYTE {
        drop := HuntOnSeparator(bytesToDrop);
      } else if pos - bytesToDrop == FRAME_SEPARATORS_COUNT {
        StartFound(bytesToDrop);
        drop := 0;
        assert buffer.Contents()[0..] == buffer.Contents();
      } else {
        drop := HuntOnOther(bytesToDrop);
      }
    }

    /** Un-stuffs the held bytes from start up to end, as far as the first that should be an escape byte and is not. */
    method UnstuffBlock(start: nat, end: nat, into: array<byte>, at: nat, ghost s: seq<byte>, ghost before: seq<byte>)
      returns (clean: bool, bPos: nat, hPos: nat)
      requires buffer.Valid() && buffer.Contents() == s
      requires into != buffer.buffer && start < end <= |s| && s[end - 1] != SEPARATOR_BYTE
      requires at + Counted(s[start..end]) == into.Length && into[..at] == before
      modifies into
      ensures var block := s[start..end];
              && clean == (FirstBad(block, 0) == |block|)
              && bPos == start + FirstBad(block, 0)
              && hPos <= into.Length && (clean ==> into[..hPos] == before + Strip(block))
    {
      ghost var n, block, out := into.Length - at, s[start..end], [];
      bPos, hPos, clean := start, at, true;
      while bPos < end
        invariant start <= bPos <= end && buffer.Contents() == s
        invariant Unstuffed(block, bPos - start, out) && |out| <= n
        invariant hPos == at + |out| && into[..hPos] == before + out
      {
        clean, hPos, out := UnstuffNextByte(bPos, start, into, hPos, s, block, before, out);
        if !clean {
          return;
        }
        bPos := bPos + 1;
      }
      UnstuffDone(block, out, n);
    }

    /** The body of both un-stuffing loops. */
    method UnstuffNextByte(bPos: nat, start: nat, into: array<byte>, hPos: nat, ghost s: seq<byte>, ghost block: seq<byte>,
                           ghost before: seq<byte>, ghost out: seq<byte>)
      returns (ok: bool, next: nat, ghost out': seq<byte>)
      requires buffer.Valid() && buffer.Contents() == s && into != buffer.buffer
      requires start <= bPos < start + |block| <= |s| && block == s[start..start + |block|]
      requires block[|block| - 1] != SEPARATOR_BYTE && |before| + Counted(block) == into.Length
      requires Unstuffed(block, bPos - start, out) && hPos == |before| + |out| <= into.Length && into[..hPos] == before + out
      modifies into
      ensures next <= into.Length
      ensures if ok then Unstuffed(block, bPos + 1 - start, out') && next == |before| + |out'| && into[..next] == before + out'
              else FirstBad(block, 0) == bPos - start && bPos < start + |block|
    {
      ghost var k := bPos - start;
      UnstuffNext(block, k, out, Counted(block));
      var b := ByteAt(bPos, s);
      var afterSeparator := FollowsSeparator(bPos, start, s);
      assert b == block[k] && (k > 0 ==> s[bPos - 1] == block[k - 1]);
      out' := Copied(out, b, afterSeparator);
      ok, next := UnstuffByte(b, afterSeparator, into, hPos, before, out);
    }

    method CountSeparator(b: byte)
      modifies this`sepCount
      ensures sepCount == old(sepCount) + if b == SEPARATOR_BYTE then 1 else 0
    {
      if b == SEPARATOR_BYTE {
        sepCount := sepCount + 1;
      }
    }

    /** One byte of a header, or of what a false start has made look like one. */
    method HeaderByte()
      requires Valid() && StageOf() == Started && pos < |buffer.Contents()|
      modifies this`pos, this`sepCount, this`frameStartFound, this`exact, buffer`head, buffer`isEmpty, currentFrame
      ensures Valid() && Run(StateOf()) == old(Run(StateOf())) && (old(exact) ==> exact)
      ensures |buffer.Contents()| < old(|buffer.Contents()|)
              || (|buffer.Contents()| == old(|buffer.Contents()|) && StageOf() == Started && pos == old(pos) + 1)
    {
      ghost var s, before := buffer.Contents(), sepCount;
      var b := ByteAt(pos, s);
      CountSeparator(b);
      HeaderNext(exact, s, pos, before, sepCount);
      if pos + 1 - sepCount == FRAME_HEADER_SIZE {
        HeaderDecision(s, pos);
        FinishHeader();
      } else {
        pos := pos + 1;
      }
    }

    /** After an escape error everything before the stray separator goes and the hunt starts there. */
    method Rewind(size: nat)
      requires buffer.Valid() && buffer.capacity >= CIRCULAR_BUFFER_MINIMUM_SIZE && size <= |buffer.Contents()|
      modifies this`pos, this`sepCount, this`frameStartFound, this`exact, buffer`head, buffer`isEmpty, currentFrame
      ensures Valid() && StateOf() == State(Hunt, old(buffer.Contents())[size..]) && StageOf() == Hunting && exact
    {
      Discard(size);
      Restart();
    }

    /** The header is complete: decide on it. */
    method FinishHeader()
      requires Sound() && StageOf() == Started && HeaderComplete(buffer.Contents(), pos)
      modifies this`pos, this`sepCount, this`frameStartFound, this`exact, buffer`head, buffer`isEmpty, currentFrame
      ensures Valid() && StateOf() == old(HeaderOutcome(buffer.Contents(), pos)) && exact
    {
      var clean, bPos, header := UnstuffHeader();
      if !clean {
        Rewind(bPos - 1);
      } else {
        ConsumeHeader(bPos, header);
      }
    }

    method ConsumeHeader(size: nat, header: seq<byte>)
      requires Sound() && StageOf() == Started && size <= |buffer.Contents()| && |header| == FRAME_HEADER_SIZE
      modifies this`pos, this`sepCount, this`frameStartFound, this`exact, buffer`head, buffer`isEmpty, currentFrame
      ensures Valid() && exact
      ensures StateOf() == State(ModeIn(AfterHeader(header), []), old(buffer.Contents())[size..])
    {
      DropHeader(size);
      ghost var rest := buffer.Contents();
      TakeHeader(header);
      exact := true;
      CursorFresh(AfterHeader(header), rest);
    }

    method DropHeader(size: nat)
      requires Sound() && StageOf() == Started && size <= |buffer.Contents()|
      modifies this`pos, this`sepCount, buffer`head, buffer`isEmpty
      ensures Sound() && StageOf() == Started && pos == sepCount == 0
      ensures buffer.Contents() == old(buffer.Contents())[size..]
    {
      Discard(size);
      pos, sepCount := 0, 0;
    }

    method UnstuffHeader() returns (clean: bool, bPos: nat, header: seq<byte>)
      requires buffer.Valid() && HeaderComplete(buffer.Contents(), pos)
      ensures 0 < bPos <= |buffer.Contents()|
      ensures !clean ==> old(HeaderOutcome(buffer.Contents(), pos)) == State(Hunt, buffer.Contents()[bPos - 1..])
      ensures clean ==>
                && |header| == FRAME_HEADER_SIZE
                && old(HeaderOutcome(buffer.Contents(), pos)) == State(ModeIn(AfterHeader(header), []), buffer.Contents()[bPos..])
    {
      ghost var s := buffer.Contents();
      var headerBuffer := new byte[FRAME_HEADER_SIZE];
      CopySeparators(headerBuffer, s);
      var hPos;
      clean, bPos, hPos := UnstuffBlock(FRAME_SEPARATORS_COUNT, pos + 1, headerBuffer, FRAME_SEPARATORS_COUNT, s, s[..2]);
      header := headerBuffer[..hPos];
      HeaderOutcomeFound(s, pos, clean, bPos, header);
    }

    /** The two bytes taken for separators; nothing here looks at them. */
    method CopySeparators(into: array<byte>, ghost s: seq<byte>)
      requires buffer.Valid() && buffer.Contents() == s && |s| >= 2
      requires into != buffer.buffer && into.Length == FRAME_HEADER_SIZE
      modifies into
      ensures into[..2] == s[..2]
    {
      var first := ByteAt(0, s);
      var second := ByteAt(1, s);
      into[0], into[1] := first, second;
    }

    /** The ten un-stuffed bytes go to the frame; a header it refuses, or separators that are none, end the frame. */
    method TakeHeader(header: seq<byte>)
      requires Sound() && StageOf() == Started && pos == sepCount == 0 && |header| == FRAME_HEADER_SIZE
      modifies this`frameStartFound, currentFrame
      ensures Sound() && StageOf() == AfterHeader(header)
    {
      assert header[2..] == header[2..FRAME_HEADER_SIZE];
      var _, err := currentFrame.ParseBuffer(header);
      if err != HEADER_ONLY {
        currentFrame.Reset();
        frameStartFound := false;
      }
    }

    /** One byte of a body. */
    method BodyByte()
      requires Valid() && StageOf().InBody? && pos < |buffer.Contents()|
      modifies this`pos, this`sepCount, this`frameStartFound, this`exact, this`incomingQueue, buffer`head, buffer`isEmpty, currentFrame
      ensures Valid() && Run(StateOf()).state == old(Run(StateOf()).state) && (old(exact) ==> exact)
      ensures incomingQueue + Run(StateOf()).frames == old(incomingQueue + Run(StateOf()).frames)
      ensures |buffer.Contents()| <= old(|buffer.Contents()|)
      ensures StageOf() == Hunting || (|buffer.Contents()| == old(|buffer.Contents()|) && StageOf().InBody? && pos == old(pos) + 1)
    {
      ghost var s, h := buffer.Contents(), currentFrame.HeadOf();
      var done := CountBodyByte(h, s);
      if done {
        EndBody(h, s);
      } else {
        pos := pos + 1;
      }
    }

    /** Counts the byte at the cursor and says whether the body ends with it. */
    method CountBodyByte(ghost h: Head, ghost s: seq<byte>) returns (done: bool)
      requires Valid() && StageOf() == InBody(h) && buffer.Contents() == s && pos < |s|
      modifies this`sepCount
      ensures if done then BodyComplete(h, s, pos) else CursorOk(InBody(h), exact, s, 0, pos + 1, sepCount)
    {
      ghost var before := sepCount;
      var b := ByteAt(pos, s);
      CountSeparator(b);
      BodyNext(h, exact, s, pos, before, sepCount);
      done := pos + 1 - sepCount == currentFrame.dataSize as int + if currentFrame.useCrc then 3 else 1;
    }

    method EndBody(ghost h: Head, ghost s: seq<byte>)
      requires Sound() && StageOf() == InBody(h) && buffer.Contents() == s && BodyComplete(h, s, pos)
      modifies this`pos, this`sepCount, this`frameStartFound, this`exact, this`incomingQueue, buffer`head, buffer`isEmpty, currentFrame
      ensures Valid() && StageOf() == Hunting && |buffer.Contents()| <= |s| && exact
      ensures Run(StateOf()).state == Run(State(Body(h), s)).state
      ensures incomingQueue + Run(StateOf()).frames == old(incomingQueue) + Run(State(Body(h), s)).frames
    {
      ghost var queue, outcome := incomingQueue, BodyOutcome(h, s, pos);
      BodyDecision(h, s, pos);
      var clean, bPos, body := UnstuffBody(h, s);
      FinishBody(clean, bPos, body, h, outcome);
      ConcatAssociative(queue, outcome.frames, Run(outcome.state).frames);
    }

    /** The body is complete: hand over the frame or not, and hunt on. */
    method FinishBody(clean: bool, bPos: nat, body: seq<byte>, ghost h: Head, ghost outcome: Result)
      requires Sound() && StageOf() == InBody(h) && 0 < bPos <= |buffer.Contents()|
      requires clean ==> |body| == BodySize(h)
      requires outcome == if clean then Result(FramesOf(h, body), State(Hunt, buffer.Contents()[bPos..]))
                          else Result([], State(Hunt, buffer.Contents()[bPos - 1..]))
      modifies this`pos, this`sepCount, this`frameStartFound, this`exact, this`incomingQueue
      modifies buffer`head, buffer`isEmpty, currentFrame
      ensures Valid() && StageOf() == Hunting && exact
      ensures StateOf() == outcome.state && incomingQueue == old(incomingQueue) + outcome.frames
    {
      if clean {
        TakeBody(h, body);
        Rewind(bPos);
      } else {
        Rewind(bPos - 1);
      }
    }

    method UnstuffBody(ghost h: Head, ghost s: seq<byte>) returns (clean: bool, bPos: nat, body: seq<byte>)
      requires buffer.Valid() && buffer.Contents() == s && currentFrame.HeadOf() == h && BodyComplete(h, s, pos)
      ensures 0 < bPos <= |s|
      ensures BodyOutcome(h, s, pos) == if clean then Result(FramesOf(h, body), State(Hunt, s[bPos..]))
                                        else Result([], State(Hunt, s[bPos - 1..]))
      ensures clean ==> |body| == BodySize(h)
    {
      var tmpBuf := new byte[currentFrame.dataSize as int + if currentFrame.useCrc then 3 else 1];
      var hPos;
      assert s[0..pos + 1] == s[..pos + 1];
      clean, bPos, hPos := UnstuffBlock(0, pos + 1, tmpBuf, 0, s, []);
      body := tmpBuf[..hPos];
      EmptyInFront(Strip(s[..pos + 1]));
      BodyOutcomeFound(h, s, pos, clean, bPos, body);
    }

    /** The un-stuffed body goes to the frame; a frame that it completes is handed over. */
    method TakeBody(ghost h: Head, body: seq<byte>)
      requires Sound() && StageOf() == InBody(h) && |body| == BodySize(h)
      modifies this`incomingQueue, currentFrame
      ensures incomingQueue == old(incomingQueue) + FramesOf(h, body)
    {
      BodyJudged(h, body);
      var _, err := currentFrame.ParseBuffer(body);
      if err == COMPLETE_FRAME {
        incomingQueue := incomingQueue + [currentFrame.Value()];
      }
    }
  
    /** One byte, whatever the mode. */
    method ProcessByte(bytesToDrop: nat) returns (drop: nat)
      requires InStep(bytesToDrop) && pos < |buffer.Contents()|
      modifies this`pos, this`sepCount, this`frameStartFound, this`exact, this`incomingQueue, buffer`head, buffer`isEmpty, currentFrame
      ensures InStep(drop) && (old(exact) ==> exact)
      ensures Run(Remaining(drop)).state == old(Run(Remaining(bytesToDrop))).state
      ensures incomingQueue + Run(Remaining(drop)).frames == old(incomingQueue + Run(Remaining(bytesToDrop)).frames)
      ensures |buffer.Contents()| < old(|buffer.Contents()|)
              || (|buffer.Contents()| == old(|buffer.Contents()|)
                  && ((old(StageOf().InBody?) && !StageOf().InBody?)
                      || (old(StageOf().InBody?) == StageOf().InBody? && pos > old(pos))))
    {
      assert bytesToDrop == 0 ==> Remaining(0) == StateOf();
      if !frameStartFound {
        drop := HuntByte(bytesToDrop);
      } else {
        drop := 0;
        match currentFrame.status
        case FRAME_EMPTY =>
          HeaderByte();
        case FRAME_HEADER_ONLY =>
          BodyByte();
        case FRAME_COMPLETE =>
          assert false;
      }
      assert drop == 0 ==> Remaining(0) == StateOf();
    }

    /** The parser state once the discardable bytes are gone. */
    ghost function Remaining(drop: nat): State
      requires buffer.Valid() && drop <= |buffer.Contents()|
      reads this`frameStartFound, buffer, buffer.buffer, currentFrame
    {
      State(ModeIn(StageOf(), buffer.Contents()[drop..]), buffer.Contents()[drop..])
    }

    /**
     Parses everything that is held: the frames handed over are those of Run, and so is the state reached, after what a
     hunt would still discard of a false start. With an exact cursor there is no false start.
     */
    method ProcessData()
      requires Valid()
      modifies this`pos, this`sepCount, this`frameStartFound, this`exact, this`incomingQueue
      modifies buffer`head, buffer`isEmpty, currentFrame
      ensures Valid() && pos == |buffer.Contents()| && (old(exact) ==> exact)
      ensures Run(StateOf()) == Result([], Run(old(StateOf())).state)
      ensures exact ==> StateOf() == Run(old(StateOf())).state
      ensures incomingQueue == old(incomingQueue) + Run(old(StateOf())).frames
    {
      var bytesToDrop := ProcessBytes();
      DiscardRest(bytesToDrop);
      EmptyBehind(incomingQueue);
    }

    /** The loop over the bytes behind the cursor. */
    method ProcessBytes() returns (bytesToDrop: nat)
      requires Valid()
      modifies this`pos, this`sepCount, this`frameStartFound, this`exact, this`incomingQueue
      modifies buffer`head, buffer`isEmpty, currentFrame
      ensures InStep(bytesToDrop) && pos == |buffer.Contents()| && bytesToDrop <= pos && (old(exact) ==> exact)
      ensures Run(Remaining(bytesToDrop)).state == Run(old(StateOf())).state
      ensures incomingQueue + Run(Remaining(bytesToDrop)).frames == old(incomingQueue) + Run(old(StateOf())).frames
    {
      ghost var result := Run(StateOf());
      bytesToDrop := 0;
      assert Remaining(0) == StateOf();
      while !buffer.isEmpty && pos < buffer.GetSize()
        invariant InStep(bytesToDrop) && bytesToDrop <= |buffer.Contents()| && (old(exact) ==> exact)
        invariant Run(Remaining(bytesToDrop)).state == result.state
        invariant incomingQueue + Run(Remaining(bytesToDrop)).frames == old(incomingQueue) + result.frames
        decreases |buffer.Contents()|, StageOf().InBody?, |buffer.Contents()| - pos
      {
        bytesToDrop := ProcessByte(bytesToDrop);
      }
    }

    /** At the end of the held bytes the discardable ones go, and there is nothing left to hand over. */
    method DiscardRest(bytesToDrop: nat)
      requires InStep(bytesToDrop) && pos == |buffer.Contents()|
      modifies this`pos, buffer`head, buffer`isEmpty
      ensures Valid() && pos == |buffer.Contents()|
      ensures Run(StateOf()) == old(Run(Remaining(bytesToDrop))) && Run(StateOf()).frames == []
      ensures exact ==> Run(StateOf()) == Result([], StateOf())
    {
      ghost var stage, s := StageOf(), buffer.Contents();
      CursorAtEnd(stage, exact, s, bytesToDrop, sepCount);
      CursorDropped(stage, exact, s, bytesToDrop, sepCount);
      if bytesToDrop > 0 {
        DropHeld(bytesToDrop);
      }
    }

    // ----- reading and writing -----

    /** Reserves cells and reads stream bytes into them, as many as stand in front of the end of the array. */
    method ReadChunk(size: nat) returns (got: nat)
      requires buffer.Valid() && size <= |stream.arrived| && size <= buffer.capacity - |buffer.Contents()|
      modifies stream`arrived, buffer`tail, buffer`isEmpty, buffer.buffer
      ensures buffer.Valid()
      ensures got == Min(size, buffer.capacity - old(buffer.tail)) && buffer.tail == Wrap(old(buffer.tail) + got, buffer.capacity)
      ensures buffer.Contents() == old(buffer.Contents()) + old(stream.arrived)[..got]
      ensures stream.arrived == old(stream.arrived)[got..]
    {
      ghost var cells, isEmpty := buffer.buffer[..], buffer.isEmpty;
      var start, reserved := buffer.Reserve(size);
      got := stream.ReadArray(buffer.buffer, start, reserved);
      ReservedAndFilled(cells, buffer.buffer[..], buffer.head, start, isEmpty, old(stream.arrived)[..got]);
    }

    /** Two reservations are always enough: the second starts at the beginning of the array. */
    method ReadChunks(count: nat)
      requires buffer.Valid() && count <= |stream.arrived| && count <= buffer.capacity - |buffer.Contents()|
      modifies stream`arrived, buffer`tail, buffer`isEmpty, buffer.buffer
      ensures buffer.Valid()
      ensures buffer.Contents() == old(buffer.Contents()) + old(stream.arrived)[..count]
      ensures stream.arrived == old(stream.arrived)[count..]
    {
      ghost var held, arrived := buffer.Contents(), stream.arrived;
      var size1 := ReadChunk(count);
      if count > size1 {
        var size2 := ReadChunk(count - size1);
        TakenInTwo(held, arrived, size1, size2);
      }
    }

    /** What the next read leaves to be parsed. */
    ghost function NextRead(): State
      requires buffer.Valid()
      reads this`frameStartFound, stream`arrived, buffer, buffer.buffer, currentFrame
    {
      RingRead(buffer.capacity, StateOf(), stream.arrived)
    }

    /** Drops the oldest held bytes if count more would not find room, and forgets a frame begun. */
    method MakeRoom(count: nat)
      requires Valid() && count <= buffer.capacity
      modifies this`pos, this`sepCount, this`frameStartFound, this`exact, buffer`head, buffer`isEmpty, currentFrame
      ensures Sound() && count <= buffer.capacity - |buffer.Contents()|
      ensures var over := old(|buffer.Contents()|) + count - buffer.capacity;
              if over <= 0
              then Valid() && buffer.Contents() == old(buffer.Contents()) && StageOf() == old(StageOf()) && exact == old(exact)
              else && buffer.Contents() == old(buffer.Contents())[over..]
                   && StageOf() == Hunting && sepCount == 0 && exact == old(frameStartFound)
                   && pos == (if old(frameStartFound) then 0 else old(pos)) <= 2
    {
      var available := buffer.GetSpace();
      if count > available {
        Discard(count - available);
        if frameStartFound {
          Restart();
        } else {
          exact := false;
        }
      }
    }

    /**
     Takes min(available, capacity) bytes from the stream. Of these and the held bytes the last that find room are kept.
     If some do not, a frame begun loses its start and is forgotten. A hunt keeps its cursor then, behind bytes that it has
     never looked at; the parser stays in step all the same, as of a hunt that starts with the bytes kept.
     */
    method ReadData() returns (count: nat)
      requires Valid()
      modifies this`pos, this`sepCount, this`frameStartFound, this`exact, currentFrame
      modifies stream`arrived, buffer`head, buffer`tail, buffer`isEmpty, buffer.buffer
      ensures Valid()
      ensures count == Min(|old(stream.arrived)|, buffer.capacity) && stream.arrived == old(stream.arrived)[count..]
      ensures var all := old(buffer.Contents() + stream.arrived[..count]);
              && buffer.Contents() == all[|all| - Min(|all|, buffer.capacity)..]
              && (if |all| <= buffer.capacity then StageOf() == old(StageOf()) && exact == old(exact)
                  else StageOf() == Hunting && exact == old(frameStartFound))
      ensures StateOf() == old(NextRead())
    {
      count := stream.Available();
      if count >= buffer.capacity {
        count := buffer.capacity;
      }
      ghost var all := buffer.Contents() + stream.arrived[..count];
      assert all[0..] == all;
      TakeBytes(count, buffer.Contents(), stream.arrived[..count], StageOf());
    }

    /** Makes room for these bytes and puts them behind the held ones. */
    method TakeBytes(count: nat, ghost held: seq<byte>, ghost bytes: seq<byte>, ghost stage: Stage)
      requires Valid() && count <= buffer.capacity && count <= |stream.arrived|
      requires held == buffer.Contents() && bytes == stream.arrived[..count] && stage == StageOf()
      modifies this`pos, this`sepCount, this`frameStartFound, this`exact, currentFrame
      modifies stream`arrived, buffer`head, buffer`tail, buffer`isEmpty, buffer.buffer
      ensures Valid() && stream.arrived == old(stream.arrived)[count..]
      ensures if |held| + count <= buffer.capacity
              then && buffer.Contents() == held + bytes && StageOf() == stage && exact == old(exact)
                   && ModeIn(stage, held + bytes) == ModeIn(stage, held)
              else && buffer.Contents() == (held + bytes)[|held| + count - buffer.capacity..]
                   && StageOf() == Hunting && exact == old(frameStartFound)
    {
      MakeRoom(count);
      ghost var kept := buffer.Contents();
      ReadChunks(count);
      if |held| + count <= buffer.capacity {
        CursorOkGrows(stage, exact, kept, bytes, 0, pos, sepCount);
      } else {
        CursorKept(exact, kept + bytes, pos);
        SuffixOfSum(held, bytes, |held| + count - buffer.capacity);
      }
    }

    // ----- the two calls of a loop -----

    /** How many bytes the next read takes. */
    ghost function NextCount(): (count: nat)
      ensures count <= |stream.arrived| && count <= buffer.capacity
      reads stream`arrived
    {
      Min(|stream.arrived|, buffer.capacity)
    }

    /** The next read drops held bytes. */
    ghost predicate Overflows()
      requires buffer.Valid()
      reads stream`arrived, buffer, buffer.buffer
    {
      |buffer.Contents()| + NextCount() > buffer.capacity
    }

    /** The chunks read after the next read: one more, or all that an overflow leaves. */
    ghost function NextChunks(): seq<seq<byte>>
      requires buffer.Valid()
      reads this`chunks, this`frameStartFound, stream`arrived, buffer, buffer.buffer, currentFrame
    {
      if Overflows() then [NextRead().held] else chunks + [stream.arrived[..NextCount()]]
    }

    /** The frames to which those of the next read are added. */
    ghost function NextParsed(): seq<Frame>
      requires buffer.Valid()
      reads this`parsed, stream`arrived, buffer, buffer.buffer
    {
      if Overflows() then [] else parsed
    }

    /** Enters what the next read will take, and the frames that it will make, in the history. */
    ghost method NoteRead()
      requires buffer.Valid() && CaughtUp()
      modifies this`chunks, this`parsed
      ensures chunks == old(NextChunks()) && parsed == old(NextParsed()) + Run(NextRead()).frames
      ensures FeedsTo(chunks, parsed, Run(NextRead()).state)
    {
      var st, next := StateOf(), NextRead();
      SettlesIff(st, chunks, parsed);
      if Overflows() {
        FeedAfresh(next.held);
        chunks, parsed := [next.held], Run(next).frames;
        EmptyInFront(parsed);
      } else {
        var read := stream.arrived[..NextCount()];
        FeedMore(chunks, parsed, st.mode, st.held, read);
        assert next == State(st.mode, st.held + read);
        chunks, parsed := chunks + [read], parsed + Run(next).frames;
      }
    }

    method ReadThenProcess()
      requires Valid()
      modifies this`pos, this`sepCount, this`frameStartFound, this`exact, this`incomingQueue
      modifies stream`arrived, buffer, buffer.buffer, currentFrame
      ensures Valid() && stream.arrived == old(stream.arrived[NextCount()..])
      ensures var r := Run(old(NextRead()));
              Run(StateOf()) == Result([], r.state) && incomingQueue == old(incomingQueue) + r.frames
      ensures exact ==> StateOf() == Run(old(NextRead())).state
      ensures old(exact) && !old(Overflows()) ==> exact
    {
      ghost var next := NextRead();
      var _ := ReadData();
      assert StateOf() == next;
      ProcessData();
    }

    /** Between loops: the cursor is in step, and all that has been read is parsed. */
    ghost predicate Idle()
      reads this`frameStartFound, this`pos, this`sepCount, this`exact, this`chunks, this`parsed
      reads buffer, buffer.buffer, currentFrame
    {
      Valid() && CaughtUp()
    }

    /** Reads and parses what the stream has: a step of the receiver behind a ring, in the sense of Rings. */
    method ReadAndParse()
      requires Idle()
      modifies this, stream`arrived, buffer, buffer.buffer, currentFrame
      ensures Idle() && stream.arrived == old(stream.arrived[NextCount()..])
      ensures incomingQueue == old(incomingQueue) + Run(old(NextRead())).frames
      ensures chunks == old(NextChunks()) && parsed == old(NextParsed()) + Run(old(NextRead())).frames
      ensures KeptOf(buffer.capacity, old(NextRead()), StateOf())
      ensures old(exact) && !old(Overflows()) ==> exact && StateOf() == Run(old(NextRead())).state
    {
      NoteRead();
      ReadThenProcess();
      SettlesIff(StateOf(), chunks, parsed);
      StateIsReachable();
    }

    /** Over any number of loops, in whatever chunks the bytes came, the frames parsed are those of FeedAll. */
    lemma ParsedOfChunks()
      requires Idle()
      ensures FeedAll(State(Hunt, []), chunks) == Result(parsed, Run(StateOf()).state)
    {
      SettlesIff(StateOf(), chunks, parsed);
    }

    // ----- no frame is lost -----

    /** Every state between reads is one from which the receiver finds its way back. */
    lemma StateIsReachable()
      requires Valid()
      ensures Reachable(StateOf())
    {
      CursorReachable(StageOf(), exact, buffer.Contents(), pos, sepCount);
    }

    /**
     Whatever garbage and however many frames a handler has read in front of it, in whatever chunks, an intact frame has
     been handed over once it and what has been read behind it contain 236 bytes other than 0xFF. An overflow in between
     starts the chunks afresh; what the frame needs then is to be among the bytes kept.
     */
    lemma NextFrameArrives(frameType: byte, data: seq<byte>, useCrc: bool, g: seq<byte>, t: seq<byte>)
      returns (before: seq<Frame>, after: seq<Frame>)
      requires Idle() && |data| <= MAX_DATA_SIZE
      requires Flatten(chunks) == g + (Encode(MakeFrame(frameType, data, useCrc)) + t)
      requires LARGEST_BLOCK <= Counted(Encode(MakeFrame(frameType, data, useCrc)) + t)
      ensures parsed == before + ([MakeFrame(frameType, data, useCrc)] + after)
    {
      ParsedOfChunks();
      ChunkingIndependent(State(Hunt, []), chunks);
      EmptyInFront(Flatten(chunks));
      before, after := FrameFound(frameType, data, useCrc, g, t);
    }

    /** No frame is handed over whose stuffed body exceeds the ring, whatever is read in whatever pieces. */
    lemma HandedOverFitsRing(f: Frame)
      requires Valid() && f in Run(NextRead()).frames
      ensures |Stuff(BodyBytes(f))| <= buffer.capacity
    {
      FramesFit(NextRead(), f);
    }

    // ----- sending -----

    method BuildFrame(frameType: byte, data: seq<byte>, useCrc: bool) returns (frame: HaierFrame)
      requires |data| <= MAX_DATA_SIZE
      ensures fresh(frame) && frame.Sendable() && Consistent(frame.Value())
      ensures frame.Value() == MakeFrame(frameType, data, useCrc)
    {
      MadeFrameIsWellFormed(frameType, data, useCrc);
      CountsEscapesIff(frameType, data, useCrc);
      ByteOfExact(|data|);
      frame := new HaierFrame.Build(frameType, data, ByteOf(|data|), useCrc);
    }

    /** The frame in a buffer of its exact size, as far as the cursor reaches. */
    method EncodeFrame(frame: HaierFrame) returns (tmpBuf: array<byte>)
      requires frame.Sendable() && Consistent(frame.Value())
      ensures fresh(tmpBuf) && Spelled(tmpBuf[..], Encode(frame.Value()))
    {
      ghost var f := frame.Value();
      EncodedSizeIsExact(f);
      var size := frame.GetBufferSize();
      tmpBuf := new byte[size];
      ghost var junk := tmpBuf[..];
      var _ := frame.FillBuffer(tmpBuf, size);
      SpelledAsWritten(junk, f);
    }

    /**
     Sends a frame, or nothing if the data is too long. The result is the size cut to eight bits, so that a frame of
     exactly 256 bytes is reported as a failure; a longer frame does not reach the wire intact.
     */
    method SendData(frameType: byte, data: seq<byte>, useCrc: bool) returns (result: nat)
      modifies stream`sent
      ensures |data| > MAX_DATA_SIZE ==> result == 0 && stream.sent == old(stream.sent)
      ensures |data| <= MAX_DATA_SIZE ==>
                var wire, before := Encode(MakeFrame(frameType, data, useCrc)), |old(stream.sent)|;
                && result == |wire| % 256
                && before <= |stream.sent| && stream.sent[..before] == old(stream.sent)
                && Spelled(stream.sent[before..], wire)
    {
      if |data| > MAX_DATA_SIZE {
        return 0;
      }
      var frame := BuildFrame(frameType, data, useCrc);
      var tmpBuf := EncodeFrame(frame);
      var size := tmpBuf.Length;
      assert tmpBuf[..size] == tmpBuf[..];
      stream.WriteArray(tmpBuf, size);
      Appended(old(stream.sent), tmpBuf[..]);
      return size % 256;
    }

    function Available(): nat
      reads this`incomingQueue
    {
      |incomingQueue|
    }

    method Pop() returns (frame: Option<Frame>)
      modifies this`incomingQueue
      ensures if old(incomingQueue) == [] then frame == None && incomingQueue == []
              else frame == Some(old(incomingQueue)[0]) && incomingQueue == old(incomingQueue)[1..]
    {
      if incomingQueue == [] {
        return None;
      }
      frame := Some(incomingQueue[0]);
      incomingQueue := incomingQueue[1..];
    }

    method Drop(framesCount: nat)
      modifies this`incomingQueue
      ensures incomingQueue == old(incomingQueue)[Min(framesCount, |old(incomingQueue)|)..]
    {
      var size := Min(framesCount, |incomingQueue|);
      for i := 0 to size
        invariant incomingQueue == old(incomingQueue)[i..]
      {
        incomingQueue := incomingQueue[1..];
      }
    }

    /** Gives up what has been parsed so far. */
    method ResetProtocol()
      requires buffer.Valid() && buffer.capacity >= CIRCULAR_BUFFER_MINIMUM_SIZE
      modifies this`pos, this`sepCount, this`frameStartFound, this`exact, buffer`head, buffer`isEmpty, currentFrame
      ensures Valid()
      ensures StateOf() == State(Hunt, old(buffer.Contents())[Min(old(pos), |old(buffer.Contents())|)..])
    {
      Rewind(Min(pos, buffer.GetSize()));
    }

    method Clear()
      requires buffer.Valid() && buffer.capacity >= CIRCULAR_BUFFER_MINIMUM_SIZE
      modifies this`pos, this`sepCount, this`frameStartFound, this`exact, buffer`head, buffer`tail, buffer`isEmpty, currentFrame
      ensures Valid() && StateOf() == State(Hunt, [])
    {
      buffer.Clear();
      Restart();
    }
  }

  lemma TakenInTwo<T>(a: seq<T>, s: seq<T>, i: nat, j: nat)
    requires i + j <= |s|
    ensures s[i..][j..] == s[i + j..] && (a + s[..i]) + s[i..][..j] == a + s[..i + j]
  {}

  lemma SuffixOfSum<T>(a: seq<T>, b: seq<T>, i: nat)
    requires i <= |a|
    ensures (a + b)[i..] == a[i..] + b
  {}

  lemma Appended<T>(a: seq<T>, b: seq<T>)
    ensures |a| <= |a + b| && (a + b)[..|a|] == a && (a + b)[|a|..] == b
  {}

  /** The next byte of a frame is all that arrives. */
  method ReceiveByte(handler: TransportLevelHandler, e: seq<byte>, k: nat)
    requires handler.Idle() && handler.exact && k < |e| && RoomAt(handler.buffer.capacity, e, k)
    requires handler.StateOf() == HeldAt(e, k) && handler.incomingQueue == Run(State(Hunt, e[..k])).frames
    modifies handler, handler.stream`arrived, handler.buffer, handler.buffer.buffer, handler.currentFrame
    ensures handler.Idle() && handler.exact
    ensures handler.StateOf() == HeldAt(e, k + 1) && handler.incomingQueue == Run(State(Hunt, e[..k + 1])).frames
  {
    OneByteRead(handler.buffer.capacity, e, k);
    handler.stream.arrived := [e[k]];
    handler.ReadAndParse();
  }

  /** A receiver that is given a frame byte by byte hands it over, if the frame's stuffed body fits its ring. */
  method BringToHandOver(stream: ProtocolStream, capacity: nat, header: seq<byte>, f: Frame) returns (handler: TransportLevelHandler)
    requires CIRCULAR_BUFFER_MINIMUM_SIZE <= capacity && WellFormed(header, BodyBytes(f), f)
    requires |Stuff(BodyBytes(f))| <= capacity
    modifies stream`arrived
    ensures handler.Idle() && handler.buffer.capacity == capacity && handler.incomingQueue == [f]
  {
    var e := Image(header, BodyBytes(f));
    handler := new TransportLevelHandler(stream, capacity);
    for k := 0 to |e|
      invariant fresh(handler) && fresh(handler.buffer) && fresh(handler.buffer.buffer) && fresh(handler.currentFrame)
      invariant handler.stream == stream && handler.buffer.capacity == capacity && handler.Idle()
      invariant handler.exact && handler.StateOf() == HeldAt(e, k)
      invariant handler.incomingQueue == Run(State(Hunt, e[..k])).frames
    {
      FrameFindsRoom(capacity, header, BodyBytes(f), f, k);
      ReceiveByte(handler, e, k);
    }
    FrameDelivered(header, BodyBytes(f), f, []);
    EmptyBehind(e);
  }
}
