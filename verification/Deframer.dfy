/**
 What the receiver makes of a byte stream, as small steps over the bytes that it still holds.

 The state is the parsing mode and the unconsumed bytes. A step looks at the held bytes, discards some of them, and
 possibly hands over a frame. Cursor, counters and loop structure of the code do not appear here; the class
 TransportLevelHandler is proved to compute exactly Run.
 */
module Deframer {
  import opened Sequences
  import opened Bytes
  import opened Stuffing
  import opened FrameFormat

  /** Hunting for a start; start found, header incomplete; header parsed, body incomplete. */
  datatype Mode = Hunt | Header | Body(head: Head)

  datatype Step = Wait | Go(discard: nat, mode: Mode, frames: seq<Frame>)

  datatype State = State(mode: Mode, held: seq<byte>)

  datatype Result = Result(frames: seq<Frame>, state: State)

  function HuntStep(s: seq<byte>): Step {
    if s == [] then Wait
    else if s[0] != SEPARATOR_BYTE then Go(1, Hunt, [])
    else if |s| == 1 then Wait
    else if s[1] != SEPARATOR_BYTE then Go(2, Hunt, [])
    else if |s| == 2 then Wait
    else if s[2] == SEPARATOR_BYTE then Go(1, Hunt, [])
    else Go(0, Header, [])
  }

  /** A complete block: up to the byte before an escape error, or the whole block and what it decodes to. */
  function HeaderStep(s: seq<byte>): Step {
    if |s| < FRAME_SEPARATORS_COUNT || Counted(s[FRAME_SEPARATORS_COUNT..]) < PURE_HEADER_SIZE then Wait
    else
      var raw := s[FRAME_SEPARATORS_COUNT..];
      var block := raw[..BlockLength(raw, PURE_HEADER_SIZE)];
      var bad := FirstBad(block, 0);
      if bad < |block| then Go(FRAME_SEPARATORS_COUNT + bad - 1, Hunt, [])
      else
        StrippedSize(raw, PURE_HEADER_SIZE);
        var next := match DecodeHeader(Strip(block)) case None => Hunt case Some(h) => Body(h);
        Go(FRAME_SEPARATORS_COUNT + |block|, next, [])
  }

  function BodyStep(h: Head, s: seq<byte>): Step {
    if Counted(s) < BodySize(h) then Wait
    else
      var block := s[..BlockLength(s, BodySize(h))];
      var bad := FirstBad(block, 0);
      if bad < |block| then Go(bad - 1, Hunt, [])
      else
        StrippedSize(s, BodySize(h));
        var frames := match DecodeBody(h, Strip(block)) case None => [] case Some(f) => [f];
        Go(|block|, Hunt, frames)
  }

  function StepOf(st: State): Step {
    match st.mode
    case Hunt => HuntStep(st.held)
    case Header => HeaderStep(st.held)
    case Body(h) => BodyStep(h, st.held)
  }

  lemma StrippedSize(s: seq<byte>, n: nat)
    requires 0 < n <= Counted(s)
    requires var block := s[..BlockLength(s, n)]; FirstBad(block, 0) == |block|
    ensures |Strip(s[..BlockLength(s, n)])| == n
  {
    var block := s[..BlockLength(s, n)];
    BlockLengthEnds(s, n);
    BlockIsClean(s, n);
    StuffOfStrip(block);
    StripOfStuff(Strip(block));
  }

  /** Body errors may discard nothing, but then the mode falls. */
  function Rank(m: Mode): nat {
    match m case Body(_) => 2 case Hunt => 1 case Header => 0
  }

  lemma StepProgress(st: State)
    ensures match StepOf(st)
            case Wait => true
            case Go(d, m, _) => d <= |st.held| && (d > 0 || Rank(m) < Rank(st.mode))
  {}

  /** All steps until the receiver has to wait for more bytes. */
  function Run(st: State): (r: Result)
    ensures StepOf(r.state) == Wait
    decreases |st.held|, Rank(st.mode)
  {
    StepProgress(st);
    match StepOf(st)
    case Wait => Result([], st)
    case Go(d, m, fs) =>
      var r := Run(State(m, st.held[d..]));
      Result(fs + r.frames, r.state)
  }

  // ----- chunking independence -----

  function Feed(st: State, bytes: seq<byte>): Result {
    Run(State(st.mode, st.held + bytes))
  }

  function FeedAll(st: State, chunks: seq<seq<byte>>): Result
    decreases |chunks|
  {
    if chunks == [] then Result([], st)
    else
      var first := Feed(st, chunks[0]);
      var rest := FeedAll(first.state, chunks[1..]);
      Result(first.frames + rest.frames, rest.state)
  }

  function Flatten(chunks: seq<seq<byte>>): seq<byte> {
    if chunks == [] then [] else chunks[0] + Flatten(chunks[1..])
  }

  lemma HeaderStepStable(s: seq<byte>, t: seq<byte>)
    requires HeaderStep(s) != Wait
    ensures HeaderStep(s + t) == HeaderStep(s)
  {
    var raw := s[FRAME_SEPARATORS_COUNT..];
    assert (s + t)[FRAME_SEPARATORS_COUNT..] == raw + t;
    BlockLengthStable(raw, t, PURE_HEADER_SIZE);
    var k := BlockLength(raw, PURE_HEADER_SIZE);
    assert (raw + t)[..k] == raw[..k];
  }

  lemma BodyStepStable(h: Head, s: seq<byte>, t: seq<byte>)
    requires BodyStep(h, s) != Wait
    ensures BodyStep(h, s + t) == BodyStep(h, s)
  {
    BlockLengthStable(s, t, BodySize(h));
    var k := BlockLength(s, BodySize(h));
    assert (s + t)[..k] == s[..k];
  }

  /** A step that can be taken is not changed by bytes that arrive later. */
  lemma StepStable(m: Mode, s: seq<byte>, t: seq<byte>)
    requires StepOf(State(m, s)) != Wait
    ensures StepOf(State(m, s + t)) == StepOf(State(m, s))
  {
    match m
    case Hunt =>
    case Header => HeaderStepStable(s, t);
    case Body(h) => BodyStepStable(h, s, t);
  }

  /** Running on everything is running on a part and then on what it left plus the rest. */
  lemma {:induction false} RunInTwo(m: Mode, s: seq<byte>, t: seq<byte>)
    ensures var first := Run(State(m, s));
            var second := Feed(first.state, t);
            Run(State(m, s + t)) == Result(first.frames + second.frames, second.state)
    decreases |s|, Rank(m)
  {
    StepProgress(State(m, s));
    match StepOf(State(m, s))
    case Wait =>
      assert [] + Feed(State(m, s), t).frames == Feed(State(m, s), t).frames;
    case Go(d, m', fs) =>
      StepStable(m, s, t);
      assert (s + t)[d..] == s[d..] + t;
      RunInTwo(m', s[d..], t);
      var rest := Run(State(m', s[d..]));
      ConcatAssociative(fs, rest.frames, Feed(rest.state, t).frames);
  }

  /** However a stream is cut into chunks, the frames and the final state are those of one call on the whole of it. */
  lemma {:induction false} ChunkingIndependent(st: State, chunks: seq<seq<byte>>)
    requires StepOf(st) == Wait
    ensures FeedAll(st, chunks) == Feed(st, Flatten(chunks))
    decreases |chunks|
  {
    if chunks == [] {
      assert st.held + [] == st.held;
    } else {
      var first := Feed(st, chunks[0]);
      ChunkingIndependent(first.state, chunks[1..]);
      RunInTwo(st.mode, st.held + chunks[0], Flatten(chunks[1..]));
      ConcatAssociative(st.held, chunks[0], Flatten(chunks[1..]));
    }
  }
}
