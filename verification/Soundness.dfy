/**
 Every frame that the receiver hands over is explained by a piece of its input: the image of a well-formed frame.
 The input is cut into such pieces, in the order of the frames, and the bytes between and after them.
 */
module Soundness {
  import opened Sequences
  import opened Bytes
  import opened Stuffing
  import opened FrameFormat
  import opened Deframer
  import opened Resync

  /** raw is FF FF, stuffed header and stuffed body of the well-formed frame f. */
  ghost predicate IsImage(raw: seq<byte>, f: Frame) {
    exists header, body :: WellFormed(header, body, f) && raw == Image(header, body)
  }

  /** A frame image and the discarded bytes in front of it. */
  datatype Piece = Piece(gap: seq<byte>, raw: seq<byte>)

  function Woven(pieces: seq<Piece>, tail: seq<byte>): seq<byte> {
    if pieces == [] then tail else pieces[0].gap + (pieces[0].raw + Woven(pieces[1..], tail))
  }

  ghost predicate Explain(pieces: seq<Piece>, frames: seq<Frame>) {
    |pieces| == |frames| && forall i :: 0 <= i < |pieces| ==> IsImage(pieces[i].raw, frames[i])
  }

  // ----- what a single step has read -----

  lemma BlockIsStuffed(s: seq<byte>, n: nat)
    requires 0 < n <= Counted(s)
    requires var block := s[..BlockLength(s, n)]; FirstBad(block, 0) == |block|
    ensures var block := s[..BlockLength(s, n)]; Stuff(Strip(block)) == block && |Strip(block)| == n
  {
    BlockIsClean(s, n);
    StuffOfStrip(s[..BlockLength(s, n)]);
    StrippedSize(s, n);
  }

  lemma HeaderBlock(held: seq<byte>, h: Head) returns (raw: seq<byte>, block: seq<byte>)
    requires HeaderStep(held).Go? && HeaderStep(held).mode == Body(h)
    ensures |held| >= 2 && raw == held[2..] && PURE_HEADER_SIZE <= Counted(raw)
    ensures block == raw[..BlockLength(raw, PURE_HEADER_SIZE)] && FirstBad(block, 0) == |block|
    ensures HeaderStep(held).discard == 2 + |block|
    ensures |Strip(block)| == PURE_HEADER_SIZE && DecodeHeader(Strip(block)) == Some(h)
  {
    raw := held[FRAME_SEPARATORS_COUNT..];
    block := raw[..BlockLength(raw, PURE_HEADER_SIZE)];
    StrippedSize(raw, PURE_HEADER_SIZE);
  }

  lemma HeaderAccepted(held: seq<byte>, h: Head) returns (header: seq<byte>)
    requires |held| > 2 && held[0] == held[1] == SEPARATOR_BYTE
    requires HeaderStep(held).Go? && HeaderStep(held).mode == Body(h)
    ensures |header| == PURE_HEADER_SIZE && DecodeHeader(header) == Some(h)
    ensures var d := HeaderStep(held).discard; d <= |held| && held[..d] == SEPARATORS + Stuff(header)
  {
    var raw, block := HeaderBlock(held, h);
    BlockIsStuffed(raw, PURE_HEADER_SIZE);
    header := Strip(block);
    PairInFront(held, |block|);
  }

  lemma PairInFront(s: seq<byte>, n: nat)
    requires 2 + n <= |s| && s[0] == s[1] == SEPARATOR_BYTE
    ensures s[..2 + n] == SEPARATORS + s[2..][..n]
  {}

  lemma BodyAccepted(h: Head, held: seq<byte>) returns (body: seq<byte>)
    requires BodyStep(h, held).Go? && BodyStep(h, held).frames != []
    ensures |body| == BodySize(h) && DecodeBody(h, body).Some?
    ensures BodyStep(h, held).frames == [DecodeBody(h, body).value]
    ensures var d := BodyStep(h, held).discard; d <= |held| && held[..d] == Stuff(body)
  {
    var block := held[..BlockLength(held, BodySize(h))];
    BlockIsStuffed(held, BodySize(h));
    body := Strip(block);
  }

  // ----- whole runs -----

  /** The bytes of the frame begun that are no longer held, with the header they spell. */
  predicate Begun(st: State, consumed: seq<byte>, header: seq<byte>) {
    && Reachable(st)
    && match st.mode
       case Body(h) =>
         |header| == PURE_HEADER_SIZE && DecodeHeader(header) == Some(h) && consumed == SEPARATORS + Stuff(header)
       case _ => consumed == []
  }

  lemma CutAt<T>(a: seq<T>, b: seq<T>, d: nat)
    requires d <= |b|
    ensures a + b == (a + b[..d]) + b[d..]
  {}

  /** Puts discarded bytes in front. */
  lemma Discard(gap: seq<byte>, pieces: seq<Piece>, tail: seq<byte>, frames: seq<Frame>)
    returns (pieces': seq<Piece>, tail': seq<byte>)
    requires Explain(pieces, frames)
    ensures Explain(pieces', frames) && Woven(pieces', tail') == gap + Woven(pieces, tail)
  {
    if pieces == [] {
      pieces', tail' := [], gap + tail;
    } else {
      pieces', tail' := [Piece(gap + pieces[0].gap, pieces[0].raw)] + pieces[1..], tail;
      ConcatAssociative(gap, pieces[0].gap, pieces[0].raw + Woven(pieces[1..], tail));
    }
  }

  lemma FrameExplained(h: Head, consumed: seq<byte>, header: seq<byte>, held: seq<byte>)
    requires Begun(State(Body(h), held), consumed, header)
    requires BodyStep(h, held).Go? && BodyStep(h, held).frames != []
    ensures var step := BodyStep(h, held);
            step.discard <= |held| && |step.frames| == 1 && IsImage(consumed + held[..step.discard], step.frames[0])
  {
    var body := BodyAccepted(h, held);
    AcceptedIffWellFormed(header, body, DecodeBody(h, body).value);
    assert consumed + Stuff(body) == Image(header, body);
  }

  lemma {:induction false} SoundFrom(st: State, consumed: seq<byte>, header: seq<byte>)
    returns (pieces: seq<Piece>, tail: seq<byte>)
    requires Begun(st, consumed, header)
    ensures Explain(pieces, Run(st).frames) && Woven(pieces, tail) == consumed + st.held
    decreases |st.held|, Rank(st.mode)
  {
    match StepOf(st)
    case Wait =>
      pieces, tail := [], consumed + st.held;
    case Go(d, m, fs) =>
      ReachableStep(st);
      StepProgress(st);
      var next, past := State(m, st.held[d..]), consumed + st.held[..d];
      CutAt(consumed, st.held, d);
      if m.Body? {
        var header' := HeaderAccepted(st.held, m.head);
        pieces, tail := SoundFrom(next, past, header');
        assert fs == [];
        EmptyInFront(Run(next).frames);
      } else {
        EmptyInFront(next.held);
        pieces, tail := SoundFrom(next, [], []);
        pieces, tail := Extend(st, consumed, header, past, fs, pieces, tail, Run(next).frames);
      }
  }

  lemma Extend(st: State, consumed: seq<byte>, header: seq<byte>, past: seq<byte>, fs: seq<Frame>,
               pieces: seq<Piece>, tail: seq<byte>, frames: seq<Frame>) returns (pieces': seq<Piece>, tail': seq<byte>)
    requires Begun(st, consumed, header) && StepOf(st).Go? && StepOf(st).frames == fs
    requires StepOf(st).discard <= |st.held| && past == consumed + st.held[..StepOf(st).discard]
    requires Explain(pieces, frames)
    ensures Explain(pieces', fs + frames) && Woven(pieces', tail') == past + Woven(pieces, tail)
  {
    if fs == [] {
      pieces', tail' := Discard(past, pieces, tail, frames);
      assert fs + frames == frames;
    } else {
      FrameExplained(st.mode.head, consumed, header, st.held);
      pieces', tail' := [Piece([], past)] + pieces, tail;
      assert pieces'[1..] == pieces && [] + (past + Woven(pieces, tail)) == past + Woven(pieces, tail);
    }
  }

  /** The frames handed over for any stream in any chunks are images found in it, disjoint and in order. */
  lemma AcceptanceIsSound(chunks: seq<seq<byte>>) returns (pieces: seq<Piece>, tail: seq<byte>)
    ensures Woven(pieces, tail) == Flatten(chunks)
    ensures Explain(pieces, FeedAll(State(Hunt, []), chunks).frames)
  {
    ChunkingIndependent(State(Hunt, []), chunks);
    assert [] + Flatten(chunks) == Flatten(chunks);
    pieces, tail := SoundFrom(State(Hunt, Flatten(chunks)), [], []);
  }
}
