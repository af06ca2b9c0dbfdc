/**
 What a receiver has made of the chunks that it has read so far.

 FeedsTo and Settles speak of a bound variable that is equal to a term, and mean the term. The quantifier is there for the
 solver: a class invariant that is only carried along does not have the recursive function in it unfolded. SettlesIff says
 what is meant without it.
 */
module Reception {
  import opened Sequences
  import opened Bytes
  import opened Deframer
  import opened FrameFormat

  /** Received in these chunks, frames are what has been handed over and st is the state reached. */
  predicate FeedsTo(chunks: seq<seq<byte>>, frames: seq<Frame>, st: State) {
    forall all :: all == chunks ==>
      FeedAll(State(Hunt, []), all) == Result(frames, st)
  }

  /** The same, st being what a parser has kept: there is nothing in it to hand over. */
  predicate Settles(st: State, chunks: seq<seq<byte>>, frames: seq<Frame>) {
    forall r :: r == Run(st) ==> r.frames == [] && FeedsTo(chunks, frames, r.state)
  }

  lemma SettlesIff(st: State, chunks: seq<seq<byte>>, frames: seq<Frame>)
    ensures Settles(st, chunks, frames)
            <==> Run(st).frames == [] && FeedsTo(chunks, frames, Run(st).state)
  {
    var r := Run(st);
    assert FeedsTo(chunks, frames, r.state) || !FeedsTo(chunks, frames, r.state);
  }

  lemma {:induction false} FeedAllSnoc(st: State, chunks: seq<seq<byte>>, chunk: seq<byte>)
    ensures var first := FeedAll(st, chunks);
            var last := Feed(first.state, chunk);
            FeedAll(st, chunks + [chunk]) == Result(first.frames + last.frames, last.state)
    decreases |chunks|
  {
    if chunks == [] {
      assert [chunk][1..] == [] && chunks + [chunk] == [chunk];
      EmptyBehind(Feed(st, chunk).frames);
      EmptyInFront(Feed(st, chunk).frames);
    } else {
      var next := Feed(st, chunks[0]);
      assert (chunks + [chunk])[0] == chunks[0] && (chunks + [chunk])[1..] == chunks[1..] + [chunk];
      FeedAllSnoc(next.state, chunks[1..], chunk);
      var rest := FeedAll(next.state, chunks[1..]);
      ConcatAssociative(next.frames, rest.frames, Feed(rest.state, chunk).frames);
    }
  }

  /** One chunk more, received by a parser that holds held in mode m and would hand over nothing of it. */
  lemma FeedMore(chunks: seq<seq<byte>>, frames: seq<Frame>, m: Mode, held: seq<byte>, chunk: seq<byte>)
    requires var settled := Run(State(m, held));
             settled.frames == [] && FeedsTo(chunks, frames, settled.state)
    ensures var r := Run(State(m, held + chunk)); FeedsTo(chunks + [chunk], frames + r.frames, r.state)
  {
    var settled := Run(State(m, held));
    FeedAllSnoc(State(Hunt, []), chunks, chunk);
    RunInTwo(m, held, chunk);
    EmptyInFront(Feed(settled.state, chunk).frames);
  }

  lemma FeedAfresh(chunk: seq<byte>)
    ensures var r := Run(State(Hunt, chunk)); FeedsTo([chunk], r.frames, r.state)
  {
    EmptyInFront(chunk);
    EmptyBehind(Run(State(Hunt, chunk)).frames);
    assert [chunk][1..] == [];
  }
}
