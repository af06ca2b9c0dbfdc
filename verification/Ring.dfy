/**
 The receiver behind a ring buffer of limited capacity. A read that finds no room costs the oldest held bytes, so that not
 every frame can be received; this module says which ones can.
 */
module Rings {
  import opened Sequences
  import opened Bytes
  import opened Stuffing
  import opened FrameFormat
  import opened Deframer
  import opened Resync
  import opened Soundness

  /** What a read of a stream leaves to be parsed. A frame begun is forgotten if held bytes are lost. */
  function RingRead(capacity: nat, st: State, stream: seq<byte>): (next: State)
    requires |st.held| <= capacity
    ensures |next.held| <= capacity
  {
    var all := st.held + stream[..Min(|stream|, capacity)];
    if |all| <= capacity then State(st.mode, all) else State(Hunt, all[|all| - capacity..])
  }

  /** A parser that has parsed next may keep st: there is nothing in it to hand over and it leads to the same state. */
  predicate KeptOf(capacity: nat, next: State, st: State) {
    |st.held| <= capacity && Reachable(st) && Run(st) == Result([], Run(next).state)
  }

  /** From st on, reads of these streams, one after the other, can leave these states. */
  predicate Ringing(capacity: nat, st: State, streams: seq<seq<byte>>, kept: seq<State>)
    requires |st.held| <= capacity
    decreases |streams|
  {
    && |kept| == |streams|
    && (streams != [] ==>
          && KeptOf(capacity, RingRead(capacity, st, streams[0]), kept[0])
          && Ringing(capacity, kept[0], streams[1..], kept[1..]))
  }

  /** The frames handed over on the way. */
  function HandedOver(capacity: nat, st: State, streams: seq<seq<byte>>, kept: seq<State>): seq<Frame>
    requires |st.held| <= capacity && Ringing(capacity, st, streams, kept)
    decreases |streams|
  {
    if streams == [] then []
    else Run(RingRead(capacity, st, streams[0])).frames + HandedOver(capacity, kept[0], streams[1..], kept[1..])
  }

  /** A new receiver with a ring of this capacity can be brought to hand over f. */
  ghost predicate CanHandOver(capacity: nat, f: Frame) {
    exists streams, kept ::
      Ringing(capacity, State(Hunt, []), streams, kept) && f in HandedOver(capacity, State(Hunt, []), streams, kept)
  }

  // ----- only if -----

  lemma StepFits(st: State, f: Frame)
    requires StepOf(st).Go? && f in StepOf(st).frames
    ensures |Stuff(BodyBytes(f))| <= |st.held|
  {
    var h := st.mode.head;
    var body := BodyAccepted(h, st.held);
    AcceptedBody(h, body);
  }

  /** A frame handed over has had its whole body held at once. */
  lemma {:induction false} FramesFit(st: State, f: Frame)
    requires f in Run(st).frames
    ensures |Stuff(BodyBytes(f))| <= |st.held|
    decreases |st.held|, Rank(st.mode)
  {
    StepProgress(st);
    var step := StepOf(st);
    if f in step.frames {
      StepFits(st, f);
    } else {
      FramesFit(State(step.mode, st.held[step.discard..]), f);
    }
  }

  lemma {:induction false} HandedOverFits(capacity: nat, st: State, streams: seq<seq<byte>>, kept: seq<State>, f: Frame)
    requires |st.held| <= capacity && Ringing(capacity, st, streams, kept)
    requires f in HandedOver(capacity, st, streams, kept)
    ensures |Stuff(BodyBytes(f))| <= capacity
    decreases |streams|
  {
    var next := RingRead(capacity, st, streams[0]);
    if f in Run(next).frames {
      FramesFit(next, f);
    } else {
      HandedOverFits(capacity, kept[0], streams[1..], kept[1..], f);
    }
  }

  // ----- if -----

  lemma {:induction false} RunShrinks(st: State)
    ensures |Run(st).state.held| <= |st.held|
    decreases |st.held|, Rank(st.mode)
  {
    StepProgress(st);
    if StepOf(st).Go? {
      RunShrinks(State(StepOf(st).mode, st.held[StepOf(st).discard..]));
    }
  }

  /** What is held when k bytes of a frame have been received. */
  function HeldAt(e: seq<byte>, k: nat): State
    requires k <= |e|
  {
    Run(State(Hunt, e[..k])).state
  }

  predicate RoomAt(capacity: nat, e: seq<byte>, k: nat)
    requires k <= |e|
  {
    |HeldAt(e, k).held| < capacity
  }

  lemma CutInBody(a: seq<byte>, b: seq<byte>, k: nat)
    requires |a| <= k <= |a + b|
    ensures (a + b)[..k] == a + b[..k - |a|]
  {}

  /** Before the last byte of a frame no more is held than its header, or than its body without one byte. */
  lemma FrameFindsRoom(capacity: nat, header: seq<byte>, body: seq<byte>, f: Frame, k: nat)
    requires WellFormed(header, body, f) && |Stuff(body)| <= capacity && 18 <= capacity
    requires k < |Image(header, body)|
    ensures RoomAt(capacity, Image(header, body), k)
  {
    var e, start := Image(header, body), SEPARATORS + Stuff(header);
    RunShrinks(State(Hunt, e[..k]));
    StuffLength(header);
    if k >= |start| {
      var t := Stuff(body)[..k - |start|];
      CutInBody(start, Stuff(body), k);
      AcceptedIffWellFormed(header, body, f);
      NotSeparator(header[0]);
      StartOfBlock(header, t);
      StartPassed(start + t);
      HeaderPassed(header, DecodeHeader(header).value, t);
      RunShrinks(State(Body(DecodeHeader(header).value), t));
    }
  }

  function Singles(s: seq<byte>): (streams: seq<seq<byte>>)
    ensures |streams| == |s|
  {
    if s == [] then [] else [[s[0]]] + Singles(s[1..])
  }

  lemma OneByteRead(capacity: nat, e: seq<byte>, k: nat)
    requires k < |e| && RoomAt(capacity, e, k)
    ensures var next := RingRead(capacity, HeldAt(e, k), [e[k]]);
            && next == State(HeldAt(e, k).mode, HeldAt(e, k).held + [e[k]])
            && Run(State(Hunt, e[..k + 1])).frames == Run(State(Hunt, e[..k])).frames + Run(next).frames
            && HeldAt(e, k + 1) == Run(next).state
  {
    assert e[..k + 1] == e[..k] + [e[k]];
    RunInTwo(Hunt, e[..k], [e[k]]);
    assert HeldAt(e, k).held[0..] == HeldAt(e, k).held && [e[k]][..1] == [e[k]];
  }

  lemma HeldIsKept(capacity: nat, e: seq<byte>, k: nat, next: State)
    requires k <= |e| && |HeldAt(e, k).held| <= capacity && HeldAt(e, k) == Run(next).state
    ensures KeptOf(capacity, next, HeldAt(e, k))
  {
    ReachableRun(State(Hunt, e[..k]));
  }

  lemma RingingGrows(capacity: nat, st: State, stream: seq<byte>, streams: seq<seq<byte>>, k: State, kept: seq<State>)
    requires |st.held| <= capacity && KeptOf(capacity, RingRead(capacity, st, stream), k)
    requires Ringing(capacity, k, streams, kept)
    ensures Ringing(capacity, st, [stream] + streams, [k] + kept)
    ensures HandedOver(capacity, st, [stream] + streams, [k] + kept)
            == Run(RingRead(capacity, st, stream)).frames + HandedOver(capacity, k, streams, kept)
  {
    FirstAndRest(stream, streams);
    FirstAndRest(k, kept);
  }

  lemma FirstAndRest<T>(first: T, rest: seq<T>)
    ensures var all := [first] + rest; all[0] == first && all[1..] == rest
  {}

  lemma SinglesGrow(e: seq<byte>, k: nat)
    requires k < |e|
    ensures Singles(e[k..]) == [[e[k]]] + Singles(e[k + 1..])
  {
    assert e[k..][1..] == e[k + 1..];
  }

  /** Byte by byte the rest of e is received without loss, if there is always room for one more. */
  lemma {:induction false} Bytewise(capacity: nat, e: seq<byte>, k: nat) returns (kept: seq<State>)
    requires k <= |e| && forall j :: k <= j < |e| ==> RoomAt(capacity, e, j)
    requires |HeldAt(e, k).held| <= capacity && |HeldAt(e, |e|).held| <= capacity
    ensures Ringing(capacity, HeldAt(e, k), Singles(e[k..]), kept)
    ensures Run(State(Hunt, e[..|e|])).frames
            == Run(State(Hunt, e[..k])).frames + HandedOver(capacity, HeldAt(e, k), Singles(e[k..]), kept)
    decreases |e| - k
  {
    if k == |e| {
      kept := [];
      EmptyBehind(Run(State(Hunt, e[..k])).frames);
    } else {
      assert RoomAt(capacity, e, k) && (k + 1 < |e| ==> RoomAt(capacity, e, k + 1));
      var next := RingRead(capacity, HeldAt(e, k), [e[k]]);
      OneByteRead(capacity, e, k);
      var rest := Bytewise(capacity, e, k + 1);
      HeldIsKept(capacity, e, k + 1, next);
      SinglesGrow(e, k);
      RingingGrows(capacity, HeldAt(e, k), [e[k]], Singles(e[k + 1..]), HeldAt(e, k + 1), rest);
      kept := [HeldAt(e, k + 1)] + rest;
      ConcatAssociative(Run(State(Hunt, e[..k])).frames, Run(next).frames,
                        HandedOver(capacity, HeldAt(e, k + 1), Singles(e[k + 1..]), rest));
    }
  }

  /**
   A receiver with a ring of this capacity can be brought to hand over a frame if and only if its stuffed body, checksum
   and CRC included, fits the ring.
   */
  lemma HandsOverIff(capacity: nat, header: seq<byte>, f: Frame)
    requires 18 <= capacity && WellFormed(header, BodyBytes(f), f)
    ensures CanHandOver(capacity, f) <==> |Stuff(BodyBytes(f))| <= capacity
  {
    if CanHandOver(capacity, f) {
      var streams, kept :|
        Ringing(capacity, State(Hunt, []), streams, kept) && f in HandedOver(capacity, State(Hunt, []), streams, kept);
      HandedOverFits(capacity, State(Hunt, []), streams, kept, f);
    }
    if |Stuff(BodyBytes(f))| <= capacity {
      FitIsHandedOver(capacity, header, f);
    }
  }

  lemma FitIsHandedOver(capacity: nat, header: seq<byte>, f: Frame)
    requires 18 <= capacity && WellFormed(header, BodyBytes(f), f) && |Stuff(BodyBytes(f))| <= capacity
    ensures CanHandOver(capacity, f)
  {
    var e := Image(header, BodyBytes(f));
    forall j | 0 <= j < |e|
      ensures RoomAt(capacity, e, j)
    {
      FrameFindsRoom(capacity, header, BodyBytes(f), f, j);
    }
    FrameDelivered(header, BodyBytes(f), f, []);
    EmptyBehind(e);
    assert e[..0] == [] && e[0..] == e && e[..|e|] == e;
    RunShrinks(State(Hunt, []));
    var kept := Bytewise(capacity, e, 0);
    EmptyInFront(HandedOver(capacity, State(Hunt, []), Singles(e), kept));
    assert Run(State(Hunt, e)).frames[0] == f;
    assert Ringing(capacity, State(Hunt, []), Singles(e), kept);
  }

  // ----- the frames that senders make -----

  /** The capacity of a protocol handler's ring, unless the user chooses another. */
  const DEFAULT_CAPACITY := MAX_FRAME_SIZE + 10

  lemma MadeFrameHandsOver(capacity: nat, frameType: byte, data: seq<byte>, useCrc: bool)
    requires 18 <= capacity && |data| <= MAX_DATA_SIZE
    ensures var f := MakeFrame(frameType, data, useCrc);
            CanHandOver(capacity, f) <==> |Stuff(BodyBytes(f))| <= capacity
  {
    MadeFrameIsWellFormed(frameType, data, useCrc);
    HandsOverIff(capacity, HeaderBytes(frameType, useCrc, ByteOf(|data|)), MakeFrame(frameType, data, useCrc));
  }

  /** The default ring takes every frame that a sender's eight-bit cursor leaves intact. */
  lemma IntactFitsDefault(frameType: byte, data: seq<byte>, useCrc: bool)
    requires |data| <= MAX_DATA_SIZE && |Encode(MakeFrame(frameType, data, useCrc))| <= 256
    ensures CanHandOver(DEFAULT_CAPACITY, MakeFrame(frameType, data, useCrc))
  {
    StuffLength(HeaderBytes(frameType, useCrc, ByteOf(|data|)));
    MadeFrameHandsOver(DEFAULT_CAPACITY, frameType, data, useCrc);
  }
}
