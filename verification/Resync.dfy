/**
 What the receiver guarantees about whole streams: frames survive the trip, no intact frame is lost to garbage in
 front of it, and every frame handed over is a well-formed piece of the input.
 */
module Resync {
  import opened Sequences
  import opened Bytes
  import opened Stuffing
  import opened FrameFormat
  import opened Deframer

  /** The wire bytes of header and body. */
  function Image(header: seq<byte>, body: seq<byte>): seq<byte> {
    SEPARATORS + Stuff(header) + Stuff(body)
  }

  // ----- one frame -----

  lemma StuffedBlockIsRead(data: seq<byte>, t: seq<byte>)
    requires data != []
    ensures var s := Stuff(data) + t;
            && |data| <= Counted(s) && BlockLength(s, |data|) == |Stuff(data)|
            && s[..|Stuff(data)|] == Stuff(data)
            && FirstBad(Stuff(data), 0) == |Stuff(data)| && Strip(Stuff(data)) == data
  {
    StuffedBlock(data, t);
    StripOfStuff(data);
    BlockIsClean(Stuff(data) + t, |data|);
  }

  lemma BehindSeparators(raw: seq<byte>, t: seq<byte>)
    ensures (SEPARATORS + raw + t)[FRAME_SEPARATORS_COUNT..] == raw + t
  {}

  lemma HeaderIsRead(header: seq<byte>, h: Head, t: seq<byte>)
    requires |header| == PURE_HEADER_SIZE && DecodeHeader(header) == Some(h)
    ensures HeaderStep(SEPARATORS + Stuff(header) + t) == Go(FRAME_SEPARATORS_COUNT + |Stuff(header)|, Body(h), [])
  {
    StuffedBlockIsRead(header, t);
    BehindSeparators(Stuff(header), t);
  }

  lemma BodyIsRead(h: Head, body: seq<byte>, f: Frame, t: seq<byte>)
    requires |body| == BodySize(h) && DecodeBody(h, body) == Some(f)
    ensures BodyStep(h, Stuff(body) + t) == Go(|Stuff(body)|, Hunt, [f])
  {
    StuffedBlockIsRead(body, t);
  }

  lemma StartOfBlock(header: seq<byte>, t: seq<byte>)
    requires header != [] && header[0] != SEPARATOR_BYTE
    ensures var s := SEPARATORS + Stuff(header) + t;
            |s| > 2 && s[0] == s[1] == SEPARATOR_BYTE && s[2] != SEPARATOR_BYTE
  {
    FirstOfStuff(header);
  }

  lemma StartOfImage(header: seq<byte>, body: seq<byte>, f: Frame, t: seq<byte>)
    requires WellFormed(header, body, f)
    ensures var s := Image(header, body) + t;
            |s| > 2 && s[0] == s[1] == SEPARATOR_BYTE && s[2] != SEPARATOR_BYTE
  {
    NotSeparator(header[0]);
    StartOfBlock(header, Stuff(body) + t);
  }

  lemma NotSeparator(b: byte)
    requires b as int <= MAX_FRAME_SIZE
    ensures b != SEPARATOR_BYTE
  {}

  /** A step that discards exactly a. */
  lemma RunPast(m: Mode, a: seq<byte>, t: seq<byte>, m': Mode, fs: seq<Frame>)
    requires StepOf(State(m, a + t)) == Go(|a|, m', fs)
    ensures var rest := Run(State(m', t)); Run(State(m, a + t)) == Result(fs + rest.frames, rest.state)
  {
    StepProgress(State(m, a + t));
    assert (a + t)[|a|..] == t;
  }

  lemma BodyDelivered(h: Head, body: seq<byte>, f: Frame, t: seq<byte>)
    requires |body| == BodySize(h) && DecodeBody(h, body) == Some(f)
    ensures var rest := Run(State(Hunt, t));
            Run(State(Body(h), Stuff(body) + t)) == Result([f] + rest.frames, rest.state)
  {
    BodyIsRead(h, body, f, t);
    RunPast(Body(h), Stuff(body), t, Hunt, [f]);
  }

  lemma HeaderPassed(header: seq<byte>, h: Head, t: seq<byte>)
    requires |header| == PURE_HEADER_SIZE && DecodeHeader(header) == Some(h)
    ensures Run(State(Header, SEPARATORS + Stuff(header) + t)) == Run(State(Body(h), t))
  {
    HeaderIsRead(header, h, t);
    RunPast(Header, SEPARATORS + Stuff(header), t, Body(h), []);
    assert [] + Run(State(Body(h), t)).frames == Run(State(Body(h), t)).frames;
  }

  lemma StartPassed(s: seq<byte>)
    requires |s| > 2 && s[0] == s[1] == SEPARATOR_BYTE && s[2] != SEPARATOR_BYTE
    ensures Run(State(Hunt, s)) == Run(State(Header, s))
  {
    assert [] + s == s;
    RunPast(Hunt, [], s, Header, []);
    assert [] + Run(State(Header, s)).frames == Run(State(Header, s)).frames;
  }

  /** A hunting receiver takes an intact frame and goes on with what follows as if it had just been started. */
  lemma FrameDelivered(header: seq<byte>, body: seq<byte>, f: Frame, t: seq<byte>)
    requires WellFormed(header, body, f)
    ensures var rest := Run(State(Hunt, t));
            Run(State(Hunt, Image(header, body) + t)) == Result([f] + rest.frames, rest.state)
  {
    StartOfImage(header, body, f, t);
    StartPassed(Image(header, body) + t);
    AcceptedIffWellFormed(header, body, f);
    var h := DecodeHeader(header).value;
    ConcatAssociative(SEPARATORS + Stuff(header), Stuff(body), t);
    HeaderPassed(header, h, Stuff(body) + t);
    BodyDelivered(h, body, f, t);
  }

  /** A frame that is refused, for its checksum or its CRC, costs its own bytes and no others. */
  lemma RefusedFrameSkipped(header: seq<byte>, h: Head, body: seq<byte>, t: seq<byte>)
    requires |header| == PURE_HEADER_SIZE && DecodeHeader(header) == Some(h)
    requires |body| == BodySize(h) && JudgeBody(h, body) != COMPLETE_FRAME
    ensures Run(State(Hunt, Image(header, body) + t)) == Run(State(Hunt, t))
  {
    NotSeparator(header[0]);
    StartOfBlock(header, Stuff(body) + t);
    ConcatAssociative(SEPARATORS + Stuff(header), Stuff(body), t);
    StartPassed(Image(header, body) + t);
    HeaderPassed(header, h, Stuff(body) + t);
    StuffedBlockIsRead(body, t);
    RunPast(Body(h), Stuff(body), t, Hunt, []);
    EmptyInFront(Run(State(Hunt, t)).frames);
  }

  /** And so does a header that announces too little or too much. */
  lemma RefusedHeaderSkipped(header: seq<byte>, t: seq<byte>)
    requires |header| == PURE_HEADER_SIZE && header[0] != SEPARATOR_BYTE && DecodeHeader(header) == None
    ensures Run(State(Hunt, SEPARATORS + Stuff(header) + t)) == Run(State(Hunt, t))
  {
    StartOfBlock(header, t);
    StartPassed(SEPARATORS + Stuff(header) + t);
    StuffedBlockIsRead(header, t);
    BehindSeparators(Stuff(header), t);
    RunPast(Header, SEPARATORS + Stuff(header), t, Hunt, []);
    EmptyInFront(Run(State(Hunt, t)).frames);
  }

  // ----- streams of frames and junk -----

  /** A message and the junk that precedes it on the line. */
  datatype Item = Item(junk: seq<byte>, frameType: byte, data: seq<byte>, useCrc: bool)

  predicate NoPair(s: seq<byte>) {
    forall i :: 0 < i < |s| ==> !(s[i - 1] == SEPARATOR_BYTE && s[i] == SEPARATOR_BYTE)
  }

  predicate Sendable(item: Item) {
    |item.data| <= MAX_DATA_SIZE && NoPair(item.junk)
  }

  function FrameOf(item: Item): Frame {
    MakeFrame(item.frameType, item.data, item.useCrc)
  }

  function Wire(items: seq<Item>): seq<byte> {
    if items == [] then [] else items[0].junk + (Encode(FrameOf(items[0])) + Wire(items[1..]))
  }

  function Frames(items: seq<Item>): seq<Frame> {
    if items == [] then [] else [FrameOf(items[0])] + Frames(items[1..])
  }

  /** Junk without a pair of separators is discarded without leaving the hunt, even if it ends in a separator. */
  lemma {:induction false} JunkSkipped(junk: seq<byte>, s: seq<byte>)
    requires NoPair(junk) && |s| > 2 && s[0] == s[1] == SEPARATOR_BYTE && s[2] != SEPARATOR_BYTE
    ensures Run(State(Hunt, junk + s)) == Run(State(Hunt, s))
    decreases |junk|
  {
    if junk == [] {
      assert junk + s == s;
    } else {
      var all := junk + s;
      var d := if junk[0] == SEPARATOR_BYTE && |junk| > 1 then 2 else 1;
      assert HuntStep(all) == Go(d, Hunt, []) by {
        assert |junk| > 1 ==> !(junk[0] == SEPARATOR_BYTE && junk[1] == SEPARATOR_BYTE);
      }
      assert all[d..] == junk[d..] + s;
      assert all == all[..d] + all[d..];
      RunPast(Hunt, all[..d], all[d..], Hunt, []);
      assert [] + Run(State(Hunt, all[d..])).frames == Run(State(Hunt, all[d..])).frames;
      NoPairSuffix(junk, d);
      JunkSkipped(junk[d..], s);
    }
  }

  /** Junk without a pair of separators that does not end in a separator is discarded, whatever follows. */
  lemma {:induction false} JunkPassed(junk: seq<byte>, s: seq<byte>)
    requires NoPair(junk) && (junk != [] ==> junk[|junk| - 1] != SEPARATOR_BYTE)
    ensures Run(State(Hunt, junk + s)) == Run(State(Hunt, s))
    decreases |junk|
  {
    if junk == [] {
      EmptyInFront(s);
    } else {
      var d := if junk[0] == SEPARATOR_BYTE then 2 else 1;
      assert |junk| > 1 ==> !(junk[0] == SEPARATOR_BYTE && junk[1] == SEPARATOR_BYTE);
      CutJunk(junk, s, d);
      RunPast(Hunt, junk[..d], junk[d..] + s, Hunt, []);
      EmptyInFront(Run(State(Hunt, junk[d..] + s)).frames);
      NoPairSuffix(junk, d);
      JunkPassed(junk[d..], s);
    }
  }

  lemma CutJunk(junk: seq<byte>, s: seq<byte>, d: nat)
    requires d <= |junk|
    ensures junk + s == junk[..d] + (junk[d..] + s)
  {}

  lemma NoPairSuffix(s: seq<byte>, d: nat)
    requires NoPair(s) && d <= |s|
    ensures NoPair(s[d..])
  {
    forall i | 0 < i < |s| - d
      ensures !(s[d..][i - 1] == SEPARATOR_BYTE && s[d..][i] == SEPARATOR_BYTE)
    {
      assert !(s[d + i - 1] == SEPARATOR_BYTE && s[d + i] == SEPARATOR_BYTE);
    }
  }

  lemma ItemDelivered(item: Item, t: seq<byte>)
    requires Sendable(item)
    ensures var rest := Run(State(Hunt, t));
            Run(State(Hunt, item.junk + (Encode(FrameOf(item)) + t))) == Result([FrameOf(item)] + rest.frames, rest.state)
  {
    var f, header := FrameOf(item), HeaderBytes(item.frameType, item.useCrc, ByteOf(|item.data|));
    MadeFrameIsWellFormed(item.frameType, item.data, item.useCrc);
    StartOfImage(header, BodyBytes(f), f, t);
    JunkSkipped(item.junk, Encode(f) + t);
    FrameDelivered(header, BodyBytes(f), f, t);
  }

  lemma {:induction false} WireIsRead(items: seq<Item>)
    requires forall i :: 0 <= i < |items| ==> Sendable(items[i])
    ensures Run(State(Hunt, Wire(items))) == Result(Frames(items), State(Hunt, []))
  {
    if items != [] {
      WireIsRead(items[1..]);
      ItemDelivered(items[0], Wire(items[1..]));
    }
  }

  /** Any chunked delivery of the wire bytes yields exactly the frames sent, in order, and an empty hunting receiver. */
  lemma StreamRoundTrip(items: seq<Item>, chunks: seq<seq<byte>>)
    requires forall i :: 0 <= i < |items| ==> Sendable(items[i])
    requires Flatten(chunks) == Wire(items)
    ensures FeedAll(State(Hunt, []), chunks) == Result(Frames(items), State(Hunt, []))
  {
    ChunkingIndependent(State(Hunt, []), chunks);
    assert [] + Wire(items) == Wire(items);
    WireIsRead(items);
  }

  // ----- self-synchronisation -----

  /** What every reachable receiver state satisfies. */
  predicate Reachable(st: State) {
    && (st.mode == Header ==>
          |st.held| > 2 && st.held[0] == st.held[1] == SEPARATOR_BYTE && st.held[2] != SEPARATOR_BYTE)
    && (st.mode.Body? ==> st.mode.head.dataSize <= MAX_DATA_SIZE)
  }

  lemma ReachableGrows(st: State, t: seq<byte>)
    requires Reachable(st)
    ensures Reachable(State(st.mode, st.held + t))
  {}

  lemma ReachableStep(st: State)
    requires Reachable(st) && StepOf(st).Go?
    ensures var Go(d, m, _) := StepOf(st); d <= |st.held| && Reachable(State(m, st.held[d..]))
  {
    StepProgress(st);
  }

  lemma {:induction false} ReachableRun(st: State)
    requires Reachable(st)
    ensures Reachable(Run(st).state)
    decreases |st.held|, Rank(st.mode)
  {
    if StepOf(st).Go? {
      ReachableStep(st);
      StepProgress(st);
      ReachableRun(State(StepOf(st).mode, st.held[StepOf(st).discard..]));
    }
  }

  /** Too few bytes for a frame: it takes eight counted bytes of header and at least one of body. */
  predicate Few(st: State) {
    Reachable(st) && if st.mode.Body? then Counted(st.held) == 0 else Counted(st.held) <= PURE_HEADER_SIZE
  }

  lemma CountedCut(s: seq<byte>, d: nat)
    requires d <= |s|
    ensures Counted(s) == Counted(s[..d]) + Counted(s[d..])
  {
    CountedSuffix(s[..d], s[d..]);
    assert s == s[..d] + s[d..];
  }

  lemma AfterHeaderBlock(s: seq<byte>)
    requires |s| >= 2 && Counted(s[2..]) >= PURE_HEADER_SIZE
    ensures var d := 2 + BlockLength(s[2..], PURE_HEADER_SIZE);
            d <= |s| && Counted(s[d..]) == Counted(s[2..]) - PURE_HEADER_SIZE
  {
    var raw := s[2..];
    var k := BlockLength(raw, PURE_HEADER_SIZE);
    BlockLengthEnds(raw, PURE_HEADER_SIZE);
    CountedCut(raw, k);
    assert raw[k..] == s[2 + k..];
  }

  lemma FewInHunt(s: seq<byte>)
    requires Few(State(Hunt, s)) && HuntStep(s).Go?
    ensures var Go(d, m, fs) := HuntStep(s); d <= |s| && fs == [] && Few(State(m, s[d..]))
  {
    CountedCut(s, HuntStep(s).discard);
  }

  lemma FewInHeader(s: seq<byte>)
    requires Few(State(Header, s)) && HeaderStep(s).Go?
    ensures var Go(d, m, fs) := HeaderStep(s); d <= |s| && fs == [] && Few(State(m, s[d..]))
  {
    ReachableStep(State(Header, s));
    CountedCut(s, HeaderStep(s).discard);
    CountedCut(s, 2);
    AfterHeaderBlock(s);
  }

  lemma FewStep(st: State)
    requires Few(st) && StepOf(st).Go?
    ensures var Go(d, m, fs) := StepOf(st); d <= |st.held| && fs == [] && Few(State(m, st.held[d..]))
  {
    match st.mode
    case Hunt => FewInHunt(st.held);
    case Header => FewInHeader(st.held);
    case Body(_) => assert false;
  }

  /** Fewer than nine counted bytes never make a frame. */
  lemma {:induction false} FewBytesNoFrame(st: State)
    requires Few(st)
    ensures Run(st).frames == []
    decreases |st.held|, Rank(st.mode)
  {
    if StepOf(st).Go? {
      FewStep(st);
      StepProgress(st);
      FewBytesNoFrame(State(StepOf(st).mode, st.held[StepOf(st).discard..]));
    }
  }

  /** No receiver state needs more than this many counted bytes to decide on its block. */
  const LARGEST_BLOCK := MAX_DATA_SIZE + 3

  lemma CountedSuffix(p: seq<byte>, s: seq<byte>)
    ensures Counted(p + s) == Counted(p) + Counted(s)
  {
    SeparatorsOfConcat(p, s);
  }

  /** A block that reaches into the separators of a frame has an escape error there or before. */
  lemma BlockHitsSeparators(q: seq<byte>, s: seq<byte>, n: nat)
    requires 0 < n && Counted(q) < n <= Counted(q + s)
    requires |s| > 2 && s[0] == s[1] == SEPARATOR_BYTE
    ensures var block := (q + s)[..BlockLength(q + s, n)]; FirstBad(block, 0) < |block| && FirstBad(block, 0) <= |q| + 1
  {
    var raw, k := q + s, BlockLength(q + s, n);
    BlockLengthEnds(raw, n);
    assert raw[..|q|] == q;
    if k <= |q| {
      CountedMonotone(raw, k, |q|);
      assert false;
    }
    assert raw[|q|] == s[0] && raw[|q| + 1] == s[1];
    assert k > |q| + 2;
    assert BadAt(raw[..k], |q| + 1);
  }

  /** In front of an intact frame no step discards a byte of the frame. */
  lemma StepKeepsFrame(m: Mode, p: seq<byte>, s: seq<byte>)
    requires Reachable(State(m, p)) && (m == Hunt ==> p != [])
    requires |s| > 2 && s[0] == s[1] == SEPARATOR_BYTE && s[2] != SEPARATOR_BYTE && LARGEST_BLOCK <= Counted(s)
    ensures var step := StepOf(State(m, p + s));
            step.Go? && step.discard <= |p| && Reachable(State(step.mode, p[step.discard..]))
  {
    if StepOf(State(m, p)) != Wait {
      StepStable(m, p, s);
      ReachableStep(State(m, p));
    } else {
      match m
      case Hunt =>
      case Header =>
        var q := p[FRAME_SEPARATORS_COUNT..];
        assert (p + s)[FRAME_SEPARATORS_COUNT..] == q + s;
        CountedSuffix(q, s);
        BlockHitsSeparators(q, s, PURE_HEADER_SIZE);
      case Body(h) =>
        CountedSuffix(p, s);
        BlockHitsSeparators(p, s, BodySize(h));
    }
  }

  lemma StepTowardsFrame(m: Mode, p: seq<byte>, s: seq<byte>) returns (d: nat, m': Mode, fs: seq<Frame>)
    requires Reachable(State(m, p)) && (m == Hunt ==> p != [])
    requires |s| > 2 && s[0] == s[1] == SEPARATOR_BYTE && s[2] != SEPARATOR_BYTE && LARGEST_BLOCK <= Counted(s)
    ensures d <= |p| && (d > 0 || Rank(m') < Rank(m)) && Reachable(State(m', p[d..]))
    ensures var r := Run(State(m', p[d..] + s)); Run(State(m, p + s)) == Result(fs + r.frames, r.state)
  {
    StepKeepsFrame(m, p, s);
    StepProgress(State(m, p + s));
    var step := StepOf(State(m, p + s));
    d, m', fs := step.discard, step.mode, step.frames;
    CutInFront(p, s, d);
    RunPast(m, p[..d], p[d..] + s, m', fs);
  }

  /** The receiver works its way to s and then behaves as if it had been started there. */
  lemma {:induction false} ReachesFrame(m: Mode, p: seq<byte>, s: seq<byte>) returns (before: seq<Frame>)
    requires Reachable(State(m, p))
    requires |s| > 2 && s[0] == s[1] == SEPARATOR_BYTE && s[2] != SEPARATOR_BYTE && LARGEST_BLOCK <= Counted(s)
    ensures var rest := Run(State(Hunt, s)); Run(State(m, p + s)) == Result(before + rest.frames, rest.state)
    decreases |p|, Rank(m)
  {
    if m == Hunt && p == [] {
      before := [];
      assert p + s == s && before + Run(State(Hunt, s)).frames == Run(State(Hunt, s)).frames;
    } else {
      var d, m', fs := StepTowardsFrame(m, p, s);
      var later := ReachesFrame(m', p[d..], s);
      before := fs + later;
      ConcatAssociative(fs, later, Run(State(Hunt, s)).frames);
    }
  }

  /**
   An intact frame is never lost. Whatever state the receiver is in and whatever garbage p it holds, once the frame and
   what follows it contain 236 bytes other than 0xFF, the frame has been handed over, and what follows it is parsed as
   by a receiver that has just been started.
   */
  lemma SelfSynchronising(m: Mode, p: seq<byte>, header: seq<byte>, body: seq<byte>, f: Frame, t: seq<byte>)
    returns (before: seq<Frame>)
    requires Reachable(State(m, p)) && WellFormed(header, body, f)
    requires LARGEST_BLOCK <= Counted(Image(header, body) + t)
    ensures var rest := Run(State(Hunt, t));
            Run(State(m, p + (Image(header, body) + t))) == Result(before + ([f] + rest.frames), rest.state)
  {
    StartOfImage(header, body, f, t);
    FrameDelivered(header, body, f, t);
    before := ReachesFrame(m, p, Image(header, body) + t);
  }

  /** The same of a frame that the constructor makes, behind any garbage and whatever follows it. */
  lemma FrameFound(frameType: byte, data: seq<byte>, useCrc: bool, g: seq<byte>, t: seq<byte>)
    returns (before: seq<Frame>, after: seq<Frame>)
    requires |data| <= MAX_DATA_SIZE && LARGEST_BLOCK <= Counted(Encode(MakeFrame(frameType, data, useCrc)) + t)
    ensures var f := MakeFrame(frameType, data, useCrc);
            Run(State(Hunt, g + (Encode(f) + t))).frames == before + ([f] + after)
  {
    var f, header := MakeFrame(frameType, data, useCrc), HeaderBytes(frameType, useCrc, ByteOf(|data|));
    MadeFrameIsWellFormed(frameType, data, useCrc);
    before := SelfSynchronising(Hunt, g, header, BodyBytes(f), f, t);
    after := Run(State(Hunt, t)).frames;
  }

  /** The beginning of a frame with 233 data bytes and a CRC. */
  const LARGEST_START: seq<byte> := SEPARATORS + [0xF1, 0x40, 0, 0, 0, 0, 0, 0]

  /** Having received it, the receiver waits for 236 counted bytes of body. */
  lemma LargestStartRead(t: seq<byte>) returns (h: Head)
    ensures BodySize(h) == LARGEST_BLOCK && Run(State(Hunt, LARGEST_START + t)) == Run(State(Body(h), t))
  {
    var header: seq<byte> := [0xF1, 0x40, 0, 0, 0, 0, 0, 0];
    h := DecodeHeader(header).value;
    PlainBytes(header);
    assert LARGEST_START + t == SEPARATORS + Stuff(header) + t;
    StartPassed(LARGEST_START + t);
    HeaderPassed(header, h, t);
  }

  lemma CountedSeparators()
    ensures Counted(SEPARATORS) == 0
  {
    var one: seq<byte> := [SEPARATOR_BYTE];
    assert one[..0] == [] && Separators(one) == 1;
    assert SEPARATORS[..1] == one && SEPARATORS[1] == SEPARATOR_BYTE;
  }

  lemma CountedImage(header: seq<byte>, body: seq<byte>)
    ensures Counted(Image(header, body)) == |header| + |body|
  {
    StripOfStuff(header);
    StripOfStuff(body);
    CountedSeparators();
    CountedSuffix(SEPARATORS, Stuff(header));
    CountedSuffix(SEPARATORS + Stuff(header), Stuff(body));
  }

  lemma EncodingCount(f: Frame)
    ensures Counted(Encode(f)) == PURE_HEADER_SIZE + |BodyBytes(f)|
  {
    CountedImage(HeaderBytes(f.frameType, f.useCrc, ByteOf(|f.data|)), BodyBytes(f));
  }

  lemma Undelivered(h: Head, t: seq<byte>)
    requires BodySize(h) == LARGEST_BLOCK && Counted(t) < LARGEST_BLOCK
    ensures Run(State(Body(h), t)) == Result([], State(Body(h), t))
  {}

  lemma OneZeroMore(s: seq<byte>)
    ensures Counted(s + [0]) == Counted(s) + 1
  {
    CountedSuffix(s, [0]);
    PlainBytes([0]);
  }

  /**
   The bound is tight. A receiver that has got the beginning of a largest frame, and then any intact frame and zeros that
   make it 235 counted bytes, has handed over nothing; one zero more and the frame is among those handed over.
   */
  lemma SynchronisationBoundIsTight(frameType: byte, data: seq<byte>, useCrc: bool)
    returns (filler: seq<byte>, before: seq<Frame>, after: seq<Frame>)
    requires PURE_HEADER_SIZE + |data| + 3 < LARGEST_BLOCK
    ensures filler == Zeros(|filler|)
    ensures var f := MakeFrame(frameType, data, useCrc);
            && Counted(Encode(f) + filler) == LARGEST_BLOCK - 1
            && Run(State(Hunt, LARGEST_START + (Encode(f) + filler))).frames == []
            && Run(State(Hunt, LARGEST_START + (Encode(f) + (filler + [0])))).frames == before + ([f] + after)
  {
    var f := MakeFrame(frameType, data, useCrc);
    EncodingCount(f);
    var n := LARGEST_BLOCK - 1 - Counted(Encode(f));
    filler := Zeros(n);
    PlainBytes(filler);
    CountedSuffix(Encode(f), filler);
    var h := LargestStartRead(Encode(f) + filler);
    Undelivered(h, Encode(f) + filler);
    OneZeroMore(Encode(f) + filler);
    ConcatAssociative(Encode(f), filler, [0]);
    before, after := FrameFound(frameType, data, useCrc, LARGEST_START, filler + [0]);
  }

  // ----- reachability over any number of reads -----

  /** Whatever has been received, in whatever chunks, self-synchronisation can start from there. */
  lemma {:induction false} ReachableFeed(st: State, chunks: seq<seq<byte>>)
    requires Reachable(st)
    ensures Reachable(FeedAll(st, chunks).state)
    decreases |chunks|
  {
    if chunks != [] {
      ReachableGrows(st, chunks[0]);
      ReachableRun(State(st.mode, st.held + chunks[0]));
      ReachableFeed(Feed(st, chunks[0]).state, chunks[1..]);
    }
  }
}
