/**
 The cursor of the byte-wise parser. Between bytes the code keeps a position, a count of separators in the current
 block and, while hunting, a number of bytes that it will discard; this module says what they mean and why they lead to
 the steps of Deframer.
 */
module ParserCursor {
  import opened Sequences
  import opened Bytes
  import opened Stuffing
  import opened FrameFormat
  import opened Deframer
  import opened Resync

  predicate AllSeparators(s: seq<byte>) {
    forall i :: 0 <= i < |s| ==> s[i] == SEPARATOR_BYTE
  }

  /** Where the code believes it is: no frame start found, start found, header parsed. */
  datatype Stage = Hunting | Started | InBody(head: Head)

  /**
   Hunting: the code takes the bytes between the discardable ones and the cursor for separators, at most two. It is exact
   if they are; a loss of held bytes in the middle of a hunt can put others there.
   */
  predicate HuntCursor(exact: bool, s: seq<byte>, drop: nat, pos: nat) {
    drop <= pos <= |s| && pos - drop <= FRAME_SEPARATORS_COUNT && (exact ==> AllSeparators(s[drop..pos]))
  }

  /** Inside a block that starts at base and is complete with n counted bytes. */
  predicate BlockCursor(s: seq<byte>, base: nat, n: nat, pos: nat, sepCount: nat) {
    base <= pos <= |s| && sepCount == Separators(s[base..pos]) && Counted(s[base..pos]) < n
  }

  /** What the code has seen of a start: the byte behind the two that it takes for separators. */
  predicate Begins(s: seq<byte>) {
    |s| > 2 && s[2] != SEPARATOR_BYTE
  }

  predicate StartsFrame(s: seq<byte>) {
    Begins(s) && s[0] == s[1] == SEPARATOR_BYTE
  }

  /** The mode in the sense of Deframer: behind a false start the receiver is still hunting. */
  function ModeIn(stage: Stage, s: seq<byte>): Mode {
    match stage
    case Hunting => Hunt
    case Started => if StartsFrame(s) then Header else Hunt
    case InBody(h) => Body(h)
  }

  predicate CursorOk(stage: Stage, exact: bool, s: seq<byte>, drop: nat, pos: nat, sepCount: nat) {
    match stage
    case Hunting => HuntCursor(exact, s, drop, pos) && sepCount == 0
    case Started =>
      && drop == 0 && Begins(s) && (exact ==> StartsFrame(s)) && 2 < pos
      && BlockCursor(s, FRAME_SEPARATORS_COUNT, PURE_HEADER_SIZE, pos, sepCount)
    case InBody(h) =>
      drop == 0 && h.dataSize <= MAX_DATA_SIZE && BlockCursor(s, 0, BodySize(h), pos, sepCount)
  }

  /** Bytes that arrive behind the cursor do not disturb it. */
  lemma CursorOkGrows(stage: Stage, exact: bool, s: seq<byte>, t: seq<byte>, drop: nat, pos: nat, sepCount: nat)
    requires CursorOk(stage, exact, s, drop, pos, sepCount)
    ensures CursorOk(stage, exact, s + t, drop, pos, sepCount) && ModeIn(stage, s + t) == ModeIn(stage, s)
  {
    match stage
    case Hunting => assert (s + t)[drop..pos] == s[drop..pos];
    case Started => assert (s + t)[2..pos] == s[2..pos];
    case InBody(_) => assert (s + t)[0..pos] == s[0..pos];
  }

  lemma CursorReachable(stage: Stage, exact: bool, s: seq<byte>, pos: nat, sepCount: nat)
    requires CursorOk(stage, exact, s, 0, pos, sepCount)
    ensures Reachable(State(ModeIn(stage, s), s))
  {}

  /** At the end of the bytes the parser waits, and hands over nothing even if it is behind a false start. */
  lemma CursorAtEnd(stage: Stage, exact: bool, s: seq<byte>, drop: nat, sepCount: nat)
    requires CursorOk(stage, exact, s, drop, |s|, sepCount)
    ensures var st := State(ModeIn(stage, s[drop..]), s[drop..]);
            Run(st).frames == [] && (exact ==> Run(st) == Result([], st))
  {
    assert s[0..] == s && s[0..|s|] == s;
    assert s[drop..|s|] == s[drop..];
    match stage
    case Hunting => FewBytesNoFrame(State(Hunt, s[drop..]));
    case Started =>
      assert s[2..|s|] == s[2..];
      if !StartsFrame(s) {
        FalseStartWaits(s);
      }
    case InBody(_) =>
  }

  lemma CursorDropped(stage: Stage, exact: bool, s: seq<byte>, drop: nat, sepCount: nat)
    requires CursorOk(stage, exact, s, drop, |s|, sepCount)
    ensures s[drop..][0..] == s[drop..] && (drop == 0 ==> s[drop..] == s)
    ensures CursorOk(stage, exact, s[drop..], 0, |s| - drop, sepCount)
  {
    assert drop == 0 ==> s[drop..] == s;
    assert s[drop..|s|] == s[drop..][0..|s| - drop];
  }

  /** A hunt whose cursor has come to stand behind any bytes at all. */
  lemma CursorKept(exact: bool, s: seq<byte>, pos: nat)
    requires pos <= FRAME_SEPARATORS_COUNT && pos <= |s| && (exact ==> pos == 0)
    ensures CursorOk(Hunting, exact, s, 0, pos, 0)
  {}

  // ----- false starts -----

  lemma FalseStartWaits(s: seq<byte>)
    requires Begins(s) && !StartsFrame(s) && Counted(s[2..]) < PURE_HEADER_SIZE
    ensures Run(State(Hunt, s)).frames == []
  {
    CountedCut(s[2..], 1);
    assert s[2..][1..] == s[3..];
    assert s == s[..3] + s[3..];
    JunkPassed(s[..3], s[3..]);
    FewBytesNoFrame(State(Hunt, s[3..]));
  }

  /** Behind a false start the block up to an escape error, or all of it, is what a hunt discards as well. */
  lemma FalseStartPassed(s: seq<byte>, end: nat, bad: nat)
    requires Begins(s) && !StartsFrame(s) && 2 < end <= |s| && s[end - 1] != SEPARATOR_BYTE
    requires bad == FirstBad(s[2..end], 0)
    ensures bad < end - 2 ==> bad > 1 && Run(State(Hunt, s)) == Run(State(Hunt, s[2 + bad - 1..]))
    ensures bad == end - 2 ==> Run(State(Hunt, s)) == Run(State(Hunt, s[end..]))
  {
    var block := s[2..end];
    assert bad < |block| ==> BadAt(block, bad);
    assert block[0] == s[2];
    var n := if bad < |block| then 2 + bad - 1 else end;
    if bad < |block| {
      assert bad > 1;
      assert !BadAt(block, bad - 1);
      assert block[bad - 2] == s[n - 1];
    }
    var junk := s[..n];
    forall i | 0 < i < |junk|
      ensures !(junk[i - 1] == SEPARATOR_BYTE && junk[i] == SEPARATOR_BYTE)
    {
      if i > 2 {
        assert !BadAt(block, i - 2);
        assert block[i - 2] == s[i] && block[i - 3] == s[i - 1];
      }
    }
    assert s == junk + s[n..];
    JunkPassed(junk, s[n..]);
  }

  /**
   There are false starts: behind two bytes never looked at a 1 seems to start a frame. What is held differs from what a
   hunt would hold; what is handed over does not.
   */
  lemma FalseStartTaken()
    ensures var s: seq<byte> := [0, 0, 1];
            && HuntCursor(false, s, 0, 2) && CursorOk(Started, false, s, 0, 3, 0) && !StartsFrame(s)
            && Run(State(Hunt, s)) == Result([], State(Hunt, []))
  {
    var s: seq<byte> := [0, 0, 1];
    HuntFound(false, s, 0, 2);
    assert s[0..] == s;
    JunkPassed(s, []);
    EmptyBehind(s);
  }

  // ----- hunting -----

  lemma RunSkips(s: seq<byte>, drop: nat, d: nat)
    requires drop + d <= |s| && HuntStep(s[drop..]) == Go(d, Hunt, [])
    ensures Run(State(Hunt, s[drop..])) == Run(State(Hunt, s[drop + d..]))
  {
    var held := s[drop..];
    assert held == held[..d] + held[d..] && held[d..] == s[drop + d..];
    RunPast(Hunt, held[..d], held[d..], Hunt, []);
    assert [] + Run(State(Hunt, s[drop + d..])).frames == Run(State(Hunt, s[drop + d..])).frames;
  }

  /** In front of a third byte that is a separator a hunt discards the first, whatever the two are. */
  lemma FirstOfThreeGoes(s: seq<byte>, drop: nat)
    requires drop + 2 < |s| && s[drop + 2] == SEPARATOR_BYTE
    ensures Run(State(Hunt, s[drop..])) == Run(State(Hunt, s[drop + 1..]))
  {
    if s[drop] == SEPARATOR_BYTE && s[drop + 1] != SEPARATOR_BYTE {
      RunSkips(s, drop, 2);
      RunSkips(s, drop + 1, 1);
    } else {
      RunSkips(s, drop, 1);
    }
  }

  lemma SeparatorJoins(s: seq<byte>, drop: nat, pos: nat, drop': nat)
    requires drop <= drop' <= pos < |s| && AllSeparators(s[drop..pos]) && s[pos] == SEPARATOR_BYTE
    ensures AllSeparators(s[drop'..pos + 1])
  {
    var next, run := s[drop'..pos + 1], s[drop..pos];
    forall i | 0 <= i < |next|
      ensures next[i] == SEPARATOR_BYTE
    {
      assert drop' + i < pos ==> run[drop' + i - drop] == next[i];
    }
  }

  /** A separator joins the run of separators, and pushes the oldest one out if there were two. */
  lemma HuntSeparator(exact: bool, s: seq<byte>, drop: nat, pos: nat, drop': nat)
    requires HuntCursor(exact, s, drop, pos) && pos < |s| && s[pos] == SEPARATOR_BYTE
    requires drop' == if pos + 1 - drop > FRAME_SEPARATORS_COUNT then pos + 1 - FRAME_SEPARATORS_COUNT else drop
    ensures HuntCursor(exact, s, drop', pos + 1)
    ensures Run(State(Hunt, s[drop'..])) == Run(State(Hunt, s[drop..]))
  {
    if exact {
      SeparatorJoins(s, drop, pos, drop');
    }
    if drop' != drop {
      FirstOfThreeGoes(s, drop);
    }
  }

  /** Another byte ends the run: with two separators a frame starts, otherwise all of it is discardable. */
  lemma HuntOther(exact: bool, s: seq<byte>, drop: nat, pos: nat)
    requires HuntCursor(exact, s, drop, pos) && pos < |s| && s[pos] != SEPARATOR_BYTE
    requires pos - drop < FRAME_SEPARATORS_COUNT
    ensures HuntCursor(true, s, pos + 1, pos + 1)
    ensures Run(State(Hunt, s[pos + 1..])) == Run(State(Hunt, s[drop..]))
  {
    if pos > drop && s[drop] != SEPARATOR_BYTE {
      RunSkips(s, drop, 1);
      RunSkips(s, drop + 1, 1);
    } else {
      RunSkips(s, drop, pos + 1 - drop);
    }
  }

  lemma HuntFound(exact: bool, s: seq<byte>, drop: nat, pos: nat)
    requires HuntCursor(exact, s, drop, pos) && pos < |s| && s[pos] != SEPARATOR_BYTE
    requires pos - drop == FRAME_SEPARATORS_COUNT
    ensures CursorOk(Started, exact, s[drop..], 0, pos - drop + 1, 0)
    ensures Run(State(ModeIn(Started, s[drop..]), s[drop..])) == Run(State(Hunt, s[drop..]))
  {
    var t := s[drop..];
    assert t[2] == s[pos];
    assert t[0] == s[drop..pos][0] && t[1] == s[drop..pos][1];
    if StartsFrame(t) {
      StartPassed(t);
    }
    OneCounted(t[2..3]);
  }

  lemma OneCounted(s: seq<byte>)
    requires |s| == 1 && s[0] != SEPARATOR_BYTE
    ensures Separators(s) == 0
  {}

  // ----- blocks -----

  lemma BlockNext(s: seq<byte>, base: nat, n: nat, pos: nat, sepCount: nat)
    requires BlockCursor(s, base, n, pos, sepCount) && pos < |s|
    ensures var sep' := sepCount + if s[pos] == SEPARATOR_BYTE then 1 else 0;
            && sep' == Separators(s[base..pos + 1])
            && Counted(s[base..pos + 1]) <= n
            && (Counted(s[base..pos + 1]) == n ==> s[pos] != SEPARATOR_BYTE)
  {
    var t := s[base..];
    SeparatorsOfNext(t, pos - base);
    assert t[..pos - base] == s[base..pos] && t[..pos + 1 - base] == s[base..pos + 1];
  }

  /** The byte that completes the count completes the block. */
  lemma BlockComplete(s: seq<byte>, base: nat, n: nat, pos: nat)
    requires 0 < n && base <= pos < |s| && Counted(s[base..pos + 1]) == n && s[pos] != SEPARATOR_BYTE
    ensures n <= Counted(s[base..]) && BlockLength(s[base..], n) == pos + 1 - base
    ensures s[base..][..pos + 1 - base] == s[base..pos + 1]
  {
    var t := s[base..];
    assert t[..pos + 1 - base] == s[base..pos + 1];
    BlockLengthUnique(t, n, pos + 1 - base);
  }

  /** A prefix without escape error strips to its counted bytes and the separator it may end in. */
  lemma {:induction false} StripLength(s: seq<byte>)
    requires forall i :: 0 < i < |s| ==> !BadAt(s, i)
    ensures |Strip(s)| == Counted(s) + if s != [] && s[|s| - 1] == SEPARATOR_BYTE then 1 else 0
  {
    if s != [] {
      var front := s[..|s| - 1];
      forall i | 0 < i < |front|
        ensures !BadAt(front, i)
      {
        assert !BadAt(s, i);
      }
      StripLength(front);
      assert |s| > 1 ==> !BadAt(s, |s| - 1);
    }
  }

  /** Un-stuffing a complete block never writes more than its counted bytes. */
  lemma StripFits(block: seq<byte>, k: nat, n: nat)
    requires k <= |block| && Counted(block) == n && (block != [] ==> block[|block| - 1] != SEPARATOR_BYTE)
    requires forall i :: 0 < i < k ==> !BadAt(block, i)
    ensures |Strip(block[..k])| <= n && (k == |block| ==> |Strip(block)| == n)
  {
    var p := block[..k];
    forall i | 0 < i < |p|
      ensures !BadAt(p, i)
    {
      assert !BadAt(block, i);
    }
    StripLength(p);
    SeparatorsOfConcat(p, block[k..]);
    assert block == p + block[k..];
    if k < |block| {
      var rest := block[k..];
      assert rest[|rest| - 1] == block[|block| - 1];
      CountedLast(rest);
    } else {
      assert p == block;
    }
  }

  lemma CountedLast(s: seq<byte>)
    requires s != [] && s[|s| - 1] != SEPARATOR_BYTE
    ensures Counted(s) >= 1
  {}

  /** A cursor at the first held byte, no frame start found or a header just parsed. */
  lemma CursorFresh(stage: Stage, s: seq<byte>)
    requires stage != Started && (stage.InBody? ==> stage.head.dataSize <= MAX_DATA_SIZE)
    ensures CursorOk(stage, true, s, 0, 0, 0)
  {
    assert s[0..0] == [];
  }

  predicate HeaderComplete(s: seq<byte>, pos: nat) {
    Begins(s) && 2 <= pos < |s| && s[pos] != SEPARATOR_BYTE && Counted(s[2..pos + 1]) == PURE_HEADER_SIZE
  }

  predicate BodyComplete(h: Head, s: seq<byte>, pos: nat) {
    pos < |s| && s[pos] != SEPARATOR_BYTE && Counted(s[..pos + 1]) == BodySize(h)
  }

  /** One more header byte: the code's test says whether the header is complete. */
  lemma HeaderNext(exact: bool, s: seq<byte>, pos: nat, sepCount: nat, sepCount': nat)
    requires CursorOk(Started, exact, s, 0, pos, sepCount) && pos < |s|
    requires sepCount' == sepCount + if s[pos] == SEPARATOR_BYTE then 1 else 0
    ensures if pos + 1 - sepCount' == FRAME_HEADER_SIZE then HeaderComplete(s, pos)
            else CursorOk(Started, exact, s, 0, pos + 1, sepCount')
  {
    BlockNext(s, FRAME_SEPARATORS_COUNT, PURE_HEADER_SIZE, pos, sepCount);
  }

  lemma BodyNext(h: Head, exact: bool, s: seq<byte>, pos: nat, sepCount: nat, sepCount': nat)
    requires CursorOk(InBody(h), exact, s, 0, pos, sepCount) && pos < |s|
    requires sepCount' == sepCount + if s[pos] == SEPARATOR_BYTE then 1 else 0
    ensures if pos + 1 - sepCount' == BodySize(h) then BodyComplete(h, s, pos)
            else CursorOk(InBody(h), exact, s, 0, pos + 1, sepCount')
  {
    BlockNext(s, 0, BodySize(h), pos, sepCount);
    assert s[0..pos + 1] == s[..pos + 1];
  }

  // ----- un-stuffing -----

  /** out is what un-stuffing the first k bytes of block has produced, no escape error among them. */
  predicate Unstuffed(block: seq<byte>, k: nat, out: seq<byte>) {
    k <= |block| && (forall i :: 0 < i < k ==> !BadAt(block, i)) && out == Strip(block[..k])
  }

  lemma StripOfPrefix(s: seq<byte>, i: nat)
    requires i < |s|
    ensures Strip(s[..i + 1]) == Strip(s[..i]) + if i > 0 && s[i - 1] == SEPARATOR_BYTE then [] else [s[i]]
  {
    assert s[..i + 1] == s[..i] + [s[i]];
    StripOfSnoc(s[..i], s[i]);
  }

  function Copied(out: seq<byte>, b: byte, afterSeparator: bool): seq<byte> {
    if afterSeparator then out else out + [b]
  }

  lemma UnstuffNext(block: seq<byte>, k: nat, out: seq<byte>, n: nat)
    requires Unstuffed(block, k, out) && k < |block|
    requires Counted(block) == n && block[|block| - 1] != SEPARATOR_BYTE
    ensures BadAt(block, k) == (k > 0 && block[k - 1] == SEPARATOR_BYTE && block[k] != SEPARATOR_POST_BYTE)
    ensures BadAt(block, k) ==> FirstBad(block, 0) == k
    ensures !(k > 0 && block[k - 1] == SEPARATOR_BYTE) ==> |out| < n
    ensures !BadAt(block, k) ==>
              var out' := Copied(out, block[k], k > 0 && block[k - 1] == SEPARATOR_BYTE);
              Unstuffed(block, k + 1, out') && |out'| <= n
  {
    var r := FirstBad(block, 0);
    assert r < |block| ==> BadAt(block, r);
    StripOfPrefix(block, k);
    if !BadAt(block, k) {
      StripFits(block, k + 1, n);
    }
  }

  lemma UnstuffDone(block: seq<byte>, out: seq<byte>, n: nat)
    requires Unstuffed(block, |block|, out)
    requires Counted(block) == n && (block != [] ==> block[|block| - 1] != SEPARATOR_BYTE)
    ensures FirstBad(block, 0) == |block| && out == Strip(block) && |out| == n
  {
    assert block[..|block|] == block;
    StripFits(block, |block|, n);
  }

  // ----- decisions -----

  /** What ten un-stuffed bytes lead to, the two taken for separators among them. */
  function AfterHeader(header: seq<byte>): Stage {
    if |header| != FRAME_HEADER_SIZE || header[..2] != SEPARATORS then Hunting
    else match DecodeHeader(header[2..]) case None => Hunting case Some(h) => InBody(h)
  }

  /** What the code makes of a complete header block. */
  function HeaderOutcome(s: seq<byte>, pos: nat): (st: State)
    requires 2 <= pos < |s|
  {
    var block := s[2..pos + 1];
    var bad := FirstBad(block, 0);
    if bad < |block| then State(Hunt, s[if bad > 0 then 2 + bad - 1 else 2..])
    else State(ModeIn(AfterHeader(s[..2] + Strip(block)), []), s[pos + 1..])
  }

  lemma TenBytes(s: seq<byte>, t: seq<byte>)
    requires |s| >= 2
    ensures (s[..2] + t)[2..] == t && (s[..2] + t)[..2] == s[..2] && |s[..2] + t| == 2 + |t|
    ensures s[..2] == SEPARATORS <==> s[0] == s[1] == SEPARATOR_BYTE
  {
    assert s[..2] == [s[0], s[1]];
  }

  lemma HeaderDecision(s: seq<byte>, pos: nat)
    requires HeaderComplete(s, pos)
    ensures Run(State(ModeIn(Started, s), s)) == Run(HeaderOutcome(s, pos)) && |HeaderOutcome(s, pos).held| < |s|
  {
    var block := s[2..pos + 1];
    TenBytes(s, Strip(block));
    if StartsFrame(s) {
      TrueHeaderDecision(s, pos);
    } else {
      FalseStartPassed(s, pos + 1, FirstBad(block, 0));
    }
  }

  lemma TrueHeaderDecision(s: seq<byte>, pos: nat)
    requires HeaderComplete(s, pos) && StartsFrame(s)
    ensures Run(State(Header, s)) == Run(HeaderOutcome(s, pos)) && |HeaderOutcome(s, pos).held| < |s|
  {
    var d, m := TrueHeaderStep(s, pos);
    RunDiscards(Header, s, d, m, []);
  }

  /** Behind a true start the outcome is the receiver's step. */
  lemma TrueHeaderStep(s: seq<byte>, pos: nat) returns (d: nat, m: Mode)
    requires HeaderComplete(s, pos) && StartsFrame(s)
    ensures 0 < d <= |s| && HeaderStep(s) == Go(d, m, []) && HeaderOutcome(s, pos) == State(m, s[d..])
  {
    var block := s[2..pos + 1];
    var bad := FirstBad(block, 0);
    BlockComplete(s, 2, PURE_HEADER_SIZE, pos);
    CountedSuffix(s[2..pos + 1], s[pos + 1..]);
    if bad < |block| {
      d, m := 2 + bad - 1, Hunt;
    } else {
      StrippedSize(s[2..], PURE_HEADER_SIZE);
      TenBytes(s, Strip(block));
      d, m := pos + 1, ModeIn(AfterHeader(s[..2] + Strip(block)), []);
    }
  }

  lemma RunDiscards(m: Mode, s: seq<byte>, d: nat, m': Mode, fs: seq<Frame>)
    requires d <= |s| && StepOf(State(m, s)) == Go(d, m', fs)
    ensures var rest := Run(State(m', s[d..])); Run(State(m, s)) == Result(fs + rest.frames, rest.state)
    ensures fs == [] ==> Run(State(m, s)) == Run(State(m', s[d..]))
  {
    assert s == s[..d] + s[d..];
    RunPast(m, s[..d], s[d..], m', fs);
    EmptyInFront(Run(State(m', s[d..])).frames);
  }

  /** What the code makes of a complete body block. */
  function BodyOutcome(h: Head, s: seq<byte>, pos: nat): (r: Result)
    requires pos < |s|
  {
    var block := s[..pos + 1];
    var bad := FirstBad(block, 0);
    if bad < |block| then Result([], State(Hunt, s[if bad > 0 then bad - 1 else 0..]))
    else Result(FramesOf(h, Strip(block)), State(Hunt, s[pos + 1..]))
  }

  function FramesOf(h: Head, body: seq<byte>): seq<Frame> {
    if |body| != BodySize(h) then []
    else match DecodeBody(h, body) case None => [] case Some(f) => [f]
  }

  lemma BodyDecision(h: Head, s: seq<byte>, pos: nat)
    requires BodyComplete(h, s, pos)
    ensures var outcome := BodyOutcome(h, s, pos);
            var rest := Run(outcome.state);
            && Run(State(Body(h), s)) == Result(outcome.frames + rest.frames, rest.state)
            && |outcome.state.held| <= |s|
  {
    var d := BodyStepMade(h, s, pos);
    RunDiscards(Body(h), s, d, Hunt, BodyOutcome(h, s, pos).frames);
  }

  /** The outcome is the receiver's step. */
  lemma BodyStepMade(h: Head, s: seq<byte>, pos: nat) returns (d: nat)
    requires BodyComplete(h, s, pos)
    ensures d <= |s| && BodyStep(h, s) == Go(d, Hunt, BodyOutcome(h, s, pos).frames)
    ensures BodyOutcome(h, s, pos).state == State(Hunt, s[d..])
  {
    var block := s[..pos + 1];
    assert s[0..] == s && s[0..pos + 1] == block;
    BlockComplete(s, 0, BodySize(h), pos);
    BodyStepOf(h, s, block);
    d := if FirstBad(block, 0) < |block| then FirstBad(block, 0) - 1 else pos + 1;
  }

  lemma BodyStepOf(h: Head, s: seq<byte>, block: seq<byte>)
    requires BodySize(h) <= Counted(s) && block == s[..BlockLength(s, BodySize(h))]
    ensures FirstBad(block, 0) < |block| ==> FirstBad(block, 0) > 0
    ensures BodyStep(h, s) == if FirstBad(block, 0) < |block| then Go(FirstBad(block, 0) - 1, Hunt, [])
                              else Go(|block|, Hunt, FramesOf(h, Strip(block)))
  {
    if FirstBad(block, 0) == |block| {
      StrippedSize(s, BodySize(h));
    }
  }

  /** The outcome in terms of what un-stuffing has found. */
  lemma BodyOutcomeFound(h: Head, s: seq<byte>, pos: nat, clean: bool, bPos: nat, body: seq<byte>)
    requires BodyComplete(h, s, pos)
    requires var block := s[..pos + 1];
             bPos == FirstBad(block, 0) && clean == (bPos == |block|) && (clean ==> body == Strip(block))
    ensures 0 < bPos <= |s|
    ensures BodyOutcome(h, s, pos) == if clean then Result(FramesOf(h, body), State(Hunt, s[bPos..]))
                                      else Result([], State(Hunt, s[bPos - 1..]))
    ensures clean ==> |body| == BodySize(h)
  {
    var block := s[..pos + 1];
    if clean {
      assert s[0..] == s && s[0..pos + 1] == block;
      BlockComplete(s, 0, BodySize(h), pos);
      StrippedSize(s, BodySize(h));
    }
  }

  lemma HeaderOutcomeFound(s: seq<byte>, pos: nat, clean: bool, bPos: nat, header: seq<byte>)
    requires HeaderComplete(s, pos)
    requires var block := s[2..pos + 1];
             bPos == 2 + FirstBad(block, 0) && clean == (FirstBad(block, 0) == |block|)
             && (clean ==> header == s[..2] + Strip(block))
    ensures 0 < bPos <= |s|
    ensures HeaderOutcome(s, pos) == if clean then State(ModeIn(AfterHeader(header), []), s[bPos..])
                                     else State(Hunt, s[bPos - 1..])
    ensures clean ==> |header| == FRAME_HEADER_SIZE
  {
    var block := s[2..pos + 1];
    if clean {
      HeaderUnstuffed(s, pos);
      TenBytes(s, Strip(block));
    } else {
      assert BadAt(block, FirstBad(block, 0));
    }
  }

  lemma HeaderUnstuffed(s: seq<byte>, pos: nat)
    requires HeaderComplete(s, pos) && FirstBad(s[2..pos + 1], 0) == |s[2..pos + 1]|
    ensures |Strip(s[2..pos + 1])| == PURE_HEADER_SIZE
  {
    BlockComplete(s, 2, PURE_HEADER_SIZE, pos);
    StrippedSize(s[2..], PURE_HEADER_SIZE);
  }
}
