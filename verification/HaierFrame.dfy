/** The frame object: built by a sender, or filled by the receiver in two calls, header and then body. */
module HaierFrames {
  import opened Bytes
  import opened Crc16
  import opened FrameFormat
  import opened Stuffing
  import opened WireBuffer

  datatype FrameStatus = FRAME_COMPLETE | FRAME_HEADER_ONLY | FRAME_EMPTY

  /** The checksum loop of the code over a buffer. */
  method Checksum(data: seq<byte>, initial: byte) returns (result: byte)
    ensures result == Sum(initial, data)
  {
    result := initial;
    for i := 0 to |data|
      invariant result == Sum(initial, data[..i])
    {
      SumOfNext(initial, data, i);
      result := result + data[i];
    }
    assert data[..|data|] == data;
  }

  predicate Covered(useCrc: bool, additional: byte, checksum: byte, crc: bv16, s: seq<byte>) {
    && additional == CountEscapes(0, s)
    && checksum == Sum(0, s)
    && crc == if useCrc then Crc(INITIAL_CRC, s) else INITIAL_CRC
  }

  method CountSeparator(b: byte, count: byte, ghost s: seq<byte>, ghost i: nat) returns (next: byte)
    requires i < |s| && b == s[i] && count == CountEscapes(0, s[..i])
    ensures next == CountEscapes(0, s[..i + 1])
  {
    CountEscapesOfNext(0, s, i);
    next := count;
    if b == SEPARATOR_BYTE {
      next := next + 1;
    }
  }

  method AddToChecksum(b: byte, sum: byte, ghost s: seq<byte>, ghost i: nat) returns (next: byte)
    requires i < |s| && b == s[i] && sum == Sum(0, s[..i])
    ensures next == Sum(0, s[..i + 1])
  {
    SumOfNext(0, s, i);
    next := sum;
    if b > 0 {
      next := next + b;
    }
  }

  method AddToCrc(b: byte, crc: bv16, ghost s: seq<byte>, ghost i: nat) returns (next: bv16)
    requires i < |s| && b == s[i] && crc == Crc(INITIAL_CRC, s[..i])
    ensures next == Crc(INITIAL_CRC, s[..i + 1])
  {
    CrcOfNext(INITIAL_CRC, s, i);
    next := Crc16Next(b, crc);
  }

  lemma ByteOfIs(b: byte, n: nat)
    requires b as int == n
    ensures b == ByteOf(n)
  {
    ByteOfExact(n);
    SameCount(b, ByteOf(n));
  }

  lemma MadeOver(covered: seq<byte>, frameType: byte, source: seq<byte>, useCrc: bool, f: Frame, sum: byte)
    requires Covered(useCrc, f.additional, sum, f.crc, covered) && f.checksum == sum + EscapeSum(f.additional)
    requires f.frameType == frameType && f.data == source && f.useCrc == useCrc
    ensures f == FrameOver(covered, frameType, source, useCrc)
  {}

  lemma MadeFrom(frameType: byte, source: seq<byte>, size: byte, useCrc: bool, covered: seq<byte>)
    requires size as int == |source| && covered == HeaderBytes(frameType, useCrc, size) + source
    ensures FrameOver(covered, frameType, source, useCrc) == MakeFrame(frameType, source, useCrc)
  {
    ByteOfIs(size, |source|);
  }

  lemma PayloadByte(fsize: byte)
    requires fsize as int >= PURE_HEADER_SIZE
    ensures (fsize - 8) as int == fsize as int - PURE_HEADER_SIZE
  {}

  /**
   What the body phase computes. It counts escapes and runs the CRC over the beginning of the buffer, and takes checksum
   and data from lpos on: the same bytes if the buffer is a body, but not if a header stands in front of it.
   */
  function CompletedAt(h: Head, buffer: seq<byte>, lpos: nat): Frame
    requires lpos + BodySize(h) <= |buffer|
  {
    var n := h.dataSize;
    var scanned, taken := buffer[..n], buffer[lpos..lpos + n];
    var additional := CountEscapes(h.additional, scanned);
    Frame(h.frameType, h.useCrc, taken, Sum(h.checksum, taken) + EscapeSum(additional),
          if h.useCrc then Crc(h.crc, scanned) else INITIAL_CRC, additional)
  }

  /** The verdict of the body phase, which compares with bytes counted from the beginning of the buffer as well. */
  function JudgeAt(h: Head, buffer: seq<byte>, lpos: nat): FrameError
    requires lpos <= |buffer|
  {
    if |buffer| - lpos < BodySize(h) then DATA_SIZE_WRONG else Verdict(h, buffer, CompletedAt(h, buffer, lpos))
  }

  /** The escape counter that a refused body leaves behind. */
  function EscapesLeft(h: Head, buffer: seq<byte>, err: FrameError): byte {
    if err == DATA_SIZE_WRONG || |buffer| < h.dataSize then h.additional
    else CountEscapes(h.additional, buffer[..h.dataSize])
  }

  /** A body on its own is judged as the receiver of Deframer judges it. */
  lemma BodyJudged(h: Head, body: seq<byte>)
    requires |body| == BodySize(h)
    ensures JudgeAt(h, body, 0) == JudgeBody(h, body) && CompletedAt(h, body, 0) == Completed(h, body[..h.dataSize])
  {
    BodyCompleted(h, body);
    SameVerdict(h, body, Completed(h, body[..h.dataSize]));
  }

  lemma BodyCompleted(h: Head, body: seq<byte>)
    requires |body| == BodySize(h)
    ensures CompletedAt(h, body, 0) == Completed(h, body[..h.dataSize])
  {
    assert body[0..h.dataSize] == body[..h.dataSize];
  }

  lemma SameVerdict(h: Head, body: seq<byte>, f: Frame)
    requires |body| == BodySize(h) && f == Completed(h, body[..h.dataSize])
    ensures Verdict(h, body, f) == JudgeBody(h, body)
  {}

  /** In one call with its header the smallest frame is refused, though it is accepted in two. */
  lemma OneCallRefuses()
    ensures var header: seq<byte> := [8, 0, 0, 0, 0, 0, 0, 0];
            var h := DecodeHeader(header);
            && h.Some? && JudgeBody(h.value, [8]) == COMPLETE_FRAME
            && JudgeAt(h.value, SEPARATORS + header + [8], FRAME_HEADER_SIZE) == CHECKSUM_WRONG
  {
    var header: seq<byte> := [8, 0, 0, 0, 0, 0, 0, 0];
    var h := DecodeHeader(header).value;
    HeaderSum(header);
    BodyJudged(h, [8]);
    var all := SEPARATORS + header + [8];
    assert all[0] == SEPARATOR_BYTE && all[..0] == [] && all[10..10] == [];
  }

  lemma HeaderSum(header: seq<byte>)
    requires header == [8, 0, 0, 0, 0, 0, 0, 0]
    ensures Sum(0, header) == 8
  {
    SumConcat(0, [8], Zeros(7));
    assert header == [8] + Zeros(7) && Zeros(0) == [];
    SumOfZeros(8, 7);
    var eight: seq<byte> := [8];
    assert eight[..0] == [];
  }

  // ----- what the parsing loops have computed -----

  /** The locals of the header loop before the byte at lpos. */
  predicate Scanned(header: seq<byte>, lpos: nat, fsize: byte, use: bool, kind: byte, chk: byte, running: bv16)
    requires |header| == PURE_HEADER_SIZE && 2 <= lpos <= FRAME_HEADER_SIZE
  {
    && (lpos > 2 ==> fsize == header[0])
    && use == (lpos > 3 ==> header[1] & USE_CRC_MASK != 0)
    && (lpos > 9 ==> kind == header[7])
    && chk == Sum(0, header[..lpos - 2])
    && running == if use then Crc(INITIAL_CRC, header[..lpos - 2]) else INITIAL_CRC
  }

  lemma SumsNext(s: seq<byte>, i: nat)
    requires i < |s|
    ensures Sum(0, s[..i]) + s[i] == Sum(0, s[..i + 1])
    ensures FeedBits(Crc(INITIAL_CRC, s[..i]), s[i], 8) == Crc(INITIAL_CRC, s[..i + 1])
  {
    SumOfNext(0, s, i);
    CrcOfNext(INITIAL_CRC, s, i);
  }

  /** The switch of the header loop. */
  method TakeField(ghost header: seq<byte>, lpos: nat, b: byte, fsize: byte, use: bool, kind: byte, ghost chk: byte, running: bv16)
    returns (fsize': byte, use': bool, kind': byte, running': bv16)
    requires |header| == PURE_HEADER_SIZE && 2 <= lpos < FRAME_HEADER_SIZE && b == header[lpos - 2]
    requires Scanned(header, lpos, fsize, use, kind, chk, running)
    ensures fsize' == header[0] && use' == (lpos + 1 > 3 ==> header[1] & USE_CRC_MASK != 0)
    ensures lpos + 1 > 9 ==> kind' == header[7]
    ensures running' == if use' then Crc(INITIAL_CRC, header[..lpos - 2]) else INITIAL_CRC
  {
    fsize', use', kind', running' := fsize, use, kind, running;
    match lpos {
      case 2 =>
        fsize' := b;
      case 3 =>
        use' := b & USE_CRC_MASK != 0;
        if !use' {
          running' := INITIAL_CRC;
        }
      case 9 =>
        kind' := b;
      case _ =>
    }
  }

  lemma DecodedAs(header: seq<byte>, h: Head, fsize: byte)
    requires |header| == PURE_HEADER_SIZE
    requires Scanned(header, FRAME_HEADER_SIZE, fsize, h.useCrc, h.frameType, h.checksum, h.crc)
    requires JudgeSize(fsize) == HEADER_ONLY && h.dataSize == fsize as int - PURE_HEADER_SIZE
    requires h.additional == if h.frameType == SEPARATOR_BYTE then 1 else 0
    ensures DecodeHeader(header) == Some(h)
  {
    assert header[..8] == header;
  }

  /** f is what the body phase computes over scanned and taken. */
  predicate ComputedOver(h: Head, scanned: seq<byte>, taken: seq<byte>, f: Frame) {
    && f.frameType == h.frameType && f.useCrc == h.useCrc && f.data == taken
    && f.additional == CountEscapes(h.additional, scanned)
    && f.checksum == Sum(h.checksum, taken) + EscapeSum(f.additional)
    && f.crc == if h.useCrc then Crc(h.crc, scanned) else INITIAL_CRC
  }

  lemma JudgedAs(h: Head, buffer: seq<byte>, lpos: nat, f: Frame)
    requires lpos + BodySize(h) <= |buffer| && f == CompletedAt(h, buffer, lpos)
    ensures ComputedOver(h, buffer[..h.dataSize], buffer[lpos..lpos + h.dataSize], f)
    ensures JudgeAt(h, buffer, lpos) == Verdict(h, buffer, f)
  {}

  function Verdict(h: Head, buffer: seq<byte>, f: Frame): FrameError
    requires BodySize(h) <= |buffer|
  {
    var n := h.dataSize;
    if !CrcMatches(h, buffer, f.crc) then CRC_WRONG
    else if f.checksum != buffer[n] then CHECKSUM_WRONG
    else COMPLETE_FRAME
  }

  method CountReceived(received: seq<byte>, initial: byte) returns (count: byte)
    ensures count == CountEscapes(initial, received)
  {
    count := initial;
    for i := 0 to |received|
      invariant count == CountEscapes(initial, received[..i])
    {
      CountEscapesOfNext(initial, received, i);
      if received[i] == SEPARATOR_BYTE {
        count := count + 1;
      }
    }
    assert received[..|received|] == received;
  }

  predicate CrcMatches(h: Head, buffer: seq<byte>, crc: bv16)
    requires BodySize(h) <= |buffer|
  {
    h.useCrc ==> crc == ReceivedCrc(buffer[h.dataSize + 1], buffer[h.dataSize + 2])
  }

  /** A frame without CRC passes; its CRC stays at the initial value. */
  method CheckCrc(h: Head, buffer: seq<byte>, ghost crc: bv16) returns (matches: bool, computed: bv16)
    requires BodySize(h) <= |buffer|
    requires crc == if h.useCrc then Crc(h.crc, buffer[..h.dataSize]) else INITIAL_CRC
    ensures computed == crc && matches == CrcMatches(h, buffer, crc)
  {
    matches, computed := true, INITIAL_CRC;
    if h.useCrc {
      var frameCrc := ReceivedCrc(buffer[h.dataSize + 1], buffer[h.dataSize + 2]);
      computed := Crc16Buffer(buffer[..h.dataSize], h.crc);
      matches := computed == frameCrc;
    }
  }

  method StuffedChecksum(received: seq<byte>, initial: byte, count: byte, ghost additional: byte, ghost expected: byte)
    returns (chk: byte)
    requires count == additional && expected == Sum(initial, received) + EscapeSum(additional)
    ensures chk == expected
  {
    var sum := Checksum(received, initial);
    chk := sum + EscapeSum(count);
  }

  /** The body phase on a long enough buffer: escape count, CRC comparison, checksum comparison. */
  method JudgeReceived(h: Head, buffer: seq<byte>, lpos: nat, ghost f0: Frame) returns (err: FrameError, f: Frame)
    requires lpos + BodySize(h) <= |buffer|
    requires ComputedOver(h, buffer[..h.dataSize], buffer[lpos..lpos + h.dataSize], f0)
    ensures err == Verdict(h, buffer, f0) && f.additional == f0.additional
    ensures err == COMPLETE_FRAME ==> f == f0
  {
    var n := h.dataSize;
    var scanned, taken := buffer[..n], buffer[lpos..lpos + n];
    var count := CountReceived(scanned, h.additional);
    var matches, computed := CheckCrc(h, buffer, f0.crc);
    f := Frame(h.frameType, h.useCrc, taken, h.checksum, INITIAL_CRC, count);
    if !matches {
      return CRC_WRONG, f;
    }
    var chk := StuffedChecksum(taken, h.checksum, count, f0.additional, f0.checksum);
    f := f.(crc := computed, checksum := chk);
    err := if chk != buffer[n] then CHECKSUM_WRONG else COMPLETE_FRAME;
  }

  /** The body phase as a whole; f is the frame as far as it has been computed. */
  method JudgeBuffer(h: Head, buffer: seq<byte>, lpos: nat) returns (err: FrameError, f: Frame)
    requires lpos + BodySize(h) <= |buffer|
    ensures err == JudgeAt(h, buffer, lpos) && f.additional == EscapesLeft(h, buffer, err)
    ensures err == COMPLETE_FRAME ==> f == CompletedAt(h, buffer, lpos)
  {
    JudgedAs(h, buffer, lpos, CompletedAt(h, buffer, lpos));
    err, f := JudgeReceived(h, buffer, lpos, CompletedAt(h, buffer, lpos));
  }

  method Put(b: byte, buffer: array<byte>, pos: nat, ghost cells: seq<byte>, ghost s: seq<byte>, ghost i: nat)
    returns (next: nat)
    requires Fits(|SEPARATORS + Stuff(s)|, |cells|) && |cells| == buffer.Length && i < |s| && b == s[i]
    requires pos < CURSOR_RANGE && Output(buffer[..], cells, s, i, pos)
    modifies buffer
    ensures next < CURSOR_RANGE && Output(buffer[..], cells, s, i + 1, next)
  {
    OutputNext(buffer[..], cells, s, i, pos);
    next := SetWithPostByte(b, buffer, pos);
  }

  /** Where the parts of a frame stand in the unstuffed byte string s. */
  predicate Spells(s: seq<byte>, header: seq<byte>, f: Frame) {
    var n := |f.data|;
    && |header| == PURE_HEADER_SIZE
    && |s| == PURE_HEADER_SIZE + n + (if f.useCrc then 3 else 1)
    && s[..PURE_HEADER_SIZE] == header
    && (forall i :: 0 <= i < n ==> f.data[i] == s[PURE_HEADER_SIZE + i])
    && s[PURE_HEADER_SIZE + n] == f.checksum
    && (f.useCrc ==> [s[|s| - 2], s[|s| - 1]] == CrcBytes(f.crc))
  }

  lemma LogicalSpells(f: Frame, header: seq<byte>)
    requires header == HeaderBytes(f.frameType, f.useCrc, ByteOf(|f.data|))
    ensures Spells(Logical(f), header, f)
  {
    Indexed(header, f.data, f.checksum, if f.useCrc then CrcBytes(f.crc) else []);
    if f.useCrc {
      assert [CrcBytes(f.crc)[0], CrcBytes(f.crc)[1]] == CrcBytes(f.crc);
    }
  }

  lemma Indexed<T>(header: seq<T>, data: seq<T>, x: T, tail: seq<T>)
    ensures var s := header + (data + [x] + tail);
            && s[..|header|] == header
            && (forall i :: 0 <= i < |data| ==> data[i] == s[|header| + i])
            && s[|header| + |data|] == x
            && (forall i :: 0 <= i < |tail| ==> tail[i] == s[|header| + |data| + 1 + i])
  {}

  lemma SeparatorsOfPair(crc: bv16)
    ensures Separators(CrcBytes(crc)) == (if CrcBytes(crc)[0] == SEPARATOR_BYTE then 1 else 0)
                                         + (if CrcBytes(crc)[1] == SEPARATOR_BYTE then 1 else 0)
  {
    var s := CrcBytes(crc);
    assert s[..1] == [s[0]] && s[..1][..0] == [];
  }

  lemma SameHeader(buffer: seq<byte>, header: seq<byte>)
    requires |buffer| >= FRAME_HEADER_SIZE && header == buffer[..FRAME_HEADER_SIZE]
    ensures header[2..] == buffer[2..FRAME_HEADER_SIZE] && JudgeHeader(header) == JudgeHeader(buffer)
    ensures header[2..][7] == buffer[9]
  {}

  class HaierFrame {
    var frameType: byte
    var useCrc: bool
    var dataSize: byte
    var checksum: byte
    var crc: bv16
    var data: seq<byte>
    var status: FrameStatus
    var additionalBytes: byte

    ghost predicate IsEmpty()
      reads this
    {
      && frameType == 0 && useCrc && dataSize == 0 && checksum == 0 && crc == INITIAL_CRC && data == []
      && status == FRAME_EMPTY && additionalBytes == 0
    }

    /** What the object knows after a header. */
    function HeadOf(): Head
      reads this
    {
      Head(frameType, useCrc, dataSize as int, checksum, crc, additionalBytes)
    }

    /** What the object says as a complete frame. */
    function Value(): Frame
      reads this
    {
      Frame(frameType, useCrc, data, checksum, crc, additionalBytes)
    }

    constructor ()
      ensures IsEmpty()
    {
      frameType, useCrc, dataSize, checksum, crc := 0, true, 0, 0, INITIAL_CRC;
      data, status, additionalBytes := [], FRAME_EMPTY, 0;
    }

    constructor Build(frameType: byte, source: seq<byte>, dataSize: byte, useCrc: bool)
      requires dataSize as int == |source|
      ensures status == FRAME_COMPLETE && this.dataSize == dataSize
      ensures Value() == MakeFrame(frameType, source, useCrc)
    {
      this.frameType, this.useCrc, this.dataSize, checksum, crc := frameType, useCrc, dataSize, 0, INITIAL_CRC;
      data, status, additionalBytes := [], FRAME_COMPLETE, 0;
      new;
      FillIn(source);
      MadeFrom(frameType, source, dataSize, useCrc, CoveredBytes(source));
    }

    /** Both constructor loops and the escape bytes. */
    method FillIn(source: seq<byte>)
      requires Covers([]) && data == []
      modifies this`additionalBytes, this`checksum, this`crc, this`data
      ensures data == source && Value() == FrameOver(CoveredBytes(source), frameType, source, useCrc)
    {
      CoverHeader(source);
      data := source;
      CoverData();
      AddEscapes();
    }

    method AddEscapes()
      requires Covers(CoveredBytes(data))
      modifies this`checksum
      ensures Value() == FrameOver(CoveredBytes(data), frameType, data, useCrc)
    {
      ghost var covered, sum := CoveredBytes(data), checksum;
      checksum := checksum + EscapeSum(additionalBytes);
      MadeOver(covered, frameType, data, useCrc, Value(), sum);
    }

    /** What checksum and CRC are taken over. */
    ghost function CoveredBytes(source: seq<byte>): seq<byte>
      reads this
    {
      HeaderBytes(frameType, useCrc, dataSize) + source
    }

    /** The header loop of the constructor. */
    method CoverHeader(ghost source: seq<byte>)
      requires Covers([])
      modifies this`additionalBytes, this`checksum, this`crc
      ensures Covers(CoveredBytes(source)[..PURE_HEADER_SIZE])
    {
      ghost var covered := CoveredBytes(source);
      assert covered[..0] == [];
      for pos := FRAME_SEPARATORS_COUNT to FRAME_HEADER_SIZE
        invariant Covers(covered[..pos - FRAME_SEPARATORS_COUNT])
      {
        AddCovered(GetHeaderByte(pos), covered, pos - FRAME_SEPARATORS_COUNT);
      }
    }

    /** The data loop of the constructor. */
    method CoverData()
      requires Covers(CoveredBytes(data)[..PURE_HEADER_SIZE])
      modifies this`additionalBytes, this`checksum, this`crc
      ensures Covers(CoveredBytes(data))
    {
      ghost var covered := CoveredBytes(data);
      for i := 0 to |data|
        invariant Covers(covered[..PURE_HEADER_SIZE + i])
      {
        AddCovered(data[i], covered, PURE_HEADER_SIZE + i);
      }
      assert covered[..PURE_HEADER_SIZE + |data|] == covered;
    }

    /** The running checksum, CRC and escape count are those of s. */
    ghost predicate Covers(s: seq<byte>)
      reads this
    {
      Covered(useCrc, additionalBytes, checksum, crc, s)
    }

    /** The body of both constructor loops. */
    method AddCovered(b: byte, ghost s: seq<byte>, ghost i: nat)
      requires i < |s| && b == s[i] && Covers(s[..i])
      modifies this`additionalBytes, this`checksum, this`crc
      ensures Covers(s[..i + 1])
    {
      additionalBytes := CountSeparator(b, additionalBytes, s, i);
      checksum := AddToChecksum(b, checksum, s, i);
      if useCrc {
        crc := AddToCrc(b, crc, s, i);
      }
    }

    function GetHeaderByte(pos: nat): (b: byte)
      requires pos < FRAME_HEADER_SIZE
      reads this
      ensures b == (SEPARATORS + HeaderBytes(frameType, useCrc, dataSize))[pos]
    {
      if pos < FRAME_SEPARATORS_COUNT then SEPARATOR_BYTE
      else match pos
           case 2 => 8 + dataSize
           case 3 => if useCrc then USE_CRC_MASK else 0
           case 9 => frameType
           case _ => 0
    }

    /** The receiver has at most the largest payload in view. */
    ghost predicate Valid()
      reads this
    {
      status == FRAME_HEADER_ONLY ==> dataSize as int <= MAX_DATA_SIZE
    }

    /**
     Parses a header into an empty frame, or a body into a frame that knows its header. The bytes are unstuffed. More than
     a header for an empty frame is taken for a header and a body, but see CompletedAt.
     */
    method ParseBuffer(buffer: seq<byte>) returns (consumed: nat, err: FrameError)
      requires Valid()
      modifies this
      ensures Valid()
      ensures old(status) == FRAME_COMPLETE ==> consumed == 0 && err == UNKNOWN_DATA && unchanged(this)
      ensures old(status) == FRAME_EMPTY ==> HeaderParsed(buffer, old(HeadOf()), old(data), consumed, err)
      ensures old(status) == FRAME_HEADER_ONLY ==> consumed == 0 && BodyParsed(buffer, 0, old(HeadOf()), old(data), err)
    {
      consumed := 0;
      match status
      case FRAME_COMPLETE =>
        err := UNKNOWN_DATA;
      case FRAME_EMPTY =>
        consumed, err := ParseHeader(buffer);
        if err == HEADER_ONLY && consumed < |buffer| {
          err := ParseBody(buffer, consumed);
        }
      case FRAME_HEADER_ONLY =>
        err := ParseBody(buffer, 0);
    }

    /** The frame after the body phase, from the head h and the data before. */
    ghost predicate BodyParsed(buffer: seq<byte>, lpos: nat, h: Head, data0: seq<byte>, err: FrameError)
      reads this
    {
      && lpos <= |buffer| && err == JudgeAt(h, buffer, lpos)
      && if err == COMPLETE_FRAME
         then lpos + BodySize(h) <= |buffer| && status == FRAME_COMPLETE && Value() == CompletedAt(h, buffer, lpos)
         else status == FRAME_HEADER_ONLY && HeadOf() == h.(additional := EscapesLeft(h, buffer, err)) && data == data0
    }

    /** The frame after the header phase on an empty frame, and the body phase if there is more to parse. */
    ghost predicate HeaderParsed(buffer: seq<byte>, h0: Head, data0: seq<byte>, consumed: nat, err: FrameError)
      reads this
    {
      var verdict := JudgeHeader(buffer);
      && consumed == (if verdict in {HEADER_TOO_SMALL, FRAME_SEPARATOR_WRONG} then 0 else FRAME_HEADER_SIZE)
      && if verdict != HEADER_ONLY
         then err == verdict && status == FRAME_EMPTY && data == data0
              && HeadOf() == h0.(additional := if consumed == 0 then h0.additional
                                               else if buffer[9] == SEPARATOR_BYTE then 1 else 0)
         else if |buffer| == FRAME_HEADER_SIZE
         then err == HEADER_ONLY && status == FRAME_HEADER_ONLY && data == data0
              && DecodeHeader(buffer[2..FRAME_HEADER_SIZE]) == Some(HeadOf())
         else BodyParsed(buffer, FRAME_HEADER_SIZE, DecodeHeader(buffer[2..FRAME_HEADER_SIZE]).value, data0, err)
    }

    method ParseHeader(buffer: seq<byte>) returns (consumed: nat, err: FrameError)
      requires status == FRAME_EMPTY && Valid()
      modifies this
      ensures Valid()
      ensures err == JudgeHeader(buffer) && data == old(data)
      ensures consumed == if err in {HEADER_TOO_SMALL, FRAME_SEPARATOR_WRONG} then 0 else FRAME_HEADER_SIZE
      ensures status == if err == HEADER_ONLY then FRAME_HEADER_ONLY else FRAME_EMPTY
      ensures err == HEADER_ONLY ==> DecodeHeader(buffer[2..FRAME_HEADER_SIZE]) == Some(HeadOf())
      ensures err != HEADER_ONLY ==>
                HeadOf() == old(HeadOf()).(additional := if consumed == 0 then old(additionalBytes)
                                                         else if buffer[9] == SEPARATOR_BYTE then 1 else 0)
    {
      if |buffer| < FRAME_HEADER_SIZE {
        return 0, HEADER_TOO_SMALL;
      }
      if buffer[0] != SEPARATOR_BYTE || buffer[1] != SEPARATOR_BYTE {
        return 0, FRAME_SEPARATOR_WRONG;
      }
      var header := buffer[..FRAME_HEADER_SIZE];
      var fsize, use, kind, chk, running := ScanHeader(header);
      SameHeader(buffer, header);
      err := TakeHeader(header[2..], fsize, use, kind, chk, running);
      return FRAME_HEADER_SIZE, err;
    }

    /** The size checks, and the fields when they pass. */
    method TakeHeader(ghost header: seq<byte>, fsize: byte, use: bool, kind: byte, chk: byte, running: bv16)
      returns (err: FrameError)
      requires status == FRAME_EMPTY && |header| == PURE_HEADER_SIZE
      requires Scanned(header, FRAME_HEADER_SIZE, fsize, use, kind, chk, running)
      modifies this
      ensures Valid() && data == old(data) && err == JudgeSize(fsize)
      ensures status == if err == HEADER_ONLY then FRAME_HEADER_ONLY else FRAME_EMPTY
      ensures err == HEADER_ONLY ==> DecodeHeader(header) == Some(HeadOf())
      ensures err != HEADER_ONLY ==>
                HeadOf() == old(HeadOf()).(additional := if kind == SEPARATOR_BYTE then 1 else 0)
    {
      additionalBytes := if kind == SEPARATOR_BYTE then 1 else 0;
      err := JudgeSize(fsize);
      if err == HEADER_ONLY {
        KeepHeader(fsize, use, kind, chk, running);
        DecodedAs(header, HeadOf(), fsize);
      }
    }

    method KeepHeader(fsize: byte, use: bool, kind: byte, chk: byte, running: bv16)
      requires JudgeSize(fsize) == HEADER_ONLY
      modifies this
      ensures status == FRAME_HEADER_ONLY && Valid()
      ensures HeadOf() == Head(kind, use, fsize as int - PURE_HEADER_SIZE, chk, running, old(additionalBytes))
      ensures data == old(data)
    {
      PayloadByte(fsize);
      frameType, useCrc, dataSize, checksum, crc := kind, use, fsize - 8, chk, running;
      status := FRAME_HEADER_ONLY;
    }

    /** The header loop: fields, checksum and CRC of the eight bytes behind the separators. */
    method ScanHeader(buffer: seq<byte>) returns (fsize: byte, use: bool, kind: byte, chk: byte, running: bv16)
      requires |buffer| == FRAME_HEADER_SIZE
      ensures Scanned(buffer[2..], FRAME_HEADER_SIZE, fsize, use, kind, chk, running) && fsize == buffer[2]
    {
      fsize, use, kind, chk, running := 0, true, 0, 0, INITIAL_CRC;
      ghost var header := buffer[2..];
      for lpos := FRAME_SEPARATORS_COUNT to FRAME_HEADER_SIZE
        invariant Scanned(header, lpos, fsize, use, kind, chk, running)
      {
        fsize, use, kind, running := TakeField(header, lpos, buffer[lpos], fsize, use, kind, chk, running);
        SumsNext(header, lpos - 2);
        chk := chk + buffer[lpos];
        if use {
          running := Crc16Next(buffer[lpos], running);
        }
      }
    }

    method ParseBody(buffer: seq<byte>, lpos: nat) returns (err: FrameError)
      requires status == FRAME_HEADER_ONLY && Valid() && lpos <= |buffer|
      modifies this
      ensures Valid() && BodyParsed(buffer, lpos, old(HeadOf()), old(data), err)
    {
      var n := dataSize as int;
      var minSize := n + if useCrc then 3 else 1;
      if |buffer| - lpos < minSize {
        return DATA_SIZE_WRONG;
      }
      var f;
      err, f := JudgeBuffer(HeadOf(), buffer, lpos);
      additionalBytes := f.additional;
      if err == COMPLETE_FRAME {
        crc, checksum, status, data := f.crc, f.checksum, FRAME_COMPLETE, f.data;
      }
    }

    /** A frame that was built, or received in two calls. */
    ghost predicate Sendable()
      reads this
    {
      Escaped(Value()) && dataSize as int == |data|
    }

    /** The size of the encoding, unless the escape counter has wrapped around. */
    method GetBufferSize() returns (size: nat)
      requires Sendable()
      ensures size == EncodedSize(Value())
      ensures size == |Encode(Value())| <==> CountsEscapes(Value())
    {
      EncodedSizeIff(Value());
      SeparatorsOfPair(crc);
      size := FRAME_HEADER_SIZE + dataSize as int + additionalBytes as int;
      size := if checksum == SEPARATOR_BYTE then size + 2 else size + 1;
      if useCrc {
        size := size + 2;
        if CrcBytes(crc)[1] == SEPARATOR_BYTE {
          size := size + 1;
        }
        if CrcBytes(crc)[0] == SEPARATOR_BYTE {
          size := size + 1;
        }
      }
    }

    /** Writes the frame through an eight-bit cursor, or nothing if it does not fit the limit. */
    method FillBuffer(buffer: array<byte>, limit: nat) returns (size: nat)
      requires Sendable() && limit <= buffer.Length
      modifies buffer
      ensures size == if EncodedSize(Value()) <= limit then EncodedSize(Value()) else 0
      ensures Fits(|Encode(Value())|, EncodedSize(Value()))
      ensures buffer[..] == if size > 0 then Written(old(buffer[..]), 0, Encode(Value())) else old(buffer[..])
    {
      size := GetBufferSize();
      EnoughRoom(Value());
      if size > limit {
        return 0;
      }
      ghost var cells, s := buffer[..], Logical(Value());
      EncodeOfLogical(Value());
      ByteOfIs(dataSize, |data|);
      LogicalSpells(Value(), HeaderBytes(frameType, useCrc, dataSize));
      FillAll(buffer, cells, s);
    }

    method FillAll(buffer: array<byte>, ghost cells: seq<byte>, ghost s: seq<byte>)
      requires buffer[..] == cells && Fits(|SEPARATORS + Stuff(s)|, |cells|)
      requires Spells(s, HeaderBytes(frameType, useCrc, dataSize), Value())
      modifies buffer
      ensures buffer[..] == Written(cells, 0, SEPARATORS + Stuff(s))
    {
      var pos := FillHeader(buffer, cells, s);
      pos := FillData(buffer, pos, cells, s);
      pos := FillTail(buffer, pos, cells, s);
      assert s[..|s|] == s;
    }

    /** The separators and the header loop. */
    method FillHeader(buffer: array<byte>, ghost cells: seq<byte>, ghost s: seq<byte>) returns (pos: nat)
      requires buffer[..] == cells && Fits(|SEPARATORS + Stuff(s)|, |cells|)
      requires Spells(s, HeaderBytes(frameType, useCrc, dataSize), Value())
      modifies buffer
      ensures pos < CURSOR_RANGE && Output(buffer[..], cells, s, PURE_HEADER_SIZE, pos)
    {
      OutputStart(cells, s);
      buffer[0] := GetHeaderByte(0);
      buffer[1] := GetHeaderByte(1);
      assert buffer[..] == cells[0 := SEPARATOR_BYTE][1 := SEPARATOR_BYTE];
      pos := FRAME_SEPARATORS_COUNT;
      for i := FRAME_SEPARATORS_COUNT to FRAME_HEADER_SIZE
        invariant pos < CURSOR_RANGE && Output(buffer[..], cells, s, i - FRAME_SEPARATORS_COUNT, pos)
      {
        assert s[i - 2] == s[..PURE_HEADER_SIZE][i - 2];
        pos := Put(GetHeaderByte(i), buffer, pos, cells, s, i - FRAME_SEPARATORS_COUNT);
      }
    }

    method FillData(buffer: array<byte>, start: nat, ghost cells: seq<byte>, ghost s: seq<byte>) returns (pos: nat)
      requires Fits(|SEPARATORS + Stuff(s)|, |cells|) && |cells| == buffer.Length
      requires Spells(s, HeaderBytes(frameType, useCrc, dataSize), Value())
      requires start < CURSOR_RANGE && Output(buffer[..], cells, s, PURE_HEADER_SIZE, start)
      modifies buffer
      ensures pos < CURSOR_RANGE && Output(buffer[..], cells, s, PURE_HEADER_SIZE + |data|, pos)
    {
      pos := start;
      for i := 0 to |data|
        invariant pos < CURSOR_RANGE && Output(buffer[..], cells, s, PURE_HEADER_SIZE + i, pos)
      {
        pos := Put(data[i], buffer, pos, cells, s, PURE_HEADER_SIZE + i);
      }
    }

    /** The checksum and the CRC. */
    method FillTail(buffer: array<byte>, start: nat, ghost cells: seq<byte>, ghost s: seq<byte>) returns (pos: nat)
      requires Fits(|SEPARATORS + Stuff(s)|, |cells|) && |cells| == buffer.Length
      requires Spells(s, HeaderBytes(frameType, useCrc, dataSize), Value())
      requires start < CURSOR_RANGE && Output(buffer[..], cells, s, PURE_HEADER_SIZE + |data|, start)
      modifies buffer
      ensures pos < CURSOR_RANGE && Output(buffer[..], cells, s, |s|, pos)
    {
      pos := Put(checksum, buffer, start, cells, s, PURE_HEADER_SIZE + |data|);
      if useCrc {
        assert [s[|s| - 2], s[|s| - 1]][0] == CrcBytes(crc)[0] && [s[|s| - 2], s[|s| - 1]][1] == CrcBytes(crc)[1];
        pos := Put(CrcBytes(crc)[0], buffer, pos, cells, s, |s| - 2);
        pos := Put(CrcBytes(crc)[1], buffer, pos, cells, s, |s| - 1);
      }
    }

    method Reset()
      modifies this
      ensures IsEmpty()
    {
      frameType, useCrc, dataSize, checksum, crc := 0, true, 0, 0, INITIAL_CRC;
      data, status, additionalBytes := [], FRAME_EMPTY, 0;
    }
  }
}
