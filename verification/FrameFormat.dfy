/**
 The frame format: what a frame carries, how it looks on the wire, and how a receiver decides on raw bytes.

 A frame is FF FF, the stuffed eight header bytes, and the stuffed body: data, checksum and, if the header says so,
 the CRC with its high byte first.
 */
module FrameFormat {
  import opened Bytes
  import opened Crc16
  import opened Stuffing

  const USE_CRC_MASK: byte := 0x40
  const INITIAL_CRC: bv16 := 0
  const MAX_DATA_SIZE := MAX_FRAME_SIZE - PURE_HEADER_SIZE

  datatype FrameError =
    | COMPLETE_FRAME | HEADER_ONLY | FRAME_SEPARATOR_WRONG | HEADER_TOO_SMALL | FRAME_TOO_BIG | FRAME_TOO_SMALL
    | DATA_SIZE_WRONG | CHECKSUM_WRONG | CRC_WRONG | WRONG_POST_SEPARATOR_BYTE | UNKNOWN_DATA

  /** A complete frame as it is handed over: its fields and the values both ends keep for it. */
  datatype Frame = Frame(frameType: byte, useCrc: bool, data: seq<byte>, checksum: byte, crc: bv16, additional: byte)

  /** What the receiver knows once the header is parsed. */
  datatype Head = Head(frameType: byte, useCrc: bool, dataSize: nat, checksum: byte, crc: bv16, additional: byte)

  // ----- sums -----

  /** A size cut to eight bits, counted up with wrap-around. */
  function ByteOf(n: nat): byte
    decreases n
  {
    if n == 0 then 0 else ByteOf(n - 1) + 1
  }

  /** The eight-bit sum of s, continued from initial. */
  function Sum(initial: byte, s: seq<byte>): byte
    decreases |s|
  {
    if s == [] then initial else Sum(initial, s[..|s| - 1]) + s[|s| - 1]
  }

  /** The eight-bit counter of separators, continued from initial. */
  function CountEscapes(initial: byte, s: seq<byte>): byte
    decreases |s|
  {
    if s == [] then initial
    else CountEscapes(initial, s[..|s| - 1]) + if s[|s| - 1] == SEPARATOR_BYTE then 1 else 0
  }

  /** The contribution of the escape bytes to the checksum. */
  function EscapeSum(additional: byte): byte {
    additional * SEPARATOR_POST_BYTE
  }

  lemma {:induction false} SumConcat(initial: byte, a: seq<byte>, b: seq<byte>)
    ensures Sum(initial, a + b) == Sum(Sum(initial, a), b)
  {
    if b == [] {
      assert a + b == a;
    } else {
      var front := b[..|b| - 1];
      assert (a + b)[..|a + b| - 1] == a + front;
      SumConcat(initial, a, front);
    }
  }

  lemma SumOfNext(initial: byte, s: seq<byte>, i: nat)
    requires i < |s|
    ensures Sum(initial, s[..i + 1]) == Sum(initial, s[..i]) + s[i]
  {
    assert s[..i + 1][..i] == s[..i];
  }

  lemma {:induction false} SumOfZeros(x: byte, n: nat)
    ensures Sum(x, Zeros(n)) == x
  {
    if n > 0 {
      SumOfZeros(x, n - 1);
      assert Zeros(n)[..n - 1] == Zeros(n - 1);
    }
  }

  lemma {:induction false} CountEscapesConcat(initial: byte, a: seq<byte>, b: seq<byte>)
    ensures CountEscapes(initial, a + b) == CountEscapes(CountEscapes(initial, a), b)
  {
    if b == [] {
      assert a + b == a;
    } else {
      var front := b[..|b| - 1];
      assert (a + b)[..|a + b| - 1] == a + front;
      CountEscapesConcat(initial, a, front);
    }
  }

  lemma CountEscapesOfNext(initial: byte, s: seq<byte>, i: nat)
    requires i < |s|
    ensures CountEscapes(initial, s[..i + 1])
            == CountEscapes(initial, s[..i]) + if s[i] == SEPARATOR_BYTE then 1 else 0
  {
    assert s[..i + 1][..i] == s[..i];
  }

  lemma Increment(x: byte, n: nat)
    requires n < 255 && x as int == n
    ensures (x + 1) as int == n + 1
  {}

  lemma {:induction false} ByteOfExact(n: nat)
    requires n < 256
    ensures ByteOf(n) as int == n
  {
    if n != 0 {
      ByteOfExact(n - 1);
      Increment(ByteOf(n - 1), n - 1);
    }
  }

  /** The counter is exact while it cannot overflow. */
  lemma {:induction false} CountEscapesExact(s: seq<byte>)
    requires Separators(s) < 256
    ensures CountEscapes(0, s) as int == Separators(s)
  {
    if s != [] {
      var front := s[..|s| - 1];
      CountEscapesExact(front);
      if s[|s| - 1] == SEPARATOR_BYTE {
        Increment(CountEscapes(0, front), Separators(front));
      }
    }
  }

  // ----- building -----

  /** The header bytes after the separators; the length byte is an eight-bit sum. */
  function HeaderBytes(frameType: byte, useCrc: bool, dataSize: byte): (header: seq<byte>)
    ensures |header| == PURE_HEADER_SIZE
  {
    [8 + dataSize, if useCrc then USE_CRC_MASK else 0, 0, 0, 0, 0, 0, frameType]
  }

  function CrcBytes(crc: bv16): seq<byte> {
    [(crc >> 8) as byte, (crc & 0xFF) as byte]
  }

  /** The frame that a sender builds. */
  function MakeFrame(frameType: byte, data: seq<byte>, useCrc: bool): Frame {
    FrameOver(HeaderBytes(frameType, useCrc, ByteOf(|data|)) + data, frameType, data, useCrc)
  }

  function FrameOver(covered: seq<byte>, frameType: byte, data: seq<byte>, useCrc: bool): Frame {
    var additional := CountEscapes(0, covered);
    Frame(frameType, useCrc, data, Sum(0, covered) + EscapeSum(additional),
          if useCrc then Crc(INITIAL_CRC, covered) else INITIAL_CRC, additional)
  }

  function BodyBytes(f: Frame): (body: seq<byte>)
    ensures |body| == |f.data| + if f.useCrc then 3 else 1
  {
    f.data + [f.checksum] + if f.useCrc then CrcBytes(f.crc) else []
  }

  function Encode(f: Frame): seq<byte> {
    SEPARATORS + Stuff(HeaderBytes(f.frameType, f.useCrc, ByteOf(|f.data|))) + Stuff(BodyBytes(f))
  }

  // ----- deciding -----

  /** The size check and the field split of the ten header bytes, the separators already checked. */
  function DecodeHeader(header: seq<byte>): (h: Option<Head>)
    requires |header| == PURE_HEADER_SIZE
    ensures h.Some? ==> h.value.dataSize <= MAX_DATA_SIZE
  {
    var size := header[0] as int;
    var useCrc := header[1] & USE_CRC_MASK != 0;
    if size < PURE_HEADER_SIZE || MAX_FRAME_SIZE < size then None
    else Some(Head(header[7], useCrc, size - PURE_HEADER_SIZE, Sum(0, header),
                   if useCrc then Crc(INITIAL_CRC, header) else INITIAL_CRC,
                   if header[7] == SEPARATOR_BYTE then 1 else 0))
  }

  function JudgeSize(size: byte): (err: FrameError)
    ensures err in {FRAME_TOO_SMALL, FRAME_TOO_BIG, HEADER_ONLY}
  {
    if (size as int) < PURE_HEADER_SIZE then FRAME_TOO_SMALL
    else if size as int > MAX_FRAME_SIZE then FRAME_TOO_BIG
    else HEADER_ONLY
  }

  /** The verdict on the ten header bytes of a frame, separators included. */
  function JudgeHeader(buffer: seq<byte>): (err: FrameError)
    ensures err == HEADER_ONLY <==>
              |buffer| >= FRAME_HEADER_SIZE && buffer[..2] == SEPARATORS && DecodeHeader(buffer[2..FRAME_HEADER_SIZE]).Some?
  {
    if |buffer| < FRAME_HEADER_SIZE then HEADER_TOO_SMALL
    else if buffer[0] != SEPARATOR_BYTE || buffer[1] != SEPARATOR_BYTE then
      assert buffer[..2] != SEPARATORS by { assert buffer[..2][0] == buffer[0] && buffer[..2][1] == buffer[1]; }
      FRAME_SEPARATOR_WRONG
    else JudgeSize(buffer[2])
  }

  function BodySize(h: Head): nat {
    h.dataSize + if h.useCrc then 3 else 1
  }

  function ReceivedCrc(high: byte, low: byte): bv16 {
    (low as bv16) + ((high as bv16) << 8)
  }

  /** The frame that the receiver would complete with this data. */
  function Completed(h: Head, data: seq<byte>): Frame {
    var additional := CountEscapes(h.additional, data);
    Frame(h.frameType, h.useCrc, data, Sum(h.checksum, data) + EscapeSum(additional),
          if h.useCrc then Crc(h.crc, data) else INITIAL_CRC, additional)
  }

  /** The verdict on an unstuffed body: the CRC is checked first, then the checksum. */
  function JudgeBody(h: Head, body: seq<byte>): FrameError
    requires |body| == BodySize(h)
  {
    var n := h.dataSize;
    var f := Completed(h, body[..n]);
    if h.useCrc && f.crc != ReceivedCrc(body[n + 1], body[n + 2]) then CRC_WRONG
    else if f.checksum != body[n] then CHECKSUM_WRONG
    else COMPLETE_FRAME
  }

  function DecodeBody(h: Head, body: seq<byte>): Option<Frame>
    requires |body| == BodySize(h)
  {
    if JudgeBody(h, body) == COMPLETE_FRAME then Some(Completed(h, body[..h.dataSize])) else None
  }

  /** What is wrong with a header, in the order in which it is looked for. */
  lemma HeaderVerdicts(buffer: seq<byte>)
    ensures JudgeHeader(buffer) == HEADER_TOO_SMALL <==> |buffer| < 10
    ensures JudgeHeader(buffer) == FRAME_SEPARATOR_WRONG <==> |buffer| >= 10 && !(buffer[0] == buffer[1] == 0xFF)
    ensures JudgeHeader(buffer) == FRAME_TOO_SMALL <==>
              |buffer| >= 10 && buffer[0] == buffer[1] == 0xFF && (buffer[2] as int) < 8
    ensures JudgeHeader(buffer) == FRAME_TOO_BIG <==>
              |buffer| >= 10 && buffer[0] == buffer[1] == 0xFF && buffer[2] as int > 8 + 233
    ensures JudgeHeader(buffer) == HEADER_ONLY <==>
              |buffer| >= 10 && buffer[0] == buffer[1] == 0xFF && 8 <= buffer[2] as int <= 8 + 233
  {}

  /** A body in which only the checksum is wrong is refused for that. */
  lemma WrongChecksum(h: Head, body: seq<byte>, b: byte)
    requires |body| == BodySize(h) && JudgeBody(h, body) == COMPLETE_FRAME && b != body[h.dataSize]
    ensures JudgeBody(h, body[h.dataSize := b]) == CHECKSUM_WRONG
  {
    assert body[h.dataSize := b][..h.dataSize] == body[..h.dataSize];
  }

  // ----- what acceptance means -----

  /**
   Header and body of an acceptable frame, said without the receiver: the length byte counts header and data, the CRC
   and the checksum are those of length byte to end of data, the checksum also counts the escape bytes of type and data.
   */
  predicate WellFormed(header: seq<byte>, body: seq<byte>, f: Frame) {
    && |header| == PURE_HEADER_SIZE
    && |f.data| <= MAX_DATA_SIZE
    && header[0] as int == PURE_HEADER_SIZE + |f.data|
    && f.useCrc == (header[1] & USE_CRC_MASK != 0)
    && f.frameType == header[7]
    && body == BodyBytes(f)
    && f.crc == (if f.useCrc then Crc(INITIAL_CRC, header + f.data) else INITIAL_CRC)
    && f.additional as int == Separators([f.frameType] + f.data)
    && f.checksum == Sum(0, header + f.data) + EscapeSum(f.additional)
  }

  lemma CrcFromBytes(high: byte, low: byte, crc: bv16, received: bv16)
    requires high == (crc >> 8) as byte && low == (crc & 0xFF) as byte
    requires received == (low as bv16) + ((high as bv16) << 8)
    ensures received == crc
  {}

  lemma CrcToBytes(high: byte, low: byte, received: bv16)
    requires received == (low as bv16) + ((high as bv16) << 8)
    ensures high == (received >> 8) as byte && low == (received & 0xFF) as byte
  {}

  lemma CrcBytesRoundTrip(high: byte, low: byte, crc: bv16)
    ensures [high, low] == CrcBytes(crc) <==> crc == ReceivedCrc(high, low)
  {
    CrcToBytes(high, low, ReceivedCrc(high, low));
    if [high, low] == CrcBytes(crc) {
      assert high == CrcBytes(crc)[0] && low == CrcBytes(crc)[1];
      CrcFromBytes(high, low, crc, ReceivedCrc(high, low));
    }
  }

  lemma CountEscapesOfOne(b: byte, data: seq<byte>)
    requires |data| <= MAX_DATA_SIZE
    ensures CountEscapes(if b == SEPARATOR_BYTE then 1 else 0, data) == CountEscapes(0, [b] + data)
    ensures CountEscapes(0, [b] + data) as int == Separators([b] + data)
  {
    CountEscapesConcat(0, [b], data);
    assert [b][..0] == [];
    CountEscapesExact([b] + data);
  }

  lemma CompletedOfParts(header: seq<byte>, data: seq<byte>, h: Head)
    requires |header| == PURE_HEADER_SIZE && DecodeHeader(header) == Some(h) && |data| == h.dataSize
    ensures WellFormed(header, BodyBytes(Completed(h, data)), Completed(h, data))
  {
    CrcConcat(INITIAL_CRC, header, data);
    SumConcat(0, header, data);
    CountEscapesOfOne(header[7], data);
  }

  /** The verdict is acceptance exactly when the body is that of the frame the receiver has computed. */
  lemma AcceptedBody(h: Head, body: seq<byte>)
    requires |body| == BodySize(h)
    ensures JudgeBody(h, body) == COMPLETE_FRAME <==> body == BodyBytes(Completed(h, body[..h.dataSize]))
  {
    var n := h.dataSize;
    var f := Completed(h, body[..n]);
    if h.useCrc {
      CrcBytesRoundTrip(body[n + 1], body[n + 2], f.crc);
      assert body == body[..n] + [body[n]] + [body[n + 1], body[n + 2]];
      SameTail(f.data, f.checksum, body[n], CrcBytes(f.crc), [body[n + 1], body[n + 2]]);
    } else {
      assert body == body[..n] + [body[n]] + [];
      SameTail(f.data, f.checksum, body[n], [], []);
    }
  }

  lemma SameTail(data: seq<byte>, x: byte, y: byte, s: seq<byte>, t: seq<byte>)
    requires |s| == |t|
    ensures data + [x] + s == data + [y] + t <==> x == y && s == t
  {
    var a, b := data + [x] + s, data + [y] + t;
    if a == b {
      assert x == a[|data|] == b[|data|] == y;
      assert s == a[|data| + 1..] && t == b[|data| + 1..];
    }
  }

  lemma WellFormedData(header: seq<byte>, body: seq<byte>, f: Frame)
    requires WellFormed(header, body, f)
    ensures |body| == |f.data| + (if f.useCrc then 3 else 1) && f.data == body[..|f.data|]
  {}

  lemma SameCount(x: byte, y: byte)
    requires x as int == y as int
    ensures x == y
  {}

  /** The receiver accepts header and body as the frame f exactly when they are well-formed and say f. */
  lemma AcceptedIffWellFormed(header: seq<byte>, body: seq<byte>, f: Frame)
    requires |header| == PURE_HEADER_SIZE
    ensures (match DecodeHeader(header)
             case None => false
             case Some(h) => |body| == BodySize(h) && DecodeBody(h, body) == Some(f))
            <==> WellFormed(header, body, f)
  {
    match DecodeHeader(header)
    case None =>
    case Some(h) =>
      if |body| == BodySize(h) {
        var g := Completed(h, body[..h.dataSize]);
        CompletedOfParts(header, body[..h.dataSize], h);
        AcceptedBody(h, body);
        if WellFormed(header, body, f) {
          WellFormedComputed(header, body, f, h);
        }
      } else if WellFormed(header, body, f) {
        WellFormedData(header, body, f);
      }
  }

  lemma WellFormedComputed(header: seq<byte>, body: seq<byte>, f: Frame, h: Head)
    requires WellFormed(header, body, f) && DecodeHeader(header) == Some(h) && |body| == BodySize(h)
    ensures f == Completed(h, body[..h.dataSize])
  {
    WellFormedData(header, body, f);
    CompletedOfParts(header, f.data, h);
    var g := Completed(h, f.data);
    SameCount(f.additional, g.additional);
  }

  // ----- sender and receiver -----

  lemma LengthByte(dataSize: byte, n: nat)
    requires dataSize as int == n <= MAX_DATA_SIZE
    ensures (8 + dataSize) as int == PURE_HEADER_SIZE + n && 8 + dataSize != SEPARATOR_BYTE
  {}

  lemma HeaderFields(frameType: byte, useCrc: bool, dataSize: byte)
    requires dataSize as int <= MAX_DATA_SIZE
    ensures var header := HeaderBytes(frameType, useCrc, dataSize);
            && header[0] as int == PURE_HEADER_SIZE + dataSize as int
            && (header[1] & USE_CRC_MASK != 0) == useCrc
            && forall i :: 0 <= i < PURE_HEADER_SIZE - 1 ==> header[i] != SEPARATOR_BYTE
  {
    LengthByte(dataSize, dataSize as int);
  }

  lemma HeaderSeparators(frameType: byte, useCrc: bool, dataSize: byte, data: seq<byte>)
    requires dataSize as int <= MAX_DATA_SIZE
    ensures Separators(HeaderBytes(frameType, useCrc, dataSize) + data) == Separators([frameType] + data)
  {
    var header := HeaderBytes(frameType, useCrc, dataSize);
    HeaderFields(frameType, useCrc, dataSize);
    SeparatorsOfConcat(header, data);
    SeparatorsOfConcat([frameType], data);
    SeparatorsOfHeader(header);
  }

  lemma SeparatorsOfHeader(header: seq<byte>)
    requires |header| == PURE_HEADER_SIZE
    requires forall i :: 0 <= i < PURE_HEADER_SIZE - 1 ==> header[i] != SEPARATOR_BYTE
    ensures Separators(header) == Separators([header[7]])
  {
    PlainBytes(header[..7]);
    SeparatorsOfConcat(header[..7], [header[7]]);
    assert header == header[..7] + [header[7]];
  }

  lemma FrameOverIsWellFormed(header: seq<byte>, frameType: byte, data: seq<byte>, useCrc: bool)
    requires |header| == PURE_HEADER_SIZE && |data| <= MAX_DATA_SIZE
    requires header[0] as int == PURE_HEADER_SIZE + |data| && (header[1] & USE_CRC_MASK != 0) == useCrc
    requires header[7] == frameType && Separators(header + data) == Separators([frameType] + data)
    requires CountEscapes(0, header + data) as int == Separators(header + data)
    ensures var f := FrameOver(header + data, frameType, data, useCrc); WellFormed(header, BodyBytes(f), f)
  {}

  /** What a sender builds from at most 233 data bytes is well-formed: the receiver restores every field. */
  lemma MadeFrameIsWellFormed(frameType: byte, data: seq<byte>, useCrc: bool)
    requires |data| <= MAX_DATA_SIZE
    ensures var f := MakeFrame(frameType, data, useCrc);
            WellFormed(HeaderBytes(frameType, useCrc, ByteOf(|data|)), BodyBytes(f), f)
  {
    var size := ByteOf(|data|);
    ByteOfExact(|data|);
    HeaderFields(frameType, useCrc, size);
    HeaderSeparators(frameType, useCrc, size, data);
    CountEscapesExact(HeaderBytes(frameType, useCrc, size) + data);
    FrameOverIsWellFormed(HeaderBytes(frameType, useCrc, size), frameType, data, useCrc);
  }

  /** Printed and parsed again, header first and then body, a frame comes back with every field as it was. */
  lemma FrameRestored(frameType: byte, data: seq<byte>, useCrc: bool)
    requires |data| <= MAX_DATA_SIZE
    ensures var f, h := MakeFrame(frameType, data, useCrc), DecodeHeader(HeaderBytes(frameType, useCrc, ByteOf(|data|)));
            && h.Some? && |BodyBytes(f)| == BodySize(h.value) && DecodeBody(h.value, BodyBytes(f)) == Some(f)
            && f.frameType == frameType && f.data == data && f.useCrc == useCrc
  {
    var f, header := MakeFrame(frameType, data, useCrc), HeaderBytes(frameType, useCrc, ByteOf(|data|));
    MadeFrameIsWellFormed(frameType, data, useCrc);
    AcceptedIffWellFormed(header, BodyBytes(f), f);
  }

  /**
   A frame with a CRC whose data suffers a burst of at most sixteen bits, at any bit position, is rejected for its CRC,
   whatever has become of the checksum byte.
   */
  lemma DamageDetected(h: Head, body: seq<byte>, damaged: seq<byte>, i: nat, k: nat)
    requires h.useCrc && |body| == |damaged| == BodySize(h) && JudgeBody(h, body) == COMPLETE_FRAME
    requires body[h.dataSize + 1..] == damaged[h.dataSize + 1..]
    requires DifferInBurst(body[..h.dataSize], damaged[..h.dataSize], i, k)
    requires body[..h.dataSize] != damaged[..h.dataSize]
    ensures JudgeBody(h, damaged) == CRC_WRONG
  {
    var n := h.dataSize;
    assert body[n + 1] == body[n + 1..][0] == damaged[n + 1..][0] == damaged[n + 1];
    assert body[n + 2] == body[n + 1..][1] == damaged[n + 1..][1] == damaged[n + 2];
    if Crc(h.crc, body[..n]) == Crc(h.crc, damaged[..n]) {
      BurstDetected(h.crc, body[..n], damaged[..n], i, k);
    }
  }

  // ----- the checksum and its description -----

  /** A sum that the lemmas below carry along by name. */
  function Plus(x: byte, y: byte): byte {
    x + y
  }

  function CountedOn(count: byte, b: byte): byte {
    count + if b == SEPARATOR_BYTE then 1 else 0
  }

  /** With its escapes, a plain sum of bytes comes to all. */
  predicate AddsUp(plain: byte, escapes: byte, all: byte) {
    all == Plus(plain, EscapeSum(escapes))
  }

  lemma PlusIs(x: byte, y: byte)
    ensures Plus(x, y) == x + y
  {}

  lemma SumsGrouped(x: byte, y: byte, z: byte)
    ensures (x + y) + z == x + (y + z)
  {}

  lemma PlusGrouped(x: byte, y: byte, z: byte)
    ensures Plus(Plus(x, y), z) == Plus(x, Plus(y, z))
  {
    PlusIs(x, y);
    PlusIs(y, z);
    PlusIs(x + y, z);
    PlusIs(x, y + z);
    SumsGrouped(x, y, z);
  }

  lemma PlusSwapped(x: byte, y: byte)
    ensures Plus(x, y) == Plus(y, x)
  {}

  lemma PlusExchanged(x: byte, y: byte, z: byte)
    ensures Plus(Plus(x, y), z) == Plus(Plus(x, z), y)
  {
    PlusGrouped(x, y, z);
    PlusSwapped(y, z);
    PlusGrouped(x, z, y);
  }

  lemma PlainByteAdds(b: byte, plain: byte, escapes: byte, all: byte)
    requires AddsUp(plain, escapes, all) && b != SEPARATOR_BYTE
    ensures AddsUp(Plus(plain, b), CountedOn(escapes, b), Plus(all, b))
  {
    NoneCounted(escapes, b, CountedOn(escapes, b));
    PlusExchanged(plain, EscapeSum(escapes), b);
  }

  lemma NoneCounted(escapes: byte, b: byte, next: byte)
    requires next == CountedOn(escapes, b) && b != SEPARATOR_BYTE
    ensures next == escapes
  {}

  lemma EscapedByteAdds(b: byte, plain: byte, escapes: byte, all: byte)
    requires AddsUp(plain, escapes, all) && b == SEPARATOR_BYTE
    ensures AddsUp(Plus(plain, b), CountedOn(escapes, b), Plus(Plus(all, b), SEPARATOR_POST_BYTE))
  {
    OneEscapeMore(escapes, b, EscapeSum(escapes), EscapeSum(CountedOn(escapes, b)));
    PlusExchanged(plain, EscapeSum(escapes), b);
    PlusGrouped(Plus(plain, b), EscapeSum(escapes), SEPARATOR_POST_BYTE);
  }

  lemma OneEscapeMore(escapes: byte, b: byte, sum: byte, more: byte)
    requires b == SEPARATOR_BYTE && sum == EscapeSum(escapes) && more == EscapeSum(CountedOn(escapes, b))
    ensures more == Plus(sum, SEPARATOR_POST_BYTE)
  {}

  lemma SumOfOneByte(x: byte, b: byte)
    ensures Sum(x, [b]) == Plus(x, b)
  {
    assert [b][..0] == [];
  }

  lemma SumOfStuffByte(x: byte, b: byte)
    ensures Sum(x, StuffByte(b)) == if b == SEPARATOR_BYTE then Plus(Plus(x, b), SEPARATOR_POST_BYTE) else Plus(x, b)
  {
    SumOfOneByte(x, b);
    if b == SEPARATOR_BYTE {
      SumOfOneByte(Plus(x, b), SEPARATOR_POST_BYTE);
      SumConcat(x, [b], [SEPARATOR_POST_BYTE]);
      assert [b] + [SEPARATOR_POST_BYTE] == StuffByte(b);
    }
  }

  lemma SumOfStuffedNext(x: byte, front: seq<byte>, b: byte)
    ensures Sum(x, Stuff(front + [b])) == Sum(Sum(x, Stuff(front)), StuffByte(b))
    ensures Sum(x, front + [b]) == Plus(Sum(x, front), b)
    ensures CountEscapes(0, front + [b]) == CountedOn(CountEscapes(0, front), b)
  {
    SumConcat(x, front, [b]);
    SumOfOneByte(Sum(x, front), b);
    CountEscapesConcat(0, front, [b]);
    CountOfOneByte(CountEscapes(0, front), b);
    StuffOfSnoc(front, b);
    SumConcat(x, Stuff(front), StuffByte(b));
  }

  lemma CountOfOneByte(count: byte, b: byte)
    ensures CountEscapes(count, [b]) == CountedOn(count, b)
  {
    assert [b][..0] == [];
  }

  lemma AddedUp(b: byte, plain: byte, escapes: byte, all: byte, all': byte)
    requires AddsUp(plain, escapes, all) && all' == Sum(all, StuffByte(b))
    ensures AddsUp(Plus(plain, b), CountedOn(escapes, b), all')
  {
    SumOfStuffByte(all, b);
    if b == SEPARATOR_BYTE {
      EscapedByteAdds(b, plain, escapes, all);
    } else {
      PlainByteAdds(b, plain, escapes, all);
    }
  }

  /** Every separator adds its escape byte to the sum. */
  lemma {:induction false} SumOfStuffed(x: byte, s: seq<byte>)
    ensures AddsUp(Sum(x, s), CountEscapes(0, s), Sum(x, Stuff(s)))
  {
    if s == [] {
      AddsUpFromNothing(x);
    } else {
      var front, b := s[..|s| - 1], s[|s| - 1];
      SumOfStuffed(x, front);
      assert s == front + [b];
      SumOfStuffedNext(x, front, b);
      AddedUp(b, Sum(x, front), CountEscapes(0, front), Sum(x, Stuff(front)), Sum(x, Stuff(s)));
    }
  }

  lemma AddsUpFromNothing(x: byte)
    ensures AddsUp(x, 0, x)
  {}

  /**
   The checksum of a frame, however many data bytes it has, is the eight-bit sum of the bytes between the separators and
   the checksum as they stand on the wire, escape bytes included.
   */
  lemma ChecksumIsWireSum(frameType: byte, data: seq<byte>, useCrc: bool)
    ensures var header := HeaderBytes(frameType, useCrc, ByteOf(|data|));
            MakeFrame(frameType, data, useCrc).checksum == Sum(0, Stuff(header) + Stuff(data))
  {
    var header := HeaderBytes(frameType, useCrc, ByteOf(|data|));
    StuffOfConcat(header, data);
    SumOfStuffed(0, header + data);
  }

  /** The same of any frame that is accepted, if no header byte but the type is a separator. */
  lemma AcceptedChecksumIsWireSum(header: seq<byte>, body: seq<byte>, f: Frame)
    requires WellFormed(header, body, f)
    requires forall i :: 0 <= i < PURE_HEADER_SIZE - 1 ==> header[i] != SEPARATOR_BYTE
    ensures f.checksum == Sum(0, Stuff(header) + Stuff(f.data))
  {
    StuffOfConcat(header, f.data);
    SumOfStuffed(0, header + f.data);
    EscapesOfAccepted(header, body, f);
  }

  lemma EscapesOfAccepted(header: seq<byte>, body: seq<byte>, f: Frame)
    requires WellFormed(header, body, f)
    requires forall i :: 0 <= i < PURE_HEADER_SIZE - 1 ==> header[i] != SEPARATOR_BYTE
    ensures f.additional == CountEscapes(0, header + f.data)
  {
    SeparatorsOfHeader(header);
    SeparatorsOfConcat(header, f.data);
    SeparatorsOfConcat([f.frameType], f.data);
    CountEscapesExact(header + f.data);
    SameCount(f.additional, CountEscapes(0, header + f.data));
  }

  lemma EscapesAddUp(a: byte)
    ensures EscapeSum(a) == 0 <==> a == 0
  {}

  lemma AddsNothing(x: byte, y: byte)
    ensures x + y == x <==> y == 0
  {}

  /**
   The checksum of an acceptable frame is the plain sum of its bytes exactly if neither its type nor its data contains a
   separator.
   */
  lemma ChecksumIsPlainSumIff(header: seq<byte>, body: seq<byte>, f: Frame)
    requires WellFormed(header, body, f)
    ensures f.checksum == Sum(0, header + f.data) <==> Separators([f.frameType] + f.data) == 0
  {
    EscapesAddUp(f.additional);
    AddsNothing(Sum(0, header + f.data), EscapeSum(f.additional));
  }

  /** For example it is not in a frame of type 0xFF without data. */
  lemma ChecksumIsNotPlainSum(useCrc: bool)
    ensures var f := MakeFrame(SEPARATOR_BYTE, [], useCrc);
            f.checksum != Sum(0, HeaderBytes(SEPARATOR_BYTE, useCrc, 0))
  {
    var f, header := MakeFrame(SEPARATOR_BYTE, [], useCrc), HeaderBytes(SEPARATOR_BYTE, useCrc, 0);
    MadeFrameIsWellFormed(SEPARATOR_BYTE, [], useCrc);
    ChecksumIsPlainSumIff(header, BodyBytes(f), f);
    assert [SEPARATOR_BYTE] + f.data == [SEPARATOR_BYTE] && header + f.data == header;
    assert [SEPARATOR_BYTE][..0] == [];
  }
}
