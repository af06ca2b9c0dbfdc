/** Frames spelled out: what any frame without separators looks like, and literal bytes with all kinds of escapes. */
module FrameExamples {
  import opened Sequences
  import opened Bytes
  import opened Crc16
  import opened Stuffing
  import opened FrameFormat
  import opened Deframer
  import opened Resync

  /** The bytes of a CRC, the high one first. */
  function HighFirst(crc: bv16): seq<byte> {
    [(crc >> 8) as byte, (crc & 0xFF) as byte]
  }

  predicate NoSeparators(s: seq<byte>) {
    forall i :: 0 <= i < |s| ==> s[i] != SEPARATOR_BYTE
  }

  /**
   On the wire a frame in which nothing has to be escaped is two separators, the number of header and data bytes, the
   flag, five zeros, the type, the data, the sum of all that and, if the flag says so, the CRC, high byte first.
   */
  lemma PlainOnWire(frameType: byte, data: seq<byte>, useCrc: bool, size: byte, covered: seq<byte>, tail: seq<byte>)
    requires |data| <= MAX_DATA_SIZE && size as int == 8 + |data|
    requires covered == [size, if useCrc then 0x40 else 0, 0, 0, 0, 0, 0, frameType] + data
    requires tail == [Sum(0, covered)] + if useCrc then HighFirst(Crc(0, covered)) else []
    requires NoSeparators(covered) && NoSeparators(tail)
    ensures Encode(MakeFrame(frameType, data, useCrc)) == [0xFF, 0xFF] + covered + tail
  {
    var header := HeaderBytes(frameType, useCrc, ByteOf(|data|));
    HeaderSpelled(frameType, useCrc, |data|, size);
    PlainBody(covered, frameType, data, useCrc, tail);
    PlainParts(header, data, covered, tail);
  }

  lemma HeaderSpelled(frameType: byte, useCrc: bool, n: nat, size: byte)
    requires n <= MAX_DATA_SIZE && size as int == 8 + n
    ensures HeaderBytes(frameType, useCrc, ByteOf(n)) == [size, if useCrc then 0x40 else 0, 0, 0, 0, 0, 0, frameType]
  {
    ByteOfExact(n);
    SizeByte(size, ByteOf(n));
  }

  lemma SizeByte(size: byte, n: byte)
    requires size as int == 8 + n as int
    ensures size == 8 + n
  {}

  lemma PlainBody(covered: seq<byte>, frameType: byte, data: seq<byte>, useCrc: bool, tail: seq<byte>)
    requires NoSeparators(covered) && tail == [Sum(0, covered)] + if useCrc then HighFirst(Crc(0, covered)) else []
    ensures BodyBytes(FrameOver(covered, frameType, data, useCrc)) == data + tail
  {
    NoEscapes(covered);
    NothingAdded(Sum(0, covered));
    if useCrc {
      ConcatAssociative(data, [Sum(0, covered)], HighFirst(Crc(0, covered)));
    } else {
      EmptyBehind(data + [Sum(0, covered)]);
      EmptyBehind([Sum(0, covered)]);
    }
  }

  lemma NothingAdded(x: byte)
    ensures x + EscapeSum(0) == x
  {}

  lemma {:induction false} NoEscapes(s: seq<byte>)
    requires NoSeparators(s)
    ensures CountEscapes(0, s) == 0
  {
    if s != [] {
      NoEscapes(s[..|s| - 1]);
    }
  }

  lemma PlainParts(header: seq<byte>, data: seq<byte>, covered: seq<byte>, tail: seq<byte>)
    requires covered == header + data && NoSeparators(covered) && NoSeparators(tail)
    ensures SEPARATORS + Stuff(header) + Stuff(data + tail) == SEPARATORS + covered + tail
  {
    assert NoSeparators(header) by { assert forall i :: 0 <= i < |header| ==> header[i] == covered[i]; }
    assert NoSeparators(data) by { assert forall i :: 0 <= i < |data| ==> data[i] == covered[|header| + i]; }
    PlainBytes(header);
    PlainBytes(data + tail);
    FourParts(SEPARATORS, header, data, tail);
  }

  lemma FourParts<T>(a: seq<T>, b: seq<T>, c: seq<T>, d: seq<T>)
    ensures a + b + (c + d) == a + (b + c) + d
  {}

  // ----- literal bytes -----

  const ESCAPED_HEADER: seq<byte> := [0x0E, 0x40, 0, 0, 0, 0, 0, 0xFF]
  const ESCAPED_DATA: seq<byte> := [0xFF, 0xFF, 0x05, 0xFF, 0xFF, 0x08]

  lemma EscapedSum(s: seq<byte>)
    requires s == ESCAPED_HEADER + ESCAPED_DATA
    ensures Sum(0, s) == 0x56
  {
    HeaderSum(s);
    SumOfNext(0, s, 7);
    SumOfNext(0, s, 8);
    SumOfNext(0, s, 9);
    SumOfNext(0, s, 10);
    SumOfNext(0, s, 11);
    SumOfNext(0, s, 12);
    SumOfNext(0, s, 13);
    assert s[..14] == s;
  }

  lemma HeaderSum(s: seq<byte>)
    requires s == ESCAPED_HEADER + ESCAPED_DATA
    ensures Sum(0, s[..7]) == 0x4E
  {
    SumOfNext(0, s, 0);
    SumOfNext(0, s, 1);
    SumOfNext(0, s, 2);
    SumOfNext(0, s, 3);
    SumOfNext(0, s, 4);
    SumOfNext(0, s, 5);
    SumOfNext(0, s, 6);
  }

  lemma CountInTen(s: seq<byte>)
    requires s == ESCAPED_HEADER + ESCAPED_DATA
    ensures CountEscapes(0, s[..10]) == 3
  {
    NoEscapes(s[..7]);
    CountEscapesOfNext(0, s, 7);
    CountEscapesOfNext(0, s, 8);
    CountEscapesOfNext(0, s, 9);
  }

  lemma EscapedCount(s: seq<byte>)
    requires s == ESCAPED_HEADER + ESCAPED_DATA
    ensures CountEscapes(0, s) == 5
  {
    CountInTen(s);
    CountEscapesOfNext(0, s, 10);
    CountEscapesOfNext(0, s, 11);
    CountEscapesOfNext(0, s, 12);
    CountEscapesOfNext(0, s, 13);
    assert s[..14] == s;
  }

  lemma CrcNext(s: seq<byte>, i: nat, b: byte, crc: bv16, next: bv16)
    requires i < |s| && s[i] == b && Crc(0, s[..i]) == crc && Crc16Byte(b, crc) == next
    ensures Crc(0, s[..i + 1]) == next
  {
    CrcOfNext(0, s, i);
    TableStepIsBitSerial(b, crc);
  }

  lemma CrcAt3(s: seq<byte>)
    requires s == ESCAPED_HEADER + ESCAPED_DATA
    ensures Crc(0, s[..3]) == 0x0350
  {
    CrcNext(s, 0, 0x0E, 0x0000, 0xC481);
    CrcNext(s, 1, 0x40, 0xC481, 0x9005);
    CrcNext(s, 2, 0x00, 0x9005, 0x0350);
  }

  lemma CrcAt6(s: seq<byte>)
    requires s == ESCAPED_HEADER + ESCAPED_DATA
    ensures Crc(0, s[..6]) == 0xE100
  {
    CrcAt3(s);
    CrcNext(s, 3, 0x00, 0x0350, 0x3C03);
    CrcNext(s, 4, 0x00, 0x3C03, 0x017C);
    CrcNext(s, 5, 0x00, 0x017C, 0xE100);
  }

  lemma CrcAt9(s: seq<byte>)
    requires s == ESCAPED_HEADER + ESCAPED_DATA
    ensures Crc(0, s[..9]) == 0xE049
  {
    CrcAt6(s);
    CrcNext(s, 6, 0x00, 0xE100, 0x00E1);
    CrcNext(s, 7, 0xFF, 0x00E1, 0x0880);
    CrcNext(s, 8, 0xFF, 0x0880, 0xE049);
  }

  lemma CrcAt12(s: seq<byte>)
    requires s == ESCAPED_HEADER + ESCAPED_DATA
    ensures Crc(0, s[..12]) == 0x36EB
  {
    CrcAt9(s);
    CrcNext(s, 9, 0xFF, 0xE049, 0xB661);
    CrcNext(s, 10, 0x05, 0xB661, 0xEBB7);
    CrcNext(s, 11, 0xFF, 0xEBB7, 0x36EB);
  }

  lemma EscapedCrc(s: seq<byte>)
    requires s == ESCAPED_HEADER + ESCAPED_DATA
    ensures Crc(0, s) == 0xD08E
  {
    CrcAt12(s);
    CrcNext(s, 12, 0xFF, 0x36EB, 0x0F36);
    CrcNext(s, 13, 0x08, 0x0F36, 0xD08E);
    assert s[..14] == s;
  }

  lemma StuffJoined(a: seq<byte>, b: seq<byte>, wireA: seq<byte>, wireB: seq<byte>, all: seq<byte>, wire: seq<byte>)
    requires Stuff(a) == wireA && Stuff(b) == wireB && all == a + b && wire == wireA + wireB
    ensures Stuff(all) == wire
  {
    StuffOfConcat(a, b);
  }

  lemma StuffedSeparator()
    ensures Stuff([0xFF]) == [0xFF, 0x55]
  {
    StuffOfSnoc([], 0xFF);
    assert [] + [SEPARATOR_BYTE] == [0xFF];
  }

  lemma StuffedHeader()
    ensures Stuff(ESCAPED_HEADER) == [0x0E, 0x40, 0, 0, 0, 0, 0, 0xFF, 0x55]
  {
    var front: seq<byte> := [0x0E, 0x40, 0, 0, 0, 0, 0];
    PlainBytes(front);
    StuffedSeparator();
    StuffJoined(front, [0xFF], front, [0xFF, 0x55], ESCAPED_HEADER, [0x0E, 0x40, 0, 0, 0, 0, 0, 0xFF, 0x55]);
  }

  lemma StuffedTwo()
    ensures Stuff([0xFF, 0xFF]) == [0xFF, 0x55, 0xFF, 0x55]
  {
    StuffedSeparator();
    StuffJoined([0xFF], [0xFF], [0xFF, 0x55], [0xFF, 0x55], [0xFF, 0xFF], [0xFF, 0x55, 0xFF, 0x55]);
  }

  lemma StuffedThree(b: byte)
    requires b != SEPARATOR_BYTE
    ensures Stuff([0xFF, 0xFF, b]) == [0xFF, 0x55, 0xFF, 0x55, b]
  {
    StuffedTwo();
    PlainBytes([b]);
    StuffJoined([0xFF, 0xFF], [b], [0xFF, 0x55, 0xFF, 0x55], [b], [0xFF, 0xFF, b], [0xFF, 0x55, 0xFF, 0x55, b]);
  }

  lemma StuffedData()
    ensures Stuff(ESCAPED_DATA) == [0xFF, 0x55, 0xFF, 0x55, 0x05, 0xFF, 0x55, 0xFF, 0x55, 0x08]
  {
    StuffedThree(0x05);
    StuffedThree(0x08);
    StuffJoined([0xFF, 0xFF, 0x05], [0xFF, 0xFF, 0x08], [0xFF, 0x55, 0xFF, 0x55, 0x05], [0xFF, 0x55, 0xFF, 0x55, 0x08],
                ESCAPED_DATA, [0xFF, 0x55, 0xFF, 0x55, 0x05, 0xFF, 0x55, 0xFF, 0x55, 0x08]);
  }

  lemma StuffedEnd()
    ensures Stuff([0xFF, 0xD0, 0x8E]) == [0xFF, 0x55, 0xD0, 0x8E]
  {
    StuffedSeparator();
    PlainBytes([0xD0, 0x8E]);
    StuffJoined([0xFF], [0xD0, 0x8E], [0xFF, 0x55], [0xD0, 0x8E], [0xFF, 0xD0, 0x8E], [0xFF, 0x55, 0xD0, 0x8E]);
  }

  /** The frame of type FF with six data bytes, four of them separators, and a CRC. */
  lemma EscapedFrame()
    ensures MakeFrame(0xFF, ESCAPED_DATA, true) == Frame(0xFF, true, ESCAPED_DATA, 0xFF, 0xD08E, 5)
  {
    HeaderSpelled(0xFF, true, 6, 0x0E);
    EscapedSum(ESCAPED_HEADER + ESCAPED_DATA);
    EscapedCount(ESCAPED_HEADER + ESCAPED_DATA);
    EscapedCrc(ESCAPED_HEADER + ESCAPED_DATA);
  }

  /** The bytes of that frame, and that a new receiver hands it over when they arrive. */
  lemma EscapedOnWire()
    ensures var f := MakeFrame(0xFF, ESCAPED_DATA, true);
            var wire := [0xFF, 0xFF, 0x0E, 0x40, 0x00, 0x00, 0x00, 0x00, 0x00, 0xFF, 0x55, 0xFF, 0x55, 0xFF, 0x55, 0x05,
                         0xFF, 0x55, 0xFF, 0x55, 0x08, 0xFF, 0x55, 0xD0, 0x8E];
            Encode(f) == wire && Run(State(Hunt, wire)) == Result([f], State(Hunt, []))
  {
    var f := MakeFrame(0xFF, ESCAPED_DATA, true);
    EscapedFrame();
    EscapedEncoding(f);
    MadeFrameIsWellFormed(0xFF, ESCAPED_DATA, true);
    FrameDelivered(HeaderBytes(0xFF, true, ByteOf(6)), BodyBytes(f), f, []);
    EmptyBehind(Encode(f));
  }

  lemma EscapedEncoding(f: Frame)
    requires f == Frame(0xFF, true, ESCAPED_DATA, 0xFF, 0xD08E, 5)
    ensures Encode(f) == [0xFF, 0xFF, 0x0E, 0x40, 0x00, 0x00, 0x00, 0x00, 0x00, 0xFF, 0x55, 0xFF, 0x55, 0xFF, 0x55, 0x05,
                          0xFF, 0x55, 0xFF, 0x55, 0x08, 0xFF, 0x55, 0xD0, 0x8E]
  {
    var header, body := StuffedParts(f);
    EncodedAs(f, header, body);
  }

  lemma EncodedAs(f: Frame, header: seq<byte>, body: seq<byte>)
    requires Stuff(HeaderBytes(f.frameType, f.useCrc, ByteOf(|f.data|))) == header && Stuff(BodyBytes(f)) == body
    ensures Encode(f) == [0xFF, 0xFF] + header + body
  {}

  lemma StuffedParts(f: Frame) returns (header: seq<byte>, body: seq<byte>)
    requires f == Frame(0xFF, true, ESCAPED_DATA, 0xFF, 0xD08E, 5)
    ensures Stuff(HeaderBytes(f.frameType, f.useCrc, ByteOf(|f.data|))) == header && Stuff(BodyBytes(f)) == body
    ensures header == [0x0E, 0x40, 0, 0, 0, 0, 0, 0xFF, 0x55]
    ensures body == [0xFF, 0x55, 0xFF, 0x55, 0x05, 0xFF, 0x55, 0xFF, 0x55, 0x08, 0xFF, 0x55, 0xD0, 0x8E]
  {
    header := [0x0E, 0x40, 0, 0, 0, 0, 0, 0xFF, 0x55];
    body := [0xFF, 0x55, 0xFF, 0x55, 0x05, 0xFF, 0x55, 0xFF, 0x55, 0x08, 0xFF, 0x55, 0xD0, 0x8E];
    HeaderSpelled(0xFF, true, 6, 0x0E);
    StuffedHeader();
    EscapedBody(f);
    StuffedData();
    StuffedEnd();
    StuffJoined(ESCAPED_DATA, [0xFF, 0xD0, 0x8E], [0xFF, 0x55, 0xFF, 0x55, 0x05, 0xFF, 0x55, 0xFF, 0x55, 0x08],
                [0xFF, 0x55, 0xD0, 0x8E], BodyBytes(f), body);
  }

  lemma EscapedBody(f: Frame)
    requires f == Frame(0xFF, true, ESCAPED_DATA, 0xFF, 0xD08E, 5)
    ensures BodyBytes(f) == ESCAPED_DATA + [0xFF, 0xD0, 0x8E]
  {
    ConcatAssociative(ESCAPED_DATA, [0xFF], CrcBytes(f.crc));
  }

  /** A frame without a CRC: type 1 and one data byte, a separator. */
  lemma SmallEscapedOnWire()
    ensures Encode(MakeFrame(0x01, [0xFF], false))
            == [0xFF, 0xFF, 0x09, 0x00, 0x00, 0x00, 0x00, 0x00, 0x00, 0x01, 0xFF, 0x55, 0x5E]
  {
    var header: seq<byte> := [0x09, 0, 0, 0, 0, 0, 0, 0x01];
    HeaderSpelled(0x01, false, 1, 0x09);
    SmallBody(header);
    SmallStuffedBody();
    PlainBytes(header);
  }

  lemma SmallBody(header: seq<byte>)
    requires header == [0x09, 0, 0, 0, 0, 0, 0, 0x01]
    ensures BodyBytes(FrameOver(header + [0xFF], 0x01, [0xFF], false)) == [0xFF, 0x5E]
  {
    SmallSum(header);
    SmallCount(header);
    EmptyBehind([0xFF, 0x5E]);
  }

  lemma SmallStuffedBody()
    ensures Stuff([0xFF, 0x5E]) == [0xFF, 0x55, 0x5E]
  {
    StuffedSeparator();
    PlainBytes([0x5E]);
    StuffJoined([0xFF], [0x5E], [0xFF, 0x55], [0x5E], [0xFF, 0x5E], [0xFF, 0x55, 0x5E]);
  }

  lemma SmallSum(header: seq<byte>)
    requires header == [0x09, 0, 0, 0, 0, 0, 0, 0x01]
    ensures Sum(0, header + [0xFF]) == 0x09
  {
    var s := header + [0xFF];
    SumOfNext(0, s, 0);
    SumOfNext(0, s, 1);
    SumOfNext(0, s, 2);
    SumOfNext(0, s, 3);
    SumOfNext(0, s, 4);
    SumOfNext(0, s, 5);
    SumOfNext(0, s, 6);
    SumOfNext(0, s, 7);
    SumOfNext(0, s, 8);
    assert s[..9] == s;
  }

  lemma SmallCount(header: seq<byte>)
    requires header == [0x09, 0, 0, 0, 0, 0, 0, 0x01]
    ensures CountEscapes(0, header + [0xFF]) == 1
  {
    NoEscapes(header);
    CountEscapesOfNext(0, header + [0xFF], 8);
    assert (header + [0xFF])[..8] == header && (header + [0xFF])[..9] == header + [0xFF];
  }
}
