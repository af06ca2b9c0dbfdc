/** Messages at the edges of what the transport can send. */
module WireExamples {
  import opened Sequences
  import opened Bytes
  import opened Stuffing
  import opened FrameFormat
  import opened Rings
  import opened WireBuffer
  import opened Transactions
  import opened HandlerWire

  /** n times a separator and a one, which add up to nothing. */
  function Pairs(n: nat): (s: seq<byte>)
    ensures |s| == 2 * n
  {
    if n == 0 then [] else Pairs(n - 1) + [SEPARATOR_BYTE, 1]
  }

  /** A payload of 233 bytes, n of them separators. */
  function Payload(n: nat): (s: seq<byte>)
    requires n <= 100
    ensures |s| == MAX_DATA_SIZE
  {
    Pairs(n) + Zeros(MAX_DATA_SIZE - 2 * n)
  }

  function Sample(n: nat): Message
    requires n <= 100
  {
    Message(0, Payload(n))
  }

  lemma SumOfOne(x: byte, b: byte)
    ensures Sum(x, [b]) == x + b && CountEscapes(x, [b]) == x + if b == SEPARATOR_BYTE then 1 else 0
  {
    assert [b][..0] == [];
  }

  lemma BackAgain(x: byte)
    ensures x + SEPARATOR_BYTE + 1 == x
  {}

  lemma OnePair(x: byte)
    ensures Sum(x, [SEPARATOR_BYTE, 1]) == x && CountEscapes(x, [SEPARATOR_BYTE, 1]) == x + 1
  {
    assert [SEPARATOR_BYTE, 1] == [SEPARATOR_BYTE] + [1];
    SumConcat(x, [SEPARATOR_BYTE], [1]);
    CountEscapesConcat(x, [SEPARATOR_BYTE], [1]);
    SumOfOne(x, SEPARATOR_BYTE);
    SumOfOne(x + SEPARATOR_BYTE, 1);
    SumOfOne(x + 1, 1);
    BackAgain(x);
  }

  lemma {:induction false} PairsAddUp(x: byte, n: nat)
    ensures Sum(x, Pairs(n)) == x && CountEscapes(0, Pairs(n)) == ByteOf(n)
  {
    if n > 0 {
      PairsAddUp(x, n - 1);
      SumConcat(x, Pairs(n - 1), [SEPARATOR_BYTE, 1]);
      CountEscapesConcat(0, Pairs(n - 1), [SEPARATOR_BYTE, 1]);
      OnePair(x);
      OnePair(ByteOf(n - 1));
    }
  }

  lemma {:induction false} NoneInZeros(x: byte, n: nat)
    ensures CountEscapes(x, Zeros(n)) == x
  {
    if n > 0 {
      NoneInZeros(x, n - 1);
      assert Zeros(n)[..n - 1] == Zeros(n - 1);
    }
  }

  lemma HeaderAddsUp(size: byte, header: seq<byte>)
    requires header == [size, 0, 0, 0, 0, 0, 0, 0] && size != SEPARATOR_BYTE
    ensures Sum(0, header) == size && CountEscapes(0, header) == 0
  {
    assert header == [size] + Zeros(7);
    SumConcat(0, [size], Zeros(7));
    CountEscapesConcat(0, [size], Zeros(7));
    SumOfOne(0, size);
    SumOfZeros(size, 7);
    NoneInZeros(0, 7);
  }

  lemma PayloadAddsUp(x: byte, n: nat)
    requires n <= 100
    ensures Sum(x, Payload(n)) == x && CountEscapes(0, Payload(n)) == ByteOf(n)
  {
    var rest := MAX_DATA_SIZE - 2 * n;
    SumConcat(x, Pairs(n), Zeros(rest));
    CountEscapesConcat(0, Pairs(n), Zeros(rest));
    PairsAddUp(x, n);
    SumOfZeros(x, rest);
    NoneInZeros(ByteOf(n), rest);
  }

  lemma SampleSums(size: byte, n: nat, header: seq<byte>)
    requires n <= 100 && header == [size, 0, 0, 0, 0, 0, 0, 0] && size != SEPARATOR_BYTE
    ensures Sum(0, header + Payload(n)) == size && CountEscapes(0, header + Payload(n)) == ByteOf(n)
  {
    HeaderAddsUp(size, header);
    PayloadAddsUp(size, n);
    SumConcat(0, header, Payload(n));
    CountEscapesConcat(0, header, Payload(n));
  }

  lemma LargestLength(size: byte)
    requires size as int == 241
    ensures size == 0xF1
  {}

  /** The frame of a sample without CRC: its size, and the checksum on which a last byte depends. */
  lemma SampleSize(n: nat)
    requires n <= 100
    ensures var f := FrameOf(Sample(n), false);
            && f.checksum == 0xF1 + EscapeSum(ByteOf(n))
            && |WireOf(Sample(n), false)| == 244 + n + Separators([f.checksum])
  {
    var f, dataSize := FrameOf(Sample(n), false), ByteOf(MAX_DATA_SIZE);
    var size: byte := 8 + dataSize;
    ByteOfExact(MAX_DATA_SIZE);
    LengthByte(dataSize, MAX_DATA_SIZE);
    LargestLength(size);
    SampleSums(size, n, HeaderBytes(0, false, dataSize));
    MadeFrameIsWellFormed(0, Payload(n), false);
    ByteOfExact(n);
    EncodedSizeIsExact(f);
  }

  lemma TwelveAndThirteen()
    ensures ByteOf(12) == 12 && ByteOf(13) == 13
  {
    assert ByteOf(4) == 4;
    assert ByteOf(8) == 8;
    assert ByteOf(12) == 12;
  }

  lemma NoSeparator(b: byte)
    requires b != SEPARATOR_BYTE
    ensures Separators([b]) == 0
  {
    assert [b][..0] == [];
  }

  /** A message of 233 bytes that is sent intact and reported as a failure, whenever it is tried. */
  lemma ExactlyTooLong()
    ensures |WireOf(Sample(12), false)| == 256 && Intact(Sample(12), false) && !Accepted(Sample(12), false)
  {
    SampleSize(12);
    TwelveAndThirteen();
    NoSeparator(FrameOf(Sample(12), false).checksum);
  }

  lemma GarbledIff(m: Message, useCrc: bool, cells: seq<byte>)
    requires |m.payload| <= MAX_DATA_SIZE && |cells| == |WireOf(m, useCrc)|
    ensures WireBuffer.Written(cells, 0, WireOf(m, useCrc)) != WireOf(m, useCrc) <==> |WireOf(m, useCrc)| > 256
  {
    MadeFrameIsWellFormed(m.frameType, m.payload, useCrc);
    BufferHoldsFrameIff(cells, FrameOf(m, useCrc));
    EncodedSizeIsExact(FrameOf(m, useCrc));
  }

  lemma ThirteenIsMore()
    ensures |WireOf(Sample(13), false)| == 257
  {
    SampleSize(13);
    TwelveAndThirteen();
    NoSeparator(FrameOf(Sample(13), false).checksum);
  }

  /** A message of 233 bytes that is garbled, whatever the buffer held before, and reported as sent. */
  lemma GarbledAndAccepted(cells: seq<byte>)
    requires |cells| == |WireOf(Sample(13), false)|
    ensures |WireOf(Sample(13), false)| == 257 && Accepted(Sample(13), false)
    ensures WireBuffer.Written(cells, 0, WireOf(Sample(13), false)) != WireOf(Sample(13), false)
  {
    ThirteenIsMore();
    GarbledIff(Sample(13), false, cells);
  }

  /** A well-formed frame of 233 bytes that a receiver with the default ring never hands over, however its bytes come. */
  lemma TooLargeForDefaultRing()
    ensures !CanHandOver(DEFAULT_CAPACITY, FrameOf(Sample(18), false))
  {
    var f, header := FrameOf(Sample(18), false), HeaderBytes(0, false, ByteOf(MAX_DATA_SIZE));
    SampleSize(18);
    ByteOfExact(MAX_DATA_SIZE);
    HeaderWithoutSeparators(header);
    MadeFrameHandsOver(DEFAULT_CAPACITY, 0, Payload(18), false);
  }

  lemma HeaderWithoutSeparators(header: seq<byte>)
    requires forall i :: 0 <= i < |header| ==> header[i] != SEPARATOR_BYTE
    ensures |Stuff(header)| == |header|
  {
    PlainBytes(header);
  }
}
