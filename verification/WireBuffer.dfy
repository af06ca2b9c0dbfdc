/**
 The output buffer of a frame. The code writes it through an eight-bit cursor, so an encoding of more than 256 bytes
 runs over its own beginning.
 */
module WireBuffer {
  import opened Sequences
  import opened Bytes
  import opened Stuffing
  import opened FrameFormat

  const CURSOR_RANGE := 256

  /** The cursor stays inside: n bytes are no more than there are cells, or it wraps around before it gets to the end. */
  predicate Fits(n: nat, cells: nat) {
    n <= cells || CURSOR_RANGE <= cells
  }

  /** The cells after s has been written through a cursor at pos. */
  function Written(cells: seq<byte>, pos: nat, s: seq<byte>): (r: seq<byte>)
    requires pos < CURSOR_RANGE && (pos + |s| <= |cells| || CURSOR_RANGE <= |cells|)
    ensures |r| == |cells|
    decreases |s|
  {
    if s == [] then cells else Written(cells[pos := s[0]], (pos + 1) % CURSOR_RANGE, s[1..])
  }

  lemma CursorSteps(pos: nat, n: nat)
    requires pos < CURSOR_RANGE
    ensures ((pos + 1) % CURSOR_RANGE + n) % CURSOR_RANGE == (pos + (n + 1)) % CURSOR_RANGE
  {}

  lemma {:induction false} WrittenConcat(cells: seq<byte>, pos: nat, a: seq<byte>, b: seq<byte>)
    requires pos < CURSOR_RANGE && (pos + |a| + |b| <= |cells| || CURSOR_RANGE <= |cells|)
    ensures Written(cells, pos, a + b) == Written(Written(cells, pos, a), (pos + |a|) % CURSOR_RANGE, b)
    decreases |a|
  {
    if a == [] {
      assert a + b == b;
    } else {
      WrittenConcat(cells[pos := a[0]], (pos + 1) % CURSOR_RANGE, a[1..], b);
      CursorSteps(pos, |a| - 1);
      TailOfConcat(a, b);
    }
  }

  lemma TailOfConcat<T>(a: seq<T>, b: seq<T>)
    requires a != []
    ensures (a + b)[0] == a[0] && (a + b)[1..] == a[1..] + b
  {}

  lemma {:induction false} WrittenStraight(cells: seq<byte>, pos: nat, s: seq<byte>)
    requires pos < CURSOR_RANGE && pos + |s| <= CURSOR_RANGE && pos + |s| <= |cells|
    ensures Written(cells, pos, s) == cells[..pos] + s + cells[pos + |s|..]
    decreases |s|
  {
    if s == [] {
      assert cells[..pos] + s + cells[pos..] == cells;
    } else if |s| == 1 {
      assert cells[pos := s[0]] == cells[..pos] + s + cells[pos + 1..];
    } else {
      var next := cells[pos := s[0]];
      WrittenStraight(next, pos + 1, s[1..]);
      ShiftOne(cells, pos, s);
    }
  }

  lemma ShiftOne<T>(cells: seq<T>, pos: nat, s: seq<T>)
    requires s != [] && pos + |s| <= |cells|
    ensures var next := cells[pos := s[0]];
            next[..pos + 1] + s[1..] + next[pos + |s|..] == cells[..pos] + s + cells[pos + |s|..]
  {}

  // ----- the shape of an encoding -----

  lemma EncodingIsClean(f: Frame)
    ensures var s := Encode(f); s[..2] == SEPARATORS && Clean(s[2..]) && s[2..] != []
  {
    var header, body := HeaderBytes(f.frameType, f.useCrc, ByteOf(|f.data|)), BodyBytes(f);
    StuffOfConcat(header, body);
    StripOfStuff(header + body);
    StuffLength(header + body);
    Behind(SEPARATORS, Stuff(header), Stuff(body));
  }

  lemma Behind<T>(a: seq<T>, b: seq<T>, c: seq<T>)
    ensures (a + b + c)[..|a|] == a && (a + b + c)[|a|..] == b + c
  {}

  /** The two separators occur next to each other only at the start, and the last byte is none. */
  lemma PairOnlyAtStart(f: Frame, i: nat)
    requires 0 < i < |Encode(f)| && |f.data| <= MAX_DATA_SIZE
    ensures Encode(f)[i - 1] == Encode(f)[i] == SEPARATOR_BYTE <==> i == 1
    ensures Encode(f)[|Encode(f)| - 1] != SEPARATOR_BYTE
  {
    var s := Encode(f);
    EncodingIsClean(f);
    assert s[0] == s[..2][0] && s[1] == s[..2][1];
    assert i >= 2 ==> s[i] == s[2..][i - 2];
    assert s[|s| - 1] == s[2..][|s| - 3];
    if i > 2 {
      assert !BadAt(s[2..], i - 2);
    } else if i == 2 {
      ThirdByte(f);
    }
  }

  lemma ThirdByte(f: Frame)
    requires |f.data| <= MAX_DATA_SIZE
    ensures |Encode(f)| > 2 && Encode(f)[2] != SEPARATOR_BYTE
  {
    var header := HeaderBytes(f.frameType, f.useCrc, ByteOf(|f.data|));
    ByteOfExact(|f.data|);
    HeaderFields(f.frameType, f.useCrc, ByteOf(|f.data|));
    FirstOfStuff(header);
  }

  /** The bookkeeping by which get_buffer_size knows the length of the encoding. */
  function EncodedSize(f: Frame): nat {
    FRAME_HEADER_SIZE + |f.data| + f.additional as int + Separators([f.checksum]) + 1
    + if f.useCrc then 2 + Separators(CrcBytes(f.crc)) else 0
  }

  function HeaderOf(f: Frame): seq<byte> {
    HeaderBytes(f.frameType, f.useCrc, ByteOf(|f.data|))
  }

  /** The escape counter is what the constructor makes it, in eight bits, for up to 255 data bytes. */
  predicate Escaped(f: Frame) {
    |f.data| < 256 && f.additional == CountEscapes(0, HeaderOf(f) + f.data)
  }

  /** There are no more escapes than it can count. */
  predicate CountsEscapes(f: Frame) {
    Separators(HeaderOf(f) + f.data) < 256
  }

  lemma StuffedBodyLength(f: Frame)
    ensures |Stuff(BodyBytes(f))| == |f.data| + Separators(f.data) + Separators([f.checksum]) + 1
                                     + if f.useCrc then 2 + Separators(CrcBytes(f.crc)) else 0
  {
    var crc := if f.useCrc then CrcBytes(f.crc) else [];
    SeparatorsOfConcat(f.data + [f.checksum], crc);
    SeparatorsOfConcat(f.data, [f.checksum]);
    StuffLength(BodyBytes(f));
  }

  lemma EncodedLength(f: Frame)
    ensures |Encode(f)| == EncodedSize(f) - f.additional as int + Separators(HeaderOf(f) + f.data)
  {
    StuffLength(HeaderOf(f));
    StuffedBodyLength(f);
    SeparatorsOfConcat(HeaderOf(f), f.data);
  }

  /** The size is right if and only if the escape counter has not wrapped around. */
  lemma EncodedSizeIff(f: Frame)
    requires Escaped(f)
    ensures |Encode(f)| == EncodedSize(f) <==> CountsEscapes(f)
  {
    EncodedLength(f);
    if CountsEscapes(f) {
      CountEscapesExact(HeaderOf(f) + f.data);
    }
  }

  lemma {:induction false} SeparatorsAtMost(s: seq<byte>)
    ensures Separators(s) <= |s| && (Separators(s) == |s| <==> forall i :: 0 <= i < |s| ==> s[i] == SEPARATOR_BYTE)
  {
    if s != [] {
      SeparatorsAtMost(s[..|s| - 1]);
    }
  }

  lemma HeaderSeparatorsOf(header: seq<byte>)
    requires |header| == PURE_HEADER_SIZE && header[1] != SEPARATOR_BYTE
    requires forall i :: 2 <= i < 7 ==> header[i] != SEPARATOR_BYTE
    ensures Separators(header) == Separators([header[0]]) + Separators([header[7]])
  {
    PlainBytes(header[1..7]);
    SeparatorsOfConcat([header[0]] + header[1..7], [header[7]]);
    SeparatorsOfConcat([header[0]], header[1..7]);
    assert header == [header[0]] + header[1..7] + [header[7]];
  }

  lemma SeparatorsOfOne(b: byte)
    ensures Separators([b]) == if b == SEPARATOR_BYTE then 1 else 0
  {
    assert [b][..0] == [];
  }

  lemma LengthByteIs(size: byte, n: nat)
    requires size as int == n < 256
    ensures 8 + size == SEPARATOR_BYTE ==> n == 247
  {}

  /** For a frame that is built, that leaves out a single message: type FF and 255 bytes FF. */
  lemma CountsEscapesIff(frameType: byte, data: seq<byte>, useCrc: bool)
    requires |data| < 256
    ensures Escaped(MakeFrame(frameType, data, useCrc))
    ensures CountsEscapes(MakeFrame(frameType, data, useCrc))
            <==> !(frameType == SEPARATOR_BYTE && |data| == 255 && forall i :: 0 <= i < 255 ==> data[i] == SEPARATOR_BYTE)
  {
    var f := MakeFrame(frameType, data, useCrc);
    ByteOfExact(|data|);
    HeaderSeparatorsOf(HeaderOf(f));
    SeparatorsOfConcat(HeaderOf(f), data);
    LengthByteIs(ByteOf(|data|), |data|);
    SeparatorsOfOne(8 + ByteOf(|data|));
    SeparatorsOfOne(frameType);
    SeparatorsAtMost(data);
  }

  /** A buffer of the size computed is never overrun, be the size right or not. */
  lemma EnoughRoom(f: Frame)
    requires Escaped(f)
    ensures Fits(|Encode(f)|, EncodedSize(f))
  {
    EncodedSizeIff(f);
    SeparatorsAtMost(HeaderOf(f) + f.data);
  }

  /** A frame that a receiver takes: built from at most 233 bytes. */
  predicate Consistent(f: Frame) {
    |f.data| <= MAX_DATA_SIZE && f.additional as int == Separators([f.frameType] + f.data)
  }

  lemma EncodedSizeIsExact(f: Frame)
    requires Consistent(f)
    ensures |Encode(f)| == EncodedSize(f) <= 2 * CURSOR_RANGE
  {
    ByteOfExact(|f.data|);
    HeaderSeparators(f.frameType, f.useCrc, ByteOf(|f.data|), f.data);
    EncodedLength(f);
  }

  // ----- when the buffer holds the frame -----

  /** What is left in an exactly sized buffer when the encoding is longer than the cursor can count. */
  lemma WrittenFromStart(cells: seq<byte>, s: seq<byte>)
    requires |s| <= CURSOR_RANGE && |s| <= |cells|
    ensures Written(cells, 0, s) == s + cells[|s|..]
  {
    WrittenStraight(cells, 0, s);
    assert cells[..0] + s == s;
  }

  /** After 256 bytes the cursor is back at the start. */
  lemma WrittenAround(cells: seq<byte>, a: seq<byte>, b: seq<byte>)
    requires |a| == CURSOR_RANGE && |cells| == |a| + |b|
    ensures Written(cells, 0, a + b) == Written(Written(cells, 0, a), 0, b)
  {
    WrittenOn(cells, 0, a, b, 0);
  }

  lemma WrittenOn(cells: seq<byte>, pos: nat, a: seq<byte>, b: seq<byte>, next: nat)
    requires pos < CURSOR_RANGE && (pos + |a| + |b| <= |cells| || CURSOR_RANGE <= |cells|)
    requires next == (pos + |a|) % CURSOR_RANGE
    ensures Written(cells, pos, a + b) == Written(Written(cells, pos, a), next, b)
  {
    WrittenConcat(cells, pos, a, b);
  }

  lemma WrittenTwice(cells: seq<byte>, a: seq<byte>, b: seq<byte>)
    requires |a| == CURSOR_RANGE && |b| <= CURSOR_RANGE && |cells| == |a| + |b|
    ensures Written(cells, 0, a + b) == b + (a + cells[|a|..])[|b|..]
  {
    WrittenFromStart(cells, a);
    WrittenFromStart(a + cells[|a|..], b);
    WrittenAround(cells, a, b);
  }

  /**
   The first 256 cells after a longer encoding: its end has run over its beginning. The cells behind them keep what they
   held before.
   */
  function Garbled(s: seq<byte>): (r: seq<byte>)
    requires CURSOR_RANGE < |s| <= 2 * CURSOR_RANGE
    ensures |r| == CURSOR_RANGE
  {
    s[CURSOR_RANGE..] + s[|s| - CURSOR_RANGE..CURSOR_RANGE]
  }

  lemma WrittenLong(cells: seq<byte>, s: seq<byte>)
    requires CURSOR_RANGE < |s| <= 2 * CURSOR_RANGE && |cells| == |s|
    ensures Written(cells, 0, s) == Garbled(s) + cells[CURSOR_RANGE..]
  {
    var a, b := s[..CURSOR_RANGE], s[CURSOR_RANGE..];
    assert s == a + b;
    WrittenTwice(cells, a, b);
    OverWritten(s, a, b, cells[CURSOR_RANGE..]);
  }

  lemma OverWritten<T>(s: seq<T>, a: seq<T>, b: seq<T>, c: seq<T>)
    requires s == a + b && |b| <= |a|
    ensures b + (a + c)[|b|..] == s[|a|..] + s[|b|..|a|] + c
  {}

  lemma FirstTwo<T>(r: seq<T>, a: seq<T>, b: seq<T>, c: seq<T>)
    requires |a| > 1 && b != [] && |b| <= |a| && r == b + (a + c)[|b|..]
    ensures r[0] == b[0] && r[1] == if |b| > 1 then b[1] else a[1]
  {}

  lemma WrittenOver(cells: seq<byte>, a: seq<byte>, b: seq<byte>)
    requires |a| == CURSOR_RANGE && 0 < |b| <= CURSOR_RANGE && |cells| == |a| + |b|
    ensures var r := Written(cells, 0, a + b); r[0] == b[0] && r[1] == if |b| > 1 then b[1] else a[1]
  {
    WrittenTwice(cells, a, b);
    FirstTwo(Written(cells, 0, a + b), a, b, cells[|a|..]);
  }

  /** The exactly sized buffer holds the encoding if and only if the encoding has at most 256 bytes. */
  lemma BufferHoldsFrameIff(cells: seq<byte>, f: Frame)
    requires Consistent(f) && |cells| == |Encode(f)|
    ensures Written(cells, 0, Encode(f)) == Encode(f) <==> EncodedSize(f) <= CURSOR_RANGE
  {
    var s := Encode(f);
    EncodedSizeIsExact(f);
    if |s| <= CURSOR_RANGE {
      WrittenFromStart(cells, s);
      assert s + cells[|s|..] == s;
    } else {
      LongIsGarbled(cells, f);
    }
  }

  lemma LongIsGarbled(cells: seq<byte>, f: Frame)
    requires |f.data| <= MAX_DATA_SIZE && CURSOR_RANGE < |Encode(f)| <= 2 * CURSOR_RANGE && |cells| == |Encode(f)|
    ensures Written(cells, 0, Encode(f)) != Encode(f)
  {
    var s := Encode(f);
    WrittenOver(cells, s[..CURSOR_RANGE], s[CURSOR_RANGE..]);
    assert s[..CURSOR_RANGE] + s[CURSOR_RANGE..] == s;
    PairOnlyAtStart(f, 1);
    if |s| > 257 {
      PairOnlyAtStart(f, 257);
    }
  }

  /** The bytes in place of an encoding: itself up to 256 bytes, and otherwise not, the first 256 being garbled. */
  predicate Spelled(bytes: seq<byte>, s: seq<byte>) {
    && |bytes| == |s| <= 2 * CURSOR_RANGE
    && (bytes == s <==> |s| <= CURSOR_RANGE)
    && (|s| > CURSOR_RANGE ==> bytes[..CURSOR_RANGE] == Garbled(s))
  }

  lemma SpelledAsWritten(cells: seq<byte>, f: Frame)
    requires Consistent(f) && |cells| == |Encode(f)|
    ensures Spelled(Written(cells, 0, Encode(f)), Encode(f))
  {
    EncodedSizeIsExact(f);
    BufferHoldsFrameIff(cells, f);
    if |Encode(f)| > CURSOR_RANGE {
      WrittenLong(cells, Encode(f));
      FrontOf(Garbled(Encode(f)), cells[CURSOR_RANGE..]);
    }
  }

  lemma FrontOf<T>(a: seq<T>, b: seq<T>)
    ensures (a + b)[..|a|] == a
  {}

  // ----- writing byte by byte -----

  /** Everything behind the separators, before stuffing. */
  function Logical(f: Frame): seq<byte> {
    HeaderBytes(f.frameType, f.useCrc, ByteOf(|f.data|)) + BodyBytes(f)
  }

  lemma EncodeOfLogical(f: Frame)
    ensures Encode(f) == SEPARATORS + Stuff(Logical(f))
  {
    var header, body := HeaderBytes(f.frameType, f.useCrc, ByteOf(|f.data|)), BodyBytes(f);
    StuffOfConcat(header, body);
    assert SEPARATORS + Stuff(header) + Stuff(body) == SEPARATORS + (Stuff(header) + Stuff(body));
  }

  /** The cells once the separators and the first i stuffed bytes of s are out, and where the cursor is. */
  predicate Output(now: seq<byte>, cells: seq<byte>, s: seq<byte>, i: nat, pos: nat)
    requires i <= |s| && Fits(|SEPARATORS + Stuff(s)|, |cells|)
  {
    PrefixFits(s, i);
    var prefix := SEPARATORS + Stuff(s[..i]);
    now == Written(cells, 0, prefix) && pos == |prefix| % CURSOR_RANGE
  }

  lemma PrefixFits(s: seq<byte>, i: nat)
    requires i <= |s|
    ensures |Stuff(s[..i])| <= |Stuff(s)|
  {
    StuffOfConcat(s[..i], s[i..]);
    assert s == s[..i] + s[i..];
  }

  lemma PrefixNext(s: seq<byte>, i: nat)
    requires i < |s|
    ensures Stuff(s[..i + 1]) == Stuff(s[..i]) + StuffByte(s[i])
  {
    assert s[..i + 1][..i] == s[..i];
  }

  lemma OutputNext(now: seq<byte>, cells: seq<byte>, s: seq<byte>, i: nat, pos: nat)
    requires i < |s| && Fits(|SEPARATORS + Stuff(s)|, |cells|) && Output(now, cells, s, i, pos)
    ensures pos + |StuffByte(s[i])| <= |now| || CURSOR_RANGE <= |now|
    ensures Output(Written(now, pos, StuffByte(s[i])), cells, s, i + 1, (pos + |StuffByte(s[i])|) % CURSOR_RANGE)
  {
    var prefix, b := SEPARATORS + Stuff(s[..i]), StuffByte(s[i]);
    PrefixNext(s, i);
    PrefixFits(s, i + 1);
    ConcatAssociative(SEPARATORS, Stuff(s[..i]), b);
    AppendWritten(now, cells, prefix, b, pos);
  }

  lemma {:induction false} CursorMoves(n: nat, k: nat)
    ensures (n % CURSOR_RANGE + k) % CURSOR_RANGE == (n + k) % CURSOR_RANGE
  {
    if n >= CURSOR_RANGE {
      CursorMoves(n - CURSOR_RANGE, k);
    }
  }

  lemma AppendWritten(now: seq<byte>, cells: seq<byte>, prefix: seq<byte>, b: seq<byte>, pos: nat)
    requires Fits(|prefix| + |b|, |cells|)
    requires now == Written(cells, 0, prefix) && pos == |prefix| % CURSOR_RANGE
    ensures pos + |b| <= |now| || CURSOR_RANGE <= |now|
    ensures Written(now, pos, b) == Written(cells, 0, prefix + b)
    ensures (pos + |b|) % CURSOR_RANGE == |prefix + b| % CURSOR_RANGE
  {
    WrittenConcat(cells, 0, prefix, b);
    CursorMoves(|prefix|, |b|);
  }

  lemma OutputStart(cells: seq<byte>, s: seq<byte>)
    requires Fits(|SEPARATORS + Stuff(s)|, |cells|)
    ensures Output(cells[0 := SEPARATOR_BYTE][1 := SEPARATOR_BYTE], cells, s, 0, 2)
  {
    var t: seq<byte> := [SEPARATOR_BYTE];
    assert SEPARATORS + Stuff(s[..0]) == SEPARATORS;
    assert SEPARATORS[1..] == t && t[1..] == [];
    assert Written(cells, 0, SEPARATORS) == Written(cells[0 := SEPARATOR_BYTE], 1, t);
    assert Written(cells[0 := SEPARATOR_BYTE], 1, t) == Written(cells[0 := SEPARATOR_BYTE][1 := SEPARATOR_BYTE], 2, []);
  }

  /** Stores a byte and, behind a separator, its escape byte; the cursor has eight bits. */
  method SetWithPostByte(value: byte, buffer: array<byte>, pos: nat) returns (next: nat)
    requires pos < CURSOR_RANGE
    requires pos + |StuffByte(value)| <= buffer.Length || CURSOR_RANGE <= buffer.Length
    modifies buffer
    ensures buffer[..] == Written(old(buffer[..]), pos, StuffByte(value))
    ensures next == (pos + |StuffByte(value)|) % CURSOR_RANGE
  {
    ghost var cells := buffer[..];
    WrittenStuffed(cells, pos, value);
    buffer[pos] := value;
    assert buffer[..] == cells[pos := value];
    next := (pos + 1) % CURSOR_RANGE;
    if value == SEPARATOR_BYTE {
      buffer[next] := SEPARATOR_POST_BYTE;
      assert buffer[..] == cells[pos := value][next := SEPARATOR_POST_BYTE];
      next := (next + 1) % CURSOR_RANGE;
      CursorMoves(pos + 1, 1);
    }
  }

  lemma WrittenStuffed(cells: seq<byte>, pos: nat, value: byte)
    requires pos < CURSOR_RANGE
    requires pos + |StuffByte(value)| <= |cells| || CURSOR_RANGE <= |cells|
    ensures Written(cells, pos, StuffByte(value))
            == if value == SEPARATOR_BYTE then cells[pos := value][(pos + 1) % CURSOR_RANGE := SEPARATOR_POST_BYTE]
               else cells[pos := value]
  {
    var s := StuffByte(value);
    if value == SEPARATOR_BYTE {
      var t := [SEPARATOR_POST_BYTE];
      assert s[1..] == t && t[1..] == [];
      assert Written(cells, pos, s) == Written(cells[pos := value], (pos + 1) % CURSOR_RANGE, t);
    } else {
      assert s[1..] == [];
      assert Written(cells, pos, s) == Written(cells[pos := value], (pos + 1) % CURSOR_RANGE, s[1..]);
    }
  }
}
