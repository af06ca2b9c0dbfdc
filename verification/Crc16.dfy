/**
 The checksum CRC-16/ARC (width 16, polynomial 0x8005 reflected to 0xA001, initial value 0, no final xor).

 The reference is bit-serial: one message bit at a time, least significant bit of each byte first.
 The table-driven code is shown to compute it, and the reference is shown to detect every burst error
 of at most sixteen bits.
 */
module Crc16 {
  import opened Bytes

  const POLYNOMIAL: bv16 := 0xA001

  // ----- the bit-serial reference -----

  /** One step of the reflected shift register: the bit shifted out decides whether the polynomial enters. */
  function Shift(x: bv16): bv16 {
    (x >> 1) ^ ((x & 1) * POLYNOMIAL)
  }

  /** The register after one message bit, the lowest bit of b. */
  function Feed(crc: bv16, b: byte): bv16 {
    Shift(crc ^ ((b as bv16) & 1))
  }

  /** The register after the low n bits of b, least significant first. */
  function FeedBits(crc: bv16, b: byte, n: nat): bv16
    decreases n, b
  {
    if n == 0 then crc else FeedBits(Feed(crc, b), b >> 1, n - 1)
  }

  /** CRC-16/ARC of data, continued from the register value crc. */
  function Crc(crc: bv16, data: seq<byte>): bv16 {
    if data == [] then crc else FeedBits(Crc(crc, data[..|data| - 1]), data[|data| - 1], 8)
  }

  // ----- the table-driven code -----

  /** Eight register steps, the value every table entry stands for. */
  function Shift8(x: bv16): bv16 {
    Shift(Shift(Shift(Shift(Shift(Shift(Shift(Shift(x))))))))
  }

  function TableRow0(i: byte): (entry: bv16)
    requires i < 16
    ensures entry == Shift8(0x00 ^ (i as bv16))
  {
    match i
    case 0 => 0x0000 case 1 => 0xC0C1 case 2 => 0xC181 case 3 => 0x0140
    case 4 => 0xC301 case 5 => 0x03C0 case 6 => 0x0280 case 7 => 0xC241
    case 8 => 0xC601 case 9 => 0x06C0 case 10 => 0x0780 case 11 => 0xC741
    case 12 => 0x0500 case 13 => 0xC5C1 case 14 => 0xC481 case _ => 0x0440
  }

  function TableRow1(i: byte): (entry: bv16)
    requires i < 16
    ensures entry == Shift8(0x10 ^ (i as bv16))
  {
    match i
    case 0 => 0xCC01 case 1 => 0x0CC0 case 2 => 0x0D80 case 3 => 0xCD41
    case 4 => 0x0F00 case 5 => 0xCFC1 case 6 => 0xCE81 case 7 => 0x0E40
    case 8 => 0x0A00 case 9 => 0xCAC1 case 10 => 0xCB81 case 11 => 0x0B40
    case 12 => 0xC901 case 13 => 0x09C0 case 14 => 0x0880 case _ => 0xC841
  }

  function TableRow2(i: byte): (entry: bv16)
    requires i < 16
    ensures entry == Shift8(0x20 ^ (i as bv16))
  {
    match i
    case 0 => 0xD801 case 1 => 0x18C0 case 2 => 0x1980 case 3 => 0xD941
    case 4 => 0x1B00 case 5 => 0xDBC1 case 6 => 0xDA81 case 7 => 0x1A40
    case 8 => 0x1E00 case 9 => 0xDEC1 case 10 => 0xDF81 case 11 => 0x1F40
    case 12 => 0xDD01 case 13 => 0x1DC0 case 14 => 0x1C80 case _ => 0xDC41
  }

  function TableRow3(i: byte): (entry: bv16)
    requires i < 16
    ensures entry == Shift8(0x30 ^ (i as bv16))
  {
    match i
    case 0 => 0x1400 case 1 => 0xD4C1 case 2 => 0xD581 case 3 => 0x1540
    case 4 => 0xD701 case 5 => 0x17C0 case 6 => 0x1680 case 7 => 0xD641
    case 8 => 0xD201 case 9 => 0x12C0 case 10 => 0x1380 case 11 => 0xD341
    case 12 => 0x1100 case 13 => 0xD1C1 case 14 => 0xD081 case _ => 0x1040
  }

  function TableRow4(i: byte): (entry: bv16)
    requires i < 16
    ensures entry == Shift8(0x40 ^ (i as bv16))
  {
    match i
    case 0 => 0xF001 case 1 => 0x30C0 case 2 => 0x3180 case 3 => 0xF141
    case 4 => 0x3300 case 5 => 0xF3C1 case 6 => 0xF281 case 7 => 0x3240
    case 8 => 0x3600 case 9 => 0xF6C1 case 10 => 0xF781 case 11 => 0x3740
    case 12 => 0xF501 case 13 => 0x35C0 case 14 => 0x3480 case _ => 0xF441
  }

  function TableRow5(i: byte): (entry: bv16)
    requires i < 16
    ensures entry == Shift8(0x50 ^ (i as bv16))
  {
    match i
    case 0 => 0x3C00 case 1 => 0xFCC1 case 2 => 0xFD81 case 3 => 0x3D40
    case 4 => 0xFF01 case 5 => 0x3FC0 case 6 => 0x3E80 case 7 => 0xFE41
    case 8 => 0xFA01 case 9 => 0x3AC0 case 10 => 0x3B80 case 11 => 0xFB41
    case 12 => 0x3900 case 13 => 0xF9C1 case 14 => 0xF881 case _ => 0x3840
  }

  function TableRow6(i: byte): (entry: bv16)
    requires i < 16
    ensures entry == Shift8(0x60 ^ (i as bv16))
  {
    match i
    case 0 => 0x2800 case 1 => 0xE8C1 case 2 => 0xE981 case 3 => 0x2940
    case 4 => 0xEB01 case 5 => 0x2BC0 case 6 => 0x2A80 case 7 => 0xEA41
    case 8 => 0xEE01 case 9 => 0x2EC0 case 10 => 0x2F80 case 11 => 0xEF41
    case 12 => 0x2D00 case 13 => 0xEDC1 case 14 => 0xEC81 case _ => 0x2C40
  }

  function TableRow7(i: byte): (entry: bv16)
    requires i < 16
    ensures entry == Shift8(0x70 ^ (i as bv16))
  {
    match i
    case 0 => 0xE401 case 1 => 0x24C0 case 2 => 0x2580 case 3 => 0xE541
    case 4 => 0x2700 case 5 => 0xE7C1 case 6 => 0xE681 case 7 => 0x2640
    case 8 => 0x2200 case 9 => 0xE2C1 case 10 => 0xE381 case 11 => 0x2340
    case 12 => 0xE101 case 13 => 0x21C0 case 14 => 0x2080 case _ => 0xE041
  }

  function TableRow8(i: byte): (entry: bv16)
    requires i < 16
    ensures entry == Shift8(0x80 ^ (i as bv16))
  {
    match i
    case 0 => 0xA001 case 1 => 0x60C0 case 2 => 0x6180 case 3 => 0xA141
    case 4 => 0x6300 case 5 => 0xA3C1 case 6 => 0xA281 case 7 => 0x6240
    case 8 => 0x6600 case 9 => 0xA6C1 case 10 => 0xA781 case 11 => 0x6740
    case 12 => 0xA501 case 13 => 0x65C0 case 14 => 0x6480 case _ => 0xA441
  }

  function TableRow9(i: byte): (entry: bv16)
    requires i < 16
    ensures entry == Shift8(0x90 ^ (i as bv16))
  {
    match i
    case 0 => 0x6C00 case 1 => 0xACC1 case 2 => 0xAD81 case 3 => 0x6D40
    case 4 => 0xAF01 case 5 => 0x6FC0 case 6 => 0x6E80 case 7 => 0xAE41
    case 8 => 0xAA01 case 9 => 0x6AC0 case 10 => 0x6B80 case 11 => 0xAB41
    case 12 => 0x6900 case 13 => 0xA9C1 case 14 => 0xA881 case _ => 0x6840
  }

  function TableRowA(i: byte): (entry: bv16)
    requires i < 16
    ensures entry == Shift8(0xA0 ^ (i as bv16))
  {
    match i
    case 0 => 0x7800 case 1 => 0xB8C1 case 2 => 0xB981 case 3 => 0x7940
    case 4 => 0xBB01 case 5 => 0x7BC0 case 6 => 0x7A80 case 7 => 0xBA41
    case 8 => 0xBE01 case 9 => 0x7EC0 case 10 => 0x7F80 case 11 => 0xBF41
    case 12 => 0x7D00 case 13 => 0xBDC1 case 14 => 0xBC81 case _ => 0x7C40
  }

  function TableRowB(i: byte): (entry: bv16)
    requires i < 16
    ensures entry == Shift8(0xB0 ^ (i as bv16))
  {
    match i
    case 0 => 0xB401 case 1 => 0x74C0 case 2 => 0x7580 case 3 => 0xB541
    case 4 => 0x7700 case 5 => 0xB7C1 case 6 => 0xB681 case 7 => 0x7640
    case 8 => 0x7200 case 9 => 0xB2C1 case 10 => 0xB381 case 11 => 0x7340
    case 12 => 0xB101 case 13 => 0x71C0 case 14 => 0x7080 case _ => 0xB041
  }

  function TableRowC(i: byte): (entry: bv16)
    requires i < 16
    ensures entry == Shift8(0xC0 ^ (i as bv16))
  {
    match i
    case 0 => 0x5000 case 1 => 0x90C1 case 2 => 0x9181 case 3 => 0x5140
    case 4 => 0x9301 case 5 => 0x53C0 case 6 => 0x5280 case 7 => 0x9241
    case 8 => 0x9601 case 9 => 0x56C0 case 10 => 0x5780 case 11 => 0x9741
    case 12 => 0x5500 case 13 => 0x95C1 case 14 => 0x9481 case _ => 0x5440
  }

  function TableRowD(i: byte): (entry: bv16)
    requires i < 16
    ensures entry == Shift8(0xD0 ^ (i as bv16))
  {
    match i
    case 0 => 0x9C01 case 1 => 0x5CC0 case 2 => 0x5D80 case 3 => 0x9D41
    case 4 => 0x5F00 case 5 => 0x9FC1 case 6 => 0x9E81 case 7 => 0x5E40
    case 8 => 0x5A00 case 9 => 0x9AC1 case 10 => 0x9B81 case 11 => 0x5B40
    case 12 => 0x9901 case 13 => 0x59C0 case 14 => 0x5880 case _ => 0x9841
  }

  function TableRowE(i: byte): (entry: bv16)
    requires i < 16
    ensures entry == Shift8(0xE0 ^ (i as bv16))
  {
    match i
    case 0 => 0x8801 case 1 => 0x48C0 case 2 => 0x4980 case 3 => 0x8941
    case 4 => 0x4B00 case 5 => 0x8BC1 case 6 => 0x8A81 case 7 => 0x4A40
    case 8 => 0x4E00 case 9 => 0x8EC1 case 10 => 0x8F81 case 11 => 0x4F40
    case 12 => 0x8D01 case 13 => 0x4DC0 case 14 => 0x4C80 case _ => 0x8C41
  }

  function TableRowF(i: byte): (entry: bv16)
    requires i < 16
    ensures entry == Shift8(0xF0 ^ (i as bv16))
  {
    match i
    case 0 => 0x4400 case 1 => 0x84C1 case 2 => 0x8581 case 3 => 0x4540
    case 4 => 0x8701 case 5 => 0x47C0 case 6 => 0x4680 case 7 => 0x8641
    case 8 => 0x8201 case 9 => 0x42C0 case 10 => 0x4380 case 11 => 0x8341
    case 12 => 0x4100 case 13 => 0x81C1 case 14 => 0x8081 case _ => 0x4040
  }

  /** The lookup table, sixteen entries a row. */
  function CrcTable(i: byte): (entry: bv16)
    ensures entry == Shift8(i as bv16)
  {
    var low := i & 0x0F;
    match i >> 4
    case 0 => TableRow0(low) case 1 => TableRow1(low)
    case 2 => TableRow2(low) case 3 => TableRow3(low)
    case 4 => TableRow4(low) case 5 => TableRow5(low)
    case 6 => TableRow6(low) case 7 => TableRow7(low)
    case 8 => TableRow8(low) case 9 => TableRow9(low)
    case 10 => TableRowA(low) case 11 => TableRowB(low)
    case 12 => TableRowC(low) case 13 => TableRowD(low)
    case 14 => TableRowE(low) case _ => TableRowF(low)
  }

  /** The single-byte step of the code. */
  function Crc16Byte(data: byte, crc: bv16): (r: bv16)
    ensures r == Shift8(crc ^ (data as bv16))
  {
    (crc >> 8) ^ CrcTable(((crc ^ (data as bv16)) & 0xFF) as byte)
  }

  // ----- algebra of the register -----

  function ShiftN(n: nat, x: bv16): bv16
    decreases n, x
  {
    if n == 0 then x else ShiftN(n - 1, Shift(x))
  }

  function Dropped(b: byte, n: nat): byte
    decreases n, b
  {
    if n == 0 then b else Dropped(b >> 1, n - 1)
  }

  /** One message bit leaves the rest of its byte one place lower. */
  lemma FeedOfXor(crc: bv16, b: byte, whole: bv16, rest: bv16)
    requires whole == b as bv16 && rest == (b >> 1) as bv16
    ensures Feed(crc, b) ^ rest == Shift(crc ^ whole)
  {}

  /** The bits of a byte can enter the register all at once. */
  lemma {:induction false} FeedBitsAtOnce(crc: bv16, b: byte, n: nat)
    ensures FeedBits(crc, b, n) ^ (Dropped(b, n) as bv16) == ShiftN(n, crc ^ (b as bv16))
    decreases n
  {
    if n != 0 {
      FeedBitsAtOnce(Feed(crc, b), b >> 1, n - 1);
      FeedOfXor(crc, b, b as bv16, (b >> 1) as bv16);
    }
  }

  lemma EightBits(x: bv16, b: byte)
    ensures ShiftN(8, x) == Shift8(x) && Dropped(b, 8) == 0
  {
    AllDropped(b);
    ShiftFour(x, 4);
    ShiftFour(Shift(Shift(Shift(Shift(x)))), 0);
  }

  lemma AllDropped(b: byte)
    ensures Dropped(b, 8) == 0
  {
    DroppedTwo(b, b >> 2, 6);
    DroppedTwo(b >> 2, b >> 4, 4);
    DroppedTwo(b >> 4, b >> 6, 2);
    DroppedTwo(b >> 6, 0, 0);
  }

  lemma DroppedTwo(b: byte, rest: byte, n: nat)
    requires rest == (b >> 1) >> 1
    ensures Dropped(b, n + 2) == Dropped(rest, n)
  {
    assert Dropped(b, n + 2) == Dropped(b >> 1, n + 1);
  }

  lemma ShiftFour(x: bv16, n: nat)
    ensures ShiftN(4 + n, x) == ShiftN(n, Shift(Shift(Shift(Shift(x)))))
  {
    assert ShiftN(4 + n, x) == ShiftN(3 + n, Shift(x)) == ShiftN(2 + n, Shift(Shift(x)));
    assert ShiftN(2 + n, Shift(Shift(x))) == ShiftN(1 + n, Shift(Shift(Shift(x))));
  }

  lemma FeedByte(crc: bv16, b: byte, x: bv16)
    requires x == crc ^ (b as bv16)
    ensures FeedBits(crc, b, 8) == ShiftN(8, x)
  {
    FeedBitsAtOnce(crc, b, 8);
    EightBits(x, b);
  }

  /** The table look-up consumes one byte exactly as the bit-serial register does. */
  lemma TableStepIsBitSerial(data: byte, crc: bv16)
    ensures Crc16Byte(data, crc) == FeedBits(crc, data, 8)
  {
    FeedByte(crc, data, crc ^ (data as bv16));
    EightBits(crc ^ (data as bv16), data);
  }

  // ----- the code over a buffer -----

  lemma CrcOfNext(crc: bv16, data: seq<byte>, i: nat)
    requires i < |data|
    ensures Crc(crc, data[..i + 1]) == FeedBits(Crc(crc, data[..i]), data[i], 8)
  {
    assert data[..i + 1][..i] == data[..i];
  }

  /** The single-byte step as the loops use it. */
  method Crc16Next(data: byte, crc: bv16) returns (r: bv16)
    ensures r == FeedBits(crc, data, 8)
  {
    TableStepIsBitSerial(data, crc);
    r := Crc16Byte(data, crc);
  }

  /** The loop of the code over a buffer computes the reference. */
  method Crc16Buffer(data: seq<byte>, initial: bv16) returns (crc: bv16)
    ensures crc == Crc(initial, data)
  {
    crc := initial;
    for i := 0 to |data|
      invariant crc == Crc(initial, data[..i])
    {
      CrcOfNext(initial, data, i);
      crc := Crc16Next(data[i], crc);
    }
    assert data[..|data|] == data;
  }

  lemma {:induction false} CrcConcat(crc: bv16, a: seq<byte>, b: seq<byte>)
    ensures Crc(crc, a + b) == Crc(Crc(crc, a), b)
    decreases |b|
  {
    if b == [] {
      assert a + b == a;
    } else {
      var front := b[..|b| - 1];
      CrcConcat(crc, a, front);
      assert (a + b)[..|a + b| - 1] == a + front;
    }
  }

  // ----- error detection -----

  lemma FeedInjective(x: bv16, y: bv16, b: byte)
    requires Feed(x, b) == Feed(y, b)
    ensures x == y
  {}

  lemma {:induction false} FeedBitsInjective(x: bv16, y: bv16, b: byte, n: nat)
    requires FeedBits(x, b, n) == FeedBits(y, b, n)
    ensures x == y
    decreases n
  {
    if n != 0 {
      FeedBitsInjective(Feed(x, b), Feed(y, b), b >> 1, n - 1);
      FeedInjective(x, y, b);
    }
  }

  /** Different register contents stay different while the same data is consumed. */
  lemma {:induction false} CrcInjective(x: bv16, y: bv16, data: seq<byte>)
    requires Crc(x, data) == Crc(y, data)
    ensures x == y
  {
    if data != [] {
      var front := data[..|data| - 1];
      FeedBitsInjective(Crc(x, front), Crc(y, front), data[|data| - 1], 8);
      CrcInjective(x, y, front);
    }
  }

  /** The bits in which two registers differ. */
  function Diff(x: bv16, y: bv16): bv16 {
    x ^ y
  }

  lemma ShiftOfDifference(x: bv16, y: bv16, z: bv16)
    requires z == Diff(x, y)
    ensures Shift(z) == Diff(Shift(x), Shift(y))
  {}

  lemma {:induction false} ShiftNOfDifference(n: nat, x: bv16, y: bv16, z: bv16)
    requires z == Diff(x, y)
    ensures ShiftN(n, z) == Diff(ShiftN(n, x), ShiftN(n, y))
    decreases n
  {
    if n != 0 {
      ShiftOfDifference(x, y, z);
      ShiftNOfDifference(n - 1, Shift(x), Shift(y), Shift(z));
    }
  }

  lemma Regroup(x: bv16, y: bv16, d: byte, e: byte, a: byte, left: bv16, right: bv16, z: bv16, w: bv16)
    requires left == x ^ (d as bv16) && right == y ^ (e as bv16)
    requires z == Diff(x, y) && a == d ^ e && w == z ^ (a as bv16)
    ensures w == Diff(left, right)
  {}

  /** How the difference z of two registers develops when two bytes of difference a are consumed. */
  lemma FeedBitsOfDifference(x: bv16, y: bv16, d: byte, e: byte, a: byte, z: bv16, w: bv16)
    requires z == Diff(x, y) && a == d ^ e && w == z ^ (a as bv16)
    ensures Diff(FeedBits(x, d, 8), FeedBits(y, e, 8)) == ShiftN(8, w)
  {
    var left, right := x ^ (d as bv16), y ^ (e as bv16);
    Regroup(x, y, d, e, a, left, right, z, w);
    FeedByte(x, d, left);
    FeedByte(y, e, right);
    ShiftNOfDifference(8, left, right, w);
  }

  function LowBits(k: nat): byte
    requires k < 8
  {
    match k
    case 0 => 0x00 case 1 => 0x01 case 2 => 0x03 case 3 => 0x07
    case 4 => 0x0F case 5 => 0x1F case 6 => 0x3F case _ => 0x7F
  }

  lemma WindowVanishes(k: nat, a0: byte, a1: byte, a2: byte, w: bv16)
    requires k < 8 && a0 & LowBits(k) == 0 && a2 & LowBits(k) == a2
    requires w == Shift8(a0 as bv16) ^ (a1 as bv16) && Shift8(w) == a2 as bv16
    ensures a0 == 0 && a1 == 0 && a2 == 0
  {}

  lemma Shift8Injective(x: bv16, y: bv16)
    requires Shift8(x) == Shift8(y)
    ensures x == y
  {}

  lemma SameSum(x: bv16, y: bv16, d: byte, e: byte, a: byte, sum: bv16)
    requires sum == x ^ (d as bv16) && sum == y ^ (e as bv16) && a == d ^ e
    ensures Diff(x, y) == a as bv16
  {}

  /** When two registers meet, they differed by exactly what the bytes differ. */
  lemma MeetBackwards(x: bv16, y: bv16, d: byte, e: byte, a: byte)
    requires FeedBits(x, d, 8) == FeedBits(y, e, 8) && a == d ^ e
    ensures Diff(x, y) == a as bv16
  {
    var left, right := x ^ (d as bv16), y ^ (e as bv16);
    FeedByte(x, d, left);
    FeedByte(y, e, right);
    EightBits(left, d);
    EightBits(right, e);
    Shift8Injective(left, right);
    SameSum(x, y, d, e, a, left);
  }

  lemma NoDifference(x: bv16, a: bv16)
    ensures Diff(x, x) == 0 && 0 ^ a == a
  {}

  lemma WindowOfDifferences(k: nat, a0: byte, a1: byte, a2: byte, v: bv16, z: bv16, w: bv16)
    requires k < 8 && a0 & LowBits(k) == 0 && a2 & LowBits(k) == a2
    requires v == a0 as bv16 && z == ShiftN(8, v) && w == z ^ (a1 as bv16) && ShiftN(8, w) == a2 as bv16
    ensures a0 == 0 && a1 == 0 && a2 == 0
  {
    EightBits(v, 0);
    EightBits(w, 0);
    WindowVanishes(k, a0, a1, a2, w);
  }

  lemma FirstDifference(c: bv16, d: byte, e: byte, a: byte, x: bv16, y: bv16, v: bv16, z: bv16)
    requires x == FeedBits(c, d, 8) && y == FeedBits(c, e, 8) && a == d ^ e && v == a as bv16 && z == Diff(x, y)
    ensures z == ShiftN(8, v)
  {
    NoDifference(c, v);
    FeedBitsOfDifference(c, c, d, e, a, 0, v);
  }

  lemma LastDifference(x: bv16, y: bv16, d1: byte, d2: byte, e1: byte, e2: byte, a1: byte, a2: byte, z: bv16, w: bv16)
    requires FeedBits(FeedBits(x, d1, 8), d2, 8) == FeedBits(FeedBits(y, e1, 8), e2, 8)
    requires z == Diff(x, y) && a1 == d1 ^ e1 && w == z ^ (a1 as bv16) && a2 == d2 ^ e2
    ensures ShiftN(8, w) == a2 as bv16
  {
    FeedBitsOfDifference(x, y, d1, e1, a1, z, w);
    MeetBackwards(FeedBits(x, d1, 8), FeedBits(y, e1, 8), d2, e2, a2);
  }

  /** Registers that meet after three bytes that differ only inside a window of sixteen bits met all along. */
  lemma WindowDetected(k: nat, c: bv16, d0: byte, d1: byte, d2: byte, e0: byte, e1: byte, e2: byte,
                       a0: byte, a1: byte, a2: byte, x: bv16, y: bv16, v: bv16, z: bv16, w: bv16)
    requires a0 == d0 ^ e0 && a1 == d1 ^ e1 && a2 == d2 ^ e2
    requires k < 8 && a0 & LowBits(k) == 0 && a2 & LowBits(k) == a2
    requires x == FeedBits(c, d0, 8) && y == FeedBits(c, e0, 8)
    requires FeedBits(FeedBits(x, d1, 8), d2, 8) == FeedBits(FeedBits(y, e1, 8), e2, 8)
    requires v == a0 as bv16 && z == Diff(x, y) && w == z ^ (a1 as bv16)
    ensures a0 == 0 && a1 == 0 && a2 == 0
  {
    FirstDifference(c, d0, e0, a0, x, y, v, z);
    LastDifference(x, y, d1, d2, e1, e2, a1, a2, z, w);
    WindowOfDifferences(k, a0, a1, a2, v, z, w);
  }

  lemma SameByte(d: byte, e: byte)
    requires d ^ e == 0
    ensures d == e
  {}

  predicate Window(k: nat, d0: byte, e0: byte, d2: byte, e2: byte) {
    k < 8 && (d0 ^ e0) & LowBits(k) == 0 && (d2 ^ e2) & LowBits(k) == d2 ^ e2
  }

  lemma CrcOfThree(c: bv16, d0: byte, d1: byte, d2: byte)
    ensures Crc(c, [d0, d1, d2]) == FeedBits(FeedBits(FeedBits(c, d0, 8), d1, 8), d2, 8)
  {
    var d := [d0, d1, d2];
    CrcOfNext(c, d, 0);
    CrcOfNext(c, d, 1);
    CrcOfNext(c, d, 2);
    assert d[..3] == d;
  }

  lemma ThreeBytes(k: nat, c: bv16, d0: byte, d1: byte, d2: byte, e0: byte, e1: byte, e2: byte, x: bv16, y: bv16, z: bv16)
    requires Window(k, d0, e0, d2, e2)
    requires x == FeedBits(c, d0, 8) && y == FeedBits(c, e0, 8) && z == Diff(x, y)
    requires FeedBits(FeedBits(x, d1, 8), d2, 8) == FeedBits(FeedBits(y, e1, 8), e2, 8)
    ensures d0 == e0 && d1 == e1 && d2 == e2
  {
    var a0, a1, a2 := d0 ^ e0, d1 ^ e1, d2 ^ e2;
    WindowDetected(k, c, d0, d1, d2, e0, e1, e2, a0, a1, a2, x, y, a0 as bv16, z, z ^ (a1 as bv16));
    SameByte(d0, e0);
    SameByte(d1, e1);
    SameByte(d2, e2);
  }

  lemma CrcOfParts(crc: bv16, a: seq<byte>, d0: byte, d1: byte, d2: byte, z: seq<byte>)
    ensures Crc(crc, a + ([d0, d1, d2] + z)) == Crc(FeedBits(FeedBits(FeedBits(Crc(crc, a), d0, 8), d1, 8), d2, 8), z)
  {
    CrcConcat(crc, a, [d0, d1, d2] + z);
    CrcConcat(Crc(crc, a), [d0, d1, d2], z);
    CrcOfThree(Crc(crc, a), d0, d1, d2);
  }

  lemma BurstInParts(crc: bv16, k: nat, a: seq<byte>, d0: byte, d1: byte, d2: byte, e0: byte, e1: byte, e2: byte, z: seq<byte>)
    requires Window(k, d0, e0, d2, e2)
    requires Crc(crc, a + ([d0, d1, d2] + z)) == Crc(crc, a + ([e0, e1, e2] + z))
    ensures d0 == e0 && d1 == e1 && d2 == e2
  {
    var c := Crc(crc, a);
    var x, y := FeedBits(c, d0, 8), FeedBits(c, e0, 8);
    CrcOfParts(crc, a, d0, d1, d2, z);
    CrcOfParts(crc, a, e0, e1, e2, z);
    CrcInjective(FeedBits(FeedBits(x, d1, 8), d2, 8), FeedBits(FeedBits(y, e1, 8), e2, 8), z);
    ThreeBytes(k, c, d0, d1, d2, e0, e1, e2, x, y, Diff(x, y));
  }

  /** x and y agree outside sixteen consecutive bits, the first of which is bit k of byte i. */
  predicate DifferInBurst(x: seq<byte>, y: seq<byte>, i: nat, k: nat) {
    && |x| == |y| && i < |x|
    && (forall j :: 0 <= j < |x| && (j < i || i + 3 <= j) ==> x[j] == y[j])
    && Window(k, x[i], y[i], if i + 2 < |x| then x[i + 2] else 0, if i + 2 < |x| then y[i + 2] else 0)
  }

  lemma CutThree<T>(x: seq<T>, y: seq<T>, i: nat)
    requires |x| == |y| && i + 3 <= |y|
    requires forall j :: 0 <= j < |x| && (j < i || i + 3 <= j) ==> x[j] == y[j]
    ensures y == x[..i] + ([y[i], y[i + 1], y[i + 2]] + x[i + 3..])
  {}

  lemma BurstInside(crc: bv16, x: seq<byte>, y: seq<byte>, i: nat, k: nat)
    requires DifferInBurst(x, y, i, k) && i + 3 <= |x|
    ensures Crc(crc, x) == Crc(crc, y) ==> x == y
  {
    CutThree(x, x, i);
    CutThree(x, y, i);
    if Crc(crc, x) == Crc(crc, y) {
      BurstInParts(crc, k, x[..i], x[i], x[i + 1], x[i + 2], y[i], y[i + 1], y[i + 2], x[i + 3..]);
    }
  }

  /** A burst error of at most sixteen bits, at any bit position, changes the CRC. */
  lemma BurstDetected(crc: bv16, x: seq<byte>, y: seq<byte>, i: nat, k: nat)
    requires DifferInBurst(x, y, i, k)
    ensures x != y ==> Crc(crc, x) != Crc(crc, y)
  {
    var pad: seq<byte> := [0, 0];
    CrcConcat(crc, x, pad);
    CrcConcat(crc, y, pad);
    PaddedBurst(x, y, i, k);
    BurstInside(crc, x + pad, y + pad, i, k);
    assert x == (x + pad)[..|x|] && y == (y + pad)[..|x|];
  }

  /** Damage to at most two adjacent bytes is a burst, whatever it does to them. */
  lemma TwoBytesDetected(crc: bv16, x: seq<byte>, y: seq<byte>, i: nat)
    requires |x| == |y| && i < |x|
    requires forall j :: 0 <= j < |x| && j != i && j != i + 1 ==> x[j] == y[j]
    ensures x != y ==> Crc(crc, x) != Crc(crc, y)
  {
    WholeBytes(x[i], y[i], if i + 2 < |x| then x[i + 2] else 0);
    BurstDetected(crc, x, y, i, 0);
  }

  lemma WholeBytes(d: byte, e: byte, same: byte)
    ensures Window(0, d, e, same, same)
  {}

  lemma PaddedBurst(x: seq<byte>, y: seq<byte>, i: nat, k: nat)
    requires DifferInBurst(x, y, i, k)
    ensures DifferInBurst(x + [0, 0], y + [0, 0], i, k)
  {}
}
