/**
 Byte stuffing: after the two leading separators every 0xFF on the wire is followed by 0x55.

 Stuff is the reference. The receiver works on raw bytes: it counts the bytes that are not 0xFF to find where
 a block ends, drops every byte that follows a 0xFF, and rejects a block in which such a byte is not 0x55.
 */
module Stuffing {
  import opened Bytes

  function StuffByte(b: byte): seq<byte> {
    if b == SEPARATOR_BYTE then [b, SEPARATOR_POST_BYTE] else [b]
  }

  function Stuff(data: seq<byte>): seq<byte> {
    if data == [] then [] else Stuff(data[..|data| - 1]) + StuffByte(data[|data| - 1])
  }

  /** The number of separator bytes in s. */
  function Separators(s: seq<byte>): (n: nat)
    ensures n <= |s|
  {
    if s == [] then 0 else Separators(s[..|s| - 1]) + if s[|s| - 1] == SEPARATOR_BYTE then 1 else 0
  }

  /** The number of bytes of s that the block counter counts. */
  function Counted(s: seq<byte>): nat {
    |s| - Separators(s)
  }

  /** A byte that should be the escape byte and is not. */
  predicate BadAt(s: seq<byte>, i: nat) {
    0 < i < |s| && s[i - 1] == SEPARATOR_BYTE && s[i] != SEPARATOR_POST_BYTE
  }

  /** The first escape error of s at or after index i, or |s|. */
  function FirstBad(s: seq<byte>, i: nat): (r: nat)
    requires i <= |s|
    ensures i <= r <= |s|
    ensures forall j :: i <= j < r ==> !BadAt(s, j)
    ensures r < |s| ==> BadAt(s, r)
    decreases |s| - i
  {
    if i == |s| || BadAt(s, i) then i else FirstBad(s, i + 1)
  }

  /** The bytes of s that do not follow a separator. */
  function Strip(s: seq<byte>): seq<byte> {
    if s == [] then []
    else Strip(s[..|s| - 1]) + if |s| > 1 && s[|s| - 2] == SEPARATOR_BYTE then [] else [s[|s| - 1]]
  }

  /** A raw block without escape error that does not stop in the middle of an escape. */
  predicate Clean(s: seq<byte>) {
    (forall i :: 0 < i < |s| ==> !BadAt(s, i)) && (s != [] ==> s[|s| - 1] != SEPARATOR_BYTE)
  }

  /** The length of the shortest prefix of s with n counted bytes. */
  function BlockLength(s: seq<byte>, n: nat): (k: nat)
    requires 0 < n <= Counted(s)
    ensures 0 < k <= |s|
  {
    if n <= Counted(s[..|s| - 1]) then BlockLength(s[..|s| - 1], n) else |s|
  }

  // ----- counting -----

  lemma {:induction false} SeparatorsOfConcat(a: seq<byte>, b: seq<byte>)
    ensures Separators(a + b) == Separators(a) + Separators(b)
  {
    if b == [] {
      assert a + b == a;
    } else {
      var front := b[..|b| - 1];
      assert (a + b)[..|a + b| - 1] == a + front;
      SeparatorsOfConcat(a, front);
    }
  }

  lemma SeparatorsOfNext(s: seq<byte>, i: nat)
    requires i < |s|
    ensures Separators(s[..i + 1]) == Separators(s[..i]) + if s[i] == SEPARATOR_BYTE then 1 else 0
  {
    assert s[..i + 1][..i] == s[..i];
  }

  lemma CountedMonotone(s: seq<byte>, i: nat, j: nat)
    requires i <= j <= |s|
    ensures Counted(s[..i]) <= Counted(s[..j])
  {
    SeparatorsOfConcat(s[..i], s[i..j]);
    assert s[..j] == s[..i] + s[i..j];
  }

  lemma {:induction false} BlockLengthEnds(s: seq<byte>, n: nat)
    requires 0 < n <= Counted(s)
    ensures var k := BlockLength(s, n);
            && Counted(s[..k]) == n && s[k - 1] != SEPARATOR_BYTE && Counted(s[..k - 1]) == n - 1
  {
    var k, front := BlockLength(s, n), s[..|s| - 1];
    if n <= Counted(front) {
      BlockLengthEnds(front, n);
      assert front[..k] == s[..k] && front[..k - 1] == s[..k - 1];
    } else {
      assert s[..k] == s;
    }
  }

  /** The end of a block is the only place with the right count and no separator before it. */
  lemma BlockLengthUnique(s: seq<byte>, n: nat, k: nat)
    requires 0 < k <= |s| && Counted(s[..k]) == n && s[k - 1] != SEPARATOR_BYTE
    ensures 0 < n <= Counted(s) && BlockLength(s, n) == k
  {
    EndCounts(s, n, k);
    var m := BlockLength(s, n);
    BlockLengthEnds(s, n);
    SameEnd(s, n, m, k);
    SameEnd(s, n, k, m);
  }

  lemma EndCounts(s: seq<byte>, n: nat, k: nat)
    requires 0 < k <= |s| && Counted(s[..k]) == n && s[k - 1] != SEPARATOR_BYTE
    ensures 0 < n <= Counted(s) && Counted(s[..k - 1]) == n - 1
  {
    SeparatorsOfNext(s, k - 1);
    CountedMonotone(s, k, |s|);
    assert s[..|s|] == s;
  }

  lemma SameEnd(s: seq<byte>, n: nat, m: nat, k: nat)
    requires m <= |s| && 0 < k <= |s| && Counted(s[..m]) == n && Counted(s[..k - 1]) == n - 1
    ensures m >= k
  {
    if m < k {
      CountedMonotone(s, m, k - 1);
      assert false;
    }
  }

  lemma BlockLengthStable(s: seq<byte>, t: seq<byte>, n: nat)
    requires 0 < n <= Counted(s)
    ensures n <= Counted(s + t) && BlockLength(s + t, n) == BlockLength(s, n)
  {
    var k := BlockLength(s, n);
    BlockLengthEnds(s, n);
    assert (s + t)[..k] == s[..k];
    BlockLengthUnique(s + t, n, k);
  }

  // ----- Strip undoes Stuff and conversely -----

  lemma StripOfSnoc(a: seq<byte>, x: byte)
    ensures Strip(a + [x]) == Strip(a) + if a != [] && a[|a| - 1] == SEPARATOR_BYTE then [] else [x]
  {
    assert (a + [x])[..|a|] == a;
  }

  lemma SeparatorsOfSnoc(a: seq<byte>, x: byte)
    ensures Separators(a + [x]) == Separators(a) + if x == SEPARATOR_BYTE then 1 else 0
  {
    assert (a + [x])[..|a|] == a;
  }

  lemma CleanSnoc(a: seq<byte>, b: byte)
    requires Clean(a)
    ensures Clean(a + StuffByte(b))
  {
    var s := a + StuffByte(b);
    forall i | 0 < i < |s|
      ensures !BadAt(s, i)
    {
      assert i < |a| ==> !BadAt(a, i);
    }
  }

  lemma StripOfStuffedSnoc(a: seq<byte>, b: byte)
    requires Clean(a)
    ensures Strip(a + StuffByte(b)) == Strip(a) + [b] && Counted(a + StuffByte(b)) == Counted(a) + 1
  {
    StripOfSnoc(a, b);
    SeparatorsOfSnoc(a, b);
    if b == SEPARATOR_BYTE {
      StripOfSnoc(a + [b], SEPARATOR_POST_BYTE);
      SeparatorsOfSnoc(a + [b], SEPARATOR_POST_BYTE);
      assert a + StuffByte(b) == a + [b] + [SEPARATOR_POST_BYTE];
    }
  }

  lemma {:induction false} StripOfStuff(data: seq<byte>)
    ensures Clean(Stuff(data)) && Strip(Stuff(data)) == data && Counted(Stuff(data)) == |data|
  {
    if data != [] {
      var front, b := data[..|data| - 1], data[|data| - 1];
      StripOfStuff(front);
      CleanSnoc(Stuff(front), b);
      StripOfStuffedSnoc(Stuff(front), b);
    }
  }

  lemma StuffOfSnoc(data: seq<byte>, b: byte)
    ensures Stuff(data + [b]) == Stuff(data) + StuffByte(b)
  {
    assert (data + [b])[..|data|] == data;
  }

  /** A clean block ends in a whole stuffed byte. */
  lemma CleanCut(s: seq<byte>) returns (front: seq<byte>, b: byte)
    requires Clean(s) && s != []
    ensures Clean(front) && s == front + StuffByte(b) && |front| < |s|
  {
    var n := |s|;
    if n > 1 && s[n - 2] == SEPARATOR_BYTE {
      assert !BadAt(s, n - 1) && !BadAt(s, n - 2);
      front, b := s[..n - 2], SEPARATOR_BYTE;
    } else {
      front, b := s[..n - 1], s[n - 1];
    }
    CleanPrefix(s, |front|);
  }

  lemma {:induction false} StuffOfStrip(s: seq<byte>)
    requires Clean(s)
    ensures Stuff(Strip(s)) == s
    decreases |s|
  {
    if s != [] {
      var front, b := CleanCut(s);
      StuffOfStrip(front);
      StripOfStuffedSnoc(front, b);
      StuffOfSnoc(Strip(front), b);
    }
  }

  lemma CleanPrefix(s: seq<byte>, k: nat)
    requires Clean(s) && k < |s| && (k > 0 ==> s[k - 1] != SEPARATOR_BYTE)
    ensures Clean(s[..k])
  {
    forall i | 0 < i < k
      ensures !BadAt(s[..k], i)
    {
      assert !BadAt(s, i);
    }
  }

  /** Stuffing is injective and its image is exactly the clean blocks. */
  lemma StuffIffClean(s: seq<byte>, data: seq<byte>)
    ensures s == Stuff(data) <==> Clean(s) && Strip(s) == data
  {
    StripOfStuff(data);
    if Clean(s) {
      StuffOfStrip(s);
    }
  }

  /** A block that ends where the counter says is clean exactly when no escape error is found. */
  lemma BlockIsClean(s: seq<byte>, n: nat)
    requires 0 < n <= Counted(s)
    ensures var block := s[..BlockLength(s, n)];
            Clean(block) <==> FirstBad(block, 0) == |block|
  {
    BlockLengthEnds(s, n);
    var block := s[..BlockLength(s, n)];
    if FirstBad(block, 0) < |block| {
      assert BadAt(block, FirstBad(block, 0));
    }
  }

  /** What a stuffed block looks like to the receiver, whatever follows it. */
  lemma StuffedBlock(data: seq<byte>, t: seq<byte>)
    requires data != []
    ensures var s := Stuff(data) + t;
            && |data| <= Counted(s) && BlockLength(s, |data|) == |Stuff(data)|
            && s[..|Stuff(data)|] == Stuff(data)
  {
    var raw := Stuff(data);
    StripOfStuff(data);
    assert raw[..|raw|] == raw && (raw + t)[..|raw|] == raw;
    BlockLengthUnique(raw + t, |data|, |raw|);
  }

  lemma {:induction false} StuffOfConcat(a: seq<byte>, b: seq<byte>)
    ensures Stuff(a + b) == Stuff(a) + Stuff(b)
  {
    if b == [] {
      assert a + b == a;
    } else {
      var front := b[..|b| - 1];
      assert (a + b)[..|a + b| - 1] == a + front;
      StuffOfConcat(a, front);
    }
  }

  lemma {:induction false} StuffLength(data: seq<byte>)
    ensures |Stuff(data)| == |data| + Separators(data)
  {
    if data != [] {
      StuffLength(data[..|data| - 1]);
    }
  }

  lemma {:induction false} FirstOfStuff(data: seq<byte>)
    requires data != []
    ensures Stuff(data) != [] && Stuff(data)[0] == data[0]
  {
    if |data| > 1 {
      FirstOfStuff(data[..|data| - 1]);
    }
  }

  lemma {:induction false} PlainBytes(s: seq<byte>)
    requires forall i :: 0 <= i < |s| ==> s[i] != SEPARATOR_BYTE
    ensures Stuff(s) == s && Separators(s) == 0
  {
    if s != [] {
      PlainBytes(s[..|s| - 1]);
    }
  }

  function Zeros(n: nat): (s: seq<byte>)
    ensures |s| == n && forall i :: 0 <= i < n ==> s[i] == 0
  {
    if n == 0 then [] else Zeros(n - 1) + [0]
  }
}
