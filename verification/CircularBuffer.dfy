/** The ring buffer, proved to be a bounded first-in-first-out sequence. */
module CircularBuffers {
  import opened Sequences

  const CIRCULAR_BUFFER_MINIMUM_SIZE := 0x80

  lemma ModWraps(x: nat, c: nat)
    requires 0 < c && x < 2 * c
    ensures x % c == if x < c then x else x - c
  {
    if c <= x {
      assert x == 1 * c + (x - c);
    }
  }

  /** The stored items of cells, oldest first. */
  function Window<T>(cells: seq<T>, head: nat, tail: nat, isEmpty: bool): (s: seq<T>)
    requires head < |cells| && tail < |cells| && (isEmpty ==> head == tail)
    ensures |s| == if isEmpty then 0 else if head < tail then tail - head else |cells| - head + tail
  {
    if isEmpty then [] else if head < tail then cells[head..tail] else cells[head..] + cells[..tail]
  }

  function Wrap(x: nat, c: nat): nat {
    if x < c then x else x - c
  }

  /** Moving the tail over n free cells, up to the end of the array, appends what is in them. */
  lemma ExtendedWindow<T>(cells: seq<T>, head: nat, tail: nat, isEmpty: bool, n: nat)
    requires head < |cells| && tail < |cells| && (isEmpty ==> head == tail)
    requires n <= |cells| - tail && n <= |cells| - |Window(cells, head, tail, isEmpty)|
    ensures Wrap(tail + n, |cells|) < |cells|
    ensures isEmpty && n == 0 ==> head == Wrap(tail + n, |cells|)
    ensures Window(cells, head, Wrap(tail + n, |cells|), isEmpty && n == 0)
            == Window(cells, head, tail, isEmpty) + cells[tail..tail + n]
  {
    if n == 0 {
      assert cells[tail..tail] == [];
    } else if isEmpty || head < tail {
      ExtendedRun(cells, head, tail, n);
      assert isEmpty ==> cells[head..tail] == [];
    } else {
      SplitSlice(cells, 0, tail, tail + n);
      ConcatAssociative(cells[head..], cells[..tail], cells[tail..tail + n]);
    }
  }

  lemma ExtendedRun<T>(cells: seq<T>, head: nat, tail: nat, n: nat)
    requires head <= tail < |cells| && 0 < n <= |cells| - tail
    ensures Window(cells, head, Wrap(tail + n, |cells|), false) == cells[head..tail] + cells[tail..tail + n]
  {
    SplitSlice(cells, head, tail, tail + n);
    if tail + n == |cells| {
      assert cells[head..] + cells[..0] == cells[head..tail + n];
    }
  }

  lemma SplitSlice<T>(s: seq<T>, i: nat, j: nat, k: nat)
    requires i <= j <= k <= |s|
    ensures s[i..k] == s[i..j] + s[j..k]
  {}

  /** Moving the tail further than there are free cells runs over the oldest items. */
  lemma OverrunWindow<T>(cells: seq<T>, head: nat, tail: nat, isEmpty: bool, n: nat)
    requires head < |cells| && tail < |cells| && (isEmpty ==> head == tail)
    requires |cells| - |Window(cells, head, tail, isEmpty)| < n <= |cells| - tail
    ensures |Window(cells, head, Wrap(tail + n, |cells|), false)| == |Window(cells, head, tail, isEmpty)| + n - |cells|
  {}

  lemma ReservedWindow<T>(cells: seq<T>, head: nat, tail: nat, isEmpty: bool, n: nat, added: seq<T>)
    requires head < |cells| && tail < |cells| && (isEmpty ==> head == tail)
    requires n <= |cells| - tail && added == cells[tail..tail + n]
    ensures Wrap(tail + n, |cells|) < |cells|
    ensures isEmpty && n == 0 ==> head == Wrap(tail + n, |cells|)
    ensures var s := Window(cells, head, tail, isEmpty);
            var t := Window(cells, head, Wrap(tail + n, |cells|), isEmpty && n == 0);
            if n <= |cells| - |s| then t == s + added else |t| == |s| + n - |cells|
  {
    if n <= |cells| - |Window(cells, head, tail, isEmpty)| {
      ExtendedWindow(cells, head, tail, isEmpty, n);
    } else {
      OverrunWindow(cells, head, tail, isEmpty, n);
    }
  }

  /** Moving the head over n stored cells removes the n oldest items. */
  lemma ShrunkWindow<T>(cells: seq<T>, head: nat, tail: nat, isEmpty: bool, n: nat)
    requires head < |cells| && tail < |cells| && (isEmpty ==> head == tail)
    requires n <= |Window(cells, head, tail, isEmpty)|
    ensures var size := |Window(cells, head, tail, isEmpty)|;
            && Wrap(head + n, |cells|) < |cells|
            && (n == size ==> Wrap(head + n, |cells|) == tail)
            && Window(cells, Wrap(head + n, |cells|), tail, n == size) == Window(cells, head, tail, isEmpty)[n..]
  {
    if !isEmpty && tail <= head && head + n < |cells| {
      assert cells[head..][n..] == cells[head + n..];
    }
  }

  lemma UnstoredCell<T>(cells: seq<T>, head: nat, tail: nat, isEmpty: bool, item: T)
    requires head < |cells| && tail < |cells| && (isEmpty ==> head == tail) && (isEmpty || head != tail)
    ensures Window(cells[tail := item], head, tail, isEmpty) == Window(cells, head, tail, isEmpty)
  {}

  /** What stands in the free cells behind the tail does not matter. */
  lemma FreeCells<T>(cells: seq<T>, cells': seq<T>, head: nat, tail: nat, isEmpty: bool, n: nat)
    requires head < |cells| == |cells'| && tail < |cells| && (isEmpty ==> head == tail)
    requires n <= |cells| - tail && n <= |cells| - |Window(cells, head, tail, isEmpty)|
    requires cells'[..tail] == cells[..tail] && cells'[tail + n..] == cells[tail + n..]
    ensures Window(cells', head, tail, isEmpty) == Window(cells, head, tail, isEmpty)
  {
    if isEmpty {
    } else if head < tail {
      assert cells'[head..tail] == cells'[..tail][head..] && cells[head..tail] == cells[..tail][head..];
    } else {
      assert cells'[head..] == cells'[tail + n..][head - tail - n..] && cells[head..] == cells[tail + n..][head - tail - n..];
    }
  }

  /** Reserving n cells and then filling them with data appends data. */
  lemma ReservedAndFilled<T>(cells: seq<T>, cells': seq<T>, head: nat, tail: nat, isEmpty: bool, data: seq<T>)
    requires head < |cells| && tail < |cells| && (isEmpty ==> head == tail)
    requires |data| <= |cells| - tail && |data| <= |cells| - |Window(cells, head, tail, isEmpty)|
    requires cells' == cells[..tail] + data + cells[tail + |data|..]
    ensures Wrap(tail + |data|, |cells|) < |cells|
    ensures isEmpty && |data| == 0 ==> head == Wrap(tail + |data|, |cells|)
    ensures Window(cells', head, Wrap(tail + |data|, |cells|), isEmpty && |data| == 0)
            == Window(cells, head, tail, isEmpty) + data
  {
    FilledParts(cells, cells', tail, data);
    FreeCells(cells, cells', head, tail, isEmpty, |data|);
    ExtendedWindow(cells', head, tail, isEmpty, |data|);
  }

  lemma FilledParts<T>(cells: seq<T>, cells': seq<T>, tail: nat, data: seq<T>)
    requires tail + |data| <= |cells| && cells' == cells[..tail] + data + cells[tail + |data|..]
    ensures |cells'| == |cells| && cells'[..tail] == cells[..tail]
    ensures cells'[tail..tail + |data|] == data && cells'[tail + |data|..] == cells[tail + |data|..]
  {}

  lemma DropNext<T>(s: seq<T>, i: nat)
    requires i < |s|
    ensures s[i..][1..] == s[i + 1..]
  {}

  lemma AppendNext<T>(before: seq<T>, items: seq<T>, i: nat)
    requires i < |items|
    ensures before + items[..i] + [items[i]] == before + items[..i + 1]
  {}

  /** Storing an item in the cell at the tail and moving the tail on appends the item. */
  lemma StoredNext<T>(cells: seq<T>, head: nat, tail: nat, isEmpty: bool, item: T)
    requires head < |cells| && tail < |cells| && (isEmpty ==> head == tail) && (isEmpty || head != tail)
    ensures (tail + 1) % |cells| < |cells|
    ensures Window(cells[tail := item], head, (tail + 1) % |cells|, false) == Window(cells, head, tail, isEmpty) + [item]
  {
    UnstoredCell(cells, head, tail, isEmpty, item);
    ExtendedWindow(cells[tail := item], head, tail, isEmpty, 1);
    ModWraps(tail + 1, |cells|);
    assert cells[tail := item][tail..tail + 1] == [item];
  }

  /** The oldest item is in the cell at the head, and moving the head on removes it. */
  lemma TakenNext<T>(cells: seq<T>, head: nat, tail: nat, isEmpty: bool)
    requires head < |cells| && tail < |cells| && (isEmpty ==> head == tail) && !isEmpty
    ensures var s, head' := Window(cells, head, tail, isEmpty), (head + 1) % |cells|;
            && s != [] && s[0] == cells[head] && head' < |cells| && (|s| == 1 ==> head' == tail)
            && Window(cells, head', tail, |s| == 1) == s[1..]
  {
    ModWraps(head + 1, |cells|);
    ShrunkWindow(cells, head, tail, isEmpty, 1);
  }

  class CircularBuffer<T(0)> {
    var isEmpty: bool
    const capacity: nat
    const buffer: array<T>
    var head: nat
    var tail: nat

    ghost predicate Valid()
      reads this
    {
      && 0 < capacity == buffer.Length
      && head < capacity && tail < capacity
      && (isEmpty ==> head == tail)
    }

    /** The stored items, oldest first. */
    ghost function Contents(): (s: seq<T>)
      requires Valid()
      reads this, buffer
      ensures |s| <= capacity
    {
      Window(buffer[..], head, tail, isEmpty)
    }

    constructor (requested: nat)
      ensures Valid() && fresh(buffer) && Contents() == []
      ensures capacity == if requested < 128 then 128 else requested
    {
      var size := if requested < CIRCULAR_BUFFER_MINIMUM_SIZE then CIRCULAR_BUFFER_MINIMUM_SIZE else requested;
      isEmpty := true;
      capacity := size;
      buffer := new T[size];
      head, tail := 0, 0;
    }

    function GetSize(): (n: nat)
      requires Valid()
      reads this, buffer
      ensures n == |Contents()|
    {
      if tail == head then if isEmpty then 0 else capacity
      else if head < tail then tail - head else capacity - head + tail
    }

    function GetSpace(): (n: nat)
      requires Valid()
      reads this, buffer
      ensures n == capacity - |Contents()|
    {
      capacity - GetSize()
    }

    /** The item at a position counted from the oldest. */
    function At(index: nat): (item: T)
      requires Valid() && index < |Contents()|
      reads this, buffer
      ensures item == Contents()[index]
    {
      ModWraps(head + index, capacity);
      buffer[(head + index) % capacity]
    }

    /** Stores an item in the cell at the tail; empty says whether nothing is stored yet. */
    method Store(item: T, ghost empty: bool)
      requires head < capacity == buffer.Length && tail < capacity && (empty ==> head == tail)
      requires |Window(buffer[..], head, tail, empty)| < capacity
      modifies this`tail, buffer
      ensures tail < capacity
      ensures Window(buffer[..], head, tail, false) == old(Window(buffer[..], head, tail, empty)) + [item]
    {
      ghost var cells := buffer[..];
      StoredNext(cells, head, tail, empty, item);
      buffer[tail] := item;
      assert buffer[..] == cells[tail := item];
      tail := (tail + 1) % capacity;
    }

    method Push(item: T) returns (pushed: nat)
      requires Valid()
      modifies this`tail, this`isEmpty, buffer
      ensures Valid()
      ensures pushed == if |old(Contents())| < capacity then 1 else 0
      ensures Contents() == if pushed == 1 then old(Contents()) + [item] else old(Contents())
    {
      if isEmpty || tail != head {
        Store(item, isEmpty);
        isEmpty := false;
        return 1;
      }
      return 0;
    }

    method PushAll(items: seq<T>) returns (pushed: nat)
      requires Valid()
      modifies this`tail, this`isEmpty, buffer
      ensures Valid()
      ensures pushed == Min(|items|, capacity - |old(Contents())|)
      ensures Contents() == old(Contents()) + items[..pushed]
    {
      pushed := GetSpace();
      if pushed > |items| {
        pushed := |items|;
      }
      ghost var before := Contents();
      EmptyBehind(before);
      for i := 0 to pushed
        invariant tail < capacity && (isEmpty && i == 0 ==> head == tail)
        invariant Window(buffer[..], head, tail, isEmpty && i == 0) == before + items[..i]
      {
        Store(items[i], isEmpty && i == 0);
        AppendNext(before, items, i);
      }
      if pushed > 0 {
        isEmpty := false;
      }
    }

    /** Takes the item from the cell at the head; last says whether it is the only one. */
    method Take(ghost last: bool) returns (item: T)
      requires head < capacity == buffer.Length && tail < capacity
      requires last == (|Window(buffer[..], head, tail, false)| == 1)
      modifies this`head
      ensures head < capacity && (last ==> head == tail)
      ensures var s := old(Window(buffer[..], head, tail, false));
              s != [] && item == s[0] && Window(buffer[..], head, tail, last) == s[1..]
    {
      TakenNext(buffer[..], head, tail, false);
      item := buffer[head];
      head := (head + 1) % capacity;
    }

    /** The body of the loop of Pop. */
    method PopNext(items: array<T>, i: nat, ghost before: seq<T>, ghost available: nat)
      requires items != buffer && i < items.Length && i < available == |before|
      requires head < capacity == buffer.Length && tail < capacity
      requires Window(buffer[..], head, tail, false) == before[i..]
      modifies this`head, items
      ensures head < capacity && (i + 1 == available ==> head == tail)
      ensures Window(buffer[..], head, tail, i + 1 == available) == before[i + 1..]
      ensures items[i] == before[i] && forall k :: 0 <= k < items.Length && k != i ==> items[k] == old(items[k])
    {
      DropNext(before, i);
      items[i] := Take(i + 1 == available);
    }

    method Pop(items: array<T>, size: nat) returns (popped: nat)
      requires Valid() && items != buffer && Min(size, |Contents()|) <= items.Length
      modifies this`head, this`isEmpty, items
      ensures Valid()
      ensures popped == Min(size, |old(Contents())|)
      ensures items[..popped] == old(Contents())[..popped]
      ensures forall k :: popped <= k < items.Length ==> items[k] == old(items[k])
      ensures Contents() == old(Contents())[popped..]
    {
      var available := GetSize();
      popped := available;
      if size < popped {
        popped := size;
      }
      ghost var before := Contents();
      for i := 0 to popped
        invariant isEmpty == old(isEmpty) && tail == old(tail) && head < capacity && (i == available ==> head == tail)
        invariant buffer[..] == old(buffer[..]) && Window(buffer[..], head, tail, i == available) == before[i..]
        invariant forall k :: 0 <= k < i ==> items[k] == before[k]
        invariant forall k :: popped <= k < items.Length ==> items[k] == old(items[k])
      {
        PopNext(items, i, before, available);
      }
      assert items[..popped] == before[..popped];
      if popped == available {
        isEmpty := true;
      }
    }

    /**
     Extends the contents over the free cells behind the tail, without wrapping, and says where they are.
     The head is not consulted: a caller that asks for more than the free space loses stored items.
     */
    method Reserve(size: nat) returns (start: nat, reserved: nat)
      requires Valid()
      modifies this`tail, this`isEmpty
      ensures Valid()
      ensures start == old(tail) && reserved == Min(size, capacity - start)
      ensures tail == Wrap(start + reserved, capacity) && isEmpty == (old(isEmpty) && reserved == 0)
      ensures reserved <= capacity - |old(Contents())| ==>
                Contents() == old(Contents()) + buffer[start..start + reserved]
      ensures reserved > capacity - |old(Contents())| ==> |Contents()| == |old(Contents())| + reserved - capacity
    {
      var limit := if head == 0 then capacity else 0;
      if limit > tail {
        reserved := Min(size, limit - tail);
      } else {
        reserved := Min(size, capacity - tail);
      }
      start := tail;
      AdvanceTail(reserved);
    }

    /** Moves the tail over n cells before the end of the array. */
    method AdvanceTail(n: nat)
      requires Valid() && n <= capacity - tail
      modifies this`tail, this`isEmpty
      ensures Valid()
      ensures tail == Wrap(old(tail) + n, capacity) && isEmpty == (old(isEmpty) && n == 0)
      ensures n <= capacity - |old(Contents())| ==>
                Contents() == old(Contents()) + buffer[old(tail)..old(tail) + n]
      ensures n > capacity - |old(Contents())| ==> |Contents()| == |old(Contents())| + n - capacity
    {
      ghost var cells, added := buffer[..], buffer[tail..tail + n];
      ModWraps(tail + n, capacity);
      ReservedWindow(cells, head, tail, isEmpty, n, added);
      tail := (tail + n) % capacity;
      if n > 0 {
        isEmpty := false;
      }
      assert buffer[..] == cells;
    }

    method Drop(size: nat) returns (dropped: nat)
      requires Valid()
      modifies this`head, this`isEmpty
      ensures Valid()
      ensures dropped == Min(size, |old(Contents())|)
      ensures Contents() == old(Contents())[dropped..]
    {
      var available := GetSize();
      dropped := available;
      if size < dropped {
        dropped := size;
      }
      ModWraps(head + dropped, capacity);
      ShrunkWindow(buffer[..], head, tail, isEmpty, dropped);
      head := (head + dropped) % capacity;
      if dropped == available {
        isEmpty := true;
      }
    }

    method Clear()
      requires Valid()
      modifies this`head, this`tail, this`isEmpty
      ensures Valid() && Contents() == []
    {
      isEmpty := true;
      head, tail := 0, 0;
    }
  }
}
