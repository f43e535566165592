/** Batches and whole runs of ring buffer operations.

    InsertRange and PopEach repeat the single-item operations; the bulk operations of the
    class RingBuffer are proved equal to them. RunIsFifo then says that no client can tell
    the ring from a bounded first-in first-out queue. */
module RingBatch {
  import opened Bits
  import opened RingModel

  ghost predicate Sized(items: seq<Item>, itemSz: nat)
  {
    forall i :: 0 <= i < |items| ==> |items[i]| == itemSz
  }

  /** The part of a ring that no operation changes. */
  ghost predicate SameGeometry(r: Ring, r': Ring)
  {
    (r'.count, r'.itemSz, |r'.bytes|) == (r.count, r.itemSz, |r.bytes|)
  }

  // ---------- repeated insertion ----------

  /** One RingBuffer_Insert for each of items[lo..hi], and the number of successes. */
  ghost function InsertRange(r: Ring, items: seq<Item>, lo: nat, hi: nat): (res: (Ring, int))
    requires Valid(r) && Sized(items, r.itemSz)
    requires lo <= hi <= |items|
    ensures Valid(res.0) && SameGeometry(r, res.0) && res.0.tail == r.tail
    decreases hi
  {
    if lo == hi then (r, 0)
    else
      var (r1, n1) := InsertRange(r, items, lo, hi - 1);
      InsertIsEnqueue(r1, items[hi - 1]);
      var (r2, n2) := Insert(r1, items[hi - 1]);
      (r2, n1 + n2)
  }

  /** How many of num items a queue takes. */
  function Accepted(queued: nat, capacity: nat, num: nat): (n: nat)
    requires queued <= capacity
    ensures n <= num && n <= capacity - queued
  {
    Min(capacity - queued, num)
  }

  lemma EnqueueOneMore(q: seq<Item>, capacity: nat, items: seq<Item>, lo: nat, hi: nat)
    requires |q| <= capacity && lo <= hi < |items|
    ensures var n, n' := Accepted(|q|, capacity, hi - lo), Accepted(|q|, capacity, hi + 1 - lo);
      var q1 := q + items[lo..lo + n];
      if |q1| < capacity then n' == n + 1 && q1 + [items[hi]] == q + items[lo..lo + n']
      else n' == n
  {
  }

  /** The batch lo..hi has been accepted up to the free space of r. */
  ghost predicate Enqueued(r: Ring, items: seq<Item>, lo: nat, hi: nat)
    requires Valid(r) && Sized(items, r.itemSz)
    requires lo <= hi <= |items|
  {
    var n := Accepted(|Contents(r)|, r.count, hi - lo);
    && InsertRange(r, items, lo, hi).1 == n
    && Contents(InsertRange(r, items, lo, hi).0) == Contents(r) + items[lo..lo + n]
  }

  lemma EnqueuedStep(r: Ring, items: seq<Item>, lo: nat, hi: nat)
    requires Valid(r) && Sized(items, r.itemSz)
    requires lo <= hi < |items| && Enqueued(r, items, lo, hi)
    ensures Enqueued(r, items, lo, hi + 1)
  {
    InsertIsEnqueue(InsertRange(r, items, lo, hi).0, items[hi]);
    EnqueueOneMore(Contents(r), r.count, items, lo, hi);
  }

  /** A batch is accepted up to the free space, in order. */
  lemma {:induction false} InsertRangeIsEnqueue(r: Ring, items: seq<Item>, lo: nat, hi: nat)
    requires Valid(r) && Sized(items, r.itemSz)
    requires lo <= hi <= |items|
    ensures Enqueued(r, items, lo, hi)
    decreases hi
  {
    hide Enqueued, InsertRange, Valid, Sized;
    if lo == hi {
      EnqueuedNone(r, items, lo);
    } else {
      InsertRangeIsEnqueue(r, items, lo, hi - 1);
      EnqueuedStep(r, items, lo, hi - 1);
    }
  }

  lemma EnqueuedNone(r: Ring, items: seq<Item>, lo: nat)
    requires Valid(r) && Sized(items, r.itemSz) && lo <= |items|
    ensures Enqueued(r, items, lo, lo)
  {
    assert Contents(r) + items[lo..lo] == Contents(r);
  }

  /** However many items are inserted, the memory behind the count slots is untouched. */
  lemma {:induction false} InsertRangeStaysInside(r: Ring, items: seq<Item>, lo: nat, hi: nat, k: nat)
    requires Valid(r) && Sized(items, r.itemSz) && lo <= hi <= |items|
    requires Offset(r.itemSz, r.count) <= k < |r.bytes|
    ensures InsertRange(r, items, lo, hi).0.bytes[k] == r.bytes[k]
    decreases hi
  {
    if lo < hi {
      hide Insert, Valid;
      InsertRangeStaysInside(r, items, lo, hi - 1, k);
      InsertWritesOneSlot(InsertRange(r, items, lo, hi - 1).0, items[hi - 1], k);
    }
  }

  lemma RoomAfter(r: Ring, items: seq<Item>, lo: nat, hi: nat)
    requires Valid(r) && Sized(items, r.itemSz)
    requires lo <= hi <= |items| && hi - lo < Free(r)
    ensures var r1 := InsertRange(r, items, lo, hi).0; Used(r1.head, r1.tail) < r1.count
  {
    InsertRangeIsEnqueue(r, items, lo, hi);
  }

  lemma OneMoreInsert(r: Ring, items: seq<Item>, lo: nat, hi: nat, r1: Ring, n: int, r2: Ring)
    requires Valid(r) && Sized(items, r.itemSz) && lo <= hi < |items|
    requires InsertRange(r, items, lo, hi) == (r1, n)
    requires Valid(r1) && r1.itemSz == r.itemSz && Insert(r1, items[hi]) == (r2, 1)
    ensures InsertRange(r, items, lo, hi + 1) == (r2, n + 1)
  {
  }

  /** Inserting a batch in two parts. */
  lemma {:induction false} InsertRangeSplit(r: Ring, items: seq<Item>, lo: nat, mid: nat, hi: nat)
    requires Valid(r) && Sized(items, r.itemSz)
    requires lo <= mid <= hi <= |items|
    ensures var (r1, n1) := InsertRange(r, items, lo, mid);
      var (r2, n2) := InsertRange(r1, items, mid, hi);
      InsertRange(r, items, lo, hi) == (r2, n1 + n2)
    decreases hi
  {
    hide GoodCount, Insert;
    if mid < hi {
      InsertRangeSplit(r, items, lo, mid, hi - 1);
    }
  }

  lemma JoinRanges(r: Ring, items: seq<Item>, lo: nat, mid: nat, hi: nat, r1: Ring, n1: int, r2: Ring, n2: int)
    requires Valid(r) && Valid(r1) && Sized(items, r.itemSz) && r1.itemSz == r.itemSz
    requires lo <= mid <= hi <= |items|
    requires InsertRange(r, items, lo, mid) == (r1, n1) && InsertRange(r1, items, mid, hi) == (r2, n2)
    ensures InsertRange(r, items, lo, hi) == (r2, n1 + n2)
  {
    InsertRangeSplit(r, items, lo, mid, hi);
  }

  lemma {:induction false} FullRefusesAll(r: Ring, items: seq<Item>, lo: nat, hi: nat)
    requires Valid(r) && Sized(items, r.itemSz)
    requires lo <= hi <= |items|
    requires |Contents(r)| == r.count
    ensures InsertRange(r, items, lo, hi) == (r, 0)
    decreases hi
  {
    if lo < hi {
      FullRefusesAll(r, items, lo, hi - 1);
    }
  }

  lemma ContentsFit(r: Ring)
    requires Valid(r)
    ensures |Contents(r)| <= r.count
  {
  }

  /** Items beyond the free space change nothing: a batch may be cut to what fits. */
  lemma RefusedItems(r: Ring, items: seq<Item>)
    requires Valid(r) && Sized(items, r.itemSz)
    ensures InsertRange(r, items, 0, |items|)
         == InsertRange(r, items, 0, Accepted(|Contents(r)|, r.count, |items|))
  {
    hide Valid, Insert, InsertRange, Sized;
    ContentsFit(r);
    var n := Accepted(|Contents(r)|, r.count, |items|);
    if n < |items| {
      InsertRangeIsEnqueue(r, items, 0, n);
      var r1 := InsertRange(r, items, 0, n).0;
      FullRefusesAll(r1, items, n, |items|);
      JoinRanges(r, items, 0, n, |items|, r1, n, r1, 0);
    }
  }

  // ---------- a bulk insertion segment ----------

  /** The n slots from the head on do not run past the end of the buffer. */
  ghost predicate Contiguous(r: Ring, n: nat)
  {
    0 < r.count && IndexOf(r.count, r.head) + n <= r.count
  }

  lemma SegmentBounds(itemSz: nat, count: nat, slot: nat, n: nat)
    requires slot + n <= count
    ensures Offset(itemSz, slot) + Offset(itemSz, n) == Offset(itemSz, slot + n) <= Offset(itemSz, count)
  {
    OffsetAdd(itemSz, slot, n);
    OffsetMonotone(itemSz, slot + n, count);
  }

  /** The bytes of items from..from + n of a byte area. */
  function Chunk(data: seq<byte>, itemSz: nat, from: nat, n: nat): (chunk: seq<byte>)
    requires Offset(itemSz, from + n) <= |data|
    ensures |chunk| == Offset(itemSz, n)
  {
    OffsetAdd(itemSz, from, n);
    data[Offset(itemSz, from)..Offset(itemSz, from + n)]
  }

  /** One memcpy of data items from..from + n to the head's slot, followed by head += n. */
  ghost function CopyIn(r: Ring, data: seq<byte>, from: nat, n: nat): Ring
    requires Valid(r) && Contiguous(r, n)
    requires Offset(r.itemSz, from + n) <= |data|
  {
    var slot := IndexOf(r.count, r.head);
    SegmentBounds(r.itemSz, r.count, slot, n);
    r.(bytes := Blit(r.bytes, Offset(r.itemSz, slot), Chunk(data, r.itemSz, from, n)), head := U32(r.head + n))
  }

  lemma BlitJoin(bytes: seq<byte>, off: nat, data: seq<byte>, lo: nat, mid: nat, hi: nat)
    requires lo <= mid <= hi <= |data| && off + hi - lo <= |bytes|
    ensures Blit(Blit(bytes, off, data[lo..mid]), off + mid - lo, data[mid..hi]) == Blit(bytes, off, data[lo..hi])
  {
  }

  lemma CopyInNone(r: Ring, data: seq<byte>, from: nat)
    requires Valid(r) && Contiguous(r, 0)
    requires Offset(r.itemSz, from) <= |data|
    ensures CopyIn(r, data, from, 0) == r
  {
    assert Chunk(data, r.itemSz, from, 0) == [];
    assert CopyIn(r, data, from, 0).bytes == r.bytes;
  }

  /** Copying in one item more is copying in n items and inserting the last. */
  lemma CopyInStep(r: Ring, data: seq<byte>, from: nat, n: nat)
    requires Valid(r) && Contiguous(r, n + 1)
    requires Offset(r.itemSz, from + n + 1) <= |data|
    requires Offset(r.itemSz, from + n) + r.itemSz <= |data|
    requires Valid(CopyIn(r, data, from, n))
    requires Used(CopyIn(r, data, from, n).head, r.tail) < r.count
    ensures Insert(CopyIn(r, data, from, n), ItemAt(data, r.itemSz, from + n)) == (CopyIn(r, data, from, n + 1), 1)
  {
    var slot := IndexOf(r.count, r.head);
    NoWrapIndex(r.count, r.head, n);
    WrapAdd(r.head + n, 1);
    CopyBytesStep(r.bytes, r.itemSz, r.count, slot, data, from, n);
  }

  lemma CopyBytesStep(bytes: seq<byte>, itemSz: nat, count: nat, slot: nat, data: seq<byte>, from: nat, n: nat)
    requires slot + n + 1 <= count && Offset(itemSz, count) <= |bytes|
    requires Offset(itemSz, from + n + 1) <= |data|
    ensures Offset(itemSz, slot) + Offset(itemSz, n) <= |bytes|
    ensures Offset(itemSz, slot) + Offset(itemSz, n + 1) <= |bytes|
    ensures Offset(itemSz, slot + n) + itemSz <= |bytes|
    ensures Blit(Blit(bytes, Offset(itemSz, slot), Chunk(data, itemSz, from, n)),
                 Offset(itemSz, slot + n), ItemAt(data, itemSz, from + n))
         == Blit(bytes, Offset(itemSz, slot), Chunk(data, itemSz, from, n + 1))
  {
    SegmentBounds(itemSz, count, slot, n);
    SegmentBounds(itemSz, count, slot, n + 1);
    OffsetAdd(itemSz, from, n);
    OffsetAdd(itemSz, from, n + 1);
    BlitJoin(bytes, Offset(itemSz, slot), data,
             Offset(itemSz, from), Offset(itemSz, from + n), Offset(itemSz, from + n + 1));
  }

  lemma ItemsIndex(bytes: seq<byte>, itemSz: nat, n: nat, i: nat)
    requires i < n && Offset(itemSz, n) <= |bytes|
    ensures Offset(itemSz, i) + itemSz <= |bytes|
    ensures Items(bytes, itemSz, n)[i] == ItemAt(bytes, itemSz, i)
  {
    if i < n - 1 {
      ItemsIndex(bytes, itemSz, n - 1, i);
    }
  }

  lemma SegmentStep(r: Ring, data: seq<byte>, items: seq<Item>, from: nat, n: nat)
    requires Valid(r) && Contiguous(r, n + 1) && n < Free(r)
    requires Sized(items, r.itemSz) && from + n < |items|
    requires Offset(r.itemSz, from + n) + r.itemSz <= |data|
    requires items[from + n] == ItemAt(data, r.itemSz, from + n)
    requires InsertRange(r, items, from, from + n) == (CopyIn(r, data, from, n), n)
    ensures InsertRange(r, items, from, from + n + 1) == (CopyIn(r, data, from, n + 1), n + 1)
  {
    RoomAfter(r, items, from, from + n);
    CopyInStep(r, data, from, n);
    OneMoreInsert(r, items, from, from + n, CopyIn(r, data, from, n), n, CopyIn(r, data, from, n + 1));
  }

  /** A contiguous bulk copy does exactly what n single insertions do: same bytes, same
      head, same tail. */
  lemma {:induction false} SegmentIsInserts(r: Ring, data: seq<byte>, items: seq<Item>, from: nat, n: nat)
    requires Valid(r) && Contiguous(r, n) && n <= Free(r)
    requires from + n <= |items| && Offset(r.itemSz, |items|) <= |data|
    requires items == Items(data, r.itemSz, |items|)
    ensures Offset(r.itemSz, from + n) <= |data|
    ensures InsertRange(r, items, from, from + n) == (CopyIn(r, data, from, n), n)
  {
    hide Blit, U32, GoodCount, Chunk;
    OffsetMonotone(r.itemSz, from + n, |items|);
    if n == 0 {
      CopyInNone(r, data, from);
    } else {
      var m := n - 1;
      SegmentIsInserts(r, data, items, from, m);
      ItemsIndex(data, r.itemSz, |items|, from + m);
      SegmentStep(r, data, items, from, m);
    }
  }

  /** The bytes of a sequence of items laid out one behind the other. */
  function Flatten(items: seq<Item>): seq<byte>
  {
    if items == [] then [] else Flatten(items[..|items| - 1]) + items[|items| - 1]
  }

  lemma FlattenLast(items: seq<Item>, last: Item)
    ensures Flatten(items + [last]) == Flatten(items) + last
  {
    assert (items + [last])[..|items|] == items;
  }

  lemma AppendAssociates(a: seq<byte>, b: seq<byte>, c: seq<byte>)
    ensures (a + b) + c == a + (b + c)
  {
  }

  lemma {:induction false} FlattenJoin(a: seq<Item>, b: seq<Item>)
    ensures Flatten(a + b) == Flatten(a) + Flatten(b)
  {
    if b == [] {
      assert a + b == a;
    } else {
      var b', last := b[..|b| - 1], b[|b| - 1];
      assert b' + [last] == b && (a + b') + [last] == a + b;
      FlattenJoin(a, b');
      FlattenLast(a + b', last);
      FlattenLast(b', last);
      AppendAssociates(Flatten(a), Flatten(b'), last);
    }
  }

  /** Cutting a byte area into items and laying the items out again gives the area back. */
  lemma {:induction false} FlattenItems(bytes: seq<byte>, itemSz: nat, n: nat)
    requires Offset(itemSz, n) <= |bytes|
    ensures Flatten(Items(bytes, itemSz, n)) == bytes[..Offset(itemSz, n)]
  {
    if n > 0 {
      hide Flatten;
      FlattenItems(bytes, itemSz, n - 1);
      FlattenLast(Items(bytes, itemSz, n - 1), ItemAt(bytes, itemSz, n - 1));
      TakeMore(bytes, Offset(itemSz, n - 1), Offset(itemSz, n));
    }
  }

  lemma TakeMore(bytes: seq<byte>, lo: nat, hi: nat)
    requires lo <= hi <= |bytes|
    ensures bytes[..lo] + bytes[lo..hi] == bytes[..hi]
  {
  }

  // ---------- repeated removal ----------

  /** n calls of RingBuffer_Pop, and the items they deliver. */
  ghost function PopEach(r: Ring, n: nat): (res: (Ring, seq<Item>))
    requires Valid(r)
    ensures Valid(res.0) && SameGeometry(r, res.0)
    ensures res.0.bytes == r.bytes && res.0.head == r.head
  {
    if n == 0 then (r, [])
    else
      var (r1, xs) := PopEach(r, n - 1);
      PopIsDequeue(r1);
      var (r2, x) := Pop(r1);
      (r2, if x.Some? then xs + [x.value] else xs)
  }

  lemma DequeueOneMore(q: seq<Item>, n: nat)
    ensures var m, m' := Min(|q|, n), Min(|q|, n + 1);
      if q[m..] == [] then m' == m
      else m' == m + 1 && q[..m] + [q[m..][0]] == q[..m'] && q[m..][1..] == q[m'..]
  {
  }

  /** n pops deliver the oldest items, in order, as many as there are. */
  lemma {:induction false} PopEachIsDequeue(r: Ring, n: nat)
    requires Valid(r)
    ensures var q, m := Contents(r), Min(|Contents(r)|, n);
      && PopEach(r, n).1 == q[..m]
      && Contents(PopEach(r, n).0) == q[m..]
  {
    if n > 0 {
      PopEachIsDequeue(r, n - 1);
      PopIsDequeue(PopEach(r, n - 1).0);
      DequeueOneMore(Contents(r), n - 1);
    }
  }

  /** The tail moves by the number of items delivered and nothing else changes. */
  lemma {:induction false} PopEachMovesTail(r: Ring, n: nat)
    requires Valid(r)
    ensures PopEach(r, n).0 == r.(tail := U32(r.tail + |PopEach(r, n).1|))
  {
    hide GoodCount, IndexOf;
    if n > 0 {
      PopEachMovesTail(r, n - 1);
      WrapAdd(r.tail + |PopEach(r, n - 1).1|, 1);
    }
  }

  lemma {:induction false} ItemsPrefix(bytes: seq<byte>, itemSz: nat, n: nat, num: nat)
    requires n <= num && Offset(itemSz, num) <= |bytes|
    ensures Offset(itemSz, n) <= |bytes|
    ensures Items(bytes, itemSz, num)[..n] == Items(bytes, itemSz, n)
    decreases num
  {
    if n < num {
      ItemsPrefix(bytes, itemSz, n, num - 1);
      assert Items(bytes, itemSz, num)[..n] == Items(bytes, itemSz, num - 1)[..n];
    }
  }

  /** Round trip: popping as many items as were queued and accepted delivers the queue,
      followed by the accepted part of the batch. */
  lemma ItemsComeBack(r: Ring, items: seq<Item>)
    requires Valid(r) && Sized(items, r.itemSz)
    ensures var (r1, n) := InsertRange(r, items, 0, |items|);
      && n == Accepted(|Contents(r)|, r.count, |items|) >= 0
      && PopEach(r1, |Contents(r)| + n).1 == Contents(r) + items[..n]
  {
    hide GoodCount, InsertRange, PopEach, Contents, Sized, Used, Offset, Fits;
    var (r1, n) := InsertRange(r, items, 0, |items|);
    InsertRangeIsEnqueue(r, items, 0, |items|);
    PopAll(r1, |Contents(r)| + n);
  }

  lemma PopAll(r: Ring, n: nat)
    requires Valid(r) && n == |Contents(r)|
    ensures PopEach(r, n).1 == Contents(r)
  {
    PopEachIsDequeue(r, n);
    assert Contents(r)[..n] == Contents(r);
  }

  lemma ItemsAreSized(bytes: seq<byte>, itemSz: nat, n: nat)
    requires Offset(itemSz, n) <= |bytes|
    ensures Sized(Items(bytes, itemSz, n), itemSz)
  {
  }

  lemma AcceptedBytes(data: seq<byte>, itemSz: nat, n: nat, num: nat)
    requires n <= num && Offset(itemSz, num) <= |data|
    ensures Offset(itemSz, n) <= |data|
    ensures Flatten(Items(data, itemSz, num)[..n]) == data[..Offset(itemSz, n)]
  {
    hide Flatten, Offset;
    ItemsPrefix(data, itemSz, n, num);
    FlattenItems(data, itemSz, n);
  }

  lemma FlattenBoth(popped: seq<Item>, queue: seq<Item>, part: seq<Item>, bytes: seq<byte>)
    requires popped == queue + part && Flatten(part) == bytes
    ensures Flatten(popped) == Flatten(queue) + bytes
  {
    FlattenJoin(queue, part);
  }

  /** The same in bytes: what a bulk insertion accepted comes out again behind the items
      queued before, byte for byte. */
  lemma BytesComeBack(r: Ring, data: seq<byte>, num: nat)
    requires Valid(r) && Offset(r.itemSz, num) <= |data|
    ensures var (r1, n) := InsertRange(r, Items(data, r.itemSz, num), 0, num);
      && n == Accepted(|Contents(r)|, r.count, num) >= 0 && Offset(r.itemSz, n) <= |data|
      && Flatten(PopEach(r1, |Contents(r)| + n).1) == Flatten(Contents(r)) + data[..Offset(r.itemSz, n)]
  {
    hide *;
    ContentsFit(r);
    ItemsAreSized(data, r.itemSz, num);
    var items := Items(data, r.itemSz, num);
    var (r1, n) := InsertRange(r, items, 0, num);
    ItemsComeBack(r, items);
    AcceptedBytes(data, r.itemSz, n, num);
    FlattenBoth(PopEach(r1, |Contents(r)| + n).1, Contents(r), items[..n], data[..Offset(r.itemSz, n)]);
  }

  lemma QueuedAt(r: Ring, i: nat, k: nat)
    requires Valid(r)
    requires 0 < r.count && IndexOf(r.count, U32(r.tail + i)) == k
    requires Offset(r.itemSz, k) + r.itemSz <= |r.bytes|
    ensures Queued(r, i) == r.bytes[Offset(r.itemSz, k)..Offset(r.itemSz, k) + r.itemSz]
  {
  }

  lemma SegmentItem(r: Ring, slot: nat, i: nat)
    requires Valid(r)
    requires 0 < r.count && slot == IndexOf(r.count, r.tail) && slot + i < r.count
    ensures Offset(r.itemSz, slot + i) + r.itemSz <= |r.bytes|
    ensures Queued(r, i) == r.bytes[Offset(r.itemSz, slot + i)..Offset(r.itemSz, slot + i) + r.itemSz]
  {
    SlotBounds(r.itemSz, r.count, slot + i);
    NoWrapIndex(r.count, r.tail, i);
    QueuedAt(r, i, slot + i);
  }

  lemma SegmentBytesStep(bytes: seq<byte>, items: seq<Item>, last: Item, off: nat, a: nat, b: nat)
    requires off <= a <= b <= |bytes|
    requires bytes[off..a] == Flatten(items) && bytes[a..b] == last
    ensures bytes[off..b] == Flatten(items + [last])
  {
    FlattenLast(items, last);
  }

  /** The bytes of n consecutive slots from the tail on are the first n queued items. */
  lemma {:induction false} SegmentIsQueue(r: Ring, slot: nat, n: nat)
    requires Valid(r)
    requires 0 < r.count && slot == IndexOf(r.count, r.tail) && slot + n <= r.count
    requires n <= |Contents(r)|
    ensures Offset(r.itemSz, slot) <= Offset(r.itemSz, slot + n) <= |r.bytes|
    ensures r.bytes[Offset(r.itemSz, slot)..Offset(r.itemSz, slot + n)] == Flatten(Contents(r)[..n])
  {
    hide GoodCount, Used;
    if n == 0 {
      OffsetMonotone(r.itemSz, slot, r.count);
    } else {
      var m := n - 1;
      SegmentIsQueue(r, slot, m);
      SegmentItem(r, slot, m);
      SegmentBytesStep(r.bytes, Contents(r)[..m], Queued(r, m),
                       Offset(r.itemSz, slot), Offset(r.itemSz, slot + m), Offset(r.itemSz, slot + n));
      assert Contents(r)[..n] == Contents(r)[..m] + [Queued(r, m)];
    }
  }

  // ---------- whole runs against a bounded FIFO ----------

  datatype Op = OpInsert(item: Item) | OpInsertMult(items: seq<Item>) | OpPop | OpPopMult(num: nat) | OpFlush

  /** What a call shows its caller: the return value and the items copied out. */
  datatype Reply = Reply(ret: int, items: seq<Item>)

  /** RingBuffer_Flush. */
  function Flush(r: Ring): Ring { r.(head := 0, tail := 0) }

  ghost predicate SizedOp(op: Op, itemSz: nat)
  {
    match op
    case OpInsert(item) => |item| == itemSz
    case OpInsertMult(items) => Sized(items, itemSz)
    case _ => true
  }

  ghost function RingStep(r: Ring, op: Op): (res: (Ring, Reply))
    requires Valid(r) && SizedOp(op, r.itemSz)
    ensures Valid(res.0) && SameGeometry(r, res.0)
  {
    match op
    case OpInsert(item) =>
      InsertIsEnqueue(r, item);
      var (r', n) := Insert(r, item); (r', Reply(n, []))
    case OpInsertMult(items) =>
      var (r', n) := InsertRange(r, items, 0, |items|); (r', Reply(n, []))
    case OpPop =>
      PopIsDequeue(r);
      var (r', x) := Pop(r);
      (r', if x.Some? then Reply(1, [x.value]) else Reply(0, []))
    case OpPopMult(num) =>
      var (r', xs) := PopEach(r, num); (r', Reply(|xs|, xs))
    case OpFlush => (Flush(r), Reply(0, []))
  }

  /** The same calls on a queue that holds at most capacity items. */
  function FifoStep(q: seq<Item>, capacity: nat, op: Op): (res: (seq<Item>, Reply))
    requires |q| <= capacity
    ensures |res.0| <= capacity
  {
    match op
    case OpInsert(item) => if |q| < capacity then (q + [item], Reply(1, [])) else (q, Reply(0, []))
    case OpInsertMult(items) =>
      var n := Accepted(|q|, capacity, |items|);
      (q + items[..n], Reply(n, []))
    case OpPop => if q == [] then (q, Reply(0, [])) else (q[1..], Reply(1, [q[0]]))
    case OpPopMult(num) =>
      var m := Min(|q|, num);
      (q[m..], Reply(m, q[..m]))
    case OpFlush => ([], Reply(0, []))
  }

  ghost predicate SizedOps(ops: seq<Op>, itemSz: nat)
  {
    forall i :: 0 <= i < |ops| ==> SizedOp(ops[i], itemSz)
  }

  ghost function RingRun(r: Ring, ops: seq<Op>): (res: (Ring, seq<Reply>))
    requires Valid(r) && SizedOps(ops, r.itemSz)
    decreases |ops|
  {
    if ops == [] then (r, [])
    else
      var (r1, reply) := RingStep(r, ops[0]);
      var (r2, replies) := RingRun(r1, ops[1..]);
      (r2, [reply] + replies)
  }

  function FifoRun(q: seq<Item>, capacity: nat, ops: seq<Op>): (res: (seq<Item>, seq<Reply>))
    requires |q| <= capacity
    decreases |ops|
  {
    if ops == [] then (q, [])
    else
      var (q1, reply) := FifoStep(q, capacity, ops[0]);
      var (q2, replies) := FifoRun(q1, capacity, ops[1..]);
      (q2, [reply] + replies)
  }

  lemma StepIsFifo(r: Ring, op: Op)
    requires Valid(r) && SizedOp(op, r.itemSz)
    ensures (Contents(RingStep(r, op).0), RingStep(r, op).1) == FifoStep(Contents(r), r.count, op)
  {
    match op {
      case OpInsert(item) => InsertIsEnqueue(r, item);
      case OpInsertMult(items) => InsertRangeIsEnqueue(r, items, 0, |items|);
      case OpPop => PopStepIsFifo(r);
      case OpPopMult(num) => PopEachIsDequeue(r, num);
      case OpFlush =>
    }
  }

  lemma PopStepIsFifo(r: Ring)
    requires Valid(r)
    ensures (Contents(RingStep(r, OpPop).0), RingStep(r, OpPop).1) == FifoStep(Contents(r), r.count, OpPop)
  {
    PopIsDequeue(r);
  }

  /** Refinement: from any state, wrapped counters included, every sequence of calls gets
      exactly the replies of a bounded FIFO and leaves the FIFO's queue. */
  lemma {:induction false} RunIsFifo(r: Ring, ops: seq<Op>)
    requires Valid(r) && SizedOps(ops, r.itemSz)
    ensures var (r', replies) := RingRun(r, ops);
      && Valid(r')
      && (Contents(r'), replies) == FifoRun(Contents(r), r.count, ops)
    decreases |ops|
  {
    if ops != [] {
      StepIsFifo(r, ops[0]);
      RunIsFifo(RingStep(r, ops[0]).0, ops[1..]);
    }
  }
}
