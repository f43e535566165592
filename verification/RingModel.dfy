/** The ring buffer on values: the state of a RINGBUFF_T together with the bytes it points
    to, the single-item operations, and the queue that they implement.

    `head` and `tail` are the free-running 32-bit counters of the C structure: they wrap at
    2^32 and only their low bits, selected by the mask `count - 1`, address a slot. */
module RingModel {
  import opened Bits

  type Item = seq<byte>

  datatype Ring = Ring(bytes: seq<byte>, count: nat, itemSz: nat, head: nat, tail: nat)

  datatype Option<+T> = None | Some(value: T)

  // ---------- layout ----------

  /** The counts that RingBuffer_Init documents: powers of two, at least 2, that fit an int. */
  ghost predicate GoodCount(count: nat)
  {
    exists k: nat :: 1 <= k <= 30 && count == Pow2(k)
  }

  /** Byte offset of item k in an area of itemSz-byte items: k * itemSz, added up so that
      the proofs about neighbouring items stay linear (see OffsetIsProduct). */
  function Offset(itemSz: nat, k: nat): nat
  {
    if k == 0 then 0 else Offset(itemSz, k - 1) + itemSz
  }

  function IndexOf(count: nat, counter: nat): nat
    requires 0 < count
  {
    And(counter, count - 1)
  }

  function Used(head: nat, tail: nat): nat { U32(head - tail) }

  ghost predicate Fits(bytes: seq<byte>, count: nat, itemSz: nat)
  {
    && GoodCount(count)
    && 0 < itemSz
    && Offset(itemSz, count) <= |bytes| < 0x8000_0000
  }

  ghost predicate Valid(r: Ring)
  {
    && Fits(r.bytes, r.count, r.itemSz)
    && r.head < TWO_TO_32
    && r.tail < TWO_TO_32
    && Used(r.head, r.tail) <= r.count
  }

  // ---------- counters and slots ----------

  lemma CountBounds(count: nat)
    requires GoodCount(count)
    ensures 2 <= count <= 0x4000_0000
  {
    var k: nat :| 1 <= k <= 30 && count == Pow2(k);
    Pow2Of32();
    Pow2Monotone(1, k);
    Pow2Monotone(k, 30);
  }

  /** The mask selects the remainder modulo count, and the 32-bit wrap of the counter does
      not disturb it because count divides 2^32. */
  lemma IndexIsMod(count: nat, x: int)
    requires GoodCount(count)
    ensures 0 < count
    ensures IndexOf(count, U32(x)) == x % count < count
  {
    var k: nat :| 1 <= k <= 30 && count == Pow2(k);
    MaskIsMod(U32(x), k);
    WrapTransparent(x, k);
  }

  lemma IndexIsRemainder(count: nat, counter: nat)
    requires GoodCount(count)
    ensures 0 < count && IndexOf(count, counter) == counter % count < count
  {
    var k: nat :| 1 <= k <= 30 && count == Pow2(k);
    MaskIsMod(counter, k);
  }

  lemma IndexBound(count: nat, counter: nat)
    requires GoodCount(count)
    ensures 0 < count && IndexOf(count, counter) < count
  {
    IndexIsRemainder(count, counter);
  }

  /** Fewer than count steps never lead back to the same slot. */
  lemma SlotsDiffer(count: nat, x: nat, y: nat)
    requires GoodCount(count)
    requires x < y < x + count
    ensures 0 < count && IndexOf(count, U32(x)) != IndexOf(count, U32(y))
  {
    IndexIsMod(count, x);
    IndexIsMod(count, y);
    ModDiffers(x, y - x, count);
  }

  /** Without reaching the end of the buffer, slots are consecutive. */
  lemma NoWrapIndex(count: nat, counter: nat, i: nat)
    requires GoodCount(count)
    requires 0 < count && IndexOf(count, counter) + i < count
    ensures IndexOf(count, U32(counter + i)) == IndexOf(count, counter) + i
  {
    IndexIsRemainder(count, counter);
    ModAddSmall(counter, i, count);
    IndexIsMod(count, counter + i);
  }

  /** Behind the last slot comes slot 0. */
  lemma WrapIndex(count: nat, counter: nat)
    requires GoodCount(count)
    ensures 0 < count && IndexOf(count, counter) < count
    ensures IndexOf(count, U32(counter + (count - IndexOf(count, counter)))) == 0
  {
    IndexIsRemainder(count, counter);
    ModFill(counter, count);
    IndexIsMod(count, counter + (count - IndexOf(count, counter)));
  }

  lemma UsedIs(head: nat, tail: nat)
    requires head < TWO_TO_32 && tail < TWO_TO_32
    ensures Used(head, tail) == if tail <= head then head - tail else head - tail + TWO_TO_32
    ensures U32(tail + Used(head, tail)) == head
  {
  }

  lemma NextCounter(c: nat)
    requires c < TWO_TO_32
    ensures U32(c + 1) == if c + 1 == TWO_TO_32 then 0 else c + 1
  {
  }

  /** Advancing one counter by one changes the number of queued items by one. */
  lemma UsedSteps(head: nat, tail: nat)
    requires head < TWO_TO_32 && tail < TWO_TO_32
    ensures Used(head, tail) == 0 <==> head == tail
    ensures Used(head, tail) + 1 < TWO_TO_32 ==> Used(U32(head + 1), tail) == Used(head, tail) + 1
    ensures head != tail ==> Used(head, U32(tail + 1)) == Used(head, tail) - 1
  {
    UsedIs(head, tail);
    NextCounter(head);
    NextCounter(tail);
    UsedIs(U32(head + 1), tail);
    UsedIs(head, U32(tail + 1));
  }

  /** The wrapped counters agree with unbounded totals: with H items ever inserted and T
      items ever popped, at most count apart, the indices, the count and the full and empty
      tests computed from the 32-bit counters are those of H and T. */
  lemma CountersAgree(count: nat, H: nat, T: nat)
    requires GoodCount(count)
    requires 0 <= H - T <= count
    ensures 0 < count
    ensures IndexOf(count, U32(H)) == H % count && IndexOf(count, U32(T)) == T % count
    ensures Used(U32(H), U32(T)) == H - T
    ensures U32(H) == U32(T) <==> H == T
  {
    CountBounds(count);
    IndexIsMod(count, H);
    IndexIsMod(count, T);
    WrapDifference(H, T);
  }

  // ---------- segments ----------

  /** The lengths of the two copies of a bulk operation that starts at slot ind, may touch
      avail slots and was asked for num items: up to the end of the buffer, then the rest
      from slot 0 on. */
  function Segments(count: nat, ind: nat, avail: nat, num: nat): (cnt: (nat, nat))
    requires ind < count && avail <= count
    ensures cnt.0 + cnt.1 == Min(avail, num)
    ensures ind + cnt.0 <= count
    ensures 0 < cnt.1 ==> cnt.0 == count - ind && cnt.1 <= ind
  {
    var cnt1 := Min(Min(avail, count - ind), num);
    (cnt1, Min(avail, num) - cnt1)
  }

  // ---------- items in a byte area ----------

  lemma OffsetMonotone(itemSz: nat, j: nat, k: nat)
    requires j <= k
    ensures Offset(itemSz, j) <= Offset(itemSz, k)
  {
    if j < k {
      OffsetMonotone(itemSz, j, k - 1);
    }
  }

  lemma OffsetAdd(itemSz: nat, j: nat, k: nat)
    ensures Offset(itemSz, j + k) == Offset(itemSz, j) + Offset(itemSz, k)
  {
    if k > 0 {
      OffsetAdd(itemSz, j, k - 1);
    }
  }

  lemma {:induction false} OffsetIsProduct(itemSz: nat, k: nat)
    ensures Offset(itemSz, k) == k * itemSz
  {
    if k > 0 {
      OffsetIsProduct(itemSz, k - 1);
      assert k * itemSz == (k - 1) * itemSz + itemSz;
    }
  }

  /** Item k of a byte area cut into items of itemSz bytes. */
  function ItemAt(bytes: seq<byte>, itemSz: nat, k: nat): (item: Item)
    requires Offset(itemSz, k) + itemSz <= |bytes|
    ensures |item| == itemSz
  {
    bytes[Offset(itemSz, k)..Offset(itemSz, k) + itemSz]
  }

  /** The first n items of a byte area. */
  function Items(bytes: seq<byte>, itemSz: nat, n: nat): (items: seq<Item>)
    requires Offset(itemSz, n) <= |bytes|
    ensures |items| == n
    ensures forall i :: 0 <= i < n ==> |items[i]| == itemSz
  {
    if n == 0 then [] else Items(bytes, itemSz, n - 1) + [ItemAt(bytes, itemSz, n - 1)]
  }

  /** What memcpy leaves behind when it copies src to offset off. */
  function Blit(bytes: seq<byte>, off: nat, src: seq<byte>): (r: seq<byte>)
    requires off + |src| <= |bytes|
    ensures |r| == |bytes|
    ensures forall i :: 0 <= i < |bytes| ==>
      r[i] == if off <= i < off + |src| then src[i - off] else bytes[i]
  {
    bytes[..off] + src + bytes[off + |src|..]
  }

  lemma BlitRange(bytes: seq<byte>, off: nat, src: seq<byte>, at: nat)
    requires off + |src| <= |bytes| && at + |src| <= |bytes|
    requires at + |src| <= off || off + |src| <= at || at == off
    ensures Blit(bytes, off, src)[at..at + |src|] == if at == off then src else bytes[at..at + |src|]
  {
  }

  lemma SlotBounds(itemSz: nat, count: nat, k: nat)
    requires k < count
    ensures Offset(itemSz, k) + itemSz <= Offset(itemSz, count)
  {
    OffsetMonotone(itemSz, k + 1, count);
  }

  /** Copying an item into a slot changes that slot only. */
  lemma BlitSlot(bytes: seq<byte>, itemSz: nat, slot: nat, item: Item, k: nat)
    requires |item| == itemSz && 0 < itemSz
    requires Offset(itemSz, slot) + itemSz <= |bytes| && Offset(itemSz, k) + itemSz <= |bytes|
    ensures ItemAt(Blit(bytes, Offset(itemSz, slot), item), itemSz, k)
         == if k == slot then item else ItemAt(bytes, itemSz, k)
  {
    if k < slot {
      SlotBounds(itemSz, slot, k);
    } else if k > slot {
      SlotBounds(itemSz, k, slot);
    }
    BlitRange(bytes, Offset(itemSz, slot), item, Offset(itemSz, k));
  }

  // ---------- the queue held by a ring ----------

  lemma SlotInArea(bytes: seq<byte>, count: nat, itemSz: nat, counter: nat)
    requires Fits(bytes, count, itemSz)
    ensures 0 < count && IndexOf(count, counter) < count
    ensures Offset(itemSz, IndexOf(count, counter)) + itemSz <= Offset(itemSz, count) <= |bytes|
  {
    IndexBound(count, counter);
    SlotBounds(itemSz, count, IndexOf(count, counter));
  }

  /** The bytes of the slot that a counter value selects. */
  ghost function SlotItem(r: Ring, counter: nat): (item: Item)
    requires Fits(r.bytes, r.count, r.itemSz)
    ensures |item| == r.itemSz
  {
    SlotInArea(r.bytes, r.count, r.itemSz, counter);
    ItemAt(r.bytes, r.itemSz, IndexOf(r.count, counter))
  }

  /** The item that will be popped after i others. */
  ghost function Queued(r: Ring, i: nat): (item: Item)
    requires Fits(r.bytes, r.count, r.itemSz)
    ensures |item| == r.itemSz
  {
    SlotItem(r, U32(r.tail + i))
  }

  /** The queue of items, oldest first. */
  ghost function Contents(r: Ring): (q: seq<Item>)
    requires Valid(r)
    ensures |q| == Used(r.head, r.tail)
    ensures forall i :: 0 <= i < |q| ==> |q[i]| == r.itemSz
  {
    seq(Used(r.head, r.tail), i requires 0 <= i => Queued(r, i))
  }

  function Free(r: Ring): int { r.count - Used(r.head, r.tail) }

  // ---------- single-item operations ----------

  /** RingBuffer_Insert: the new state and the return value. */
  ghost function Insert(r: Ring, item: Item): (res: (Ring, int))
    requires Valid(r) && |item| == r.itemSz
  {
    if Used(r.head, r.tail) >= r.count then (r, 0)
    else
      SlotInArea(r.bytes, r.count, r.itemSz, r.head);
      var slot := IndexOf(r.count, r.head);
      (r.(bytes := Blit(r.bytes, Offset(r.itemSz, slot), item), head := U32(r.head + 1)), 1)
  }

  /** RingBuffer_Pop: the new state and the item copied out, if any. */
  ghost function Pop(r: Ring): (res: (Ring, Option<Item>))
    requires Valid(r)
  {
    if r.head == r.tail then (r, None)
    else (r.(tail := U32(r.tail + 1)), Some(SlotItem(r, r.tail)))
  }

  /** An insertion overwrites the slot selected by the head and no other. */
  lemma SlotAfterInsert(r: Ring, item: Item, counter: nat)
    requires Valid(r) && |item| == r.itemSz
    requires Used(r.head, r.tail) < r.count
    ensures var r' := Insert(r, item).0;
      && Fits(r'.bytes, r'.count, r'.itemSz) && (r'.tail, r'.itemSz) == (r.tail, r.itemSz)
      && 0 < r.count
      && SlotItem(r', counter)
         == if IndexOf(r.count, counter) == IndexOf(r.count, r.head) then item else SlotItem(r, counter)
  {
    SlotInArea(r.bytes, r.count, r.itemSz, r.head);
    SlotInArea(r.bytes, r.count, r.itemSz, counter);
    BlitSlot(r.bytes, r.itemSz, IndexOf(r.count, r.head), item, IndexOf(r.count, counter));
  }

  /** In bytes: an insertion writes to the slot selected by the head and nowhere else. */
  lemma InsertWritesOneSlot(r: Ring, item: Item, k: nat)
    requires Valid(r) && |item| == r.itemSz && k < |r.bytes|
    ensures 0 < r.count && |Insert(r, item).0.bytes| == |r.bytes|
    ensures var at := Offset(r.itemSz, IndexOf(r.count, r.head));
      Insert(r, item).0.bytes[k] != r.bytes[k]
      ==> at <= k < at + r.itemSz <= Offset(r.itemSz, r.count)
  {
    SlotInArea(r.bytes, r.count, r.itemSz, r.head);
  }

  /** What an insertion does to the item at queue position i. */
  lemma QueuedAfterInsert(r: Ring, item: Item, i: nat)
    requires Valid(r) && |item| == r.itemSz
    requires i <= Used(r.head, r.tail) < r.count
    ensures var r' := Insert(r, item).0;
      && Fits(r'.bytes, r'.count, r'.itemSz)
      && Queued(r', i) == if i == Used(r.head, r.tail) then item else Queued(r, i)
  {
    hide GoodCount, IndexOf, Insert, SlotItem, U32;
    SlotAfterInsert(r, item, U32(r.tail + i));
    HeadSlotOnly(r.count, r.head, r.tail, i);
  }

  /** Among the queue positions up to the head, only the head itself selects its slot. */
  lemma HeadSlotOnly(count: nat, head: nat, tail: nat, i: nat)
    requires GoodCount(count) && head < TWO_TO_32 && tail < TWO_TO_32
    requires i <= Used(head, tail) < count
    ensures 0 < count
    ensures IndexOf(count, U32(tail + i)) == IndexOf(count, head) <==> i == Used(head, tail)
  {
    var n := Used(head, tail);
    assert U32(tail + n) == head by {
      UsedIs(head, tail);
    }
    if i < n {
      SlotsDiffer(count, tail + i, tail + n);
    }
  }

  lemma HeadAdvance(r: Ring, bytes: seq<byte>)
    requires Valid(r) && |bytes| == |r.bytes| && Used(r.head, r.tail) < r.count
    ensures var r' := r.(bytes := bytes, head := U32(r.head + 1));
      Valid(r') && Used(r'.head, r'.tail) == Used(r.head, r.tail) + 1
  {
    CountBounds(r.count);
    UsedSteps(r.head, r.tail);
  }

  /** Insert appends to the queue when there is room and otherwise refuses; the buffer
      geometry and the consumer's index never change. */
  lemma {:induction false} InsertIsEnqueue(r: Ring, item: Item)
    requires Valid(r) && |item| == r.itemSz
    ensures var (r', n) := Insert(r, item);
      && Valid(r')
      && (r'.count, r'.itemSz, r'.tail, |r'.bytes|) == (r.count, r.itemSz, r.tail, |r.bytes|)
      && (if |Contents(r)| < r.count
          then n == 1 && Contents(r') == Contents(r) + [item]
          else n == 0 && r' == r)
  {
    if Used(r.head, r.tail) < r.count {
      var r' := Insert(r, item).0;
      HeadAdvance(r, r'.bytes);
      forall i: nat | i < |Contents(r')|
        ensures Contents(r')[i] == (Contents(r) + [item])[i]
      {
        QueuedAfterInsert(r, item, i);
      }
      assert Contents(r') == Contents(r) + [item];
    }
  }

  /** Advancing the tail shifts the queue by one position. */
  lemma QueuedAfterPop(r: Ring, i: nat)
    requires Valid(r)
    ensures Queued(r.(tail := U32(r.tail + 1)), i) == Queued(r, i + 1)
  {
    WrapAdd(r.tail + 1, i);
  }

  lemma TailAdvance(r: Ring)
    requires Valid(r) && r.head != r.tail
    ensures var r' := r.(tail := U32(r.tail + 1));
      Valid(r') && Used(r'.head, r'.tail) == Used(r.head, r.tail) - 1
  {
    UsedSteps(r.head, r.tail);
  }

  lemma ContentsAfterPop(r: Ring, r': Ring)
    requires Valid(r) && Valid(r') && r' == r.(tail := U32(r.tail + 1))
    requires Used(r'.head, r'.tail) == Used(r.head, r.tail) - 1
    ensures Contents(r') == Contents(r)[1..]
  {
    forall i: nat | i < |Contents(r')|
      ensures Contents(r')[i] == Contents(r)[1..][i]
    {
      QueuedAfterPop(r, i);
    }
  }

  /** Pop removes the oldest item, or reports the empty queue; the bytes never change. */
  lemma {:induction false} PopIsDequeue(r: Ring)
    requires Valid(r)
    ensures var (r', x) := Pop(r);
      && Valid(r')
      && (r'.count, r'.itemSz, r'.head, r'.bytes) == (r.count, r.itemSz, r.head, r.bytes)
      && (if Contents(r) == []
          then x == None && r' == r
          else x == Some(Contents(r)[0]) && Contents(r') == Contents(r)[1..])
  {
    hide GoodCount, IndexOf;
    UsedSteps(r.head, r.tail);
    if r.head != r.tail {
      TailAdvance(r);
      ContentsAfterPop(r, Pop(r).0);
      assert Contents(r)[0] == Queued(r, 0);
      assert U32(r.tail + 0) == r.tail;
    }
  }
}
