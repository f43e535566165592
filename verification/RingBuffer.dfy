/** The C ring buffer: a structure over a byte buffer that is overwritten in place.

    Every method is tied to RingModel and RingBatch: its `ensures` gives the complete new
    state, bytes and both counters, as a function of the old one. */
module RingBuffers {
  import opened Bits
  import opened RingModel
  import opened RingBatch

  /** memcpy between two distinct arrays. */
  method MemCpy(dst: array<byte>, dstOff: nat, src: array<byte>, srcOff: nat, n: nat)
    requires dst != src
    requires dstOff + n <= dst.Length && srcOff + n <= src.Length
    modifies dst
    ensures dst[..] == Blit(old(dst[..]), dstOff, src[srcOff..srcOff + n])
  {
    for i := 0 to n
      invariant forall k :: 0 <= k < dst.Length ==>
        dst[k] == if dstOff <= k < dstOff + i then src[srcOff + k - dstOff] else old(dst[k])
    {
      dst[dstOff + i] := src[srcOff + i];
    }
  }

  /** The segment lengths of a bulk operation, as the C code computes them. */
  method SegmentLengths(count: nat, ind: nat, avail: nat, num: nat) returns (cnt1: nat, cnt2: nat)
    requires ind < count <= 0x4000_0000 && avail <= count
    ensures (cnt1, cnt2) == Segments(count, ind, avail, num)
  {
    var rest := num;
    cnt1, cnt2 := avail, avail;
    if U32(ind + cnt1) >= count {
      cnt1 := count - ind;
    }
    cnt2 := cnt2 - cnt1;

    cnt1 := Min(cnt1, rest);
    rest := rest - cnt1;

    cnt2 := Min(cnt2, rest);
    rest := rest - cnt2;
  }

  /** A second segment that is not empty starts at slot 0; in any case it stays inside the
      buffer. */
  lemma SecondSegment(count: nat, counter: nat, cnt1: nat, cnt2: nat)
    requires GoodCount(count)
    requires 0 < count && cnt2 <= count
    requires 0 < cnt2 ==> cnt1 == count - IndexOf(count, counter)
    ensures 0 < cnt2 ==> IndexOf(count, U32(counter + cnt1)) == 0
    ensures IndexOf(count, U32(counter + cnt1)) + cnt2 <= count
  {
    if 0 < cnt2 {
      WrapIndex(count, counter);
    } else {
      IndexBound(count, U32(counter + cnt1));
    }
  }

  lemma ByteOffsetIs(r: Ring, counter: nat)
    requires Valid(r)
    ensures 0 < r.count && IndexOf(r.count, counter) < r.count
    ensures U32(IndexOf(r.count, counter) * r.itemSz) == Offset(r.itemSz, IndexOf(r.count, counter))
  {
    SlotInArea(r.bytes, r.count, r.itemSz, counter);
    OffsetIsProduct(r.itemSz, IndexOf(r.count, counter));
  }

  lemma FirstSegment(r: Ring, data: seq<byte>, items: seq<Item>, cnt1: nat, cnt2: nat)
    requires Valid(r) && Contiguous(r, cnt1) && cnt1 + cnt2 <= Free(r)
    requires cnt1 + cnt2 <= |items| && Offset(r.itemSz, |items|) <= |data|
    requires items == Items(data, r.itemSz, |items|)
    ensures Offset(r.itemSz, cnt1) <= |data|
    ensures var r1 := CopyIn(r, data, 0, cnt1);
      && InsertRange(r, items, 0, cnt1) == (r1, cnt1)
      && Valid(r1) && cnt2 <= Free(r1)
  {
    SegmentIsInserts(r, data, items, 0, cnt1);
    InsertRangeIsEnqueue(r, items, 0, cnt1);
  }

  lemma SecondCopy(r: Ring, r1: Ring, data: seq<byte>, items: seq<Item>, cnt1: nat, cnt2: nat)
    requires Valid(r) && Valid(r1) && r1.itemSz == r.itemSz && Contiguous(r1, cnt2) && cnt2 <= Free(r1)
    requires cnt1 + cnt2 <= |items| && Offset(r.itemSz, |items|) <= |data|
    requires items == Items(data, r.itemSz, |items|)
    requires InsertRange(r, items, 0, cnt1) == (r1, cnt1)
    ensures Offset(r.itemSz, cnt1 + cnt2) <= |data|
    ensures InsertRange(r, items, 0, cnt1 + cnt2) == (CopyIn(r1, data, cnt1, cnt2), cnt1 + cnt2)
  {
    SegmentIsInserts(r1, data, items, cnt1, cnt2);
    JoinRanges(r, items, 0, cnt1, cnt1 + cnt2, r1, cnt1, CopyIn(r1, data, cnt1, cnt2), cnt2);
  }

  /** The two copies of a bulk insertion stay inside the buffer and the source. */
  ghost predicate CopyPlan(r: Ring, data: seq<byte>, cnt1: nat, cnt2: nat)
  {
    && Valid(r) && Contiguous(r, cnt1)
    && Offset(r.itemSz, cnt1) <= |data| && Offset(r.itemSz, cnt1 + cnt2) <= |data|
    && Valid(CopyIn(r, data, 0, cnt1)) && Contiguous(CopyIn(r, data, 0, cnt1), cnt2)
  }

  ghost function CopyBoth(r: Ring, data: seq<byte>, cnt1: nat, cnt2: nat): Ring
    requires CopyPlan(r, data, cnt1, cnt2)
  {
    CopyIn(CopyIn(r, data, 0, cnt1), data, cnt1, cnt2)
  }

  /** The two copies and two head updates of the bulk insertion are n single insertions. */
  lemma TwoSegmentsAreInserts(r: Ring, data: seq<byte>, items: seq<Item>, cnt1: nat, cnt2: nat)
    requires Valid(r) && Contiguous(r, cnt1) && cnt1 + cnt2 <= Free(r)
    requires cnt1 + cnt2 <= |items| && Offset(r.itemSz, |items|) <= |data|
    requires items == Items(data, r.itemSz, |items|)
    requires 0 < cnt2 ==> cnt1 == r.count - IndexOf(r.count, r.head)
    ensures CopyPlan(r, data, cnt1, cnt2)
    ensures InsertRange(r, items, 0, cnt1 + cnt2) == (CopyBoth(r, data, cnt1, cnt2), cnt1 + cnt2)
  {
    hide InsertRange, U32, GoodCount, Items, Offset, Chunk, Blit;
    SecondSegment(r.count, r.head, cnt1, cnt2);
    FirstSegment(r, data, items, cnt1, cnt2);
    SecondCopy(r, CopyIn(r, data, 0, cnt1), data, items, cnt1, cnt2);
  }

  /** A batch that fits is appended to the queue as a whole. */
  lemma InsertedInFull(r: Ring, batch: seq<Item>, n: nat)
    requires Valid(r) && Sized(batch, r.itemSz) && n <= |batch| && n <= Free(r)
    ensures Contents(InsertRange(r, batch, 0, n).0) == Contents(r) + batch[..n]
    ensures n == 0 ==> InsertRange(r, batch, 0, n) == (r, 0)
  {
    InsertRangeIsEnqueue(r, batch, 0, n);
  }

  // ---------- the two copies of a bulk removal ----------

  ghost predicate ReadPlan(r: Ring, out: seq<byte>, cnt1: nat, cnt2: nat)
  {
    && Valid(r) && 0 < r.count
    && cnt1 + cnt2 <= |Contents(r)|
    && IndexOf(r.count, r.tail) + cnt1 <= r.count
    && (0 < cnt2 ==> cnt1 == r.count - IndexOf(r.count, r.tail))
    && Offset(r.itemSz, cnt1 + cnt2) <= |out|
  }

  /** The effect of copying the n oldest items behind item `to` of a byte area. */
  ghost predicate Read(r: Ring, out: seq<byte>, to: nat, n: nat, r': Ring, out': seq<byte>)
  {
    && Valid(r) && n <= |Contents(r)|
    && Offset(r.itemSz, to) + |Flatten(Contents(r)[..n])| <= |out|
    && r' == r.(tail := U32(r.tail + n))
    && out' == Blit(out, Offset(r.itemSz, to), Flatten(Contents(r)[..n]))
  }

  /** num single removals, in closed form. */
  lemma PopsInClosedForm(r: Ring, num: nat)
    requires Valid(r)
    ensures var m := Min(|Contents(r)|, num);
      PopEach(r, num) == (r.(tail := U32(r.tail + m)), Contents(r)[..m])
  {
    PopEachIsDequeue(r, num);
    PopEachMovesTail(r, num);
  }

  lemma TailMoves(r: Ring, n: nat)
    requires Valid(r) && n <= |Contents(r)|
    ensures var r' := r.(tail := U32(r.tail + n));
      Valid(r') && Contents(r') == Contents(r)[n..]
  {
    PopsInClosedForm(r, n);
    PopEachIsDequeue(r, n);
  }

  lemma AfterFirstRead(r: Ring, out: seq<byte>, cnt1: nat, cnt2: nat)
    requires ReadPlan(r, out, cnt1, cnt2)
    ensures Offset(r.itemSz, cnt1) <= |out|
    ensures var r1 := r.(tail := U32(r.tail + cnt1));
      && Valid(r1) && Contents(r1) == Contents(r)[cnt1..]
      && IndexOf(r.count, r1.tail) + cnt2 <= r.count
  {
    SecondSegment(r.count, r.tail, cnt1, cnt2);
    OffsetMonotone(r.itemSz, cnt1, cnt1 + cnt2);
    TailMoves(r, cnt1);
  }

  lemma {:induction false} FlattenSize(items: seq<Item>, itemSz: nat)
    requires Sized(items, itemSz)
    ensures |Flatten(items)| == Offset(itemSz, |items|)
  {
    if items != [] {
      FlattenSize(items[..|items| - 1], itemSz);
    }
  }

  lemma BlitBehind(out: seq<byte>, a: seq<byte>, b: seq<byte>)
    requires |a| + |b| <= |out|
    ensures Blit(Blit(out, 0, a), |a|, b) == Blit(out, 0, a + b)
  {
  }

  lemma TwoReadsJoin(out: seq<byte>, q: seq<Item>, itemSz: nat, cnt1: nat, cnt2: nat)
    requires Sized(q, itemSz) && cnt1 + cnt2 <= |q| && Offset(itemSz, cnt1 + cnt2) <= |out|
    ensures var a, b, ab := Flatten(q[..cnt1]), Flatten(q[cnt1..][..cnt2]), Flatten(q[..cnt1 + cnt2]);
      && |a| == Offset(itemSz, cnt1) && |a| + |b| == |ab| <= |out|
      && Blit(Blit(out, 0, a), |a|, b) == Blit(out, 0, ab)
  {
    OffsetAdd(itemSz, cnt1, cnt2);
    FlattenSize(q[..cnt1], itemSz);
    FlattenSize(q[cnt1..][..cnt2], itemSz);
    FlattenJoin(q[..cnt1], q[cnt1..][..cnt2]);
    assert q[..cnt1] + q[cnt1..][..cnt2] == q[..cnt1 + cnt2];
    BlitBehind(out, Flatten(q[..cnt1]), Flatten(q[cnt1..][..cnt2]));
  }

  lemma ReadTwice(r: Ring, out: seq<byte>, cnt1: nat, cnt2: nat, r1: Ring, out1: seq<byte>, r2: Ring, out2: seq<byte>)
    requires Valid(r) && Valid(r1) && cnt1 + cnt2 <= |Contents(r)|
    requires Contents(r1) == Contents(r)[cnt1..]
    requires Offset(r.itemSz, cnt1 + cnt2) <= |out|
    requires Read(r, out, 0, cnt1, r1, out1) && Read(r1, out1, cnt1, cnt2, r2, out2)
    ensures Read(r, out, 0, cnt1 + cnt2, r2, out2)
  {
    hide U32, GoodCount, Flatten;
    TwoReadsJoin(out, Contents(r), r.itemSz, cnt1, cnt2);
    WrapAdd(r.tail + cnt1, cnt2);
  }

  /** What a bulk removal of up to num items owes its caller: the ring and the items are
      those of num single removals, ret of which deliver, and the destination holds the
      bytes of those items, one behind the other, at its start. */
  ghost predicate PoppedInto(r: Ring, out: seq<byte>, num: nat, ret: int, r': Ring, out': seq<byte>)
    requires Valid(r)
  {
    var popped := PopEach(r, num).1;
    && r' == PopEach(r, num).0
    && 0 <= ret <= |Contents(r)|
    && popped == Contents(r)[..ret]
    && |Flatten(popped)| <= |out|
    && out' == Blit(out, 0, Flatten(popped))
  }

  /** Reading as many items as there are, but at most num, is num single removals. */
  lemma ReadIsPops(r: Ring, out: seq<byte>, num: nat, r': Ring, out': seq<byte>)
    requires Valid(r)
    requires Read(r, out, 0, Min(|Contents(r)|, num), r', out')
    ensures Valid(r') && PoppedInto(r, out, num, Min(|Contents(r)|, num), r', out')
  {
    PopsInClosedForm(r, num);
    assert PopEach(r, num).0 == r';
  }

  lemma NothingToPop(r: Ring, out: seq<byte>, num: nat)
    requires Valid(r) && Contents(r) == []
    ensures PoppedInto(r, out, num, 0, r, out)
  {
    PopsInClosedForm(r, num);
    assert Contents(r)[..0] == [];
    assert Blit(out, 0, []) == out;
  }

  class RingBuffer {
    var data: array<byte>
    var count: nat
    var itemSz: nat
    var head: nat
    var tail: nat

    ghost function View(): Ring
      reads this, data
    {
      Ring(data[..], count, itemSz, head, tail)
    }

    ghost predicate Good()
      reads this, data
    {
      Valid(View())
    }

    /** RingBuffer_Init on a buffer that holds count items of itemSize bytes. */
    constructor (buffer: array<byte>, itemSize: nat, cnt: nat)
      requires GoodCount(cnt) && 0 < itemSize
      requires cnt * itemSize <= buffer.Length < 0x8000_0000
      ensures Good() && Contents(View()) == []
      ensures data == buffer && buffer[..] == old(buffer[..])
      ensures (count, itemSz, head, tail) == (cnt, itemSize, 0, 0)
    {
      data, count, itemSz := buffer, cnt, itemSize;
      head, tail := 0, 0;
      new;
      OffsetIsProduct(itemSz, count);
    }

    method Flush()
      requires Good()
      modifies this`head, this`tail
      ensures Good() && View() == RingBatch.Flush(old(View())) && Contents(View()) == []
      ensures head == 0 && tail == 0
    {
      head, tail := 0, 0;
    }

    /** The capacity in items: whatever is queued, queued and free items make it up. */
    function GetSize(): (n: nat)
      requires Good()
      reads this, data
      ensures n == GetCount() + GetFree() && |Contents(View())| <= n
    {
      count
    }

    /** The number of queued items, although both counters wrap. */
    function GetCount(): (n: int)
      requires Good()
      reads this, data
      ensures n == |Contents(View())|
    {
      CountBounds(count);
      I32(U32(head - tail))
    }

    function GetFree(): (n: int)
      requires Good()
      reads this, data
      ensures n == count - |Contents(View())| && 0 <= n
    {
      count - GetCount()
    }

    predicate IsFull()
      requires Good()
      reads this, data
      ensures IsFull() <==> |Contents(View())| == count
    {
      GetCount() >= count
    }

    predicate IsEmpty()
      requires Good()
      reads this, data
      ensures IsEmpty() <==> Contents(View()) == []
    {
      UsedSteps(head, tail);
      head == tail
    }

    method Insert(item: array<byte>) returns (ret: int)
      requires Good()
      requires item != data && itemSz <= item.Length
      modifies this`head, data
      ensures Good()
      ensures (View(), ret) == RingModel.Insert(old(View()), item[..itemSz])
      ensures if |old(Contents(View()))| < count
              then ret == 1 && Contents(View()) == old(Contents(View())) + [item[..itemSz]]
              else ret == 0 && View() == old(View())
    {
      hide GoodCount, And, U32;
      ghost var r := View();
      InsertIsEnqueue(r, item[..itemSz]);
      if IsFull() {
        return 0;
      }
      ByteOffsetIs(r, head);
      SlotInArea(r.bytes, count, itemSz, head);
      MemCpy(data, U32(IndexOf(count, head) * itemSz), item, 0, itemSz);
      head := U32(head + 1);
      ret := 1;
      assert item[0..itemSz] == item[..itemSz];
      assert View() == RingModel.Insert(r, item[..itemSz]).0;
    }

    /** Copies items from..from + n of the source to the slots from the head on and
        publishes them. */
    method WriteSegment(items: array<byte>, from: nat, n: nat)
      requires Good() && Contiguous(View(), n)
      requires items != data && Offset(itemSz, from + n) <= items.Length
      modifies this`head, data
      ensures View() == CopyIn(old(View()), old(items[..]), from, n)
    {
      ghost var r := View();
      ByteOffsetIs(r, head);
      SegmentBounds(itemSz, count, IndexOf(count, head), n);
      OffsetIsProduct(itemSz, from);
      OffsetIsProduct(itemSz, n);
      OffsetAdd(itemSz, from, n);
      MemCpy(data, U32(IndexOf(count, head) * itemSz), items, from * itemSz, n * itemSz);
      head := U32(head + n);
      assert items[Offset(itemSz, from)..Offset(itemSz, from) + Offset(itemSz, n)]
          == Chunk(items[..], itemSz, from, n);
    }

    method WriteBoth(items: array<byte>, cnt1: nat, cnt2: nat)
      requires items != data && CopyPlan(View(), items[..], cnt1, cnt2)
      modifies this`head, data
      ensures View() == CopyBoth(old(View()), old(items[..]), cnt1, cnt2)
    {
      ghost var r1 := CopyIn(View(), items[..], 0, cnt1);
      WriteSegment(items, 0, cnt1);
      assert View() == r1;
      WriteSegment(items, cnt1, cnt2);
    }

    /** The segment lengths for an operation on avail slots that starts at a counter. */
    method Plan(counter: nat, avail: nat, num: nat) returns (cnt1: nat, cnt2: nat)
      requires Good() && avail <= count
      ensures 0 < count && cnt1 + cnt2 == Min(avail, num)
      ensures IndexOf(count, counter) + cnt1 <= count
      ensures 0 < cnt2 ==> cnt1 == count - IndexOf(count, counter) && cnt2 <= IndexOf(count, counter)
    {
      CountBounds(count);
      IndexBound(count, counter);
      cnt1, cnt2 := SegmentLengths(count, IndexOf(count, counter), avail, num);
    }

    /** The bulk insertion leaves the same bytes, head and tail as min(num, free) single
        insertions and returns that number. */
    method InsertMult(items: array<byte>, num: nat) returns (ret: int)
      requires Good()
      requires items != data && Offset(itemSz, num) <= items.Length < 0x8000_0000
      modifies this`head, data
      ensures Good()
      ensures ret == Min(old(Free(View())), num)
      ensures (View(), ret) == InsertRange(old(View()), Items(old(items[..]), itemSz, num), 0, ret)
      ensures Contents(View()) == old(Contents(View())) + Items(old(items[..]), itemSz, num)[..ret]
    {
      hide InsertRange, CopyBoth, Blit, U32, GoodCount, Items, CopyPlan;
      ghost var r, batch := View(), Items(items[..], itemSz, num);
      if IsFull() {
        InsertedInFull(r, batch, 0);
        return 0;
      }
      var cnt1, cnt2 := Plan(head, GetFree(), num);
      TwoSegmentsAreInserts(r, items[..], batch, cnt1, cnt2);
      WriteBoth(items, cnt1, cnt2);
      ret := cnt1 + cnt2;
      InsertedInFull(r, batch, ret);
    }

    method Pop(item: array<byte>) returns (ret: int)
      requires Good()
      requires item != data && itemSz <= item.Length
      modifies this`tail, item
      ensures Good() && View() == RingModel.Pop(old(View())).0
      ensures match RingModel.Pop(old(View())).1
        case None => ret == 0 && item[..] == old(item[..])
        case Some(x) => ret == 1 && item[..] == Blit(old(item[..]), 0, x)
    {
      ghost var r := View();
      PopIsDequeue(r);
      if IsEmpty() {
        return 0;
      }
      ByteOffsetIs(r, tail);
      SlotInArea(r.bytes, count, itemSz, tail);
      MemCpy(item, 0, data, U32(IndexOf(count, tail) * itemSz), itemSz);
      tail := U32(tail + 1);
      ret := 1;
    }

    /** Copies the n oldest items, which must lie in consecutive slots, behind item `to` of
        the destination and releases their slots. */
    method ReadSegment(items: array<byte>, to: nat, n: nat)
      requires Good() && n <= |Contents(View())|
      requires 0 < count && IndexOf(count, tail) + n <= count
      requires items != data && Offset(itemSz, to + n) <= items.Length
      modifies this`tail, items
      ensures Read(old(View()), old(items[..]), to, n, View(), items[..])
    {
      hide GoodCount, Used, And, Flatten, U32;
      ghost var r, slot := View(), IndexOf(count, tail);
      SegmentIsQueue(r, slot, n);
      FlattenSize(Contents(r)[..n], itemSz);
      ByteOffsetIs(r, tail);
      OffsetAdd(itemSz, slot, n);
      OffsetAdd(itemSz, to, n);
      OffsetIsProduct(itemSz, to);
      OffsetIsProduct(itemSz, n);
      MemCpy(items, to * itemSz, data, U32(IndexOf(count, tail) * itemSz), n * itemSz);
      tail := U32(tail + n);
    }

    method ReadBoth(items: array<byte>, cnt1: nat, cnt2: nat)
      requires items != data && ReadPlan(View(), items[..], cnt1, cnt2)
      modifies this`tail, items
      ensures Read(old(View()), old(items[..]), 0, cnt1 + cnt2, View(), items[..])
    {
      ghost var r, out := View(), items[..];
      AfterFirstRead(r, out, cnt1, cnt2);
      ReadSegment(items, 0, cnt1);
      ghost var r1, out1 := View(), items[..];
      ReadSegment(items, cnt1, cnt2);
      ReadTwice(r, out, cnt1, cnt2, r1, out1, View(), items[..]);
    }

    /** The bulk removal delivers what min(num, number of items) single removals deliver, in
        order, writes nothing else to the destination, and returns that number. */
    method PopMult(items: array<byte>, num: nat) returns (ret: int)
      requires Good()
      requires items != data && Offset(itemSz, num) <= items.Length < 0x8000_0000
      modifies this`tail, items
      ensures Good()
      ensures ret == Min(|old(Contents(View()))|, num)
      ensures PoppedInto(old(View()), old(items[..]), num, ret, View(), items[..])
    {
      ghost var r, out := View(), items[..];
      if IsEmpty() {
        NothingToPop(r, out, num);
        return 0;
      }
      var cnt1, cnt2 := Plan(tail, GetCount(), num);
      OffsetMonotone(itemSz, cnt1 + cnt2, num);
      ReadBoth(items, cnt1, cnt2);
      ret := cnt1 + cnt2;
      ReadIsPops(r, out, num, View(), items[..]);
    }
  }
}
