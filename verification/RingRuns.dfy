/** Runs over the ring buffer class itself: a client that performs a sequence of calls, bulk
    calls in two segments included, sees exactly what RingRun says, and so, by RunIsFifo,
    what a bounded FIFO would show it. */
module RingRuns {
  import opened Bits
  import opened RingModel
  import opened RingBatch
  import opened RingBuffers

  /** The areas passed to the bulk calls fit the address range. */
  ghost predicate Addressable(op: Op, itemSz: nat)
  {
    match op
    case OpInsertMult(items) => Offset(itemSz, |items|) < 0x8000_0000
    case OpPopMult(num) => Offset(itemSz, num) < 0x8000_0000
    case _ => true
  }

  ghost predicate AllAddressable(ops: seq<Op>, itemSz: nat)
  {
    forall i :: 0 <= i < |ops| ==> Addressable(ops[i], itemSz)
  }

  // ---------- items and areas ----------

  /** The first items of an area depend on its beginning only. */
  lemma {:induction false} ItemsOfFront(front: seq<byte>, back: seq<byte>, itemSz: nat, n: nat)
    requires Offset(itemSz, n) <= |front|
    ensures Items(front + back, itemSz, n) == Items(front, itemSz, n)
  {
    if n > 0 {
      ItemsOfFront(front, back, itemSz, n - 1);
      assert ItemAt(front + back, itemSz, n - 1) == ItemAt(front, itemSz, n - 1);
    }
  }

  /** Laying items out and cutting the area into items again gives the items back. */
  lemma {:induction false} ItemsOfFlatten(items: seq<Item>, itemSz: nat)
    requires Sized(items, itemSz)
    ensures |Flatten(items)| == Offset(itemSz, |items|)
    ensures Items(Flatten(items), itemSz, |items|) == items
  {
    FlattenSize(items, itemSz);
    if items != [] {
      var n := |items| - 1;
      var front, last := items[..n], items[n];
      ItemsOfFlatten(front, itemSz);
      ItemsOfFront(Flatten(front), last, itemSz, n);
      FlattenSize(front, itemSz);
      assert ItemAt(Flatten(items), itemSz, n) == last;
      assert front + [last] == items;
    }
  }

  /** The items delivered into an area can be read off its beginning. */
  lemma DeliveredItems(out: seq<byte>, popped: seq<Item>, itemSz: nat)
    requires Sized(popped, itemSz) && |Flatten(popped)| <= |out|
    ensures Offset(itemSz, |popped|) <= |out|
    ensures Items(Blit(out, 0, Flatten(popped)), itemSz, |popped|) == popped
  {
    var flat := Flatten(popped);
    ItemsOfFlatten(popped, itemSz);
    assert Blit(out, 0, flat) == flat + out[|flat|..];
    ItemsOfFront(flat, out[|flat|..], itemSz, |popped|);
  }

  /** InsertMult's contract, restated for the whole batch. */
  lemma WholeBatch(r: Ring, items: seq<Item>, r': Ring, ret: int)
    requires Valid(r) && Sized(items, r.itemSz)
    requires ret == Min(Free(r), |items|) && (r', ret) == InsertRange(r, items, 0, ret)
    ensures InsertRange(r, items, 0, |items|) == (r', ret)
  {
    hide Valid, Sized, InsertRange, Contents;
    RefusedItems(r, items);
    FreeIsRest(r);
  }

  lemma FreeIsRest(r: Ring)
    requires Valid(r)
    ensures Free(r) == r.count - |Contents(r)| >= 0
  {
  }

  // ---------- calls ----------

  method ExecuteInsertMult(rb: RingBuffer, items: seq<Item>) returns (reply: Reply)
    requires rb.Good() && Sized(items, rb.itemSz) && Offset(rb.itemSz, |items|) < 0x8000_0000
    modifies rb, rb.data
    ensures rb.Good() && rb.data == old(rb.data)
    ensures (rb.View(), reply) == RingStep(old(rb.View()), OpInsertMult(items))
  {
    hide InsertRange, Valid, Flatten;
    ghost var r := rb.View();
    ItemsOfFlatten(items, rb.itemSz);
    var flat := Flatten(items);
    var area := new byte[|flat|](i requires 0 <= i < |flat| => flat[i]);
    assert area[..] == flat;
    var ret := rb.InsertMult(area, |items|);
    WholeBatch(r, items, rb.View(), ret);
    reply := Reply(ret, []);
  }

  method ExecutePopMult(rb: RingBuffer, num: nat) returns (reply: Reply)
    requires rb.Good() && Offset(rb.itemSz, num) < 0x8000_0000
    modifies rb, rb.data
    ensures rb.Good() && rb.data == old(rb.data)
    ensures (rb.View(), reply) == RingStep(old(rb.View()), OpPopMult(num))
  {
    hide PopEach, Valid, Flatten;
    ghost var r := rb.View();
    OffsetIsProduct(rb.itemSz, num);
    var area := new byte[num * rb.itemSz];
    ghost var out := area[..];
    var ret := rb.PopMult(area, num);
    DeliveredItems(out, PopEach(r, num).1, r.itemSz);
    reply := Reply(ret, Items(area[..], rb.itemSz, ret));
  }

  method ExecuteSingle(rb: RingBuffer, op: Op) returns (reply: Reply)
    requires rb.Good() && SizedOp(op, rb.itemSz) && (op.OpInsert? || op.OpPop?)
    modifies rb, rb.data
    ensures rb.Good() && rb.data == old(rb.data)
    ensures (rb.View(), reply) == RingStep(old(rb.View()), op)
  {
    hide Valid, RingModel.Insert, RingModel.Pop;
    ghost var r := rb.View();
    var area := new byte[rb.itemSz];
    if op.OpInsert? {
      area := new byte[|op.item|](i requires 0 <= i < |op.item| => op.item[i]);
      assert area[..rb.itemSz] == op.item;
      var ret := rb.Insert(area);
      reply := Reply(ret, []);
    } else {
      PopIsDequeue(r);
      ghost var out := area[..];
      var ret := rb.Pop(area);
      if ret == 1 {
        WholeArea(out, RingModel.Pop(r).1.value);
        reply := Reply(1, [area[..]]);
      } else {
        reply := Reply(0, []);
      }
    }
  }

  lemma WholeArea(out: seq<byte>, item: seq<byte>)
    requires |out| == |item|
    ensures Blit(out, 0, item) == item
  {
  }

  method ExecuteOp(rb: RingBuffer, op: Op) returns (reply: Reply)
    requires rb.Good() && SizedOp(op, rb.itemSz) && Addressable(op, rb.itemSz)
    modifies rb, rb.data
    ensures rb.Good() && rb.data == old(rb.data)
    ensures (rb.View(), reply) == RingStep(old(rb.View()), op)
  {
    match op {
      case OpInsertMult(items) => reply := ExecuteInsertMult(rb, items);
      case OpPopMult(num) => reply := ExecutePopMult(rb, num);
      case OpFlush =>
        rb.Flush();
        reply := Reply(0, []);
      case _ => reply := ExecuteSingle(rb, op);
    }
  }

  /** The calls one after the other on the class, in place: ring and replies are those of
      the run over the model, and those of a bounded FIFO. */
  method Execute(rb: RingBuffer, ops: seq<Op>) returns (replies: seq<Reply>)
    requires rb.Good() && SizedOps(ops, rb.itemSz) && AllAddressable(ops, rb.itemSz)
    modifies rb, rb.data
    ensures rb.Good() && rb.data == old(rb.data)
    ensures (rb.View(), replies) == RingRun(old(rb.View()), ops)
    ensures (Contents(rb.View()), replies) == FifoRun(old(Contents(rb.View())), old(rb.count), ops)
    decreases |ops|
  {
    hide Valid, RingStep, FifoStep;
    RunIsFifo(rb.View(), ops);
    if ops == [] {
      return [];
    }
    ghost var r := rb.View();
    var reply := ExecuteOp(rb, ops[0]);
    var rest := Execute(rb, ops[1..]);
    replies := [reply] + rest;
  }
}
