/** The ring buffer shared by an interrupt handler and a task.

    One producer (RingBuffer_Insert, RingBuffer_InsertMult) and one consumer
    (RingBuffer_Pop, RingBuffer_PopMult) run interleaved in any order. Every read of the
    other side's index, every single byte of a memcpy and every update of the own index is
    a step of its own; memory is sequentially consistent.

    The steps work on the 32-bit counters and on the bytes. Beside them the state records
    what the proofs speak about: the unbounded totals H and T of items ever published and
    released, the stream `sent` of bytes published and the stream `got` of bytes delivered. */
module SpscRing {
  import opened Bits
  import opened RingModel
  import opened RingBatch

  datatype Config = Config(count: nat, itemSz: nat)

  /** Where the producer stands. PIdle holds the value its last call returned; PCheck is
      about to test for a full buffer, PMeasure to compute the free space; PCopy copies a
      segment of n items, of which `done` bytes are written, and `rest` items will follow in
      a second segment unless this is the last one. */
  datatype Producer =
    | PIdle(ret: nat)
    | PCheck(data: seq<byte>, num: nat, mult: bool)
    | PMeasure(data: seq<byte>, num: nat)
    | PCopy(data: seq<byte>, n: nat, done: nat, rest: nat, last: bool, ret: nat)

  /** The same for the consumer; `buf` holds the bytes read from the current segment. */
  datatype Consumer =
    | CIdle(ret: nat)
    | CCheck(num: nat, mult: bool)
    | CMeasure(num: nat)
    | CCopy(n: nat, buf: seq<byte>, rest: nat, last: bool, ret: nat)

  /** `base` and `batch` are the length of `sent` when the producer's last call began and
      the items passed to it; `cbase` is the length of `got` when the consumer's began. */
  datatype State = State(
    bytes: seq<byte>, head: nat, tail: nat, prod: Producer, cons: Consumer,
    H: nat, T: nat, sent: seq<byte>, got: seq<byte>, base: nat, batch: seq<byte>, cbase: nat)

  datatype Step =
    | CallInsert(data: seq<byte>, num: nat, mult: bool)
    | ProducerRuns
    | CallPop(num: nat, mult: bool)
    | ConsumerRuns

  // ---------- addresses ----------

  function Size(c: Config, n: nat): nat { Offset(c.itemSz, n) }

  ghost predicate GoodConfig(c: Config)
  {
    GoodCount(c.count) && 0 < c.itemSz
  }

  lemma AreaIsPositive(c: Config)
    requires GoodConfig(c)
    ensures 0 < Size(c, c.count)
  {
    CountBounds(c.count);
    OffsetMonotone(c.itemSz, 1, c.count);
    assert Offset(c.itemSz, 0) == 0;
  }

  /** The place of byte p of the stream in the byte area. */
  ghost function Addr(c: Config, p: nat): (a: nat)
    requires GoodConfig(c)
    ensures a < Size(c, c.count)
  {
    AreaIsPositive(c);
    p % Size(c, c.count)
  }

  lemma AddrDiffers(c: Config, p: nat, q: nat)
    requires GoodConfig(c) && p < q < p + Size(c, c.count)
    ensures Addr(c, p) != Addr(c, q)
  {
    ModDiffers(p, q - p, Size(c, c.count));
  }

  /** Item k of the stream starts where the masked 32-bit counter says. */
  lemma SlotStart(c: Config, k: nat)
    requires GoodConfig(c)
    ensures 0 < c.count && IndexOf(c.count, U32(k)) == k % c.count < c.count
    ensures Offset(c.itemSz, IndexOf(c.count, U32(k))) == Addr(c, Size(c, k))
  {
    hide GoodCount, U32, And;
    IndexIsMod(c.count, k);
    var q, r := k / c.count, k % c.count;
    SizeSplits(c, q, r);
    assert k == c.count * q + r;
    SlotBounds(c.itemSz, c.count, r);
    DivModUnique(Size(c, k), Size(c, c.count), q, Size(c, r));
  }

  lemma SizeSplits(c: Config, q: int, r: nat)
    requires 0 <= c.count * q + r
    ensures Size(c, c.count * q + r) == q * Size(c, c.count) + Size(c, r)
  {
    OffsetIsProduct(c.itemSz, c.count * q + r);
    OffsetIsProduct(c.itemSz, r);
    OffsetIsProduct(c.itemSz, c.count);
    ProductSplit(q, c.count, r, c.itemSz);
  }

  lemma ProductSplit(q: int, m: int, r: int, sz: int)
    ensures (m * q + r) * sz == q * (m * sz) + r * sz
  {
  }

  /** The bytes of n consecutive slots are consecutive stream bytes. */
  lemma SegmentAddr(c: Config, k: nat, n: nat, i: nat)
    requires GoodConfig(c) && 0 < c.count && IndexOf(c.count, U32(k)) + n <= c.count
    requires i < Size(c, n)
    ensures Offset(c.itemSz, IndexOf(c.count, U32(k))) + i == Addr(c, Size(c, k) + i)
  {
    SlotStart(c, k);
    SegmentEnds(c, k, n);
    AreaIsPositive(c);
    ModAddSmall(Size(c, k), i, Size(c, c.count));
  }

  lemma SegmentEnds(c: Config, k: nat, n: nat)
    requires GoodConfig(c) && 0 < c.count && IndexOf(c.count, U32(k)) + n <= c.count
    ensures Offset(c.itemSz, IndexOf(c.count, U32(k))) + Size(c, n) <= Size(c, c.count)
  {
    OffsetAdd(c.itemSz, IndexOf(c.count, U32(k)), n);
    OffsetMonotone(c.itemSz, IndexOf(c.count, U32(k)) + n, c.count);
  }

  // ---------- the invariant ----------

  ghost predicate Geometry(c: Config, s: State)
  {
    && GoodConfig(c)
    && Size(c, c.count) <= |s.bytes| < 0x8000_0000
  }

  ghost predicate Counters(c: Config, s: State)
  {
    && s.head == U32(s.H) && s.tail == U32(s.T)
    && s.T <= s.H <= s.T + c.count
    && |s.sent| == Size(c, s.H)
    && |s.got| == Size(c, s.T)
  }

  /** Every published byte that was not yet released is in its place, and what was
      delivered is the beginning of what was published. */
  ghost predicate Memory(c: Config, s: State)
    requires Geometry(c, s)
  {
    && (forall p: nat :: |s.got| <= p < |s.sent| ==> s.bytes[Addr(c, p)] == s.sent[p])
    && s.got <= s.sent
  }

  /** A segment of n items behind counter k lies within the buffer, and so will the rest,
      which is empty or starts at slot 0. */
  ghost predicate SegmentFits(c: Config, k: nat, n: nat, rest: nat, last: bool)
  {
    && 0 < c.count
    && IndexOf(c.count, U32(k)) + n <= c.count
    && (0 < rest ==> n == c.count - IndexOf(c.count, U32(k)))
    && rest <= c.count
    && (last ==> rest == 0)
  }

  ghost predicate Written(c: Config, s: State, data: seq<byte>, done: nat)
    requires Geometry(c, s)
  {
    && done <= |data|
    && forall i: nat :: i < done ==> s.bytes[Addr(c, |s.sent| + i)] == data[i]
  }

  ghost predicate ProducerOk(c: Config, s: State)
    requires Geometry(c, s)
  {
    && s.base <= |s.sent|
    && match s.prod
       case PIdle(ret) =>
         && Size(c, ret) <= |s.batch|
         && s.sent == s.sent[..s.base] + s.batch[..Size(c, ret)]
       case PCheck(data, num, mult) =>
         && |s.sent| == s.base && data == s.batch
         && |data| == Size(c, num) && (mult || num == 1)
       case PMeasure(data, num) =>
         && |s.sent| == s.base && data == s.batch
         && |data| == Size(c, num)
       case PCopy(data, n, done, rest, last, ret) =>
         && SegmentFits(c, s.H, n, rest, last)
         && s.H + n + rest <= s.T + c.count
         && done <= Size(c, n) && Size(c, n + rest) <= |data|
         && Written(c, s, data, done)
         && n + rest <= ret
         && Size(c, ret - (n + rest)) + |data| == |s.batch|
         && s.batch[Size(c, ret - (n + rest))..] == data
         && s.sent == s.sent[..s.base] + s.batch[..Size(c, ret - (n + rest))]
  }

  ghost predicate ConsumerOk(c: Config, s: State)
    requires Geometry(c, s)
  {
    && s.cbase <= |s.got|
    && match s.cons
       case CIdle(ret) => |s.got| == s.cbase + Size(c, ret)
       case CCheck(num, mult) => |s.got| == s.cbase && (mult || num == 1)
       case CMeasure(num) => |s.got| == s.cbase
       case CCopy(n, buf, rest, last, ret) =>
         && SegmentFits(c, s.T, n, rest, last)
         && s.T + n + rest <= s.H
         && |buf| <= Size(c, n)
         && n + rest <= ret
         && |s.got| == s.cbase + Size(c, ret - (n + rest))
         && s.got + buf <= s.sent
  }

  ghost predicate Inv(c: Config, s: State)
  {
    && Geometry(c, s) && Counters(c, s) && Memory(c, s)
    && ProducerOk(c, s) && ConsumerOk(c, s)
  }

  // ---------- the steps ----------

  /** RingBuffer_Init on any memory, both sides idle. */
  function Init(c: Config, bytes: seq<byte>): State
  {
    State(bytes, 0, 0, PIdle(0), CIdle(0), 0, 0, [], [], 0, [], 0)
  }

  /** Insert passes one item and InsertMult num items; an idle producer accepts the call. */
  function StartInsert(c: Config, s: State, data: seq<byte>, num: nat, mult: bool): State
  {
    if s.prod.PIdle? && |data| == Size(c, num) && (mult || num == 1)
    then s.(prod := PCheck(data, num, mult), base := |s.sent|, batch := data)
    else s
  }

  function StartPop(s: State, num: nat, mult: bool): State
  {
    if s.cons.CIdle? && (mult || num == 1) then s.(cons := CCheck(num, mult), cbase := |s.got|) else s
  }

  lemma CopyBounds(c: Config, s: State, counter: nat, n: nat, i: nat)
    requires Geometry(c, s) && 0 < c.count && IndexOf(c.count, U32(counter)) + n <= c.count
    requires i < Size(c, n)
    ensures Offset(c.itemSz, IndexOf(c.count, U32(counter))) + i < |s.bytes|
  {
    SegmentEnds(c, counter, n);
  }

  /** The producer writes one byte of the current segment. */
  ghost function WriteByte(c: Config, s: State): State
    requires Inv(c, s) && s.prod.PCopy? && s.prod.done < Size(c, s.prod.n)
  {
    CopyBounds(c, s, s.H, s.prod.n, s.prod.done);
    OffsetMonotone(c.itemSz, s.prod.n, s.prod.n + s.prod.rest);
    var at := Offset(c.itemSz, IndexOf(c.count, s.head)) + s.prod.done;
    s.(bytes := s.bytes[at := s.prod.data[s.prod.done]], prod := s.prod.(done := s.prod.done + 1))
  }

  /** The producer advances the head behind a segment and turns to the next or returns. */
  ghost function Publish(c: Config, s: State): State
    requires Inv(c, s) && s.prod.PCopy?
  {
    var PCopy(data, n, _, rest, last, ret) := s.prod;
    OffsetMonotone(c.itemSz, n, n + rest);
    s.(head := U32(s.head + n), H := s.H + n, sent := s.sent + data[..Size(c, n)],
       prod := if last then PIdle(ret) else PCopy(data[Size(c, n)..], rest, 0, 0, true, ret))
  }

  ghost function ProducerStep(c: Config, s: State): State
    requires Inv(c, s)
  {
    match s.prod
    case PIdle(_) => s
    case PCheck(data, num, mult) =>
      if Used(s.head, s.tail) >= c.count then s.(prod := PIdle(0))
      else if mult then s.(prod := PMeasure(data, num))
      else s.(prod := PCopy(data, 1, 0, 0, true, 1))
    case PMeasure(data, num) =>
      UsedIsDifference(c, s);
      var (n, rest) := Segments(c.count, IndexOf(c.count, s.head), c.count - Used(s.head, s.tail), num);
      s.(prod := PCopy(data, n, 0, rest, false, n + rest))
    case PCopy(_, n, done, _, _, _) =>
      if done < Size(c, n) then WriteByte(c, s) else Publish(c, s)
  }

  ghost function ReadByte(c: Config, s: State): State
    requires Inv(c, s) && s.cons.CCopy? && |s.cons.buf| < Size(c, s.cons.n)
  {
    CopyBounds(c, s, s.T, s.cons.n, |s.cons.buf|);
    var at := Offset(c.itemSz, IndexOf(c.count, s.tail)) + |s.cons.buf|;
    s.(cons := s.cons.(buf := s.cons.buf + [s.bytes[at]]))
  }

  /** The consumer has copied a segment out and gives its slots back. */
  ghost function Release(c: Config, s: State): State
    requires Inv(c, s) && s.cons.CCopy?
  {
    var CCopy(n, buf, rest, last, ret) := s.cons;
    s.(tail := U32(s.tail + n), T := s.T + n, got := s.got + buf,
       cons := if last then CIdle(ret) else CCopy(rest, [], 0, true, ret))
  }

  ghost function ConsumerStep(c: Config, s: State): State
    requires Inv(c, s)
  {
    match s.cons
    case CIdle(_) => s
    case CCheck(num, mult) =>
      if s.head == s.tail then s.(cons := CIdle(0))
      else if mult then s.(cons := CMeasure(num))
      else s.(cons := CCopy(1, [], 0, true, 1))
    case CMeasure(num) =>
      UsedIsDifference(c, s);
      var (n, rest) := Segments(c.count, IndexOf(c.count, s.tail), Used(s.head, s.tail), num);
      s.(cons := CCopy(n, [], rest, false, n + rest))
    case CCopy(n, buf, _, _, _) =>
      if |buf| < Size(c, n) then ReadByte(c, s) else Release(c, s)
  }

  ghost function Apply(c: Config, s: State, step: Step): State
    requires Inv(c, s)
  {
    match step
    case CallInsert(data, num, mult) => StartInsert(c, s, data, num, mult)
    case ProducerRuns => ProducerStep(c, s)
    case CallPop(num, mult) => StartPop(s, num, mult)
    case ConsumerRuns => ConsumerStep(c, s)
  }

  lemma UsedIsDifference(c: Config, s: State)
    requires Geometry(c, s) && Counters(c, s)
    ensures 0 < c.count && Used(s.head, s.tail) == s.H - s.T <= c.count
    ensures IndexOf(c.count, s.head) < c.count && IndexOf(c.count, s.tail) < c.count
    ensures s.head == s.tail <==> s.H == s.T
  {
    CountersAgree(c.count, s.H, s.T);
    IndexIsMod(c.count, s.H);
    IndexIsMod(c.count, s.T);
  }

  // ---------- every step keeps the invariant ----------

  /** What the consumer does leaves the producer's part of the invariant alone. */
  lemma ProducerFrame(c: Config, s: State, s': State)
    requires Geometry(c, s) && ProducerOk(c, s)
    requires s' == s.(tail := s'.tail, T := s'.T, got := s'.got, cons := s'.cons, cbase := s'.cbase)
    requires s.T <= s'.T
    ensures Geometry(c, s') && ProducerOk(c, s')
  {
    hide GoodCount, Addr, SegmentFits, U32;
  }

  /** A step of the producer that only moves it on, without touching anything shared. */
  lemma MoveOn(c: Config, s: State, p: Producer)
    requires Inv(c, s)
    ensures var s' := s.(prod := p);
      Geometry(c, s') && Counters(c, s') && Memory(c, s') && ConsumerOk(c, s')
  {
    hide GoodCount, Addr, U32;
  }

  lemma ConsumerFrame(c: Config, s: State, s': State)
    requires Geometry(c, s) && Geometry(c, s') && ConsumerOk(c, s)
    requires (s'.cons, s'.T, s'.got, s'.cbase) == (s.cons, s.T, s.got, s.cbase)
    requires s.H <= s'.H && s.sent <= s'.sent
    ensures ConsumerOk(c, s')
  {
    hide GoodCount, Addr, SegmentFits, U32;
  }

  lemma InitIsSafe(c: Config, bytes: seq<byte>)
    requires GoodConfig(c) && Size(c, c.count) <= |bytes| < 0x8000_0000
    ensures Inv(c, Init(c, bytes))
  {
  }

  lemma StartInsertIsSafe(c: Config, s: State, data: seq<byte>, num: nat, mult: bool)
    requires Inv(c, s)
    ensures Inv(c, StartInsert(c, s, data, num, mult))
  {
  }

  lemma StartPopIsSafe(c: Config, s: State, num: nat, mult: bool)
    requires Inv(c, s)
    ensures Inv(c, StartPop(s, num, mult))
  {
    hide GoodCount, Addr, U32, ProducerOk;
    ProducerFrame(c, s, StartPop(s, num, mult));
  }

  lemma CheckIsSafe(c: Config, s: State)
    requires Inv(c, s) && s.prod.PCheck?
    ensures Inv(c, ProducerStep(c, s))
  {
    hide U32, Used, GoodCount, ConsumerOk, Addr, Memory;
    UsedIsDifference(c, s);
    MoveOn(c, s, ProducerStep(c, s).prod);
    assert Size(c, 0) == 0;
  }

  lemma MeasureIsSafe(c: Config, s: State)
    requires Inv(c, s) && s.prod.PMeasure?
    ensures Inv(c, ProducerStep(c, s))
  {
    hide U32, Used, GoodCount, ConsumerOk, Addr, Memory;
    UsedIsDifference(c, s);
    MoveOn(c, s, ProducerStep(c, s).prod);
    assert Size(c, 0) == 0;
    OffsetMonotone(c.itemSz, Min(c.count - Used(s.head, s.tail), s.prod.num), s.prod.num);
  }

  /** Writing byte `done` disturbs no byte that is queued and none already written. */
  lemma WriteByteIsSafe(c: Config, s: State)
    requires Inv(c, s) && s.prod.PCopy? && s.prod.done < Size(c, s.prod.n)
    ensures Inv(c, WriteByte(c, s))
  {
    hide U32, GoodCount, ConsumerOk, Addr, SegmentFits, Memory, Written;
    WriteLands(c, s);
    ConsumerFrame(c, s, WriteByte(c, s));
  }

  lemma WriteLands(c: Config, s: State)
    requires Inv(c, s) && s.prod.PCopy? && s.prod.done < Size(c, s.prod.n)
    ensures var s' := WriteByte(c, s);
      Geometry(c, s') && Memory(c, s') && Written(c, s', s.prod.data, s.prod.done + 1)
  {
    hide U32, Used, GoodCount, ConsumerOk;
    SegmentAddr(c, s.H, s.prod.n, s.prod.done);
    FreshByte(c, s);
    OffsetMonotone(c.itemSz, s.prod.n, s.prod.n + s.prod.rest);
  }

  /** The byte being written is away from every byte of the queue and of the segment
      written so far. */
  lemma FreshByte(c: Config, s: State)
    requires Inv(c, s) && s.prod.PCopy? && s.prod.done < Size(c, s.prod.n)
    ensures forall p: nat ::
      |s.got| <= p < |s.sent| + s.prod.done ==> Addr(c, p) != Addr(c, |s.sent| + s.prod.done)
  {
    hide U32, Used, GoodCount;
    RoomForSegment(c, s, s.prod.n);
    forall p: nat | |s.got| <= p < |s.sent| + s.prod.done
      ensures Addr(c, p) != Addr(c, |s.sent| + s.prod.done)
    {
      AddrDiffers(c, p, |s.sent| + s.prod.done);
    }
  }

  /** In bytes: the queue and a segment of n free slots fit the area. */
  lemma RoomForSegment(c: Config, s: State, n: nat)
    requires Geometry(c, s) && Counters(c, s) && s.H + n <= s.T + c.count
    ensures |s.sent| + Size(c, n) <= |s.got| + Size(c, c.count)
  {
    OffsetAdd(c.itemSz, s.H, n);
    OffsetAdd(c.itemSz, s.T, c.count);
    OffsetMonotone(c.itemSz, s.H + n, s.T + c.count);
  }

  /** After a segment the rest of the batch fits from there. */
  lemma NextSegmentFits(c: Config, k: nat, n: nat, rest: nat, last: bool)
    requires GoodConfig(c) && SegmentFits(c, k, n, rest, last)
    ensures SegmentFits(c, k + n, rest, 0, true)
  {
    IndexIsMod(c.count, k);
    IndexIsMod(c.count, k + n);
    if 0 < rest {
      ModFill(k, c.count);
    }
  }

  lemma PublishIsSafe(c: Config, s: State)
    requires Inv(c, s) && s.prod.PCopy? && s.prod.done >= Size(c, s.prod.n)
    ensures Inv(c, Publish(c, s))
  {
    hide GoodCount, U32, Addr, Memory, ProducerOk, ConsumerOk;
    PublishCounters(c, s);
    PublishMemory(c, s);
    PublishBatch(c, s);
    ConsumerFrame(c, s, Publish(c, s));
  }

  lemma PublishCounters(c: Config, s: State)
    requires Inv(c, s) && s.prod.PCopy? && s.prod.done >= Size(c, s.prod.n)
    ensures Counters(c, Publish(c, s))
  {
    hide GoodCount, Addr;
    WrapAdd(s.H, s.prod.n);
    OffsetAdd(c.itemSz, s.H, s.prod.n);
  }

  lemma PublishMemory(c: Config, s: State)
    requires Inv(c, s) && s.prod.PCopy? && s.prod.done >= Size(c, s.prod.n)
    ensures Memory(c, Publish(c, s))
  {
    hide GoodCount, U32, Addr;
    var s' := Publish(c, s);
    forall p: nat | |s'.got| <= p < |s'.sent|
      ensures s'.bytes[Addr(c, p)] == s'.sent[p]
    {
      if |s.sent| <= p {
        assert s.bytes[Addr(c, |s.sent| + (p - |s.sent|))] == s.prod.data[p - |s.sent|];
      }
    }
  }

  lemma PublishBatch(c: Config, s: State)
    requires Inv(c, s) && s.prod.PCopy? && s.prod.done >= Size(c, s.prod.n)
    ensures ProducerOk(c, Publish(c, s))
  {
    hide GoodCount, U32, Addr, Memory, ConsumerOk, SegmentFits, Written, Counters;
    var PCopy(data, n, done, rest, last, ret) := s.prod;
    PublishFits(c, s);
    OffsetAdd(c.itemSz, n, rest);
    OffsetAdd(c.itemSz, ret - (n + rest), n);
    BatchGrows(s.sent, s.base, s.batch, Size(c, ret - (n + rest)), Size(c, n));
    NothingWritten(c, Publish(c, s), data[Size(c, n)..]);
  }

  lemma PublishFits(c: Config, s: State)
    requires Inv(c, s) && s.prod.PCopy?
    ensures SegmentFits(c, s.H + s.prod.n, s.prod.rest, 0, true)
    ensures s.prod.last ==> s.prod.rest == 0
  {
    NextSegmentFits(c, s.H, s.prod.n, s.prod.rest, s.prod.last);
  }

  lemma NothingWritten(c: Config, s: State, data: seq<byte>)
    requires Geometry(c, s)
    ensures Written(c, s, data, 0)
  {
  }

  lemma BatchGrows(sent: seq<byte>, base: nat, batch: seq<byte>, a: nat, n: nat)
    requires base <= |sent| && a + n <= |batch|
    requires sent == sent[..base] + batch[..a]
    ensures var sent' := sent + batch[a..][..n]; sent' == sent'[..base] + batch[..a + n]
    ensures batch[a..][n..] == batch[a + n..]
  {
  }

  lemma ProducerStepIsSafe(c: Config, s: State)
    requires Inv(c, s)
    ensures Inv(c, ProducerStep(c, s))
  {
    hide Inv;
    match s.prod {
      case PIdle(_) =>
      case PCheck(_, _, _) => CheckIsSafe(c, s);
      case PMeasure(_, _) => MeasureIsSafe(c, s);
      case PCopy(_, n, done, _, _, _) =>
        if done < Size(c, n) {
          WriteByteIsSafe(c, s);
        } else {
          PublishIsSafe(c, s);
        }
    }
  }

  lemma EmptyCheckIsSafe(c: Config, s: State)
    requires Inv(c, s) && (s.cons.CCheck? || s.cons.CMeasure?)
    ensures Inv(c, ConsumerStep(c, s))
  {
    hide U32, GoodCount, ProducerOk, Addr, Used;
    UsedIsDifference(c, s);
    assert Size(c, 0) == 0;
    assert s.got + [] == s.got;
    ProducerFrame(c, s, ConsumerStep(c, s));
  }

  lemma ReadByteIsSafe(c: Config, s: State)
    requires Inv(c, s) && s.cons.CCopy? && |s.cons.buf| < Size(c, s.cons.n)
    ensures Inv(c, ReadByte(c, s))
  {
    hide U32, Used, GoodCount, ProducerOk, Addr, SegmentFits;
    ReadIsPublished(c, s);
    PrefixGrows(s.got, s.cons.buf, s.sent);
    ProducerFrame(c, s, ReadByte(c, s));
  }

  /** The byte about to be read is the next byte of the published stream. */
  lemma ReadIsPublished(c: Config, s: State)
    requires Inv(c, s) && s.cons.CCopy? && |s.cons.buf| < Size(c, s.cons.n)
    ensures |s.got| + |s.cons.buf| < |s.sent|
    ensures ReadByte(c, s).cons.buf == s.cons.buf + [s.sent[|s.got| + |s.cons.buf|]]
  {
    hide U32, Used, GoodCount, ProducerOk;
    var i := |s.cons.buf|;
    SegmentAddr(c, s.T, s.cons.n, i);
    OffsetAdd(c.itemSz, s.T, s.cons.n);
    OffsetMonotone(c.itemSz, s.T + s.cons.n, s.H);
    assert s.bytes[Addr(c, |s.got| + i)] == s.sent[|s.got| + i];
  }

  lemma PrefixGrows(a: seq<byte>, b: seq<byte>, s: seq<byte>)
    requires a + b <= s && |a| + |b| < |s|
    ensures a + (b + [s[|a| + |b|]]) <= s
  {
  }

  lemma ReleaseIsSafe(c: Config, s: State)
    requires Inv(c, s) && s.cons.CCopy? && |s.cons.buf| >= Size(c, s.cons.n)
    ensures Inv(c, Release(c, s))
  {
    hide GoodCount, U32, Addr, ProducerOk;
    ReleaseCounters(c, s);
    ReleaseDelivers(c, s);
    ProducerFrame(c, s, Release(c, s));
  }

  lemma ReleaseCounters(c: Config, s: State)
    requires Inv(c, s) && s.cons.CCopy? && |s.cons.buf| >= Size(c, s.cons.n)
    ensures Counters(c, Release(c, s))
  {
    hide GoodCount, Addr, Memory, ProducerOk;
    WrapAdd(s.T, s.cons.n);
    OffsetAdd(c.itemSz, s.T, s.cons.n);
  }

  lemma ReleaseDelivers(c: Config, s: State)
    requires Inv(c, s) && s.cons.CCopy? && |s.cons.buf| >= Size(c, s.cons.n)
    ensures ConsumerOk(c, Release(c, s))
  {
    hide GoodCount, U32, Addr, Memory, ProducerOk;
    var CCopy(n, buf, rest, last, ret) := s.cons;
    OffsetAdd(c.itemSz, ret - (n + rest), n);
    NextSegmentFits(c, s.T, n, rest, last);
    assert s.got + buf + [] == s.got + buf;
  }

  lemma ConsumerStepIsSafe(c: Config, s: State)
    requires Inv(c, s)
    ensures Inv(c, ConsumerStep(c, s))
  {
    hide Inv;
    match s.cons {
      case CIdle(_) =>
      case CCheck(_, _) => EmptyCheckIsSafe(c, s);
      case CMeasure(_) => EmptyCheckIsSafe(c, s);
      case CCopy(n, buf, _, _, _) =>
        if |buf| < Size(c, n) {
          ReadByteIsSafe(c, s);
        } else {
          ReleaseIsSafe(c, s);
        }
    }
  }

  lemma StepIsSafe(c: Config, s: State, step: Step)
    requires Inv(c, s)
    ensures Inv(c, Apply(c, s, step))
  {
    hide Inv;
    match step {
      case CallInsert(data, num, mult) => StartInsertIsSafe(c, s, data, num, mult);
      case ProducerRuns => ProducerStepIsSafe(c, s);
      case CallPop(num, mult) => StartPopIsSafe(c, s, num, mult);
      case ConsumerRuns => ConsumerStepIsSafe(c, s);
    }
  }

  // ---------- every schedule ----------

  /** Any sequence of calls and steps of the two sides, in any order. */
  ghost function Run(c: Config, s: State, steps: seq<Step>): (s': State)
    requires Inv(c, s)
    ensures Inv(c, s')
    decreases |steps|
  {
    if steps == [] then s
    else
      StepIsSafe(c, s, steps[0]);
      Run(c, Apply(c, s, steps[0]), steps[1..])
  }

  /** The ring as the sequential model sees it at one instant. */
  function View(c: Config, s: State): Ring { Ring(s.bytes, c.count, c.itemSz, s.head, s.tail) }

  lemma ViewIsValid(c: Config, s: State)
    requires Inv(c, s)
    ensures Valid(View(c, s)) && |Contents(View(c, s))| == s.H - s.T
  {
    hide Memory, ProducerOk, ConsumerOk, GoodCount;
    UsedIsDifference(c, s);
  }

  /** Item k of the published stream. */
  ghost function Published(c: Config, s: State, k: nat): (item: Item)
    requires Counters(c, s) && k < s.H
    ensures |item| == c.itemSz
  {
    SlotBounds(c.itemSz, s.H, k);
    s.sent[Size(c, k)..Size(c, k) + c.itemSz]
  }

  /** The queue that the buffer holds is, item by item, what was published and not yet
      released. */
  lemma QueuedIsPublished(c: Config, s: State, i: nat)
    requires Inv(c, s) && i < s.H - s.T
    ensures Valid(View(c, s)) && i < |Contents(View(c, s))|
    ensures Contents(View(c, s))[i] == Published(c, s, s.T + i)
  {
    hide GoodCount, Addr, ProducerOk, ConsumerOk, U32;
    ViewIsValid(c, s);
    WrapAdd(s.T, i);
    SlotIsPublished(c, s, s.T + i);
    assert Contents(View(c, s))[i] == Queued(View(c, s), i);
  }

  lemma SlotIsPublished(c: Config, s: State, k: nat)
    requires Inv(c, s) && s.T <= k < s.H
    ensures SlotItem(View(c, s), U32(k)) == Published(c, s, k)
  {
    hide GoodCount, Addr, ProducerOk, ConsumerOk, U32, And, IndexOf;
    var item, sent := SlotItem(View(c, s), U32(k)), Published(c, s, k);
    forall j: nat | j < c.itemSz
      ensures item[j] == sent[j]
    {
      SlotByte(c, s, k, j);
    }
  }

  lemma SlotByte(c: Config, s: State, k: nat, j: nat)
    requires Inv(c, s) && s.T <= k < s.H && j < c.itemSz
    ensures SlotItem(View(c, s), U32(k))[j] == Published(c, s, k)[j]
  {
    hide GoodCount, Addr, ProducerOk, ConsumerOk, U32, And, Used;
    SlotInArea(s.bytes, c.count, c.itemSz, U32(k));
    assert Size(c, 1) == Size(c, 0) + c.itemSz;
    SegmentAddr(c, k, 1, j);
    OffsetMonotone(c.itemSz, s.T, k);
    SlotBounds(c.itemSz, s.H, k);
    assert s.bytes[Addr(c, Size(c, k) + j)] == s.sent[Size(c, k) + j];
  }

  lemma PublishedBounds(c: Config, s: State, n: nat)
    requires Inv(c, s) && n <= s.H - s.T
    ensures Counters(c, s)
    ensures Valid(View(c, s)) && n <= |Contents(View(c, s))|
    ensures |s.got| <= Size(c, s.T + n) <= |s.sent|
    ensures n == 0 ==> |s.got| == Size(c, s.T + n)
  {
    hide GoodCount, Memory, ProducerOk, ConsumerOk, U32, Contents;
    ViewIsValid(c, s);
    OffsetMonotone(c.itemSz, s.T, s.T + n);
    OffsetMonotone(c.itemSz, s.T + n, s.H);
  }

  /** One published item more behind a flattened part of the queue. */
  lemma FlattenOneMore(c: Config, s: State, q: seq<Item>, n: nat)
    requires Counters(c, s) && s.T + n < s.H && n < |q|
    requires |s.got| <= Size(c, s.T + n) <= |s.sent|
    requires Flatten(q[..n]) == s.sent[|s.got|..Size(c, s.T + n)]
    requires q[n] == Published(c, s, s.T + n)
    ensures |s.got| <= Size(c, s.T + n + 1) <= |s.sent|
    ensures Flatten(q[..n + 1]) == s.sent[|s.got|..Size(c, s.T + n + 1)]
  {
    hide Flatten, U32;
    SlotBounds(c.itemSz, s.H, s.T + n);
    FlattenLast(q[..n], q[n]);
    assert q[..n + 1] == q[..n] + [q[n]];
    var lo, mid := |s.got|, Size(c, s.T + n);
    assert Size(c, s.T + n + 1) == mid + c.itemSz;
    SlicesJoin(s.sent, lo, mid, mid + c.itemSz);
  }

  lemma SlicesJoin(t: seq<byte>, lo: nat, mid: nat, hi: nat)
    requires lo <= mid <= hi <= |t|
    ensures t[lo..mid] + t[mid..hi] == t[lo..hi]
  {
  }

  lemma {:induction false} FlattenPublished(c: Config, s: State, n: nat)
    requires Inv(c, s) && n <= s.H - s.T
    ensures Valid(View(c, s)) && n <= |Contents(View(c, s))|
    ensures |s.got| <= Size(c, s.T + n) <= |s.sent|
    ensures Flatten(Contents(View(c, s))[..n]) == s.sent[|s.got|..Size(c, s.T + n)]
  {
    hide Inv, Contents, Valid, Flatten;
    PublishedBounds(c, s, n);
    var q := Contents(View(c, s));
    if n == 0 {
      FlattenNone(q);
    } else {
      FlattenPublished(c, s, n - 1);
      QueuedIsPublished(c, s, n - 1);
      FlattenOneMore(c, s, q, n - 1);
    }
  }

  lemma FlattenNone(q: seq<Item>)
    ensures Flatten(q[..0]) == []
  {
  }

  /** Conservation in any reachable state: the bytes delivered, followed by the bytes of
      the queued items, are the bytes published. */
  lemma NothingLost(c: Config, s: State)
    requires Inv(c, s)
    ensures Valid(View(c, s)) && |Contents(View(c, s))| == s.H - s.T
    ensures s.got + Flatten(Contents(View(c, s))) == s.sent
  {
    hide GoodCount, ProducerOk, ConsumerOk, U32, Contents, Addr;
    ViewIsValid(c, s);
    FlattenPublished(c, s, s.H - s.T);
    assert Contents(View(c, s))[..s.H - s.T] == Contents(View(c, s));
  }

  /** For every schedule from an initialised buffer: nothing is lost, duplicated or
      reordered, and the queue never holds more than count items. */
  lemma EveryScheduleIsFifo(c: Config, bytes: seq<byte>, steps: seq<Step>)
    requires GoodConfig(c) && Size(c, c.count) <= |bytes| < 0x8000_0000
    ensures Inv(c, Init(c, bytes))
    ensures var s := Run(c, Init(c, bytes), steps);
      && Valid(View(c, s))
      && |Contents(View(c, s))| <= c.count
      && s.got + Flatten(Contents(View(c, s))) == s.sent
  {
    InitIsSafe(c, bytes);
    NothingLost(c, Run(c, Init(c, bytes), steps));
  }

  /** Both sides may be copying at once, but never the same byte: no byte of the segment
      being written is a byte of the segment being read. */
  lemma NoSharedByte(c: Config, s: State, i: nat, j: nat)
    requires Inv(c, s) && s.prod.PCopy? && s.cons.CCopy?
    requires i < Size(c, s.prod.n) && j < Size(c, s.cons.n)
    ensures 0 < c.count
    ensures Offset(c.itemSz, IndexOf(c.count, s.head)) + i != Offset(c.itemSz, IndexOf(c.count, s.tail)) + j
  {
    hide GoodCount, Memory, U32, Written;
    SegmentAddr(c, s.H, s.prod.n, i);
    SegmentAddr(c, s.T, s.cons.n, j);
    RoomForSegment(c, s, s.prod.n);
    OffsetAdd(c.itemSz, s.T, s.cons.n);
    OffsetMonotone(c.itemSz, s.T + s.cons.n, s.H);
    AddrDiffers(c, |s.got| + j, |s.sent| + i);
  }

  /** A consumer that runs while an insertion is under way sees, behind what was published
      before the call, only a prefix of the batch. When the call has returned ret, exactly
      ret items of the batch are published. */
  lemma OnlyAPrefixIsVisible(c: Config, s: State)
    requires Inv(c, s)
    ensures s.base <= |s.sent|
    ensures s.got <= s.sent <= s.sent[..s.base] + s.batch
    ensures s.prod.PIdle? ==>
      Size(c, s.prod.ret) <= |s.batch| && s.sent == s.sent[..s.base] + s.batch[..Size(c, s.prod.ret)]
  {
    hide GoodCount, U32, Addr, Written, SegmentFits, ConsumerOk;
  }

  /** The tests and measurements of the two sides agree with the queue at the instant of
      the index read: a call is refused exactly when the queue is full (empty) then; a single
      call that is not refused moves one item, and a bulk call sets out to move as many items
      as there is room for (are queued) at its second read. */
  lemma IndexReadsAreExact(c: Config, s: State)
    requires Inv(c, s)
    ensures Valid(View(c, s))
    ensures var n := |Contents(View(c, s))|;
      && (s.prod.PCheck? ==> (ProducerStep(c, s).prod.PIdle? <==> n == c.count))
      && (s.cons.CCheck? ==> (ConsumerStep(c, s).cons.CIdle? <==> n == 0))
      && (s.prod.PCheck? && n < c.count ==>
            var p := ProducerStep(c, s).prod;
            if s.prod.mult then p == PMeasure(s.batch, s.prod.num) else p.PCopy? && p.ret == 1)
      && (s.cons.CCheck? && 0 < n ==>
            var q := ConsumerStep(c, s).cons;
            if s.cons.mult then q == CMeasure(s.cons.num) else q.CCopy? && q.ret == 1)
      && (s.prod.PMeasure? ==>
            var p := ProducerStep(c, s).prod; p.PCopy? && p.ret == Min(c.count - n, s.prod.num))
      && (s.cons.CMeasure? ==>
            var q := ConsumerStep(c, s).cons; q.CCopy? && q.ret == Min(n, s.cons.num))
  {
    hide GoodCount, U32, Addr, Memory, ConsumerOk;
    ViewIsValid(c, s);
    UsedIsDifference(c, s);
  }

  /** The effect of a step on the queue: only the producer's publication adds to it, a
      whole number of items at its end, and only the consumer's release takes from it. */
  lemma StepOnQueue(c: Config, s: State, step: Step)
    requires Inv(c, s)
    ensures var s' := Apply(c, s, step);
      && s.sent <= s'.sent && s.got <= s'.got
      && (s'.sent != s.sent ==> step == ProducerRuns && s.prod.PCopy? && s'.H == s.H + s.prod.n && s'.got == s.got)
      && (s'.got != s.got ==> step == ConsumerRuns && s.cons.CCopy? && s'.T == s.T + s.cons.n && s'.sent == s.sent)
      && (s'.bytes != s.bytes ==> step == ProducerRuns && s'.sent == s.sent)
  {
    hide GoodCount, U32, Addr, Memory, Written, SegmentFits;
  }

  /** The bytes and indices that a step leaves alone: only a copying producer writes a byte,
      and each index is written by its own side. */
  lemma SharedWrites(c: Config, s: State, step: Step)
    requires Inv(c, s)
    ensures var s' := Apply(c, s, step);
      && (s'.bytes != s.bytes ==>
            && step == ProducerRuns && s.prod.PCopy? && s.prod.done < Size(c, s.prod.n)
            && s' == WriteByte(c, s))
      && (s'.head != s.head ==> step == ProducerRuns)
      && (s'.tail != s.tail ==> step == ConsumerRuns)
  {
    hide GoodCount, U32, Addr, Memory, Written, SegmentFits;
  }

  /** The only write to the shared bytes is that of the next byte of the batch to its place
      in the producer's segment; the other side's index is never written. */
  lemma OnlyWrite(c: Config, s: State, step: Step, a: nat)
    requires Inv(c, s) && a < |s.bytes|
    ensures 0 < c.count
    ensures var s' := Apply(c, s, step);
      && |s'.bytes| == |s.bytes|
      && (s'.bytes[a] != s.bytes[a] ==>
            && step == ProducerRuns && s.prod.PCopy? && s.prod.done < Size(c, s.prod.n) && s.prod.done < |s.prod.data|
            && a == Offset(c.itemSz, IndexOf(c.count, s.head)) + s.prod.done
            && s'.bytes[a] == s.prod.data[s.prod.done])
      && (s'.head != s.head ==> step == ProducerRuns)
      && (s'.tail != s.tail ==> step == ConsumerRuns)
  {
    hide Inv, Apply;
    SharedWrites(c, s, step);
    HasConfig(c, s);
    if Apply(c, s, step).bytes != s.bytes {
      WritesOneByte(c, s, a);
    }
  }

  lemma HasConfig(c: Config, s: State)
    requires Inv(c, s)
    ensures GoodConfig(c) && 0 < c.count
  {
    CountBounds(c.count);
  }

  lemma WritesOneByte(c: Config, s: State, a: nat)
    requires Inv(c, s) && s.prod.PCopy? && s.prod.done < Size(c, s.prod.n) && a < |s.bytes|
    ensures 0 < c.count && s.prod.done < |s.prod.data|
    ensures var s' := WriteByte(c, s);
      && |s'.bytes| == |s.bytes|
      && (s'.bytes[a] != s.bytes[a] ==>
            && a == Offset(c.itemSz, IndexOf(c.count, s.head)) + s.prod.done
            && s'.bytes[a] == s.prod.data[s.prod.done])
  {
    hide GoodCount, U32, Addr, Memory, Written, ConsumerOk;
    CopyBounds(c, s, s.H, s.prod.n, s.prod.done);
    OffsetMonotone(c.itemSz, s.prod.n, s.prod.n + s.prod.rest);
  }

  // ---------- every call returns ----------

  /** A bound on the producer's own steps until its call returns. */
  function ProducerWork(c: Config, p: Producer): int
  {
    match p
    case PIdle(_) => 0
    case PCheck(_, num, _) => Size(c, num) + 4
    case PMeasure(_, num) => Size(c, num) + 3
    case PCopy(_, n, done, rest, last, _) =>
      Size(c, n) - done + (if last then 1 else Size(c, rest) + 2)
  }

  function ConsumerWork(c: Config, q: Consumer): int
  {
    match q
    case CIdle(_) => 0
    case CCheck(num, _) => Size(c, num) + 4
    case CMeasure(num) => Size(c, num) + 3
    case CCopy(n, buf, rest, last, _) =>
      Size(c, n) - |buf| + (if last then 1 else Size(c, rest) + 2)
  }

  /** Neither side ever waits for the other: each own step brings a pending call strictly
      closer to its return, and the other side's steps do not set it back. A call for num
      items begins with at most four steps more than there are bytes to copy. */
  lemma CallsAreWaitFree(c: Config, s: State)
    requires Inv(c, s)
    ensures 0 <= ProducerWork(c, s.prod) && 0 <= ConsumerWork(c, s.cons)
    ensures !s.prod.PIdle? ==> ProducerWork(c, ProducerStep(c, s).prod) < ProducerWork(c, s.prod)
    ensures !s.cons.CIdle? ==> ConsumerWork(c, ConsumerStep(c, s).cons) < ConsumerWork(c, s.cons)
    ensures ProducerStep(c, s).cons == s.cons && ConsumerStep(c, s).prod == s.prod
    ensures s.prod.PCheck? ==> ProducerWork(c, s.prod) == s.prod.num * c.itemSz + 4
    ensures s.cons.CCheck? ==> ConsumerWork(c, s.cons) == s.cons.num * c.itemSz + 4
  {
    if s.prod.PCheck? {
      OffsetIsProduct(c.itemSz, s.prod.num);
    }
    if s.cons.CCheck? {
      OffsetIsProduct(c.itemSz, s.cons.num);
    }
    ProducerWorkDecreases(c, s);
    ConsumerWorkDecreases(c, s);
  }

  lemma SegmentsCover(c: Config, n: nat, rest: nat, num: nat)
    requires n + rest <= num
    ensures Size(c, n) + Size(c, rest) <= Size(c, num)
  {
    OffsetAdd(c.itemSz, n, rest);
    OffsetMonotone(c.itemSz, n + rest, num);
  }

  lemma ProducerWorkDecreases(c: Config, s: State)
    requires Inv(c, s)
    ensures 0 <= ProducerWork(c, s.prod)
    ensures !s.prod.PIdle? ==> ProducerWork(c, ProducerStep(c, s).prod) < ProducerWork(c, s.prod)
    ensures ProducerStep(c, s).cons == s.cons
  {
    hide GoodCount, U32, Addr, Memory, Written, SegmentFits, ConsumerOk, Used;
    UsedIsDifference(c, s);
    if s.prod.PMeasure? {
      var p := ProducerStep(c, s).prod;
      SegmentsCover(c, p.n, p.rest, s.prod.num);
    }
  }

  lemma ConsumerWorkDecreases(c: Config, s: State)
    requires Inv(c, s)
    ensures 0 <= ConsumerWork(c, s.cons)
    ensures !s.cons.CIdle? ==> ConsumerWork(c, ConsumerStep(c, s).cons) < ConsumerWork(c, s.cons)
    ensures ConsumerStep(c, s).prod == s.prod
  {
    hide GoodCount, U32, Addr, Memory, SegmentFits, ProducerOk, Used;
    UsedIsDifference(c, s);
    if s.cons.CMeasure? {
      var q := ConsumerStep(c, s).cons;
      SegmentsCover(c, q.n, q.rest, s.cons.num);
    }
  }
}
