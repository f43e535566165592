/** What a whole schedule of the shared ring buffer amounts to, call by call: which parts of
    the inserted batches make up the stream, how the stream is dealt out to the removals, and
    when calls return. */
module SpscHistory {
  import opened Bits
  import opened RingModel
  import opened SpscRing

  // ---------- the calls of a schedule ----------

  /** A call that has returned: the batch passed to an insertion, or the bytes delivered by a
      removal, and the number of items returned. */
  datatype Call = Call(data: seq<byte>, ret: nat)

  datatype Log = Log(inserts: seq<Call>, pops: seq<Call>)

  /** A step after which a call has returned adds that call to the log. */
  ghost function Logged(c: Config, s: State, log: Log, step: Step): Log
    requires Inv(c, s)
  {
    StepIsSafe(c, s, step);
    var s' := Apply(c, s, step);
    if !s.prod.PIdle? && s'.prod.PIdle? then
      log.(inserts := log.inserts + [Call(s'.batch, s'.prod.ret)])
    else if !s.cons.CIdle? && s'.cons.CIdle? && s'.cbase <= |s'.got| then
      log.(pops := log.pops + [Call(s'.got[s'.cbase..], s'.cons.ret)])
    else log
  }

  /** The calls that have returned at the end of a schedule. */
  ghost function LogOf(c: Config, s: State, log: Log, steps: seq<Step>): Log
    requires Inv(c, s)
    decreases |steps|
  {
    if steps == [] then log
    else
      StepIsSafe(c, s, steps[0]);
      LogOf(c, Apply(c, s, steps[0]), Logged(c, s, log, steps[0]), steps[1..])
  }

  /** The number of items that a call returned are at the start of its data. */
  ghost predicate Covered(c: Config, calls: seq<Call>)
  {
    forall i :: 0 <= i < |calls| ==> Size(c, calls[i].ret) <= |calls[i].data|
  }

  /** Of each call as many items as it returned, one call behind the other. */
  ghost function Concatenated(c: Config, calls: seq<Call>): seq<byte>
    requires Covered(c, calls)
  {
    if calls == [] then []
    else
      var last := calls[|calls| - 1];
      Concatenated(c, calls[..|calls| - 1]) + last.data[..Size(c, last.ret)]
  }

  /** A removal delivered nothing but the items it returned. */
  ghost predicate Exact(c: Config, calls: seq<Call>)
  {
    forall i :: 0 <= i < |calls| ==> |calls[i].data| == Size(c, calls[i].ret)
  }

  /** Up to the start of the pending call the stream is what the insertions accepted, and
      the delivered part is what the removals returned. */
  ghost predicate Recorded(c: Config, s: State, log: Log)
  {
    && Covered(c, log.inserts) && Covered(c, log.pops) && Exact(c, log.pops)
    && s.base <= |s.sent| && s.cbase <= |s.got|
    && Concatenated(c, log.inserts) == (if s.prod.PIdle? then s.sent else s.sent[..s.base])
    && Concatenated(c, log.pops) == (if s.cons.CIdle? then s.got else s.got[..s.cbase])
  }

  lemma OneCallMore(c: Config, calls: seq<Call>, call: Call)
    requires Covered(c, calls) && Size(c, call.ret) <= |call.data|
    ensures Covered(c, calls + [call])
    ensures Concatenated(c, calls + [call]) == Concatenated(c, calls) + call.data[..Size(c, call.ret)]
  {
    assert (calls + [call])[..|calls|] == calls;
  }

  /** How a step moves the producer's record. */
  lemma InsertRecord(c: Config, s: State, step: Step)
    requires Inv(c, s)
    ensures var s' := Apply(c, s, step);
      && s.base <= |s.sent| && s'.base <= |s'.sent|
      && (s.prod.PIdle? && s'.prod.PIdle? ==> s'.sent == s.sent)
      && (s.prod.PIdle? && !s'.prod.PIdle? ==> s'.sent == s.sent && s'.base == |s.sent|)
      && (!s.prod.PIdle? ==> s'.base == s.base && s'.batch == s.batch && s'.sent[..s.base] == s.sent[..s.base])
      && (!s.prod.PIdle? && s'.prod.PIdle? ==>
            && Size(c, s'.prod.ret) <= |s'.batch|
            && s'.sent == s.sent[..s.base] + s'.batch[..Size(c, s'.prod.ret)]
            && s'.cons == s.cons && s'.got == s.got && s'.cbase == s.cbase)
  {
    hide Inv, ConsumerStep;
    StepIsSafe(c, s, step);
    StepOnQueue(c, s, step);
    OnlyAPrefixIsVisible(c, s);
    OnlyAPrefixIsVisible(c, Apply(c, s, step));
    OwnFields(c, s, step);
  }

  /** How a step moves the consumer's record. */
  lemma PopRecord(c: Config, s: State, step: Step)
    requires Inv(c, s)
    ensures var s' := Apply(c, s, step);
      && s.cbase <= |s.got| && s'.cbase <= |s'.got|
      && (s.cons.CIdle? && s'.cons.CIdle? ==> s'.got == s.got)
      && (s.cons.CIdle? && !s'.cons.CIdle? ==> s'.got == s.got && s'.cbase == |s.got|)
      && (!s.cons.CIdle? ==> s'.cbase == s.cbase && s'.got[..s.cbase] == s.got[..s.cbase])
      && (!s.cons.CIdle? && s'.cons.CIdle? ==> |s'.got| == s'.cbase + Size(c, s'.cons.ret))
  {
    hide Inv, ProducerStep;
    StepIsSafe(c, s, step);
    StepOnQueue(c, s, step);
    ConsumerBase(c, s);
    ConsumerBase(c, Apply(c, s, step));
    OwnFields(c, s, step);
  }

  lemma ConsumerBase(c: Config, s: State)
    requires Inv(c, s)
    ensures s.cbase <= |s.got|
    ensures s.cons.CIdle? ==> |s.got| == s.cbase + Size(c, s.cons.ret)
  {
    hide GoodCount, Addr, Memory, ProducerOk, SegmentFits;
  }

  /** Each side touches only its own record, and only a new call starts a new one. */
  lemma OwnFields(c: Config, s: State, step: Step)
    requires Inv(c, s)
    ensures var s' := Apply(c, s, step);
      && (step.CallPop? || step.ConsumerRuns? ==>
            (s'.prod, s'.base, s'.batch, s'.sent) == (s.prod, s.base, s.batch, s.sent))
      && (step.CallInsert? || step.ProducerRuns? ==>
            (s'.cons, s'.cbase, s'.got) == (s.cons, s.cbase, s.got))
      && (step.CallInsert? && !s.prod.PIdle? ==> s' == s)
      && (step.CallPop? && !s.cons.CIdle? ==> s' == s)
      && (step.ProducerRuns? ==> s'.base == s.base && s'.batch == s.batch && (s.prod.PIdle? ==> s' == s))
      && (step.ConsumerRuns? ==> s'.cbase == s.cbase && (s.cons.CIdle? ==> s' == s))
      && (step.CallInsert? && s.prod.PIdle? && s'.prod.PIdle? ==> s' == s)
      && (step.CallInsert? && !s'.prod.PIdle? ==> s'.sent == s.sent && (s.prod.PIdle? ==> s'.base == |s.sent|))
      && (step.CallPop? && s.cons.CIdle? && s'.cons.CIdle? ==> s' == s)
      && (step.CallPop? && !s'.cons.CIdle? ==> s'.got == s.got && (s.cons.CIdle? ==> s'.cbase == |s.got|))
  {
    hide GoodCount, Addr, Memory, ProducerOk, ConsumerOk, Counters;
  }

  lemma LoggedIsRecorded(c: Config, s: State, log: Log, step: Step)
    requires Inv(c, s) && Recorded(c, s, log)
    ensures Recorded(c, Apply(c, s, step), Logged(c, s, log, step))
  {
    hide Inv, Apply, Concatenated;
    InsertRecord(c, s, step);
    PopRecord(c, s, step);
    var s' := Apply(c, s, step);
    if !s.prod.PIdle? && s'.prod.PIdle? {
      OneCallMore(c, log.inserts, Call(s'.batch, s'.prod.ret));
    } else if !s.cons.CIdle? && s'.cons.CIdle? {
      OneCallMore(c, log.pops, Call(s'.got[s'.cbase..], s'.cons.ret));
    }
  }

  lemma {:induction false} RunIsRecorded(c: Config, s: State, log: Log, steps: seq<Step>)
    requires Inv(c, s) && Recorded(c, s, log)
    ensures Recorded(c, Run(c, s, steps), LogOf(c, s, log, steps))
    decreases |steps|
  {
    if steps != [] {
      hide Inv, Apply, Recorded, Logged;
      StepIsSafe(c, s, steps[0]);
      LoggedIsRecorded(c, s, log, steps[0]);
      RunIsRecorded(c, Apply(c, s, steps[0]), Logged(c, s, log, steps[0]), steps[1..]);
    }
  }

  // ---------- what the callers asked for ----------

  /** A call as its caller makes it: the area passed to an insertion, the number of items to
      be removed, and the number of items it is sure to move: as many as there is room for
      (as are queued) at that instant, but no more than asked for. */
  datatype Order = Order(data: seq<byte>, sure: int)

  datatype Request = Request(num: nat, sure: int)

  /** The order of an insertion that an idle producer accepts: its area holds num items, and
      one item for a single insertion. */
  function GivenBy(c: Config, s: State, step: Step): seq<Order>
  {
    match step
    case CallInsert(data, num, mult) =>
      if s.prod.PIdle? && |data| == Size(c, num) && (mult || num == 1)
      then [Order(data, Min(c.count - (s.H - s.T), num))]
      else []
    case _ => []
  }

  /** The request of a removal that an idle consumer accepts. */
  function AskedBy(s: State, step: Step): seq<Request>
  {
    match step
    case CallPop(num, mult) =>
      if s.cons.CIdle? && (mult || num == 1) then [Request(num, Min(s.H - s.T, num))] else []
    case _ => []
  }

  /** The orders of the accepted insertions of a schedule, read off its steps. */
  ghost function Given(c: Config, s: State, steps: seq<Step>): seq<Order>
    requires Inv(c, s)
    decreases |steps|
  {
    if steps == [] then []
    else
      StepIsSafe(c, s, steps[0]);
      GivenBy(c, s, steps[0]) + Given(c, Apply(c, s, steps[0]), steps[1..])
  }

  /** The requests of its accepted removals. */
  ghost function Asked(c: Config, s: State, steps: seq<Step>): seq<Request>
    requires Inv(c, s)
    decreases |steps|
  {
    if steps == [] then []
    else
      StepIsSafe(c, s, steps[0]);
      AskedBy(s, steps[0]) + Asked(c, Apply(c, s, steps[0]), steps[1..])
  }

  /** The pending insertion will keep its order: until it has settled on a number of items
      there is at least as much room as when it was called. */
  ghost predicate WillServe(c: Config, s: State, order: Order)
  {
    && s.batch == order.data
    && match s.prod
       case PIdle(_) => true
       case PCheck(_, num, _) => order.sure <= num && order.sure <= c.count - (s.H - s.T)
       case PMeasure(_, num) => order.sure <= num && order.sure <= c.count - (s.H - s.T)
       case PCopy(_, _, _, _, _, ret) => order.sure <= ret
  }

  ghost predicate WillDeliver(s: State, request: Request)
  {
    match s.cons
    case CIdle(_) => true
    case CCheck(num, _) => num == request.num && request.sure <= num && request.sure <= s.H - s.T
    case CMeasure(num) => num == request.num && request.sure <= num && request.sure <= s.H - s.T
    case CCopy(_, _, _, _, ret) => request.sure <= ret <= request.num
  }

  /** The logged insertions and the pending one were passed exactly the given areas, in
      order, and accept at least as many items as they were sure to. */
  ghost predicate Served(c: Config, s: State, inserts: seq<Call>, given: seq<Order>)
  {
    && |given| == |inserts| + (if s.prod.PIdle? then 0 else 1)
    && (forall i :: 0 <= i < |inserts| ==> inserts[i].data == given[i].data && given[i].sure <= inserts[i].ret)
    && (!s.prod.PIdle? ==> WillServe(c, s, given[|inserts|]))
  }

  /** The logged removals and the pending one were asked for exactly these numbers of items,
      in order, and return no more, and at least as many as they were sure to. */
  ghost predicate Delivered(s: State, pops: seq<Call>, asked: seq<Request>)
  {
    && |asked| == |pops| + (if s.cons.CIdle? then 0 else 1)
    && (forall i :: 0 <= i < |pops| ==> asked[i].sure <= pops[i].ret <= asked[i].num)
    && (!s.cons.CIdle? ==> WillDeliver(s, asked[|pops|]))
  }

  /** Nobody takes room from a pending insertion, or items from a pending removal. */
  lemma RoomStays(c: Config, s: State, step: Step)
    requires Inv(c, s)
    ensures var s' := Apply(c, s, step);
      && s.H <= s'.H && s.T <= s'.T
      && (!s.prod.PCopy? ==> s'.H == s.H)
      && (!s.cons.CCopy? ==> s'.T == s.T)
  {
    hide GoodCount, Addr, Memory, ProducerOk, ConsumerOk, Counters;
  }

  lemma NewOrder(c: Config, s: State, step: Step)
    requires Inv(c, s) && s.prod.PIdle?
    ensures var s', g := Apply(c, s, step), GivenBy(c, s, step);
      if g == [] then s'.prod.PIdle? else |g| == 1 && !s'.prod.PIdle? && WillServe(c, s', g[0])
  {
    hide GoodCount, Addr, Memory, ProducerOk, ConsumerOk, Counters;
  }

  lemma OldOrder(c: Config, s: State, step: Step, order: Order)
    requires Inv(c, s) && !s.prod.PIdle? && WillServe(c, s, order)
    ensures GivenBy(c, s, step) == []
    ensures var s' := Apply(c, s, step);
      WillServe(c, s', order) && s'.batch == order.data && (s'.prod.PIdle? ==> order.sure <= s'.prod.ret)
  {
    hide GoodCount, Addr, Memory, ConsumerOk, SegmentFits, Written, U32, Used;
    UsedIsDifference(c, s);
    RoomStays(c, s, step);
  }

  lemma LoggedIsServed(c: Config, s: State, log: Log, step: Step, given: seq<Order>)
    requires Inv(c, s) && Served(c, s, log.inserts, given)
    ensures Served(c, Apply(c, s, step), Logged(c, s, log, step).inserts, given + GivenBy(c, s, step))
  {
    hide Inv, Apply, GivenBy, WillServe;
    if s.prod.PIdle? {
      NewOrder(c, s, step);
    } else {
      OldOrder(c, s, step, given[|log.inserts|]);
    }
  }

  lemma NewRequest(c: Config, s: State, step: Step)
    requires Inv(c, s) && s.cons.CIdle?
    ensures var s', a := Apply(c, s, step), AskedBy(s, step);
      if a == [] then s'.cons.CIdle? else |a| == 1 && !s'.cons.CIdle? && WillDeliver(s', a[0])
  {
    hide GoodCount, Addr, Memory, ProducerOk, ConsumerOk, Counters;
  }

  lemma OldRequest(c: Config, s: State, step: Step, request: Request)
    requires Inv(c, s) && !s.cons.CIdle? && WillDeliver(s, request)
    ensures AskedBy(s, step) == []
    ensures var s' := Apply(c, s, step);
      WillDeliver(s', request) && (s'.cons.CIdle? ==> request.sure <= s'.cons.ret <= request.num)
  {
    hide GoodCount, Addr, Memory, ProducerOk, SegmentFits, U32, Used;
    UsedIsDifference(c, s);
    RoomStays(c, s, step);
  }

  lemma LoggedIsDelivered(c: Config, s: State, log: Log, step: Step, asked: seq<Request>)
    requires Inv(c, s) && Delivered(s, log.pops, asked)
    ensures Delivered(Apply(c, s, step), Logged(c, s, log, step).pops, asked + AskedBy(s, step))
  {
    hide Inv, Apply, AskedBy, WillDeliver;
    StepIsSafe(c, s, step);
    ConsumerBase(c, Apply(c, s, step));
    ReturnsAreApart(c, s, step);
    if s.cons.CIdle? {
      NewRequest(c, s, step);
    } else {
      OldRequest(c, s, step, asked[|log.pops|]);
    }
  }

  /** No step lets both sides return. */
  lemma ReturnsAreApart(c: Config, s: State, step: Step)
    requires Inv(c, s)
    ensures var s' := Apply(c, s, step);
      s'.prod == s.prod || s'.cons == s.cons
  {
    hide GoodCount, Addr, Memory, ProducerOk, ConsumerOk, Counters;
  }

  lemma Associates<T>(a: seq<T>, b: seq<T>, c: seq<T>)
    ensures a + b + c == a + (b + c)
  {
  }

  lemma {:induction false} RunIsServed(c: Config, s: State, log: Log, steps: seq<Step>, given: seq<Order>)
    requires Inv(c, s) && Served(c, s, log.inserts, given)
    ensures Served(c, Run(c, s, steps), LogOf(c, s, log, steps).inserts, given + Given(c, s, steps))
    decreases |steps|
  {
    if steps == [] {
      assert given + [] == given;
    } else {
      hide Inv, Apply, Served, Logged, GivenBy;
      StepIsSafe(c, s, steps[0]);
      LoggedIsServed(c, s, log, steps[0], given);
      var s1, g := Apply(c, s, steps[0]), GivenBy(c, s, steps[0]);
      RunIsServed(c, s1, Logged(c, s, log, steps[0]), steps[1..], given + g);
      Associates(given, g, Given(c, s1, steps[1..]));
    }
  }

  lemma {:induction false} RunIsDelivered(c: Config, s: State, log: Log, steps: seq<Step>, asked: seq<Request>)
    requires Inv(c, s) && Delivered(s, log.pops, asked)
    ensures Delivered(Run(c, s, steps), LogOf(c, s, log, steps).pops, asked + Asked(c, s, steps))
    decreases |steps|
  {
    if steps == [] {
      assert asked + [] == asked;
    } else {
      hide Inv, Apply, Delivered, Logged, AskedBy;
      StepIsSafe(c, s, steps[0]);
      LoggedIsDelivered(c, s, log, steps[0], asked);
      var s1, a := Apply(c, s, steps[0]), AskedBy(s, steps[0]);
      RunIsDelivered(c, s1, Logged(c, s, log, steps[0]), steps[1..], asked + a);
      Associates(asked, a, Asked(c, s1, steps[1..]));
    }
  }

  /** For every schedule from an initialised buffer: the stream is the concatenation, over
      all insertions in order, of as many items of each batch as the call returned, followed
      by a prefix of the batch of the pending call; and the removals cut the beginning of
      this stream into consecutive pieces, each as long as the call returned, followed by
      what the pending removal has delivered so far. The batches are the areas that the
      callers passed, in order; no removal returns more items than its caller asked for, and
      no call moves fewer items than were asked for and had room (were queued) when it was
      made, whatever the other side does meanwhile. */
  lemma EveryScheduleByCalls(c: Config, bytes: seq<byte>, steps: seq<Step>)
    requires GoodConfig(c) && Size(c, c.count) <= |bytes| < 0x8000_0000
    ensures Inv(c, Init(c, bytes))
    ensures var s := Run(c, Init(c, bytes), steps);
      var log := LogOf(c, Init(c, bytes), Log([], []), steps);
      && Covered(c, log.inserts) && Covered(c, log.pops) && Exact(c, log.pops)
      && Concatenated(c, log.inserts) <= s.sent
      && s.sent <= Concatenated(c, log.inserts) + (if s.prod.PIdle? then [] else s.batch)
      && Concatenated(c, log.pops) <= s.got <= s.sent
      && (s.cons.CIdle? ==> s.got == Concatenated(c, log.pops))
      && Served(c, s, log.inserts, Given(c, Init(c, bytes), steps))
      && Delivered(s, log.pops, Asked(c, Init(c, bytes), steps))
  {
    hide Inv, Run, LogOf, Concatenated, Served, Delivered, Given, Asked;
    InitIsSafe(c, bytes);
    InitIsRecorded(c, bytes);
    RunIsRecorded(c, Init(c, bytes), Log([], []), steps);
    NothingAsked(c, bytes, steps);
    OnlyAPrefixIsVisible(c, Run(c, Init(c, bytes), steps));
  }

  lemma NothingAsked(c: Config, bytes: seq<byte>, steps: seq<Step>)
    requires GoodConfig(c) && Size(c, c.count) <= |bytes| < 0x8000_0000
    ensures Inv(c, Init(c, bytes))
    ensures var s, log := Run(c, Init(c, bytes), steps), LogOf(c, Init(c, bytes), Log([], []), steps);
      && Served(c, s, log.inserts, Given(c, Init(c, bytes), steps))
      && Delivered(s, log.pops, Asked(c, Init(c, bytes), steps))
  {
    hide Inv, Run, LogOf, Given, Asked;
    InitIsSafe(c, bytes);
    RunIsServed(c, Init(c, bytes), Log([], []), steps, []);
    RunIsDelivered(c, Init(c, bytes), Log([], []), steps, []);
    assert [] + Given(c, Init(c, bytes), steps) == Given(c, Init(c, bytes), steps);
    assert [] + Asked(c, Init(c, bytes), steps) == Asked(c, Init(c, bytes), steps);
  }

  lemma InitIsRecorded(c: Config, bytes: seq<byte>)
    ensures Recorded(c, Init(c, bytes), Log([], []))
  {
  }

  // ---------- calls return ----------

  function Count(steps: seq<Step>, step: Step): nat
  {
    if steps == [] then 0 else Count(steps[1..], step) + (if steps[0] == step then 1 else 0)
  }

  lemma PendingStays(c: Config, s: State, step: Step)
    requires Inv(c, s)
    ensures !s.prod.PIdle? && step != ProducerRuns ==> Apply(c, s, step).prod == s.prod
    ensures !s.cons.CIdle? && step != ConsumerRuns ==> Apply(c, s, step).cons == s.cons
  {
    hide Inv;
    OwnFields(c, s, step);
  }

  /** Wait-freedom of the producer: in every schedule that gives it as many steps as its
      pending call has work left, the call returns, whatever the consumer does meanwhile. */
  lemma {:induction false} InsertReturns(c: Config, s: State, steps: seq<Step>)
    requires Inv(c, s) && Count(steps, ProducerRuns) >= ProducerWork(c, s.prod)
    ensures exists k :: 0 <= k <= |steps| && Run(c, s, steps[..k]).prod.PIdle?
    decreases |steps|
  {
    hide Inv, Apply, ProducerWork;
    if s.prod.PIdle? {
      assert Run(c, s, steps[..0]) == s;
    } else {
      CallsAreWaitFree(c, s);
      PendingHasWork(c, s);
      assert steps != [];
      var step := steps[0];
      ProducerProgress(c, s, step);
      StepIsSafe(c, s, step);
      InsertReturns(c, Apply(c, s, step), steps[1..]);
      var k :| 0 <= k <= |steps[1..]| && Run(c, Apply(c, s, step), steps[1..][..k]).prod.PIdle?;
      RunAfter(c, s, steps, k);
    }
  }

  lemma PendingHasWork(c: Config, s: State)
    requires Inv(c, s)
    ensures !s.prod.PIdle? ==> 0 < ProducerWork(c, s.prod)
    ensures !s.cons.CIdle? ==> 0 < ConsumerWork(c, s.cons)
  {
    hide GoodCount, Addr, Memory, SegmentFits, Written;
  }

  lemma ProducerProgress(c: Config, s: State, step: Step)
    requires Inv(c, s) && !s.prod.PIdle?
    ensures ProducerWork(c, Apply(c, s, step).prod) <= ProducerWork(c, s.prod) - (if step == ProducerRuns then 1 else 0)
  {
    hide Inv, ProducerWork;
    CallsAreWaitFree(c, s);
    PendingStays(c, s, step);
  }

  lemma ConsumerProgress(c: Config, s: State, step: Step)
    requires Inv(c, s) && !s.cons.CIdle?
    ensures ConsumerWork(c, Apply(c, s, step).cons) <= ConsumerWork(c, s.cons) - (if step == ConsumerRuns then 1 else 0)
  {
    hide Inv, ConsumerWork;
    CallsAreWaitFree(c, s);
    PendingStays(c, s, step);
  }

  lemma RunAfter(c: Config, s: State, steps: seq<Step>, k: nat)
    requires Inv(c, s) && steps != [] && k <= |steps| - 1
    ensures Inv(c, Apply(c, s, steps[0]))
    ensures Run(c, s, steps[..k + 1]) == Run(c, Apply(c, s, steps[0]), steps[1..][..k])
  {
    hide Inv, Apply;
    StepIsSafe(c, s, steps[0]);
    assert steps[..k + 1][1..] == steps[1..][..k];
  }

  /** The same for the consumer. */
  lemma {:induction false} PopReturns(c: Config, s: State, steps: seq<Step>)
    requires Inv(c, s) && Count(steps, ConsumerRuns) >= ConsumerWork(c, s.cons)
    ensures exists k :: 0 <= k <= |steps| && Run(c, s, steps[..k]).cons.CIdle?
    decreases |steps|
  {
    hide Inv, Apply, ConsumerWork;
    if s.cons.CIdle? {
      assert Run(c, s, steps[..0]) == s;
    } else {
      CallsAreWaitFree(c, s);
      PendingHasWork(c, s);
      assert steps != [];
      var step := steps[0];
      ConsumerProgress(c, s, step);
      StepIsSafe(c, s, step);
      PopReturns(c, Apply(c, s, step), steps[1..]);
      var k :| 0 <= k <= |steps[1..]| && Run(c, Apply(c, s, step), steps[1..][..k]).cons.CIdle?;
      RunAfter(c, s, steps, k);
    }
  }
}
