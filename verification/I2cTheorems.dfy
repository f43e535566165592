/** What holds of every run of an I2C master transfer, as consequences of the invariant of
    I2cRuns: the bytes, the traffic, the STOP conditions, the number of handler calls. */
module I2cTheorems {
  import opened Bits
  import opened I2cTransfer
  import opened I2cRuns

  // ---------- whole runs ----------

  datatype Step = BusEvent(ev: Event) | HandlerCall

  /** Nothing is done any more once the handler has reported the end of the transfer. A
      handler call that would leave the buffers does not take place; EveryRunIsSafe shows
      that there is none. */
  function Apply(s: Sys, step: Step): Sys
  {
    if Done(s) then s
    else match step
      case BusEvent(ev) => React(s, ev)
      case HandlerCall => if Accessible(s) then Handle(s) else s
  }

  function Run(s: Sys, steps: seq<Step>): Sys
    decreases |steps|
  {
    if steps == [] then s else Run(Apply(s, steps[0]), steps[1..])
  }

  lemma {:induction false} RunKeepsInv(x0: Xfer, s: Sys, steps: seq<Step>)
    requires Inv(x0, s)
    ensures Inv(x0, Run(s, steps))
    decreases |steps|
  {
    hide Inv;
    if steps != [] {
      if !Done(s) {
        match steps[0] {
          case BusEvent(ev) => ReactIsSafe(x0, s, ev);
          case HandlerCall => HandleIsSafe(x0, s);
        }
      }
      RunKeepsInv(x0, Apply(s, steps[0]), steps[1..]);
    }
  }

  function OutByte(sym: Sym): seq<byte> { if sym.Out? then [sym.b] else [] }

  function InByte(sym: Sym): seq<byte> { if sym.In? then [sym.b] else [] }

  /** The data bytes the master put on the bus. */
  function OutBytes(t: seq<Sym>): seq<byte>
  {
    if t == [] then [] else OutByte(t[0]) + OutBytes(t[1..])
  }

  /** The data bytes the slave put on the bus. */
  function InBytes(t: seq<Sym>): seq<byte>
  {
    if t == [] then [] else InByte(t[0]) + InBytes(t[1..])
  }

  lemma {:induction false} OutOfConcat(t: seq<Sym>, u: seq<Sym>)
    ensures OutBytes(t + u) == OutBytes(t) + OutBytes(u)
  {
    hide OutByte;
    if t == [] {
      assert t + u == u;
    } else {
      assert (t + u)[1..] == t[1..] + u;
      OutOfConcat(t[1..], u);
      assert OutByte(t[0]) + OutBytes(t[1..]) + OutBytes(u) == OutByte(t[0]) + (OutBytes(t[1..]) + OutBytes(u));
    }
  }

  lemma {:induction false} InOfConcat(t: seq<Sym>, u: seq<Sym>)
    ensures InBytes(t + u) == InBytes(t) + InBytes(u)
  {
    hide InByte;
    if t == [] {
      assert t + u == u;
    } else {
      assert (t + u)[1..] == t[1..] + u;
      InOfConcat(t[1..], u);
      assert InByte(t[0]) + InBytes(t[1..]) + InBytes(u) == InByte(t[0]) + (InBytes(t[1..]) + InBytes(u));
    }
  }

  lemma BytesOfConcat(t: seq<Sym>, u: seq<Sym>)
    ensures OutBytes(t + u) == OutBytes(t) + OutBytes(u)
    ensures InBytes(t + u) == InBytes(t) + InBytes(u)
  {
    OutOfConcat(t, u);
    InOfConcat(t, u);
  }

  lemma {:induction false} BytesOfWritten(bs: seq<byte>)
    ensures OutBytes(WriteBytes(bs)) == bs && InBytes(WriteBytes(bs)) == []
  {
    if bs != [] {
      hide OutBytes, InBytes;
      BytesOfWritten(bs[1..]);
      BytesOfConcat([Out(bs[0]), SAck], WriteBytes(bs[1..]));
      DataAndBit(bs[0]);
      assert bs == [bs[0]] + bs[1..];
    } else {
      assert bs == [];
    }
  }

  lemma {:induction false} BytesOfAcked(bs: seq<byte>)
    ensures OutBytes(AckedBytes(bs)) == [] && InBytes(AckedBytes(bs)) == bs
  {
    if bs != [] {
      hide OutBytes, InBytes;
      BytesOfAcked(bs[1..]);
      BytesOfConcat([In(bs[0]), MAck], AckedBytes(bs[1..]));
      DataAndBit(bs[0]);
      assert bs == [bs[0]] + bs[1..];
    } else {
      assert bs == [];
    }
  }

  lemma DataAndBit(b: byte)
    ensures OutBytes([Out(b), SAck]) == [b] && InBytes([Out(b), SAck]) == []
    ensures OutBytes([In(b), MAck]) == [] && InBytes([In(b), MAck]) == [b]
  {
    BytesOfPair(Out(b), SAck);
    BytesOfPair(In(b), MAck);
  }

  lemma BytesOfPair(a: Sym, b: Sym)
    ensures OutBytes([a, b]) == OutBytes([a]) + OutBytes([b])
    ensures InBytes([a, b]) == InBytes([a]) + InBytes([b])
  {
    BytesOfConcat([a], [b]);
    assert [a] + [b] == [a, b];
  }

  lemma BytesOfHeader(b: byte)
    ensures OutBytes([Start, Address(b)]) == [] && InBytes([Start, Address(b)]) == []
    ensures OutBytes([Start, Address(b), SAck]) == [] && InBytes([Start, Address(b), SAck]) == []
  {
    BytesOfPair(Start, Address(b));
    BytesOfConcat([Start, Address(b)], [SAck]);
  }

  lemma BytesOfWriteTrace(x0: Xfer, n: nat)
    requires n <= |x0.tx|
    ensures OutBytes(WriteTrace(x0, n)) == x0.tx[..n] && InBytes(WriteTrace(x0, n)) == []
  {
    BytesOfHeader(WriteByteOf(x0));
    BytesOfWritten(x0.tx[..n]);
    BytesOfConcat(WriteHeader(x0.slaveAddr), WriteBytes(x0.tx[..n]));
  }

  lemma BytesOfLead(x0: Xfer)
    requires x0.txSz <= |x0.tx|
    ensures OutBytes(Lead(x0)) == x0.tx[..x0.txSz] && InBytes(Lead(x0)) == []
  {
    BytesOfWriteTrace(x0, x0.txSz);
  }

  lemma BytesOfReadTrace(x0: Xfer, rs: seq<byte>)
    requires x0.txSz <= |x0.tx|
    ensures OutBytes(ReadTrace(x0, rs)) == x0.tx[..x0.txSz] && InBytes(ReadTrace(x0, rs)) == rs
  {
    BytesOfLead(x0);
    BytesOfHeader(ReadByteOf(x0));
    BytesOfAcked(rs);
    BytesOfConcat(Lead(x0), ReadHeader(x0.slaveAddr));
    BytesOfConcat(Lead(x0) + ReadHeader(x0.slaveAddr), AckedBytes(rs));
  }

  /** The traffic t carries exactly the bytes that the transfer structure accounts for. */
  ghost predicate Accounts(x0: Xfer, x: Xfer, t: seq<Sym>)
    requires x.txPos <= |x0.tx| && x.rxPos <= |x.rx|
  {
    OutBytes(t) == x0.tx[..x.txPos] && InBytes(t) == x.rx[..x.rxPos]
  }

  lemma AwaitAccounts(x0: Xfer, x: Xfer, t: seq<Sym>, calls: nat)
    requires Job(x0) && Progress(x0, x) && AwaitTrace(x0, x, t, calls)
    ensures Accounts(x0, x, t)
  {
    hide WriteTrace, ReadTrace, Lead, OutBytes, InBytes;
    if WriteAddressed(x0, x, t, calls) {
      BytesOfHeader(WriteByteOf(x0));
    } else if ByteSent(x0, x, t, calls) {
      var n := x.txPos - 1;
      BytesOfWriteTrace(x0, n);
      BytesOfConcat(WriteTrace(x0, n), [Out(x0.tx[n])]);
      SingleByte(x0.tx[n]);
      assert x0.tx[..n] + [x0.tx[n]] == x0.tx[..n + 1];
    } else if ReadAddressed(x0, x, t, calls) {
      BytesOfLead(x0);
      BytesOfHeader(ReadByteOf(x0));
      BytesOfConcat(Lead(x0), [Start, Address(ReadByteOf(x0))]);
    } else {
      BytesOfReadTrace(x0, x.rx[..x.rxPos]);
    }
  }

  lemma SingleByte(b: byte)
    ensures OutBytes([Out(b)]) == [b] && InBytes([Out(b)]) == []
    ensures OutBytes([In(b)]) == [] && InBytes([In(b)]) == [b]
  {
  }

  /** At every reachable state of a transfer under way: bytes sent and bytes left make up
      the original size and the bytes sent are that prefix of the transmit buffer; the bytes
      received so far stand in order at the start of the receive buffer, which is untouched
      behind them. */
  lemma BytesInOrder(x0: Xfer, s: Sys)
    requires Inv(x0, s) && !Done(s)
    ensures s.x.txPos + s.x.txSz == x0.txSz && s.x.rxPos + s.x.rxSz == x0.rxSz
    ensures OutBytes(s.trace) == x0.tx[..s.x.txPos]
    ensures InBytes(s.trace) == s.x.rx[..s.x.rxPos] + (if s.ctl == RxPend then [s.mstdat] else [])
    ensures s.x.rx[s.x.rxPos..] == x0.rx[s.x.rxPos..]
  {
    hide WriteTrace, ReadTrace, Lead, OutBytes, InBytes, ArbLoss, StartStopError, Pending, MasterState;
    match s.ctl {
      case TxPend => BytesOfWriteTrace(x0, s.x.txPos);
      case RxPend =>
        BytesOfReadTrace(x0, s.x.rx[..s.x.rxPos]);
        SingleByte(s.mstdat);
        BytesOfConcat(ReadTrace(x0, s.x.rx[..s.x.rxPos]), [In(s.mstdat)]);
      case NackPend =>
        var t := s.trace[..|s.trace| - 1];
        AwaitAccounts(x0, s.x, t, s.calls);
        BytesOfConcat(t, [SNack]);
        NoBytes();
      case _ => AwaitAccounts(x0, s.x, s.trace, s.calls);
    }
  }

  lemma NoBytes()
    ensures OutBytes([SNack]) == [] && InBytes([SNack]) == []
  {
  }

  /** For every transfer with at least one byte, every state in which Xfer finds the
      controller and every sequence of bus events and handler calls: the invariant holds,
      no handler call leaves the buffers, and a finished run has one of the outcomes. */
  lemma EveryRunIsSafe(x0: Xfer, stat: bv32, mstdat: nat, ctl: Ctl, steps: seq<Step>)
    requires Job(x0) && x0.txSz + x0.rxSz > 0
    ensures var s := Run(Begin(x0, stat, mstdat, ctl), steps);
      && Progress(x0, s.x)
      && (if Done(s) then Outcome(x0, s) else Accessible(s) && Stop !in s.trace && s.calls < AllCalls(x0))
      && Inv(x0, s)
  {
    BeginIsSafe(x0, stat, mstdat, ctl);
    RunKeepsInv(x0, Begin(x0, stat, mstdat, ctl), steps);
    hide Outcome, Stage, Run, Begin;
    if !Done(Run(Begin(x0, stat, mstdat, ctl), steps)) {
      InvIsAccessible(x0, Run(Begin(x0, stat, mstdat, ctl), steps));
    }
  }

  /** A run that ends OK has put exactly the documented form on the bus, bytes in buffer
      order, and needed one handler call for each byte and one more for the write part. */
  lemma SuccessIsDocumented(x0: Xfer, stat: bv32, mstdat: nat, ctl: Ctl, steps: seq<Step>)
    requires Job(x0) && x0.txSz + x0.rxSz > 0
    ensures var s := Run(Begin(x0, stat, mstdat, ctl), steps);
      s.x.status == STATUS_OK ==>
        && |s.x.rx| == |x0.rx| && s.x.rx[x0.rxSz..] == x0.rx[x0.rxSz..]
        && s.trace == Documented(x0.slaveAddr, x0.tx[..x0.txSz], s.x.rx[..x0.rxSz])
        && s.calls == AllCalls(x0)
  {
    EveryRunIsSafe(x0, stat, mstdat, ctl, steps);
    hide Run, Begin, Documented, AwaitTrace, NackTrace;
  }

  /** STOP conditions: exactly one, at the end, when the run ends OK or without acknowledge;
      none when it ends with lost arbitration, a bus error or an unexpected state. */
  lemma StopsByOutcome(x0: Xfer, stat: bv32, mstdat: nat, ctl: Ctl, steps: seq<Step>)
    requires Job(x0) && x0.txSz + x0.rxSz > 0
    ensures var s := Run(Begin(x0, stat, mstdat, ctl), steps);
      Done(s) ==>
        && s.x.status in {STATUS_OK, STATUS_NAK_ADR, STATUS_NAK_DAT, STATUS_ARBLOST, STATUS_BUS_ERROR, STATUS_ERROR}
        && multiset(s.trace)[Stop]
           == (if s.x.status in {STATUS_OK, STATUS_NAK_ADR, STATUS_NAK_DAT} then 1 else 0)
        && s.calls <= AllCalls(x0)
  {
    EveryRunIsSafe(x0, stat, mstdat, ctl, steps);
    var s := Run(Begin(x0, stat, mstdat, ctl), steps);
    hide Run, Begin, Documented, AwaitTrace, NackTrace;
    if Done(s) && OneStop(s.trace) {
      StopCount(s.trace);
    }
  }

  lemma StopCount(t: seq<Sym>)
    requires OneStop(t)
    ensures multiset(t)[Stop] == 1
  {
    var u := t[..|t| - 1];
    assert t == u + [Stop];
    assert Stop !in multiset(u);
  }

  // ---------- leftover faults ----------

  /** Neither flag nor status tells of lost arbitration (of a bus error). */
  ghost predicate NoArbLoss(s: Sys) { !ArbLoss(s.stat) && s.x.status != STATUS_ARBLOST }

  ghost predicate NoBusError(s: Sys) { !StartStopError(s.stat) && s.x.status != STATUS_BUS_ERROR }

  lemma OnlyOneFlag(noise: bv32)
    ensures !StartStopError(FaultWord(STAT_MSTRARBLOSS, noise))
    ensures !ArbLoss(FaultWord(STAT_MSTSTSTPERR, noise))
  {
  }

  lemma EventKeepsQuiet(s: Sys, ev: Event)
    ensures NoArbLoss(s) && !ev.ArbitrationLost? ==> NoArbLoss(React(s, ev))
    ensures NoBusError(s) && !ev.BusError? ==> NoBusError(React(s, ev))
  {
    hide ArbLoss, StartStopError, Pending, MasterState, StatWord, FaultWord;
    OnlyOneFlag(ev.noise);
    StatWordBits(MSTCODE_RXREADY, ev.noise);
    StatWordBits(MSTCODE_TXREADY, ev.noise);
    StatWordBits(MSTCODE_NACKADR, ev.noise);
    StatWordBits(MSTCODE_NACKDAT, ev.noise);
    StatWordBits(MSTCODE_IDLE, ev.noise);
    if ev.Reserved? && 5 <= ev.code < 8 {
      StatWordBits(ev.code, ev.noise);
    }
  }

  lemma IssueKeepsFlags(s: Sys, cmd: Command)
    ensures var s' := Issue(s, cmd);
      && s'.x == s.x
      && (ArbLoss(s'.stat) <==> ArbLoss(s.stat))
      && (StartStopError(s'.stat) <==> StartStopError(s.stat))
  {
    hide ArbLoss, StartStopError, U8, TakeBack;
    TakenBack(s.stat);
  }

  /** A call that finds no fault flag only changes the status to OK, to a missing
      acknowledge or to a general error. */
  lemma HandlerKeepsQuiet(s: Sys)
    requires Accessible(s)
    ensures NoArbLoss(s) ==> NoArbLoss(Handle(s))
    ensures NoBusError(s) ==> NoBusError(Handle(s))
  {
    hide ArbLoss, StartStopError, Pending, MasterState, ClearStatus, AddressByte, U16, U8, Issue;
    ArbLossCleared(s.stat, STAT_MSTRARBLOSS);
    ArbLossCleared(s.stat, STAT_MSTSTSTPERR);
    StartStopErrorCleared(s.stat, STAT_MSTRARBLOSS);
    StartStopErrorCleared(s.stat, STAT_MSTSTSTPERR);
    forall s1: Sys, cmd: Command
      ensures var s' := Issue(s1, cmd);
        && s'.x == s1.x
        && (ArbLoss(s'.stat) <==> ArbLoss(s1.stat))
        && (StartStopError(s'.stat) <==> StartStopError(s1.stat))
    {
      IssueKeepsFlags(s1, cmd);
    }
  }

  ghost predicate Without(steps: seq<Step>, p: Event -> bool)
  {
    forall i :: 0 <= i < |steps| && steps[i].BusEvent? ==> !p(steps[i].ev)
  }

  lemma {:induction false} QuietRun(s: Sys, steps: seq<Step>)
    ensures NoArbLoss(s) && Without(steps, (ev: Event) => ev.ArbitrationLost?) ==> NoArbLoss(Run(s, steps))
    ensures NoBusError(s) && Without(steps, (ev: Event) => ev.BusError?) ==> NoBusError(Run(s, steps))
    decreases |steps|
  {
    if steps != [] {
      hide NoArbLoss, NoBusError, React, Handle;
      match steps[0] {
        case BusEvent(ev) => EventKeepsQuiet(s, ev);
        case HandlerCall =>
          if Accessible(s) {
            HandlerKeepsQuiet(s);
          }
      }
      QuietRun(Apply(s, steps[0]), steps[1..]);
    }
  }

  /** A fault that an earlier transfer left in the status register, whatever bits it holds,
      cannot end this one: without such an event in this run there is no such outcome. */
  lemma NoStaleFault(x0: Xfer, stat: bv32, mstdat: nat, ctl: Ctl, steps: seq<Step>)
    ensures var s := Run(Begin(x0, stat, mstdat, ctl), steps);
      && (s.x.status == STATUS_ARBLOST ==> !Without(steps, (ev: Event) => ev.ArbitrationLost?))
      && (s.x.status == STATUS_BUS_ERROR ==> !Without(steps, (ev: Event) => ev.BusError?))
  {
    hide Begin, Run, Without;
    BeginIsQuiet(x0, stat, mstdat, ctl);
    QuietRun(Begin(x0, stat, mstdat, ctl), steps);
  }

  lemma BeginIsQuiet(x0: Xfer, stat: bv32, mstdat: nat, ctl: Ctl)
    ensures NoArbLoss(Begin(x0, stat, mstdat, ctl)) && NoBusError(Begin(x0, stat, mstdat, ctl))
  {
    hide ArbLoss, StartStopError, ClearStatus, AddressByte, Issue;
    var stat1 := ClearStatus(stat, STAT_MSTRARBLOSS | STAT_MSTSTSTPERR);
    var x := x0.(status := STATUS_BUSY);
    BothFlagsCleared(stat);
    IssueKeepsFlags(Sys(x, stat1, AddressByte(x.slaveAddr, x.txSz == 0), ctl, [], 0), SendStart);
  }

  /** Lost arbitration is reported before a start or stop error, each clears its own flag
      and leaves the bus alone; a state code outside the documented ones, and a call without
      an event, end with ERROR. */
  lemma FaultsAreReported(s: Sys)
    requires Accessible(s)
    ensures var s' := Handle(s);
      if ArbLoss(s.stat) then
        && s'.x.status == STATUS_ARBLOST && !ArbLoss(s'.stat) && s'.trace == s.trace
        && (StartStopError(s'.stat) <==> StartStopError(s.stat))
      else if StartStopError(s.stat) then
        s'.x.status == STATUS_BUS_ERROR && !StartStopError(s'.stat) && s'.trace == s.trace
      else
        !Pending(s.stat) || MasterState(s.stat) > 4 ==> s'.x.status == STATUS_ERROR && s'.trace == s.trace
  {
    hide ArbLoss, StartStopError, Pending, MasterState, ClearStatus, OnRxReady, OnTxReady, Issue;
    FlagBits();
    ArbLossCleared(s.stat, STAT_MSTRARBLOSS);
    StartStopErrorCleared(s.stat, STAT_MSTRARBLOSS);
    StartStopErrorCleared(s.stat, STAT_MSTSTSTPERR);
  }

  // ---------- the empty transfer ----------

  /** With nothing to send and nothing to receive the driver addresses the slave for
      reading, stores the byte that comes and counts rxSz below zero. */
  lemma EmptyTransferUnderflows(x0: Xfer, stat: bv32, mstdat: nat, ctl: Ctl, d: byte)
    requires Job(x0) && x0.txSz == 0 && x0.rxSz == 0 && 0 < |x0.rx|
    ensures var s := Run(Begin(x0, stat, mstdat, ctl), [BusEvent(Acked(d, 0)), HandlerCall]);
      !Done(s) && s.x.rxSz == 0xFFFF && s.x.rx == x0.rx[0 := d]
  {
    hide ArbLoss, StartStopError, Pending, MasterState, TakeBack, StatWord, ClearStatus, AddressByte, Run;
    var s0 := Begin(x0, stat, mstdat, ctl);
    AddressByteIs(x0.slaveAddr, true);
    StatWordBits(MSTCODE_RXREADY, 0);
    assert s0.ctl == Addressing(ReadByteOf(x0));
    var s1 := React(s0, Acked(d, 0));
    assert s1.ctl == RxPend && s1.mstdat == d && s1.x == x0.(status := STATUS_BUSY);
    assert Handle(s1).x == StoreByte(s1.x, d);
    TwoSteps(s0, BusEvent(Acked(d, 0)), HandlerCall);
  }

  lemma TwoSteps(s: Sys, a: Step, b: Step)
    ensures Run(s, [a, b]) == Apply(Apply(s, a), b)
  {
    assert [a, b][1..] == [b] && [b][1..] == [];
    assert Run(s, [a, b]) == Run(Apply(s, a), [b]);
  }

  /** rxSz never underflows if and only if there is something to send or to receive. */
  lemma UnderflowIffEmpty(x0: Xfer, stat: bv32, mstdat: nat, ctl: Ctl)
    requires Job(x0) && (x0.txSz + x0.rxSz == 0 ==> 0 < |x0.rx|)
    ensures (forall steps :: Run(Begin(x0, stat, mstdat, ctl), steps).x.rxSz <= x0.rxSz)
      <==> x0.txSz + x0.rxSz > 0
  {
    if x0.txSz + x0.rxSz > 0 {
      forall steps: seq<Step>
        ensures Run(Begin(x0, stat, mstdat, ctl), steps).x.rxSz <= x0.rxSz
      {
        EveryRunIsSafe(x0, stat, mstdat, ctl, steps);
      }
    } else {
      EmptyTransferUnderflows(x0, stat, mstdat, ctl, 0);
    }
  }

  // ---------- success is possible ----------

  lemma {:induction false} Cooperate(x0: Xfer, s: Sys, data: seq<byte>) returns (steps: seq<Step>)
    requires Inv(x0, s) && !Done(s) && Waiting(s.ctl)
    requires |data| == x0.rxSz && s.x.rx[..s.x.rxPos] == data[..s.x.rxPos]
    ensures var s' := Run(s, steps);
      s'.x.status == STATUS_OK && |s'.x.rx| == |x0.rx| && s'.x.rx[..x0.rxSz] == data
    decreases AllCalls(x0) - s.calls
  {
    hide Inv, Run, Apply, Handle, React;
    var d := if s.x.rxPos < |data| then data[s.x.rxPos] else 0;
    var s2 := CooperativeStep(x0, s, data, d);
    var two := [BusEvent(Acked(d, 0)), HandlerCall];
    TwoSteps(s, BusEvent(Acked(d, 0)), HandlerCall);
    if Done(s2) {
      steps := two;
    } else {
      var more := Cooperate(x0, s2, data);
      RunInParts(s, two, more);
      steps := two + more;
    }
  }

  /** An acknowledge or a byte of the slave, and the handler call it causes, bring the
      transfer one call closer to success. */
  lemma CooperativeStep(x0: Xfer, s: Sys, data: seq<byte>, d: byte) returns (s2: Sys)
    requires Inv(x0, s) && !Done(s) && Waiting(s.ctl)
    requires |data| == x0.rxSz && s.x.rx[..s.x.rxPos] == data[..s.x.rxPos]
    requires s.x.rxPos < |data| ==> d == data[s.x.rxPos]
    ensures s2 == Apply(Apply(s, BusEvent(Acked(d, 0))), HandlerCall)
    ensures Inv(x0, s2) && s2.calls == s.calls + 1 && s.calls < AllCalls(x0) && |s2.x.rx| == |x0.rx|
    ensures if Done(s2) then s2.x.status == STATUS_OK && s2.x.rx[..x0.rxSz] == data
            else Waiting(s2.ctl) && s2.x.rx[..s2.x.rxPos] == data[..s2.x.rxPos]
  {
    hide Handle, React, StoreByte, Stage, Outcome, Accessible, Untouched;
    var s1 := React(s, Acked(d, 0));
    AckIsSafe(x0, s, d, 0);
    AckLeads(x0, s, d);
    HandleIsSafe(x0, s1);
    s2 := Handle(s1);
    AckedCall(x0, s1);
    if s1.ctl == RxPend {
      StoredByte(x0, s.x, d);
      PrefixExtends(StoreByte(s.x, d).rx, s.x.rx, data, s.x.rxPos);
    }
  }

  lemma AckLeads(x0: Xfer, s: Sys, d: byte)
    requires Inv(x0, s) && !Done(s) && Waiting(s.ctl)
    ensures var s1 := React(s, Acked(d, 0));
      && s1.x == s.x && s1.calls == s.calls
      && (s1.ctl == TxPend || (s1.ctl == RxPend && s1.mstdat == d && s.x.rxSz > 0))
  {
    hide ArbLoss, StartStopError, Pending, MasterState, WriteTrace, ReadTrace, Untouched, StatWord;
  }

  lemma PrefixExtends(rx: seq<byte>, rxBefore: seq<byte>, data: seq<byte>, n: nat)
    requires n < |rx| == |rxBefore| && n < |data|
    requires rx[..n] == rxBefore[..n] == data[..n] && rx[n] == data[n]
    ensures rx[..n + 1] == data[..n + 1]
  {
  }

  /** The handler's call on a ready event: it goes on to wait or ends with OK. */
  lemma AckedCall(x0: Xfer, s1: Sys)
    requires Inv(x0, s1) && !Done(s1) && (s1.ctl == TxPend || s1.ctl == RxPend)
    ensures Accessible(s1)
    ensures var s2 := Handle(s1);
      && s2.calls == s1.calls + 1
      && (if Done(s2) then s2.x.status == STATUS_OK else Waiting(s2.ctl))
      && (s1.ctl == TxPend ==> s2.x.rx == s1.x.rx && s2.x.rxPos == s1.x.rxPos)
      && (s1.ctl == RxPend ==>
            s1.mstdat < 0x100 && (s2.x.rx, s2.x.rxPos) == (StoreByte(s1.x, s1.mstdat).rx, s1.x.rxPos + 1))
      && (Done(s2) ==> s2.x.rxPos == x0.rxSz)
  {
    hide ArbLoss, StartStopError, Pending, MasterState, TakeBack, AddressByte, WriteTrace, ReadTrace, Untouched;
    if s1.ctl == RxPend {
      ByteIsItself(s1.mstdat);
    }
  }

  lemma {:induction false} RunInParts(s: Sys, a: seq<Step>, b: seq<Step>)
    ensures Run(s, a + b) == Run(Run(s, a), b)
    decreases |a|
  {
    if a == [] {
      assert a + b == b;
    } else {
      assert (a + b)[1..] == a[1..] + b;
      RunInParts(Apply(s, a[0]), a[1..], b);
    }
  }

  /** Every transfer can succeed, whatever the slave sends: the outcome OK is not vacuous. */
  lemma SuccessIsReachable(x0: Xfer, stat: bv32, mstdat: nat, ctl: Ctl, data: seq<byte>)
    requires Job(x0) && x0.txSz + x0.rxSz > 0 && |data| == x0.rxSz
    ensures exists steps ::
      var s := Run(Begin(x0, stat, mstdat, ctl), steps);
      s.x.status == STATUS_OK && |s.x.rx| == |x0.rx| && s.x.rx[..x0.rxSz] == data
  {
    BeginIsSafe(x0, stat, mstdat, ctl);
    var s := Begin(x0, stat, mstdat, ctl);
    assert s.x.rx[..0] == data[..0];
    var steps := Cooperate(x0, s, data);
  }
}
