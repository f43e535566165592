/** Why an I2C transfer ended: the final status names the event that ended the run.

    The cause is read off the schedule alone, from what the controller reported last before
    the handler call that ended the run; the handler's status is then proved to be the one
    documented for this cause, in both directions. */
module I2cCauses {
  import opened I2cTransfer
  import opened I2cRuns
  import opened I2cTheorems

  /** What a handler call finds: no event since the last command, an idle wake-up, a byte
      that was acknowledged or received, an address or a data byte that was refused, or one
      of the faults. */
  datatype Cause =
    | Nothing | IdleWake | Ready | AddressRefused | DataRefused | LostArbitration | BadStartStop | OddCode

  /** The documented status of a transfer that ends for this cause. */
  function Verdict(cause: Cause): nat
  {
    match cause
    case Ready => STATUS_OK
    case AddressRefused => STATUS_NAK_ADR
    case DataRefused => STATUS_NAK_DAT
    case LostArbitration => STATUS_ARBLOST
    case BadStartStop => STATUS_BUS_ERROR
    case _ => STATUS_ERROR
  }

  /** The cause after a further event: only a waiting controller reports, a byte on its way
      from the slave cannot be refused by it, and only undocumented codes are odd. */
  function CauseOf(ctl: Ctl, cause: Cause, ev: Event): Cause
  {
    if !Waiting(ctl) then cause
    else match ev
      case Acked(_, _) => Ready
      case Nacked(_) =>
        if ctl == Receiving then cause else if ctl == Sending then DataRefused else AddressRefused
      case ArbitrationLost(_) => LostArbitration
      case BusError(_) => BadStartStop
      case Reserved(code, _) => if 5 <= code < 8 then OddCode else cause
      case Idle(_) => IdleWake
  }

  /** What the handler call that ended the run found, or, while the run goes on, what the
      next one will find. */
  function Why(s: Sys, cause: Cause, steps: seq<Step>): Cause
    decreases |steps|
  {
    if steps == [] || Done(s) then cause
    else
      var s' := Apply(s, steps[0]);
      match steps[0]
      case BusEvent(ev) => Why(s', CauseOf(s.ctl, cause, ev), steps[1..])
      case HandlerCall =>
        if Done(s') then cause
        else Why(s', if cause == IdleWake then IdleWake else Nothing, steps[1..])
  }

  /** The cause agrees with the state of the controller and its status register. */
  ghost predicate Told(s: Sys, cause: Cause)
  {
    match cause
    case Nothing => Waiting(s.ctl) && !Pending(s.stat) && !ArbLoss(s.stat) && !StartStopError(s.stat)
    case IdleWake => Waiting(s.ctl) && Quiet(s.stat) && Pending(s.stat)
    case Ready => s.ctl == TxPend || s.ctl == RxPend
    case AddressRefused => s.ctl == NackPend && MasterState(s.stat) == MSTCODE_NACKADR
    case DataRefused => s.ctl == NackPend && MasterState(s.stat) == MSTCODE_NACKDAT
    case LostArbitration => s.ctl == Broken && ArbLoss(s.stat)
    case BadStartStop => s.ctl == Broken && !ArbLoss(s.stat) && StartStopError(s.stat)
    case OddCode => s.ctl == Broken && !ArbLoss(s.stat) && !StartStopError(s.stat)
  }

  lemma BeginIsTold(x0: Xfer, stat: bv32, mstdat: nat, ctl: Ctl)
    ensures Told(Begin(x0, stat, mstdat, ctl), Nothing)
  {
    hide ArbLoss, StartStopError, Pending, TakeBack, ClearStatus, AddressByte;
    BothFlagsCleared(stat);
    TakenBack(ClearStatus(stat, STAT_MSTRARBLOSS | STAT_MSTSTSTPERR));
  }

  lemma EventIsTold(s: Sys, cause: Cause, ev: Event)
    requires Told(s, cause)
    ensures Told(React(s, ev), CauseOf(s.ctl, cause, ev))
  {
    hide ArbLoss, StartStopError, Pending, MasterState, StatWord, FaultWord;
    FaultWordBits(ev.noise);
    OnlyOneFlag(ev.noise);
    StatWordBits(MSTCODE_NACKADR, ev.noise);
    StatWordBits(MSTCODE_NACKDAT, ev.noise);
    StatWordBits(MSTCODE_IDLE, ev.noise);
    if ev.Reserved? && 5 <= ev.code < 8 {
      StatWordBits(ev.code, ev.noise);
    }
  }

  /** A handler call ends the run with the verdict on its cause, or goes on with nothing
      reported; an idle wake-up leaves everything as it is. */
  lemma CallIsTold(x0: Xfer, s: Sys, cause: Cause)
    requires Inv(x0, s) && !Done(s) && Told(s, cause)
    ensures Accessible(s)
    ensures var s' := Handle(s);
      if Done(s') then s'.x.status == Verdict(cause) && cause != IdleWake
      else Told(s', if cause == IdleWake then IdleWake else Nothing)
  {
    hide Handle, Inv, ArbLoss, StartStopError, Pending, MasterState;
    if cause == Ready {
      ReadyIsTold(x0, s);
    } else if s.ctl == NackPend {
      NackStops(x0, s);
    } else {
      if s.ctl == Broken {
        QuietIsWaiting(x0, s);
      }
      FaultEnds(x0, s);
    }
  }

  lemma ReadyIsTold(x0: Xfer, s: Sys)
    requires Inv(x0, s) && !Done(s) && (s.ctl == TxPend || s.ctl == RxPend)
    ensures Accessible(s)
    ensures var s' := Handle(s);
      if Done(s') then s'.x.status == STATUS_OK else Told(s', Nothing)
  {
    hide Handle, Inv, ArbLoss, StartStopError, Pending, MasterState;
    HandleIsSafe(x0, s);
    AckedCall(x0, s);
    HandleAdvances(x0, s);
    if !Done(Handle(s)) {
      WaitingIsQuiet(x0, Handle(s));
    }
  }

  lemma WaitingIsQuiet(x0: Xfer, s: Sys)
    requires Inv(x0, s) && !Done(s) && Waiting(s.ctl)
    ensures Quiet(s.stat)
  {
    hide ArbLoss, StartStopError, Pending, MasterState, WriteTrace, ReadTrace, Progress;
  }

  lemma {:induction false} RunIsTold(x0: Xfer, s: Sys, cause: Cause, steps: seq<Step>)
    requires Inv(x0, s)
    requires if Done(s) then s.x.status == Verdict(cause) && cause != IdleWake else Told(s, cause)
    ensures var s', why := Run(s, steps), Why(s, cause, steps);
      if Done(s') then s'.x.status == Verdict(why) && why != IdleWake else Told(s', why)
    decreases |steps|
  {
    hide Inv, Told, Handle, React;
    if Done(s) {
      DoneStays(s, steps);
    } else if steps != [] {
      match steps[0] {
        case BusEvent(ev) =>
          ReactIsSafe(x0, s, ev);
          EventIsTold(s, cause, ev);
          StillBusy(s, ev);
          RunIsTold(x0, React(s, ev), CauseOf(s.ctl, cause, ev), steps[1..]);
        case HandlerCall =>
          HandleIsSafe(x0, s);
          CallIsTold(x0, s, cause);
          if Done(Handle(s)) {
            DoneStays(Handle(s), steps[1..]);
          } else {
            RunIsTold(x0, Handle(s), if cause == IdleWake then IdleWake else Nothing, steps[1..]);
          }
      }
    }
  }

  lemma StillBusy(s: Sys, ev: Event)
    ensures React(s, ev).x == s.x
  {
    hide StatWord, FaultWord;
  }

  lemma {:induction false} DoneStays(s: Sys, steps: seq<Step>)
    requires Done(s)
    ensures Run(s, steps) == s
    decreases |steps|
  {
    if steps != [] {
      DoneStays(s, steps[1..]);
    }
  }

  /** For every run: it ends OK exactly on an acknowledged or received byte, for a missing
      acknowledge exactly on that of an address (of a data byte), with lost arbitration and
      bus error exactly on these events, and with ERROR exactly on an undocumented code or a
      handler call without any event. An idle wake-up never ends a run. */
  lemma StatusNamesTheCause(x0: Xfer, stat: bv32, mstdat: nat, ctl: Ctl, steps: seq<Step>)
    requires Job(x0) && x0.txSz + x0.rxSz > 0
    ensures var s := Run(Begin(x0, stat, mstdat, ctl), steps);
      var why := Why(Begin(x0, stat, mstdat, ctl), Nothing, steps);
      s.x.status != 0xFF ==>
        && (s.x.status == 0 <==> why == Ready)
        && (s.x.status == 1 <==> why == OddCode || why == Nothing)
        && (s.x.status == 2 <==> why == AddressRefused)
        && (s.x.status == 3 <==> why == BadStartStop)
        && (s.x.status == 4 <==> why == DataRefused)
        && (s.x.status == 5 <==> why == LostArbitration)
        && why != IdleWake
  {
    hide Begin, Run, Why, Inv, Told;
    var s := Begin(x0, stat, mstdat, ctl);
    BeginIsSafe(x0, stat, mstdat, ctl);
    BeginIsTold(x0, stat, mstdat, ctl);
    BeginAwaits(x0, stat, mstdat, ctl);
    RunIsTold(x0, s, Nothing, steps);
  }
}
