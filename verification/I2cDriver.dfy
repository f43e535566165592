/** The I2C master driver over mutable registers and a mutable transfer structure.

    Every method is tied to I2cTransfer: what it leaves in registers, structure and receive
    buffer, and on the bus, is that function of what it found. */
module I2cDriver {
  import opened Bits
  import opened I2cTransfer
  import opened I2cRuns
  import opened I2cTiming
  import opened I2cWords

  const MSTCTL_MSTCONTINUE: nat := 1
  const MSTCTL_MSTSTART: nat := 2
  const MSTCTL_MSTSTOP: nat := 4

  /** LPC_I2C_T, together with the controller behind the registers and the bus. `latency`
      is the number of polls after which the controller answers the current command. */
  class Port {
    var STAT: bv32
    var MSTCTL: nat
    var MSTDAT: nat
    var MSTTIME: nat
    var CLKDIV: nat
    var ctl: Ctl
    var trace: seq<Sym>
    var latency: nat
    ghost var calls: nat

    constructor ()
      ensures trace == [] && calls == 0
    {
      STAT, MSTCTL, MSTDAT, MSTTIME, CLKDIV := 0, 0, 0, 0, 0;
      ctl, trace, latency, calls := Free, [], 0, 0;
    }

    ghost function With(x: Xfer): Sys
      reads this
    {
      Sys(x, STAT, MSTDAT, ctl, trace, calls)
    }

    // ---------- the hardware ----------

    /** The effect of a write to MSTCTL: 1 continues, 2 starts, 4 stops. */
    method WriteControl(value: nat)
      requires value in {1, 2, 4}
      modifies this`MSTCTL, this`STAT, this`ctl, this`trace
      ensures MSTCTL == value
      ensures forall x: Xfer :: With(x) == Issue(old(With(x)), CommandOf(value))
    {
      hide U8, TakeBack;
      MSTCTL := value;
      STAT := TakeBack(STAT);
      if value == MSTCTL_MSTSTART {
        trace := trace + [Start, Address(U8(MSTDAT))];
        ctl := Addressing(U8(MSTDAT));
      } else if value == MSTCTL_MSTCONTINUE {
        if ctl == TxPend {
          trace, ctl := trace + [Out(U8(MSTDAT))], Sending;
        } else if ctl == RxPend {
          trace, ctl := trace + [MAck], Receiving;
        }
      } else {
        trace := trace + (if ctl == RxPend then [MNack, Stop] else [Stop]);
        ctl := Free;
      }
    }

    /** The time between two polls: the controller is still busy, or answers. */
    method Tick() returns (ghost answer: Event)
      requires Waiting(ctl)
      modifies this
      ensures (MSTCTL, MSTTIME, CLKDIV, calls) == old((MSTCTL, MSTTIME, CLKDIV, calls))
      ensures Answers(old(ctl), answer)
      ensures if latency < old(latency) then forall x: Xfer :: With(x) == old(With(x))
              else forall x: Xfer :: With(x) == React(old(With(x)), answer)
    {
      var ev := AnyAnswer(ctl);
      answer := ev;
      if latency > 0 {
        latency := latency - 1;
      } else {
        var noTransfer := Xfer([], 0, 0, [], 0, 0, 0, 0);
        var s := React(Sys(noTransfer, STAT, MSTDAT, ctl, trace, 0), ev);
        STAT, MSTDAT, ctl, trace := s.stat, s.mstdat, s.ctl, s.trace;
        latency := *;
      }
    }

    method AnyAnswer(ctl: Ctl) returns (ev: Event)
      ensures Answers(ctl, ev)
    {
      var kind: int := *;
      var d: byte := *;
      var noise: bv32 := *;
      var code: bv32 := *;
      if kind == 0 && ctl != Receiving {
        ev := Nacked(noise);
      } else if kind == 1 {
        ev := ArbitrationLost(noise);
      } else if kind == 2 {
        ev := BusError(noise);
      } else if kind == 3 && 5 <= code < 8 {
        ev := Reserved(code, noise);
      } else {
        ev := Acked(d, noise);
      }
    }

    // ---------- register access ----------

    /** Writing a one to a sticky flag clears it, writing a zero keeps it, and no other bit
        changes. */
    method WriteStatus(clrStatus: bv32)
      modifies this`STAT
      ensures STAT == ClearStatus(old(STAT), clrStatus)
      ensures ArbLoss(STAT) <==> ArbLoss(old(STAT)) && !ArbLoss(clrStatus)
      ensures StartStopError(STAT) <==> StartStopError(old(STAT)) && !StartStopError(clrStatus)
      ensures OtherBits(STAT) == OtherBits(old(STAT))
    {
      hide ClearStatus, ArbLoss, StartStopError, OtherBits;
      ArbLossCleared(STAT, clrStatus);
      StartStopErrorCleared(STAT, clrStatus);
      OtherBitsStay(STAT, clrStatus);
      STAT := ClearStatus(STAT, clrStatus);
    }

    predicate IsMasterPending()
      reads this
    {
      Pending(STAT)
    }

    method WriteByte(data: byte)
      modifies this`MSTDAT
      ensures MSTDAT == data
    {
      MSTDAT := data;
    }

    /** The divider is kept exactly when it is in the documented range, and is 1 otherwise. */
    method SetClockDiv(clkdiv: nat)
      modifies this`CLKDIV
      ensures CLKDIV == (if 1 <= clkdiv <= 65536 then clkdiv - 1 else 0)
      ensures GetClockDiv() == clkdiv <==> 1 <= clkdiv <= 65536
      ensures !(1 <= clkdiv <= 65536) ==> GetClockDiv() == 1
    {
      if clkdiv >= 1 && clkdiv <= 65536 {
        CLKDIV := clkdiv - 1;
      } else {
        CLKDIV := 0;
      }
      ClockDivRoundTrip(clkdiv);
    }

    function GetClockDiv(): nat
      reads this
    {
      ClockDiv(CLKDIV)
    }

    method SetDutyCycle(sclH: nat, sclL: nat)
      modifies this`MSTTIME
      ensures MSTTIME == TimeRegister(sclH, sclL) == 16 * ((sclH - 2) % 8) + (sclL - 2) % 8
      ensures HighCycles(MSTTIME) == sclH && LowCycles(MSTTIME) == sclL <==> 2 <= sclH <= 9 && 2 <= sclL <= 9
    {
      MSTTIME := Or(Shl(And(U32(sclH - 2), 7), 4), And(U32(sclL - 2), 7));
      TimeRegisterDecodes(sclH, sclL);
      DutyCycleKept(sclH, sclL);
    }

    /** The period is halved, an odd cycle going to the low phase; the speed requested is met
        exactly if the main clock is at least 4 and less than 19 times the divided bus clock. */
    method SetBusSpeed(mainClock: nat, busSpeed: nat)
      requires mainClock < TWO_TO_32
      requires U32(GetClockDiv() * busSpeed) != 0
      modifies this`MSTTIME
      ensures MSTTIME == BusSpeedRegister(mainClock, GetClockDiv(), busSpeed)
      ensures mainClock / U32(GetClockDiv() * busSpeed) >= 0
      ensures Halved(mainClock / U32(GetClockDiv() * busSpeed), MSTTIME)
      ensures SpeedMet(mainClock, GetClockDiv(), busSpeed, HighCycles(MSTTIME) + LowCycles(MSTTIME))
        <==> GetClockDiv() * busSpeed * 4 <= mainClock < GetClockDiv() * busSpeed * 19
    {
      hide U32, U16, HighCycles, LowCycles, TimeRegister, ClockDiv, Halved;
      var scl := mainClock / U32(GetClockDiv() * busSpeed);
      DivNonNegative(mainClock, U32(GetClockDiv() * busSpeed));
      SetDutyCycle(U16(scl / 2), U16(scl - scl / 2));
      BusSpeedDecodes(mainClock, GetClockDiv(), busSpeed);
      BusSpeedMetIff(mainClock, GetClockDiv(), busSpeed);
    }
  }

  /** I2CM_XFER_T. The pointers are positions in their buffers, which may be one and the
      same: `image` is what the transmit buffer held when the transfer started. */
  class Transfer {
    var txBuff: array<byte>
    var rxBuff: array<byte>
    var txPos: nat
    var rxPos: nat
    var txSz: nat
    var rxSz: nat
    var status: nat
    var slaveAddr: byte
    ghost var image: seq<byte>

    constructor (tx: array<byte>, txSize: nat, rx: array<byte>, rxSize: nat, slave: byte)
      ensures txBuff == tx && rxBuff == rx
      ensures Setup() == Xfer(tx[..], 0, txSize, rx[..], 0, rxSize, STATUS_OK, slave)
    {
      txBuff, rxBuff, txPos, rxPos := tx, rx, 0, 0;
      txSz, rxSz, status, slaveAddr := txSize, rxSize, STATUS_OK, slave;
      image := [];
    }

    /** The transfer as the caller has set it up. */
    ghost function Setup(): Xfer
      reads this, txBuff, rxBuff
    {
      Xfer(txBuff[..], txPos, txSz, rxBuff[..], rxPos, rxSz, status, slaveAddr)
    }

    /** The transfer under way. */
    ghost function View(): Xfer
      reads this, rxBuff
    {
      Xfer(image, txPos, txSz, rxBuff[..], rxPos, rxSz, status, slaveAddr)
    }

    /** What is still to be sent is in the transmit buffer as it was at the start. */
    ghost predicate Intact()
      reads this, txBuff
    {
      && txPos + txSz <= |image| == txBuff.Length
      && forall i :: txPos <= i < txPos + txSz ==> txBuff[i] == image[i]
    }

    /** Storing a received byte cannot disturb what is still to be sent. */
    predicate Separate()
      reads this
    {
      txBuff != rxBuff || txSz == 0
    }
  }

  ghost function State(i2c: Port, xfer: Transfer): Sys
    reads i2c, xfer, xfer.rxBuff
  {
    i2c.With(xfer.View())
  }

  /** The receive-ready branch of the handler. */
  method ReceiveByte(i2c: Port, xfer: Transfer)
    requires xfer.Intact() && xfer.Separate() && xfer.rxPos < xfer.rxBuff.Length
    modifies i2c, xfer`rxPos, xfer`rxSz, xfer`status, xfer.rxBuff
    ensures xfer.Intact()
    ensures State(i2c, xfer) == OnRxReady(old(State(i2c, xfer)))
    ensures i2c.MSTCTL == (if U16(old(xfer.rxSz) - 1) != 0 then 1 else 4)
  {
    ghost var s := State(i2c, xfer);
    xfer.rxBuff[xfer.rxPos] := U8(i2c.MSTDAT);
    xfer.rxPos := xfer.rxPos + 1;
    xfer.rxSz := U16(xfer.rxSz - 1);
    assert xfer.View() == StoreByte(s.x, U8(s.mstdat));
    if xfer.rxSz != 0 {
      i2c.WriteControl(MSTCTL_MSTCONTINUE);
    } else {
      xfer.status := STATUS_OK;
      i2c.WriteControl(MSTCTL_MSTSTOP);
    }
  }

  /** The transmit-ready branch of the handler. */
  method TransmitByte(i2c: Port, xfer: Transfer)
    requires xfer.Intact() && xfer.txSz < 0x1_0000
    modifies i2c, xfer`txPos, xfer`txSz, xfer`status
    ensures xfer.Intact()
    ensures State(i2c, xfer) == OnTxReady(old(State(i2c, xfer)))
    ensures i2c.MSTCTL == (if old(xfer.txSz) != 0 then 1 else if xfer.rxSz != 0 then 2 else 4)
  {
    hide AddressByte, TakeBack, U8;
    if xfer.txSz != 0 {
      i2c.MSTDAT := xfer.txBuff[xfer.txPos];
      xfer.txPos := xfer.txPos + 1;
      xfer.txSz := U16(xfer.txSz - 1);
      i2c.WriteControl(MSTCTL_MSTCONTINUE);
    } else if xfer.rxSz != 0 {
      i2c.WriteByte(AddressByte(xfer.slaveAddr, true));
      i2c.WriteControl(MSTCTL_MSTSTART);
    } else {
      xfer.status := STATUS_OK;
      i2c.WriteControl(MSTCTL_MSTSTOP);
    }
  }

  /** A register behind a write, where 0 stands for no write. */
  function WrittenTo(register: nat, value: nat): nat { if value != 0 then value else register }

  /** The branches of the handler on the state code of a pending event. */
  method HandleCode(i2c: Port, xfer: Transfer)
    requires xfer.Intact() && Accessible(State(i2c, xfer)) && xfer.txSz < 0x1_0000
    requires !ArbLoss(i2c.STAT) && !StartStopError(i2c.STAT) && Pending(i2c.STAT)
    requires TakesByte(i2c.STAT) ==> xfer.Separate()
    modifies i2c, xfer, xfer.rxBuff
    ensures xfer.txBuff == old(xfer.txBuff) && xfer.rxBuff == old(xfer.rxBuff) && xfer.Intact()
    ensures State(i2c, xfer) == Handle(old(State(i2c, xfer)))
    ensures i2c.MSTCTL == WrittenTo(old(i2c.MSTCTL), Control(old(State(i2c, xfer))))
  {
    hide OnRxReady, OnTxReady, TakeBack, ArbLoss, StartStopError, Pending, MasterState, ClearStatus, Control;
    ControlByCode(State(i2c, xfer));
    var code := MasterState(i2c.STAT);
    if code == MSTCODE_IDLE {
      return;
    }
    i2c.calls := i2c.calls + 1;
    if code == MSTCODE_RXREADY {
      ReceiveByte(i2c, xfer);
    } else if code == MSTCODE_TXREADY {
      TransmitByte(i2c, xfer);
    } else if code == MSTCODE_NACKADR {
      xfer.status := STATUS_NAK_ADR;
      i2c.WriteControl(MSTCTL_MSTSTOP);
    } else if code == MSTCODE_NACKDAT {
      xfer.status := STATUS_NAK_DAT;
      i2c.WriteControl(MSTCTL_MSTSTOP);
    } else {
      xfer.status := STATUS_ERROR;
    }
  }

  /** Chip_I2CM_XferHandler: registers, transfer structure, buffers and bus afterwards are
      those of Handle, by numbers those of Reacts and Control, and the result tells whether
      the transfer is over. */
  method XferHandler(i2c: Port, xfer: Transfer) returns (done: bool)
    requires xfer.Intact() && Accessible(State(i2c, xfer)) && xfer.txSz < 0x1_0000
    requires TakesByte(i2c.STAT) ==> xfer.Separate()
    modifies i2c, xfer, xfer.rxBuff
    ensures xfer.txBuff == old(xfer.txBuff) && xfer.rxBuff == old(xfer.rxBuff) && xfer.Intact()
    ensures State(i2c, xfer) == Handle(old(State(i2c, xfer)))
    ensures Reacts(old(State(i2c, xfer)), State(i2c, xfer))
    ensures i2c.MSTCTL == WrittenTo(old(i2c.MSTCTL), Control(old(State(i2c, xfer))))
    ensures done <==> xfer.status != 0xFF
  {
    hide OnRxReady, OnTxReady, ArbLoss, StartStopError, Pending, MasterState, ClearStatus, Reacts, Control;
    ghost var s := State(i2c, xfer);
    HandleReacts(s);
    ControlByCode(s);
    var status := i2c.STAT;
    if ArbLoss(status) {
      i2c.calls := i2c.calls + 1;
      xfer.status := STATUS_ARBLOST;
      i2c.WriteStatus(STAT_MSTRARBLOSS);
    } else if StartStopError(status) {
      i2c.calls := i2c.calls + 1;
      xfer.status := STATUS_BUS_ERROR;
      i2c.WriteStatus(STAT_MSTSTSTPERR);
    } else if Pending(status) {
      HandleCode(i2c, xfer);
    } else {
      i2c.calls := i2c.calls + 1;
      xfer.status := STATUS_ERROR;
    }
    done := xfer.status != STATUS_BUSY;
  }

  /** Chip_I2CM_Xfer. */
  method StartXfer(i2c: Port, xfer: Transfer)
    requires i2c.trace == [] && i2c.calls == 0
    requires xfer.txPos + xfer.txSz <= xfer.txBuff.Length
    modifies i2c, xfer`status, xfer`image
    ensures State(i2c, xfer) == old(Begin(xfer.Setup(), i2c.STAT, i2c.MSTDAT, i2c.ctl)) && xfer.Intact()
    ensures xfer.status == 0xFF && i2c.STAT == DropBits0And4And6(old(i2c.STAT)) && i2c.MSTCTL == 2
    ensures i2c.MSTDAT == xfer.slaveAddr % 128 * 2 + (if xfer.txSz == 0 then 1 else 0)
    ensures i2c.trace == [Start, Address(i2c.MSTDAT)]
  {
    BeginReacts(xfer.Setup(), i2c.STAT, i2c.MSTDAT, i2c.ctl);
    hide ClearStatus, TakeBack, AddressByte, DropBits0And4And6;
    xfer.image := xfer.txBuff[..];
    xfer.status := STATUS_BUSY;
    i2c.WriteStatus(STAT_MSTRARBLOSS | STAT_MSTSTSTPERR);
    i2c.WriteByte(AddressByte(xfer.slaveAddr, xfer.txSz == 0));
    i2c.WriteControl(MSTCTL_MSTSTART);
  }

  /** The polling loop of Chip_I2CM_XferBlocking: it ends, with an event pending, because
      the controller answers every command after finitely many polls. */
  method AwaitPending(i2c: Port, xfer: Transfer, ghost x0: Xfer)
    requires Inv(x0, State(i2c, xfer)) && !Done(State(i2c, xfer)) && AwaitsOrHolds(State(i2c, xfer))
    modifies i2c
    ensures Inv(x0, State(i2c, xfer)) && i2c.calls == old(i2c.calls)
    ensures !Waiting(i2c.ctl) && Pending(i2c.STAT)
  {
    hide Inv, React, Answers, Pending;
    if !i2c.IsMasterPending() {
      NotPendingIsWaiting(x0, State(i2c, xfer));
    }
    while !i2c.IsMasterPending()
      invariant Inv(x0, State(i2c, xfer)) && !Done(State(i2c, xfer)) && i2c.calls == old(i2c.calls)
      invariant if Pending(i2c.STAT) then !Waiting(i2c.ctl) else Waiting(i2c.ctl)
      decreases if Pending(i2c.STAT) then 0 else i2c.latency + 1
    {
      ghost var s := State(i2c, xfer);
      ghost var ev := i2c.Tick();
      ReactIsSafe(x0, s, ev);
      AnswerHolds(s, ev);
    }
  }

  /** Chip_I2CM_XferBlocking. Against a controller that answers every command, in whatever
      way, the call returns, with one of the outcomes and after at most as many handler
      calls as a fault-free run takes; a fault-free run takes exactly that many. */
  method XferBlocking(i2c: Port, xfer: Transfer) returns (ret: bool)
    requires i2c.trace == [] && i2c.calls == 0
    requires Job(xfer.Setup()) && xfer.txSz + xfer.rxSz > 0
    modifies i2c, xfer, xfer.rxBuff
    ensures ret && Done(State(i2c, xfer))
    ensures Progress(old(xfer.Setup()), xfer.View())
    ensures Outcome(old(xfer.Setup()), State(i2c, xfer))
    ensures i2c.calls <= AllCalls(old(xfer.Setup()))
  {
    hide Begin, Handle;
    ghost var x0 := xfer.Setup();
    ret := false;
    BeginIsSafe(x0, i2c.STAT, i2c.MSTDAT, i2c.ctl);
    BeginAwaits(x0, i2c.STAT, i2c.MSTDAT, i2c.ctl);
    StartXfer(i2c, xfer);
    while !ret
      invariant xfer.txBuff == old(xfer.txBuff) && xfer.rxBuff == old(xfer.rxBuff)
      invariant Inv(x0, State(i2c, xfer)) && xfer.Intact()
      invariant ret <==> Done(State(i2c, xfer))
      invariant !ret ==> AwaitsOrHolds(State(i2c, xfer))
      decreases AllCalls(x0) - i2c.calls, !ret
    {
      AwaitPending(i2c, xfer, x0);
      ghost var s := State(i2c, xfer);
      HandleIsSafe(x0, s);
      HandleAdvances(x0, s);
      if TakesByte(s.stat) {
        ReceivingHasSent(x0, s);
      }
      ret := XferHandler(i2c, xfer);
    }
  }
}
