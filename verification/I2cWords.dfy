/** The driver by numbers: what it does on each status word and what it writes, in the
    literal codes of the headers and without the names that driver and controller share. */
module I2cWords {
  import opened Bits
  import opened I2cTransfer

  /** The bits of the status word that the handler looks at. */
  function Word(stat: bv32): bv32 { stat & 0x5F }

  predicate Bit4(stat: bv32) { stat & 0x10 != 0 }

  predicate Bit6(stat: bv32) { stat & 0x40 != 0 }

  function DropBit4(stat: bv32): bv32 { stat & 0xFFFF_FFEF }

  function DropBit6(stat: bv32): bv32 { stat & 0xFFFF_FFBF }

  function DropBits0And4And6(stat: bv32): bv32 { stat & 0xFFFF_FFAE }

  /** What the handler writes to MSTCTL: 1 continues, 2 starts, 4 stops, and 0 stands for no
      write. */
  function Control(s: Sys): nat
  {
    var w := Word(s.stat);
    if w == 0x03 then (if (s.x.rxSz + 0xFFFF) % 0x1_0000 != 0 then 1 else 4)
    else if w == 0x05 then (if s.x.txSz != 0 then 1 else if s.x.rxSz != 0 then 2 else 4)
    else if w == 0x07 || w == 0x09 then 4
    else 0
  }

  /** The command that a value written to MSTCTL gives the controller. */
  function CommandOf(value: nat): Command
  {
    if value == 1 then Continue else if value == 2 then SendStart else SendStop
  }

  /** The transfer structure after a handler call on a status word. */
  ghost predicate Updated(stat: bv32, mstdat: nat, x: Xfer, x': Xfer)
  {
    var w := Word(stat);
    if Bit4(stat) then x' == x.(status := 5)
    else if Bit6(stat) then x' == x.(status := 3)
    else if w == 0x01 then x' == x
    else if w == 0x03 then
      && x.rxPos < |x.rx|
      && x' == x.(rx := x.rx[x.rxPos := mstdat % 0x100], rxPos := x.rxPos + 1,
                  rxSz := (x.rxSz + 0xFFFF) % 0x1_0000, status := if x'.rxSz == 0 then 0 else x.status)
    else if w == 0x05 then
      if x.txSz != 0 then x' == x.(txPos := x.txPos + 1, txSz := (x.txSz + 0xFFFF) % 0x1_0000)
      else if x.rxSz != 0 then x' == x
      else x' == x.(status := 0)
    else if w == 0x07 then x' == x.(status := 2)
    else if w == 0x09 then x' == x.(status := 4)
    else x' == x.(status := 1)
  }

  /** The data register: only a byte to be sent and the address for reading are written. */
  ghost predicate DataWritten(s: Sys, mstdat: nat)
  {
    var w := Word(s.stat);
    if w == 0x05 && s.x.txSz != 0 then s.x.txPos < |s.x.tx| && mstdat == s.x.tx[s.x.txPos]
    else if w == 0x05 && s.x.rxSz != 0 then mstdat == s.x.slaveAddr % 128 * 2 + 1
    else mstdat == s.mstdat
  }

  /** A whole handler call: the structure, the data register, and either one command to the
      controller or none, in which case at most a fault flag is cleared. Only idle wake-ups
      are not counted. */
  ghost predicate Reacts(s: Sys, s': Sys)
  {
    && Updated(s.stat, s.mstdat, s.x, s'.x)
    && DataWritten(s, s'.mstdat)
    && s'.calls == (if Word(s.stat) == 0x01 then s.calls else s.calls + 1)
    && (if Control(s) != 0 then
          s' == Issue(s.(x := s'.x, mstdat := s'.mstdat, calls := s'.calls), CommandOf(Control(s)))
        else
          && (s'.ctl, s'.trace) == (s.ctl, s.trace)
          && s'.stat == (if Bit4(s.stat) then DropBit4(s.stat) else if Bit6(s.stat) then DropBit6(s.stat) else s.stat))
  }

  // ---------- the words ----------

  lemma FlagWords(stat: bv32)
    ensures ArbLoss(stat) <==> Bit4(stat)
    ensures StartStopError(stat) <==> Bit6(stat)
  {
  }

  /** Without a fault flag the word of a pending event is its code, shifted, plus one. */
  lemma CodeWords(stat: bv32)
    requires !Bit4(stat) && !Bit6(stat) && Pending(stat)
    ensures MasterState(stat) == 0 <==> Word(stat) == 0x01
    ensures MasterState(stat) == 1 <==> Word(stat) == 0x03
    ensures MasterState(stat) == 2 <==> Word(stat) == 0x05
    ensures MasterState(stat) == 3 <==> Word(stat) == 0x07
    ensures MasterState(stat) == 4 <==> Word(stat) == 0x09
  {
  }

  lemma OtherWords(stat: bv32)
    requires Word(stat) in {0x01, 0x03, 0x05, 0x07, 0x09}
    ensures !Bit4(stat) && !Bit6(stat) && Pending(stat)
  {
  }

  lemma ArbLossClearedWord(stat: bv32)
    ensures ClearStatus(stat, STAT_MSTRARBLOSS) == DropBit4(stat)
  {
  }

  lemma StartStopErrorClearedWord(stat: bv32)
    ensures ClearStatus(stat, STAT_MSTSTSTPERR) == DropBit6(stat)
  {
  }

  lemma AllClearedWord(stat: bv32)
    ensures TakeBack(ClearStatus(stat, STAT_MSTRARBLOSS | STAT_MSTSTSTPERR)) == DropBits0And4And6(stat)
  {
  }

  lemma CountsDown(n: nat)
    ensures U16(n - 1) == (n + 0xFFFF) % 0x1_0000
  {
  }

  // ---------- the driver on them ----------

  lemma IssueKeeps(s: Sys, cmd: Command)
    ensures var s' := Issue(s, cmd);
      s'.x == s.x && s'.mstdat == s.mstdat && s'.calls == s.calls
  {
    hide TakeBack, U8;
  }

  lemma ReceiveReacts(s: Sys)
    requires s.x.rxPos < |s.x.rx| && Word(s.stat) == 0x03
    ensures Reacts(s, OnRxReady(s.(calls := s.calls + 1)))
  {
    hide Issue, U16, Word, Bit4, Bit6, Pending;
    OtherWords(s.stat);
    CountsDown(s.x.rxSz);
    var s1 := s.(calls := s.calls + 1);
    var x := StoreByte(s.x, U8(s.mstdat));
    IssueKeeps(s1.(x := x), Continue);
    IssueKeeps(s1.(x := x.(status := STATUS_OK)), SendStop);
  }

  lemma TransmitReacts(s: Sys)
    requires s.x.txPos + s.x.txSz <= |s.x.tx| && Word(s.stat) == 0x05
    ensures Reacts(s, OnTxReady(s.(calls := s.calls + 1)))
  {
    hide Issue, U16, AddressByte, Word, Bit4, Bit6, Pending;
    OtherWords(s.stat);
    CountsDown(s.x.txSz);
    AddressByteIs(s.x.slaveAddr, true);
    var s1 := s.(calls := s.calls + 1);
    if s.x.txSz != 0 {
      var x := s.x.(txPos := s.x.txPos + 1, txSz := U16(s.x.txSz - 1));
      IssueKeeps(s1.(x := x, mstdat := s.x.tx[s.x.txPos]), Continue);
    } else if s.x.rxSz != 0 {
      IssueKeeps(s1.(mstdat := AddressByte(s.x.slaveAddr, true)), SendStart);
    } else {
      IssueKeeps(s1.(x := s.x.(status := STATUS_OK)), SendStop);
    }
  }

  /** The handler reacts to every status word as the numbers say. */
  lemma HandleReacts(s: Sys)
    requires Accessible(s)
    ensures Reacts(s, Handle(s))
  {
    hide ArbLoss, StartStopError, Pending, MasterState, ClearStatus, OnRxReady, OnTxReady, Issue;
    hide Word, Bit4, Bit6, DropBit4, DropBit6;
    var w, s1 := Word(s.stat), s.(calls := s.calls + 1);
    FlagWords(s.stat);
    if !Bit4(s.stat) && !Bit6(s.stat) && Pending(s.stat) {
      CodeWords(s.stat);
      if w == 0x03 {
        ReceiveReacts(s);
      } else if w == 0x05 {
        TransmitReacts(s);
      } else {
        IssueKeeps(SetStatus(s1, 2), SendStop);
        IssueKeeps(SetStatus(s1, 4), SendStop);
      }
    } else {
      if w in {0x01, 0x03, 0x05, 0x07, 0x09} {
        OtherWords(s.stat);
      }
      ArbLossClearedWord(s.stat);
      StartStopErrorClearedWord(s.stat);
    }
  }

  /** The value written to MSTCTL, by the state code. */
  lemma ControlByCode(s: Sys)
    ensures Control(s) == (
      if ArbLoss(s.stat) || StartStopError(s.stat) || !Pending(s.stat) then 0
      else
        var code := MasterState(s.stat);
        if code == 1 then (if U16(s.x.rxSz - 1) != 0 then 1 else 4)
        else if code == 2 then (if s.x.txSz != 0 then 1 else if s.x.rxSz != 0 then 2 else 4)
        else if code == 3 || code == 4 then 4
        else 0)
  {
    hide ArbLoss, StartStopError, Pending, MasterState, Word, Bit4, Bit6, U16;
    CountsDown(s.x.rxSz);
    FlagWords(s.stat);
    if !Bit4(s.stat) && !Bit6(s.stat) && Pending(s.stat) {
      CodeWords(s.stat);
    } else if Word(s.stat) in {0x01, 0x03, 0x05, 0x07, 0x09} {
      OtherWords(s.stat);
    }
  }

  /** The start of a transfer: status busy, both fault flags and the pending bit gone, the
      address byte in the data register and, behind a START, on the bus. */
  lemma BeginReacts(x0: Xfer, stat: bv32, mstdat: nat, ctl: Ctl)
    ensures var b: byte := x0.slaveAddr % 128 * 2 + (if x0.txSz == 0 then 1 else 0);
      Begin(x0, stat, mstdat, ctl)
      == Sys(x0.(status := 0xFF), DropBits0And4And6(stat), b, Addressing(b), [Start, Address(b)], 0)
  {
    hide ClearStatus, TakeBack, AddressByte, DropBits0And4And6;
    AllClearedWord(stat);
    AddressByteIs(x0.slaveAddr, x0.txSz == 0);
  }
}
