/** Every run of an I2C master transfer: any controller behaviour, any interleaving of bus
    events and handler calls.

    The invariant says at each instant how many bytes have gone out and come in, what is on
    the bus, how many handler calls were made, and that no STOP has been sent. What a
    finished transfer leaves behind is Outcome. */
module I2cRuns {
  import opened Bits
  import opened I2cTransfer

  /** A transfer as its caller sets it up. */
  ghost predicate Job(x0: Xfer)
  {
    && x0.txPos == 0 && x0.rxPos == 0
    && x0.txSz <= |x0.tx| && x0.rxSz <= |x0.rx|
    && x0.txSz < 0x1_0000 && x0.rxSz < 0x1_0000
  }

  function WriteByteOf(x0: Xfer): byte { x0.slaveAddr % 128 * 2 }

  function ReadByteOf(x0: Xfer): byte { x0.slaveAddr % 128 * 2 + 1 }

  /** Handler calls for the write part: one for each byte and one that goes on to the read
      part or stops. */
  function WriteCalls(x0: Xfer): nat { if x0.txSz > 0 then x0.txSz + 1 else 0 }

  function AllCalls(x0: Xfer): nat { WriteCalls(x0) + x0.rxSz }

  // ---------- what is on the bus ----------

  function WriteTrace(x0: Xfer, n: nat): seq<Sym>
    requires n <= |x0.tx|
  {
    WriteHeader(x0.slaveAddr) + WriteBytes(x0.tx[..n])
  }

  /** The traffic before the read part. */
  function Lead(x0: Xfer): seq<Sym>
    requires x0.txSz <= |x0.tx|
  {
    if x0.txSz > 0 then WriteTrace(x0, x0.txSz) else []
  }

  /** The traffic up to the acknowledged bytes rs. */
  function ReadTrace(x0: Xfer, rs: seq<byte>): seq<Sym>
    requires x0.txSz <= |x0.tx|
  {
    Lead(x0) + ReadHeader(x0.slaveAddr) + AckedBytes(rs)
  }

  /** The places at which the master waits for the bus, and the handler calls made by then:
      the address for writing is out ... */
  ghost predicate WriteAddressed(x0: Xfer, x: Xfer, t: seq<Sym>, calls: nat)
  {
    && x0.txSz > 0 && x.txPos == 0 && x.rxPos == 0
    && t == [Start, Address(WriteByteOf(x0))] && calls == 0
  }

  /** ... a data byte is out ... */
  ghost predicate ByteSent(x0: Xfer, x: Xfer, t: seq<Sym>, calls: nat)
  {
    && 0 < x.txPos <= x0.txSz <= |x0.tx| && x.rxPos == 0
    && t == WriteTrace(x0, x.txPos - 1) + [Out(x0.tx[x.txPos - 1])] && calls == x.txPos
  }

  /** ... the address for reading is out ... */
  ghost predicate ReadAddressed(x0: Xfer, x: Xfer, t: seq<Sym>, calls: nat)
  {
    && x0.txSz <= |x0.tx| && x.txSz == 0 && x.rxPos == 0 && x.rxSz > 0
    && t == Lead(x0) + [Start, Address(ReadByteOf(x0))] && calls == WriteCalls(x0)
  }

  /** ... or a received byte was acknowledged and more are wanted. */
  ghost predicate MoreWanted(x0: Xfer, x: Xfer, t: seq<Sym>, calls: nat)
  {
    && x0.txSz <= |x0.tx| && x.txSz == 0 && 0 < x.rxPos <= |x.rx| && x.rxSz > 0
    && t == ReadTrace(x0, x.rx[..x.rxPos]) && calls == WriteCalls(x0) + x.rxPos
  }

  ghost predicate AwaitTrace(x0: Xfer, x: Xfer, t: seq<Sym>, calls: nat)
  {
    || WriteAddressed(x0, x, t, calls)
    || ByteSent(x0, x, t, calls)
    || ReadAddressed(x0, x, t, calls)
    || MoreWanted(x0, x, t, calls)
  }

  /** The master waited at t and got no acknowledge for an address (a data byte). */
  ghost predicate NackTrace(x0: Xfer, x: Xfer, t: seq<Sym>, calls: nat, data: bool)
  {
    if data then ByteSent(x0, x, t, calls)
    else WriteAddressed(x0, x, t, calls) || ReadAddressed(x0, x, t, calls)
  }

  // ---------- the invariant ----------

  /** Only the progress fields change; bytes sent and bytes left make up the original size,
      likewise for received bytes; memory behind the received bytes is untouched. */
  ghost predicate Progress(x0: Xfer, x: Xfer)
  {
    && x == x0.(txPos := x.txPos, txSz := x.txSz, rx := x.rx, rxPos := x.rxPos, rxSz := x.rxSz, status := x.status)
    && x.txPos + x.txSz == x0.txSz
    && x.rxPos + x.rxSz == x0.rxSz
    && x.rxPos <= |x.rx| == |x0.rx| && Untouched(x0.rx, x.rx, x.rxPos)
  }

  ghost predicate Untouched(rx0: seq<byte>, rx: seq<byte>, from: nat)
    requires from <= |rx0| == |rx|
  {
    rx[from..] == rx0[from..]
  }

  ghost predicate Reports(stat: bv32, code: bv32)
  {
    Pending(stat) && !ArbLoss(stat) && !StartStopError(stat) && MasterState(stat) == code
  }

  /** No event, or an idle one; in particular no fault flag. */
  ghost predicate Quiet(stat: bv32)
  {
    !ArbLoss(stat) && !StartStopError(stat) && (Pending(stat) ==> MasterState(stat) == MSTCODE_IDLE)
  }

  ghost predicate Faulty(stat: bv32)
  {
    Pending(stat) && (ArbLoss(stat) || StartStopError(stat) || 5 <= MasterState(stat) < 8)
  }

  /** The state of a transfer under way, by the state of the controller. */
  ghost predicate Stage(x0: Xfer, s: Sys)
    requires Job(x0) && Progress(x0, s.x)
  {
    match s.ctl
    case Free => false
    case Addressing(b) =>
      && Quiet(s.stat)
      && (if b % 2 == 0 then WriteAddressed(x0, s.x, s.trace, s.calls)
          else ReadAddressed(x0, s.x, s.trace, s.calls))
    case Sending => Quiet(s.stat) && ByteSent(x0, s.x, s.trace, s.calls)
    case Receiving => Quiet(s.stat) && MoreWanted(x0, s.x, s.trace, s.calls)
    case TxPend =>
      && Reports(s.stat, MSTCODE_TXREADY)
      && x0.txSz > 0 && s.x.rxPos == 0
      && s.trace == WriteTrace(x0, s.x.txPos) && s.calls == s.x.txPos
    case RxPend =>
      && Reports(s.stat, MSTCODE_RXREADY)
      && s.x.txSz == 0 && s.x.rxSz > 0 && s.mstdat < 0x100
      && s.trace == ReadTrace(x0, s.x.rx[..s.x.rxPos]) + [In(s.mstdat)]
      && s.calls == WriteCalls(x0) + s.x.rxPos
    case NackPend =>
      && s.trace != []
      && (var t := s.trace[..|s.trace| - 1];
          && s.trace == t + [SNack]
          && (|| (Reports(s.stat, MSTCODE_NACKADR) && NackTrace(x0, s.x, t, s.calls, false))
              || (Reports(s.stat, MSTCODE_NACKDAT) && NackTrace(x0, s.x, t, s.calls, true))))
    case Broken => Faulty(s.stat) && AwaitTrace(x0, s.x, s.trace, s.calls)
  }

  /** No STOP before the last symbol. */
  ghost predicate OneStop(t: seq<Sym>)
  {
    t != [] && t[|t| - 1] == Stop && Stop !in t[..|t| - 1]
  }

  /** What a finished transfer leaves behind. `s.calls` handler calls found an event. */
  ghost predicate Outcome(x0: Xfer, s: Sys)
    requires Job(x0) && Progress(x0, s.x)
  {
    if s.x.status == STATUS_OK then
      && s.x.txSz == 0 && s.x.rxSz == 0
      && s.trace == Documented(x0.slaveAddr, x0.tx[..x0.txSz], s.x.rx[..x0.rxSz])
      && s.calls == AllCalls(x0)
      && OneStop(s.trace)
    else if s.x.status == STATUS_NAK_ADR || s.x.status == STATUS_NAK_DAT then
      && OneStop(s.trace) && 1 < |s.trace|
      && 0 < s.calls <= AllCalls(x0)
      && (var t := s.trace[..|s.trace| - 2];
          && s.trace == t + [SNack, Stop]
          && NackTrace(x0, s.x, t, s.calls - 1, s.x.status == STATUS_NAK_DAT))
    else
      && s.x.status in {STATUS_ARBLOST, STATUS_BUS_ERROR, STATUS_ERROR}
      && Stop !in s.trace
      && 0 < s.calls <= AllCalls(x0)
      && AwaitTrace(x0, s.x, s.trace, s.calls - 1)
  }

  ghost predicate Inv(x0: Xfer, s: Sys)
  {
    && Job(x0) && Progress(x0, s.x)
    && (if Done(s) then Outcome(x0, s) else Stage(x0, s) && Stop !in s.trace && s.calls < AllCalls(x0))
  }

  lemma InvIsAccessible(x0: Xfer, s: Sys)
    requires Inv(x0, s) && !Done(s)
    ensures Accessible(s)
  {
  }

  // ---------- status words ----------

  lemma NoLongerPending(stat: bv32)
    ensures !Pending(TakeBack(stat))
  {
    assert TakeBack(stat) & 0x01 == 0;
  }

  lemma ArbLossStays(stat: bv32)
    ensures ArbLoss(TakeBack(stat)) <==> ArbLoss(stat)
  {
    assert TakeBack(stat) & 0x10 == stat & 0x10;
  }

  lemma StartStopErrorStays(stat: bv32)
    ensures StartStopError(TakeBack(stat)) <==> StartStopError(stat)
  {
    assert TakeBack(stat) & 0x40 == stat & 0x40;
  }

  lemma TakenBack(stat: bv32)
    ensures var w := TakeBack(stat);
      !Pending(w) && (ArbLoss(w) <==> ArbLoss(stat)) && (StartStopError(w) <==> StartStopError(stat))
  {
    hide TakeBack, Pending, ArbLoss, StartStopError;
    NoLongerPending(stat);
    ArbLossStays(stat);
    StartStopErrorStays(stat);
  }

  lemma FaultWordBits(noise: bv32)
    ensures ArbLoss(FaultWord(STAT_MSTRARBLOSS, noise)) && Pending(FaultWord(STAT_MSTRARBLOSS, noise))
    ensures StartStopError(FaultWord(STAT_MSTSTSTPERR, noise)) && Pending(FaultWord(STAT_MSTSTSTPERR, noise))
  {
  }

  lemma BothFlagsCleared(stat: bv32)
    ensures var w := ClearStatus(stat, STAT_MSTRARBLOSS | STAT_MSTSTSTPERR);
      !ArbLoss(w) && !StartStopError(w)
  {
    hide ClearStatus, ArbLoss, StartStopError;
    var both := STAT_MSTRARBLOSS | STAT_MSTSTSTPERR;
    FlagBits();
    ArbLossCleared(stat, both);
    StartStopErrorCleared(stat, both);
  }

  // ---------- bus events ----------

  /** An acknowledge bit or a byte of the slave ends the wait. */
  lemma AckIsSafe(x0: Xfer, s: Sys, d: byte, noise: bv32)
    requires Inv(x0, s) && !Done(s) && Waiting(s.ctl)
    ensures Inv(x0, React(s, Acked(d, noise)))
  {
    hide ArbLoss, StartStopError, Pending, MasterState, StatWord, WriteBytes, AckedBytes, U8;
    StatWordBits(MSTCODE_RXREADY, noise);
    StatWordBits(MSTCODE_TXREADY, noise);
    match s.ctl {
      case Addressing(b) =>
        if b % 2 == 1 {
          assert s.trace + [SAck, In(d)] == ReadTrace(x0, s.x.rx[..0]) + [In(d)] by {
            FirstByte(x0, s.x.rx);
          }
        } else {
          FirstWrite(x0);
        }
      case Sending => NextWrite(x0, s.x.txPos);
      case Receiving =>
    }
  }

  lemma FirstByte(x0: Xfer, rx: seq<byte>)
    requires x0.txSz <= |x0.tx|
    ensures Lead(x0) + [Start, Address(ReadByteOf(x0))] + [SAck] == ReadTrace(x0, rx[..0])
  {
    assert AckedBytes(rx[..0]) == [];
  }

  lemma FirstWrite(x0: Xfer)
    ensures [Start, Address(WriteByteOf(x0))] + [SAck] == WriteTrace(x0, 0)
  {
    assert WriteBytes(x0.tx[..0]) == [];
  }

  lemma NextWrite(x0: Xfer, n: nat)
    requires 0 < n <= |x0.tx|
    ensures WriteTrace(x0, n - 1) + [Out(x0.tx[n - 1])] + [SAck] == WriteTrace(x0, n)
  {
    WriteBytesSnoc(x0.tx[..n - 1], x0.tx[n - 1]);
    assert x0.tx[..n - 1] + [x0.tx[n - 1]] == x0.tx[..n];
  }

  lemma NextRead(x0: Xfer, rx: seq<byte>, n: nat)
    requires x0.txSz <= |x0.tx| && n < |rx|
    ensures ReadTrace(x0, rx[..n]) + [In(rx[n])] + [MAck] == ReadTrace(x0, rx[..n + 1])
  {
    AckedBytesSnoc(rx[..n], rx[n]);
    assert rx[..n] + [rx[n]] == rx[..n + 1];
  }

  lemma NackIsSafe(x0: Xfer, s: Sys, noise: bv32)
    requires Inv(x0, s) && !Done(s) && Waiting(s.ctl)
    ensures Inv(x0, React(s, Nacked(noise)))
  {
    hide ArbLoss, StartStopError, Pending, MasterState, StatWord, WriteBytes, AckedBytes, U8;
    StatWordBits(MSTCODE_NACKADR, noise);
    StatWordBits(MSTCODE_NACKDAT, noise);
    assert (s.trace + [SNack])[..|s.trace|] == s.trace;
  }

  lemma FaultIsSafe(x0: Xfer, s: Sys, ev: Event)
    requires Inv(x0, s) && !Done(s) && Waiting(s.ctl)
    requires ev.ArbitrationLost? || ev.BusError? || ev.Reserved? || ev.Idle?
    ensures Inv(x0, React(s, ev))
  {
    hide ArbLoss, StartStopError, Pending, MasterState, StatWord, FaultWord, WriteTrace, ReadTrace, U8;
    FaultWordBits(ev.noise);
    StatWordBits(MSTCODE_IDLE, ev.noise);
    if ev.Reserved? && 5 <= ev.code < 8 {
      StatWordBits(ev.code, ev.noise);
    }
  }

  lemma ReactIsSafe(x0: Xfer, s: Sys, ev: Event)
    requires Inv(x0, s) && !Done(s)
    ensures Inv(x0, React(s, ev))
  {
    hide Inv;
    if Waiting(s.ctl) {
      match ev {
        case Acked(d, noise) => AckIsSafe(x0, s, d, noise);
        case Nacked(noise) => NackIsSafe(x0, s, noise);
        case _ => FaultIsSafe(x0, s, ev);
      }
    }
  }

  // ---------- handler calls ----------

  /** Whatever state the controller and its status register are in, Xfer starts a run:
      flags left over from an earlier transfer are gone. */
  lemma BeginIsSafe(x0: Xfer, stat: bv32, mstdat: nat, ctl: Ctl)
    requires Job(x0) && x0.txSz + x0.rxSz > 0
    ensures Inv(x0, Begin(x0, stat, mstdat, ctl))
  {
    hide TakeBack, ArbLoss, StartStopError, Pending, MasterState, ClearStatus, AddressByte, WriteBytes, AckedBytes;
    BothFlagsCleared(stat);
    TakenBack(ClearStatus(stat, STAT_MSTRARBLOSS | STAT_MSTSTSTPERR));
    AddressByteIs(x0.slaveAddr, x0.txSz == 0);
    assert x0.rx[0..] == x0.rx;
  }

  lemma OkTrace(x0: Xfer, rx: seq<byte>)
    requires Job(x0) && |rx| == |x0.rx| && x0.rxSz > 0
    ensures ReadTrace(x0, rx[..x0.rxSz - 1]) + [In(rx[x0.rxSz - 1])] + [MNack, Stop]
         == Documented(x0.slaveAddr, x0.tx[..x0.txSz], rx[..x0.rxSz])
  {
    var n := x0.rxSz - 1;
    AckedBytesSnoc(rx[..n], rx[n]);
    assert rx[..n] + [rx[n]] == rx[..n + 1];
    var body := AckedBytes(rx[..n]) + [In(rx[n]), MNack];
    assert ReadTrace(x0, rx[..n]) + [In(rx[n])] + [MNack, Stop]
        == Lead(x0) + ReadHeader(x0.slaveAddr) + body + [Stop];
    if x0.txSz == 0 {
      assert [] + ReadHeader(x0.slaveAddr) == ReadHeader(x0.slaveAddr);
    } else {
      assert x0.tx[..x0.txSz] != [];
    }
  }

  lemma RxReadyIsSafe(x0: Xfer, s: Sys)
    requires Inv(x0, s) && !Done(s) && s.ctl == RxPend
    ensures Accessible(s) && Inv(x0, Handle(s))
  {
    hide Inv, Handle;
    if s.x.rxSz == 1 {
      LastByte(x0, s);
    } else {
      OneMoreByte(x0, s);
    }
  }

  /** Taking a byte: it lands behind the earlier ones and nothing else changes. */
  lemma StoredByte(x0: Xfer, x: Xfer, d: byte)
    requires Job(x0) && Progress(x0, x) && x.rxSz > 0
    ensures var x' := StoreByte(x, d);
      && Progress(x0, x')
      && x'.rx[..x.rxPos] == x.rx[..x.rxPos] && x'.rx[x.rxPos] == d && x'.rxSz == x.rxSz - 1
  {
    var n := x.rxPos;
    assert x.rx[n := d][n + 1..] == x.rx[n..][1..] == x0.rx[n..][1..] == x0.rx[n + 1..];
  }

  lemma OneMoreByte(x0: Xfer, s: Sys)
    requires Inv(x0, s) && !Done(s) && s.ctl == RxPend && s.x.rxSz != 1
    ensures Accessible(s) && Inv(x0, Handle(s))
  {
    hide ArbLoss, StartStopError, Pending, MasterState, TakeBack, Documented, ReadTrace, Untouched, StoreByte, U16;
    TakenBack(s.stat);
    ByteIsItself(s.mstdat);
    StoredByte(x0, s.x, s.mstdat);
    StoreKeeps(s.x, s.mstdat);
    NextRead(x0, StoreByte(s.x, s.mstdat).rx, s.x.rxPos);
  }

  lemma StoreKeeps(x: Xfer, d: byte)
    requires x.rxPos < |x.rx|
    ensures var x' := StoreByte(x, d);
      (x'.status, x'.txPos, x'.txSz, x'.rxPos) == (x.status, x.txPos, x.txSz, x.rxPos + 1)
  {
  }

  lemma LastByte(x0: Xfer, s: Sys)
    requires Inv(x0, s) && !Done(s) && s.ctl == RxPend && s.x.rxSz == 1
    ensures Accessible(s) && Inv(x0, Handle(s))
  {
    hide ArbLoss, StartStopError, Pending, MasterState, TakeBack, Documented, ReadTrace, Untouched, StoreByte, U16;
    ByteIsItself(s.mstdat);
    StoredByte(x0, s.x, s.mstdat);
    StoreKeeps(s.x, s.mstdat);
    OkTrace(x0, StoreByte(s.x, s.mstdat).rx);
    StopBehindLast(s.trace);
  }

  lemma StopBehindLast(t: seq<Sym>)
    requires Stop !in t
    ensures OneStop(t + [MNack, Stop])
  {
    assert (t + [MNack, Stop])[..|t| + 1] == t + [MNack];
  }

  lemma TxReadyIsSafe(x0: Xfer, s: Sys)
    requires Inv(x0, s) && !Done(s) && s.ctl == TxPend
    ensures Accessible(s) && Inv(x0, Handle(s))
  {
    hide Inv, Handle;
    if s.x.txSz != 0 {
      SendNextByte(x0, s);
    } else if s.x.rxSz != 0 {
      TurnToRead(x0, s);
    } else {
      WriteEnds(x0, s);
    }
  }

  lemma SendNextByte(x0: Xfer, s: Sys)
    requires Inv(x0, s) && !Done(s) && s.ctl == TxPend && s.x.txSz != 0
    ensures Accessible(s) && Inv(x0, Handle(s))
  {
    hide TakeBack, ArbLoss, StartStopError, Pending, MasterState, WriteTrace, ReadTrace, Documented, U8;
    TakenBack(s.stat);
    ByteIsItself(s.x.tx[s.x.txPos]);
  }

  lemma TurnToRead(x0: Xfer, s: Sys)
    requires Inv(x0, s) && !Done(s) && s.ctl == TxPend && s.x.txSz == 0 && s.x.rxSz != 0
    ensures Accessible(s) && Inv(x0, Handle(s))
  {
    hide TakeBack, ArbLoss, StartStopError, Pending, MasterState, WriteTrace, ReadTrace, Documented, U8, AddressByte;
    TakenBack(s.stat);
    AddressByteIs(s.x.slaveAddr, true);
    ByteIsItself(AddressByte(s.x.slaveAddr, true));
  }

  lemma WriteEnds(x0: Xfer, s: Sys)
    requires Inv(x0, s) && !Done(s) && s.ctl == TxPend && s.x.txSz == 0 && s.x.rxSz == 0
    ensures Accessible(s) && Inv(x0, Handle(s))
  {
    hide TakeBack, ArbLoss, StartStopError, Pending, MasterState, WriteBytes, ReadTrace, AckedBytes, U8;
    TakenBack(s.stat);
  }

  lemma ByteIsItself(b: byte)
    ensures U8(b) == b
  {
  }

  /** A missing acknowledge ends the transfer: one STOP, and the status that tells which. */
  lemma NackStops(x0: Xfer, s: Sys)
    requires Inv(x0, s) && !Done(s) && s.ctl == NackPend
    ensures Accessible(s) && Inv(x0, Handle(s))
    ensures Done(Handle(s)) && Handle(s).trace == s.trace + [Stop] && Handle(s).calls == s.calls + 1
    ensures Handle(s).x.status == NackStatus(MasterState(s.stat))
  {
    hide Handle, Outcome, ArbLoss, StartStopError, Pending, MasterState, NackTrace, AwaitTrace, Untouched;
    HandleNack(s);
    NackOutcome(x0, s, Handle(s));
  }

  lemma NackOutcome(x0: Xfer, s: Sys, s': Sys)
    requires Inv(x0, s) && !Done(s) && s.ctl == NackPend
    requires s' == s.(x := s.x.(status := NackStatus(MasterState(s.stat))), stat := s'.stat,
                      ctl := Free, trace := s.trace + [Stop], calls := s.calls + 1)
    ensures Inv(x0, s')
  {
    hide ArbLoss, StartStopError, Pending, MasterState, NackTrace, AwaitTrace, Untouched, Documented;
    var t := s.trace[..|s.trace| - 1];
    NackKeepsPlace(x0, s.x, t, s.calls, MasterState(s.stat) == MSTCODE_NACKDAT);
    StopBehindNack(t);
  }

  function NackStatus(code: bv32): nat { if code == MSTCODE_NACKDAT then STATUS_NAK_DAT else STATUS_NAK_ADR }

  lemma HandleNack(s: Sys)
    requires s.x.txPos + s.x.txSz <= |s.x.tx| && s.ctl == NackPend
    requires Reports(s.stat, MSTCODE_NACKADR) || Reports(s.stat, MSTCODE_NACKDAT)
    ensures Accessible(s)
    ensures Handle(s) == s.(x := s.x.(status := NackStatus(MasterState(s.stat))), stat := TakeBack(s.stat),
                            ctl := Free, trace := s.trace + [Stop], calls := s.calls + 1)
  {
    hide ArbLoss, StartStopError, Pending, MasterState, TakeBack;
  }

  lemma NackKeepsPlace(x0: Xfer, x: Xfer, t: seq<Sym>, calls: nat, data: bool)
    requires NackTrace(x0, x, t, calls, data)
    ensures forall status :: NackTrace(x0, x.(status := status), t, calls, data)
  {
    hide WriteTrace, Lead;
  }

  lemma StopBehindNack(t: seq<Sym>)
    ensures t + [SNack] + [Stop] == t + [SNack, Stop]
    ensures (t + [SNack, Stop])[..|t|] == t
    ensures Stop !in t ==> OneStop(t + [SNack, Stop])
  {
    assert (t + [SNack, Stop])[..|t| + 1] == t + [SNack];
  }

  /** Fault flags, reserved codes and calls without an event end the transfer where the
      master waits, without a STOP; idle wake-ups change nothing. */
  lemma FaultEnds(x0: Xfer, s: Sys)
    requires Inv(x0, s) && !Done(s) && (Waiting(s.ctl) || s.ctl == Broken)
    ensures Accessible(s) && Inv(x0, Handle(s))
    ensures if Quiet(s.stat) && Pending(s.stat) then Handle(s) == s
            else Done(Handle(s)) && Handle(s).trace == s.trace && Handle(s).calls == s.calls + 1
    ensures !(Quiet(s.stat) && Pending(s.stat)) ==> Handle(s).x.status == FaultStatus(s.stat)
  {
    hide Handle, Outcome, Untouched, ArbLoss, StartStopError, Pending, MasterState, WriteTrace, ReadTrace;
    FaultOrIdle(s);
    if Handle(s) != s {
      AwaitKeepsPlace(x0, s.x, s.trace, s.calls);
      EndsAwaiting(x0, s, Handle(s));
    }
  }

  /** Lost arbitration comes before a start or stop error, anything else is an error. */
  function FaultStatus(stat: bv32): nat
  {
    if ArbLoss(stat) then STATUS_ARBLOST
    else if StartStopError(stat) then STATUS_BUS_ERROR
    else STATUS_ERROR
  }

  /** Without a ready or NACK code the handler changes status and flags only, or nothing. */
  lemma FaultOrIdle(s: Sys)
    requires s.x.txPos + s.x.txSz <= |s.x.tx|
    requires Quiet(s.stat) || Faulty(s.stat)
    ensures Accessible(s)
    ensures var s' := Handle(s);
      if Quiet(s.stat) && Pending(s.stat) then s' == s
      else s' == s.(x := s.x.(status := FaultStatus(s.stat)), stat := s'.stat, calls := s.calls + 1)
  {
    hide ArbLoss, StartStopError, Pending, MasterState, ClearStatus;
  }

  lemma AwaitKeepsPlace(x0: Xfer, x: Xfer, t: seq<Sym>, calls: nat)
    requires AwaitTrace(x0, x, t, calls)
    ensures forall status :: AwaitTrace(x0, x.(status := status), t, calls)
  {
    hide WriteTrace, ReadTrace, Lead;
  }

  lemma EndsAwaiting(x0: Xfer, s: Sys, s': Sys)
    requires Inv(x0, s) && !Done(s)
    requires s'.x.status in {STATUS_ARBLOST, STATUS_BUS_ERROR, STATUS_ERROR}
    requires s' == s.(x := s.x.(status := s'.x.status), stat := s'.stat, calls := s.calls + 1)
    requires AwaitTrace(x0, s'.x, s.trace, s.calls)
    ensures Inv(x0, s')
  {
    hide AwaitTrace, Stage, Untouched;
  }

  lemma HandleIsSafe(x0: Xfer, s: Sys)
    requires Inv(x0, s) && !Done(s)
    ensures Accessible(s) && Inv(x0, Handle(s))
  {
    match s.ctl {
      case RxPend => RxReadyIsSafe(x0, s);
      case TxPend => TxReadyIsSafe(x0, s);
      case NackPend => NackStops(x0, s);
      case _ => FaultEnds(x0, s);
    }
  }

  // ---------- answers ----------

  /** Events that a waiting controller reports when nothing wakes the driver idly. */
  predicate Answers(ctl: Ctl, ev: Event)
  {
    && !ev.Idle?
    && !(ev.Nacked? && ctl == Receiving)
    && (ev.Reserved? ==> 5 <= ev.code < 8)
  }

  lemma AnswerIsPending(s: Sys, ev: Event)
    requires Waiting(s.ctl) && Answers(s.ctl, ev)
    ensures Pending(React(s, ev).stat)
  {
    hide ArbLoss, StartStopError, Pending, MasterState, StatWord, FaultWord;
    FaultWordBits(ev.noise);
    StatWordBits(MSTCODE_RXREADY, ev.noise);
    StatWordBits(MSTCODE_TXREADY, ev.noise);
    StatWordBits(MSTCODE_NACKADR, ev.noise);
    StatWordBits(MSTCODE_NACKDAT, ev.noise);
    if ev.Reserved? {
      StatWordBits(ev.code, ev.noise);
    }
  }

  lemma NotPendingIsWaiting(x0: Xfer, s: Sys)
    requires Inv(x0, s) && !Done(s) && !Pending(s.stat)
    ensures Waiting(s.ctl)
  {
    hide ArbLoss, StartStopError, Pending, MasterState, WriteTrace, ReadTrace;
  }

  /** No event is reported while the controller works on a command. */
  predicate AwaitsOrHolds(s: Sys) { Waiting(s.ctl) ==> !Pending(s.stat) }

  lemma AnswerHolds(s: Sys, ev: Event)
    requires Waiting(s.ctl) && Answers(s.ctl, ev)
    ensures var s' := React(s, ev);
      Pending(s'.stat) && !Waiting(s'.ctl) && s'.calls == s.calls && s'.x == s.x
  {
    AnswerIsPending(s, ev);
  }

  lemma BeginAwaits(x0: Xfer, stat: bv32, mstdat: nat, ctl: Ctl)
    ensures AwaitsOrHolds(Begin(x0, stat, mstdat, ctl)) && Begin(x0, stat, mstdat, ctl).calls == 0
    ensures !Done(Begin(x0, stat, mstdat, ctl))
  {
    hide Pending, TakeBack, ClearStatus, AddressByte;
    TakenBack(ClearStatus(stat, STAT_MSTRARBLOSS | STAT_MSTSTSTPERR));
  }

  /** A handler call on an event counts, and ends the transfer or gives a new command. */
  lemma HandleAdvances(x0: Xfer, s: Sys)
    requires Inv(x0, s) && !Done(s) && !Waiting(s.ctl)
    ensures Accessible(s) && s.calls < AllCalls(x0)
    ensures Handle(s).calls == s.calls + 1
    ensures !Done(Handle(s)) ==> AwaitsOrHolds(Handle(s))
  {
    hide Handle, AwaitsOrHolds, Outcome, Stage, Progress;
    HandleIsSafe(x0, s);
    if s.ctl == TxPend || s.ctl == RxPend {
      ReadyAdvances(x0, s);
    } else if s.ctl == NackPend {
      NackStops(x0, s);
    } else {
      QuietIsWaiting(x0, s);
      FaultEnds(x0, s);
    }
  }

  lemma ReadyAdvances(x0: Xfer, s: Sys)
    requires Inv(x0, s) && !Done(s) && (s.ctl == TxPend || s.ctl == RxPend)
    ensures Accessible(s) && Handle(s).calls == s.calls + 1
    ensures !Done(Handle(s)) ==> AwaitsOrHolds(Handle(s))
  {
    hide ArbLoss, StartStopError, Pending, MasterState, TakeBack, AddressByte, U8;
    hide WriteTrace, ReadTrace, Untouched, StoreByte;
    TakenBack(s.stat);
  }

  lemma QuietIsWaiting(x0: Xfer, s: Sys)
    requires Inv(x0, s) && !Done(s) && !Waiting(s.ctl)
    ensures s.ctl != Free && (s.ctl == Broken ==> !Quiet(s.stat))
  {
    hide ArbLoss, StartStopError, Pending, MasterState, NackTrace, AwaitTrace, Progress;
  }

  /** When a byte is to be taken, everything has been sent. */
  lemma ReceivingHasSent(x0: Xfer, s: Sys)
    requires Inv(x0, s) && !Done(s) && TakesByte(s.stat)
    ensures s.x.txSz == 0
  {
    hide ArbLoss, StartStopError, Pending, MasterState, WriteTrace, ReadTrace, Untouched;
  }
}
