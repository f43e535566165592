/** The I2C master transfer on values: the transfer structure, the registers and the bus.

    `Handle` is the state change handler of the driver. Opposite it stands a controller
    that follows the I2C-bus specification UM10204, sections 3.1.4 (START and STOP), 3.1.6
    (acknowledge) and 3.1.10 (address and R/W bit): it carries out the command last written
    to MSTCTL and then reports, nondeterministically, one of the events the section allows.
    `trace` records what was on the bus. Handler calls are atomic: while MSTPENDING is set
    the controller holds the bus and its registers are stable. */
module I2cTransfer {
  import opened Bits

  // ---------- registers and codes ----------

  const STAT_MSTPENDING: bv32 := 0x01
  const STAT_MSTSTATE: bv32 := 0x0E
  const STAT_MSTRARBLOSS: bv32 := 0x10
  const STAT_MSTSTSTPERR: bv32 := 0x40

  const MSTCODE_IDLE: bv32 := 0
  const MSTCODE_RXREADY: bv32 := 1
  const MSTCODE_TXREADY: bv32 := 2
  const MSTCODE_NACKADR: bv32 := 3
  const MSTCODE_NACKDAT: bv32 := 4

  const STATUS_OK: nat := 0x00
  const STATUS_ERROR: nat := 0x01
  const STATUS_NAK_ADR: nat := 0x02
  const STATUS_BUS_ERROR: nat := 0x03
  const STATUS_NAK_DAT: nat := 0x04
  const STATUS_ARBLOST: nat := 0x05
  const STATUS_BUSY: nat := 0xFF

  predicate ArbLoss(stat: bv32) { stat & STAT_MSTRARBLOSS != 0 }

  predicate StartStopError(stat: bv32) { stat & STAT_MSTSTSTPERR != 0 }

  predicate Pending(stat: bv32) { stat & STAT_MSTPENDING != 0 }

  function MasterState(stat: bv32): bv32 { (stat & STAT_MSTSTATE) >> 1 }

  /** Writing ones to the two sticky flags clears them; other bits do not react. */
  function ClearStatus(stat: bv32, clr: bv32): bv32
  {
    stat & !(clr & (STAT_MSTRARBLOSS | STAT_MSTSTSTPERR))
  }

  /** All status bits but the two sticky flags. */
  function OtherBits(stat: bv32): bv32 { stat & 0xFFFF_FFAF }

  /** What the write does, flag by flag and for all other bits. */
  lemma ArbLossCleared(stat: bv32, clr: bv32)
    ensures ArbLoss(ClearStatus(stat, clr)) <==> ArbLoss(stat) && !ArbLoss(clr)
  {
  }

  lemma StartStopErrorCleared(stat: bv32, clr: bv32)
    ensures StartStopError(ClearStatus(stat, clr)) <==> StartStopError(stat) && !StartStopError(clr)
  {
  }

  lemma OtherBitsStay(stat: bv32, clr: bv32)
    ensures OtherBits(ClearStatus(stat, clr)) == OtherBits(stat)
  {
  }

  lemma FlagBits()
    ensures ArbLoss(STAT_MSTRARBLOSS) && !StartStopError(STAT_MSTRARBLOSS)
    ensures StartStopError(STAT_MSTSTSTPERR) && !ArbLoss(STAT_MSTSTSTPERR)
    ensures var both := STAT_MSTRARBLOSS | STAT_MSTSTSTPERR; ArbLoss(both) && StartStopError(both)
  {
  }

  /** I2CM_XFER_T. The moving pointers txBuff and rxBuff are positions in fixed buffers. */
  datatype Xfer = Xfer(
    tx: seq<byte>, txPos: nat, txSz: nat,
    rx: seq<byte>, rxPos: nat, rxSz: nat,
    status: nat, slaveAddr: byte)

  /** What appears on the bus: START, the address byte, data bytes of the master and of the
      slave, acknowledge bits of the slave and of the master, STOP. */
  datatype Sym = Start | Address(b: byte) | Out(b: byte) | In(b: byte) | SAck | SNack | MAck | MNack | Stop

  /** The controller: bus free; address or data byte on the wire, acknowledge awaited; next
      byte awaited; holding the bus with an event pending; or out of the transfer. */
  datatype Ctl = Free | Addressing(b: byte) | Sending | Receiving | TxPend | RxPend | NackPend | Broken

  datatype Sys = Sys(x: Xfer, stat: bv32, mstdat: nat, ctl: Ctl, trace: seq<Sym>, calls: nat)

  // ---------- the controller ----------

  datatype Command = Continue | SendStart | SendStop

  function TakeBack(stat: bv32): bv32 { stat & !STAT_MSTPENDING }

  /** A write to MSTCTL: the pending event is taken back and the command goes on the bus. */
  function Issue(s: Sys, cmd: Command): Sys
  {
    var s1 := s.(stat := TakeBack(s.stat));
    match cmd
    case SendStart =>
      var b := U8(s.mstdat);
      s1.(ctl := Addressing(b), trace := s.trace + [Start, Address(b)])
    case Continue =>
      if s.ctl == TxPend then s1.(ctl := Sending, trace := s.trace + [Out(U8(s.mstdat))])
      else if s.ctl == RxPend then s1.(ctl := Receiving, trace := s.trace + [MAck])
      else s1
    case SendStop =>
      s1.(ctl := Free, trace := s.trace + (if s.ctl == RxPend then [MNack, Stop] else [Stop]))
  }

  /** What may happen while the master waits: the slave acknowledges or delivers the byte d,
      or does not acknowledge; arbitration is lost; a START or STOP is detected where none
      may be; the controller reports a reserved code; or an idle event wakes the driver.
      `noise` stands for all status bits that do not concern the master function. */
  datatype Event =
    | Acked(d: byte, noise: bv32)
    | Nacked(noise: bv32)
    | ArbitrationLost(noise: bv32)
    | BusError(noise: bv32)
    | Reserved(code: bv32, noise: bv32)
    | Idle(noise: bv32)

  predicate Waiting(ctl: Ctl) { ctl.Addressing? || ctl == Sending || ctl == Receiving }

  function StatWord(code: bv32, noise: bv32): bv32
  {
    (noise & 0xFFFF_FF80) | (code << 1) | STAT_MSTPENDING
  }

  lemma StatWordBits(code: bv32, noise: bv32)
    requires code < 8
    ensures var w := StatWord(code, noise);
      Pending(w) && !ArbLoss(w) && !StartStopError(w) && MasterState(w) == code
  {
  }

  /** A fault flag may be raised together with anything else. */
  function FaultWord(flag: bv32, noise: bv32): bv32
  {
    (noise & !(STAT_MSTRARBLOSS | STAT_MSTSTSTPERR)) | flag | STAT_MSTPENDING
  }

  /** The controller's reaction, if the master waits for one. */
  function React(s: Sys, ev: Event): Sys
  {
    if !Waiting(s.ctl) then s
    else match ev
      case Acked(d, noise) =>
        if s.ctl == Receiving then
          s.(ctl := RxPend, stat := StatWord(MSTCODE_RXREADY, noise), mstdat := d, trace := s.trace + [In(d)])
        else if s.ctl.Addressing? && s.ctl.b % 2 == 1 then
          s.(ctl := RxPend, stat := StatWord(MSTCODE_RXREADY, noise), mstdat := d, trace := s.trace + [SAck, In(d)])
        else
          s.(ctl := TxPend, stat := StatWord(MSTCODE_TXREADY, noise), trace := s.trace + [SAck])
      case Nacked(noise) =>
        if s.ctl == Receiving then s
        else
          var code := if s.ctl == Sending then MSTCODE_NACKDAT else MSTCODE_NACKADR;
          s.(ctl := NackPend, stat := StatWord(code, noise), trace := s.trace + [SNack])
      case ArbitrationLost(noise) => s.(ctl := Broken, stat := FaultWord(STAT_MSTRARBLOSS, noise))
      case BusError(noise) => s.(ctl := Broken, stat := FaultWord(STAT_MSTSTSTPERR, noise))
      case Reserved(code, noise) =>
        if 5 <= code < 8 then s.(ctl := Broken, stat := StatWord(code, noise)) else s
      case Idle(noise) => s.(stat := StatWord(MSTCODE_IDLE, noise))
  }

  // ---------- the driver ----------

  /** (slaveAddr << 1) | read, cut to the eight bits of the data register write. */
  function AddressByte(slaveAddr: byte, read: bool): byte
  {
    U8(Or(Shl(slaveAddr, 1), if read then 1 else 0))
  }

  lemma AddressByteIs(slaveAddr: byte, read: bool)
    ensures AddressByte(slaveAddr, read) == slaveAddr % 128 * 2 + (if read then 1 else 0)
  {
    hide Or;
    var bit := if read then 1 else 0;
    assert Pow2(1) == 2;
    OrDisjoint(slaveAddr, bit, 1);
    SevenBits(slaveAddr, bit);
  }

  lemma SevenBits(a: nat, bit: nat)
    requires bit < 2
    ensures (a * 2 + bit) % 0x100 == a % 128 * 2 + bit
  {
  }

  /** Chip_I2CM_Xfer on a controller in any state. */
  function Begin(x0: Xfer, stat: bv32, mstdat: nat, ctl: Ctl): Sys
  {
    var x := x0.(status := STATUS_BUSY);
    var stat1 := ClearStatus(stat, STAT_MSTRARBLOSS | STAT_MSTSTSTPERR);
    Issue(Sys(x, stat1, AddressByte(x.slaveAddr, x.txSz == 0), ctl, [], 0), SendStart)
  }

  /** The handler will take a received byte from the data register. */
  predicate TakesByte(stat: bv32)
  {
    && !ArbLoss(stat) && !StartStopError(stat) && Pending(stat)
    && MasterState(stat) == MSTCODE_RXREADY
  }

  /** The buffer accesses of the next handler call stay inside the buffers. */
  predicate Accessible(s: Sys)
  {
    && s.x.txPos + s.x.txSz <= |s.x.tx|
    && (TakesByte(s.stat) ==> s.x.rxPos < |s.x.rx|)
  }

  function StoreByte(x: Xfer, d: byte): Xfer
    requires x.rxPos < |x.rx|
  {
    x.(rx := x.rx[x.rxPos := d], rxPos := x.rxPos + 1, rxSz := U16(x.rxSz - 1))
  }

  function OnRxReady(s: Sys): Sys
    requires s.x.rxPos < |s.x.rx|
  {
    var x := StoreByte(s.x, U8(s.mstdat));
    if x.rxSz != 0 then Issue(s.(x := x), Continue)
    else Issue(s.(x := x.(status := STATUS_OK)), SendStop)
  }

  function OnTxReady(s: Sys): Sys
    requires s.x.txPos + s.x.txSz <= |s.x.tx|
  {
    if s.x.txSz != 0 then
      var x := s.x.(txPos := s.x.txPos + 1, txSz := U16(s.x.txSz - 1));
      Issue(s.(x := x, mstdat := s.x.tx[s.x.txPos]), Continue)
    else if s.x.rxSz != 0 then
      Issue(s.(mstdat := AddressByte(s.x.slaveAddr, true)), SendStart)
    else
      Issue(s.(x := s.x.(status := STATUS_OK)), SendStop)
  }

  function SetStatus(s: Sys, status: nat): Sys { s.(x := s.x.(status := status)) }

  /** Chip_I2CM_XferHandler. `calls` counts the calls that did not just see an idle event. */
  function Handle(s: Sys): Sys
    requires Accessible(s)
  {
    var s1 := s.(calls := s.calls + 1);
    if ArbLoss(s.stat) then
      SetStatus(s1, STATUS_ARBLOST).(stat := ClearStatus(s.stat, STAT_MSTRARBLOSS))
    else if StartStopError(s.stat) then
      SetStatus(s1, STATUS_BUS_ERROR).(stat := ClearStatus(s.stat, STAT_MSTSTSTPERR))
    else if Pending(s.stat) then
      var code := MasterState(s.stat);
      if code == MSTCODE_IDLE then s
      else if code == MSTCODE_RXREADY then OnRxReady(s1)
      else if code == MSTCODE_TXREADY then OnTxReady(s1)
      else if code == MSTCODE_NACKADR then Issue(SetStatus(s1, STATUS_NAK_ADR), SendStop)
      else if code == MSTCODE_NACKDAT then Issue(SetStatus(s1, STATUS_NAK_DAT), SendStop)
      else SetStatus(s1, STATUS_ERROR)
    else SetStatus(s1, STATUS_ERROR)
  }

  /** The return value of the handler: the transfer is over. */
  predicate Done(s: Sys) { s.x.status != STATUS_BUSY }

  // ---------- the documented bus traffic ----------

  /** txBuff0 [A] txBuff1 [A] ... */
  function WriteBytes(bs: seq<byte>): seq<Sym>
  {
    if bs == [] then [] else [Out(bs[0]), SAck] + WriteBytes(bs[1..])
  }

  /** [rxBuff0] A [rxBuff1] A ... */
  function AckedBytes(bs: seq<byte>): seq<Sym>
  {
    if bs == [] then [] else [In(bs[0]), MAck] + AckedBytes(bs[1..])
  }

  /** [rxBuff0] A [rxBuff1] A ... [rxBuffN] NA */
  function ReadBytes(bs: seq<byte>): seq<Sym>
  {
    if bs == [] then []
    else if |bs| == 1 then [In(bs[0]), MNack]
    else [In(bs[0]), MAck] + ReadBytes(bs[1..])
  }

  function WriteHeader(slaveAddr: byte): seq<Sym> { [Start, Address(slaveAddr % 128 * 2), SAck] }

  function ReadHeader(slaveAddr: byte): seq<Sym> { [Start, Address(slaveAddr % 128 * 2 + 1), SAck] }

  /** The three documented forms: write-only, read-only, and write followed by a repeated
      START and the read part. */
  function Documented(slaveAddr: byte, tx: seq<byte>, rx: seq<byte>): seq<Sym>
  {
    if rx == [] then WriteHeader(slaveAddr) + WriteBytes(tx) + [Stop]
    else if tx == [] then ReadHeader(slaveAddr) + ReadBytes(rx) + [Stop]
    else WriteHeader(slaveAddr) + WriteBytes(tx) + ReadHeader(slaveAddr) + ReadBytes(rx) + [Stop]
  }

  lemma {:induction false} WriteBytesSnoc(bs: seq<byte>, b: byte)
    ensures WriteBytes(bs + [b]) == WriteBytes(bs) + [Out(b), SAck]
  {
    if bs == [] {
    } else {
      assert (bs + [b])[1..] == bs[1..] + [b];
      WriteBytesSnoc(bs[1..], b);
    }
  }

  lemma {:induction false} AckedBytesSnoc(bs: seq<byte>, b: byte)
    ensures AckedBytes(bs + [b]) == AckedBytes(bs) + [In(b), MAck]
    ensures ReadBytes(bs + [b]) == AckedBytes(bs) + [In(b), MNack]
  {
    if bs == [] {
    } else {
      assert (bs + [b])[1..] == bs[1..] + [b];
      AckedBytesSnoc(bs[1..], b);
    }
  }
}
