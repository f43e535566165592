/** Clock divider, SCL timing and bus speed of the I2C master, as register arithmetic. */
module I2cTiming {
  import opened Bits

  /** Chip_I2C_SetClockDiv: what is stored for a divider. */
  function ClockDivRegister(clkdiv: nat): nat { if 1 <= clkdiv <= 65536 then clkdiv - 1 else 0 }

  /** Chip_I2C_GetClockDiv. */
  function ClockDiv(reg: nat): nat { And(reg, 0xFFFF) + 1 }

  /** The divider that the hardware takes from any register value. */
  lemma ClockDivIs(reg: nat)
    ensures ClockDiv(reg) == reg % 0x1_0000 + 1
  {
    hide And, Pow2;
    Sixteen();
    MaskIsMod(reg, 16);
  }

  /** The divider is read back as set exactly if it is in the documented range; from outside
      it the clock is not divided at all. The register holds one less than the divider. */
  lemma ClockDivRoundTrip(clkdiv: nat)
    ensures ClockDiv(ClockDivRegister(clkdiv)) == clkdiv <==> 1 <= clkdiv <= 65536
    ensures !(1 <= clkdiv <= 65536) ==> ClockDiv(ClockDivRegister(clkdiv)) == 1
    ensures ClockDivRegister(clkdiv) + 1 == ClockDiv(ClockDivRegister(clkdiv))
  {
    hide ClockDiv;
    ClockDivIs(ClockDivRegister(clkdiv));
  }

  lemma Sixteen()
    ensures Pow2(3) == 8 && Pow2(4) == 16 && Pow2(16) == 0x1_0000
  {
    assert Pow2(8) == 0x100;
    Pow2Add(8, 8);
  }

  /** Chip_I2CM_SetDutyCycle: the two phases, in cycles, packed into MSTTIME. */
  function TimeRegister(sclH: nat, sclL: nat): nat
  {
    Or(Shl(And(U32(sclH - 2), 7), 4), And(U32(sclL - 2), 7))
  }

  /** The hardware's reading of MSTTIME: each field plus two cycles. */
  function HighCycles(reg: nat): nat { And(Shr(reg, 4), 7) + 2 }

  function LowCycles(reg: nat): nat { And(reg, 7) + 2 }

  lemma FieldIs(v: int)
    ensures And(U32(v), 7) == v % 8
  {
    Sixteen();
    MaskIsMod(U32(v), 3);
    WrapTransparent(v, 3);
  }

  /** What the hardware makes of any pair of phases: each is kept modulo 8, in 2..9. The word
      has the high phase in bits 4 to 6 and the low phase in bits 0 to 2. */
  lemma TimeRegisterDecodes(sclH: nat, sclL: nat)
    ensures var reg := TimeRegister(sclH, sclL);
      && reg == 16 * ((sclH - 2) % 8) + (sclL - 2) % 8
      && HighCycles(reg) == (sclH - 2) % 8 + 2 && LowCycles(reg) == (sclL - 2) % 8 + 2
  {
    var h, l := (sclH - 2) % 8, (sclL - 2) % 8;
    Sixteen();
    FieldIs(sclH - 2);
    FieldIs(sclL - 2);
    OrDisjoint(h, l, 4);
    var reg := TimeRegister(sclH, sclL);
    assert reg == 16 * h + l;
    MaskIsMod(reg, 3);
    MaskIsMod(Shr(reg, 4), 3);
    FieldsSplit(h, l);
  }

  lemma FieldsSplit(h: nat, l: nat)
    requires h < 8 && l < 8
    ensures (16 * h + l) / 16 == h && h % 8 == h && (16 * h + l) % 8 == l
  {
  }

  /** Both phases survive exactly if they are in the documented range 2..9. */
  lemma DutyCycleKept(sclH: nat, sclL: nat)
    ensures var reg := TimeRegister(sclH, sclL);
      HighCycles(reg) == sclH && LowCycles(reg) == sclL <==> 2 <= sclH <= 9 && 2 <= sclL <= 9
  {
    hide TimeRegister, HighCycles, LowCycles;
    TimeRegisterDecodes(sclH, sclL);
    CyclesKept(sclH);
    CyclesKept(sclL);
  }

  lemma CyclesKept(n: nat)
    ensures (n - 2) % 8 + 2 == n <==> 2 <= n <= 9
  {
  }

  /** Chip_I2CM_SetBusSpeed: MSTTIME for a main clock rate, a divider and a bus speed. */
  function BusSpeedRegister(main: nat, clkdiv: nat, busSpeed: nat): nat
    requires U32(clkdiv * busSpeed) != 0
  {
    var scl := main / U32(clkdiv * busSpeed);
    TimeRegister(U16(scl / 2), U16(scl - scl / 2))
  }

  /** A period of `scl` cycles is split into halves, an odd cycle going to the low phase, and
      what fits its field arrives. The word holds both phases less two, the high one above. */
  ghost predicate Halved(scl: nat, reg: nat)
  {
    && HighCycles(reg) == (scl / 2 - 2) % 8 + 2
    && LowCycles(reg) == ((scl + 1) / 2 - 2) % 8 + 2
    && reg == 16 * (HighCycles(reg) - 2) + (LowCycles(reg) - 2)
    && (4 <= scl <= 18 ==> HighCycles(reg) <= LowCycles(reg) <= HighCycles(reg) + 1)
  }

  lemma BusSpeedDecodes(main: nat, clkdiv: nat, busSpeed: nat)
    requires U32(clkdiv * busSpeed) != 0
    ensures var reg := BusSpeedRegister(main, clkdiv, busSpeed);
      var scl := main / U32(clkdiv * busSpeed);
      && scl >= 0 && Halved(scl, reg)
      && 2 <= HighCycles(reg) <= 9 && 2 <= LowCycles(reg) <= 9
      && (HighCycles(reg) + LowCycles(reg) == scl <==> 4 <= scl <= 18)
  {
    hide TimeRegister, HighCycles, LowCycles, U32;
    var scl := main / U32(clkdiv * busSpeed);
    DivNonNegative(main, U32(clkdiv * busSpeed));
    TimeRegisterDecodes(U16(scl / 2), U16(scl - scl / 2));
    ShortPhase(scl / 2);
    ShortPhase(scl - scl / 2);
    HalvesKept(scl);
  }

  /** Cutting a phase to 16 bits does not disturb its field. */
  lemma ShortPhase(n: nat)
    ensures (U16(n) - 2) % 8 == (n - 2) % 8
  {
    ModMulRemoved(U16(n) - 2, n / 0x1_0000 * 0x2000, 8);
  }

  lemma HalvesKept(scl: nat)
    ensures var h, l := (scl / 2 - 2) % 8 + 2, (scl - scl / 2 - 2) % 8 + 2;
      && (h + l == scl <==> 4 <= scl <= 18)
      && (4 <= scl <= 18 ==> h <= l <= h + 1)
    ensures scl - scl / 2 == (scl + 1) / 2
  {
  }

  /** With an SCL period of `cycles` divided clock cycles the bus is at least as fast as
      requested, and with one cycle more it would be slower. */
  ghost predicate SpeedMet(main: nat, clkdiv: nat, busSpeed: nat, cycles: nat)
  {
    clkdiv * busSpeed * cycles <= main < clkdiv * busSpeed * (cycles + 1)
  }

  /** The programmed bus speed meets the request exactly if main / (clkdiv * busSpeed),
      computed without overflow, is between 4 and 18. Outside, the fields wrap. */
  lemma BusSpeedMetIff(main: nat, clkdiv: nat, busSpeed: nat)
    requires main < TWO_TO_32 && U32(clkdiv * busSpeed) != 0
    ensures var reg := BusSpeedRegister(main, clkdiv, busSpeed);
      SpeedMet(main, clkdiv, busSpeed, HighCycles(reg) + LowCycles(reg))
      <==> clkdiv * busSpeed * 4 <= main < clkdiv * busSpeed * 19
  {
    hide TimeRegister, HighCycles, LowCycles, BusSpeedRegister, U32;
    var reg := BusSpeedRegister(main, clkdiv, busSpeed);
    BusSpeedDecodes(main, clkdiv, busSpeed);
    NonNegativeProduct(clkdiv, busSpeed);
    MetIff(main, clkdiv * busSpeed, HighCycles(reg) + LowCycles(reg));
  }

  lemma MetIff(main: nat, p: nat, cycles: nat)
    requires main < TWO_TO_32 && U32(p) != 0 && 4 <= cycles <= 18
    requires cycles == main / U32(p) <==> 4 <= main / U32(p) <= 18
    ensures p * cycles <= main < p * (cycles + 1) <==> p * 4 <= main < p * 19
  {
    if p < TWO_TO_32 {
      assert U32(p) == p;
      QuotientIs(main, p, cycles);
      QuotientRange(main, p);
    } else {
      MulLe(p, 1, cycles);
    }
  }

  lemma NonNegativeProduct(a: nat, b: nat)
    ensures 0 <= a * b
  {
  }

  lemma QuotientIs(x: nat, d: nat, q: nat)
    requires 0 < d
    ensures d * q <= x < d * (q + 1) <==> x / d == q
  {
    DivBounds(x, d);
    if d * q <= x < d * (q + 1) {
      assert d * (q + 1) == d * q + d;
      DivModUnique(x, d, q, x - d * q);
    }
  }

  lemma QuotientRange(x: nat, d: nat)
    requires 0 < d
    ensures d * 4 <= x < d * 19 <==> 4 <= x / d <= 18
  {
    DivBounds(x, d);
    var q := x / d;
    if 4 <= q <= 18 {
      MulLe(d, 4, q);
      MulLe(d, q + 1, 19);
    } else if q < 4 {
      MulLe(d, q + 1, 4);
    } else {
      MulLe(d, 19, q);
    }
  }

  /** A request that is met: 400 kHz from 72 MHz with divider 20, 4 cycles high and 5 low. */
  lemma OddPeriodInstance()
    ensures U32(20 * 400_000) != 0
    ensures var reg := BusSpeedRegister(72_000_000, 20, 400_000);
      reg == 0x23 && HighCycles(reg) == 4 && LowCycles(reg) == 5
  {
    hide TimeRegister, HighCycles, LowCycles;
    assert U32(20 * 400_000) == 8_000_000 && 72_000_000 / 8_000_000 == 9;
    TimeRegisterDecodes(4, 5);
  }

  /** A request that fails: 400 kHz from 72 MHz with the divider left at 1. The period of 180
      cycles does not fit the fields, and the bus runs at 72 MHz / 4. */
  lemma TooFastInstance()
    ensures U32(1 * 400_000) != 0
    ensures var reg := BusSpeedRegister(72_000_000, 1, 400_000);
      && HighCycles(reg) + LowCycles(reg) == 4
      && !SpeedMet(72_000_000, 1, 400_000, HighCycles(reg) + LowCycles(reg))
  {
    hide TimeRegister, HighCycles, LowCycles;
    assert U32(1 * 400_000) == 400_000 && 72_000_000 / 400_000 == 180;
    TimeRegisterDecodes(90, 90);
  }
}
