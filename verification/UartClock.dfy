/** The UART base clock: an integer divider in front of a fractional generator that divides
    by 1 + mult / 256. Setting and reading back both round down, twice each. */
module UartClock {
  import opened Bits

  // ---------- the registers' meaning ----------

  /** Chip_Clock_GetUARTBaseClockRate, from the two registers. */
  function BaseRate(main: nat, uartClkDiv: nat, frgCtrl: nat): nat
  {
    if uartClkDiv == 0 then 0
    else
      DivNonNegative(main, uartClkDiv);
      var inclk := main / uartClkDiv;
      var divmult := And(frgCtrl, 0xFFFF);
      if And(divmult, 0xFF) == 0xFF then
        var mult := And(Shr(divmult, 8), 0xFF);
        DivNonNegative(inclk * 256, 256 + mult);
        U32((inclk * 256) / (256 + mult))
      else U32(inclk)
  }

  /** The integer divider that Chip_Clock_SetUARTBaseClockRate computes. */
  function Divider(main: nat, rate: nat): (div: nat)
    requires 0 < rate
    ensures 0 < div
  {
    DivNonNegative(main, rate);
    if main / rate == 0 then 1 else main / rate
  }

  /** The multiplier before it is cut to eight bits; `err` wraps if rate exceeds main. */
  function Multiplier(main: nat, rate: nat): (mult: nat)
    requires 0 < rate && U32(rate * Divider(main, rate)) != 0
  {
    var product := U32(rate * Divider(main, rate));
    var err := U32(main - product);
    DivNonNegative(err * 256, product);
    (err * 256) / product
  }

  function ClockDivValue(main: nat, rate: nat): nat
    requires 0 < rate
  {
    U8(Divider(main, rate))
  }

  function FrgValue(main: nat, rate: nat, fEnable: bool): nat
    requires 0 < rate && U32(rate * Divider(main, rate)) != 0
  {
    if fEnable then Or(0xFF, Shl(And(Multiplier(main, rate), 0xFF), 8)) else 0
  }

  /** The rate that Chip_Clock_SetUARTBaseClockRate returns. */
  function SetRate(main: nat, rate: nat, fEnable: bool): nat
    requires 0 < rate && U32(rate * Divider(main, rate)) != 0
  {
    BaseRate(main, ClockDivValue(main, rate), FrgValue(main, rate, fEnable))
  }

  /** rate * div never overflows: it is at most the main clock, or the rate itself. */
  lemma ProductFits(main: nat, rate: nat)
    requires main < TWO_TO_32 && 0 < rate < TWO_TO_32
    ensures var p := rate * Divider(main, rate);
      0 < p < TWO_TO_32 && U32(p) == p && (rate <= main ==> p <= main < p + rate)
  {
    var d := main / rate;
    DivBounds(main, rate);
    DivNonNegative(main, rate);
    assert (d + 1) * rate == d * rate + rate;
    if d == 0 {
      assert rate * 1 == rate;
    } else {
      MulLe(rate, 1, d);
    }
  }

  // ---------- what the registers encode ----------

  /** The word written with the fraction on: the multiplier's low byte above 0xFF. */
  lemma FrgWordIs(mult: nat)
    ensures Or(0xFF, Shl(And(mult, 0xFF), 8)) == mult % 0x100 * 0x100 + 0xFF
  {
    hide And, Or;
    Pow2Of32();
    MaskIsMod(mult, 8);
    OrCommutes(0xFF, Shl(mult % 0x100, 8));
    OrDisjoint(mult % 0x100, 0xFF, 8);
  }

  lemma OrCommutes(x: nat, y: nat)
    ensures Or(x, y) == Or(y, x)
  {
  }

  lemma Powers()
    ensures Pow2(8) == 0x100 && Pow2(16) == 0x1_0000
  {
    assert Pow2(8) == 0x100;
    Pow2Add(8, 8);
  }

  /** The getter in arithmetic, for any register contents. */
  lemma BaseRateIs(main: nat, div: nat, frg: nat)
    requires main < TWO_TO_32
    ensures BaseRate(main, div, frg) ==
      if div == 0 then 0
      else if frg % 0x100 == 0xFF then main / div * 256 / (256 + frg / 0x100 % 0x100)
      else main / div
  {
    hide And, Shr, U32;
    AnyFields(frg);
    if div != 0 {
      QuotientAtMost(main, div);
      ScaledAtMost(main / div, 256 + frg / 0x100 % 0x100);
      assert forall r: nat :: r <= main ==> U32(r) == r by {
        forall r: nat | r <= main
          ensures U32(r) == r
        {
          Unwrapped(r);
        }
      }
    }
  }

  lemma Unwrapped(r: nat)
    requires r < TWO_TO_32
    ensures U32(r) == r
  {
  }

  lemma AnyFields(frg: nat)
    ensures var v := And(frg, 0xFFFF);
      And(v, 0xFF) == frg % 0x100 && And(Shr(v, 8), 0xFF) == frg / 0x100 % 0x100
  {
    hide And, Pow2;
    Powers();
    var v := And(frg, 0xFFFF);
    MaskIsMod(frg, 16);
    MaskIsMod(v, 8);
    MaskIsMod(Shr(v, 8), 8);
    LowWord(frg);
  }

  lemma LowWord(frg: nat)
    ensures frg % 0x1_0000 % 0x100 == frg % 0x100
    ensures frg % 0x1_0000 / 0x100 == frg / 0x100 % 0x100
  {
  }

  /** SetRate in arithmetic: with the fraction on, the divided clock times 256 over
      256 + multiplier mod 256; with it off, the divided clock. */
  lemma SetRateIs(main: nat, rate: nat)
    requires main < TWO_TO_32 && 0 < rate < TWO_TO_32
    ensures U32(rate * Divider(main, rate)) != 0
    ensures var d := ClockDivValue(main, rate);
      if d == 0 then SetRate(main, rate, true) == 0 && SetRate(main, rate, false) == 0
      else
        && SetRate(main, rate, false) == main / d
        && SetRate(main, rate, true) == (main / d * 256) / (256 + Multiplier(main, rate) % 0x100)
  {
    hide And, Or, Shl, Shr, U32, Divider, Multiplier, U8, ClockDivValue;
    ProductFits(main, rate);
    var d, m := ClockDivValue(main, rate), Multiplier(main, rate);
    FrgWordIs(m);
    if d != 0 {
      IntegerBaseRate(main, d);
      FractionalBaseRate(main, d, m % 0x100);
    }
  }

  lemma IntegerBaseRate(main: nat, d: nat)
    requires main < TWO_TO_32 && 0 < d
    ensures BaseRate(main, d, 0) == main / d
  {
    hide BaseRate;
    BaseRateIs(main, d, 0);
  }

  lemma FractionalBaseRate(main: nat, d: nat, m: nat)
    requires main < TWO_TO_32 && 0 < d && m < 0x100
    ensures BaseRate(main, d, m * 0x100 + 0xFF) == (main / d * 256) / (256 + m)
  {
    hide BaseRate;
    BaseRateIs(main, d, m * 0x100 + 0xFF);
    assert (m * 0x100 + 0xFF) / 0x100 == m && m % 0x100 == m;
  }

  lemma QuotientAtMost(x: nat, d: nat)
    requires 0 < d
    ensures 0 <= x / d <= x
  {
    DivBounds(x, d);
    DivNonNegative(x, d);
    MulLe(x / d, 1, d);
  }

  lemma ScaledAtMost(x: nat, m: nat)
    requires 256 <= m
    ensures 0 <= x * 256 / m <= x
  {
    DivBounds(x * 256, m);
    DivNonNegative(x * 256, m);
    var q := x * 256 / m;
    MulLe(q, 256, m);
  }

  // ---------- integer mode ----------

  /** What the integer divider main / rate promises: a rate no lower than the requested one
      and no higher than the main clock through that divider. */
  ghost predicate IntegerLaw(main: nat, rate: nat, actual: nat)
    requires 0 < rate
  {
    rate <= actual && main / rate * actual <= main
  }

  /** The integer law holds exactly if the divider main / rate is in 1..255. */
  lemma IntegerModeIff(main: nat, rate: nat)
    requires main < TWO_TO_32 && 0 < rate < TWO_TO_32
    ensures U32(rate * Divider(main, rate)) != 0
    ensures IntegerLaw(main, rate, SetRate(main, rate, false)) <==> 1 <= main / rate <= 255
  {
    hide SetRate, U32;
    SetRateIs(main, rate);
    DivNonNegative(main, rate);
    var d := main / rate;
    var r := SetRate(main, rate, false);
    if d == 0 {
      SlowClock(main, rate);
    } else if d <= 255 {
      assert ClockDivValue(main, rate) == d;
      InRange(main, rate, d, r);
    } else {
      CutDivider(main, rate, d, d % 0x100, r);
    }
  }

  lemma SlowClock(main: nat, rate: nat)
    requires 0 < rate && main / rate == 0
    ensures main < rate && main / 1 == main
  {
    DivBounds(main, rate);
  }

  lemma InRange(main: nat, rate: nat, d: nat, r: nat)
    requires 0 < rate && 0 < d && d == main / rate && r == main / d
    ensures rate <= r && d * r <= main < (d + 1) * rate
  {
    DivBounds(main, rate);
    DivBounds(main, d);
    if r < rate {
      MulLe(d, r + 1, rate);
    }
  }

  /** A divider above 255 loses its high bits; the result is then far too fast, or the
      clock is off. */
  lemma CutDivider(main: nat, rate: nat, d: nat, e: nat, r: nat)
    requires 0 < rate && d == main / rate && 256 <= d && e == d % 0x100
    requires r == if e == 0 then 0 else main / e
    ensures e != 0 ==> 2 * rate <= r && d * r > main
    ensures e == 0 ==> r < rate
  {
    if e != 0 {
      DivBounds(main, rate);
      DivBounds(main, e);
      assert main < e * (r + 1);
      TooFast(main, rate, d, e, r);
    }
  }

  lemma TooFast(main: nat, rate: nat, d: nat, e: nat, r: nat)
    requires 0 < rate && d * rate <= main < e * (r + 1) && 0 < e < 0x100 && e + 0x100 <= d
    ensures 2 * rate <= r && d * r > main
  {
    MulLe(rate, e + 256, d);
    assert rate * (e + 256) == rate * e + rate * 256;
    if r < 2 * rate {
      MulLe(e, r + 1, 2 * rate);
      assert e * (2 * rate) == 2 * (rate * e);
      MulLe(rate, e, 255);
    }
    MulLe(r, e + 256, d);
    assert r * (e + 256) == e * r + 256 * r;
    assert e * (r + 1) == e * r + e;
  }

  // ---------- fractional mode ----------

  /** The words that are written. Without the fraction the generator is off. With it, its
      denominator field is full, and for rates up to the main clock the multiplier field is
      the floor of 256 * (main - p) / p for the coarse rate's share p = rate * divider; above
      the main clock it is the low byte of the wrapped error's multiplier. */
  ghost predicate Fraction(main: nat, rate: nat, fEnable: bool, frg: nat)
    requires 0 < rate
  {
    if !fEnable then frg == 0
    else
      && frg < 0x1_0000 && frg % 0x100 == 0xFF
      && (if rate <= main then
            var p, m := main / rate * rate, frg / 0x100;
            p * m <= 256 * (main - p) < p * (m + 1)
          else frg / 0x100 == (TWO_TO_32 + main - rate) * 256 / rate % 0x100)
  }

  lemma WordsAre(main: nat, rate: nat, fEnable: bool)
    requires main < TWO_TO_32 && 0 < rate < TWO_TO_32
    ensures U32(rate * Divider(main, rate)) != 0
    ensures ClockDivValue(main, rate) == (if rate <= main then main / rate % 0x100 else 1)
    ensures Fraction(main, rate, fEnable, FrgValue(main, rate, fEnable))
  {
    hide And, Or, Shl, U32, Multiplier, Fraction;
    ProductFits(main, rate);
    if rate <= main {
      DividerIs(main, rate);
    } else {
      NoDivider(main, rate);
    }
    if fEnable {
      FractionOn(main, rate);
    } else {
      FractionOff(main, rate);
    }
  }

  lemma FractionOff(main: nat, rate: nat)
    requires 0 < rate
    ensures Fraction(main, rate, false, 0)
  {
  }

  lemma FractionOn(main: nat, rate: nat)
    requires main < TWO_TO_32 && 0 < rate < TWO_TO_32
    ensures U32(rate * Divider(main, rate)) != 0
    ensures Fraction(main, rate, true, FrgValue(main, rate, true))
  {
    hide And, Or, Shl, U32, Multiplier, Divider;
    ProductFits(main, rate);
    FrgWordIs(Multiplier(main, rate));
    WordSplits(Multiplier(main, rate) % 0x100);
    if rate <= main {
      DividerIs(main, rate);
      MultiplierFits(main, rate);
      Fits(Multiplier(main, rate));
    } else {
      WrappedError(main, rate);
    }
  }

  lemma Fits(m: nat)
    requires m < 0x100
    ensures m % 0x100 == m
  {
  }

  lemma WordSplits(m: nat)
    requires m < 0x100
    ensures var w := m * 0x100 + 0xFF;
      w < 0x1_0000 && w % 0x100 == 0xFF && w / 0x100 == m
  {
  }

  /** For rates up to the main clock the multiplier fits its eight bits. */
  lemma MultiplierFits(main: nat, rate: nat)
    requires main < TWO_TO_32 && 0 < rate <= main
    ensures U32(rate * Divider(main, rate)) != 0
    ensures Multiplier(main, rate) < 0x100
    ensures var (p, m) := (rate * Divider(main, rate), Multiplier(main, rate));
      p * m <= 256 * (main - p) < p * (m + 1)
  {
    hide Divider;
    ProductFits(main, rate);
    var p := rate * Divider(main, rate);
    MultiplierOf(main, p, rate);
  }

  lemma MultiplierOf(main: nat, p: nat, rate: nat)
    requires main < TWO_TO_32 && 0 < rate <= p <= main < p + rate
    ensures var m := (U32(main - p) * 256) / p;
      0 <= m < 0x100 && p * m <= 256 * (main - p) < p * (m + 1)
  {
    assert U32(main - p) == main - p;
    QuotientBelow((main - p) * 256, p, 0x100);
  }

  lemma QuotientBelow(x: nat, p: nat, bound: nat)
    requires 0 < p && x < p * bound
    ensures 0 <= x / p < bound && p * (x / p) <= x < p * (x / p + 1)
  {
    DivBounds(x, p);
    DivNonNegative(x, p);
    if x / p >= bound {
      MulLe(p, bound, x / p);
    }
  }

  /** What fractional mode promises: the clock runs, at most 1 Hz below and less than 1/256
      above the requested rate. */
  ghost predicate FractionalLaw(rate: nat, actual: int)
  {
    0 < actual && rate <= actual + 1 && 256 * actual < 257 * rate
  }

  /** The rates for which fractional mode keeps its promise: up to the main clock, those
      whose divider fits its register; above it, only the next integer, and only if the low
      byte of the multiplier, computed from a wrapped error, happens to be zero. */
  predicate FractionalRange(main: nat, rate: nat)
    requires 0 < rate
  {
    if rate <= main then main / rate <= 255
    else 0 < main && rate == main + 1 && 0xFFFF_FFFF * 256 / rate % 0x100 == 0
  }

  /** Fractional mode keeps its promise exactly for these rates. */
  lemma FractionalModeIff(main: nat, rate: nat)
    requires main < TWO_TO_32 && 0 < rate < TWO_TO_32
    ensures U32(rate * Divider(main, rate)) != 0
    ensures FractionalLaw(rate, SetRate(main, rate, true)) <==> FractionalRange(main, rate)
  {
    hide SetRate, U32, Multiplier, FractionalLaw;
    if main < rate {
      FractionalAboveMain(main, rate);
    } else {
      FractionalUpToMain(main, rate);
    }
  }

  lemma FractionalUpToMain(main: nat, rate: nat)
    requires main < TWO_TO_32 && 0 < rate <= main
    ensures U32(rate * Divider(main, rate)) != 0
    ensures FractionalLaw(rate, SetRate(main, rate, true)) <==> main / rate <= 255
  {
    hide SetRate, U32, Multiplier, FractionalLaw;
    if main / rate <= 255 {
      FractionalWindow(main, rate);
    } else {
      CutDividerFractional(main, rate);
    }
  }

  lemma FractionalAboveMain(main: nat, rate: nat)
    requires main < rate < TWO_TO_32
    ensures U32(rate * Divider(main, rate)) != 0
    ensures FractionalLaw(rate, SetRate(main, rate, true)) <==> FractionalRange(main, rate)
  {
    hide SetRate, Multiplier, FractionalLaw;
    SetRateIs(main, rate);
    NoDivider(main, rate);
    WrappedError(main, rate);
    ScaledIsWhole(main, Multiplier(main, rate) % 0x100);
    LawAboveMain(main, rate, SetRate(main, rate, true));
  }

  lemma NoDivider(main: nat, rate: nat)
    requires main < rate
    ensures main / rate == 0 && Divider(main, rate) == 1 && ClockDivValue(main, rate) == 1
    ensures main / 1 == main && rate * Divider(main, rate) == rate
  {
    DivModUnique(main, rate, 0, main);
  }

  /** Above the main clock the error is negative and wraps. */
  lemma WrappedError(main: nat, rate: nat)
    requires main < rate < TWO_TO_32
    ensures U32(rate * Divider(main, rate)) != 0
    ensures Multiplier(main, rate) == (TWO_TO_32 + main - rate) * 256 / rate
  {
    NoDivider(main, rate);
    assert U32(main - rate) == TWO_TO_32 + main - rate;
  }

  /** Scaling by 256 / (256 + m) keeps a positive value only for m = 0. */
  lemma ScaledIsWhole(x: nat, m: nat)
    ensures 0 <= x * 256 / (256 + m) <= x
    ensures 0 < x ==> (x * 256 / (256 + m) == x <==> m == 0)
  {
    ScaledAtMost(x, 256 + m);
    DivBounds(x * 256, 256 + m);
    if m == 0 {
      DivModUnique(x * 256, 256, x, 0);
    } else if x * 256 / (256 + m) == x && 0 < x {
      MulLe(x, 257, 256 + m);
    }
  }

  lemma LawAboveMain(main: nat, rate: nat, actual: nat)
    requires main < rate && actual <= main
    ensures FractionalLaw(rate, actual) <==> 0 < main && rate == main + 1 && actual == main
  {
  }

  lemma DividerIs(main: nat, rate: nat)
    requires 0 < rate <= main
    ensures 0 < main / rate == Divider(main, rate)
  {
    DivBounds(main, rate);
    DivNonNegative(main, rate);
  }

  lemma FractionalWindow(main: nat, rate: nat)
    requires main < TWO_TO_32 && 0 < rate <= main && main / rate <= 255
    ensures U32(rate * Divider(main, rate)) != 0
    ensures FractionalLaw(rate, SetRate(main, rate, true))
    ensures main % rate == 0 ==> SetRate(main, rate, true) == rate
  {
    hide SetRate, U32, Multiplier;
    DividerIs(main, rate);
    ProductFits(main, rate);
    MultiplierFits(main, rate);
    SetRateIs(main, rate);
    var d, m := main / rate, Multiplier(main, rate);
    assert ClockDivValue(main, rate) == d && m % 0x100 == m;
    Window(main, rate, d, m);
  }

  lemma Window(main: nat, rate: nat, d: nat, m: nat)
    requires 0 < rate && 0 < d == main / rate && m < 0x100
    requires rate * d * m <= 256 * (main - rate * d) < rate * d * (m + 1)
    ensures FractionalLaw(rate, (main / d * 256) / (256 + m))
    ensures main % rate == 0 ==> (main / d * 256) / (256 + m) == rate
  {
    var p, i, r := rate * d, main / d, (main / d * 256) / (256 + m);
    InRange(main, rate, d, i);
    DivBounds(main, d);
    DivBounds(i * 256, 256 + m);
    DivNonNegative(i * 256, 256 + m);
    DivBounds(main, rate);
    LowerBound(main, rate, d, p, m, i, r);
    UpperBound(main, rate, d, p, m, i, r);
    if main % rate == 0 {
      ExactWindow(main, rate, d, m);
    } else {
      OneDivides(main, rate);
    }
  }

  lemma OneDivides(main: nat, rate: nat)
    requires 0 < rate && main % rate != 0
    ensures 1 < rate
  {
  }

  lemma ExactWindow(main: nat, rate: nat, d: nat, m: nat)
    requires 0 < rate && 0 < d == main / rate && main % rate == 0
    requires rate * d * m <= 256 * (main - rate * d)
    ensures main / d == rate && (main / d * 256) / (256 + m) == rate
  {
    DivBounds(main, rate);
    assert main == rate * d;
    MulLe(rate, 1, d);
    NoErrorNoFraction(rate * d, m);
    DivModUnique(main, d, rate, 0);
    DivModUnique(rate * 256, 256, rate, 0);
  }

  lemma NoErrorNoFraction(p: nat, m: nat)
    requires 0 < p && p * m <= 0
    ensures m == 0
  {
    if m > 0 {
      MulLe(p, 1, m);
    }
  }

  lemma LowerBound(main: nat, rate: nat, d: nat, p: nat, m: nat, i: nat, r: nat)
    requires 0 < d && p == rate * d && p * m <= 256 * (main - p)
    requires main < (i + 1) * d && 256 * i < (r + 1) * (256 + m)
    ensures rate <= r + 1
  {
    if r + 1 < rate {
      var k := 256 + m;
      MulLe(k, r + 1, rate - 1);
      MulLe(d, 256 * i + 1, (rate - 1) * k);
      Regroup(d, rate, k);
      Expand(i, d, p, m);
      MulLe(d, 256, k);
    }
  }

  lemma Expand(i: int, d: int, p: int, m: int)
    ensures d * (256 * i + 1) == 256 * (i * d) + d
    ensures (i + 1) * d == i * d + d
    ensures p * (256 + m) == 256 * p + p * m
  {
  }

  lemma Regroup(d: int, rate: int, k: int)
    ensures d * ((rate - 1) * k) == rate * d * k - d * k
  {
  }

  lemma UpperBound(main: nat, rate: nat, d: nat, p: nat, m: nat, i: nat, r: nat)
    requires 0 < d && 0 < rate && p == rate * d && 256 * (main - p) < p * (m + 1)
    requires i * d <= main && r * (256 + m) <= 256 * i
    ensures 256 * r < 257 * rate
  {
    var k := 256 + m;
    MulLe(d, r * k, 256 * i);
    assert d * (256 * i) == 256 * (i * d);
    assert p * (m + 257) == p * (m + 1) + 256 * p;
    assert rate * d * (k + 1) == d * (rate * (k + 1)) by {
      Swap(rate, d, k + 1);
    }
    Cancel(d, r * k, rate * (k + 1));
    if 256 * r >= 257 * rate {
      MulLe(k, 257 * rate, 256 * r);
      Spread(k, rate, r);
    }
  }

  lemma Swap(a: int, b: int, c: int)
    ensures a * b * c == b * (a * c)
  {
  }

  lemma Spread(k: nat, rate: nat, r: nat)
    requires k >= 256 && 0 < rate && k * (257 * rate) <= k * (256 * r)
    ensures r * k >= rate * (k + 1)
  {
    assert k * (257 * rate) == 257 * (rate * k);
    assert k * (256 * r) == 256 * (r * k);
    assert rate * (k + 1) == rate * k + rate;
    MulLe(rate, 256, k);
  }

  lemma Cancel(d: nat, x: int, y: int)
    requires 0 < d && d * x < d * y
    ensures x < y
  {
    if y <= x {
      MulLe(d, y, x);
    }
  }

  /** Above 255 the fraction vanishes and the cut divider decides. */
  lemma CutDividerFractional(main: nat, rate: nat)
    requires main < TWO_TO_32 && 0 < rate <= main && 255 < main / rate
    ensures U32(rate * Divider(main, rate)) != 0
    ensures SetRate(main, rate, true) == SetRate(main, rate, false)
    ensures SetRate(main, rate, true) != rate && !FractionalLaw(rate, SetRate(main, rate, true))
  {
    hide SetRate, U32, Multiplier;
    DividerIs(main, rate);
    ProductFits(main, rate);
    MultiplierFits(main, rate);
    SetRateIs(main, rate);
    var d, m := main / rate, Multiplier(main, rate);
    var e := ClockDivValue(main, rate);
    VanishingFraction(main, rate, d, m);
    CutDivider(main, rate, d, e, if e == 0 then 0 else main / e);
    if e != 0 {
      DivModUnique(main / e * 256, 256, main / e, 0);
    }
  }

  lemma VanishingFraction(main: nat, rate: nat, d: nat, m: nat)
    requires 255 < d && 0 < rate && main < rate * d + rate
    requires rate * d * m <= 256 * (main - rate * d)
    ensures m == 0
  {
    if m > 0 {
      MulLe(rate, 256, d);
      MulLe(rate * d, 1, m);
    }
  }

  /** A rate that divides the main clock is produced exactly, in either mode, precisely if
      the divider fits its register. */
  lemma ExactIff(main: nat, rate: nat, fEnable: bool)
    requires main < TWO_TO_32 && 0 < rate < TWO_TO_32 && main % rate == 0
    ensures U32(rate * Divider(main, rate)) != 0
    ensures SetRate(main, rate, fEnable) == rate <==> 1 <= main / rate <= 255
  {
    hide SetRate, U32, Multiplier, FractionalLaw;
    if main < rate {
      NoDivider(main, rate);
      AboveMainClock(main, rate, fEnable);
    } else if main / rate <= 255 {
      DividerIs(main, rate);
      FractionalWindow(main, rate);
      ExactInteger(main, rate);
    } else {
      CutDividerFractional(main, rate);
    }
  }

  lemma ExactInteger(main: nat, rate: nat)
    requires main < TWO_TO_32 && 0 < rate <= main && main % rate == 0 && main / rate <= 255
    ensures U32(rate * Divider(main, rate)) != 0
    ensures SetRate(main, rate, false) == rate
  {
    hide SetRate, U32, Multiplier;
    SetRateIs(main, rate);
    DividerIs(main, rate);
    DivBounds(main, rate);
    var d := main / rate;
    assert main == rate * d;
    DivModUnique(main, d, rate, 0);
  }

  // ---------- both modes ----------

  function Distance(a: int, b: int): int { if a < b then b - a else a - b }

  /** The fraction never makes the clock faster. For rates up to the main clock it never
      moves it away from the requested rate except to within 1 Hz; above the main clock both
      modes stay below the requested rate, the fraction further. */
  lemma FractionHelps(main: nat, rate: nat)
    requires main < TWO_TO_32 && 0 < rate < TWO_TO_32
    ensures U32(rate * Divider(main, rate)) != 0
    ensures var (f, i) := (SetRate(main, rate, true), SetRate(main, rate, false));
      && f <= i
      && (rate <= main ==> Distance(f, rate) <= Distance(i, rate) || Distance(f, rate) <= 1)
      && (main < rate ==> f <= i < rate)
  {
    hide SetRate, U32, Multiplier, FractionalLaw;
    SetRateIs(main, rate);
    var d := ClockDivValue(main, rate);
    if d != 0 {
      QuotientAtMost(main, d);
      ScaledAtMost(main / d, 256 + Multiplier(main, rate) % 0x100);
    }
    if main < rate {
      AboveMainClock(main, rate, false);
    } else if main / rate <= 255 {
      FractionalBelow(main, rate);
    } else {
      CutDividerFractional(main, rate);
    }
  }

  lemma FractionalBelow(main: nat, rate: nat)
    requires main < TWO_TO_32 && 0 < rate <= main
    ensures U32(rate * Divider(main, rate)) != 0
    ensures main / rate <= 255 ==> rate <= SetRate(main, rate, true) + 1 && rate <= SetRate(main, rate, false)
  {
    hide SetRate, U32, Multiplier;
    DividerIs(main, rate);
    IntegerModeIff(main, rate);
    if main / rate <= 255 {
      FractionalWindow(main, rate);
    }
  }

  /** A rate above the main clock is not reached in either mode. */
  lemma AboveMainClock(main: nat, rate: nat, fEnable: bool)
    requires main < rate < TWO_TO_32
    ensures U32(rate * Divider(main, rate)) != 0
    ensures SetRate(main, rate, fEnable) <= main
  {
    hide SetRate, U32, Multiplier;
    SetRateIs(main, rate);
    var d := ClockDivValue(main, rate);
    if d != 0 {
      QuotientAtMost(main, d);
      ScaledAtMost(main / d, 256 + Multiplier(main, rate) % 0x100);
    }
  }

  // ---------- instances ----------

  /** A request that fails: 9600 baud sixteenfold from a 72 MHz main clock. The divider 468
      is cut to 212 and the clock is more than twice too fast, in both modes. */
  lemma TooFastInstance(fEnable: bool)
    ensures U32(153_600 * Divider(72_000_000, 153_600)) != 0
    ensures SetRate(72_000_000, 153_600, fEnable) == 339_622
    ensures !IntegerLaw(72_000_000, 153_600, 339_622) && !FractionalLaw(153_600, 339_622)
  {
    hide SetRate, U32, Multiplier;
    var main, rate := 72_000_000, 153_600;
    SetRateIs(main, rate);
    CutDividerFractional(main, rate);
    assert main / rate == 468 && ClockDivValue(main, rate) == 212;
  }

  /** A rate above the main clock for which fractional mode keeps its promise by chance. */
  lemma LuckyInstance()
    ensures FractionalRange(770, 771)
    ensures U32(771 * Divider(770, 771)) != 0 && FractionalLaw(771, SetRate(770, 771, true))
  {
    hide SetRate, U32, Multiplier, FractionalLaw;
    FractionalModeIff(770, 771);
  }

  // ---------- the driver ----------

  /** The registers of the clock generator. */
  class Syscon {
    var UARTCLKDIV: nat
    var FRGCTRL: nat
    const mainClock: nat

    constructor (main: nat)
      ensures mainClock == main
    {
      mainClock, UARTCLKDIV, FRGCTRL := main, 0, 0;
    }

    function GetUARTBaseClockRate(): nat
      reads this
    {
      BaseRate(mainClock, UARTCLKDIV, FRGCTRL)
    }

    /** The registers and the result are those of ClockDivValue, FrgValue and SetRate, in
        arithmetic the cut divider and a word as Fraction says; the result is what the clock
        getter reports from now on, and it keeps the promise of its mode exactly under the
        condition of IntegerModeIff or FractionalModeIff. */
    method SetUARTBaseClockRate(rate: nat, fEnable: bool) returns (actual: nat)
      requires mainClock < TWO_TO_32 && 0 < rate < TWO_TO_32
      modifies this
      ensures U32(rate * Divider(mainClock, rate)) != 0
      ensures UARTCLKDIV == ClockDivValue(mainClock, rate) && FRGCTRL == FrgValue(mainClock, rate, fEnable)
      ensures UARTCLKDIV == (if rate <= mainClock then mainClock / rate % 0x100 else 1)
      ensures Fraction(mainClock, rate, fEnable, FRGCTRL)
      ensures actual == SetRate(mainClock, rate, fEnable) == GetUARTBaseClockRate()
      ensures !fEnable ==> (IntegerLaw(mainClock, rate, actual) <==> 1 <= mainClock / rate <= 255)
      ensures fEnable ==> (FractionalLaw(rate, actual) <==> FractionalRange(mainClock, rate))
    {
      hide And, Or, Shl, BaseRate, U32, IntegerLaw, FractionalLaw, FractionalRange, Fraction;
      WordsAre(mainClock, rate, fEnable);
      IntegerModeIff(mainClock, rate);
      FractionalModeIff(mainClock, rate);
      var inclk := mainClock;
      ProductFits(mainClock, rate);
      DivNonNegative(inclk, rate);
      var div := inclk / rate;
      if div == 0 {
        div := 1;
      }
      UARTCLKDIV := U8(div);
      if fEnable {
        var product := U32(rate * div);
        var err := U32(inclk - product);
        DivNonNegative(err * 256, product);
        var multiplier := (err * 256) / product;
        FRGCTRL := Or(0xFF, Shl(And(multiplier, 0xFF), 8));
      } else {
        FRGCTRL := 0;
      }
      actual := GetUARTBaseClockRate();
    }
  }
}
