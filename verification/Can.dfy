/** CAN bit timing (driverlib/can.c): the divisor search of CANBitRateSet, the registers
    it writes, and the read-back of CANBitTimingGet. */
module Can {
  import opened Bytes

  const MAX_BIT_DIVISOR := 19
  const MIN_BIT_DIVISOR := 4
  const MAX_PRE_DIVISOR := 1024
  const MAX_RATIO := MAX_PRE_DIVISOR * MAX_BIT_DIVISOR
  const MIN_RATIO := MIN_BIT_DIVISOR

  /** CAN_BIT_VALUE: the three fields are disjoint, so the ORs are sums. */
  function BitValue(seg1: nat, seg2: nat, sjw: nat): u16
    requires 1 <= seg1 && 1 <= seg2 && 1 <= sjw
  {
    (seg1 - 1) % 16 * 0x100 + (seg2 - 1) % 8 * 0x1000 + (sjw - 1) % 4 * 0x40
  }

  const BIT_VALUES: seq<u16> := [
    BitValue(2, 1, 1), BitValue(3, 1, 1), BitValue(3, 2, 2), BitValue(4, 2, 2),
    BitValue(4, 3, 3), BitValue(5, 3, 3), BitValue(5, 4, 4), BitValue(6, 4, 4),
    BitValue(6, 5, 4), BitValue(7, 5, 4), BitValue(7, 6, 4), BitValue(8, 6, 4),
    BitValue(8, 7, 4), BitValue(9, 7, 4), BitValue(9, 8, 4), BitValue(10, 8, 4)]

  /** The two timing registers for a divisor and a pre-divisor. */
  function Registers(bits: nat, pre: nat): (u16, u16)
    requires MIN_BIT_DIVISOR <= bits <= MAX_BIT_DIVISOR && pre > 0
  {
    TableLow(bits);
    (BIT_VALUES[bits - MIN_BIT_DIVISOR] + (pre - 1) % 0x40, (pre - 1) / 0x40 % 0x10)
  }

  /** tCANBitClkParms. */
  datatype Timing = Timing(phase1: nat, phase2: nat, sjw: nat, prescaler: nat) {
    /** System clocks per bit: prescaler times the quanta of one bit. */
    function ClocksPerBit(): nat {
      prescaler * (phase1 + phase2 + 1)
    }
  }

  /** CANBitTimingGet on the two timing registers. */
  function TimingOf(bit: u16, brpe: u16): Timing {
    Timing(bit / 0x100 % 16 + 1, bit / 0x1000 % 8 + 1, bit / 0x40 % 4 + 1, bit % 0x40 + brpe % 0x10 * 0x40 + 1)
  }

  /** The controller's registers. The timing registers take a write only while the control
      register has both INIT and CCE set. */
  class Controller {
    var init: bool
    var cce: bool
    var otherCtl: nat
    var bit: u16
    var brpe: u16

    method WriteCtl(init: bool, cce: bool)
      modifies this`init, this`cce
      ensures this.init == init && this.cce == cce
    {
      this.init, this.cce := init, cce;
    }

    method WriteBit(x: u16)
      modifies this`bit
      ensures bit == if init && cce then x else old(bit)
    {
      if init && cce {
        bit := x;
      }
    }

    method WriteBrpe(x: u16)
      modifies this`brpe
      ensures brpe == if init && cce then x else old(brpe)
    {
      if init && cce {
        brpe := x;
      }
    }

    method BitTimingGet() returns (t: Timing)
      ensures t == TimingOf(bit, brpe)
    {
      t := Timing(bit / 0x100 % 16 + 1, bit / 0x1000 % 8 + 1, bit / 0x40 % 4 + 1,
                  bit % 0x40 + brpe % 0x10 * 0x40 + 1);
    }

    /** The register writes of CANBitRateSet; the control register is saved around them. */
    method SetTiming(bits: nat, pre: nat)
      requires MIN_BIT_DIVISOR <= bits <= MAX_BIT_DIVISOR && pre > 0
      modifies this
      ensures init == old(init) && cce == old(cce) && otherCtl == old(otherCtl)
      ensures (bit, brpe) == Registers(bits, pre)
    {
      var reg := BIT_VALUES[bits - MIN_BIT_DIVISOR];
      TableLow(bits);
      var ctlInit, ctlCce := init, cce;
      WriteCtl(true, true);
      WriteBit(reg + (pre - 1) % 0x40);
      WriteBrpe((pre - 1) / 0x40 % 0x10);
      WriteCtl(ctlInit, ctlCce);
    }

    /** The inner loop: the largest divisor that splits the ratio, or 3 if none does. */
    method TryDivisors(ratio: nat) returns (bits: nat)
      requires ratio > 0
      ensures if bits < MIN_BIT_DIVISOR then !Splits(ratio)
              else bits <= MAX_BIT_DIVISOR && Splits(ratio) && Divisor(ratio) == bits && ratio / bits > 0
    {
      bits := MAX_BIT_DIVISOR;
      while bits >= MIN_BIT_DIVISOR
        invariant MIN_BIT_DIVISOR - 1 <= bits <= MAX_BIT_DIVISOR
        invariant forall d | bits < d <= MAX_BIT_DIVISOR :: ratio / d * d != ratio
      {
        if ratio / bits * bits == ratio {
          DivisorIs(ratio, bits);
          return;
        }
        bits := bits - 1;
      }
      NoSplit(ratio);
    }

    /** The outer loop, from a starting ratio on. */
    method Search(clock: u32, start: nat) returns (r: u32)
      requires start > 0
      modifies this
      ensures init == old(init) && cce == old(cce) && otherCtl == old(otherCtl)
      ensures start > MAX_RATIO ==> r == 0 && bit == old(bit) && brpe == old(brpe)
      ensures start <= MAX_RATIO ==> Set(clock, FirstSplit(start), r, bit, brpe)
    {
      FirstSplitNear(start);
      var ratio := start;
      while ratio <= MAX_RATIO
        invariant start <= ratio && unchanged(this)
        invariant start <= MAX_RATIO ==> ratio <= FirstSplit(start)
        decreases MAX_RATIO + 1 - ratio
      {
        var bits := TryDivisors(ratio);
        if bits >= MIN_BIT_DIVISOR {
          SetTiming(bits, ratio / bits);
          r := Quotient(clock, ratio);
          return;
        }
        ratio := ratio + 1;
      }
      return 0;
    }

    /** CANBitRateSet. The rate returned and the timing set are those of the first ratio at
        or above the starting one that splits into a divisor of 4 to 19 (at most four ratios
        are tried); the control register is restored; and the timing registers are left
        alone, with 0 returned, exactly when the starting ratio is past the largest one. */
    method BitRateSet(clock: u32, rate: u32) returns (r: u32)
      requires rate > 0 && MIN_RATIO <= clock / rate <= MAX_RATIO
      modifies this
      ensures init == old(init) && cce == old(cce) && otherCtl == old(otherCtl)
      ensures var start := StartRatio(clock, rate);
              if start > MAX_RATIO then r == 0 && bit == old(bit) && brpe == old(brpe)
              else Set(clock, FirstSplit(start), r, bit, brpe)
    {
      var ratio := clock / rate;
      if clock / ratio > rate {
        ratio := ratio + 1;
      }
      r := Search(clock, ratio);
    }
  }

  /** The outcome of a search that settles on a ratio. */
  predicate Set(clock: u32, ratio: nat, r: u32, bit: u16, brpe: u16) {
    && 0 < ratio <= MAX_RATIO && Splits(ratio) && r == clock / ratio
    && ratio / Divisor(ratio) > 0 && (bit, brpe) == Registers(Divisor(ratio), ratio / Divisor(ratio))
  }

  lemma {:induction false} QuotientBound(x: nat, d: nat)
    requires d > 0
    ensures 0 <= x / d <= x
  {
    var q := x / d;
    DivBounds(x, d);
    MulOrder(1, d, q);
    assert d * q == q * d;
  }

  function Quotient(x: u32, d: nat): (q: u32)
    requires d > 0
    ensures q == x / d
  {
    QuotientBound(x, d);
    x / d
  }

  // ----- the ratios the search can set

  predicate Splits(ratio: nat) {
    exists d | MIN_BIT_DIVISOR <= d <= MAX_BIT_DIVISOR :: ratio / d * d == ratio
  }

  /** The largest usable divisor of a ratio. */
  function Divisor(ratio: nat): (d: nat)
    requires Splits(ratio)
    ensures MIN_BIT_DIVISOR <= d <= MAX_BIT_DIVISOR && ratio / d * d == ratio
    ensures forall e | d < e <= MAX_BIT_DIVISOR :: ratio / e * e != ratio
  {
    LargestFrom(ratio, MAX_BIT_DIVISOR)
  }

  function LargestFrom(ratio: nat, top: nat): (d: nat)
    requires MIN_BIT_DIVISOR <= top
    requires exists e | MIN_BIT_DIVISOR <= e <= top :: ratio / e * e == ratio
    ensures MIN_BIT_DIVISOR <= d <= top && ratio / d * d == ratio
    ensures forall e | d < e <= top :: ratio / e * e != ratio
  {
    if ratio / top * top == ratio then top else LargestFrom(ratio, top - 1)
  }

  /** The first ratio from `from` on that splits: every multiple of 4 does. */
  function FirstSplit(from: nat): (r: nat)
    ensures from <= r < from + 4 && Splits(r)
    ensures forall q | from <= q < r :: !Splits(q)
  {
    FourSplits(from);
    if Splits(from) then from
    else if Splits(from + 1) then from + 1
    else if Splits(from + 2) then from + 2
    else from + 3
  }

  lemma FourSplits(from: nat)
    ensures exists q | from <= q < from + 4 :: Splits(q)
  {
    var q := (from + 3) / 4 * 4;
    assert q / 4 * 4 == q;
    assert Splits(q);
  }

  /** The starting ratio: floor(clock / rate), one more if that is too fast. */
  function StartRatio(clock: u32, rate: u32): nat
    requires rate > 0 && clock / rate > 0
  {
    var ratio := clock / rate;
    if clock / ratio > rate then ratio + 1 else ratio
  }

  lemma DivisorIs(ratio: nat, d: nat)
    requires MIN_BIT_DIVISOR <= d <= MAX_BIT_DIVISOR && ratio / d * d == ratio
    requires forall e | d < e <= MAX_BIT_DIVISOR :: ratio / e * e != ratio
    ensures Splits(ratio) && Divisor(ratio) == d
  {}

  lemma NoSplit(ratio: nat)
    requires forall d | MIN_BIT_DIVISOR - 1 < d <= MAX_BIT_DIVISOR :: ratio / d * d != ratio
    ensures !Splits(ratio)
  {}

  /** The largest ratio splits, so a search that starts in range ends in range. */
  lemma FirstSplitNear(start: nat)
    ensures start <= MAX_RATIO ==> FirstSplit(start) <= MAX_RATIO
  {
    assert MAX_RATIO / 19 * 19 == MAX_RATIO;
    assert Splits(MAX_RATIO);
  }

  lemma TableLow(d: nat)
    requires MIN_BIT_DIVISOR <= d <= MAX_BIT_DIVISOR
    ensures BIT_VALUES[d - MIN_BIT_DIVISOR] + 0x3F < 0x1_0000
  {}

  // ----- what the search achieves

  lemma MulOrder(a: int, b: int, c: nat)
    requires a <= b
    ensures a * c <= b * c
  {}

  lemma DivBounds(x: nat, d: nat)
    requires d > 0
    ensures x / d * d <= x < (x / d + 1) * d
  {}

  /** Division by d from below: k * d <= x exactly when k <= x / d. */
  lemma {:induction false} DivGalois(x: nat, d: nat, k: nat)
    requires d > 0
    ensures k * d <= x <==> k <= x / d
  {
    DivBounds(x, d);
    if k <= x / d {
      MulOrder(k, x / d, d);
    } else {
      MulOrder(x / d + 1, k, d);
    }
  }

  lemma {:induction false} DivAntitone(x: nat, a: nat, b: nat)
    requires 0 < a <= b
    ensures x / b <= x / a
  {
    DivBounds(x, b);
    MulOrder(a, b, x / b);
    DivGalois(x, a, x / b);
  }

  lemma {:induction false} StartRatioBelow(clock: u32, rate: u32, q: nat)
    requires rate > 0 && clock / rate > 0 && clock <= q * rate
    ensures StartRatio(clock, rate) <= q
  {
    var f := clock / rate;
    DivBounds(clock, rate);
    if q < f {
      MulOrder(q + 1, f, rate);
    }
    if q == f {
      DivGalois(clock, f, rate + 1);
      assert (rate + 1) * f == f * rate + f;
    }
  }

  /** The starting ratio is the least whose integer rate does not exceed the request. */
  lemma {:induction false} StartRatioLeast(clock: u32, rate: u32)
    requires rate > 0 && clock / rate > 0
    ensures clock / StartRatio(clock, rate) <= rate
    ensures forall q: nat | clock <= q * rate :: StartRatio(clock, rate) <= q
  {
    var f := clock / rate;
    DivBounds(clock, rate);
    if clock / f > rate {
      DivGalois(clock, f + 1, rate + 1);
      assert (rate + 1) * (f + 1) > (f + 1) * rate;
    }
    forall q: nat | clock <= q * rate ensures StartRatio(clock, rate) <= q {
      StartRatioBelow(clock, rate, q);
    }
  }

  /** The rate returned, an integer quotient, never exceeds the request, and it is at least
      that of every ratio the hardware could use whose exact rate does not exceed the request. */
  lemma {:induction false} BitRateOptimal(clock: u32, rate: u32)
    requires rate > 0 && clock / rate >= MIN_RATIO
    ensures var ratio := FirstSplit(StartRatio(clock, rate));
            && clock / ratio <= rate
            && forall q: nat | 0 < q && Splits(q) && clock <= q * rate :: clock / q <= clock / ratio
  {
    var start := StartRatio(clock, rate);
    var ratio := FirstSplit(start);
    StartRatioLeast(clock, rate);
    DivAntitone(clock, start, ratio);
    forall q: nat | 0 < q && Splits(q) && clock <= q * rate ensures clock / q <= clock / ratio {
      assert start <= q;
      DivAntitone(clock, ratio, q);
    }
  }

  /** The bits on the wire can be faster than requested all the same, by the fraction that the
      quotient drops: exactly when the clock is no multiple of the rate, the first ratio tried
      is the rounded-down one, and that one splits. */
  lemma {:induction false} ExceedsExactly(clock: u32, rate: u32)
    requires rate > 0 && clock / rate >= MIN_RATIO
    ensures var f := clock / rate;
            clock > FirstSplit(StartRatio(clock, rate)) * rate <==> f * rate != clock && clock / f <= rate && Splits(f)
  {
    var f := clock / rate;
    DivBounds(clock, rate);
    var ratio := FirstSplit(StartRatio(clock, rate));
    if ratio > f {
      MulOrder(f + 1, ratio, rate);
    } else {
      assert ratio == f;
    }
  }

  /** A clock of 1000 and a rate of 33: the ratio 30 is set, for 33 1/3 bits per second. */
  lemma {:induction false} TooFast()
    ensures StartRatio(1000, 33) == 30 && FirstSplit(30) == 30 && 1000 > 30 * 33
    ensures Divisor(30) == 15 && var (bit, brpe) := Registers(15, 2); Set(1000, 30, 33, bit, brpe)
  {
    assert 30 / 15 * 15 == 30 && 30 % 16 != 0 && 30 % 17 != 0 && 30 % 18 != 0 && 30 % 19 != 0;
    DivisorIs(30, 15);
  }

  /** The rows of the table follow one rule. */
  lemma TableRow(d: nat)
    requires MIN_BIT_DIVISOR <= d <= MAX_BIT_DIVISOR
    ensures IsRow(d)
  {
    hide IsRow;
    if d < 12 {
      TableRowLow(d);
    } else {
      TableRowHigh(d);
    }
  }

  /** The register values of the table: jump width from bit 6, first segment from bit 8, second
      from bit 12, each less one. */
  lemma TableValues()
    ensures BIT_VALUES == [
              0x0100, 0x0200, 0x1240, 0x1340, 0x2380, 0x2480, 0x34C0, 0x35C0,
              0x45C0, 0x46C0, 0x56C0, 0x57C0, 0x67C0, 0x68C0, 0x78C0, 0x79C0]
  {}

  predicate IsRow(d: nat)
    requires MIN_BIT_DIVISOR <= d <= MAX_BIT_DIVISOR
  {
    var seg1 := (d + 1) / 2;
    var seg2 := d - 1 - seg1;
    BIT_VALUES[d - MIN_BIT_DIVISOR] == BitValue(seg1, seg2, if seg2 < 4 then seg2 else 4)
  }

  lemma TableRowLow(d: nat)
    requires MIN_BIT_DIVISOR <= d < 12
    ensures IsRow(d)
  {
    assert d in [4, 5, 6, 7, 8, 9, 10, 11];
  }

  lemma TableRowHigh(d: nat)
    requires 12 <= d <= MAX_BIT_DIVISOR
    ensures IsRow(d)
  {
    assert d in [12, 13, 14, 15, 16, 17, 18, 19];
  }

  lemma FieldsRead(seg1: nat, seg2: nat, sjw: nat, low: nat)
    requires 1 <= seg1 <= 16 && 1 <= seg2 <= 8 && 1 <= sjw <= 4 && low < 0x40
    ensures var x := BitValue(seg1, seg2, sjw) + low;
            && x < 0x1_0000 && x / 0x100 % 16 + 1 == seg1 && x / 0x1000 % 8 + 1 == seg2
            && x / 0x40 % 4 + 1 == sjw && x % 0x40 == low
  {
    BitValueSum(seg1, seg2, sjw);
    hide BitValue;
    Split(seg1 - 1, seg2 - 1, sjw - 1, low);
  }

  lemma BitValueSum(seg1: nat, seg2: nat, sjw: nat)
    requires 1 <= seg1 <= 16 && 1 <= seg2 <= 8 && 1 <= sjw <= 4
    ensures BitValue(seg1, seg2, sjw) == (seg1 - 1) * 0x100 + (seg2 - 1) * 0x1000 + (sjw - 1) * 0x40
  {
    assert (seg1 - 1) % 16 == seg1 - 1 && (seg2 - 1) % 8 == seg2 - 1 && (sjw - 1) % 4 == sjw - 1;
  }

  lemma Split(a: nat, b: nat, c: nat, low: nat)
    requires a < 16 && b < 8 && c < 4 && low < 0x40
    ensures var x := a * 0x100 + b * 0x1000 + c * 0x40 + low;
            x < 0x1_0000 && x / 0x100 % 16 == a && x / 0x1000 % 8 == b && x / 0x40 % 4 == c && x % 0x40 == low
  {
    var x := a * 0x100 + b * 0x1000 + c * 0x40 + low;
    assert x / 0x1000 == b;
    assert x / 0x100 == b * 16 + a;
    assert x / 0x40 == (b * 16 + a) * 4 + c;
  }

  /** The documentation gives a result of 0 the meaning that the rate was not changed. A
      search that does set the registers still returns 0 exactly when a rate of 1 is asked
      for and the clock itself does not split. */
  lemma {:induction false} ZeroRateExactly(clock: u32, rate: u32)
    requires rate > 0 && clock / rate >= MIN_RATIO
    ensures clock / FirstSplit(StartRatio(clock, rate)) == 0 <==> rate == 1 && !Splits(clock)
  {
    StartWithin(clock, rate);
    hide Splits, StartRatio;
    var start := StartRatio(clock, rate);
    var ratio := FirstSplit(start);
    assert ratio == start <==> Splits(start);
    hide FirstSplit;
    QuotientZero(clock, ratio);
  }

  lemma QuotientZero(x: nat, d: nat)
    requires d > 0
    ensures x / d == 0 <==> x < d
  {
    DivGalois(x, d, 1);
  }

  /** The search starts at the clock itself for a rate of 1, and well below it otherwise. */
  lemma StartWithin(clock: u32, rate: u32)
    requires rate > 0 && clock / rate >= MIN_RATIO
    ensures var start := StartRatio(clock, rate);
            start > 0 && if rate == 1 then start == clock else start + 3 <= clock
  {
    if rate == 1 {
      StartAtOne(clock);
    } else {
      FasterStart(clock, rate);
    }
  }

  /** A rate of 1 from a clock of 23: the ratio 24 is set, in registers other than 0. */
  lemma {:induction false} ZeroRateSet()
    ensures var (bit, brpe) := Registers(12, 2);
            Set(23, FirstSplit(StartRatio(23, 1)), 0, bit, brpe) && bit != 0
  {
    StartAtOne(23);
    NoSplitOf23();
    DivisorOf24();
    assert FirstSplit(23) == 24;
    hide Splits, Divisor, FirstSplit, StartRatio;
  }

  lemma NoSplitOf23()
    ensures !Splits(23)
  {
    assert 23 % 4 != 0 && 23 % 5 != 0 && 23 % 6 != 0 && 23 % 7 != 0 && 23 % 8 != 0 && 23 % 9 != 0;
    assert 23 % 10 != 0 && 23 % 11 != 0;
  }

  lemma DivisorOf24()
    ensures Splits(24) && Divisor(24) == 12
  {
    assert 24 / 12 * 12 == 24;
    DivisorIs(24, 12);
  }

  lemma StartAtOne(clock: u32)
    requires clock > 0
    ensures clock / 1 == clock && StartRatio(clock, 1) == clock
  {
    DivGalois(clock, clock, 2);
  }

  lemma FasterStart(clock: u32, rate: u32)
    requires rate >= 2 && clock / rate >= MIN_RATIO
    ensures StartRatio(clock, rate) + 3 <= clock
  {
    var f := clock / rate;
    DivBounds(clock, rate);
    MulOrder(2, rate, f);
    assert rate * f == f * rate;
  }

  /** The segments in the table add up to the divisor of their row, the first being the longer
      half; the jump width is the second segment, at most 4. */
  lemma {:induction false} TableSegments(d: nat, low: nat, brpe: u16)
    requires MIN_BIT_DIVISOR <= d <= MAX_BIT_DIVISOR && low < 0x40
    ensures BIT_VALUES[d - MIN_BIT_DIVISOR] + low < 0x1_0000
    ensures var t := TimingOf(BIT_VALUES[d - MIN_BIT_DIVISOR] + low, brpe);
            && t.phase1 + t.phase2 + 1 == d && t.prescaler == low + brpe % 0x10 * 0x40 + 1
            && t.phase1 == (d + 1) / 2 && t.sjw == Min(t.phase2, 4)
  {
    var seg1 := (d + 1) / 2;
    var seg2 := d - 1 - seg1;
    TableRow(d);
    FieldsRead(seg1, seg2, if seg2 < 4 then seg2 else 4, low);
  }

  /** The prescaler survives its two register fields exactly up to 1024. */
  lemma PrescalerFields(pre: nat)
    requires pre > 0
    ensures (pre - 1) % 0x40 + (pre - 1) / 0x40 % 0x10 % 0x10 * 0x40 + 1 == pre <==> pre <= MAX_PRE_DIVISOR
  {
    var x := pre - 1;
    assert x == x / 0x40 * 0x40 + x % 0x40;
  }

  /** Reading a timing back gives divisor times pre-divisor exactly when the pre-divisor
      is at most 1024; a larger one is cut off by the register fields. */
  lemma {:induction false} ReadBackExact(d: nat, pre: nat)
    requires MIN_BIT_DIVISOR <= d <= MAX_BIT_DIVISOR && pre > 0
    ensures var (bit, brpe) := Registers(d, pre);
            TimingOf(bit, brpe).ClocksPerBit() == pre * d <==> pre <= MAX_PRE_DIVISOR
  {
    var (bit, brpe) := Registers(d, pre);
    TableSegments(d, (pre - 1) % 0x40, brpe);
    PrescalerFields(pre);
    var t := TimingOf(bit, brpe);
    assert t.ClocksPerBit() == t.prescaler * d;
    if t.prescaler != pre {
      SameFactor(t.prescaler, pre, d);
    }
  }

  lemma SameFactor(a: int, b: int, d: nat)
    requires d > 0 && a != b
    ensures a * d != b * d
  {
    if a < b {
      assert (a + 1) * d <= b * d;
    } else {
      assert (b + 1) * d <= a * d;
    }
  }

  lemma PreDivisorFits(ratio: nat, d: nat)
    requires MIN_BIT_DIVISOR <= d && ratio / d * d == ratio && 0 < ratio <= 4096
    ensures 1 <= ratio / d <= MAX_PRE_DIVISOR
  {
    DivAntitone(ratio, 4, d);
  }

  /** From any starting ratio up to 4096 the pre-divisor fits. */
  lemma SmallRatioFits(start: nat)
    requires MIN_RATIO <= start <= 4096
    ensures var ratio := FirstSplit(start); 1 <= ratio / Divisor(ratio) <= MAX_PRE_DIVISOR
  {
    assert 4096 / 4 * 4 == 4096;
    assert Splits(4096);
    var ratio := FirstSplit(start);
    PreDivisorFits(ratio, Divisor(ratio));
  }

  /** A ratio within the checked range whose timing is cut off: 4 times a prime. */
  lemma {:induction false} LargeRatioCutOff()
    ensures Splits(8012) && Divisor(8012) == 4 && 8012 / Divisor(8012) > MAX_PRE_DIVISOR
  {
    assert 8012 / 4 * 4 == 8012;
    assert 8012 % 5 != 0 && 8012 % 6 != 0 && 8012 % 7 != 0 && 8012 % 8 != 0 && 8012 % 9 != 0;
    assert 8012 % 10 != 0 && 8012 % 11 != 0 && 8012 % 12 != 0 && 8012 % 13 != 0 && 8012 % 14 != 0;
    assert 8012 % 15 != 0 && 8012 % 16 != 0 && 8012 % 17 != 0 && 8012 % 18 != 0 && 8012 % 19 != 0;
    DivisorIs(8012, 4);
  }

  /** A clock of 80 MHz and a rate of 9985 bits per second lead there: the rate returned is
      the one asked for, but the registers divide the clock by 3916, which gives more than
      twice that. */
  lemma {:induction false} CutOffSet()
    ensures MIN_RATIO <= 80_000_000 / 9985 <= MAX_RATIO
    ensures var (bit, brpe) := Registers(4, 2003);
            && Set(80_000_000, FirstSplit(StartRatio(80_000_000, 9985)), 9985, bit, brpe)
            && TimingOf(bit, brpe).ClocksPerBit() == 3916
  {
    hide TimingOf, StartRatio, FirstSplit, Splits, Divisor;
    LargeRatioCutOff();
    StartOfCutOff();
    CutOffRegisters();
  }

  lemma StartOfCutOff()
    ensures StartRatio(80_000_000, 9985) == 8012 && FirstSplit(8012) == 8012
  {
    LargeRatioCutOff();
  }

  lemma CutOffRegisters()
    ensures var (bit, brpe) := Registers(4, 2003); TimingOf(bit, brpe).ClocksPerBit() == 3916
  {
    hide TimingOf;
    assert 2002 % 0x40 == 18 && 2002 / 0x40 % 0x10 == 15;
    TableSegments(4, 18, 15);
  }
}
