/** The end of an encoding: range_conclude picks the shortest bit string that pins every
    continuation inside the final interval. */
module RangeConclude {
  import opened Arith
  import opened RangeModel

  function Mean(low: int, high: int): int
    requires 0 <= low <= high
  {
    (high - low) / 2 + low
  }

  // The interval that remains once the top bit (and the underflow bits) have been written.
  function LowAfterTop(low: int): (r: int)
    ensures 0 <= r < HALF
  {
    low * 2 % HALF
  }

  function HighAfterTop(high: int): (r: int)
    ensures HALF < r < FULL
  {
    high * 2 % HALF + 1 + HALF
  }

  // The first `n` of the 32 bits of v.
  function Quotient(v: int, n: nat): int
    requires n <= 32
  {
    v / Pow2(32 - n)
  }

  function LeadingBits(v: int, n: nat): (r: seq<bool>)
    requires n <= 32
    ensures |r| == n
  {
    if n == 0 then [] else LeadingBits(v, n - 1) + [Quotient(v, n) % 2 == 1]
  }

  // The block of numbers that share their first `bits` bits with `mean`.
  function BlockStart(mean: int, bits: nat): int
    requires bits <= 32
  {
    Quotient(mean, bits) * Pow2(32 - bits)
  }

  predicate BlockFits(low: int, high: int, bits: nat)
    requires 0 <= low <= high && bits <= 32
  {
    && low <= BlockStart(Mean(low, high), bits)
    && BlockStart(Mean(low, high), bits) + Pow2(32 - bits) - 1 <= high
  }

  function FittingBits(low: int, high: int, bits: nat): (r: nat)
    requires 0 <= low <= high && bits <= 32
    requires BlockFits(low, high, 31)
    requires bits <= 31
    ensures bits <= r <= 31 && BlockFits(low, high, r)
    ensures forall b :: bits <= b < r ==> !BlockFits(low, high, b)
    decreases 31 - bits
  {
    if BlockFits(low, high, bits) then bits else FittingBits(low, high, bits + 1)
  }

  // 31 bits always suffice, so the coder never reaches its "could not conclude" exit.
  lemma AlwaysFits(low: int, high: int)
    requires 0 <= low < FULL && 0 <= high < FULL
    ensures 0 <= LowAfterTop(low) <= HighAfterTop(high) < FULL
    ensures BlockFits(LowAfterTop(low), HighAfterTop(high), 31)
  {
  }

  function TailBits(low: int, high: int): (r: seq<bool>)
    requires 0 <= low < FULL && 0 <= high < FULL
    ensures |r| <= 31
  {
    AlwaysFits(low, high);
    var l, h := LowAfterTop(low), HighAfterTop(high);
    LeadingBits(Mean(l, h), FittingBits(l, h, 0))
  }

  predicate TopOfMean(e: State)
    requires 0 <= e.low <= e.high
  {
    Mean(e.low, e.high) >= HALF
  }

  function Max0(u: int): nat {
    if u < 0 then 0 else u
  }

  // What range_conclude appends.
  function Conclusion(e: State): (r: seq<bool>)
    requires 0 <= e.low <= e.high < FULL
  {
    TopAndPending(TopOfMean(e), Max0(e.underflow)) + TailBits(e.low, e.high)
  }

  lemma FittingUnique(low: int, high: int, bits: nat)
    requires 0 <= low <= high && bits <= 31
    requires BlockFits(low, high, 31) && BlockFits(low, high, bits)
    requires forall b :: 0 <= b < bits ==> !BlockFits(low, high, b)
    ensures bits == FittingBits(low, high, 0)
  {
  }

  // ---- How many bits the tail has ---------------------------------------------------------------

  lemma SmallPowers()
    ensures Pow2(32) == FULL && Pow2(31) == HALF && Pow2(30) == QUARTER
  {
    Pow2Values();
  }

  // Which block of a quarter the mean lies in, and the larger blocks that contain it.
  lemma FirstBlocks(l: int, h: int)
    requires 0 <= l < HALF < h < FULL
    ensures QUARTER <= Mean(l, h) < HALF + QUARTER && (Mean(l, h) < HALF <==> l + h < FULL)
    ensures BlockFits(l, h, 0) <==> l == 0 && h == FULL - 1
    ensures BlockFits(l, h, 1) <==> if l + h < FULL then l == 0 else h == FULL - 1
    ensures BlockFits(l, h, 2) <==> if l + h < FULL then l <= QUARTER else h >= HALF + QUARTER - 1
  {
    SmallPowers();
    var mean := Mean(l, h);
    QuotientUnique(mean, FULL, 0, mean);
    QuotientUnique(mean, HALF, if mean < HALF then 0 else 1, if mean < HALF then mean else mean - HALF);
    QuotientUnique(mean, QUARTER, if mean < HALF then 1 else 2, if mean < HALF then mean - QUARTER else mean - HALF);
  }

  // Two bits are enough exactly if the quarter that the middle lies in is inside the interval.
  lemma TwoBitsSuffice(low: int, high: int)
    requires 0 <= low < FULL && 0 <= high < FULL
    ensures var l, h := LowAfterTop(low), HighAfterTop(high);
            |TailBits(low, high)| <= 2 <==> if l + h < FULL then l <= QUARTER else h >= HALF + QUARTER - 1
  {
    AlwaysFits(low, high);
    FirstBlocks(LowAfterTop(low), HighAfterTop(high));
  }

  // No block of more than two numbers around the middle fits.
  lemma LargeBlock(l: int, h: int, bits: nat)
    requires l == 0x7fff_fffe && h == 0x8000_0001 && bits <= 30
    ensures !BlockFits(l, h, bits)
  {
    var m := Mean(l, h);
    assert m == 0x7fff_ffff;
    FourDivides(30 - bits);
    var p := Pow2(32 - bits);
    assert p == 4 * Pow2(30 - bits);
    DivBounds(m, p);
    if BlockFits(l, h, bits) {
      MulLe(4, p, 1);
    }
  }

  lemma FourDivides(n: nat)
    ensures Pow2(n + 2) == 4 * Pow2(n) && Pow2(n + 2) >= 4
  {
    assert Pow2(n + 2) == 2 * Pow2(n + 1);
  }

  // A normalised state after which 31 bits are needed.
  lemma ManyBitsNeeded()
    ensures Normal(State(0x3fff_ffff, 0x8000_0000, 0, [])) && |TailBits(0x3fff_ffff, 0x8000_0000)| == 31
  {
    hide FittingBits, BlockFits, LeadingBits, Mean;
    AlwaysFits(0x3fff_ffff, 0x8000_0000);
    var bits := FittingBits(0x7fff_fffe, 0x8000_0001, 0);
    if bits <= 30 {
      LargeBlock(0x7fff_fffe, 0x8000_0001, bits);
    }
  }

  // ---- Every continuation decodes into the final interval -----------------------------------

  lemma Regroup(n: int, x: int, p: int, y: int, b: int)
    requires n == 2 * (x * p + y) + b
    ensures n == x * (2 * p) + (2 * y + b)
  {
  }

  lemma {:induction false} NumberSplit(s: seq<bool>, i: nat, a: nat, b: nat)
    ensures Number(s, i, a + b) == Number(s, i, a) * Pow2(b) + Number(s, i + a, b)
  {
    if b > 0 {
      NumberSplit(s, i, a, b - 1);
      var next := Bit(BitAt(s, i + a + b - 1));
      assert Number(s, i, a + b) == 2 * Number(s, i, a + (b - 1)) + next;
      Regroup(Number(s, i, a + b), Number(s, i, a), Pow2(b - 1), Number(s, i + a, b - 1), next);
    }
  }

  lemma QuotientStep(v: int, n: nat)
    requires n < 32 && 0 <= v
    ensures Quotient(v, n + 1) == 2 * Quotient(v, n) + Bit(Quotient(v, n + 1) % 2 == 1)
  {
    DivDouble(v, Pow2(31 - n));
    assert Pow2(32 - n) == 2 * Pow2(31 - n);
  }

  // Numbers of the same block share their leading bits.
  lemma {:induction false} SameLeadingBits(v: int, mean: int, bits: nat)
    requires bits <= 32 && 0 <= v && 0 <= mean && Quotient(v, bits) == Quotient(mean, bits)
    ensures LeadingBits(v, bits) == LeadingBits(mean, bits)
    decreases bits
  {
    if bits > 0 {
      QuotientStep(v, bits - 1);
      QuotientStep(mean, bits - 1);
      SameLeadingBits(v, mean, bits - 1);
    }
  }

  lemma BlockEnd(mean: int, bits: nat)
    requires bits <= 32 && 0 <= mean
    ensures Quotient(BlockStart(mean, bits) + Pow2(32 - bits) - 1, bits) == Quotient(mean, bits)
    ensures 0 <= BlockStart(mean, bits)
  {
    DivAtLeast(mean, Pow2(32 - bits), 0);
    MulLe(0, Quotient(mean, bits), Pow2(32 - bits));
    QuotientUnique(BlockStart(mean, bits) + Pow2(32 - bits) - 1, Pow2(32 - bits),
                   Quotient(mean, bits), Pow2(32 - bits) - 1);
  }

  lemma {:induction false} LeadingBitsAt(v: int, n: nat, i: nat)
    requires i < n <= 32
    ensures LeadingBits(v, n)[i] == (v / Pow2(31 - i) % 2 == 1)
    decreases n
  {
    if i < n - 1 {
      LeadingBitsAt(v, n - 1, i);
    }
  }

  // A stream that starts with the leading bits of v spells v's quotient.
  lemma {:induction false} NumberOfLeadingBits(s: seq<bool>, i: nat, v: int, n: nat)
    requires n <= 32 && 0 <= v < FULL
    requires Spells(s, i, LeadingBits(v, n))
    ensures Number(s, i, n) == Quotient(v, n)
  {
    if n == 0 {
      Pow2Values();
    } else {
      var last := Quotient(v, n) % 2 == 1;
      SpellsConcat(s, i, LeadingBits(v, n - 1), [last]);
      NumberOfLeadingBits(s, i, v, n - 1);
      QuotientStep(v, n - 1);
      assert BitAt(s, i + n - 1) == [last][0];
    }
  }

  lemma NumberInBlock(s: seq<bool>, i: nat, mean: int, bits: nat)
    requires bits <= 32 && 0 <= mean < FULL
    requires Spells(s, i, LeadingBits(mean, bits))
    ensures BlockStart(mean, bits) <= Number(s, i, 32) < BlockStart(mean, bits) + Pow2(32 - bits)
  {
    NumberOfLeadingBits(s, i, mean, bits);
    NumberSplit(s, i, bits, 32 - bits);
    NumberBound(s, i + bits, 32 - bits);
    assert bits + (32 - bits) == 32;
  }

  // A stream that starts with the tail bits reads as a number of the shifted-out interval.
  lemma TailLandsInside(s: seq<bool>, i: nat, e: State)
    requires 0 <= e.low < FULL && 0 <= e.high < FULL
    requires Spells(s, i, TailBits(e.low, e.high))
    ensures LowAfterTop(e.low) <= Number(s, i, 32) <= HighAfterTop(e.high)
  {
    AlwaysFits(e.low, e.high);
    var l, h := LowAfterTop(e.low), HighAfterTop(e.high);
    NumberInBlock(s, i, Mean(l, h), FittingBits(l, h, 0));
  }

  lemma ConclusionInside(low: int, high: int, rest: int, b: int)
    requires 0 <= low < HALF <= high < FULL && !(QUARTER <= low && high < 3 * QUARTER)
    requires 0 <= rest < HALF && 0 <= b <= 1
    requires LowAfterTop(low) <= 2 * rest + b <= HighAfterTop(high)
    ensures low <= Bit(Mean(low, high) >= HALF) * HALF + rest <= high
  {
  }

  lemma ConclusionSpelled(s: seq<bool>, out: seq<bool>, msb: bool, u: nat, tail: seq<bool>)
    requires Spells(s, 0, out + (TopAndPending(msb, u) + tail))
    ensures Spells(s, 0, out) && BitAt(s, |out|) == msb && Pending(s, |out|, u)
    ensures Spells(s, |out| + u + 1, tail)
  {
  }

  lemma NumberAsRest(s: seq<bool>, i: nat)
    ensures 0 <= Number(s, i, 31) < HALF
    ensures Number(s, i, 32) == 2 * Number(s, i, 31) + Bit(BitAt(s, i + 31))
  {
    NumberBound(s, i, 31);
    Pow2Values();
  }

  // Whatever follows the bits range_conclude appends, the stream points into the final interval.
  lemma ConclusionAccepted(s: seq<bool>, e: State)
    requires Normal(e)
    requires Spells(s, 0, e.out + Conclusion(e))
    ensures Accepts(s, e)
  {
    hide Spells, TailBits, Number;
    var i := |e.out| + e.underflow + 1;
    ConclusionSpelled(s, e.out, TopOfMean(e), e.underflow, TailBits(e.low, e.high));
    TailLandsInside(s, i, e);
    NumberAsRest(s, i);
    ConclusionInside(e.low, e.high, Number(s, i, 31), Bit(BitAt(s, i + 31)));
  }
}
