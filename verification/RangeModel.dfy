/** The arithmetic of the 32-bit range coder of forms/arithmetic.c, as a function of values.

    A coder state is an interval [low, high] of 32-bit numbers, a count of pending underflow
    bits, and the bits already decided.  The same state describes the encoder (where `out` is
    what has been written) and the decoder (where `out` is what has been consumed for good).
    Machine words are integers in 0..2^32-1; every truncating shift is written out. */
module RangeModel {
  import opened Arith

  const FULL := 0x1_0000_0000
  const HALF := 0x8000_0000
  const QUARTER := 0x4000_0000
  const MAXVALUE := 0xff_ffff
  const MAXVALUEPLUS1 := 0x100_0000
  const SPLIT := 0x40_0000      // alphabets of this size or more are coded in two parts
  const MAXINT := 0x7fff_ffff

  datatype State = State(low: int, high: int, underflow: int, out: seq<bool>)

  const RESET := State(0, FULL - 1, 0, [])

  predicate Ordered(e: State) {
    0 <= e.low < e.high < FULL && 0 <= e.underflow
  }

  // What every coding step leaves behind: the top bits of low and high differ, and they are not
  // in the configuration 01... / 10... that an underflow shift would remove.
  predicate Normal(e: State) {
    && Ordered(e)
    && e.low < HALF <= e.high
    && !(QUARTER <= e.low && e.high < 3 * QUARTER)
  }

  function Repeat(b: bool, n: nat): (r: seq<bool>)
    ensures |r| == n && forall i :: 0 <= i < n ==> r[i] == b
  {
    seq(n, i => b)
  }

  // A decided top bit, followed by the underflow bits it settles.
  function TopAndPending(msb: bool, u: nat): (r: seq<bool>)
    ensures |r| == 1 + u
  {
    [msb] + Repeat(!msb, u)
  }

  function Bit(b: bool): int {
    if b then 1 else 0
  }

  // ---- Normalisation ---------------------------------------------------------------------

  predicate TopBitsEqual(e: State) {
    e.low >= HALF <==> e.high >= HALF
  }

  // x << 1 in a 32-bit word: the top bit is lost.
  function ShiftLeft(x: int): (r: int)
    requires 0 <= x < FULL
    ensures 0 <= r < FULL && r % 2 == 0
  {
    if x >= HALF then 2 * x - FULL else 2 * x
  }

  // Keep the top bit of x = 01... or 10... and shift the bits below it left, losing the second.
  function DropSecondBit(x: int): (r: int)
    requires QUARTER <= x < 3 * QUARTER
    ensures 0 <= r < FULL && r % 2 == 0 && (r >= HALF <==> x >= HALF)
  {
    2 * x - HALF
  }

  function StableShift(e: State): (r: State)
    requires Ordered(e) && TopBitsEqual(e)
    ensures Ordered(r) && r.high - r.low == 2 * (e.high - e.low) + 1
  {
    State(ShiftLeft(e.low), ShiftLeft(e.high) + 1, 0,
          e.out + TopAndPending(e.low >= HALF, e.underflow))
  }

  // low = 01... and high = 10...
  predicate Straddles(e: State) {
    QUARTER <= e.low < HALF <= e.high < 3 * QUARTER
  }

  function UnderflowShift(e: State): (r: State)
    requires Ordered(e) && Straddles(e)
    ensures Ordered(r) && r.high - r.low == 2 * (e.high - e.low) + 1
  {
    State(DropSecondBit(e.low), DropSecondBit(e.high) + 1, e.underflow + 1, e.out)
  }

  function StableShifts(e: State): (r: State)
    requires Ordered(e)
    ensures Ordered(r) && !TopBitsEqual(r) && |e.out| <= |r.out|
    ensures TopBitsEqual(e) ==> |e.out| + 1 + e.underflow <= |r.out|
    decreases FULL - (e.high - e.low)
  {
    if TopBitsEqual(e) then StableShifts(StableShift(e)) else e
  }

  function UnderflowShifts(e: State): (r: State)
    requires Ordered(e) && !TopBitsEqual(e)
    ensures Normal(r) && r.out == e.out
    decreases FULL - (e.high - e.low)
  {
    if Straddles(e) then UnderflowShifts(UnderflowShift(e)) else e
  }

  function Normalise(e: State): (r: State)
    requires Ordered(e)
    ensures Normal(r) && |e.out| <= |r.out|
  {
    UnderflowShifts(StableShifts(e))
  }

  // ---- Narrowing -------------------------------------------------------------------------

  function Space(e: State): int
    requires Ordered(e)
  {
    (e.high - e.low) / 256 * 256
  }

  predicate ProperInterval(pLow: int, pHigh: int) {
    0 <= pLow < pHigh <= MAXVALUEPLUS1
  }

  function Boundary(e: State, p: int): int
    requires Ordered(e)
  {
    e.low + p * Space(e) / MAXVALUEPLUS1
  }

  function NewHigh(e: State, pHigh: int): int
    requires Ordered(e)
  {
    if pHigh >= MAXVALUEPLUS1 then e.high else Boundary(e, pHigh) - 1
  }

  lemma SpaceLarge(e: State)
    requires Normal(e)
    ensures MAXVALUEPLUS1 * 64 <= Space(e) <= e.high - e.low
  {
  }

  lemma ScaleGap(space: int, p: int, q: int)
    requires 0 <= p < q && MAXVALUEPLUS1 * 64 <= space
    ensures 0 <= p * space / MAXVALUEPLUS1
    ensures p * space / MAXVALUEPLUS1 + 64 <= q * space / MAXVALUEPLUS1
  {
  }

  lemma ScaleTop(space: int, p: int)
    requires 0 <= p <= MAXVALUEPLUS1 && 0 <= space
    ensures p * space / MAXVALUEPLUS1 <= space
  {
  }

  // The sub-interval a coding step selects is never empty and never leaves the old interval.
  lemma NarrowBounds(e: State, pLow: int, pHigh: int)
    requires Normal(e) && ProperInterval(pLow, pHigh)
    ensures e.low <= Boundary(e, pLow) < NewHigh(e, pHigh) <= e.high
  {
    SpaceLarge(e);
    ScaleGap(Space(e), pLow, pHigh);
    ScaleTop(Space(e), pHigh);
    if pLow > 0 {
      ScaleGap(Space(e), 0, pLow);
    }
  }

  function Narrow(e: State, pLow: int, pHigh: int): (r: State)
    requires Normal(e) && ProperInterval(pLow, pHigh)
    ensures Ordered(r)
  {
    NarrowBounds(e, pLow, pHigh);
    e.(low := Boundary(e, pLow), high := NewHigh(e, pHigh))
  }

  function EncodeStep(e: State, pLow: int, pHigh: int): (r: State)
    requires Normal(e) && ProperInterval(pLow, pHigh)
    ensures Normal(r) && |e.out| <= |r.out|
  {
    Normalise(Narrow(e, pLow, pHigh))
  }

  // ---- Bit streams -----------------------------------------------------------------------

  // Reading past the end of a stream yields zeros.
  function BitAt(s: seq<bool>, i: nat): bool {
    i < |s| && s[i]
  }

  function Prefix(s: seq<bool>, n: nat): (r: seq<bool>)
    ensures |r| == n && forall i :: 0 <= i < n ==> r[i] == BitAt(s, i)
  {
    seq(n, i requires 0 <= i => BitAt(s, i))
  }

  // The `n` bits of `s` from position `i` on, as a number, first bit most significant.
  function Number(s: seq<bool>, i: nat, n: nat): (v: int)
    ensures 0 <= v
  {
    if n == 0 then 0 else 2 * Number(s, i, n - 1) + Bit(BitAt(s, i + n - 1))
  }

  lemma {:induction false} NumberBound(s: seq<bool>, i: nat, n: nat)
    ensures Number(s, i, n) < Pow2(n)
  {
    if n > 0 {
      NumberBound(s, i, n - 1);
    }
  }

  lemma {:induction false} NumberHead(s: seq<bool>, i: nat, n: nat)
    ensures Number(s, i, n + 1) == Bit(BitAt(s, i)) * Pow2(n) + Number(s, i + 1, n)
  {
    if n > 0 {
      NumberHead(s, i, n - 1);
      assert i + (n + 1) - 1 == i + 1 + n - 1;
    } else {
      assert Number(s, i, 1) == 2 * Number(s, i, 0) + Bit(BitAt(s, i));
    }
  }

  lemma Pow2Values()
    ensures Pow2(30) == QUARTER && Pow2(31) == HALF && Pow2(32) == FULL
  {
    assert Pow2(8) == 0x100;
    assert Pow2(16) == 0x1_0000;
    assert Pow2(24) == 0x100_0000;
    assert Pow2(30) == QUARTER;
  }

  // The 32-bit number the decoder holds at position `n` when `u` underflow bits, which follow the
  // bit at `n`, have been squeezed out.
  function Window(s: seq<bool>, n: nat, u: nat): int {
    Bit(BitAt(s, n)) * HALF + Number(s, n + u + 1, 31)
  }

  lemma WindowBounds(s: seq<bool>, n: nat, u: nat)
    ensures 0 <= Window(s, n, u) < FULL
    ensures (Window(s, n, u) >= HALF) == BitAt(s, n)
    ensures Window(s, n, u) % HALF == Number(s, n + u + 1, 31) < HALF
  {
    NumberBound(s, n + u + 1, 31);
    Pow2Values();
  }

  lemma WindowPlain(s: seq<bool>, n: nat)
    ensures Window(s, n, 0) == Number(s, n, 32)
  {
    NumberHead(s, n, 31);
    Pow2Values();
  }

  // The `u` bits after position `n` are all the complement of the bit at `n`.
  predicate Pending(s: seq<bool>, n: nat, u: nat) {
    forall j :: n < j <= n + u ==> BitAt(s, j) == !BitAt(s, n)
  }

  // The bits of `s` from position `i` on begin with `bits`.
  predicate Spells(s: seq<bool>, i: nat, bits: seq<bool>) {
    forall k :: i <= k < i + |bits| ==> BitAt(s, k) == bits[k - i]
  }

  lemma SpellsConcat(s: seq<bool>, i: nat, a: seq<bool>, b: seq<bool>)
    ensures Spells(s, i, a + b) <==> Spells(s, i, a) && Spells(s, i + |a|, b)
  {
  }

  lemma SpellsTop(s: seq<bool>, n: nat, msb: bool, u: nat)
    ensures Spells(s, n, TopAndPending(msb, u)) <==> BitAt(s, n) == msb && Pending(s, n, u)
  {
  }

  // Stream `s` begins with what the coder has decided so far and points into its interval.
  predicate Accepts(s: seq<bool>, e: State)
    requires Ordered(e)
  {
    && Spells(s, 0, e.out)
    && Pending(s, |e.out|, e.underflow)
    && e.low <= Window(s, |e.out|, e.underflow) <= e.high
  }

  // A stable shift drops the window's top bit and brings in the next stream bit.
  lemma WindowStableShift(s: seq<bool>, n: nat, u: nat)
    ensures 0 <= Window(s, n, u) < FULL
    ensures Window(s, n + 1 + u, 0) == ShiftLeft(Window(s, n, u)) + Bit(BitAt(s, n + u + 32))
  {
    WindowBounds(s, n, u);
    WindowPlain(s, n + 1 + u);
    assert Number(s, n + 1 + u, 32) == 2 * Number(s, n + u + 1, 31) + Bit(BitAt(s, n + u + 32));
  }

  // An underflow shift keeps the top bit, drops the second and brings in the next stream bit.
  lemma WindowUnderflowShift(s: seq<bool>, n: nat, u: nat)
    ensures BitAt(s, n + u + 1) != BitAt(s, n) <==> QUARTER <= Window(s, n, u) < 3 * QUARTER
    ensures BitAt(s, n + u + 1) != BitAt(s, n) ==>
              Window(s, n, u + 1) == DropSecondBit(Window(s, n, u)) + Bit(BitAt(s, n + u + 32))
  {
    var i := n + u + 1;
    NumberHead(s, i, 30);
    NumberBound(s, i + 1, 30);
    Pow2Values();
    assert Number(s, i + 1, 31) == 2 * Number(s, i + 1, 30) + Bit(BitAt(s, i + 31));
  }

  // ---- A stream is accepted before a shift exactly when it is accepted after ----------------

  lemma StableShiftAccepts(s: seq<bool>, e: State)
    requires Ordered(e) && TopBitsEqual(e)
    ensures Accepts(s, e) <==> Accepts(s, StableShift(e))
  {
    var n, u, msb := |e.out|, e.underflow, e.low >= HALF;
    WindowBounds(s, n, u);
    WindowStableShift(s, n, u);
    SpellsConcat(s, 0, e.out, TopAndPending(msb, u));
    SpellsTop(s, n, msb, u);
  }

  lemma UnderflowShiftAccepts(s: seq<bool>, e: State)
    requires Ordered(e) && Straddles(e)
    ensures Accepts(s, e) <==> Accepts(s, UnderflowShift(e))
  {
    var n, u := |e.out|, e.underflow;
    WindowUnderflowShift(s, n, u);
    assert Pending(s, n, u + 1) <==> Pending(s, n, u) && BitAt(s, n + u + 1) == !BitAt(s, n);
  }

  lemma {:induction false} StableShiftsAccept(s: seq<bool>, e: State)
    requires Ordered(e)
    ensures Accepts(s, e) <==> Accepts(s, StableShifts(e))
    decreases FULL - (e.high - e.low)
  {
    if TopBitsEqual(e) {
      StableShiftAccepts(s, e);
      StableShiftsAccept(s, StableShift(e));
    }
  }

  lemma {:induction false} UnderflowShiftsAccept(s: seq<bool>, e: State)
    requires Ordered(e) && !TopBitsEqual(e)
    ensures Accepts(s, e) <==> Accepts(s, UnderflowShifts(e))
    decreases FULL - (e.high - e.low)
  {
    if Straddles(e) {
      UnderflowShiftAccepts(s, e);
      UnderflowShiftsAccept(s, UnderflowShift(e));
    }
  }

  lemma NormaliseAccepts(s: seq<bool>, e: State)
    requires Ordered(e)
    ensures Accepts(s, e) <==> Accepts(s, Normalise(e))
  {
    StableShiftsAccept(s, e);
    UnderflowShiftsAccept(s, StableShifts(e));
  }

  lemma EncodeStepAccepts(s: seq<bool>, e: State, pLow: int, pHigh: int)
    requires Normal(e) && ProperInterval(pLow, pHigh)
    ensures Accepts(s, EncodeStep(e, pLow, pHigh)) <==>
            Accepts(s, e) &&
            Boundary(e, pLow) <= Window(s, |e.out|, e.underflow) <= NewHigh(e, pHigh)
  {
    NarrowBounds(e, pLow, pHigh);
    NormaliseAccepts(s, Narrow(e, pLow, pHigh));
  }

  // ---- The decoder's value moves with the window --------------------------------------------

  lemma PrefixExtends(s: seq<bool>, n: nat, bits: seq<bool>)
    requires Spells(s, n, bits)
    ensures Prefix(s, n + |bits|) == Prefix(s, n) + bits
  {
  }

  // What relates a decoder's interval and value to the stream it reads.
  predicate Synchronised(s: seq<bool>, e: State, value: int) {
    && Ordered(e)
    && e.out == Prefix(s, |e.out|)
    && value == Window(s, |e.out|, e.underflow)
    && Accepts(s, e)
  }

  // The next bit a decoder in state `e` reads.
  function NextBit(s: seq<bool>, e: State): int
    requires Ordered(e)
  {
    Bit(BitAt(s, |e.out| + e.underflow + 32))
  }

  // When the decoder's top bits agree they are the stream's own bits, so what the shift settles is
  // the next stretch of the stream and the shifted value is again the window.
  lemma DecoderStableShift(s: seq<bool>, e: State, value: int)
    requires Synchronised(s, e, value) && TopBitsEqual(e)
    ensures 0 <= value < FULL
    ensures Synchronised(s, StableShift(e), ShiftLeft(value) + NextBit(s, e))
  {
    var n, u, msb := |e.out|, e.underflow, e.low >= HALF;
    WindowBounds(s, n, u);
    WindowStableShift(s, n, u);
    StableShiftAccepts(s, e);
    SpellsTop(s, n, msb, u);
    PrefixExtends(s, n, TopAndPending(msb, u));
  }

  lemma DecoderUnderflowShift(s: seq<bool>, e: State, value: int)
    requires Synchronised(s, e, value) && Straddles(e)
    ensures QUARTER <= value < 3 * QUARTER
    ensures Synchronised(s, UnderflowShift(e), DropSecondBit(value) + NextBit(s, e))
  {
    UnderflowShiftAccepts(s, e);
    WindowUnderflowShift(s, |e.out|, e.underflow);
  }
}
