/** The range coder object of forms/arithmetic.c: one structure that either writes a bit buffer
    or reads one.  Every method is specified by the state functions of RangeModel. */
module RangeCoder {
  import opened Arith
  import opened Bytes
  import opened Seqs
  import opened RangeModel
  import opened RangeConclude
  import opened RangeScript

  // ---- Bits inside bytes ------------------------------------------------------------------

  predicate ZeroFrom(x: bv8, k: nat) {
    forall j :: k <= j < 8 ==> !BitOf(x, j)
  }

  lemma OrMask(x: bv8, k: nat, j: nat)
    requires k < 8 && j < 8
    ensures BitOf(x | BitMask(k), j) == (BitOf(x, j) || j == k)
  {
  }

  // Filling bit `k` of a byte: the first bit clears the byte, and later bits only ever set bits.
  function FillBit(x: bv8, k: nat, b: bool): (r: bv8)
    requires k < 8
  {
    var base := if k == 0 then 0 else x;
    if b then base | BitMask(k) else base
  }

  lemma FillBitCorrect(x: bv8, k: nat, b: bool)
    requires k < 8 && (k != 0 ==> ZeroFrom(x, k))
    ensures forall j :: 0 <= j < k ==> BitOf(FillBit(x, k, b), j) == BitOf(x, j)
    ensures BitOf(FillBit(x, k, b), k) == b
    ensures ZeroFrom(FillBit(x, k, b), k + 1)
  {
    var base, r := if k == 0 then 0 else x, FillBit(x, k, b);
    forall j | 0 <= j < 8
      ensures BitOf(r, j) == (BitOf(base, j) || (b && j == k))
      ensures k <= j ==> !BitOf(base, j)
    {
      OrMask(base, k, j);
      assert base == 0 ==> !BitOf(base, j);
    }
  }

  // Bit `i` of a byte string.
  predicate BitIn(bytes: seq<bv8>, i: nat)
    requires i < 8 * |bytes|
  {
    BitOf(bytes[i / 8], i % 8)
  }

  function BitsOf(bytes: seq<bv8>, n: nat): (r: seq<bool>)
    requires n <= 8 * |bytes|
    ensures |r| == n
  {
    if n == 0 then [] else BitsOf(bytes, n - 1) + [BitIn(bytes, n - 1)]
  }

  lemma {:induction false} BitsOfAt(bytes: seq<bv8>, n: nat, i: nat)
    requires i < n <= 8 * |bytes|
    ensures BitsOf(bytes, n)[i] == BitIn(bytes, i)
  {
    if i < n - 1 {
      BitsOfAt(bytes, n - 1, i);
    }
  }

  lemma {:induction false} BitsOfAgree(a: seq<bv8>, b: seq<bv8>, n: nat)
    requires n <= 8 * |a| && n <= 8 * |b|
    requires forall i :: 0 <= i < n ==> BitIn(a, i) == BitIn(b, i)
    ensures BitsOf(a, n) == BitsOf(b, n)
  {
    if n > 0 {
      BitsOfAgree(a, b, n - 1);
    }
  }

  // Changing byte n/8 so that its bit n%8 is `b` and the bits before that one are kept.
  lemma BitsOfAppend(before: seq<bv8>, after: seq<bv8>, n: nat, b: bool)
    requires n < 8 * |before| && |after| == |before| && after == before[n / 8 := after[n / 8]]
    requires forall j :: 0 <= j < n % 8 ==> BitOf(after[n / 8], j) == BitOf(before[n / 8], j)
    requires BitOf(after[n / 8], n % 8) == b
    ensures BitsOf(after, n + 1) == BitsOf(before, n) + [b]
  {
    forall i | 0 <= i < n
      ensures BitIn(before, i) == BitIn(after, i)
    {
      assert i / 8 == n / 8 ==> i % 8 < n % 8;
    }
    BitsOfAgree(before, after, n);
  }

  class RangeCoder {
    var low: int
    var high: int
    var value: int
    var underflow: int
    var errors: nat
    var decoding: bool
    var bitStream: array<bv8>
    var bitStreamLength: nat
    var bitsUsed: nat

    // ---- Abstraction ----------------------------------------------------------------------

    predicate Sized()
      reads this
    {
      bitStreamLength <= 8 * bitStream.Length
    }

    // Unused bits of the byte being filled are zero, so writing only ever sets bits.
    predicate Writable()
      reads this, bitStream
    {
      && Sized()
      && bitsUsed <= bitStreamLength
      && (bitsUsed % 8 != 0 ==> ZeroFrom(bitStream[bitsUsed / 8], bitsUsed % 8))
    }

    function Written(): seq<bool>
      requires Writable()
      reads this, bitStream
    {
      BitsOf(bitStream[..], bitsUsed)
    }

    function Encoder(): State
      requires Writable()
      reads this, bitStream
    {
      State(low, high, underflow, Written())
    }

    predicate Encoding()
      reads this, bitStream
    {
      Writable() && !decoding && Normal(Encoder())
    }

    function Stream(): seq<bool>
      requires Sized()
      reads this, bitStream
    {
      BitsOf(bitStream[..], bitStreamLength)
    }

    // The decoder has read 32 bits beyond the ones its interval has settled.
    function Settled(): int
      reads this
    {
      bitsUsed - 32 - underflow
    }

    function Decoder(): State
      requires Sized() && Settled() >= 0
      reads this, bitStream
    {
      State(low, high, underflow, Prefix(Stream(), Settled()))
    }

    predicate InSync()
      reads this, bitStream
    {
      Sized() && Settled() >= 0 && Synchronised(Stream(), Decoder(), value)
    }

    predicate Decoding()
      reads this, bitStream
    {
      InSync() && Normal(Decoder())
    }

    // The rest of the stream was written by coding `script` from here.
    predicate Follows(script: seq<Step>)
      reads this, bitStream
    {
      Decoding() && Accepts(Stream(), EncodeAll(Decoder(), script))
    }

    // Coding `script` from here ends in state `final`, and the buffer is large enough for that.
    predicate Writes(final: State, script: seq<Step>)
      reads this, bitStream
    {
      Encoding() && errors == 0 && EncodeAll(Encoder(), script) == final && |final.out| <= bitStreamLength
    }

    // ---- Bits -----------------------------------------------------------------------------

    method EmitBit(b: bool) returns (ok: bool)
      requires Writable()
      modifies this`bitsUsed, bitStream
      ensures ok == (old(bitsUsed) < bitStreamLength)
      ensures Writable()
      ensures Written() == old(Written()) + if ok then [b] else []
    {
      hide BitsOf, BitIn, BitOf, BitMask, Has, ZeroFrom;
      if bitsUsed >= bitStreamLength {
        return false;
      }
      var at, k := bitsUsed / 8, bitsUsed % 8;
      ghost var before := bitStream[..];
      FillBitCorrect(bitStream[at], k, b);
      if k == 0 {
        bitStream[at] := 0;
      }
      if b {
        bitStream[at] := bitStream[at] | BitMask(k);
      }
      BitsOfAppend(before, bitStream[..], bitsUsed, b);
      bitsUsed := bitsUsed + 1;
      return true;
    }

    method GetNextBit() returns (b: bool)
      requires Sized()
      modifies this`bitsUsed
      ensures b == BitAt(Stream(), old(bitsUsed)) && bitsUsed == old(bitsUsed) + 1
    {
      if bitStreamLength <= bitsUsed {
        bitsUsed := bitsUsed + 1;
        return false;
      }
      BitsOfAt(bitStream[..], bitStreamLength, bitsUsed);
      b := BitOf(bitStream[bitsUsed / 8], bitsUsed % 8);
      bitsUsed := bitsUsed + 1;
    }

    // ---- Normalisation --------------------------------------------------------------------
    // The source has one pair of loops with a test of `decoding` at each use; here each mode has
    // its own method with both loops.

    // Write the settled top bit and the underflow bits it determines.
    method EmitTop(msb: bool) returns (ok: bool)
      requires Writable() && 0 <= underflow
      modifies this`underflow, this`bitsUsed, bitStream
      ensures ok ==> underflow == 0
      ensures Writable()
      ensures ok == (old(bitsUsed) + 1 + old(underflow) <= bitStreamLength)
      ensures ok ==> Written() == old(Written()) + TopAndPending(msb, old(underflow))
    {
      hide BitsOf, BitOf;
      ok := EmitBit(msb);
      if !ok {
        return;
      }
      if underflow != 0 {
        var u := !msb;
        ghost var total := underflow;
        while underflow > 0
          invariant 0 <= underflow <= total
          invariant Writable() && bitsUsed == old(bitsUsed) + 1 + (total - underflow)
          invariant Written() == old(Written()) + TopAndPending(msb, total - underflow)
        {
          underflow := underflow - 1;
          ok := EmitBit(u);
          if !ok {
            return;
          }
        }
        underflow := 0;
      }
      return true;
    }

    method EmitStableBitsEncoding() returns (ok: bool)
      requires Writable() && Ordered(Encoder())
      modifies this`low, this`high, this`underflow, this`bitsUsed, bitStream
      ensures Writable()
      ensures ok == (|Normalise(old(Encoder())).out| <= bitStreamLength)
      ensures ok ==> Encoder() == Normalise(old(Encoder()))
    {
      while low >= HALF <==> high >= HALF
        invariant Writable() && Ordered(Encoder())
        invariant StableShifts(Encoder()) == StableShifts(old(Encoder()))
        decreases FULL - (high - low)
      {
        ghost var before := Encoder();
        ok := EmitTop(low >= HALF);
        if !ok {
          return;
        }
        low, high := ShiftLeft(low), ShiftLeft(high) + 1;
        assert Encoder() == StableShift(before);
      }
      RescaleEncoding();
      return true;
    }

    method RescaleEncoding()
      requires Writable() && Ordered(Encoder()) && !TopBitsEqual(Encoder())
      modifies this`low, this`high, this`underflow
      ensures Writable() && Encoder() == UnderflowShifts(old(Encoder()))
    {
      while QUARTER <= low < HALF <= high < 3 * QUARTER
        invariant Ordered(Encoder()) && !TopBitsEqual(Encoder())
        invariant UnderflowShifts(Encoder()) == UnderflowShifts(old(Encoder()))
        decreases FULL - (high - low)
      {
        ghost var before := Encoder();
        underflow := underflow + 1;
        low, high := DropSecondBit(low), DropSecondBit(high) + 1;
        assert Encoder() == UnderflowShift(before);
      }
    }

    // The decoder's fields, spelled out, agree with a synchronised state.
    predicate Holds(s: seq<bool>, e: State)
      reads this
    {
      && low == e.low && high == e.high && underflow == e.underflow
      && bitsUsed == |e.out| + e.underflow + 32
      && Synchronised(s, e, value)
    }

    method EmitStableBitsDecoding()
      requires InSync()
      modifies this`low, this`high, this`value, this`underflow, this`bitsUsed
      ensures Decoding() && Decoder() == Normalise(old(Decoder()))
    {
      hide Window, Accepts, BitsOf, Prefix;
      ghost var s, e := Stream(), Decoder();
      while low >= HALF <==> high >= HALF
        invariant Stream() == s && Holds(s, e)
        invariant StableShifts(e) == StableShifts(old(Decoder()))
        decreases FULL - (high - low)
      {
        DecoderStableShift(s, e, value);
        var newLow, newHigh, newValue := ShiftLeft(low), ShiftLeft(high), ShiftLeft(value);
        var nextBit := GetNextBit();
        low, high, value, underflow := newLow, newHigh + 1, newValue + Bit(nextBit), 0;
        e := StableShift(e);
      }
      assert Decoder() == e;
      RescaleDecoding();
    }

    method RescaleDecoding()
      requires InSync() && !TopBitsEqual(Decoder())
      modifies this`low, this`high, this`value, this`underflow, this`bitsUsed
      ensures Decoding() && Decoder() == UnderflowShifts(old(Decoder()))
    {
      hide Window, Accepts, BitsOf, Prefix;
      ghost var s, e := Stream(), Decoder();
      while QUARTER <= low < HALF <= high < 3 * QUARTER
        invariant Stream() == s && Holds(s, e) && !TopBitsEqual(e)
        invariant UnderflowShifts(e) == UnderflowShifts(old(Decoder()))
        decreases FULL - (high - low)
      {
        DecoderUnderflowShift(s, e, value);
        var newLow, newHigh, newValue := DropSecondBit(low), DropSecondBit(high), DropSecondBit(value);
        var nextBit := GetNextBit();
        low, high, value, underflow := newLow, newHigh + 1, newValue + Bit(nextBit), underflow + 1;
        e := UnderflowShift(e);
      }
      assert Decoder() == e;
    }

    // ---- Narrowing ------------------------------------------------------------------------

    // Under Normal the space is never below 2^24, so the source's error exit is not taken.
    method CalcNewRange(pLow: int, pHigh: int) returns (ok: bool, newLow: int, newHigh: int)
      requires Normal(State(low, high, underflow, [])) && ProperInterval(pLow, pHigh)
      ensures newLow == Boundary(State(low, high, underflow, []), pLow)
      ensures newHigh == NewHigh(State(low, high, underflow, []), pHigh)
      ensures low <= newLow < newHigh <= high
      ensures ok == (decoding ==> newLow <= value <= newHigh)
    {
      ghost var e := State(low, high, underflow, []);
      NarrowBounds(e, pLow, pHigh);
      SpaceLarge(e);
      var space := (high - low) / 256 * 256;
      assert space >= MAXVALUEPLUS1;
      newLow := low + pLow * space / MAXVALUEPLUS1;
      newHigh := low + pHigh * space / MAXVALUEPLUS1 - 1;
      if pHigh >= MAXVALUEPLUS1 {
        newHigh := high;
      }
      ok := !decoding || newLow <= value <= newHigh;
    }

    // ---- Encoding -------------------------------------------------------------------------

    method Encode(pLow: int, pHigh: int) returns (ok: bool)
      requires Encoding() && 0 <= pLow && 0 <= pHigh && pLow != pHigh
      modifies this`low, this`high, this`underflow, this`bitsUsed, bitStream
      ensures Writable()
      ensures ok <==> ProperInterval(pLow, pHigh) &&
                      |EncodeStep(old(Encoder()), pLow, pHigh).out| <= bitStreamLength
      ensures ok ==> Encoding() && Encoder() == EncodeStep(old(Encoder()), pLow, pHigh)
      ensures !ProperInterval(pLow, pHigh) ==> Encoder() == old(Encoder())
    {
      hide BitsOf, Normalise;
      if pLow > pHigh {
        return false;
      }
      if pLow > MAXVALUE || pHigh > MAXVALUEPLUS1 {
        return false;
      }
      var fine, newLow, newHigh := CalcNewRange(pLow, pHigh);
      low, high := newLow, newHigh;
      assert Encoder() == Narrow(old(Encoder()), pLow, pHigh);
      ok := EmitStableBitsEncoding();
    }

    // Nothing more is coded once an error has been counted.
    method EncodeSymbol(frequencies: seq<int>, size: nat, symbol: int) returns (ok: bool)
      requires Encoding() && ValidTable(frequencies, size) && 0 <= symbol < size
      modifies this`low, this`high, this`underflow, this`bitsUsed, bitStream
      ensures Writable()
      ensures var r := EncodeOne(old(Encoder()), Step(Table(frequencies, size), symbol));
              ok == (errors == 0 && |r.out| <= bitStreamLength) && (ok ==> Encoding() && Encoder() == r)
      ensures errors != 0 ==> Encoder() == old(Encoder())
    {
      if errors != 0 {
        return false;
      }
      StepProper(Table(frequencies, size), symbol);
      var pLow := 0;
      if symbol > 0 {
        pLow := frequencies[symbol - 1];
      }
      var pHigh := MAXVALUEPLUS1;
      if symbol < size - 1 {
        pHigh := frequencies[symbol];
      }
      ok := Encode(pLow, pHigh);
    }

    method EncodeEquiprobableSmall(size: int, symbol: int) returns (ok: bool)
      requires Encoding() && 1 <= size < SPLIT && 0 <= symbol < size
      modifies this`low, this`high, this`underflow, this`bitsUsed, bitStream
      ensures Writable()
      ensures var r := EncodeOne(old(Encoder()), Step(Uniform(size), symbol));
              ok == (|r.out| <= bitStreamLength) && (ok ==> Encoding() && Encoder() == r)
    {
      StepProper(Uniform(size), symbol);
      var pLow, pHigh := EquiprobableRange(size, symbol);
      ok := Encode(pLow, pHigh);
    }

    // ---- Decoding -------------------------------------------------------------------------

    method DecodeCommon(pLow: int, pHigh: int) returns (ok: bool)
      requires Decoding() && ProperInterval(pLow, pHigh)
      modifies this`low, this`high, this`value, this`underflow, this`bitsUsed, this`decoding
      ensures Decoding()
      ensures ok == (Boundary(old(Decoder()), pLow) <= old(value) <= NewHigh(old(Decoder()), pHigh))
      ensures ok ==> !decoding && Decoder() == EncodeStep(old(Decoder()), pLow, pHigh)
      ensures !ok ==> Decoder() == old(Decoder()) && value == old(value)
    {
      hide Window, BitsOf, Prefix;
      var fine, newLow, newHigh := CalcNewRange(pLow, pHigh);
      if !fine {
        return false;
      }
      decoding := true;
      if newLow > value || newHigh < value {
        return false;
      }
      ghost var e := Decoder();
      low, high := newLow, newHigh;
      assert Decoder() == Narrow(e, pLow, pHigh);
      EmitStableBitsDecoding();
      decoding := false;
      return true;
    }

    method DecodeSymbol(frequencies: seq<int>, size: nat) returns (s: int)
      requires Decoding() && ValidTable(frequencies, size)
      modifies this`low, this`high, this`value, this`underflow, this`bitsUsed, this`decoding
      ensures Decoding() && 0 <= s < size && Stream() == old(Stream())
      ensures Selects(old(Decoder()), Table(frequencies, size), s, old(value))
      ensures Decoder() == EncodeOne(old(Decoder()), Step(Table(frequencies, size), s))
    {
      hide BitsOf, Window;
      ghost var e, m := Decoder(), Table(frequencies, size);
      var space := (high - low) / 256 * 256;
      s := 0;
      while s < size - 1
        invariant 0 <= s < size
        invariant s > 0 ==> Boundary(e, frequencies[s - 1]) <= value
      {
        var boundary := low + frequencies[s] * space / MAXVALUEPLUS1;
        if value < boundary {
          break;
        }
        s := s + 1;
      }
      StepProper(m, s);
      var pLow := 0;
      if s > 0 {
        pLow := frequencies[s - 1];
      }
      var pHigh := MAXVALUEPLUS1;
      if s < size - 1 {
        pHigh := frequencies[s];
      }
      assert Selects(e, m, s, value);
      var ok := DecodeCommon(pLow, pHigh);
    }

    method SearchEquiprobable(size: int) returns (symbol: int)
      requires Decoding() && 1 <= size < SPLIT
      modifies this`low, this`high, this`value, this`underflow, this`bitsUsed, this`decoding
      ensures Decoding() && -1 <= symbol < size
      ensures symbol >= 0 ==> Selects(old(Decoder()), Uniform(size), symbol, old(value))
      ensures symbol >= 0 ==> Decoder() == EncodeOne(old(Decoder()), Step(Uniform(size), symbol))
      ensures symbol < 0 ==> Decoder() == old(Decoder()) && value == old(value)
      ensures symbol < 0 ==>
                forall t :: 0 <= t < size ==> !Selects(old(Decoder()), Uniform(size), t, old(value))
    {
      hide BitsOf, Window;
      ghost var e, w := Decoder(), value;
      SpaceLarge(e);
      var space := (high - low) / 256 * 256;
      var v := value - low;
      var s := v * size / space;
      assert s == Estimate(e, size, w);
      hide Estimate;
      symbol := if s > 0 then s - 1 else 0;
      ghost var first := symbol;
      while symbol < s + 2 && symbol < size
        invariant first <= symbol
        invariant Decoding() && Decoder() == e && value == w
        invariant forall t :: first <= t < symbol && t < size ==> !Selects(e, Uniform(size), t, w)
      {
        StepProper(Uniform(size), symbol);
        var pLow, pHigh := EquiprobableRange(size, symbol);
        var ok := DecodeCommon(pLow, pHigh);
        if ok {
          return;
        }
        symbol := symbol + 1;
      }
      forall t | 0 <= t < size
        ensures !Selects(e, Uniform(size), t, w)
      {
        if Selects(e, Uniform(size), t, w) {
          UniformEstimate(e, size, t, w);
        }
      }
      symbol := -1;
    }

    // ---- The codecs' view -----------------------------------------------------------------
    // Each call consumes the head of the script still to be written, or of the script the stream
    // was written from.

    method SendSymbol(frequencies: seq<int>, size: nat, symbol: int, ghost final: State, ghost rest: seq<Step>)
      requires ValidTable(frequencies, size) && 0 <= symbol < size
      requires Writes(final, [Step(Table(frequencies, size), symbol)] + rest)
      modifies this`low, this`high, this`underflow, this`bitsUsed, bitStream
      ensures Writes(final, rest)
    {
      EncodeAllCons(Encoder(), Step(Table(frequencies, size), symbol), rest);
      var ok := EncodeSymbol(frequencies, size, symbol);
    }

    method SendUniform(size: int, symbol: int, ghost final: State, ghost rest: seq<Step>)
      requires 1 <= size < SPLIT && 0 <= symbol < size
      requires Writes(final, [Step(Uniform(size), symbol)] + rest)
      modifies this`low, this`high, this`underflow, this`bitsUsed, bitStream
      ensures Writes(final, rest)
    {
      EncodeAllCons(Encoder(), Step(Uniform(size), symbol), rest);
      var ok := EncodeEquiprobableSmall(size, symbol);
    }

    method EncodeEquiprobable(size: int, symbol: int, ghost final: State, ghost rest: seq<Step>)
      requires size <= MAXINT && (size >= 1 ==> 0 <= symbol < size)
      requires Writes(final, UniformScript(size, symbol) + rest)
      modifies this`low, this`high, this`underflow, this`bitsUsed, bitStream
      ensures Writes(final, rest)
    {
      ghost var script := UniformScript(size, symbol);
      if size >= SPLIT {
        assert script + rest == [script[0]] + ([script[1]] + rest);
        SendUniform(1 + size / 0x1_0000, symbol / 0x1_0000, final, [script[1]] + rest);
        SendUniform(0x1_0000, symbol % 0x1_0000, final, rest);
        return;
      }
      if size < 1 {
        assert script + rest == rest;
        return;
      }
      SendUniform(size, symbol, final, rest);
    }

    method ReceiveSymbol(frequencies: seq<int>, size: nat, ghost symbol: int, ghost rest: seq<Step>) returns (s: int)
      requires ValidTable(frequencies, size) && 0 <= symbol < size
      requires Follows([Step(Table(frequencies, size), symbol)] + rest)
      modifies this`low, this`high, this`value, this`underflow, this`bitsUsed, this`decoding
      ensures Follows(rest) && s == symbol
    {
      ghost var sent := [Step(Table(frequencies, size), symbol)] + rest;
      ghost var e, w, stream := Decoder(), value, Stream();
      EncodeAllCons(e, sent[0], rest);
      s := DecodeSymbol(frequencies, size);
      SentSymbolSelected(stream, e, w, sent, s);
    }

    method ReceiveUniform(size: int, ghost symbol: int, ghost rest: seq<Step>) returns (s: int)
      requires 1 <= size < SPLIT && 0 <= symbol < size
      requires Follows([Step(Uniform(size), symbol)] + rest)
      modifies this`low, this`high, this`value, this`underflow, this`bitsUsed, this`decoding
      ensures Follows(rest) && s == symbol
    {
      ghost var sent := [Step(Uniform(size), symbol)] + rest;
      ghost var e, w, stream := Decoder(), value, Stream();
      EncodeAllCons(e, sent[0], rest);
      s := SearchEquiprobable(size);
      SentSymbolSelected(stream, e, w, sent, if s < 0 then symbol else s);
    }

    method DecodeEquiprobable(size: int, ghost symbol: int, ghost rest: seq<Step>) returns (s: int)
      requires size <= MAXINT && (size >= 1 ==> 0 <= symbol < size)
      requires Follows(UniformScript(size, symbol) + rest)
      modifies this`low, this`high, this`value, this`underflow, this`bitsUsed, this`decoding
      ensures Follows(rest) && s == if size >= 1 then symbol else 0
    {
      hide Follows;
      ghost var script := UniformScript(size, symbol);
      if size >= SPLIT {
        assert script + rest == [script[0]] + ([script[1]] + rest);
        var high := ReceiveUniform(1 + size / 0x1_0000, symbol / 0x1_0000, [script[1]] + rest);
        var low := ReceiveUniform(0x1_0000, symbol % 0x1_0000, rest);
        return low + high * 0x1_0000;
      }
      if size < 1 {
        assert script + rest == rest;
        return 0;
      }
      s := ReceiveUniform(size, symbol, rest);
    }

    // ---- Starting and finishing -----------------------------------------------------------

    constructor (bytes: nat)
      ensures fresh(bitStream) && bitStream.Length == bytes && bitStreamLength == 8 * bytes
      ensures Encoding() && errors == 0 && Encoder() == RESET
    {
      bitStream := new bv8[bytes];
      bitStreamLength := 8 * bytes;
      low, high, value := 0, FULL - 1, 0;
      underflow, errors, decoding, bitsUsed := 0, 0, false, 0;
    }

    // Concluding works from any interval, so concluding twice only appends more bits.
    method Conclude() returns (ok: bool)
      requires Writable() && 0 <= low <= high < FULL
      modifies this`low, this`high, this`underflow, this`bitsUsed, bitStream
      ensures Writable()
      ensures ok == (old(bitsUsed) + |Conclusion(old(Encoder()))| <= bitStreamLength)
      ensures ok ==> Written() == old(Written()) + Conclusion(old(Encoder()))
      ensures ok ==> 0 <= low <= high < FULL && underflow == (if old(underflow) > 0 then -1 else old(underflow) - 1)
    {
      var mean := (high - low) / 2 + low;
      var msb := mean >= HALF;
      ghost var top, tail := TopAndPending(msb, Max0(underflow)), TailBits(low, high);
      ok := EmitLastTop(msb);
      if !ok {
        return;
      }
      ConcatAssociative(old(Written()), top, tail);
      ok := EmitTail();
    }

    // The loop over the underflow bits leaves their number negative.
    method EmitLastTop(msb: bool) returns (ok: bool)
      requires Writable()
      modifies this`underflow, this`bitsUsed, bitStream
      ensures Writable()
      ensures ok == (old(bitsUsed) + 1 + Max0(old(underflow)) <= bitStreamLength)
      ensures ok ==> Written() == old(Written()) + TopAndPending(msb, Max0(old(underflow)))
      ensures ok ==> underflow == if old(underflow) > 0 then -1 else old(underflow) - 1
    {
      hide BitsOf, BitOf;
      ghost var total := Max0(underflow);
      ok := EmitBit(msb);
      if !ok {
        return;
      }
      while underflow > 0
        invariant Max0(underflow) <= total && underflow <= old(underflow)
        invariant if total > 0 then underflow >= 0 else underflow == old(underflow)
        invariant Writable() && bitsUsed == old(bitsUsed) + 1 + (total - Max0(underflow))
        invariant Written() == old(Written()) + TopAndPending(msb, total - Max0(underflow))
      {
        underflow := underflow - 1;
        ok := EmitBit(!msb);
        if !ok {
          return;
        }
      }
      underflow := underflow - 1;
      return true;
    }

    method EmitTail() returns (ok: bool)
      requires Writable() && 0 <= low <= high < FULL
      modifies this`low, this`high, this`bitsUsed, bitStream
      ensures Writable()
      ensures ok == (old(bitsUsed) + |TailBits(old(low), old(high))| <= bitStreamLength)
      ensures ok ==> Written() == old(Written()) + TailBits(old(low), old(high))
      ensures ok ==> 0 <= low <= high < FULL
    {
      AlwaysFits(low, high);
      low, high := LowAfterTop(low), HighAfterTop(high);
      var mean := (high - low) / 2 + low;
      var v, bits := ChooseTail(low, high, mean);
      ok := EmitLeadingBits(v, bits);
    }

    method EmitLeadingBits(v: int, bits: nat) returns (ok: bool)
      requires Writable() && bits <= 32
      modifies this`bitsUsed, bitStream
      ensures Writable()
      ensures ok == (old(bitsUsed) + bits <= bitStreamLength)
      ensures ok ==> Written() == old(Written()) + LeadingBits(v, bits)
    {
      var i := 0;
      while i < bits
        invariant 0 <= i <= bits
        invariant Writable() && bitsUsed == old(bitsUsed) + i
        invariant Written() == old(Written()) + LeadingBits(v, i)
      {
        LeadingBitsAt(v, i + 1, i);
        ok := EmitBit(v / Pow2(31 - i) % 2 == 1);
        if !ok {
          return;
        }
        i := i + 1;
      }
      return true;
    }

    method DecodePrefetch()
      requires Sized() && underflow == 0
      modifies this`low, this`high, this`value, this`bitsUsed
      ensures Decoding() && Decoder() == State(0, FULL - 1, 0, Prefix(Stream(), old(bitsUsed)))
    {
      hide BitsOf, Prefix, Window;
      low, high, value := 0, FULL - 1, 0;
      var i := 0;
      while i < 32
        invariant 0 <= i <= 32 && bitsUsed == old(bitsUsed) + i && low == 0 && high == FULL - 1
        invariant value == Number(Stream(), old(bitsUsed), i) < Pow2(i)
      {
        NumberBound(Stream(), old(bitsUsed), i + 1);
        var b := GetNextBit();
        value := value * 2 + Bit(b);
        i := i + 1;
      }
      WindowPlain(Stream(), old(bitsUsed));
      WindowBounds(Stream(), old(bitsUsed), 0);
    }
  }

  // The shortest prefix of the mean all of whose continuations stay inside [low, high].
  method ChooseTail(low: int, high: int, mean: int) returns (v: int, bits: nat)
    requires 0 <= low <= high < FULL && mean == Mean(low, high)
    requires BlockFits(low, high, 31)
    ensures bits == FittingBits(low, high, 0)
    ensures LeadingBits(v, bits) == LeadingBits(mean, bits)
  {
    var mask := FULL - 1;
    v, bits := 0, 0;
    Pow2Values();
    while v < low || v + mask > high
      invariant 0 <= bits <= 31
      invariant v == BlockStart(mean, bits) && mask == Pow2(32 - bits) - 1
      invariant forall b :: 0 <= b < bits ==> !BlockFits(low, high, b)
      decreases 32 - bits
    {
      bits := bits + 1;
      assert bits < 32;
      v := mean / Pow2(32 - bits) * Pow2(32 - bits);
      mask := Pow2(32 - bits) - 1;
    }
    FittingUnique(low, high, bits);
    v := v + mask;
    BlockEnd(mean, bits);
    SameLeadingBits(v, mean, bits);
  }

  method EquiprobableRange(size: int, symbol: int) returns (pLow: int, pHigh: int)
    requires 1 <= size < SPLIT && 0 <= symbol < size
    ensures pLow == PLow(Uniform(size), symbol) && pHigh == PHigh(Uniform(size), symbol)
  {
    pLow := symbol * MAXVALUE / size;
    pHigh := (1 + symbol) * MAXVALUE / size;
    if symbol == size - 1 {
      pHigh := MAXVALUE;
    }
  }
}
