/** What the codecs above the coder send: scripts of symbols, each under its own model.

    `EncodeAll` is the coder state after a script.  A stream that the final state accepts is
    accepted by every state on the way, and at each of them only the symbol that was sent fits:
    that is what makes the coder a faithful channel. */
module RangeScript {
  import opened Arith
  import opened RangeModel
  import opened RangeConclude

  // A cumulative frequency table over `size` symbols (the bound of the last symbol is implied),
  // or `size` equally likely symbols.
  datatype AnyModel = Table(cumulative: seq<int>, size: nat) | Uniform(size: nat)

  // Tables that give every symbol a share: strictly increasing, positive, below 2^24.
  predicate ValidTable(cumulative: seq<int>, size: nat) {
    && 1 <= size <= |cumulative| + 1
    && (forall i :: 0 <= i < size - 1 ==> 0 < cumulative[i] <= MAXVALUE)
    && (forall i, j :: 0 <= i < j < size - 1 ==> cumulative[i] < cumulative[j])
  }

  predicate ValidModel(m: AnyModel) {
    match m
    case Table(cumulative, size) => ValidTable(cumulative, size)
    case Uniform(size) => 1 <= size < SPLIT
  }

  type Model = m: AnyModel | ValidModel(m) witness Uniform(1)

  datatype AnyStep = Step(model: Model, symbol: int)

  type Step = step: AnyStep | 0 <= step.symbol < step.model.size witness Step(Uniform(1), 0)

  function PLow(m: Model, symbol: int): int
    requires 0 <= symbol < m.size
  {
    match m
    case Table(cumulative, _) => if symbol > 0 then cumulative[symbol - 1] else 0
    case Uniform(size) => symbol * MAXVALUE / size
  }

  function PHigh(m: Model, symbol: int): int
    requires 0 <= symbol < m.size
  {
    match m
    case Table(cumulative, size) =>
      if symbol < size - 1 then cumulative[symbol] else MAXVALUEPLUS1
    case Uniform(size) =>
      if symbol == size - 1 then MAXVALUE else (symbol + 1) * MAXVALUE / size
  }

  lemma UniformGap(size: int, a: int, b: int)
    requires 1 <= size < SPLIT && 0 <= a < b <= size
    ensures 0 <= a * MAXVALUE / size < b * MAXVALUE / size <= MAXVALUE
  {
    var q := a * MAXVALUE / size;
    DivBounds(a * MAXVALUE, size);
    DivAtLeast(a * MAXVALUE, size, 0);
    DivAtLeast(b * MAXVALUE, size, q + 1) by {
      assert (q + 1) * size == q * size + size;
    }
    DivBelow(b * MAXVALUE, size, MAXVALUE + 1) by {
      assert size * MAXVALUE == MAXVALUE * size;
    }
  }

  lemma StepProper(m: Model, symbol: int)
    requires 0 <= symbol < m.size
    ensures ProperInterval(PLow(m, symbol), PHigh(m, symbol))
    ensures symbol < m.size - 1 ==> PHigh(m, symbol) == PLow(m, symbol + 1)
    ensures PLow(m, symbol) <= MAXVALUE
  {
    if m.Uniform? {
      UniformGap(m.size, symbol, symbol + 1);
      assert m.size * MAXVALUE / m.size == MAXVALUE;
    }
  }

  // A boundary divides the interval as p divides 2^24; rounding takes away less than 257.
  lemma BoundaryProportional(e: State, p: int)
    requires Normal(e) && 0 <= p <= MAXVALUEPLUS1
    ensures var scaled := (Boundary(e, p) - e.low) * MAXVALUEPLUS1;
      scaled <= p * (e.high - e.low) < scaled + 257 * MAXVALUEPLUS1
  {
    var range, space := e.high - e.low, Space(e);
    DivBounds(p * space, MAXVALUEPLUS1);
    MulLe(space, range, p);
    MulLe(range, space + 255, p);
    assert p * range <= p * space + p * 255;
  }

  function Total(shares: seq<int>): int {
    if shares == [] then 0 else Total(shares[..|shares| - 1]) + shares[|shares| - 1]
  }

  // The sums of the first one, two, ... shares.
  function Sums(shares: seq<int>): (r: seq<int>)
    ensures |r| == |shares|
  {
    seq(|shares|, i requires 0 <= i < |shares| => Total(shares[..i + 1]))
  }

  lemma {:induction false} TotalGrows(shares: seq<int>, i: nat, j: nat)
    requires (forall k :: 0 <= k < |shares| ==> shares[k] > 0) && i <= j <= |shares|
    ensures Total(shares[..i]) + (j - i) <= Total(shares[..j])
    decreases j
  {
    if i < j {
      TotalGrows(shares, i, j - 1);
      assert shares[..j][..j - 1] == shares[..j - 1];
    }
  }

  predicate Shares(shares: seq<int>) {
    (forall k :: 0 <= k < |shares| ==> shares[k] > 0) && Total(shares) <= MAXVALUE
  }

  lemma SumsIncrease(shares: seq<int>, i: nat, j: nat)
    requires Shares(shares) && i <= j < |shares|
    ensures 0 < Sums(shares)[i] <= Sums(shares)[j] <= MAXVALUE && (i < j ==> Sums(shares)[i] < Sums(shares)[j])
  {
    hide Total;
    TotalGrows(shares, i + 1, j + 1);
    TotalGrows(shares, j + 1, |shares|);
    TotalGrows(shares, 0, i + 1);
    NoShares(shares);
  }

  lemma NoShares(shares: seq<int>)
    ensures Total(shares[..0]) == 0 && shares[..|shares|] == shares
  {
  }

  lemma SumsValid(shares: seq<int>)
    requires Shares(shares)
    ensures ValidTable(Sums(shares), |shares| + 1)
  {
    hide Sums, Shares;
    forall i, j | 0 <= i <= j < |shares|
      ensures 0 < Sums(shares)[i] <= Sums(shares)[j] <= MAXVALUE && (i < j ==> Sums(shares)[i] < Sums(shares)[j])
    {
      SumsIncrease(shares, i, j);
    }
  }

  lemma TotalNext(shares: seq<int>, n: nat)
    requires n < |shares|
    ensures Total(shares[..n + 1]) == Total(shares[..n]) + shares[n]
  {
    assert shares[..n + 1][..n] == shares[..n];
  }

  lemma TableBounds(cumulative: seq<int>, size: nat, symbol: nat)
    requires ValidTable(cumulative, size) && symbol < size
    ensures PLow(Table(cumulative, size), symbol) == if symbol > 0 then cumulative[symbol - 1] else 0
    ensures PHigh(Table(cumulative, size), symbol) == if symbol < size - 1 then cumulative[symbol] else MAXVALUEPLUS1
  {
  }

  // Under the table of these shares, which add up to less than 2^24, each symbol takes its own share after
  // those of the symbols before it, and one more symbol takes the rest.
  lemma SharesInOrder(shares: seq<int>, symbol: nat)
    requires Shares(shares) && symbol <= |shares|
    ensures ValidTable(Sums(shares), |shares| + 1)
    ensures var m := Table(Sums(shares), |shares| + 1);
      && PLow(m, symbol) == Total(shares[..symbol])
      && PHigh(m, symbol) - PLow(m, symbol) ==
         if symbol < |shares| then shares[symbol] else MAXVALUEPLUS1 - Total(shares)
  {
    hide ValidTable, PLow, PHigh, Total, Shares, ValidModel;
    SumsValid(shares);
    TableBounds(Sums(shares), |shares| + 1, symbol);
    NoShares(shares);
    if symbol < |shares| {
      TotalNext(shares, symbol);
    }
  }

  // Equally likely symbols take equal shares of 2^24 - 1, rounded down.
  lemma UniformInOrder(size: int, symbol: int)
    requires 1 <= size < SPLIT && 0 <= symbol < size
    ensures var m := Uniform(size);
      && PLow(m, symbol) * size <= symbol * MAXVALUE < (PLow(m, symbol) + 1) * size
      && PHigh(m, symbol) * size <= (symbol + 1) * MAXVALUE < (PHigh(m, symbol) + 1) * size
  {
    UniformBounds(size, symbol);
    DivBounds(symbol * MAXVALUE, size);
    DivBounds((symbol + 1) * MAXVALUE, size);
  }

  // Where the coder's 32-bit value must lie for `symbol` to be decoded.
  predicate Selects(e: State, m: Model, symbol: int, w: int)
    requires Normal(e) && 0 <= symbol < m.size
  {
    Boundary(e, PLow(m, symbol)) <= w <= NewHigh(e, PHigh(m, symbol))
  }

  function EncodeOne(e: State, step: Step): (r: State)
    requires Normal(e)
    ensures Normal(r) && |e.out| <= |r.out|
  {
    StepProper(step.model, step.symbol);
    EncodeStep(e, PLow(step.model, step.symbol), PHigh(step.model, step.symbol))
  }

  function EncodeAll(e: State, script: seq<Step>): (r: State)
    requires Normal(e)
    ensures Normal(r) && |e.out| <= |r.out|
    decreases |script|
  {
    if script == [] then e else EncodeAll(EncodeOne(e, script[0]), script[1..])
  }

  lemma {:induction false} EncodeAllConcat(e: State, a: seq<Step>, b: seq<Step>)
    requires Normal(e)
    ensures EncodeAll(e, a + b) == EncodeAll(EncodeAll(e, a), b)
    decreases |a|
  {
    if a == [] {
      assert a + b == b;
    } else {
      assert (a + b)[0] == a[0] && (a + b)[1..] == a[1..] + b;
      EncodeAllConcat(EncodeOne(e, a[0]), a[1..], b);
    }
  }

  // How range_encode_equiprobable codes a symbol of any alphabet: nothing for an empty alphabet, two
  // parts for a large one.
  function UniformScript(size: int, symbol: int): (r: seq<Step>)
    requires size <= MAXINT && (size >= 1 ==> 0 <= symbol < size)
    ensures size >= SPLIT ==> |r| == 2
  {
    if size < 1 then []
    else if size < SPLIT then [Step(Uniform(size), symbol)]
    else [Step(Uniform(1 + size / 0x1_0000), symbol / 0x1_0000), Step(Uniform(0x1_0000), symbol % 0x1_0000)]
  }

  lemma EncodeAllCons(e: State, step: Step, rest: seq<Step>)
    requires Normal(e)
    ensures EncodeAll(e, [step] + rest) == EncodeAll(EncodeOne(e, step), rest)
  {
  }

  // ---- Faithfulness ------------------------------------------------------------------------

  lemma EncodeOneAccepts(s: seq<bool>, e: State, step: Step)
    requires Normal(e)
    ensures Accepts(s, EncodeOne(e, step)) <==>
            Accepts(s, e) && Selects(e, step.model, step.symbol, Window(s, |e.out|, e.underflow))
  {
    StepProper(step.model, step.symbol);
    EncodeStepAccepts(s, e, PLow(step.model, step.symbol), PHigh(step.model, step.symbol));
  }

  // A stream accepted at the end of a script was accepted all along.
  lemma {:induction false} EncodeAllAccepts(s: seq<bool>, e: State, script: seq<Step>)
    requires Normal(e)
    requires Accepts(s, EncodeAll(e, script))
    ensures Accepts(s, e)
    decreases |script|
  {
    if script != [] {
      EncodeAllAccepts(s, EncodeOne(e, script[0]), script[1..]);
      EncodeOneAccepts(s, e, script[0]);
    }
  }

  lemma {:induction false} PLowMonotone(m: Model, a: int, b: int)
    requires 0 <= a < b < m.size
    ensures PHigh(m, a) <= PLow(m, b)
    decreases b - a
  {
    StepProper(m, a);
    if a + 1 < b {
      StepProper(m, a + 1);
      PLowMonotone(m, a + 1, b);
    }
  }

  lemma BoundaryMonotone(e: State, p: int, q: int)
    requires Normal(e) && 0 <= p <= q
    ensures Boundary(e, p) <= Boundary(e, q)
  {
    if p < q {
      SpaceLarge(e);
      ScaleGap(Space(e), p, q);
    }
  }

  // The intervals of different symbols are disjoint and in order.
  lemma SelectsOrdered(e: State, m: Model, a: int, b: int, v: int, w: int)
    requires Normal(e) && 0 <= a < b < m.size
    requires Selects(e, m, a, v) && Selects(e, m, b, w)
    ensures v < w
  {
    StepProper(m, a);
    StepProper(m, b);
    PLowMonotone(m, a, b);
    BoundaryMonotone(e, PHigh(m, a), PLow(m, b));
  }

  lemma SelectsUnique(e: State, m: Model, a: int, b: int, w: int)
    requires Normal(e) && 0 <= a < m.size && 0 <= b < m.size
    requires Selects(e, m, a, w) && Selects(e, m, b, w)
    ensures a == b
  {
    if a < b {
      SelectsOrdered(e, m, a, b, w, w);
    } else if b < a {
      SelectsOrdered(e, m, b, a, w, w);
    }
  }

  // Where a script was sent, its first symbol is the only one the decoder's value selects.
  lemma SentSymbolSelected(s: seq<bool>, e: State, value: int, sent: seq<Step>, symbol: int)
    requires Synchronised(s, e, value) && Normal(e) && sent != []
    requires Accepts(s, EncodeAll(e, sent))
    requires 0 <= symbol < sent[0].model.size
    ensures Selects(e, sent[0].model, symbol, value) <==> symbol == sent[0].symbol
  {
    EncodeAllAccepts(s, EncodeOne(e, sent[0]), sent[1..]);
    EncodeOneAccepts(s, e, sent[0]);
    if Selects(e, sent[0].model, symbol, value) {
      SelectsUnique(e, sent[0].model, symbol, sent[0].symbol, value);
    }
  }

  // The coder is a faithful channel: after any prefix of any script, on any stream that starts with
  // what encoding the script writes, exactly the next symbol of the script is selected.
  lemma ChannelIsFaithful(s: seq<bool>, script: seq<Step>, k: nat, symbol: int)
    requires Spells(s, 0, EncodeAll(RESET, script).out + Conclusion(EncodeAll(RESET, script)))
    requires k < |script| && 0 <= symbol < script[k].model.size
    ensures var e := EncodeAll(RESET, script[..k]);
            Accepts(s, e) &&
            (Selects(e, script[k].model, symbol, Window(s, |e.out|, e.underflow)) <==>
             symbol == script[k].symbol)
  {
    hide Spells, Conclusion, Selects, Accepts, Window, EncodeOne;
    var e, rest := EncodeAll(RESET, script[..k]), script[k + 1..];
    ConclusionAccepted(s, EncodeAll(RESET, script));
    assert script == script[..k] + ([script[k]] + rest);
    EncodeAllConcat(RESET, script[..k], [script[k]] + rest);
    EncodeAllAccepts(s, e, [script[k]] + rest);
    EncodeAllCons(e, script[k], rest);
    EncodeAllAccepts(s, EncodeOne(e, script[k]), rest);
    EncodeOneAccepts(s, e, script[k]);
    var w := Window(s, |e.out|, e.underflow);
    if Selects(e, script[k].model, symbol, w) {
      SelectsUnique(e, script[k].model, symbol, script[k].symbol, w);
    }
  }

  // ---- A run that needs more than two bits to conclude ------------------------------------------

  const THREE_SYMBOLS := Table([0x30_0000, 0x88_0000], 3)

  lemma MiddleSymbolState()
    ensures EncodeAll(RESET, [Step(THREE_SYMBOLS, 1)]) == State(0x2fff_ffd0, 0x87ff_ff77, 0, [])
  {
    var step := Step(THREE_SYMBOLS, 1);
    EncodeAllCons(RESET, step, []);
    assert [step] + [] == [step];
    assert EncodeStep(RESET, 0x30_0000, 0x88_0000) == Normalise(State(0x2fff_ffd0, 0x87ff_ff77, 0, []));
  }

  // Coding one symbol from reset can end in such a state.
  lemma TwoBitsMayNotDo()
    ensures var e := EncodeAll(RESET, [Step(THREE_SYMBOLS, 1)]); |TailBits(e.low, e.high)| > 2
  {
    hide EncodeAll, TailBits;
    MiddleSymbolState();
    TwoBitsSuffice(0x2fff_ffd0, 0x87ff_ff77);
  }

  // ---- Decoding equiprobable symbols by estimate -------------------------------------------

  // The estimate never exceeds the symbol that was sent, and misses it by at most one.
  lemma EstimateBound(size: int, space: int, v: int, symbol: int, pl: int, ph: int)
    requires 1 <= size < SPLIT && MAXVALUEPLUS1 * 64 <= space < FULL && 0 <= symbol < size && 0 <= v
    requires pl == symbol * MAXVALUE / size && ph == (symbol + 1) * MAXVALUE / size
    requires pl * space / MAXVALUEPLUS1 <= v < ph * space / MAXVALUEPLUS1
    ensures symbol - 1 <= v * size / space <= symbol
  {
    EstimateNotAbove(size, space, v, symbol, ph);
    EstimateNotBelow(size, space, v, symbol, pl);
  }

  lemma EstimateNotAbove(size: int, space: int, v: int, symbol: int, ph: int)
    requires 1 <= size && 0 < space && 0 <= symbol && 0 <= v
    requires ph == (symbol + 1) * MAXVALUE / size && v < ph * space / MAXVALUEPLUS1
    ensures v * size / space <= symbol
  {
    DivBounds(ph * space, MAXVALUEPLUS1);
    DivBounds((symbol + 1) * MAXVALUE, size);
    MulLe((v + 1) * MAXVALUEPLUS1, ph * space, size);
    MulLe(ph * size, (symbol + 1) * MAXVALUE, space);
    calc {
      (v + 1) * MAXVALUEPLUS1 * size;
    <=
      ph * space * size;
    ==
      ph * size * space;
    <=
      (symbol + 1) * MAXVALUE * space;
    }
    assert (v + 1) * MAXVALUEPLUS1 * size == (v * size) * MAXVALUEPLUS1 + size * MAXVALUEPLUS1;
    assert (symbol + 1) * MAXVALUE * space == ((symbol + 1) * space) * MAXVALUE;
    assert v * size < (symbol + 1) * space;
    DivBelow(v * size, space, symbol + 1);
  }

  lemma EstimateNotBelow(size: int, space: int, v: int, symbol: int, pl: int)
    requires 1 <= size < SPLIT && MAXVALUEPLUS1 * 64 <= space && 0 <= symbol < size && 0 <= v
    requires pl == symbol * MAXVALUE / size && pl * space / MAXVALUEPLUS1 <= v
    ensures symbol - 1 <= v * size / space
  {
    DivBounds(pl * space, MAXVALUEPLUS1);
    DivBounds(symbol * MAXVALUE, size);
    var x := v * size;
    MulLe(pl * space, (v + 1) * MAXVALUEPLUS1, size);
    MulLe(symbol * MAXVALUE - size, pl * size, space) by {
      assert (pl + 1) * size == pl * size + size;
    }
    MulLe(symbol + size, 2 * SPLIT, space);
    assert pl * space * size == pl * size * space;
    assert (v + 1) * MAXVALUEPLUS1 * size == (x + size) * MAXVALUEPLUS1;
    assert (symbol * MAXVALUE - size) * space == (symbol * space) * MAXVALUE - size * space;
    assert (symbol + size) * space == symbol * space + size * space;
    assert (symbol - 1) * space == symbol * space - space;
    assert (symbol - 1) * space <= x;
    DivAtLeast(x, space, symbol - 1);
  }

  function Estimate(e: State, size: int, w: int): int
    requires Normal(e)
  {
    SpaceLarge(e);
    (w - e.low) * size / Space(e)
  }

  // The symbol that was sent is the estimate or the one after it, so trying the estimate and its
  // two neighbours always finds it.
  lemma UniformEstimate(e: State, size: int, symbol: int, w: int)
    requires Normal(e) && 1 <= size < SPLIT && 0 <= symbol < size
    requires Selects(e, Uniform(size), symbol, w)
    ensures symbol == Estimate(e, size, w) || symbol == Estimate(e, size, w) + 1
  {
    var space, v := Space(e), w - e.low;
    var pl, ph := PLow(Uniform(size), symbol), PHigh(Uniform(size), symbol);
    SpaceLarge(e);
    UniformBounds(size, symbol);
    assert pl * space / MAXVALUEPLUS1 <= v < ph * space / MAXVALUEPLUS1;
    DivAtLeast(pl * space, MAXVALUEPLUS1, 0) by {
      MulLe(0, pl, space);
    }
    EstimateBound(size, space, v, symbol, pl, ph);
  }

  lemma UniformBounds(size: int, symbol: int)
    requires 1 <= size < SPLIT && 0 <= symbol < size
    ensures PLow(Uniform(size), symbol) == symbol * MAXVALUE / size >= 0
    ensures PHigh(Uniform(size), symbol) == (symbol + 1) * MAXVALUE / size <= MAXVALUE
  {
  }
}
