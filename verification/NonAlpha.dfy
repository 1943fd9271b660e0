/** forms/nonalpha.c: the characters outside the coded alphabet, their positions and their values. */
module NonAlpha {
  import opened Seqs
  import opened Charset
  import opened RangeModel
  import opened RangeScript
  import opened RangeCoder
  import opened Interpolative

  const PROB_NO_NON_ALPHA := 15938354   // 0.95 * 0xffffff, truncated

  // ---- Splitting a message ------------------------------------------------------------------

  function Kept(m: seq<Char>): (r: seq<Char>)
    ensures forall c :: c in r ==> !IsNonAlpha(c)
  {
    if m == [] then [] else
      var n := |m| - 1;
      Kept(m[..n]) + if IsNonAlpha(m[n]) then [] else [m[n]]
  }

  function Positions(m: seq<Char>): (r: seq<int>)
    ensures |r| <= |m| && (forall i :: 0 <= i < |r| ==> 0 <= r[i] < |m|)
    ensures StrictlyIncreasing(r)
  {
    if m == [] then [] else
      var n := |m| - 1;
      Positions(m[..n]) + if IsNonAlpha(m[n]) then [n] else []
  }

  function Values(m: seq<Char>): (r: seq<int>)
    ensures |r| == |Positions(m)| && forall i :: 0 <= i < |r| ==> 0 <= r[i] < 0x80
  {
    if m == [] then [] else
      var n := |m| - 1;
      Values(m[..n]) + if IsNonAlpha(m[n]) then [m[n]] else []
  }

  lemma {:induction false} PartsAddUp(m: seq<Char>)
    ensures |Kept(m)| + |Positions(m)| == |m|
    decreases |m|
  {
    if m != [] {
      PartsAddUp(m[..|m| - 1]);
    }
  }

  lemma OneMore(m: seq<Char>, n: nat)
    requires n < |m|
    ensures Positions(m[..n + 1]) == Positions(m[..n]) + if IsNonAlpha(m[n]) then [n] else []
    ensures Values(m[..n + 1]) == Values(m[..n]) + if IsNonAlpha(m[n]) then [m[n]] else []
    ensures Kept(m[..n + 1]) == Kept(m[..n]) + if IsNonAlpha(m[n]) then [] else [m[n]]
  {
    hide IsNonAlpha;
    assert m[..n + 1][..n] == m[..n];
  }

  // The parts of a prefix are prefixes of the parts.
  lemma {:induction false} PartsOfPrefix(m: seq<Char>, n: nat)
    requires n <= |m|
    ensures Positions(m[..n]) <= Positions(m) && Values(m[..n]) <= Values(m) && Kept(m[..n]) <= Kept(m)
    decreases |m| - n
  {
    hide IsNonAlpha, Positions, Values, Kept;
    if n < |m| {
      PartsOfPrefix(m, n + 1);
      OneMore(m, n);
    } else {
      assert m[..n] == m;
    }
  }

  // Positions not seen in the first n places lie at n or later.
  lemma {:induction false} LaterPosition(m: seq<Char>, n: nat, i: nat)
    requires n <= |m| && |Positions(m[..n])| <= i < |Positions(m)|
    ensures Positions(m)[i] >= n
    decreases |m|
  {
    hide IsNonAlpha;
    assert m[..|m|] == m;
    if n < |m| {
      var k := |m| - 1;
      assert m[..k][..n] == m[..n];
      if i < |Positions(m[..k])| {
        LaterPosition(m[..k], n, i);
      }
    }
  }

  // How many positions, and how many kept characters, the first n places account for.
  function Used(m: seq<Char>, n: nat): nat
    requires n <= |m|
  {
    |Positions(m[..n])|
  }

  function Taken(m: seq<Char>, n: nat): nat
    requires n <= |m|
  {
    |Kept(m[..n])|
  }

  lemma NothingYet(m: seq<Char>)
    ensures Used(m, 0) == 0 && Taken(m, 0) == 0
  {
  }

  predicate NextIsPosition(m: seq<Char>, n: nat)
    requires n <= |m|
  {
    Used(m, n) < |Positions(m)| && Positions(m)[Used(m, n)] == n
  }

  // The positions, the values and the kept characters determine the message: its n-th character is
  // the next value when n is the next position, and the next kept character otherwise.
  lemma NextPlace(m: seq<Char>, n: nat)
    requires n < |m|
    ensures NextIsPosition(m, n) ==>
              Values(m)[Used(m, n)] == m[n] &&
              Used(m, n + 1) == Used(m, n) + 1 && Taken(m, n + 1) == Taken(m, n)
    ensures !NextIsPosition(m, n) ==>
              Taken(m, n) < |Kept(m)| && Kept(m)[Taken(m, n)] == m[n] &&
              Used(m, n + 1) == Used(m, n) && Taken(m, n + 1) == Taken(m, n) + 1
  {
    hide IsNonAlpha, Positions, Values, Kept;
    OneMore(m, n);
    PartsOfPrefix(m, n + 1);
    if !IsNonAlpha(m[n]) && Used(m, n) < |Positions(m)| {
      LaterPosition(m, n + 1, Used(m, n));
    }
  }

  // ---- The script ---------------------------------------------------------------------------

  function ValuesScript(values: seq<int>): (r: seq<Step>)
    requires forall i :: 0 <= i < |values| ==> 0 <= values[i] < 0x100
  {
    if values == [] then [] else [Step(Uniform(0x100), values[0])] + ValuesScript(values[1..])
  }

  function ContainsTable(): Model {
    Table([PROB_NO_NON_ALPHA], 2)
  }

  function NonAlphaScript(m: seq<Char>): (r: seq<Step>)
    requires |m| < MAX_LENGTH
  {
    var count := |Positions(m)|;
    if count == 0 then [Step(ContainsTable(), 0)]
    else [Step(ContainsTable(), 1)] +
         (UniformScript(|m| + 1, count) + (ListScript(Positions(m), |m|) + ValuesScript(Values(m))))
  }

  // ---- The coder's loops --------------------------------------------------------------------

  method StripNonAlpha(m: seq<Char>) returns (out: seq<Char>)
    ensures out == Kept(m)
  {
    out := [];
    var i := 0;
    while i < |m|
      invariant 0 <= i <= |m|
      invariant out == Kept(m[..i])
    {
      assert m[..i + 1][..i] == m[..i];
      var index := CharIdx(ToLower(m[i]));
      if m[i] > 0x7f {
        UnicodeHasIndex(m[i]);
      }
      if m[i] > 0x80 || index >= 0 {
        out := out + [m[i]];
      }
      i := i + 1;
    }
    assert m[..i] == m;
  }

  method FindNonAlpha(m: seq<Char>) returns (pos: seq<int>, v: seq<int>)
    ensures pos == Positions(m) && v == Values(m)
  {
    pos, v := [], [];
    var i := 0;
    while i < |m|
      invariant 0 <= i <= |m|
      invariant pos == Positions(m[..i]) && v == Values(m[..i])
    {
      assert m[..i + 1][..i] == m[..i];
      if m[i] < 0x80 {
        var index := CharIdx(ToLower(m[i]));
        if index < 0 {
          v := v + [m[i]];
          pos := pos + [i];
        }
      }
      i := i + 1;
    }
    assert m[..i] == m;
  }

  method EncodeNonAlpha(c: RangeCoder, m: seq<Char>, ghost final: State, ghost rest: seq<Step>)
    requires |m| < MAX_LENGTH
    requires c.Writes(final, NonAlphaScript(m) + rest)
    modifies c`low, c`high, c`underflow, c`bitsUsed, c.bitStream
    ensures c.Writes(final, rest)
  {
    hide RangeCoder.Writes;
    hide ListScript, UniformScript, Positions, Values;
    var pos, v := FindNonAlpha(m);
    if |pos| == 0 {
      c.SendSymbol([PROB_NO_NON_ALPHA], 2, 0, final, rest);
      return;
    }
    ghost var counted, listed := UniformScript(|m| + 1, |pos|), ListScript(pos, |m|);
    ghost var valued := ValuesScript(v);
    Regroup4([Step(ContainsTable(), 1)], counted, listed, valued, rest);
    c.SendSymbol([PROB_NO_NON_ALPHA], 2, 1, final, counted + (listed + (valued + rest)));
    c.EncodeEquiprobable(|m| + 1, |pos|, final, listed + (valued + rest));
    IcEncode(pos, |m|, c, final, valued + rest);
    var i := 0;
    assert v[0..] == v;
    while i < |v|
      invariant 0 <= i <= |v|
      invariant c.Writes(final, ValuesScript(v[i..]) + rest)
    {
      assert v[i..][1..] == v[i + 1..];
      ConcatAssociative([Step(Uniform(0x100), v[i])], ValuesScript(v[i + 1..]), rest);
      c.SendUniform(0x100, v[i], final, ValuesScript(v[i + 1..]) + rest);
      i := i + 1;
    }
    assert ValuesScript(v[i..]) + rest == rest;
  }

  lemma Regroup4<T>(a: seq<T>, b: seq<T>, c: seq<T>, d: seq<T>, rest: seq<T>)
    ensures a + (b + (c + d)) + rest == a + (b + (c + (d + rest)))
  {
  }

  // Fills the first `count` entries of both buffers with what was sent.
  method DecodeValues(c: RangeCoder, values: array<int>, count: nat, ghost v: seq<int>, ghost rest: seq<Step>)
    requires |v| == count <= values.Length && values as object != c.bitStream
    requires forall i :: 0 <= i < |v| ==> 0 <= v[i] < 0x100
    requires c.Follows(ValuesScript(v) + rest)
    modifies c`low, c`high, c`value, c`underflow, c`bitsUsed, c`decoding, values
    ensures c.Follows(rest) && values[..count] == v
  {
    hide RangeCoder.Follows;
    var i := 0;
    assert v[0..] == v;
    while i < count
      invariant 0 <= i <= count
      invariant c.Follows(ValuesScript(v[i..]) + rest)
      invariant values[..i] == v[..i]
    {
      assert v[i..][1..] == v[i + 1..];
      ConcatAssociative([Step(Uniform(0x100), v[i])], ValuesScript(v[i + 1..]), rest);
      var value := c.ReceiveUniform(0x100, v[i], ValuesScript(v[i + 1..]) + rest);
      values[i] := value;
      i := i + 1;
    }
    assert ValuesScript(v[i..]) + rest == rest;
  }

  method DecodeNonAlpha(c: RangeCoder, positions: array<int>, values: array<int>, length: nat,
                        ghost m: seq<Char>, ghost rest: seq<Step>) returns (count: int)
    requires |m| == length < MAX_LENGTH && positions.Length >= MAX_LENGTH && values.Length >= MAX_LENGTH
    requires positions != values && positions as object != c.bitStream && values as object != c.bitStream
    requires c.Follows(NonAlphaScript(m) + rest)
    modifies c`low, c`high, c`value, c`underflow, c`bitsUsed, c`decoding, positions, values
    ensures c.Follows(rest)
    ensures count == |Positions(m)| && positions[..count] == Positions(m) && values[..count] == Values(m)
  {
    hide RangeCoder.Follows;
    hide ListScript, UniformScript, Positions, Values;
    ghost var pos, v := Positions(m), Values(m);
    ghost var any := if |pos| == 0 then 0 else 1;
    ghost var counted := if |pos| == 0 then [] else UniformScript(length + 1, |pos|);
    ghost var listed := if |pos| == 0 then [] else ListScript(pos, length);
    ghost var valued := ValuesScript(v);
    Regroup4([Step(ContainsTable(), any)], counted, listed, valued, rest);
    assert NonAlphaScript(m) == [Step(ContainsTable(), any)] + (counted + (listed + valued));
    var containsNonAlpha :=
      c.ReceiveSymbol([PROB_NO_NON_ALPHA], 2, any, counted + (listed + (valued + rest)));
    if containsNonAlpha != 0 {
      count := c.DecodeEquiprobable(length + 1, |pos|, listed + (valued + rest));
      IcDecode(positions, count, length, c, pos, valued + rest);
      DecodeValues(c, values, count, v, rest);
    } else {
      assert counted + (listed + (valued + rest)) == rest;
      count := 0;
    }
  }
}
