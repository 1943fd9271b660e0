/** The interpolative coder of forms/gsinterpolative.c: a strictly increasing list is coded from
    the middle outwards, each entry as one of the values its already coded neighbours leave. */
module Interpolative {
  import opened Arith
  import opened Seqs
  import opened RangeModel
  import opened RangeScript
  import opened RangeCoder

  // One coded entry: index `p`, with the neighbours `lo` and `hi` that bound it.
  datatype Visit = Visit(lo: int, p: int, hi: int)

  predicate StrictlyIncreasing(list: seq<int>) {
    forall i, j :: 0 <= i < j < |list| ==> list[i] < list[j]
  }

  predicate Codable(list: seq<int>, maxValue: int) {
    && StrictlyIncreasing(list)
    && 0 <= maxValue < MAXINT
    && forall i :: 0 <= i < |list| ==> 0 <= list[i] <= maxValue
  }

  // A node of height h of the implicit tree over indices governs the 2^(h+1) - 1 indices after lo;
  // its own index is the middle one.
  function Middle(lo: int, h: nat): int {
    lo + Pow2(h)
  }

  function End(lo: int, h: nat): int {
    lo + Pow2(h + 1)
  }

  // The right neighbour is the end of the node, or one of the places beyond the list.
  predicate TreeNode(n: nat, lo: int, hi: int, h: nat) {
    -1 <= lo && (hi == End(lo, h) || (hi == n + 1 && n <= End(lo, h)))
  }

  lemma ChildrenAreNodes(n: nat, lo: int, hi: int, h: nat)
    requires TreeNode(n, lo, hi, h)
    ensures lo < Middle(lo, h) && (Middle(lo, h) < n ==> Middle(lo, h) < hi)
    ensures h > 0 ==> TreeNode(n, lo, Middle(lo, h), h - 1) && TreeNode(n, Middle(lo, h), hi, h - 1)
    ensures h > 0 ==> End(lo, h - 1) == Middle(lo, h) && End(Middle(lo, h), h - 1) == End(lo, h)
  {
  }

  // ---- Which indices are coded, in which order ----------------------------------------------

  function Here(n: nat, lo: int, p: int, hi: int): seq<Visit> {
    if p < n then [Visit(lo, p, hi)] else []
  }

  function Visits(n: nat, lo: int, hi: int, h: nat): (r: seq<Visit>)
    decreases h
  {
    if lo >= n then [] else
      var p := Middle(lo, h);
      if h == 0 then Here(n, lo, p, hi)
      else Here(n, lo, p, hi) + (Visits(n, lo, p, h - 1) + Visits(n, p, hi, h - 1))
  }

  // How often index `i` is coded.
  function Times(visits: seq<Visit>, i: int): nat
    decreases |visits|
  {
    if visits == [] then 0 else (if visits[0].p == i then 1 else 0) + Times(visits[1..], i)
  }

  lemma {:induction false} TimesConcat(a: seq<Visit>, b: seq<Visit>, i: int)
    ensures Times(a + b, i) == Times(a, i) + Times(b, i)
    decreases |a|
  {
    if a == [] {
      assert a + b == b;
    } else {
      assert (a + b)[1..] == a[1..] + b;
      TimesConcat(a[1..], b, i);
    }
  }

  // A node codes each index it governs exactly once, and no other.
  lemma {:induction false} VisitsOnce(n: nat, lo: int, hi: int, h: nat, i: int)
    requires TreeNode(n, lo, hi, h)
    ensures Times(Visits(n, lo, hi, h), i) == if lo < i < n && i < End(lo, h) then 1 else 0
    decreases h
  {
    if lo < n {
      var p := Middle(lo, h);
      ChildrenAreNodes(n, lo, hi, h);
      assert Times(Here(n, lo, p, hi), i) == if p < n && p == i then 1 else 0;
      if h > 0 {
        VisitsOnce(n, lo, p, h - 1, i);
        VisitsOnce(n, p, hi, h - 1, i);
        TimesConcat(Here(n, lo, p, hi), Visits(n, lo, p, h - 1) + Visits(n, p, hi, h - 1), i);
        TimesConcat(Visits(n, lo, p, h - 1), Visits(n, p, hi, h - 1), i);
      }
    }
  }

  // A visit has the place in the tree that its index has: p + 1 is an odd multiple of a power of two, and
  // the neighbours lie this power to the left and to the right, or beyond the list.
  predicate PlacedAt(n: nat, v: Visit, k: nat, m: nat) {
    && v.p + 1 == (2 * m + 1) * Pow2(k)
    && v.lo == v.p - Pow2(k)
    && (v.hi == v.p + Pow2(k) || (v.hi == n + 1 && n <= v.p + Pow2(k)))
  }

  ghost predicate Placed(n: nat, v: Visit) {
    exists k: nat, m: nat :: PlacedAt(n, v, k, m)
  }

  lemma EndPastMiddle(lo: int, h: nat)
    ensures lo < Middle(lo, h) < End(lo, h)
  {
  }

  // A node of height h starts after a multiple of 2^(h+1), and so do its halves.
  predicate NodeStart(lo: int, h: nat, m: nat) {
    lo + 1 == m * Pow2(h)
  }

  lemma HalvesStart(lo: int, h: nat, m: nat)
    requires NodeStart(lo, h + 1, m)
    ensures NodeStart(lo, h, 2 * m) && NodeStart(Middle(lo, h), h, 2 * m + 1)
  {
  }

  lemma NodePlaced(n: nat, lo: int, hi: int, h: nat, m: nat)
    requires TreeNode(n, lo, hi, h) && NodeStart(lo, h + 1, m)
    ensures Placed(n, Visit(lo, Middle(lo, h), hi))
  {
    HalvesStart(lo, h, m);
    assert PlacedAt(n, Visit(lo, Middle(lo, h), hi), h, m);
  }

  // The visits of a node stay inside it, and each has the place of its index.
  lemma {:induction false} VisitsPlaced(n: nat, lo: int, hi: int, h: nat, m: nat, v: Visit)
    requires TreeNode(n, lo, hi, h) && NodeStart(lo, h + 1, m) && v in Visits(n, lo, hi, h)
    ensures lo <= v.lo < v.p < End(lo, h) && v.p < n && Placed(n, v)
    decreases h
  {
    hide Pow2, Middle, End, Placed, NodeStart;
    var p := Middle(lo, h);
    ChildrenAreNodes(n, lo, hi, h);
    EndPastMiddle(lo, h);
    HalvesStart(lo, h, m);
    if v in Here(n, lo, p, hi) {
      NodePlaced(n, lo, hi, h, m);
    } else if v in Visits(n, lo, p, h - 1) {
      VisitsPlaced(n, lo, p, h - 1, 2 * m, v);
    } else {
      VisitsPlaced(n, p, hi, h - 1, 2 * m + 1, v);
    }
  }

  lemma AllPlaced(n: nat, lo: int, hi: int, h: nat, m: nat)
    requires TreeNode(n, lo, hi, h) && NodeStart(lo, h + 1, m)
    ensures forall v :: v in Visits(n, lo, hi, h) ==> lo <= v.lo < v.p < End(lo, h) && v.p < n && Placed(n, v)
  {
    hide *;
    forall v | v in Visits(n, lo, hi, h) ensures lo <= v.lo < v.p < End(lo, h) && v.p < n && Placed(n, v) {
      VisitsPlaced(n, lo, hi, h, m, v);
    }
  }

  // The left half of a node is coded before the right one: nothing that comes later lies at or below
  // the left neighbour of what came before.
  predicate LeftFirst(visits: seq<Visit>) {
    forall a, b :: 0 <= a < b < |visits| ==> visits[a].lo < visits[b].p
  }

  lemma LeftFirstConcat(a: seq<Visit>, b: seq<Visit>, at: int)
    requires LeftFirst(a) && LeftFirst(b)
    requires (forall v :: v in a ==> v.lo <= at) && (forall v :: v in b ==> at < v.p)
    ensures LeftFirst(a + b)
  {
  }

  lemma FewLeftFirst(visits: seq<Visit>)
    requires |visits| <= 1
    ensures LeftFirst(visits)
  {
  }

  lemma VisitsParts(n: nat, lo: int, hi: int, h: nat)
    requires lo < n && h > 0
    ensures var p := Middle(lo, h);
      Visits(n, lo, hi, h) == Here(n, lo, p, hi) + (Visits(n, lo, p, h - 1) + Visits(n, p, hi, h - 1))
  {
  }

  lemma VisitsFew(n: nat, lo: int, hi: int, h: nat)
    requires lo >= n || h == 0
    ensures |Visits(n, lo, hi, h)| <= 1
  {
  }

  lemma {:induction false} VisitsLeftFirst(n: nat, lo: int, hi: int, h: nat, m: nat)
    requires TreeNode(n, lo, hi, h) && NodeStart(lo, h + 1, m)
    ensures LeftFirst(Visits(n, lo, hi, h))
    decreases h
  {
    hide Pow2, Middle, End, Placed, LeftFirst, NodeStart, Visits, TreeNode;
    var p := Middle(lo, h);
    ChildrenAreNodes(n, lo, hi, h);
    HalvesStart(lo, h, m);
    if lo < n && h > 0 {
      VisitsParts(n, lo, hi, h);
      var here, left, right := Here(n, lo, p, hi), Visits(n, lo, p, h - 1), Visits(n, p, hi, h - 1);
      VisitsLeftFirst(n, lo, p, h - 1, 2 * m);
      VisitsLeftFirst(n, p, hi, h - 1, 2 * m + 1);
      AllPlaced(n, lo, p, h - 1, 2 * m);
      AllPlaced(n, p, hi, h - 1, 2 * m + 1);
      FewLeftFirst(here);
      LeftFirstConcat(left, right, p);
      LeftFirstConcat(here, left + right, lo);
    } else {
      VisitsFew(n, lo, hi, h);
      FewLeftFirst(Visits(n, lo, hi, h));
    }
  }

  // Each visit bounds its entry by neighbours that are already known, or lie outside the list.
  predicate InOrder(n: nat, known: set<int>, visits: seq<Visit>)
    decreases |visits|
  {
    visits == [] ||
    (&& (visits[0].lo == -1 || visits[0].lo in known)
     && (visits[0].hi >= n || visits[0].hi in known)
     && InOrder(n, known + {visits[0].p}, visits[1..]))
  }

  lemma {:induction false} InOrderMonotone(n: nat, small: set<int>, large: set<int>, visits: seq<Visit>)
    requires small <= large && InOrder(n, small, visits)
    ensures InOrder(n, large, visits)
    decreases |visits|
  {
    if visits != [] {
      InOrderMonotone(n, small + {visits[0].p}, large + {visits[0].p}, visits[1..]);
    }
  }

  lemma {:induction false} InOrderConcat(n: nat, known: set<int>, a: seq<Visit>, b: seq<Visit>)
    requires InOrder(n, known, a) && InOrder(n, known, b)
    ensures InOrder(n, known, a + b)
    decreases |a|
  {
    if a == [] {
      assert a + b == b;
    } else {
      assert (a + b)[1..] == a[1..] + b;
      InOrderMonotone(n, known, known + {a[0].p}, b);
      InOrderConcat(n, known + {a[0].p}, a[1..], b);
    }
  }

  lemma InOrderHere(n: nat, known: set<int>, lo: int, p: int, hi: int, below: seq<Visit>)
    requires lo == -1 || lo in known
    requires hi >= n || hi in known
    requires InOrder(n, if p < n then known + {p} else known, below)
    ensures InOrder(n, known, Here(n, lo, p, hi) + below)
  {
    if p < n {
      assert (Here(n, lo, p, hi) + below)[1..] == below;
    } else {
      assert Here(n, lo, p, hi) + below == below;
    }
  }

  lemma {:induction false} VisitsInOrder(n: nat, known: set<int>, lo: int, hi: int, h: nat)
    requires TreeNode(n, lo, hi, h)
    requires (lo == -1 || lo in known || lo >= n) && (hi >= n || hi in known)
    ensures InOrder(n, known, Visits(n, lo, hi, h))
    decreases h
  {
    if lo < n {
      var p := Middle(lo, h);
      var after := if p < n then known + {p} else known;
      ChildrenAreNodes(n, lo, hi, h);
      if h > 0 {
        VisitsInOrder(n, after, lo, p, h - 1);
        VisitsInOrder(n, after, p, hi, h - 1);
        InOrderConcat(n, after, Visits(n, lo, p, h - 1), Visits(n, p, hi, h - 1));
        InOrderHere(n, known, lo, p, hi, Visits(n, lo, p, h - 1) + Visits(n, p, hi, h - 1));
      } else {
        InOrderHere(n, known, lo, p, hi, []);
        assert Here(n, lo, p, hi) + [] == Here(n, lo, p, hi);
      }
    }
  }

  // ---- What is coded ------------------------------------------------------------------------

  function DocLow(list: seq<int>, lo: int, p: int): int
    requires lo < |list|
  {
    (if lo > -1 then list[lo] + 1 else 0) + (p - lo - 1)
  }

  function DocHigh(list: seq<int>, maxValue: int, p: int, hi: int): int
    requires 0 <= hi
  {
    (if hi < |list| then list[hi] - 1 else maxValue + (hi - |list|)) - (hi - p - 1)
  }

  lemma {:induction false} EntriesSpread(list: seq<int>, i: nat, j: nat)
    requires StrictlyIncreasing(list) && i <= j < |list|
    ensures list[j] - list[i] >= j - i
    decreases j - i
  {
    if i < j {
      EntriesSpread(list, i, j - 1);
    }
  }

  // The entry lies in the range its neighbours leave, so it is a symbol of the coded alphabet.
  lemma EntryInRange(list: seq<int>, maxValue: int, lo: int, p: int, hi: int)
    requires Codable(list, maxValue) && -1 <= lo < p < hi && p < |list|
    ensures 0 <= DocLow(list, lo, p) <= list[p] <= DocHigh(list, maxValue, p, hi) <= maxValue
  {
    var n := |list|;
    EntriesSpread(list, 0, p);
    EntriesSpread(list, p, n - 1);
    if lo > -1 {
      EntriesSpread(list, lo, p);
    }
    if hi < n {
      EntriesSpread(list, p, hi);
    }
  }

  // Another list that agrees with `list` at the neighbours `lo` and `hi`, where these are indices.
  predicate AgreesAt(other: seq<int>, list: seq<int>, lo: int, hi: int) {
    && |other| == |list|
    && (0 <= lo < |list| ==> other[lo] == list[lo])
    && (0 <= hi < |list| ==> other[hi] == list[hi])
  }

  // `list` with v at index p and the entries around it as close to their left as they can be.
  function WithEntry(list: seq<int>, lo: int, p: int, hi: int, v: int): (r: seq<int>)
    requires -1 <= lo < p < hi && p < |list|
    ensures |r| == |list| && r[p] == v
  {
    seq(|list|, i requires 0 <= i < |list| =>
      if i <= lo || hi <= i then list[i] else if i < p then DocLow(list, lo, i) else v + (i - p))
  }

  lemma WithEntryIncreases(list: seq<int>, maxValue: int, lo: int, p: int, hi: int, v: int, i: int, j: int)
    requires Codable(list, maxValue) && -1 <= lo < p < hi && p < |list|
    requires DocLow(list, lo, p) <= v <= DocHigh(list, maxValue, p, hi) && 0 <= i < j < |list|
    ensures WithEntry(list, lo, p, hi, v)[i] < WithEntry(list, lo, p, hi, v)[j]
  {
    if i < lo {
      assert list[i] < list[lo];
    }
    if hi < j {
      assert list[hi] < list[j];
    }
  }

  lemma WithEntryInBounds(list: seq<int>, maxValue: int, lo: int, p: int, hi: int, v: int, i: int)
    requires Codable(list, maxValue) && -1 <= lo < p < hi && p < |list|
    requires DocLow(list, lo, p) <= v <= DocHigh(list, maxValue, p, hi) && 0 <= i < |list|
    ensures 0 <= WithEntry(list, lo, p, hi, v)[i] <= maxValue
  {
  }

  // The range holds exactly the values that some list with the same neighbours has at index p: the
  // coded alphabet is what the neighbours leave, no more and no less.
  lemma RangeIsTight(list: seq<int>, maxValue: int, lo: int, p: int, hi: int, v: int)
    requires Codable(list, maxValue) && -1 <= lo < p < hi && p < |list|
    ensures DocLow(list, lo, p) <= v <= DocHigh(list, maxValue, p, hi) <==>
            exists other :: Codable(other, maxValue) && AgreesAt(other, list, lo, hi) && other[p] == v
  {
    if DocLow(list, lo, p) <= v <= DocHigh(list, maxValue, p, hi) {
      var other := WithEntry(list, lo, p, hi, v);
      forall i, j | 0 <= i < j < |other| ensures other[i] < other[j] {
        WithEntryIncreases(list, maxValue, lo, p, hi, v, i, j);
      }
      forall i | 0 <= i < |other| ensures 0 <= other[i] <= maxValue {
        WithEntryInBounds(list, maxValue, lo, p, hi, v, i);
      }
      assert AgreesAt(other, list, lo, hi);
    }
    forall other | Codable(other, maxValue) && AgreesAt(other, list, lo, hi) && other[p] == v
      ensures DocLow(list, lo, p) <= v <= DocHigh(list, maxValue, p, hi)
    {
      EntryInRange(other, maxValue, lo, p, hi);
    }
  }

  function EntryScript(list: seq<int>, maxValue: int, lo: int, p: int, hi: int): (r: seq<Step>)
    requires Codable(list, maxValue) && -1 <= lo < p && (p < |list| ==> p < hi)
  {
    if p >= |list| then [] else
      EntryInRange(list, maxValue, lo, p, hi);
      UniformScript(DocHigh(list, maxValue, p, hi) - DocLow(list, lo, p) + 1, list[p] - DocLow(list, lo, p))
  }

  // The script of a node: its own entry, then both halves.
  function IcScript(list: seq<int>, maxValue: int, lo: int, hi: int, h: nat): (r: seq<Step>)
    requires Codable(list, maxValue) && TreeNode(|list|, lo, hi, h)
    decreases h
  {
    if lo >= |list| then [] else
      var p := Middle(lo, h);
      ChildrenAreNodes(|list|, lo, hi, h);
      EntryScript(list, maxValue, lo, p, hi) +
      if h == 0 then [] else IcScript(list, maxValue, lo, p, h - 1) + IcScript(list, maxValue, p, hi, h - 1)
  }

  predicate GoodVisits(n: nat, visits: seq<Visit>) {
    forall v :: v in visits ==> -1 <= v.lo < v.p < v.hi && v.p < n
  }

  // The same script, entry by entry in the order of the visits.
  function FlatScript(list: seq<int>, maxValue: int, visits: seq<Visit>): (r: seq<Step>)
    requires Codable(list, maxValue)
    requires GoodVisits(|list|, visits)
    ensures visits == [] ==> r == []
    decreases |visits|
  {
    if visits == [] then []
    else EntryScript(list, maxValue, visits[0].lo, visits[0].p, visits[0].hi) +
         FlatScript(list, maxValue, visits[1..])
  }

  lemma {:induction false} VisitsGood(n: nat, lo: int, hi: int, h: nat)
    requires TreeNode(n, lo, hi, h)
    ensures GoodVisits(n, Visits(n, lo, hi, h))
    decreases h
  {
    hide Pow2, End;
    ChildrenAreNodes(n, lo, hi, h);
    if lo < n && h > 0 {
      VisitsGood(n, lo, Middle(lo, h), h - 1);
      VisitsGood(n, Middle(lo, h), hi, h - 1);
    }
  }

  lemma {:induction false} FlatScriptConcat(list: seq<int>, maxValue: int, a: seq<Visit>, b: seq<Visit>)
    requires Codable(list, maxValue) && GoodVisits(|list|, a) && GoodVisits(|list|, b)
    ensures GoodVisits(|list|, a + b)
    ensures FlatScript(list, maxValue, a + b) == FlatScript(list, maxValue, a) + FlatScript(list, maxValue, b)
    decreases |a|
  {
    hide EntryScript;
    if a == [] {
      assert a + b == b;
    } else {
      assert (a + b)[1..] == a[1..] + b;
      FlatScriptConcat(list, maxValue, a[1..], b);
    }
  }

  // The script of a node codes the entries of its visits, in order, and nothing else.
  lemma {:induction false} ScriptFollowsVisits(list: seq<int>, maxValue: int, lo: int, hi: int, h: nat)
    requires Codable(list, maxValue) && TreeNode(|list|, lo, hi, h)
    ensures GoodVisits(|list|, Visits(|list|, lo, hi, h))
    ensures IcScript(list, maxValue, lo, hi, h) == FlatScript(list, maxValue, Visits(|list|, lo, hi, h))
    decreases h
  {
    hide EntryScript, Pow2, End, FlatScript, GoodVisits;
    var n := |list|;
    VisitsGood(n, lo, hi, h);
    if lo < n {
      var p := Middle(lo, h);
      ChildrenAreNodes(n, lo, hi, h);
      var here := Here(n, lo, p, hi);
      FlatHere(list, maxValue, lo, p, hi);
      if h > 0 {
        var left, right := Visits(n, lo, p, h - 1), Visits(n, p, hi, h - 1);
        ScriptFollowsVisits(list, maxValue, lo, p, h - 1);
        ScriptFollowsVisits(list, maxValue, p, hi, h - 1);
        FlatScriptConcat(list, maxValue, left, right);
        FlatScriptConcat(list, maxValue, here, left + right);
        assert Visits(n, lo, hi, h) == here + (left + right);
        assert IcScript(list, maxValue, lo, hi, h) ==
               FlatScript(list, maxValue, here) + FlatScript(list, maxValue, left + right);
      } else {
        assert EntryScript(list, maxValue, lo, p, hi) + [] == EntryScript(list, maxValue, lo, p, hi);
      }
    }
  }

  lemma FlatHere(list: seq<int>, maxValue: int, lo: int, p: int, hi: int)
    requires Codable(list, maxValue) && -1 <= lo < p && (p < |list| ==> p < hi)
    ensures GoodVisits(|list|, Here(|list|, lo, p, hi))
    ensures FlatScript(list, maxValue, Here(|list|, lo, p, hi)) == EntryScript(list, maxValue, lo, p, hi)
  {
  }

  // ---- The coder's loops ----------------------------------------------------------------------

  // The largest power of two below v, as a search from 2^30 down.
  method BiggestPowerOf2(v: int) returns (r: int, ghost h: nat)
    requires v <= MAXINT
    ensures v <= 1 ==> r == 0
    ensures v > 1 ==> r == Pow2(h) < v <= Pow2(h + 1)
  {
    Pow2Values();
    h := 0;
    var b := 30;
    while b >= 0
      invariant -1 <= b <= 30
      invariant v <= Pow2(b + 1)
    {
      if Pow2(b) < v {
        h := b;
        return Pow2(b), h;
      }
      b := b - 1;
    }
    r := 0;
  }

  method BinaryEncode(low: int, p: int, high: int, c: RangeCoder, ghost final: State, ghost rest: seq<Step>)
    requires low <= p <= high && high - low < MAXINT
    requires c.Writes(final, UniformScript(high - low + 1, p - low) + rest)
    modifies c`low, c`high, c`underflow, c`bitsUsed, c.bitStream
    ensures c.Writes(final, rest)
  {
    hide RangeCoder.Writes;
    c.EncodeEquiprobable(high - low + 1, p - low, final, rest);
  }

  method BinaryDecode(low: int, high: int, c: RangeCoder, ghost sent: int, ghost rest: seq<Step>) returns (p: int)
    requires low <= sent <= high && high - low < MAXINT
    requires c.Follows(UniformScript(high - low + 1, sent - low) + rest)
    modifies c`low, c`high, c`value, c`underflow, c`bitsUsed, c`decoding
    ensures c.Follows(rest) && p == sent
  {
    hide RangeCoder.Follows;
    var value := c.DecodeEquiprobable(high - low + 1, sent - low, rest);
    p := value + low;
  }

  lemma NodeSteps(n: nat, lo: int, hi: int, step: int, h: nat)
    requires TreeNode(n, lo, hi, h) && step == Pow2(h)
    ensures step > 1 <==> h > 0
    ensures h > 0 ==> step / 2 == Pow2(h - 1)
  {
  }

  lemma ScriptOfParts(here: seq<Step>, left: seq<Step>, right: seq<Step>, rest: seq<Step>)
    ensures here + (left + right) + rest == here + (left + (right + rest))
  {
  }

  method IcEncodeEntry(list: seq<int>, maxValue: int, c: RangeCoder, lo: int, p: int, hi: int,
                       ghost final: State, ghost rest: seq<Step>)
    requires Codable(list, maxValue) && -1 <= lo < p && lo < |list| && (p < |list| ==> p < hi)
    requires c.Writes(final, EntryScript(list, maxValue, lo, p, hi) + rest)
    modifies c`low, c`high, c`underflow, c`bitsUsed, c.bitStream
    ensures c.Writes(final, rest)
  {
    hide RangeCoder.Writes;
    if p < |list| {
      EntryInRange(list, maxValue, lo, p, hi);
      var docLow := if lo > -1 then list[lo] + 1 else 0;
      var docHigh := if hi < |list| then list[hi] - 1 else maxValue + (hi - |list|);
      docLow := docLow + (p - lo - 1);
      docHigh := docHigh - (hi - p - 1);
      BinaryEncode(docLow, list[p], docHigh, c, final, rest);
    } else {
      assert EntryScript(list, maxValue, lo, p, hi) + rest == rest;
    }
  }

  method IcEncodeNode(list: seq<int>, maxValue: int, c: RangeCoder, lo: int, p: int, hi: int, step: int,
                      ghost h: nat, ghost final: State, ghost rest: seq<Step>)
    requires Codable(list, maxValue) && TreeNode(|list|, lo, hi, h) && step == Pow2(h) && p == lo + step
    requires c.Writes(final, IcScript(list, maxValue, lo, hi, h) + rest)
    modifies c`low, c`high, c`underflow, c`bitsUsed, c.bitStream
    ensures c.Writes(final, rest)
    decreases h
  {
    hide RangeCoder.Writes;
    hide EntryScript;
    if lo >= |list| {
      assert IcScript(list, maxValue, lo, hi, h) + rest == rest;
      return;
    }
    ChildrenAreNodes(|list|, lo, hi, h);
    NodeSteps(|list|, lo, hi, step, h);
    ghost var here := EntryScript(list, maxValue, lo, p, hi);
    if step > 1 {
      ghost var left, right := IcScript(list, maxValue, lo, p, h - 1), IcScript(list, maxValue, p, hi, h - 1);
      ScriptOfParts(here, left, right, rest);
      IcEncodeEntry(list, maxValue, c, lo, p, hi, final, left + (right + rest));
      IcEncodeNode(list, maxValue, c, lo, p - step / 2, p, step / 2, h - 1, final, right + rest);
      IcEncodeNode(list, maxValue, c, p, p + step / 2, hi, step / 2, h - 1, final, rest);
    } else {
      assert here + [] == here;
      IcEncodeEntry(list, maxValue, c, lo, p, hi, final, rest);
    }
  }

  // The entries a node depends on have been decoded already.
  predicate NeighboursKnown(list: seq<int>, sent: seq<int>, lo: int, hi: int) {
    && |sent| <= |list|
    && (0 <= lo < |sent| ==> list[lo] == sent[lo])
    && (0 <= hi < |sent| ==> list[hi] == sent[hi])
  }

  // `after` is `before` with the entries strictly between lo and end taken from `sent`.
  predicate Filled(before: seq<int>, after: seq<int>, sent: seq<int>, lo: int, end: int) {
    && |after| == |before|
    && forall i :: 0 <= i < |after| ==>
         after[i] == if lo < i < |sent| && i < end then sent[i] else before[i]
  }

  lemma FilledAll(a: seq<int>, b: seq<int>, c: seq<int>, d: seq<int>, sent: seq<int>, lo: int, p: int, end: int)
    requires lo < p < end && |sent| <= |a|
    requires b == if 0 <= p < |sent| then a[p := sent[p]] else a
    requires Filled(b, c, sent, lo, p) && Filled(c, d, sent, p, end)
    ensures Filled(a, d, sent, lo, end)
  {
  }

  // Filling strictly between two neighbours leaves every other entry known.
  lemma StillKnown(before: seq<int>, after: seq<int>, sent: seq<int>, lo: int, end: int, i: int)
    requires |sent| <= |before| && Filled(before, after, sent, lo, end)
    requires 0 <= i < |sent| ==> before[i] == sent[i]
    ensures 0 <= i < |sent| ==> after[i] == sent[i]
  {
  }

  method IcDecodeEntry(list: array<int>, n: nat, maxValue: int, c: RangeCoder, lo: int, p: int, hi: int,
                       ghost sent: seq<int>, ghost rest: seq<Step>)
    requires Codable(sent, maxValue) && |sent| == n && -1 <= lo < p && lo < n && (p < n ==> p < hi)
    requires NeighboursKnown(list[..], sent, lo, hi) && list as object != c.bitStream
    requires c.Follows(EntryScript(sent, maxValue, lo, p, hi) + rest)
    modifies c`low, c`high, c`value, c`underflow, c`bitsUsed, c`decoding, list
    ensures c.Follows(rest)
    ensures list[..] == if 0 <= p < n then old(list[..])[p := sent[p]] else old(list[..])
  {
    hide RangeCoder.Follows;
    if p < n {
      EntryInRange(sent, maxValue, lo, p, hi);
      var docLow := if lo > -1 then list[lo] + 1 else 0;
      var docHigh := if hi < n then list[hi] - 1 else maxValue + (hi - n);
      docLow := docLow + (p - lo - 1);
      docHigh := docHigh - (hi - p - 1);
      var entry := BinaryDecode(docLow, docHigh, c, sent[p], rest);
      list[p] := entry;
    } else {
      assert EntryScript(sent, maxValue, lo, p, hi) + rest == rest;
    }
  }

  method IcDecodeNode(list: array<int>, n: nat, maxValue: int, c: RangeCoder, lo: int, p: int, hi: int, step: int,
                      ghost h: nat, ghost sent: seq<int>, ghost rest: seq<Step>)
    requires Codable(sent, maxValue) && |sent| == n
    requires TreeNode(n, lo, hi, h) && step == Pow2(h) && p == lo + step
    requires NeighboursKnown(list[..], sent, lo, hi) && list as object != c.bitStream
    requires c.Follows(IcScript(sent, maxValue, lo, hi, h) + rest)
    modifies c`low, c`high, c`value, c`underflow, c`bitsUsed, c`decoding, list
    ensures c.Follows(rest)
    ensures Filled(old(list[..]), list[..], sent, lo, End(lo, h))
    decreases h
  {
    hide RangeCoder.Follows;
    hide EntryScript;
    if lo >= n {
      assert IcScript(sent, maxValue, lo, hi, h) + rest == rest;
      return;
    }
    ChildrenAreNodes(n, lo, hi, h);
    NodeSteps(n, lo, hi, step, h);
    ghost var here := EntryScript(sent, maxValue, lo, p, hi);
    if step > 1 {
      ghost var left, right := IcScript(sent, maxValue, lo, p, h - 1), IcScript(sent, maxValue, p, hi, h - 1);
      ScriptOfParts(here, left, right, rest);
      ghost var l0 := list[..];
      IcDecodeEntry(list, n, maxValue, c, lo, p, hi, sent, left + (right + rest));
      ghost var l1 := list[..];
      IcDecodeNode(list, n, maxValue, c, lo, p - step / 2, p, step / 2, h - 1, sent, right + rest);
      ghost var l2 := list[..];
      StillKnown(l1, l2, sent, lo, p, p);
      StillKnown(l1, l2, sent, lo, p, hi);
      IcDecodeNode(list, n, maxValue, c, p, p + step / 2, hi, step / 2, h - 1, sent, rest);
      FilledAll(l0, l1, l2, list[..], sent, lo, p, End(lo, h));
    } else {
      assert here + [] == here;
      IcDecodeEntry(list, n, maxValue, c, lo, p, hi, sent, rest);
    }
  }

  // ---- Whole lists ----------------------------------------------------------------------------

  function Height(n: nat): (h: nat)
    requires n > 0
    ensures Pow2(h) <= n < Pow2(h + 1)
  {
    if n == 1 then 0 else Height(n / 2) + 1
  }

  lemma {:induction false} HeightUnique(n: nat, h: nat)
    requires Pow2(h) <= n < Pow2(h + 1)
    ensures n > 0 && h == Height(n)
    decreases h
  {
    if h > 0 {
      HeightUnique(n / 2, h - 1);
    }
  }

  function ListScript(list: seq<int>, maxValue: int): (r: seq<Step>)
    requires Codable(list, maxValue) && list != []
  {
    IcScript(list, maxValue, -1, |list| + 1, Height(|list|))
  }

  // Every index of the list is coded exactly once, after the neighbours that bound it; these are the
  // ones its own place in the tree gives it, and the left half of a node comes before the right one.
  lemma ListCodedOnce(n: nat, i: int)
    requires n > 0
    ensures Times(Visits(n, -1, n + 1, Height(n)), i) == if 0 <= i < n then 1 else 0
    ensures InOrder(n, {}, Visits(n, -1, n + 1, Height(n)))
    ensures forall v :: v in Visits(n, -1, n + 1, Height(n)) ==> Placed(n, v)
    ensures LeftFirst(Visits(n, -1, n + 1, Height(n)))
  {
    var visits := Visits(n, -1, n + 1, Height(n));
    AllPlaced(n, -1, n + 1, Height(n), 0);
    VisitsLeftFirst(n, -1, n + 1, Height(n), 0);
    VisitsOnce(n, -1, n + 1, Height(n), i);
    VisitsInOrder(n, {}, -1, n + 1, Height(n));
  }

  method IcEncode(list: seq<int>, maxValue: int, c: RangeCoder, ghost final: State, ghost rest: seq<Step>)
    requires Codable(list, maxValue) && 0 < |list| < MAXINT
    requires c.Writes(final, ListScript(list, maxValue) + rest)
    modifies c`low, c`high, c`underflow, c`bitsUsed, c.bitStream
    ensures c.Writes(final, rest)
  {
    hide RangeCoder.Writes;
    var powerOf2, h := BiggestPowerOf2(|list| + 1);
    HeightUnique(|list|, h);
    IcEncodeNode(list, maxValue, c, -1, powerOf2 - 1, |list| + 1, powerOf2, h, final, rest);
  }

  method IcDecode(list: array<int>, n: nat, maxValue: int, c: RangeCoder,
                  ghost sent: seq<int>, ghost rest: seq<Step>)
    requires Codable(sent, maxValue) && 0 < |sent| == n < MAXINT && n <= list.Length
    requires list as object != c.bitStream
    requires c.Follows(ListScript(sent, maxValue) + rest)
    modifies c`low, c`high, c`value, c`underflow, c`bitsUsed, c`decoding, list
    ensures c.Follows(rest)
    ensures list[..n] == sent && list[n..] == old(list[n..])
  {
    hide RangeCoder.Follows;
    var powerOf2, h := BiggestPowerOf2(n + 1);
    HeightUnique(n, h);
    IcDecodeNode(list, n, maxValue, c, -1, powerOf2 - 1, n + 1, powerOf2, h, sent, rest);
  }
}
