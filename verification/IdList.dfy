/** Sorting ID lists in place: mdb_midl_sort of lmdb/midl.c, a quicksort with an explicit stack that
    leaves small segments to insertion sort.  ids[0] holds the number of IDs, which follow it. */
module IdList {
  import opened Arith

  const SMALL := 8
  const STACK_SIZE := 64   // sizeof(int) * CHAR_BIT * 2
  const INT_LIMIT := 0x8000_0000

  // ---- Rearranging a segment --------------------------------------------------------------------

  // t is s with the elements of positions l to r rearranged.
  ghost predicate Rearranged(s: seq<nat>, t: seq<nat>, l: int, r: int) {
    && |s| == |t| && 0 <= l <= r + 1 <= |s|
    && s[..l] == t[..l] && s[r + 1..] == t[r + 1..]
    && multiset(s[l..r + 1]) == multiset(t[l..r + 1])
  }

  lemma RearrangedTwice(s: seq<nat>, t: seq<nat>, u: seq<nat>, l: int, r: int)
    requires Rearranged(s, t, l, r) && Rearranged(t, u, l, r)
    ensures Rearranged(s, u, l, r)
  {
  }

  lemma SwapRearranges(s: seq<nat>, l: int, r: int, i: int, j: int)
    requires 0 <= l <= i <= r < |s| && l <= j <= r
    ensures Rearranged(s, s[i := s[j]][j := s[i]], l, r)
  {
    var t := s[i := s[j]][j := s[i]];
    var seg := s[l..r + 1];
    assert t[l..r + 1] == seg[i - l := seg[j - l]][j - l := seg[i - l]];
  }

  // A part of a segment is rearranged, and so is the segment.
  lemma RearrangedWider(s: seq<nat>, t: seq<nat>, l: int, r: int, l': int, r': int)
    requires Rearranged(s, t, l, r) && 0 <= l' <= l && r <= r' < |s|
    ensures Rearranged(s, t, l', r')
  {
    assert s[l'..r' + 1] == s[l'..l] + s[l..r + 1] + s[r + 1..r' + 1];
    assert t[l'..r' + 1] == t[l'..l] + t[l..r + 1] + t[r + 1..r' + 1];
    assert s[l'..l] == s[..l][l'..] && t[l'..l] == t[..l][l'..];
    assert s[r + 1..r' + 1] == s[r + 1..][..r' - r] && t[r + 1..r' + 1] == t[r + 1..][..r' - r];
  }

  // Whatever holds of all elements of the segment still does.
  lemma RearrangedElement(s: seq<nat>, t: seq<nat>, l: int, r: int, q: int) returns (p: int)
    requires Rearranged(s, t, l, r) && l <= q <= r
    ensures l <= p <= r && t[q] == s[p]
  {
    var seg := s[l..r + 1];
    assert t[q] == t[l..r + 1][q - l];
    assert t[q] in multiset(seg);
    var k :| 0 <= k < |seg| && seg[k] == t[q];
    p := l + k;
  }

  lemma RearrangedOutside(s: seq<nat>, t: seq<nat>, l: int, r: int, q: int)
    requires Rearranged(s, t, l, r) && 0 <= q < |s| && !(l <= q <= r)
    ensures s[q] == t[q]
  {
  }

  // ---- Cuts -------------------------------------------------------------------------------------

  // No ID up to position c is smaller than one after it.
  ghost predicate Cut(s: seq<nat>, n: int, c: int) {
    forall p, q :: 1 <= p <= c < q <= n && q < |s| ==> s[p] >= s[q]
  }

  lemma CutKept(s: seq<nat>, t: seq<nat>, l: int, r: int, n: int, c: int)
    requires Rearranged(s, t, l, r) && 1 <= l && r <= n < |s| && Cut(s, n, c) && !(l <= c < r)
    ensures Cut(t, n, c)
  {
    forall p, q | 1 <= p <= c < q <= n
      ensures t[p] >= t[q]
    {
      var p', q' := p, q;
      if l <= p <= r {
        p' := RearrangedElement(s, t, l, r, p);
      } else {
        RearrangedOutside(s, t, l, r, p);
      }
      if l <= q <= r {
        q' := RearrangedElement(s, t, l, r, q);
      } else {
        RearrangedOutside(s, t, l, r, q);
      }
      assert s[p'] >= s[q'];
    }
  }

  ghost predicate Descending(s: seq<nat>, l: int, r: int)
    requires 0 <= l && r < |s|
  {
    forall p, q :: l <= p < q <= r ==> s[p] >= s[q]
  }

  lemma CutsDescend(s: seq<nat>, n: int)
    requires n < |s| && forall c :: 1 <= c < n ==> Cut(s, n, c)
    ensures Descending(s, 1, n)
  {
    forall p, q | 1 <= p < q <= n
      ensures s[p] >= s[q]
    {
      assert Cut(s, n, p);
    }
  }

  // ---- Insertion sort ---------------------------------------------------------------------------

  // A hole moves down: the element below it moves up.
  lemma ShiftRearranges(s: seq<nat>, l: int, r: int, i: int, a: nat)
    requires 0 <= l <= i < i + 1 <= r < |s|
    ensures Rearranged(s[i + 1 := a], s[i + 1 := s[i]][i := a], l, r)
  {
    var t := s[i + 1 := a];
    SwapRearranges(t, l, r, i, i + 1);
    assert t[i := t[i + 1]][i + 1 := t[i]] == s[i + 1 := s[i]][i := a];
  }

  // The state of an insertion: the elements above the hole have moved up, and are smaller than a.
  ghost predicate Inserting(s: seq<nat>, t: seq<nat>, l: int, j: int, i: int, a: nat) {
    && 1 <= l < j < |s| && l - 1 <= i < j && |t| == |s| && s[j] == a
    && Rearranged(s, t[i + 1 := a], l, j)
    && (forall p {:trigger t[p]} :: 0 <= p <= i ==> t[p] == s[p])
    && (forall p {:trigger t[p]} :: i + 2 <= p <= j ==> t[p] == s[p - 1] && s[p - 1] < a)
  }

  lemma InsertStart(s: seq<nat>, l: int, j: int)
    requires 1 <= l < j < |s|
    ensures Inserting(s, s, l, j, j - 1, s[j])
  {
  }

  // The element before the segment, if there is one, stops the loop.
  lemma InsertStays(s: seq<nat>, t: seq<nat>, l: int, j: int, i: int, a: nat)
    requires Inserting(s, t, l, j, i, a) && i >= 1 && t[i] < a && (l > 1 ==> s[l - 1] >= s[j])
    ensures l <= i
  {
  }

  lemma InsertStep(s: seq<nat>, t: seq<nat>, l: int, j: int, i: int, a: nat)
    requires Inserting(s, t, l, j, i, a) && l <= i && t[i] < a
    ensures Inserting(s, t[i + 1 := t[i]], l, j, i - 1, a)
  {
    hide Rearranged;
    ShiftRearranges(t, l, j, i, a);
    RearrangedTwice(s, t[i + 1 := a], t[i + 1 := t[i]][i := a], l, j);
    var u := t[i + 1 := t[i]];
    assert u[i - 1 + 1 := a] == u[i := a];
  }

  lemma InsertEnd(s: seq<nat>, t: seq<nat>, l: int, j: int, i: int, a: nat)
    requires Inserting(s, t, l, j, i, a) && Descending(s, l, j - 1) && (l <= i ==> t[i] >= a)
    ensures Descending(t[i + 1 := a], l, j) && Rearranged(s, t[i + 1 := a], l, j)
  {
  }

  method Insert(ids: array<nat>, l: int, j: int)
    requires 1 <= l < j < ids.Length && Descending(ids[..], l, j - 1)
    requires l > 1 ==> ids[l - 1] >= ids[j]
    modifies ids
    ensures Descending(ids[..], l, j) && Rearranged(old(ids[..]), ids[..], l, j)
  {
    hide Rearranged, Descending, Inserting;
    ghost var s := ids[..];
    var a := ids[j];
    var i := j - 1;
    InsertStart(s, l, j);
    while i >= 1
      invariant 0 <= i < j && Inserting(s, ids[..], l, j, i, a)
    {
      if ids[i] >= a {
        break;
      }
      ghost var t := ids[..];
      InsertStays(s, t, l, j, i, a);
      InsertStep(s, t, l, j, i, a);
      ids[i + 1] := ids[i];
      assert ids[..] == t[i + 1 := t[i]];
      i := i - 1;
    }
    ghost var t := ids[..];
    InsertEnd(s, t, l, j, i, a);
    ids[i + 1] := a;
    assert ids[..] == t[i + 1 := a];
  }

  method InsertionSort(ids: array<nat>, l: int, ir: int)
    requires 1 <= l <= ir + 1 <= ids.Length
    requires l > 1 ==> forall q :: l <= q <= ir ==> ids[l - 1] >= ids[q]
    modifies ids
    ensures Descending(ids[..], l, ir) && Rearranged(old(ids[..]), ids[..], l, ir)
  {
    ghost var s := ids[..];
    var j := l + 1;
    while j <= ir
      invariant l < j && (j <= ir + 1 || j == l + 1)
      invariant j - 1 < ids.Length ==> Descending(ids[..], l, j - 1)
      invariant Rearranged(s, ids[..], l, ir)
      invariant forall p :: j <= p <= ir ==> ids[p] == s[p]
      invariant l > 1 ==> ids[l - 1] == s[l - 1]
    {
      ghost var t := ids[..];
      Insert(ids, l, j);
      RearrangedWider(t, ids[..], l, j, l, ir);
      RearrangedTwice(s, t, ids[..], l, ir);
      forall p | 0 <= p < ids.Length && !(l <= p <= j)
        ensures ids[p] == t[p]
      {
        RearrangedOutside(t, ids[..], l, j, p);
      }
      j := j + 1;
    }
  }

  // ---- Partitioning -----------------------------------------------------------------------------

  // MIDL_SWAP
  method Swap(ids: array<nat>, i: int, j: int, ghost l: int, ghost r: int)
    requires 0 <= l <= i <= r < ids.Length && l <= j <= r
    modifies ids
    ensures ids[i] == old(ids[j]) && ids[j] == old(ids[i])
    ensures forall p :: 0 <= p < ids.Length && p != i && p != j ==> ids[p] == old(ids[p])
    ensures Rearranged(old(ids[..]), ids[..], l, r)
  {
    SwapRearranges(ids[..], l, r, i, j);
    ids[i], ids[j] := ids[j], ids[i];
    assert ids[..] == old(ids[..])[i := old(ids[j])][j := old(ids[i])];
  }

  // The median of the first, the middle and the last element is put second, between the others.
  method MedianOfThree(ids: array<nat>, l: int, ir: int)
    requires 1 <= l && ir < ids.Length && ir - l >= SMALL
    modifies ids
    ensures ids[l] >= ids[l + 1] >= ids[ir] && Rearranged(old(ids[..]), ids[..], l, ir)
  {
    hide Rearranged;
    var k := (l + ir) / 2;
    ghost var s := ids[..];
    Swap(ids, k, l + 1, l, ir);
    ghost var t := ids[..];
    if ids[l] < ids[ir] {
      Swap(ids, l, ir, l, ir);
      RearrangedTwice(s, t, ids[..], l, ir);
    }
    t := ids[..];
    if ids[l + 1] < ids[ir] {
      Swap(ids, l + 1, ir, l, ir);
      RearrangedTwice(s, t, ids[..], l, ir);
    }
    t := ids[..];
    if ids[l] < ids[l + 1] {
      Swap(ids, l, l + 1, l, ir);
      RearrangedTwice(s, t, ids[..], l, ir);
    }
  }

  // Elements from l on are at least a; elements down from ir are at most a.
  ghost predicate Above(s: seq<nat>, l: int, r: int, a: nat) {
    forall p :: l <= p < r && 0 <= p < |s| ==> s[p] >= a
  }

  ghost predicate Beneath(s: seq<nat>, l: int, r: int, a: nat) {
    forall p :: l < p <= r && 0 <= p < |s| ==> s[p] <= a
  }

  // The scan from the left; the last element stops it.
  method ScanUp(ids: array<nat>, l: int, from: int, ir: int, a: nat) returns (i: int)
    requires 0 <= l <= from < ir < ids.Length && ids[ir] <= a && Above(ids[..], l, from + 1, a)
    ensures from < i <= ir && ids[i] <= a && Above(ids[..], l, i, a)
  {
    i := from + 1;
    while ids[i] > a
      invariant from < i <= ir && Above(ids[..], l, i, a)
      decreases ir - i
    {
      i := i + 1;
    }
  }

  // The scan from the right; the second element stops it.
  method ScanDown(ids: array<nat>, l: int, from: int, ir: int, a: nat) returns (j: int)
    requires 0 <= l && l + 1 < from <= ir < ids.Length && ids[l + 1] >= a && Beneath(ids[..], from - 1, ir, a)
    ensures l + 1 <= j < from && ids[j] >= a && Beneath(ids[..], j, ir, a)
  {
    j := from - 1;
    while ids[j] < a
      invariant l + 1 <= j < from && Beneath(ids[..], j, ir, a)
      decreases j
    {
      j := j - 1;
    }
  }

  // Two elements on the wrong sides change places.
  method Exchange(ids: array<nat>, l: int, ir: int, i: int, j: int, a: nat)
    requires 0 <= l && l + 1 < i <= j <= ir < ids.Length && ids[l + 1] == a && ids[i] <= a <= ids[j]
    requires Above(ids[..], l, i, a) && Beneath(ids[..], j, ir, a)
    modifies ids
    ensures Rearranged(old(ids[..]), ids[..], l, ir) && ids[l + 1] == a
    ensures Above(ids[..], l, i + 1, a) && Beneath(ids[..], j - 1, ir, a)
  {
    hide Rearranged;
    Swap(ids, i, j, l, ir);
  }

  // ids[l + 1] = ids[j]; ids[j] = a
  method PlacePivot(ids: array<nat>, l: int, ir: int, i: int, j: int, a: nat)
    requires 0 <= l && l < j < i <= ir < ids.Length && ids[l + 1] == a <= ids[j]
    requires Above(ids[..], l, i, a) && Beneath(ids[..], j, ir, a)
    modifies ids
    ensures Rearranged(old(ids[..]), ids[..], l, ir)
    ensures Above(ids[..], l, i, ids[j]) && Beneath(ids[..], j - 1, ir, ids[j])
  {
    hide Rearranged;
    Swap(ids, l + 1, j, l, ir);
  }

  // The segment falls into elements at least as large as its new element j, others equal to it, and
  // elements from i on that are at most as large.
  method Partition(ids: array<nat>, l: int, ir: int) returns (i: int, j: int)
    requires 1 <= l && ir < ids.Length && ir - l >= SMALL
    modifies ids
    ensures Rearranged(old(ids[..]), ids[..], l, ir)
    ensures l < j < i <= ir
    ensures Above(ids[..], l, i, ids[j]) && Beneath(ids[..], j - 1, ir, ids[j])
  {
    hide Rearranged;
    ghost var s := ids[..];
    MedianOfThree(ids, l, ir);
    i, j := l + 1, ir;
    var a := ids[l + 1];
    while true
      invariant l + 1 <= i <= j <= ir && i < ir && ids[l + 1] == a
      invariant Rearranged(s, ids[..], l, ir)
      invariant Above(ids[..], l, i + 1, a) && Beneath(ids[..], j - 1, ir, a)
      invariant j > l + 1
      decreases j - i
    {
      i := ScanUp(ids, l, i, ir, a);
      j := ScanDown(ids, l, j, ir, a);
      if j < i {
        break;
      }
      ghost var t := ids[..];
      Exchange(ids, l, ir, i, j, a);
      RearrangedTwice(s, t, ids[..], l, ir);
    }
    ghost var t := ids[..];
    PlacePivot(ids, l, ir, i, j, a);
    RearrangedTwice(s, t, ids[..], l, ir);
  }

  // ---- The sort ---------------------------------------------------------------------------------

  // A segment still to be sorted.
  datatype Seg = Seg(l: int, r: int)

  ghost predicate Apart(a: Seg, b: Seg) {
    a.r < b.l || b.r < a.l
  }

  ghost predicate InSegment(a: Seg, c: int) {
    a.l <= c < a.r
  }

  ghost predicate InSome(segs: seq<Seg>, c: int) {
    exists t :: 0 <= t < |segs| && InSegment(segs[t], c)
  }

  // A segment within the list, cut off from the rest of it.
  ghost predicate CutOff(s: seq<nat>, n: int, a: Seg) {
    1 <= a.l <= a.r + 1 <= n + 1 && Cut(s, n, a.l - 1) && Cut(s, n, a.r)
  }

  // The list is in order but for the inside of the segments, the last of which is being sorted.
  ghost predicate Pending(s: seq<nat>, n: int, segs: seq<Seg>) {
    && n < |s|
    && (forall t :: 0 <= t < |segs| ==> CutOff(s, n, segs[t]))
    && (forall t, u :: 0 <= t < u < |segs| ==> Apart(segs[t], segs[u]))
    && (forall c :: 1 <= c < n && !InSome(segs, c) ==> Cut(s, n, c))
  }

  lemma PendingStart(s: seq<nat>, n: int)
    requires 0 <= n < |s|
    ensures Pending(s, n, [Seg(1, n)])
  {
    assert forall c :: 1 <= c < n ==> InSegment([Seg(1, n)][0], c);
  }

  lemma PendingEnd(s: seq<nat>, n: int)
    requires 0 <= n && Pending(s, n, [])
    ensures Descending(s, 1, n)
  {
    CutsDescend(s, n);
  }

  // A cut inside a segment: what lies on both sides of the segment follows from the segment's ends.
  lemma CutInside(s: seq<nat>, n: int, a: Seg, c: int)
    requires n < |s| && CutOff(s, n, a) && InSegment(a, c)
    requires forall p, q :: a.l <= p <= c < q <= a.r ==> s[p] >= s[q]
    ensures Cut(s, n, c)
  {
  }

  lemma CutOffKept(s: seq<nat>, t: seq<nat>, n: int, a: Seg, b: Seg)
    requires n < |s| && CutOff(s, n, a) && CutOff(s, n, b) && (a == b || Apart(a, b)) && Rearranged(s, t, a.l, a.r)
    ensures CutOff(t, n, b)
  {
    CutKept(s, t, a.l, a.r, n, b.l - 1);
    CutKept(s, t, a.l, a.r, n, b.r);
  }

  // Rearranging the last segment keeps everything outside it in order.
  lemma PendingKept(s: seq<nat>, t: seq<nat>, n: int, segs: seq<Seg>, a: Seg)
    requires Pending(s, n, segs + [a]) && Rearranged(s, t, a.l, a.r)
    ensures Pending(t, n, segs + [a])
  {
    var all := segs + [a];
    assert all[|segs|] == a;
    forall u | 0 <= u < |all|
      ensures CutOff(t, n, all[u])
    {
      CutOffKept(s, t, n, a, all[u]);
    }
    forall c | 1 <= c < n && !InSome(all, c)
      ensures Cut(t, n, c)
    {
      assert !InSegment(all[|segs|], c);
      CutKept(s, t, a.l, a.r, n, c);
    }
  }

  lemma PendingSorted(s: seq<nat>, n: int, segs: seq<Seg>, a: Seg)
    requires Pending(s, n, segs + [a]) && 0 <= a.l && a.r < |s| && Descending(s, a.l, a.r)
    ensures Pending(s, n, segs)
  {
    var all := segs + [a];
    assert all[|segs|] == a && forall t :: 0 <= t < |segs| ==> all[t] == segs[t];
    forall c | 1 <= c < n && !InSome(segs, c)
      ensures Cut(s, n, c)
    {
      if InSegment(a, c) {
        CutInside(s, n, a, c);
      } else {
        assert !InSome(all, c);
      }
    }
  }

  // A partitioned segment gives way to its two parts.
  lemma PendingSplit(s: seq<nat>, n: int, segs: seq<Seg>, a: Seg, i: int, j: int)
    requires Pending(s, n, segs + [a]) && 0 <= a.l < j < i <= a.r < |s|
    requires Above(s, a.l, i, s[j]) && Beneath(s, j - 1, a.r, s[j])
    ensures Pending(s, n, segs + [Seg(a.l, j - 1), Seg(i, a.r)]) && Pending(s, n, segs + [Seg(i, a.r), Seg(a.l, j - 1)])
  {
    var all := segs + [a];
    assert all[|segs|] == a && forall t :: 0 <= t < |segs| ==> all[t] == segs[t];
    forall c | j - 1 <= c < i
      ensures Cut(s, n, c)
    {
      CutInside(s, n, a, c);
    }
    var left, right := Seg(a.l, j - 1), Seg(i, a.r);
    forall t | 0 <= t < |segs|
      ensures Apart(segs[t], left) && Apart(segs[t], right)
    {
      assert Apart(all[t], all[|segs|]);
    }
    PendingParts(s, n, segs, a, left, right);
    PendingParts(s, n, segs, a, right, left);
  }

  lemma PendingParts(s: seq<nat>, n: int, segs: seq<Seg>, a: Seg, b: Seg, d: Seg)
    requires Pending(s, n, segs + [a]) && CutOff(s, n, b) && CutOff(s, n, d) && Apart(b, d)
    requires forall t :: 0 <= t < |segs| ==> Apart(segs[t], b) && Apart(segs[t], d)
    requires forall c :: InSegment(a, c) && !InSegment(b, c) && !InSegment(d, c) ==> Cut(s, n, c)
    ensures Pending(s, n, segs + [b, d])
  {
    var all, parts := segs + [a], segs + [b, d];
    assert all[|segs|] == a && parts[|segs|] == b && parts[|segs| + 1] == d;
    assert forall t :: 0 <= t < |segs| ==> all[t] == segs[t] == parts[t];
    forall c | 1 <= c < n && !InSome(parts, c)
      ensures Cut(s, n, c)
    {
      assert !InSegment(parts[|segs|], c) && !InSegment(parts[|segs| + 1], c);
      assert forall t :: 0 <= t < |segs| ==> !InSegment(parts[t], c);
      if !InSegment(a, c) {
        assert forall t :: 0 <= t < |all| ==> !InSegment(all[t], c);
      }
    }
  }

  // ---- How deep the stack gets --------------------------------------------------------------------

  ghost function Length(a: Seg): int {
    a.r - a.l + 1
  }

  // The first of the segments is at most as long as the list, and each split halves the bound.
  ghost predicate Halving(segs: seq<Seg>, n: int) {
    forall t :: 0 <= t < |segs| ==> Length(segs[t]) >= 0 && Length(segs[t]) * Pow2(t) <= n
  }

  lemma {:induction false} Pow2Grows(c: nat, d: nat)
    requires c <= d
    ensures Pow2(c) <= Pow2(d)
    decreases d
  {
    if c < d {
      Pow2Grows(c, d - 1);
    }
  }

  // A segment long enough to be split is not deep.
  lemma DepthBound(length: int, d: nat, n: int)
    requires SMALL < length && length * Pow2(d) <= n < INT_LIMIT
    ensures d < 28
  {
    Pow28();
    Pow2Grows(28, if d < 28 then 28 else d);
    MulLe(SMALL + 1, length, Pow2(d));
  }

  lemma Pow28()
    ensures Pow2(28) == 0x1000_0000
  {
    assert Pow2(8) == 256;
    assert Pow2(16) == 65536;
    assert Pow2(24) == 0x100_0000;
  }

  lemma HalvesBelow(big: int, small: int, a: int, p: int)
    requires big <= a && 2 * small <= a && 1 <= p
    ensures big * p <= a * p && small * (2 * p) <= a * p
  {
    MulLe(big, a, p);
    MulLe(2 * small, a, p);
  }

  lemma HalvingSplit(segs: seq<Seg>, a: Seg, big: Seg, small: Seg, n: int)
    requires Halving(segs + [a], n) && Length(big) >= Length(small) >= 0 && Length(big) + Length(small) < Length(a)
    ensures Halving(segs + [big, small], n)
  {
    var d := |segs|;
    assert (segs + [a])[d] == a && forall t :: 0 <= t < d ==> (segs + [a])[t] == (segs + [big, small])[t];
    HalvesBelow(Length(big), Length(small), Length(a), Pow2(d));
    assert Pow2(d + 1) == 2 * Pow2(d);
  }

  ghost function Weight(segs: seq<Seg>): int
    decreases |segs|
  {
    if segs == [] then 0 else Weight(segs[..|segs| - 1]) + 2 * Length(segs[|segs| - 1]) + 1
  }

  lemma WeightMore(segs: seq<Seg>, a: Seg)
    ensures Weight(segs + [a]) == Weight(segs) + 2 * Length(a) + 1
  {
  }

  lemma {:induction false} WeightPositive(segs: seq<Seg>, n: int)
    requires Halving(segs, n)
    ensures Weight(segs) >= 0
    decreases |segs|
  {
    if segs != [] {
      WeightPositive(segs[..|segs| - 1], n);
    }
  }

  // ---- The main loop ------------------------------------------------------------------------------

  // Everything about the segments that the loop keeps.
  ghost predicate Sorting(s: seq<nat>, t: seq<nat>, n: int, segs: seq<Seg>) {
    && 0 <= n < |t| && |s| == |t| && t[0] == s[0] && Rearranged(s, t, 1, n)
    && Pending(t, n, segs) && Halving(segs, n) && Weight(segs) >= 0
  }

  lemma SortStart(s: seq<nat>, n: int)
    requires 0 <= n < |s|
    ensures Sorting(s, s, n, [] + [Seg(1, n)])
  {
    PendingStart(s, n);
    var segs := [] + [Seg(1, n)];
    assert segs == [Seg(1, n)];
    assert Pow2(0) == 1 && Halving(segs, n);
    WeightPositive(segs, n);
  }

  lemma LastSegment(s: seq<nat>, t: seq<nat>, n: int, segs: seq<Seg>, a: Seg)
    requires Sorting(s, t, n, segs + [a]) && n < INT_LIMIT
    ensures 1 <= a.l <= a.r + 1 <= n + 1
    ensures a.l > 1 ==> forall q :: a.l <= q <= a.r ==> t[a.l - 1] >= t[q]
    ensures a.r - a.l >= SMALL ==> |segs| < 28
  {
    var all := segs + [a];
    assert all[|segs|] == a;
    assert CutOff(t, n, all[|segs|]);
    if a.r - a.l >= SMALL {
      DepthBound(Length(a), |segs|, n);
    }
  }

  lemma Outside(s: seq<nat>, t: seq<nat>, u: seq<nat>, n: int, segs: seq<Seg>, a: Seg)
    requires Sorting(s, t, n, segs + [a]) && 1 <= a.l <= a.r + 1 <= n + 1 && Rearranged(t, u, a.l, a.r)
    ensures |u| == |t| && u[0] == s[0] && Rearranged(s, u, 1, n) && Pending(u, n, segs + [a])
  {
    RearrangedWider(t, u, a.l, a.r, 1, n);
    RearrangedTwice(s, t, u, 1, n);
    RearrangedOutside(t, u, a.l, a.r, 0);
    PendingKept(t, u, n, segs, a);
  }

  lemma AfterSort(s: seq<nat>, t: seq<nat>, u: seq<nat>, n: int, segs: seq<Seg>, a: Seg)
    requires Sorting(s, t, n, segs + [a]) && 1 <= a.l <= a.r + 1 <= n + 1 && Rearranged(t, u, a.l, a.r)
    requires Descending(u, a.l, a.r)
    ensures Sorting(s, u, n, segs) && Weight(segs) < Weight(segs + [a])
    ensures segs == [] ==> Descending(u, 1, n)
  {
    Outside(s, t, u, n, segs, a);
    PendingSorted(u, n, segs, a);
    WeightMore(segs, a);
    assert forall k :: 0 <= k < |segs| ==> (segs + [a])[k] == segs[k];
    assert (segs + [a])[|segs|] == a;
    WeightPositive(segs, n);
    if segs == [] {
      PendingEnd(u, n);
    }
  }

  lemma AfterPartition(s: seq<nat>, t: seq<nat>, u: seq<nat>, n: int, segs: seq<Seg>, a: Seg, i: int, j: int, big: Seg,
      small: Seg)
    requires Sorting(s, t, n, segs + [a]) && 1 <= a.l <= a.r + 1 <= n + 1 && Rearranged(t, u, a.l, a.r)
    requires a.l < j < i <= a.r && Above(u, a.l, i, u[j]) && Beneath(u, j - 1, a.r, u[j])
    requires if a.r - i + 1 >= j - a.l then big == Seg(i, a.r) && small == Seg(a.l, j - 1)
             else big == Seg(a.l, j - 1) && small == Seg(i, a.r)
    ensures Sorting(s, u, n, segs + [big] + [small]) && Weight(segs + [big] + [small]) < Weight(segs + [a])
  {
    Outside(s, t, u, n, segs, a);
    PendingSplit(u, n, segs, a, i, j);
    HalvingSplit(segs, a, big, small, n);
    assert segs + [big] + [small] == segs + [big, small];
    WeightMore(segs, a);
    WeightMore(segs, big);
    WeightMore(segs + [big], small);
    WeightPositive(segs + [big, small], n);
  }

  // istack[1..jstack + 1] holds the ends of the segments, left end first; istack[0] is not used.
  ghost predicate Stacked(istack: seq<int>, jstack: int, segs: seq<Seg>) {
    && |istack| == STACK_SIZE && jstack == 2 * |segs| < STACK_SIZE
    && forall t :: 0 <= t < |segs| ==> istack[2 * t + 1] == segs[t].l && istack[2 * t + 2] == segs[t].r
  }

  // mdb_midl_sort
  method Sort(ids: array<nat>)
    requires 0 < ids.Length && ids[0] < ids.Length && ids[0] < INT_LIMIT
    modifies ids
    ensures ids[0] == old(ids[0]) && Descending(ids[..], 1, ids[0])
    ensures Rearranged(old(ids[..]), ids[..], 1, ids[0])
  {
    hide Rearranged, Pending, Descending, Halving, Weight, Above, Beneath, Pow2;
    var istack := new int[STACK_SIZE];
    ghost var s, n := ids[..], ids[0];
    var l, ir, jstack := 1, ids[0], 0;
    ghost var segs: seq<Seg> := [];
    SortStart(s, n);
    while true
      invariant Sorting(s, ids[..], n, segs + [Seg(l, ir)]) && Stacked(istack[..], jstack, segs)
      decreases Weight(segs + [Seg(l, ir)])
    {
      ghost var before, cur := ids[..], Seg(l, ir);
      LastSegment(s, before, n, segs, cur);
      if ir - l < SMALL {
        InsertionSort(ids, l, ir);
        AfterSort(s, before, ids[..], n, segs, cur);
        if jstack == 0 {
          break;
        }
        ir, l := istack[jstack], istack[jstack - 1];
        jstack := jstack - 2;
        ghost var rest := segs[..|segs| - 1];
        assert segs == rest + [Seg(l, ir)];
        segs := rest;
      } else {
        var i, j := Partition(ids, l, ir);
        jstack := jstack + 2;
        if ir - i + 1 >= j - l {
          AfterPartition(s, before, ids[..], n, segs, cur, i, j, Seg(i, ir), Seg(l, j - 1));
          istack[jstack], istack[jstack - 1] := ir, i;
          segs := segs + [Seg(i, ir)];
          ir := j - 1;
        } else {
          AfterPartition(s, before, ids[..], n, segs, cur, i, j, Seg(l, j - 1), Seg(i, ir));
          istack[jstack], istack[jstack - 1] := j - 1, l;
          segs := segs + [Seg(l, j - 1)];
          l := i;
        }
      }
    }
  }

  // ---- Searching and merging sorted lists -------------------------------------------------------

  // mdb_midl_search: the position of the ID, or the first position of a smaller one.
  method Search(ids: array<nat>, id: nat) returns (cursor: nat)
    requires 0 < ids.Length && ids[0] < ids.Length && Descending(ids[..], 1, ids[0])
    ensures 1 <= cursor <= ids[0] + 1
    ensures (exists p :: 1 <= p <= ids[0] && ids[p] == id) ==> cursor <= ids[0] && ids[cursor] == id
    ensures (forall p :: 1 <= p <= ids[0] ==> ids[p] != id) ==>
              (forall p :: 1 <= p < cursor ==> ids[p] > id) && (forall p :: cursor <= p <= ids[0] ==> ids[p] < id)
  {
    var base, val, n := 0, 0, ids[0];
    cursor := 1;
    while 0 < n
      invariant base + n <= ids[0]
      invariant forall p :: 1 <= p <= base ==> ids[p] > id
      invariant forall p :: base + n < p <= ids[0] ==> ids[p] < id
      invariant if val > 0 then cursor == base else if val < 0 then cursor == base + n + 1 else cursor == 1 && base == 0
      invariant cursor >= 1
      invariant val == 0 ==> n == ids[0]
    {
      var pivot := n / 2;
      cursor := base + pivot + 1;
      val := if ids[cursor] < id then -1 else if ids[cursor] > id then 1 else 0;
      if val < 0 {
        n := pivot;
      } else if val > 0 {
        base := cursor;
        n := n - (pivot + 1);
      } else {
        return;
      }
    }
    if val > 0 {
      cursor := cursor + 1;
    }
  }

  const ID_MAX: nat := 0xFFFF_FFFF_FFFF_FFFF   // (MDB_ID) -1

  // A list of IDs begins with its length.
  function Ids(s: seq<nat>): seq<nat>
    requires 0 < |s| && s[0] < |s|
  {
    s[1..s[0] + 1]
  }

  // mdb_midl_xmerge: the list takes in the other one, from the back, in the room that it has.
  method XMerge(idl: array<nat>, merge: array<nat>)
    requires idl != merge && 0 < idl.Length && 0 < merge.Length && merge[0] < merge.Length
    requires idl[0] + merge[0] < idl.Length
    requires Descending(idl[..], 1, idl[0]) && Descending(merge[..], 1, merge[0])
    requires forall p :: 1 <= p <= merge[0] ==> merge[p] <= ID_MAX
    modifies idl
    ensures idl[0] == old(idl[0]) + merge[0] && Descending(idl[..], 1, idl[0])
    ensures multiset(Ids(idl[..])) == multiset(Ids(old(idl[..]))) + multiset(Ids(merge[..]))
    ensures idl[..][idl[0] + 1..] == old(idl[..])[idl[0] + 1..]
  {
    hide Merged, Counted, Descending, Ids;
    ghost var own := idl[..];
    var i: nat, j: nat := merge[0], idl[0];
    var total: nat := i + j;
    var k := total;
    MergeStarts(own, merge[..]);
    idl[0] := ID_MAX;
    assert idl[..] == own[0 := ID_MAX];
    var oldId := idl[j];
    while i > 0
      invariant 0 <= i < merge.Length && 0 <= j <= k == i + j <= total < idl.Length && oldId == idl[j]
      invariant Merged(own, idl[..], merge[..], i, j) && Counted(own, idl[..], merge[..], i, j)
    {
      j, k, oldId := MergeOne(own, idl, merge, i, j, k);
      i := i - 1;
    }
    FinishMerge(own, idl, merge, j, total);
  }

  // The next ID of the other list takes its place.
  method MergeOne(ghost own: seq<nat>, idl: array<nat>, merge: array<nat>, i: nat, j0: nat, k0: nat)
    returns (j: nat, k: nat, oldId: nat)
    requires idl != merge && 1 <= i < merge.Length && k0 == i + j0 < idl.Length
    requires Merged(own, idl[..], merge[..], i, j0) && Counted(own, idl[..], merge[..], i, j0)
    modifies idl
    ensures k == i - 1 + j <= k0 && j < idl.Length && oldId == idl[j]
    ensures Merged(own, idl[..], merge[..], i - 1, j) && Counted(own, idl[..], merge[..], i - 1, j)
  {
    hide Merged, Counted, Descending;
    j, k, oldId := MoveSmaller(own, idl, merge, i, j0, k0, merge[i]);
    ghost var before := idl[..];
    TakeMerged(own, before, merge[..], i, j);
    idl[k] := merge[i];
    assert idl[..] == before[k := merge[i]];
    k := k - 1;
    oldId := idl[j];
  }

  // The inner loop: the list's own IDs that are smaller than the next one to be merged move up.
  method MoveSmaller(ghost own: seq<nat>, idl: array<nat>, merge: array<nat>, i: nat, j0: nat, k0: nat, mergeId: nat)
    returns (j: nat, k: nat, oldId: nat)
    requires idl != merge && 1 <= i < merge.Length && k0 == i + j0 < idl.Length && mergeId == merge[i]
    requires Merged(own, idl[..], merge[..], i, j0) && Counted(own, idl[..], merge[..], i, j0)
    modifies idl
    ensures j < k == i + j <= k0 && oldId == idl[j] >= mergeId
    ensures Merged(own, idl[..], merge[..], i, j) && Counted(own, idl[..], merge[..], i, j)
  {
    hide Merged, Counted, Descending;
    j, k := j0, k0;
    oldId := idl[j];
    while oldId < mergeId
      invariant j < k == i + j <= k0 && oldId == idl[j]
      invariant Merged(own, idl[..], merge[..], i, j) && Counted(own, idl[..], merge[..], i, j)
      decreases j
    {
      ghost var before := idl[..];
      TakeOwn(own, before, merge[..], i, j);
      idl[k] := oldId;
      assert idl[..] == before[k := oldId];
      k := k - 1;
      j := j - 1;
      oldId := idl[j];
    }
  }

  method FinishMerge(ghost own: seq<nat>, idl: array<nat>, merge: array<nat>, ghost j: nat, total: nat)
    requires idl != merge && Merged(own, idl[..], merge[..], 0, j) && Counted(own, idl[..], merge[..], 0, j)
    requires 0 < |own| && 0 < merge.Length && total == own[0] + merge[0]
    modifies idl
    ensures 0 < idl.Length == |own| && idl[0] == total < idl.Length && merge[0] < merge.Length &&
            Descending(idl[..], 1, total)
    ensures multiset(Ids(idl[..])) == multiset(Ids(own)) + multiset(Ids(merge[..]))
    ensures idl[..][total + 1..] == own[total + 1..]
  {
    hide Descending;
    ghost var before := idl[..];
    MergeEnds(own, before, merge[..], j);
    idl[0] := total;
    assert idl[..] == before[0 := total];
  }

  // The positions after i + j are final: they hold the smallest elements of both lists, in order.
  ghost predicate Merged(own: seq<nat>, s: seq<nat>, m: seq<nat>, i: int, j: int) {
    && 0 < |own| == |s| && 0 < |m| && 0 <= i <= m[0] < |m| && 0 <= j <= own[0] && own[0] + m[0] < |s|
    && s[0] == ID_MAX && (forall p :: 1 <= p <= m[0] ==> m[p] <= ID_MAX)
    && (forall p :: 1 <= p <= j ==> s[p] == own[p])
    && (forall p :: own[0] + m[0] < p < |s| ==> s[p] == own[p])
    && Descending(own, 1, own[0]) && Descending(m, 1, m[0]) && Descending(s, i + j + 1, own[0] + m[0])
    && (forall p, q :: 1 <= p <= j && i + j < q <= own[0] + m[0] ==> own[p] >= s[q])
    && (forall p, q :: 1 <= p <= i && i + j < q <= own[0] + m[0] ==> m[p] >= s[q])
  }

  // No ID is lost or added.
  ghost predicate Counted(own: seq<nat>, s: seq<nat>, m: seq<nat>, i: int, j: int) {
    && 0 < |own| == |s| && 0 < |m| && 0 <= i <= m[0] < |m| && 0 <= j <= own[0] && own[0] + m[0] < |s|
    && multiset(own[1..j + 1]) + multiset(m[1..i + 1]) + multiset(s[i + j + 1..own[0] + m[0] + 1]) ==
       multiset(own[1..own[0] + 1]) + multiset(m[1..m[0] + 1])
  }

  lemma MergeStarts(own: seq<nat>, m: seq<nat>)
    requires 0 < |own| && 0 < |m| && m[0] < |m| && own[0] + m[0] < |own|
    requires Descending(own, 1, own[0]) && Descending(m, 1, m[0]) && forall p :: 1 <= p <= m[0] ==> m[p] <= ID_MAX
    ensures Merged(own, own[0 := ID_MAX], m, m[0], own[0]) && Counted(own, own[0 := ID_MAX], m, m[0], own[0])
  {
  }

  lemma TakeOwn(own: seq<nat>, s: seq<nat>, m: seq<nat>, i: int, j: int)
    requires Merged(own, s, m, i, j) && Counted(own, s, m, i, j) && 1 <= i && s[j] < m[i]
    ensures 1 <= j
    ensures Merged(own, s[i + j := s[j]], m, i, j - 1) && Counted(own, s[i + j := s[j]], m, i, j - 1)
  {
    hide Merged, Descending;
    OwnOrder(own, s, m, i, j);
    var t := s[i + j := own[j]];
    assert t[i + j..own[0] + m[0] + 1] == [own[j]] + s[i + j + 1..own[0] + m[0] + 1];
    assert own[1..j + 1] == own[1..j] + [own[j]];
  }

  lemma OwnOrder(own: seq<nat>, s: seq<nat>, m: seq<nat>, i: int, j: int)
    requires Merged(own, s, m, i, j) && 1 <= i && s[j] < m[i]
    ensures 1 <= j <= own[0] && own[0] < |own| == |s| && s[j] == own[j] && i + j < |s| && i + j <= own[0] + m[0] < |s|
    ensures Merged(own, s[i + j := s[j]], m, i, j - 1)
  {
  }

  lemma TakeMerged(own: seq<nat>, s: seq<nat>, m: seq<nat>, i: int, j: int)
    requires Merged(own, s, m, i, j) && Counted(own, s, m, i, j) && 1 <= i && s[j] >= m[i]
    ensures Merged(own, s[i + j := m[i]], m, i - 1, j) && Counted(own, s[i + j := m[i]], m, i - 1, j)
  {
    hide Merged, Descending;
    MergedOrder(own, s, m, i, j);
    var t := s[i + j := m[i]];
    assert t[i + j..own[0] + m[0] + 1] == [m[i]] + s[i + j + 1..own[0] + m[0] + 1];
    assert m[1..i + 1] == m[1..i] + [m[i]];
  }

  lemma MergedOrder(own: seq<nat>, s: seq<nat>, m: seq<nat>, i: int, j: int)
    requires Merged(own, s, m, i, j) && 1 <= i && s[j] >= m[i]
    ensures 0 <= j && i + j < |s| == |own| && i + j <= own[0] + m[0] < |s| && i <= m[0] < |m|
    ensures Merged(own, s[i + j := m[i]], m, i - 1, j)
  {
  }

  lemma MergeEnds(own: seq<nat>, s: seq<nat>, m: seq<nat>, j: int)
    requires Merged(own, s, m, 0, j) && Counted(own, s, m, 0, j)
    ensures var (t, total) := (s[0 := own[0] + m[0]], own[0] + m[0]);
            && Descending(t, 1, total) && t[total + 1..] == own[total + 1..]
            && multiset(Ids(t)) == multiset(Ids(own)) + multiset(Ids(m))
  {
    hide Merged, Descending;
    MergedInOrder(own, s, m, j);
    var t, total := s[0 := own[0] + m[0]], own[0] + m[0];
    assert t[1..total + 1] == own[1..j + 1] + s[j + 1..total + 1];
    assert m[1..1] == [];
  }

  lemma MergedInOrder(own: seq<nat>, s: seq<nat>, m: seq<nat>, j: int)
    requires Merged(own, s, m, 0, j)
    ensures 0 < |own| == |s| && 0 <= j <= own[0] && own[0] + m[0] < |s| && forall p :: 1 <= p <= j ==> s[p] == own[p]
    ensures var (t, total) := (s[0 := own[0] + m[0]], own[0] + m[0]);
            Descending(t, 1, total) && t[total + 1..] == own[total + 1..]
  {
  }
}
