/** A family of keys of any size up to 2^32 among which no summary stands for the next key. */
module SyncIndexed {
  import opened Arith
  import opened SyncKey
  import opened SyncTrie
  import opened SyncSearch
  import opened SyncPeer
  import opened SyncReceive
  import opened SyncSafety
  import opened SyncConfusion
  import opened SyncNetwork
  import opened SyncExact

  const LIMIT := 0x1_0000_0000

  // ---- Numbers as keys --------------------------------------------------------------------------

  // Bit i of a 32-bit number, the highest first.
  predicate Bit(n: nat, i: int)
    requires 0 <= i < 32
  {
    n / Pow2(31 - i) % 2 == 1
  }

  // The number itself, followed by its difference from the next: over an interval of numbers the
  // differences telescope.
  function Numbered(n: nat): Key {
    seq(KEY_BITS, i requires 0 <= i < KEY_BITS => if i < 32 then Bit(n, i) else Bit(n, i - 32) != Bit(n + 1, i - 32))
  }

  predicate SameBits(x: nat, y: nat, n: int) {
    forall i :: 0 <= i < n && i < 32 ==> Bit(x, i) == Bit(y, i)
  }

  lemma {:induction false} SameTop(x: nat, y: nat, n: nat)
    requires x < LIMIT && y < LIMIT && n <= 32 && SameBits(x, y, n)
    ensures x / Pow2(32 - n) == y / Pow2(32 - n)
    decreases n
  {
    if n == 0 {
      Power32();
      QuotientUnique(x, Pow2(32), 0, x);
      QuotientUnique(y, Pow2(32), 0, y);
    } else {
      SameTop(x, y, n - 1);
      DivDouble(x, Pow2(32 - n));
      DivDouble(y, Pow2(32 - n));
      assert Pow2(33 - n) == 2 * Pow2(32 - n);
      assert Bit(x, n - 1) == Bit(y, n - 1);
    }
  }

  lemma Power32()
    ensures Pow2(32) == LIMIT
  {
    assert Pow2(8) == 0x100;
    assert Pow2(16) == 0x1_0000;
    assert Pow2(24) == 0x100_0000;
  }

  lemma SameNumber(x: nat, y: nat)
    requires x < LIMIT && y < LIMIT && SameBits(x, y, 32)
    ensures x == y
  {
    SameTop(x, y, 32);
    assert Pow2(0) == 1;
  }

  // Numbers are ordered by the first bit at which they differ.
  lemma FirstBitOrders(x: nat, y: nat, n: nat)
    requires x < LIMIT && y < LIMIT && n < 32 && SameBits(x, y, n) && !Bit(x, n) && Bit(y, n)
    ensures x < y
  {
    SameTop(x, y, n);
    DivDouble(x, Pow2(31 - n));
    DivDouble(y, Pow2(31 - n));
    assert Pow2(32 - n) == 2 * Pow2(31 - n);
    var p, a, b := Pow2(31 - n), x / Pow2(31 - n), y / Pow2(31 - n);
    assert a + 1 == b;
    DivBounds(x, p);
    DivBounds(y, p);
  }

  // A number and the odd one after it differ in the last bit only.
  lemma OddSuccessor(x: nat)
    requires x % 2 == 0 && x + 1 < LIMIT
    ensures SameBits(x, x + 1, 31) && !Bit(x, 31) && Bit(x + 1, 31)
  {
    assert Pow2(0) == 1;
    forall i | 0 <= i < 31
      ensures Bit(x, i) == Bit(x + 1, i)
    {
      var p := Pow2(30 - i);
      assert Pow2(31 - i) == 2 * p;
      HalfFirst(x, p);
      HalfFirst(x + 1, p);
      assert x / 2 == (x + 1) / 2;
    }
  }

  lemma HalfFirst(x: nat, p: int)
    requires p > 0
    ensures x / (2 * p) == x / 2 / p
  {
    var h, q, s := x / 2, x / 2 / p, x / 2 % p;
    assert h == q * p + s;
    assert q * (2 * p) == 2 * (q * p);
    QuotientUnique(x, 2 * p, q, 2 * s + x % 2);
  }

  lemma NumberedBits(x: nat, y: nat, n: int)
    requires n <= 32
    ensures Agree(Numbered(x), Numbered(y), n) <==> SameBits(x, y, n)
    ensures forall i :: 0 <= i < 32 ==> Numbered(x)[i] == Bit(x, i)
    ensures forall i :: 0 <= i < 32 ==> Numbered(x)[32 + i] == (Bit(x, i) != Bit(x + 1, i))
  {
    hide Bit;
    var a, b := Numbered(x), Numbered(y);
    assert forall i :: 0 <= i < 32 ==> a[i] == Bit(x, i) && b[i] == Bit(y, i);
    if Agree(a, b, n) {
      forall i | 0 <= i < n
        ensures Bit(x, i) == Bit(y, i)
      {
        assert a[i] == b[i];
      }
    }
  }

  // ---- Tries over intervals ---------------------------------------------------------------------

  ghost function Interval(a: nat, b: nat): set<Key> {
    set n | a <= n < b :: Numbered(n)
  }

  lemma NumberedApart(x: nat, y: nat)
    requires x < LIMIT && y < LIMIT
    ensures Apart(Numbered(x), Numbered(y)) && (Numbered(x) == Numbered(y) ==> x == y)
  {
    NumberedBits(x, y, 32);
    if x != y && Agree(Numbered(x), Numbered(y), KEY_BITS - 1) {
      assert Agree(Numbered(x), Numbered(y), 32);
      SameNumber(x, y);
    }
    if Numbered(x) == Numbered(y) {
      AgreeReflexive(Numbered(x), 32);
      SameNumber(x, y);
    }
  }

  lemma InInterval(n: nat, a: nat, b: nat)
    requires n < LIMIT && b <= LIMIT
    ensures Numbered(n) in Interval(a, b) <==> a <= n < b
  {
    if Numbered(n) in Interval(a, b) {
      var k: nat :| a <= k < b && Numbered(n) == Numbered(k);
      NumberedApart(n, k);
    }
  }

  // Two sets that divide an interval in order are intervals.
  lemma Cut(zero: set<Key>, one: set<Key>, a: nat, b: nat) returns (c: nat)
    requires zero + one == Interval(a, b) && zero !! one && zero != {} && one != {}
    requires forall x: nat, y: nat :: x < b && y < b && Numbered(x) in zero && Numbered(y) in one ==> x < y
    ensures a < c < b && zero == Interval(a, c) && one == Interval(c, b)
    ensures Numbered(c) in one && Numbered(c - 1) in zero
  {
    hide Numbered;
    var z :| z in zero;
    var o :| o in one;
    var x: nat :| a <= x < b && z == Numbered(x);
    var y: nat :| a <= y < b && o == Numbered(y);
    c := a;
    while Numbered(c) in zero
      invariant a <= c <= y && forall i: nat :: a <= i < c ==> Numbered(i) in zero
      decreases b - c
    {
      assert c != y;
      c := c + 1;
    }
    assert Numbered(c) in one;
    forall i: nat | c <= i < b
      ensures Numbered(i) in one
    {
      assert Numbered(i) in zero + one;
    }
    assert forall k :: k in zero ==> k in Interval(a, b) && k !in one;
    assert forall k :: k in one ==> k in Interval(a, b) && k !in zero;
  }

  // The children of a node over an interval divide it; unless they are leaves, at an even number.
  lemma Divided(t: Trie, min: int, a: nat, b: nat) returns (c: nat)
    requires WF(t, min) && !IsLeaf(t) && Keys(t) == Interval(a, b) && b <= LIMIT
    ensures a < c < b && t.Node? && 0 <= t.msg.plen < 32
    ensures Keys(t.zero) == Interval(a, c) && Keys(t.one) == Interval(c, b)
    ensures t.msg.plen < 31 ==> c % 2 == 0
  {
    hide Numbered, Interval, Bit, Agree, Under, SameFrom, XorAll, Leaves;
    var n := t.msg.plen;
    NodeParts(t, min);
    HalvesDisjoint(t, min);
    KeysNonEmpty(t.zero, n + 1);
    KeysNonEmpty(t.one, n + 1);
    ShortPrefix(t, min, a, b);
    forall x: nat, y: nat | x < b && y < b && Numbered(x) in Keys(t.zero) && Numbered(y) in Keys(t.one)
      ensures x < y
    {
      Ordered(t, min, x, y);
    }
    c := Cut(Keys(t.zero), Keys(t.one), a, b);
    PartAtPrefix(t, min, c - 1, c);
    if n < 31 && c % 2 == 1 {
      OddSuccessor(c - 1);
    }
  }

  lemma ShortPrefix(t: Trie, min: int, a: nat, b: nat)
    requires WF(t, min) && !IsLeaf(t) && Keys(t) == Interval(a, b) && b <= LIMIT
    ensures 0 <= t.msg.plen < 32
  {
    NodeParts(t, min);
    var x, y := TwoKeys(t, min);
    var i: nat :| a <= i < b && x == Numbered(i);
    var j: nat :| a <= j < b && y == Numbered(j);
    if t.msg.plen >= 32 {
      assert Agree(y, x, 32);
      NumberedBits(j, i, 32);
      SameNumber(i, j);
    }
  }

  lemma PartAtPrefix(t: Trie, min: int, x: nat, y: nat)
    requires WF(t, min) && !IsLeaf(t) && t.msg.plen < 32
    requires Numbered(x) in Keys(t.zero) && Numbered(y) in Keys(t.one)
    ensures SameBits(x, y, t.msg.plen) && !Bit(x, t.msg.plen) && Bit(y, t.msg.plen)
  {
    NodeParts(t, min);
    NumberedBits(x, y, t.msg.plen);
    NumberedBits(y, x, t.msg.plen);
    assert Agree(Numbered(x), t.msg.key, t.msg.plen) && Agree(Numbered(y), t.msg.key, t.msg.plen);
  }

  lemma Ordered(t: Trie, min: int, x: nat, y: nat)
    requires WF(t, min) && !IsLeaf(t) && t.msg.plen < 32 && x < LIMIT && y < LIMIT
    requires Numbered(x) in Keys(t.zero) && Numbered(y) in Keys(t.one)
    ensures x < y
  {
    PartAtPrefix(t, min, x, y);
    FirstBitOrders(x, y, t.msg.plen);
  }

  // The xor of the second halves telescopes.
  predicate Tail(key: Key, a: nat, b: nat) {
    forall i :: 0 <= i < 32 ==> key[32 + i] == (Bit(a, i) != Bit(b, i))
  }

  lemma {:induction false} TailOfInterval(t: Trie, min: int, a: nat, b: nat)
    requires WF(t, min) && Keys(t) == Interval(a, b) && a < b <= LIMIT
    ensures Tail(XorAll(t), a, b)
    decreases t
  {
    hide Bit, Agree, Under, SameFrom, Numbered, Interval;
    if IsLeaf(t) {
      OneNumber(t, a, b);
    } else {
      var c := Divided(t, min, a, b);
      NodeParts(t, min);
      TailOfInterval(t.zero, t.msg.plen + 1, a, c);
      TailOfInterval(t.one, t.msg.plen + 1, c, b);
    }
  }

  lemma OneNumber(t: Trie, a: nat, b: nat)
    requires IsLeaf(t) && Keys(t) == Interval(a, b) && a < b <= LIMIT
    ensures b == a + 1 && XorAll(t) == Numbered(a) && Tail(XorAll(t), a, b)
  {
    hide Bit;
    assert Numbered(a) in Keys(t) && Numbered(b - 1) in Keys(t);
    LeafHolds(t, Numbered(a));
    NumberedApart(a, b - 1);
  }

  // In a trie over the first n numbers a summary stands for an interval that begins at an even number
  // and ends at n or at an even number.
  lemma {:induction false} SummaryInterval(s: Trie, t: Trie, min: int, a: nat, b: nat, n: nat) returns (x: nat, y: nat)
    requires WF(t, min) && Keys(t) == Interval(a, b) && a < b <= LIMIT
    requires IsInner(t) ==> a % 2 == 0 && (b == n || b % 2 == 0)
    requires Below(s, t) && IsInner(s)
    ensures a <= x && x + 1 < y <= b && x % 2 == 0 && (y == n || y % 2 == 0)
    ensures 0 <= s.msg.plen < 32 && Tail(s.msg.key, x, y)
    decreases t
  {
    hide Bit, Agree, Under, Numbered, Interval, Tail;
    var c := Divided(t, min, a, b);
    NodeParts(t, min);
    if s == t {
      x, y := a, b;
      TailOfInterval(t, min, a, b);
      TailSame(t.msg.key, XorAll(t), t.msg.plen, a, b);
    } else if Below(s, t.zero) {
      InnerChild(t, min, false, a, c);
      x, y := SummaryInterval(s, t.zero, t.msg.plen + 1, a, c, n);
    } else {
      InnerChild(t, min, true, c, b);
      x, y := SummaryInterval(s, t.one, t.msg.plen + 1, c, b, n);
    }
  }

  lemma InnerChild(t: Trie, min: int, bit: bool, a: nat, b: nat)
    requires WF(t, min) && !IsLeaf(t) && Keys(Child(t, bit)) == Interval(a, b) && b <= LIMIT
    ensures IsInner(Child(t, bit)) ==> t.msg.plen < 31
  {
    NodeParts(t, min);
    if IsInner(Child(t, bit)) {
      ShortPrefix(Child(t, bit), t.msg.plen + 1, a, b);
    }
  }

  lemma TailSame(a: Key, b: Key, n: int, x: nat, y: nat)
    requires 0 <= n <= 32 && SameFrom(a, b, n) && Tail(b, x, y)
    ensures Tail(a, x, y)
  {
  }

  lemma SameRest(a: Message, b: Message)
    requires ValidMessage(a) && ValidMessage(b) && SameMessage(a, b) && XorBegin(a) <= 32 && XorBegin(b) <= 32
    ensures forall i :: 32 <= i < KEY_BITS ==> a.key[i] == b.key[i]
  {
    var common, begin := Min(a.plen, b.plen), Max(XorBegin(a), XorBegin(b));
    if common < begin {
      var from := (begin + 7) / 8 * 8;
      forall i | 32 <= i < KEY_BITS
        ensures a.key[i] == b.key[i]
      {
        assert a.key[from..][i - from] == b.key[from..][i - from];
      }
    }
  }

  // No summary over the first n numbers stands for the next one.
  lemma NextIsClear(t: Trie, n: nat, m: Message, p: int)
    requires WFRoot(t) && Keys(t) == Interval(0, n) && n + 1 < LIMIT
    requires ValidMessage(m) && m.plen == KEY_BITS && m.min <= 32 && m.key == Numbered(n)
    ensures !CollidesFrom(t, p, m) && !Collides(t, m)
  {
    forall s, q: int
      ensures !Matches(s, t, q, m)
    {
      if t.Node? && Below(s, t) && IsInner(s) && ValidMessage(s.msg) {
        StandsForNext(s, t, n, m);
      }
    }
  }

  lemma StandsForNext(s: Trie, t: Trie, n: nat, m: Message)
    requires WF(t, 0) && Keys(t) == Interval(0, n) && n + 1 < LIMIT && Below(s, t) && IsInner(s) && ValidMessage(s.msg)
    requires ValidMessage(m) && m.plen == KEY_BITS && m.min <= 32 && m.key == Numbered(n)
    ensures !SameMessage(s.msg, m)
  {
    if SameMessage(s.msg, m) {
      NonEmptyInterval(t, n);
      var x, y := SummaryInterval(s, t, 0, 0, n, n);
      SameRest(s.msg, m);
      NumberedBits(n, n, 0);
      TailsDiffer(s.msg.key, m.key, x, y, n);
    }
  }

  lemma NonEmptyInterval(t: Trie, n: nat)
    requires WF(t, 0) && Keys(t) == Interval(0, n)
    ensures n > 0
  {
    KeysNonEmpty(t, 0);
  }

  lemma TailsDiffer(a: Key, b: Key, x: nat, y: nat, n: nat)
    requires Tail(a, x, y) && Tail(b, n, n + 1) && x + 1 < y <= n && n + 1 < LIMIT
    requires x % 2 == 0 && (y == n || y % 2 == 0)
    ensures exists i :: 32 <= i < KEY_BITS && a[i] != b[i]
  {
    if y == n {
      if SameBits(x, n + 1, 32) {
        SameNumber(x, n + 1);
      }
      var i :| 0 <= i < 32 && Bit(x, i) != Bit(n + 1, i);
      assert a[32 + i] != b[32 + i];
    } else {
      LastBit(x);
      LastBit(y);
      LastBit(n);
      LastBit(n + 1);
      assert a[32 + 31] != b[32 + 31];
    }
  }

  lemma LastBit(n: nat)
    ensures Bit(n, 31) <==> n % 2 == 1
  {
    assert Pow2(0) == 1;
  }

  // ---- What that gives for any number of keys ---------------------------------------------------

  lemma NumberedUniverse(n: nat)
    requires n <= LIMIT
    ensures Universe(Interval(0, n))
  {
    forall a, b | a in Interval(0, n) && b in Interval(0, n)
      ensures Apart(a, b)
    {
      var x: nat :| x < n && a == Numbered(x);
      var y: nat :| y < n && b == Numbered(y);
      NumberedApart(x, y);
    }
  }

  lemma Adjoin(a: nat, b: nat, c: nat)
    requires a <= b <= c <= LIMIT
    ensures Interval(a, b) + Interval(b, c) == Interval(a, c) && Interval(a, b) !! Interval(b, c)
    ensures b < c ==> Interval(b, b + 1) == {Numbered(b)}
  {
    hide Numbered;
    forall k | k in Interval(a, b) && k in Interval(b, c)
      ensures false
    {
      var x: nat :| a <= x < b && k == Numbered(x);
      InInterval(x, b, c);
    }
  }

  // The n-th key is discovered by a replica without keys that has heard of those before it.
  lemma NextIsDiscovered(p: Peer, m: Message, n: nat, u: set<Key>)
    requires PeerOK({}, p, u) && Keys(p.root) == Interval(0, n) && n + 1 < LIMIT && Numbered(n) in u
    requires ValidMessage(m) && m.plen == KEY_BITS && m.min <= 32 && m.key == Numbered(n) && m.stored
    ensures Discovered(m, RecvKey(Nil, p, m, u).0)
    ensures Keys(RecvKey(Nil, p, m, u).0.peer.root) == Interval(0, n + 1)
  {
    hide Numbered, Interval, Collides, Universe, PeerAddKey, RecvKey, Discovered, CollidesFrom, Leaves;
    InInterval(n, 0, n);
    NextIsClear(p.root, n, m, 0);
    HeardOf(p, m, u);
    Adjoin(0, n, n + 1);
  }

  lemma HeardOf(p: Peer, m: Message, u: set<Key>)
    requires PeerOK({}, p, u) && Inspectable(m, u) && m.plen == KEY_BITS && m.stored
    requires m.key !in Keys(p.root) && !Collides(p.root, m)
    ensures Keys(Nil) <= u
    ensures Discovered(m, RecvKey(Nil, p, m, u).0) && Keys(RecvKey(Nil, p, m, u).0.peer.root) == Keys(p.root) + {m.key}
  {
    hide Collides, Universe, PeerOK, Overlooked, PeerAddKey, Discovered;
    NoKeys(p, u);
    NewKeyDiscovered(Nil, p, m, u);
    OverlookedByNil(p, m, u);
    KeyAdded(p, m, u);
  }

  lemma NoKeys(p: Peer, u: set<Key>)
    requires PeerOK({}, p, u)
    ensures Keys(Nil) == {} && PeerOK(Keys(Nil), p, u) && Ready(p, u)
  {
    assert Keys(Nil) == {};
  }

  lemma OverlookedByNil(p: Peer, m: Message, u: set<Key>)
    requires Ready(p, u) && Inspectable(m, u) && m.plen == KEY_BITS
    ensures Keys(Nil) <= u && (Overlooked(Nil, p, m, u) <==> Collides(p.root, m))
  {
    assert Keys(Nil) == {};
  }

  lemma KeyAdded(p: Peer, m: Message, u: set<Key>)
    requires Ready(p, u) && Inspectable(m, u) && m.plen == KEY_BITS && m.stored
    requires m.key !in Keys(p.root) && !Collides(p.root, m)
    ensures Keys(PeerAddKey(p, m, u).peer.root) == Keys(p.root) + {m.key}
  {
    hide Collides, Universe, Find, WF, LeafMessage;
    FindExact(p.root, m);
    SearchForKey(p.root, m);
  }

  lemma {:induction false} LeafMin(node: Trie, min: int, key: Key, a: nat, b: nat)
    requires WF(node, min) && Keys(node) == Interval(a, b) && b <= LIMIT && min <= 32 && key in Keys(node)
    ensures LeafMessage(node, min, key).min <= 32
    decreases node
  {
    hide Numbered, Interval, Agree, Under, SameFrom, XorAll;
    if !IsLeaf(node) {
      var c := Divided(node, min, a, b);
      NodeParts(node, min);
      HalvesDisjoint(node, min);
      if key[node.msg.plen] {
        LeafMin(node.one, node.msg.plen + 1, key, c, b);
      } else {
        LeafMin(node.zero, node.msg.plen + 1, key, a, c);
      }
    }
  }

  lemma OneNumberLeaf(node: Trie, a: nat, b: nat)
    requires Proper(node) && IsLeaf(node) && Keys(node) == Interval(a, b) && a < b <= LIMIT
    ensures b == a + 1 && node.msg.key == Numbered(a) && ValidMessage(node.msg)
  {
    OneNumber(node, a, b);
    LeafHolds(node, node.msg.key);
  }

  // Telling a peer of any number of them records exactly those.
  lemma {:induction false} AllAreRecorded(own: Trie, p: Peer, node: Trie, a: nat, b: nat, allowRemove: bool,
      u: set<Key>)
    requires Fits(own, p, node, u) && Keys(node) <= u && Keys(node) == Interval(a, b) && a < b && b + 1 < LIMIT
    requires Keys(p.root) == Interval(0, a) && node.msg.min <= 32
    ensures Ready(p, u) && Proper(node)
    ensures var o := MissingLeaves(p, node, allowRemove, u);
            Exact(Interval(0, a), Interval(a, b), allowRemove, o) && Keys(o.peer.root) == Interval(0, b)
    decreases node
  {
    hide Numbered, Interval, Bit, Exact, Confined, Missed, PeerOK, Leaves, Below, WF, Universe, Collides, Agree;
    FitsKeys(own, p, node, u);
    MissingLeavesExact(own, p, node, allowRemove, u);
    if IsLeaf(node) {
      OneNumberLeaf(node, a, b);
      NextIsClear(p.root, a, node.msg, 0);
      OneKeyExact(own, p, node, allowRemove, u);
      NotMissed(p, node, allowRemove, u);
    } else {
      FitsHalves(own, p, node, u);
      Halves(node);
      var c := Divided(node, node.msg.min, a, b);
      NodeParts(node, node.msg.min);
      AllAreRecorded(own, p, node.zero, a, c, allowRemove, u);
      MissingLeavesSafe(own, p, node.zero, allowRemove, node.msg, u);
      var first := MissingLeaves(p, node.zero, allowRemove, u);
      ExactIsClear(Interval(0, a), Interval(a, c), allowRemove, first);
      ChildFits(own, p, node, true, first.peer, u);
      AllAreRecorded(own, first.peer, node.one, c, b, allowRemove, u);
      MissingLeavesExact(own, p, node.zero, allowRemove, u);
      MissingLeavesExact(own, first.peer, node.one, allowRemove, u);
      var second := MissingLeaves(first.peer, node.one, allowRemove, u);
      ExactIsClear(Interval(0, c), Interval(c, b), allowRemove, second);
      Adjoin(a, c, b);
      RecordedThen(Interval(0, a), Interval(a, c), Interval(c, b), allowRemove, first, second);
    }
    Adjoin(0, a, b);
    RecordedAll(Interval(0, a), Interval(a, b), allowRemove, MissingLeaves(p, node, allowRemove, u));
  }

  lemma NotMissed(p: Peer, node: Trie, allowRemove: bool, u: set<Key>)
    requires Ready(p, u) && Proper(node) && IsLeaf(node) && Keys(node) <= u
    requires ValidMessage(node.msg) && !Collides(p.root, node.msg)
    ensures node.msg.key in Keys(node) && !Missed(p, node, allowRemove, node.msg.key, u)
  {
    MissedHere(p, node, allowRemove, u);
    FindExact(p.root, node.msg);
  }

  lemma ExactIsClear(before: set<Key>, keys: set<Key>, allowRemove: bool, o: Outcome)
    requires Exact(before, keys, allowRemove, o)
    ensures !o.confused
  {
  }

  lemma RecordedAll(before: set<Key>, keys: set<Key>, allowRemove: bool, o: Outcome)
    requires Exact(before, keys, allowRemove, o) && before !! keys
    ensures Keys(o.peer.root) == before + keys
  {
  }
}
