/** Two runs: one with any number of keys in which nothing is confused, and one with four keys in which
    a summary is taken for a key. */
module SyncRuns {
  import opened Arith
  import opened SyncKey
  import opened SyncTrie
  import opened SyncSearch
  import opened SyncPeer
  import opened SyncReceive
  import opened SyncSafety
  import opened SyncConfusion
  import opened SyncNetwork
  import opened SyncExact
  import opened SyncIndexed
  import opened SyncRemoval

  lemma {:induction false} RunSnoc(c: Config, steps: seq<Step>, s: Step, u: set<Key>)
    requires Inv(c, u) && !c.confused && CanRun(c, steps, u) && !Run(c, steps, u).confused
    requires Inv(Run(c, steps, u), u) && Enabled(Run(c, steps, u), s, u)
    ensures CanRun(c, steps + [s], u) && Run(c, steps + [s], u) == Next(Run(c, steps, u), s, u)
    decreases |steps|
  {
    hide Inv, Next, Enabled;
    if steps == [] {
      assert [] + [s] == [s] && [s][1..] == [];
      if !Next(c, s, u).confused {
        StepKeeps(c, s, u);
      }
    } else {
      StepKeeps(c, steps[0], u);
      RunSnoc(Next(c, steps[0], u), steps[1..], s, u);
      assert (steps + [s])[0] == steps[0] && (steps + [s])[1..] == steps[1..] + [s];
    }
  }

  // Two replicas: the first has some keys and has told the second about some of them.
  predicate Publishing(c: Config, own: set<Key>, told: set<Key>, u: set<Key>) {
    && Inv(c, u) && !c.confused && |c.replicas| == 2 && |c.replicas[0].peers| == 2
    && Keys(c.replicas[0].own) == own && Keys(c.replicas[0].peers[1].root) == told
    && c.replicas[0].peers[0] == Peer(Nil, 0, 0) && c.replicas[1].own.Nil?
  }

  lemma EmptyRecord(key: Key, u: set<Key>)
    requires Universe(u) && key in u
    ensures Dropped(Peer(Nil, 0, 0), key, u) == (Peer(Nil, 0, 0), false) && !Collides(Nil, Full(key))
  {
  }

  // A key that no summary stands for is added, and the record loses it.
  lemma AddStep(c: Config, own: set<Key>, told: set<Key>, key: Key, u: set<Key>)
    requires Publishing(c, own, told, u) && key in u && key !in own && key !in told && Universe(u)
    requires !Collides(c.replicas[0].own, Full(key)) && !Collides(c.replicas[0].peers[1].root, Full(key))
    ensures Enabled(c, AddKey(0, key), u) && Publishing(Next(c, AddKey(0, key), u), own + {key}, told, u)
  {
    hide Collides, WF, WFRoot, Universe, PeerOK, Dropped, Leaves;
    var r := c.replicas[0];
    assert ReplicaOK(r, 2, u);
    RecordsReady(r, 2, u);
    AddOwnKeyExact(r, key, u);
    EmptyRecord(key, u);
    forall i | 0 <= i < |r.peers|
      ensures !StandsFor(r.peers[i], key)
    {
    }
    KeepsRecords(r, key, u);
    NextConfused(c, AddKey(0, key), u);
    StepKeeps(c, AddKey(0, key), u);
  }

  lemma KeepsRecords(r: Replica, key: Key, u: set<Key>)
    requires ReplicaOK(r, 2, u) && key in u && key !in Keys(r.own) && !Collides(r.own, Full(key))
    requires r.peers[0] == Peer(Nil, 0, 0) && !Collides(r.peers[1].root, Full(key)) && key !in Keys(r.peers[1].root)
    ensures var s := AddOwnKey(r, key, u).0;
            |s.peers| == 2 && s.peers[0] == Peer(Nil, 0, 0) && Keys(s.peers[1].root) == Keys(r.peers[1].root)
  {
    hide Collides, WF, WFRoot, Universe, Dropped, Leaves, Find;
    FindExact(r.own, Full(key));
    EmptyRecord(key, u);
    DropAllAt(r.peers, key, u);
    DroppedConfused(r.peers[1], key, u);
  }

  lemma RecordsReady(r: Replica, n: nat, u: set<Key>)
    requires ReplicaOK(r, n, u)
    ensures PeersReady(r.peers, u) && OwnOK(r.own, u)
  {
  }

  // ---- Any number of keys -----------------------------------------------------------------------

  // The second replica asks by sending the message of an empty tree.
  const ASK := Packet(1, 0, RootMessage(Nil))

  function Adding(n: nat): seq<Step> {
    if n == 0 then [] else Adding(n - 1) + [AddKey(0, Numbered(n - 1))]
  }

  function Telling(n: nat): seq<Step> {
    Adding(n) + [SendRoot(1, 0)] + [Deliver(ASK)]
  }

  // The state after one more step.
  lemma OneMore(n: nat, steps: seq<Step>, s: Step, u: set<Key>)
    requires Universe(u) && CanReach(n, steps, u) && !StateAfter(n, steps, u).confused
    requires Inv(StateAfter(n, steps, u), u) && Enabled(StateAfter(n, steps, u), s, u)
    ensures CanReach(n, steps + [s], u) && StateAfter(n, steps + [s], u) == Next(StateAfter(n, steps, u), s, u)
  {
    StartOK(n, u);
    hide Inv, Next, Enabled, CanRun, Run;
    RunSnoc(Start(n), steps, s, u);
  }

  lemma {:induction false} AddingRun(n: nat, u: set<Key>)
    requires Universe(u) && Interval(0, n) <= u && n < LIMIT
    ensures CanReach(2, Adding(n), u) && Publishing(StateAfter(2, Adding(n), u), Interval(0, n), {}, u)
    decreases n
  {
    hide Inv, Next, Enabled, Numbered, Universe, Collides, WF, CollidesFrom, Leaves, StateAfter, CanReach;
    if n == 0 {
      NothingYet(u);
    } else {
      Adjoin(0, n - 1, n);
      AddingRun(n - 1, u);
      var c, key := StateAfter(2, Adding(n - 1), u), Numbered(n - 1);
      InInterval(n - 1, 0, n - 1);
      NumbersAreClear(c, n - 1, {}, u);
      AddStep(c, Interval(0, n - 1), {}, key, u);
      OneMore(2, Adding(n - 1), AddKey(0, key), u);
    }
  }

  lemma NothingYet(u: set<Key>)
    requires Universe(u)
    ensures CanReach(2, [], u) && Publishing(StateAfter(2, [], u), Interval(0, 0), {}, u)
  {
    StartOK(2, u);
    assert Leaves(Nil) == map[];
  }

  // With the first n keys as its own, and none or all of them told, the next key is clear.
  lemma NumbersAreClear(c: Config, n: nat, told: set<Key>, u: set<Key>)
    requires Publishing(c, Interval(0, n), told, u) && (told == {} || told == Interval(0, n)) && n + 1 < LIMIT
    ensures !Collides(c.replicas[0].own, Full(Numbered(n))) && !Collides(c.replicas[0].peers[1].root, Full(Numbered(n)))
  {
    hide Collides, Numbered, Universe, Leaves, WF, CollidesFrom;
    var r := c.replicas[0];
    assert ReplicaOK(r, 2, u);
    NextIsClear(r.own, n, Full(Numbered(n)), 0);
    if told == {} {
      NoneCollides(r.peers[1].root, Full(Numbered(n)));
    } else {
      NextIsClear(r.peers[1].root, n, Full(Numbered(n)), 0);
    }
  }

  lemma NoneCollides(t: Trie, m: Message)
    requires WFRoot(t) && Keys(t) == {} && ValidMessage(m)
    ensures t.Nil? && !Collides(t, m)
  {
    if t.Node? {
      KeysNonEmpty(t, 0);
    }
  }

  lemma AskStep(c: Config, own: set<Key>, told: set<Key>, u: set<Key>)
    requires Publishing(c, own, told, u)
    ensures Enabled(c, SendRoot(1, 0), u) && Publishing(Next(c, SendRoot(1, 0), u), own, told, u)
    ensures ASK in Next(c, SendRoot(1, 0), u).net
  {
    hide Inv, Leaves;
    StepKeeps(c, SendRoot(1, 0), u);
  }

  // All keys are recorded as told.
  lemma TellStep(c: Config, n: nat, u: set<Key>)
    requires Publishing(c, Interval(0, n), {}, u) && ASK in c.net && 0 < n && n + 1 < LIMIT && Interval(0, n) <= u
    ensures Enabled(c, Deliver(ASK), u) && Publishing(Next(c, Deliver(ASK), u), Interval(0, n), Interval(0, n), u)
  {
    hide Leaves, Numbered, Universe, WF, MissingLeaves, Exact, Collides;
    var r := c.replicas[0];
    assert ReplicaOK(r, 2, u);
    WholeTrie(r, n, u);
    AllAreRecorded(r.own, r.peers[1], r.own, 0, n, false, u);
    MissingLeavesConfused(r.peers[1], r.own, false, u);
    assert Received(c, ASK, u) == MissingLeaves(r.peers[1], r.own, false, u);
    StepKeeps(c, Deliver(ASK), u);
  }

  lemma WholeTrie(r: Replica, n: nat, u: set<Key>)
    requires ReplicaOK(r, 2, u) && Keys(r.own) == Interval(0, n) && n > 0 && Keys(r.peers[1].root) == {}
    ensures r.own.Node? && Fits(r.own, r.peers[1], r.own, u) && r.own.msg.min == 0
    ensures Keys(r.peers[1].root) == Interval(0, 0)
  {
    assert Numbered(0) in Keys(r.own);
  }

  // However many keys there are, no summary stands for one in this run.
  lemma ManyKeysRun(n: nat, u: set<Key>)
    requires 0 < n && n + 1 < LIMIT && Universe(u) && Interval(0, n + 1) <= u
    ensures var steps := Telling(n) + [AddKey(0, Numbered(n))];
            && CanReach(2, steps, u) && !RunConfuses(2, steps, u)
            && Publishing(StateAfter(2, steps, u), Interval(0, n + 1), Interval(0, n), u)
  {
    hide Inv, Next, Enabled, Numbered, Universe, Collides, WF, CollidesFrom, Leaves, StateAfter, CanReach, RunConfuses;
    TellingRun(n, u);
    var c, key := StateAfter(2, Telling(n), u), Numbered(n);
    Adjoin(0, n, n + 1);
    InInterval(n, 0, n);
    NumbersAreClear(c, n, Interval(0, n), u);
    AddStep(c, Interval(0, n), Interval(0, n), key, u);
    OneMore(2, Telling(n), AddKey(0, key), u);
    EveryRunIsSafe(2, Telling(n) + [AddKey(0, key)], u, 0, 1, ASK, key);
  }

  lemma TellingRun(n: nat, u: set<Key>)
    requires 0 < n && n + 1 < LIMIT && Universe(u) && Interval(0, n + 1) <= u
    ensures CanReach(2, Telling(n), u) && Publishing(StateAfter(2, Telling(n), u), Interval(0, n), Interval(0, n), u)
  {
    hide Inv, Next, Enabled, Numbered, Universe, Leaves, StateAfter, CanReach;
    Adjoin(0, n, n + 1);
    AddingRun(n, u);
    var c := StateAfter(2, Adding(n), u);
    AskStep(c, Interval(0, n), {}, u);
    OneMore(2, Adding(n), SendRoot(1, 0), u);
    TellStep(StateAfter(2, Adding(n) + [SendRoot(1, 0)], u), n, u);
    OneMore(2, Adding(n) + [SendRoot(1, 0)], Deliver(ASK), u);
  }

  // ---- Four keys and their xor ------------------------------------------------------------------

  // The summary of the first three keys.
  const SUM: Key := Xor(Xor(Numbered(0), Numbered(1)), Numbered(2))

  lemma SingleXor(t: Trie, min: int, a: nat)
    requires WF(t, min) && Keys(t) == Interval(a, a + 1) && a < LIMIT
    ensures XorAll(t) == Numbered(a)
  {
    hide Numbered;
    Adjoin(a, a, a + 1);
    OneLeafXor(t, min, Numbered(a));
  }

  lemma SeveralKeys(t: Trie, a: nat, b: nat)
    requires Keys(t) == Interval(a, b) && a + 1 < b <= LIMIT && WFRoot(t)
    ensures IsInner(t)
  {
    assert Numbered(a) in Keys(t) && Numbered(a + 1) in Keys(t);
    NumberedApart(a, a + 1);
    if IsLeaf(t) {
      LeafHolds(t, Numbered(a));
    }
  }

  lemma PairXor(t: Trie, min: int, a: nat)
    requires WF(t, min) && !IsLeaf(t) && Keys(t) == Interval(a, a + 2) && a + 2 <= LIMIT
    ensures XorAll(t) == Xor(Numbered(a), Numbered(a + 1))
  {
    hide Numbered, Interval, Agree, Leaves;
    var c := Divided(t, min, a, a + 2);
    NodeParts(t, min);
    SingleXor(t.zero, t.msg.plen + 1, a);
    SingleXor(t.one, t.msg.plen + 1, a + 1);
  }

  lemma InnerHalf(t: Trie, min: int, a: nat, b: nat)
    requires WF(t, min) && Keys(t) == Interval(a, b) && a + 1 < b <= LIMIT
    ensures !IsLeaf(t)
  {
    if IsLeaf(t) {
      OneNumber(t, a, b);
    }
  }

  lemma SumOfThree(t: Trie)
    requires WF(t, 0) && !IsLeaf(t) && Keys(t) == Interval(0, 3)
    ensures XorAll(t) == SUM
  {
    hide Numbered, Interval, Agree, Leaves, Xor;
    var c := Divided(t, 0, 0, 3);
    NodeParts(t, 0);
    if c == 2 {
      InnerHalf(t.zero, t.msg.plen + 1, 0, 2);
      PairXor(t.zero, t.msg.plen + 1, 0);
      SingleXor(t.one, t.msg.plen + 1, 2);
    } else {
      InnerHalf(t.one, t.msg.plen + 1, 1, 3);
      SingleXor(t.zero, t.msg.plen + 1, 0);
      PairXor(t.one, t.msg.plen + 1, 1);
      XorRegroup(Numbered(0), Numbered(1), Numbered(2));
    }
  }

  // The summary that a record of the first three keys holds is exactly their xor.
  lemma SumIsSummary(t: Trie)
    requires WFRoot(t) && Keys(t) == Interval(0, 3)
    ensures IsInner(t) && ValidMessage(t.msg) && t.msg.key == SUM && Matches(t, t, t.msg.plen, Full(SUM))
    ensures Collides(t, Full(SUM))
  {
    hide Numbered, SameMessage, Leaves, XorInto;
    SeveralKeys(t, 0, 3);
    NodeParts(t, 0);
    HalvesDisjoint(t, 0);
    SumOfThree(t);
    var r, p := t.msg.key, t.msg.plen;
    assert Numbered(0) in Keys(t) && Numbered(1) in Keys(t) && Numbered(2) in Keys(t);
    assert Agree(Numbered(0), r, p) && Agree(Numbered(1), r, p) && Agree(Numbered(2), r, p);
    forall i | 0 <= i < KEY_BITS
      ensures r[i] == SUM[i]
    {
      if i >= p {
        assert r[i] == XorAll(t)[i];
      }
    }
    EqualKeysSameMessage(t.msg, Full(SUM));
  }

  // ---- A summary that is taken for a key --------------------------------------------------------

  lemma SmallBits(n: nat)
    requires n <= 4
    ensures Bit(n, 31) == (n % 2 == 1) && Bit(n, 30) == (n / 2 % 2 == 1) && Bit(n, 29) == (n == 4)
  {
    assert Pow2(0) == 1 && Pow2(1) == 2 && Pow2(2) == 4;
  }

  lemma SumBits()
    ensures SUM[30] && SUM[31] && !SUM[61] && SUM[63]
  {
    hide Bit;
    SmallBits(0);
    SmallBits(1);
    SmallBits(2);
    SmallBits(3);
    NumberedBits(0, 0, 0);
    NumberedBits(1, 0, 0);
    NumberedBits(2, 0, 0);
    var a, b, c := Numbered(0), Numbered(1), Numbered(2);
    assert a[32 + 29] == (Bit(0, 29) != Bit(1, 29)) && b[32 + 29] == (Bit(1, 29) != Bit(2, 29)) &&
      c[32 + 29] == (Bit(2, 29) != Bit(3, 29));
    assert a[32 + 31] == (Bit(0, 31) != Bit(1, 31)) && b[32 + 31] == (Bit(1, 31) != Bit(2, 31)) &&
      c[32 + 31] == (Bit(2, 31) != Bit(3, 31));
  }

  lemma SumApart(n: nat)
    requires n < 4
    ensures !Agree(SUM, Numbered(n), KEY_BITS - 1) && !Agree(Numbered(n), SUM, KEY_BITS - 1)
  {
    hide Bit;
    SumBits();
    SmallBits(n);
    SmallBits(n + 1);
    NumberedBits(n, n, 0);
    var k := Numbered(n);
    assert k[32 + 29] == (Bit(n, 29) != Bit(n + 1, 29));
    assert SUM[30] != k[30] || SUM[31] != k[31] || SUM[61] != k[61];
  }

  // The keys of the run.
  lemma FourAndSum(u: set<Key>)
    requires u == Interval(0, 4) + {SUM}
    ensures Universe(u) && SUM !in Interval(0, 4)
  {
    hide Numbered;
    NumberedUniverse(4);
    forall a | a in Interval(0, 4)
      ensures Apart(a, SUM) && Apart(SUM, a) && a != SUM
    {
      var n: nat :| n < 4 && a == Numbered(n);
      SumApart(n);
      AgreeReflexive(SUM, KEY_BITS - 1);
    }
  }

  // No summary of all four keys stands for the sum: their second halves end in a zero.
  lemma SumIsClear(t: Trie)
    requires WFRoot(t) && Keys(t) == Interval(0, 4)
    ensures !Collides(t, Full(SUM))
  {
    hide Numbered, Leaves;
    SumBits();
    SeveralKeys(t, 0, 4);
    forall s, q: int
      ensures !Matches(s, t, q, Full(SUM))
    {
      if Below(s, t) && IsInner(s) && ValidMessage(s.msg) {
        var x, y := SummaryInterval(s, t, 0, 0, 4, 4);
        EvenTail(s.msg.key, x, y);
        if SameMessage(s.msg, Full(SUM)) {
          SameRest(s.msg, Full(SUM));
        }
      }
    }
  }

  lemma EvenTail(key: Key, x: nat, y: nat)
    requires Tail(key, x, y) && x % 2 == 0 && y % 2 == 0
    ensures !key[63]
  {
    LastBit(x);
    LastBit(y);
    assert key[32 + 31] == (Bit(x, 31) != Bit(y, 31));
  }

  // A run in which a summary is taken for a key: the first replica has told the second about three
  // keys, has a fourth, and adds the key that equals the summary of the three.
  lemma ConfusedRun(u: set<Key>)
    requires u == Interval(0, 4) + {SUM}
    ensures Universe(u)
    ensures var steps := Telling(3) + [AddKey(0, Numbered(3))] + [AddKey(0, SUM)];
            CanReach(2, steps, u) && StateAfter(2, steps, u).confused
  {
    hide Inv, Next, Enabled, Numbered, Universe, Collides, WF, CollidesFrom, Leaves, StateAfter, CanReach, RunConfuses;
    FourAndSum(u);
    ManyKeysRun(3, u);
    var steps := Telling(3) + [AddKey(0, Numbered(3))];
    var c := StateAfter(2, steps, u);
    SumConfuses(c, u);
    OneMore(2, steps, AddKey(0, SUM), u);
  }

  lemma SumConfuses(c: Config, u: set<Key>)
    requires Publishing(c, Interval(0, 4), Interval(0, 3), u) && SUM in u && SUM !in Interval(0, 4)
    ensures Enabled(c, AddKey(0, SUM), u) && Next(c, AddKey(0, SUM), u).confused
  {
    hide Collides, WF, Universe, Numbered, Leaves;
    var r := c.replicas[0];
    assert ReplicaOK(r, 2, u);
    SumIsClear(r.own);
    SumIsSummary(r.peers[1].root);
    NextConfused(c, AddKey(0, SUM), u);
  }

  lemma SumAbsent(n: nat)
    requires n <= 4
    ensures SUM !in Interval(0, n)
  {
    hide Numbered;
    forall a | a in Interval(0, n)
      ensures a != SUM
    {
      var x: nat :| x < n && a == Numbered(x);
      SumApart(x);
      AgreeReflexive(SUM, KEY_BITS - 1);
    }
  }

  // A leaf that holds the sum, when removal is allowed, is taken to be recorded among the three.
  lemma ConfusedLeaf(p: Peer, u: set<Key>)
    requires Ready(p, u) && Keys(p.root) == Interval(0, 3) && AllStored(p.root) && SUM in u
    ensures SUM !in Keys(p.root) && Proper(Leaf(SUM, 0, true)) && ValidMessage(Leaf(SUM, 0, true).msg)
    ensures FindMessage(p.root, Leaf(SUM, 0, true).msg).Node?
    ensures PeerIsMissing(p, Leaf(SUM, 0, true), true, u).0.confused
  {
    hide Numbered, Leaves, SameMessage, Interval, PeerIsMissing, FirstMatch, Find;
    var node := Leaf(SUM, 0, true);
    SumAbsent(3);
    SumIsSummary(p.root);
    RootIsFirst(p.root, node.msg);
    FirstIsFound(p.root, node.msg);
    PeerIsMissingConfused(p, node, true, u);
  }

  // Removing the sum from such a record frees the leaf of the third key.
  lemma ThirdKeyLost(t: Trie)
    requires WFRoot(t) && Keys(t) == Interval(0, 3)
    ensures t.Node? && RemoveAny(t, 0, 0, SUM).Freed? && RemoveAny(t, 0, 0, SUM).victim == Numbered(2)
  {
    hide Numbered, Interval, Leaves, SameMessage, XorInto, SameFrom, XorAll, Bit, Matches, Collides;
    SumIsSummary(t);
    NodeParts(t, 0);
    var c := Divided(t, 0, 0, 3);
    if c == 1 {
      InnerHalf(t.one, t.msg.plen + 1, 1, 3);
      InnerChild(t, 0, true, 1, 3);
    }
    SumTurns(t);
    PrefixShared(t, 0, 0, SUM);
    LastOfThree(t.one, t.msg.plen + 1);
  }

  lemma SumTurns(t: Trie)
    requires WF(t, 0) && !IsLeaf(t) && 0 <= t.msg.plen < KEY_BITS
    requires Keys(t.zero) == Interval(0, 2) && Keys(t.one) == Interval(2, 3)
    ensures SUM[t.msg.plen]
  {
    hide Numbered, Leaves, SameFrom, XorAll;
    NodeParts(t, 0);
    assert Numbered(0) in Keys(t.zero) && Numbered(1) in Keys(t.zero) && Numbered(2) in Keys(t.one);
  }

  lemma LastOfThree(t: Trie, min: int)
    requires WF(t, min) && Keys(t) == Interval(2, 3)
    ensures IsLeaf(t) && t.msg.key == Numbered(2)
  {
    hide Numbered, Interval, Leaves, SameFrom, XorAll;
    if !IsLeaf(t) {
      var c := Divided(t, min, 2, 3);
    } else {
      Adjoin(2, 2, 3);
      LeafHolds(t, Numbered(2));
    }
  }

  lemma RootIsFirst(t: Trie, m: Message)
    requires WFRoot(t) && ValidMessage(m) && m.plen == KEY_BITS && m.min == 0 && IsInner(t) && ValidMessage(t.msg) &&
             t.msg.key == m.key
    ensures FirstMatch(t, t, m)
  {
    EqualKeysSameMessage(t.msg, m);
    forall s | Matches(s, t, t.msg.plen, m)
      ensures t.msg.plen <= s.msg.plen
    {
      BelowPrefix(s, t, 0);
    }
  }
}
