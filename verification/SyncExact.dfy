/** What messages achieve: missing keys are recorded exactly, known differences are taken out of a
    summary, and equal trees fall silent. */
module SyncExact {
  import opened SyncKey
  import opened SyncTrie
  import opened SyncSearch
  import opened SyncPeer
  import opened SyncReceive
  import opened SyncSafety
  import opened SyncConfusion
  import opened SyncNetwork

  // ---- peer_missing_leaf_nodes ------------------------------------------------------------------

  // Keys not yet recorded are added; recorded ones stay, or, if allowed, are taken to have arrived.
  ghost predicate Recorded(before: set<Key>, keys: set<Key>, allowRemove: bool, o: Outcome) {
    && Keys(o.peer.root) == (if allowRemove then (before - keys) + (keys - before) else before + keys)
    && (forall k :: HasNot(k) in o.events <==> k in keys && k !in before)
    && (forall k :: NowHas(k) in o.events <==> allowRemove && k in keys && k in before)
  }

  // Only what concerns these keys has changed.
  ghost predicate Confined(before: set<Key>, keys: set<Key>, o: Outcome) {
    && (forall k :: k !in keys ==> (k in Keys(o.peer.root) <==> k in before))
    && (forall k :: HasNot(k) in o.events || NowHas(k) in o.events ==> k in keys)
  }

  // All went well.
  ghost predicate Exact(before: set<Key>, keys: set<Key>, allowRemove: bool, o: Outcome) {
    !o.confused && Recorded(before, keys, allowRemove, o)
  }

  lemma RecordedThen(before: set<Key>, a: set<Key>, b: set<Key>, allowRemove: bool, first: Outcome, second: Outcome)
    requires a !! b && Confined(before, a, first) && Confined(Keys(first.peer.root), b, second)
    ensures Confined(before, a + b, Then(first, second))
    ensures Exact(before, a + b, allowRemove, Then(first, second)) <==>
            Exact(before, a, allowRemove, first) && Exact(Keys(first.peer.root), b, allowRemove, second)
  {
    var o, mid, after := Then(first, second), Keys(first.peer.root), Keys(second.peer.root);
    assert forall e :: e in o.events <==> e in first.events || e in second.events;
    if Recorded(before, a + b, allowRemove, o) && !o.confused {
      assert forall k :: k in a ==> (k in mid <==> k in after);
      assert forall k :: k in b ==> (k in before <==> k in mid);
      assert Recorded(before, a, allowRemove, first);
      assert Recorded(mid, b, allowRemove, second);
    }
  }

  // When the key's turn comes, a summary compares equal to it that comes first on its way, and the key
  // is not recorded, or is but the summary is not marked.
  ghost predicate Missed(p: Peer, node: Trie, allowRemove: bool, key: Key, u: set<Key>)
    requires Ready(p, u) && Proper(node) && Keys(node) <= u && key in Keys(node)
  {
    var root := Turn(p, node, allowRemove, key, u).root;
    exists s :: FirstMatch(s, root, LeafOn(node, key)) && (key !in Keys(root) || (allowRemove && !s.msg.stored))
  }

  lemma MissedHere(p: Peer, node: Trie, allowRemove: bool, u: set<Key>)
    requires Ready(p, u) && Proper(node) && IsLeaf(node) && Keys(node) <= u
    ensures node.msg.key in Keys(node) && ValidMessage(node.msg)
    ensures var found := FindMessage(p.root, node.msg);
            Missed(p, node, allowRemove, node.msg.key, u) <==>
            IsInner(found) && (node.msg.key !in Keys(p.root) || (allowRemove && !found.msg.stored))
  {
    hide FirstMatch, FindMessage, WFRoot, Universe;
    NodeMessage(node);
    LeafBelow(node, node.msg.key);
    FirstIsFound(p.root, node.msg);
    var found := FindMessage(p.root, node.msg);
    assert FirstMatch(found, p.root, node.msg) <==> IsInner(found);
  }

  // What happens to one of our keys.
  lemma OneKey(own: Trie, p: Peer, node: Trie, allowRemove: bool, u: set<Key>)
    requires Fits(own, p, node, u) && Keys(node) <= u && IsLeaf(node)
    ensures Ready(p, u) && Proper(node) && Keys(node) == {node.msg.key} && node.msg.key in u
    ensures var (o, key) := (MissingLeaves(p, node, allowRemove, u), node.msg.key);
            if Missed(p, node, allowRemove, key, u) then
              (allowRemove || key !in Keys(p.root)) &&
              (o.confused || (o.peer == p && forall k :: HasNot(k) !in o.events && NowHas(k) !in o.events))
            else
              o == if key !in Keys(p.root) then Outcome(WithKey(p, key, true, u), [HasNot(key), Queue(node.msg)], false)
                   else if allowRemove then Outcome(WithoutKey(p, key, u), [NowHas(key), Queue(node.msg)], false)
                   else Outcome(p, [], false)
  {
    hide Missed, Below, Find, WF, WithKey, WithoutKey, Universe, Messages, PeerOK;
    FitsKeys(own, p, node, u);
    var key := node.msg.key;
    LeafHolds(node, key);
    MissedHere(p, node, allowRemove, u);
    SearchForKey(p.root, node.msg);
    OwnIsMarked(Keys(own), p, key, u);
  }

  lemma OneKeyExact(own: Trie, p: Peer, node: Trie, allowRemove: bool, u: set<Key>)
    requires Fits(own, p, node, u) && Keys(node) <= u && IsLeaf(node)
    ensures Keys(node) == {node.msg.key} && Ready(p, u) && Proper(node)
    ensures var o := MissingLeaves(p, node, allowRemove, u);
            && (Exact(Keys(p.root), Keys(node), allowRemove, o) <==> !Missed(p, node, allowRemove, node.msg.key, u))
            && (!o.confused ==> Confined(Keys(p.root), Keys(node), o))
  {
    hide Missed, PeerOK, WF, Universe, MissingLeaves, Fits, Leaves, Exact, Confined;
    OneKey(own, p, node, allowRemove, u);
    RecordedOne(Keys(p.root), node.msg.key, allowRemove, Missed(p, node, allowRemove, node.msg.key, u),
                MissingLeaves(p, node, allowRemove, u), node.msg);
  }

  lemma RecordedOne(before: set<Key>, key: Key, allowRemove: bool, missed: bool, o: Outcome, q: Message)
    requires missed ==> allowRemove || key !in before
    requires missed && !o.confused ==>
               Keys(o.peer.root) == before && forall k :: HasNot(k) !in o.events && NowHas(k) !in o.events
    requires !missed ==>
               && Keys(o.peer.root) ==
                  (if key !in before then before + {key} else if allowRemove then before - {key} else before)
               && o.events == (if key !in before then [HasNot(key), Queue(q)]
                               else if allowRemove then [NowHas(key), Queue(q)] else [])
               && !o.confused
    ensures Exact(before, {key}, allowRemove, o) <==> !missed
    ensures !o.confused ==> Confined(before, {key}, o)
  {
    if missed {
      assert Recorded(before, {key}, allowRemove, o) ==>
          (key in Keys(o.peer.root) <==> if allowRemove then key !in before else true);
    }
  }

  // Keys that are not recorded are added and reported, and recorded ones dropped and reported if
  // that is allowed, exactly when no key is missed.  Other keys are left alone, unless a summary is
  // taken for a key.
  lemma {:induction false} MissingLeavesExact(own: Trie, p: Peer, node: Trie, allowRemove: bool, u: set<Key>)
    requires Fits(own, p, node, u) && Keys(node) <= u
    ensures Ready(p, u) && Proper(node)
    ensures var o := MissingLeaves(p, node, allowRemove, u);
            && (Exact(Keys(p.root), Keys(node), allowRemove, o) <==>
                forall k :: k in Keys(node) ==> !Missed(p, node, allowRemove, k, u))
            && (!o.confused ==> Confined(Keys(p.root), Keys(node), o))
    decreases node
  {
    hide PeerOK, Recorded, Confined, Leaves, Proper, Below, EventsOK, Missed, WF, Universe;
    FitsKeys(own, p, node, u);
    if IsLeaf(node) {
      OneKeyExact(own, p, node, allowRemove, u);
    } else {
      FitsHalves(own, p, node, u);
      Halves(node);
      var first := MissingLeaves(p, node.zero, allowRemove, u);
      var second := MissingLeaves(first.peer, node.one, allowRemove, u);
      MissedBelow(p, node, allowRemove, u);
      MissingLeavesExact(own, p, node.zero, allowRemove, u);
      if !first.confused {
        MissingLeavesSafe(own, p, node.zero, allowRemove, node.msg, u);
        ChildFits(own, p, node, true, first.peer, u);
        MissingLeavesExact(own, first.peer, node.one, allowRemove, u);
        if !second.confused {
          RecordedThen(Keys(p.root), Keys(node.zero), Keys(node.one), allowRemove, first, second);
        }
      }
    }
  }

  lemma MissedOne(p: Peer, node: Trie, allowRemove: bool, key: Key, u: set<Key>)
    requires Ready(p, u) && Proper(node) && !IsLeaf(node) && Keys(node) <= u && key in Keys(node)
    ensures Proper(node.zero) && Proper(node.one) && Keys(node) == Keys(node.zero) + Keys(node.one)
    ensures Keys(node.zero) !! Keys(node.one)
    ensures Missed(p, node, allowRemove, key, u) <==>
            if key in Keys(node.zero) then Missed(p, node.zero, allowRemove, key, u)
            else Missed(MissingLeaves(p, node.zero, allowRemove, u).peer, node.one, allowRemove, key, u)
  {
    hide FirstMatch, WF, WFRoot, Universe, Leaves, MissingLeaves;
    Halves(node);
    LeafBelow(node, key);
  }

  lemma MissedBelow(p: Peer, node: Trie, allowRemove: bool, u: set<Key>)
    requires Ready(p, u) && Proper(node) && !IsLeaf(node) && Keys(node) <= u
    ensures Proper(node.zero) && Proper(node.one) && Keys(node.zero) <= u && Keys(node.one) <= u
    ensures var first := MissingLeaves(p, node.zero, allowRemove, u).peer;
            (exists k :: k in Keys(node) && Missed(p, node, allowRemove, k, u)) <==>
            || (exists k :: k in Keys(node.zero) && Missed(p, node.zero, allowRemove, k, u))
            || (exists k :: k in Keys(node.one) && Missed(first, node.one, allowRemove, k, u))
  {
    hide FirstMatch, WF, WFRoot, Universe, Leaves, MissingLeaves, Missed;
    Halves(node);
    var first := MissingLeaves(p, node.zero, allowRemove, u).peer;
    forall k | k in Keys(node)
      ensures Missed(p, node, allowRemove, k, u) <==>
              if k in Keys(node.zero) then Missed(p, node.zero, allowRemove, k, u)
              else Missed(first, node.one, allowRemove, k, u)
    {
      MissedOne(p, node, allowRemove, k, u);
    }
    assert forall k :: k in Keys(node.zero) ==> k in Keys(node);
    assert forall k :: k in Keys(node.one) ==> k in Keys(node) && k !in Keys(node.zero);
  }

  lemma StillRecorded(before: set<Key>, keys: set<Key>, o: Outcome, key: Key)
    requires Confined(before, keys, o)
    ensures key !in keys ==> (key in Keys(o.peer.root) <==> key in before)
  {
  }

  // ---- remove_differences -----------------------------------------------------------------------

  // The walk ends at a node whose keys share the prefix of the message, or at a single key that
  // compares equal to it.
  lemma {:induction false} ApproachMatches(node: Trie, p: nat, m: Message)
    requires Proper(node) && p <= node.msg.plen && p <= m.plen && ValidMessage(m) && m.plen != KEY_BITS - 1
    requires forall k :: k in Keys(node) ==> Agree(k, m.key, p)
    ensures var r := Approach(node, p, m);
            r.Node? ==>
              && Proper(r)
              && (IsLeaf(r) || m.plen <= r.msg.plen)
              && ((forall k :: k in Keys(r) ==> Agree(k, m.key, m.plen)) ||
                  (IsLeaf(r) && ValidMessage(r.msg) && SameMessage(m, r.msg)))
    decreases node, KEY_BITS - p
  {
    hide SameMessage, SameFrom, XorAll, Agree, Leaves;
    NodeMessage(node);
    if p < m.plen && !(IsLeaf(node) && SameMessage(m, node.msg)) && !(IsLeaf(node) && m.plen == KEY_BITS) {
      var bit := GetBit(m.key, p);
      if p < node.msg.plen {
        if GetBit(node.msg.key, p) == bit {
          SharedBit(node, node.msg.min, p);
          forall k | k in Keys(node)
            ensures Agree(k, m.key, p + 1)
          {
            AgreeNext(k, m.key, p);
          }
          ApproachMatches(node, p + 1, m);
        }
      } else {
        ChildProper(node, bit);
        AgreeBelow(node, m.key, p);
        ApproachMatches(Child(node, bit), p + 1, m);
      }
    }
  }

  // If a key below the node shares the whole prefix of the message, the walk ends at a node that holds
  // exactly the keys that do.
  lemma {:induction false} ApproachFinds(node: Trie, p: nat, m: Message, key: Key)
    requires Proper(node) && p <= node.msg.plen && p <= m.plen && ValidMessage(m) && m.plen != KEY_BITS - 1
    requires forall k :: k in Keys(node) ==> Agree(k, m.key, p)
    requires key in Keys(node) && Agree(key, m.key, m.plen)
    ensures var r := Approach(node, p, m);
      r.Node? && forall k :: k in Keys(node) ==> (k in Keys(r) <==> Agree(k, m.key, m.plen))
    decreases node, KEY_BITS - p
  {
    hide SameMessage, SameFrom, XorAll, Agree, Leaves;
    NodeMessage(node);
    if IsLeaf(node) {
      LeafHolds(node, key);
      EqualLeaf(node, m);
    }
    if p < m.plen && !(IsLeaf(node) && SameMessage(m, node.msg)) {
      var bit := GetBit(m.key, p);
      BitShared(key, m.key, p, m.plen);
      if p < node.msg.plen {
        SharedBit(node, node.msg.min, p);
        forall k | k in Keys(node)
          ensures Agree(k, m.key, p + 1)
        {
          AgreeNext(k, m.key, p);
        }
        ApproachFinds(node, p + 1, m, key);
      } else {
        ChildProper(node, bit);
        Halves(node);
        NodeParts(node, node.msg.min);
        AgreeBelow(node, m.key, p);
        forall k | k in Keys(node)
          ensures Agree(k, m.key, m.plen) ==> k[p] == bit
        {
          BitShared(k, m.key, p, m.plen);
        }
        ApproachFinds(Child(node, bit), p + 1, m, key);
        BelowProper(Approach(Child(node, bit), p + 1, m), Child(node, bit));
      }
    }
  }

  lemma BitShared(k: Key, key: Key, p: nat, n: int)
    requires p < n <= KEY_BITS
    ensures Agree(k, key, n) ==> k[p] == key[p]
  {
  }

  lemma EqualLeaf(node: Trie, m: Message)
    requires IsLeaf(node) && ValidMessage(node.msg) && ValidMessage(m)
    ensures m.plen == KEY_BITS && Agree(node.msg.key, m.key, KEY_BITS) ==> SameMessage(m, node.msg)
  {
    if Agree(node.msg.key, m.key, KEY_BITS) {
      assert node.msg.key == m.key;
    }
  }

  // What is known already about a stored message is found whenever there is any: the recorded keys that share
  // its prefix are those of the known node.
  lemma KnownKeys(root: Trie, m: Message, key: Key)
    requires WFRoot(root) && ValidMessage(m) && m.plen != KEY_BITS - 1 && m.stored
    requires key in Keys(root) && Agree(key, m.key, m.plen)
    ensures var known := RemoveDifferences(root, m).1;
      known.Node? && forall k :: k in Keys(root) ==> (k in Keys(known) <==> Agree(k, m.key, m.plen))
  {
    ProperNode(root, 0);
    assert forall k :: k in Keys(root) ==> Agree(k, m.key, 0);
    ApproachFinds(root, 0, m, key);
  }

  // What is known is taken out of the summary: bits after the prefix lose the keys of the known
  // node, and the prefix stays.
  lemma RemoveDifferencesXors(root: Trie, m: Message, sum: Key)
    requires WFRoot(root) && ValidMessage(m) && m.plen <= KEY_BITS - 2 && SameFrom(m.key, sum, m.plen)
    ensures var (pm, known) := RemoveDifferences(root, m);
            && SameFrom(pm.key, Xor(sum, XorAll(known)), m.plen)
            && (known.Node? && (forall k :: k in Keys(known) ==> Agree(k, m.key, m.plen)) ==>
                  Agree(pm.key, m.key, m.plen))
  {
    var (pm, known) := RemoveDifferences(root, m);
    if known.Nil? {
      assert Xor(sum, ZeroKey()) == sum;
    } else {
      KnownBelow(root, known);
      ProperNode(root, 0);
      assert forall k :: k in Keys(root) ==> Agree(k, m.key, 0);
      ApproachMatches(root, 0, m);
      TakenOut(known, m, pm, sum);
    }
  }

  lemma TakenOut(known: Trie, m: Message, pm: Message, sum: Key)
    requires Proper(known) && ValidMessage(m) && m.plen <= KEY_BITS - 2 && SameFrom(m.key, sum, m.plen)
    requires pm ==
             if known.msg.plen == m.plen || IsLeaf(known) then XorMessage(known.msg.key, m) else XorChildren(known, m)
    ensures SameFrom(pm.key, Xor(sum, XorAll(known)), m.plen)
    ensures (forall k :: k in Keys(known) ==> Agree(k, m.key, m.plen)) ==> Agree(pm.key, m.key, m.plen)
  {
    if known.msg.plen == m.plen || IsLeaf(known) {
      if forall k :: k in Keys(known) ==> Agree(k, m.key, m.plen) {
        KeysNonEmpty(known, known.msg.min);
        KeysAgreeWithNode(known, known.msg.min, m.plen);
        var k :| k in Keys(known);
        assert Agree(k, m.key, m.plen) && Agree(k, known.msg.key, m.plen);
      }
      assert SameFrom(known.msg.key, XorAll(known), m.plen);
    } else {
      XorChildrenRest(known, m);
      if forall k :: k in Keys(known) ==> Agree(k, m.key, m.plen) {
        XorChildrenSummarises(known, known.msg.min, m, m.key);
      }
    }
  }

  // After the prefix every key is xor-ed, wherever it lies.
  lemma {:induction false} XorChildrenRest(t: Trie, dest: Message)
    requires 0 <= dest.plen < KEY_BITS
    ensures SameFrom(XorChildren(t, dest).key, Xor(dest.key, XorAll(t)), dest.plen)
    decreases t
  {
    if t.Node? && !IsLeaf(t) {
      XorChildrenRest(t.zero, dest);
      XorChildrenRest(t.one, XorChildren(t.zero, dest));
    }
  }

  // If the leaves the sender summarised are ours but for what is known about it, there is nothing
  // left to say: the message without the known differences compares equal to our node.
  lemma KnownDifferencesSettle(root: Trie, m: Message, node: Trie)
    requires WFRoot(root) && ValidMessage(m) && m.plen <= KEY_BITS - 2 && Proper(node)
    requires forall k :: k in Keys(node) ==> Agree(k, m.key, m.plen)
    requires var known := RemoveDifferences(root, m).1;
             && known.Node? && (forall k :: k in Keys(known) ==> Agree(k, m.key, m.plen))
             && SameFrom(m.key, Xor(XorAll(node), XorAll(known)), m.plen)
    ensures ValidMessage(node.msg) && SameMessage(RemoveDifferences(root, m).0, node.msg)
  {
    NodeMessage(node);
    var (pm, known) := RemoveDifferences(root, m);
    RemoveDifferencesXors(root, m, Xor(XorAll(node), XorAll(known)));
    XorCancels(XorAll(node), XorAll(known));
    NodeSummarises(node, node.msg.min);
    KeysNonEmpty(node, node.msg.min);
    var k :| k in Keys(node);
    assert Agree(k, m.key, m.plen) && Agree(k, node.msg.key, node.msg.plen);
    hide SameMessage, WF;
    PrefixAndRestSameMessage(pm, node.msg);
  }

  // ---- A key we did not know of -----------------------------------------------------------------

  // An echo of the key goes back: the message of its leaf in the record, not marked as stored.
  ghost predicate Echoed(key: Key, events: seq<Event>) {
    exists q :: Queue(q) in events && q.plen == KEY_BITS && q.key == key && !q.stored
  }

  // The key is recorded as the peer's, reported and echoed.
  ghost predicate Discovered(m: Message, o: Outcome) {
    Has(m.key) in o.events && Echoed(m.key, o.events) && m.key in Keys(o.peer.root) && !Leaves(o.peer.root)[m.key]
  }

  // A stored full key that neither we nor the record about the peer have.
  ghost predicate Unknown(own: Trie, p: Peer, m: Message, u: set<Key>) {
    Inspectable(m, u) && m.plen == KEY_BITS && m.stored && m.key !in Keys(own) && m.key !in Keys(p.root)
  }

  // The key is recorded exactly if the condition holds, and is then reported.
  ghost predicate DiscoveredIf(m: Message, o: Outcome, found: bool) {
    (m.key in Keys(o.peer.root) <==> found) && (found ==> Discovered(m, o))
  }

  lemma AddKeyDiscovers(own: Trie, p: Peer, m: Message, u: set<Key>)
    requires Unknown(own, p, m, u) && Ready(p, u)
    ensures DiscoveredIf(m, PeerAddKey(p, m, u), !Collides(p.root, m))
  {
    hide Collides, WF, WFRoot, Find, Universe, LeafMessage;
    FindExact(p.root, m);
    SearchForKey(p.root, m);
    if FindMessage(p.root, m).Nil? {
      NewLeaf(p, m.key, u);
      assert Queue(LeafMessage(WithKey(p, m.key, false, u).root, 0, m.key)) in PeerAddKey(p, m, u).events;
    }
  }

  lemma NewLeaf(p: Peer, key: Key, u: set<Key>)
    requires Ready(p, u) && key in u && key !in Keys(p.root)
    ensures var root := WithKey(p, key, false, u).root;
      && WF(root, 0) && key in Keys(root)
      && var q := LeafMessage(root, 0, key); q.plen == KEY_BITS && q.key == key && !q.stored
  {
    hide LeafMessage;
    LeafMessageHolds(WithKey(p, key, false, u).root, 0, key);
  }

  lemma StillUnknown(own: Trie, p: Peer, m: Message, node: Trie, u: set<Key>)
    requires Unknown(own, p, m, u) && Fits(own, p, node, u) && Keys(node) <= u
    ensures Unknown(own, MissingLeaves(p, node, false, u).peer, m, u)
    ensures PeerOK(Keys(own), MissingLeaves(p, node, false, u).peer, u)
  {
    hide Confined, Exact, WF, Universe, Leaves, PeerOK;
    FitsKeys(own, p, node, u);
    MissingLeavesExact(own, p, node, false, u);
    StillRecorded(Keys(p.root), Keys(node), MissingLeaves(p, node, false, u), m.key);
    MissingLeavesSafe(own, p, node, false, m, u);
  }

  // The record in which peer_add_key looks for the key when the prefixes differ.
  function LookedUp(e: End, m: Message, ghost u: set<Key>): (q: Peer)
    requires EndOK(e, m, m, u) && e.Differs?
    ensures Ready(q, u)
  {
    if e.bit >= m.min && m.stored then MissingLeaves(e.peer, e.node, false, u).peer else e.peer
  }

  ghost predicate Met(e: End, m: Message, u: set<Key>)
    requires EndOK(e, m, m, u) && ValidMessage(m)
  {
    e.Differs? && !Collides(LookedUp(e, m, u).root, m)
  }

  lemma MismatchDiscovers(own: Trie, p: Peer, m: Message, node: Trie, q: nat, u: set<Key>)
    requires Unknown(own, p, m, u) && Fits(own, p, node, u) && Keys(node) <= u
    ensures Ready(p, u) && DiscoveredIf(m, Mismatch(p, m, node, q, u), Met(Differs(p, node, q), m, u))
  {
    hide Collides, WF, Universe, Leaves, PeerOK, MissingLeaves, PeerAddKey;
    FitsKeys(own, p, node, u);
    if q >= m.min {
      var told := MissingLeaves(p, node, false, u);
      StillUnknown(own, p, m, node, u);
      AddKeyDiscovers(own, told.peer, m, u);
      EchoedThen(m.key, told.events, PeerAddKey(told.peer, m, u).events);
    } else {
      AddKeyDiscovers(own, p, m, u);
    }
  }

  lemma EqualDiscoversNothing(own: Trie, p: Peer, m: Message, known: Trie, node: Trie, u: set<Key>)
    requires Unknown(own, p, m, u) && Fits(own, p, node, u) && ValidMessage(node.msg) && SameMessage(m, node.msg)
    requires (known.Nil? || Proper(known)) && Within(Leaves(known), Leaves(p.root))
    ensures IsInner(node) && Ready(p, u) && m.key !in Keys(HasReceivedAll(p, known, u).0.peer.root)
  {
    FitsKeys(own, p, node, u);
    NodeMessage(node);
    if IsLeaf(node) {
      SameFullKeys(m, node.msg);
    }
  }

  lemma UnknownStops(own: Trie, p: Peer, m: Message, known: Trie, node: Trie, pos: nat, u: set<Key>)
    requires Unknown(own, p, m, u) && Walking(p, m, m, known, node, pos, u) && Fits(own, p, node, u)
    requires ValidMessage(node.msg) && (SameMessage(m, node.msg) || m.plen <= pos || CanSkip(node.msg, pos, m))
    requires Stops(m, m, node, pos)
    ensures var e := WalkEnd(p, m, m, known, node, pos, u);
            && DiscoveredIf(m, Walk(Keys(own), p, m, m, known, node, pos, u), Met(e, m, u))
            && (e.Equal? ==> IsInner(e.node))
  {
    hide SameMessage, Unknown, Mismatch, Discovered, Fits, Agree, Collides, WF, Universe, HasReceivedAll, LookedUp;
    UnknownKey(own, p, m, u);
    if SameMessage(m, node.msg) {
      EqualDiscoversNothing(own, p, m, known, node, u);
    } else {
      if m.plen <= pos {
        NotUsedUp(p, m, m, known, node, pos, u);
      }
      MismatchDiscovers(own, p, m, node, Skip(node.msg, pos, m), u);
    }
  }

  lemma UnknownKey(own: Trie, p: Peer, m: Message, u: set<Key>)
    requires Unknown(own, p, m, u)
    ensures Inspectable(m, u) && m.plen == KEY_BITS && m.stored && m.key !in Keys(own) && m.key !in Keys(p.root)
  {
  }

  lemma {:induction false} WalkDiscovers(own: Trie, p: Peer, m: Message, known: Trie, node: Trie, pos: nat, u: set<Key>)
    requires Unknown(own, p, m, u) && Walking(p, m, m, known, node, pos, u) && Fits(own, p, node, u)
    ensures var e := WalkEnd(p, m, m, known, node, pos, u);
            && DiscoveredIf(m, Walk(Keys(own), p, m, m, known, node, pos, u), Met(e, m, u))
            && (e.Equal? ==> IsInner(e.node))
    decreases node
  {
    hide Unknown, Walking, Fits, Siblings, Walk, WalkEnd, Met, EndOK, Skip, CanSkip, SameMessage, Keys, Proper, Safe,
      Ready, Reached;
    UnknownKey(own, p, m, u);
    Skippable(p, m, m, known, node, pos, u);
    if Stops(m, m, node, pos) {
      UnknownStops(own, p, m, known, node, pos, u);
    } else {
      AbsentReached(own, m, node);
      FitsKeys(own, p, node, u);
      WalkDownReady(own, p, m, m, known, node, pos, u);
      WalkDown(Keys(own), p, m, m, known, node, pos, u);
      EndDown(p, m, m, known, node, pos, u);
      var bit := m.key[node.msg.plen];
      SiblingsUnknown(own, p, m, node, bit, u);
      var told, child := Siblings(p, m, node, bit, u), Child(node, bit);
      WalkDiscovers(own, told.peer, m, known, child, node.msg.plen + 1, u);
      DiscoveredThen(m, told, Walk(Keys(own), told.peer, m, m, known, child, node.msg.plen + 1, u),
                     Met(WalkEnd(told.peer, m, m, known, child, node.msg.plen + 1, u), m, u));
    }
  }

  lemma AbsentReached(own: Trie, m: Message, node: Trie)
    requires m.key !in Keys(own)
    ensures Reached(own, m, node)
  {
  }

  lemma DiscoveredThen(m: Message, first: Outcome, second: Outcome, found: bool)
    requires DiscoveredIf(m, second, found)
    ensures DiscoveredIf(m, Then(first, second), found)
  {
    EchoedThen(m.key, first.events, second.events);
  }

  lemma EchoedThen(key: Key, a: seq<Event>, b: seq<Event>)
    ensures Echoed(key, b) ==> Echoed(key, a + b)
  {
    if Echoed(key, b) {
      var q :| Queue(q) in b && q.plen == KEY_BITS && q.key == key && !q.stored;
      assert Queue(q) in a + b;
    }
  }

  lemma SiblingsUnknown(own: Trie, p: Peer, m: Message, node: Trie, bit: bool, u: set<Key>)
    requires Unknown(own, p, m, u) && Fits(own, p, node, u) && !IsLeaf(node) && Keys(node) <= u
    ensures Unknown(own, Siblings(p, m, node, bit, u).peer, m, u)
  {
    Halves(node);
    if m.min <= node.msg.plen {
      FitsHalves(own, p, node, u);
      StillUnknown(own, p, m, Child(node, !bit), u);
    }
  }

  // A summary of ours, or one in the record that is searched in the end, stands for the key.
  ghost predicate Overlooked(own: Trie, p: Peer, m: Message, u: set<Key>)
    requires WFRoot(own) && Keys(own) <= u && Ready(p, u) && Inspectable(m, u) && m.plen == KEY_BITS
  {
    if own.Nil? then Collides(p.root, m)
    else
      || CollidesFrom(own, 0, m)
      || (FullMessageEnd(own, p, m, u);
          var e := MessageEnd(own, p, m, u);
          e.Differs? && Collides(LookedUp(e, m, u).root, m))
  }

  // A key that we lack and have not heard of is reported and recorded when a message carries it,
  // exactly if no summary on the way stands for it.
  lemma NewKeyDiscovered(own: Trie, p: Peer, m: Message, u: set<Key>)
    requires WFRoot(own) && Keys(own) <= u && PeerOK(Keys(own), p, u)
    requires Inspectable(m, u) && m.plen == KEY_BITS && m.stored && m.key !in Keys(own) && m.key !in Keys(p.root)
    ensures Discovered(m, RecvKey(own, p, m, u).0) <==> !Overlooked(own, p, m, u)
  {
    hide WF, Universe, Leaves, Collides, CollidesFrom, WalkEnd, Walk, SameMessage, RemoveDifferences, LookedUp, EndOK,
      Agree;
    assert Unknown(own, p, m, u);
    if own.Nil? {
      AddKeyDiscovers(own, p, m, u);
    } else {
      FullMessageEnd(own, p, m, u);
      RootLength(own);
      ProperNode(own, 0);
      NoAgreement(own, m);
      var (pm, known) := RemoveDifferences(p.root, m);
      KnownBelow(p.root, known);
      WalkDiscovers(own, p, m, known, own, 0, u);
    }
  }

  // ---- Equal trees ------------------------------------------------------------------------------

  lemma SameShapeSameMessage(t: Trie, o: Trie)
    requires Shape(t) == Shape(o) && t.Node? && o.Node? && AllStored(t) && AllStored(o)
    ensures t.msg == o.msg
  {
  }

  // Replicas with the same keys send the same root message, and on receiving it nothing is sent
  // back and no key is reported: the peer has received all that is recorded below what matches.
  lemma EqualTreesFallSilent(own: Trie, other: Trie, p: Peer, u: set<Key>)
    requires OwnOK(own, u) && OwnOK(other, u) && Keys(own) == Keys(other) && PeerOK(Keys(own), p, u)
    ensures RootMessage(own) == RootMessage(other) && Acceptable(RootMessage(other), u)
    ensures var (o, result) := RecvKey(own, p, RootMessage(other), u);
            && result == 0 && !o.confused && (forall e :: e in o.events ==> e.NowHas?)
            && Keys(o.peer.root) <= Keys(p.root)
  {
    if own.Nil? || other.Nil? {
      assert Keys(Nil) == {};
      if own.Node? {
        KeysNonEmpty(own, 0);
      }
      if other.Node? {
        KeysNonEmpty(other, 0);
      }
    } else {
      Canonical(own, other, 0);
      SameShapeSameMessage(own, other);
      OwnMessage(own, 0, own.msg, u);
      SilentWalk(own, p, u);
    }
  }

  lemma SilentWalk(own: Trie, p: Peer, u: set<Key>)
    requires OwnOK(own, u) && own.Node? && PeerOK(Keys(own), p, u) && Inspectable(own.msg, u)
    ensures var (o, result) := RecvKey(own, p, own.msg, u);
            && result == 0 && !o.confused && (forall e :: e in o.events ==> e.NowHas?)
            && Keys(o.peer.root) <= Keys(p.root)
  {
    ProperNode(own, 0);
    var (pm, known) := RemoveDifferences(p.root, own.msg);
    KnownBelow(p.root, known);
    EqualKeysSameMessage(own.msg, own.msg);
    assert forall k :: k in Keys(own) ==> Agree(k, own.msg.key, 0);
    HasReceivedAllSafe(own, p, known, own.msg, u);
    hide SameMessage, PeerOK, EventsOK, Agree, Universe, RemoveDifferences, Within;
    assert RecvKey(own, p, own.msg, u).0 == HasReceivedAll(p, known, u).0;
  }
}
