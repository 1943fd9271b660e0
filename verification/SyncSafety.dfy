/** What one incoming message can do to what is recorded about its sender. */
module SyncSafety {
  import opened SyncKey
  import opened SyncTrie
  import opened SyncSearch
  import opened SyncPeer
  import opened SyncReceive

  // The messages of all nodes of a trie.
  function Messages(t: Trie): set<Message> {
    if t.Nil? then {} else if IsLeaf(t) then {t.msg} else {t.msg} + Messages(t.zero) + Messages(t.one)
  }

  lemma {:induction false} MessagesBelow(sub: Trie, t: Trie)
    requires Below(sub, t)
    ensures Messages(sub) <= Messages(t)
    decreases t
  {
    if sub != t {
      if Below(sub, t.zero) {
        MessagesBelow(sub, t.zero);
      } else {
        MessagesBelow(sub, t.one);
      }
    }
  }

  // The key parts from another one in play at bit n.
  predicate PartsAt(key: Key, u: set<Key>, n: int)
    requires 0 <= n < KEY_BITS
  {
    exists k :: k in u && Agree(k, key, n) && k[n] != key[n]
  }

  // A message that some leaf of a trie over the universe can have: its minimum prefix length is one
  // more than the number of bits it shares with another key.
  predicate LeafOf(m: Message, u: set<Key>) {
    && ValidMessage(m) && m.plen == KEY_BITS && m.key in u
    && (m.min == 0 || PartsAt(m.key, u, m.min - 1))
  }

  lemma SidesPart(t: Trie, min: int, bit: bool, u: set<Key>)
    requires WF(t, min) && !IsLeaf(t) && Keys(t) <= u
    ensures 0 <= t.msg.plen < KEY_BITS && forall a :: a in Keys(Child(t, bit)) ==> PartsAt(a, u, t.msg.plen)
  {
    NodeParts(t, min);
    HalvesDisjoint(t, min);
    KeysNonEmpty(Child(t, !bit), t.msg.plen + 1);
    var k :| k in Keys(Child(t, !bit));
    forall a | a in Keys(Child(t, bit))
      ensures PartsAt(a, u, t.msg.plen)
    {
      assert Agree(k, t.msg.key, t.msg.plen) && Agree(a, t.msg.key, t.msg.plen);
    }
  }

  lemma {:induction false} LeavesOf(t: Trie, min: int, q: Message, u: set<Key>)
    requires WF(t, min) && Keys(t) <= u && q in Messages(t) && q.plen == KEY_BITS
    requires min == 0 || forall a :: a in Keys(t) ==> PartsAt(a, u, min - 1)
    ensures LeafOf(q, u) && q.key in Keys(t)
    decreases t
  {
    hide PartsAt, Agree, SameFrom, XorAll;
    if IsLeaf(t) {
      assert q.key in Keys(t);
    } else {
      NodeParts(t, min);
      HalvesDisjoint(t, min);
      var bit := q in Messages(t.one);
      SidesPart(t, min, bit, u);
      LeavesOf(Child(t, bit), t.msg.plen + 1, q, u);
    }
  }

  // What a callback may say while message `m` is processed by the owner of `own`.
  predicate EventOK(own: Trie, m: Message, e: Event, u: set<Key>) {
    match e
    case Has(key) => m.plen == KEY_BITS && m.stored && key == m.key && key !in Keys(own)
    case HasNot(key) => key in Keys(own)
    case NowHas(key) => key in Keys(own)
    case Queue(q) =>
      || q in Messages(own)
      || (LeafOf(q, u) && !q.stored && q.key == m.key && m.plen == KEY_BITS && m.stored)
  }

  predicate EventsOK(own: Trie, m: Message, events: seq<Event>, u: set<Key>) {
    forall e :: e in events ==> EventOK(own, m, e, u)
  }

  lemma EventsJoin(own: Trie, m: Message, a: seq<Event>, b: seq<Event>, u: set<Key>)
    requires EventsOK(own, m, a, u) && EventsOK(own, m, b, u)
    ensures EventsOK(own, m, a + b, u)
  {
  }

  // The only key that can newly be recorded as the peer's is the one the message carries.
  predicate News(before: map<Key, bool>, after: map<Key, bool>, m: Message) {
    forall k :: k in after && !after[k] ==>
      (k in before && !before[k]) || (m.plen == KEY_BITS && m.stored && k == m.key)
  }

  lemma Symmetric(a: Message, b: Message)
    requires ValidMessage(a) && ValidMessage(b)
    ensures SameMessage(a, b) <==> SameMessage(b, a)
  {
  }

  // Unless a summary was taken for a key, everything recorded about the peer is in order and the
  // callbacks were right.
  ghost predicate Safe(own: Trie, m: Message, p: Peer, o: Outcome, u: set<Key>) {
    !o.confused ==>
      && PeerOK(Keys(own), o.peer, u) && EventsOK(own, m, o.events, u)
      && News(Leaves(p.root), Leaves(o.peer.root), m)
  }

  lemma ThenSafe(own: Trie, m: Message, p: Peer, a: Outcome, b: Outcome, u: set<Key>)
    requires Safe(own, m, p, a, u) && Safe(own, m, a.peer, b, u)
    ensures Safe(own, m, p, Then(a, b), u)
  {
  }

  // A node of our own trie, with everything recorded about the peer in order.
  predicate Fits(own: Trie, p: Peer, node: Trie, u: set<Key>) {
    Proper(own) && Keys(own) <= u && Below(node, own) && Proper(node) && PeerOK(Keys(own), p, u)
  }

  lemma FitsKeys(own: Trie, p: Peer, node: Trie, u: set<Key>)
    requires Fits(own, p, node, u)
    ensures Keys(node) <= Keys(own) <= u && Messages(node) <= Messages(own) && node.msg in Messages(own)
    ensures node.Node? && Proper(node) && Ready(p, u)
    ensures IsLeaf(node) ==> node.msg.key in Keys(node)
  {
    BelowProper(node, own);
    MessagesBelow(node, own);
  }

  lemma FitsHalves(own: Trie, p: Peer, node: Trie, u: set<Key>)
    requires Fits(own, p, node, u) && !IsLeaf(node)
    ensures Fits(own, p, node.zero, u) && Fits(own, p, node.one, u)
  {
    Halves(node);
    BelowTransitive(node.zero, node, own);
    BelowTransitive(node.one, node, own);
  }

  lemma PeerIsMissingSafe(own: Trie, p: Peer, node: Trie, allowRemove: bool, m: Message, u: set<Key>)
    requires Fits(own, p, node, u) && ValidMessage(node.msg) && node.msg.key in Keys(own)
    ensures Ready(p, u) && Safe(own, m, p, PeerIsMissing(p, node, allowRemove, u).0, u)
  {
    hide WF, Leaves, Find, Universe, WithKey, WithoutKey, Messages, Below, SameMessage, Marked;
    FitsKeys(own, p, node, u);
    var key := node.msg.key;
    KeyFound(p.root, node.msg);
    OwnIsMarked(Keys(own), p, key, u);
    if FindMessage(p.root, node.msg).Nil? {
      WithKeyOK(Keys(own), p, key, true, u);
    } else if FindMessage(p.root, node.msg).msg.stored && allowRemove && key in Keys(p.root) {
      WithoutKeyOK(Keys(own), p, key, u);
    }
  }

  // A recorded key of ours is marked as such.
  lemma OwnIsMarked(own: set<Key>, p: Peer, key: Key, u: set<Key>)
    requires PeerOK(own, p, u) && key in own
    ensures key in Keys(p.root) ==> Leaves(p.root)[key]
  {
    assert key in Keys(p.root) && !Leaves(p.root)[key] ==> key in Marked(Leaves(p.root), false);
  }

  lemma EchoSafe(own: Trie, p: Peer, node: Trie, m: Message, u: set<Key>)
    requires Fits(own, p, node, u)
    ensures Ready(p, u) && Safe(own, m, p, EchoMissing(Keys(own), p, node, u), u)
  {
    hide WF, Leaves, Find, Universe, WithKey, Messages, Below, SameMessage, Marked;
    FitsKeys(own, p, node, u);
    NodeMessage(node);
    if node.msg.key in Keys(own) {
      PeerIsMissingSafe(own, p, node, false, m, u);
    }
  }

  lemma {:induction false} MissingLeavesSafe(own: Trie, p: Peer, node: Trie, allowRemove: bool, m: Message, u: set<Key>)
    requires Fits(own, p, node, u) && Keys(node) <= u
    ensures Safe(own, m, p, MissingLeaves(p, node, allowRemove, u), u)
    decreases node
  {
    FitsKeys(own, p, node, u);
    if IsLeaf(node) {
      PeerIsMissingSafe(own, p, node, allowRemove, m, u);
    } else {
      FitsHalves(own, p, node, u);
      Halves(node);
      MissingLeavesSafe(own, p, node.zero, allowRemove, m, u);
      var first := MissingLeaves(p, node.zero, allowRemove, u);
      var second := MissingLeaves(first.peer, node.one, allowRemove, u);
      if !first.confused && !second.confused {
        MissingLeavesSafe(own, first.peer, node.one, allowRemove, m, u);
        EventsJoin(own, m, first.events, second.events, u);
      }
    }
  }

  lemma {:induction false} LeafMessageHolds(t: Trie, min: int, key: Key)
    requires WF(t, min) && key in Keys(t)
    ensures var q := LeafMessage(t, min, key);
            ValidMessage(q) && q.plen == KEY_BITS && q.key == key && q.stored == Leaves(t)[key] && q in Messages(t)
    decreases t
  {
    if !IsLeaf(t) {
      HalvesDisjoint(t, min);
      LeafMessageHolds(Child(t, key[t.msg.plen]), t.msg.plen + 1, key);
    }
  }

  lemma EchoOK(own: Trie, p: Peer, m: Message, u: set<Key>)
    requires Ready(p, u) && ValidMessage(m) && m.plen == KEY_BITS && m.stored && m.key in u
    requires m.key !in Keys(own) && m.key !in Keys(p.root)
    ensures var root := WithKey(p, m.key, false, u).root;
            EventsOK(own, m, [Has(m.key), Queue(LeafMessage(root, 0, m.key))], u)
  {
    var root := WithKey(p, m.key, false, u).root;
    LeafMessageHolds(root, 0, m.key);
    LeavesOf(root, 0, LeafMessage(root, 0, m.key), u);
    hide LeafOf, WF, WFRoot, LeafMessage, Leaves, WithKey, Universe;
  }

  lemma PeerAddKeySafe(own: Trie, p: Peer, m: Message, u: set<Key>)
    requires PeerOK(Keys(own), p, u) && (m.plen == KEY_BITS ==> ValidMessage(m) && m.key in u && m.key !in Keys(own))
    ensures Safe(own, m, p, PeerAddKey(p, m, u), u)
  {
    QueuedNone(own, m, u);
    if m.plen == KEY_BITS && m.stored {
      SearchForKey(p.root, m);
      if FindMessage(p.root, m).Nil? {
        WithKeyOK(Keys(own), p, m.key, false, u);
        EchoOK(own, p, m, u);
        hide PeerOK, EventsOK, Find, FindMessage, LeafMessage;
      }
    }
  }

  lemma QueuedNone(own: Trie, m: Message, u: set<Key>)
    ensures EventsOK(own, m, [], u)
  {
  }

  lemma {:induction false} HasReceivedAllSafe(own: Trie, p: Peer, node: Trie, m: Message, u: set<Key>)
    requires PeerOK(Keys(own), p, u) && (node.Nil? || Proper(node)) && Within(Leaves(node), Leaves(p.root))
    ensures var o := HasReceivedAll(p, node, u).0;
            && PeerOK(Keys(own), o.peer, u) && EventsOK(own, m, o.events, u)
            && (forall e :: e in o.events ==> e.NowHas?)
            && (forall k :: NowHas(k) in o.events <==> k in Marked(Leaves(node), true))
    decreases node
  {
    if node.Node? {
      if IsLeaf(node) {
        LeafMarked(node);
        if node.msg.stored {
          assert node.msg.key in Marked(Leaves(p.root), true);
          WithoutKeyOK(Keys(own), p, node.msg.key, u);
        }
      } else {
        Halves(node);
        HalvesMarked(Leaves(node.zero), Leaves(node.one), Leaves(p.root));
        MarkedUnion(Leaves(node.zero), Leaves(node.one));
        hide Within, PeerOK, EventOK, Marked, Proper, Leaves;
        HasReceivedAllSafe(own, p, node.zero, m, u);
        var first := HasReceivedAll(p, node.zero, u).0;
        HasReceivedAllSafe(own, first.peer, node.one, m, u);
        EventsJoin(own, m, first.events, HasReceivedAll(first.peer, node.one, u).0.events, u);
      }
    }
  }

  lemma QueuedOK(own: Trie, m: Message, a: Message, b: Message, u: set<Key>)
    requires a in Messages(own) && b in Messages(own)
    ensures EventsOK(own, m, [], u) && EventsOK(own, m, [Queue(a)], u) && EventsOK(own, m, [Queue(a), Queue(b)], u)
  {
  }

  lemma AtEndSafe(own: Trie, p: Peer, pm: Message, node: Trie, pos: nat, m: Message, u: set<Key>)
    requires Fits(own, p, node, u) && Keys(node) <= u
    requires ValidMessage(pm) && pm.plen <= KEY_BITS - 2 && pm.plen <= pos <= node.msg.plen
    ensures Safe(own, m, p, AtEnd(p, pm, node, pos, u), u)
  {
    FitsKeys(own, p, node, u);
    NodeMessage(node);
    if IsBlank(pm) {
      MissingLeavesSafe(own, p, node, true, m, u);
    } else if node.msg.plen > pm.plen {
      QueuedOK(own, m, node.msg, node.msg, u);
    } else {
      hide PeerOK, EventsOK, EventOK, Messages, SameMessage, Universe, XorInto, Leaves, IsBlank, Agree, SameFrom,
        WFRoot;
      var found := Find(node, node.msg.min, pos, XorMessage(node.msg.key, pm));
      if found.Node? {
        BelowProper(found, node);
        BelowTransitive(found, node, own);
        MissingLeavesSafe(own, p, found, true, m, u);
      } else {
        FitsHalves(own, p, node, u);
        FitsKeys(own, p, node.zero, u);
        FitsKeys(own, p, node.one, u);
        QueuedOK(own, m, node.zero.msg, node.one.msg, u);
      }
    }
  }

  lemma MismatchSafe(own: Trie, p: Peer, pm: Message, node: Trie, q: nat, m: Message, u: set<Key>)
    requires Fits(own, p, node, u) && Keys(node) <= u && Inspectable(pm, u)
    requires m.plen == KEY_BITS ==> pm == m && m.key !in Keys(own)
    requires SameHeader(pm, m)
    ensures Safe(own, m, p, Mismatch(p, pm, node, q, u), u)
  {
    FitsKeys(own, p, node, u);
    var told := Outcome(p, [], false);
    if q >= pm.min && pm.stored {
      MissingLeavesSafe(own, p, node, false, m, u);
      told := MissingLeaves(p, node, false, u);
      if pm.plen != KEY_BITS {
        EventsJoin(own, m, told.events, [Queue(node.msg)], u);
      }
    }
    if pm.plen == KEY_BITS {
      PeerAddKeySafe(own, told.peer, pm, u);
      EventsJoin(own, m, told.events, PeerAddKey(told.peer, pm, u).events, u);
    }
  }

  lemma SiblingsSafe(own: Trie, p: Peer, pm: Message, node: Trie, bit: bool, m: Message, u: set<Key>)
    requires Fits(own, p, node, u) && Keys(node) <= u && !IsLeaf(node)
    ensures Safe(own, m, p, Siblings(p, pm, node, bit, u), u)
  {
    if pm.min <= node.msg.plen && pm.stored {
      FitsHalves(own, p, node, u);
      FitsKeys(own, p, node, u);
      Halves(node);
      MissingLeavesSafe(own, p, Child(node, !bit), false, m, u);
    }
  }

  // A full key can only be at or below the node that the walk has reached.
  predicate Reached(own: Trie, m: Message, node: Trie) {
    m.plen == KEY_BITS && m.key in Keys(own) ==> m.key in Keys(node)
  }

  lemma ReachedNotPast(own: Trie, m: Message, node: Trie, q: nat)
    requires Proper(node) && Reached(own, m, node) && q < node.msg.plen && node.msg.key[q] != m.key[q]
    ensures m.plen == KEY_BITS ==> m.key !in Keys(own)
  {
  }

  lemma ReachedChild(own: Trie, m: Message, key: Key, node: Trie)
    requires Proper(node) && !IsLeaf(node) && Reached(own, m, node) && (m.plen == KEY_BITS ==> key == m.key)
    ensures Reached(own, m, Child(node, key[node.msg.plen]))
  {
  }

  // The loop ends at this node.
  predicate Stops(m: Message, pm: Message, node: Trie, pos: nat)
    requires node.Node? && ValidMessage(node.msg) && ValidMessage(m) && SameHeader(pm, m) && pos <= node.msg.plen
    requires SameMessage(m, node.msg) || pm.plen <= pos || CanSkip(node.msg, pos, pm)
  {
    SameMessage(m, node.msg) || SameMessage(pm, node.msg) || pm.plen <= pos ||
    (var q := Skip(node.msg, pos, pm); q < node.msg.plen && q < pm.plen)
  }

  lemma Skippable(p: Peer, m: Message, pm: Message, known: Trie, node: Trie, pos: nat, u: set<Key>)
    requires Walking(p, m, pm, known, node, pos, u)
    ensures node.Node? && ValidMessage(node.msg) && ValidMessage(m) && SameHeader(pm, m) && pos <= node.msg.plen
    ensures Ready(p, u) && Proper(node) && Keys(node) <= u && (m.plen == KEY_BITS ==> pm == m)
    ensures SameMessage(m, node.msg) || pm.plen <= pos || CanSkip(node.msg, pos, pm)
  {
  }

  // The bits of a full key are never used up at a node that is not its leaf.
  lemma NotUsedUp(p: Peer, m: Message, pm: Message, known: Trie, node: Trie, pos: nat, u: set<Key>)
    requires Walking(p, m, pm, known, node, pos, u) && ValidMessage(m) && node.Node? && ValidMessage(node.msg)
    requires !SameMessage(m, node.msg) && pm.plen <= pos
    ensures pm.plen <= KEY_BITS - 2
  {
    NodeMessage(node);
  }

  lemma WalkStopsSafe(own: Trie, p: Peer, m: Message, pm: Message, known: Trie, node: Trie, pos: nat, u: set<Key>)
    requires Walking(p, m, pm, known, node, pos, u)
    requires Fits(own, p, node, u) && Reached(own, m, node)
    requires ValidMessage(node.msg) && (SameMessage(m, node.msg) || pm.plen <= pos || CanSkip(node.msg, pos, pm))
    requires Stops(m, pm, node, pos)
    ensures Safe(own, m, p, Walk(Keys(own), p, m, pm, known, node, pos, u), u)
  {
    FitsKeys(own, p, node, u);
    QueuedOK(own, m, node.msg, node.msg, u);
    assert PeerOK(Keys(own), p, u);
    hide EventsOK, EventOK, PeerOK, SameMessage, Agree, WF, Leaves, AtEnd, Mismatch, Siblings, HasReceivedAll,
      EchoMissing, Messages, Universe;
    if SameMessage(m, node.msg) {
      if m.stored {
        HasReceivedAllSafe(own, p, known, m, u);
      } else {
        EchoSafe(own, p, node, m, u);
      }
    } else if SameMessage(pm, node.msg) {
    } else if pm.plen <= pos {
      AtEndSafe(own, p, pm, node, pos, m, u);
    } else {
      var q := Skip(node.msg, pos, pm);
      if m.plen == KEY_BITS {
        ReachedNotPast(own, m, node, q);
      }
      MismatchSafe(own, p, pm, node, q, m, u);
    }
  }

  // One turn of the loop that stays at the node, and one that goes on to a child.
  lemma WalkOn(own: set<Key>, p: Peer, m: Message, pm: Message, known: Trie, node: Trie, pos: nat, u: set<Key>)
    requires own <= u && Walking(p, m, pm, known, node, pos, u)
    requires node.Node? && ValidMessage(node.msg) && CanSkip(node.msg, pos, pm) && !Stops(m, pm, node, pos)
    requires m.plen <= Skip(node.msg, pos, pm)
    ensures var q := Skip(node.msg, pos, pm);
            && pos < q < KEY_BITS && Walking(p, m, pm, known, node, q, u)
            && Walk(own, p, m, pm, known, node, pos, u) == Walk(own, p, m, pm, known, node, q, u)
  {
  }

  lemma WalkDown(own: set<Key>, p: Peer, m: Message, pm: Message, known: Trie, node: Trie, pos: nat, u: set<Key>)
    requires own <= u && Walking(p, m, pm, known, node, pos, u)
    requires node.Node? && ValidMessage(node.msg) && CanSkip(node.msg, pos, pm) && !Stops(m, pm, node, pos)
    requires m.plen > Skip(node.msg, pos, pm)
    ensures !IsLeaf(node) && node.msg.plen < KEY_BITS && Proper(node)
    ensures var bit := pm.key[node.msg.plen];
            var told := Siblings(p, pm, node, bit, u);
            && Walking(told.peer, m, pm, known, Child(node, bit), node.msg.plen + 1, u)
            && Walk(own, p, m, pm, known, node, pos, u) ==
               Then(told, Walk(own, told.peer, m, pm, known, Child(node, bit), node.msg.plen + 1, u))
  {
    hide SameMessage, Agree, WF, Leaves, AtEnd, Mismatch, Siblings, HasReceivedAll, EchoMissing, Universe, Keys;
    StepDown(p, m, pm, known, node, pos, u);
  }

  lemma WalkDownReady(own: Trie, p: Peer, m: Message, pm: Message, known: Trie, node: Trie, pos: nat, u: set<Key>)
    requires Walking(p, m, pm, known, node, pos, u) && Fits(own, p, node, u) && Reached(own, m, node)
    requires node.Node? && ValidMessage(node.msg) && CanSkip(node.msg, pos, pm) && !Stops(m, pm, node, pos)
    requires m.plen > Skip(node.msg, pos, pm)
    ensures !IsLeaf(node) && node.msg.plen < KEY_BITS && Proper(node) && Ready(p, u) && Keys(node) <= u
    ensures var bit := pm.key[node.msg.plen];
            var told := Siblings(p, pm, node, bit, u);
            && Safe(own, m, p, told, u)
            && Walking(told.peer, m, pm, known, Child(node, bit), node.msg.plen + 1, u)
            && Fits(own, told.peer, Child(node, bit), u) && Reached(own, m, Child(node, bit))
  {
    WalkDown(Keys(own), p, m, pm, known, node, pos, u);
    FitsKeys(own, p, node, u);
    hide Walk, Skip, Siblings, PeerOK, EventsOK, Proper, SameMessage, Agree, WF, Leaves, Universe, Below, Messages,
      Within;
    var bit := pm.key[node.msg.plen];
    SiblingsSafe(own, p, pm, node, bit, m, u);
    ReachedChild(own, m, pm.key, node);
    ChildFits(own, p, node, bit, Siblings(p, pm, node, bit, u).peer, u);
  }

  lemma WalkDownSafe(own: Trie, p: Peer, m: Message, pm: Message, known: Trie, node: Trie, pos: nat, u: set<Key>)
    requires Walking(p, m, pm, known, node, pos, u) && Fits(own, p, node, u) && Reached(own, m, node)
    requires node.Node? && ValidMessage(node.msg) && CanSkip(node.msg, pos, pm) && !Stops(m, pm, node, pos)
    requires m.plen > Skip(node.msg, pos, pm)
    requires !IsLeaf(node) && node.msg.plen < KEY_BITS
    requires var told := Siblings(p, pm, node, pm.key[node.msg.plen], u);
             var child := Child(node, pm.key[node.msg.plen]);
             && Walking(told.peer, m, pm, known, child, node.msg.plen + 1, u)
             && Safe(own, m, told.peer, Walk(Keys(own), told.peer, m, pm, known, child, node.msg.plen + 1, u), u)
    ensures Safe(own, m, p, Walk(Keys(own), p, m, pm, known, node, pos, u), u)
  {
    hide Walk, Skip, Siblings, PeerOK, EventsOK, Proper, SameMessage, Keys, Safe, Then, Walking, Ready, Stops, CanSkip,
      Fits;
    FitsKeys(own, p, node, u);
    WalkDown(Keys(own), p, m, pm, known, node, pos, u);
    WalkDownReady(own, p, m, pm, known, node, pos, u);
    var told, child := Siblings(p, pm, node, pm.key[node.msg.plen], u), Child(node, pm.key[node.msg.plen]);
    ThenSafe(own, m, p, told, Walk(Keys(own), told.peer, m, pm, known, child, node.msg.plen + 1, u), u);
  }

  lemma {:induction false} WalkSafe(own: Trie, p: Peer, m: Message, pm: Message, known: Trie, node: Trie, pos: nat,
      u: set<Key>)
    requires Walking(p, m, pm, known, node, pos, u)
    requires Fits(own, p, node, u) && Reached(own, m, node)
    ensures Safe(own, m, p, Walk(Keys(own), p, m, pm, known, node, pos, u), u)
    decreases node, KEY_BITS - pos
  {
    hide EventsOK, PeerOK, SameMessage, Proper, Siblings, Walk, Skip, Keys, CanSkip, Fits, Then, Safe, Walking, Ready,
      Reached;
    FitsKeys(own, p, node, u);
    Skippable(p, m, pm, known, node, pos, u);
    if Stops(m, pm, node, pos) {
      WalkStopsSafe(own, p, m, pm, known, node, pos, u);
    } else if m.plen <= Skip(node.msg, pos, pm) {
      WalkOn(Keys(own), p, m, pm, known, node, pos, u);
      WalkSafe(own, p, m, pm, known, node, Skip(node.msg, pos, pm), u);
    } else {
      WalkDownReady(own, p, m, pm, known, node, pos, u);
      var child, after := Child(node, pm.key[node.msg.plen]), Siblings(p, pm, node, pm.key[node.msg.plen], u).peer;
      WalkSafe(own, after, m, pm, known, child, node.msg.plen + 1, u);
      WalkDownSafe(own, p, m, pm, known, node, pos, u);
    }
  }

  lemma ChildFits(own: Trie, p: Peer, node: Trie, bit: bool, after: Peer, u: set<Key>)
    requires Fits(own, p, node, u) && !IsLeaf(node) && PeerOK(Keys(own), after, u)
    ensures Fits(own, after, Child(node, bit), u)
  {
    FitsHalves(own, p, node, u);
  }

  // Whatever arrives, unless it has a summary taken for a key, the record about its sender stays in
  // order and the callbacks tell the truth about our own keys.
  lemma RecvKeySafe(own: Trie, p: Peer, m: Message, u: set<Key>)
    requires WFRoot(own) && Keys(own) <= u && PeerOK(Keys(own), p, u) && Acceptable(m, u)
    ensures Safe(own, m, p, RecvKey(own, p, m, u).0, u)
  {
    if 0 <= m.min <= m.plen <= NO_NODE {
      if own.Nil? {
        PeerAddKeySafe(own, p, m, u);
      } else {
        ProperNode(own, 0);
        if m.plen == NO_NODE {
          MissingLeavesSafe(own, p, own, false, m, u);
        } else {
          var (pm, known) := RemoveDifferences(p.root, m);
          KnownBelow(p.root, known);
          assert m.plen == KEY_BITS ==> forall k :: k in Keys(own) ==> Agree(k, m.key, 0);
          WalkSafe(own, p, m, pm, known, own, 0, u);
        }
      }
    }
  }
}
