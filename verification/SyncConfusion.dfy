/** When a summary is taken for a key: for each operation of sync_keys.cpp the exact condition, on the
    nodes of the tries at hand. */
module SyncConfusion {
  import opened SyncKey
  import opened SyncTrie
  import opened SyncSearch
  import opened SyncPeer
  import opened SyncReceive
  import opened SyncSafety

  // ---- The first summary on the way that compares equal -----------------------------------------

  ghost predicate FirstMatch(s: Trie, t: Trie, m: Message)
    requires ValidMessage(m)
  {
    t.Node? && Matches(s, t, t.msg.plen, m) && forall r :: Matches(r, t, t.msg.plen, m) ==> s.msg.plen <= r.msg.plen
  }

  // The first summary that compares equal to the message is marked as stored.
  ghost predicate CollidesStored(t: Trie, m: Message)
    requires ValidMessage(m)
  {
    exists s :: FirstMatch(s, t, m) && s.msg.stored
  }

  // Nodes on the way have different prefix lengths.
  lemma {:induction false} SameLength(s: Trie, r: Trie, t: Trie, min: int, p: int, m: Message)
    requires WF(t, min) && 0 <= p <= t.msg.plen && OnWay(s, t, p, m) && OnWay(r, t, p, m) && s.msg.plen == r.msg.plen
    ensures s == r
    decreases t
  {
    BelowPrefix(s, t, min);
    BelowPrefix(r, t, min);
    if s != t && r != t {
      NodeParts(t, min);
      WayDown(s, t, min, p, m);
      WayDown(r, t, min, p, m);
      SameLength(s, r, Child(t, m.key[t.msg.plen]), t.msg.plen + 1, t.msg.plen + 1, m);
    }
  }

  // It is what the search finds.
  lemma FirstIsFound(t: Trie, m: Message)
    requires WFRoot(t) && ValidMessage(m)
    ensures forall s :: FirstMatch(s, t, m) <==> s == FindMessage(t, m) && IsInner(s)
  {
    if t.Node? {
      hide WF, SameMessage, Below, ValidMessage;
      RootLength(t);
      FindFirst(t, 0, t.msg.plen, m);
      var found := FindMessage(t, m);
      forall s | FirstMatch(s, t, m)
        ensures s == found && IsInner(s)
      {
        SameLength(s, found, t, 0, t.msg.plen, m);
      }
    }
  }

  lemma StoredMatch(t: Trie, m: Message)
    requires WFRoot(t) && ValidMessage(m)
    ensures CollidesStored(t, m) <==> IsInner(FindMessage(t, m)) && FindMessage(t, m).msg.stored
  {
    FirstIsFound(t, m);
    hide FirstMatch, WF, FindMessage;
    assert FirstMatch(FindMessage(t, m), t, m) <==> IsInner(FindMessage(t, m));
  }

  lemma RootLength(t: Trie)
    requires WF(t, 0)
    ensures 0 == t.msg.min <= t.msg.plen && ValidMessage(t.msg)
  {
  }

  // ---- Keys the peer lacks ----------------------------------------------------------------------

  // Confused exactly if removal is allowed, the key is not recorded, and the first summary on its way
  // that compares equal is marked.
  lemma PeerIsMissingConfused(p: Peer, node: Trie, allowRemove: bool, u: set<Key>)
    requires Ready(p, u) && Proper(node) && IsLeaf(node) && node.msg.key in u
    ensures ValidMessage(node.msg)
    ensures PeerIsMissing(p, node, allowRemove, u).0.confused <==>
            allowRemove && node.msg.key !in Keys(p.root) && CollidesStored(p.root, node.msg)
  {
    hide WF, WFRoot, CollidesStored, SameMessage, Find, Universe, WithKey, WithoutKey;
    NodeMessage(node);
    SearchForKey(p.root, node.msg);
    StoredMatch(p.root, node.msg);
  }

  // An echo of a node is confused exactly if the record has no match for it and it is not a key of ours.
  lemma EchoMissingConfused(own: set<Key>, p: Peer, node: Trie, u: set<Key>)
    requires own <= u && Ready(p, u) && Proper(node)
    ensures ValidMessage(node.msg)
    ensures EchoMissing(own, p, node, u).confused <==> FindMessage(p.root, node.msg).Nil? && node.msg.key !in own
  {
    NodeMessage(node);
  }

  // The record when the turn of a key below the node comes in peer_missing_leaf_nodes.
  function Turn(p: Peer, node: Trie, allowRemove: bool, key: Key, ghost u: set<Key>): (q: Peer)
    requires Ready(p, u) && Proper(node) && Keys(node) <= u && key in Keys(node)
    ensures Ready(q, u)
    decreases node
  {
    if IsLeaf(node) then p
    else
      Halves(node);
      if key in Keys(node.zero) then Turn(p, node.zero, allowRemove, key, u)
      else Turn(MissingLeaves(p, node.zero, allowRemove, u).peer, node.one, allowRemove, key, u)
  }

  // The message of the leaf that holds the key.
  function LeafOn(node: Trie, key: Key): (m: Message)
    requires Proper(node) && key in Keys(node)
    ensures ValidMessage(m) && m.plen == KEY_BITS && m.key == key && m in Messages(node)
  {
    LeafMessageHolds(node, node.msg.min, key);
    LeafMessage(node, node.msg.min, key)
  }

  lemma LeafBelow(node: Trie, key: Key)
    requires Proper(node) && key in Keys(node)
    ensures IsLeaf(node) ==> Keys(node) == {key} && LeafOn(node, key) == node.msg
    ensures !IsLeaf(node) ==> Proper(node.zero) && Proper(node.one)
    ensures !IsLeaf(node) && key in Keys(node.zero) ==> LeafOn(node, key) == LeafOn(node.zero, key)
    ensures !IsLeaf(node) && key !in Keys(node.zero) ==>
              key in Keys(node.one) && LeafOn(node, key) == LeafOn(node.one, key)
  {
    hide Agree, SameFrom, XorAll, Under, Leaves;
    if IsLeaf(node) {
      LeafHolds(node, key);
    } else {
      Halves(node);
      NodeParts(node, node.msg.min);
      HalvesDisjoint(node, node.msg.min);
    }
  }

  ghost predicate Settles(p: Peer, node: Trie, key: Key, u: set<Key>)
    requires Ready(p, u) && Proper(node) && Keys(node) <= u && key in Keys(node)
  {
    var root := Turn(p, node, true, key, u).root;
    key in Keys(root) || !CollidesStored(root, LeafOn(node, key))
  }

  // Nothing is confused unless removal is allowed; then exactly a key that is not recorded, and whose
  // turn comes when the first summary on its way that compares equal is marked, does so.
  lemma {:induction false} MissingLeavesConfused(p: Peer, node: Trie, allowRemove: bool, u: set<Key>)
    requires Ready(p, u) && Proper(node) && Keys(node) <= u
    ensures MissingLeaves(p, node, allowRemove, u).confused <==>
            allowRemove && exists k :: k in Keys(node) && !Settles(p, node, k, u)
    decreases node
  {
    hide CollidesStored, WF, WFRoot, Universe, Leaves, PeerIsMissing, SameMessage, ValidMessage;
    if IsLeaf(node) {
      var key := node.msg.key;
      NodeMessage(node);
      LeafBelow(node, key);
      PeerIsMissingConfused(p, node, allowRemove, u);
      assert allowRemove && !Settles(p, node, key, u) ==> exists k :: k in Keys(node) && !Settles(p, node, k, u);
    } else {
      Halves(node);
      var first := MissingLeaves(p, node.zero, allowRemove, u).peer;
      MissingLeavesConfused(p, node.zero, allowRemove, u);
      MissingLeavesConfused(first, node.one, allowRemove, u);
      forall k | k in Keys(node)
        ensures allowRemove ==>
                  (Settles(p, node, k, u) <==>
                   if k in Keys(node.zero) then Settles(p, node.zero, k, u) else Settles(first, node.one, k, u))
      {
        LeafBelow(node, k);
      }
      if allowRemove {
        assert forall k :: k in Keys(node.zero) ==> k in Keys(node);
        assert forall k :: k in Keys(node.one) ==> k in Keys(node) && k !in Keys(node.zero);
      }
    }
  }

  // ---- One message ------------------------------------------------------------------------------

  // Where the loop of recv_key ends, and the record then.
  datatype End =
    | Equal(peer: Peer, node: Trie)                // the message compares equal to the node
    | Known(node: Trie)                            // what is left of it after remove_differences does
    | UsedUp(peer: Peer, node: Trie, pos: nat)     // its prefix has been used up
    | Differs(peer: Peer, node: Trie, bit: nat)    // its prefix differs from the node's at a bit

  predicate EndOK(e: End, m: Message, pm: Message, u: set<Key>) {
    match e
    case Equal(q, node) => Ready(q, u) && Proper(node) && (IsLeaf(node) ==> node.msg.key in u)
    case Known(node) => true
    case UsedUp(q, node, pos) =>
      Ready(q, u) && Proper(node) && Keys(node) <= u && pm.plen <= pos <= node.msg.plen && ValidMessage(pm) &&
          pm.plen <= KEY_BITS - 2
    case Differs(q, node, bit) => Ready(q, u) && Proper(node) && Keys(node) <= u && Inspectable(pm, u)
  }

  function WalkEnd(p: Peer, m: Message, pm: Message, known: Trie, node: Trie, pos: nat, ghost u: set<Key>): (e: End)
    requires Walking(p, m, pm, known, node, pos, u)
    ensures EndOK(e, m, pm, u)
    decreases node, KEY_BITS - pos
  {
    NodeMessage(node);
    if SameMessage(m, node.msg) then Equal(p, node)
    else if SameMessage(pm, node.msg) then Known(node)
    else if pm.plen <= pos then UsedUp(p, node, pos)
    else
      SkipReady(p, m, pm, known, node, pos, u);
      var q := Skip(node.msg, pos, pm);
      if q < node.msg.plen && q < pm.plen then Differs(p, node, q)
      else if m.plen <= q then WalkEnd(p, m, pm, known, node, q, u)
      else
        StepDown(p, m, pm, known, node, pos, u);
        var bit := GetBit(pm.key, q);
        WalkEnd(Siblings(p, pm, node, bit, u).peer, m, pm, known, Child(node, bit), q + 1, u)
  }

  // The node whose leaves are settled with the peer when the prefix of the message is used up.
  function ToSettle(pm: Message, node: Trie, pos: nat): (s: Trie)
    requires Proper(node) && ValidMessage(pm) && pm.plen <= KEY_BITS - 2 && pm.plen <= pos <= node.msg.plen
    ensures s.Node? ==> Proper(s) && Keys(s) <= Keys(node)
  {
    NodeMessage(node);
    if IsBlank(pm) then node
    else if node.msg.plen > pm.plen then Nil
    else
      var found := Find(node, node.msg.min, pos, XorMessage(node.msg.key, pm));
      if found.Node? then
        BelowProper(found, node);
        found
      else Nil
  }

  // An echo that compares equal to a summary of ours that is not a key of ours and for which there is
  // no match in the record, or a key that does not settle.
  ghost predicate EndConfuses(own: set<Key>, e: End, m: Message, pm: Message, u: set<Key>)
    requires EndOK(e, m, pm, u)
  {
    match e
    case Equal(q, node) =>
      NodeMessage(node);
      !m.stored && node.msg.key !in own && FindMessage(q.root, node.msg).Nil?
    case UsedUp(q, node, pos) =>
      var s := ToSettle(pm, node, pos);
      s.Node? && exists k :: k in Keys(s) && !Settles(q, s, k, u)
    case _ => false
  }

  lemma AtEndConfused(own: set<Key>, p: Peer, pm: Message, node: Trie, pos: nat, m: Message, u: set<Key>)
    requires Ready(p, u) && Proper(node) && Keys(node) <= u
    requires ValidMessage(pm) && pm.plen <= KEY_BITS - 2 && pm.plen <= pos <= node.msg.plen
    ensures AtEnd(p, pm, node, pos, u).confused <==> EndConfuses(own, UsedUp(p, node, pos), m, pm, u)
  {
    hide Settles, WF, WFRoot, Universe, Leaves, MissingLeaves, IsBlank, Find, XorInto, SameMessage;
    var s := ToSettle(pm, node, pos);
    if s.Node? {
      MissingLeavesConfused(p, s, true, u);
    }
  }

  lemma StopsConfused(own: set<Key>, p: Peer, m: Message, pm: Message, known: Trie, node: Trie, pos: nat, u: set<Key>)
    requires own <= u && Walking(p, m, pm, known, node, pos, u)
    requires ValidMessage(node.msg) && (SameMessage(m, node.msg) || pm.plen <= pos || CanSkip(node.msg, pos, pm))
    requires Stops(m, pm, node, pos)
    ensures Walk(own, p, m, pm, known, node, pos, u).confused <==>
            EndConfuses(own, WalkEnd(p, m, pm, known, node, pos, u), m, pm, u)
  {
    hide WF, WFRoot, Universe, Leaves, Agree, SameMessage, AtEnd, Mismatch, Siblings, HasReceivedAll, EchoMissing,
      Settles, ToSettle, FindMessage, CollidesStored;
    NodeMessage(node);
    if SameMessage(m, node.msg) {
      EchoMissingConfused(own, p, node, u);
    } else if SameMessage(pm, node.msg) {
    } else if pm.plen <= pos {
      NotUsedUp(p, m, pm, known, node, pos, u);
      AtEndConfused(own, p, pm, node, pos, m, u);
    }
  }

  // recv_key passes over the nodes on the way to where it ends.
  lemma EndOn(p: Peer, m: Message, pm: Message, known: Trie, node: Trie, pos: nat, u: set<Key>)
    requires Walking(p, m, pm, known, node, pos, u)
    requires node.Node? && ValidMessage(node.msg) && CanSkip(node.msg, pos, pm) && !Stops(m, pm, node, pos)
    requires m.plen <= Skip(node.msg, pos, pm)
    ensures var q := Skip(node.msg, pos, pm);
            && pos < q < KEY_BITS && Walking(p, m, pm, known, node, q, u)
            && WalkEnd(p, m, pm, known, node, pos, u) == WalkEnd(p, m, pm, known, node, q, u)
  {
    hide WF, WFRoot, Universe, Leaves, Agree, SameMessage, Siblings;
    WalkOn({}, p, m, pm, known, node, pos, u);
  }

  lemma EndDown(p: Peer, m: Message, pm: Message, known: Trie, node: Trie, pos: nat, u: set<Key>)
    requires Walking(p, m, pm, known, node, pos, u)
    requires node.Node? && ValidMessage(node.msg) && CanSkip(node.msg, pos, pm) && !Stops(m, pm, node, pos)
    requires m.plen > Skip(node.msg, pos, pm)
    ensures !IsLeaf(node) && node.msg.plen < KEY_BITS && Proper(node)
    ensures var bit := pm.key[node.msg.plen];
            var told := Siblings(p, pm, node, bit, u).peer;
            && Walking(told, m, pm, known, Child(node, bit), node.msg.plen + 1, u)
            && WalkEnd(p, m, pm, known, node, pos, u) ==
               WalkEnd(told, m, pm, known, Child(node, bit), node.msg.plen + 1, u)
  {
    hide WF, WFRoot, Universe, Leaves, Agree, SameMessage, Siblings;
    WalkDown({}, p, m, pm, known, node, pos, u);
  }

  lemma {:induction false} WalkConfused(own: set<Key>, p: Peer, m: Message, pm: Message, known: Trie, node: Trie,
      pos: nat, u: set<Key>)
    requires own <= u && Walking(p, m, pm, known, node, pos, u)
    ensures Walk(own, p, m, pm, known, node, pos, u).confused <==>
            EndConfuses(own, WalkEnd(p, m, pm, known, node, pos, u), m, pm, u)
    decreases node, KEY_BITS - pos
  {
    hide Walking, Walk, WalkEnd, EndConfuses, EndOK, SameMessage, Siblings, Proper, Keys, Ready, CanSkip, Skip;
    Skippable(p, m, pm, known, node, pos, u);
    if Stops(m, pm, node, pos) {
      StopsConfused(own, p, m, pm, known, node, pos, u);
    } else if m.plen <= Skip(node.msg, pos, pm) {
      WalkOn(own, p, m, pm, known, node, pos, u);
      EndOn(p, m, pm, known, node, pos, u);
      WalkConfused(own, p, m, pm, known, node, Skip(node.msg, pos, pm), u);
    } else {
      WalkDown(own, p, m, pm, known, node, pos, u);
      EndDown(p, m, pm, known, node, pos, u);
      var bit := pm.key[node.msg.plen];
      WalkConfused(own, Siblings(p, pm, node, bit, u).peer, m, pm, known, Child(node, bit), node.msg.plen + 1, u);
    }
  }

  function MessageEnd(own: Trie, p: Peer, m: Message, ghost u: set<Key>): (e: End)
    requires WF(own, 0) && Keys(own) <= u && Ready(p, u) && Inspectable(m, u)
    ensures EndOK(e, m, RemoveDifferences(p.root, m).0, u)
  {
    ProperNode(own, 0);
    var (pm, known) := RemoveDifferences(p.root, m);
    KnownBelow(p.root, known);
    assert m.plen == KEY_BITS ==> forall k :: k in Keys(own) ==> Agree(k, m.key, 0);
    WalkEnd(p, m, pm, known, own, 0, u)
  }

  ghost predicate MessageConfuses(own: Trie, p: Peer, m: Message, u: set<Key>)
    requires WFRoot(own) && Keys(own) <= u && Ready(p, u) && Acceptable(m, u)
  {
    own.Node? && m.min <= m.plen <= KEY_BITS &&
        EndConfuses(Keys(own), MessageEnd(own, p, m, u), m, RemoveDifferences(p.root, m).0, u)
  }

  lemma RecvKeyConfused(own: Trie, p: Peer, m: Message, u: set<Key>)
    requires WFRoot(own) && Keys(own) <= u && Ready(p, u) && Acceptable(m, u)
    ensures RecvKey(own, p, m, u).0.confused <==> MessageConfuses(own, p, m, u)
  {
    hide WF, Universe, Leaves, Walk, WalkEnd, EndConfuses, EndOK, SameMessage, MissingLeaves, PeerAddKey,
      RemoveDifferences;
    if own.Node? && m.min <= m.plen {
      ProperNode(own, 0);
      if m.plen == NO_NODE {
        MissingLeavesConfused(p, own, false, u);
      } else if m.plen < NO_NODE {
        MessageStarts(own, p, m, u);
      }
    } else if own.Nil? && m.min <= m.plen <= NO_NODE {
      AddingIsClear(p, m, u);
    }
  }

  lemma AddingIsClear(p: Peer, m: Message, u: set<Key>)
    requires Ready(p, u) && Acceptable(m, u) && m.min <= m.plen <= NO_NODE
    ensures !PeerAddKey(p, m, u).confused
  {
  }

  lemma MessageStarts(own: Trie, p: Peer, m: Message, u: set<Key>)
    requires WF(own, 0) && Keys(own) <= u && Ready(p, u) && Inspectable(m, u)
    ensures RecvKey(own, p, m, u).0.confused <==>
            EndConfuses(Keys(own), MessageEnd(own, p, m, u), m, RemoveDifferences(p.root, m).0, u)
  {
    hide WF, Universe, Walk, WalkEnd, EndConfuses, EndOK, SameMessage, MissingLeaves, PeerAddKey, RemoveDifferences,
      Agree;
    NoAgreement(own, m);
    ProperNode(own, 0);
    RootLength(own);
    var (pm, known) := RemoveDifferences(p.root, m);
    KnownBelow(p.root, known);
    WalkConfused(Keys(own), p, m, pm, known, own, 0, u);
  }

  lemma NoAgreement(own: Trie, m: Message)
    ensures forall k :: k in Keys(own) ==> Agree(k, m.key, 0)
  {
  }

  // No message that carries a stored key confuses, whatever the keys.
  lemma StoredKeyIsClear(own: Trie, p: Peer, m: Message, u: set<Key>)
    requires WFRoot(own) && Keys(own) <= u && Ready(p, u) && Inspectable(m, u) && m.plen == KEY_BITS && m.stored
    ensures !RecvKey(own, p, m, u).0.confused
  {
    RecvKeyConfused(own, p, m, u);
  }

  // ---- Where a full key ends --------------------------------------------------------------------

  // The first summary from bit p on that compares equal to the message.
  ghost predicate FirstFrom(s: Trie, t: Trie, p: int, m: Message)
    requires ValidMessage(m)
  {
    Matches(s, t, p, m) && forall r :: Matches(r, t, p, m) ==> s.msg.plen <= r.msg.plen
  }

  lemma EndHere(node: Trie, m: Message)
    requires Proper(node) && ValidMessage(m) && ValidMessage(node.msg)
    ensures IsLeaf(node) ==> !CollidesFrom(node, node.msg.min, m)
    ensures !IsLeaf(node) && SameMessage(m, node.msg) ==>
              FirstFrom(node, node, node.msg.min, m) && CollidesFrom(node, node.msg.min, m)
  {
    hide SameMessage, Matches;
    Symmetric(m, node.msg);
    MatchesHere(node, node.msg.min, node.msg.min, m);
  }

  lemma NoneBelow(node: Trie, m: Message, i: int)
    requires Proper(node) && ValidMessage(m) && ValidMessage(node.msg) && !SameMessage(m, node.msg)
    requires node.msg.min <= i < node.msg.plen && node.msg.key[i] != m.key[i]
    ensures !CollidesFrom(node, node.msg.min, m)
  {
    hide SameMessage, Matches, Below;
    Symmetric(m, node.msg);
    if IsLeaf(node) {
      EndHere(node, m);
    } else {
      forall s
        ensures !Matches(s, node, node.msg.min, m)
      {
        MatchesBelow(s, node, node.msg.min, node.msg.min, m);
      }
    }
  }

  lemma FirstBelow(node: Trie, m: Message)
    requires Proper(node) && !IsLeaf(node) && ValidMessage(m) && ValidMessage(node.msg) && !SameMessage(m, node.msg)
    requires forall i :: node.msg.min <= i < node.msg.plen ==> node.msg.key[i] == m.key[i]
    ensures var child := Child(node, m.key[node.msg.plen]);
            && Proper(child) && child.msg.min == node.msg.plen + 1
            && (CollidesFrom(node, node.msg.min, m) <==> CollidesFrom(child, child.msg.min, m))
            && forall s :: FirstFrom(s, child, child.msg.min, m) ==> FirstFrom(s, node, node.msg.min, m)
  {
    Symmetric(m, node.msg);
    NodeParts(node, node.msg.min);
    hide SameMessage, Matches, Below, WF, Agree;
    var child := Child(node, m.key[node.msg.plen]);
    ProperNode(child, node.msg.plen + 1);
    forall s
      ensures Matches(s, node, node.msg.min, m) <==> Matches(s, child, child.msg.min, m)
    {
      MatchesBelow(s, node, node.msg.min, node.msg.min, m);
    }
    assert forall s {:trigger Matches(s, child, child.msg.min, m)} ::
        Matches(s, child, child.msg.min, m) ==> Matches(s, node, node.msg.min, m);
  }

  // The walk ends at the first summary on its way that compares equal, if there is one.
  ghost predicate FullEnd(e: End, p: Peer, m: Message, node: Trie)
    requires ValidMessage(m) && node.Node?
  {
    && (e.Equal? || e.Differs?)
    && (e.Equal? && IsInner(e.node) <==> CollidesFrom(node, node.msg.min, m))
    && (e.Equal? && IsInner(e.node) ==> FirstFrom(e.node, node, node.msg.min, m))
    && (e.Equal? && IsLeaf(e.node) ==> e.node.msg.key in Keys(node))
    && (e.Equal? && !m.stored ==> e.peer == p)
  }

  lemma FullKeyStops(p: Peer, m: Message, known: Trie, node: Trie, pos: nat, u: set<Key>)
    requires Walking(p, m, m, known, node, pos, u) && m.plen == KEY_BITS && pos == node.msg.min
    requires ValidMessage(node.msg) && (SameMessage(m, node.msg) || m.plen <= pos || CanSkip(node.msg, pos, m))
    requires Stops(m, m, node, pos)
    ensures FullEnd(WalkEnd(p, m, m, known, node, pos, u), p, m, node)
  {
    hide FirstFrom, CollidesFrom, Agree, Universe, Leaves, Siblings, WF, SameMessage, Matches;
    EndHere(node, m);
    NodeMessage(node);
    if !SameMessage(m, node.msg) {
      if m.plen <= pos {
        NotUsedUp(p, m, m, known, node, pos, u);
      }
      NoneBelow(node, m, Skip(node.msg, pos, m));
    }
  }

  lemma {:induction false} FullKeyEnd(p: Peer, m: Message, known: Trie, node: Trie, pos: nat, u: set<Key>)
    requires Walking(p, m, m, known, node, pos, u) && m.plen == KEY_BITS && pos == node.msg.min
    ensures FullEnd(WalkEnd(p, m, m, known, node, pos, u), p, m, node)
    decreases node
  {
    hide FirstFrom, CollidesFrom, Walking, WalkEnd, SameMessage, Siblings, Proper, Keys, Ready, EndOK;
    Skippable(p, m, m, known, node, pos, u);
    if Stops(m, m, node, pos) {
      FullKeyStops(p, m, known, node, pos, u);
    } else {
      EndDown(p, m, m, known, node, pos, u);
      FirstBelow(node, m);
      var bit := m.key[node.msg.plen];
      ChildProper(node, bit);
      UnstoredSiblings(p, m, node, bit, u);
      FullKeyEnd(Siblings(p, m, node, bit, u).peer, m, known, Child(node, bit), node.msg.plen + 1, u);
    }
  }

  lemma UnstoredSiblings(p: Peer, m: Message, node: Trie, bit: bool, u: set<Key>)
    requires Ready(p, u) && Proper(node) && !IsLeaf(node) && Keys(node) <= u
    ensures !m.stored ==> Siblings(p, m, node, bit, u).peer == p
  {
  }

  lemma FullMessageEnd(own: Trie, p: Peer, m: Message, u: set<Key>)
    requires WF(own, 0) && Keys(own) <= u && Ready(p, u) && Inspectable(m, u) && m.plen == KEY_BITS
    ensures RemoveDifferences(p.root, m).0 == m && FullEnd(MessageEnd(own, p, m, u), p, m, own)
  {
    hide WF, Universe, WalkEnd, EndOK, SameMessage, RemoveDifferences, Agree, FullEnd;
    NoAgreement(own, m);
    ProperNode(own, 0);
    RootLength(own);
    var (pm, known) := RemoveDifferences(p.root, m);
    KnownBelow(p.root, known);
    FullKeyEnd(p, m, known, own, 0, u);
  }

  // An echo confuses exactly if a summary of ours compares equal to the echoed key, and the first such
  // summary is not a key of ours and has no match in the record.
  lemma EchoConfused(own: Trie, p: Peer, m: Message, u: set<Key>)
    requires WFRoot(own) && Keys(own) <= u && Ready(p, u) && Inspectable(m, u) && m.plen == KEY_BITS && !m.stored
    ensures RecvKey(own, p, m, u).0.confused <==>
            exists s :: FirstFrom(s, own, 0, m) && s.msg.key !in Keys(own) && FindMessage(p.root, s.msg).Nil?
  {
    hide SameMessage, WF, RecvKey, FindMessage, Universe, MessageEnd, ToSettle;
    RecvKeyConfused(own, p, m, u);
    if own.Node? {
      RootLength(own);
      FullMessageEnd(own, p, m, u);
      var e := MessageEnd(own, p, m, u);
      forall s | FirstFrom(s, own, 0, m)
        ensures e.Equal? && e.node == s
      {
        assert CollidesFrom(own, 0, m);
        SameLength(s, e.node, own, 0, 0, m);
      }
    }
  }
}
