/** What recv_key answers: which of our keys a message makes us record and offer, told by the keys alone. */
module SyncReply {
  import opened SyncKey
  import opened SyncTrie
  import opened SyncSearch
  import opened SyncPeer
  import opened SyncReceive
  import opened SyncSafety
  import opened SyncConfusion
  import opened SyncExact

  // A message of ours is queued that is about the key: that of the key itself or of a node above it.
  ghost predicate Offered(own: Trie, events: seq<Event>, key: Key) {
    exists t :: Below(t, own) && t.Node? && key in Keys(t) && Queue(t.msg) in events
  }

  // What a key of ours meets with whose turn comes in peer_missing_leaf_nodes.
  ghost predicate Told(own: Trie, before: set<Key>, allowRemove: bool, key: Key, o: Outcome) {
    if key !in before then key in Keys(o.peer.root) && HasNot(key) in o.events && Offered(own, o.events, key)
    else if allowRemove then key !in Keys(o.peer.root) && NowHas(key) in o.events && Offered(own, o.events, key)
    else key in Keys(o.peer.root)
  }

  // Nothing happens to a key of ours, but that it may have arrived if the message equals a summary of ours.
  ghost predicate Left(before: set<Key>, key: Key, o: Outcome, equal: bool) {
    && (key in before ==> key in Keys(o.peer.root) || (equal && NowHas(key) in o.events))
    && (!equal ==> (key in Keys(o.peer.root) ==> key in before) &&
                   HasNot(key) !in o.events && NowHas(key) !in o.events)
  }

  // ---- peer_missing_leaf_nodes ------------------------------------------------------------------

  lemma OfferedHere(own: Trie, node: Trie, events: seq<Event>, key: Key)
    requires Below(node, own) && node.Node? && key in Keys(node) && Queue(node.msg) in events
    ensures Offered(own, events, key)
  {
  }

  lemma OfferedThen(own: Trie, a: seq<Event>, b: seq<Event>, key: Key)
    ensures Offered(own, a, key) || Offered(own, b, key) ==> Offered(own, a + b, key)
  {
    if Offered(own, a, key) {
      var t :| Below(t, own) && t.Node? && key in Keys(t) && Queue(t.msg) in a;
      OfferedHere(own, t, a + b, key);
    } else if Offered(own, b, key) {
      var t :| Below(t, own) && t.Node? && key in Keys(t) && Queue(t.msg) in b;
      OfferedHere(own, t, a + b, key);
    }
  }

  lemma ToldThen(own: Trie, before: set<Key>, allowRemove: bool, key: Key, first: Outcome, second: Outcome)
    ensures Told(own, before, allowRemove, key, first) && Left(Keys(first.peer.root), key, second, false) ==>
              Told(own, before, allowRemove, key, Then(first, second))
    ensures Left(before, key, first, false) && Told(own, Keys(first.peer.root), allowRemove, key, second) ==>
              Told(own, before, allowRemove, key, Then(first, second))
  {
    hide Offered;
    OfferedThen(own, first.events, second.events, key);
  }

  lemma LeftThen(before: set<Key>, key: Key, first: Outcome, second: Outcome, equal: bool)
    requires Left(before, key, first, false) && Left(Keys(first.peer.root), key, second, equal)
    ensures Left(before, key, Then(first, second), equal)
  {
  }

  // Keys that are not below the node are left alone.
  lemma OthersLeft(own: Trie, p: Peer, node: Trie, allowRemove: bool, key: Key, u: set<Key>)
    requires Fits(own, p, node, u) && Keys(node) <= u && key !in Keys(node)
    ensures Ready(p, u) && Proper(node)
    ensures var o := MissingLeaves(p, node, allowRemove, u); !o.confused ==> Left(Keys(p.root), key, o, false)
  {
    hide PeerOK, Leaves, Proper, Below, WF, Universe, Exact, Missed;
    FitsKeys(own, p, node, u);
    MissingLeavesExact(own, p, node, allowRemove, u);
  }

  lemma LeafTold(own: Trie, p: Peer, node: Trie, allowRemove: bool, key: Key, u: set<Key>)
    requires Fits(own, p, node, u) && Keys(node) <= u && IsLeaf(node) && key in Keys(node)
    ensures Ready(p, u) && Proper(node)
    ensures !Missed(p, node, allowRemove, key, u) ==>
              Told(own, Keys(p.root), allowRemove, key, MissingLeaves(p, node, allowRemove, u))
  {
    hide Missed, PeerOK, WF, Universe, MissingLeaves, Offered;
    OneKey(own, p, node, allowRemove, u);
    var o := MissingLeaves(p, node, allowRemove, u);
    if Queue(node.msg) in o.events {
      OfferedHere(own, node, o.events, key);
    }
  }

  lemma {:induction false} LeavesTold(own: Trie, p: Peer, node: Trie, allowRemove: bool, key: Key, u: set<Key>)
    requires Fits(own, p, node, u) && Keys(node) <= u && key in Keys(node)
    ensures Ready(p, u) && Proper(node)
    ensures var o := MissingLeaves(p, node, allowRemove, u);
            !o.confused && !Missed(p, node, allowRemove, key, u) ==> Told(own, Keys(p.root), allowRemove, key, o)
    decreases node
  {
    hide PeerOK, Leaves, Proper, Below, WF, Universe, Missed, Told, Left, Fits;
    FitsKeys(own, p, node, u);
    if IsLeaf(node) {
      LeafTold(own, p, node, allowRemove, key, u);
    } else {
      FitsHalves(own, p, node, u);
      FitsKeys(own, p, node.zero, u);
      FitsKeys(own, p, node.one, u);
      MissedOne(p, node, allowRemove, key, u);
      var first := MissingLeaves(p, node.zero, allowRemove, u);
      var second := MissingLeaves(first.peer, node.one, allowRemove, u);
      if !first.confused && !second.confused {
        MissingLeavesFits(own, p, node, allowRemove, u);
        ToldThen(own, Keys(p.root), allowRemove, key, first, second);
        if key in Keys(node.zero) {
          LeavesTold(own, p, node.zero, allowRemove, key, u);
          OthersLeft(own, first.peer, node.one, allowRemove, key, u);
        } else {
          OthersLeft(own, p, node.zero, allowRemove, key, u);
          LeavesTold(own, first.peer, node.one, allowRemove, key, u);
        }
      }
    }
  }

  lemma MissingLeavesFits(own: Trie, p: Peer, node: Trie, allowRemove: bool, u: set<Key>)
    requires Fits(own, p, node, u) && Keys(node) <= u && !IsLeaf(node)
    requires Ready(p, u) && Proper(node.zero) && Keys(node.zero) <= u
    ensures var first := MissingLeaves(p, node.zero, allowRemove, u);
            !first.confused ==> Fits(own, first.peer, node.one, u)
  {
    hide PeerOK, Leaves, Below, WF, Universe, EventsOK;
    FitsHalves(own, p, node, u);
    MissingLeavesSafe(own, p, node.zero, allowRemove, node.msg, u);
    if !MissingLeaves(p, node.zero, allowRemove, u).confused {
      ChildFits(own, p, node, true, MissingLeaves(p, node.zero, allowRemove, u).peer, u);
    }
  }

  // ---- The way to where the loop ends -----------------------------------------------------------

  // All keys below the node share these bits of the message's prefix.
  predicate Along(node: Trie, key: Key, n: nat) {
    forall k :: k in Keys(node) ==> Agree(k, key, n)
  }

  // The key parts from the other one at bit b.
  predicate Parts(k: Key, key: Key, b: int) {
    0 <= b < KEY_BITS && Agree(k, key, b) && k[b] != key[b]
  }

  lemma AgreeJoin(k: Key, prefix: Key, key: Key, pos: nat, q: nat)
    requires Agree(k, key, pos) && Agree(k, prefix, q) && q <= KEY_BITS
    requires forall i :: pos <= i < q ==> prefix[i] == key[i]
    ensures Agree(k, key, q)
  {
  }

  lemma AlongOn(node: Trie, key: Key, pos: nat, q: nat)
    requires Proper(node) && Along(node, key, pos) && q <= node.msg.plen && q <= KEY_BITS
    requires forall i :: pos <= i < q ==> node.msg.key[i] == key[i]
    ensures Along(node, key, q)
  {
    KeysAgreeWithNode(node, node.msg.min, q);
    hide Agree, WF, Leaves;
    forall k | k in Keys(node)
      ensures Agree(k, key, q)
    {
      AgreeJoin(k, node.msg.key, key, pos, q);
    }
  }

  lemma AlongDown(node: Trie, key: Key, pos: nat)
    requires Proper(node) && !IsLeaf(node) && node.msg.plen < KEY_BITS && Along(node, key, pos)
    requires forall i :: pos <= i < node.msg.plen ==> node.msg.key[i] == key[i]
    ensures Along(Child(node, key[node.msg.plen]), key, node.msg.plen + 1)
  {
    AgreeBelow(node, key, pos);
  }

  // A key below the node that agrees with the message on one more bit is below the child for that bit;
  // one that parts there is below the other.
  lemma WhichChild(node: Trie, key: Key, pos: nat, k: Key)
    requires Proper(node) && !IsLeaf(node) && node.msg.plen < KEY_BITS && Along(node, key, pos) && k in Keys(node)
    requires forall i :: pos <= i < node.msg.plen ==> node.msg.key[i] == key[i]
    ensures var bit := key[node.msg.plen];
            && Proper(Child(node, bit)) && Proper(Child(node, !bit))
            && (Agree(k, key, node.msg.plen + 1) <==> k in Keys(Child(node, bit)))
            && (Parts(k, key, node.msg.plen) <==> k in Keys(Child(node, !bit)))
            && (k in Keys(Child(node, bit)) <==> k !in Keys(Child(node, !bit)))
  {
    AlongOn(node, key, pos, node.msg.plen);
    AgreeNext(k, key, node.msg.plen);
    hide Agree;
    Halves(node);
    NodeParts(node, node.msg.min);
  }

  // The prefix of the node parts from the message's, and so do all keys below it.
  lemma AllPart(node: Trie, key: Key, pos: nat, q: nat)
    requires Proper(node) && Along(node, key, pos) && q < node.msg.plen && q < KEY_BITS
    requires forall i :: pos <= i < q ==> node.msg.key[i] == key[i]
    requires node.msg.key[q] != key[q]
    ensures forall k :: k in Keys(node) ==> Parts(k, key, q)
  {
    AlongOn(node, key, pos, q);
    KeysAgreeWithNode(node, node.msg.min, q + 1);
  }

  lemma OnePart(k: Key, key: Key, a: int, b: int)
    requires Parts(k, key, a) && Parts(k, key, b)
    ensures a == b
  {
  }

  lemma PartsNotAgrees(k: Key, key: Key, b: int, n: int)
    requires Parts(k, key, b)
    ensures Agree(k, key, n) <==> n <= b
  {
  }

  // ---- Where the loop ends ----------------------------------------------------------------------

  // A summary of ours that does not hold the key explains by itself how the two nodes differ.
  predicate Explained(node: Trie, pos: nat, pm: Message, key: Key)
    requires Proper(node) && ValidMessage(pm) && pm.plen <= KEY_BITS - 2 && pm.plen <= pos <= node.msg.plen
  {
    NodeMessage(node);
    !IsBlank(pm) && node.msg.plen == pm.plen &&
    var found := Find(node, node.msg.min, pos, XorMessage(node.msg.key, pm));
    found.Node? && key !in Keys(found)
  }

  // The peer lacks the key: it has none of those below the node, or none of those of a node that explains
  // the difference.
  predicate Lacks(node: Trie, pos: nat, pm: Message, key: Key)
    requires Proper(node) && ValidMessage(pm) && pm.plen <= KEY_BITS - 2 && pm.plen <= pos <= node.msg.plen
  {
    NodeMessage(node);
    IsBlank(pm) ||
    (node.msg.plen == pm.plen &&
     var found := Find(node, node.msg.min, pos, XorMessage(node.msg.key, pm));
     found.Node? && key in Keys(found))
  }

  // The prefix of the message is used up at a node above the key.
  lemma EndOffers(own: Trie, p: Peer, pm: Message, node: Trie, pos: nat, key: Key, u: set<Key>)
    requires Fits(own, p, node, u) && Keys(node) <= u && key in Keys(node)
    requires ValidMessage(pm) && pm.plen <= KEY_BITS - 2 && pm.plen <= pos <= node.msg.plen
    ensures Ready(p, u) && Proper(node)
    ensures var (o, s) := (AtEnd(p, pm, node, pos, u), ToSettle(pm, node, pos));
            !o.confused && !Explained(node, pos, pm, key) &&
            !(s.Node? && key in Keys(s) && Missed(p, s, true, key, u)) ==>
              && Offered(own, o.events, key)
              && (Lacks(node, pos, pm, key) ==> Told(own, Keys(p.root), true, key, o))
  {
    hide PeerOK, Leaves, Below, WF, Universe, Missed, Offered, SameMessage, IsBlank, XorInto, MissingLeaves;
    FitsKeys(own, p, node, u);
    NodeMessage(node);
    var o := AtEnd(p, pm, node, pos, u);
    FitsBelow(own, p, node, u);
    if IsBlank(pm) {
      LeavesTold(own, p, node, true, key, u);
    } else if node.msg.plen > pm.plen {
      OfferedHere(own, node, o.events, key);
    } else {
      var found := Find(node, node.msg.min, pos, XorMessage(node.msg.key, pm));
      if found.Node? {
        BelowProper(found, node);
        BelowTransitive(found, node, own);
        if key in Keys(found) {
          LeavesTold(own, p, found, true, key, u);
        }
      } else {
        FitsHalves(own, p, node, u);
        FitsBelow(own, p, node.zero, u);
        FitsBelow(own, p, node.one, u);
        Halves(node);
        OfferedHere(own, if key in Keys(node.zero) then node.zero else node.one, o.events, key);
      }
    }
  }

  lemma FitsBelow(own: Trie, p: Peer, node: Trie, u: set<Key>)
    requires Fits(own, p, node, u)
    ensures Below(node, own) && node.Node? && Proper(own)
  {
  }

  lemma EndLeaves(own: Trie, p: Peer, pm: Message, node: Trie, pos: nat, key: Key, u: set<Key>)
    requires Fits(own, p, node, u) && Keys(node) <= u && key !in Keys(node)
    requires ValidMessage(pm) && pm.plen <= KEY_BITS - 2 && pm.plen <= pos <= node.msg.plen
    ensures Ready(p, u) && Proper(node)
    ensures var o := AtEnd(p, pm, node, pos, u); !o.confused ==> Left(Keys(p.root), key, o, false)
  {
    hide PeerOK, Leaves, Below, WF, Universe, Missed, Offered, SameMessage, IsBlank, XorInto, MissingLeaves;
    FitsKeys(own, p, node, u);
    NodeMessage(node);
    FitsBelow(own, p, node, u);
    if IsBlank(pm) {
      OthersLeft(own, p, node, true, key, u);
    } else if node.msg.plen <= pm.plen {
      var found := Find(node, node.msg.min, pos, XorMessage(node.msg.key, pm));
      if found.Node? {
        BelowProper(found, node);
        BelowTransitive(found, node, own);
        OthersLeft(own, p, found, true, key, u);
      }
    }
  }

  lemma AddLeaves(p: Peer, m: Message, key: Key, u: set<Key>)
    requires Ready(p, u) && (m.plen == KEY_BITS ==> ValidMessage(m) && m.key in u) && key != m.key
    ensures Left(Keys(p.root), key, PeerAddKey(p, m, u), false)
  {
    hide WF, WFRoot, Universe, Find, SameMessage, LeafMessage;
    if m.plen == KEY_BITS {
      SearchForKey(p.root, m);
    }
  }

  // The prefix of the message parts from that of a node above the key.
  lemma MismatchTells(own: Trie, p: Peer, m: Message, pm: Message, node: Trie, q: nat, key: Key, u: set<Key>)
    requires Fits(own, p, node, u) && Keys(node) <= u && Inspectable(pm, u) && SameHeader(pm, m)
    requires key in Keys(own) && (m.plen == KEY_BITS ==> m.key !in Keys(own) && pm == m)
    ensures Ready(p, u) && Proper(node)
    ensures var o := Mismatch(p, pm, node, q, u);
      if key in Keys(node) && m.stored && m.min <= q then
        && (m.plen != KEY_BITS ==> Queue(node.msg) in o.events)
        && (!Missed(p, node, false, key, u) ==> Told(own, Keys(p.root), false, key, o))
      else Left(Keys(p.root), key, o, false)
  {
    hide PeerOK, Leaves, Below, WF, Universe, Missed, Offered, MissingLeaves, PeerAddKey, Told, Left;
    FitsKeys(own, p, node, u);
    var told := Outcome(p, [], false);
    LeftAlone(p, key);
    if m.stored && m.min <= q {
      told := MissingLeaves(p, node, false, u);
      if key in Keys(node) {
        LeavesTold(own, p, node, false, key, u);
      } else {
        OthersLeft(own, p, node, false, key, u);
      }
      if pm.plen != KEY_BITS {
        QueueLeaves(own, Keys(p.root), false, key, told, node.msg);
        told := told.(events := told.events + [Queue(node.msg)]);
      }
    }
    if pm.plen == KEY_BITS {
      var added := PeerAddKey(told.peer, pm, u);
      AddLeaves(told.peer, pm, key, u);
      ToldThen(own, Keys(p.root), false, key, told, added);
      if Left(Keys(p.root), key, told, false) {
        LeftThen(Keys(p.root), key, told, added, false);
      }
    }
  }

  lemma LeftAlone(p: Peer, key: Key)
    ensures Left(Keys(p.root), key, Outcome(p, [], false), false)
  {
  }

  lemma QueueLeaves(own: Trie, before: set<Key>, allowRemove: bool, key: Key, o: Outcome, q: Message)
    ensures var o' := o.(events := o.events + [Queue(q)]);
      && (Told(own, before, allowRemove, key, o) ==> Told(own, before, allowRemove, key, o'))
      && (Left(before, key, o, false) ==> Left(before, key, o', false))
  {
    hide Offered;
    OfferedThen(own, o.events, [Queue(q)], key);
  }

  lemma SiblingsTell(own: Trie, p: Peer, pm: Message, node: Trie, bit: bool, key: Key, u: set<Key>)
    requires Fits(own, p, node, u) && Keys(node) <= u && !IsLeaf(node)
    ensures Ready(p, u) && Proper(node) && Proper(Child(node, !bit)) && Keys(Child(node, !bit)) <= u
    ensures var o := Siblings(p, pm, node, bit, u);
      if key in Keys(Child(node, !bit)) && pm.stored && pm.min <= node.msg.plen then
        !Missed(p, Child(node, !bit), false, key, u) ==> Told(own, Keys(p.root), false, key, o)
      else Left(Keys(p.root), key, o, false)
  {
    hide PeerOK, Leaves, Below, WF, Universe, Missed, Offered, MissingLeaves, Told, Left;
    FitsKeys(own, p, node, u);
    FitsHalves(own, p, node, u);
    var sibling := Child(node, !bit);
    FitsKeys(own, p, sibling, u);
    LeftAlone(p, key);
    if pm.stored && pm.min <= node.msg.plen {
      if key in Keys(sibling) {
        LeavesTold(own, p, sibling, false, key, u);
      } else {
        OthersLeft(own, p, sibling, false, key, u);
      }
    }
  }

  // The message compares equal to a node of ours.
  lemma EqualLeaves(own: Trie, p: Peer, m: Message, known: Trie, node: Trie, key: Key, u: set<Key>)
    requires Fits(own, p, node, u) && (known.Nil? || Proper(known)) && Within(Leaves(known), Leaves(p.root))
    requires key in Keys(own)
    ensures Ready(p, u) && Proper(node)
    ensures var o := if m.stored then HasReceivedAll(p, known, u).0 else EchoMissing(Keys(own), p, node, u);
      !o.confused ==> Left(Keys(p.root), key, o, true)
  {
    hide PeerOK, Below, WF, Universe, HasReceivedAll, EventsOK, FindMessage;
    FitsKeys(own, p, node, u);
    if m.stored {
      HasReceivedAllSafe(own, p, known, m, u);
    } else {
      NodeMessage(node);
    }
  }

  // ---- The loop ---------------------------------------------------------------------------------

  // The record and the node with which the turn of a key comes, if there is one.
  function Group(p: Peer, m: Message, pm: Message, known: Trie, node: Trie, pos: nat, key: Key, ghost u: set<Key>)
    : (g: (Peer, Trie))
    requires Walking(p, m, pm, known, node, pos, u)
    ensures Ready(g.0, u) && (g.1.Node? ==> Proper(g.1) && Keys(g.1) <= u)
    decreases node, KEY_BITS - pos
  {
    NodeMessage(node);
    if SameMessage(m, node.msg) || SameMessage(pm, node.msg) then (p, Nil)
    else if pm.plen <= pos then
      NotUsedUp(p, m, pm, known, node, pos, u);
      (p, ToSettle(pm, node, pos))
    else
      SkipReady(p, m, pm, known, node, pos, u);
      var q := Skip(node.msg, pos, pm);
      if q < node.msg.plen && q < pm.plen then (p, node)
      else if m.plen <= q then Group(p, m, pm, known, node, q, key, u)
      else
        StepDown(p, m, pm, known, node, pos, u);
        var bit := GetBit(pm.key, q);
        ChildProper(node, !bit);
        if key in Keys(Child(node, !bit)) then (p, Child(node, !bit))
        else Group(Siblings(p, pm, node, bit, u).peer, m, pm, known, Child(node, bit), q + 1, key, u)
  }

  // When its turn comes, a summary in the record compares equal to the key.
  ghost predicate PassedOver(g: (Peer, Trie), allowRemove: bool, key: Key, u: set<Key>)
    requires Ready(g.0, u) && (g.1.Node? ==> Proper(g.1) && Keys(g.1) <= u)
  {
    g.1.Node? && key in Keys(g.1) && Missed(g.0, g.1, allowRemove, key, u)
  }

  // The loop comes to a node that holds the key without a message that compares equal.
  predicate EndsEqual(e: End, key: Key) {
    (e.Equal? || e.Known?) && key in Keys(e.node)
  }

  // What happens to a key of ours that shares the message's prefix, and to one that parts from it at bit b.
  ghost predicate Covered(own: Trie, before: set<Key>, e: End, m: Message, pm: Message, key: Key, u: set<Key>,
                          over: bool, o: Outcome)
    requires EndOK(e, m, pm, u)
  {
    !o.confused && !EndsEqual(e, key) ==>
      && e.UsedUp? && key in Keys(e.node)
      && (!Explained(e.node, e.pos, pm, key) && !over ==> Offered(own, o.events, key))
      && (Lacks(e.node, e.pos, pm, key) && !over ==> Told(own, before, true, key, o))
  }

  ghost predicate Parted(own: Trie, before: set<Key>, e: End, b: nat, m: Message, key: Key, o: Outcome, over: bool) {
    !o.confused && !EndsEqual(e, key) ==>
      if m.stored && m.min <= b then
        !over ==>
          && (key in Keys(o.peer.root) || (e.Equal? && NowHas(key) in o.events))
          && (key !in before ==> HasNot(key) in o.events && Offered(own, o.events, key))
      else Left(before, key, o, e.Equal?)
  }

  lemma StopsLeave(own: Trie, p: Peer, m: Message, pm: Message, known: Trie, node: Trie, pos: nat, key: Key,
      u: set<Key>)
    requires Walking(p, m, pm, known, node, pos, u) && Fits(own, p, node, u) && Reached(own, m, node)
    requires ValidMessage(node.msg) && (SameMessage(m, node.msg) || pm.plen <= pos || CanSkip(node.msg, pos, pm))
    requires Stops(m, pm, node, pos) && key in Keys(own) && key !in Keys(node)
    ensures var o := Walk(Keys(own), p, m, pm, known, node, pos, u);
      !o.confused ==> Left(Keys(p.root), key, o, WalkEnd(p, m, pm, known, node, pos, u).Equal?)
  {
    hide PeerOK, SameMessage, Agree, WF, Leaves, AtEnd, Mismatch, Siblings, HasReceivedAll, EchoMissing, Universe, Left;
    FitsKeys(own, p, node, u);
    if SameMessage(m, node.msg) {
      EqualLeaves(own, p, m, known, node, key, u);
    } else if SameMessage(pm, node.msg) {
      LeftAlone(p, key);
    } else if pm.plen <= pos {
      NotUsedUp(p, m, pm, known, node, pos, u);
      EndLeaves(own, p, pm, node, pos, key, u);
    } else {
      var q := Skip(node.msg, pos, pm);
      if m.plen == KEY_BITS {
        ReachedNotPast(own, m, node, q);
      }
      MismatchTells(own, p, m, pm, node, q, key, u);
    }
  }

  // Keys of ours that are not below the node are left alone from here on.
  lemma {:induction false} WalkLeaves(own: Trie, p: Peer, m: Message, pm: Message, known: Trie, node: Trie, pos: nat,
      key: Key, u: set<Key>)
    requires Walking(p, m, pm, known, node, pos, u) && Fits(own, p, node, u) && Reached(own, m, node)
    requires key in Keys(own) && key !in Keys(node)
    ensures var o := Walk(Keys(own), p, m, pm, known, node, pos, u);
      !o.confused ==> Left(Keys(p.root), key, o, WalkEnd(p, m, pm, known, node, pos, u).Equal?)
    decreases node, KEY_BITS - pos
  {
    hide PeerOK, SameMessage, Proper, Siblings, Walk, WalkEnd, Skip, Keys, CanSkip, Fits, Then, Walking, Ready, Reached,
      Left, EndOK;
    FitsKeys(own, p, node, u);
    Skippable(p, m, pm, known, node, pos, u);
    if Stops(m, pm, node, pos) {
      StopsLeave(own, p, m, pm, known, node, pos, key, u);
    } else if m.plen <= Skip(node.msg, pos, pm) {
      WalkOn(Keys(own), p, m, pm, known, node, pos, u);
      EndOn(p, m, pm, known, node, pos, u);
      WalkLeaves(own, p, m, pm, known, node, Skip(node.msg, pos, pm), key, u);
    } else {
      WalkDown(Keys(own), p, m, pm, known, node, pos, u);
      WalkDownReady(own, p, m, pm, known, node, pos, u);
      EndDown(p, m, pm, known, node, pos, u);
      var bit := pm.key[node.msg.plen];
      var told, child := Siblings(p, pm, node, bit, u), Child(node, bit);
      ChildrenHold(node, bit, key);
      SiblingsTell(own, p, pm, node, bit, key, u);
      WalkLeaves(own, told.peer, m, pm, known, child, node.msg.plen + 1, key, u);
      LaterLeaves(Keys(p.root), key, told, Walk(Keys(own), told.peer, m, pm, known, child, node.msg.plen + 1, u),
                  WalkEnd(told.peer, m, pm, known, child, node.msg.plen + 1, u).Equal?);
    }
  }

  lemma ChildrenHold(node: Trie, bit: bool, key: Key)
    requires Proper(node) && !IsLeaf(node)
    ensures Proper(Child(node, bit)) && Proper(Child(node, !bit))
    ensures key !in Keys(node) ==> key !in Keys(Child(node, bit)) && key !in Keys(Child(node, !bit))
  {
    hide WF, Leaves;
    Halves(node);
  }

  lemma LaterLeaves(before: set<Key>, key: Key, first: Outcome, second: Outcome, equal: bool)
    requires Left(before, key, first, false)
    requires !second.confused ==> Left(Keys(first.peer.root), key, second, equal)
    ensures !Then(first, second).confused ==> Left(before, key, Then(first, second), equal)
  {
  }

  // One turn of the loop uses up bits on which the node and the message agree.
  lemma TurnAgrees(p: Peer, m: Message, pm: Message, known: Trie, node: Trie, pos: nat, u: set<Key>)
    requires Walking(p, m, pm, known, node, pos, u)
    requires node.Node? && ValidMessage(node.msg) && CanSkip(node.msg, pos, pm) && !Stops(m, pm, node, pos)
    requires Along(node, pm.key, pos)
    ensures Along(node, pm.key, Skip(node.msg, pos, pm))
    ensures m.plen > Skip(node.msg, pos, pm) ==>
              && node.msg.plen < KEY_BITS && Skip(node.msg, pos, pm) == node.msg.plen && !IsLeaf(node)
              && Along(Child(node, pm.key[node.msg.plen]), pm.key, node.msg.plen + 1)
  {
    hide WF, WFRoot, Universe, Leaves, Agree, SameMessage, Siblings, Along;
    var q := Skip(node.msg, pos, pm);
    AlongOn(node, pm.key, pos, q);
    if m.plen > q {
      StepDown(p, m, pm, known, node, pos, u);
      AlongDown(node, pm.key, pos);
    }
  }

  lemma StopsCover(own: Trie, p: Peer, m: Message, pm: Message, known: Trie, node: Trie, pos: nat, key: Key,
      u: set<Key>)
    requires Walking(p, m, pm, known, node, pos, u) && Fits(own, p, node, u)
    requires ValidMessage(node.msg) && (SameMessage(m, node.msg) || pm.plen <= pos || CanSkip(node.msg, pos, pm))
    requires Stops(m, pm, node, pos) && Along(node, pm.key, pos)
    requires key in Keys(node) && Agree(key, pm.key, pm.plen)
    ensures Covered(own, Keys(p.root), WalkEnd(p, m, pm, known, node, pos, u), m, pm, key, u,
                    PassedOver(Group(p, m, pm, known, node, pos, key, u), true, key, u),
                    Walk(Keys(own), p, m, pm, known, node, pos, u))
  {
    hide PeerOK, SameMessage, Agree, WF, Leaves, AtEnd, Mismatch, Siblings, HasReceivedAll, EchoMissing, Universe,
      Along, Offered, Missed, Explained, ToSettle, Lacks, Told;
    FitsKeys(own, p, node, u);
    if SameMessage(m, node.msg) {
    } else if SameMessage(pm, node.msg) {
    } else if pm.plen <= pos {
      NotUsedUp(p, m, pm, known, node, pos, u);
      LacksNotExplained(node, pos, pm, key);
      EndOffers(own, p, pm, node, pos, key, u);
    } else {
      var q := Skip(node.msg, pos, pm);
      AllPart(node, pm.key, pos, q);
      PartsNotAgrees(key, pm.key, q, pm.plen);
    }
  }

  // Keys with the prefix of the message are offered.
  lemma {:induction false} WalkCovers(own: Trie, p: Peer, m: Message, pm: Message, known: Trie, node: Trie, pos: nat,
      key: Key, u: set<Key>)
    requires Walking(p, m, pm, known, node, pos, u) && Fits(own, p, node, u) && Reached(own, m, node)
    requires Along(node, pm.key, pos) && key in Keys(node) && Agree(key, pm.key, pm.plen)
    ensures Covered(own, Keys(p.root), WalkEnd(p, m, pm, known, node, pos, u), m, pm, key, u,
                    PassedOver(Group(p, m, pm, known, node, pos, key, u), true, key, u),
                    Walk(Keys(own), p, m, pm, known, node, pos, u))
    decreases node, KEY_BITS - pos
  {
    hide PeerOK, SameMessage, Proper, Siblings, Walk, WalkEnd, Skip, Keys, CanSkip, Fits, Then, Walking, Ready, Reached,
      Left, EndOK, Along, Agree, Covered, Group, PassedOver;
    FitsKeys(own, p, node, u);
    Skippable(p, m, pm, known, node, pos, u);
    if Stops(m, pm, node, pos) {
      StopsCover(own, p, m, pm, known, node, pos, key, u);
    } else {
      TurnAgrees(p, m, pm, known, node, pos, u);
      if m.plen <= Skip(node.msg, pos, pm) {
        GroupOn(p, m, pm, known, node, pos, key, u);
        WalkOn(Keys(own), p, m, pm, known, node, pos, u);
        EndOn(p, m, pm, known, node, pos, u);
        WalkCovers(own, p, m, pm, known, node, Skip(node.msg, pos, pm), key, u);
      } else {
        GroupDown(p, m, pm, known, node, pos, key, u);
        WalkDown(Keys(own), p, m, pm, known, node, pos, u);
        WalkDownReady(own, p, m, pm, known, node, pos, u);
        EndDown(p, m, pm, known, node, pos, u);
        var bit := pm.key[node.msg.plen];
        var told, child := Siblings(p, pm, node, bit, u), Child(node, bit);
        KeyGoesOn(p, m, pm, known, node, pos, key, u);
        WalkCovers(own, told.peer, m, pm, known, child, node.msg.plen + 1, key, u);
        SiblingsTell(own, p, pm, node, bit, key, u);
        CoveredThen(own, Keys(p.root), WalkEnd(told.peer, m, pm, known, child, node.msg.plen + 1, u), m, pm, key, u,
                    PassedOver(Group(told.peer, m, pm, known, child, node.msg.plen + 1, key, u), true, key, u),
                    told, Walk(Keys(own), told.peer, m, pm, known, child, node.msg.plen + 1, u));
      }
    }
  }

  lemma CoveredThen(own: Trie, before: set<Key>, e: End, m: Message, pm: Message, key: Key, u: set<Key>, over: bool,
      first: Outcome, second: Outcome)
    requires EndOK(e, m, pm, u) && Covered(own, Keys(first.peer.root), e, m, pm, key, u, over, second)
    requires Left(before, key, first, false)
    ensures Covered(own, before, e, m, pm, key, u, over, Then(first, second))
  {
    hide Offered, Explained, Lacks, Told, Left;
    OfferedThen(own, first.events, second.events, key);
    ToldThen(own, before, true, key, first, second);
  }

  lemma LacksNotExplained(node: Trie, pos: nat, pm: Message, key: Key)
    requires Proper(node) && ValidMessage(pm) && pm.plen <= KEY_BITS - 2 && pm.plen <= pos <= node.msg.plen
    ensures Lacks(node, pos, pm, key) ==> !Explained(node, pos, pm, key)
  {
    hide Find, IsBlank, SameMessage;
  }

  // The turn of a key comes at a sibling or further on.
  lemma GroupOn(p: Peer, m: Message, pm: Message, known: Trie, node: Trie, pos: nat, key: Key, u: set<Key>)
    requires Walking(p, m, pm, known, node, pos, u)
    requires node.Node? && ValidMessage(node.msg) && CanSkip(node.msg, pos, pm) && !Stops(m, pm, node, pos)
    requires m.plen <= Skip(node.msg, pos, pm)
    ensures Walking(p, m, pm, known, node, Skip(node.msg, pos, pm), u)
    ensures Group(p, m, pm, known, node, pos, key, u) ==
            Group(p, m, pm, known, node, Skip(node.msg, pos, pm), key, u)
  {
    hide WF, WFRoot, Universe, Leaves, Agree, SameMessage, Siblings, Keys;
    EndOn(p, m, pm, known, node, pos, u);
  }

  lemma GroupDown(p: Peer, m: Message, pm: Message, known: Trie, node: Trie, pos: nat, key: Key, u: set<Key>)
    requires Walking(p, m, pm, known, node, pos, u)
    requires node.Node? && ValidMessage(node.msg) && CanSkip(node.msg, pos, pm) && !Stops(m, pm, node, pos)
    requires m.plen > Skip(node.msg, pos, pm)
    ensures !IsLeaf(node) && node.msg.plen < KEY_BITS && Proper(node) && Ready(p, u) && Keys(node) <= u
    ensures var bit := pm.key[node.msg.plen];
      var told := Siblings(p, pm, node, bit, u).peer;
      && Walking(told, m, pm, known, Child(node, bit), node.msg.plen + 1, u)
      && Group(p, m, pm, known, node, pos, key, u) ==
         if key in Keys(Child(node, !bit)) then (p, Child(node, !bit))
         else Group(told, m, pm, known, Child(node, bit), node.msg.plen + 1, key, u)
  {
    hide WF, WFRoot, Universe, Leaves, Agree, SameMessage, Siblings, Keys;
    EndDown(p, m, pm, known, node, pos, u);
    StepDown(p, m, pm, known, node, pos, u);
  }

  lemma KeyGoesOn(p: Peer, m: Message, pm: Message, known: Trie, node: Trie, pos: nat, key: Key, u: set<Key>)
    requires Walking(p, m, pm, known, node, pos, u)
    requires node.Node? && ValidMessage(node.msg) && CanSkip(node.msg, pos, pm) && !Stops(m, pm, node, pos)
    requires m.plen > Skip(node.msg, pos, pm) && Along(node, pm.key, pos) && key in Keys(node)
    ensures node.msg.plen < KEY_BITS && node.msg.plen < pm.plen
    ensures var bit := pm.key[node.msg.plen];
      && (Agree(key, pm.key, node.msg.plen + 1) <==> key in Keys(Child(node, bit)))
      && (Parts(key, pm.key, node.msg.plen) <==> key in Keys(Child(node, !bit)))
      && (key in Keys(Child(node, bit)) <==> key !in Keys(Child(node, !bit)))
    ensures Agree(key, pm.key, pm.plen) ==>
              key in Keys(Child(node, pm.key[node.msg.plen])) && key !in Keys(Child(node, !pm.key[node.msg.plen]))
  {
    hide WF, WFRoot, Universe, Leaves, Agree, SameMessage, Siblings, Along;
    StepDown(p, m, pm, known, node, pos, u);
    WhichChild(node, pm.key, pos, key);
    AgreeFewer(key, pm.key, node.msg.plen + 1, pm.plen);
  }

  lemma AgreeFewer(a: Key, b: Key, n: int, more: int)
    requires n <= more
    ensures Agree(a, b, more) ==> Agree(a, b, n)
  {
  }

  lemma ToldParted(own: Trie, before: set<Key>, e: End, b: nat, m: Message, key: Key, o: Outcome, over: bool)
    requires !o.confused && m.stored && m.min <= b ==> !over ==> Told(own, before, false, key, o)
    requires !o.confused && !(m.stored && m.min <= b) ==> Left(before, key, o, e.Equal?)
    ensures Parted(own, before, e, b, m, key, o, over)
  {
    hide Offered;
  }

  lemma StopsPart(own: Trie, p: Peer, m: Message, pm: Message, known: Trie, node: Trie, pos: nat, b: nat, key: Key,
      u: set<Key>)
    requires Walking(p, m, pm, known, node, pos, u) && Fits(own, p, node, u) && Reached(own, m, node)
    requires ValidMessage(node.msg) && (SameMessage(m, node.msg) || pm.plen <= pos || CanSkip(node.msg, pos, pm))
    requires Stops(m, pm, node, pos) && Along(node, pm.key, pos)
    requires key in Keys(node) && Parts(key, pm.key, b) && pos <= b < pm.plen
    ensures var e := WalkEnd(p, m, pm, known, node, pos, u);
      Parted(own, Keys(p.root), e, b, m, key, Walk(Keys(own), p, m, pm, known, node, pos, u),
             PassedOver(Group(p, m, pm, known, node, pos, key, u), false, key, u))
  {
    hide PeerOK, SameMessage, Agree, WF, Leaves, AtEnd, Mismatch, Siblings, HasReceivedAll, EchoMissing, Universe,
      Along, Offered, Missed, Explained, ToSettle, Told, Left, Parts;
    FitsKeys(own, p, node, u);
    if SameMessage(m, node.msg) {
    } else if SameMessage(pm, node.msg) {
    } else {
      var q := Skip(node.msg, pos, pm);
      if m.plen == KEY_BITS {
        ReachedNotPast(own, m, node, q);
      }
      AllPart(node, pm.key, pos, q);
      OnePart(key, pm.key, q, b);
      MismatchTells(own, p, m, pm, node, q, key, u);
      ToldParted(own, Keys(p.root), Differs(p, node, q), b, m, key, Mismatch(p, pm, node, q, u),
                 PassedOver((p, node), false, key, u));
    }
  }

  // A key that parts from the prefix of the message is settled there, and only there.
  lemma {:induction false} WalkParts(own: Trie, p: Peer, m: Message, pm: Message, known: Trie, node: Trie, pos: nat,
      b: nat, key: Key, u: set<Key>)
    requires Walking(p, m, pm, known, node, pos, u) && Fits(own, p, node, u) && Reached(own, m, node)
    requires Along(node, pm.key, pos) && key in Keys(node) && Parts(key, pm.key, b) && pos <= b < pm.plen
    ensures Parted(own, Keys(p.root), WalkEnd(p, m, pm, known, node, pos, u), b, m, key,
                   Walk(Keys(own), p, m, pm, known, node, pos, u),
                   PassedOver(Group(p, m, pm, known, node, pos, key, u), false, key, u))
    decreases node, KEY_BITS - pos
  {
    hide PeerOK, SameMessage, Proper, Siblings, Walk, WalkEnd, Skip, Keys, CanSkip, Fits, Then, Walking, Ready, Reached,
      Left, EndOK, Along, Agree, Parted, Group, PassedOver, Parts;
    FitsKeys(own, p, node, u);
    Skippable(p, m, pm, known, node, pos, u);
    if Stops(m, pm, node, pos) {
      StopsPart(own, p, m, pm, known, node, pos, b, key, u);
    } else {
      TurnAgrees(p, m, pm, known, node, pos, u);
      PartsNotBelow(node, pm.key, Skip(node.msg, pos, pm), key, b);
      if m.plen > Skip(node.msg, pos, pm) {
        GroupDown(p, m, pm, known, node, pos, key, u);
        WalkDown(Keys(own), p, m, pm, known, node, pos, u);
        WalkDownReady(own, p, m, pm, known, node, pos, u);
        EndDown(p, m, pm, known, node, pos, u);
        var bit := pm.key[node.msg.plen];
        var told, child := Siblings(p, pm, node, bit, u), Child(node, bit);
        KeyGoesOn(p, m, pm, known, node, pos, key, u);
        PartsNotAgrees(key, pm.key, b, node.msg.plen + 1);
        SiblingsTell(own, p, pm, node, bit, key, u);
        var rest := Walk(Keys(own), told.peer, m, pm, known, child, node.msg.plen + 1, u);
        var e := WalkEnd(told.peer, m, pm, known, child, node.msg.plen + 1, u);
        if key in Keys(child) {
          WalkParts(own, told.peer, m, pm, known, child, node.msg.plen + 1, b, key, u);
          PartedLater(own, Keys(p.root), e, b, m, key, told, rest,
                      PassedOver(Group(told.peer, m, pm, known, child, node.msg.plen + 1, key, u), false, key, u));
        } else {
          OnePart(key, pm.key, node.msg.plen, b);
          WalkLeaves(own, told.peer, m, pm, known, child, node.msg.plen + 1, key, u);
          SiblingNotPassed(p, Child(node, !bit), key, u);
          PartedNow(own, Keys(p.root), e, b, m, key, told, rest,
                    PassedOver((p, Child(node, !bit)), false, key, u));
        }
      }
    }
  }

  lemma SiblingNotPassed(p: Peer, node: Trie, key: Key, u: set<Key>)
    requires Ready(p, u) && Proper(node) && Keys(node) <= u && key in Keys(node)
    ensures PassedOver((p, node), false, key, u) <==> Missed(p, node, false, key, u)
  {
    hide Missed;
  }

  lemma PartedLater(own: Trie, before: set<Key>, e: End, b: nat, m: Message, key: Key, first: Outcome, second: Outcome,
      over: bool)
    requires Left(before, key, first, false) && Parted(own, Keys(first.peer.root), e, b, m, key, second, over)
    ensures Parted(own, before, e, b, m, key, Then(first, second), over)
  {
    hide Offered;
    OfferedThen(own, first.events, second.events, key);
  }

  lemma PartedNow(own: Trie, before: set<Key>, e: End, b: nat, m: Message, key: Key, first: Outcome, second: Outcome,
      over: bool)
    requires if m.stored && m.min <= b then over || Told(own, before, false, key, first)
             else Left(before, key, first, false)
    requires !second.confused ==> Left(Keys(first.peer.root), key, second, e.Equal?)
    ensures Parted(own, before, e, b, m, key, Then(first, second), over)
  {
    hide Offered;
    OfferedThen(own, first.events, second.events, key);
  }

  lemma PartsNotBelow(node: Trie, key: Key, pos: nat, k: Key, b: nat)
    requires Along(node, key, pos) && k in Keys(node) && Parts(k, key, b)
    ensures pos <= b
  {
    PartsNotAgrees(k, key, b, pos);
  }

  // ---- One message ------------------------------------------------------------------------------

  // When its turn comes, a summary in the record compares equal to the key.
  ghost predicate Passed(own: Trie, p: Peer, m: Message, allowRemove: bool, key: Key, u: set<Key>)
    requires WF(own, 0) && Keys(own) <= u && Ready(p, u) && Inspectable(m, u)
  {
    ProperNode(own, 0);
    var (pm, known) := RemoveDifferences(p.root, m);
    KnownBelow(p.root, known);
    NoAgreement(own, m);
    PassedOver(Group(p, m, pm, known, own, 0, key, u), allowRemove, key, u)
  }

  lemma Starts(own: Trie, p: Peer, m: Message, u: set<Key>)
    requires WF(own, 0) && Keys(own) <= u && PeerOK(Keys(own), p, u) && Inspectable(m, u)
    ensures var (pm, known) := RemoveDifferences(p.root, m);
      && Walking(p, m, pm, known, own, 0, u) && Fits(own, p, own, u) && Reached(own, m, own) && Along(own, pm.key, 0)
      && MessageEnd(own, p, m, u) == WalkEnd(p, m, pm, known, own, 0, u)
      && RecvKey(own, p, m, u).0 == Walk(Keys(own), p, m, pm, known, own, 0, u)
      && forall key, allowRemove :: Passed(own, p, m, allowRemove, key, u) ==
                                    PassedOver(Group(p, m, pm, known, own, 0, key, u), allowRemove, key, u)
  {
    hide WF, Universe, Walk, WalkEnd, EndOK, SameMessage, RemoveDifferences, PassedOver, Group, PeerOK;
    PeerIsReady(own, p, u);
    NoAgreement(own, m);
    ProperNode(own, 0);
    RootLength(own);
    var (pm, known) := RemoveDifferences(p.root, m);
    KnownBelow(p.root, known);
  }

  lemma PeerIsReady(own: Trie, p: Peer, u: set<Key>)
    requires PeerOK(Keys(own), p, u)
    ensures Ready(p, u) && WFRoot(p.root)
  {
  }

  // If the loop does not end because something compares equal, the prefix of the message is used up at a
  // node that holds all of our keys with that prefix, and each is offered to the sender, by itself or in
  // a summary; but for keys that a summary of other keys of ours excuses.  A key that the sender lacks
  // is recorded and reported, or taken to have arrived if it is recorded already.
  lemma PrefixKeysOffered(own: Trie, p: Peer, m: Message, key: Key, u: set<Key>)
    requires WF(own, 0) && Keys(own) <= u && PeerOK(Keys(own), p, u) && Inspectable(m, u) && key in Keys(own)
    requires Agree(key, RemoveDifferences(p.root, m).0.key, m.plen)
    ensures var (e, pm, o) := (MessageEnd(own, p, m, u), RemoveDifferences(p.root, m).0, RecvKey(own, p, m, u).0);
      !o.confused && !((e.Equal? || e.Known?) && key in Keys(e.node)) ==>
        && e.UsedUp? && key in Keys(e.node)
        && (!Explained(e.node, e.pos, pm, key) && !Passed(own, p, m, true, key, u) ==> Offered(own, o.events, key))
        && (Lacks(e.node, e.pos, pm, key) && !Passed(own, p, m, true, key, u) ==>
              if key in Keys(p.root) then key !in Keys(o.peer.root) && NowHas(key) in o.events
              else key in Keys(o.peer.root) && HasNot(key) in o.events)
  {
    hide WF, Universe, Walk, WalkEnd, EndOK, SameMessage, RemoveDifferences, PassedOver, Group, PeerOK, Walking, Fits,
      Reached, Along, RecvKey, MessageEnd, Passed, Offered, Explained, Lacks, Keys, Agree;
    PeerIsReady(own, p, u);
    Starts(own, p, m, u);
    var (pm, known) := RemoveDifferences(p.root, m);
    WalkCovers(own, p, m, pm, known, own, 0, key, u);
  }

  // A key of ours that parts from the prefix of the message at bit b is recorded, and reported and offered
  // if that is new, exactly if the message is stored and says that its sender has nothing else from there
  // on; otherwise nothing happens to it.
  lemma PartingKeysTold(own: Trie, p: Peer, m: Message, key: Key, b: nat, u: set<Key>)
    requires WF(own, 0) && Keys(own) <= u && PeerOK(Keys(own), p, u) && Inspectable(m, u) && key in Keys(own)
    requires b < m.plen && Parts(key, RemoveDifferences(p.root, m).0.key, b)
    ensures var (e, o) := (MessageEnd(own, p, m, u), RecvKey(own, p, m, u).0);
      !o.confused && !((e.Equal? || e.Known?) && key in Keys(e.node)) ==>
        if m.stored && m.min <= b then
          !Passed(own, p, m, false, key, u) ==>
            && (key in Keys(o.peer.root) || (e.Equal? && NowHas(key) in o.events))
            && (key !in Keys(p.root) ==> HasNot(key) in o.events && Offered(own, o.events, key))
        else
          && (key in Keys(p.root) ==> key in Keys(o.peer.root) || (e.Equal? && NowHas(key) in o.events))
          && (!e.Equal? ==> (key in Keys(o.peer.root) ==> key in Keys(p.root)) &&
                            HasNot(key) !in o.events && NowHas(key) !in o.events)
  {
    hide WF, Universe, Walk, WalkEnd, EndOK, SameMessage, RemoveDifferences, PassedOver, Group, PeerOK, Walking, Fits,
      Reached, Along, RecvKey, MessageEnd, Passed, Offered, Keys, Parts;
    PeerIsReady(own, p, u);
    Starts(own, p, m, u);
    var (pm, known) := RemoveDifferences(p.root, m);
    WalkParts(own, p, m, pm, known, own, 0, b, key, u);
  }

  // ---- The summary after the keys ---------------------------------------------------------------

  // Where the prefixes part, every key below the node does, and the node's own summary follows the keys.
  ghost predicate Summarised(e: End, m: Message, pm: Message, o: Outcome) {
    e.Differs? ==>
      && e.node.Node? && (forall k :: k in Keys(e.node) ==> Parts(k, pm.key, e.bit)) && e.bit < m.plen
      && (m.stored && m.min <= e.bit && m.plen != KEY_BITS ==> Queue(e.node.msg) in o.events)
  }

  lemma SummarisedThen(e: End, m: Message, pm: Message, first: Outcome, second: Outcome)
    requires Summarised(e, m, pm, second)
    ensures Summarised(e, m, pm, Then(first, second))
  {
    hide Parts, Keys;
  }

  lemma StopsSummarise(own: Trie, p: Peer, m: Message, pm: Message, known: Trie, node: Trie, pos: nat, u: set<Key>)
    requires Walking(p, m, pm, known, node, pos, u) && own.Node? && Keys(own) <= u
    requires ValidMessage(node.msg) && (SameMessage(m, node.msg) || pm.plen <= pos || CanSkip(node.msg, pos, pm))
    requires Stops(m, pm, node, pos) && Along(node, pm.key, pos)
    ensures Summarised(WalkEnd(p, m, pm, known, node, pos, u), m, pm, Walk(Keys(own), p, m, pm, known, node, pos, u))
  {
    hide SameMessage, Agree, WF, Leaves, AtEnd, Siblings, HasReceivedAll, EchoMissing, Universe, Along, Parts,
      MissingLeaves, PeerAddKey;
    if !SameMessage(m, node.msg) && !SameMessage(pm, node.msg) && pm.plen > pos {
      AllPart(node, pm.key, pos, Skip(node.msg, pos, pm));
    }
  }

  lemma {:induction false} WalkSummarises(own: Trie, p: Peer, m: Message, pm: Message, known: Trie, node: Trie,
      pos: nat, u: set<Key>)
    requires Walking(p, m, pm, known, node, pos, u) && own.Node? && Keys(own) <= u && Along(node, pm.key, pos)
    ensures Summarised(WalkEnd(p, m, pm, known, node, pos, u), m, pm, Walk(Keys(own), p, m, pm, known, node, pos, u))
    decreases node, KEY_BITS - pos
  {
    hide SameMessage, Proper, Siblings, Walk, WalkEnd, Skip, Keys, CanSkip, Then, Walking, Ready, EndOK, Along,
      Summarised;
    Skippable(p, m, pm, known, node, pos, u);
    if Stops(m, pm, node, pos) {
      StopsSummarise(own, p, m, pm, known, node, pos, u);
    } else {
      TurnAgrees(p, m, pm, known, node, pos, u);
      if m.plen <= Skip(node.msg, pos, pm) {
        WalkOn(Keys(own), p, m, pm, known, node, pos, u);
        EndOn(p, m, pm, known, node, pos, u);
        WalkSummarises(own, p, m, pm, known, node, Skip(node.msg, pos, pm), u);
      } else {
        WalkDown(Keys(own), p, m, pm, known, node, pos, u);
        EndDown(p, m, pm, known, node, pos, u);
        var bit := pm.key[node.msg.plen];
        var told, child := Siblings(p, pm, node, bit, u), Child(node, bit);
        WalkSummarises(own, told.peer, m, pm, known, child, node.msg.plen + 1, u);
        SummarisedThen(WalkEnd(told.peer, m, pm, known, child, node.msg.plen + 1, u), m, pm, told,
                       Walk(Keys(own), told.peer, m, pm, known, child, node.msg.plen + 1, u));
      }
    }
  }

  // Where the prefix of a node of ours parts from the message's, so do all keys below it, and if these are
  // told to the sender of a summary then so is the summary of the node.
  lemma PartingSummaryQueued(own: Trie, p: Peer, m: Message, u: set<Key>)
    requires WF(own, 0) && Keys(own) <= u && PeerOK(Keys(own), p, u) && Inspectable(m, u)
    ensures var (e, pm, o) := (MessageEnd(own, p, m, u), RemoveDifferences(p.root, m).0, RecvKey(own, p, m, u).0);
      e.Differs? ==>
        && e.node.Node? && (forall k :: k in Keys(e.node) ==> Parts(k, pm.key, e.bit)) && e.bit < m.plen
        && (m.stored && m.min <= e.bit && m.plen != KEY_BITS ==> Queue(e.node.msg) in o.events)
  {
    hide WF, Universe, Walk, WalkEnd, EndOK, SameMessage, RemoveDifferences, PassedOver, Group, PeerOK, Walking, Fits,
      Reached, Along, RecvKey, MessageEnd, Passed, Keys, Parts;
    PeerIsReady(own, p, u);
    Starts(own, p, m, u);
    var (pm, known) := RemoveDifferences(p.root, m);
    ProperNode(own, 0);
    WalkSummarises(own, p, m, pm, known, own, 0, u);
  }

  // A peer that has no keys at all is told all of ours.
  lemma EmptyPeerTold(own: Trie, p: Peer, m: Message, key: Key, u: set<Key>)
    requires WF(own, 0) && Keys(own) <= u && PeerOK(Keys(own), p, u) && key in Keys(own)
    requires 0 <= m.min <= m.plen == NO_NODE
    ensures Acceptable(m, u) && Proper(own)
    ensures var o := RecvKey(own, p, m, u).0;
      !Missed(p, own, false, key, u) ==>
        && key in Keys(o.peer.root)
        && (key !in Keys(p.root) ==> HasNot(key) in o.events && Offered(own, o.events, key))
  {
    hide WF, Universe, PeerOK, Missed, Offered, MissingLeaves, Leaves, Agree;
    PeerIsReady(own, p, u);
    ProperNode(own, 0);
    LeavesTold(own, p, own, false, key, u);
  }

  // ---- Messages that compare equal --------------------------------------------------------------

  // What was recorded below the known node as lacking there has arrived.
  ghost predicate AllArrived(known: Trie, o: Outcome) {
    forall k :: k in Marked(Leaves(known), true) ==> NowHas(k) in o.events && k !in Keys(o.peer.root)
  }

  // What an equal message does.
  ghost predicate Settled(own: set<Key>, e: End, m: Message, pm: Message, known: Trie, u: set<Key>, o: Outcome)
    requires own <= u && EndOK(e, m, pm, u)
  {
    e.Equal? ==> if m.stored then AllArrived(known, o) else o == EchoMissing(own, e.peer, e.node, u)
  }

  lemma ArrivedThen(known: Trie, first: Outcome, second: Outcome)
    requires AllArrived(known, second)
    ensures AllArrived(known, Then(first, second))
  {
  }

  lemma StopsSettle(own: Trie, p: Peer, m: Message, pm: Message, known: Trie, node: Trie, pos: nat, u: set<Key>)
    requires Walking(p, m, pm, known, node, pos, u) && Fits(own, p, node, u)
    requires ValidMessage(node.msg) && (SameMessage(m, node.msg) || pm.plen <= pos || CanSkip(node.msg, pos, pm))
    requires Stops(m, pm, node, pos)
    ensures Settled(Keys(own), WalkEnd(p, m, pm, known, node, pos, u), m, pm, known, u,
                    Walk(Keys(own), p, m, pm, known, node, pos, u))
  {
    hide SameMessage, Agree, WF, Universe, AtEnd, Mismatch, Siblings, HasReceivedAll, EchoMissing, PeerOK, Below,
      EventsOK;
    if SameMessage(m, node.msg) && m.stored {
      HasReceivedAllSafe(own, p, known, m, u);
    }
  }

  lemma UnstoredTold(p: Peer, pm: Message, node: Trie, bit: bool, u: set<Key>)
    requires Ready(p, u) && Proper(node) && !IsLeaf(node) && Keys(node) <= u
    ensures !pm.stored ==> Siblings(p, pm, node, bit, u) == Outcome(p, [], false)
  {
  }

  lemma NothingThen(p: Peer, o: Outcome)
    ensures Then(Outcome(p, [], false), o) == o
  {
  }

  lemma {:induction false} WalkSettles(own: Trie, p: Peer, m: Message, pm: Message, known: Trie, node: Trie, pos: nat,
      u: set<Key>)
    requires Walking(p, m, pm, known, node, pos, u) && Fits(own, p, node, u) && Reached(own, m, node)
    requires Keys(own) <= u
    ensures Settled(Keys(own), WalkEnd(p, m, pm, known, node, pos, u), m, pm, known, u,
                    Walk(Keys(own), p, m, pm, known, node, pos, u))
    decreases node, KEY_BITS - pos
  {
    hide SameMessage, Proper, Siblings, Walk, WalkEnd, Skip, Keys, CanSkip, Then, Walking, Ready, EndOK, AllArrived,
      Fits, Reached, PeerOK, EchoMissing;
    Skippable(p, m, pm, known, node, pos, u);
    if Stops(m, pm, node, pos) {
      StopsSettle(own, p, m, pm, known, node, pos, u);
    } else if m.plen <= Skip(node.msg, pos, pm) {
      WalkOn(Keys(own), p, m, pm, known, node, pos, u);
      EndOn(p, m, pm, known, node, pos, u);
      WalkSettles(own, p, m, pm, known, node, Skip(node.msg, pos, pm), u);
    } else {
      WalkDown(Keys(own), p, m, pm, known, node, pos, u);
      WalkDownReady(own, p, m, pm, known, node, pos, u);
      EndDown(p, m, pm, known, node, pos, u);
      var bit := pm.key[node.msg.plen];
      var told, child := Siblings(p, pm, node, bit, u), Child(node, bit);
      WalkSettles(own, told.peer, m, pm, known, child, node.msg.plen + 1, u);
      UnstoredTold(p, pm, node, bit, u);
      var rest := Walk(Keys(own), told.peer, m, pm, known, child, node.msg.plen + 1, u);
      NothingThen(p, rest);
      if AllArrived(known, rest) {
        ArrivedThen(known, told, rest);
      }
    }
  }

  // If a stored message compares equal to a node of ours, the keys with its prefix that are recorded as
  // lacking there have arrived.
  lemma LackingKeysArrive(own: Trie, p: Peer, m: Message, key: Key, u: set<Key>)
    requires WF(own, 0) && Keys(own) <= u && PeerOK(Keys(own), p, u) && Inspectable(m, u) && m.stored
    requires MessageEnd(own, p, m, u).Equal?
    requires key in Keys(p.root) && Leaves(p.root)[key] && Agree(key, m.key, m.plen)
    ensures var o := RecvKey(own, p, m, u).0; NowHas(key) in o.events && key !in Keys(o.peer.root)
  {
    hide WF, Universe, Walk, WalkEnd, EndOK, SameMessage, RemoveDifferences, PassedOver, Group, PeerOK, Walking, Fits,
      Reached, Along, RecvKey, MessageEnd, Passed;
    PeerIsReady(own, p, u);
    Starts(own, p, m, u);
    var (pm, known) := RemoveDifferences(p.root, m);
    KnownKeys(p.root, m, key);
    KnownBelow(p.root, known);
    WalkSettles(own, p, m, pm, known, own, 0, u);
  }

  // What the reduced message explains is left alone.
  ghost predicate Quiet(before: set<Key>, e: End, node: Trie, key: Key, o: Outcome) {
    e.Known? && key in Keys(e.node) ==> key in Keys(node) && Left(before, key, o, false)
  }

  lemma StopsQuiet(own: set<Key>, p: Peer, m: Message, pm: Message, known: Trie, node: Trie, pos: nat, key: Key,
      u: set<Key>)
    requires own <= u && Walking(p, m, pm, known, node, pos, u)
    requires ValidMessage(node.msg) && (SameMessage(m, node.msg) || pm.plen <= pos || CanSkip(node.msg, pos, pm))
    requires Stops(m, pm, node, pos)
    ensures Quiet(Keys(p.root), WalkEnd(p, m, pm, known, node, pos, u), node, key,
                  Walk(own, p, m, pm, known, node, pos, u))
  {
    hide SameMessage, Agree, WF, Universe, AtEnd, Mismatch, Siblings, HasReceivedAll, EchoMissing, Leaves;
    LeftAlone(p, key);
  }

  lemma QuietThen(before: set<Key>, e: End, node: Trie, bit: bool, key: Key, first: Outcome, second: Outcome)
    requires Proper(node) && !IsLeaf(node)
    requires Quiet(Keys(first.peer.root), e, Child(node, bit), key, second)
    requires key !in Keys(Child(node, !bit)) ==> Left(before, key, first, false)
    ensures Quiet(before, e, node, key, Then(first, second))
  {
    hide WF, Leaves;
    Halves(node);
  }

  lemma {:induction false} WalkQuiet(own: Trie, p: Peer, m: Message, pm: Message, known: Trie, node: Trie, pos: nat,
      key: Key, u: set<Key>)
    requires Walking(p, m, pm, known, node, pos, u) && Fits(own, p, node, u) && Reached(own, m, node)
    requires Keys(own) <= u
    ensures Quiet(Keys(p.root), WalkEnd(p, m, pm, known, node, pos, u), node, key,
                  Walk(Keys(own), p, m, pm, known, node, pos, u))
    decreases node, KEY_BITS - pos
  {
    hide SameMessage, Proper, Siblings, Walk, WalkEnd, Skip, Keys, CanSkip, Then, Walking, Ready, EndOK, Left, Quiet,
      Fits, Reached, PeerOK;
    Skippable(p, m, pm, known, node, pos, u);
    if Stops(m, pm, node, pos) {
      StopsQuiet(Keys(own), p, m, pm, known, node, pos, key, u);
    } else if m.plen <= Skip(node.msg, pos, pm) {
      WalkOn(Keys(own), p, m, pm, known, node, pos, u);
      EndOn(p, m, pm, known, node, pos, u);
      WalkQuiet(own, p, m, pm, known, node, Skip(node.msg, pos, pm), key, u);
    } else {
      WalkDown(Keys(own), p, m, pm, known, node, pos, u);
      WalkDownReady(own, p, m, pm, known, node, pos, u);
      EndDown(p, m, pm, known, node, pos, u);
      var bit := pm.key[node.msg.plen];
      var told, child := Siblings(p, pm, node, bit, u), Child(node, bit);
      SiblingsTell(own, p, pm, node, bit, key, u);
      WalkQuiet(own, told.peer, m, pm, known, child, node.msg.plen + 1, key, u);
      QuietThen(Keys(p.root), WalkEnd(told.peer, m, pm, known, child, node.msg.plen + 1, u), node, bit, key, told,
                Walk(Keys(own), told.peer, m, pm, known, child, node.msg.plen + 1, u));
    }
  }

  // If what is left of a message after what is known already compares equal to a node of ours, nothing is
  // recorded or reported about the keys below that node.
  lemma ExplainedKeysLeft(own: Trie, p: Peer, m: Message, key: Key, u: set<Key>)
    requires WF(own, 0) && Keys(own) <= u && PeerOK(Keys(own), p, u) && Inspectable(m, u)
    requires var e := MessageEnd(own, p, m, u); e.Known? && key in Keys(e.node)
    ensures var o := RecvKey(own, p, m, u).0;
      && key in Keys(own) && (key in Keys(o.peer.root) <==> key in Keys(p.root))
      && HasNot(key) !in o.events && NowHas(key) !in o.events
  {
    hide WF, Universe, Walk, WalkEnd, EndOK, SameMessage, RemoveDifferences, PassedOver, Group, PeerOK, Walking, Fits,
      Reached, Along, RecvKey, MessageEnd, Passed, Keys;
    PeerIsReady(own, p, u);
    Starts(own, p, m, u);
    var (pm, known) := RemoveDifferences(p.root, m);
    WalkQuiet(own, p, m, pm, known, own, 0, key, u);
  }

  // No summary in the record compares equal to a message with this key.
  ghost predicate Unmatched(root: Trie, key: Key) {
    forall q: Message :: ValidMessage(q) && q.plen == KEY_BITS && q.key == key ==> !Collides(root, q)
  }

  lemma EchoAtLeaf(own: set<Key>, p: Peer, node: Trie, key: Key, u: set<Key>)
    requires own <= u && Ready(p, u) && Proper(node) && IsLeaf(node) && key in own && key in Keys(node)
    requires Unmatched(p.root, key)
    ensures var o := EchoMissing(own, p, node, u);
      !o.confused && key in Keys(o.peer.root) && (key !in Keys(p.root) ==> HasNot(key) in o.events)
  {
    hide WF, Universe, Find, FindMessage, Collides, SameMessage;
    NodeMessage(node);
    LeafHolds(node, key);
    FindExact(p.root, node.msg);
  }

  // Without a summary of ours that compares equal, an echo of a key of ours ends at its leaf.
  lemma EchoEnds(own: Trie, p: Peer, m: Message, u: set<Key>)
    requires WF(own, 0) && Keys(own) <= u && PeerOK(Keys(own), p, u) && Inspectable(m, u)
    requires m.plen == KEY_BITS && !m.stored && m.key in Keys(own) && !CollidesFrom(own, 0, m)
    ensures var e := MessageEnd(own, p, m, u);
      !RecvKey(own, p, m, u).0.confused && e.Equal? && e.peer == p && IsLeaf(e.node) && m.key in Keys(e.node)
  {
    hide WF, Universe, Walk, WalkEnd, EndOK, SameMessage, RemoveDifferences, PassedOver, Group, PeerOK, Walking, Fits,
      Reached, Along, RecvKey, MessageEnd, Passed, Offered, Explained, Keys, CollidesFrom, Matches;
    PeerIsReady(own, p, u);
    RootLength(own);
    FullMessageEnd(own, p, m, u);
    EchoConfused(own, p, m, u);
    AgreeReflexive(m.key, m.plen);
    PrefixKeysOffered(own, p, m, m.key, u);
    NoneFirst(own, m);
    HoldsAKey(MessageEnd(own, p, m, u), m.key);
  }

  lemma HoldsAKey(e: End, key: Key)
    requires e.Equal? && key in Keys(e.node)
    ensures e.node.Node?
  {
  }

  lemma NoneFirst(t: Trie, m: Message)
    requires ValidMessage(m)
    ensures !CollidesFrom(t, 0, m) ==> forall s :: !FirstFrom(s, t, 0, m)
  {
    hide Matches;
  }

  // The echo of a key of ours makes us record, if we have not, that the peer lacks it; unless a summary,
  // of ours or in the record, compares equal to it.
  lemma EchoRecorded(own: Trie, p: Peer, m: Message, u: set<Key>)
    requires WF(own, 0) && Keys(own) <= u && PeerOK(Keys(own), p, u) && Inspectable(m, u)
    requires m.plen == KEY_BITS && !m.stored && m.key in Keys(own) && !CollidesFrom(own, 0, m)
    requires Unmatched(p.root, m.key)
    ensures var o := RecvKey(own, p, m, u).0;
      && !o.confused && m.key in Keys(o.peer.root)
      && (m.key !in Keys(p.root) ==> HasNot(m.key) in o.events)
  {
    hide WF, Universe, Walk, WalkEnd, SameMessage, RemoveDifferences, PassedOver, Group, PeerOK, Walking, Fits,
      Reached, Along, RecvKey, MessageEnd, Passed, Unmatched, EchoMissing, CollidesFrom;
    PeerIsReady(own, p, u);
    Starts(own, p, m, u);
    EchoEnds(own, p, m, u);
    var (pm, known) := RemoveDifferences(p.root, m);
    WalkSettles(own, p, m, pm, known, own, 0, u);
    EchoAtLeaf(Keys(own), p, MessageEnd(own, p, m, u).node, m.key, u);
  }
}
