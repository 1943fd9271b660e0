/** The synchronisation state of sync_keys.cpp in place: our own tree, the tree of differences of each
    peer, and the callbacks; every method is proved against the function of the same name. */
module SyncState {
  import opened SyncKey
  import opened SyncTrie
  import opened SyncSearch
  import opened SyncTree
  import opened SyncPeer
  import R = SyncReceive
  import F = SyncSafety
  import E = SyncExact
  import N = SyncNetwork

  class PeerState {
    const tree: KeyTree
    var sendCount: int
    var recvCount: int

    constructor ()
      ensures fresh(tree) && fresh(tree.nodes) && tree.Valid() && Value() == Peer(Nil, 0, 0)
    {
      tree := new KeyTree();
      sendCount, recvCount := 0, 0;
    }

    ghost function Value(): Peer
      reads this, tree
    {
      Peer(tree.view, sendCount, recvCount)
    }

    ghost predicate Valid(u: set<Key>)
      reads this, tree, tree.nodes
    {
      tree.Valid() && Ready(Value(), u)
    }

    method Insert(key: Key, stored: bool, ghost u: set<Key>) returns (leaf: TreeNode)
      requires Valid(u) && key in u && key !in Keys(tree.view)
      modifies this, tree, tree.nodes
      ensures Valid(u) && fresh(tree.nodes - old(tree.nodes))
      ensures Ready(old(Value()), u) && Value() == WithKey(old(Value()), key, stored, u)
      ensures tree.view.Node? && WF(tree.view, 0) && key in Keys(tree.view) &&
              LeafMessage(tree.view, 0, key) == leaf.Header()
      ensures forall x :: x in old(tree.nodes) ==> x in tree.nodes && Untouched(old(x.view), x.view, key)
    {
      Addable(Value(), key, u);
      ghost var after := WithKey(Value(), key, stored, u);
      leaf := tree.AddKey(key, stored);
      if stored {
        sendCount := sendCount + 1;
      } else {
        recvCount := recvCount + 1;
      }
    }

    method Delete(key: Key, ghost u: set<Key>)
      requires Valid(u) && key in Keys(tree.view)
      modifies this, tree, tree.nodes
      ensures Valid(u) && fresh(tree.nodes - old(tree.nodes))
      ensures Ready(old(Value()), u) && key in Keys(old(tree.view)) && Value() == Arrived(old(Value()), key, u)
      ensures forall x :: x in old(tree.nodes) && key !in Keys(old(x.view)) ==>
                x in tree.nodes && ButMin(x.view) == ButMin(old(x.view))
    {
      ghost var after := Arrived(Value(), key, u);
      tree.RemoveKey(key);
      sendCount := sendCount - 1;
    }
  }

  // What adding some keys can do to a node that is there.
  ghost predicate Spared(before: Trie, after: Trie, ks: set<Key>) {
    ButMin(before) == ButMin(after) || exists k :: k in ks && Shares(before, k)
  }

  lemma SparedTwice(a: Trie, b: Trie, c: Trie, ks: set<Key>, ls: set<Key>)
    requires Spared(a, b, ks) && Spared(b, c, ls)
    ensures Spared(a, c, ks + ls)
  {
  }

  lemma NodeHeader(t: KeyTree, n: TreeNode)
    requires t.Valid() && n in t.nodes
    ensures n.view.Node? && n.view.msg == n.Header()
  {
  }

  // Every node of our own tree is marked as stored.
  lemma {:induction false} FoundStored(t: Trie, sub: Trie)
    requires N.AllStored(t) && Below(sub, t) && sub.Node?
    ensures sub.msg.stored
    decreases t
  {
    if sub != t {
      FoundStored(if Below(sub, t.zero) then t.zero else t.one, sub);
    }
  }

  lemma AddOwnCases(own: Trie, key: Key, u: set<Key>)
    requires N.OwnOK(own, u) && key in u
    ensures WFRoot(own) && ValidMessage(Full(key))
    ensures var found := FindMessage(own, Full(key));
            if found.Nil? then
              && key !in Keys(own) && CanAdd(own, 0, 0, key)
              && N.WithOwnKey(own, key, u) == Add(own, 0, 0, key, true) && N.AllStored(N.WithOwnKey(own, key, u))
            else found.msg.stored
  {
    SearchForKey(own, Full(key));
    var found := FindMessage(own, Full(key));
    if found.Nil? {
      Addable(Peer(own, 0, 0), key, u);
      N.AddKeepsStored(own, 0, 0, key);
    } else {
      FoundStored(own, found);
    }
  }

  // The cases of peer_is_missing.
  lemma MissingCases(p: Peer, node: Trie, allowRemove: bool, u: set<Key>)
    requires Ready(p, u) && Proper(node) && ValidMessage(node.msg)
    requires FindMessage(p.root, node.msg).Nil? ==> node.msg.key in u
    requires !PeerIsMissing(p, node, allowRemove, u).0.confused
    ensures WFRoot(p.root)
    ensures var (found, key) := (FindMessage(p.root, node.msg), node.msg.key);
            var r := PeerIsMissing(p, node, allowRemove, u);
            if found.Nil? then
              key in u && key !in Keys(p.root) && r == (Outcome(WithKey(p, key, true, u), [HasNot(key)], false), true)
            else if found.msg.stored && allowRemove then
              key in Keys(p.root) && r == (Outcome(Arrived(p, key, u), [NowHas(key)], false), true)
            else
              r == (Outcome(p, [], false), false)
  {
    KeyFound(p.root, node.msg);
  }

  class State {
    const tree: KeyTree
    var events: seq<Event>    // the calls of the callbacks, in order

    constructor ()
      ensures fresh(tree) && fresh(tree.nodes) && tree.Valid() && tree.view == Nil && events == []
    {
      tree := new KeyTree();
      events := [];
    }

    // The two trees are apart and hold known keys.
    ghost predicate Separate(peer: PeerState, u: set<Key>)
      reads this, tree, tree.nodes, peer, peer.tree, peer.tree.nodes
    {
      && tree != peer.tree && tree.nodes !! peer.tree.nodes
      && tree.Valid() && peer.Valid(u) && Keys(tree.view) <= u
    }

    method Call(e: Event)
      modifies this`events
      ensures events == old(events) + [e]
    {
      events := events + [e];
    }

    // peer_is_missing
    method IsMissing(peer: PeerState, node: TreeNode, allowRemove: bool, ghost u: set<Key>) returns (missing: bool)
      requires Separate(peer, u) && node in tree.nodes && Proper(node.view) && ValidMessage(node.view.msg)
      requires Ready(peer.Value(), u) && (FindMessage(peer.tree.view, node.view.msg).Nil? ==> node.view.msg.key in u)
      requires !PeerIsMissing(peer.Value(), node.view, allowRemove, u).0.confused
      modifies this`events, peer, peer.tree, peer.tree.nodes
      ensures Separate(peer, u) && fresh(peer.tree.nodes - old(peer.tree.nodes))
      ensures Ready(old(peer.Value()), u)
      ensures var (o, changed) := PeerIsMissing(old(peer.Value()), node.view, allowRemove, u);
              peer.Value() == o.peer && events == old(events) + o.events && missing == changed
      ensures !allowRemove ==> forall x :: x in old(peer.tree.nodes) ==>
                x in peer.tree.nodes && Spared(old(x.view), x.view, {node.view.msg.key})
    {
      hide Shares, WF, Leaves, KeyTree.Holey, Keys, WFRoot, FindMessage, PeerIsMissing, Universe, WithKey, WithoutKey,
        ValidMessage;
      NodeHeader(tree, node);
      MissingCases(peer.Value(), node.view, allowRemove, u);
      var found := peer.tree.FindMessageNode(node.Header());
      if found != null {
        NodeHeader(peer.tree, found);
        if found.stored && allowRemove {
          Call(NowHas(node.key));
          peer.Delete(node.key, u);
          return true;
        }
        return false;
      }
      var leaf := peer.Insert(node.key, true, u);
      Call(HasNot(node.key));
      return true;
    }

    // sync_add_key, as far as our own tree is concerned.
    method AddOwn(key: Key, ghost u: set<Key>) returns (added: bool)
      requires tree.Valid() && N.OwnOK(tree.view, u) && key in u
      modifies tree, tree.nodes
      ensures tree.Valid() && N.OwnOK(tree.view, u) && fresh(tree.nodes - old(tree.nodes)) &&
              old(tree.nodes) <= tree.nodes
      ensures Keys(tree.view) == (if added then Keys(old(tree.view)) + {key} else Keys(old(tree.view)))
      ensures ValidMessage(Full(key)) && added == FindMessage(old(tree.view), Full(key)).Nil?
      ensures N.OwnOK(old(tree.view), u)
      ensures if added then key !in Keys(old(tree.view)) && tree.view == N.WithOwnKey(old(tree.view), key, u)
              else tree.view == old(tree.view)
    {
      hide WF, KeyTree.Holey, FindMessage, Universe;
      AddOwnCases(tree.view, key, u);
      var found := tree.FindMessageNode(Full(key));
      if found != null {
        NodeHeader(tree, found);
        found.stored := true;
        return false;
      }
      var leaf := tree.AddKey(key, true);
      return true;
    }

    // The body of the loop over the peers in sync_add_key.
    method ForgetKey(peer: PeerState, key: Key, ghost u: set<Key>)
      requires peer.Valid(u) && Ready(peer.Value(), u) && key in u && !N.Dropped(peer.Value(), key, u).1
      modifies peer, peer.tree, peer.tree.nodes
      ensures peer.Valid(u) && fresh(peer.tree.nodes - old(peer.tree.nodes)) && Ready(old(peer.Value()), u)
      ensures peer.Value() == N.Dropped(old(peer.Value()), key, u).0
    {
      hide WF, KeyTree.Holey, Universe;
      SearchForKey(peer.tree.view, Full(key));
      ghost var after := N.Dropped(peer.Value(), key, u).0;
      var found := peer.tree.FindMessageNode(Full(key));
      if found != null {
        NodeHeader(peer.tree, found);
        peer.tree.RemoveKey(key);
        peer.recvCount := peer.recvCount - 1;
      }
    }

    // peer_missing_leaf_nodes for all children.
    method AllLeavesMissing(peer: PeerState, node: TreeNode, allowRemove: bool, ghost u: set<Key>)
      requires Separate(peer, u) && node in tree.nodes && Proper(node.view) && Keys(node.view) <= u
      requires Ready(peer.Value(), u) && !MissingLeaves(peer.Value(), node.view, allowRemove, u).confused
      modifies this`events, peer, peer.tree, peer.tree.nodes
      ensures Separate(peer, u) && fresh(peer.tree.nodes - old(peer.tree.nodes))
      ensures Ready(old(peer.Value()), u)
      ensures var o := MissingLeaves(old(peer.Value()), node.view, allowRemove, u);
              peer.Value() == o.peer && events == old(events) + o.events
      ensures !allowRemove ==> forall x :: x in old(peer.tree.nodes) ==>
                x in peer.tree.nodes && Spared(old(x.view), x.view, Keys(node.view))
      decreases node.view
    {
      hide Spared, Shares, ButMin, WF, Leaves, KeyTree.Holey, Keys, WFRoot, FindMessage, PeerIsMissing, MissingLeaves,
        Universe, WithKey, WithoutKey, ValidMessage, Within;
      NodeHeader(tree, node);
      MissingTurn(peer.Value(), node.view, allowRemove, u);
      if node.plen == KEY_BITS {
        var missing := IsMissing(peer, node, allowRemove, u);
        if missing {
          Call(Queue(node.Header()));
        }
      } else {
        ChildNodes(tree, node);
        ghost var before, start := events, peer.Value();
        AllLeavesMissing(peer, node.zero, allowRemove, u);
        label halfway:
        ghost var first := MissingLeaves(start, node.view.zero, allowRemove, u);
        AllLeavesMissing(peer, node.one, allowRemove, u);
        ghost var second := MissingLeaves(first.peer, node.view.one, allowRemove, u);
        assert before + (first.events + second.events) == before + first.events + second.events;
        forall x | !allowRemove && x in old(peer.tree.nodes)
          ensures x in peer.tree.nodes && Spared(old(x.view), x.view, Keys(node.view))
        {
          SparedTwice(old(x.view), old@halfway(x.view), x.view, Keys(node.view.zero), Keys(node.view.one));
        }
      }
    }

    // peer_has_received_all.  The nodes still to be visited outlive the removals: only nodes that
    // hold a removed key leave the tree, and the others keep all but their minimum prefix length.
    method HaveReceivedAll(peer: PeerState, n: TreeNode?, ghost was: Trie, ghost u: set<Key>) returns (ret: nat)
      requires peer.Valid(u) && Ready(peer.Value(), u) && (was.Nil? || Proper(was)) &&
               Within(Leaves(was), Leaves(peer.tree.view))
      requires if n == null then was.Nil? else n in peer.tree.nodes && ButMin(n.view) == ButMin(was)
      modifies this`events, peer, peer.tree, peer.tree.nodes
      ensures peer.Valid(u) && fresh(peer.tree.nodes - old(peer.tree.nodes)) && Ready(old(peer.Value()), u)
      ensures Within(Leaves(was), Leaves(old(peer.Value()).root))
      ensures var (o, count) := HasReceivedAll(old(peer.Value()), was, u);
              peer.Value() == o.peer && events == old(events) + o.events && ret == count
      ensures forall x :: x in old(peer.tree.nodes) && Keys(old(x.view)) !! Keys(was) ==>
                x in peer.tree.nodes && ButMin(x.view) == ButMin(old(x.view))
      decreases was
    {
      hide WF, Leaves, KeyTree.Holey, Keys, WFRoot, HasReceivedAll, Universe, WithKey, WithoutKey, Within, ButMin;
      ReceivedTurn(peer.Value(), was, u);
      if n == null {
        return 0;
      }
      NodeHeader(peer.tree, n);
      SameButMin(n.view, was);
      if n.plen == KEY_BITS {
        if n.stored {
          Call(NowHas(n.key));
          peer.Delete(n.key, u);
          return 1;
        }
        return 0;
      }
      ChildNodes(peer.tree, n);
      var zero, one := n.zero, n.one;
      ghost var before, start := events, peer.Value();
      var some := HaveReceivedAll(peer, zero, was.zero, u);
      label visited:
      ghost var first := HasReceivedAll(start, was.zero, u).0;
      var more := HaveReceivedAll(peer, one, was.one, u);
      ghost var second := HasReceivedAll(first.peer, was.one, u).0;
      assert before + (first.events + second.events) == before + first.events + second.events;
      forall x | x in old(peer.tree.nodes) && Keys(old(x.view)) !! Keys(was)
        ensures x in peer.tree.nodes && ButMin(x.view) == ButMin(old(x.view))
      {
        SameKeys(old(x.view), old@visited(x.view));
      }
      return some + more;
    }

    // peer_add_key
    method AddPeerKey(peer: PeerState, m: Message, ghost u: set<Key>)
      requires peer.Valid(u) && (m.plen == KEY_BITS ==> ValidMessage(m) && m.key in u)
      modifies this`events, peer, peer.tree, peer.tree.nodes
      ensures peer.Valid(u) && fresh(peer.tree.nodes - old(peer.tree.nodes)) && Ready(old(peer.Value()), u)
      ensures var o := PeerAddKey(old(peer.Value()), m, u);
              peer.Value() == o.peer && events == old(events) + o.events
    {
      hide WF, Leaves, KeyTree.Holey, Keys, WFRoot, FindMessage, PeerAddKey, Universe, WithKey;
      AddPeerCases(peer.Value(), m, u);
      if m.plen != KEY_BITS || !m.stored {
        return;
      }
      var found := peer.tree.FindMessageNode(m);
      if found != null {
        NodeHeader(peer.tree, found);
        return;
      }
      var leaf := peer.Insert(m.key, false, u);
      Call(Has(m.key));
      Call(Queue(leaf.Header()));
    }

    // remove_differences
    method TakeOutDifferences(peer: PeerState, m: Message, ghost u: set<Key>) returns (pm: Message, known: TreeNode?)
      requires peer.Valid(u) && ValidMessage(m) && m.plen != KEY_BITS - 1
      ensures known != null ==> known in peer.tree.nodes
      ensures WFRoot(peer.tree.view) && (pm, ViewOf(known)) == R.RemoveDifferences(peer.tree.view, m)
    {
      hide WF, WFRoot, Leaves, KeyTree.Holey, Keys, SameMessage, Agree, Proper, Universe;
      RootNode(peer.tree);
      if peer.tree.root == null || !m.stored {
        return m, null;
      }
      var node, p := peer.tree.root, 0;
      R.NodeMessage(node.view);
      while p < m.plen
        invariant node in peer.tree.nodes && node.view.Node? && node.view.msg == node.Header() && Proper(node.view)
        invariant 0 <= p <= node.plen && R.Approach(node.view, p, m) == R.Approach(peer.tree.view, 0, m)
        decreases node.view, KEY_BITS - p
      {
        R.NodeMessage(node.view);
        if node.plen == KEY_BITS {
          if SameMessage(m, node.Header()) {
            break;
          }
          if m.plen == KEY_BITS {
            return m, null;
          }
        }
        var bit := R.GetBit(m.key, p);
        if p < node.plen {
          if R.GetBit(node.key, p) != bit {
            return m, null;
          }
        } else {
          InnerNode(node.view, bit);
          ChildNodes(peer.tree, node);
          node := node.Next(bit);
          NodeHeader(peer.tree, node);
        }
        p := p + 1;
      }
      pm, known := m, node;
      if m.plen < KEY_BITS {
        if node.plen == m.plen || node.plen == KEY_BITS {
          pm := XorMessage(node.key, m);
        } else {
          ProperRises(node.view);
          pm := peer.tree.XorChildrenOf(node, m, Nowhere);
        }
      }
    }

    // The part of recv_key for a message all of whose prefix bits have been used up.
    method AtTheEnd(peer: PeerState, pm: Message, blank: bool, node: TreeNode, p: nat, ghost u: set<Key>)
      requires Separate(peer, u) && node in tree.nodes && Proper(node.view) && Keys(node.view) <= u
      requires ValidMessage(pm) && pm.plen <= KEY_BITS - 2 && pm.plen <= p <= node.view.msg.plen &&
               blank == R.IsBlank(pm)
      requires Ready(peer.Value(), u) && !R.AtEnd(peer.Value(), pm, node.view, p, u).confused
      modifies this`events, peer, peer.tree, peer.tree.nodes
      ensures Separate(peer, u) && fresh(peer.tree.nodes - old(peer.tree.nodes)) && Ready(old(peer.Value()), u)
      ensures var o := R.AtEnd(old(peer.Value()), pm, node.view, p, u);
              peer.Value() == o.peer && events == old(events) + o.events
    {
      hide WF, WFRoot, Leaves, KeyTree.Holey, Keys, SameMessage, Agree, MissingLeaves, Universe, Find, R.IsBlank,
        XorInto;
      NodeHeader(tree, node);
      R.NodeMessage(node.view);
      if blank {
        AllLeavesMissing(peer, node, true, u);
      } else if node.plen > pm.plen {
        Call(Queue(node.Header()));
      } else {
        var difference := XorMessage(node.key, pm);
        WholeNode(node.view);
        var found := tree.FindFrom(node, p, difference);
        if found != null {
          NodeHeader(tree, found);
          R.BelowProper(found.view, node.view);
          AllLeavesMissing(peer, found, true, u);
        } else {
          InnerNode(node.view, false);
          ChildNodes(tree, node);
          NodeHeader(tree, node.zero);
          NodeHeader(tree, node.one);
          Call(Queue(node.zero.Header()));
          Call(Queue(node.one.Header()));
        }
      }
    }

    // The part of recv_key for a prefix that differs.
    method AtMismatch(peer: PeerState, pm: Message, node: TreeNode, q: nat, ghost u: set<Key>)
      requires Separate(peer, u) && node in tree.nodes && Proper(node.view) && Keys(node.view) <= u &&
               R.Inspectable(pm, u)
      requires Ready(peer.Value(), u) && !R.Mismatch(peer.Value(), pm, node.view, q, u).confused
      modifies this`events, peer, peer.tree, peer.tree.nodes
      ensures Separate(peer, u) && fresh(peer.tree.nodes - old(peer.tree.nodes)) && Ready(old(peer.Value()), u)
      ensures var o := R.Mismatch(old(peer.Value()), pm, node.view, q, u);
              peer.Value() == o.peer && events == old(events) + o.events
    {
      hide WF, WFRoot, Leaves, KeyTree.Holey, Keys, MissingLeaves, Universe, PeerAddKey;
      NodeHeader(tree, node);
      if q >= pm.min && pm.stored {
        AllLeavesMissing(peer, node, false, u);
        if pm.plen != KEY_BITS {
          Call(Queue(node.Header()));
        }
      }
      if pm.plen == KEY_BITS {
        AddPeerKey(peer, pm, u);
      }
    }

    // peer_missing_leaf_nodes with the message's own branch excepted, where the message says that the
    // peer has none of the others.
    method SiblingsMissing(peer: PeerState, pm: Message, node: TreeNode, bit: bool, ghost u: set<Key>)
      requires Separate(peer, u) && node in tree.nodes && Proper(node.view) && !IsLeaf(node.view) &&
               Keys(node.view) <= u
      requires Ready(peer.Value(), u) && !R.Siblings(peer.Value(), pm, node.view, bit, u).confused
      modifies this`events, peer, peer.tree, peer.tree.nodes
      ensures Separate(peer, u) && fresh(peer.tree.nodes - old(peer.tree.nodes)) && Ready(old(peer.Value()), u)
      ensures var o := R.Siblings(old(peer.Value()), pm, node.view, bit, u);
              peer.Value() == o.peer && events == old(events) + o.events
      ensures forall x :: x in old(peer.tree.nodes) ==>
                x in peer.tree.nodes && Spared(old(x.view), x.view, Keys(Child(node.view, !bit)))
    {
      hide WF, WFRoot, Leaves, KeyTree.Holey, Keys, MissingLeaves, Universe, Shares;
      NodeHeader(tree, node);
      if pm.min <= node.plen && pm.stored {
        InnerNode(node.view, !bit);
        ChildNodes(tree, node);
        AllLeavesMissing(peer, if bit then node.zero else node.one, false, u);
      }
    }

    // What is known about the peer stays good, since the siblings differ from the message.
    method SiblingsKnown(peer: PeerState, ghost m: Message, pm: Message, ghost known: TreeNode?, ghost was: Trie,
        node: TreeNode, bit: bool, ghost u: set<Key>)
      requires Separate(peer, u) && node in tree.nodes && Proper(node.view) && !IsLeaf(node.view) &&
               Keys(node.view) <= u
      requires known != null ==> known in peer.tree.nodes && ButMin(known.view) == ButMin(was)
      requires KnownFits(was, m, pm) && (was.Nil? || Proper(was))
      requires node.view.msg.plen < m.plen && bit == pm.key[node.view.msg.plen]
      requires Ready(peer.Value(), u) && !R.Siblings(peer.Value(), pm, node.view, bit, u).confused
      modifies this`events, peer, peer.tree, peer.tree.nodes
      ensures Separate(peer, u) && fresh(peer.tree.nodes - old(peer.tree.nodes)) && Ready(old(peer.Value()), u)
      ensures var o := R.Siblings(old(peer.Value()), pm, node.view, bit, u);
              peer.Value() == o.peer && events == old(events) + o.events
      ensures known != null ==> known in peer.tree.nodes && ButMin(known.view) == ButMin(was)
    {
      hide WF, WFRoot, Leaves, KeyTree.Holey, Keys, Universe, KnownFits, Proper, R.Siblings, ButMin, Spared, Agree;
      ghost var before := ViewOf(known);
      SiblingsMissing(peer, pm, node, bit, u);
      if known != null {
        KnownKept(before, known.view, was, m, pm, node.view, bit);
      }
    }

    // The inner loop of recv_key.
    method SkipPrefix(node: TreeNode, p: nat, pm: Message) returns (q: nat)
      requires p <= node.plen && p <= pm.plen && R.CanSkip(node.Header(), p, pm)
      ensures q == R.Skip(node.Header(), p, pm)
    {
      q := p;
      while q < node.plen && q < pm.plen && R.GetBit(node.key, q) == R.GetBit(pm.key, q)
        invariant p <= q <= node.plen && q <= pm.plen && R.CanSkip(node.Header(), q, pm)
        invariant R.Skip(node.Header(), q, pm) == R.Skip(node.Header(), p, pm)
        decreases KEY_BITS - q
      {
        q := q + 1;
      }
    }

    // recv_key
    method RecvKey(peer: PeerState, m: Message, ghost u: set<Key>) returns (rc: int)
      requires Separate(peer, u) && R.Acceptable(m, u) && WFRoot(tree.view) && Keys(tree.view) <= u
      requires Ready(peer.Value(), u) && !R.RecvKey(tree.view, peer.Value(), m, u).0.confused
      modifies this`events, peer, peer.tree, peer.tree.nodes
      ensures Separate(peer, u) && fresh(peer.tree.nodes - old(peer.tree.nodes)) && Ready(old(peer.Value()), u)
      ensures var (o, result) := R.RecvKey(tree.view, old(peer.Value()), m, u);
              peer.Value() == o.peer && events == old(events) + o.events && rc == result
    {
      hide WF, Leaves, KeyTree.Holey, Keys, MissingLeaves, Universe, PeerAddKey, R.Walk, R.RemoveDifferences,
        SameMessage;
      RootNode(tree);
      if m.min > m.plen || m.plen > NO_NODE {
        return -1;
      }
      if tree.root == null {
        AddPeerKey(peer, m, u);
        return 0;
      }
      if m.plen == NO_NODE {
        AllLeavesMissing(peer, tree.root, false, u);
        return 0;
      }
      var pm, known := TakeOutDifferences(peer, m, u);
      StartWalk(tree.view, peer.Value(), m, u);
      Walk(peer, m, pm, known, u);
      return 0;
    }

    // The ways in which the loop of recv_key ends at a node; otherwise, how far the prefix was skipped.
    method AtNode(peer: PeerState, m: Message, pm: Message, known: TreeNode?, ghost was: Trie, blank: bool,
        node: TreeNode, p: nat, ghost u: set<Key>)
      returns (done: bool, q: nat)
      requires Separate(peer, u) && node in tree.nodes && blank == R.IsBlank(pm)
      requires if known == null then was.Nil? else known in peer.tree.nodes && ButMin(known.view) == ButMin(was)
      requires R.Walking(peer.Value(), m, pm, was, node.view, p, u)
      requires !R.Walk(Keys(tree.view), peer.Value(), m, pm, was, node.view, p, u).confused
      modifies this`events, peer, peer.tree, peer.tree.nodes
      ensures Separate(peer, u) && fresh(peer.tree.nodes - old(peer.tree.nodes))
      ensures R.Walking(old(peer.Value()), m, pm, was, node.view, p, u)
      ensures var o := R.Walk(Keys(tree.view), old(peer.Value()), m, pm, was, node.view, p, u);
              done ==> peer.Value() == o.peer && events == old(events) + o.events
      ensures !done ==>
                && peer.Value() == old(peer.Value()) && events == old(events)
                && (known != null ==> known in peer.tree.nodes && ButMin(known.view) == ButMin(was))
                && Going(m, pm, node.view, p) && q == R.Skip(node.view.msg, p, pm)
    {
      hide WF, WFRoot, Leaves, KeyTree.Holey, Keys, Universe, R.Walk, SameMessage, KnownFits, Proper, R.Walking,
        R.AtEnd, R.Mismatch, R.Siblings, HasReceivedAll, PeerIsMissing, ButMin, Spared, R.CanSkip, R.Skip, Agree;
      NodeHeader(tree, node);
      WalkParts(peer.Value(), m, pm, was, node.view, p, u);
      if SameMessage(m, node.Header()) || SameMessage(pm, node.Header()) || pm.plen <= p {
        WalkEnds(Keys(tree.view), peer.Value(), m, pm, was, node.view, p, u);
      } else {
        WalkGoes(Keys(tree.view), peer.Value(), m, pm, was, node.view, p, u);
      }
      done, q := true, p;
      if SameMessage(m, node.Header()) {
        if m.stored {
          var count := HaveReceivedAll(peer, known, was, u);
        } else {
          var missing := IsMissing(peer, node, false, u);
        }
        return;
      }
      if SameMessage(pm, node.Header()) {
        return;
      }
      if pm.plen <= p {
        AtTheEnd(peer, pm, blank, node, p, u);
        return;
      }
      q := SkipPrefix(node, p, pm);
      if q < node.plen && q < pm.plen {
        AtMismatch(peer, pm, node, q, u);
        return;
      }
      done := false;
    }

    // The loop of recv_key.
    method Walk(peer: PeerState, m: Message, pm: Message, known: TreeNode?, ghost u: set<Key>)
      requires Separate(peer, u) && tree.root != null && (known != null ==> known in peer.tree.nodes)
      requires R.Walking(peer.Value(), m, pm, ViewOf(known), tree.view, 0, u) && KnownFits(ViewOf(known), m, pm)
      requires !R.Walk(Keys(tree.view), peer.Value(), m, pm, ViewOf(known), tree.view, 0, u).confused
      modifies this`events, peer, peer.tree, peer.tree.nodes
      ensures Separate(peer, u) && fresh(peer.tree.nodes - old(peer.tree.nodes))
      ensures R.Walking(old(peer.Value()), m, pm, old(ViewOf(known)), tree.view, 0, u)
      ensures var o := R.Walk(Keys(tree.view), old(peer.Value()), m, pm, old(ViewOf(known)), tree.view, 0, u);
              peer.Value() == o.peer && events == old(events) + o.events
    {
      hide WF, WFRoot, Leaves, KeyTree.Holey, Keys, Universe, R.Walk, SameMessage, KnownFits, Proper, R.Walking,
        R.AtEnd, R.Mismatch, R.Siblings, HasReceivedAll, PeerIsMissing, ButMin, Spared, R.CanSkip, R.Skip, Agree;
      RootNode(tree);
      var node, p := tree.root, 0;
      var blank := R.IsBlank(pm);
      ghost var was := ViewOf(known);
      while true
        invariant Separate(peer, u) && fresh(peer.tree.nodes - old(peer.tree.nodes)) && node in tree.nodes
        invariant known == null ==> was.Nil?
        invariant known != null ==> known in peer.tree.nodes && ButMin(known.view) == ButMin(was)
        invariant p >= 0 && R.Walking(peer.Value(), m, pm, was, node.view, p, u)
        invariant var rest := R.Walk(Keys(tree.view), peer.Value(), m, pm, was, node.view, p, u);
                  var total := R.Walk(Keys(tree.view), old(peer.Value()), m, pm, was, tree.view, 0, u);
                  !rest.confused && total.peer == rest.peer && old(events) + total.events == events + rest.events
        decreases node.view, KEY_BITS - p
      {
        var done, q := AtNode(peer, m, pm, known, was, blank, node, p, u);
        if done {
          return;
        }
        NodeHeader(tree, node);
        WalkParts(peer.Value(), m, pm, was, node.view, p, u);
        if m.plen <= q {
          F.WalkOn(Keys(tree.view), peer.Value(), m, pm, was, node.view, p, u);
          p := q;
          continue;
        }
        F.WalkDown(Keys(tree.view), peer.Value(), m, pm, was, node.view, p, u);
        assert q == node.plen;
        var bit := R.GetBit(pm.key, q);
        InnerNode(node.view, bit);
        ChildNodes(tree, node);
        SiblingsKnown(peer, m, pm, known, was, node, bit, u);
        node := node.Next(bit);
        p := q + 1;
      }
    }
  }

  // The loop goes on.
  predicate Going(m: Message, pm: Message, node: Trie, pos: nat) {
    && node.Node? && ValidMessage(node.msg) && ValidMessage(m) && SameHeader(pm, m) && pos <= node.msg.plen &&
        pos <= pm.plen
    && R.CanSkip(node.msg, pos, pm) && !F.Stops(m, pm, node, pos)
  }

  // What remove_differences found about the peer lies within the prefix of the message.
  ghost predicate KnownFits(known: Trie, m: Message, pm: Message) {
    known.Nil? || IsLeaf(known) ||
    (m.plen <= known.msg.plen && Agree(pm.key, m.key, m.plen) &&
     forall k :: k in Keys(known) ==> Agree(k, m.key, m.plen))
  }

  lemma StartWalk(own: Trie, p: Peer, m: Message, u: set<Key>)
    requires Ready(p, u) && own.Node? && WF(own, 0) && Keys(own) <= u && R.Inspectable(m, u)
    ensures var (pm, known) := R.RemoveDifferences(p.root, m);
            && R.Walking(p, m, pm, known, own, 0, u) && KnownFits(known, m, pm)
            && R.RecvKey(own, p, m, u) == (R.Walk(Keys(own), p, m, pm, known, own, 0, u), 0)
  {
    ProperNode(own, 0);
    var (pm, known) := R.RemoveDifferences(p.root, m);
    R.KnownBelow(p.root, known);
    assert forall k :: k in Keys(own) ==> Agree(k, m.key, 0);
    if known.Node? {
      ProperNode(p.root, 0);
      assert forall k :: k in Keys(p.root) ==> Agree(k, m.key, 0);
      E.ApproachMatches(p.root, 0, m);
      if !IsLeaf(known) {
        assert SameFrom(m.key, m.key, m.plen);
        E.RemoveDifferencesXors(p.root, m, m.key);
      }
    }
  }

  // What each way through the loop body of recv_key does.
  lemma WalkParts(p: Peer, m: Message, pm: Message, known: Trie, node: Trie, pos: nat, u: set<Key>)
    requires R.Walking(p, m, pm, known, node, pos, u)
    ensures Ready(p, u) && Proper(node) && Keys(node) <= u && pos <= node.msg.plen && SameHeader(pm, m)
    ensures ValidMessage(m) && ValidMessage(node.msg) && R.Inspectable(pm, u)
    ensures Within(Leaves(known), Leaves(p.root)) && (known.Nil? || Proper(known)) &&
            (IsLeaf(node) ==> node.msg.key in u)
  {
  }

  lemma WalkEnds(own: set<Key>, p: Peer, m: Message, pm: Message, known: Trie, node: Trie, pos: nat, u: set<Key>)
    requires own <= u && R.Walking(p, m, pm, known, node, pos, u)
    requires ValidMessage(m) && ValidMessage(pm) && node.Node? && ValidMessage(node.msg)
    requires SameMessage(m, node.msg) || SameMessage(pm, node.msg) || pm.plen <= pos
    ensures Ready(p, u) && Proper(node) && Keys(node) <= u && pos <= node.msg.plen
    ensures Within(Leaves(known), Leaves(p.root)) && (known.Nil? || Proper(known)) &&
            (IsLeaf(node) ==> node.msg.key in u)
    ensures var r := R.Walk(own, p, m, pm, known, node, pos, u);
            if SameMessage(m, node.msg) then
              if m.stored then r == HasReceivedAll(p, known, u).0
              else
                !r.confused ==>
                  && (FindMessage(p.root, node.msg).Nil? ==> node.msg.key in u)
                  && r == PeerIsMissing(p, node, false, u).0
            else if SameMessage(pm, node.msg) then r == Outcome(p, [], false)
            else pm.plen <= KEY_BITS - 2 && r == R.AtEnd(p, pm, node, pos, u)
  {
    WalkParts(p, m, pm, known, node, pos, u);
    if !SameMessage(m, node.msg) && pm.plen <= pos {
      F.NotUsedUp(p, m, pm, known, node, pos, u);
    }
  }

  // Keys that differ from the message within its prefix do not get below what is known.
  lemma KnownKept(before: Trie, after: Trie, was: Trie, m: Message, pm: Message, node: Trie, bit: bool)
    requires ButMin(before) == ButMin(was) && KnownFits(was, m, pm) && (was.Nil? || Proper(was))
    requires Proper(node) && !IsLeaf(node) && node.msg.plen < m.plen && bit == pm.key[node.msg.plen]
    requires Spared(before, after, Keys(Child(node, !bit)))
    ensures ButMin(after) == ButMin(was)
  {
    SameButMin(before, was);
    forall k | k in Keys(Child(node, !bit))
      ensures !Shares(before, k)
    {
      if was.Node? && !IsLeaf(was) {
        NodeParts(node, node.msg.min);
        NotShared(was, m, pm, node.msg.plen, k);
      }
    }
  }

  lemma NotShared(was: Trie, m: Message, pm: Message, q: nat, k: Key)
    requires KnownFits(was, m, pm) && Proper(was) && !IsLeaf(was) && q < m.plen && q < KEY_BITS && k[q] != pm.key[q]
    ensures !Shares(was, k)
  {
    KeysNonEmpty(was, was.msg.min);
    var a :| a in Keys(was);
    assert Agree(a, m.key, m.plen) && Agree(pm.key, m.key, m.plen);
    assert a[q] == pm.key[q];
  }

  lemma WalkGoes(own: set<Key>, p: Peer, m: Message, pm: Message, known: Trie, node: Trie, pos: nat, u: set<Key>)
    requires own <= u && R.Walking(p, m, pm, known, node, pos, u)
    requires ValidMessage(m) && ValidMessage(pm) && node.Node? && ValidMessage(node.msg)
    requires !SameMessage(m, node.msg) && !SameMessage(pm, node.msg) && pos < pm.plen
    ensures pos <= node.msg.plen && SameHeader(pm, m) && R.CanSkip(node.msg, pos, pm)
    ensures Ready(p, u) && Proper(node) && Keys(node) <= u && R.Inspectable(pm, u)
    ensures var q := R.Skip(node.msg, pos, pm);
            q < node.msg.plen && q < pm.plen ==>
              R.Walk(own, p, m, pm, known, node, pos, u) == R.Mismatch(p, pm, node, q, u)
    ensures !(R.Skip(node.msg, pos, pm) < node.msg.plen && R.Skip(node.msg, pos, pm) < pm.plen) ==>
            !F.Stops(m, pm, node, pos)
  {
    WalkParts(p, m, pm, known, node, pos, u);
    R.SkipReady(p, m, pm, known, node, pos, u);
  }

  lemma WholeNode(t: Trie)
    requires Proper(t)
    ensures WF(t, t.msg.min)
  {
  }

  lemma InnerNode(t: Trie, bit: bool)
    requires Proper(t) && !IsLeaf(t)
    ensures t.zero.Node? && t.one.Node? && Proper(Child(t, bit)) && t.msg.plen + 1 <= Child(t, bit).msg.plen
    ensures Keys(Child(t, bit)) <= Keys(t)
  {
    R.ChildProper(t, bit);
    Halves(t);
  }

  lemma RootNode(t: KeyTree)
    requires t.Valid()
    ensures WFRoot(t.view) && (t.root == null <==> t.view.Nil?)
    ensures t.root != null ==>
              t.root in t.nodes && t.root.view == t.view && t.view.Node? && t.view.msg == t.root.Header() &&
                  Proper(t.view)
  {
  }

  lemma ProperRises(t: Trie)
    requires Proper(t)
    ensures Rising(t)
  {
    WFRises(t, t.msg.min);
  }

  lemma ChildNodes(t: KeyTree, n: TreeNode)
    requires t.Valid() && n in t.nodes && n.view.Node? && n.view.zero.Node? && n.view.one.Node?
    ensures n.zero != null && n.zero in t.nodes && n.zero.view == n.view.zero
    ensures n.one != null && n.one in t.nodes && n.one.view == n.view.one && n.zero != n.one
  {
    assert HeaderOK(n) && ChildOK(n, false, t.nodes) && ChildOK(n, true, t.nodes);
  }

  lemma AddPeerCases(p: Peer, m: Message, u: set<Key>)
    requires Ready(p, u) && (m.plen == KEY_BITS ==> ValidMessage(m) && m.key in u)
    ensures WFRoot(p.root)
    ensures var o := PeerAddKey(p, m, u);
            if m.plen != KEY_BITS || !m.stored || FindMessage(p.root, m).Node? then o == Outcome(p, [], false)
            else
              m.key in u && m.key !in Keys(p.root)
              && var q := WithKey(p, m.key, false, u);
                 WFRoot(q.root) && q.root.Node? && WF(q.root, 0) && m.key in Keys(q.root)
                 && o == Outcome(q, [Has(m.key), Queue(LeafMessage(q.root, 0, m.key))], false)
  {
    if m.plen == KEY_BITS && m.stored {
      SearchForKey(p.root, m);
    }
  }

  lemma SameKeys(t: Trie, u: Trie)
    ensures ButMin(t) == ButMin(u) ==> Keys(t) == Keys(u)
  {
  }

  lemma ReceivedTurn(p: Peer, node: Trie, u: set<Key>)
    requires Ready(p, u) && (node.Nil? || Proper(node)) && Within(Leaves(node), Leaves(p.root))
    ensures var (o, n) := HasReceivedAll(p, node, u);
            if node.Nil? then o == Outcome(p, [], false) && n == 0
            else if IsLeaf(node) then
              && node.msg.key in Keys(p.root) && Leaves(p.root)[node.msg.key] == node.msg.stored &&
                  Keys(node) == {node.msg.key}
              && o == (if node.msg.stored then Outcome(WithoutKey(p, node.msg.key, u), [NowHas(node.msg.key)], false)
                       else Outcome(p, [], false))
              && n == (if node.msg.stored then 1 else 0)
            else
              && Proper(node.zero) && Proper(node.one) && Keys(node) == Keys(node.zero) + Keys(node.one)
              && Keys(node.zero) !! Keys(node.one) && Within(Leaves(node.zero), Leaves(p.root))
              && var (first, k) := HasReceivedAll(p, node.zero, u);
                 && Within(Leaves(node.one), Leaves(first.peer.root))
                 && o == Then(first, HasReceivedAll(first.peer, node.one, u).0)
                 && n == k + HasReceivedAll(first.peer, node.one, u).1
  {
    if node.Node? {
      if IsLeaf(node) {
        LeafMarked(node);
        assert node.msg.key in Keys(node);
      } else {
        Halves(node);
        HalvesMarked(Leaves(node.zero), Leaves(node.one), Leaves(p.root));
      }
    }
  }

  lemma MissingTurn(p: Peer, node: Trie, allowRemove: bool, u: set<Key>)
    requires Ready(p, u) && Proper(node) && Keys(node) <= u
    ensures var r := MissingLeaves(p, node, allowRemove, u);
            if IsLeaf(node) then
              && node.msg.key in u && Keys(node) == {node.msg.key} && ValidMessage(node.msg)
              && r.confused == PeerIsMissing(p, node, allowRemove, u).0.confused
              && r.peer == PeerIsMissing(p, node, allowRemove, u).0.peer
              && r.events == PeerIsMissing(p, node, allowRemove, u).0.events +
                             if PeerIsMissing(p, node, allowRemove, u).1 then [Queue(node.msg)] else []
            else
              && Proper(node.zero) && Proper(node.one) && Keys(node.zero) <= u && Keys(node.one) <= u
              && Keys(node) == Keys(node.zero) + Keys(node.one)
              && var first := MissingLeaves(p, node.zero, allowRemove, u);
                 && Ready(first.peer, u)
                 && r == Then(first, MissingLeaves(first.peer, node.one, allowRemove, u))
  {
    if IsLeaf(node) {
      R.NodeMessage(node);
    } else {
      Halves(node);
    }
  }
}
