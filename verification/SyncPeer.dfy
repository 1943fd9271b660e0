/** What a replica records about one peer, and the operations of sync_keys.cpp that change it. */
module SyncPeer {
  import opened SyncKey
  import opened SyncTrie
  import opened SyncSearch

  // The trie of known differences: a stored leaf is a key of ours that the peer lacks, any other
  // leaf a key of the peer that we lack.
  datatype Peer = Peer(root: Trie, sendCount: int, recvCount: int)

  // Calls of the four callbacks.
  datatype Event = Has(key: Key) | HasNot(key: Key) | NowHas(key: Key) | Queue(msg: Message)

  // `confused` says that the summary of an inner node was taken for a key and that this does harm: the
  // source would remove a key that is not there, or record a summary that is not a key of ours as one.
  // What it would do then is not described by `peer` and `events`.
  datatype Outcome = Outcome(peer: Peer, events: seq<Event>, confused: bool)

  function Then(a: Outcome, b: Outcome): Outcome {
    Outcome(b.peer, a.events + b.events, a.confused || b.confused)
  }

  // All keys in play; any two differ before the last bit.
  predicate Universe(u: set<Key>) {
    forall a, b :: a in u && b in u ==> Apart(a, b)
  }

  function Marked(m: map<Key, bool>, v: bool): set<Key> {
    set k | k in m && m[k] == v
  }

  predicate Within(a: map<Key, bool>, b: map<Key, bool>) {
    forall k :: k in a ==> k in b && a[k] == b[k]
  }

  // The trie of a peer is well formed and holds known keys.
  predicate Ready(p: Peer, u: set<Key>) {
    Universe(u) && WFRoot(p.root) && Keys(p.root) <= u
  }

  // Stored leaves are ours, the others are not, and both are counted.
  predicate PeerOK(own: set<Key>, p: Peer, u: set<Key>) {
    && Ready(p, u)
    && Marked(Leaves(p.root), true) <= own && Marked(Leaves(p.root), false) !! own
    && p.sendCount == |Marked(Leaves(p.root), true)|
    && p.recvCount == |Marked(Leaves(p.root), false)|
  }

  // A well-formed node, wherever it is.
  predicate Proper(t: Trie) {
    t.Node? && WF(t, t.msg.min)
  }

  lemma ProperNode(t: Trie, min: int)
    requires WF(t, min)
    ensures Proper(t) && t.msg.min == min
  {
  }

  function Full(key: Key): Message {
    Message(0, KEY_BITS, false, key)
  }

  // ---- Single keys ----------------------------------------------------------------------------

  lemma Addable(p: Peer, key: Key, u: set<Key>)
    requires Ready(p, u) && key in u && key !in Keys(p.root)
    ensures CanAdd(p.root, 0, 0, key)
  {
    hide Agree;
    forall k | k in Keys(p.root)
      ensures Agree(k, key, 0) && !Agree(k, key, KEY_BITS - 1)
    {
      assert Apart(k, key);
      assert Agree(k, key, 0) by {
        AgreeReflexive(k, KEY_BITS);
        NoBits(k, key);
      }
    }
  }

  lemma NoBits(a: Key, b: Key)
    ensures Agree(a, b, 0)
  {
  }

  function WithKey(p: Peer, key: Key, stored: bool, ghost u: set<Key>): (r: Peer)
    requires Ready(p, u) && key in u && key !in Keys(p.root)
    ensures Ready(r, u) && Leaves(r.root) == Leaves(p.root)[key := stored]
  {
    Addable(p, key, u);
    AddCorrect(p.root, 0, 0, key, stored);
    var root := Add(p.root, 0, 0, key, stored);
    if stored then p.(root := root, sendCount := p.sendCount + 1)
    else p.(root := root, recvCount := p.recvCount + 1)
  }

  function WithoutKey(p: Peer, key: Key, ghost u: set<Key>): (r: Peer)
    requires Ready(p, u) && key in Keys(p.root)
    ensures Ready(r, u) && Leaves(r.root) == Leaves(p.root) - {key}
  {
    RemoveCorrect(p.root, 0, key);
    var root := Remove(p.root, 0, key);
    if Leaves(p.root)[key] then p.(root := root, sendCount := p.sendCount - 1)
    else p.(root := root, recvCount := p.recvCount - 1)
  }

  lemma MarkedAdd(m: map<Key, bool>, key: Key, v: bool)
    requires key !in m
    ensures Marked(m[key := v], v) == Marked(m, v) + {key} && Marked(m[key := v], !v) == Marked(m, !v)
    ensures |Marked(m[key := v], v)| == |Marked(m, v)| + 1
  {
  }

  lemma MarkedRemove(m: map<Key, bool>, key: Key)
    requires key in m
    ensures Marked(m - {key}, m[key]) == Marked(m, m[key]) - {key}
    ensures Marked(m - {key}, !m[key]) == Marked(m, !m[key])
    ensures |Marked(m - {key}, m[key])| == |Marked(m, m[key])| - 1
  {
    var v := m[key];
    assert Marked(m - {key}, v) == Marked(m, v) - {key};
    assert Marked(m - {key}, !v) == Marked(m, !v);
    assert key in Marked(m, v);
  }

  lemma WithKeyOK(own: set<Key>, p: Peer, key: Key, stored: bool, u: set<Key>)
    requires PeerOK(own, p, u) && key in u && key !in Keys(p.root)
    requires stored <==> key in own
    ensures PeerOK(own, WithKey(p, key, stored, u), u)
  {
    MarkedAdd(Leaves(p.root), key, stored);
    hide Marked, Leaves, WFRoot, Add, Universe;
  }

  lemma WithoutKeyOK(own: set<Key>, p: Peer, key: Key, u: set<Key>)
    requires PeerOK(own, p, u) && key in Keys(p.root)
    ensures PeerOK(own, WithoutKey(p, key, u), u)
  {
    MarkedRemove(Leaves(p.root), key);
    hide Marked, Leaves, WFRoot, Remove, Universe;
  }

  // ---- Keys the peer lacks ----------------------------------------------------------------------

  // A key that is recorded has arrived.
  function Arrived(p: Peer, key: Key, ghost u: set<Key>): (r: Peer)
    requires Ready(p, u) && key in Keys(p.root)
    ensures Ready(r, u) && Leaves(r.root) == Leaves(p.root) - {key}
    ensures Leaves(p.root)[key] ==> r == WithoutKey(p, key, u)
  {
    RemoveCorrect(p.root, 0, key);
    p.(root := Remove(p.root, 0, key), sendCount := p.sendCount - 1)
  }

  // peer_is_missing: the second result tells whether anything changed.  What is found need not be the
  // leaf of the key; what is removed is the key, if it is there.
  function PeerIsMissing(p: Peer, node: Trie, allowRemove: bool, ghost u: set<Key>): (r: (Outcome, bool))
    requires Ready(p, u) && Proper(node) && ValidMessage(node.msg)
    requires FindMessage(p.root, node.msg).Nil? ==> node.msg.key in u
    ensures Ready(r.0.peer, u)
    ensures !allowRemove ==> Within(Leaves(p.root), Leaves(r.0.peer.root)) && !r.0.confused
  {
    var key := node.msg.key;
    KeyFound(p.root, node.msg);
    var found := FindMessage(p.root, node.msg);
    if found.Node? then
      if found.msg.stored && allowRemove then
        if key in Keys(p.root) then (Outcome(Arrived(p, key, u), [NowHas(key)], false), true)
        else (Outcome(p, [], true), true)
      else (Outcome(p, [], false), false)
    else (Outcome(WithKey(p, key, true, u), [HasNot(key)], false), true)
  }

  // peer_missing_leaf_nodes without an excepted child.
  function MissingLeaves(p: Peer, node: Trie, allowRemove: bool, ghost u: set<Key>): (o: Outcome)
    requires Ready(p, u) && Proper(node) && Keys(node) <= u
    ensures Ready(o.peer, u)
    ensures !allowRemove ==> Within(Leaves(p.root), Leaves(o.peer.root)) && !o.confused
    decreases node
  {
    if IsLeaf(node) then
      assert node.msg.key in Keys(node) && ValidMessage(node.msg);
      var (o, missing) := PeerIsMissing(p, node, allowRemove, u);
      if missing then o.(events := o.events + [Queue(node.msg)]) else o
    else
      Halves(node);
      var first := MissingLeaves(p, node.zero, allowRemove, u);
      Then(first, MissingLeaves(first.peer, node.one, allowRemove, u))
  }

  // peer_add_key
  function PeerAddKey(p: Peer, m: Message, ghost u: set<Key>): (o: Outcome)
    requires Ready(p, u) && (m.plen == KEY_BITS ==> ValidMessage(m) && m.key in u)
    ensures Ready(o.peer, u)
  {
    if m.plen != KEY_BITS || !m.stored then Outcome(p, [], false)
    else
      SearchForKey(p.root, m);
      if FindMessage(p.root, m).Node? then Outcome(p, [], false)
      else
        var q := WithKey(p, m.key, false, u);
        Outcome(q, [Has(m.key), Queue(LeafMessage(q.root, 0, m.key))], false)
  }

  // ---- Keys the peer has received ---------------------------------------------------------------

  // peer_has_received_all: the walk is over the nodes as they were, since a removal frees the
  // parent of the removed leaf but none of the nodes that are still to be visited.
  function HasReceivedAll(p: Peer, node: Trie, ghost u: set<Key>): (r: (Outcome, nat))
    requires Ready(p, u) && (node.Nil? || Proper(node)) && Within(Leaves(node), Leaves(p.root))
    ensures Ready(r.0.peer, u) && !r.0.confused
    ensures Leaves(r.0.peer.root) == Leaves(p.root) - Marked(Leaves(node), true)
    ensures r.1 == |Marked(Leaves(node), true)|
    decreases node
  {
    if node.Nil? then
      assert Leaves(p.root) - {} == Leaves(p.root);
      (Outcome(p, [], false), 0)
    else if IsLeaf(node) then
      LeafMarked(node);
      var key := node.msg.key;
      if node.msg.stored then (Outcome(WithoutKey(p, key, u), [NowHas(key)], false), 1)
      else
        assert Leaves(p.root) - {} == Leaves(p.root);
        (Outcome(p, [], false), 0)
    else
      Halves(node);
      HalvesMarked(Leaves(node.zero), Leaves(node.one), Leaves(p.root));
      var (first, n) := HasReceivedAll(p, node.zero, u);
      var (second, k) := HasReceivedAll(first.peer, node.one, u);
      (Then(first, second), n + k)
  }

  lemma LeafMarked(node: Trie)
    requires IsLeaf(node)
    ensures node.msg.key in Leaves(node)
    ensures Leaves(node)[node.msg.key] == node.msg.stored
    ensures Marked(Leaves(node), true) == if node.msg.stored then {node.msg.key} else {}
  {
  }

  lemma HalvesMarked(a: map<Key, bool>, b: map<Key, bool>, all: map<Key, bool>)
    requires a.Keys !! b.Keys && Within(a + b, all)
    ensures Within(a, all) && Within(b, all - Marked(a, true))
    ensures |Marked(a + b, true)| == |Marked(a, true)| + |Marked(b, true)|
    ensures all - Marked(a + b, true) == all - Marked(a, true) - Marked(b, true)
  {
    WithinHalves(a, b, all);
    MarkedUnion(a, b);
    hide Within, Marked;
    RemoveUnion(all, Marked(a, true), Marked(b, true));
  }

  lemma WithinHalves(a: map<Key, bool>, b: map<Key, bool>, all: map<Key, bool>)
    requires a.Keys !! b.Keys && Within(a + b, all)
    ensures Within(a, all) && Within(b, all - Marked(a, true))
  {
  }

  lemma MarkedUnion(a: map<Key, bool>, b: map<Key, bool>)
    requires a.Keys !! b.Keys
    ensures Marked(a + b, true) == Marked(a, true) + Marked(b, true)
    ensures |Marked(a + b, true)| == |Marked(a, true)| + |Marked(b, true)|
  {
    var all := Marked(a + b, true);
    assert all == Marked(a, true) + Marked(b, true);
    assert Marked(a, true) !! Marked(b, true);
  }

  lemma RemoveUnion(all: map<Key, bool>, a: set<Key>, b: set<Key>)
    ensures all - (a + b) == all - a - b
  {
  }

  // Both children of an inner node, ready to be walked on.
  lemma Halves(t: Trie)
    requires Proper(t) && !IsLeaf(t)
    ensures Proper(t.zero) && Proper(t.one)
    ensures Leaves(t) == Leaves(t.zero) + Leaves(t.one) && Keys(t.zero) !! Keys(t.one)
    ensures Keys(t) == Keys(t.zero) + Keys(t.one)
  {
    NodeParts(t, t.msg.min);
    HalvesDisjoint(t, t.msg.min);
    ProperNode(t.zero, t.msg.plen + 1);
    ProperNode(t.one, t.msg.plen + 1);
    hide Proper, WF;
  }
}
