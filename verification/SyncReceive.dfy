/** Processing one incoming message: recv_key of sync_keys.cpp. */
module SyncReceive {
  import opened SyncKey
  import opened SyncTrie
  import opened SyncSearch
  import opened SyncPeer

  // sync_get_bits for one bit: its assertion excludes the last bit of the key.
  function GetBit(key: Key, offset: nat): bool
    requires offset + 1 < KEY_BITS
  {
    key[offset]
  }

  // Messages on which no bit beyond the inspected ones is needed: a summary of a shorter prefix or
  // a full key that is in play.
  predicate Inspectable(m: Message, u: set<Key>) {
    ValidMessage(m) && (m.plen <= KEY_BITS - 2 || (m.plen == KEY_BITS && m.key in u))
  }

  // ---- remove_differences -----------------------------------------------------------------------

  // The loop of remove_differences.
  function Approach(node: Trie, p: nat, m: Message): (r: Trie)
    requires Proper(node) && p <= node.msg.plen && ValidMessage(m) && m.plen != KEY_BITS - 1
    ensures r.Node? ==> Below(r, node)
    decreases node, KEY_BITS - p
  {
    if p >= m.plen || (IsLeaf(node) && SameMessage(m, node.msg)) then node
    else if IsLeaf(node) && m.plen == KEY_BITS then Nil
    else
      var bit := GetBit(m.key, p);
      if p < node.msg.plen then
        if GetBit(node.msg.key, p) != bit then Nil else Approach(node, p + 1, m)
      else
        Halves(node);
        NodeParts(node, node.msg.min);
        Approach(Child(node, bit), p + 1, m)
  }

  // The message without what is already known about the peer, and the node that was known.
  function RemoveDifferences(root: Trie, m: Message): (r: (Message, Trie))
    requires WFRoot(root) && ValidMessage(m) && m.plen != KEY_BITS - 1
    ensures SameHeader(r.0, m) && (m.plen == KEY_BITS ==> r.0 == m)
    ensures r.1.Node? ==> Below(r.1, root)
  {
    if root.Nil? || !m.stored then (m, Nil)
    else
      ProperNode(root, 0);
      var node := Approach(root, 0, m);
      if node.Nil? then (m, Nil)
      else if m.plen == KEY_BITS then (m, node)
      else if node.msg.plen == m.plen || IsLeaf(node) then (XorMessage(node.msg.key, m), node)
      else (XorChildren(node, m), node)
  }

  // ---- The walk down our own trie ---------------------------------------------------------------

  // One of the prefixes ends, or the keys differ, before the last bit.
  predicate CanSkip(node: Message, p: nat, m: Message) {
    || node.plen < KEY_BITS - 1
    || m.plen < KEY_BITS - 1
    || (Agree(node.key, m.key, p) && !Agree(node.key, m.key, KEY_BITS - 1))
  }

  // The first bit at which the prefixes of the node and the message differ or one of them ends.
  function Skip(node: Message, p: nat, m: Message): (q: nat)
    requires p <= node.plen && p <= m.plen
    requires CanSkip(node, p, m)
    ensures p <= q <= node.plen && q <= m.plen && q < KEY_BITS - 1
    ensures forall i :: p <= i < q ==> node.key[i] == m.key[i]
    ensures q < node.plen && q < m.plen ==> node.key[q] != m.key[q]
    decreases KEY_BITS - p
  {
    if p < node.plen && p < m.plen && GetBit(node.key, p) == GetBit(m.key, p) then Skip(node, p + 1, m) else p
  }

  // No byte after the one that holds the end of the prefix has a bit set.
  predicate IsBlank(m: Message) {
    forall i :: 0 <= (m.plen / 8 + 1) * 8 <= i < KEY_BITS ==> !m.key[i]
  }

  lemma NodeMessage(t: Trie)
    requires Proper(t)
    ensures ValidMessage(t.msg) && (IsLeaf(t) <==> t.msg.plen > KEY_BITS - 2)
    ensures IsLeaf(t) ==> t.msg.key in Keys(t)
  {
  }

  lemma BelowProper(sub: Trie, t: Trie)
    requires Proper(t) && sub.Node? && Below(sub, t)
    ensures Proper(sub) && Keys(sub) <= Keys(t)
    ensures Within(Leaves(sub), Leaves(t))
  {
    BelowIsWF(sub, t, t.msg.min);
  }

  // All bits of the message prefix have been used up at this node.
  function AtEnd(p: Peer, pm: Message, node: Trie, pos: nat, ghost u: set<Key>): (o: Outcome)
    requires Ready(p, u) && Proper(node) && Keys(node) <= u
    requires ValidMessage(pm) && pm.plen <= KEY_BITS - 2 && pm.plen <= pos <= node.msg.plen
    ensures Ready(o.peer, u)
  {
    NodeMessage(node);
    if IsBlank(pm) then MissingLeaves(p, node, true, u)
    else if node.msg.plen > pm.plen then Outcome(p, [Queue(node.msg)], false)
    else
      var difference := XorMessage(node.msg.key, pm);
      var found := Find(node, node.msg.min, pos, difference);
      if found.Node? then
        BelowProper(found, node);
        MissingLeaves(p, found, true, u)
      else
        Halves(node);
        Outcome(p, [Queue(node.zero.msg), Queue(node.one.msg)], false)
  }

  predicate Walking(p: Peer, m: Message, pm: Message, known: Trie, node: Trie, pos: nat, u: set<Key>) {
    && Ready(p, u) && Proper(node) && Keys(node) <= u && pos <= node.msg.plen
    && Inspectable(m, u) && SameHeader(pm, m)
    && (m.plen == KEY_BITS ==> pm == m && forall k :: k in Keys(node) ==> Agree(k, m.key, pos))
    && (known.Nil? || Proper(known)) && Within(Leaves(known), Leaves(p.root))
  }

  // The part of the loop body for a prefix of the node that differs from the message at bit q.
  function Mismatch(p: Peer, pm: Message, node: Trie, q: nat, ghost u: set<Key>): (o: Outcome)
    requires Ready(p, u) && Proper(node) && Keys(node) <= u && Inspectable(pm, u)
    ensures Ready(o.peer, u) && !o.confused
  {
    var told :=
      if q >= pm.min && pm.stored then
        var missing := MissingLeaves(p, node, false, u);
        if pm.plen != KEY_BITS then missing.(events := missing.events + [Queue(node.msg)]) else missing
      else Outcome(p, [], false);
    if pm.plen == KEY_BITS then Then(told, PeerAddKey(told.peer, pm, u)) else told
  }

  // The siblings of the message's branch are sent when the message says that there are none.
  function Siblings(p: Peer, pm: Message, node: Trie, bit: bool, ghost u: set<Key>): (o: Outcome)
    requires Ready(p, u) && Proper(node) && !IsLeaf(node) && Keys(node) <= u
    ensures Ready(o.peer, u) && Within(Leaves(p.root), Leaves(o.peer.root)) && !o.confused
  {
    if pm.min <= node.msg.plen && pm.stored then
      Halves(node);
      MissingLeaves(p, Child(node, !bit), false, u)
    else Outcome(p, [], false)
  }

  // What an echo does that compares equal to a node of ours: the node's summary is recorded as a key
  // of ours that the peer lacks, unless the record has a match for it.
  function EchoMissing(own: set<Key>, p: Peer, node: Trie, ghost u: set<Key>): (o: Outcome)
    requires own <= u && Ready(p, u) && Proper(node)
    ensures Ready(o.peer, u)
  {
    NodeMessage(node);
    if FindMessage(p.root, node.msg).Nil? && node.msg.key !in own then Outcome(p, [], true)
    else PeerIsMissing(p, node, false, u).0
  }

  // The loop of recv_key.
  function Walk(own: set<Key>, p: Peer, m: Message, pm: Message, known: Trie, node: Trie, pos: nat, ghost u: set<Key>)
    : (o: Outcome)
    requires own <= u && Walking(p, m, pm, known, node, pos, u)
    ensures Ready(o.peer, u)
    decreases node, KEY_BITS - pos
  {
    NodeMessage(node);
    if SameMessage(m, node.msg) then
      if m.stored then HasReceivedAll(p, known, u).0 else EchoMissing(own, p, node, u)
    else if SameMessage(pm, node.msg) then Outcome(p, [], false)
    else if pm.plen <= pos then AtEnd(p, pm, node, pos, u)
    else
      SkipReady(p, m, pm, known, node, pos, u);
      var q := Skip(node.msg, pos, pm);
      if q < node.msg.plen && q < pm.plen then Mismatch(p, pm, node, q, u)
      else if m.plen <= q then
        Walk(own, p, m, pm, known, node, q, u)
      else
        var bit := GetBit(pm.key, q);
        var told := Siblings(p, pm, node, bit, u);
        StepDown(p, m, pm, known, node, pos, u);
        Then(told, Walk(own, told.peer, m, pm, known, Child(node, bit), q + 1, u))
  }

  lemma SkipReady(p: Peer, m: Message, pm: Message, known: Trie, node: Trie, pos: nat, u: set<Key>)
    requires Walking(p, m, pm, known, node, pos, u) && pos < pm.plen
    requires ValidMessage(node.msg) && !SameMessage(m, node.msg)
    ensures CanSkip(node.msg, pos, pm)
  {
  }

  // When bits of the message are left after the prefix loop, the loop has used up exactly the node's
  // prefix.  Below the branch the message takes, keys agree with one bit more.
  lemma StepDown(p: Peer, m: Message, pm: Message, known: Trie, node: Trie, pos: nat, u: set<Key>)
    requires Walking(p, m, pm, known, node, pos, u) && pos < pm.plen
    requires ValidMessage(node.msg) && !SameMessage(m, node.msg)
    requires CanSkip(node.msg, pos, pm)
    requires var q := Skip(node.msg, pos, pm); !(q < node.msg.plen && q < pm.plen) && q < m.plen
    ensures Skip(node.msg, pos, pm) == node.msg.plen < pm.plen && !IsLeaf(node)
    ensures Walking(Siblings(p, pm, node, pm.key[node.msg.plen], u).peer, m, pm, known,
                    Child(node, pm.key[node.msg.plen]), node.msg.plen + 1, u)
  {
    var q, bit := node.msg.plen, pm.key[node.msg.plen];
    var told, child := Siblings(p, pm, node, bit, u), Child(node, bit);
    ChildProper(node, bit);
    if m.plen == KEY_BITS {
      AgreeBelow(node, m.key, pos);
    }
    hide Agree, Under, SameFrom, Universe, WF, Siblings, Leaves, Proper, SameMessage;
    WithinTransitive(Leaves(known), Leaves(p.root), Leaves(told.peer.root));
  }

  lemma ChildProper(node: Trie, bit: bool)
    requires Proper(node) && !IsLeaf(node)
    ensures Proper(Child(node, bit)) && node.msg.plen + 1 <= Child(node, bit).msg.plen
    ensures Keys(Child(node, bit)) <= Keys(node)
  {
    NodeParts(node, node.msg.min);
    Halves(node);
  }

  lemma AgreeBelow(node: Trie, key: Key, pos: nat)
    requires Proper(node) && !IsLeaf(node)
    requires forall k :: k in Keys(node) ==> Agree(k, key, pos)
    requires forall i :: pos <= i < node.msg.plen ==> node.msg.key[i] == key[i]
    ensures forall k :: k in Keys(Child(node, key[node.msg.plen])) ==> Agree(k, key, node.msg.plen + 1)
  {
    var q := node.msg.plen;
    var child := Child(node, key[q]);
    NodeParts(node, node.msg.min);
    HalvesDisjoint(node, node.msg.min);
    forall k | k in Keys(child)
      ensures Agree(k, key, q + 1)
    {
      hide WF, XorAll, SameFrom, Leaves, IsLeaf, Proper, Agree;
      assert Agree(k, node.msg.key, q) && k[q] == key[q];
      assert Agree(k, key, pos);
      AgreeOnwards(k, node.msg.key, key, pos, q);
    }
  }

  lemma AgreeOnwards(k: Key, prefix: Key, key: Key, pos: nat, q: nat)
    requires Agree(k, key, pos) && Agree(k, prefix, q) && q < KEY_BITS && k[q] == key[q]
    requires forall i :: pos <= i < q ==> prefix[i] == key[i]
    ensures Agree(k, key, q + 1)
  {
  }

  lemma WithinTransitive(a: map<Key, bool>, b: map<Key, bool>, c: map<Key, bool>)
    requires Within(a, b) && Within(b, c)
    ensures Within(a, c)
  {
  }

  // What the source needs of an incoming message that it does not check.
  predicate Acceptable(m: Message, u: set<Key>) {
    0 <= m.min && 0 <= m.plen && (m.min <= m.plen <= NO_NODE ==> m.plen == NO_NODE || Inspectable(m, u))
  }

  // recv_key: the second result is its return value.
  function RecvKey(own: Trie, p: Peer, m: Message, ghost u: set<Key>): (r: (Outcome, int))
    requires WFRoot(own) && Keys(own) <= u && Ready(p, u) && Acceptable(m, u)
    ensures Ready(r.0.peer, u)
  {
    if m.min > m.plen || m.plen > NO_NODE then (Outcome(p, [], false), -1)
    else if own.Nil? then (PeerAddKey(p, m, u), 0)
    else
      ProperNode(own, 0);
      if m.plen == NO_NODE then (MissingLeaves(p, own, false, u), 0)
      else
        var (pm, known) := RemoveDifferences(p.root, m);
        KnownBelow(p.root, known);
        assert m.plen == KEY_BITS ==> forall k :: k in Keys(own) ==> Agree(k, m.key, 0);
        (Walk(Keys(own), p, m, pm, known, own, 0, u), 0)
  }

  lemma KnownBelow(root: Trie, known: Trie)
    requires WFRoot(root) && (known.Node? ==> Below(known, root))
    ensures known.Nil? || Proper(known)
    ensures Within(Leaves(known), Leaves(root))
  {
    if known.Node? {
      if root.Node? {
        ProperNode(root, 0);
        BelowProper(known, root);
      }
    }
  }

  // sync_root_msg
  function RootMessage(own: Trie): Message {
    if own.Nil? then Message(0, NO_NODE, true, ZeroKey()) else own.msg
  }
}
