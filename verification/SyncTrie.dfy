/** The path-compressed binary trie of sync_keys.cpp as a value: its invariant, insertion, removal
    and search, and the set of keys it stands for. */
module SyncTrie {
  import opened SyncKey

  // A node has either no children (a leaf, whose prefix is the whole key) or two.
  datatype Trie = Nil | Node(msg: Message, zero: Trie, one: Trie)

  predicate IsLeaf(t: Trie) {
    t.Node? && t.msg.plen == KEY_BITS
  }

  function Leaf(key: Key, min: int, stored: bool): Trie {
    Node(Message(min, KEY_BITS, stored, key), Nil, Nil)
  }

  function Child(t: Trie, bit: bool): Trie
    requires t.Node?
  {
    if bit then t.one else t.zero
  }

  function WithChild(t: Trie, bit: bool, child: Trie): Trie
    requires t.Node?
  {
    if bit then t.(one := child) else t.(zero := child)
  }

  function WithMin(t: Trie, min: int): Trie
    requires t.Node?
  {
    t.(msg := t.msg.(min := min))
  }

  // The keys below a node and, for each, whether it is marked as stored.
  function Leaves(t: Trie): (r: map<Key, bool>) {
    if t.Nil? then map[]
    else if IsLeaf(t) then map[t.msg.key := t.msg.stored]
    else Leaves(t.zero) + Leaves(t.one)
  }

  function Keys(t: Trie): (r: set<Key>) {
    Leaves(t).Keys
  }

  function XorAll(t: Trie): (r: Key) {
    if t.Nil? then ZeroKey()
    else if IsLeaf(t) then t.msg.key
    else Xor(XorAll(t.zero), XorAll(t.one))
  }

  // All keys of `ks` share their first n bits with `key`, and their next bit is `bit`.
  predicate Under(ks: set<Key>, key: Key, n: int, bit: bool)
    requires 0 <= n < KEY_BITS
  {
    forall k :: k in ks ==> Agree(k, key, n) && k[n] == bit
  }

  predicate SameFrom(a: Key, b: Key, n: int)
    requires 0 <= n
  {
    forall i :: n <= i < KEY_BITS ==> a[i] == b[i]
  }

  predicate WF(t: Trie, min: int)
    decreases t
  {
    t.Node? && t.msg.min == min && 0 <= min &&
    if IsLeaf(t) then min < KEY_BITS && t.zero.Nil? && t.one.Nil?
    else
      && min <= t.msg.plen < KEY_BITS - 1
      && WF(t.zero, t.msg.plen + 1) && WF(t.one, t.msg.plen + 1)
      && Under(Keys(t.zero), t.msg.key, t.msg.plen, false)
      && Under(Keys(t.one), t.msg.key, t.msg.plen, true)
      && SameFrom(t.msg.key, XorAll(t), t.msg.plen)
  }

  predicate WFRoot(t: Trie) {
    t.Nil? || WF(t, 0)
  }

  lemma {:induction false} KeysNonEmpty(t: Trie, min: int)
    requires WF(t, min)
    ensures Keys(t) != {}
  {
    if IsLeaf(t) {
      assert t.msg.key in Keys(t);
    } else {
      KeysNonEmpty(t.zero, t.msg.plen + 1);
      var k :| k in Keys(t.zero);
      assert k in Keys(t);
    }
  }

  // The two halves of a node hold different keys.
  lemma HalvesDisjoint(t: Trie, min: int)
    requires WF(t, min) && !IsLeaf(t)
    ensures t.zero.Node? && t.one.Node? && Keys(t) == Keys(t.zero) + Keys(t.one)
    ensures Keys(t.zero) !! Keys(t.one)
    ensures forall k :: k in Keys(t) ==> Agree(k, t.msg.key, t.msg.plen)
    ensures forall k :: k in Keys(t) ==>
              k in Keys(Child(t, k[t.msg.plen])) && Leaves(t)[k] == Leaves(Child(t, k[t.msg.plen]))[k]
  {
  }

  lemma NodeParts(t: Trie, min: int)
    requires WF(t, min) && !IsLeaf(t)
    ensures t.Node? && t.msg.min == min && 0 <= min <= t.msg.plen < KEY_BITS - 1
    ensures WF(t.zero, t.msg.plen + 1) && WF(t.one, t.msg.plen + 1)
    ensures Under(Keys(t.zero), t.msg.key, t.msg.plen, false)
    ensures Under(Keys(t.one), t.msg.key, t.msg.plen, true)
    ensures SameFrom(t.msg.key, XorAll(t), t.msg.plen)
    ensures XorAll(t) == Xor(XorAll(t.zero), XorAll(t.one)) && Leaves(t) == Leaves(t.zero) + Leaves(t.one)
  {
  }

  lemma MakeNode(m: Message, zero: Trie, one: Trie, min: int)
    requires m.min == min && 0 <= min <= m.plen < KEY_BITS - 1
    requires WF(zero, m.plen + 1) && WF(one, m.plen + 1)
    requires Under(Keys(zero), m.key, m.plen, false) && Under(Keys(one), m.key, m.plen, true)
    requires SameFrom(m.key, Xor(XorAll(zero), XorAll(one)), m.plen)
    ensures WF(Node(m, zero, one), min)
    ensures XorAll(Node(m, zero, one)) == Xor(XorAll(zero), XorAll(one))
    ensures Leaves(Node(m, zero, one)) == Leaves(zero) + Leaves(one)
  {
    hide Agree, Under, SameFrom, Xor, Leaves, XorAll;
    InnerTotals(m, zero, one);
  }

  lemma InnerTotals(m: Message, zero: Trie, one: Trie)
    requires m.plen != KEY_BITS
    ensures XorAll(Node(m, zero, one)) == Xor(XorAll(zero), XorAll(one))
    ensures Leaves(Node(m, zero, one)) == Leaves(zero) + Leaves(one)
  {
  }

  // ---- Insertion ----------------------------------------------------------------------------

  // xor_children: xor every key below a node into a message.
  function XorChildren(t: Trie, dest: Message): (r: Message)
    requires 0 <= dest.plen < KEY_BITS
    ensures SameHeader(r, dest)
    decreases t
  {
    if t.Nil? then dest
    else if IsLeaf(t) then XorMessage(t.msg.key, dest)
    else XorChildren(t.one, XorChildren(t.zero, dest))
  }

  lemma {:induction false} XorChildrenSummarises(t: Trie, min: int, dest: Message, key: Key)
    requires WF(t, min) && 0 <= dest.plen < KEY_BITS
    requires forall k :: k in Keys(t) ==> Agree(k, key, dest.plen)
    requires forall i :: 0 <= i < dest.plen ==> dest.key[i] ==> key[i]
    ensures Agree(XorChildren(t, dest).key, key, dest.plen)
    ensures forall i :: dest.plen <= i < KEY_BITS ==>
              XorChildren(t, dest).key[i] == (dest.key[i] != XorAll(t)[i])
    decreases t
  {
    if IsLeaf(t) {
      assert t.msg.key in Keys(t);
    } else {
      HalvesDisjoint(t, min);
      XorChildrenSummarises(t.zero, t.msg.plen + 1, dest, key);
      XorChildrenSummarises(t.one, t.msg.plen + 1, XorChildren(t.zero, dest), key);
    }
  }

  // The node that replaces `t` when `key` first differs from its prefix at bit p.
  function Split(t: Trie, p: int, min: int, key: Key, stored: bool): (r: Trie)
    requires t.Node? && 0 <= p < KEY_BITS - 1
    ensures r.Node?
  {
    var bare := Node(Message(min, p, stored, ZeroKey()), Nil, Nil);
    var parent := WithChild(bare, t.msg.key[p], WithMin(t, p + 1));
    var summed := parent.(msg := XorChildren(parent, parent.msg));
    var added := summed.(msg := XorMessage(key, summed.msg));
    WithChild(added, key[p], Leaf(key, p + 1, stored))
  }

  // The first p bits of the key have been matched with the node's keys, min is the prefix length of
  // the node's parent plus one, and the key is new and differs from the others before the last bit.
  predicate CanAdd(t: Trie, p: int, min: int, key: Key) {
    && 0 <= min <= p < KEY_BITS
    && (t.Node? ==>
          && WF(t, min) && p <= t.msg.plen
          && forall k :: k in Keys(t) ==> Agree(k, key, p) && !Agree(k, key, KEY_BITS - 1))
  }

  // add_key, from a node on.
  function Add(t: Trie, p: int, min: int, key: Key, stored: bool): (r: Trie)
    requires CanAdd(t, p, min, key)
    ensures r.Node?
    decreases t, KEY_BITS - p
  {
    if t.Nil? then Leaf(key, min, stored)
    else
      CanAddStep(t, p, min, key);
      if t.msg.plen == p then
        WithChild(t.(msg := XorMessage(key, t.msg)), key[p], Add(Child(t, key[p]), p + 1, p + 1, key, stored))
      else if key[p] == t.msg.key[p] then Add(t, p + 1, min, key, stored)
      else Split(t, p, min, key, stored)
  }

  // The source only looks at bits before the last.
  lemma BitInspected(t: Trie, p: int, min: int, key: Key)
    requires CanAdd(t, p, min, key) && t.Node?
    ensures p < KEY_BITS - 1
  {
    KeysNonEmpty(t, min);
    var k :| k in Keys(t);
    assert Agree(k, key, p) && !Agree(k, key, KEY_BITS - 1);
  }

  lemma CanAddStep(t: Trie, p: int, min: int, key: Key)
    requires CanAdd(t, p, min, key) && t.Node?
    ensures p < KEY_BITS - 1
    ensures t.msg.plen == p ==> !IsLeaf(t) && CanAdd(Child(t, key[p]), p + 1, p + 1, key)
    ensures t.msg.plen > p && key[p] == t.msg.key[p] ==> CanAdd(t, p + 1, min, key)
  {
    hide Agree, XorAll;
    BitInspected(t, p, min, key);
    if t.msg.plen == p {
      HalvesDisjoint(t, min);
      var child := Child(t, key[p]);
      assert WF(child, p + 1) && p + 1 <= child.msg.plen;
      forall k | k in Keys(child)
        ensures Agree(k, key, p + 1) && !Agree(k, key, KEY_BITS - 1)
      {
        AgreeNext(k, key, p);
      }
    } else {
      SharedBit(t, min, p);
      forall k | k in Keys(t) && key[p] == t.msg.key[p]
        ensures Agree(k, key, p + 1)
      {
        AgreeNext(k, key, p);
      }
    }
  }

  // All keys of a node carry the bits of the node's key up to its prefix length.
  lemma SharedBit(t: Trie, min: int, p: int)
    requires WF(t, min) && 0 <= p < t.msg.plen
    ensures forall k :: k in Keys(t) ==> k[p] == t.msg.key[p]
  {
  }

  lemma WithMinKeeps(t: Trie, min: int, min': int)
    requires WF(t, min) && 0 <= min' <= t.msg.plen && min' < KEY_BITS
    ensures WF(WithMin(t, min'), min')
    ensures Leaves(WithMin(t, min')) == Leaves(t) && XorAll(WithMin(t, min')) == XorAll(t)
  {
  }

  lemma UnderOther(ks: set<Key>, a: Key, b: Key, n: int, bit: bool)
    requires 0 <= n < KEY_BITS && Under(ks, a, n, bit) && Agree(a, b, n)
    ensures Under(ks, b, n, bit)
  {
  }

  // Xor-ing a key into a summary: the prefix stays, the rest accumulates.
  lemma XorIntoSummary(key: Key, m: Message, sum: Key)
    requires 0 <= m.plen < KEY_BITS && Agree(key, m.key, m.plen)
    requires SameFrom(m.key, sum, m.plen)
    ensures Agree(m.key, XorMessage(key, m).key, m.plen)
    ensures SameFrom(XorMessage(key, m).key, Xor(sum, key), m.plen)
  {
  }

  // Insertion keeps the invariant, adds exactly the key, and xors it into the summary.
  predicate Added(t: Trie, r: Trie, min: int, key: Key, stored: bool) {
    && WF(r, min)
    && Leaves(r) == Leaves(t)[key := stored]
    && XorAll(r) == Xor(XorAll(t), key)
  }

  lemma KeyAgreesWithNode(t: Trie, min: int, key: Key)
    requires WF(t, min) && !IsLeaf(t)
    requires forall k :: k in Keys(t) ==> Agree(k, key, t.msg.plen)
    ensures Agree(key, t.msg.key, t.msg.plen)
  {
    hide Agree;
    KeysNonEmpty(t, min);
    HalvesDisjoint(t, min);
    var k :| k in Keys(t);
    AgreeTransitive(k, key, t.msg.key, t.msg.plen);
  }

  lemma UpdateHalf(a: map<Key, bool>, b: map<Key, bool>, key: Key, v: bool)
    ensures key !in b ==> a[key := v] + b == (a + b)[key := v]
    ensures a + b[key := v] == (a + b)[key := v]
  {
  }

  lemma UnderNew(before: set<Key>, after: set<Key>, key: Key, prefix: Key, n: int, bit: bool)
    requires 0 <= n < KEY_BITS && Under(before, prefix, n, bit) && after == before + {key}
    requires Agree(key, prefix, n) && key[n] == bit
    ensures Under(after, prefix, n, bit)
  {
  }

  lemma AddBelow(t: Trie, min: int, key: Key, stored: bool, child: Trie)
    requires WF(t, min) && !IsLeaf(t) && key !in Keys(t)
    requires Agree(key, t.msg.key, t.msg.plen)
    requires Added(Child(t, key[t.msg.plen]), child, t.msg.plen + 1, key, stored)
    ensures Added(t, WithChild(t.(msg := XorMessage(key, t.msg)), key[t.msg.plen], child), min, key, stored)
  {
    hide Agree, Under, SameFrom, Xor, XorMessage, WF, XorAll, Leaves;
    NodeParts(t, min);
    var p, m := t.msg.plen, XorMessage(key, t.msg);
    HalvesDisjoint(t, min);
    XorIntoSummary(key, t.msg, XorAll(t));
    AgreeTransitive(key, t.msg.key, m.key, p);
    UnderOther(Keys(t.zero), t.msg.key, m.key, p, false);
    UnderOther(Keys(t.one), t.msg.key, m.key, p, true);
    UnderNew(Keys(Child(t, key[p])), Keys(child), key, m.key, p, key[p]);
    UpdateHalf(Leaves(t.zero), Leaves(t.one), key, stored);
    XorRegroup(XorAll(t.zero), XorAll(t.one), key);
    if key[p] {
      MakeNode(m, t.zero, child, min);
    } else {
      MakeNode(m, child, t.one, min);
    }
  }

  lemma KeysAgreeWithNode(t: Trie, min: int, n: int)
    requires WF(t, min) && n <= t.msg.plen
    ensures forall k :: k in Keys(t) ==> Agree(k, t.msg.key, n)
  {
  }

  // The summary of a fresh parent is that of the node below it.
  lemma SplitSummary(t: Trie, p: int, min: int, key: Key, stored: bool)
    requires WF(t, min) && 0 <= min <= p < t.msg.plen && p < KEY_BITS - 1
    requires forall k :: k in Keys(t) ==> Agree(k, key, p)
    ensures var m := Split(t, p, min, key, stored).msg;
            && m.min == min && m.plen == p
            && Agree(key, m.key, p)
            && SameFrom(m.key, Xor(XorAll(t), key), p)
  {
    var m0 := Message(min, p, stored, ZeroKey());
    var below := WithMin(t, p + 1);
    var m1 := XorChildren(below, m0);
    WithMinKeeps(t, min, p + 1);
    XorChildrenSummarises(below, p + 1, m0, key);
    SplitMessage(t, p, min, key, stored);
    hide Agree;
    assert SameFrom(m1.key, XorAll(t), p);
    AgreeSymmetric(m1.key, key, p);
    XorIntoSummary(key, m1, XorAll(t));
    AgreeTransitive(m1.key, XorMessage(key, m1).key, key, p);
    AgreeSymmetric(XorMessage(key, m1).key, key, p);
  }

  // The other child of a fresh parent is still missing when its summary is computed.
  lemma SplitMessage(t: Trie, p: int, min: int, key: Key, stored: bool)
    requires t.Node? && 0 <= p < KEY_BITS - 1
    ensures Split(t, p, min, key, stored).msg ==
            XorMessage(key, XorChildren(WithMin(t, p + 1), Message(min, p, stored, ZeroKey())))
  {
    hide XorMessage;
    var m0 := Message(min, p, stored, ZeroKey());
    var below := WithMin(t, p + 1);
    assert XorChildren(Nil, m0) == m0;
    assert XorChildren(Nil, XorChildren(below, m0)) == XorChildren(below, m0);
  }

  lemma SplitCorrect(t: Trie, p: int, min: int, key: Key, stored: bool)
    requires WF(t, min) && 0 <= min <= p < t.msg.plen && p < KEY_BITS - 1
    requires key[p] != t.msg.key[p] && forall k :: k in Keys(t) ==> Agree(k, key, p)
    ensures Added(t, Split(t, p, min, key, stored), min, key, stored)
  {
    assert t.Node?;
    hide Agree, Under, SameFrom, Xor, XorMessage, WF, XorAll, Leaves, Split;
    var below, leaf, m := WithMin(t, p + 1), Leaf(key, p + 1, stored), Split(t, p, min, key, stored).msg;
    WithMinKeeps(t, min, p + 1);
    LeafIsWF(key, p + 1, stored);
    SplitSummary(t, p, min, key, stored);
    SharedBit(t, min, p);
    XorCommutes(XorAll(t), key);
    UnderAlone(key, m.key, p);
    UnderSplit(t, p, key);
    UnderOther(Keys(t), key, m.key, p, t.msg.key[p]);
    SplitShape(t, p, min, key, stored);
    NotAmong(t, p, key);
    JoinLeaf(Leaves(t), key, stored);
    if key[p] {
      MakeNode(m, below, leaf, min);
    } else {
      MakeNode(m, leaf, below, min);
    }
  }

  lemma LeafIsWF(key: Key, min: int, stored: bool)
    requires 0 <= min < KEY_BITS
    ensures WF(Leaf(key, min, stored), min)
    ensures Leaves(Leaf(key, min, stored)) == map[key := stored] && XorAll(Leaf(key, min, stored)) == key
  {
  }

  lemma JoinLeaf(a: map<Key, bool>, key: Key, v: bool)
    requires key !in a
    ensures a + map[key := v] == a[key := v] && map[key := v] + a == a[key := v]
  {
  }

  lemma NotAmong(t: Trie, p: int, key: Key)
    requires t.Node? && 0 <= p < KEY_BITS && key[p] != t.msg.key[p]
    requires forall k :: k in Keys(t) ==> k[p] == t.msg.key[p]
    ensures key !in Keys(t)
  {
  }

  lemma SplitShape(t: Trie, p: int, min: int, key: Key, stored: bool)
    requires t.Node? && 0 <= p < KEY_BITS - 1 && key[p] != t.msg.key[p]
    ensures var m := Split(t, p, min, key, stored).msg;
            Split(t, p, min, key, stored) ==
            if key[p] then Node(m, WithMin(t, p + 1), Leaf(key, p + 1, stored))
            else Node(m, Leaf(key, p + 1, stored), WithMin(t, p + 1))
  {
  }

  lemma UnderAlone(key: Key, prefix: Key, n: int)
    requires 0 <= n < KEY_BITS && Agree(key, prefix, n)
    ensures Under({key}, prefix, n, key[n])
  {
  }

  lemma UnderSplit(t: Trie, p: int, key: Key)
    requires t.Node? && 0 <= p < KEY_BITS
    requires forall k :: k in Keys(t) ==> Agree(k, key, p) && k[p] == t.msg.key[p]
    ensures Under(Keys(t), key, p, t.msg.key[p])
  {
  }

  lemma {:induction false} AddCorrect(t: Trie, p: int, min: int, key: Key, stored: bool)
    requires CanAdd(t, p, min, key)
    ensures Added(t, Add(t, p, min, key, stored), min, key, stored)
    ensures t.Node? ==> !IsLeaf(Add(t, p, min, key, stored))
    decreases t, KEY_BITS - p
  {
    hide Agree, Split, XorMessage, SameFrom, Under;
    if t.Nil? {
      assert Xor(ZeroKey(), key) == key;
    } else {
      CanAddStep(t, p, min, key);
      assert key !in Keys(t) by {
        AgreeReflexive(key, KEY_BITS - 1);
      }
      if t.msg.plen == p {
        AddCorrect(Child(t, key[p]), p + 1, p + 1, key, stored);
        KeyAgreesWithNode(t, min, key);
        AddBelow(t, min, key, stored, Add(Child(t, key[p]), p + 1, p + 1, key, stored));
      } else if key[p] == t.msg.key[p] {
        AddCorrect(t, p + 1, min, key, stored);
      } else {
        SplitCorrect(t, p, min, key, stored);
        SplitShape(t, p, min, key, stored);
        SplitSummary(t, p, min, key, stored);
      }
    }
  }

  // ---- Removal ------------------------------------------------------------------------------

  // remove_key, from a node on: the parent of the leaf gives way to the leaf's sibling.
  function Remove(t: Trie, min: int, key: Key): (r: Trie)
    requires WF(t, min) && key in Keys(t)
    decreases t
  {
    if IsLeaf(t) then Nil
    else
      HalvesDisjoint(t, min);
      var bit := key[t.msg.plen];
      if IsLeaf(Child(t, bit)) then WithMin(Child(t, !bit), t.msg.min)
      else WithChild(t.(msg := XorMessage(key, t.msg)), bit, Remove(Child(t, bit), t.msg.plen + 1, key))
  }

  // Removal takes out exactly the key, and the invariant holds for what is left.
  predicate Removed(t: Trie, r: Trie, min: int, key: Key) {
    && (r.Nil? <==> Keys(t) == {key})
    && (r.Node? ==> WF(r, min))
    && Leaves(r) == Leaves(t) - {key}
    && XorAll(r) == Xor(XorAll(t), key)
  }

  lemma RemoveHalf(a: map<Key, bool>, b: map<Key, bool>, key: Key)
    ensures key !in b ==> (a - {key}) + b == (a + b) - {key}
    ensures key !in a ==> a + (b - {key}) == (a + b) - {key}
    ensures (a - {key}).Keys == a.Keys - {key} && (b - {key}).Keys == b.Keys - {key}
    ensures ((a + b) - {key}).Keys == (a + b).Keys - {key}
  {
  }

  lemma XorCancels(a: Key, b: Key)
    ensures Xor(Xor(a, b), a) == b && Xor(Xor(a, b), b) == a
  {
  }

  lemma UnderSubset(small: set<Key>, large: set<Key>, prefix: Key, n: int, bit: bool)
    requires 0 <= n < KEY_BITS && Under(large, prefix, n, bit) && small <= large
    ensures Under(small, prefix, n, bit)
  {
  }

  lemma DropHalf(a: map<Key, bool>, b: map<Key, bool>, key: Key)
    requires a.Keys == {key} && key !in b
    ensures (a + b) - {key} == b && (b + a) - {key} == b
  {
  }

  lemma OtherKeyLeft(t: Trie, min: int, r: Trie, rmin: int, key: Key)
    requires WF(r, rmin) && key !in Keys(r) && Keys(r) <= Keys(t)
    ensures Keys(t) != {key}
  {
    KeysNonEmpty(r, rmin);
    var k :| k in Keys(r);
    assert k in Keys(t) && k != key;
  }

  lemma LeafHolds(t: Trie, key: Key)
    requires IsLeaf(t) && key in Keys(t)
    ensures t.msg.key == key == XorAll(t) && Keys(t) == {key}
  {
  }

  // The parent of the removed leaf gives way to the other child.
  lemma RemoveBeside(t: Trie, min: int, key: Key)
    requires WF(t, min) && !IsLeaf(t) && key in Keys(t) && IsLeaf(Child(t, key[t.msg.plen]))
    ensures Child(t, !key[t.msg.plen]).Node?
    ensures Removed(t, WithMin(Child(t, !key[t.msg.plen]), min), min, key)
  {
    NodeParts(t, min);
    HalvesDisjoint(t, min);
    hide Agree, Under, SameFrom, Xor, WF, XorAll, Leaves, IsLeaf;
    var p := t.msg.plen;
    var leaf, rest := Child(t, key[p]), Child(t, !key[p]);
    LeafHolds(leaf, key);
    WithMinKeeps(rest, p + 1, min);
    DropHalf(Leaves(leaf), Leaves(rest), key);
    XorCancels(XorAll(t.zero), XorAll(t.one));
    OtherKeyLeft(t, min, WithMin(rest, min), min, key);
  }

  lemma RemoveBelow(t: Trie, min: int, key: Key, child: Trie)
    requires WF(t, min) && !IsLeaf(t) && key in Keys(t) && child.Node?
    requires Removed(Child(t, key[t.msg.plen]), child, t.msg.plen + 1, key)
    ensures Removed(t, WithChild(t.(msg := XorMessage(key, t.msg)), key[t.msg.plen], child), min, key)
  {
    NodeParts(t, min);
    HalvesDisjoint(t, min);
    RemoveHalf(Leaves(t.zero), Leaves(t.one), key);
    hide Agree, Under, SameFrom, Xor, XorMessage, WF, XorAll, Leaves, IsLeaf;
    OtherKeyLeft(t, min, child, t.msg.plen + 1, key);
    XorRegroup(XorAll(t.zero), XorAll(t.one), key);
    if key[t.msg.plen] {
      SmallerNode(t, min, key, t.zero, child);
    } else {
      SmallerNode(t, min, key, child, t.one);
    }
  }

  // A node stays well formed when its children hold fewer keys and its summary is updated.
  lemma SmallerNode(t: Trie, min: int, key: Key, zero: Trie, one: Trie)
    requires WF(t, min) && !IsLeaf(t) && key in Keys(t)
    requires WF(zero, t.msg.plen + 1) && WF(one, t.msg.plen + 1)
    requires Keys(zero) <= Keys(t.zero) && Keys(one) <= Keys(t.one)
    requires Xor(XorAll(zero), XorAll(one)) == Xor(XorAll(t), key)
    ensures WF(Node(XorMessage(key, t.msg), zero, one), min)
    ensures XorAll(Node(XorMessage(key, t.msg), zero, one)) == Xor(XorAll(t), key)
    ensures Leaves(Node(XorMessage(key, t.msg), zero, one)) == Leaves(zero) + Leaves(one)
  {
    hide Agree, Under, SameFrom, Xor, XorMessage, WF, XorAll, Leaves, IsLeaf;
    NodeParts(t, min);
    HalvesDisjoint(t, min);
    var p, m := t.msg.plen, XorMessage(key, t.msg);
    XorIntoSummary(key, t.msg, XorAll(t));
    UnderSubset(Keys(zero), Keys(t.zero), t.msg.key, p, false);
    UnderSubset(Keys(one), Keys(t.one), t.msg.key, p, true);
    UnderOther(Keys(zero), t.msg.key, m.key, p, false);
    UnderOther(Keys(one), t.msg.key, m.key, p, true);
    MakeNode(m, zero, one, min);
  }

  lemma {:induction false} RemoveCorrect(t: Trie, min: int, key: Key)
    requires WF(t, min) && key in Keys(t)
    ensures Removed(t, Remove(t, min, key), min, key)
    ensures Remove(t, min, key).Nil? <==> IsLeaf(t)
    decreases t
  {
    hide Agree, XorMessage;
    if IsLeaf(t) {
      assert Leaves(t) - {key} == map[];
      assert Xor(key, key) == ZeroKey();
    } else {
      HalvesDisjoint(t, min);
      var bit := key[t.msg.plen];
      if IsLeaf(Child(t, bit)) {
        RemoveBeside(t, min, key);
      } else {
        RemoveCorrect(Child(t, bit), t.msg.plen + 1, key);
        RemoveBelow(t, min, key, Remove(Child(t, bit), t.msg.plen + 1, key));
      }
    }
  }

  // Removing the key that was just added gives back the very same trie.
  lemma {:induction false} RemoveUndoesAdd(t: Trie, p: int, min: int, key: Key, stored: bool)
    requires CanAdd(t, p, min, key)
    ensures Added(t, Add(t, p, min, key, stored), min, key, stored)
    ensures Remove(Add(t, p, min, key, stored), min, key) == t
    decreases t, KEY_BITS - p
  {
    hide Agree, Split, XorMessage;
    AddCorrect(t, p, min, key, stored);
    if t.Node? {
      CanAddStep(t, p, min, key);
      if t.msg.plen == p {
        var child := Child(t, key[p]);
        AddCorrect(child, p + 1, p + 1, key, stored);
        RemoveUndoesAdd(child, p + 1, p + 1, key, stored);
        KeyAgreesWithNode(t, min, key);
        XorMessageTwice(key, t.msg);
      } else if key[p] == t.msg.key[p] {
        RemoveUndoesAdd(t, p + 1, min, key, stored);
      } else {
        SplitShape(t, p, min, key, stored);
        SplitSummary(t, p, min, key, stored);
      }
    }
  }

  // ---- The trie of a set of keys is unique --------------------------------------------------

  // The trie without its stored marks.
  function Shape(t: Trie): Trie {
    if t.Nil? then Nil else Node(t.msg.(stored := false), Shape(t.zero), Shape(t.one))
  }

  lemma {:induction false} ShapeKeepsXor(t: Trie)
    ensures XorAll(Shape(t)) == XorAll(t)
  {
    if t.Node? && !IsLeaf(t) {
      ShapeKeepsXor(t.zero);
      ShapeKeepsXor(t.one);
    }
  }

  lemma TwoKeys(t: Trie, min: int) returns (a: Key, b: Key)
    requires WF(t, min) && !IsLeaf(t)
    ensures a in Keys(t) && b in Keys(t) && !a[t.msg.plen] && b[t.msg.plen]
    ensures forall k :: k in Keys(t) ==> Agree(k, a, t.msg.plen)
  {
    NodeParts(t, min);
    HalvesDisjoint(t, min);
    KeysNonEmpty(t.zero, t.msg.plen + 1);
    KeysNonEmpty(t.one, t.msg.plen + 1);
    a :| a in Keys(t.zero);
    b :| b in Keys(t.one);
    forall k | k in Keys(t)
      ensures Agree(k, a, t.msg.plen)
    {
    }
  }

  lemma LeafHasOneKey(t: Trie, u: Trie, min: int)
    requires IsLeaf(t) && WF(u, min) && Keys(t) == Keys(u)
    ensures IsLeaf(u) && u.msg.key == t.msg.key
  {
    assert Keys(t) == {t.msg.key};
    if IsLeaf(u) {
      assert u.msg.key in Keys(u);
    } else {
      var a, b := TwoKeys(u, min);
    }
  }

  lemma PrefixNotLonger(t: Trie, u: Trie, min: int)
    requires WF(t, min) && WF(u, min) && !IsLeaf(t) && !IsLeaf(u) && Keys(t) == Keys(u)
    ensures u.msg.plen <= t.msg.plen
  {
    var a, b := TwoKeys(t, min);
    var c, d := TwoKeys(u, min);
    assert Agree(a, c, u.msg.plen) && Agree(b, c, u.msg.plen);
  }

  lemma HalvesBySet(t: Trie, min: int, u: Trie)
    requires WF(t, min) && WF(u, min) && !IsLeaf(t) && !IsLeaf(u) && Keys(t) == Keys(u)
    requires t.msg.plen == u.msg.plen
    ensures Keys(t.zero) == Keys(u.zero) && Keys(t.one) == Keys(u.one)
  {
  }

  lemma SameSummary(t: Trie, u: Trie, min: int)
    requires WF(t, min) && WF(u, min) && !IsLeaf(t) && !IsLeaf(u) && Keys(t) == Keys(u)
    requires t.msg.plen == u.msg.plen && XorAll(t) == XorAll(u)
    ensures t.msg.key == u.msg.key
  {
    var p := t.msg.plen;
    KeysNonEmpty(t, min);
    HalvesDisjoint(t, min);
    HalvesDisjoint(u, min);
    var k :| k in Keys(t);
    assert Agree(k, t.msg.key, p) && Agree(k, u.msg.key, p);
    assert forall i :: 0 <= i < KEY_BITS ==> t.msg.key[i] == u.msg.key[i];
  }

  // Two tries over the same keys have the same shape, prefix lengths and summaries.
  lemma {:induction false} Canonical(t: Trie, u: Trie, min: int)
    requires WF(t, min) && WF(u, min) && Keys(t) == Keys(u)
    ensures Shape(t) == Shape(u)
    decreases t
  {
    if IsLeaf(t) {
      LeafHasOneKey(t, u, min);
    } else if IsLeaf(u) {
      LeafHasOneKey(u, t, min);
    } else {
      PrefixNotLonger(t, u, min);
      PrefixNotLonger(u, t, min);
      HalvesBySet(t, min, u);
      NodeParts(t, min);
      NodeParts(u, min);
      hide Agree, Under, SameFrom, WF, Leaves;
      Canonical(t.zero, u.zero, t.msg.plen + 1);
      Canonical(t.one, u.one, t.msg.plen + 1);
      ShapeKeepsXor(t);
      ShapeKeepsXor(u);
      ShapeKeepsXor(t.zero);
      ShapeKeepsXor(u.zero);
      ShapeKeepsXor(t.one);
      ShapeKeepsXor(u.one);
      SameSummary(t, u, min);
    }
  }

  // The message of the leaf that holds a key.
  function LeafMessage(t: Trie, min: int, key: Key): (m: Message)
    requires WF(t, min) && key in Keys(t)
    decreases t
  {
    if IsLeaf(t) then t.msg
    else
      HalvesDisjoint(t, min);
      LeafMessage(Child(t, key[t.msg.plen]), t.msg.plen + 1, key)
  }

  // ---- Any history of insertions and removals -------------------------------------------------

  datatype Op = Insert(key: Key, stored: bool) | Delete(key: Key)

  // Each insertion is of a new key that differs from the present ones before the last bit, each
  // removal of a present one.
  predicate CanApply(t: Trie, ops: seq<Op>)
    requires WFRoot(t)
    decreases |ops|
  {
    ops == [] ||
    match ops[0]
    case Insert(key, stored) =>
      CanAdd(t, 0, 0, key) &&
      (AddCorrect(t, 0, 0, key, stored); CanApply(Add(t, 0, 0, key, stored), ops[1..]))
    case Delete(key) =>
      key in Keys(t) && (RemoveCorrect(t, 0, key); CanApply(Remove(t, 0, key), ops[1..]))
  }

  function Apply(t: Trie, ops: seq<Op>): (r: Trie)
    requires WFRoot(t) && CanApply(t, ops)
    ensures WFRoot(r)
    decreases |ops|
  {
    if ops == [] then t else
      match ops[0]
      case Insert(key, stored) =>
        AddCorrect(t, 0, 0, key, stored);
        Apply(Add(t, 0, 0, key, stored), ops[1..])
      case Delete(key) =>
        RemoveCorrect(t, 0, key);
        Apply(Remove(t, 0, key), ops[1..])
  }

  // The keys a history leaves, whatever the trie does.
  function Surviving(ks: set<Key>, ops: seq<Op>): set<Key>
    decreases |ops|
  {
    if ops == [] then ks else
      Surviving(match ops[0] case Insert(key, _) => ks + {key} case Delete(key) => ks - {key}, ops[1..])
  }

  lemma {:induction false} ApplyKeys(t: Trie, ops: seq<Op>)
    requires WFRoot(t) && CanApply(t, ops)
    ensures Keys(Apply(t, ops)) == Surviving(Keys(t), ops)
    decreases |ops|
  {
    if ops != [] {
      match ops[0]
      case Insert(key, stored) =>
        AddCorrect(t, 0, 0, key, stored);
        assert Keys(Add(t, 0, 0, key, stored)) == Keys(t) + {key};
        ApplyKeys(Add(t, 0, 0, key, stored), ops[1..]);
      case Delete(key) =>
        RemoveCorrect(t, 0, key);
        assert Keys(Remove(t, 0, key)) == Keys(t) - {key};
        ApplyKeys(Remove(t, 0, key), ops[1..]);
    }
  }

  // Two histories that leave the same keys leave the same trie.
  lemma HistoriesConverge(a: seq<Op>, b: seq<Op>)
    requires CanApply(Nil, a) && CanApply(Nil, b)
    requires Surviving({}, a) == Surviving({}, b)
    ensures Shape(Apply(Nil, a)) == Shape(Apply(Nil, b))
  {
    var t, u := Apply(Nil, a), Apply(Nil, b);
    assert Keys(Nil) == {};
    ApplyKeys(Nil, a);
    ApplyKeys(Nil, b);
    if t.Node? && u.Node? {
      Canonical(t, u, 0);
    } else if t.Node? {
      KeysNonEmpty(t, 0);
    } else if u.Node? {
      KeysNonEmpty(u, 0);
    }
  }
}
