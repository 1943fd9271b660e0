/** The trie of sync_keys.cpp in place: nodes linked by child pointers and changed by loops, proved to
    carry out the operations on trie values. */
module SyncTree {
  import opened SyncKey
  import opened SyncTrie
  import opened SyncSearch

  class TreeNode {
    var min: int
    var plen: int
    var stored: bool
    var key: Key
    var zero: TreeNode?
    var one: TreeNode?
    ghost var view: Trie      // the trie that starts here
    ghost var parent: TreeNode?

    constructor (min: int, plen: int, stored: bool, key: Key)
      ensures Header() == Message(min, plen, stored, key) && zero == null && one == null && parent == null
      ensures view == Node(Header(), Nil, Nil)
    {
      this.min, this.plen, this.stored, this.key := min, plen, stored, key;
      zero, one, parent := null, null, null;
      view := Node(Message(min, plen, stored, key), Nil, Nil);
    }

    // A node above `child`, in its place under its parent and with no other child.
    constructor Above(child: TreeNode, ghost childView: Trie, bit: bool, min: int, plen: int, stored: bool)
      ensures Header() == Message(min, plen, stored, ZeroKey()) && Next(bit) == child && Next(!bit) == null
      ensures parent == child.parent && view == WithChild(Node(Header(), Nil, Nil), bit, childView)
    {
      this.min, this.plen, this.stored, this.key := min, plen, stored, ZeroKey();
      zero, one := if bit then null else child, if bit then child else null;
      parent := child.parent;
      view := WithChild(Node(Message(min, plen, stored, ZeroKey()), Nil, Nil), bit, childView);
    }

    method Summarise(m: Message)
      requires view.Node? && SameHeader(m, Header())
      modifies this`key, this`view
      ensures Header() == m && view == old(view).(msg := m)
    {
      this.key := m.key;
      this.view := view.(msg := m);
    }

    ghost method SetParent(parent: TreeNode?)
      modifies this`parent
      ensures this.parent == parent
    {
      this.parent := parent;
    }

    method MoveUnder(ghost parent: TreeNode?, min: int)
      requires view.Node?
      modifies this`min, this`view, this`parent
      ensures this.min == min && view == WithMin(old(view), min) && this.parent == parent
    {
      this.min := min;
      this.view := WithMin(view, min);
      this.parent := parent;
    }

    function Header(): Message
      reads this
    {
      Message(min, plen, stored, key)
    }

    function Next(bit: bool): TreeNode?
      reads this
    {
      if bit then one else zero
    }
  }

  // What a child pointer stands for.
  ghost function ViewOf(n: TreeNode?): Trie
    reads n
  {
    if n == null then Nil else n.view
  }

  // A pointer to a node: the root of the tree, or one of the two children of a node.
  datatype Slot = Nowhere | AtRoot | At(owner: TreeNode, bit: bool)

  ghost predicate HeaderOK(n: TreeNode)
    reads n
  {
    n.view.Node? && n.view.msg == n.Header() && (n.zero != null ==> n.zero != n.one)
  }

  // A child pointer leads to what the node's view says.
  ghost predicate ChildOK(n: TreeNode, bit: bool, nodes: set<TreeNode>)
    requires n in nodes && n.view.Node?
    reads nodes
  {
    && (n.Next(bit) != null ==> n.Next(bit) in nodes && n.Next(bit).parent == n)
    && ViewOf(n.Next(bit)) == Child(n.view, bit)
  }

  // Prefixes get longer on the way down.
  ghost predicate Rising(t: Trie) {
    t.Nil? || IsLeaf(t) ||
    (Rising(t.zero) && Rising(t.one) &&
     (t.zero.Node? ==> t.msg.plen < t.zero.msg.plen) && (t.one.Node? ==> t.msg.plen < t.one.msg.plen))
  }

  lemma {:induction false} WFRises(t: Trie, min: int)
    requires WF(t, min)
    ensures Rising(t)
    decreases t
  {
    if !IsLeaf(t) {
      NodeParts(t, min);
      WFRises(t.zero, t.msg.plen + 1);
      WFRises(t.one, t.msg.plen + 1);
    }
  }

  // A fresh parent that still lacks the key and its leaf.
  ghost predicate Splitting(t: Trie, p: int, key: Key, stored: bool, want: Trie) {
    && 0 <= p < KEY_BITS - 1 && t.Node? && t.msg.plen == p && Child(t, key[p]).Nil?
    && want == WithChild(t.(msg := XorMessage(key, t.msg)), key[p], Leaf(key, p + 1, stored))
  }

  // What the loop of add_key still has to make of the trie in a slot.
  ghost predicate Pending(t: Trie, p: int, min: int, key: Key, stored: bool, want: Trie, split: bool) {
    if t.Nil? then want == Leaf(key, min, stored)
    else if split then Splitting(t, p, key, stored, want)
    else CanAdd(t, p, min, key) && want == Add(t, p, min, key, stored)
  }

  lemma SplitPending(t: Trie, p: int, min: int, key: Key, stored: bool, want: Trie)
    requires Splitting(t, p, key, stored, want)
    ensures Pending(t, p, min, key, stored, want, true)
  {
  }

  lemma PendingStep(t: Trie, p: int, min: int, key: Key, stored: bool, want: Trie, split: bool)
    requires Pending(t, p, min, key, stored, want, split) && t.Node?
    ensures 0 <= p < KEY_BITS - 1
    ensures t.msg.plen == p && !split ==> Shares(t, key)
    ensures t.msg.plen == p && split ==> Child(t, key[p]).Nil?
    ensures t.msg.plen == p ==>
              && want.Node? && want.msg == XorMessage(key, t.msg) && Child(want, !key[p]) == Child(t, !key[p])
              && Pending(Child(t, key[p]), p + 1, p + 1, key, stored, Child(want, key[p]), split)
    ensures t.msg.plen != p ==> p < t.msg.plen && CanAdd(t, p, min, key) && !split
    ensures t.msg.plen != p && key[p] == t.msg.key[p] ==> Pending(t, p + 1, min, key, stored, want, split)
    ensures t.msg.plen != p && key[p] != t.msg.key[p] ==> want == Split(t, p, min, key, stored)
  {
    if !split {
      CanAddStep(t, p, min, key);
    }
  }

  lemma SplitRises(t: Trie, p: int, min: int, key: Key, stored: bool)
    requires CanAdd(t, p, min, key) && t.Node? && p < t.msg.plen && p < KEY_BITS - 1 && key[p] != t.msg.key[p]
    ensures var bare := WithChild(Node(Message(min, p, stored, ZeroKey()), Nil, Nil), t.msg.key[p], WithMin(t, p + 1));
            && Rising(bare)
            && Splitting(bare.(msg := XorChildren(bare, bare.msg)), p, key, stored, Split(t, p, min, key, stored))
  {
    WithMinKeeps(t, min, p + 1);
    WFRises(WithMin(t, p + 1), p + 1);
  }

  // What is left to do by remove_key at a node whose keys share p bits with the key.
  ghost predicate ToRemove(t: Trie, p: int, key: Key, want: Trie) {
    && t.Node? && WF(t, t.msg.min) && key in Keys(t) && 0 <= p <= t.msg.plen
    && want == Remove(t, t.msg.min, key)
  }

  lemma RemoveStep(t: Trie, p: int, key: Key, want: Trie)
    requires ToRemove(t, p, key, want) && t.msg.plen == p < KEY_BITS
    ensures 0 <= p < KEY_BITS - 1 && Child(t, key[p]).Node? && Child(t, !key[p]).Node?
    ensures p < Child(t, !key[p]).msg.plen && p < Child(t, key[p]).msg.plen && key in Keys(Child(t, key[p]))
    ensures if IsLeaf(Child(t, key[p])) then
              && Child(t, key[p]).zero.Nil? && Child(t, key[p]).one.Nil?
              && want == WithMin(Child(t, !key[p]), t.msg.min)
            else
              && want.Node? && want.msg == XorMessage(key, t.msg) && Child(want, !key[p]) == Child(t, !key[p])
              && ToRemove(Child(t, key[p]), p + 1, key, Child(want, key[p]))
  {
    NodeParts(t, t.msg.min);
    HalvesDisjoint(t, t.msg.min);
    hide Agree, SameFrom, XorMessage;
  }

  function ButMin(t: Trie): Trie {
    if t.Nil? then Nil else WithMin(t, 0)
  }

  lemma LeafBelow(t: Trie, min: int, key: Key, p: int)
    requires WF(t, min) && key in Keys(t) && 0 <= p < KEY_BITS
    ensures t.Node?
    ensures t.msg.plen == p ==> WF(Child(t, key[p]), p + 1) && key in Keys(Child(t, key[p]))
    ensures t.msg.plen == p ==> LeafMessage(t, min, key) == LeafMessage(Child(t, key[p]), p + 1, key)
  {
    if t.msg.plen == p {
      HalvesDisjoint(t, min);
    }
  }

  lemma LeafAlone(key: Key, min: int, stored: bool, from: int)
    requires WF(Leaf(key, min, stored), from) && key in Keys(Leaf(key, min, stored))
    ensures LeafMessage(Leaf(key, min, stored), from, key) == Message(min, KEY_BITS, stored, key)
  {
  }

  // All keys of an inner node share its prefix with the key.
  predicate Shares(t: Trie, key: Key) {
    t.Node? && !IsLeaf(t) && forall k :: k in Keys(t) ==> Agree(k, key, t.msg.plen)
  }

  // What adding a key can do to a node that is there.
  predicate Untouched(before: Trie, after: Trie, key: Key) {
    ButMin(before) == ButMin(after) || Shares(before, key)
  }

  lemma SameButMin(t: Trie, u: Trie)
    requires ButMin(t) == ButMin(u)
    ensures Leaves(t) == Leaves(u) && (t.Node? <==> u.Node?)
    ensures t.Node? ==> t.zero == u.zero && t.one == u.one && t.msg.plen == u.msg.plen &&
                          t.msg.key == u.msg.key && t.msg.stored == u.msg.stored
  {
  }

  class KeyTree {
    var root: TreeNode?
    ghost var nodes: set<TreeNode>
    ghost var view: Trie

    // Every pointer but the one in `hole` leads to what its owner's view says.
    ghost predicate Holey(hole: Slot)
      reads this, nodes
    {
      && (hole != AtRoot ==> (root != null ==> root in nodes && root.parent == null) && ViewOf(root) == view)
      && (hole.At? ==> hole.owner in nodes)
      && (forall n :: n in nodes ==> HeaderOK(n))
      && (forall n, bit :: n in nodes && hole != At(n, bit) ==> ChildOK(n, bit, nodes))
    }

    ghost predicate Valid()
      reads this, nodes
    {
      Holey(Nowhere) && WFRoot(view)
    }

    function Content(slot: Slot): TreeNode?
      requires slot != Nowhere
      reads this, if slot.At? then {slot.owner} else {}
    {
      if slot.AtRoot? then root else slot.owner.Next(slot.bit)
    }

    // What the pointer in a slot should lead to.
    ghost function Wanted(slot: Slot): Trie
      requires slot != Nowhere && (slot.At? ==> slot.owner.view.Node?)
      reads this, if slot.At? then {slot.owner} else {}
    {
      if slot.AtRoot? then view else Child(slot.owner.view, slot.bit)
    }

    constructor ()
      ensures Valid() && view == Nil && fresh(nodes)
    {
      root, nodes, view := null, {}, Nil;
    }

    // xor_children; the hole, if there is one, is in a node with a shorter prefix.
    method XorChildrenOf(n: TreeNode?, m: Message, ghost hole: Slot) returns (r: Message)
      requires Holey(hole) && 0 <= m.plen < KEY_BITS && (n != null ==> n in nodes) && Rising(ViewOf(n))
      requires n != null && hole.At? ==> hole.owner.plen < n.plen
      ensures r == XorChildren(ViewOf(n), m)
      decreases ViewOf(n)
    {
      if n == null {
        r := m;
      } else {
        assert HeaderOK(n);
        if n.plen == KEY_BITS {
          r := XorMessage(n.key, m);
        } else {
          assert ChildOK(n, false, nodes) && ChildOK(n, true, nodes);
          assert n.zero != null ==> HeaderOK(n.zero);
          assert n.one != null ==> HeaderOK(n.one);
          r := XorChildrenOf(n.zero, m, hole);
          r := XorChildrenOf(n.one, r, hole);
        }
      }
    }

    // The walk of find_message, from a node on.
    method FindFrom(start: TreeNode, startLength: int, m: Message) returns (r: TreeNode?)
      requires Valid() && ValidMessage(m) && start in nodes && start.view.Node?
      requires WF(start.view, start.view.msg.min) && 0 <= startLength <= start.plen
      ensures r != null ==> r in nodes
      ensures start.view.msg == start.Header() && ViewOf(r) == Find(start.view, start.view.msg.min, startLength, m)
    {
      hide SameMessage, Leaves, Agree;
      var node, p := start, startLength;
      assert HeaderOK(node);
      while true
        invariant node in nodes && node.view.Node? && WF(node.view, node.view.msg.min) && 0 <= p <= node.view.msg.plen
        invariant Find(node.view, node.view.msg.min, p, m) == Find(start.view, start.view.msg.min, startLength, m)
        decreases node.view, KEY_BITS - p
      {
        assert HeaderOK(node);
        if SameMessage(node.Header(), m) {
          return node;
        }
        if node.plen == KEY_BITS {
          return null;
        }
        NodeParts(node.view, node.view.msg.min);
        if p < node.plen {
          if node.key[p] != m.key[p] {
            return null;
          }
        } else {
          assert ChildOK(node, m.key[p], nodes);
          node := node.Next(m.key[p]);
        }
        p := p + 1;
      }
    }

    // find_message
    method FindMessageNode(m: Message) returns (r: TreeNode?)
      requires Valid() && ValidMessage(m)
      ensures r != null ==> r in nodes
      ensures ViewOf(r) == FindMessage(view, m)
    {
      if root == null {
        return null;
      }
      assert HeaderOK(root);
      r := FindFrom(root, root.plen, m);
    }

    // Stores a pointer to a node that is already in the tree.
    method Store(slot: Slot, n: TreeNode)
      requires slot != Nowhere && Holey(slot) && n in nodes
      requires n.parent == if slot.At? then slot.owner else null
      requires slot.At? ==> slot.owner.Next(!slot.bit) != n
      modifies this`root, if slot.At? then {slot.owner} else {}
      ensures Holey(slot) && Content(slot) == n && nodes == old(nodes)
      ensures slot.At? ==> slot.owner.Header() == old(slot.owner.Header()) && slot.owner.view == old(slot.owner.view)
      ensures slot.At? ==> slot.owner.parent == old(slot.owner.parent)
      ensures slot.At? ==> slot.owner.Next(!slot.bit) == old(slot.owner.Next(!slot.bit))
    {
      hide WF, Rising, Leaves;
      assert slot.At? ==> HeaderOK(slot.owner);
      if slot.AtRoot? {
        root := n;
      } else if slot.bit {
        slot.owner.one := n;
      } else {
        slot.owner.zero := n;
      }
      forall x, b | x in nodes && slot != At(x, b)
        ensures ChildOK(x, b, nodes)
      {
        assert old(ChildOK(x, b, nodes));
      }
    }

    // The pointer in the slot leads to a node that knows its place.
    ghost predicate Placed(slot: Slot, n: TreeNode)
      requires slot != Nowhere
      reads this, nodes, n, if slot.At? then {slot.owner} else {}
    {
      && n in nodes && Content(slot) == n
      && n.parent == (if slot.At? then slot.owner else null)
      && (slot.At? ==> slot.owner in nodes && slot.owner != n && slot.owner.Next(!slot.bit) != n)
    }

    ghost predicate Unlinked(n: TreeNode)
      reads this, nodes
    {
      n in nodes && root != n && forall x, b :: x in nodes ==> x.Next(b) != n
    }

    // A new node with the one in the slot as its only child, not yet in the slot itself.
    method NewParent(slot: Slot, node: TreeNode, p: int, min: int, stored: bool, bit: bool) returns (parent: TreeNode)
      requires slot != Nowhere && Holey(slot) && Placed(slot, node) && node.view.Node?
      modifies this`nodes, node
      ensures Holey(slot) && fresh(parent) && nodes == old(nodes) + {parent} && Content(slot) == node
      ensures parent.parent == if slot.At? then slot.owner else null
      ensures Unlinked(parent) && parent.Header() == Message(min, p, stored, ZeroKey())
      ensures parent.view == WithChild(Node(parent.Header(), Nil, Nil), bit, WithMin(old(node.view), p + 1))
      ensures node.view == WithMin(old(node.view), p + 1) && node.plen == old(node.plen)
    {
      hide WF, Rising, Leaves, Agree, XorInto;
      assert HeaderOK(node);
      parent := new TreeNode.Above(node, WithMin(node.view, p + 1), bit, min, p, stored);
      node.MoveUnder(parent, p + 1);
      nodes := nodes + {parent};
      forall x, b | x in nodes && slot != At(x, b)
        ensures ChildOK(x, b, nodes)
      {
        if x != parent {
          assert old(ChildOK(x, b, nodes));
        }
      }
    }

    // The summary of a node to which nothing leads yet.
    method SetSummary(ghost slot: Slot, n: TreeNode, m: Message)
      requires Holey(slot) && Unlinked(n) && SameHeader(m, n.Header())
      modifies n`key, n`view
      ensures Holey(slot) && n.Header() == m && n.view == old(n.view).(msg := m)
    {
      hide WF, Leaves;
      assert HeaderOK(n);
      n.Summarise(m);
      forall x, b | x in nodes && slot != At(x, b)
        ensures ChildOK(x, b, nodes)
      {
        assert old(ChildOK(x, b, nodes));
      }
    }

    // A new node takes the place of the one in the slot, which becomes its child.
    method SplitAt(slot: Slot, node: TreeNode, p: int, min: int, key: Key, stored: bool) returns (parent: TreeNode)
      requires slot != Nowhere && Holey(slot) && Placed(slot, node)
      requires CanAdd(node.view, p, min, key) && p < node.plen && p < KEY_BITS - 1 && key[p] != node.key[p]
      requires slot.At? ==> slot.owner.plen < p
      modifies this, node, if slot.At? then {slot.owner} else {}
      ensures Holey(slot) && Content(slot) == parent && Placed(slot, parent) && fresh(parent) &&
              nodes == old(nodes) + {parent}
      ensures view == old(view)
      ensures slot.At? ==> slot.owner.plen == old(slot.owner.plen) && slot.owner.view == old(slot.owner.view)
      ensures Splitting(parent.view, p, key, stored, Split(old(node.view), p, min, key, stored))
      ensures old(node.view).Node? && node.view == WithMin(old(node.view), p + 1) && node.plen == old(node.plen)
    {
      hide WF, Leaves, Agree, XorInto, Rising, Splitting, Split, CanAdd, ChildOK;
      assert HeaderOK(node);
      SplitRises(node.view, p, min, key, stored);
      parent := NewParent(slot, node, p, min, stored, node.key[p]);
      var m := XorChildrenOf(parent, parent.Header(), slot);
      SetSummary(slot, parent, m);
      Store(slot, parent);
    }

    // The key is xor-ed into a node; either its children stay or what is left to be done below it
    // moves on to one of them.
    method XorNode(ghost slot: Slot, ghost slot': Slot, node: TreeNode, key: Key, ghost after: Trie)
      requires slot != Nowhere && Holey(slot) && Placed(slot, node) && 0 <= node.plen < KEY_BITS
      requires after.Node? && after.msg == XorMessage(key, node.Header()) && node.view.Node?
      requires slot.At? ==> slot.owner.view.Node?
      requires if slot' == slot then after.zero == node.view.zero && after.one == node.view.one
               else slot'.At? && slot'.owner == node && after == Wanted(slot) &&
                    Child(after, !slot'.bit) == Child(node.view, !slot'.bit)
      modifies node`key, node`view
      ensures Holey(slot') && node.view == after && node.plen == old(node.plen)
    {
      hide WF, Leaves, XorInto;
      assert HeaderOK(node);
      node.key := XorInto(key, node.key, node.plen);
      node.view := after;
      forall x, b | x in nodes && slot' != At(x, b)
        ensures ChildOK(x, b, nodes)
      {
        if slot != At(x, b) {
          assert old(ChildOK(x, b, nodes));
        }
      }
    }

    lemma ChildPlaced(slot: Slot, node: TreeNode, bit: bool)
      requires slot != Nowhere && Holey(slot) && Placed(slot, node)
      ensures node.view.Node? && ViewOf(node.Next(bit)) == Child(node.view, bit)
      ensures node.Next(bit) != null ==>
                Placed(At(node, bit), node.Next(bit)) && node.Next(bit) != node && HeaderOK(node.Next(bit))
    {
      assert HeaderOK(node) && ChildOK(node, bit, nodes);
    }

    // The key is xor-ed into a node whose whole prefix it shares; what is to be done below moves on
    // to a child.
    method XorAt(ghost slot: Slot, node: TreeNode, key: Key, bit: bool)
      requires slot != Nowhere && Holey(slot) && Placed(slot, node) && 0 <= node.plen < KEY_BITS
      requires slot.At? ==> slot.owner.view.Node?
      requires var want := Wanted(slot);
               want.Node? && want.msg == XorMessage(key, node.Header()) && Child(want, !bit) == Child(node.view, !bit)
      modifies node`key, node`view
      ensures Holey(At(node, bit)) && node.view == old(Wanted(slot)) && node.plen == old(node.plen)
      ensures node.Next(bit) != null ==> Placed(At(node, bit), node.Next(bit)) && node.Next(bit) != node
      ensures ViewOf(node.Next(bit)) == Child(old(node.view), bit)
    {
      ChildPlaced(slot, node, bit);
      hide WF, Leaves, XorInto;
      XorNode(slot, At(node, bit), node, key, Wanted(slot));
    }

    // The missing leaf.
    method AddLeaf(slot: Slot, min: int, key: Key, stored: bool) returns (leaf: TreeNode)
      requires slot != Nowhere && Holey(slot) && Content(slot) == null
      requires slot.At? ==> slot.owner.view.Node?
      requires Wanted(slot) == Leaf(key, min, stored)
      modifies this, if slot.At? then {slot.owner} else {}
      ensures Holey(Nowhere) && fresh(leaf) && nodes == old(nodes) + {leaf} && view == old(view)
      ensures leaf.view == Leaf(key, min, stored) && leaf.Header() == leaf.view.msg
      ensures forall x :: x in old(nodes) ==> x.view == old(x.view)
    {
      hide WF, Leaves;
      assert slot.At? ==> HeaderOK(slot.owner);
      leaf := new TreeNode(min, KEY_BITS, stored, key);
      leaf.SetParent(if slot.At? then slot.owner else null);
      nodes := nodes + {leaf};
      forall x, b | x in nodes && slot != At(x, b)
        ensures ChildOK(x, b, nodes)
      {
        assert x != leaf ==> old(ChildOK(x, b, nodes));
      }
      Store(slot, leaf);
    }

    ghost method Aim(want: Trie)
      requires Holey(Nowhere)
      modifies this`view
      ensures Holey(AtRoot) && view == want && (root != null ==> Placed(AtRoot, root))
      ensures ViewOf(root) == old(view)
    {
      view := want;
    }

    lemma NodeInPlace(slot: Slot, n: TreeNode)
      requires slot != Nowhere && Holey(slot) && Placed(slot, n)
      ensures HeaderOK(n) && n in nodes
    {
    }

    // Half-way through add_key: the trie in the slot is still to be changed.
    ghost predicate Adding(slot: Slot, p: int, min: int, key: Key, stored: bool, split: bool)
      reads this, nodes
    {
      && slot != Nowhere && Holey(slot)
      && (slot.At? ==> slot.owner.view.Node? && slot.owner.plen < p)
      && (Content(slot) != null ==> Content(slot) in nodes && Placed(slot, Content(slot)))
      && Pending(ViewOf(Content(slot)), p, min, key, stored, Wanted(slot), split)
    }

    // The first case in the loop of add_key: the whole prefix of the node matches.
    method AddXor(slot: Slot, node: TreeNode, p: int, min: int, key: Key, stored: bool, ghost split: bool)
      requires Adding(slot, p, min, key, stored, split) && Content(slot) == node && node.plen == p < KEY_BITS
      requires 0 <= p && node.view.Node?
      modifies node`key, node`view
      ensures Adding(At(node, key[p]), p + 1, p + 1, key, stored, split)
      ensures ViewOf(node.Next(key[p])) == Child(old(node.view), key[p])
      ensures if split then node.Next(key[p]) == null else Shares(old(node.view), key)
      ensures node.view == old(Wanted(slot)) && node.view.msg.plen == p
    {
      NodeInPlace(slot, node);
      PendingStep(node.view, p, min, key, stored, Wanted(slot), split);
      hide WF, Leaves, Agree, XorInto, Split, Splitting, Pending, CanAdd, ChildOK, Keys, XorMessage;
      XorAt(slot, node, key, key[p]);
    }

    // The last case: the prefix of the node differs from the key.
    method AddSplit(slot: Slot, node: TreeNode, p: int, min: int, key: Key, stored: bool)
      requires Adding(slot, p, min, key, stored, false) && Content(slot) == node && node.plen != p
      requires 0 <= p < KEY_BITS && node.view.Node? && key[p] != node.key[p]
      modifies this, nodes
      ensures Adding(slot, p, p + 1, key, stored, true) && view == old(view)
      ensures old(nodes) <= nodes && fresh(nodes - old(nodes))
      ensures slot != Nowhere && Content(slot) != null && fresh(Content(slot))
      ensures (slot.At? ==> slot.owner.view.Node?) && Wanted(slot) == old(Wanted(slot))
      ensures ButMin(node.view) == ButMin(old(node.view)) && node.plen == old(node.plen)
      ensures forall x :: x in old(nodes) && x != node ==> x.view == old(x.view) && x.plen == old(x.plen)
    {
      NodeInPlace(slot, node);
      PendingStep(node.view, p, min, key, stored, Wanted(slot), false);
      hide WF, Leaves, Agree, XorInto, Split, Splitting, Pending, CanAdd, ChildOK, Keys, XorMessage;
      var parent := SplitAt(slot, node, p, min, key, stored);
      SplitPending(parent.view, p, p + 1, key, stored, Wanted(slot));
    }

    lemma AddingAt(slot: Slot, p: int, min: int, key: Key, stored: bool, split: bool)
      requires Adding(slot, p, min, key, stored, split) && Content(slot) != null
      ensures slot != Nowhere && Content(slot) in nodes && 0 <= p < KEY_BITS - 1
      ensures var node := Content(slot);
              && node.view.Node? && node.view.msg == node.Header()
              && (node.plen != p ==> !split)
              && (node.plen != p && key[p] == node.key[p] ==> Adding(slot, p + 1, min, key, stored, split))
    {
      NodeInPlace(slot, Content(slot));
      PendingStep(Content(slot).view, p, min, key, stored, Wanted(slot), split);
      hide WF, Leaves, Agree, XorInto, Split, Splitting, Pending, CanAdd, ChildOK, Keys, XorMessage;
    }

    lemma AddingOwner(slot: Slot, p: int, min: int, key: Key, stored: bool, split: bool)
      requires Adding(slot, p, min, key, stored, split)
      ensures slot != Nowhere && (slot.At? ==> slot.owner.view.Node?)
    {
    }

    lemma AddingEnds(slot: Slot, p: int, min: int, key: Key, stored: bool, split: bool)
      requires Adding(slot, p, min, key, stored, split) && Content(slot) == null
      ensures slot != Nowhere && Holey(slot) && (slot.At? ==> slot.owner in nodes && slot.owner.view.Node?)
      ensures Wanted(slot) == Leaf(key, min, stored)
    {
    }

    // The loop body of add_key.
    method AddStep(slot: Slot, node: TreeNode, p: int, min: int, key: Key, stored: bool, ghost split: bool)
      returns (slot': Slot, p': int, min': int, ghost split': bool)
      requires Adding(slot, p, min, key, stored, split) && slot != Nowhere && Content(slot) == node
      modifies this, nodes
      ensures Adding(slot', p', min', key, stored, split') && slot' != Nowhere && view == old(view)
      ensures old(nodes) <= nodes && fresh(nodes - old(nodes))
      ensures 0 <= p < KEY_BITS && old(node.view).Node?
      ensures || (split' && !split)
              || (split' == split && ViewOf(Content(slot')) == Child(old(node.view), key[p]))
              || (split' == split && p' == p + 1 && ViewOf(Content(slot')) == old(node.view))
      ensures forall x :: x in old(nodes) && x != node ==> x.view == old(x.view) && x.plen == old(x.plen)
      ensures node.plen == old(node.plen)
      ensures slot'.At? ==> slot'.owner.view.Node?
      ensures old(slot.At? ==> slot.owner.view.Node?)
      ensures if node.plen == p then
                && old(Wanted(slot)).Node? && old(Wanted(slot)).msg.plen == p
                && Wanted(slot') == Child(old(Wanted(slot)), key[p])
              else Wanted(slot') == old(Wanted(slot))
      ensures if node.plen == p then
                p' == p + 1 && split' == split && if split then Content(slot') == null else Shares(old(node.view), key)
              else if split' then
                ButMin(node.view) == ButMin(old(node.view)) && Content(slot') != null && fresh(Content(slot'))
              else
                p' == p + 1 && slot' == slot && node.view == old(node.view)
    {
      hide WF, Leaves, Agree, Split, Splitting, CanAdd, ChildOK, Placed, Keys, Adding, Holey, Pending;
      AddingAt(slot, p, min, key, stored, split);
      AddingOwner(slot, p, min, key, stored, split);
      slot', p', min', split' := slot, p + 1, min, split;
      if node.plen == p {
        AddXor(slot, node, p, min, key, stored, split);
        slot', min' := At(node, key[p]), p + 1;
      } else if key[p] != node.key[p] {
        AddSplit(slot, node, p, min, key, stored);
        p', min', split' := p, p + 1, true;
      }
      AddingOwner(slot', p', min', key, stored, split');
    }

    ghost method StartAdding(key: Key, stored: bool)
      requires Valid() && CanAdd(view, 0, 0, key)
      modifies this`view
      ensures view == Add(old(view), 0, 0, key, stored) && view.Node? && WF(view, 0) && key in Keys(view)
      ensures Adding(AtRoot, 0, 0, key, stored, false)
    {
      AddCorrect(view, 0, 0, key, stored);
      Aim(Add(view, 0, 0, key, stored));
    }

    // add_key
    method AddKey(key: Key, stored: bool) returns (leaf: TreeNode)
      requires Valid() && CanAdd(view, 0, 0, key)
      modifies this, nodes
      ensures Valid() && view == Add(old(view), 0, 0, key, stored)
      ensures old(nodes) <= nodes && fresh(nodes - old(nodes)) && leaf in nodes
      ensures leaf.view.Node? && leaf.view == Leaf(key, leaf.min, stored)
      ensures forall x :: x in old(nodes) ==> Untouched(old(x.view), x.view, key)
      ensures view.Node? && WF(view, 0) && key in Keys(view) && LeafMessage(view, 0, key) == leaf.Header()
    {
      hide WF, Leaves, Agree, Split, Splitting, CanAdd, ChildOK, Placed, Keys, Adding, Holey, Pending, Shares,
        LeafMessage;
      StartAdding(key, stored);
      var slot, p, min := AtRoot, 0, 0;
      ghost var split, from := false, 0;
      while Content(slot) != null
        invariant Adding(slot, p, min, key, stored, split) && slot != Nowhere
        invariant old(nodes) <= nodes && fresh(nodes - old(nodes)) && view == Add(old(view), 0, 0, key, stored)
        invariant slot.At? ==> slot.owner.view.Node?
        invariant WF(view, 0) && key in Keys(view)
        invariant WF(Wanted(slot), from) && key in Keys(Wanted(slot))
        invariant LeafMessage(Wanted(slot), from, key) == LeafMessage(view, 0, key)
        invariant split ==> Content(slot) == null || Content(slot) !in old(nodes)
        invariant !split ==> forall x :: x in old(nodes) && p <= x.plen ==> x.view == old(x.view)
        invariant forall x :: x in old(nodes) ==> Untouched(old(x.view), x.view, key)
        decreases !split, ViewOf(Content(slot)), KEY_BITS - p
      {
        ghost var want := Wanted(slot);
        AddingAt(slot, p, min, key, stored, split);
        if Content(slot).plen == p {
          LeafBelow(want, from, key, p);
          from := p + 1;
        }
        slot, p, min, split := AddStep(slot, Content(slot), p, min, key, stored, split);
      }
      AddingEnds(slot, p, min, key, stored, split);
      LeafAlone(key, min, stored, from);
      leaf := AddLeaf(slot, min, key, stored);
    }

    // ---- remove_key -----------------------------------------------------------------------------

    // On the way down to the leaf: the trie in the slot is still to lose the key.
    ghost predicate Removing(slot: Slot, node: TreeNode, p: int, key: Key)
      reads this, nodes
    {
      && slot != Nowhere && Holey(slot) && node in nodes && Placed(slot, node)
      && (slot.At? ==> slot.owner.view.Node? && slot.owner.plen < p)
      && ToRemove(node.view, p, key, Wanted(slot))
    }

    // At the leaf, which is a child of the node in the slot; only the pointer to that node is left
    // to be changed.
    ghost predicate RemovingLast(slot: Slot, parent: TreeNode, bit: bool)
      reads this, nodes
    {
      && slot != Nowhere && Holey(slot) && parent in nodes && Placed(slot, parent)
      && (slot.At? ==> slot.owner.view.Node? && slot.owner.plen < parent.plen < KEY_BITS)
      && IsLeaf(Child(parent.view, bit)) && Child(parent.view, bit).zero.Nil? && Child(parent.view, bit).one.Nil?
      && Child(parent.view, !bit).Node? && parent.plen < Child(parent.view, !bit).msg.plen
      && Wanted(slot) == WithMin(Child(parent.view, !bit), parent.min)
    }

    // The key is taken out of a node's summary.
    method RemoveXor(ghost slot: Slot, node: TreeNode, p: int, key: Key) returns (last: bool)
      requires Removing(slot, node, p, key) && node.view.Node? && node.plen == p < KEY_BITS && 0 <= p
      modifies node`key, node`view
      ensures node.Next(key[p]) != null && node.Next(key[p]) in nodes && node.Next(key[p]) != node
      ensures node.Next(key[p]).view == Child(old(node.view), key[p]) && node.Next(key[p]).view.Node?
      ensures key in Keys(node.Next(key[p]).view) && p < node.Next(key[p]).plen
      ensures last <==> node.Next(key[p]).plen == KEY_BITS
      ensures if last then RemovingLast(slot, node, key[p])
              else Removing(At(node, key[p]), node.Next(key[p]), p + 1, key)
    {
      hide WF, Leaves, Agree, XorInto, Keys, ToRemove, XorMessage, ChildOK, Remove;
      var bit := key[p];
      NodeInPlace(slot, node);
      RemoveStep(node.view, p, key, Wanted(slot));
      ChildPlaced(slot, node, bit);
      ChildPlaced(slot, node, !bit);
      var child := node.Next(bit);
      last := child.plen == KEY_BITS;
      if last {
        XorNode(slot, slot, node, key, node.view.(msg := XorMessage(key, node.view.msg)));
      } else {
        XorNode(slot, At(node, bit), node, key, Wanted(slot));
      }
    }

    lemma RemovingFamily(slot: Slot, parent: TreeNode, bit: bool)
      requires RemovingLast(slot, parent, bit)
      ensures slot != Nowhere && Holey(slot) && parent in nodes && parent.view.Node?
      ensures parent.Next(bit) != null && parent.Next(bit) != parent && parent.Next(bit) in nodes &&
              parent.Next(bit).parent == parent
      ensures parent.Next(!bit) != null && parent.Next(!bit) != parent
              && parent.Next(!bit) in nodes && parent.Next(!bit).parent == parent
      ensures parent.Next(bit) != parent.Next(!bit) && parent.Next(!bit).view.Node?
      ensures parent.parent == if slot.At? then slot.owner else null
      ensures slot.At? ==> slot.owner in nodes - {parent, parent.Next(bit), parent.Next(!bit)} && slot.owner.view.Node?
      ensures slot.At? ==> slot.owner.Next(!slot.bit) != parent.Next(!bit) && slot.owner.Next(!slot.bit) != parent
      ensures slot.AtRoot? ==> root == parent
      ensures Wanted(slot) == WithMin(parent.Next(!bit).view, parent.min)
    {
      NodeInPlace(slot, parent);
      ChildPlaced(slot, parent, bit);
      ChildPlaced(slot, parent, !bit);
      assert slot.At? ==> ChildOK(slot.owner, !slot.bit, nodes) && HeaderOK(slot.owner);
    }

    // The removed leaf and its parent leave the tree; the other child is ready to take the parent's
    // place.
    method Detach(ghost slot: Slot, parent: TreeNode, bit: bool) returns (c: TreeNode)
      requires RemovingLast(slot, parent, bit)
      modifies this`nodes, nodes
      ensures Holey(slot) && nodes <= old(nodes) && c in nodes && c.view.Node? && c.view == Wanted(slot)
      ensures c.parent == if slot.At? then slot.owner else null
      ensures slot.At? ==> slot.owner.Next(!slot.bit) != c && slot.owner.view == old(slot.owner.view)
      ensures slot.At? ==> slot.owner.view.Node?
      ensures old(nodes) == nodes + {parent, old(parent.Next(bit))} && c == old(parent.Next(!bit))
      ensures forall x :: x in nodes && x != c ==> x.view == old(x.view)
      ensures ButMin(c.view) == ButMin(old(c.view))
    {
      hide WF, Leaves, WFRoot, RemovingLast, Placed, XorInto;
      RemovingFamily(slot, parent, bit);
      c := parent.Next(!bit);
      nodes := nodes - {parent, parent.Next(bit)};
      if bit {
        parent.one := null;
      } else {
        parent.zero := null;
      }
      c.MoveUnder(if slot.At? then slot.owner else null, parent.min);
      forall x, b | x in nodes && slot != At(x, b)
        ensures ChildOK(x, b, nodes)
      {
        assert old(ChildOK(x, b, nodes));
      }
    }

    method Unlink(slot: Slot, parent: TreeNode, bit: bool)
      requires RemovingLast(slot, parent, bit)
      modifies this, nodes
      ensures Holey(Nowhere) && view == old(view) && nodes <= old(nodes)
      ensures old(parent.Next(bit)) != null && old(nodes) == nodes + {parent, old(parent.Next(bit))}
      ensures forall x :: x in nodes ==> ButMin(x.view) == ButMin(old(x.view))
    {
      hide WF, Leaves;
      var c := Detach(slot, parent, bit);
      Store(slot, c);
      forall x, b | x in nodes
        ensures ChildOK(x, b, nodes)
      {
      }
    }

    lemma RemovingAt(slot: Slot, node: TreeNode, p: int, key: Key)
      requires Removing(slot, node, p, key) && node.plen != KEY_BITS
      ensures node in nodes && node.view.Node? && 0 <= p <= node.plen < KEY_BITS
      ensures p < node.plen ==> p + 1 < KEY_BITS && key[p] == node.key[p] && Removing(slot, node, p + 1, key)
      ensures key in Keys(node.view)
    {
    }

    lemma RemovingAlone(slot: Slot, node: TreeNode, p: int, key: Key)
      requires Removing(slot, node, p, key) && node.plen == KEY_BITS
      ensures slot != Nowhere && Wanted(slot).Nil?
    {
    }

    ghost method StartRemoving(key: Key)
      requires Valid() && key in Keys(view)
      modifies this`view
      ensures WFRoot(old(view)) && old(view).Node? && WF(old(view), 0) && view == Remove(old(view), 0, key) &&
              WFRoot(view)
      ensures root != null && root in nodes && root.view.Node? && Removing(AtRoot, root, 0, key)
    {
      RemoveCorrect(view, 0, key);
      assert ToRemove(view, 0, key, Remove(view, 0, key));
      assert HeaderOK(root);
      Aim(Remove(view, 0, key));
    }

    // The only leaf.
    method RemoveRoot(leaf: TreeNode, p: int, key: Key)
      requires Removing(AtRoot, leaf, p, key) && leaf.plen == KEY_BITS
      modifies this`root, this`nodes
      ensures Holey(Nowhere) && nodes == old(nodes) - {leaf} && key in Keys(leaf.view)
    {
      RemovingAlone(AtRoot, leaf, p, key);
      root := null;
      nodes := nodes - {leaf};
      forall x, b | x in nodes
        ensures ChildOK(x, b, nodes)
      {
        assert old(ChildOK(x, b, nodes));
      }
    }

    // remove_key
    method RemoveKey(key: Key)
      requires Valid() && key in Keys(view)
      modifies this, nodes
      ensures Valid() && WFRoot(old(view)) && view == Remove(old(view), 0, key) && nodes <= old(nodes)
      ensures forall x :: x in old(nodes) && key !in Keys(old(x.view)) ==>
                x in nodes && ButMin(x.view) == ButMin(old(x.view))
    {
      hide WF, WFRoot, Leaves, Keys, Agree, ChildOK, Placed, Holey, Removing, RemovingLast, HeaderOK, Remove, ToRemove,
        IsLeaf;
      StartRemoving(key);
      var slot, parentSlot, node, p, last := AtRoot, Nowhere, root, 0, false;
      while node.plen != KEY_BITS
        invariant nodes == old(nodes) && node in nodes && node.view.Node? && view == Remove(old(view), 0, key)
        invariant slot != Nowhere && (slot.At? ==> slot.owner in old(nodes))
        invariant !last ==> Removing(slot, node, p, key) && (parentSlot == Nowhere ==> slot == AtRoot)
        invariant !last && node.plen == KEY_BITS ==> parentSlot == Nowhere
        invariant last ==> slot.At? && parentSlot != Nowhere && RemovingLast(parentSlot, slot.owner, slot.bit) &&
                           node.plen == KEY_BITS
        invariant last ==> node == slot.owner.Next(slot.bit) && p <= node.plen &&
                           key in Keys(old(slot.owner.view)) && key in Keys(node.view)
        invariant forall x :: x in nodes && p <= x.plen ==> x.view == old(x.view)
        invariant forall x :: x in nodes && key !in Keys(old(x.view)) ==> x.view == old(x.view)
        decreases node.view, KEY_BITS - p
      {
        RemovingAt(slot, node, p, key);
        if p < node.plen {
          p := p + 1;
        } else {
          last := RemoveXor(slot, node, p, key);
          parentSlot := slot;
          slot := At(node, key[p]);
          node := node.Next(key[p]);
          p := p + 1;
        }
      }
      if parentSlot == Nowhere {
        RemoveRoot(node, p, key);
      } else {
        Unlink(parentSlot, slot.owner, slot.bit);
      }
    }
  }
}
