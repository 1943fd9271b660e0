/** What remove_key of sync_keys.cpp does with a key that is not in the trie. */
module SyncRemoval {
  import opened SyncKey
  import opened SyncTrie
  import opened SyncSearch
  import opened SyncPeer
  import opened SyncReceive
  import opened SyncConfusion

  // The walk is stopped by an assertion, or frees the leaf that it ends at.
  datatype Removal = Stopped | Freed(left: Trie, victim: Key)

  // remove_key from a node on, p bits into the key, for a key that need not be there.
  function RemoveAny(t: Trie, min: int, p: int, key: Key): (r: Removal)
    requires WF(t, min) && 0 <= p <= t.msg.plen
    decreases t, KEY_BITS - p
  {
    if IsLeaf(t) then Freed(Nil, t.msg.key)
    else
      NodeParts(t, min);
      var bit := GetBit(key, p);
      if p < t.msg.plen then
        if GetBit(t.msg.key, p) != bit then Stopped else RemoveAny(t, min, p + 1, key)
      else
        match RemoveAny(Child(t, bit), p + 1, p + 1, key)
        case Stopped => Stopped
        case Freed(left, victim) =>
          Freed(if left.Nil? then WithMin(Child(t, !bit), min)
                else WithChild(t.(msg := XorMessage(key, t.msg)), bit, left), victim)
  }

  // A key that is there is removed.
  lemma {:induction false} RemovePresent(t: Trie, min: int, p: int, key: Key)
    requires WF(t, min) && 0 <= p <= t.msg.plen && key in Keys(t)
    ensures RemoveAny(t, min, p, key) == Freed(Remove(t, min, key), key)
    decreases t, KEY_BITS - p
  {
    hide WF, Leaves, Keys, XorInto, Removed;
    if IsLeaf(t) {
      LeafHolds(t, key);
    } else {
      NodeParts(t, min);
      PresentBelow(t, min, key);
      if p < t.msg.plen {
        SharedBit(t, min, p);
        RemovePresent(t, min, p + 1, key);
      } else {
        RemovePresent(Child(t, key[p]), p + 1, p + 1, key);
        RemoveCorrect(Child(t, key[p]), p + 1, key);
      }
    }
  }

  // The key has another bit than the prefix of a node that the walk comes by.
  predicate Bars(s: Trie, t: Trie, p: int, key: Key) {
    && OnWay(s, t, p, Full(key)) && IsInner(s)
    && exists i :: p <= i && 0 <= s.msg.min <= i < s.msg.plen && i < KEY_BITS && s.msg.key[i] != key[i]
  }

  lemma BarsNext(s: Trie, t: Trie, min: int, p: int, key: Key)
    requires WF(t, min) && !IsLeaf(t) && 0 <= min <= p <= t.msg.plen
    ensures p < t.msg.plen && t.msg.key[p] == key[p] ==> (Bars(s, t, p, key) <==> Bars(s, t, p + 1, key))
    ensures p == t.msg.plen ==> (Bars(s, t, p, key) <==> Bars(s, Child(t, key[p]), p + 1, key))
  {
    hide WF, Below;
    NodeParts(t, min);
    if s != t {
      WayDown(s, t, min, p, Full(key));
      WayBound(s, t, min, p);
      if p < t.msg.plen {
        WayDown(s, t, min, p + 1, Full(key));
      }
    } else if p == t.msg.plen {
      NotBelowChild(t, min, key[p]);
    }
  }

  lemma WayBound(s: Trie, t: Trie, min: int, p: int)
    requires WF(t, min) && !IsLeaf(t) && s != t
    ensures s.Node? && Below(s, t) ==> t.msg.plen < s.msg.min
    ensures s.Node? && Below(s, t.zero) ==> t.msg.plen < s.msg.min
    ensures s.Node? && Below(s, t.one) ==> t.msg.plen < s.msg.min
  {
    if s.Node? && Below(s, t) {
      BelowPrefix(s, t, min);
    }
  }

  // An assertion stops the walk exactly if the key parts from the prefix of a node on its way.
  lemma {:induction false} StoppedExactly(t: Trie, min: int, p: int, key: Key)
    requires WF(t, min) && 0 <= min <= p <= t.msg.plen
    ensures RemoveAny(t, min, p, key).Stopped? <==> exists s :: Bars(s, t, p, key)
    decreases t, KEY_BITS - p
  {
    hide Bars, Agree, Under, SameFrom, XorAll, Leaves;
    if IsLeaf(t) {
      NoBars(t, p, key);
    } else {
      NodeParts(t, min);
      if p < t.msg.plen && t.msg.key[p] != key[p] {
        BarsItself(t, min, p, key);
      } else {
        forall s
          ensures p < t.msg.plen && t.msg.key[p] == key[p] ==> (Bars(s, t, p, key) <==> Bars(s, t, p + 1, key))
          ensures p == t.msg.plen ==> (Bars(s, t, p, key) <==> Bars(s, Child(t, key[p]), p + 1, key))
        {
          BarsNext(s, t, min, p, key);
        }
        if p < t.msg.plen {
          StoppedExactly(t, min, p + 1, key);
          assert forall s {:trigger Bars(s, t, p + 1, key)} :: Bars(s, t, p + 1, key) ==> Bars(s, t, p, key);
        } else {
          var child := Child(t, key[p]);
          StoppedExactly(child, p + 1, p + 1, key);
          assert forall s {:trigger Bars(s, child, p + 1, key)} :: Bars(s, child, p + 1, key) ==> Bars(s, t, p, key);
        }
      }
    }
  }

  lemma NoBars(t: Trie, p: int, key: Key)
    requires IsLeaf(t)
    ensures forall s :: !Bars(s, t, p, key)
  {
  }

  lemma BarsItself(t: Trie, min: int, p: int, key: Key)
    requires WF(t, min) && !IsLeaf(t) && 0 <= min <= p < t.msg.plen && t.msg.key[p] != key[p]
    ensures Bars(t, t, p, key)
  {
  }

  // Otherwise a leaf goes.
  predicate Lost(t: Trie, left: Trie, victim: Key) {
    && victim in Keys(t) && (left.Nil? <==> IsLeaf(t))
    && Leaves(left) == Leaves(t) - {victim} && XorAll(left) == Xor(XorAll(t), victim)
  }

  lemma LeafLost(t: Trie)
    requires IsLeaf(t)
    ensures Lost(t, Nil, t.msg.key)
  {
    assert t.msg.key in Keys(t);
    assert Leaves(t) - {t.msg.key} == map[];
    assert Xor(t.msg.key, t.msg.key) == ZeroKey();
  }

  lemma LostBelow(t: Trie, min: int, key: Key, bit: bool, left: Trie, victim: Key)
    requires WF(t, min) && !IsLeaf(t) && Lost(Child(t, bit), left, victim) && 0 <= t.msg.plen < KEY_BITS
    ensures Child(t, !bit).Node?
    ensures Lost(t, if left.Nil? then WithMin(Child(t, !bit), min)
                    else WithChild(t.(msg := XorMessage(key, t.msg)), bit, left), victim)
  {
    hide Agree, Under, SameFrom, Xor, XorInto;
    NodeParts(t, min);
    HalvesDisjoint(t, min);
    RemoveHalf(Leaves(t.zero), Leaves(t.one), victim);
    XorRegroup(XorAll(t.zero), XorAll(t.one), victim);
    if left.Nil? {
      var leaf, rest := Child(t, bit), Child(t, !bit);
      LeafHolds(leaf, victim);
      WithMinKeeps(rest, t.msg.plen + 1, min);
      DropHalf(Leaves(leaf), Leaves(rest), victim);
      XorCancels(XorAll(t.zero), XorAll(t.one));
    }
  }

  lemma {:induction false} LeafGoes(t: Trie, min: int, p: int, key: Key)
    requires WF(t, min) && 0 <= min <= p <= t.msg.plen && RemoveAny(t, min, p, key).Freed?
    ensures var r := RemoveAny(t, min, p, key); Lost(t, r.left, r.victim)
    decreases t, KEY_BITS - p
  {
    hide Agree, Under, SameFrom, XorInto, XorAll, Leaves, Lost;
    if IsLeaf(t) {
      LeafLost(t);
    } else {
      NodeParts(t, min);
      if p < t.msg.plen {
        LeafGoes(t, min, p + 1, key);
      } else {
        var child := Child(t, key[p]);
        LeafGoes(child, p + 1, p + 1, key);
        var r := RemoveAny(child, p + 1, p + 1, key);
        LostBelow(t, min, key, key[p], r.left, r.victim);
      }
    }
  }

  lemma {:induction false} PrefixWalked(t: Trie, min: int, p: int, key: Key)
    requires WF(t, min) && !IsLeaf(t) && 0 <= p <= t.msg.plen && RemoveAny(t, min, p, key).Freed?
    ensures RemoveAny(t, min, p, key) == RemoveAny(t, min, t.msg.plen, key)
    ensures forall i :: p <= i < t.msg.plen && i < KEY_BITS ==> t.msg.key[i] == key[i]
    decreases KEY_BITS - p
  {
    hide WF, Leaves, XorAll, Under, SameFrom, Agree, XorMessage;
    NodeParts(t, min);
    if p < t.msg.plen {
      PrefixWalked(t, min, p + 1, key);
    }
  }

  lemma RootKept(t: Trie, key: Key)
    requires WF(t, 0) && RemoveAny(t, 0, 0, key).Freed?
    requires var left := RemoveAny(t, 0, 0, key).left; left.Node? && left.msg.plen == t.msg.plen
    ensures !IsLeaf(t) && RemoveAny(t, 0, 0, key).left.msg == XorMessage(key, t.msg) && 0 <= t.msg.plen < KEY_BITS
    ensures forall i :: 0 <= i < t.msg.plen ==> t.msg.key[i] == key[i]
  {
    if !IsLeaf(t) {
      PrefixWalked(t, 0, 0, key);
      NodePrefix(t, 0, !key[t.msg.plen]);
    }
  }

  lemma SummaryWrong(t: Trie, key: Key, left: Trie, victim: Key)
    requires WF(t, 0) && !IsLeaf(t) && 0 <= t.msg.plen < KEY_BITS && victim in Keys(t) && victim != key
    requires forall i :: 0 <= i < t.msg.plen ==> t.msg.key[i] == key[i]
    requires left.Node? && left.msg == XorMessage(key, t.msg) && XorAll(left) == Xor(XorAll(t), victim)
    ensures !WF(left, 0)
  {
    hide Leaves, XorAll;
    NodeParts(t, 0);
    HalvesDisjoint(t, 0);
    assert Agree(victim, t.msg.key, t.msg.plen);
    var i :| 0 <= i < KEY_BITS && key[i] != victim[i];
    assert left.msg.key[i] != XorAll(left)[i];
  }

  lemma {:induction false} PrefixShared(t: Trie, min: int, p: int, key: Key)
    requires WF(t, min) && !IsLeaf(t) && 0 <= p <= t.msg.plen
    requires forall i :: p <= i < t.msg.plen && i < KEY_BITS ==> t.msg.key[i] == key[i]
    ensures RemoveAny(t, min, p, key) == RemoveAny(t, min, t.msg.plen, key)
    decreases KEY_BITS - p
  {
    hide WF, Leaves, XorAll, Under, SameFrom, Agree, XorMessage;
    NodeParts(t, min);
    if p < t.msg.plen {
      PrefixShared(t, min, p + 1, key);
    }
  }

  // Removing a key that is not there from the root on, unless an assertion stops it, frees the leaf of
  // another key; and if the root stays, its summary is wrong afterwards.
  lemma OtherLeafGoes(t: Trie, key: Key)
    requires WF(t, 0) && key !in Keys(t) && RemoveAny(t, 0, 0, key).Freed?
    ensures var r := RemoveAny(t, 0, 0, key);
            && r.victim in Keys(t) && r.victim != key && Keys(r.left) == Keys(t) - {r.victim}
            && (r.left.Node? && r.left.msg.plen == t.msg.plen ==> !WF(r.left, 0))
  {
    hide WF, RemoveAny, XorAll, XorMessage;
    RootLength(t);
    var r := RemoveAny(t, 0, 0, key);
    LeafGoes(t, 0, 0, key);
    if r.left.Node? && r.left.msg.plen == t.msg.plen {
      RootKept(t, key);
      SummaryWrong(t, key, r.left, r.victim);
    }
  }
}
