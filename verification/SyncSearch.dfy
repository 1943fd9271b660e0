/** Looking for a summary in a trie: find_message and the two partial walks of sync_keys.cpp. */
module SyncSearch {
  import opened SyncKey
  import opened SyncTrie

  // `sub` is a node of `t`.
  predicate Below(sub: Trie, t: Trie)
    decreases t
  {
    sub == t || (t.Node? && !IsLeaf(t) && (Below(sub, t.zero) || Below(sub, t.one)))
  }

  lemma {:induction false} BelowIsWF(sub: Trie, t: Trie, min: int)
    requires WF(t, min) && sub.Node? && Below(sub, t)
    ensures WF(sub, sub.msg.min) && ValidMessage(sub.msg)
    ensures forall k :: k in Keys(sub) ==> k in Keys(t) && Leaves(sub)[k] == Leaves(t)[k]
    decreases t
  {
    hide Agree, SameFrom;
    if sub != t {
      NodeParts(t, min);
      HalvesDisjoint(t, min);
      if Below(sub, t.zero) {
        BelowIsWF(sub, t.zero, t.msg.plen + 1);
      } else {
        BelowIsWF(sub, t.one, t.msg.plen + 1);
      }
    }
  }

  lemma {:induction false} BelowTransitive(a: Trie, b: Trie, c: Trie)
    requires Below(a, b) && Below(b, c)
    ensures Below(a, c)
    decreases c
  {
    if b != c {
      if Below(b, c.zero) {
        BelowTransitive(a, b, c.zero);
      } else {
        BelowTransitive(a, b, c.one);
      }
    }
  }

  // find_message from a node on; the walk starts at the prefix length of the root.
  function Find(t: Trie, min: int, p: int, m: Message): (r: Trie)
    requires WF(t, min) && 0 <= p <= t.msg.plen && ValidMessage(m)
    ensures r.Node? ==> Below(r, t)
    decreases t, KEY_BITS - p
  {
    if SameMessage(t.msg, m) then t
    else if IsLeaf(t) then Nil
    else if p < t.msg.plen then
      if t.msg.key[p] != m.key[p] then Nil else Find(t, min, p + 1, m)
    else
      Find(Child(t, m.key[p]), t.msg.plen + 1, p + 1, m)
  }

  function FindMessage(t: Trie, m: Message): (r: Trie)
    requires WFRoot(t) && ValidMessage(m)
    ensures r.Node? ==> Below(r, t)
  {
    if t.Nil? then Nil else Find(t, 0, t.msg.plen, m)
  }

  lemma {:induction false} FindMatches(t: Trie, min: int, p: int, m: Message)
    requires WF(t, min) && 0 <= p <= t.msg.plen && ValidMessage(m)
    requires Find(t, min, p, m).Node?
    ensures ValidMessage(Find(t, min, p, m).msg) && SameMessage(Find(t, min, p, m).msg, m)
    decreases t, KEY_BITS - p
  {
    hide Agree, SameFrom, SameMessage, Under;
    if !SameMessage(t.msg, m) && !IsLeaf(t) {
      if p < t.msg.plen {
        FindMatches(t, min, p + 1, m);
      } else {
        FindMatches(Child(t, m.key[p]), t.msg.plen + 1, p + 1, m);
      }
    }
  }

  lemma LeafFound(t: Trie, min: int, m: Message)
    requires WF(t, min) && IsLeaf(t) && ValidMessage(m) && m.key in Keys(t)
    ensures ValidMessage(t.msg) && SameMessage(t.msg, m)
  {
  }

  lemma PresentBelow(t: Trie, min: int, key: Key)
    requires WF(t, min) && !IsLeaf(t) && key in Keys(t)
    ensures t.Node? && ValidMessage(t.msg) && t.msg.plen < KEY_BITS - 1
    ensures WF(Child(t, key[t.msg.plen]), t.msg.plen + 1) && key in Keys(Child(t, key[t.msg.plen]))
    ensures Child(t, key[t.msg.plen]).Node? && t.msg.plen < Child(t, key[t.msg.plen]).msg.plen
  {
  }

  // A key that is there is never missed.
  lemma {:induction false} FindPresent(t: Trie, min: int, p: int, m: Message)
    requires WF(t, min) && 0 <= p <= t.msg.plen && ValidMessage(m)
    requires m.key in Keys(t)
    ensures Find(t, min, p, m).Node?
    decreases t, KEY_BITS - p
  {
    hide WF, Leaves, SameMessage, ValidMessage, Keys;
    if IsLeaf(t) {
      LeafFound(t, min, m);
    } else {
      PresentBelow(t, min, m.key);
      if SameMessage(t.msg, m) {
      } else if p < t.msg.plen {
        SharedBit(t, min, p);
        FindPresent(t, min, p + 1, m);
      } else {
        FindPresent(Child(t, m.key[p]), t.msg.plen + 1, p + 1, m);
      }
    }
  }

  lemma KeyFound(t: Trie, m: Message)
    requires WFRoot(t) && ValidMessage(m)
    ensures m.key in Keys(t) ==> FindMessage(t, m).Node?
  {
    if m.key in Keys(t) {
      FindPresent(t, 0, t.msg.plen, m);
    }
  }

  // What a search for a full key means: present keys are found; a leaf that is found is the key; an
  // absent key is found only as an internal node whose summary compares equal to it.
  lemma SearchForKey(t: Trie, m: Message)
    requires WFRoot(t) && ValidMessage(m) && m.plen == KEY_BITS
    ensures m.key in Keys(t) ==> FindMessage(t, m).Node?
    ensures var r := FindMessage(t, m);
            r.Node? ==>
              && WF(r, r.msg.min) && SameMessage(r.msg, m)
              && (IsLeaf(r) ==> m.key in Keys(t) && r.msg.key == m.key && Leaves(t)[m.key] == r.msg.stored)
              && (m.key !in Keys(t) ==> !IsLeaf(r))
              && (!IsLeaf(r) && m.min == 0 ==> r.msg.key == m.key)
  {
    if t.Node? {
      if m.key in Keys(t) {
        FindPresent(t, 0, t.msg.plen, m);
      }
      var r := FindMessage(t, m);
      if r.Node? {
        FindMatches(t, 0, t.msg.plen, m);
        BelowIsWF(r, t, 0);
        if IsLeaf(r) {
          SameFullKeys(r.msg, m);
          assert r.msg.key in Keys(r);
        }
      }
    }
  }

  // ---- Summaries that compare equal to a message ------------------------------------------------

  // An inner node, whose message is the summary of several keys.
  predicate IsInner(t: Trie) {
    t.Node? && !IsLeaf(t)
  }

  // `s` is a node below `t` that a walk for `m` from bit p on comes by.
  predicate OnWay(s: Trie, t: Trie, p: int, m: Message) {
    Below(s, t) && s.Node? && forall i :: 0 <= p <= i < s.msg.min && i < KEY_BITS ==> s.msg.key[i] == m.key[i]
  }

  // A summary on the way compares equal to the message.
  predicate Matches(s: Trie, t: Trie, p: int, m: Message)
    requires ValidMessage(m)
  {
    OnWay(s, t, p, m) && IsInner(s) && ValidMessage(s.msg) && SameMessage(s.msg, m)
  }

  ghost predicate CollidesFrom(t: Trie, p: int, m: Message)
    requires ValidMessage(m)
  {
    exists s :: Matches(s, t, p, m)
  }

  // Some summary that a search for the message comes by compares equal to it.
  ghost predicate Collides(t: Trie, m: Message)
    requires ValidMessage(m)
  {
    t.Node? && CollidesFrom(t, t.msg.plen, m)
  }

  lemma {:induction false} BelowPrefix(s: Trie, t: Trie, min: int)
    requires WF(t, min) && s.Node? && Below(s, t)
    ensures Agree(s.msg.key, t.msg.key, t.msg.plen) && min <= s.msg.min <= s.msg.plen <= KEY_BITS
    ensures t.msg.plen <= s.msg.plen && (s.msg.plen == t.msg.plen ==> s == t)
    ensures s != t ==>
              && !IsLeaf(t) && t.msg.plen < s.msg.min
              && (Below(s, t.zero) ==> !s.msg.key[t.msg.plen]) && (Below(s, t.one) ==> s.msg.key[t.msg.plen])
    decreases t
  {
    if s != t {
      NodeParts(t, min);
      NodePrefix(t, min, false);
      NodePrefix(t, min, true);
      if Below(s, t.zero) {
        BelowPrefix(s, t.zero, t.msg.plen + 1);
      }
      if Below(s, t.one) {
        BelowPrefix(s, t.one, t.msg.plen + 1);
      }
    }
  }

  lemma NodePrefix(t: Trie, min: int, bit: bool)
    requires WF(t, min) && !IsLeaf(t)
    ensures var c := Child(t, bit);
            c.Node? && t.msg.plen < c.msg.plen && Agree(c.msg.key, t.msg.key, t.msg.plen) &&
                c.msg.key[t.msg.plen] == bit
  {
    NodeParts(t, min);
    var c := Child(t, bit);
    KeysNonEmpty(c, t.msg.plen + 1);
    KeysAgreeWithNode(c, t.msg.plen + 1, t.msg.plen + 1);
    var k :| k in Keys(c);
    assert Agree(k, c.msg.key, t.msg.plen + 1) && Agree(k, t.msg.key, t.msg.plen) && k[t.msg.plen] == bit;
  }

  // One step of the walk: past the node itself, what is on the way lies below the child for the
  // message's next bit.
  lemma WayDown(s: Trie, t: Trie, min: int, p: int, m: Message)
    requires WF(t, min) && !IsLeaf(t) && 0 <= p <= t.msg.plen && s != t
    ensures OnWay(s, t, p, m) <==>
            && (forall i :: p <= i < t.msg.plen ==> t.msg.key[i] == m.key[i])
            && OnWay(s, Child(t, m.key[t.msg.plen]), t.msg.plen + 1, m)
  {
    if s.Node? && Below(s, t) {
      BelowPrefix(s, t, min);
    }
  }

  lemma MatchesNext(s: Trie, t: Trie, min: int, p: int, m: Message)
    requires WF(t, min) && IsInner(t) && 0 <= p <= t.msg.plen && ValidMessage(m) && ValidMessage(t.msg) &&
             !SameMessage(t.msg, m)
    ensures p < t.msg.plen ==> (Matches(s, t, p, m) <==> t.msg.key[p] == m.key[p] && Matches(s, t, p + 1, m))
    ensures p == t.msg.plen ==> (Matches(s, t, p, m) <==> Matches(s, Child(t, m.key[p]), p + 1, m))
  {
    hide SameMessage, WF, Below, ValidMessage;
    NodeParts(t, min);
    if s != t {
      WayDown(s, t, min, p, m);
      if p < t.msg.plen {
        WayDown(s, t, min, p + 1, m);
      }
    } else if p == t.msg.plen {
      NotBelowChild(t, min, m.key[p]);
    }
  }

  lemma MatchesBelow(s: Trie, t: Trie, min: int, p: int, m: Message)
    requires WF(t, min) && IsInner(t) && 0 <= p <= t.msg.plen && ValidMessage(m) && ValidMessage(t.msg) &&
             !SameMessage(t.msg, m)
    ensures Matches(s, t, p, m) <==>
            && (forall i :: p <= i < t.msg.plen ==> t.msg.key[i] == m.key[i])
            && Matches(s, Child(t, m.key[t.msg.plen]), t.msg.plen + 1, m)
  {
    hide SameMessage, WF, Below, ValidMessage;
    NodeParts(t, min);
    if s != t {
      WayDown(s, t, min, p, m);
    } else {
      NotBelowChild(t, min, m.key[t.msg.plen]);
    }
  }

  lemma NotBelowChild(t: Trie, min: int, bit: bool)
    requires WF(t, min) && !IsLeaf(t)
    ensures !Below(t, Child(t, bit))
  {
    if Below(t, Child(t, bit)) {
      BelowPrefix(t, Child(t, bit), t.msg.plen + 1);
    }
  }

  // The search finds the first summary on its way that compares equal.
  lemma {:induction false} FindFirst(t: Trie, min: int, p: int, m: Message)
    requires WF(t, min) && 0 <= min <= p <= t.msg.plen && ValidMessage(m)
    ensures var r := Find(t, min, p, m);
            && (IsInner(r) <==> CollidesFrom(t, p, m))
            && (IsInner(r) ==> Matches(r, t, p, m) && forall s :: Matches(s, t, p, m) ==> r.msg.plen <= s.msg.plen)
    decreases t, KEY_BITS - p
  {
    hide Matches, SameMessage, Agree, SameFrom, Leaves, XorAll;
    if IsLeaf(t) || SameMessage(t.msg, m) {
      MatchesHere(t, min, p, m);
    } else {
      forall s
        ensures p < t.msg.plen ==> (Matches(s, t, p, m) <==> t.msg.key[p] == m.key[p] && Matches(s, t, p + 1, m))
        ensures p == t.msg.plen ==> (Matches(s, t, p, m) <==> Matches(s, Child(t, m.key[p]), p + 1, m))
      {
        MatchesNext(s, t, min, p, m);
      }
      if p == t.msg.plen {
        FindFirst(Child(t, m.key[p]), p + 1, p + 1, m);
        MatchesNext(Find(t, min, p, m), t, min, p, m);
      } else if t.msg.key[p] == m.key[p] {
        FindFirst(t, min, p + 1, m);
        MatchesNext(Find(t, min, p, m), t, min, p, m);
      }
    }
  }

  lemma MatchesHere(t: Trie, min: int, p: int, m: Message)
    requires WF(t, min) && 0 <= min <= p <= t.msg.plen && ValidMessage(m) && ValidMessage(t.msg)
    ensures IsLeaf(t) ==> forall s :: !Matches(s, t, p, m)
    ensures !IsLeaf(t) && SameMessage(t.msg, m) ==>
              Matches(t, t, p, m) && forall s :: Matches(s, t, p, m) ==> t.msg.plen <= s.msg.plen
  {
    hide SameMessage;
    forall s | Matches(s, t, p, m)
      ensures t.msg.plen <= s.msg.plen && !IsLeaf(t)
    {
      BelowPrefix(s, t, min);
    }
  }

  // A search is misled exactly by a collision, and otherwise exact.
  lemma FindExact(t: Trie, m: Message)
    requires WFRoot(t) && ValidMessage(m) && m.plen == KEY_BITS
    ensures IsInner(FindMessage(t, m)) <==> Collides(t, m)
    ensures !Collides(t, m) ==> (FindMessage(t, m).Node? <==> m.key in Keys(t))
  {
    SearchForKey(t, m);
    if t.Node? {
      FindFirst(t, 0, t.msg.plen, m);
    }
  }

  // ---- Messages about the same leaves compare equal -------------------------------------------

  // `m` summarises the leaves of `t`, whatever prefix length no longer than what they share it uses.
  predicate Summarises(m: Message, t: Trie) {
    && ValidMessage(m)
    && (m.plen == KEY_BITS ==> Keys(t) == {m.key})
    && (forall k :: k in Keys(t) ==> Agree(k, m.key, m.plen))
    && SameFrom(m.key, XorAll(t), m.plen)
  }

  lemma OneLeafXor(t: Trie, min: int, k: Key)
    requires WF(t, min) && Keys(t) == {k}
    ensures XorAll(t) == k
  {
    if IsLeaf(t) {
      LeafHolds(t, k);
    } else {
      var a, b := TwoKeys(t, min);
    }
  }

  lemma EqualKeysSameMessage(a: Message, b: Message)
    requires ValidMessage(a) && ValidMessage(b) && a.key == b.key
    ensures SameMessage(a, b)
  {
  }

  // Between the shorter prefix and where both keys are xor-ed they need not agree.
  lemma PrefixAndRestSameMessage(a: Message, b: Message)
    requires ValidMessage(a) && ValidMessage(b)
    requires Agree(a.key, b.key, Min(a.plen, b.plen)) && SameFrom(a.key, b.key, Max(XorBegin(a), XorBegin(b)))
    ensures SameMessage(a, b)
  {
  }

  lemma KeyIsOnlyLeaf(m: Message, t: Trie, k: Key)
    requires Summarises(m, t) && Keys(t) == {k} && XorAll(t) == k
    ensures m.key == k
  {
  }

  lemma SameLeavesSameMessage(t: Trie, min: int, a: Message, b: Message)
    requires WF(t, min) && Summarises(a, t) && Summarises(b, t)
    ensures SameMessage(a, b)
  {
    KeysNonEmpty(t, min);
    var k :| k in Keys(t);
    if a.plen == KEY_BITS || b.plen == KEY_BITS {
      OneLeafXor(t, min, k);
      KeyIsOnlyLeaf(a, t, k);
      KeyIsOnlyLeaf(b, t, k);
      EqualKeysSameMessage(a, b);
    } else {
      assert Agree(k, a.key, a.plen) && Agree(k, b.key, b.plen);
      hide SameMessage, WF;
      PrefixAndRestSameMessage(a, b);
    }
  }

  // The message of every node summarises its leaves.
  lemma NodeSummarises(t: Trie, min: int)
    requires WF(t, min)
    ensures Summarises(t.msg, t)
  {
  }
}
