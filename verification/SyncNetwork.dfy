/** Replicas that add keys and exchange messages over a network that may drop, repeat and reorder
    them: what holds in every reachable state. */
module SyncNetwork {
  import opened SyncKey
  import opened SyncTrie
  import opened SyncSearch
  import opened SyncPeer
  import opened SyncReceive
  import opened SyncSafety
  import opened SyncConfusion

  // peers[j] is what this replica records about replica j.
  datatype Replica = Replica(own: Trie, peers: seq<Peer>)

  datatype Packet = Packet(src: nat, dst: nat, msg: Message)

  // Packets are never taken out of `net`: each may be delivered at any time, any number of times or
  // not at all.  `confused` is set once a summary has been taken for a key.
  datatype Config = Config(replicas: seq<Replica>, net: set<Packet>, confused: bool)

  datatype Step = AddKey(at: nat, key: Key) | SendRoot(at: nat, to: nat) | Deliver(packet: Packet)

  predicate AllStored(t: Trie) {
    t.Nil? || (t.msg.stored && (IsLeaf(t) || (AllStored(t.zero) && AllStored(t.one))))
  }

  lemma {:induction false} AllStoredMessages(t: Trie, q: Message)
    requires AllStored(t) && q in Messages(t)
    ensures q.stored
    decreases t
  {
    if !IsLeaf(t) && q != t.msg {
      if q in Messages(t.zero) {
        AllStoredMessages(t.zero, q);
      } else {
        AllStoredMessages(t.one, q);
      }
    }
  }

  // ---- sync_add_key -----------------------------------------------------------------------------

  // A key that we now have is no longer one that the peer has and we lack.  What is found need not be
  // its leaf; what is removed is the key, if it is there.
  function Dropped(p: Peer, key: Key, ghost u: set<Key>): (r: (Peer, bool))
    requires Ready(p, u) && key in u
    ensures Ready(r.0, u)
  {
    KeyFound(p.root, Full(key));
    if FindMessage(p.root, Full(key)).Nil? then (p, false)
    else if key in Keys(p.root) then
      RemoveCorrect(p.root, 0, key);
      (Peer(Remove(p.root, 0, key), p.sendCount, p.recvCount - 1), false)
    else (p, true)
  }

  lemma DroppedOK(own: set<Key>, p: Peer, key: Key, u: set<Key>)
    requires PeerOK(own, p, u) && key in u && key !in own && !Dropped(p, key, u).1
    ensures PeerOK(own + {key}, Dropped(p, key, u).0, u)
    ensures Marked(Leaves(Dropped(p, key, u).0.root), false) <= Marked(Leaves(p.root), false)
  {
    KeyFound(p.root, Full(key));
    if key in Keys(p.root) {
      assert Leaves(p.root)[key] == false by {
        assert Leaves(p.root)[key] ==> key in Marked(Leaves(p.root), true);
      }
      WithoutKeyOK(own, p, key, u);
      MarkedRemove(Leaves(p.root), key);
    }
  }

  function DropAll(peers: seq<Peer>, key: Key, ghost u: set<Key>): (r: (seq<Peer>, bool))
    requires key in u && forall i :: 0 <= i < |peers| ==> Ready(peers[i], u)
    ensures |r.0| == |peers|
    decreases |peers|
  {
    if peers == [] then ([], false)
    else
      var n := |peers| - 1;
      var (p, confused) := Dropped(peers[n], key, u);
      var (rest, others) := DropAll(peers[..n], key, u);
      (rest + [p], confused || others)
  }

  // Each record loses the key on its own.
  lemma {:induction false} DropAllAt(peers: seq<Peer>, key: Key, u: set<Key>)
    requires key in u && forall i :: 0 <= i < |peers| ==> Ready(peers[i], u)
    ensures forall i :: 0 <= i < |peers| ==> DropAll(peers, key, u).0[i] == Dropped(peers[i], key, u).0
    ensures DropAll(peers, key, u).1 <==> exists i :: 0 <= i < |peers| && Dropped(peers[i], key, u).1
    decreases |peers|
  {
    hide Dropped, Ready;
    if peers != [] {
      var n := |peers| - 1;
      DropAllAt(peers[..n], key, u);
      assert forall i :: 0 <= i < n ==> peers[..n][i] == peers[i];
      if Dropped(peers[n], key, u).1 {
        assert 0 <= n < |peers| && Dropped(peers[n], key, u).1;
      }
    }
  }

  // A record loses exactly this key, unless it does not have it and one of its summaries stands for it.
  lemma DroppedConfused(p: Peer, key: Key, u: set<Key>)
    requires Ready(p, u) && key in u
    ensures Dropped(p, key, u).1 <==> StandsFor(p, key)
    ensures !Dropped(p, key, u).1 ==> Keys(Dropped(p, key, u).0.root) == Keys(p.root) - {key}
  {
    hide WF, Universe, Collides, Find;
    SearchForKey(p.root, Full(key));
    FindExact(p.root, Full(key));
    if key in Keys(p.root) {
      RemoveCorrect(p.root, 0, key);
    }
  }

  predicate OwnOK(own: Trie, u: set<Key>) {
    Universe(u) && WFRoot(own) && Keys(own) <= u && AllStored(own)
  }

  predicate PeersReady(peers: seq<Peer>, u: set<Key>) {
    forall i :: 0 <= i < |peers| ==> Ready(peers[i], u)
  }

  function WithOwnKey(own: Trie, key: Key, ghost u: set<Key>): (r: Trie)
    requires OwnOK(own, u) && key in u && key !in Keys(own)
    ensures WFRoot(r) && Keys(r) == Keys(own) + {key}
  {
    Addable(Peer(own, 0, 0), key, u);
    AddCorrect(own, 0, 0, key, true);
    Add(own, 0, 0, key, true)
  }

  // A key whose search succeeds is taken to be there already: only its mark is set, which it has.
  function AddOwnKey(r: Replica, key: Key, ghost u: set<Key>): (s: (Replica, bool))
    requires OwnOK(r.own, u) && PeersReady(r.peers, u) && key in u
  {
    SearchForKey(r.own, Full(key));
    if FindMessage(r.own, Full(key)).Node? then (r, false)
    else
      var (peers, confused) := DropAll(r.peers, key, u);
      (Replica(WithOwnKey(r.own, key, u), peers), confused)
  }

  // A summary of the record, which does not have the key, stands for it.
  ghost predicate StandsFor(p: Peer, key: Key) {
    key !in Keys(p.root) && Collides(p.root, Full(key))
  }

  // A key is added exactly if it is not there and no summary of ours stands for it.
  lemma AddOwnKeyExact(r: Replica, key: Key, u: set<Key>)
    requires OwnOK(r.own, u) && PeersReady(r.peers, u) && key in u
    ensures Keys(AddOwnKey(r, key, u).0.own) == if Collides(r.own, Full(key)) then Keys(r.own) else Keys(r.own) + {key}
    ensures AddOwnKey(r, key, u).1 <==>
            && key !in Keys(r.own) && !Collides(r.own, Full(key))
            && exists i :: 0 <= i < |r.peers| && StandsFor(r.peers[i], key)
  {
    hide WF, Universe, Collides, Find, WFRoot, Dropped;
    SearchForKey(r.own, Full(key));
    FindExact(r.own, Full(key));
    DropAllAt(r.peers, key, u);
    forall i | 0 <= i < |r.peers|
      ensures Dropped(r.peers[i], key, u).1 <==> StandsFor(r.peers[i], key)
    {
      DroppedConfused(r.peers[i], key, u);
    }
  }

  lemma {:induction false} AddKeepsStored(t: Trie, p: int, min: int, key: Key)
    requires CanAdd(t, p, min, key) && AllStored(t)
    ensures AllStored(Add(t, p, min, key, true))
    decreases t, KEY_BITS - p
  {
    hide Split, XorMessage;
    if t.Node? {
      CanAddStep(t, p, min, key);
      if t.msg.plen == p {
        AddKeepsStored(Child(t, key[p]), p + 1, p + 1, key);
      } else if key[p] == t.msg.key[p] {
        AddKeepsStored(t, p + 1, min, key);
      } else {
        SplitStored(t, p, min, key);
      }
    }
  }

  lemma SplitStored(t: Trie, p: int, min: int, key: Key)
    requires t.Node? && 0 <= p < KEY_BITS - 1 && key[p] != t.msg.key[p] && AllStored(t)
    ensures AllStored(Split(t, p, min, key, true))
  {
  }

  // ---- The invariant ----------------------------------------------------------------------------

  predicate ReplicaOK(r: Replica, n: nat, u: set<Key>) {
    && OwnOK(r.own, u) && |r.peers| == n
    && forall j :: 0 <= j < n ==> PeerOK(Keys(r.own), r.peers[j], u)
  }

  predicate Holds(c: Config, j: nat, ks: set<Key>) {
    j < |c.replicas| && ks <= Keys(c.replicas[j].own)
  }

  // A full key that a message carries is held by its sender, or, if it is an echo, by its receiver.
  predicate PacketOK(c: Config, q: Packet, u: set<Key>) {
    && q.src < |c.replicas| && q.dst < |c.replicas|
    && q.msg.min <= q.msg.plen && Acceptable(q.msg, u)
    && (q.msg.plen == KEY_BITS ==>
          LeafOf(q.msg, u) && Holds(c, if q.msg.stored then q.src else q.dst, {q.msg.key}))
    && (q.msg.plen != KEY_BITS ==> q.msg.stored)
  }

  predicate Inv(c: Config, u: set<Key>) {
    && (forall i :: 0 <= i < |c.replicas| ==> ReplicaOK(c.replicas[i], |c.replicas|, u))
    && (forall i, j :: 0 <= i < |c.replicas| && 0 <= j < |c.replicas| ==>
          Holds(c, j, Marked(Leaves(c.replicas[i].peers[j].root), false)))
    && (forall q :: q in c.net ==> PacketOK(c, q, u))
  }

  predicate Enabled(c: Config, s: Step, u: set<Key>) {
    match s
    case AddKey(at, key) => at < |c.replicas| && key in u
    case SendRoot(at, to) => at < |c.replicas| && to < |c.replicas|
    case Deliver(q) => q in c.net
  }

  function Queued(events: seq<Event>, src: nat, dst: nat): set<Packet> {
    set e | e in events && e.Queue? :: Packet(src, dst, e.msg)
  }

  function Received(c: Config, q: Packet, ghost u: set<Key>): (o: Outcome)
    requires Inv(c, u) && q in c.net
    ensures Ready(o.peer, u)
  {
    assert PacketOK(c, q, u);
    var r := c.replicas[q.dst];
    assert ReplicaOK(r, |c.replicas|, u);
    RecvKey(r.own, r.peers[q.src], q.msg, u).0
  }

  function Next(c: Config, s: Step, ghost u: set<Key>): (r: Config)
    requires Inv(c, u) && Enabled(c, s, u)
  {
    match s
    case AddKey(at, key) =>
      assert ReplicaOK(c.replicas[at], |c.replicas|, u);
      var (r, confused) := AddOwnKey(c.replicas[at], key, u);
      c.(replicas := c.replicas[at := r], confused := c.confused || confused)
    case SendRoot(at, to) =>
      c.(net := c.net + {Packet(at, to, RootMessage(c.replicas[at].own))})
    case Deliver(q) =>
      var o := Received(c, q, u);
      assert PacketOK(c, q, u);
      var r := c.replicas[q.dst];
      assert ReplicaOK(r, |c.replicas|, u);
      c.(replicas := c.replicas[q.dst := r.(peers := r.peers[q.src := o.peer])],
         net := c.net + Queued(o.events, q.dst, q.src), confused := c.confused || o.confused)
  }

  // ---- Every step keeps the invariant -----------------------------------------------------------

  // No replica forgets a key.
  predicate Grows(c: Config, d: Config) {
    && |c.replicas| == |d.replicas|
    && forall i :: 0 <= i < |c.replicas| ==> Keys(c.replicas[i].own) <= Keys(d.replicas[i].own)
  }

  lemma HoldsGrows(c: Config, d: Config, j: nat, small: set<Key>, large: set<Key>)
    requires Grows(c, d) && Holds(c, j, large) && small <= large
    ensures Holds(d, j, small)
  {
  }

  lemma PacketGrows(c: Config, d: Config, q: Packet, u: set<Key>)
    requires Grows(c, d) && PacketOK(c, q, u)
    ensures PacketOK(d, q, u)
  {
  }

  lemma AddOwnKeyOK(r: Replica, n: nat, key: Key, u: set<Key>)
    requires ReplicaOK(r, n, u) && key in u && !AddOwnKey(r, key, u).1
    ensures var s := AddOwnKey(r, key, u).0;
            && ReplicaOK(s, n, u) && Keys(r.own) <= Keys(s.own)
            && forall j :: 0 <= j < n ==>
                Marked(Leaves(s.peers[j].root), false) <= Marked(Leaves(r.peers[j].root), false)
  {
    SearchForKey(r.own, Full(key));
    if FindMessage(r.own, Full(key)).Nil? {
      var s := AddOwnKey(r, key, u).0;
      Addable(Peer(r.own, 0, 0), key, u);
      AddKeepsStored(r.own, 0, 0, key);
      DropAllAt(r.peers, key, u);
      forall j | 0 <= j < n
        ensures PeerOK(Keys(s.own), s.peers[j], u)
        ensures Marked(Leaves(s.peers[j].root), false) <= Marked(Leaves(r.peers[j].root), false)
      {
        assert s.peers[j] == Dropped(r.peers[j], key, u).0;
        hide PeerOK, Dropped, Marked, Leaves;
        DroppedOK(Keys(r.own), r.peers[j], key, u);
      }
    }
  }

  lemma AddKeyKeeps(c: Config, at: nat, key: Key, u: set<Key>)
    requires Inv(c, u) && at < |c.replicas| && key in u && !Next(c, AddKey(at, key), u).confused
    ensures Inv(Next(c, AddKey(at, key), u), u) && Grows(c, Next(c, AddKey(at, key), u))
  {
    var d := Next(c, AddKey(at, key), u);
    var n := |c.replicas|;
    assert ReplicaOK(c.replicas[at], n, u);
    AddOwnKeyOK(c.replicas[at], n, key, u);
    hide AddOwnKey, OwnOK, PeerOK, Marked, Leaves, LeafOf, Acceptable, PacketOK;
    forall i, j | 0 <= i < n && 0 <= j < n
      ensures Holds(d, j, Marked(Leaves(d.replicas[i].peers[j].root), false))
    {
      assert Holds(c, j, Marked(Leaves(c.replicas[i].peers[j].root), false));
      HoldsGrows(c, d, j, Marked(Leaves(d.replicas[i].peers[j].root), false),
            Marked(Leaves(c.replicas[i].peers[j].root), false));
    }
    forall q | q in d.net
      ensures PacketOK(d, q, u)
    {
      PacketGrows(c, d, q, u);
    }
  }

  // Messages that replicas send about their own nodes.
  lemma {:induction false} OwnMessage(t: Trie, min: int, q: Message, u: set<Key>)
    requires WF(t, min) && Keys(t) <= u && q in Messages(t)
    ensures Inspectable(q, u) && (q.plen == KEY_BITS ==> q.key in Keys(t))
    decreases t
  {
    if IsLeaf(t) {
      assert q.key in Keys(t);
    } else if q != t.msg {
      NodeParts(t, min);
      HalvesDisjoint(t, min);
      OwnMessage(if q in Messages(t.zero) then t.zero else t.one, t.msg.plen + 1, q, u);
    }
  }

  lemma OwnPacket(c: Config, src: nat, dst: nat, q: Message, u: set<Key>)
    requires src < |c.replicas| && dst < |c.replicas| && OwnOK(c.replicas[src].own, u)
    requires q in Messages(c.replicas[src].own)
    ensures PacketOK(c, Packet(src, dst, q), u)
  {
    var own := c.replicas[src].own;
    OwnMessage(own, 0, q, u);
    AllStoredMessages(own, q);
    if q.plen == KEY_BITS {
      LeavesOf(own, 0, q, u);
    }
  }

  lemma SendRootKeeps(c: Config, at: nat, to: nat, u: set<Key>)
    requires Inv(c, u) && at < |c.replicas| && to < |c.replicas|
    ensures Inv(Next(c, SendRoot(at, to), u), u) && Grows(c, Next(c, SendRoot(at, to), u))
  {
    var d, own := Next(c, SendRoot(at, to), u), c.replicas[at].own;
    assert ReplicaOK(c.replicas[at], |c.replicas|, u);
    if own.Node? {
      OwnPacket(d, at, to, own.msg, u);
    }
    hide ReplicaOK, LeafOf, Inspectable;
    forall q | q in d.net
      ensures PacketOK(d, q, u)
    {
      if q in c.net {
        PacketGrows(c, d, q, u);
      }
    }
  }

  // What a replica may say when it is told of a key: it has it itself, or it echoes the key.
  lemma QueuedPacket(c: Config, q: Packet, e: Event, u: set<Key>)
    requires PacketOK(c, q, u) && e.Queue? && OwnOK(c.replicas[q.dst].own, u)
    requires EventOK(c.replicas[q.dst].own, q.msg, e, u)
    ensures PacketOK(c, Packet(q.dst, q.src, e.msg), u)
  {
    if e.msg in Messages(c.replicas[q.dst].own) {
      OwnPacket(c, q.dst, q.src, e.msg, u);
    }
  }

  lemma ReceivedSafe(c: Config, q: Packet, u: set<Key>)
    requires Inv(c, u) && q in c.net
    ensures PacketOK(c, q, u) && OwnOK(c.replicas[q.dst].own, u) && q.src < |c.replicas[q.dst].peers|
    ensures Safe(c.replicas[q.dst].own, q.msg, c.replicas[q.dst].peers[q.src], Received(c, q, u), u)
  {
    assert PacketOK(c, q, u);
    var r := c.replicas[q.dst];
    assert ReplicaOK(r, |c.replicas|, u);
    RecvKeySafe(r.own, r.peers[q.src], q.msg, u);
  }

  lemma NewsHeld(before: map<Key, bool>, after: map<Key, bool>, m: Message, held: set<Key>)
    requires News(before, after, m) && Marked(before, false) <= held
    requires m.plen == KEY_BITS && m.stored ==> m.key in held
    ensures Marked(after, false) <= held
  {
  }

  // What is sent in reply is in order, too.
  lemma DeliveredPackets(c: Config, d: Config, q: Packet, u: set<Key>)
    requires Inv(c, u) && q in c.net && !Received(c, q, u).confused && Grows(c, d)
    requires d.net == c.net + Queued(Received(c, q, u).events, q.dst, q.src)
    ensures forall p :: p in d.net ==> PacketOK(d, p, u)
  {
    ReceivedSafe(c, q, u);
    hide OwnOK, PeerOK, Marked, Leaves, LeafOf, Acceptable, EventOK, Received, News;
    var o := Received(c, q, u);
    forall p | p in d.net
      ensures PacketOK(d, p, u)
    {
      if p !in c.net {
        var e :| e in o.events && e.Queue? && p == Packet(q.dst, q.src, e.msg);
        QueuedPacket(c, q, e, u);
      }
      PacketGrows(c, d, p, u);
    }
  }

  lemma DeliverKeeps(c: Config, q: Packet, u: set<Key>)
    requires Inv(c, u) && q in c.net && !Received(c, q, u).confused
    ensures Inv(Next(c, Deliver(q), u), u) && Grows(c, Next(c, Deliver(q), u))
  {
    var d, n := Next(c, Deliver(q), u), |c.replicas|;
    ReceivedSafe(c, q, u);
    var r, o := c.replicas[q.dst], Received(c, q, u);
    assert ReplicaOK(r, n, u);
    hide OwnOK, PeerOK, Marked, Leaves, LeafOf, Acceptable, EventOK, Received, News, PacketOK;
    assert ReplicaOK(d.replicas[q.dst], n, u);
    forall i, j | 0 <= i < n && 0 <= j < n
      ensures Holds(d, j, Marked(Leaves(d.replicas[i].peers[j].root), false))
    {
      assert Holds(c, j, Marked(Leaves(c.replicas[i].peers[j].root), false));
      if i == q.dst && j == q.src {
        KeyHeld(c, q, u);
        NewsHeld(Leaves(r.peers[j].root), Leaves(o.peer.root), q.msg, Keys(c.replicas[j].own));
      }
    }
    DeliveredPackets(c, d, q, u);
  }

  lemma KeyHeld(c: Config, q: Packet, u: set<Key>)
    requires PacketOK(c, q, u)
    ensures q.msg.plen == KEY_BITS && q.msg.stored ==> q.msg.key in Keys(c.replicas[q.src].own)
  {
  }

  lemma StepKeeps(c: Config, s: Step, u: set<Key>)
    requires Inv(c, u) && Enabled(c, s, u) && !Next(c, s, u).confused
    ensures Inv(Next(c, s, u), u) && Grows(c, Next(c, s, u))
  {
    match s
    case AddKey(at, key) => AddKeyKeeps(c, at, key, u);
    case SendRoot(at, to) => SendRootKeeps(c, at, to, u);
    case Deliver(q) => DeliverKeeps(c, q, u);
  }

  // ---- Runs -------------------------------------------------------------------------------------

  // Once a summary has been taken for a key nothing more is said about the run.
  predicate CanRun(c: Config, steps: seq<Step>, u: set<Key>)
    requires Inv(c, u)
    decreases |steps|
  {
    steps == [] ||
    (Enabled(c, steps[0], u) &&
     (Next(c, steps[0], u).confused || (StepKeeps(c, steps[0], u); CanRun(Next(c, steps[0], u), steps[1..], u))))
  }

  function Run(c: Config, steps: seq<Step>, ghost u: set<Key>): (r: Config)
    requires Inv(c, u) && CanRun(c, steps, u)
    decreases |steps|
  {
    if steps == [] then c
    else
      var d := Next(c, steps[0], u);
      if d.confused then d else
        StepKeeps(c, steps[0], u);
        Run(d, steps[1..], u)
  }

  // n replicas without keys that know nothing about each other.
  function Start(n: nat): Config {
    Config(seq(n, i => Replica(Nil, seq(n, j => Peer(Nil, 0, 0)))), {}, false)
  }

  lemma StartOK(n: nat, u: set<Key>)
    requires Universe(u)
    ensures Inv(Start(n), u)
  {
  }

  lemma {:induction false} RunKeeps(c: Config, steps: seq<Step>, u: set<Key>)
    requires Inv(c, u) && !c.confused && CanRun(c, steps, u)
    ensures !Run(c, steps, u).confused ==> Inv(Run(c, steps, u), u) && Grows(c, Run(c, steps, u))
    decreases |steps|
  {
    if steps != [] {
      var d := Next(c, steps[0], u);
      if !d.confused {
        StepKeeps(c, steps[0], u);
        hide Inv, Next;
        RunKeeps(d, steps[1..], u);
      }
    }
  }

  // What is recorded is the truth: a stored leaf is a key of ours, any other one a key that the peer
  // holds and we lack; and both are counted.
  predicate Truthful(r: Replica, peer: Peer, other: Replica) {
    && (forall k :: k in Keys(peer.root) && Leaves(peer.root)[k] ==> k in Keys(r.own))
    && (forall k :: k in Keys(peer.root) && !Leaves(peer.root)[k] ==> k in Keys(other.own) && k !in Keys(r.own))
    && peer.sendCount == |Marked(Leaves(peer.root), true)|
    && peer.recvCount == |Marked(Leaves(peer.root), false)|
  }

  lemma RecordsAreTrue(c: Config, i: nat, j: nat, u: set<Key>)
    requires Inv(c, u) && i < |c.replicas| && j < |c.replicas|
    ensures j < |c.replicas[i].peers| && Truthful(c.replicas[i], c.replicas[i].peers[j], c.replicas[j])
  {
  }

  // Unless a summary is taken for a key, a peer is only said to have a key that it holds and we lack;
  // only keys of ours are said to be missing or to have arrived.
  lemma CallbacksAreTrue(c: Config, q: Packet, k: Key, u: set<Key>)
    requires Inv(c, u) && q in c.net && !Received(c, q, u).confused
    ensures q.src < |c.replicas| && q.dst < |c.replicas|
    ensures Has(k) in Received(c, q, u).events ==>
              k in Keys(c.replicas[q.src].own) && k !in Keys(c.replicas[q.dst].own)
    ensures HasNot(k) in Received(c, q, u).events || NowHas(k) in Received(c, q, u).events ==>
              k in Keys(c.replicas[q.dst].own)
  {
    ReceivedSafe(c, q, u);
    var own, events := c.replicas[q.dst].own, Received(c, q, u).events;
    assert Has(k) in events ==> EventOK(own, q.msg, Has(k), u);
    assert HasNot(k) in events ==> EventOK(own, q.msg, HasNot(k), u);
    assert NowHas(k) in events ==> EventOK(own, q.msg, NowHas(k), u);
  }

  // ---- Confusion --------------------------------------------------------------------------------

  // The step takes a summary for a key: a new key for which a summary of some record stands, or a
  // message that confuses.
  ghost predicate Confuses(c: Config, s: Step, u: set<Key>)
    requires Inv(c, u) && Enabled(c, s, u)
  {
    match s
    case AddKey(at, key) =>
      var r := c.replicas[at];
      assert ReplicaOK(r, |c.replicas|, u);
      && key !in Keys(r.own) && !Collides(r.own, Full(key))
      && exists i :: 0 <= i < |r.peers| && StandsFor(r.peers[i], key)
    case SendRoot(at, to) => false
    case Deliver(q) =>
      assert PacketOK(c, q, u);
      var r := c.replicas[q.dst];
      assert ReplicaOK(r, |c.replicas|, u);
      MessageConfuses(r.own, r.peers[q.src], q.msg, u)
  }

  lemma NextConfused(c: Config, s: Step, u: set<Key>)
    requires Inv(c, u) && Enabled(c, s, u)
    ensures Next(c, s, u).confused <==> c.confused || Confuses(c, s, u)
  {
    hide WF, WFRoot, Universe, Collides, MessageConfuses, RecvKey, AddOwnKey, Leaves;
    match s
    case AddKey(at, key) =>
      assert ReplicaOK(c.replicas[at], |c.replicas|, u);
      AddOwnKeyExact(c.replicas[at], key, u);
    case SendRoot(at, to) =>
    case Deliver(q) =>
      assert PacketOK(c, q, u);
      var r := c.replicas[q.dst];
      assert ReplicaOK(r, |c.replicas|, u);
      RecvKeyConfused(r.own, r.peers[q.src], q.msg, u);
  }

  // The steps before step i run, and step i confuses.
  ghost predicate ConfusesAt(c: Config, steps: seq<Step>, i: nat, u: set<Key>)
    requires Inv(c, u) && i < |steps|
  {
    && CanRun(c, steps[..i], u)
    && var d := Run(c, steps[..i], u);
       !d.confused && Inv(d, u) && Enabled(d, steps[i], u) && Confuses(d, steps[i], u)
  }

  lemma ConfusesLater(c: Config, steps: seq<Step>, i: nat, u: set<Key>)
    requires Inv(c, u) && 0 < i < |steps| && Enabled(c, steps[0], u)
    requires !Next(c, steps[0], u).confused
    ensures Inv(Next(c, steps[0], u), u)
    ensures ConfusesAt(c, steps, i, u) <==> ConfusesAt(Next(c, steps[0], u), steps[1..], i - 1, u)
  {
    hide Inv, Next, Confuses, Enabled;
    StepKeeps(c, steps[0], u);
    assert steps[..i][0] == steps[0] && steps[..i][1..] == steps[1..][..i - 1] && steps[1..][i - 1] == steps[i];
  }

  lemma ConfusesFirst(c: Config, steps: seq<Step>, u: set<Key>)
    requires Inv(c, u) && !c.confused && steps != [] && Enabled(c, steps[0], u)
    ensures ConfusesAt(c, steps, 0, u) <==> Confuses(c, steps[0], u)
  {
    hide Inv, Next, Confuses, Enabled;
    assert steps[..0] == [];
  }

  // A run ends confused exactly if some step of it confuses.
  lemma {:induction false} RunConfused(c: Config, steps: seq<Step>, u: set<Key>)
    requires Inv(c, u) && !c.confused && CanRun(c, steps, u)
    ensures Run(c, steps, u).confused <==> exists i :: 0 <= i < |steps| && ConfusesAt(c, steps, i, u)
    decreases |steps|
  {
    hide Inv, Next, Confuses, Enabled, ConfusesAt;
    if steps != [] {
      var d := Next(c, steps[0], u);
      NextConfused(c, steps[0], u);
      ConfusesFirst(c, steps, u);
      if d.confused {
        assert ConfusesAt(c, steps, 0, u);
      } else {
        StepKeeps(c, steps[0], u);
        RunConfused(d, steps[1..], u);
        forall i | 0 < i < |steps|
          ensures ConfusesAt(c, steps, i, u) <==> ConfusesAt(d, steps[1..], i - 1, u)
        {
          ConfusesLater(c, steps, i, u);
        }
        if Run(d, steps[1..], u).confused {
          var i :| 0 <= i < |steps| - 1 && ConfusesAt(d, steps[1..], i, u);
          assert ConfusesAt(c, steps, i + 1, u);
        }
      }
    }
  }

  // ---- Runs from the start ----------------------------------------------------------------------

  lemma PacketBounds(c: Config, q: Packet, u: set<Key>)
    requires Inv(c, u)
    ensures q in c.net ==> q.src < |c.replicas| && q.dst < |c.replicas|
  {
    assert q in c.net ==> PacketOK(c, q, u);
  }

  predicate CanReach(n: nat, steps: seq<Step>, u: set<Key>)
    requires Universe(u)
  {
    StartOK(n, u);
    CanRun(Start(n), steps, u)
  }

  function StateAfter(n: nat, steps: seq<Step>, ghost u: set<Key>): Config
    requires Universe(u) && CanReach(n, steps, u)
  {
    StartOK(n, u);
    Run(Start(n), steps, u)
  }

  ghost predicate RunConfuses(n: nat, steps: seq<Step>, u: set<Key>)
    requires Universe(u) && CanReach(n, steps, u)
  {
    StartOK(n, u);
    exists at :: 0 <= at < |steps| && ConfusesAt(Start(n), steps, at, u)
  }

  // Every run from the start is safe, unless one of its steps meets a summary that stands for a key.
  lemma EveryRunIsSafe(n: nat, steps: seq<Step>, u: set<Key>, i: nat, j: nat, q: Packet, k: Key)
    requires Universe(u) && i < n && j < n && CanReach(n, steps, u)
    ensures StateAfter(n, steps, u).confused <==> RunConfuses(n, steps, u)
    ensures var c := StateAfter(n, steps, u);
            !RunConfuses(n, steps, u) ==>
              && |c.replicas| == n && Inv(c, u)
              && j < |c.replicas[i].peers| && Truthful(c.replicas[i], c.replicas[i].peers[j], c.replicas[j])
              && (q in c.net ==> q.src < n && q.dst < n)
              && (q in c.net && !Received(c, q, u).confused && Has(k) in Received(c, q, u).events ==>
                    k in Keys(c.replicas[q.src].own) && k !in Keys(c.replicas[q.dst].own))
  {
    hide Inv, Run, CanRun, Received, Truthful, ConfusesAt;
    StartOK(n, u);
    var c := StateAfter(n, steps, u);
    RunConfused(Start(n), steps, u);
    RunKeeps(Start(n), steps, u);
    if !c.confused {
      RecordsAreTrue(c, i, j, u);
      PacketBounds(c, q, u);
      if q in c.net && !Received(c, q, u).confused {
        CallbacksAreTrue(c, q, k, u);
      }
    }
  }
}
