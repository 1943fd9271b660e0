/** The open-addressing hash table of expat/xmlparse.c: double hashing in a table whose size is a
    power of two, growing when it is half full, for any hash function. */
module HashTable {
  import opened Arith

  const INIT_POWER := 6

  type Name = seq<nat>

  // An entry; the table hands out pointers to it.
  class Named {
    const name: Name

    constructor (name: Name)
      ensures this.name == name
    {
      this.name := name;
    }
  }

  lemma PowerQuarter(power: nat)
    requires power >= INIT_POWER
    ensures Pow2(power) == 4 * Pow2(power - 2) && Pow2(power - 2) == 2 * Pow2(power - 3) && Pow2(power) >= 64
  {
    assert Pow2(power) == 2 * Pow2(power - 1) && Pow2(power - 1) == 2 * Pow2(power - 2);
    assert Pow2(power - 2) == 2 * Pow2(power - 3) && Pow2(power - 3) == 2 * Pow2(power - 4);
    assert Pow2(power - 4) == 2 * Pow2(power - 5) && Pow2(power - 5) == 2 * Pow2(power - 6);
  }

  lemma OddByte(x: nat)
    ensures (x / 2 * 2 + 1) % 256 % 2 == 1 && (x / 2 * 2 + 1) % 256 <= x + 1
  {
  }

  // PROBE_STEP: the hash bits above the mask, shifted so that the lowest of them has weight two,
  // masked to a quarter of the size, made odd, and cut to a byte.
  function Step(h: nat, power: nat): (r: nat)
    requires power >= INIT_POWER
    ensures r % 2 == 1 && r < 256 && r < Pow2(power)
  {
    PowerQuarter(power);
    var second := (h / Pow2(power) * 2) % Pow2(power - 2);
    OddByte(second);
    (second / 2 * 2 + 1) % 256
  }

  // The next slot: a step down, around the end of the table.
  function Down(i: nat, step: nat, size: nat): (r: nat)
    requires i < size && step < size
    ensures r < size
  {
    if i < step then i + size - step else i - step
  }

  // The slot looked at after k steps.
  function Probe(h: nat, power: nat, k: nat): (r: nat)
    requires power >= INIT_POWER
    ensures r < Pow2(power)
  {
    if k == 0 then h % Pow2(power) else Down(Probe(h, power, k - 1), Step(h, power), Pow2(power))
  }

  // ---- The probe sequence visits every slot -----------------------------------------------------

  lemma {:induction false} OddFactor(step: nat, power: nat, k: nat, c: int)
    requires step % 2 == 1 && k * step == c * Pow2(power)
    ensures k % Pow2(power) == 0
    decreases power
  {
    if power == 0 {
      assert Pow2(0) == 1;
    } else {
      var half := Pow2(power - 1);
      assert k * step == 2 * (c * half);
      EvenProduct(k, step, c * half);
      var j := k / 2;
      assert 2 * (j * step) == 2 * (c * half);
      OddFactor(step, power - 1, j, c);
      DoubleMultiple(j, half);
    }
  }

  lemma EvenProduct(k: nat, step: nat, c: int)
    requires step % 2 == 1 && k * step == 2 * c
    ensures k == 2 * (k / 2)
  {
    var t := step / 2;
    assert k * step == 2 * (k * t) + k;
  }

  lemma DoubleMultiple(j: nat, half: nat)
    requires half > 0 && j % half == 0
    ensures (2 * j) % (2 * half) == 0
  {
    var q := j / half;
    assert 2 * j == q * (2 * half);
    Multiple(q, 2 * half);
  }

  lemma Multiple(q: nat, n: nat)
    requires n > 0
    ensures q * n % n == 0
  {
    assert q * n == (q * n) / n * n + q * n % n;
    QuotientUnique(q * n, n, q, 0);
  }

  lemma {:induction false} ProbeOffset(h: nat, power: nat, k: nat) returns (c: int)
    requires power >= INIT_POWER
    ensures Probe(h, power, k) == h % Pow2(power) - k * Step(h, power) + c * Pow2(power)
    decreases k
  {
    if k == 0 {
      c := 0;
    } else {
      c := ProbeOffset(h, power, k - 1);
      assert k * Step(h, power) == (k - 1) * Step(h, power) + Step(h, power);
      if Probe(h, power, k - 1) < Step(h, power) {
        assert (c + 1) * Pow2(power) == c * Pow2(power) + Pow2(power);
        c := c + 1;
      }
    }
  }

  // Fewer than `size` steps never lead back to the same slot.
  lemma ProbesDiffer(h: nat, power: nat, a: nat, b: nat)
    requires power >= INIT_POWER && a < b < a + Pow2(power)
    ensures Probe(h, power, a) != Probe(h, power, b)
  {
    if Probe(h, power, a) == Probe(h, power, b) {
      var c := ProbeOffset(h, power, a);
      var d := ProbeOffset(h, power, b);
      Distribute(b, a, Step(h, power));
      Distribute(d, c, Pow2(power));
      OddFactor(Step(h, power), power, b - a, d - c);
      QuotientUnique(b - a, Pow2(power), 0, b - a);
    }
  }

  lemma Distribute(x: int, y: int, z: int)
    ensures (x - y) * z == x * z - y * z
  {
  }

  // ---- Slots ------------------------------------------------------------------------------------

  type Slots = seq<Named?>

  ghost function Filled(v: Slots): set<int> {
    set i | 0 <= i < |v| && v[i] != null
  }

  // The first k slots of a probe sequence are filled.
  ghost predicate Passed(v: Slots, h: nat, power: nat, k: nat)
    requires power >= INIT_POWER && |v| == Pow2(power)
  {
    forall j :: 0 <= j < k ==> v[Probe(h, power, j)] != null
  }

  function Visited(h: nat, power: nat, k: nat): (r: set<int>)
    requires power >= INIT_POWER
  {
    set j | 0 <= j < k :: Probe(h, power, j)
  }

  lemma {:induction false} VisitedCount(h: nat, power: nat, k: nat)
    requires power >= INIT_POWER && k <= Pow2(power)
    ensures |Visited(h, power, k)| == k
    decreases k
  {
    if k > 0 {
      var last := Probe(h, power, k - 1);
      VisitedCount(h, power, k - 1);
      forall j | 0 <= j < k - 1
        ensures Probe(h, power, j) != last
      {
        ProbesDiffer(h, power, j, k - 1);
      }
      assert Visited(h, power, k) == Visited(h, power, k - 1) + {last};
    }
  }

  // A probe sequence can pass only as many slots as are filled.
  lemma PassedBound(v: Slots, h: nat, power: nat, k: nat)
    requires power >= INIT_POWER && |v| == Pow2(power) && k <= |v| && Passed(v, h, power, k)
    ensures k <= |Filled(v)|
  {
    VisitedCount(h, power, k);
    Subset(Visited(h, power, k), Filled(v));
  }

  lemma Subset<T>(a: set<T>, b: set<T>)
    requires a <= b
    ensures |a| <= |b|
  {
    assert b == a + (b - a);
  }

  // The entry in slot i is found by probing for its name.
  ghost predicate OnPath(v: Slots, hash: Name -> nat, power: nat, i: int)
    requires power >= INIT_POWER && |v| == Pow2(power) && 0 <= i < |v| && v[i] != null
  {
    exists k :: 0 <= k && i == Probe(hash(v[i].name), power, k) && Passed(v, hash(v[i].name), power, k)
  }

  ghost predicate Paths(v: Slots, hash: Name -> nat, power: nat)
    requires power >= INIT_POWER && |v| == Pow2(power)
  {
    forall i :: 0 <= i < |v| && v[i] != null ==> OnPath(v, hash, power, i)
  }

  ghost predicate NamesDiffer(v: Slots) {
    forall i, j :: 0 <= i < j < |v| && v[i] != null && v[j] != null ==> v[i].name != v[j].name
  }

  ghost predicate SameEntries(v: Slots, entries: map<Name, Named>) {
    && (forall i :: 0 <= i < |v| && v[i] != null ==> v[i].name in entries && entries[v[i].name] == v[i])
    && (forall n :: n in entries ==> entries[n].name == n && entries[n] in v)
  }

  // The slots hold exactly the given entries, each once and where probing finds it.
  ghost predicate Holds(v: Slots, hash: Name -> nat, power: nat, entries: map<Name, Named>) {
    && power >= INIT_POWER && |v| == Pow2(power)
    && Paths(v, hash, power) && NamesDiffer(v) && SameEntries(v, entries) && |Filled(v)| == |entries|
  }

  // The first k slots of the probe sequence hold other names.
  ghost predicate Missed(v: Slots, h: nat, power: nat, k: nat, name: Name)
    requires power >= INIT_POWER && |v| == Pow2(power)
  {
    Passed(v, h, power, k) && forall j :: 0 <= j < k ==> v[Probe(h, power, j)].name != name
  }

  lemma NoneMissed(v: Slots, h: nat, power: nat, name: Name)
    requires power >= INIT_POWER && |v| == Pow2(power)
    ensures Missed(v, h, power, 0, name) && Probe(h, power, 0) == h % |v|
  {
  }

  lemma MissedMore(v: Slots, h: nat, power: nat, k: nat, name: Name)
    requires power >= INIT_POWER && |v| == Pow2(power) && Missed(v, h, power, k, name)
    requires v[Probe(h, power, k)] != null && v[Probe(h, power, k)].name != name
    ensures Missed(v, h, power, k + 1, name) && Passed(v, h, power, k + 1)
  {
  }

  lemma HoldsEntry(v: Slots, hash: Name -> nat, power: nat, entries: map<Name, Named>, i: nat)
    requires Holds(v, hash, power, entries) && i < |v| && v[i] != null
    ensures v[i].name in entries && entries[v[i].name] == v[i]
  {
  }

  // Where probing for a name stops, the name is not in the table.
  lemma StoppedAbsent(v: Slots, hash: Name -> nat, power: nat, entries: map<Name, Named>, name: Name, k: nat)
    requires Holds(v, hash, power, entries) && Missed(v, hash(name), power, k, name)
    requires v[Probe(hash(name), power, k)] == null
    ensures name !in entries && Passed(v, hash(name), power, k)
  {
  }

  lemma FilledAt(v: Slots, i: nat, e: Named)
    requires i < |v| && v[i] == null
    ensures Filled(v[i := e]) == Filled(v) + {i} && |Filled(v[i := e])| == |Filled(v)| + 1
  {
  }

  // Putting a new entry where probing for it stops.
  lemma PutHolds(v: Slots, hash: Name -> nat, power: nat, entries: map<Name, Named>, e: Named, k: nat)
    requires Holds(v, hash, power, entries) && e.name !in entries
    requires Passed(v, hash(e.name), power, k) && v[Probe(hash(e.name), power, k)] == null
    ensures Holds(v[Probe(hash(e.name), power, k) := e], hash, power, entries[e.name := e])
  {
    hide OnPath, Passed, Filled, Probe, Pow2;
    var at := Probe(hash(e.name), power, k);
    FilledAt(v, at, e);
    var w := v[at := e];
    forall i | 0 <= i < |v| && w[i] != null
      ensures OnPath(w, hash, power, i)
    {
      PathKept(v, hash, power, at, e, k, i);
    }
    PutEntry(v, at, e, entries);
  }

  lemma PutEntry(v: Slots, at: nat, e: Named, entries: map<Name, Named>)
    requires at < |v| && v[at] == null && NamesDiffer(v) && SameEntries(v, entries) && e.name !in entries
    ensures NamesDiffer(v[at := e]) && SameEntries(v[at := e], entries[e.name := e])
  {
    var w := v[at := e];
    assert w[at] == e;
    forall n | n in entries
      ensures entries[n] in w
    {
      var i :| 0 <= i < |v| && v[i] == entries[n];
      assert w[i] == entries[n];
    }
  }

  lemma PathKept(v: Slots, hash: Name -> nat, power: nat, at: nat, e: Named, k: nat, i: nat)
    requires power >= INIT_POWER && |v| == Pow2(power) && at < |v| && v[at] == null && i < |v|
    requires at == Probe(hash(e.name), power, k) && Passed(v, hash(e.name), power, k)
    requires i == at || (v[i] != null && OnPath(v, hash, power, i))
    ensures v[at := e][i] != null && OnPath(v[at := e], hash, power, i)
  {
    var w := v[at := e];
    if i == at {
      assert Passed(w, hash(e.name), power, k);
    } else {
      var j: nat :| i == Probe(hash(v[i].name), power, j) && Passed(v, hash(v[i].name), power, j);
      assert Passed(w, hash(w[i].name), power, j);
    }
  }

  lemma EmptyHolds(v: Slots, hash: Name -> nat, power: nat)
    requires power >= INIT_POWER && |v| == Pow2(power) && forall i :: 0 <= i < |v| ==> v[i] == null
    ensures Holds(v, hash, power, map[])
  {
  }

  // ---- The table --------------------------------------------------------------------------------

  // The probing loops of lookup that stop at the first free slot.
  method FreeSlot(v: array<Named?>, h: nat, power: nat) returns (i: nat, ghost k: nat)
    requires power >= INIT_POWER && v.Length == Pow2(power) && |Filled(v[..])| < v.Length
    ensures i == Probe(h, power, k) && Passed(v[..], h, power, k) && v[i] == null
  {
    var step := 0;
    i, k := h % v.Length, 0;
    while v[i] != null
      invariant i == Probe(h, power, k) && k < v.Length && Passed(v[..], h, power, k)
      invariant step == if k == 0 then 0 else Step(h, power)
      decreases v.Length - k
    {
      if step == 0 {
        step := Step(h, power);
      }
      i := Down(i, step, v.Length);
      k := k + 1;
      PassedBound(v[..], h, power, k);
    }
  }

  class HashTable {
    const hash: Name -> nat
    var v: array?<Named?>
    var power: nat
    var size: nat
    var used: nat
    ghost var entries: map<Name, Named>

    // At most half of the slots are filled.
    ghost predicate Valid()
      reads this, v
    {
      && used == |entries|
      && if size == 0 then entries == map[]
         else
           && v != null && v.Length == size && 2 * used <= size
           && Holds(v[..], hash, power, entries)
    }

    // hashTableInit
    constructor (hash: Name -> nat)
      ensures Valid() && entries == map[] && this.hash == hash && size == 0
    {
      this.hash := hash;
      v, power, size, used, entries := null, 0, 0, 0, map[];
    }

    // The part of lookup that moves all entries to a table of twice the size.
    method Grow()
      requires Valid() && size > 0
      modifies this`v, this`power, this`size
      ensures Valid() && size == 2 * old(size) && power == old(power) + 1 && fresh(v)
    {
      hide Holds, Filled;
      HoldsParts(v[..], hash, power, entries);
      var newPower := power + 1;
      var newV := new Named?[Pow2(newPower)](_ => null);
      MoveAll(newV, newPower);
      v, power, size := newV, newPower, newV.Length;
    }

    method MoveAll(newV: array<Named?>, newPower: nat)
      requires Valid() && size > 0 && newV != v && newPower == power + 1 && newV.Length == 2 * size
      requires forall j :: 0 <= j < newV.Length ==> newV[j] == null
      modifies newV
      ensures Holds(newV[..], hash, newPower, entries)
    {
      hide Holds, Passed, Filled, Probe;
      HoldsParts(v[..], hash, power, entries);
      EmptyHolds(newV[..], hash, newPower);
      for i := 0 to size
        invariant Holds(newV[..], hash, newPower, First(v[..], i))
      {
        if v[i] != null {
          MoveOne(newV, newPower, v[i], i);
        }
      }
      FirstIsAll(v[..], hash, power, entries);
    }

    method MoveOne(newV: array<Named?>, newPower: nat, e: Named, ghost i: nat)
      requires Valid() && size > 0 && v != newV && newV.Length == 2 * size && i < size && v[i] == e
      requires Holds(newV[..], hash, newPower, First(v[..], i))
      modifies newV
      ensures Holds(newV[..], hash, newPower, First(v[..], i + 1))
    {
      hide Holds, Passed, Filled, Probe;
      HoldsParts(v[..], hash, power, entries);
      HoldsParts(newV[..], hash, newPower, First(v[..], i));
      NextIsNew(v[..], hash, power, entries, i);
      ghost var before := newV[..];
      var j, k := FreeSlot(newV, hash(e.name), newPower);
      PutHolds(newV[..], hash, newPower, First(v[..], i), e, k);
      newV[j] := e;
      assert newV[..] == before[j := e];
    }

    // The probing of lookup in a table that is there.
    method Find(name: Name, h: nat) returns (r: Named?, i: nat, ghost k: nat)
      requires Valid() && size > 0 && h == hash(name)
      ensures r != null ==> name in entries && entries[name] == r
      ensures r == null ==>
                name !in entries && i < size && v[i] == null && power >= INIT_POWER && v.Length == Pow2(power)
                && i == Probe(h, power, k) && Passed(v[..], h, power, k)
    {
      hide Holds, Filled, Missed, Passed;
      var step := 0;
      i, k := h % size, 0;
      HoldsParts(v[..], hash, power, entries);
      NoneMissed(v[..], h, power, name);
      while v[i] != null
        invariant i == Probe(h, power, k) && k < size && Missed(v[..], h, power, k, name)
        invariant step == if k == 0 then 0 else Step(h, power)
        decreases size - k
      {
        if v[i].name == name {
          HoldsEntry(v[..], hash, power, entries, i);
          return v[i], i, k;
        }
        MissedMore(v[..], h, power, k, name);
        if step == 0 {
          step := Step(h, power);
        }
        i := Down(i, step, size);
        k := k + 1;
        PassedBound(v[..], h, power, k);
      }
      StoppedAbsent(v[..], hash, power, entries, name, k);
      r := null;
    }

    // The first table.
    method Allocate()
      requires Valid() && size == 0
      modifies this`v, this`power, this`size
      ensures Valid() && size == 64 && power == INIT_POWER && fresh(v)
      ensures forall j :: 0 <= j < size ==> v[j] == null
    {
      PowerQuarter(INIT_POWER);
      power := INIT_POWER;
      size := Pow2(INIT_POWER);
      v := new Named?[size](_ => null);
      EmptyHolds(v[..], hash, power);
      assert Pow2(2) == 4 && Pow2(1) == 2;
    }

    // lookup; an entry is created only if `create` is set.
    method Lookup(name: Name, create: bool) returns (r: Named?)
      requires Valid()
      modifies this, v
      ensures Valid() && (v == old(v) || fresh(v))
      ensures name in old(entries) ==> r == old(entries)[name] && entries == old(entries)
      ensures name !in old(entries) && !create ==> r == null && entries == old(entries)
      ensures name !in old(entries) && create ==>
                r != null && fresh(r) && r.name == name && entries == old(entries)[name := r]
    {
      hide Holds, Filled;
      var h, i := hash(name), 0;
      ghost var k := 0;
      if size == 0 {
        if !create {
          return null;
        }
        Allocate();
        i := h % size;
      } else {
        r, i, k := Find(name, h);
        if r != null {
          return;
        }
        if !create {
          return null;
        }
        if used >= Pow2(power - 1) {
          Grow();
          HoldsParts(v[..], hash, power, entries);
          i, k := FreeSlot(v, h, power);
        }
      }
      r := new Named(name);
      Put(r, i, k);
    }

    method Put(e: Named, i: nat, ghost k: nat)
      requires Valid() && size > 0 && i < size && e.name !in entries && 2 * used < size
      requires power >= INIT_POWER && v.Length == Pow2(power)
      requires i == Probe(hash(e.name), power, k) && Passed(v[..], hash(e.name), power, k) && v[i] == null
      modifies this`used, this`entries, v
      ensures Valid() && entries == old(entries)[e.name := e]
    {
      hide Holds, Filled, Passed, Probe, Pow2;
      PowerQuarter(power);
      ghost var before := v[..];
      PutHolds(v[..], hash, power, entries, e, k);
      v[i] := e;
      assert v[..] == before[i := e];
      used := used + 1;
      entries := entries[e.name := e];
    }

    // hashTableClear
    method Clear()
      requires Valid()
      modifies this`used, this`entries, v
      ensures Valid() && entries == map[]
    {
      var i := 0;
      while i < size
        invariant 0 <= i <= size
        invariant forall j :: 0 <= j < i ==> v[j] == null
        modifies v
      {
        v[i] := null;
        i := i + 1;
      }
      used := 0;
      entries := map[];
      if size != 0 {
        EmptyHolds(v[..], hash, power);
      }
    }
  }

  // The entries from slot p on, in the order of the slots.
  ghost function Rest(v: Slots, p: nat): seq<Named>
    requires p <= |v|
    decreases |v| - p
  {
    if p == |v| then [] else if v[p] == null then Rest(v, p + 1) else [v[p]] + Rest(v, p + 1)
  }

  // Iteration over the slots of a table.
  class HashTableIter {
    const v: array<Named?>
    var p: nat

    constructor (v: array<Named?>)
      ensures this.v == v && p == 0
    {
      this.v, p := v, 0;
    }

    // hashTableIterNext
    method Next() returns (r: Named?)
      requires p <= v.Length
      modifies this
      ensures p <= v.Length
      ensures var rest := old(Rest(v[..], p));
              if rest == [] then r == null && Rest(v[..], p) == []
              else r == rest[0] && Rest(v[..], p) == rest[1..]
    {
      while p != v.Length
        invariant p <= v.Length && Rest(v[..], p) == old(Rest(v[..], p))
        decreases v.Length - p
      {
        var tem := v[p];
        p := p + 1;
        if tem != null {
          return tem;
        }
      }
      return null;
    }
  }

  lemma {:induction false} RestElements(v: Slots, p: nat, e: Named)
    requires p <= |v|
    ensures e in Rest(v, p) <==> e in v[p..]
    decreases |v| - p
  {
    if p < |v| {
      RestElements(v, p + 1, e);
      assert v[p..] == [v[p]] + v[p + 1..];
    }
  }

  lemma {:induction false} RestDiffers(v: Slots, p: nat)
    requires NamesDiffer(v) && p <= |v|
    ensures forall a, b :: 0 <= a < b < |Rest(v, p)| ==> Rest(v, p)[a].name != Rest(v, p)[b].name
    decreases |v| - p
  {
    if p < |v| {
      RestDiffers(v, p + 1);
      var rest := Rest(v, p + 1);
      forall b | 0 <= b < |rest| && v[p] != null
        ensures rest[b].name != v[p].name
      {
        RestElements(v, p + 1, rest[b]);
        var i :| p + 1 <= i < |v| && v[i] == rest[b];
      }
    }
  }

  // Iteration meets every entry, and each once.
  lemma IterationIsExact(v: Slots, hash: Name -> nat, power: nat, entries: map<Name, Named>)
    requires Holds(v, hash, power, entries)
    ensures forall e :: e in Rest(v, 0) <==> e.name in entries && entries[e.name] == e
    ensures forall a, b :: 0 <= a < b < |Rest(v, 0)| ==> Rest(v, 0)[a].name != Rest(v, 0)[b].name
  {
    RestDiffers(v, 0);
    assert v[0..] == v;
    forall e: Named
      ensures e in Rest(v, 0) <==> e.name in entries && entries[e.name] == e
    {
      RestElements(v, 0, e);
    }
  }

  // The entries of the first i slots.
  ghost function First(v: Slots, i: nat): map<Name, Named>
    requires i <= |v|
  {
    if i == 0 then map[]
    else if v[i - 1] == null then First(v, i - 1)
    else First(v, i - 1)[v[i - 1].name := v[i - 1]]
  }

  ghost predicate Among(v: Slots, i: nat, n: Name)
    requires i <= |v|
  {
    exists j :: 0 <= j < i && v[j] != null && v[j].name == n
  }

  lemma {:induction false} FirstNames(v: Slots, i: nat)
    requires i <= |v|
    ensures forall n :: n in First(v, i) <==> Among(v, i, n)
    decreases i
  {
    if i > 0 {
      FirstNames(v, i - 1);
      forall n
        ensures n in First(v, i) <==> Among(v, i, n)
      {
        if Among(v, i - 1, n) {
          var j :| 0 <= j < i - 1 && v[j] != null && v[j].name == n;
          assert Among(v, i, n);
        } else if Among(v, i, n) {
          var j :| 0 <= j < i && v[j] != null && v[j].name == n;
        }
        if v[i - 1] != null && v[i - 1].name == n {
          assert Among(v, i, n);
        }
      }
    }
  }

  lemma {:induction false} FirstAgrees(v: Slots, entries: map<Name, Named>, i: nat)
    requires i <= |v| && SameEntries(v, entries)
    ensures forall n :: n in First(v, i) ==> n in entries && First(v, i)[n] == entries[n]
    decreases i
  {
    if i > 0 {
      FirstAgrees(v, entries, i - 1);
    }
  }

  // The next entry is not among those before it, so that the table it moves to has room.
  lemma NextIsNew(v: Slots, hash: Name -> nat, power: nat, entries: map<Name, Named>, i: nat)
    requires Holds(v, hash, power, entries) && i < |v| && v[i] != null
    ensures v[i].name !in First(v, i) && |First(v, i)| < |entries|
  {
    FirstNames(v, i);
    FirstAgrees(v, entries, i);
    assert !Among(v, i, v[i].name);
    assert v[i].name in entries;
    assert First(v, i).Keys <= entries.Keys - {v[i].name};
    Subset(First(v, i).Keys, entries.Keys - {v[i].name});
  }

  lemma FirstIsAll(v: Slots, hash: Name -> nat, power: nat, entries: map<Name, Named>)
    requires Holds(v, hash, power, entries)
    ensures First(v, |v|) == entries
  {
    FirstNames(v, |v|);
    FirstAgrees(v, entries, |v|);
    forall n | n in entries
      ensures n in First(v, |v|)
    {
      var j :| 0 <= j < |v| && v[j] == entries[n];
      assert Among(v, |v|, n);
    }
  }

  lemma HoldsParts(v: Slots, hash: Name -> nat, power: nat, entries: map<Name, Named>)
    requires Holds(v, hash, power, entries)
    ensures power >= INIT_POWER && |v| == Pow2(power) && |Filled(v)| == |entries|
    ensures Pow2(power + 1) == 2 * |v| && |v| == 2 * Pow2(power - 1)
  {
  }
}
