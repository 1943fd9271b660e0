/** Committing appended data: file_open, file_append and file_flush of storage.cpp, over a database
    that is a map changed by transactions which take effect as a whole or not at all. */
module Storage {
  import opened Sha256Spec
  import Sha256

  type Name = seq<nat>
  type Hash = h: seq<Byte> | |h| == 32 witness seq(32, i => 0)

  const VERSION_LIMIT := 0x1_0000_0000

  function ZeroHash(): Hash {
    seq(32, i => 0)
  }

  // ---- The xor of all hashes --------------------------------------------------------------------

  function XorByte(a: Byte, b: Byte): Byte {
    a ^ b
  }

  function XorHash(a: Hash, b: Hash): Hash {
    seq(32, i requires 0 <= i < 32 => XorByte(a[i], b[i]))
  }

  lemma XorLaws(a: Hash, b: Hash, c: Hash)
    ensures XorHash(a, b) == XorHash(b, a) && XorHash(XorHash(a, b), c) == XorHash(a, XorHash(b, c))
    ensures XorHash(a, ZeroHash()) == a && XorHash(a, a) == ZeroHash()
  {
  }

  ghost function XorAll(m: map<Name, Hash>): Hash
    decreases |m|
  {
    if m == map[] then ZeroHash()
    else
      var n :| n in m;
      XorHash(m[n], XorAll(m - {n}))
  }

  // The order in which the hashes are taken does not matter.
  lemma {:induction false} XorAllFrom(m: map<Name, Hash>, n: Name)
    requires n in m
    ensures XorAll(m) == XorHash(m[n], XorAll(m - {n}))
    decreases |m|
  {
    hide XorHash;
    var k :| k in m && XorAll(m) == XorHash(m[k], XorAll(m - {k}));
    if k != n {
      XorAllFrom(m - {k}, n);
      XorAllFrom(m - {n}, k);
      assert m - {k} - {n} == m - {n} - {k};
      var rest := XorAll(m - {n} - {k});
      XorLaws(m[k], m[n], rest);
      XorLaws(m[n], m[k], rest);
    }
  }

  lemma XorAllAbsent(m: map<Name, Hash>, n: Name, h: Hash)
    requires n !in m
    ensures XorAll(m[n := h]) == XorHash(h, XorAll(m))
  {
    assert m[n := h] - {n} == m;
    XorAllFrom(m[n := h], n);
  }

  // Replacing one hash: the old one goes out and the new one comes in.
  lemma XorAllReplaced(m: map<Name, Hash>, n: Name, h: Hash)
    ensures XorAll(m[n := h]) == XorHash(XorHash(XorAll(m), h), if n in m then m[n] else ZeroHash())
  {
    hide XorHash;
    var all, rest := XorAll(m), XorAll(m - {n});
    assert m[n := h] == (m - {n})[n := h];
    XorAllAbsent(m - {n}, n, h);
    if n in m {
      XorAllFrom(m, n);
      XorLaws(m[n], rest, h);
      XorLaws(m[n], XorHash(rest, h), m[n]);
      XorLaws(XorHash(rest, h), m[n], m[n]);
      XorLaws(h, rest, h);
      XorLaws(XorHash(rest, h), rest, h);
    } else {
      assert m - {n} == m;
      XorLaws(h, all, h);
      XorLaws(XorHash(all, h), h, h);
    }
  }

  // ---- The database -----------------------------------------------------------------------------

  // The part of file_data that is stored.
  datatype Record = Record(version: nat, length: nat, hash: Hash, partial: Sha256.Snapshot)

  ghost predicate RecordOK(r: Record, m: seq<Byte>) {
    r.length == |m| && r.hash == Sha256Spec.Sha256(m) && Sha256.Represents(r.partial, m)
  }

  ghost predicate RecordsOK(files: map<Name, Record>, committed: map<Name, seq<Byte>>) {
    files.Keys == committed.Keys && forall n :: n in files ==> RecordOK(files[n], committed[n])
  }

  lemma RecordsOKMore(files: map<Name, Record>, committed: map<Name, seq<Byte>>, name: Name, r: Record, m: seq<Byte>)
    requires RecordsOK(files, committed) && RecordOK(r, m)
    ensures RecordsOK(files[name := r], committed[name := m])
  {
    hide RecordOK;
  }

  ghost function Hashes(files: map<Name, Record>): map<Name, Hash> {
    map n | n in files :: files[n].hash
  }

  lemma HashesAt(files: map<Name, Record>, name: Name)
    ensures name in Hashes(files) <==> name in files
    ensures name in files ==> Hashes(files)[name] == files[name].hash
  {
  }

  // struct file_version, under the first bytes of the hash
  datatype Version = Version(name: Name, version: nat, length: nat)

  // One record written to the index: by which commit, and under which key.
  datatype Entry = Entry(key: seq<Byte>, version: Version)

  // What is stored, the bytes that it stands for, and what has been written to the index so far.
  datatype Shelf = Shelf(files: map<Name, Record>, committed: map<Name, seq<Byte>>,
                         index: map<seq<Byte>, Version>, log: seq<Entry>)

  // ---- The index --------------------------------------------------------------------------------

  const KEY_LEN := 8

  // Peers ask for a file by the first bytes of its hash.
  function KeyOf(h: Hash): seq<Byte> {
    h[..KEY_LEN]
  }

  function EntryOf(name: Name, r: Record): Entry {
    Entry(KeyOf(r.hash), Version(name, r.version, r.length))
  }

  // The index after these writes.
  function Written(log: seq<Entry>): map<seq<Byte>, Version> {
    if log == [] then map[]
    else Written(log[..|log| - 1])[log[|log| - 1].key := log[|log| - 1].version]
  }

  // How often a file has been committed.
  function Commits(log: seq<Entry>, name: Name): nat {
    if log == [] then 0
    else Commits(log[..|log| - 1], name) + if log[|log| - 1].version.name == name then 1 else 0
  }

  // The last write under a key is what is found there.
  lemma {:induction false} LastWriteFound(log: seq<Entry>, i: nat)
    requires i < |log|
    ensures log[i].key in Written(log)
    ensures (forall j :: i < j < |log| ==> log[j].key != log[i].key) ==> Written(log)[log[i].key] == log[i].version
    decreases |log|
  {
    if i < |log| - 1 {
      LastWriteFound(log[..|log| - 1], i);
    }
  }

  lemma WrittenMore(log: seq<Entry>, e: Entry)
    ensures Written(log + [e]) == Written(log)[e.key := e.version]
    ensures forall n :: Commits(log + [e], n) == Commits(log, n) + if e.version.name == n then 1 else 0
  {
    assert (log + [e])[..|log|] == log;
  }

  function VersionIn(files: map<Name, Record>, name: Name): nat {
    if name in files then files[name].version else 0
  }

  // The index is what the commits wrote; the last commit of each file wrote its record; and the version of
  // a file is the number of its commits.
  ghost predicate Indexed(s: Shelf) {
    && s.index == Written(s.log)
    && (forall n :: n in s.files ==> EntryOf(n, s.files[n]) in s.log)
    && (forall n :: VersionIn(s.files, n) == Commits(s.log, n) % VERSION_LIMIT)
  }

  // A stored file is found in the index under the key of its hash, with its version and length, unless a
  // later commit has written under the same key.
  ghost predicate Findable(s: Shelf, n: Name) {
    n in s.files ==>
      var e := EntryOf(n, s.files[n]);
      && e.key in s.index
      && exists i :: 0 <= i < |s.log| && s.log[i] == e &&
           ((forall j :: i < j < |s.log| ==> s.log[j].key != e.key) ==> s.index[e.key] == e.version)
  }

  lemma IndexedFindable(s: Shelf, n: Name)
    requires Indexed(s)
    ensures Findable(s, n)
  {
    hide Written, Commits;
    if n in s.files {
      var i :| 0 <= i < |s.log| && s.log[i] == EntryOf(n, s.files[n]);
      LastWriteFound(s.log, i);
    }
  }

  lemma IndexedMore(s: Shelf, name: Name, r: Record, m: seq<Byte>)
    requires Indexed(s) && r.version == (VersionIn(s.files, name) + 1) % VERSION_LIMIT
    ensures var e := EntryOf(name, r);
      Indexed(Shelf(s.files[name := r], s.committed[name := m], s.index[e.key := e.version], s.log + [e]))
  {
    hide Written, Commits;
    var e := EntryOf(name, r);
    WrittenMore(s.log, e);
    assert e in s.log + [e];
  }

  // ---- The store --------------------------------------------------------------------------------

  class Store {
    var files: map<Name, Record>
    var index: map<seq<Byte>, Version>
    var storedRoot: Hash                    // the record "_" of the index
    var root: Hash                          // the copy of it in memory
    ghost var committed: map<Name, seq<Byte>>
    ghost var log: seq<Entry>

    // Each stored hash is that of the committed bytes, and the root is the xor of all of them.
    ghost predicate Valid()
      reads this
    {
      && RecordsOK(files, committed)
      && root == storedRoot == XorAll(Hashes(files)) && Indexed(Kept())
    }

    ghost function Kept(): Shelf
      reads this
    {
      Shelf(files, committed, index, log)
    }

    // A new database.
    constructor ()
      ensures Valid() && committed == map[] && log == []
    {
      hide Sha256.Represents, Sha256Spec.Sha256, XorHash;
      files, index, committed, log := map[], map[], map[], [];
      root, storedRoot := ZeroHash(), ZeroHash();
      new;
      assert Hashes(map[]) == map[];
    }

    // The transaction of file_flush that succeeds, and the new root.
    method Commit(name: Name, record: Record, newHash: Hash, oldHash: Hash, ghost m: seq<Byte>)
      requires Valid() && RecordOK(record, m) && record.hash == newHash && oldHash == StoredHash(files, name)
      requires record.version == (VersionIn(files, name) + 1) % VERSION_LIMIT
      modifies this
      ensures Valid() && files == old(files)[name := record] && committed == old(committed)[name := m]
      ensures index == old(index)[newHash[..8] := Version(name, record.version, record.length)]
      ensures log == old(log) + [EntryOf(name, record)]
    {
      hide Sha256.Represents, Sha256Spec.Sha256, XorAll, XorHash, RecordsOK, Hashes, Indexed;
      RecordsOKMore(files, committed, name, record, m);
      IndexedMore(Kept(), name, record, m);
      var newRoot := XorHash(XorHash(root, newHash), oldHash);
      XorAllReplaced(Hashes(files), name, newHash);
      HashesReplaced(files, name, record);
      HashesAt(files, name);
      files := files[name := record];
      index := index[newHash[..8] := Version(name, record.version, record.length)];
      storedRoot := newRoot;
      committed, log := committed[name := m], log + [EntryOf(name, record)];
      root := newRoot;
    }
  }

  // The stored hash of a file, or zeros if there is none.
  ghost function StoredHash(files: map<Name, Record>, name: Name): Hash {
    if name in files then files[name].hash else ZeroHash()
  }

  lemma HashesReplaced(files: map<Name, Record>, name: Name, r: Record)
    ensures Hashes(files[name := r]) == Hashes(files)[name := r.hash]
  {
  }

  ghost predicate Follows(all: seq<Byte>, first: seq<Byte>) {
    first <= all
  }

  lemma FollowsSelf(all: seq<Byte>)
    ensures Follows(all, all)
  {
  }

  lemma FollowsMore(all: seq<Byte>, first: seq<Byte>, more: seq<Byte>)
    requires Follows(all, first)
    ensures Follows(all + more, first)
    ensures |all| == |first| ==> all == first
  {
  }

  method Restore(found: bool, s: Sha256.Snapshot, ghost m: seq<Byte>) returns (h: Sha256.HashState)
    requires if found then Sha256.Represents(s, m) else m == []
    ensures fresh(h) && fresh(h.state) && fresh(h.buf) && h.Valid() && h.message == m
  {
    hide Sha256.HashState.Valid, Sha256.Represents;
    h := new Sha256.HashState();
    if found {
      h.Load(s, m);
    }
  }

  // A struct assignment.
  method Assign(to: Sha256.HashState, from: Sha256.HashState)
    requires to.Valid() && from.Valid() && to != from && to.state != from.state && to.buf != from.buf
    modifies to, to.state, to.buf
    ensures to.Valid() && from.Valid() && to.message == from.message == old(from.message)
  {
    hide Sha256.HashState.Valid, Sha256.Represents;
    var s := from.Save();
    to.Load(s, from.message);
  }

  datatype Contents = Contents(stored: seq<Byte>, all: seq<Byte>)

  class FileHandle {
    const name: Name
    var version: nat
    var length: nat
    var hash: Hash
    const partial: Sha256.HashState
    var newLength: nat
    const next: Sha256.HashState

    ghost function Parts(): set<object> {
      {this, partial, partial.state, partial.buf, next, next.state, next.buf}
    }

    // What has been appended follows what is committed.
    ghost predicate Valid()
      reads Parts()
    {
      && partial != next && partial.state != next.state && partial.buf != next.buf
      && partial.Valid() && next.Valid() && Follows(next.message, partial.message)
      && length == |partial.message| && newLength == |next.message|
    }

    // The bytes that are stored, and those that the next flush would store.
    ghost function Held(): Contents
      reads Parts()
    {
      Contents(partial.message, next.message)
    }

    // The handle agrees with what is stored under its name.
    ghost predicate Agrees(s: Shelf)
      reads Parts()
    {
      if name in s.files then
        && name in s.committed && partial.message == s.committed[name]
        && version == s.files[name].version && hash == s.files[name].hash
      else partial.message == [] && version == 0 && hash == ZeroHash()
    }

    ghost predicate InStep(store: Store)
      reads store, Parts()
    {
      Agrees(store.Kept())
    }

    // file_open
    constructor (store: Store, name: Name)
      requires store.Valid()
      ensures this.name == name && Valid() && InStep(store) && next.message == partial.message
      ensures forall o :: o in Parts() ==> fresh(o)
    {
      hide Sha256.HashState.Valid, Sha256.Represents, Sha256Spec.Sha256, XorAll, XorHash, Follows;
      var found := name in store.files;
      ghost var m := if found then store.committed[name] else [];
      var p := Restore(found, if found then store.files[name].partial else Sha256.Snapshot([], 0, []), m);
      var q := Restore(found, if found then store.files[name].partial else Sha256.Snapshot([], 0, []), m);
      this.name := name;
      version := if found then store.files[name].version else 0;
      length := if found then store.files[name].length else 0;
      newLength := if found then store.files[name].length else 0;
      hash := if found then store.files[name].hash else ZeroHash();
      partial, next := p, q;
      FollowsSelf(m);
    }

    // file_append
    method Append(data: seq<Byte>)
      requires Valid()
      modifies this`newLength, next, next.state, next.buf
      ensures Valid() && partial.message == old(partial.message) && next.message == old(next.message) + data
    {
      hide Sha256.HashState.Valid, Sha256.Represents, Sha256Spec.Sha256, XorAll, XorHash, Follows;
      FollowsMore(next.message, partial.message, data);
      next.Update(data);
      newLength := newLength + |data|;
    }

    // The end of a flush that did not commit.
    method Rewind()
      requires Valid()
      modifies this`newLength, next, next.state, next.buf
      ensures Valid() && partial.message == old(partial.message) == next.message
    {
      hide Sha256.HashState.Valid, Sha256.Represents, Sha256Spec.Sha256, XorAll, XorHash, Follows;
      Assign(next, partial);
      newLength := length;
      FollowsSelf(next.message);
    }

    // The hash that the file would have with what has been appended.
    method NewHash() returns (h: Hash)
      requires Valid()
      ensures h == Sha256Spec.Sha256(next.message)
    {
      hide Sha256.HashState.Valid, Sha256.Represents, Sha256Spec.Sha256, XorAll, XorHash, Follows;
      var saved := next.Save();
      var copy := Restore(true, saved, next.message);
      h := copy.Final();
    }

    // file_flush; `dbFails` says that the database transaction could not be begun, written or
    // committed.
    method Flush(store: Store, expected: seq<Byte>, dbFails: bool) returns (rc: int)
      requires store.Valid() && Valid() && InStep(store) && |expected| <= 32
      modifies store, this, partial, partial.state, partial.buf, next, next.state, next.buf
      ensures store.Valid() && Valid() && InStep(store) && partial.message == next.message
      ensures if old(partial.message) == old(next.message) then
                rc == 0 && store.Kept() == old(store.Kept()) && version == old(version)
                && partial.message == old(partial.message)
              else if dbFails || !(expected <= Sha256Spec.Sha256(old(next.message))) then
                rc == -1 && store.Kept() == old(store.Kept()) && version == old(version)
                && partial.message == old(partial.message)
              else
                && rc == 1 && store.committed == old(store.committed)[name := old(next.message)]
                && partial.message == old(next.message)
                && version == (old(version) + 1) % 0x1_0000_0000
                && store.index == old(store.index)[Sha256Spec.Sha256(old(next.message))[..8] :=
                                                   Version(name, version, |old(next.message)|)]
                && forall n :: n != name ==> (n in store.files <==> n in old(store.files)) &&
                                             (n in store.files ==> store.files[n] == old(store.files[n]))
    {
      hide Sha256.HashState.Valid, Sha256.Represents, Sha256Spec.Sha256, XorAll, XorHash, Follows;
      FollowsMore(next.message, partial.message, []);
      if length == newLength {
        return 0;
      }
      var newHash := NewHash();
      if |expected| > 0 && expected != newHash[..|expected|] {
        Rewind();
        return -1;
      }
      if dbFails {
        Rewind();
        return -1;
      }
      Committed(store, newHash);
      return 1;
    }

    // The part of file_flush that takes effect.
    method Committed(store: Store, newHash: Hash)
      requires store.Valid() && Valid() && InStep(store) && newHash == Sha256Spec.Sha256(next.message)
      modifies store, this, partial, partial.state, partial.buf
      ensures store.Valid() && Valid() && InStep(store) && partial.message == next.message == old(next.message)
      ensures store.committed == old(store.committed)[name := next.message]
      ensures version == (old(version) + 1) % VERSION_LIMIT
      ensures store.index == old(store.index)[newHash[..8] := Version(name, version, |next.message|)]
      ensures forall n :: n != name ==> (n in store.files <==> n in old(store.files)) &&
                                        (n in store.files ==> store.files[n] == old(store.files[n]))
    {
      hide Store.Valid, Sha256.HashState.Valid, Sha256.Represents, Sha256Spec.Sha256, XorAll, XorHash, Follows;
      var newVersion := (version + 1) % VERSION_LIMIT;
      var saved := next.Save();
      var record := Record(newVersion, newLength, newHash, saved);
      store.Commit(name, record, newHash, hash, next.message);
      Assign(partial, next);
      version, length, hash := newVersion, newLength, newHash;
      FollowsSelf(next.message);
    }
  }

  // ---- Runs -------------------------------------------------------------------------------------

  datatype Call = Append(data: seq<Byte>) | Flush(expected: seq<Byte>, dbFails: bool)

  function After(c: Contents, call: Call): Contents {
    match call
    case Append(data) => Contents(c.stored, c.all + data)
    case Flush(expected, dbFails) =>
      if dbFails || !(expected <= Sha256Spec.Sha256(c.all)) then Contents(c.stored, c.stored)
      else Contents(c.all, c.all)
  }

  function AfterAll(c: Contents, calls: seq<Call>): Contents
    decreases |calls|
  {
    if calls == [] then c else After(AfterAll(c, calls[..|calls| - 1]), calls[|calls| - 1])
  }

  lemma {:induction false} StoredInFront(c: Contents, calls: seq<Call>)
    requires c.stored <= c.all
    ensures c.stored <= AfterAll(c, calls).stored <= AfterAll(c, calls).all
    decreases |calls|
  {
    hide Sha256Spec.Sha256;
    if calls != [] {
      StoredInFront(c, calls[..|calls| - 1]);
    }
  }

  // Nothing has changed under other names.
  ghost predicate SameElsewhere(s: Shelf, s': Shelf, names: set<Name>) {
    s.files - names == s'.files - names && s.committed - names == s'.committed - names
  }

  lemma SameOther(s: Shelf, s': Shelf, name: Name)
    requires forall n :: n != name ==> (n in s.files <==> n in s'.files) && (n in s.files ==> s.files[n] == s'.files[n])
    requires forall n :: n != name ==>
               (n in s.committed <==> n in s'.committed) && (n in s.committed ==> s.committed[n] == s'.committed[n])
    ensures SameElsewhere(s, s', {name})
  {
  }

  // The call cannot commit.
  predicate Harmless(call: Call) {
    call.Flush? ==> call.dbFails
  }

  // One call through one handle.
  method Use(store: Store, file: FileHandle, call: Call)
    requires store.Valid() && file.Valid() && file.InStep(store) && (call.Flush? ==> |call.expected| <= 32)
    modifies store, file.Parts()
    ensures store.Valid() && file.Valid() && file.InStep(store) && file.Held() == After(old(file.Held()), call)
    ensures SameElsewhere(old(store.Kept()), store.Kept(), {file.name})
    ensures Harmless(call) ==> store.Kept() == old(store.Kept())
  {
    hide Sha256.HashState.Valid, Store.Valid, Sha256Spec.Sha256, Follows, SameElsewhere;
    match call {
      case Append(data) => file.Append(data);
      case Flush(expected, dbFails) => var rc := file.Flush(store, expected, dbFails);
    }
    SameOther(old(store.Kept()), store.Kept(), file.name);
  }

  // ---- Several open files -----------------------------------------------------------------------

  ghost function AllParts(files: seq<FileHandle>): set<object> {
    set i, o | 0 <= i < |files| && o in files[i].Parts() :: o
  }

  ghost function Names(files: seq<FileHandle>): set<Name> {
    set i | 0 <= i < |files| :: files[i].name
  }

  // There is one handle for each open file, and handles share nothing.
  ghost predicate Separate(files: seq<FileHandle>) {
    forall i, j :: 0 <= i < |files| && 0 <= j < |files| && i != j ==>
      files[i].name != files[j].name && files[i].Parts() !! files[j].Parts()
  }

  lemma SeparateParts(store: Store, files: seq<FileHandle>, h: nat)
    requires Separate(files) && h < |files|
    ensures forall j :: 0 <= j < |files| ==> store !in files[j].Parts()
    ensures files[h].Parts() <= AllParts(files) && files[h].name in Names(files)
    ensures forall j :: 0 <= j < |files| && j != h ==>
              files[j].name != files[h].name && files[j].Parts() !! files[h].Parts()
  {
  }

  ghost predicate AllInStep(store: Store, files: seq<FileHandle>)
    reads store, AllParts(files)
  {
    forall i :: 0 <= i < |files| ==> files[i].Valid() && files[i].InStep(store)
  }

  // The calls that go through handle j.
  function Through(calls: seq<(nat, Call)>, j: nat): seq<Call>
    decreases |calls|
  {
    if calls == [] then []
    else
      var n := |calls| - 1;
      Through(calls[..n], j) + if calls[n].0 == j then [calls[n].1] else []
  }

  lemma ThroughMore(c: Contents, calls: seq<(nat, Call)>, n: nat, j: nat)
    requires n < |calls|
    ensures AfterAll(c, Through(calls[..n + 1], j)) ==
            if calls[n].0 == j then After(AfterAll(c, Through(calls[..n], j)), calls[n].1)
            else AfterAll(c, Through(calls[..n], j))
  {
    hide After;
    assert calls[..n + 1][..n] == calls[..n];
    var before := Through(calls[..n], j);
    assert (before + [calls[n].1])[..|before|] == before && before + [] == before;
  }

  // A handle does not notice what happens under other names.
  lemma Unnoticed(file: FileHandle, name: Name, s: Shelf, s': Shelf)
    requires file.Agrees(s) && file.name != name && SameElsewhere(s, s', {name})
    ensures file.Agrees(s')
  {
    var n := file.name;
    assert n in s.files - {name} <==> n in s'.files - {name};
    assert n in s.files ==> (s.files - {name})[n] == (s'.files - {name})[n];
    assert n in s.committed - {name} <==> n in s'.committed - {name};
    assert n in s.committed ==> (s.committed - {name})[n] == (s'.committed - {name})[n];
  }

  lemma SameElsewhereFewer(s: Shelf, s': Shelf, name: Name, names: set<Name>)
    requires SameElsewhere(s, s', {name}) && name in names
    ensures SameElsewhere(s, s', names)
  {
    assert s.files - names == s.files - {name} - names && s'.files - names == s'.files - {name} - names;
    assert s.committed - names == s.committed - {name} - names && s'.committed - names == s'.committed - {name} - names;
  }

  method UseOne(store: Store, files: seq<FileHandle>, h: nat, call: Call)
    requires store.Valid() && Separate(files) && AllInStep(store, files)
    requires h < |files| && (call.Flush? ==> |call.expected| <= 32)
    modifies store, AllParts(files)
    ensures store.Valid() && AllInStep(store, files)
    ensures Holdings(files) == old(Holdings(files))[h := After(old(Holdings(files))[h], call)]
    ensures SameElsewhere(old(store.Kept()), store.Kept(), Names(files))
    ensures Harmless(call) ==> store.Kept() == old(store.Kept())
  {
    hide Store.Valid, FileHandle.Valid, FileHandle.Agrees, FileHandle.Held, Store.Kept, AllParts, Separate, Names,
      After, SameElsewhere, Harmless;
    SeparateParts(store, files, h);
    Use(store, files[h], call);
    SameElsewhereFewer(old(store.Kept()), store.Kept(), files[h].name, Names(files));
    forall j | 0 <= j < |files| && j != h
      ensures files[j].Valid() && files[j].InStep(store) && files[j].Held() == old(files[j].Held())
    {
      assert old(files[j].Valid() && files[j].InStep(store));
      Unnoticed(files[j], files[h].name, old(store.Kept()), store.Kept());
    }
  }

  // Calls through n handles, with hashes that are not too long.
  predicate Fit(calls: seq<(nat, Call)>, n: nat) {
    forall i :: 0 <= i < |calls| ==> calls[i].0 < n && (calls[i].1.Flush? ==> |calls[i].1.expected| <= 32)
  }

  // What all files hold after a run.
  function AfterRun(start: seq<Contents>, calls: seq<(nat, Call)>): (r: seq<Contents>)
    requires Fit(calls, |start|)
    ensures |r| == |start|
    decreases |calls|
  {
    if calls == [] then start
    else
      var n := |calls| - 1;
      var c := AfterRun(start, calls[..n]);
      c[calls[n].0 := After(c[calls[n].0], calls[n].1)]
  }

  // A file only depends on the calls that go through its own handle, in whatever way others are
  // interleaved with them.
  lemma {:induction false} OwnCallsOnly(start: seq<Contents>, calls: seq<(nat, Call)>, j: nat)
    requires Fit(calls, |start|) && j < |start|
    ensures AfterRun(start, calls)[j] == AfterAll(start[j], Through(calls, j))
    decreases |calls|
  {
    hide After;
    if calls != [] {
      var n := |calls| - 1;
      OwnCallsOnly(start, calls[..n], j);
      assert calls[..n + 1] == calls;
      ThroughMore(start[j], calls, n, j);
    }
  }

  // Bytes once stored stay at the front of their file.
  lemma StoredBytesStay(start: seq<Contents>, calls: seq<(nat, Call)>, j: nat)
    requires Fit(calls, |start|) && j < |start| && start[j].stored <= start[j].all
    ensures start[j].stored <= AfterRun(start, calls)[j].stored <= AfterRun(start, calls)[j].all
  {
    OwnCallsOnly(start, calls, j);
    StoredInFront(start[j], Through(calls, j));
  }

  lemma RunMore(start: seq<Contents>, calls: seq<(nat, Call)>, n: nat)
    requires Fit(calls, |start|) && n < |calls|
    ensures var c := AfterRun(start, calls[..n]);
            AfterRun(start, calls[..n + 1]) == c[calls[n].0 := After(c[calls[n].0], calls[n].1)]
  {
    hide After;
    assert calls[..n + 1][..n] == calls[..n];
  }

  lemma RunStart(start: seq<Contents>, calls: seq<(nat, Call)>)
    requires Fit(calls, |start|)
    ensures AfterRun(start, calls[..0]) == start && calls[..|calls|] == calls
  {
  }

  ghost function Holdings(files: seq<FileHandle>): (r: seq<Contents>)
    reads AllParts(files)
    ensures |r| == |files|
  {
    seq(|files|, j requires 0 <= j < |files| reads AllParts(files) => files[j].Held())
  }

  ghost predicate AllFollow(c: seq<Contents>) {
    forall j :: 0 <= j < |c| ==> c[j].stored <= c[j].all
  }

  lemma HeldFollows(store: Store, files: seq<FileHandle>)
    requires AllInStep(store, files)
    ensures AllFollow(Holdings(files))
  {
    forall j | 0 <= j < |files|
      ensures files[j].Held().stored <= files[j].Held().all
    {
      assert files[j].Valid();
    }
  }

  // What each file had stored is at the front of what it stores.
  ghost predicate StoredStays(c: seq<Contents>, c': seq<Contents>) {
    |c| == |c'| && forall j :: 0 <= j < |c| ==> c[j].stored <= c'[j].stored
  }

  lemma AllStoredStays(start: seq<Contents>, calls: seq<(nat, Call)>)
    requires Fit(calls, |start|) && AllFollow(start)
    ensures StoredStays(start, AfterRun(start, calls))
  {
    hide AfterRun;
    forall j | 0 <= j < |start|
      ensures start[j].stored <= AfterRun(start, calls)[j].stored
    {
      StoredBytesStay(start, calls, j);
    }
  }

  // Any number of files are open, each through one handle, and their calls are interleaved in any
  // way: each handle stays in step with the store and holds what its own calls amount to; stored bytes
  // stay; files that are not open do not change, nor does anything as long as the database fails.
  method Session(store: Store, files: seq<FileHandle>, calls: seq<(nat, Call)>)
    requires store.Valid() && Separate(files) && AllInStep(store, files)
    requires Fit(calls, |files|)
    modifies store, AllParts(files)
    ensures store.Valid() && AllInStep(store, files) && Holdings(files) == AfterRun(old(Holdings(files)), calls)
    ensures StoredStays(old(Holdings(files)), Holdings(files))
    ensures SameElsewhere(old(store.Kept()), store.Kept(), Names(files))
    ensures (forall i :: 0 <= i < |calls| ==> Harmless(calls[i].1)) ==> store.Kept() == old(store.Kept())
    ensures forall n :: Findable(store.Kept(), n)
    ensures forall n :: VersionIn(store.files, n) == Commits(store.log, n) % VERSION_LIMIT
  {
    hide Store.Valid, FileHandle.Parts, Store.Kept, AllParts, Separate, Names, AllInStep, Holdings, AfterRun, After,
      SameElsewhere, Harmless, StoredStays, AllFollow;
    HeldFollows(store, files);
    ghost var start, was := Holdings(files), store.Kept();
    SameAll(was, Names(files));
    AllStoredStays(start, calls);
    RunStart(start, calls);
    for n := 0 to |calls|
      invariant store.Valid() && AllInStep(store, files) && Holdings(files) == AfterRun(start, calls[..n])
      invariant SameElsewhere(was, store.Kept(), Names(files))
      invariant (forall i :: 0 <= i < n ==> Harmless(calls[i].1)) ==> store.Kept() == was
    {
      RunMore(start, calls, n);
      ghost var before := store.Kept();
      UseOne(store, files, calls[n].0, calls[n].1);
      SameTwice(was, before, store.Kept(), Names(files));
    }
    AllFindable(store);
  }

  lemma AllFindable(store: Store)
    requires store.Valid()
    ensures forall n :: Findable(store.Kept(), n)
    ensures forall n :: VersionIn(store.files, n) == Commits(store.log, n) % VERSION_LIMIT
  {
    hide Findable, RecordOK, XorAll;
    forall n ensures Findable(store.Kept(), n) {
      IndexedFindable(store.Kept(), n);
    }
  }

  lemma SameAll(s: Shelf, names: set<Name>)
    ensures SameElsewhere(s, s, names)
  {
  }

  lemma SameTwice(s: Shelf, s': Shelf, s'': Shelf, names: set<Name>)
    requires SameElsewhere(s, s', names) && SameElsewhere(s', s'', names)
    ensures SameElsewhere(s, s'', names)
  {
  }
}
