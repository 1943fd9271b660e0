/** Keys and summary messages of sync_keys.cpp.  A key is its 64 bits, first bit of the first byte
    first; byte positions of the source are bit positions divided by 8. */
module SyncKey {
  const KEY_BITS := 64
  const NO_NODE := 65   // prefix_len of the message of an empty tree

  type Key = k: seq<bool> | |k| == KEY_BITS witness seq(64, i => false)

  function ZeroKey(): Key {
    seq(KEY_BITS, i => false)
  }

  // The header and key of a tree node, which is also what travels between peers.
  datatype Message = Message(min: int, plen: int, stored: bool, key: Key)

  predicate Agree(a: Key, b: Key, n: int) {
    forall i :: 0 <= i < n && i < KEY_BITS ==> a[i] == b[i]
  }

  lemma AgreeNext(a: Key, b: Key, n: int)
    requires 0 <= n < KEY_BITS && Agree(a, b, n)
    ensures Agree(a, b, n + 1) <==> a[n] == b[n]
  {
  }

  lemma AgreeReflexive(a: Key, n: int)
    ensures Agree(a, a, n)
  {
  }

  lemma AgreeSymmetric(a: Key, b: Key, n: int)
    ensures Agree(a, b, n) <==> Agree(b, a, n)
  {
  }

  lemma AgreeTransitive(a: Key, b: Key, c: Key, n: int)
    requires Agree(a, b, n)
    ensures Agree(a, c, n) <==> Agree(b, c, n)
  {
  }

  // Keys that differ must differ before the last bit, which the source never inspects.
  predicate Apart(a: Key, b: Key) {
    a == b || !Agree(a, b, KEY_BITS - 1)
  }

  function Xor(a: Key, b: Key): Key {
    seq(KEY_BITS, i requires 0 <= i < KEY_BITS => a[i] != b[i])
  }

  lemma XorRegroup(a: Key, b: Key, c: Key)
    ensures Xor(Xor(a, c), b) == Xor(Xor(a, b), c)
    ensures Xor(a, Xor(b, c)) == Xor(Xor(a, b), c)
  {
  }

  lemma XorCommutes(a: Key, b: Key)
    ensures Xor(a, b) == Xor(b, a)
  {
  }

  // sync_xor: whole prefix bytes are assigned, the prefix bits of the boundary byte are or-ed, the
  // remaining bits are xor-ed.
  function XorInto(src: Key, dest: Key, plen: int): Key
    requires 0 <= plen < KEY_BITS
  {
    seq(KEY_BITS, i requires 0 <= i < KEY_BITS =>
      if i < plen / 8 * 8 then src[i] else if i < plen then src[i] || dest[i] else src[i] != dest[i])
  }

  // The or in the boundary byte is an assignment whenever the prefix bits agree or are still zero.
  lemma XorIntoAssigns(src: Key, dest: Key, plen: int)
    requires 0 <= plen < KEY_BITS
    requires forall i :: 0 <= i < plen ==> dest[i] ==> src[i]
    ensures Agree(XorInto(src, dest, plen), src, plen)
  {
  }

  predicate SameHeader(a: Message, b: Message) {
    a.min == b.min && a.plen == b.plen && a.stored == b.stored
  }

  function XorMessage(src: Key, m: Message): (r: Message)
    requires 0 <= m.plen < KEY_BITS
    ensures SameHeader(r, m)
  {
    m.(key := XorInto(src, m.key, m.plen))
  }

  lemma XorMessageTwice(key: Key, m: Message)
    requires 0 <= m.plen < KEY_BITS && Agree(key, m.key, m.plen)
    ensures XorMessage(key, XorMessage(key, m)) == m
  {
  }

  function Min(a: int, b: int): int {
    if a < b then a else b
  }

  function Max(a: int, b: int): int {
    if a < b then b else a
  }

  function XorBegin(m: Message): int {
    if m.plen == KEY_BITS then m.min else m.plen
  }

  predicate ValidMessage(m: Message) {
    0 <= m.min <= m.plen <= KEY_BITS
  }

  // cmp_message: the bytes of the common prefix and those where both are xor-ed are compared; the
  // ones between are not.
  predicate SameMessage(a: Message, b: Message)
    requires ValidMessage(a) && ValidMessage(b)
  {
    var common, begin := Min(a.plen, b.plen), Max(XorBegin(a), XorBegin(b));
    if common < begin then
      var from := (begin + 7) / 8 * 8;
      a.key[..common / 8 * 8] == b.key[..common / 8 * 8] && a.key[from..] == b.key[from..]
    else a.key == b.key
  }

  // Full keys are compared exactly.
  lemma SameFullKeys(a: Message, b: Message)
    requires ValidMessage(a) && ValidMessage(b) && a.plen == b.plen == KEY_BITS
    ensures SameMessage(a, b) <==> a.key == b.key
  {
  }
}
