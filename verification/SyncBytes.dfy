/** The operations of sync_keys.cpp that work on the bytes of a key, proved against those on its bits. */
module SyncBytes {
  import opened Bytes
  import opened SyncKey
  import opened SyncReceive

  const KEY_LEN := 8

  // The bits of a key.
  function Bits(bytes: seq<bv8>): Key
    requires |bytes| == KEY_LEN
  {
    seq(KEY_BITS, k requires 0 <= k < KEY_BITS => BitOf(bytes[k / 8], k % 8))
  }

  function And(a: bv8, b: bv8): bv8 {
    a & b
  }

  function Or(a: bv8, b: bv8): bv8 {
    a | b
  }

  function ExclusiveOr(a: bv8, b: bv8): bv8 {
    a ^ b
  }

  // The mask for the first n bits of a byte.
  function Mask(n: nat): bv8
    requires 0 < n < 8
  {
    0xff << (8 - n)
  }

  function Mixed(s: bv8, d: bv8, n: nat): bv8
    requires 0 < n < 8
  {
    Or(And(Mask(n), s), ExclusiveOr(d, s))
  }

  lemma HasXor(s: bv8, d: bv8, m: bv8)
    requires Single(m)
    ensures Has(ExclusiveOr(d, s), m) == (Has(s, m) != Has(d, m))
  {
  }

  lemma HasOr(s: bv8, d: bv8, m: bv8)
    ensures Has(Or(s, d), m) == (Has(s, m) || Has(d, m))
  {
  }

  lemma HasAnd(s: bv8, d: bv8, m: bv8)
    requires Single(m)
    ensures Has(And(s, d), m) == (Has(s, m) && Has(d, m))
  {
  }

  // Within the mask the bits are or-ed, after it they are xor-ed.
  lemma MixedBit(s: bv8, d: bv8, n: nat, i: nat)
    requires 0 < n < 8 && i < 8
    ensures BitOf(Mixed(s, d, n), i) ==
            if i < n then BitOf(s, i) || BitOf(d, i) else BitOf(s, i) != BitOf(d, i)
  {
    hide Has, BitMask, Mask, And, Or, ExclusiveOr;
    var m := BitMask(i);
    HasXor(s, d, m);
    HasAnd(Mask(n), s, m);
    HasOr(And(Mask(n), s), ExclusiveOr(d, s), m);
    MaskBit(n, i);
  }

  lemma MaskBit(n: nat, i: nat)
    requires 0 < n < 8 && i < 8
    ensures BitOf(Mask(n), i) == (i < n)
  {
  }

  // What the bytes up to i of the destination have become.
  ghost predicate XoredTo(src: seq<bv8>, before: seq<bv8>, dest: seq<bv8>, plen: int, i: int) {
    && |src| == |before| == |dest| == KEY_LEN && 0 <= plen < KEY_BITS && 0 <= i <= KEY_LEN
    && (forall k :: 0 <= k < i ==>
          dest[k] == if k < plen / 8 then src[k]
                     else if k == plen / 8 && plen % 8 != 0 then Mixed(src[k], before[k], plen % 8)
                     else ExclusiveOr(before[k], src[k]))
    && forall k :: i <= k < KEY_LEN ==> dest[k] == before[k]
  }

  lemma XoredBit(src: seq<bv8>, before: seq<bv8>, dest: seq<bv8>, plen: int, k: int)
    requires XoredTo(src, before, dest, plen, KEY_LEN) && 0 <= k < KEY_BITS
    ensures BitOf(dest[k / 8], k % 8) ==
            if k < plen / 8 * 8 then BitOf(src[k / 8], k % 8)
            else if k < plen then BitOf(src[k / 8], k % 8) || BitOf(before[k / 8], k % 8)
            else BitOf(src[k / 8], k % 8) != BitOf(before[k / 8], k % 8)
  {
    hide Mixed, Has, BitMask, ExclusiveOr;
    var s, d := src[k / 8], before[k / 8];
    HasXor(s, d, BitMask(k % 8));
    if k / 8 == plen / 8 && plen % 8 != 0 {
      MixedBit(s, d, plen % 8, k % 8);
    }
  }

  lemma XoredBits(src: seq<bv8>, before: seq<bv8>, dest: seq<bv8>, plen: int)
    requires |src| == |before| == |dest| == KEY_LEN && 0 <= plen < KEY_BITS && XoredTo(src, before, dest, plen, KEY_LEN)
    ensures Bits(dest) == XorInto(Bits(src), Bits(before), plen)
  {
    hide BitOf, XoredTo;
    forall k | 0 <= k < KEY_BITS
      ensures Bits(dest)[k] == XorInto(Bits(src), Bits(before), plen)[k]
    {
      XoredBit(src, before, dest, plen, k);
    }
  }

  // sync_xor
  method SyncXor(src: array<bv8>, dest: array<bv8>, plen: int)
    requires src != dest && src.Length == dest.Length == KEY_LEN && 0 <= plen < KEY_BITS
    modifies dest
    ensures Bits(dest[..]) == XorInto(Bits(src[..]), Bits(old(dest[..])), plen)
  {
    hide Mixed, Bits, XorInto, ExclusiveOr;
    var i := 0;
    while i < plen / 8
      invariant 0 <= i <= plen / 8 && XoredTo(src[..], old(dest[..]), dest[..], plen, i)
    {
      dest[i] := src[i];
      i := i + 1;
    }
    if plen % 8 != 0 {
      dest[i] := Mixed(src[i], dest[i], plen % 8);
      i := i + 1;
    }
    while i < KEY_LEN
      invariant plen <= 8 * i <= KEY_BITS && XoredTo(src[..], old(dest[..]), dest[..], plen, i)
    {
      dest[i] := ExclusiveOr(dest[i], src[i]);
      i := i + 1;
    }
    XoredBits(src[..], old(dest[..]), dest[..], plen);
  }

  // ---- cmp_message, sync_get_bits and the test for a blank message --------------------------------

  lemma SameByte(x: bv8, y: bv8)
    ensures (forall i :: 0 <= i < 8 ==> BitOf(x, i) == BitOf(y, i)) <==> x == y
  {
    if forall i :: 0 <= i < 8 ==> BitOf(x, i) == BitOf(y, i) {
      assert BitOf(x, 0) == BitOf(y, 0) && BitOf(x, 1) == BitOf(y, 1) && BitOf(x, 2) == BitOf(y, 2);
      assert BitOf(x, 3) == BitOf(y, 3) && BitOf(x, 4) == BitOf(y, 4) && BitOf(x, 5) == BitOf(y, 5);
      assert BitOf(x, 6) == BitOf(y, 6) && BitOf(x, 7) == BitOf(y, 7);
    }
  }

  lemma SameBits(a: seq<bv8>, b: seq<bv8>, lo: nat, hi: nat)
    requires |a| == |b| == KEY_LEN && lo <= hi <= KEY_LEN && a[lo..hi] == b[lo..hi]
    ensures Bits(a)[8 * lo..8 * hi] == Bits(b)[8 * lo..8 * hi]
  {
    hide BitOf;
    forall k | 8 * lo <= k < 8 * hi
      ensures Bits(a)[k] == Bits(b)[k]
    {
      assert a[k / 8] == a[lo..hi][k / 8 - lo] && b[k / 8] == b[lo..hi][k / 8 - lo];
    }
  }

  lemma SameByteAt(a: seq<bv8>, b: seq<bv8>, j: nat)
    requires |a| == |b| == KEY_LEN && j < KEY_LEN
    requires forall k :: 8 * j <= k < 8 * j + 8 ==> Bits(a)[k] == Bits(b)[k]
    ensures a[j] == b[j]
  {
    hide BitOf;
    forall i | 0 <= i < 8
      ensures BitOf(a[j], i) == BitOf(b[j], i)
    {
      assert Bits(a)[8 * j + i] == Bits(b)[8 * j + i];
    }
    SameByte(a[j], b[j]);
  }

  // Bytes are the same exactly if their bits are.
  lemma SameBytes(a: seq<bv8>, b: seq<bv8>, lo: nat, hi: nat)
    requires |a| == |b| == KEY_LEN && lo <= hi <= KEY_LEN
    ensures a[lo..hi] == b[lo..hi] <==> Bits(a)[8 * lo..8 * hi] == Bits(b)[8 * lo..8 * hi]
  {
    hide Bits;
    var x, y := Bits(a), Bits(b);
    if a[lo..hi] == b[lo..hi] {
      SameBits(a, b, lo, hi);
    }
    if x[8 * lo..8 * hi] == y[8 * lo..8 * hi] {
      forall k | 8 * lo <= k < 8 * hi
        ensures x[k] == y[k]
      {
        assert x[8 * lo..8 * hi][k - 8 * lo] == y[8 * lo..8 * hi][k - 8 * lo];
      }
      forall j | lo <= j < hi
        ensures a[j] == b[j]
      {
        SameByteAt(a, b, j);
      }
    }
  }

  lemma ComparedBytes(first: seq<bv8>, second: seq<bv8>, a: Message, b: Message)
    requires |first| == |second| == KEY_LEN && ValidMessage(a) && ValidMessage(b)
    requires a.key == Bits(first) && b.key == Bits(second)
    ensures var (common, begin) := (Min(a.plen, b.plen), Max(XorBegin(a), XorBegin(b)));
      SameMessage(a, b) <==>
        if common < begin then
          var from := (begin + 7) / 8;
          first[..common / 8] == second[..common / 8] && first[from..] == second[from..]
        else first == second
  {
    hide Bits;
    var common, begin := Min(a.plen, b.plen), Max(XorBegin(a), XorBegin(b));
    if common < begin {
      SameBytes(first, second, 0, common / 8);
      SameBytes(first, second, (begin + 7) / 8, KEY_LEN);
    } else {
      SameBytes(first, second, 0, KEY_LEN);
    }
  }

  // cmp_message on two messages with these headers and the bytes of their keys.
  method CmpMessage(first: array<bv8>, second: array<bv8>, a: Message, b: Message) returns (ret: int)
    requires first.Length == second.Length == KEY_LEN && ValidMessage(a) && ValidMessage(b)
    requires a.key == Bits(first[..]) && b.key == Bits(second[..])
    ensures ret == 0 <==> SameMessage(a, b)
  {
    hide Bits, SameMessage;
    ComparedBytes(first[..], second[..], a, b);
    var common := if a.plen < b.plen then a.plen else b.plen;
    var firstBegin := if a.plen == KEY_BITS then a.min else a.plen;
    var secondBegin := if b.plen == KEY_BITS then b.min else b.plen;
    var begin := if firstBegin < secondBegin then secondBegin else firstBegin;
    ret := 0;
    if common < begin {
      var beginByte := (begin + 7) / 8;
      if common >= 8 && first[..common / 8] != second[..common / 8] {
        ret := -1;
      } else if beginByte < KEY_LEN && first[beginByte..] != second[beginByte..] {
        ret := -1;
      }
    } else {
      if first[..] != second[..] {
        ret := -1;
      }
    }
  }

  // Two bytes as one number, the first one on top.
  function Window(x: bv8, y: bv8): bv16 {
    ((x as bv16) << 8) | (y as bv16)
  }

  // sync_get_bits for one bit: it is taken out of a window of two bytes.
  method GetOneBit(offset: nat, key: array<bv8>) returns (bit: bv16)
    requires key.Length == KEY_LEN && offset + 1 < KEY_BITS
    ensures bit == if Bits(key[..])[offset] then 1 else 0
  {
    var start := offset / 8;
    var context := Window(key[start], 0);
    if start + 1 < KEY_LEN {
      context := Window(key[start], key[start + 1]);
    }
    bit := (context >> (15 - offset % 8)) & 1;
    WindowBit(key[start], if start + 1 < KEY_LEN then key[start + 1] else 0, offset % 8);
  }

  lemma WindowBit(x: bv8, y: bv8, i: nat)
    requires i < 8
    ensures (Window(x, y) >> (15 - i)) & 1 == if BitOf(x, i) then 1 else 0
  {
    if i == 0 {
      assert (Window(x, y) >> 15) & 1 == if BitOf(x, 0) then 1 else 0;
    } else if i == 1 {
      assert (Window(x, y) >> 14) & 1 == if BitOf(x, 1) then 1 else 0;
    } else if i == 2 {
      assert (Window(x, y) >> 13) & 1 == if BitOf(x, 2) then 1 else 0;
    } else if i == 3 {
      assert (Window(x, y) >> 12) & 1 == if BitOf(x, 3) then 1 else 0;
    } else if i == 4 {
      assert (Window(x, y) >> 11) & 1 == if BitOf(x, 4) then 1 else 0;
    } else if i == 5 {
      assert (Window(x, y) >> 10) & 1 == if BitOf(x, 5) then 1 else 0;
    } else if i == 6 {
      assert (Window(x, y) >> 9) & 1 == if BitOf(x, 6) then 1 else 0;
    } else {
      assert (Window(x, y) >> 8) & 1 == if BitOf(x, 7) then 1 else 0;
    }
  }

  lemma ZeroByte(x: bv8)
    ensures x == 0 <==> forall i :: 0 <= i < 8 ==> !BitOf(x, i)
  {
    SameByte(x, 0);
    assert forall i :: 0 <= i < 8 ==> !BitOf(0, i);
  }

  lemma ByteOfKey(bytes: seq<bv8>, j: nat)
    requires |bytes| == KEY_LEN && j < KEY_LEN
    ensures bytes[j] == 0 <==> forall k :: 8 * j <= k < 8 * j + 8 ==> !Bits(bytes)[k]
  {
    hide BitOf;
    ZeroByte(bytes[j]);
    forall i | 0 <= i < 8
      ensures BitOf(bytes[j], i) == Bits(bytes)[8 * j + i]
    {
    }
    if forall i :: 0 <= i < 8 ==> !BitOf(bytes[j], i) {
      forall k | 8 * j <= k < 8 * j + 8
        ensures !Bits(bytes)[k]
      {
        assert Bits(bytes)[k] == BitOf(bytes[j], k - 8 * j);
      }
    }
  }

  lemma BlankBytes(bytes: seq<bv8>, m: Message)
    requires |bytes| == KEY_LEN && 0 <= m.plen && m.key == Bits(bytes)
    ensures IsBlank(m) <==> forall j :: 0 <= m.plen / 8 + 1 <= j < KEY_LEN ==> bytes[j] == 0
  {
    hide Bits;
    forall j | 0 <= j < KEY_LEN
      ensures bytes[j] == 0 <==> forall k :: 8 * j <= k < 8 * j + 8 ==> !m.key[k]
    {
      ByteOfKey(bytes, j);
    }
    if forall j :: 0 <= m.plen / 8 + 1 <= j < KEY_LEN ==> bytes[j] == 0 {
      forall k | 0 <= (m.plen / 8 + 1) * 8 <= k < KEY_BITS
        ensures !m.key[k]
      {
        assert bytes[k / 8] == 0;
      }
    }
  }

  // The test of recv_key whether the bytes after the one with the end of the prefix are all zero.
  method BlankKey(key: array<bv8>, m: Message) returns (blank: bool)
    requires key.Length == KEY_LEN && 0 <= m.plen && m.key == Bits(key[..])
    ensures blank <==> IsBlank(m)
  {
    hide Bits, IsBlank;
    BlankBytes(key[..], m);
    var start := m.plen / 8 + 1;
    var i := start;
    blank := true;
    while i < KEY_LEN && blank
      invariant start <= i
      invariant blank <==> forall j :: start <= j < i && j < KEY_LEN ==> key[j] == 0
    {
      if key[i] != 0 {
        blank := false;
      }
      i := i + 1;
    }
  }
}
