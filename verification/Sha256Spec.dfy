/** SHA-256 as FIPS 180-4 defines it: the reference for hash.c. */
module Sha256Spec {
  import opened Bytes

  type Byte = bv8
  type Word = bv32

  // Section 3.2 of FIPS 180-4; n is between 1 and 31.
  function RotR(x: Word, n: nat): Word
    requires 0 < n < 32
  {
    (x >> n) | (x << (32 - n))
  }

  // Addition modulo 2 to the power of 32.
  function Plus(x: Word, y: Word): Word {
    x + y
  }

  function Xor3(x: Word, y: Word, z: Word): Word {
    x ^ y ^ z
  }

  function Sum5(a: Word, b: Word, c: Word, d: Word, e: Word): Word {
    a + b + c + d + e
  }

  function Sum4(a: Word, b: Word, c: Word, d: Word): Word {
    a + b + c + d
  }

  // Section 4.1.2 of FIPS 180-4.
  function Ch(x: Word, y: Word, z: Word): Word {
    (x & y) ^ (!x & z)
  }

  function Maj(x: Word, y: Word, z: Word): Word {
    (x & y) ^ (x & z) ^ (y & z)
  }

  function BigSigma0(x: Word): Word {
    Xor3(RotR(x, 2), RotR(x, 13), RotR(x, 22))
  }

  function BigSigma1(x: Word): Word {
    Xor3(RotR(x, 6), RotR(x, 11), RotR(x, 25))
  }

  function SmallSigma0(x: Word): Word {
    Xor3(RotR(x, 7), RotR(x, 18), x >> 3)
  }

  function SmallSigma1(x: Word): Word {
    Xor3(RotR(x, 17), RotR(x, 19), x >> 10)
  }

  // Section 4.2.2 of FIPS 180-4: the round constants, in rows of eight.
  function KRows(): (r: seq<seq<Word>>)
    ensures |r| == 8 && forall i :: 0 <= i < 8 ==> |r[i]| == 8
  {
    [
      [ 0x428a2f98, 0x71374491, 0xb5c0fbcf, 0xe9b5dba5, 0x3956c25b, 0x59f111f1, 0x923f82a4, 0xab1c5ed5 ],
      [ 0xd807aa98, 0x12835b01, 0x243185be, 0x550c7dc3, 0x72be5d74, 0x80deb1fe, 0x9bdc06a7, 0xc19bf174 ],
      [ 0xe49b69c1, 0xefbe4786, 0x0fc19dc6, 0x240ca1cc, 0x2de92c6f, 0x4a7484aa, 0x5cb0a9dc, 0x76f988da ],
      [ 0x983e5152, 0xa831c66d, 0xb00327c8, 0xbf597fc7, 0xc6e00bf3, 0xd5a79147, 0x06ca6351, 0x14292967 ],
      [ 0x27b70a85, 0x2e1b2138, 0x4d2c6dfc, 0x53380d13, 0x650a7354, 0x766a0abb, 0x81c2c92e, 0x92722c85 ],
      [ 0xa2bfe8a1, 0xa81a664b, 0xc24b8b70, 0xc76c51a3, 0xd192e819, 0xd6990624, 0xf40e3585, 0x106aa070 ],
      [ 0x19a4c116, 0x1e376c08, 0x2748774c, 0x34b0bcb5, 0x391c0cb3, 0x4ed8aa4a, 0x5b9cca4f, 0x682e6ff3 ],
      [ 0x748f82ee, 0x78a5636f, 0x84c87814, 0x8cc70208, 0x90befffa, 0xa4506ceb, 0xbef9a3f7, 0xc67178f2 ]
    ]
  }

  function K(): (r: seq<Word>)
    ensures |r| == 64
  {
    seq(64, i requires 0 <= i < 64 => KRows()[i / 8][i % 8])
  }

  // The working variables a to h, and a hash value.
  type Working = s: seq<Word> | |s| == 8 witness [0, 0, 0, 0, 0, 0, 0, 0]

  // Section 5.3.3 of FIPS 180-4.
  function InitialHash(): Working {
    [ 0x6a09e667, 0xbb67ae85, 0x3c6ef372, 0xa54ff53a, 0x510e527f, 0x9b05688c, 0x1f83d9ab, 0x5be0cd19 ]
  }

  // Words are stored with the most significant byte first (section 3.1 of FIPS 180-4).
  function Load32(b: seq<Byte>): Word
    requires |b| == 4
  {
    ((b[0] as Word) << 24) | ((b[1] as Word) << 16) | ((b[2] as Word) << 8) | (b[3] as Word)
  }

  function Store32(w: Word): (b: seq<Byte>)
    ensures |b| == 4
  {
    [ ((w >> 24) & 0xff) as Byte, ((w >> 16) & 0xff) as Byte, ((w >> 8) & 0xff) as Byte, (w & 0xff) as Byte ]
  }

  function Extend(w2: Word, w7: Word, w15: Word, w16: Word): Word {
    Sum4(SmallSigma1(w2), w7, SmallSigma0(w15), w16)
  }

  // Step 1 of section 6.2.2 of FIPS 180-4: the message schedule.
  function Schedule(block: seq<Byte>, t: nat): Word
    requires |block| == 64 && t < 64
  {
    if t < 16 then Load32(block[4 * t..4 * t + 4])
    else Extend(Schedule(block, t - 2), Schedule(block, t - 7), Schedule(block, t - 15), Schedule(block, t - 16))
  }

  // Step 3 of section 6.2.2 of FIPS 180-4.
  function T1(s: Working, k: Word, w: Word): Word {
    Sum5(s[7], BigSigma1(s[4]), Ch(s[4], s[5], s[6]), k, w)
  }

  function T2(s: Working): Word {
    Plus(BigSigma0(s[0]), Maj(s[0], s[1], s[2]))
  }

  function Round(s: Working, k: Word, w: Word): Working {
    [Plus(T1(s, k, w), T2(s)), s[0], s[1], s[2], Plus(s[3], T1(s, k, w)), s[4], s[5], s[6]]
  }

  function Rounds(h: Working, block: seq<Byte>, t: nat): Working
    requires |block| == 64 && t <= 64
  {
    if t == 0 then h else Round(Rounds(h, block, t - 1), K()[t - 1], Schedule(block, t - 1))
  }

  // Section 6.2.2 of FIPS 180-4: one block.
  function Compress(h: Working, block: seq<Byte>): Working
    requires |block| == 64
  {
    var r := Rounds(h, block, 64);
    seq(8, i requires 0 <= i < 8 => Plus(h[i], r[i]))
  }

  // The hash value after the first n blocks of a message.
  function Chain(m: seq<Byte>, n: nat): Working
    requires 64 * n <= |m|
  {
    if n == 0 then InitialHash() else Compress(Chain(m, n - 1), Block(m, n - 1))
  }

  function Block(m: seq<Byte>, n: nat): (b: seq<Byte>)
    requires 64 * n + 64 <= |m|
    ensures |b| == 64
  {
    m[64 * n..64 * n + 64]
  }

  lemma {:induction false} ChainPrefix(m: seq<Byte>, l: seq<Byte>, n: nat)
    requires 64 * n <= |m| && 64 * n <= |l| && m[..64 * n] == l[..64 * n]
    ensures Chain(m, n) == Chain(l, n)
    decreases n
  {
    hide Compress, InitialHash, Block;
    if n > 0 {
      BlockPrefix(m, l, n - 1);
      ChainPrefix(m, l, n - 1);
    }
  }

  lemma BlockPrefix(m: seq<Byte>, l: seq<Byte>, n: nat)
    requires 64 * n + 64 <= |m| && 64 * n + 64 <= |l| && m[..64 * (n + 1)] == l[..64 * (n + 1)]
    ensures m[..64 * n] == l[..64 * n] && Block(m, n) == Block(l, n)
  {
  }

  function Zeros(n: nat): (r: seq<Byte>)
    ensures |r| == n
  {
    seq(n, i => 0)
  }

  function ByteOf(x: nat): Byte
    requires x < 256
  {
    x as Byte
  }

  // The 64-bit number of message bits, most significant byte first.
  function Store64(x: nat, bytes: nat): (b: seq<Byte>)
    ensures |b| == bytes
  {
    if bytes == 0 then [] else Store64(x / 256, bytes - 1) + [ByteOf(x % 256)]
  }

  // Section 5.1.1 of FIPS 180-4: a one bit, the fewest zero bits that leave room for the 64-bit length
  // at the end of a block, and the length.
  function PadZeros(length: nat): (z: nat)
    ensures z < 64 && (length + 1 + z + 8) % 64 == 0
  {
    if length % 64 < 56 then 55 - length % 64 else 119 - length % 64
  }

  function BitLength(length: nat): nat {
    8 * length % 0x1_0000_0000_0000_0000
  }

  function Pad(m: seq<Byte>): (p: seq<Byte>)
    ensures |p| % 64 == 0 && m <= p
  {
    m + [0x80] + Zeros(PadZeros(|m|)) + Store64(BitLength(|m|), 8)
  }

  // ---- What the stored bytes stand for ------------------------------------------------------

  function Pow256(n: nat): (r: nat)
    ensures r > 0
  {
    if n == 0 then 1 else 256 * Pow256(n - 1)
  }

  // The sum of all b[i] * 256^(|b| - 1 - i).
  function ByPlace(b: seq<Byte>): nat {
    if b == [] then 0 else b[0] as int * Pow256(|b| - 1) + ByPlace(b[1..])
  }

  lemma PlaceAbove(digit: int, place: int)
    ensures digit * (256 * place) == 256 * (digit * place)
  {
  }

  lemma ByteValue(x: nat)
    requires x < 256
    ensures ByteOf(x) as int == x
  {
    ByteOfNumber(x);
  }

  lemma {:induction false} ByPlaceLast(b: seq<Byte>, c: Byte)
    ensures ByPlace(b + [c]) == 256 * ByPlace(b) + c as int
    decreases |b|
  {
    if b != [] {
      assert (b + [c])[1..] == b[1..] + [c];
      ByPlaceLast(b[1..], c);
      PlaceAbove(b[0] as int, Pow256(|b| - 1));
    }
  }

  // The most significant byte comes first, and nothing of a number that fits is lost.
  lemma NoPlaces()
    ensures ByPlace([]) == 0
  {
  }

  lemma {:induction false} Store64ByPlace(x: nat, n: nat)
    requires x < Pow256(n)
    ensures ByPlace(Store64(x, n)) == x
    decreases n
  {
    hide ByPlace, ByteOf;
    if n == 0 {
      NoPlaces();
    } else {
      Store64ByPlace(x / 256, n - 1);
      ByteValue(x % 256);
      ByPlaceLast(Store64(x / 256, n - 1), ByteOf(x % 256));
    }
  }

  // The last eight bytes of the padded message are its length in bits, modulo 2^64.
  lemma PadEndsInLength(m: seq<Byte>)
    ensures ByPlace(Pad(m)[|Pad(m)| - 8..]) == 8 * |m| % 0x1_0000_0000_0000_0000
  {
    assert Pow256(8) == 0x1_0000_0000_0000_0000;
    Store64ByPlace(BitLength(|m|), 8);
    assert Pad(m)[|Pad(m)| - 8..] == Store64(BitLength(|m|), 8);
  }

  // The word with byte i of b in place 3 - i.
  function WordByPlace(b: seq<Byte>): Word
    requires |b| == 4
  {
    Sum4(b[0] as Word * 0x100_0000, b[1] as Word * 0x1_0000, b[2] as Word * 0x100, b[3] as Word)
  }

  lemma LoadedByPlace(b: seq<Byte>)
    requires |b| == 4
    ensures Load32(b) == WordByPlace(b)
  {
  }

  lemma StoredByPlace(w: Word)
    ensures WordByPlace(Store32(w)) == w
  {
  }

  function StoreAll(h: seq<Word>): (b: seq<Byte>)
    ensures |b| == 4 * |h|
  {
    if h == [] then [] else StoreAll(h[..|h| - 1]) + Store32(h[|h| - 1])
  }

  function Sha256(m: seq<Byte>): (digest: seq<Byte>)
    ensures |digest| == 32
  {
    StoreAll(Chain(Pad(m), |Pad(m)| / 64))
  }
}
