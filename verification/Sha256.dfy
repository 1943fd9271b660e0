/** hash.c: SHA-256 over input that arrives in pieces, proved against Sha256Spec. */
module Sha256 {
  import opened Sha256Spec

  // ---- The macros of the source -----------------------------------------------------------------

  function SourceCh(x: Word, y: Word, z: Word): Word {
    (x & (y ^ z)) ^ z
  }

  function SourceMaj(x: Word, y: Word, z: Word): Word {
    (x & (y | z)) | (y & z)
  }

  lemma AndOverXor(x: Word, y: Word, z: Word)
    ensures x & (y ^ z) == (x & y) ^ (x & z)
  {
  }

  lemma Selected(x: Word, z: Word)
    ensures z == (x & z) ^ (!x & z)
  {
  }

  lemma XorCancels(a: Word, b: Word, c: Word)
    ensures (a ^ b) ^ (b ^ c) == a ^ c
  {
  }

  lemma OrAsXor(x: Word, y: Word, z: Word)
    ensures (x & (y | z)) | (y & z) == (x & (y ^ z)) ^ (y & z)
  {
  }

  lemma ChSame(x: Word, y: Word, z: Word)
    ensures SourceCh(x, y, z) == Ch(x, y, z)
  {
    calc {
      (x & (y ^ z)) ^ z;
      { AndOverXor(x, y, z); }
      ((x & y) ^ (x & z)) ^ z;
      { Selected(x, z); }
      ((x & y) ^ (x & z)) ^ ((x & z) ^ (!x & z));
      { XorCancels(x & y, x & z, !x & z); }
      (x & y) ^ (!x & z);
    }
  }

  lemma MajSame(x: Word, y: Word, z: Word)
    ensures SourceMaj(x, y, z) == Maj(x, y, z)
  {
    calc {
      (x & (y | z)) | (y & z);
      { OrAsXor(x, y, z); }
      (x & (y ^ z)) ^ (y & z);
      { AndOverXor(x, y, z); }
      (x & y) ^ (x & z) ^ (y & z);
    }
  }

  // The sum that RND adds to h.
  function Grouped(h: Word, s: Word, c: Word, w: Word, k: Word): Word {
    h + (s + c + (w + k))
  }

  lemma SumOrder(h: Word, s: Word, c: Word, w: Word, k: Word)
    ensures Grouped(h, s, c, w, k) == Sum5(h, s, c, k, w)
  {
  }

  // ---- Rounds that turn the indices instead of the values ---------------------------------------

  function Index(i: nat, n: nat): (r: nat)
    requires i <= 16 && n < 8
    ensures r < 8
  {
    (64 + n - i) % 8
  }

  lemma IndexTurns(i: nat)
    requires i < 16
    ensures Index(i + 1, 0) == Index(i, 7)
    ensures forall n :: 0 <= n < 7 ==> Index(i + 1, n + 1) == Index(i, n)
    ensures forall n, m :: 0 <= n < m < 8 ==> Index(i, n) != Index(i, m)
  {
  }

  // After i rounds of sixteen, variable n is at Index(i, n).
  ghost predicate Rotated<T>(s: seq<T>, v: seq<T>, i: nat)
    requires i <= 16
  {
    |s| == |v| == 8 && forall n :: 0 <= n < 8 ==> s[Index(i, n)] == v[n]
  }

  // Variables d and h take new values, and every variable is found one place further on.
  lemma Turn<T>(s: seq<T>, v: seq<T>, i: nat, x: T, y: T, r: seq<T>)
    requires i < 16 && Rotated(s, v, i)
    requires |r| == 8 && r[0] == x && r[1] == v[0] && r[2] == v[1] && r[3] == v[2]
    requires r[4] == y && r[5] == v[4] && r[6] == v[5] && r[7] == v[6]
    ensures Rotated(s[Index(i, 3) := y][Index(i, 7) := x], r, i + 1)
  {
    hide Index;
    IndexTurns(i);
    var u := s[Index(i, 3) := y][Index(i, 7) := x];
    forall n | 0 <= n < 8
      ensures u[Index(i + 1, n)] == r[n]
    {
      if n > 0 {
        TurnOne(s, v, i, x, y, n - 1);
        assert r[n] == if n == 4 then y else v[n - 1];
      }
    }
  }

  lemma TurnOne<T>(s: seq<T>, v: seq<T>, i: nat, x: T, y: T, n: nat)
    requires i < 16 && Rotated(s, v, i) && n < 7
    ensures s[Index(i, 3) := y][Index(i, 7) := x][Index(i + 1, n + 1)] == if n == 3 then y else v[n]
  {
  }

  // The sums of the source are those of the standard.
  lemma SumsSame(v: Working, w: Word, k: Word)
    ensures T1(v, k, w) == Grouped(v[7], BigSigma1(v[4]), SourceCh(v[4], v[5], v[6]), w, k)
    ensures T2(v) == Plus(BigSigma0(v[0]), SourceMaj(v[0], v[1], v[2]))
  {
    hide BigSigma0, BigSigma1, Ch, Maj, SourceCh, SourceMaj, Plus, Sum5, Grouped;
    ChSame(v[4], v[5], v[6]);
    MajSame(v[0], v[1], v[2]);
    SumOrder(v[7], BigSigma1(v[4]), Ch(v[4], v[5], v[6]), w, k);
  }

  lemma RoundParts(v: Working, k: Word, w: Word)
    ensures var r := Round(v, k, w);
            && r[0] == Plus(T1(v, k, w), T2(v)) && r[1] == v[0] && r[2] == v[1] && r[3] == v[2]
            && r[4] == Plus(v[3], T1(v, k, w)) && r[5] == v[4] && r[6] == v[5] && r[7] == v[6]
  {
    hide T1, T2, Plus;
  }

  // RNDr
  method DoRound(S: array<Word>, i: nat, w: Word, k: Word, ghost v: Working)
    requires i < 16 && Rotated(S[..], v, i)
    modifies S
    ensures Rotated(S[..], Round(v, k, w), i + 1)
  {
    hide BigSigma0, BigSigma1, SourceCh, SourceMaj, Index, Plus, Grouped, T1, T2, Round;
    IndexTurns(i);
    ghost var s := S[..];
    var a, b, c, d := Index(i, 0), Index(i, 1), Index(i, 2), Index(i, 3);
    var e, f, g, h := Index(i, 4), Index(i, 5), Index(i, 6), Index(i, 7);
    SumsSame(v, w, k);
    RoundParts(v, k, w);
    Turn(s, v, i, Plus(T1(v, k, w), T2(v)), Plus(v[3], T1(v, k, w)), Round(v, k, w));
    S[h] := Grouped(S[h], BigSigma1(S[e]), SourceCh(S[e], S[f], S[g]), w, k);
    S[d] := Plus(S[d], S[h]);
    S[h] := Plus(S[h], Plus(BigSigma0(S[a]), SourceMaj(S[a], S[b], S[c])));
    assert S[..] == s[d := Plus(v[3], T1(v, k, w))][h := Plus(T1(v, k, w), T2(v))];
  }

  // ---- One block --------------------------------------------------------------------------------

  ghost predicate Scheduled(w: seq<Word>, block: seq<Byte>, n: nat)
    requires |block| == 64 && n <= 64
  {
    |w| == 64 && forall t :: 0 <= t < n ==> w[t] == Schedule(block, t)
  }

  // be32dec_vect
  method Decode(W: array<Word>, block: seq<Byte>)
    requires W.Length == 64 && |block| == 64
    modifies W
    ensures Scheduled(W[..], block, 16)
  {
    hide Load32;
    for i := 0 to 16
      invariant forall t :: 0 <= t < i ==> W[t] == Schedule(block, t)
    {
      W[i] := Load32(block[4 * i..4 * i + 4]);
    }
  }

  lemma ScheduleStep(block: seq<Byte>, t: nat)
    requires |block| == 64 && 16 <= t < 64
    ensures Schedule(block, t) ==
            Extend(Schedule(block, t - 2), Schedule(block, t - 7), Schedule(block, t - 15), Schedule(block, t - 16))
  {
  }

  // MSCH, sixteen times
  method ExtendSchedule(W: array<Word>, i: nat, ghost block: seq<Byte>)
    requires |block| == 64 && i + 32 <= 64 && Scheduled(W[..], block, i + 16)
    modifies W
    ensures Scheduled(W[..], block, i + 32)
  {
    hide Schedule, Extend;
    for j := 0 to 16
      invariant Scheduled(W[..], block, i + 16 + j)
    {
      ScheduleStep(block, i + j + 16);
      W[i + j + 16] := Extend(W[i + j + 14], W[i + j + 9], W[i + j + 1], W[i + j]);
    }
  }

  // RNDr, sixteen times
  method SixteenRounds(S: array<Word>, W: array<Word>, i: nat, ghost h: Working, ghost block: seq<Byte>)
    requires S != W && |block| == 64 && i + 16 <= 64 && Scheduled(W[..], block, i + 16)
    requires Rotated(S[..], Rounds(h, block, i), 0)
    modifies S
    ensures Rotated(S[..], Rounds(h, block, i + 16), 0)
  {
    hide Schedule, Rotated, Round, K;
    for j := 0 to 16
      invariant Rotated(S[..], Rounds(h, block, i + j), j)
    {
      DoRound(S, j, W[i + j], K()[i + j], Rounds(h, block, i + j));
    }
    FullTurn(S[..], Rounds(h, block, i + 16));
  }

  lemma FullTurn<T>(s: seq<T>, v: seq<T>)
    requires Rotated(s, v, 16)
    ensures Rotated(s, v, 0)
  {
  }

  lemma NoTurn<T>(s: seq<T>, v: seq<T>)
    requires |s| == |v| == 8
    ensures Rotated(s, v, 0) <==> s == v
  {
  }

  // SHA256_Transform
  method Transform(state: array<Word>, block: seq<Byte>)
    requires state.Length == 8 && |block| == 64
    modifies state
    ensures state[..] == Compress(old(state[..]), block)
  {
    hide Schedule, Rotated, Rounds, Scheduled;
    ghost var before: Working := state[..];
    var W, S := new Word[64], new Word[8];
    Decode(W, block);
    ghost var w := W[..];
    for i := 0 to 8
      invariant S[..i] == state[..i]
      modifies S
    {
      S[i] := state[i];
    }
    assert S[..] == S[..8] == state[..8] == before && W[..] == w;
    RoundsStart(S[..], before, block);
    var i := 0;
    while true
      invariant i % 16 == 0 && 0 <= i <= 48 && state[..] == before
      invariant Scheduled(W[..], block, i + 16) && Rotated(S[..], Rounds(before, block, i), 0)
      decreases 48 - i
    {
      SixteenRounds(S, W, i, before, block);
      if i == 48 {
        break;
      }
      ExtendSchedule(W, i, block);
      i := i + 16;
    }
    NoTurn(S[..], Rounds(before, block, 64));
    for n := 0 to 8
      invariant forall m :: 0 <= m < 8 ==> state[m] == if m < n then Plus(before[m], S[m]) else before[m]
      modifies state
    {
      state[n] := Plus(state[n], S[n]);
    }
    AddedUp(state[..], before, S[..], block);
  }

  lemma RoundsStart(s: seq<Word>, h: Working, block: seq<Byte>)
    requires |block| == 64 && s == h
    ensures Rotated(s, Rounds(h, block, 0), 0)
  {
  }

  lemma AddedUp(t: seq<Word>, h: Working, s: seq<Word>, block: seq<Byte>)
    requires |block| == 64 && |t| == 8 && s == Rounds(h, block, 64)
    requires forall m :: 0 <= m < 8 ==> t[m] == Plus(h[m], s[m])
    ensures t == Compress(h, block)
  {
  }

  // ---- Input in pieces --------------------------------------------------------------------------

  lemma CountRest(length: nat)
    ensures BitLength(length) / 8 % 64 == length % 64
    ensures forall more: nat :: (BitLength(length) + 8 * more) % 0x1_0000_0000_0000_0000 == BitLength(length + more)
  {
    var n, r := 8 * length / 0x1_0000_0000_0000_0000, BitLength(length);
    assert 8 * length == n * 0x1_0000_0000_0000_0000 + r;
    assert r / 8 == length - n * 0x2000_0000_0000_0000;
  }

  lemma ChainNext(m: seq<Byte>, n: nat, block: seq<Byte>)
    requires 64 * n + 64 <= |m| && block == m[64 * n..64 * n + 64]
    ensures Chain(m, n + 1) == Compress(Chain(m, n), block)
  {
    hide Compress, InitialHash;
  }

  // Copies a part of the input to the buffer.
  method Fill(buf: array<Byte>, at: nat, input: seq<Byte>)
    requires at + |input| <= buf.Length
    modifies buf
    ensures buf[..at] == old(buf[..at]) && buf[at..at + |input|] == input
    ensures buf[at + |input|..] == old(buf[at + |input|..])
  {
    for i := 0 to |input|
      invariant buf[..at] == old(buf[..at]) && buf[at..at + i] == input[..i]
      invariant buf[at + |input|..] == old(buf[at + |input|..])
    {
      buf[at + i] := input[i];
    }
  }

  // The blocks that are complete have been compressed, and the rest is in the buffer.
  ghost predicate Absorbed(state: seq<Word>, buf: seq<Byte>, m: seq<Byte>) {
    && |state| == 8 && |buf| == 64
    && state == Chain(m, |m| / 64) && buf[..|m| % 64] == m[|m| - |m| % 64..]
  }

  lemma AbsorbFew(state: seq<Word>, buf: seq<Byte>, buf': seq<Byte>, m: seq<Byte>, d: seq<Byte>)
    requires Absorbed(state, buf, m) && |buf'| == 64 && |m| % 64 + |d| < 64
    requires buf'[..|m| % 64] == buf[..|m| % 64] && buf'[|m| % 64..|m| % 64 + |d|] == d
    ensures Absorbed(state, buf', m + d)
  {
    hide Absorbed, Chain;
    AbsorbedParts(state, buf, m, d);
    var l, r, n := m + d, |m| % 64, |m| / 64;
    ChainPrefix(m, l, n);
    assert buf'[..r + |d|] == buf'[..r] + buf'[r..r + |d|];
    assert l[64 * n..] == m[64 * n..] + d;
    MakeAbsorbed(state, buf', l, n, r + |d|);
  }

  lemma MakeAbsorbed(state: seq<Word>, buf: seq<Byte>, m: seq<Byte>, n: nat, r: nat)
    requires |m| == 64 * n + r && r < 64 && |state| == 8 && |buf| == 64 && state == Chain(m, n) &&
             buf[..r] == m[64 * n..]
    ensures Absorbed(state, buf, m)
  {
    hide Chain;
    assert |m| / 64 == n && |m| % 64 == r;
  }

  lemma FirstBlock(state: seq<Word>, buf: seq<Byte>, buf': seq<Byte>, m: seq<Byte>, d: seq<Byte>)
    requires Absorbed(state, buf, m) && |buf'| == 64 && |m| % 64 + |d| >= 64
    requires buf'[..|m| % 64] == buf[..|m| % 64] && buf'[|m| % 64..] == d[..64 - |m| % 64]
    ensures Chain(m + d, |m| / 64 + 1) == Compress(state, buf')
  {
    hide Compress, Chain, Absorbed;
    AbsorbedParts(state, buf, m, d);
    var l, n := m + d, |m| / 64;
    ChainPrefix(m, l, n);
    JoinBlock(m, d, buf', |m| % 64);
    ChainNext(l, n, buf');
  }

  lemma AbsorbedParts(state: seq<Word>, buf: seq<Byte>, m: seq<Byte>, d: seq<Byte>)
    requires Absorbed(state, buf, m)
    ensures |state| == 8 && |buf| == 64 && 64 * (|m| / 64) == |m| - |m| % 64 && state == Chain(m, |m| / 64)
    ensures buf[..|m| % 64] == m[|m| - |m| % 64..]
    ensures (m + d)[..64 * (|m| / 64)] == m[..64 * (|m| / 64)]
  {
    hide Chain;
    SumPrefix(m, d, 64 * (|m| / 64));
  }

  lemma SumPrefix<T>(m: seq<T>, d: seq<T>, k: nat)
    requires k <= |m|
    ensures (m + d)[..k] == m[..k]
  {
  }

  lemma JoinBlock<T>(m: seq<T>, d: seq<T>, b: seq<T>, r: nat)
    requires |b| == 64 && r <= |m| && r < 64 && |d| >= 64 - r && b[..r] == m[|m| - r..] && b[r..] == d[..64 - r]
    ensures b == (m + d)[|m| - r..|m| - r + 64]
  {
    assert b == b[..r] + b[r..];
  }

  // The contents of crypto_hash_sha256_state, which the source copies as a whole.
  datatype Snapshot = Snapshot(state: seq<Word>, count: nat, buf: seq<Byte>)

  ghost predicate Represents(s: Snapshot, m: seq<Byte>) {
    s.count == BitLength(|m|) && Absorbed(s.state, s.buf, m)
  }

  class HashState {
    const state: array<Word>
    const buf: array<Byte>
    var count: nat              // bits, modulo 2 to the power of 64
    ghost var message: seq<Byte>

    ghost predicate Valid()
      reads this, state, buf
    {
      && state.Length == 8 && buf.Length == 64
      && count == BitLength(|message|) && Absorbed(state[..], buf[..], message)
    }

    // crypto_hash_sha256_init
    constructor ()
      ensures Valid() && fresh(state) && fresh(buf) && message == []
    {
      var init := InitialHash();
      state := new Word[8](i requires 0 <= i < 8 => init[i]);
      buf := new Byte[64];
      count, message := 0, [];
      new;
      assert state[..] == InitialHash();
    }

    method Save() returns (s: Snapshot)
      requires Valid()
      ensures Represents(s, message)
    {
      s := Snapshot(state[..], count, buf[..]);
    }

    method Load(s: Snapshot, ghost m: seq<Byte>)
      requires Valid() && Represents(s, m)
      modifies this, state, buf
      ensures Valid() && message == m
    {
      hide Absorbed, BitLength, Chain;
      SnapshotSizes(s, m);
      for i := 0 to 8
        invariant state[..i] == s.state[..i]
        modifies state
      {
        state[i] := s.state[i];
      }
      for i := 0 to 64
        invariant buf[..i] == s.buf[..i]
        modifies buf
      {
        buf[i] := s.buf[i];
      }
      count, message := s.count, m;
      assert state[..] == s.state && buf[..] == s.buf;
    }

    // crypto_hash_sha256_update
    method Update(input: seq<Byte>)
      requires Valid()
      modifies this, state, buf
      ensures Valid() && message == old(message) + input
    {
      hide Compress, Chain, BitLength, Absorbed;
      if |input| <= 0 {
        assert message + input == message;
        return;
      }
      CountRest(|message|);
      var r := count / 8 % 64;
      count := (count + 8 * |input|) % 0x1_0000_0000_0000_0000;
      ghost var m, before, all := message, buf[..], message + input;
      message := all;
      if |input| < 64 - r {
        Fill(buf, r, input);
        AbsorbFew(state[..], before, buf[..], m, input);
        return;
      }
      Fill(buf, r, input[..64 - r]);
      FirstBlock(state[..], before, buf[..], m, input);
      Transform(state, buf[..]);
      var off := 64 - r;
      ghost var n := |m| / 64 + 1;
      while |input| - off >= 64
        invariant 0 <= off <= |input| && 64 * n == |m| + off && state[..] == Chain(all, n)
        modifies state
      {
        ChainNext(all, n, input[off..off + 64]);
        Transform(state, input[off..off + 64]);
        off := off + 64;
        n := n + 1;
      }
      Fill(buf, 0, input[off..]);
      AbsorbRest(state[..], buf[..], m, input, off, n);
    }

    // SHA256_Pad and crypto_hash_sha256_final
    method Final() returns (digest: seq<Byte>)
      requires Valid()
      modifies state, buf
      ensures digest == Sha256(message)
    {
      hide Compress, Chain, BitLength, Absorbed, Pad, Padding;
      PadIs(message);
      CountRest(|message|);
      var r := count / 8 % 64;
      ghost var before, m := buf[..], message;
      if r < 56 {
        Fill(buf, r, [0x80] + Zeros(55 - r));
      } else {
        Fill(buf, r, [0x80] + Zeros(63 - r));
        PadFirst(state[..], before, buf[..], m);
        Transform(state, buf[..]);
        Fill(buf, 0, Zeros(56));
      }
      Fill(buf, 56, Store64(count, 8));
      PadLast(old(state[..]), state[..], before, buf[..], m);
      Transform(state, buf[..]);
      digest := StoreAll(state[..]);
    }
  }

  // What is appended to a message of length n.
  function Padding(n: nat): (d: seq<Byte>) {
    [0x80] + Zeros(PadZeros(n)) + Store64(BitLength(n), 8)
  }

  lemma PadIs(m: seq<Byte>)
    ensures Pad(m) == m + Padding(|m|)
  {
  }

  // If the block has room for the length, the padding ends there; otherwise its last 56 zero bits and
  // the length make another block.
  lemma PaddingParts(n: nat)
    ensures if n % 64 < 56 then Padding(n) == [0x80] + Zeros(55 - n % 64) + Store64(BitLength(n), 8)
            else Padding(n) == [0x80] + Zeros(63 - n % 64) + (Zeros(56) + Store64(BitLength(n), 8))
  {
  }

  // A message that ends late in a block needs another one for its length.
  lemma PadFirst(state: seq<Word>, buf: seq<Byte>, buf': seq<Byte>, m: seq<Byte>)
    requires Absorbed(state, buf, m) && |buf'| == 64 && |m| % 64 >= 56
    requires buf'[..|m| % 64] == buf[..|m| % 64] && buf'[|m| % 64..] == [0x80] + Zeros(63 - |m| % 64)
    ensures |m + Padding(|m|)| >= 64 * (|m| / 64 + 1)
    ensures Chain(m + Padding(|m|), |m| / 64 + 1) == Compress(state, buf')
  {
    hide Absorbed, Chain, Compress, Padding, Store64, BitLength, Zeros;
    PaddingParts(|m|);
    assert Padding(|m|)[..64 - |m| % 64] == [0x80] + Zeros(63 - |m| % 64);
    FirstBlock(state, buf, buf', m, Padding(|m|));
  }

  lemma PadLast(state: seq<Word>, state': seq<Word>, buf: seq<Byte>, buf': seq<Byte>, m: seq<Byte>)
    requires Absorbed(state, buf, m) && |state'| == 8 && |buf'| == 64
    requires buf'[56..] == Store64(BitLength(|m|), 8)
    requires if |m| % 64 < 56 then
               state' == state && buf'[..|m| % 64] == buf[..|m| % 64] &&
                   buf'[|m| % 64..56] == [0x80] + Zeros(55 - |m| % 64)
             else
               && |m + Padding(|m|)| >= 64 * (|m| / 64 + 1)
               && state' == Chain(m + Padding(|m|), |m| / 64 + 1) && buf'[..56] == Zeros(56)
    ensures var p := m + Padding(|m|); Chain(p, |p| / 64) == Compress(state', buf')
  {
    hide Absorbed, Chain, Compress, Padding, Store64, BitLength, Zeros;
    PaddingParts(|m|);
    if |m| % 64 < 56 {
      PadSame(state, buf, buf', m);
    } else {
      PadNext(state', buf', m);
    }
  }

  // The length fits in the block in which the message ends.
  lemma PadSame(state: seq<Word>, buf: seq<Byte>, buf': seq<Byte>, m: seq<Byte>)
    requires Absorbed(state, buf, m) && |buf'| == 64 && |m| % 64 < 56 && buf'[..|m| % 64] == buf[..|m| % 64]
    requires buf'[|m| % 64..56] == [0x80] + Zeros(55 - |m| % 64) && buf'[56..] == Store64(BitLength(|m|), 8)
    ensures var p := m + Padding(|m|); |p| == 64 * (|m| / 64 + 1) && Chain(p, |m| / 64 + 1) == Compress(state, buf')
  {
    hide Absorbed, Chain, Compress, Padding, Store64, BitLength, Zeros;
    PaddingParts(|m|);
    var d, r := Padding(|m|), |m| % 64;
    assert buf'[r..] == buf'[r..56] + buf'[56..];
    assert d[..64 - r] == d;
    FirstBlock(state, buf, buf', m, d);
  }

  lemma PadNext(state': seq<Word>, buf': seq<Byte>, m: seq<Byte>)
    requires |state'| == 8 && |buf'| == 64 && |m| % 64 >= 56
    requires |m + Padding(|m|)| >= 64 * (|m| / 64 + 1) && state' == Chain(m + Padding(|m|), |m| / 64 + 1)
    requires buf'[..56] == Zeros(56) && buf'[56..] == Store64(BitLength(|m|), 8)
    ensures var p := m + Padding(|m|); |p| == 64 * (|m| / 64 + 2) && Chain(p, |m| / 64 + 2) == Compress(state', buf')
  {
    hide Chain, Compress, Padding, Store64, BitLength, Zeros;
    PaddingParts(|m|);
    var d, r := Padding(|m|), |m| % 64;
    assert buf' == buf'[..56] + buf'[56..];
    LastBlock(m, d, buf', r);
    ChainNext(m + d, |m| / 64 + 1, buf');
  }

  lemma LastBlock<T>(m: seq<T>, d: seq<T>, b: seq<T>, r: nat)
    requires |b| == 64 && r < 64 && r == |m| % 64 && |d| == 128 - r && d[64 - r..] == b
    ensures (m + d)[64 * (|m| / 64 + 1)..64 * (|m| / 64 + 1) + 64] == b && |m + d| == 64 * (|m| / 64 + 2)
  {
  }

  lemma SnapshotSizes(s: Snapshot, m: seq<Byte>)
    requires Represents(s, m)
    ensures |s.state| == 8 && |s.buf| == 64
  {
  }

  // crypto_hash_sha256
  method Hash(input: seq<Byte>) returns (digest: seq<Byte>)
    ensures digest == Sha256(input)
  {
    hide Absorbed, Chain, Sha256, HashState.Valid;
    var h := new HashState();
    h.Update(input);
    assert [] + input == input;
    digest := h.Final();
  }

  function Joined(pieces: seq<seq<Byte>>): seq<Byte>
    decreases |pieces|
  {
    if pieces == [] then [] else Joined(pieces[..|pieces| - 1]) + pieces[|pieces| - 1]
  }

  lemma JoinedMore(pieces: seq<seq<Byte>>, last: seq<Byte>)
    ensures Joined([]) == [] && Joined(pieces + [last]) == Joined(pieces) + last
  {
  }

  // However the input is cut up, the digest is that of the whole.
  method HashPieces(pieces: seq<seq<Byte>>) returns (digest: seq<Byte>)
    ensures digest == Sha256(Joined(pieces))
  {
    hide Joined, Sha256, HashState.Valid;
    var h := new HashState();
    JoinedMore([], []);
    for i := 0 to |pieces|
      invariant h.Valid() && fresh(h) && fresh(h.state) && fresh(h.buf) && h.message == Joined(pieces[..i])
    {
      h.Update(pieces[i]);
      JoinedMore(pieces[..i], pieces[i]);
      assert pieces[..i + 1] == pieces[..i] + [pieces[i]];
    }
    assert pieces[..|pieces|] == pieces;
    digest := h.Final();
  }

  lemma AbsorbRest(state: seq<Word>, buf: seq<Byte>, m: seq<Byte>, d: seq<Byte>, off: nat, n: nat)
    requires |state| == 8 && |buf| == 64 && off <= |d| < off + 64 && 64 * n == |m| + off && state == Chain(m + d, n)
    requires buf[..|d| - off] == d[off..]
    ensures Absorbed(state, buf, m + d)
  {
    hide Absorbed, Chain;
    assert (m + d)[64 * n..] == d[off..];
    MakeAbsorbed(state, buf, m + d, n, |d| - off);
  }
}
