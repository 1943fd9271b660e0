/** The constants of SHA-256 are no free choice: FIPS 180-4 takes them from the roots of the first primes.
    The tables of hash.c are these numbers. */
module Sha256Constants {
  import opened Arith
  import opened Sha256Spec

  // ---- The first 64 primes ------------------------------------------------------------------

  predicate IsPrime(p: int) {
    1 < p && forall d :: 1 < d < p ==> p % d != 0
  }

  // q is the next prime after p.
  predicate Consecutive(p: int, q: int) {
    p < q && IsPrime(q) && forall n: int :: p < n < q ==> !IsPrime(n)
  }

  function PrimeRows(): (r: seq<seq<int>>)
    ensures |r| == 8 && forall i :: 0 <= i < 8 ==> |r[i]| == 8
  {
    [
      [ 2, 3, 5, 7, 11, 13, 17, 19 ],
      [ 23, 29, 31, 37, 41, 43, 47, 53 ],
      [ 59, 61, 67, 71, 73, 79, 83, 89 ],
      [ 97, 101, 103, 107, 109, 113, 127, 131 ],
      [ 137, 139, 149, 151, 157, 163, 167, 173 ],
      [ 179, 181, 191, 193, 197, 199, 211, 223 ],
      [ 227, 229, 233, 239, 241, 251, 257, 263 ],
      [ 269, 271, 277, 281, 283, 293, 307, 311 ]
    ]
  }

  function Prime(i: nat): int
    requires i < 64
  {
    PrimeRows()[i / 8][i % 8]
  }

  // A divisor below the square root of 361, other than n itself.
  predicate SmallDivisor(n: int) {
    || (n != 2 && n % 2 == 0) || (n != 3 && n % 3 == 0) || (n != 5 && n % 5 == 0) || (n != 7 && n % 7 == 0)
    || (n != 11 && n % 11 == 0) || (n != 13 && n % 13 == 0) || (n != 17 && n % 17 == 0)
  }

  predicate AllDivide(lo: int, hi: int)
    decreases hi - lo
  {
    lo >= hi || (SmallDivisor(lo) && AllDivide(lo + 1, hi))
  }

  lemma {:induction false} DividedBetween(lo: int, hi: int, n: int)
    requires AllDivide(lo, hi) && lo <= n < hi
    ensures SmallDivisor(n)
    decreases hi - lo
  {
    if lo < n {
      DividedBetween(lo + 1, hi, n);
    }
  }

  lemma FactorDivides(n: int, d: int, e: int, q: int, k: int)
    requires n == d * e && d == q * k && 0 < q
    ensures n % q == 0
  {
    assert n == (k * e) * q + 0;
    RemainderUnique(n, q, k * e, 0);
  }

  lemma RemainderUnique(n: int, q: int, m: int, r: int)
    requires n == m * q + r && 0 <= r < q
    ensures n % q == r
  {
    QuotientUnique(n, q, m, r);
  }

  // A number from 2 to 18 has one of the divisors of SmallDivisor.
  lemma SmallFactor(d: int) returns (q: int, k: int)
    requires 1 < d < 19
    ensures q in {2, 3, 5, 7, 11, 13, 17} && d == q * k && q <= d
  {
    q := if d % 2 == 0 then 2 else if d % 3 == 0 then 3 else if d % 5 == 0 then 5 else d;
    k := d / q;
  }

  // Of two factors of a number below 361 one is below 19.
  lemma SmallerCofactor(n: int, d: int, e: int)
    requires 1 < n < 361 && n == d * e && 1 < d < n
    ensures 1 < e < n && (d < 19 || e < 19)
  {
    if d >= 19 && e >= 19 {
      MulLe(19, d, 19);
      MulLe(19, e, d);
      assert false;
    }
    if e <= 1 {
      MulLe(e, 1, d);
      assert false;
    }
    MulLe(2, d, e);
  }

  lemma DivisorIsSmall(n: int, d: int)
    requires 1 < n < 361 && 1 < d < n && n % d == 0
    ensures SmallDivisor(n)
  {
    var e := n / d;
    assert n == d * e;
    SmallerCofactor(n, d, e);
    var small, large := if d < 19 then d else e, if d < 19 then e else d;
    assert n == small * large;
    var q, k := SmallFactor(small);
    FactorDivides(n, small, large, q, k);
  }

  predicate Gap(p: int, q: int) {
    1 <= p < q < 361 && !SmallDivisor(q) && AllDivide(p + 1, q)
  }

  lemma NextPrime(p: int, q: int)
    requires Gap(p, q)
    ensures Consecutive(p, q)
  {
    forall d | 1 < d < q ensures q % d != 0 {
      if q % d == 0 {
        DivisorIsSmall(q, d);
      }
    }
    forall n: int | p < n < q ensures !IsPrime(n) {
      DividedBetween(p + 1, q, n);
      DividedNotPrime(n);
    }
  }

  lemma DividedNotPrime(n: int)
    requires SmallDivisor(n) && 1 < n
    ensures !IsPrime(n)
  {
    var d := if n != 2 && n % 2 == 0 then 2 else if n != 3 && n % 3 == 0 then 3 else if n != 5 && n % 5 == 0 then 5
      else if n != 7 && n % 7 == 0 then 7 else if n != 11 && n % 11 == 0 then 11
      else if n != 13 && n % 13 == 0 then 13 else 17;
    assert n % d == 0 && 1 < d < n;
  }

  predicate RowFollows(p: int, row: seq<int>) {
    |row| == 8 && Consecutive(p, row[0]) && forall j :: 0 < j < 8 ==> Consecutive(row[j - 1], row[j])
  }

  lemma Gaps0()
    ensures Gap(1, 2) && Gap(2, 3) && Gap(3, 5) && Gap(5, 7)
    ensures Gap(7, 11) && Gap(11, 13) && Gap(13, 17) && Gap(17, 19)
  {
  }

  lemma PrimeRow0()
    ensures RowFollows(1, PrimeRows()[0]) && PrimeRows()[0][7] == 19
  {
    hide Consecutive, Gap;
    Gaps0();
    var row := PrimeRows()[0];
    assert row == [2, 3, 5, 7, 11, 13, 17, 19];
    NextPrime(1, 2); NextPrime(2, 3); NextPrime(3, 5); NextPrime(5, 7);
    NextPrime(7, 11); NextPrime(11, 13); NextPrime(13, 17); NextPrime(17, 19);
  }

  lemma Gaps1()
    ensures Gap(19, 23) && Gap(23, 29) && Gap(29, 31) && Gap(31, 37)
    ensures Gap(37, 41) && Gap(41, 43) && Gap(43, 47) && Gap(47, 53)
  {
  }

  lemma PrimeRow1()
    ensures RowFollows(19, PrimeRows()[1]) && PrimeRows()[1][7] == 53
  {
    hide Consecutive, Gap;
    Gaps1();
    var row := PrimeRows()[1];
    assert row == [23, 29, 31, 37, 41, 43, 47, 53];
    NextPrime(19, 23); NextPrime(23, 29); NextPrime(29, 31); NextPrime(31, 37);
    NextPrime(37, 41); NextPrime(41, 43); NextPrime(43, 47); NextPrime(47, 53);
  }

  lemma Gaps2()
    ensures Gap(53, 59) && Gap(59, 61) && Gap(61, 67) && Gap(67, 71)
    ensures Gap(71, 73) && Gap(73, 79) && Gap(79, 83) && Gap(83, 89)
  {
  }

  lemma PrimeRow2()
    ensures RowFollows(53, PrimeRows()[2]) && PrimeRows()[2][7] == 89
  {
    hide Consecutive, Gap;
    Gaps2();
    var row := PrimeRows()[2];
    assert row == [59, 61, 67, 71, 73, 79, 83, 89];
    NextPrime(53, 59); NextPrime(59, 61); NextPrime(61, 67); NextPrime(67, 71);
    NextPrime(71, 73); NextPrime(73, 79); NextPrime(79, 83); NextPrime(83, 89);
  }

  lemma Gaps3()
    ensures Gap(89, 97) && Gap(97, 101) && Gap(101, 103) && Gap(103, 107)
    ensures Gap(107, 109) && Gap(109, 113) && Gap(113, 127) && Gap(127, 131)
  {
  }

  lemma PrimeRow3()
    ensures RowFollows(89, PrimeRows()[3]) && PrimeRows()[3][7] == 131
  {
    hide Consecutive, Gap;
    Gaps3();
    var row := PrimeRows()[3];
    assert row == [97, 101, 103, 107, 109, 113, 127, 131];
    NextPrime(89, 97); NextPrime(97, 101); NextPrime(101, 103); NextPrime(103, 107);
    NextPrime(107, 109); NextPrime(109, 113); NextPrime(113, 127); NextPrime(127, 131);
  }

  lemma Gaps4()
    ensures Gap(131, 137) && Gap(137, 139) && Gap(139, 149) && Gap(149, 151)
    ensures Gap(151, 157) && Gap(157, 163) && Gap(163, 167) && Gap(167, 173)
  {
  }

  lemma PrimeRow4()
    ensures RowFollows(131, PrimeRows()[4]) && PrimeRows()[4][7] == 173
  {
    hide Consecutive, Gap;
    Gaps4();
    var row := PrimeRows()[4];
    assert row == [137, 139, 149, 151, 157, 163, 167, 173];
    NextPrime(131, 137); NextPrime(137, 139); NextPrime(139, 149); NextPrime(149, 151);
    NextPrime(151, 157); NextPrime(157, 163); NextPrime(163, 167); NextPrime(167, 173);
  }

  lemma Gaps5()
    ensures Gap(173, 179) && Gap(179, 181) && Gap(181, 191) && Gap(191, 193)
    ensures Gap(193, 197) && Gap(197, 199) && Gap(199, 211) && Gap(211, 223)
  {
  }

  lemma PrimeRow5()
    ensures RowFollows(173, PrimeRows()[5]) && PrimeRows()[5][7] == 223
  {
    hide Consecutive, Gap;
    Gaps5();
    var row := PrimeRows()[5];
    assert row == [179, 181, 191, 193, 197, 199, 211, 223];
    NextPrime(173, 179); NextPrime(179, 181); NextPrime(181, 191); NextPrime(191, 193);
    NextPrime(193, 197); NextPrime(197, 199); NextPrime(199, 211); NextPrime(211, 223);
  }

  lemma Gaps6()
    ensures Gap(223, 227) && Gap(227, 229) && Gap(229, 233) && Gap(233, 239)
    ensures Gap(239, 241) && Gap(241, 251) && Gap(251, 257) && Gap(257, 263)
  {
  }

  lemma PrimeRow6()
    ensures RowFollows(223, PrimeRows()[6]) && PrimeRows()[6][7] == 263
  {
    hide Consecutive, Gap;
    Gaps6();
    var row := PrimeRows()[6];
    assert row == [227, 229, 233, 239, 241, 251, 257, 263];
    NextPrime(223, 227); NextPrime(227, 229); NextPrime(229, 233); NextPrime(233, 239);
    NextPrime(239, 241); NextPrime(241, 251); NextPrime(251, 257); NextPrime(257, 263);
  }

  lemma Gaps7()
    ensures Gap(263, 269) && Gap(269, 271) && Gap(271, 277) && Gap(277, 281)
    ensures Gap(281, 283) && Gap(283, 293) && Gap(293, 307) && Gap(307, 311)
  {
  }

  lemma PrimeRow7()
    ensures RowFollows(263, PrimeRows()[7]) && PrimeRows()[7][7] == 311
  {
    hide Consecutive, Gap;
    Gaps7();
    var row := PrimeRows()[7];
    assert row == [269, 271, 277, 281, 283, 293, 307, 311];
    NextPrime(263, 269); NextPrime(269, 271); NextPrime(271, 277); NextPrime(277, 281);
    NextPrime(281, 283); NextPrime(283, 293); NextPrime(293, 307); NextPrime(307, 311);
  }

  // The table holds the primes from 2 on, in order and without a gap.
  lemma PrimesInOrder(i: nat)
    requires i < 64
    ensures Consecutive(if i == 0 then 1 else Prime(i - 1), Prime(i))
  {
    hide Consecutive;
    PrimeRow0(); PrimeRow1(); PrimeRow2(); PrimeRow3(); PrimeRow4(); PrimeRow5(); PrimeRow6(); PrimeRow7();
    var row := PrimeRows()[i / 8];
    if i % 8 > 0 {
      assert Consecutive(row[i % 8 - 1], row[i % 8]);
    }
  }

  // ---- The round constants and the initial hash value ---------------------------------------

  const TWO32 := 0x1_0000_0000

  // The number whose integer part is n and whose first 32 binary places are w, in units of the last place.
  function Fixed(n: nat, w: Word): nat {
    n * TWO32 + w as int
  }

  function Square(x: nat): nat {
    x * x
  }

  function Cube(x: nat): nat {
    x * x * x
  }

  // w is the first 32 bits of the fractional part of the square root of p.
  ghost predicate SquareRootBits(p: int, w: Word) {
    exists n: nat :: Square(Fixed(n, w)) <= p * Square(TWO32) < Square(Fixed(n, w) + 1)
  }

  // w is the first 32 bits of the fractional part of the cube root of p.
  ghost predicate CubeRootBits(p: int, w: Word) {
    exists n: nat :: Cube(Fixed(n, w)) <= p * Cube(TWO32) < Cube(Fixed(n, w) + 1)
  }

  lemma IsSquareRoot(p: int, n: nat, w: Word)
    requires Square(Fixed(n, w)) <= p * Square(TWO32) < Square(Fixed(n, w) + 1)
    ensures SquareRootBits(p, w)
  {
  }

  lemma IsCubeRoot(p: int, n: nat, w: Word)
    requires Cube(Fixed(n, w)) <= p * Cube(TWO32) < Cube(Fixed(n, w) + 1)
    ensures CubeRootBits(p, w)
  {
  }

  ghost predicate CubeRootRow(primes: seq<int>, ks: seq<Word>) {
    |primes| == |ks| == 8 && forall j :: 0 <= j < 8 ==> CubeRootBits(primes[j], ks[j])
  }

  lemma CubeRoots0()
    ensures CubeRootRow(PrimeRows()[0], KRows()[0])
  {
    hide CubeRootBits;
    IsCubeRoot(2, 1, 0x428a2f98);
    IsCubeRoot(3, 1, 0x71374491);
    IsCubeRoot(5, 1, 0xb5c0fbcf);
    IsCubeRoot(7, 1, 0xe9b5dba5);
    IsCubeRoot(11, 2, 0x3956c25b);
    IsCubeRoot(13, 2, 0x59f111f1);
    IsCubeRoot(17, 2, 0x923f82a4);
    IsCubeRoot(19, 2, 0xab1c5ed5);
  }

  lemma CubeRoots1()
    ensures CubeRootRow(PrimeRows()[1], KRows()[1])
  {
    hide CubeRootBits;
    IsCubeRoot(23, 2, 0xd807aa98);
    IsCubeRoot(29, 3, 0x12835b01);
    IsCubeRoot(31, 3, 0x243185be);
    IsCubeRoot(37, 3, 0x550c7dc3);
    IsCubeRoot(41, 3, 0x72be5d74);
    IsCubeRoot(43, 3, 0x80deb1fe);
    IsCubeRoot(47, 3, 0x9bdc06a7);
    IsCubeRoot(53, 3, 0xc19bf174);
  }

  lemma CubeRoots2()
    ensures CubeRootRow(PrimeRows()[2], KRows()[2])
  {
    hide CubeRootBits;
    IsCubeRoot(59, 3, 0xe49b69c1);
    IsCubeRoot(61, 3, 0xefbe4786);
    IsCubeRoot(67, 4, 0x0fc19dc6);
    IsCubeRoot(71, 4, 0x240ca1cc);
    IsCubeRoot(73, 4, 0x2de92c6f);
    IsCubeRoot(79, 4, 0x4a7484aa);
    IsCubeRoot(83, 4, 0x5cb0a9dc);
    IsCubeRoot(89, 4, 0x76f988da);
  }

  lemma CubeRoots3()
    ensures CubeRootRow(PrimeRows()[3], KRows()[3])
  {
    hide CubeRootBits;
    IsCubeRoot(97, 4, 0x983e5152);
    IsCubeRoot(101, 4, 0xa831c66d);
    IsCubeRoot(103, 4, 0xb00327c8);
    IsCubeRoot(107, 4, 0xbf597fc7);
    IsCubeRoot(109, 4, 0xc6e00bf3);
    IsCubeRoot(113, 4, 0xd5a79147);
    IsCubeRoot(127, 5, 0x06ca6351);
    IsCubeRoot(131, 5, 0x14292967);
  }

  lemma CubeRoots4()
    ensures CubeRootRow(PrimeRows()[4], KRows()[4])
  {
    hide CubeRootBits;
    IsCubeRoot(137, 5, 0x27b70a85);
    IsCubeRoot(139, 5, 0x2e1b2138);
    IsCubeRoot(149, 5, 0x4d2c6dfc);
    IsCubeRoot(151, 5, 0x53380d13);
    IsCubeRoot(157, 5, 0x650a7354);
    IsCubeRoot(163, 5, 0x766a0abb);
    IsCubeRoot(167, 5, 0x81c2c92e);
    IsCubeRoot(173, 5, 0x92722c85);
  }

  lemma CubeRoots5()
    ensures CubeRootRow(PrimeRows()[5], KRows()[5])
  {
    hide CubeRootBits;
    IsCubeRoot(179, 5, 0xa2bfe8a1);
    IsCubeRoot(181, 5, 0xa81a664b);
    IsCubeRoot(191, 5, 0xc24b8b70);
    IsCubeRoot(193, 5, 0xc76c51a3);
    IsCubeRoot(197, 5, 0xd192e819);
    IsCubeRoot(199, 5, 0xd6990624);
    IsCubeRoot(211, 5, 0xf40e3585);
    IsCubeRoot(223, 6, 0x106aa070);
  }

  lemma CubeRoots6()
    ensures CubeRootRow(PrimeRows()[6], KRows()[6])
  {
    hide CubeRootBits;
    IsCubeRoot(227, 6, 0x19a4c116);
    IsCubeRoot(229, 6, 0x1e376c08);
    IsCubeRoot(233, 6, 0x2748774c);
    IsCubeRoot(239, 6, 0x34b0bcb5);
    IsCubeRoot(241, 6, 0x391c0cb3);
    IsCubeRoot(251, 6, 0x4ed8aa4a);
    IsCubeRoot(257, 6, 0x5b9cca4f);
    IsCubeRoot(263, 6, 0x682e6ff3);
  }

  lemma CubeRoots7()
    ensures CubeRootRow(PrimeRows()[7], KRows()[7])
  {
    hide CubeRootBits;
    IsCubeRoot(269, 6, 0x748f82ee);
    IsCubeRoot(271, 6, 0x78a5636f);
    IsCubeRoot(277, 6, 0x84c87814);
    IsCubeRoot(281, 6, 0x8cc70208);
    IsCubeRoot(283, 6, 0x90befffa);
    IsCubeRoot(293, 6, 0xa4506ceb);
    IsCubeRoot(307, 6, 0xbef9a3f7);
    IsCubeRoot(311, 6, 0xc67178f2);
  }

  // Section 4.2.2 of FIPS 180-4: each round constant is the first 32 bits of the fractional part of the
  // cube root of the prime of its index.
  lemma RoundConstants(i: nat)
    requires i < 64
    ensures CubeRootBits(Prime(i), K()[i])
  {
    hide CubeRootBits;
    CubeRoots0(); CubeRoots1(); CubeRoots2(); CubeRoots3();
    CubeRoots4(); CubeRoots5(); CubeRoots6(); CubeRoots7();
    assert K()[i] == KRows()[i / 8][i % 8];
  }

  // Section 5.3.3 of FIPS 180-4: the initial hash value is the same of the square roots of the first eight.
  lemma InitialHashWords(i: nat)
    requires i < 8
    ensures SquareRootBits(Prime(i), InitialHash()[i])
  {
    hide SquareRootBits;
    IsSquareRoot(2, 1, 0x6a09e667);
    IsSquareRoot(3, 1, 0xbb67ae85);
    IsSquareRoot(5, 2, 0x3c6ef372);
    IsSquareRoot(7, 2, 0xa54ff53a);
    IsSquareRoot(11, 3, 0x510e527f);
    IsSquareRoot(13, 3, 0x9b05688c);
    IsSquareRoot(17, 4, 0x1f83d9ab);
    IsSquareRoot(19, 4, 0x5be0cd19);
    assert PrimeRows()[0] == [2, 3, 5, 7, 11, 13, 17, 19];
  }
}
