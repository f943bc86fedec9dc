/**
  Where the constants of SHA-256 come from. FIPS 180-4 takes them from the first
  primes: sections 4.2.2 and 5.3.3 want the first thirty-two bits of the fractional
  parts of their cube roots and square roots.
*/
module Sha256Roots {
  import opened Sha256Spec
  import opened Sha256Constants

  // ----- Primes

  predicate Divides(d: nat, n: nat)
    requires d > 0
  {
    n % d == 0
  }

  predicate Prime(n: nat) { n >= 2 && forall d :: 2 <= d < n ==> !Divides(d, n) }

  /** No prime up to 17 divides n, unless it is n itself. */
  predicate Screened(n: nat) {
    && n >= 2
    && (n % 2 == 0 ==> n == 2) && (n % 3 == 0 ==> n == 3) && (n % 5 == 0 ==> n == 5) && (n % 7 == 0 ==> n == 7)
    && (n % 11 == 0 ==> n == 11) && (n % 13 == 0 ==> n == 13) && (n % 17 == 0 ==> n == 17)
  }

  /** n is one of twelve numbers. */
  predicate Near(n: nat, b: nat) {
    || n == b || n == b + 1 || n == b + 2 || n == b + 3 || n == b + 4 || n == b + 5
    || n == b + 6 || n == b + 7 || n == b + 8 || n == b + 9 || n == b + 10 || n == b + 11
  }

  predicate IsScreen(p: nat) { p == 2 || p == 3 || p == 5 || p == 7 || p == 11 || p == 13 || p == 17 }

  predicate Hit(n: nat, p: nat)
    requires p > 0
  {
    n % p == 0 && n > p
  }

  lemma {:induction false} Twos(n: nat, h: nat)
    requires n == 2 * h && h >= 2
    ensures Hit(n, 2)
  {
  }

  lemma {:induction false} Threes(n: nat, h: nat)
    requires n == 3 * h && h >= 2
    ensures Hit(n, 3)
  {
  }

  lemma {:induction false} Fives(n: nat, h: nat)
    requires n == 5 * h && h >= 2
    ensures Hit(n, 5)
  {
  }

  lemma {:induction false} Sevens(n: nat, h: nat)
    requires n == 7 * h && h >= 2
    ensures Hit(n, 7)
  {
  }

  lemma {:induction false} Elevens(n: nat, h: nat)
    requires n == 11 * h && h >= 2
    ensures Hit(n, 11)
  {
  }

  lemma {:induction false} Thirteens(n: nat, h: nat)
    requires n == 13 * h && h >= 2
    ensures Hit(n, 13)
  {
  }

  lemma {:induction false} Seventeens(n: nat, h: nat)
    requires n == 17 * h && h >= 2
    ensures Hit(n, 17)
  {
  }

  lemma {:induction false} Replace(n: nat, p: nat, h: nat, q: nat)
    requires n == p * h && p == q
    ensures n == q * h
  {
  }

  lemma {:induction false} MultipleIsHit(n: nat, p: nat, h: nat)
    requires n == p * h && h >= 2 && IsScreen(p)
    ensures Hit(n, p)
  {
    if p == 2 {
      Replace(n, p, h, 2);
      Twos(n, h);
    } else if p == 3 {
      Replace(n, p, h, 3);
      Threes(n, h);
    } else if p == 5 {
      Replace(n, p, h, 5);
      Fives(n, h);
    } else if p == 7 {
      Replace(n, p, h, 7);
      Sevens(n, h);
    } else if p == 11 {
      Replace(n, p, h, 11);
      Elevens(n, h);
    } else if p == 13 {
      Replace(n, p, h, 13);
      Thirteens(n, h);
    } else if p == 17 {
      Replace(n, p, h, 17);
      Seventeens(n, h);
    }
  }

  lemma {:induction false} HitIsScreened(n: nat, p: nat)
    requires IsScreen(p) && Hit(n, p)
    ensures !Screened(n)
  {
  }

  lemma {:induction false} Regroup(p: nat, h: nat, g: nat)
    requires h > 0 && g >= 2
    ensures p * h * g == p * (h * g) && h * g >= 2
  {
  }

  /** A prime factor of a number up to 18. */
  lemma {:induction false} PrimeFactor(f: nat) returns (p: nat, h: nat)
    requires 2 <= f <= 18
    ensures f == p * h && h > 0 && IsScreen(p)
  {
    assert Near(f, 2) || Near(f, 14);
    p := if f % 2 == 0 then 2 else if f % 3 == 0 then 3 else if f % 5 == 0 then 5 else f;
    h := f / p;
  }

  lemma {:induction false} SmallFactor(n: nat, f: nat, g: nat)
    requires n == f * g && 2 <= f <= 18 && g >= 2
    ensures !Screened(n)
  {
    var p, h := PrimeFactor(f);
    Regroup(p, h, g);
    MultipleIsHit(n, p, h * g);
    HitIsScreened(n, p);
  }

  lemma {:induction false} LargeFactors(d: nat, e: nat)
    requires d >= 19 && e >= 19
    ensures d * e >= 361
  {
  }

  lemma {:induction false} Cofactor(n: nat, d: nat)
    requires 2 <= d < n && n % d == 0
    ensures n == d * (n / d) && n / d >= 2
  {
  }

  lemma {:induction false} FactorIsSeen(n: nat, d: nat)
    requires 2 <= d < n < 361 && n % d == 0
    ensures !Screened(n)
  {
    var e := n / d;
    Cofactor(n, d);
    if d <= 18 {
      SmallFactor(n, d, e);
    } else if e <= 18 {
      SmallFactor(n, e, d);
    } else {
      LargeFactors(d, e);
    }
  }

  lemma {:induction false} ScreenIsNeeded(n: nat, p: nat)
    requires n >= 2 && p >= 2 && n % p == 0 && n != p
    ensures !Prime(n)
  {
    assert n >= p;
    assert Divides(p, n);
  }

  /** Below 361, which is 19 times 19, the screen shows the primes. */
  lemma {:induction false} PrimeIffScreened(n: nat)
    requires 2 <= n < 361
    ensures Prime(n) <==> Screened(n)
  {
    if !Screened(n) {
      var p := if n % 2 == 0 && n != 2 then 2 else if n % 3 == 0 && n != 3 then 3 else if n % 5 == 0 && n != 5 then 5
               else if n % 7 == 0 && n != 7 then 7 else if n % 11 == 0 && n != 11 then 11
               else if n % 13 == 0 && n != 13 then 13 else 17;
      ScreenIsNeeded(n, p);
    } else {
      forall d | 2 <= d < n ensures !Divides(d, n) {
        if n % d == 0 {
          FactorIsSeen(n, d);
        }
      }
    }
  }

  /** These are the primes from one number up to another, in their order. */
  ghost predicate AllPrimes(ps: seq<nat>, from: nat, to: nat) {
    && (forall n :: from <= n < to ==> (Prime(n) <==> n in ps))
    && (forall i :: 0 <= i < |ps| ==> from <= ps[i] < to)
    && (forall i, j :: 0 <= i < j < |ps| ==> ps[i] < ps[j])
  }

  lemma {:induction false} MorePrimes(ps: seq<nat>, qs: seq<nat>, from: nat, middle: nat, to: nat)
    requires AllPrimes(ps, from, middle) && AllPrimes(qs, middle, to) && from <= middle <= to
    ensures AllPrimes(ps + qs, from, to)
  {
  }

  const P0: seq<nat> := [2, 3, 5, 7, 11, 13, 17, 19]
  const P1: seq<nat> := [23, 29, 31, 37, 41, 43, 47, 53]
  const P2: seq<nat> := [59, 61, 67, 71, 73, 79, 83, 89]
  const P3: seq<nat> := [97, 101, 103, 107, 109, 113, 127, 131]
  const P4: seq<nat> := [137, 139, 149, 151, 157, 163, 167, 173]
  const P5: seq<nat> := [179, 181, 191, 193, 197, 199, 211, 223]
  const P6: seq<nat> := [227, 229, 233, 239, 241, 251, 257, 263]
  const P7: seq<nat> := [269, 271, 277, 281, 283, 293, 307, 311]

  /** The first sixty-four primes. */
  const FirstPrimes: seq<nat> := P0 + P1 + P2 + P3 + P4 + P5 + P6 + P7

  lemma {:induction false} Screen0(n: nat)
    requires 2 <= n < 23
    ensures Screened(n) <==> n == 2 || n == 3 || n == 5 || n == 7 || n == 11 || n == 13 || n == 17 || n == 19
  {
    assert Near(n, 2) || Near(n, 14);
  }

  lemma {:induction false} Primes0()
    ensures AllPrimes(P0, 2, 23)
  {
    forall n | 2 <= n < 23 ensures Prime(n) <==> n in P0 {
      PrimeIffScreened(n);
      Screen0(n);
    }
  }

  lemma {:induction false} Screen1(n: nat)
    requires 23 <= n < 59
    ensures Screened(n) <==> n == 23 || n == 29 || n == 31 || n == 37 || n == 41 || n == 43 || n == 47 || n == 53
  {
    assert Near(n, 23) || Near(n, 35) || Near(n, 47);
  }

  lemma {:induction false} Primes1()
    ensures AllPrimes(P1, 23, 59)
  {
    forall n | 23 <= n < 59 ensures Prime(n) <==> n in P1 {
      PrimeIffScreened(n);
      Screen1(n);
    }
  }

  lemma {:induction false} Screen2(n: nat)
    requires 59 <= n < 97
    ensures Screened(n) <==> n == 59 || n == 61 || n == 67 || n == 71 || n == 73 || n == 79 || n == 83 || n == 89
  {
    assert Near(n, 59) || Near(n, 71) || Near(n, 83) || Near(n, 95);
  }

  lemma {:induction false} Primes2()
    ensures AllPrimes(P2, 59, 97)
  {
    forall n | 59 <= n < 97 ensures Prime(n) <==> n in P2 {
      PrimeIffScreened(n);
      Screen2(n);
    }
  }

  lemma {:induction false} Screen3(n: nat)
    requires 97 <= n < 137
    ensures Screened(n) <==> n == 97 || n == 101 || n == 103 || n == 107 || n == 109 || n == 113 || n == 127 || n == 131
  {
    assert Near(n, 97) || Near(n, 109) || Near(n, 121) || Near(n, 133);
  }

  lemma {:induction false} Primes3()
    ensures AllPrimes(P3, 97, 137)
  {
    forall n | 97 <= n < 137 ensures Prime(n) <==> n in P3 {
      PrimeIffScreened(n);
      Screen3(n);
    }
  }

  lemma {:induction false} Screen4(n: nat)
    requires 137 <= n < 179
    ensures Screened(n) <==>
              n == 137 || n == 139 || n == 149 || n == 151 || n == 157 || n == 163 || n == 167 || n == 173
  {
    assert Near(n, 137) || Near(n, 149) || Near(n, 161) || Near(n, 173);
  }

  lemma {:induction false} Primes4()
    ensures AllPrimes(P4, 137, 179)
  {
    forall n | 137 <= n < 179 ensures Prime(n) <==> n in P4 {
      PrimeIffScreened(n);
      Screen4(n);
    }
  }

  lemma {:induction false} Screen5(n: nat)
    requires 179 <= n < 227
    ensures Screened(n) <==>
              n == 179 || n == 181 || n == 191 || n == 193 || n == 197 || n == 199 || n == 211 || n == 223
  {
    assert Near(n, 179) || Near(n, 191) || Near(n, 203) || Near(n, 215);
  }

  lemma {:induction false} Primes5()
    ensures AllPrimes(P5, 179, 227)
  {
    forall n | 179 <= n < 227 ensures Prime(n) <==> n in P5 {
      PrimeIffScreened(n);
      Screen5(n);
    }
  }

  lemma {:induction false} Screen6(n: nat)
    requires 227 <= n < 269
    ensures Screened(n) <==>
              n == 227 || n == 229 || n == 233 || n == 239 || n == 241 || n == 251 || n == 257 || n == 263
  {
    assert Near(n, 227) || Near(n, 239) || Near(n, 251) || Near(n, 263);
  }

  lemma {:induction false} Primes6()
    ensures AllPrimes(P6, 227, 269)
  {
    forall n | 227 <= n < 269 ensures Prime(n) <==> n in P6 {
      PrimeIffScreened(n);
      Screen6(n);
    }
  }

  lemma {:induction false} Screen7(n: nat)
    requires 269 <= n < 312
    ensures Screened(n) <==>
              n == 269 || n == 271 || n == 277 || n == 281 || n == 283 || n == 293 || n == 307 || n == 311
  {
    assert Near(n, 269) || Near(n, 281) || Near(n, 293) || Near(n, 305);
  }

  lemma {:induction false} Primes7()
    ensures AllPrimes(P7, 269, 312)
  {
    forall n | 269 <= n < 312 ensures Prime(n) <==> n in P7 {
      PrimeIffScreened(n);
      Screen7(n);
    }
  }

  lemma {:induction false} FirstPrimesAreFirst()
    ensures |FirstPrimes| == 64 && AllPrimes(FirstPrimes, 2, 312)
  {
    Primes0();
    Primes1();
    Primes2();
    Primes3();
    Primes4();
    Primes5();
    Primes6();
    Primes7();
    MorePrimes(P0, P1, 2, 23, 59);
    MorePrimes(P0 + P1, P2, 2, 59, 97);
    MorePrimes(P0 + P1 + P2, P3, 2, 97, 137);
    MorePrimes(P0 + P1 + P2 + P3, P4, 2, 137, 179);
    MorePrimes(P0 + P1 + P2 + P3 + P4, P5, 2, 179, 227);
    MorePrimes(P0 + P1 + P2 + P3 + P4 + P5, P6, 2, 227, 269);
    MorePrimes(P0 + P1 + P2 + P3 + P4 + P5 + P6, P7, 2, 269, 312);
  }

  // ----- Roots

  function Cube(r: nat): nat { r * r * r }

  /** k is the first thirty-two bits of the fractional part of the cube root of p,
      whose whole part is n. */
  predicate IsCubeRoot(n: nat, k: word, p: nat) {
    var r := n * 0x1_0000_0000 + k;
    k < 0x1_0000_0000 && Cube(r) <= p * 0x1_0000_0000_0000_0000_0000_0000 < Cube(r + 1)
  }

  ghost predicate HasCubeRoot(k: word, p: nat) { exists n :: IsCubeRoot(n, k, p) }

  ghost predicate CubeRoots(ks: seq<word>, ps: seq<nat>) {
    |ks| == |ps| && forall i :: 0 <= i < |ks| ==> HasCubeRoot(ks[i], ps[i])
  }

  lemma {:induction false} MoreRoots(ks: seq<word>, ps: seq<nat>, ks': seq<word>, ps': seq<nat>)
    requires CubeRoots(ks, ps) && CubeRoots(ks', ps')
    ensures CubeRoots(ks + ks', ps + ps')
  {
    forall i | 0 <= i < |ks + ks'| ensures HasCubeRoot((ks + ks')[i], (ps + ps')[i]) {
      assert i >= |ks| ==> HasCubeRoot(ks'[i - |ks|], ps'[i - |ks|]);
    }
  }

  lemma {:induction false} Root(n: nat, k: word, p: nat)
    requires IsCubeRoot(n, k, p)
    ensures HasCubeRoot(k, p)
  {
  }

  lemma {:induction false} Roots0()
    ensures CubeRoots(K0, P0)
  {
    Root(1, 0x428a2f98, 2);
    Root(1, 0x71374491, 3);
    Root(1, 0xb5c0fbcf, 5);
    Root(1, 0xe9b5dba5, 7);
    Root(2, 0x3956c25b, 11);
    Root(2, 0x59f111f1, 13);
    Root(2, 0x923f82a4, 17);
    Root(2, 0xab1c5ed5, 19);
  }

  lemma {:induction false} Roots1()
    ensures CubeRoots(K1, P1)
  {
    Root(2, 0xd807aa98, 23);
    Root(3, 0x12835b01, 29);
    Root(3, 0x243185be, 31);
    Root(3, 0x550c7dc3, 37);
    Root(3, 0x72be5d74, 41);
    Root(3, 0x80deb1fe, 43);
    Root(3, 0x9bdc06a7, 47);
    Root(3, 0xc19bf174, 53);
  }

  lemma {:induction false} Roots2()
    ensures CubeRoots(K2, P2)
  {
    Root(3, 0xe49b69c1, 59);
    Root(3, 0xefbe4786, 61);
    Root(4, 0x0fc19dc6, 67);
    Root(4, 0x240ca1cc, 71);
    Root(4, 0x2de92c6f, 73);
    Root(4, 0x4a7484aa, 79);
    Root(4, 0x5cb0a9dc, 83);
    Root(4, 0x76f988da, 89);
  }

  lemma {:induction false} Roots3()
    ensures CubeRoots(K3, P3)
  {
    Root(4, 0x983e5152, 97);
    Root(4, 0xa831c66d, 101);
    Root(4, 0xb00327c8, 103);
    Root(4, 0xbf597fc7, 107);
    Root(4, 0xc6e00bf3, 109);
    Root(4, 0xd5a79147, 113);
    Root(5, 0x06ca6351, 127);
    Root(5, 0x14292967, 131);
  }

  lemma {:induction false} Roots4()
    ensures CubeRoots(K4, P4)
  {
    Root(5, 0x27b70a85, 137);
    Root(5, 0x2e1b2138, 139);
    Root(5, 0x4d2c6dfc, 149);
    Root(5, 0x53380d13, 151);
    Root(5, 0x650a7354, 157);
    Root(5, 0x766a0abb, 163);
    Root(5, 0x81c2c92e, 167);
    Root(5, 0x92722c85, 173);
  }

  lemma {:induction false} Roots5()
    ensures CubeRoots(K5, P5)
  {
    Root(5, 0xa2bfe8a1, 179);
    Root(5, 0xa81a664b, 181);
    Root(5, 0xc24b8b70, 191);
    Root(5, 0xc76c51a3, 193);
    Root(5, 0xd192e819, 197);
    Root(5, 0xd6990624, 199);
    Root(5, 0xf40e3585, 211);
    Root(6, 0x106aa070, 223);
  }

  lemma {:induction false} Roots6()
    ensures CubeRoots(K6, P6)
  {
    Root(6, 0x19a4c116, 227);
    Root(6, 0x1e376c08, 229);
    Root(6, 0x2748774c, 233);
    Root(6, 0x34b0bcb5, 239);
    Root(6, 0x391c0cb3, 241);
    Root(6, 0x4ed8aa4a, 251);
    Root(6, 0x5b9cca4f, 257);
    Root(6, 0x682e6ff3, 263);
  }

  lemma {:induction false} Roots7()
    ensures CubeRoots(K7, P7)
  {
    Root(6, 0x748f82ee, 269);
    Root(6, 0x78a5636f, 271);
    Root(6, 0x84c87814, 277);
    Root(6, 0x8cc70208, 281);
    Root(6, 0x90befffa, 283);
    Root(6, 0xa4506ceb, 293);
    Root(6, 0xbef9a3f7, 307);
    Root(6, 0xc67178f2, 311);
  }

  /** The constants are the cube roots of the first sixty-four primes. */
  lemma {:induction false} ConstantsAreRoots()
    ensures K == Standard().constants && CubeRoots(K, FirstPrimes)
    ensures |FirstPrimes| == 64 && AllPrimes(FirstPrimes, 2, 312)
  {
    FirstPrimesAreFirst();
    Roots0();
    Roots1();
    Roots2();
    Roots3();
    Roots4();
    Roots5();
    Roots6();
    Roots7();
    MoreRoots(K0, P0, K1, P1);
    MoreRoots(K0 + K1, P0 + P1, K2, P2);
    MoreRoots(K0 + K1 + K2, P0 + P1 + P2, K3, P3);
    MoreRoots(K0 + K1 + K2 + K3, P0 + P1 + P2 + P3, K4, P4);
    MoreRoots(K0 + K1 + K2 + K3 + K4, P0 + P1 + P2 + P3 + P4, K5, P5);
    MoreRoots(K0 + K1 + K2 + K3 + K4 + K5, P0 + P1 + P2 + P3 + P4 + P5, K6, P6);
    MoreRoots(K0 + K1 + K2 + K3 + K4 + K5 + K6, P0 + P1 + P2 + P3 + P4 + P5 + P6, K7, P7);
  }

  function Square(r: nat): nat { r * r }

  predicate IsSquareRoot(n: nat, k: word, p: nat) {
    var r := n * 0x1_0000_0000 + k;
    k < 0x1_0000_0000 && Square(r) <= p * 0x1_0000_0000_0000_0000 < Square(r + 1)
  }

  ghost predicate HasSquareRoot(k: word, p: nat) { exists n :: IsSquareRoot(n, k, p) }

  lemma {:induction false} RootOf(n: nat, k: word, p: nat)
    requires IsSquareRoot(n, k, p)
    ensures HasSquareRoot(k, p)
  {
  }

  /** The initial hash value is the square roots of the first eight primes. */
  lemma {:induction false} InitialValueIsRoots()
    ensures P0 <= FirstPrimes && P0 == [2, 3, 5, 7, 11, 13, 17, 19]
    ensures HasSquareRoot(H0.a, 2)
    ensures HasSquareRoot(H0.b, 3)
    ensures HasSquareRoot(H0.c, 5)
    ensures HasSquareRoot(H0.d, 7)
    ensures HasSquareRoot(H0.e, 11)
    ensures HasSquareRoot(H0.f, 13)
    ensures HasSquareRoot(H0.g, 17)
    ensures HasSquareRoot(H0.h, 19)
  {
    RootOf(1, 0x6a09e667, 2);
    RootOf(1, 0xbb67ae85, 3);
    RootOf(2, 0x3c6ef372, 5);
    RootOf(2, 0xa54ff53a, 7);
    RootOf(3, 0x510e527f, 11);
    RootOf(3, 0x9b05688c, 13);
    RootOf(4, 0x1f83d9ab, 17);
    RootOf(4, 0x5be0cd19, 19);
  }
}
