/**
  The record of the bit operations and constants that SHA-256 is made of, and so
  the hash function itself.
*/
module Sha256Constants {
  import opened Sha256Spec
  import Sha256

  /** FIPS 180-4 section 4.2.2. */
  const K0: seq<word> :=
    [0x428a2f98, 0x71374491, 0xb5c0fbcf, 0xe9b5dba5, 0x3956c25b, 0x59f111f1, 0x923f82a4, 0xab1c5ed5]
  const K1: seq<word> :=
    [0xd807aa98, 0x12835b01, 0x243185be, 0x550c7dc3, 0x72be5d74, 0x80deb1fe, 0x9bdc06a7, 0xc19bf174]
  const K2: seq<word> :=
    [0xe49b69c1, 0xefbe4786, 0x0fc19dc6, 0x240ca1cc, 0x2de92c6f, 0x4a7484aa, 0x5cb0a9dc, 0x76f988da]
  const K3: seq<word> :=
    [0x983e5152, 0xa831c66d, 0xb00327c8, 0xbf597fc7, 0xc6e00bf3, 0xd5a79147, 0x06ca6351, 0x14292967]
  const K4: seq<word> :=
    [0x27b70a85, 0x2e1b2138, 0x4d2c6dfc, 0x53380d13, 0x650a7354, 0x766a0abb, 0x81c2c92e, 0x92722c85]
  const K5: seq<word> :=
    [0xa2bfe8a1, 0xa81a664b, 0xc24b8b70, 0xc76c51a3, 0xd192e819, 0xd6990624, 0xf40e3585, 0x106aa070]
  const K6: seq<word> :=
    [0x19a4c116, 0x1e376c08, 0x2748774c, 0x34b0bcb5, 0x391c0cb3, 0x4ed8aa4a, 0x5b9cca4f, 0x682e6ff3]
  const K7: seq<word> :=
    [0x748f82ee, 0x78a5636f, 0x84c87814, 0x8cc70208, 0x90befffa, 0xa4506ceb, 0xbef9a3f7, 0xc67178f2]

  const K: seq<word> := K0 + K1 + K2 + K3 + K4 + K5 + K6 + K7

  // ----- FIPS 180-4 sections 2.2.2 and 3.2, bit by bit

  /** Bit i of x, counting from the least significant. */
  predicate Bit(x: nat, i: nat) {
    if i == 0 then x % 2 == 1 else Bit(x / 2, i - 1)
  }

  /** The number with these bits, least significant first. */
  function FromBits(b: seq<bool>): nat {
    if b == [] then 0 else 2 * FromBits(b[1..]) + if b[0] then 1 else 0
  }

  function Standard(): (m: Machine)
    ensures |m.constants| == 64
  {
    Machine(
      K,
      (x: word, y: word) => FromBits(seq(32, i requires 0 <= i => Bit(x, i) != Bit(y, i))),
      (x: word, y: word) => FromBits(seq(32, i requires 0 <= i => Bit(x, i) && Bit(y, i))),
      (x: word) => FromBits(seq(32, i requires 0 <= i => !Bit(x, i))),
      (x: word, n: nat) => FromBits(seq(32, i requires 0 <= i => i + n < 32 && Bit(x, i + n))),
      (x: word, n: nat) => FromBits(seq(32, i requires 0 <= i => Bit(x, (i + n) % 32))))
  }

  // ----- The same operations by the shifts of C

  /** x >> n */
  function ShiftRight(x: nat, n: nat): nat
    decreases n
  {
    if n == 0 then x else ShiftRight(x / 2, n - 1)
  }

  /** x << n in 32 bits. */
  function ShiftLeft(x: nat, n: nat): nat
    decreases n
  {
    if n == 0 then x else ShiftLeft(Wrap(2 * x), n - 1)
  }

  /** x | y in 32 bits. */
  function Or(x: nat, y: nat): nat {
    FromBits(seq(32, i requires 0 <= i => Bit(x, i) || Bit(y, i)))
  }

  function Pow2(n: nat): nat {
    if n == 0 then 1 else 2 * Pow2(n - 1)
  }

  lemma {:induction false} Pow2Of32()
    ensures Pow2(32) == 0x1_0000_0000
  {
    assert Pow2(8) == 256;
    assert Pow2(16) == 0x1_0000;
    assert Pow2(24) == 0x100_0000;
  }

  lemma {:induction false} HighBits(x: nat, y: nat, k: nat, i: nat)
    requires i < k
    ensures Bit(x + Pow2(k) * y, i) == Bit(x, i)
    decreases k
  {
    var half := Pow2(k - 1) * y;
    Associate(Pow2(k), Pow2(k - 1), y);
    assert (x + 2 * half) % 2 == x % 2 && (x + 2 * half) / 2 == x / 2 + half;
    if i > 0 {
      HighBits(x / 2, y, k - 1, i - 1);
    }
  }

  lemma {:induction false} Associate(d: nat, p: nat, q: nat)
    requires d == 2 * p
    ensures d * q == 2 * (p * q)
  {
  }

  lemma {:induction false} WrapKeepsBits(x: nat, i: nat)
    requires i < 32
    ensures Bit(Wrap(x), i) == Bit(x, i)
  {
    Pow2Of32();
    HighBits(Wrap(x), x / 0x1_0000_0000, 32, i);
  }

  lemma {:induction false} BitOfShiftRight(x: nat, n: nat, i: nat)
    ensures Bit(ShiftRight(x, n), i) == Bit(x, i + n)
    decreases n
  {
    if n > 0 {
      BitOfShiftRight(x / 2, n - 1, i);
    }
  }

  lemma {:induction false} BitOfShiftLeft(x: nat, n: nat, i: nat)
    requires i < 32
    ensures Bit(ShiftLeft(x, n), i) <==> i >= n && Bit(x, i - n)
    decreases n
  {
    if n > 0 {
      BitOfShiftLeft(Wrap(2 * x), n - 1, i);
      if i >= n - 1 {
        WrapKeepsBits(2 * x, i - (n - 1));
      }
    }
  }

  lemma {:induction false} NoHighBits(x: nat, k: nat, i: nat)
    requires x < Pow2(k) && k <= i
    ensures !Bit(x, i)
    decreases k, i
  {
    if k > 0 {
      NoHighBits(x / 2, k - 1, i - 1);
    } else if i > 0 {
      NoHighBits(0, 0, i - 1);
    }
  }

  /** rotate_right of the source is the rotation of FIPS 180-4. */
  lemma {:induction false} RotationIsShifts(x: nat, n: nat)
    requires x < 0x1_0000_0000 && 0 < n < 32
    ensures Standard().rotr(x, n) == Or(ShiftRight(x, n), ShiftLeft(x, 32 - n))
  {
    Pow2Of32();
    var r, l := ShiftRight(x, n), ShiftLeft(x, 32 - n);
    forall i {:trigger Bit(r, i)} {:trigger Bit(l, i)} | 0 <= i < 32
      ensures Bit(x, (i + n) % 32) == (Bit(r, i) || Bit(l, i)) {
      RotatedBit(x, n, i, 32);
    }
    assert seq(32, i requires 0 <= i => Bit(x, (i + n) % 32)) == seq(32, i requires 0 <= i => Bit(r, i) || Bit(l, i));
  }

  lemma {:induction false} BitOfRotation(x: nat, n: nat, m: nat, i: nat, w: nat)
    requires x < Pow2(w) && n + m == w && 0 < n < w && i < w && i < 32
    ensures Bit(x, if i + n < w then i + n else i - m) == (Bit(ShiftRight(x, n), i) || Bit(ShiftLeft(x, m), i))
  {
    BitOfShiftRight(x, n, i);
    BitOfShiftLeft(x, m, i);
    if i + n >= w {
      NoHighBits(x, w, i + n);
    }
  }

  lemma {:induction false} RotatedBit(x: nat, n: nat, i: nat, w: nat)
    requires x < Pow2(w) && w == 32 && 0 < n < 32 && i < 32
    ensures Bit(x, (i + n) % 32) == (Bit(ShiftRight(x, n), i) || Bit(ShiftLeft(x, 32 - n), i))
  {
    var j := if i + n < w then i + n else i - (w - n);
    assert (i + n) % 32 == j;
    BitOfRotation(x, n, w - n, i, w);
  }

  /** A number is put together again from its bits. */
  lemma {:induction false} FromBitsOfBits(x: nat, b: seq<bool>)
    requires x < Pow2(|b|) && forall i :: 0 <= i < |b| ==> b[i] == Bit(x, i)
    ensures FromBits(b) == x
    decreases |b|
  {
    if b != [] {
      forall i | 0 <= i < |b[1..]| ensures b[1..][i] == Bit(x / 2, i) {
        assert b[1..][i] == b[i + 1];
      }
      FromBitsOfBits(x / 2, b[1..]);
    }
  }

  lemma {:induction false} ShiftRightIsSmaller(x: nat, n: nat)
    ensures ShiftRight(x, n) <= x
    decreases n
  {
    if n > 0 {
      ShiftRightIsSmaller(x / 2, n - 1);
    }
  }

  lemma {:induction false} ShiftIsShift(x: nat, n: nat)
    requires x < 0x1_0000_0000
    ensures Standard().shr(x, n) == ShiftRight(x, n)
  {
    Pow2Of32();
    var b := seq(32, i requires 0 <= i => i + n < 32 && Bit(x, i + n));
    forall i | 0 <= i < 32 ensures b[i] == Bit(ShiftRight(x, n), i) {
      BitOfShiftRight(x, n, i);
      if i + n >= 32 {
        NoHighBits(x, 32, i + n);
      }
    }
    ShiftRightIsSmaller(x, n);
    FromBitsOfBits(ShiftRight(x, n), b);
  }

  // ----- The functions of the source

  /** rotate_right */
  function RotateRight(x: nat, n: nat): nat
    requires 0 < n < 32
  {
    Or(ShiftRight(x, n), ShiftLeft(x, 32 - n))
  }

  /** The four functions of the schedule and the rounds, as transform computes them. */
  lemma {:induction false} SourceSigmas(x: nat)
    requires x < 0x1_0000_0000
    ensures var m := Standard();
            && m.BigSigma0(x) == m.xor(m.xor(RotateRight(x, 2), RotateRight(x, 13)), RotateRight(x, 22))
            && m.BigSigma1(x) == m.xor(m.xor(RotateRight(x, 6), RotateRight(x, 11)), RotateRight(x, 25))
            && m.SmallSigma0(x) == m.xor(m.xor(RotateRight(x, 7), RotateRight(x, 18)), ShiftRight(x, 3))
            && m.SmallSigma1(x) == m.xor(m.xor(RotateRight(x, 17), RotateRight(x, 19)), ShiftRight(x, 10))
  {
    Rotations(x, 2, 13, 22);
    Rotations(x, 6, 11, 25);
    Rotations(x, 7, 18, 17);
    RotationIsShifts(x, 19);
    ShiftIsShift(x, 3);
    ShiftIsShift(x, 10);
  }

  lemma {:induction false} Rotations(x: nat, i: nat, j: nat, k: nat)
    requires x < 0x1_0000_0000 && 0 < i < 32 && 0 < j < 32 && 0 < k < 32
    ensures Standard().rotr(x, i) == RotateRight(x, i)
    ensures Standard().rotr(x, j) == RotateRight(x, j)
    ensures Standard().rotr(x, k) == RotateRight(x, k)
  {
    RotationIsShifts(x, i);
    RotationIsShifts(x, j);
    RotationIsShifts(x, k);
  }

  lemma {:induction false} BitOfBits(b: seq<bool>, i: nat)
    requires i < |b|
    ensures Bit(FromBits(b), i) == b[i]
  {
    if i > 0 {
      BitOfBits(b[1..], i - 1);
    }
  }

  /** What the operations do to every bit. */
  lemma {:induction false} BitwiseOperations(x: nat, y: nat, i: nat)
    requires i < 32
    ensures var m := Standard();
            && Bit(m.xor(x, y), i) == (Bit(x, i) != Bit(y, i))
            && Bit(m.and(x, y), i) == (Bit(x, i) && Bit(y, i))
            && Bit(m.not(x), i) == !Bit(x, i)
  {
    BitOfBits(seq(32, j requires 0 <= j => Bit(x, j) != Bit(y, j)), i);
    BitOfBits(seq(32, j requires 0 <= j => Bit(x, j) && Bit(y, j)), i);
    BitOfBits(seq(32, j requires 0 <= j => !Bit(x, j)), i);
  }

  /** Ch takes its bits from the second or the third word, as the first one says. */
  lemma {:induction false} ChChooses(x: nat, y: nat, z: nat, i: nat)
    requires i < 32
    ensures Bit(Standard().Ch(x, y, z), i) == if Bit(x, i) then Bit(y, i) else Bit(z, i)
  {
    var m := Standard();
    BitwiseOperations(x, y, i);
    BitwiseOperations(m.not(x), z, i);
    BitwiseOperations(m.and(x, y), m.and(m.not(x), z), i);
  }

  /** Maj takes the bit that two of the three words have. */
  lemma {:induction false} MajIsMajority(x: nat, y: nat, z: nat, i: nat)
    requires i < 32
    ensures var a, b, c := Bit(x, i), Bit(y, i), Bit(z, i);
            Bit(Standard().Maj(x, y, z), i) == ((a && b) || (a && c) || (b && c))
  {
    var m := Standard();
    BitwiseOperations(x, y, i);
    BitwiseOperations(x, z, i);
    BitwiseOperations(y, z, i);
    BitwiseOperations(m.and(x, y), m.and(x, z), i);
    BitwiseOperations(m.xor(m.and(x, y), m.and(x, z)), m.and(y, z), i);
  }

  // ----- The digest of a file

  /** bp_sha256_file computes SHA-256 of the file, in lower-case hexadecimal. */
  method Sha256File(chunks: seq<seq<octet>>) returns (output: string)
    ensures output == Sha256.Hex(Standard().Digest(Sha256.Concat(chunks)))
    ensures |output| == 64
  {
    output := Sha256.FileDigest(Standard(), chunks);
  }
}
