/**
  SHA-256 as FIPS 180-4 defines it, on whole messages: the reference that the
  streaming context of module Sha256 is proved against.

  The bit operations of section 2.2.2 and the sixty-four constants come as a
  record, so every statement holds whatever they are; Sha256Constants.Standard
  is the record of the actual ones.
*/
module Sha256Spec {

  /** A 32-bit word as the number it stands for; sums are wrapped at 2^32. */
  type word = nat

  type octet = x: nat | x < 0x100

  /** The eight 32-bit words of a hash value or of the working variables. */
  datatype Words = Words(a: word, b: word, c: word, d: word, e: word, f: word, g: word, h: word)

  /** Section 5.3.3. */
  const H0 := Words(0x6a09e667, 0xbb67ae85, 0x3c6ef372, 0xa54ff53a,
                    0x510e527f, 0x9b05688c, 0x1f83d9ab, 0x5be0cd19)

  // ----- Section 3.2: addition

  /** Addition of words is addition modulo 2^32. */
  function Wrap(x: nat): word { x % 0x1_0000_0000 }

  function Add(x: word, y: word): word { Wrap(x + y) }

  lemma {:induction false} AddIsModulo(x: word, y: word)
    requires x < 0x1_0000_0000 && y < 0x1_0000_0000
    ensures Add(x, y) < 0x1_0000_0000 && (Add(x, y) == x + y || Add(x, y) + 0x1_0000_0000 == x + y)
  {
  }

  // ----- Section 5.1.1: padding

  /** The smallest number of zero octets that brings a message of n octets and
      its 0x80 to 56 modulo 64. */
  function ZeroCount(n: nat): (k: nat)
    ensures k < 64 && (n + 1 + k) % 64 == 56
  {
    (119 - n % 64) % 64
  }

  function Zeros(n: nat): (z: seq<octet>)
    ensures |z| == n && forall i :: 0 <= i < n ==> z[i] == 0
  {
    seq(n, i => 0)
  }

  /** The k low octets of n, most significant first. */
  function BigEndianOctets(n: nat, k: nat): (s: seq<octet>)
    ensures |s| == k
  {
    if k == 0 then [] else BigEndianOctets(n / 256, k - 1) + [n % 256]
  }

  lemma {:induction false} RoomForLength(n: nat)
    requires n % 64 == 56
    ensures (n + 8) % 64 == 0
  {
  }

  function Pad(m: seq<octet>): (p: seq<octet>)
    ensures |p| % 64 == 0 && m <= p
  {
    RoomForLength(|m| + 1 + ZeroCount(|m|));
    m + [0x80] + Zeros(ZeroCount(|m|)) + BigEndianOctets(8 * |m|, 8)
  }

  /** The number that octets spell, most significant first. */
  function Number(s: seq<octet>): nat {
    if s == [] then 0 else 256 * Number(s[..|s| - 1]) + s[|s| - 1]
  }

  function Pow256(k: nat): (p: nat)
    ensures p > 0
  {
    if k == 0 then 1 else 256 * Pow256(k - 1)
  }

  lemma {:induction false} OctetsSpell(n: nat, k: nat)
    requires n < Pow256(k)
    ensures Number(BigEndianOctets(n, k)) == n
  {
    if k > 0 {
      OctetsSpell(n / 256, k - 1);
      assert BigEndianOctets(n, k)[..k - 1] == BigEndianOctets(n / 256, k - 1);
    }
  }

  lemma {:induction false} Pow256Of8()
    ensures Pow256(8) == 0x1_0000_0000_0000_0000
  {
    assert Pow256(4) == 0x1_0000_0000;
  }

  /** Behind the message there is a one bit, then zero bits, and in the last eight
      octets the length of the message in bits. */
  lemma {:induction false} PadMeans(m: seq<octet>)
    requires |m| < 0x2000_0000_0000_0000
    ensures var p := Pad(m);
            && |m| + 9 <= |p| < |m| + 73 && |p| % 64 == 0 && p[..|m|] == m && p[|m|] == 0x80
            && (forall i :: |m| < i < |p| - 8 ==> p[i] == 0) && Number(p[|p| - 8..]) == 8 * |m|
  {
    var zeros, length := Zeros(ZeroCount(|m|)), BigEndianOctets(8 * |m|, 8);
    Pow256Of8();
    OctetsSpell(8 * |m|, 8);
    assert Pad(m) == m + [0x80] + zeros + length && Pad(m)[|Pad(m)| - 8..] == length;
  }

  // ----- Section 6.2: the hash computation

  function BigEndian(b0: octet, b1: octet, b2: octet, b3: octet): word {
    0x100_0000 * (b0 as nat) + 0x1_0000 * (b1 as nat) + 0x100 * (b2 as nat) + b3 as nat
  }

  lemma {:induction false} BigEndianIsNumber(b0: octet, b1: octet, b2: octet, b3: octet)
    ensures BigEndian(b0, b1, b2, b3) == Number([b0, b1, b2, b3])
  {
    assert [b0, b1, b2, b3][..3] == [b0, b1, b2] && [b0, b1, b2][..2] == [b0, b1] && [b0, b1][..1] == [b0];
    assert Number([b0]) == b0;
    assert Number([b0, b1]) == 256 * Number([b0]) + b1;
    assert Number([b0, b1, b2]) == 256 * Number([b0, b1]) + b2;
  }

  /** The hash value after every 64-octet block of s, where f is the compression step. */
  function Fold(f: (Words, seq<octet>) -> Words, v: Words, s: seq<octet>): Words
    requires |s| % 64 == 0
    decreases |s|
  {
    if s == [] then v else f(Fold(f, v, s[..|s| - 64]), s[|s| - 64..])
  }

  /** The octets of the words of s one after the other. */
  function AllOctets(s: seq<word>): (o: seq<octet>)
    ensures |o| == 4 * |s|
  {
    if s == [] then [] else AllOctets(s[..|s| - 1]) + BigEndianOctets(s[|s| - 1], 4)
  }

  function Output(v: Words): (s: seq<octet>)
    ensures |s| == 32
  {
    AllOctets([v.a, v.b, v.c, v.d, v.e, v.f, v.g, v.h])
  }

  datatype Machine = Machine(
    constants: seq<word>,
    xor: (word, word) -> word, and: (word, word) -> word, not: word -> word,
    shr: (word, nat) -> word, rotr: (word, nat) -> word)
  {
    // ----- Section 4.1.2: functions

    function Ch(x: word, y: word, z: word): word { xor(and(x, y), and(not(x), z)) }

    function Maj(x: word, y: word, z: word): word { xor(xor(and(x, y), and(x, z)), and(y, z)) }

    function BigSigma0(x: word): word { xor(xor(rotr(x, 2), rotr(x, 13)), rotr(x, 22)) }

    function BigSigma1(x: word): word { xor(xor(rotr(x, 6), rotr(x, 11)), rotr(x, 25)) }

    function SmallSigma0(x: word): word { xor(xor(rotr(x, 7), rotr(x, 18)), shr(x, 3)) }

    function SmallSigma1(x: word): word { xor(xor(rotr(x, 17), rotr(x, 19)), shr(x, 10)) }

    /** W_t from the four earlier words of the schedule that it is made of. */
    function Extend(w2: word, w7: word, w15: word, w16: word): word {
      Wrap(SmallSigma1(w2) + w7 + SmallSigma0(w15) + w16)
    }

    /** The words W_0 up to W_{t-1} of the message schedule of one 64-octet block. */
    function Schedule(block: seq<octet>, t: nat): (w: seq<word>)
      requires |block| == 64 && t <= 64
      ensures |w| == t
      decreases t, block
    {
      if t == 0 then []
      else
        var w := Schedule(block, t - 1);
        var i := t - 1;
        w + [if i < 16 then BigEndian(block[4 * i], block[4 * i + 1], block[4 * i + 2], block[4 * i + 3])
             else Extend(w[i - 2], w[i - 7], w[i - 15], w[i - 16])]
    }

    /** One round on the working variables p, with the constant k and the schedule word w. */
    function Round(p: Words, k: word, w: word): Words {
      var t1 := Wrap(p.h + BigSigma1(p.e) + Ch(p.e, p.f, p.g) + k + w);
      var t2 := Add(BigSigma0(p.a), Maj(p.a, p.b, p.c));
      Words(Add(t1, t2), p.a, p.b, p.c, Add(p.d, t1), p.e, p.f, p.g)
    }

    /** The working variables after t rounds with schedule w. */
    function Rounds(w: seq<word>, v: Words, t: nat): Words
      requires t <= |constants| == |w|
      decreases t, w
    {
      if t == 0 then v else Round(Rounds(w, v, t - 1), constants[t - 1], w[t - 1])
    }

    function Compress(v: Words, block: seq<octet>): Words
      requires |constants| == |block| == 64
    {
      var w := Rounds(Schedule(block, |block|), v, |constants|);
      Words(Add(v.a, w.a), Add(v.b, w.b), Add(v.c, w.c), Add(v.d, w.d),
            Add(v.e, w.e), Add(v.f, w.f), Add(v.g, w.g), Add(v.h, w.h))
    }

    /** The compression step as a function of any octets. */
    function Step(): (Words, seq<octet>) -> Words
      requires |constants| == 64
    {
      (v: Words, block: seq<octet>) => if |block| == 64 then Compress(v, block) else v
    }

    /** SHA-256 of the message m. */
    function Digest(m: seq<octet>): (d: seq<octet>)
      requires |constants| == 64
      ensures |d| == 32
    {
      Output(Fold(Step(), H0, Pad(m)))
    }
  }
}
