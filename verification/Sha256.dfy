/**
  The streaming SHA-256 of src/sha256.c: a context that buffers octets, runs the
  compression step over each full block and pads on the last call. The ghost
  field `message` is everything handed to Update so far; Valid says that the
  state is the fold over the full blocks of it and the buffer its tail.
*/
module Sha256 {
  import opened Sha256Spec

  const TwoTo64: nat := 0x1_0000_0000_0000_0000

  lemma {:induction false} OctetsOfWord(w: word)
    ensures BigEndianOctets(w, 4) == [w / 0x100_0000 % 256, w / 0x1_0000 % 256, w / 0x100 % 256, w % 256]
  {
    var o := BigEndianOctets(w, 4);
    WordShifts(w);
    assert o[0] == w / 0x100_0000 % 256 by { OctetIsShift(w, 4, 3); }
    assert o[1] == w / 0x1_0000 % 256 by { OctetIsShift(w, 4, 2); }
    assert o[2] == w / 0x100 % 256 by { OctetIsShift(w, 4, 1); }
    assert o[3] == w % 256 by { OctetIsShift(w, 4, 0); }
  }

  lemma {:induction false} WordShifts(w: word)
    ensures Shifted(w, 0) == w && Shifted(w, 1) == w / 0x100
    ensures Shifted(w, 2) == w / 0x1_0000 && Shifted(w, 3) == w / 0x100_0000
  {
    ShiftTwice(w, 0x100);
    ShiftTwice(w, 0x1_0000);
  }

  lemma {:induction false} ShiftTwice(w: nat, d: nat)
    requires d == 0x100 || d == 0x1_0000
    ensures w / d / 256 == w / (d * 256)
  {
  }

  /** n shifted right by i octets. */
  function Shifted(n: nat, i: nat): nat {
    if i == 0 then n else Shifted(n, i - 1) / 256
  }

  lemma {:induction false} ShiftedFirst(n: nat, i: nat)
    requires i > 0
    ensures Shifted(n, i) == Shifted(n / 256, i - 1)
  {
    if i > 1 {
      ShiftedFirst(n, i - 1);
    }
  }

  lemma {:induction false} OctetIsShift(n: nat, k: nat, i: nat)
    requires i < k
    ensures BigEndianOctets(n, k)[k - 1 - i] == Shifted(n, i) % 256
  {
    if i > 0 {
      OctetIsShift(n / 256, k - 1, i - 1);
      ShiftedFirst(n, i);
    }
  }

  /** Numbers that differ by a multiple of Pow256(k) have the same last k octets. */
  lemma {:induction false} SameOctets(n: nat, m: nat, k: nat, q: nat)
    requires n == Pow256(k) * q + m
    ensures BigEndianOctets(n, k) == BigEndianOctets(m, k)
  {
    if k > 0 {
      var p := Pow256(k - 1);
      Associate(Pow256(k), p, q);
      DropOctet(n, p * q, m);
      SameOctets(n / 256, m / 256, k - 1, q);
    }
  }

  lemma {:induction false} Associate(d: nat, p: nat, q: nat)
    requires d == 256 * p
    ensures d * q == 256 * (p * q)
  {
  }

  lemma {:induction false} DropOctet(n: nat, x: nat, m: nat)
    requires n == 256 * x + m
    ensures n / 256 == x + m / 256 && n % 256 == m % 256
  {
  }

  /** The wrap-around of the 64-bit counter is the truncation to the length field. */
  lemma {:induction false} LengthWraps(n: nat)
    ensures BigEndianOctets(n % TwoTo64, 8) == BigEndianOctets(n, 8)
  {
    Pow256Of8();
    SameOctets(n, n % TwoTo64, 8, n / TwoTo64);
  }

  /** Writes words most significant octet first. */
  method WriteWords(words: seq<word>) returns (digest: seq<octet>)
    ensures digest == AllOctets(words)
  {
    digest := [];
    for index := 0 to |words|
      invariant digest == AllOctets(words[..index])
    {
      var w := words[index];
      OctetsOfWord(w);
      assert words[..index + 1][..index] == words[..index];
      digest := digest + [w / 0x100_0000 % 256, w / 0x1_0000 % 256, w / 0x100 % 256, w % 256];
    }
    assert words[..|words|] == words;
  }

  /** The message schedule of one block: its sixteen words, and forty-eight more. */
  method PrepareSchedule(m: Machine, block: seq<octet>) returns (words: seq<word>)
    requires |block| == 64
    ensures words == m.Schedule(block, |block|)
  {
    words := LoadWords(m, block);
    words := ExtendSchedule(m, block, words);
  }

  method LoadWords(m: Machine, block: seq<octet>) returns (words: seq<word>)
    requires |block| == 64
    ensures |words| == 16 && words == m.Schedule(block, |words|)
  {
    words := [];
    for index := 0 to 16
      invariant words == m.Schedule(block, index)
    {
      words := words + [BigEndian(block[4 * index], block[4 * index + 1], block[4 * index + 2], block[4 * index + 3])];
    }
  }

  method NextWord(m: Machine, w16: word, w15: word, w7: word, w2: word) returns (w: word)
    ensures w == m.Extend(w2, w7, w15, w16)
  {
    var s0 := m.xor(m.xor(m.rotr(w15, 7), m.rotr(w15, 18)), m.shr(w15, 3));
    var s1 := m.xor(m.xor(m.rotr(w2, 17), m.rotr(w2, 19)), m.shr(w2, 10));
    w := Wrap(w16 + s0 + w7 + s1);
  }

  method ExtendSchedule(m: Machine, ghost block: seq<octet>, first: seq<word>) returns (words: seq<word>)
    requires |block| == 64 && |first| == 16 && first == m.Schedule(block, |first|)
    ensures words == m.Schedule(block, |block|)
  {
    words := first;
    for index := 16 to 64
      invariant words == m.Schedule(block, index)
    {
      var word := NextWord(m, words[index - 16], words[index - 15], words[index - 7], words[index - 2]);
      words := words + [word];
    }
  }

  /** The two temporaries of a round. */
  method Temporaries(m: Machine, v: Words, k: word, w: word) returns (t1: word, t2: word)
    ensures t1 == Wrap(v.h + m.BigSigma1(v.e) + m.Ch(v.e, v.f, v.g) + k + w)
    ensures t2 == Add(m.BigSigma0(v.a), m.Maj(v.a, v.b, v.c))
  {
    var sum1 := m.xor(m.xor(m.rotr(v.e, 6), m.rotr(v.e, 11)), m.rotr(v.e, 25));
    var choice := m.xor(m.and(v.e, v.f), m.and(m.not(v.e), v.g));
    t1 := Wrap(v.h + sum1 + choice + k + w);
    var sum0 := m.xor(m.xor(m.rotr(v.a, 2), m.rotr(v.a, 13)), m.rotr(v.a, 22));
    var majority := m.xor(m.xor(m.and(v.a, v.b), m.and(v.a, v.c)), m.and(v.b, v.c));
    t2 := Add(sum0, majority);
  }

  /** One turn of the loop over the rounds: the eight variables move up. */
  method RunRound(m: Machine, v: Words, k: word, x: word) returns (w: Words)
    ensures w == m.Round(v, k, x)
  {
    var a, b, c, d := v.a, v.b, v.c, v.d;
    var e, f, g, h := v.e, v.f, v.g, v.h;
    var temporary1, temporary2 := Temporaries(m, v, k, x);
    h := g;
    g := f;
    f := e;
    e := Add(d, temporary1);
    d := c;
    c := b;
    b := a;
    a := Add(temporary1, temporary2);
    w := Words(a, b, c, d, e, f, g, h);
  }

  /** The rolling update of the eight working variables. */
  method RunRounds(m: Machine, words: seq<word>, v: Words) returns (w: Words)
    requires |m.constants| == |words| == 64
    ensures w == m.Rounds(words, v, |words|)
  {
    w := v;
    for index := 0 to |words|
      invariant w == m.Rounds(words, v, index)
    {
      w := RunRound(m, w, m.constants[index], words[index]);
    }
  }

  lemma {:induction false} ZeroCountIs(full: nat, n: nat)
    requires full % 64 == 0 && n < 64
    ensures ZeroCount(full + n) == if n < 56 then 55 - n else 119 - n
  {
  }

  lemma {:induction false} FoldBlock(f: (Words, seq<octet>) -> Words, v: Words, s: seq<octet>, block: seq<octet>)
    requires |s| % 64 == 0 && |block| == 64
    ensures Fold(f, v, s + block) == f(Fold(f, v, s), block)
  {
    assert (s + block)[..|s|] == s && (s + block)[|s|..] == block;
  }

  lemma {:induction false} Regroup(a: seq<octet>, b: seq<octet>, c: seq<octet>)
    ensures a + b + c == a + (b + c)
  {
  }

  lemma {:induction false} CountBits(n: nat, k: nat)
    ensures (8 * n % TwoTo64 + k * 8) % TwoTo64 == 8 * (n + k) % TwoTo64
  {
  }

  class Context {
    const m: Machine
    ghost const step: (Words, seq<octet>) -> Words
    var state: Words
    const buffer: array<octet>
    var bitCount: nat
    var bufferSize: nat
    ghost var message: seq<octet>
    ghost var blocks: seq<octet>

    ghost predicate Shaped()
    {
      && |m.constants| == 64 && buffer.Length == 64
      && forall v, block {:trigger m.Compress(v, block)} :: |block| == 64 ==> m.Compress(v, block) == step(v, block)
    }

    ghost predicate Valid()
      reads this, buffer
    {
      Shaped() && Absorbed() && bitCount == 8 * |message| % TwoTo64
    }

    /** The message is its full blocks, whose fold is the state, and what is buffered. */
    ghost predicate Absorbed()
      requires Shaped()
      reads this, buffer
    {
      && bufferSize < 64 && |blocks| % 64 == 0
      && message == blocks + buffer[..bufferSize]
      && state == Fold(step, H0, blocks)
    }

    constructor (m: Machine)
      requires |m.constants| == 64
      ensures Valid() && message == []
      ensures this.m == m && step == m.Step() && fresh(buffer)
    {
      this.m := m;
      step := m.Step();
      state := H0;
      buffer := new octet[64](i => 0);
      bitCount := 0;
      bufferSize := 0;
      message := [];
      blocks := [];
    }

    /** One call of the compression step on the whole buffer. */
    method Transform()
      requires Shaped()
      modifies this`state
      ensures state == step(old(state), buffer[..])
    {
      var words := PrepareSchedule(m, buffer[..]);
      var w := RunRounds(m, words, state);
      assert step(state, buffer[..]) == m.Compress(state, buffer[..]);
      state := Words(Add(state.a, w.a), Add(state.b, w.b), Add(state.c, w.c), Add(state.d, w.d),
                     Add(state.e, w.e), Add(state.f, w.f), Add(state.g, w.g), Add(state.h, w.h));
    }

    method Update(data: seq<octet>)
      requires Valid()
      modifies this, buffer
      ensures Valid() && message == old(message) + data
    {
      CountBits(|message|, |data|);
      bitCount := (bitCount + |data| * 8) % TwoTo64;
      AbsorbAll(data);
    }

    /** The loop of sha256_update. */
    method AbsorbAll(data: seq<octet>)
      requires Shaped() && Absorbed()
      modifies this`state, this`bufferSize, this`message, this`blocks, buffer
      ensures Shaped() && Absorbed() && message == old(message) + data
    {
      var rest := data;
      while |rest| > 0
        invariant Shaped() && Absorbed() && message + rest == old(message) + data
      {
        ghost var before := message;
        var count := Absorb(rest);
        Regroup(before, rest[..count], rest[count..]);
        assert rest[..count] + rest[count..] == rest;
        rest := rest[count..];
      }
      assert message + [] == message;
    }

    /** One turn of the update loop: as many octets as the buffer takes. */
    method Absorb(rest: seq<octet>) returns (count: nat)
      requires Shaped() && Absorbed() && |rest| > 0
      modifies this`state, this`bufferSize, this`message, this`blocks, buffer
      ensures Shaped() && Absorbed()
      ensures 0 < count <= |rest| && message == old(message) + rest[..count]
    {
      var available := 64 - bufferSize;
      count := if |rest| < available then |rest| else available;
      CopyIn(rest[..count]);
      bufferSize := bufferSize + count;
      message := message + rest[..count];
      assert message == blocks + buffer[..bufferSize];
      if bufferSize == 64 {
        CloseBlock();
      }
    }

    /** The compression step over a full buffer, which is then free again. */
    method CloseBlock()
      requires Shaped() && |blocks| % 64 == 0 && state == Fold(step, H0, blocks)
      modifies this`state, this`bufferSize, this`blocks
      ensures bufferSize == 0 && blocks == old(blocks) + buffer[..] && |blocks| % 64 == 0
      ensures state == Fold(step, H0, blocks)
    {
      Transform();
      FoldBlock(step, H0, blocks, buffer[..]);
      blocks := blocks + buffer[..];
      bufferSize := 0;
    }

    /** memcpy to the end of the buffered octets. */
    method CopyIn(data: seq<octet>)
      requires Shaped() && bufferSize + |data| <= 64
      modifies buffer
      ensures buffer[..bufferSize + |data|] == old(buffer[..bufferSize]) + data
    {
      forall i | 0 <= i < |data| {
        buffer[bufferSize + i] := data[i];
      }
    }

    /** memset of part of the buffer to zero. */
    method Clear(from: nat, to: nat)
      requires Shaped() && from <= to <= 64
      modifies buffer
      ensures buffer[..] == old(buffer[..from]) + Zeros(to - from) + old(buffer[to..])
    {
      forall i | from <= i < to {
        buffer[i] := 0;
      }
    }

    /** The bit count in the last eight octets of the buffer, big-endian. */
    method WriteLength()
      requires Shaped() && bitCount < TwoTo64
      modifies buffer
      ensures buffer[..56] == old(buffer[..56])
      ensures buffer[56..] == BigEndianOctets(bitCount, 8)
    {
      for index := 0 to 8
        invariant buffer[..56] == old(buffer[..56])
        invariant forall j :: 8 - index <= j < 8 ==> buffer[56 + j] == BigEndianOctets(bitCount, 8)[j]
      {
        OctetIsShift(bitCount, 8, index);
        buffer[63 - index] := Shifted(bitCount, index) % 256;
      }
    }

    /** The 0x80 octet, and zeros to the end of the block if the length does not fit in it. */
    method AppendMarker() returns (ghost zeros: nat)
      requires Valid()
      modifies this`state, this`bufferSize, this`blocks, buffer
      ensures bufferSize <= 56 && |blocks| % 64 == 0 && state == Fold(step, H0, blocks)
      ensures zeros + 56 - bufferSize == ZeroCount(|message|) && message == old(message)
      ensures blocks + buffer[..bufferSize] == message + [0x80] + Zeros(zeros)
    {
      ghost var all := ZeroCount(|message|);
      assert all == if bufferSize < 56 then 55 - bufferSize else 119 - bufferSize by {
        ZeroCountIs(|blocks|, bufferSize);
      }
      buffer[bufferSize] := 0x80;
      bufferSize := bufferSize + 1;
      assert blocks + buffer[..bufferSize] == message + [0x80];
      zeros := 0;
      if bufferSize > 56 {
        zeros := 64 - bufferSize;
        Clear(bufferSize, 64);
        assert blocks + buffer[..] == message + [0x80] + Zeros(zeros);
        CloseBlock();
      }
    }

    /** The 0x80 octet and the zeros up to the length field. */
    method AppendPadding()
      requires Valid()
      modifies this`state, this`bufferSize, this`blocks, buffer
      ensures |blocks| % 64 == 0 && state == Fold(step, H0, blocks)
      ensures blocks + buffer[..56] == message + [0x80] + Zeros(ZeroCount(|message|))
    {
      ghost var zeros := AppendMarker();
      ghost var before := blocks + buffer[..bufferSize];
      Clear(bufferSize, 56);
      assert blocks + buffer[..56] == before + Zeros(56 - bufferSize);
      assert Zeros(zeros) + Zeros(56 - bufferSize) == Zeros(ZeroCount(|message|));
    }

    /** The padding and the length field, and the compression of the last block. */
    method FinishBlocks()
      requires Valid()
      modifies this`state, this`bufferSize, this`blocks, buffer
      ensures state == Fold(step, H0, Pad(message))
    {
      AppendPadding();
      LengthWraps(8 * |message|);
      WriteLength();
      assert buffer[..] == buffer[..56] + buffer[56..];
      Regroup(blocks, buffer[..56], buffer[56..]);
      CloseBlock();
    }

    method Final() returns (digest: seq<octet>)
      requires Valid()
      modifies this, buffer
      ensures digest == Output(Fold(step, H0, Pad(old(message))))
      ensures message == old(message)
    {
      FinishBlocks();
      digest := WriteWords([state.a, state.b, state.c, state.d, state.e, state.f, state.g, state.h]);
    }
  }

  // ----- bp_sha256_file

  function Concat(chunks: seq<seq<octet>>): seq<octet> {
    if chunks == [] then [] else Concat(chunks[..|chunks| - 1]) + chunks[|chunks| - 1]
  }

  const hexadecimal := "0123456789abcdef"

  predicate IsHexDigit(c: char) { '0' <= c <= '9' || 'a' <= c <= 'f' }

  lemma {:induction false} HexDigitIs(d: nat)
    requires d < 16
    ensures hexadecimal[d] == if d < 10 then '0' + d as char else 'a' + (d - 10) as char
  {
  }

  /** The texts of the octets, one behind the other. */
  function Spell(pair: octet -> string, d: seq<octet>): string {
    if d == [] then "" else Spell(pair, d[..|d| - 1]) + pair(d[|d| - 1])
  }

  /** Two lower-case hexadecimal digits for every octet. */
  function Hex(d: seq<octet>): string { Spell(HexPair, d) }

  lemma {:induction false} HexIsHexadecimal(d: seq<octet>)
    ensures |Hex(d)| == 2 * |d|
    ensures forall i :: 0 <= i < |Hex(d)| ==> IsHexDigit(Hex(d)[i])
  {
    if d != [] {
      HexIsHexadecimal(d[..|d| - 1]);
    }
  }

  function HexPair(o: octet): (h: string)
    ensures |h| == 2 && IsHexDigit(h[0]) && IsHexDigit(h[1])
  {
    [hexadecimal[o / 16], hexadecimal[o % 16]]
  }

  /** The digest of a file that is read in the given chunks, as text. */
  method FileDigest(m: Machine, chunks: seq<seq<octet>>) returns (output: string)
    requires |m.constants| == 64
    ensures output == Hex(m.Digest(Concat(chunks)))
    ensures |output| == 64
  {
    var context := new Context(m);
    for i := 0 to |chunks|
      invariant context.Valid() && context.m == m && context.step == m.Step() && fresh(context) && fresh(context.buffer)
      invariant context.message == Concat(chunks[..i])
    {
      context.Update(chunks[i]);
      assert chunks[..i + 1][..i] == chunks[..i];
    }
    assert chunks[..|chunks|] == chunks;
    var digest := context.Final();
    output := PrintHex(digest);
    HexIsHexadecimal(digest);
  }

  method PrintHex(digest: seq<octet>) returns (output: string)
    ensures output == Hex(digest)
  {
    output := "";
    for i := 0 to |digest|
      invariant output == Hex(digest[..i])
    {
      output := output + [hexadecimal[digest[i] / 16], hexadecimal[digest[i] % 16]];
      assert digest[..i + 1][..i] == digest[..i];
    }
    assert digest[..|digest|] == digest;
  }

  /** Hex is injective: equal texts come from equal digests. */
  lemma {:induction false} HexInjective(d: seq<octet>, e: seq<octet>)
    requires Hex(d) == Hex(e)
    ensures d == e
  {
    if d != [] && e != [] {
      var d', e', x, y := d[..|d| - 1], e[..|e| - 1], d[|d| - 1], e[|e| - 1];
      SameEnds(Hex(d'), Hex(e'), HexPair(x), HexPair(y));
      PairInjective(x, y);
      HexInjective(d', e');
      assert d == d' + [x] && e == e' + [y];
    }
  }

  lemma {:induction false} SameEnds(a: string, b: string, x: string, y: string)
    requires a + x == b + y && |x| == |y|
    ensures a == b && x == y
  {
    assert (a + x)[..|a|] == a && (b + y)[..|b|] == b;
    assert (a + x)[|a|..] == x && (b + y)[|b|..] == y;
  }

  lemma {:induction false} PairInjective(i: octet, j: octet)
    requires HexPair(i) == HexPair(j)
    ensures i == j
  {
    assert HexPair(i)[0] == HexPair(j)[0] && HexPair(i)[1] == HexPair(j)[1];
    DigitsDiffer(i / 16, j / 16);
    DigitsDiffer(i % 16, j % 16);
  }

  lemma {:induction false} DigitsDiffer(a: nat, b: nat)
    requires a < 16 && b < 16 && hexadecimal[a] == hexadecimal[b]
    ensures a == b
  {
  }
}
