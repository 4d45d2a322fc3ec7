/**
 AES-CCM-16-64-128 as the driver computes it, over an arbitrary block function: RFC 3610 with L = 2 and
 M = 8, for the AAD and messages whose lengths fit the driver's two-byte fields. These are the values the
 driver in Aes.dfy is proved to compute, and what the mode promises about them.
 */
module Ccm {
  import opened Common

  type Block = b: seq<byte> | |b| == 16 witness seq(16, _ => 0)
  type Nonce = n: seq<byte> | |n| == 13 witness seq(13, _ => 0)
  /** The block cipher: `E(key, block)`. Nothing is assumed about it. */
  type Cipher = (Block, Block) -> Block

  const ZERO: Block := seq(16, _ => 0)
  /** AAD of this length or more does not fit the two-byte length prefix. */
  const AAD_LIMIT: nat := 0xff00

  // ---- Bytes ----

  function Pow2(n: nat): (p: nat)
    ensures p > 0
  {
    if n == 0 then 1 else 2 * Pow2(n - 1)
  }

  function XorBits(width: nat, a: nat, b: nat): (x: nat)
    requires a < Pow2(width) && b < Pow2(width)
    ensures x < Pow2(width)
  {
    if width == 0 then 0 else (a + b) % 2 + 2 * XorBits(width - 1, a / 2, b / 2)
  }

  lemma LowBit(bit: nat, half: nat)
    requires bit < 2
    ensures (bit + 2 * half) % 2 == bit && (bit + 2 * half) / 2 == half
  {
  }

  lemma LowBits(x: nat, a: nat, b: nat)
    requires x % 2 == (a + b) % 2
    ensures (x + b) % 2 == a % 2
  {
  }

  lemma Halves(a: nat, b: nat)
    requires a % 2 == b % 2 && a / 2 == b / 2
    ensures a == b
  {
  }

  /** The low bit of a XOR, and the other bits. */
  lemma XorSplits(width: nat, a: nat, b: nat)
    requires 0 < width && a < Pow2(width) && b < Pow2(width)
    ensures XorBits(width, a, b) % 2 == (a + b) % 2
    ensures XorBits(width, a, b) / 2 == XorBits(width - 1, a / 2, b / 2)
  {
    LowBit((a + b) % 2, XorBits(width - 1, a / 2, b / 2));
  }

  lemma {:induction false} XorBitsCancels(width: nat, a: nat, b: nat)
    requires a < Pow2(width) && b < Pow2(width)
    ensures XorBits(width, XorBits(width, a, b), b) == a
  {
    if width == 0 {
    } else {
      var x := XorBits(width, a, b);
      XorSplits(width, a, b);
      XorSplits(width, x, b);
      XorBitsCancels(width - 1, a / 2, b / 2);
      LowBits(x, a, b);
      Halves(XorBits(width, x, b), a);
    }
  }

  lemma ByteFits()
    ensures Pow2(8) == 256
  {
  }

  function Xor(a: byte, b: byte): byte {
    ByteFits();
    XorBits(8, a, b)
  }

  lemma HalfThenDivide(n: nat, p: nat)
    requires 0 < p
    ensures n / (2 * p) == n / 2 / p
  {
    var q, r := n / 2 / p, n / 2 % p;
    assert n / 2 == p * q + r;
    Doubled(p, q);
    QuotientIs(n, 2 * p, q, 2 * r + n % 2);
  }

  lemma Multiples(d: nat, a: nat, b: nat)
    requires a < b
    ensures d * a + d <= d * b
  {
    assert d * b == d * a + d * (b - a);
    assert d * (b - a) == d + d * (b - a - 1);
  }

  lemma QuotientIs(n: nat, d: nat, q: nat, r: nat)
    requires 0 < d && n == d * q + r && r < d
    ensures n / d == q
  {
    var m := n / d;
    assert n == d * m + n % d;
    if m < q {
      Multiples(d, m, q);
    } else if q < m {
      Multiples(d, q, m);
    }
  }

  lemma Doubled(p: nat, q: nat)
    ensures (2 * p) * q == 2 * (p * q)
  {
  }

  /** Bit `i` of `n`. */
  function Bit(n: nat, i: nat): nat {
    if i == 0 then n % 2 else Bit(n / 2, i - 1)
  }

  lemma {:induction false} BitIsDigit(n: nat, i: nat)
    ensures Bit(n, i) == n / Pow2(i) % 2
  {
    if i == 0 {
    } else {
      BitIsDigit(n / 2, i - 1);
      HalfThenDivide(n, Pow2(i - 1));
    }
  }

  /** Every bit of `x` is the sum of those of `a` and `b`, without carry. */
  ghost predicate BitSum(x: byte, a: byte, b: byte) {
    forall i :: 0 <= i < 8 ==> Bit(x, i) == (Bit(a, i) + Bit(b, i)) % 2
  }

  lemma SumOfLowBits(a: nat, b: nat)
    ensures (a % 2 + b % 2) % 2 == (a + b) % 2
  {
  }

  lemma {:induction false} XorBitsAt(width: nat, a: nat, b: nat, i: nat)
    requires i < width && a < Pow2(width) && b < Pow2(width)
    ensures Bit(XorBits(width, a, b), i) == (Bit(a, i) + Bit(b, i)) % 2
  {
    XorSplits(width, a, b);
    if i == 0 {
      SumOfLowBits(a, b);
    } else {
      XorBitsAt(width - 1, a / 2, b / 2, i - 1);
    }
  }

  /** Numbers of one width that agree in every bit are equal. */
  lemma {:induction false} SameBits(width: nat, x: nat, y: nat)
    requires x < Pow2(width) && y < Pow2(width)
    requires forall i :: 0 <= i < width ==> Bit(x, i) == Bit(y, i)
    ensures x == y
  {
    if width == 0 {
    } else {
      assert Bit(x, 0) == Bit(y, 0);
      forall i | 0 <= i < width - 1
        ensures Bit(x / 2, i) == Bit(y / 2, i)
      {
        assert Bit(x, i + 1) == Bit(y, i + 1);
      }
      SameBits(width - 1, x / 2, y / 2);
      Halves(x, y);
    }
  }

  /** `Xor` is the exclusive or of bytes. */
  lemma XorIsBitSum(a: byte, b: byte)
    ensures BitSum(Xor(a, b), a, b)
  {
    ByteFits();
    forall i | 0 <= i < 8
      ensures Bit(Xor(a, b), i) == (Bit(a, i) + Bit(b, i)) % 2
    {
      XorBitsAt(8, a, b, i);
    }
  }

  /** And nothing else is. */
  lemma BitSumIsXor(x: byte, a: byte, b: byte)
    requires BitSum(x, a, b)
    ensures x == Xor(a, b)
  {
    ByteFits();
    XorIsBitSum(a, b);
    var y := Xor(a, b);
    forall i | 0 <= i < 8
      ensures Bit(x, i) == Bit(y, i)
    {
    }
    SameBits(8, x, y);
  }

  lemma XorCancels(a: byte, b: byte)
    ensures Xor(Xor(a, b), b) == a
  {
    ByteFits();
    XorBitsCancels(8, a, b);
  }

  function XorSeq(a: seq<byte>, b: seq<byte>): (x: seq<byte>)
    requires |a| <= |b|
    ensures |x| == |a|
  {
    seq(|a|, i requires 0 <= i < |a| => Xor(a[i], b[i]))
  }

  /** The two big-endian bytes of `n`, truncated to 16 bits. */
  function Be16(n: nat): (b: seq<byte>)
    ensures |b| == 2
  {
    [n / 256 % 256, n % 256]
  }

  // ---- Blocks ----

  function Pad(s: seq<byte>): Block
    requires |s| <= 16
  {
    s + seq(16 - |s|, _ => 0)
  }

  function BlockCount(length: nat): nat {
    (length + 15) / 16
  }

  function Chunk(s: seq<byte>, k: nat): Block
    requires k < BlockCount(|s|)
  {
    Pad(s[16 * k..Min(16 * k + 16, |s|)])
  }

  /** `s` in 16-byte blocks, the last one zero-padded. */
  function Blocks(s: seq<byte>): (bs: seq<Block>)
    ensures |bs| == BlockCount(|s|)
  {
    seq(BlockCount(|s|), k requires 0 <= k < BlockCount(|s|) => Chunk(s, k))
  }

  lemma ChunkOfPrefix(s: seq<byte>, k: nat, j: nat)
    requires j < k && 16 * k <= |s|
    ensures Chunk(s[..16 * k], j) == Chunk(s, j)
  {
    SliceOfPrefix(s, 16 * k, 16 * j, 16 * j + 16);
  }

  /** The last block, and the whole blocks before it. */
  lemma BlocksLast(s: seq<byte>, k: nat)
    requires 16 * k < |s| <= 16 * k + 16
    ensures Blocks(s) == Blocks(s[..16 * k]) + [Pad(s[16 * k..])]
  {
    var init := s[..16 * k];
    assert BlockCount(|s|) == k + 1 && BlockCount(|init|) == k;
    forall j | 0 <= j < k
      ensures Chunk(s, j) == Chunk(init, j)
    {
      ChunkOfPrefix(s, k, j);
    }
    assert Chunk(s, k) == Pad(s[16 * k..]);
  }

  lemma ByteOfBlock(s: seq<byte>, i: nat)
    requires i < |s|
    ensures Blocks(s)[i / 16][i % 16] == s[i]
  {
  }

  /** Padding loses only the length. */
  lemma BlocksInjective(s: seq<byte>, t: seq<byte>)
    requires |s| == |t| && Blocks(s) == Blocks(t)
    ensures s == t
  {
    forall i | 0 <= i < |s|
      ensures s[i] == t[i]
    {
      assert Blocks(s)[i / 16] == Blocks(t)[i / 16];
      ByteOfBlock(s, i);
      ByteOfBlock(t, i);
    }
  }

  // ---- The MAC (section 2.2) ----

  /** `B_0`: flags, nonce and message length. */
  function B0(nonce: Nonce, messageLen: nat, aadLen: nat): Block {
    [(if aadLen > 0 then 64 else 0) + 8 * ((8 - 2) / 2) + (2 - 1)] + nonce + Be16(messageLen)
  }

  function AadStream(aad: seq<byte>): seq<byte> {
    if aad == [] then [] else Be16(|aad|) + aad
  }

  function AadBlocks(aad: seq<byte>): seq<Block> {
    Blocks(AadStream(aad))
  }

  /** The length prefix section 2.2 of RFC 3610 asks for, in two, six or ten bytes. */
  function RfcPrefix(length: nat): seq<byte> {
    if length == 0 then []
    else if length < AAD_LIMIT then Be16(length)
    else if length < TWO32 then [0xff, 0xfe] + Be16(length / TWO16) + Be16(length)
    else [0xff, 0xff] + Be16(length / (TWO32 * TWO16)) + Be16(length / TWO32) + Be16(length / TWO16) + Be16(length)
  }

  /** The number some bytes stand for, high byte first. */
  function BeValue(s: seq<byte>): int {
    if s == [] then 0 else 256 * BeValue(s[..|s| - 1]) + s[|s| - 1]
  }

  lemma BeValueGrows(s: seq<byte>, n: nat)
    ensures BeValue(s + Be16(n)) == TWO16 * BeValue(s) + n % TWO16
  {
    var t := s + [n / 256 % 256];
    assert s + Be16(n) == t + [n % 256];
    assert (t + [n % 256])[..|t|] == t && t[..|s|] == s;
    assert n % TWO16 == 256 * (n / 256 % 256) + n % 256;
  }

  lemma BeValueNext(s: seq<byte>, n: nat)
    requires BeValue(s) == n / TWO16
    ensures BeValue(s + Be16(n)) == n
  {
    BeValueGrows(s, n);
  }

  /** The prefix can be told by its first two bytes, and stands for the length. */
  lemma RfcPrefixReads(length: nat)
    requires 0 < length < TWO64
    ensures var s := RfcPrefix(length);
            || (length < 0xff00 && |s| == 2 && BeValue(s) == length)
            || (0xff00 <= length < TWO32 && s[..2] == [0xff, 0xfe] && |s| == 6 && BeValue(s[2..]) == length)
            || (TWO32 <= length && s[..2] == [0xff, 0xff] && |s| == 10 && BeValue(s[2..]) == length)
  {
    var s := RfcPrefix(length);
    if length < AAD_LIMIT {
      BeValueNext([], length);
      assert [] + Be16(length) == s;
    } else if length < TWO32 {
      BeValueNext([], length / TWO16);
      BeValueNext([] + Be16(length / TWO16), length);
      assert s[2..] == [] + Be16(length / TWO16) + Be16(length);
    } else {
      BeValueNext([], length / (TWO32 * TWO16));
      BeValueNext([] + Be16(length / (TWO32 * TWO16)), length / TWO32);
      BeValueNext([] + Be16(length / (TWO32 * TWO16)) + Be16(length / TWO32), length / TWO16);
      BeValueNext([] + Be16(length / (TWO32 * TWO16)) + Be16(length / TWO32) + Be16(length / TWO16), length);
      assert s[2..] == [] + Be16(length / (TWO32 * TWO16)) + Be16(length / TWO32) + Be16(length / TWO16) + Be16(length);
    }
  }

  /** What the driver MACs before the message is what the RFC asks for exactly for AAD below the limit, which
      the driver only asserts in debug builds. */
  lemma AadStreamIsRfcIff(aad: seq<byte>)
    ensures AadStream(aad) == RfcPrefix(|aad|) + aad <==> |aad| < 0xff00
  {
    if AAD_LIMIT <= |aad| {
      assert |RfcPrefix(|aad|) + aad| > |AadStream(aad)|;
    }
  }

  function MacInput(nonce: Nonce, aad: seq<byte>, message: seq<byte>): seq<Block> {
    [B0(nonce, |message|, |aad|)] + AadBlocks(aad) + Blocks(message)
  }

  function Cbc(E: Cipher, key: Block, bs: seq<Block>): Block
    decreases |bs|
  {
    if bs == [] then ZERO
    else E(key, XorSeq(Cbc(E, key, bs[..|bs| - 1]), bs[|bs| - 1]))
  }

  /** Feeding one more block takes the accumulator one step on. */
  lemma CbcNext(E: Cipher, key: Block, bs: seq<Block>, b: Block)
    ensures Cbc(E, key, bs + [b]) == E(key, XorSeq(Cbc(E, key, bs), b))
  {
    assert (bs + [b])[..|bs|] == bs;
  }

  lemma MacInputParts(nonce: Nonce, aad: seq<byte>, message: seq<byte>)
    ensures MacInput(nonce, aad, message)[0] == B0(nonce, |message|, |aad|)
    ensures MacInput(nonce, aad, message)[1..] == AadBlocks(aad) + Blocks(message)
  {
  }

  lemma SameTail(p: seq<Block>, r1: seq<Block>, r2: seq<Block>)
    requires |r1| == |r2| && p + r1 <= p + r2
    ensures r1 == r2
  {
    assert r1 == (p + r1)[|p|..] == (p + r2)[|p|..] == r2;
  }

  lemma Be16Injective(m: nat, n: nat)
    requires m < TWO16 && n < TWO16 && Be16(m) == Be16(n)
    ensures m == n
  {
  }

  lemma B0Injective(n1: Nonce, m1: nat, a1: nat, n2: Nonce, m2: nat, a2: nat)
    requires m1 < TWO16 && m2 < TWO16 && B0(n1, m1, a1) == B0(n2, m2, a2)
    ensures n1 == n2 && m1 == m2 && (a1 > 0 <==> a2 > 0)
  {
    var b1, b2 := B0(n1, m1, a1), B0(n2, m2, a2);
    assert n1 == b1[1..14] == b2[1..14] == n2;
    assert Be16(m1) == b1[14..] == b2[14..] == Be16(m2);
    Be16Injective(m1, m2);
    assert b1[0] == b2[0];
  }

  lemma PrefixedLength(aad: seq<byte>)
    requires aad != []
    ensures AadBlocks(aad)[0][..2] == Be16(|aad|)
  {
  }

  lemma AadBlocksPrefixFree(a1: seq<byte>, rest1: seq<Block>, a2: seq<byte>, rest2: seq<Block>)
    requires |a1| < AAD_LIMIT && |a2| < AAD_LIMIT && (a1 == [] <==> a2 == [])
    requires AadBlocks(a1) + rest1 <= AadBlocks(a2) + rest2
    ensures a1 == a2
  {
    if a1 != [] {
      var p1, p2 := AadBlocks(a1), AadBlocks(a2);
      assert p1[0] == (p1 + rest1)[0] == (p2 + rest2)[0] == p2[0];
      PrefixedLength(a1);
      PrefixedLength(a2);
      Be16Injective(|a1|, |a2|);
      assert p1 == (p1 + rest1)[..|p1|] == (p2 + rest2)[..|p1|] == p2;
      BlocksInjective(Be16(|a1|) + a1, Be16(|a2|) + a2);
      assert a1 == (Be16(|a1|) + a1)[2..] == (Be16(|a2|) + a2)[2..] == a2;
    }
  }

  /** One input's blocks never begin another's, unless they are the same input: the requirement on
      the encoding that makes CBC-MAC usable at all. */
  lemma MacInputPrefixFree(n1: Nonce, a1: seq<byte>, m1: seq<byte>, n2: Nonce, a2: seq<byte>, m2: seq<byte>)
    requires |a1| < AAD_LIMIT && |a2| < AAD_LIMIT && |m1| < TWO16 && |m2| < TWO16
    requires MacInput(n1, a1, m1) <= MacInput(n2, a2, m2)
    ensures n1 == n2 && a1 == a2 && m1 == m2
  {
    MacInputParts(n1, a1, m1);
    MacInputParts(n2, a2, m2);
    var r1, r2 := AadBlocks(a1) + Blocks(m1), AadBlocks(a2) + Blocks(m2);
    assert MacInput(n1, a1, m1)[0] == MacInput(n2, a2, m2)[0];
    assert r1 <= r2;
    B0Injective(n1, |m1|, |a1|, n2, |m2|, |a2|);
    AadBlocksPrefixFree(a1, Blocks(m1), a2, Blocks(m2));
    SameTail(AadBlocks(a1), Blocks(m1), Blocks(m2));
    BlocksInjective(m1, m2);
  }

  // ---- Encryption (section 2.3) ----

  /** `A_i`. */
  function CounterBlock(nonce: Nonce, counter: nat): Block {
    [1] + nonce + Be16(counter)
  }

  /** The counter blocks of one nonce are distinct up to the counter's width, and none is a `B_0`. */
  lemma CounterBlocksDistinct(nonce: Nonce, i: nat, j: nat, messageLen: nat, aadLen: nat)
    requires i < TWO16 && j < TWO16
    ensures CounterBlock(nonce, i) == CounterBlock(nonce, j) ==> i == j
    ensures CounterBlock(nonce, i) != B0(nonce, messageLen, aadLen)
  {
    assert CounterBlock(nonce, i)[14..] == Be16(i) && CounterBlock(nonce, j)[14..] == Be16(j);
    if CounterBlock(nonce, i) == CounterBlock(nonce, j) {
      Be16Injective(i, j);
    }
    assert CounterBlock(nonce, i)[0] == 1 && B0(nonce, messageLen, aadLen)[0] % 64 == 25;
  }

  /** No keystream block of an `n`-block message is used twice or equals `S_0`. */
  ghost predicate KeystreamFresh(nonce: Nonce, n: nat) {
    forall i, j :: 0 <= i < j <= n ==> CounterBlock(nonce, i) != CounterBlock(nonce, j)
  }

  /** That is so exactly until the 16-bit counter wraps: for every message whose length fits `B_0`,
      but not for longer ones, which the driver does not refuse. */
  lemma KeystreamFreshIff(nonce: Nonce, n: nat)
    ensures KeystreamFresh(nonce, n) <==> n < TWO16
  {
    if n < TWO16 {
      forall i, j | 0 <= i < j <= n
        ensures CounterBlock(nonce, i) != CounterBlock(nonce, j)
      {
        CounterBlocksDistinct(nonce, i, j, 0, 0);
      }
    } else {
      assert Be16(0) == Be16(TWO16);
      assert CounterBlock(nonce, 0) == CounterBlock(nonce, TWO16);
    }
  }

  /** The keystream byte for position `i`; the counter starts at 1 and is 16 bits wide. */
  function KeyByte(E: Cipher, key: Block, nonce: Nonce, i: nat): byte {
    E(key, CounterBlock(nonce, i / 16 + 1))[i % 16]
  }

  /** CTR mode. */
  function Ctr(E: Cipher, key: Block, nonce: Nonce, s: seq<byte>): (t: seq<byte>)
    ensures |t| == |s|
  {
    seq(|s|, i requires 0 <= i < |s| => Xor(s[i], KeyByte(E, key, nonce, i)))
  }

  /** A byte of the `k`th chunk, by its place in the chunk. */
  lemma CtrByte(E: Cipher, key: Block, nonce: Nonce, s: seq<byte>, k: nat, p: nat)
    requires p < 16 && 16 * k + p < |s|
    ensures Ctr(E, key, nonce, s)[16 * k + p] == Xor(s[16 * k + p], E(key, CounterBlock(nonce, k + 1))[p])
  {
    assert (16 * k + p) / 16 == k && (16 * k + p) % 16 == p;
  }

  /** The `k`th chunk of CTR mode is one cipher block XORed onto it. */
  lemma CtrChunk(E: Cipher, key: Block, nonce: Nonce, s: seq<byte>, k: nat)
    requires 16 * k <= |s|
    ensures var i, next := 16 * k, Min(16 * k + 16, |s|);
            Ctr(E, key, nonce, s)[i..next]
            == XorSeq(Pad(s[i..next]), E(key, CounterBlock(nonce, k + 1)))[..next - i]
  {
    var i, next := 16 * k, Min(16 * k + 16, |s|);
    var left := Ctr(E, key, nonce, s)[i..next];
    var right := XorSeq(Pad(s[i..next]), E(key, CounterBlock(nonce, k + 1)))[..next - i];
    forall p | 0 <= p < next - i
      ensures left[p] == right[p]
    {
      CtrByte(E, key, nonce, s, k, p);
    }
  }

  lemma {:induction false} XorBitsZero(width: nat, b: nat)
    requires b < Pow2(width)
    ensures XorBits(width, 0, b) == b
  {
    if width == 0 {
    } else {
      XorBitsZero(width - 1, b / 2);
    }
  }

  /** CTR over a zero block gives the cipher block itself, which is how `S_0` is obtained. */
  lemma XorSeqZero(b: Block)
    ensures XorSeq(ZERO, b) == b
  {
    forall i | 0 <= i < 16
      ensures XorSeq(ZERO, b)[i] == b[i]
    {
      ByteFits();
      XorBitsZero(8, b[i]);
    }
  }

  lemma CtrCancels(E: Cipher, key: Block, nonce: Nonce, s: seq<byte>)
    ensures Ctr(E, key, nonce, Ctr(E, key, nonce, s)) == s
  {
    forall i | 0 <= i < |s|
      ensures Ctr(E, key, nonce, Ctr(E, key, nonce, s))[i] == s[i]
    {
      XorCancels(s[i], KeyByte(E, key, nonce, i));
    }
  }

  // ---- The mode (sections 2.3 to 2.5) ----

  function Tag(E: Cipher, key: Block, nonce: Nonce, aad: seq<byte>, message: seq<byte>): seq<byte> {
    XorSeq(Cbc(E, key, MacInput(nonce, aad, message)), E(key, CounterBlock(nonce, 0)))[..8]
  }

  /** Ciphertext and tag. */
  function Encrypt(E: Cipher, key: Block, nonce: Nonce, aad: seq<byte>, message: seq<byte>): (seq<byte>, seq<byte>) {
    (Ctr(E, key, nonce, message), Tag(E, key, nonce, aad, message))
  }

  function Decrypt(E: Cipher, key: Block, nonce: Nonce, aad: seq<byte>, sealed: (seq<byte>, seq<byte>))
    : Option<seq<byte>>
  {
    var message := Ctr(E, key, nonce, sealed.0);
    if Tag(E, key, nonce, aad, message) == sealed.1 then Some(message) else None
  }

  /** `x` is `s` with the keystream of counter blocks `A_1`, `A_2`, ... laid over it, bit by bit. */
  ghost predicate Masked(E: Cipher, key: Block, nonce: Nonce, s: seq<byte>, x: seq<byte>) {
    && |x| == |s|
    && forall p :: 0 <= p < |s| ==>
         var i := p / 16 + 1;
         BitSum(x[p], s[p], E(key, [1] + nonce + [i / 256 % 256, i % 256])[p % 16])
  }

  lemma CtrIsMasked(E: Cipher, key: Block, nonce: Nonce, s: seq<byte>)
    ensures Masked(E, key, nonce, s, Ctr(E, key, nonce, s))
  {
    forall p | 0 <= p < |s|
      ensures var i := p / 16 + 1;
              BitSum(Ctr(E, key, nonce, s)[p], s[p], E(key, [1] + nonce + [i / 256 % 256, i % 256])[p % 16])
    {
      var i := p / 16 + 1;
      assert CounterBlock(nonce, i) == [1] + nonce + [i / 256 % 256, i % 256];
      XorIsBitSum(s[p], KeyByte(E, key, nonce, p));
    }
  }

  /** `tag` is the first eight bytes of `mac` with those of `S_0` laid over them, bit by bit. */
  ghost predicate MaskedTag(E: Cipher, key: Block, nonce: Nonce, mac: Block, tag: seq<byte>) {
    && |tag| == 8
    && forall p :: 0 <= p < 8 ==> BitSum(tag[p], mac[p], E(key, [1] + nonce + [0, 0])[p])
  }

  lemma TagIsMasked(E: Cipher, key: Block, nonce: Nonce, aad: seq<byte>, message: seq<byte>)
    ensures MaskedTag(E, key, nonce, Cbc(E, key, MacInput(nonce, aad, message)), Tag(E, key, nonce, aad, message))
  {
    var mac := Cbc(E, key, MacInput(nonce, aad, message));
    var s0 := E(key, CounterBlock(nonce, 0));
    assert CounterBlock(nonce, 0) == [1] + nonce + [0, 0];
    forall p | 0 <= p < 8
      ensures BitSum(Tag(E, key, nonce, aad, message)[p], mac[p], E(key, [1] + nonce + [0, 0])[p])
    {
      XorIsBitSum(mac[p], s0[p]);
    }
  }

  /** The chaining step of the MAC lays each block over the accumulator, bit by bit, before encrypting it. */
  lemma CbcStepIsBitSum(acc: Block, b: Block, p: nat)
    requires p < 16
    ensures BitSum(XorSeq(acc, b)[p], acc[p], b[p])
  {
    XorIsBitSum(acc[p], b[p]);
  }

  /** The bytes of `B_0`: flags for AAD, M = 8 and L = 2, the nonce, and the message length, high byte first. */
  lemma B0Bytes(nonce: Nonce, messageLen: nat, aadLen: nat)
    requires messageLen < TWO16
    ensures var b := B0(nonce, messageLen, aadLen);
            && b[0] == (if aadLen == 0 then 0x19 else 0x59) && b[1..14] == nonce
            && 256 * (b[14] as int) + b[15] == messageLen
  {
  }

  lemma BlockByte(s: seq<byte>, i: nat)
    requires i / 16 < BlockCount(|s|)
    ensures Blocks(s)[i / 16][i % 16] == if i < |s| then s[i] else 0
  {
    assert Blocks(s)[i / 16] == Chunk(s, i / 16);
  }

  /** What the MAC is taken over, byte by byte: behind `B_0` the AAD, if any, after its length, high byte first,
      then the message, each filled up with zeros to whole blocks. */
  lemma MacInputBytes(nonce: Nonce, aad: seq<byte>, message: seq<byte>, i: nat)
    requires |aad| < TWO16
    ensures var m := MacInput(nonce, aad, message);
            var n := if aad == [] then 0 else (|aad| + 2 + 15) / 16;
            && |m| == 1 + n + (|message| + 15) / 16
            && (aad != [] && i < 16 * n ==>
                  m[1 + i / 16][i % 16] == if i == 0 then |aad| / 256 else if i == 1 then |aad| % 256
                                           else if i < |aad| + 2 then aad[i - 2] else 0)
            && (i / 16 < (|message| + 15) / 16 ==>
                  m[1 + n + i / 16][i % 16] == if i < |message| then message[i] else 0)
  {
    var stream := AadStream(aad);
    var n := BlockCount(|stream|);
    var m := MacInput(nonce, aad, message);
    if i < 16 * n {
      BlockByte(stream, i);
      assert m[1 + i / 16] == Blocks(stream)[i / 16];
    }
    if i / 16 < BlockCount(|message|) {
      BlockByte(message, i);
      assert m[1 + n + i / 16] == Blocks(message)[i / 16];
    }
  }

  /** Decryption undoes encryption and only encryption: a sealed message opens to `message` exactly
      when it is what `message` encrypts to, whatever the cipher. */
  lemma DecryptInvertsEncrypt(E: Cipher, key: Block, nonce: Nonce, aad: seq<byte>,
                              message: seq<byte>, sealed: (seq<byte>, seq<byte>))
    ensures Decrypt(E, key, nonce, aad, sealed) == Some(message)
            <==> Encrypt(E, key, nonce, aad, message) == sealed
  {
    CtrCancels(E, key, nonce, message);
    CtrCancels(E, key, nonce, sealed.0);
  }

  /** Two different sealed texts never open to the same message. */
  lemma SealedTextsAreUnique(E: Cipher, key: Block, nonce: Nonce, aad: seq<byte>,
                             s1: (seq<byte>, seq<byte>), s2: (seq<byte>, seq<byte>))
    requires Decrypt(E, key, nonce, aad, s1).Some?
    requires Decrypt(E, key, nonce, aad, s1) == Decrypt(E, key, nonce, aad, s2)
    ensures s1 == s2
  {
    var message := Decrypt(E, key, nonce, aad, s1).value;
    DecryptInvertsEncrypt(E, key, nonce, aad, message, s1);
    DecryptInvertsEncrypt(E, key, nonce, aad, message, s2);
  }
}
