/** SHA-1 as FIPS 180-4 defines it, independently of how panda/crypto/sha.c computes it. */
module Sha1Standard {
  import opened Arithmetic
  import opened Words

  /** The five working variables, and the five words of a hash value. */
  datatype Hash = Hash(a: bv32, b: bv32, c: bv32, d: bv32, e: bv32)

  /** Addition modulo 2^32, which is also what C's + does on 32-bit unsigned words. */
  function Add(x: bv32, y: bv32): bv32 {
    x + y
  }

  // Section 4.1.1: the functions.

  function Ch(x: bv32, y: bv32, z: bv32): bv32 {
    (x & y) ^ (!x & z)
  }

  function Parity(x: bv32, y: bv32, z: bv32): bv32 {
    x ^ y ^ z
  }

  function Maj(x: bv32, y: bv32, z: bv32): bv32 {
    (x & y) ^ (x & z) ^ (y & z)
  }

  function F(t: nat, x: bv32, y: bv32, z: bv32): bv32 {
    if t < 20 then Ch(x, y, z) else if t < 40 then Parity(x, y, z) else if t < 60 then Maj(x, y, z) else Parity(x, y, z)
  }

  // Section 4.2.1: the constants.

  function K(t: nat): bv32 {
    if t < 20 then 0x5A827999 else if t < 40 then 0x6ED9EBA1 else if t < 60 then 0x8F1BBCDC else 0xCA62C1D6
  }

  lemma KInt(t: nat)
    ensures K(t) as int == if t < 20 then 0x5A827999 else if t < 40 then 0x6ED9EBA1
                           else if t < 60 then 0x8F1BBCDC else 0xCA62C1D6
  {}

  /** The constants are the square roots of 2, 3, 5 and 10, times 2^30 and cut off. */
  lemma ConstantsAreRoots(t: nat)
    ensures var k, c := K(t) as int, if t < 20 then 2 else if t < 40 then 3 else if t < 60 then 5 else 10;
            k * k <= c * 0x1000_0000_0000_0000 < (k + 1) * (k + 1)
  {
    KInt(t);
  }

  // Section 5.1.1: padding. For a message of l bits, k zero bits with l + 1 + k = 448 modulo 512.

  function ZeroBytes(n: nat): nat {
    if n % 64 <= 55 then 55 - n % 64 else 119 - n % 64
  }

  function Padding(n: nat): seq<byte> {
    [0x80] + seq(ZeroBytes(n), _ => 0) + I2osp(8 * n, 8)
  }

  function Padded(m: seq<byte>): seq<byte> {
    m + Padding(|m|)
  }

  /** A message of l bits, a 1 bit and k zero bits leave room for exactly the 64-bit length. */
  predicate Aligns(l: nat, k: nat) {
    (l + 1 + k) % 512 == 448
  }

  /** The zero bits after the 1 bit are the fewest that section 5.1.1 allows. */
  lemma PaddingIsSmallest(n: nat)
    ensures Aligns(8 * n, 7 + 8 * ZeroBytes(n))
    ensures forall k: nat :: Aligns(8 * n, k) ==> 7 + 8 * ZeroBytes(n) <= k
  {
    var q, r := n / 64, n % 64;
    var c := if r <= 55 then q else q + 1;
    assert 8 * n == 512 * q + 8 * r;
    DivModUnique(8 * n + 1 + (7 + 8 * ZeroBytes(n)), 512, c, 448);
    forall k: nat | Aligns(8 * n, k)
      ensures 7 + 8 * ZeroBytes(n) <= k
    {
      NoFewer(q, r, k, (8 * n + 1 + k) / 512);
    }
  }

  /** Counting in blocks of 512 bits, with q whole blocks and r bytes. */
  lemma NoFewer(q: nat, r: nat, k: nat, c: nat)
    requires r < 64 && 512 * q + 8 * r + 1 + k == 512 * c + 448
    ensures 7 + 8 * (if r <= 55 then 55 - r else 119 - r) <= k
  {}

  lemma ZeroBytesAlign(n: nat)
    ensures (n + 1 + ZeroBytes(n)) % 64 == 56
  {
    var q, r := n / 64, n % 64;
    assert n + 1 + ZeroBytes(n) == 64 * (q + (if r <= 55 then 0 else 1)) + 56;
  }

  lemma PaddedLength(m: seq<byte>)
    ensures |Padded(m)| % 64 == 0
  {
    ZeroBytesAlign(|m|);
    Plus8(|m| + 1 + ZeroBytes(|m|));
    assert |Padded(m)| == |m| + 1 + ZeroBytes(|m|) + 8;
  }

  lemma Plus8(n: nat)
    requires n % 64 == 56
    ensures (n + 8) % 64 == 0
  {}

  // Section 5.2.1: parsing into blocks of sixteen 32-bit words.

  function JoinBytes(b0: byte, b1: byte, b2: byte, b3: byte): bv32 {
    ((b0 as bv32) << 24) | ((b1 as bv32) << 16) | ((b2 as bv32) << 8) | (b3 as bv32)
  }

  function BlockWord(block: seq<byte>, t: nat): bv32
    requires |block| == 64 && t < 16
  {
    JoinBytes(block[4 * t], block[4 * t + 1], block[4 * t + 2], block[4 * t + 3])
  }

  // Section 5.3.1: the initial hash value.

  const INITIAL := Hash(0x67452301, 0xEFCDAB89, 0x98BADCFE, 0x10325476, 0xC3D2E1F0)

  // Section 6.1.2: the hash computation.

  function W(block: seq<byte>, t: nat): bv32
    requires |block| == 64
  {
    if t < 16 then
      BlockWord(block, t)
    else
      ScheduleWord(W(block, t - 3), W(block, t - 8), W(block, t - 14), W(block, t - 16))
  }

  function ScheduleWord(w3: bv32, w8: bv32, w14: bv32, w16: bv32): bv32 {
    (w3 ^ w8 ^ w14 ^ w16).RotateLeft(1)
  }

  function Round(h: Hash, t: nat, w: bv32): Hash {
    // the five terms of T; addition modulo 2^32 does not mind their order
    var T := Add(Add(Add(h.a.RotateLeft(5), h.e), w), Add(F(t, h.b, h.c, h.d), K(t)));
    Hash(T, h.a, h.b.RotateLeft(30), h.c, h.d)
  }

  function Rounds(h: Hash, block: seq<byte>, t: nat): Hash
    requires |block| == 64
  {
    if t == 0 then h else Round(Rounds(h, block, t - 1), t - 1, W(block, t - 1))
  }

  function Compress(h: Hash, block: seq<byte>): Hash
    requires |block| == 64
  {
    var r := Rounds(h, block, 80);
    Hash(Add(h.a, r.a), Add(h.b, r.b), Add(h.c, r.c), Add(h.d, r.d), Add(h.e, r.e))
  }

  /** The hash value after every whole block of a padded message. */
  function Chain(m: seq<byte>): Hash
    requires |m| % 64 == 0
  {
    if m == [] then INITIAL else Compress(Chain(m[..|m| - 64]), m[|m| - 64..])
  }

  function SplitWord(w: bv32): seq<byte> {
    [((w >> 24) & 0xFF) as byte, ((w >> 16) & 0xFF) as byte, ((w >> 8) & 0xFF) as byte, (w & 0xFF) as byte]
  }

  function Digest(h: Hash): (bs: seq<byte>)
    ensures |bs| == 20
  {
    SplitWord(h.a) + SplitWord(h.b) + SplitWord(h.c) + SplitWord(h.d) + SplitWord(h.e)
  }

  /** The SHA-1 digest of a message of fewer than 2^64 bits. */
  function Sha1(m: seq<byte>): (digest: seq<byte>)
    ensures |digest| == 20
  {
    PaddedLength(m);
    Digest(Chain(Padded(m)))
  }
}
