/** The bytes of the msgq ring: aligned frames, each a 64-bit size tag and a payload. */
module MsgqLayout {
  import opened Arithmetic

  type octet = x: int | 0 <= x < 256

  /** ALIGN(n): up to the next multiple of eight. */
  function Align(n: nat): (r: nat)
    ensures n <= r < n + 8 && r % 8 == 0
  {
    (n + 7) / 8 * 8
  }

  lemma AlignAfter(p: nat, n: nat)
    requires p % 8 == 0
    ensures Align(p + n) == p + Align(n)
  {
    assert (p + n + 7) / 8 == p / 8 + (n + 7) / 8;
  }

  /** The bytes a message of n payload bytes takes in the ring. */
  function Total(n: nat): (t: nat)
    ensures t % 8 == 0 && n + 8 <= t < n + 16
    ensures n > 0 ==> t >= 16
  {
    Align(n + 8)
  }

  // ----- 64-bit tags -----

  function LeBytes(x: nat, n: nat): (bs: seq<octet>)
    ensures |bs| == n
  {
    if n == 0 then [] else [x % 256] + LeBytes(x / 256, n - 1)
  }

  function LeValue(bs: seq<octet>): nat {
    if bs == [] then 0 else bs[0] + 256 * LeValue(bs[1..])
  }

  lemma {:induction false} LeRoundTrip(x: nat, n: nat)
    requires x < Pow(256, n)
    ensures LeValue(LeBytes(x, n)) == x
  {
    if n != 0 {
      DivBounds(x, 256, 0, Pow(256, n - 1));
      LeRoundTrip(x / 256, n - 1);
      assert LeBytes(x, n)[1..] == LeBytes(x / 256, n - 1);
    }
  }

  /** A 64-bit tag as stored. */
  function Tag(v: int): (bs: seq<octet>)
    requires -1 <= v < 0x1_0000_0000
    ensures |bs| == 8
  {
    LeBytes(if v < 0 then v + 0x1_0000_0000_0000_0000 else v, 8)
  }

  /** The signed 64-bit number stored at p. */
  function TagAt(data: seq<octet>, p: nat): int
    requires p + 8 <= |data|
  {
    var x := LeValue(data[p..p + 8]);
    if x < 0x8000_0000_0000_0000 then x else x - 0x1_0000_0000_0000_0000
  }

  lemma PowEight()
    ensures Pow(256, 8) == 0x1_0000_0000_0000_0000
  {
    PowAdd(256, 4, 4);
    PowAdd(256, 2, 2);
    assert Pow(256, 2) == 256 * (256 * Pow(256, 0)) by {
      assert Pow(256, 1) == 256 * Pow(256, 0);
    }
  }

  /** A stored tag reads back. */
  lemma TagReads(data: seq<octet>, p: nat, v: int)
    requires p + 8 <= |data| && -1 <= v < 0x1_0000_0000 && data[p..p + 8] == Tag(v)
    ensures TagAt(data, p) == v
  {
    PowEight();
    LeRoundTrip(if v < 0 then v + 0x1_0000_0000_0000_0000 else v, 8);
  }

  // ----- frames -----

  type message = seq<octet>

  /** A message lies at p: its size tag and then its bytes. */
  ghost predicate FrameAt(data: seq<octet>, p: int, m: message) {
    && 0 <= p && p + Total(|m|) <= |data| && |m| < 0x1_0000_0000
    && data[p..p + 8] == Tag(|m|)
    && data[p + 8..p + 8 + |m|] == m
  }

  /** The wrap tag lies at p. */
  ghost predicate WrapAt(data: seq<octet>, p: int) {
    0 <= p && p + 8 <= |data| && data[p..p + 8] == Tag(-1)
  }

  function PutTag(data: seq<octet>, p: nat, v: int): (r: seq<octet>)
    requires p + 8 <= |data| && -1 <= v < 0x1_0000_0000
    ensures |r| == |data|
  {
    data[..p] + Tag(v) + data[p + 8..]
  }

  function PutWrap(data: seq<octet>, p: nat): (r: seq<octet>)
    requires p + 8 <= |data|
    ensures |r| == |data|
  {
    PutTag(data, p, -1)
  }

  function PutFrame(data: seq<octet>, p: nat, m: message): (r: seq<octet>)
    requires p + 8 + |m| <= |data| && |m| < 0x1_0000_0000
    ensures |r| == |data|
  {
    data[..p] + Tag(|m|) + m + data[p + 8 + |m|..]
  }

  /** The tag and then the bytes make a frame. */
  lemma TwoStores(before: seq<octet>, p: nat, m: message, after: seq<octet>)
    requires p + 8 + |m| <= |before| && |m| < 0x1_0000_0000
    requires var tagged := PutTag(before, p, |m|);
             after == tagged[..p + 8] + m + tagged[p + 8 + |m|..]
    ensures after == PutFrame(before, p, m)
  {}

  lemma PutWrapWorks(data: seq<octet>, p: nat)
    requires p + 8 <= |data|
    ensures WrapAt(PutWrap(data, p), p)
  {
    assert PutWrap(data, p)[p..p + 8] == Tag(-1);
  }

  lemma PutFrameWorks(data: seq<octet>, p: nat, m: message)
    requires p + Total(|m|) <= |data| && |m| < 0x1_0000_0000
    ensures FrameAt(PutFrame(data, p, m), p, m)
  {
    var r := PutFrame(data, p, m);
    assert r[p..p + 8] == Tag(|m|);
    assert r[p + 8..p + 8 + |m|] == m;
  }

  /** Two memories agree from lo up to hi. */
  ghost predicate Agree(data: seq<octet>, data': seq<octet>, lo: int, hi: int) {
    |data| == |data'| && forall k :: 0 <= lo <= k < hi <= |data| ==> data[k] == data'[k]
  }

  lemma PutWrapFrame(data: seq<octet>, p: nat)
    requires p + 8 <= |data|
    ensures Agree(data, PutWrap(data, p), 0, p) && Agree(data, PutWrap(data, p), p + 8, |data|)
  {}

  lemma PutFrameFrame(data: seq<octet>, p: nat, m: message)
    requires p + 8 + |m| <= |data| && |m| < 0x1_0000_0000
    ensures Agree(data, PutFrame(data, p, m), 0, p)
    ensures Agree(data, PutFrame(data, p, m), p + 8 + |m|, |data|)
  {}

  /** A frame survives writes outside it. */
  lemma FrameKept(data: seq<octet>, data': seq<octet>, p: int, m: message, lo: int, hi: int)
    requires FrameAt(data, p, m) && Agree(data, data', lo, hi) && 0 <= lo <= p && p + 8 + |m| <= hi <= |data|
    ensures FrameAt(data', p, m)
  {
    assert data'[p..p + 8] == data[p..p + 8];
    assert data'[p + 8..p + 8 + |m|] == data[p + 8..p + 8 + |m|];
  }

  lemma WrapKept(data: seq<octet>, data': seq<octet>, p: int, lo: int, hi: int)
    requires WrapAt(data, p) && Agree(data, data', lo, hi) && 0 <= lo <= p && p + 8 <= hi <= |data|
    ensures WrapAt(data', p)
  {
    assert data'[p..p + 8] == data[p..p + 8];
  }

  // ----- the log of messages and where they lie -----

  type log = seq<message>

  /** The framed bytes of the first i messages. */
  function Offset(l: log, i: nat): nat
    requires i <= |l|
  {
    if i == 0 then 0 else Offset(l, i - 1) + Total(|l[i - 1]|)
  }

  lemma {:induction false} OffsetGrows(l: log, i: nat, j: nat)
    requires i < j <= |l|
    ensures Offset(l, i) + Total(|l[i]|) <= Offset(l, j)
    decreases j
  {
    if i < j - 1 {
      OffsetGrows(l, i, j - 1);
    }
  }

  lemma {:induction false} OffsetAligned(l: log, i: nat)
    requires i <= |l|
    ensures Offset(l, i) % 8 == 0
  {
    if i != 0 {
      OffsetAligned(l, i - 1);
    }
  }

  lemma {:induction false} OffsetOfLonger(l: log, m: message, i: nat)
    requires i <= |l|
    ensures Offset(l + [m], i) == Offset(l, i)
  {
    if i != 0 {
      OffsetOfLonger(l, m, i - 1);
    }
  }
}
