/** panda/crypto/sha.c: SHA-1 fed byte by byte through a 64-byte buffer. */
module Sha1 {
  import opened Arithmetic
  import opened Words
  import opened Sha1Standard

  // ----- the stream: what a context stands for -----

  /** The hash value of the whole blocks so far and the bytes of the block being filled. */
  datatype Stream = Stream(h: Hash, tail: seq<byte>)
  {
    predicate Valid() {
      |tail| < 64
    }
  }

  const START := Stream(INITIAL, [])

  function FeedByte(s: Stream, b: byte): (r: Stream)
    requires s.Valid()
    ensures r.Valid()
  {
    var block := s.tail + [b];
    if |block| == 64 then Stream(Compress(s.h, block), []) else Stream(s.h, block)
  }

  function Feed(s: Stream, data: seq<byte>): (r: Stream)
    requires s.Valid()
    ensures r.Valid()
  {
    if data == [] then s else FeedByte(Feed(s, data[..|data| - 1]), data[|data| - 1])
  }

  /** Feeding two pieces is feeding their concatenation. */
  lemma {:induction false} FeedConcat(s: Stream, x: seq<byte>, y: seq<byte>)
    requires s.Valid()
    ensures Feed(Feed(s, x), y) == Feed(s, x + y)
  {
    if y == [] {
      assert x + y == x;
    } else {
      assert (x + y)[..|x + y| - 1] == x + y[..|y| - 1];
      FeedConcat(s, x, y[..|y| - 1]);
    }
  }

  function WholeBlocks(m: seq<byte>): (r: seq<byte>)
    ensures |r| % 64 == 0 && r <= m
  {
    m[..|m| - |m| % 64]
  }

  lemma WholePart(n: nat)
    ensures n % 64 == 63 ==> (n + 1) % 64 == 0 && n + 1 - 64 == n - n % 64
    ensures n % 64 != 63 ==> (n + 1) % 64 == n % 64 + 1
  {
    DivModUnique(n + 1, 64, if n % 64 == 63 then n / 64 + 1 else n / 64, if n % 64 == 63 then 0 else n % 64 + 1);
  }

  lemma NextIndex(n: nat)
    ensures (n + 1) % 64 == if n % 64 == 63 then 0 else n % 64 + 1
  {
    WholePart(n);
  }

  lemma ChainNext(m: seq<byte>, cut: nat)
    requires |m| == cut + 64 && cut % 64 == 0
    ensures |m| % 64 == 0 && Chain(m) == Compress(Chain(m[..cut]), m[cut..])
  {}

  /** The last byte of a message, fed to the stream of the bytes before it. */
  lemma FedOneMore(m: seq<byte>, cut: nat, h: Hash)
    requires cut < |m| <= cut + 64
    ensures var block := m[cut..];
            FeedByte(Stream(h, m[..|m| - 1][cut..]), m[|m| - 1])
            == if |block| == 64 then Stream(Compress(h, block), []) else Stream(h, block)
  {
    assert m[..|m| - 1][cut..] + [m[|m| - 1]] == m[cut..];
  }

  /** The stream holds the chained hash of the first cut bytes, whole blocks, and the rest. */
  ghost predicate Holds(s: Stream, m: seq<byte>, cut: nat) {
    cut <= |m| < cut + 64 && cut % 64 == 0 && s == Stream(Chain(m[..cut]), m[cut..])
  }

  lemma HoldsNext(s: Stream, m: seq<byte>, cut: nat)
    requires m != [] && Holds(s, m[..|m| - 1], cut)
    ensures s.Valid() && Holds(FeedByte(s, m[|m| - 1]), m, if |m| == cut + 64 then |m| else cut)
  {
    assert m[..|m| - 1][..cut] == m[..cut];
    FedOneMore(m, cut, Chain(m[..cut]));
    if |m| == cut + 64 {
      ChainNext(m, cut);
      assert m[..|m|] == m && m[|m|..] == [];
    }
  }

  /** How many bytes of n make up whole blocks. */
  function WholeLength(n: nat): nat {
    n - n % 64
  }

  lemma WholeLengthNext(n: nat)
    ensures WholeLength(n + 1) == if n + 1 == WholeLength(n) + 64 then n + 1 else WholeLength(n)
  {
    WholePart(n);
  }

  lemma {:induction false} FeedHolds(m: seq<byte>)
    ensures Holds(Feed(START, m), m, WholeLength(|m|))
  {
    if m != [] {
      var before := m[..|m| - 1];
      FeedHolds(before);
      WholeLengthNext(|before|);
      HoldsNext(Feed(START, before), m, WholeLength(|before|));
    }
  }

  /** A fresh stream fed a message holds the chained hash of its whole blocks and the rest. */
  lemma FeedIsChain(m: seq<byte>)
    ensures Feed(START, m) == Stream(Chain(WholeBlocks(m)), m[|m| - |m| % 64..])
  {
    FeedHolds(m);
  }

  /** The concatenation of the pieces handed to successive updates. */
  function Join(pieces: seq<seq<byte>>): seq<byte> {
    if pieces == [] then [] else pieces[0] + Join(pieces[1..])
  }

  function FeedPieces(s: Stream, pieces: seq<seq<byte>>): (r: Stream)
    requires s.Valid()
    ensures r.Valid()
    decreases |pieces|
  {
    if pieces == [] then s else FeedPieces(Feed(s, pieces[0]), pieces[1..])
  }

  lemma {:induction false} FeedPiecesJoin(s: Stream, pieces: seq<seq<byte>>)
    requires s.Valid()
    ensures FeedPieces(s, pieces) == Feed(s, Join(pieces))
    decreases |pieces|
  {
    if pieces != [] {
      FeedPiecesJoin(Feed(s, pieces[0]), pieces[1..]);
      FeedConcat(s, pieces[0], Join(pieces[1..]));
    }
  }

  /** The bytes SHA_final feeds after a message of count bytes. */
  function FinalBytes(count: u64): seq<byte> {
    [0x80] + seq(ZeroBytes(count), _ => 0) + I2osp(count * 8 % 0x1_0000_0000_0000_0000, 8)
  }

  /** The digest a stream with the given count ends in. */
  function Finish(s: Stream, count: u64): Hash
    requires s.Valid()
  {
    Feed(s, FinalBytes(count)).h
  }

  lemma FinalBytesIsPadding(count: u64)
    requires count < 0x2000_0000_0000_0000
    ensures FinalBytes(count) == Padding(count)
  {
    assert count * 8 % 0x1_0000_0000_0000_0000 == 8 * count;
  }

  lemma FeedPadded(m: seq<byte>)
    ensures |Padded(m)| % 64 == 0
    ensures Feed(START, Padded(m)).h == Chain(Padded(m))
  {
    PaddedLength(m);
    FeedIsChain(Padded(m));
    assert WholeBlocks(Padded(m)) == Padded(m);
  }

  /** A message of fewer than 2^61 bytes, fed and finished, ends in its FIPS 180-4 digest. */
  lemma FedIsStandard(m: seq<byte>)
    requires |m| < 0x2000_0000_0000_0000
    ensures Digest(Finish(Feed(START, m), |m|)) == Sha1(m)
  {
    FeedConcat(START, m, FinalBytes(|m|));
    FinalBytesIsPadding(|m|);
    FeedPadded(m);
  }

  /** Any way of cutting a message into updates does. */
  lemma ChunkedIsStandard(pieces: seq<seq<byte>>)
    requires |Join(pieces)| < 0x2000_0000_0000_0000
    ensures Digest(Finish(FeedPieces(START, pieces), |Join(pieces)|)) == Sha1(Join(pieces))
  {
    FeedPiecesJoin(START, pieces);
    FedIsStandard(Join(pieces));
  }

  lemma FeedOn(s: Stream, data: seq<byte>, p: nat)
    requires s.Valid() && p < |data|
    ensures Feed(s, data[..p + 1]) == FeedByte(Feed(s, data[..p]), data[p])
  {
    assert data[..p + 1][..p] == data[..p];
  }

  // ----- the bit operations of SHA1_Transform -----

  /** The rol macro. */
  function Rol(bits: nat, value: bv32): bv32
    requires 0 < bits < 32
  {
    (value << bits) | (value >> (32 - bits))
  }

  lemma RolRotates(value: bv32)
    ensures Rol(1, value) == value.RotateLeft(1)
    ensures Rol(5, value) == value.RotateLeft(5)
    ensures Rol(30, value) == value.RotateLeft(30)
  {}

  lemma RolSchedules(w3: bv32, w8: bv32, w14: bv32, w16: bv32)
    ensures Rol(1, w3 ^ w8 ^ w14 ^ w16) == ScheduleWord(w3, w8, w14, w16)
  {
    var x := w3 ^ w8 ^ w14 ^ w16;
    RolRotates(x);
    assert ScheduleWord(w3, w8, w14, w16) == x.RotateLeft(1);
  }

  lemma ChooseIsCh(x: bv32, y: bv32, z: bv32)
    ensures z ^ (x & (y ^ z)) == Ch(x, y, z)
  {}

  lemma MajorityIsMaj(x: bv32, y: bv32, z: bv32)
    ensures (x & y) | (z & (x | y)) == Maj(x, y, z)
  {}

  // ----- the context -----

  class Context {
    var count: u64
    const buf: array<byte>
    const state: array<bv32>

    ghost predicate Valid()
      reads this, buf, state
    {
      buf.Length == 64 && state.Length == 8
    }

    /** The hash value held in the state words. */
    ghost function H(): Hash
      requires Valid()
      reads this, buf, state
    {
      Hash(state[0], state[1], state[2], state[3], state[4])
    }

    /** The stream a context stands for. */
    ghost function Abs(): (s: Stream)
      requires Valid()
      reads this, buf, state
      ensures s.Valid()
    {
      Stream(H(), buf[..count % 64])
    }

    /** SHA_init on a new context. */
    constructor ()
      ensures Valid() && fresh(buf) && fresh(state)
      ensures Abs() == START && count == 0
    {
      buf := new byte[64];
      state := new bv32[8];
      count := 0;
      new;
      state[0] := 0x67452301;
      state[1] := 0xEFCDAB89;
      state[2] := 0x98BADCFE;
      state[3] := 0x10325476;
      state[4] := 0xC3D2E1F0;
    }

    /** Four bytes of buf, big-endian. */
    method LoadWord(p: nat) returns (tmp: bv32)
      requires Valid() && p + 4 <= 64
      ensures tmp == JoinBytes(buf[p], buf[p + 1], buf[p + 2], buf[p + 3])
    {
      tmp := (buf[p] as bv32) << 24;
      tmp := tmp | ((buf[p + 1] as bv32) << 16);
      tmp := tmp | ((buf[p + 2] as bv32) << 8);
      tmp := tmp | (buf[p + 3] as bv32);
    }

    /** A later word of the schedule. */
    static method NextWord(w: array<bv32>, t: nat, ghost block: seq<byte>) returns (word: bv32)
      requires 16 <= t < w.Length && |block| == 64
      requires forall k :: 0 <= k < t ==> w[k] == W(block, k)
      ensures word == W(block, t)
    {
      RolSchedules(w[t - 3], w[t - 8], w[t - 14], w[t - 16]);
      word := Rol(1, w[t - 3] ^ w[t - 8] ^ w[t - 14] ^ w[t - 16]);
    }

    /** The message schedule of SHA1_Transform. */
    method Expand() returns (w: array<bv32>)
      requires Valid()
      ensures fresh(w) && w.Length == 80
      ensures forall k :: 0 <= k < 80 ==> w[k] == W(buf[..], k)
    {
      ghost var block := buf[..];
      w := new bv32[80];
      var t := 0;
      while t < 16
        invariant 0 <= t <= 16
        invariant forall k :: 0 <= k < t ==> w[k] == W(block, k)
        invariant buf[..] == block
      {
        var word := LoadWord(4 * t);
        w[t] := word;
        t := t + 1;
      }
      while t < 80
        invariant 16 <= t <= 80
        invariant forall k :: 0 <= k < t ==> w[k] == W(block, k)
        invariant buf[..] == block
      {
        var word := NextWord(w, t, block);
        w[t] := word;
        t := t + 1;
      }
    }

    /** One turn of the loop of SHA1_Transform. */
    static method OneRound(t: nat, w: bv32, A0: bv32, B0: bv32, C0: bv32, D0: bv32, E0: bv32)
      returns (A: bv32, B: bv32, C: bv32, D: bv32, E: bv32)
      ensures Hash(A, B, C, D, E) == Round(Hash(A0, B0, C0, D0, E0), t, w)
    {
      A, B, C, D, E := A0, B0, C0, D0, E0;
      var tmp := Add(Add(Rol(5, A), E), w);
      var f, k := RoundTerms(t, B, C, D);
      tmp := Add(tmp, Add(f, k));
      RoundOf(Hash(A, B, C, D, E), t, w, f, k);
      E := D;
      D := C;
      C := Rol(30, B);
      B := A;
      A := tmp;
    }

    /** The 80 rounds over the schedule. */
    static method AllRounds(w: array<bv32>, ghost block: seq<byte>, h: Hash) returns (r: Hash)
      requires w.Length == 80 && |block| == 64
      requires forall k :: 0 <= k < 80 ==> w[k] == W(block, k)
      ensures r == Rounds(h, block, 80)
    {
      var A, B, C, D, E := h.a, h.b, h.c, h.d, h.e;
      var t := 0;
      while t < 80
        invariant 0 <= t <= 80
        invariant Hash(A, B, C, D, E) == Rounds(h, block, t)
      {
        A, B, C, D, E := OneRound(t, w[t], A, B, C, D, E);
        t := t + 1;
      }
      r := Hash(A, B, C, D, E);
    }

    /** The end of SHA1_Transform: what the rounds leave is added to the state. */
    method AddToState(r: Hash)
      requires Valid()
      modifies state
      ensures Valid()
      ensures var h := old(H()); H() == Hash(Add(h.a, r.a), Add(h.b, r.b), Add(h.c, r.c), Add(h.d, r.d), Add(h.e, r.e))
    {
      state[0] := Add(state[0], r.a);
      state[1] := Add(state[1], r.b);
      state[2] := Add(state[2], r.c);
      state[3] := Add(state[3], r.d);
      state[4] := Add(state[4], r.e);
    }

    /** SHA1_Transform: one block, the contents of buf, into the state. */
    method Transform()
      requires Valid()
      modifies state
      ensures Valid() && H() == Compress(old(H()), buf[..])
    {
      var w := Expand();
      var r := AllRounds(w, buf[..], Hash(state[0], state[1], state[2], state[3], state[4]));
      AddToState(r);
    }

    /** One byte into buf at i, and a full buf into the state. */
    method Put(i: nat, b: byte) returns (i': nat)
      requires Valid() && i < 64
      modifies buf, state
      ensures Valid() && i' == (if i == 63 then 0 else i + 1)
      ensures Stream(H(), buf[..i']) == FeedByte(old(Stream(H(), buf[..i])), b)
    {
      buf[i] := b;
      i' := i + 1;
      assert buf[..i'] == old(buf[..i]) + [b];
      if i' == 64 {
        assert buf[..] == buf[..i'];
        Transform();
        i' := 0;
      }
    }

    /** SHA_update: the bytes go into buf one at a time, and a full buf into the state. */
    method Update(data: seq<byte>)
      requires Valid()
      modifies this, buf, state
      ensures Valid()
      ensures Abs() == Feed(old(Abs()), data)
      ensures count == (old(count) + |data|) % 0x1_0000_0000_0000_0000
    {
      ghost var s, c := Abs(), count;
      var i := count % 64;
      var len := |data|;
      var p := 0;
      count := (count + len) % 0x1_0000_0000_0000_0000;
      while len != 0
        invariant 0 <= len && p + len == |data|
        invariant Valid() && count == (c + |data|) % 0x1_0000_0000_0000_0000
        invariant 0 <= i < 64 && i == (c + p) % 64
        invariant Stream(H(), buf[..i]) == Feed(s, data[..p])
      {
        len := len - 1;
        i := Put(i, data[p]);
        FeedOn(s, data, p);
        NextIndex(c + p);
        p := p + 1;
      }
      assert data[..p] == data;
      WrappedCount(c + |data|);
    }

    /** The eight big-endian length bytes of SHA_final. */
    method UpdateLength(cnt: u64)
      requires Valid()
      modifies this, buf, state
      ensures Valid() && Abs() == Feed(old(Abs()), I2osp(cnt, 8))
    {
      ghost var s := Abs();
      ghost var all := I2osp(cnt, 8);
      var i := 0;
      while i < 8
        invariant 0 <= i <= 8 && Valid() && Abs() == Feed(s, all[..i])
      {
        var tmp := ShiftedByte(cnt, 8, i);
        I2ospAt(cnt, 8, i);
        Update([tmp]);
        FeedConcat(s, all[..i], [tmp]);
        assert all[..i + 1] == all[..i] + [tmp];
        i := i + 1;
      }
      assert all[..8] == all;
    }

    /** The 1 bit and the zero bits of SHA_final. */
    method UpdatePadding()
      requires Valid()
      modifies this, buf, state
      ensures Valid() && Abs() == Feed(old(Abs()), [0x80] + seq(ZeroBytes(old(count)), _ => 0))
    {
      ghost var s, c := Abs(), count;
      Update([0x80]);
      ghost var fed: seq<byte> := [0x80];
      PadStart(c);
      while count % 64 != 56
        invariant Valid() && Abs() == Feed(s, fed)
        invariant 1 <= |fed| && fed == [0x80] + seq(|fed| - 1, _ => 0)
        invariant ToPad(count) == ZeroBytes(c) - (|fed| - 1)
        decreases ToPad(count)
      {
        PadNext(count);
        Update([0]);
        FeedConcat(s, fed, [0]);
        fed := fed + [0];
      }
    }

    /** One state word more. */
    method StoreNext(p: nat, i: nat)
      requires Valid() && i < 5 && p == 4 * i && buf[..p] == DigestWords(H(), i)
      modifies buf
      ensures Valid() && H() == old(H()) && buf[..p + 4] == DigestWords(H(), i + 1)
    {
      assert state[i] == HashWord(H(), i);
      StoreState(p, state[i]);
    }

    /** The state words as big-endian bytes at the front of buf. */
    method StoreDigest()
      requires Valid()
      modifies buf
      ensures Valid() && buf[..20] == Digest(H())
    {
      ghost var h := H();
      var p, i := 0, 0;
      while i < 5
        invariant 0 <= i <= 5 && p == 4 * i && Valid() && H() == h
        invariant buf[..p] == DigestWords(h, i)
      {
        StoreNext(p, i);
        p := p + 4;
        i := i + 1;
      }
      DigestAll(h);
    }

    method StoreState(p: nat, tmp: bv32)
      requires Valid() && p + 4 <= 64
      modifies buf
      ensures Valid() && buf[..p + 4] == old(buf[..p]) + SplitWord(tmp)
    {
      buf[p] := ((tmp >> 24) & 0xFF) as byte;
      buf[p + 1] := ((tmp >> 16) & 0xFF) as byte;
      buf[p + 2] := ((tmp >> 8) & 0xFF) as byte;
      buf[p + 3] := (tmp & 0xFF) as byte;
    }

    /** SHA_final: pads, adds the length, and leaves the digest in the first 20 bytes of buf. */
    method Final()
      requires Valid()
      modifies this, buf, state
      ensures Valid()
      ensures buf[..20] == Digest(Finish(old(Abs()), old(count)))
    {
      ghost var s, c := Abs(), count;
      var cnt := count * 8 % 0x1_0000_0000_0000_0000;
      UpdatePadding();
      UpdateLength(cnt);
      FeedConcat(s, [0x80] + seq(ZeroBytes(c), _ => 0), I2osp(cnt, 8));
      StoreDigest();
    }
  }

  /** The first i words of a digest. */
  function DigestWords(h: Hash, i: nat): seq<byte>
    requires i <= 5
  {
    if i == 0 then [] else DigestWords(h, i - 1) + SplitWord(HashWord(h, i - 1))
  }

  function HashWord(h: Hash, i: nat): bv32 {
    if i == 0 then h.a else if i == 1 then h.b else if i == 2 then h.c else if i == 3 then h.d else h.e
  }

  lemma DigestAll(h: Hash)
    ensures DigestWords(h, 5) == Digest(h)
  {
    assert DigestWords(h, 1) == SplitWord(h.a);
    assert DigestWords(h, 2) == SplitWord(h.a) + SplitWord(h.b);
    assert DigestWords(h, 3) == SplitWord(h.a) + SplitWord(h.b) + SplitWord(h.c);
    assert DigestWords(h, 4) == SplitWord(h.a) + SplitWord(h.b) + SplitWord(h.c) + SplitWord(h.d);
  }

  /** Zero bytes still to feed before the length. */
  function ToPad(count: u64): nat {
    if count % 64 <= 56 then 56 - count % 64 else 120 - count % 64
  }

  lemma WrappedCount(n: nat)
    ensures (n % 0x1_0000_0000_0000_0000) % 64 == n % 64
  {
    var q, r := n / 0x1_0000_0000_0000_0000, n % 0x1_0000_0000_0000_0000;
    DivModUnique(n, 64, q * 0x400_0000_0000_0000 + r / 64, r % 64);
  }

  lemma SmallCount(n: nat)
    requires n < 0x1_0000_0000_0000_0000
    ensures n % 0x1_0000_0000_0000_0000 == n
  {}

  lemma PadStart(c: u64)
    ensures ToPad((c + 1) % 0x1_0000_0000_0000_0000) == ZeroBytes(c)
  {
    WholePart(c);
    WrappedCount(c + 1);
  }

  lemma PadNext(count: u64)
    requires count % 64 != 56
    ensures ToPad((count + 1) % 0x1_0000_0000_0000_0000) == ToPad(count) - 1
  {
    WholePart(count);
    WrappedCount(count + 1);
  }

  // ----- SHA_hash -----

  /** SHA_hash: the digest of a message handed over in one piece, its length being an int. */
  method HashMessage(data: seq<byte>) returns (digest: seq<byte>)
    requires |data| < 0x8000_0000
    ensures digest == Sha1(data)
  {
    var ctx := new Context();
    ctx.Update(data);
    FedIsStandard(data);
    SmallCount(|data|);
    ctx.Final();
    digest := ctx.buf[..20];
  }

  lemma EarlyRound(t: nat, x: bv32, y: bv32, z: bv32)
    requires t < 20
    ensures z ^ (x & (y ^ z)) == F(t, x, y, z)
  {
    ChooseIsCh(x, y, z);
    assert F(t, x, y, z) == Ch(x, y, z);
  }

  lemma ParityRound(t: nat, x: bv32, y: bv32, z: bv32)
    requires 20 <= t < 40 || 60 <= t
    ensures x ^ y ^ z == F(t, x, y, z)
  {
    assert F(t, x, y, z) == Parity(x, y, z);
  }

  lemma MajorityRound(t: nat, x: bv32, y: bv32, z: bv32)
    requires 40 <= t < 60
    ensures (x & y) | (z & (x | y)) == F(t, x, y, z)
  {
    MajorityIsMaj(x, y, z);
    assert F(t, x, y, z) == Maj(x, y, z);
  }

  /** The logical function and the constant of one round. */
  method RoundTerms(t: nat, B: bv32, C: bv32, D: bv32) returns (f: bv32, k: bv32)
    ensures f == F(t, B, C, D) && k == K(t)
  {
    if t < 20 {
      f, k := D ^ (B & (C ^ D)), 0x5A827999;
      EarlyRound(t, B, C, D);
    } else if t < 40 {
      f, k := B ^ C ^ D, 0x6ED9EBA1;
      ParityRound(t, B, C, D);
    } else if t < 60 {
      f, k := (B & C) | (D & (B | C)), 0x8F1BBCDC;
      MajorityRound(t, B, C, D);
    } else {
      f, k := B ^ C ^ D, 0xCA62C1D6;
      ParityRound(t, B, C, D);
    }
  }

  lemma RoundOf(h: Hash, t: nat, w: bv32, f: bv32, k: bv32)
    requires f == F(t, h.b, h.c, h.d) && k == K(t)
    ensures Round(h, t, w) == Hash(Add(Add(Add(Rol(5, h.a), h.e), w), Add(f, k)), h.a, Rol(30, h.b), h.c, h.d)
  {
    RolRotates(h.a);
    RolRotates(h.b);
  }
}
