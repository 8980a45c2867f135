/** panda/crypto/rsa.c on word arrays, updated in place. */
module Rsa {
  import opened Arithmetic
  import opened Words
  import opened Montgomery

  type i64 = x: int | -0x8000_0000_0000_0000 <= x < 0x8000_0000_0000_0000

  const RSA_NUM_BYTES: nat := 128
  const RSA_NUM_WORDS: nat := 32
  const SHA_DIGEST_SIZE: nat := 20

  /** The values of a key's fields. */
  datatype PublicKey = PublicKey(len: int, n0inv: word, n: seq<word>, rr: seq<word>, exponent: int)
  {
    /** n[] holds len words and n0inv is -1 / n[0] modulo 2^32. */
    ghost predicate Inverted() {
      && 1 <= len == |n|
      && (n[0] * n0inv + 1) % BASE == 0
    }

    /** What panda/crypto/rsa.h says of the fields of a key. */
    ghost predicate WellFormed() {
      && Inverted()
      && len == |rr|
      && Val(n) != 0
      && Cong(Val(rr), Pow(BASE, len) * Pow(BASE, len), Val(n))
      && exponent in {3, 65537}
    }

    ghost function Mod(): Modulus
      requires 0 <= len
    {
      Modulus(len, Val(n), n0inv)
    }
  }

  /** The fields of a key give a modulus that Montgomery steps can work with. */
  lemma KeyModulus(k: PublicKey)
    requires k.Inverted()
    ensures k.Mod().Valid()
    ensures |k.rr| == k.len ==> Val(k.rr) < k.Mod().R()
  {
    ValBound(k.n);
    ValBound(k.rr);
    DivModUnique(Val(k.n), BASE, Val(k.n[1..]), k.n[0]);
    assert k.n[0] != 0;
  }

  class RSAPublicKey {
    const len: int
    const n0inv: word
    const n: array<word>
    const rr: array<word>
    const exponent: int

    constructor (len: int, n0inv: word, n: array<word>, rr: array<word>, exponent: int)
      ensures this.len == len && this.n0inv == n0inv && this.n == n && this.rr == rr && this.exponent == exponent
    {
      this.len, this.n0inv, this.n, this.rr, this.exponent := len, n0inv, n, rr, exponent;
    }

    ghost function Key(): PublicKey
      reads n, rr
    {
      PublicKey(len, n0inv, n[..], rr[..], exponent)
    }
  }

  // ----- subM and geM -----

  /** A += d, for a signed A and an unsigned d: the sum is taken unsigned and stored signed. */
  function AddUnsigned(A: i64, d: u64): i64 {
    var sum := (A + d) % 0x1_0000_0000_0000_0000;
    if sum < 0x8000_0000_0000_0000 then sum else sum - 0x1_0000_0000_0000_0000
  }

  /** The wrap-around in the unsigned difference cancels: a borrow of one word is a borrow of one. */
  lemma BorrowStep(A: i64, x: word, y: word)
    requires -1 <= A <= 0
    ensures AddUnsigned(A, (x as int - y) % 0x1_0000_0000_0000_0000) == A + x - y
  {}

  lemma SubStep(p: int, f: int, v: int, v': int, A: int, A': int, lo: int, x: int, o: int, n: int, y: int)
    requires v + A * p == o - n
    requires A + x - y == A' * f + lo
    requires v' == v + p * lo
    ensures v' + A' * (f * p) == (o + p * x) - (n + p * y)
  {
    assert p * (A + x - y) == p * (A' * f + lo);
    assert p * (A' * f) == A' * (f * p);
  }

  /** What len words keep of a number. */
  function Wrapped(x: int, len: nat): int {
    PowPositive(BASE, len);
    x % Pow(BASE, len)
  }

  /** a[] -= mod, modulo R. */
  method SubM(key: RSAPublicKey, a: array<word>)
    requires key.len == key.n.Length == a.Length
    requires a != key.n
    modifies a
    ensures Val(a[..]) == Wrapped(Val(old(a[..])) - Val(key.n[..]), a.Length)
  {
    ghost var was, mod := a[..], key.n[..];
    var A: i64 := 0;
    var i := 0;
    while i < key.len
      invariant 0 <= i <= key.len
      invariant -1 <= A <= 0
      invariant key.n[..] == mod
      invariant forall k :: i <= k < a.Length ==> a[k] == was[k]
      invariant Val(a[..i]) + A * Pow(BASE, i) == Val(was[..i]) - Val(mod[..i])
    {
      ghost var before, borrow := a[..i], A;
      BorrowStep(A, a[i], key.n[i]);
      A := AddUnsigned(A, (a[i] as int - key.n[i]) % 0x1_0000_0000_0000_0000);
      a[i] := A % BASE;
      A := A / BASE;
      ValSnoc(was, i);
      ValSnoc(mod, i);
      ValSnoc(a[..], i);
      assert a[..][..i] == before && a[..][..i + 1] == a[..i + 1];
      SubStep(Pow(BASE, i), BASE, Val(before), Val(a[..i + 1]), borrow,
              A, a[i], was[i], Val(was[..i]), Val(mod[..i]), mod[i]);
      i := i + 1;
    }
    assert a[..i] == a[..] && was[..i] == was && mod[..i] == mod;
    ValBound(a[..]);
    DivModUnique(Val(was) - Val(mod), Pow(BASE, a.Length), A, Val(a[..]));
  }

  /** a[] >= mod. */
  method GeM(key: RSAPublicKey, a: array<word>) returns (r: bool)
    requires key.len == key.n.Length == a.Length
    ensures r <==> Val(a[..]) >= Val(key.n[..])
  {
    var i := key.len;
    while i != 0
      invariant 0 <= i <= key.len
      invariant a[i..] == key.n[i..]
    {
      i := i - 1;
      if a[i] < key.n[i] {
        ValCompare(a[..], key.n[..], i);
        assert a[..][i + 1..] == a[i + 1..] && key.n[..][i + 1..] == key.n[i + 1..];
        return false;
      }
      if a[i] > key.n[i] {
        ValCompare(key.n[..], a[..], i);
        return true;
      }
    }
    assert a[..] == a[0..] && key.n[..] == key.n[0..];
    return true;
  }

  // ----- montMulAdd -----

  /** Only the lowest words decide the quotient. */
  lemma QuotientFromLowWords(m: Modulus, cs: seq<word>, a: word, bs: seq<word>)
    requires cs != [] && bs != []
    ensures (a * bs[0] + cs[0]) % BASE == (a * Val(bs) + Val(cs)) % BASE
  {
    var x := a * Val(bs[1..]) + Val(cs[1..]);
    LowWords(a, bs[0], Val(bs[1..]), cs[0], Val(cs[1..]), BASE);
    var t := a * bs[0] + cs[0];
    DivModUnique(a * Val(bs) + Val(cs), BASE, t / BASE + x, t % BASE);
  }

  lemma LowWords(a: int, b0: int, b: int, c0: int, c: int, f: int)
    ensures a * (b0 + f * b) + (c0 + f * c) == a * b0 + c0 + (a * b + c) * f
  {
    assert a * (f * b) == (a * b) * f;
  }

  /** One turn of the carry loop: A and B are the two pending sums, lo the word written. */
  lemma CarryStep(f: int, p: int, q: int, total: int, v: int, A: int, B: int, x: int, y: int, A': int, B': int)
    requires f != 0 && p == f * q
    requires total == f * v + p * (A / f + B / f)
    requires A' == A / f + x && B' == B / f + y + A' % f
    ensures total + p * (x + y) == f * (v + q * (B' % f)) + (f * p) * (A' / f + B' / f)
  {
    assert A' == f * (A' / f) + A' % f && B' == f * (B' / f) + B' % f;
    var h := A' / f + B' / f;
    assert A / f + B / f + (x + y) == f * h + B' % f;
    assert p * (A / f + B / f) + p * (x + y) == p * (f * h + B' % f);
    assert p * (f * h) == (f * p) * h;
    assert p * (B' % f) == f * (q * (B' % f));
  }

  lemma Accumulate(a: int, b: int, c: int, d: int, n: int, p: int, bi: int, ci: int, ni: int)
    ensures a * (b + p * bi) + (c + p * ci) + d * (n + p * ni) == a * b + c + d * n + p * ((a * bi + ci) + d * ni)
  {
    assert a * (p * bi) == p * (a * bi) && d * (p * ni) == p * (d * ni);
  }

  lemma WordProduct(x: word, y: word)
    ensures 0 <= x * y <= (BASE - 1) * (BASE - 1)
  {
    MulMono2(x, BASE - 1, y, BASE - 1);
  }

  /** The first word of the sum vanishes and leaves only carries. */
  lemma FirstCarry(key: PublicKey, cs: seq<word>, a: word, bs: seq<word>, A: int, d0: int, B: int)
    requires key.Inverted() && |cs| == |bs| == key.len
    requires A == a * bs[0] + cs[0] && d0 == (A % BASE * key.n0inv) % BASE && B == d0 * key.n[0] + A % BASE
    ensures d0 == Quotient(key.Mod(), Val(cs), a, Val(bs))
    ensures a * bs[0] + cs[0] + d0 * key.n[0] == BASE * (A / BASE + B / BASE)
  {
    QuotientFromLowWords(key.Mod(), cs, a, bs);
    var m0 := Modulus(1, key.n[0], key.n0inv);
    assert m0.R() == BASE by { assert Pow(BASE, 0) == 1; }
    assert key.n[0] != 0;
    LowWordCleared(m0, cs[0], a, bs[0]);
    var t := Shifted(m0, cs[0], a, bs[0]);
    assert B == (t - A / BASE) * BASE;
    DivModUnique(B, BASE, t - A / BASE, 0);
  }

  /** a * b + c + d * n over the first i words. */
  ghost function Total(k: PublicKey, cs: seq<word>, a: word, bs: seq<word>, d: word, i: nat): nat
    requires i <= |cs| == |bs| == |k.n|
  {
    a * Val(bs[..i]) + Val(cs[..i]) + d * Val(k.n[..i])
  }

  lemma TotalNext(k: PublicKey, cs: seq<word>, a: word, bs: seq<word>, d: word, i: nat)
    requires i < |cs| == |bs| == |k.n|
    ensures Total(k, cs, a, bs, d, i + 1)
         == Total(k, cs, a, bs, d, i) + Pow(BASE, i) * ((a * bs[i] + cs[i]) + d * k.n[i])
  {
    ValSnoc(bs, i);
    ValSnoc(cs, i);
    ValSnoc(k.n, i);
    Accumulate(a, Val(bs[..i]), Val(cs[..i]), d, Val(k.n[..i]), Pow(BASE, i), bs[i], cs[i], k.n[i]);
  }

  lemma TotalFirst(k: PublicKey, cs: seq<word>, a: word, bs: seq<word>, d: word)
    requires 1 <= |cs| == |bs| == |k.n|
    ensures Total(k, cs, a, bs, d, 1) == a * bs[0] + cs[0] + d * k.n[0]
  {
    FirstWord(bs);
    FirstWord(cs);
    FirstWord(k.n);
  }

  lemma FirstWord(s: seq<word>)
    requires s != []
    ensures Val(s[..1]) == s[0]
  {
    assert s[..1][1..] == [];
  }

  lemma TotalAll(k: PublicKey, cs: seq<word>, a: word, bs: seq<word>, d: word)
    requires |cs| == |bs| == |k.n|
    ensures Total(k, cs, a, bs, d, |k.n|) == a * Val(bs) + Val(cs) + d * Val(k.n)
  {
    assert bs[..|k.n|] == bs && cs[..|k.n|] == cs && k.n[..|k.n|] == k.n;
  }

  /** What the carry loop has established before word i: v holds the i - 1 words written so far,
      and the high halves of A and B are still to be added at weight i. */
  ghost predicate Carried(total: nat, i: nat, v: seq<word>, A: nat, B: nat) {
    total == BASE * Val(v) + Pow(BASE, i) * (A / BASE + B / BASE)
  }

  lemma CarriedFirst(k: PublicKey, cs: seq<word>, a: word, bs: seq<word>, d0: word, A: nat, B: nat)
    requires k.Inverted() && |cs| == |bs| == k.len
    requires A == a * bs[0] + cs[0] && d0 == (A % BASE * k.n0inv) % BASE && B == d0 * k.n[0] + A % BASE
    ensures d0 == Quotient(k.Mod(), Val(cs), a, Val(bs))
    ensures Carried(Total(k, cs, a, bs, d0, 1), 1, [], A, B)
  {
    FirstCarry(k, cs, a, bs, A, d0, B);
    TotalFirst(k, cs, a, bs, d0);
    assert Pow(BASE, 1) == BASE * Pow(BASE, 0) == BASE;
  }

  lemma CarriedNext(total: nat, i: nat, v: seq<word>, A0: nat, B0: nat, x: nat, y: nat, A: nat, B: nat, v': seq<word>)
    requires 1 <= i && |v| == i - 1
    requires Carried(total, i, v, A0, B0)
    requires A == A0 / BASE + x && B == B0 / BASE + y + A % BASE
    requires v' == v + [B % BASE]
    ensures 0 <= Pow(BASE, i) * (x + y)
    ensures Carried(total + Pow(BASE, i) * (x + y), i + 1, v', A, B)
  {
    PowPositive(BASE, i);
    MulMono2(0, Pow(BASE, i), 0, x + y);
    ValSnoc(v', i - 1);
    assert v'[..i - 1] == v && v'[..i] == v';
    CarryStep(BASE, Pow(BASE, i), Pow(BASE, i - 1), total, Val(v), A0, B0, x, y, A, B);
  }

  lemma CarriedWord(k: PublicKey, cs: seq<word>, a: word, bs: seq<word>, d0: word,
                    i: nat, v: seq<word>, A0: nat, B0: nat, A: nat, B: nat, v': seq<word>)
    requires 1 <= i < |cs| == |bs| == |k.n| && |v| == i - 1
    requires Carried(Total(k, cs, a, bs, d0, i), i, v, A0, B0)
    requires A == A0 / BASE + a * bs[i] + cs[i] && B == B0 / BASE + d0 * k.n[i] + A % BASE
    requires v' == v + [B % BASE]
    ensures Carried(Total(k, cs, a, bs, d0, i + 1), i + 1, v', A, B)
  {
    WordProduct(a, bs[i]);
    WordProduct(d0, k.n[i]);
    CarriedNext(Total(k, cs, a, bs, d0, i), i, v, A0, B0, a * bs[i] + cs[i], d0 * k.n[i], A, B, v');
    TotalNext(k, cs, a, bs, d0, i);
  }

  /** After the last word the result words and the carry-out hold the shifted sum. */
  lemma CarriedTotal(total: nat, len: nat, v: seq<word>, A0: nat, B0: nat, A: nat, r: seq<word>)
    requires 1 <= len && |v| == len - 1
    requires Carried(total, len, v, A0, B0)
    requires A == A0 / BASE + B0 / BASE && r == v + [A % BASE]
    ensures total / BASE == Val(r) + Pow(BASE, len) * (A / BASE)
  {
    ValSnoc(r, len - 1);
    assert r[..len - 1] == v && r[..len] == r;
    LastCarry(total, Val(v), Pow(BASE, len - 1), A, Val(r));
  }

  lemma LastCarry(t: int, v: nat, q: int, A: int, r: int)
    requires t == BASE * v + (BASE * q) * A
    requires r == v + q * (A % BASE)
    ensures t / BASE == r + (BASE * q) * (A / BASE)
  {
    assert q * A == q * (BASE * (A / BASE) + A % BASE);
    assert q * (BASE * (A / BASE)) == (BASE * q) * (A / BASE);
    assert (BASE * q) * A == BASE * (q * A);
    DivModUnique(t, BASE, r + (BASE * q) * (A / BASE), 0);
  }

  /** The carry-out says whether the shifted sum reached R, and one modulus makes up for it. */
  lemma CarriedLast(m: Modulus, c: nat, a: word, b: nat, h: nat, r: seq<word>)
    requires m.Valid() && b < m.R() && c < m.R() && |r| == m.len
    requires Shifted(m, c, a, b) == Val(r) + m.R() * h
    ensures h == 0 ==> Val(r) == Step(m, c, a, b)
    ensures h != 0 ==> Wrapped(Val(r) - m.n, m.len) == Step(m, c, a, b)
  {
    var t := Shifted(m, c, a, b);
    ValBound(r);
    ShiftedBounds(m, c, a, b);
    CarryOut(t, Val(r), m.R(), h);
    if t >= m.R() {
      DivModUnique(Val(r) - m.n, m.R(), -1, t - m.n);
    }
  }

  lemma CarriedDone(k: PublicKey, cs: seq<word>, a: word, bs: seq<word>, d0: word,
                    v: seq<word>, A0: nat, B0: nat, A: nat, r: seq<word>)
    requires k.Inverted() && |cs| == |bs| == k.len && |v| == k.len - 1
    requires Val(bs) < k.Mod().R() && Val(cs) < k.Mod().R()
    requires d0 == Quotient(k.Mod(), Val(cs), a, Val(bs))
    requires Carried(Total(k, cs, a, bs, d0, k.len), k.len, v, A0, B0)
    requires A == A0 / BASE + B0 / BASE && r == v + [A % BASE]
    ensures A / BASE == 0 ==> Val(r) == Step(k.Mod(), Val(cs), a, Val(bs))
    ensures A / BASE != 0 ==> Wrapped(Val(r) - k.Mod().n, k.len) == Step(k.Mod(), Val(cs), a, Val(bs))
  {
    var total := Total(k, cs, a, bs, d0, k.len);
    assert total == a * Val(bs) + Val(cs) + d0 * Val(k.n) by {
      TotalAll(k, cs, a, bs, d0);
    }
    assert k.Mod().Valid() by {
      KeyModulus(k);
    }
    CarriedTotal(total, k.len, v, A0, B0, A, r);
    DoneFor(k.Mod(), Val(cs), a, Val(bs), A / BASE, r, total, d0);
  }

  lemma DoneFor(m: Modulus, c: nat, a: word, b: nat, h: nat, r: seq<word>, total: nat, d: nat)
    requires m.Valid() && b < m.R() && c < m.R() && |r| == m.len
    requires d == Quotient(m, c, a, b) && total == a * b + c + d * m.n && total / BASE == Val(r) + m.R() * h
    ensures h == 0 ==> Val(r) == Step(m, c, a, b)
    ensures h != 0 ==> Wrapped(Val(r) - m.n, m.len) == Step(m, c, a, b)
  {
    assert Shifted(m, c, a, b) == total / BASE;
    CarriedLast(m, c, a, b, h, r);
  }

  /** c[] += a * b[], times 1 / 2^32 modulo the key's modulus. */
  method MontMulAdd(key: RSAPublicKey, c: array<word>, a: word, b: array<word>)
    requires key.Key().Inverted() && c.Length == b.Length == key.len
    requires c != b && c != key.n && c != key.rr
    requires Val(b[..]) < key.Key().Mod().R() && Val(c[..]) < key.Key().Mod().R()
    modifies c
    ensures Val(c[..]) == Step(key.Key().Mod(), Val(old(c[..])), a, Val(b[..]))
  {
    ghost var cs, bs, k := c[..], b[..], key.Key();
    WordProduct(a, b[0]);
    var A: u64 := a * b[0] + c[0];
    var d0: word := (A % BASE * key.n0inv) % BASE;
    WordProduct(d0, key.n[0]);
    var B: u64 := d0 * key.n[0] + A % BASE;
    CarriedFirst(k, cs, a, bs, d0, A, B);
    var i := 1;
    assert c[..0] == [];
    while i < key.len
      invariant 1 <= i <= key.len
      invariant b[..] == bs && key.Key() == k
      invariant forall j :: i - 1 <= j < c.Length ==> c[j] == cs[j]
      invariant Carried(Total(k, cs, a, bs, d0, i), i, c[..i - 1], A, B)
    {
      ghost var A0, B0, v := A, B, c[..i - 1];
      WordProduct(a, b[i]);
      WordProduct(d0, key.n[i]);
      A := A / BASE + a * b[i] + c[i];
      B := B / BASE + d0 * key.n[i] + A % BASE;
      c[i - 1] := B % BASE;
      assert c[..i] == v + [B % BASE];
      CarriedWord(k, cs, a, bs, d0, i, v, A0, B0, A, B, c[..i]);
      i := i + 1;
    }
    ghost var A0, B0, v := A, B, c[..i - 1];

    A := A / BASE + B / BASE;
    c[i - 1] := A % BASE;

    assert c[..] == v + [A % BASE];
    CarriedDone(k, cs, a, bs, d0, v, A0, B0, A, c[..]);
    if A / BASE != 0 {
      SubM(key, c);
    }
  }

  lemma CarryOut(t: int, r: int, R: int, h: int)
    requires t == r + R * h && 0 <= r < R && 0 <= t < 2 * R
    ensures h == (if t < R then 0 else 1)
  {
    if h < 0 { MulMono(h, -1, R); }
    if h > 1 { MulMono(2, h, R); }
  }

  // ----- montMul -----

  /** c[] = a[] * b[] / R % mod, neither operand being c. */
  method MontMul(key: RSAPublicKey, c: array<word>, a: array<word>, b: array<word>)
    requires key.Key().Inverted() && c.Length == a.Length == b.Length == key.len
    requires c != a && c != b && c != key.n && c != key.rr
    modifies c
    ensures key.Key().Mod().Valid() && Val(a[..]) < key.Key().Mod().R() && Val(b[..]) < key.Key().Mod().R()
    ensures Val(c[..]) == Mont(key.Key().Mod(), Val(a[..]), Val(b[..]))
  {
    ghost var k, av, bv := key.Key(), a[..], b[..];
    ghost var m := k.Mod();
    KeyModulus(k);
    ValBound(av);
    ValBound(bv);
    var i := 0;
    while i < key.len
      invariant 0 <= i <= key.len
      invariant key.Key() == k && a[..] == av && b[..] == bv
      invariant forall j :: 0 <= j < i ==> c[j] == 0
    {
      c[i] := 0;
      i := i + 1;
    }
    ValZeros(c[..]);
    i := 0;
    assert av[..0] == [];
    while i < key.len
      invariant 0 <= i <= key.len
      invariant key.Key() == k && a[..] == av && b[..] == bv
      invariant Val(c[..]) == Fold(m, av[..i], Val(bv))
    {
      MontMulAdd(key, c, a[i], b);
      assert av[..i + 1][..i] == av[..i];
      i := i + 1;
    }
    assert av[..i] == av;
    ToWordsVal(av);
  }

  // ----- modpow -----

  /** Four more big-endian bytes in front of a string are one more word above it. */
  lemma WordInFront(bs: seq<byte>, i: nat, low: nat)
    requires |bs| == 4 * (i + 1) && Os2ip(bs[4..]) == low
    ensures Os2ip(bs) == low + Pow(BASE, i) * WordOfBytes(bs[0], bs[1], bs[2], bs[3])
  {
    var four := [bs[0], bs[1], bs[2], bs[3]];
    assert bs == four + bs[4..];
    Os2ipConcat(four, bs[4..]);
    PowBytesWords(i);
    WordOfBytesValue(bs[0], bs[1], bs[2], bs[3]);
    var w := WordOfBytes(bs[0], bs[1], bs[2], bs[3]);
    assert w * Pow(BASE, i) == Pow(BASE, i) * w;
  }

  /** Four more big-endian bytes behind a string are one more word below it. */
  lemma WordBehind(bs: seq<byte>, w: word)
    ensures Os2ip(bs + BytesOfWord(w)) == w + BASE * Os2ip(bs)
  {
    Os2ipConcat(bs, BytesOfWord(w));
    BytesOfWordValue(w);
    PowBytesWords(1);
    assert Pow(BASE, 1) == BASE * Pow(BASE, 0) == BASE;
    assert Os2ip(bs) * BASE == BASE * Os2ip(bs);
  }

  /** Big-endian bytes to little-endian words. */
  method FromBytes(len: int, inout: array<byte>, a: array<word>)
    requires 0 <= len == a.Length && inout.Length == 4 * len
    modifies a
    ensures inout[..] == old(inout[..])
    ensures Val(a[..]) == Os2ip(inout[..])
  {
    ghost var bs := inout[..];
    var i := 0;
    assert bs[4 * len..] == [] && a[..0] == [];
    while i < len
      invariant 0 <= i <= len && inout[..] == bs
      invariant Val(a[..i]) == Os2ip(bs[4 * (len - i)..])
    {
      ghost var before := a[..i];
      var p := (len - 1 - i) * 4;
      var tmp := WordOfBytes(inout[p + 0], inout[p + 1], inout[p + 2], inout[p + 3]);
      a[i] := tmp;
      ValSnoc(a[..], i);
      assert a[..][..i + 1] == a[..i + 1] && a[..][..i] == before;
      assert bs[p..][4..] == bs[4 * (len - i)..];
      WordInFront(bs[p..], i, Val(before));
      i := i + 1;
    }
    assert a[..i] == a[..] && bs[0..] == bs;
  }

  /** Four bytes of output, most significant first. */
  method StoreWord(inout: array<byte>, p: nat, tmp: word)
    requires p + 4 <= inout.Length
    modifies inout
    ensures Os2ip(inout[..p + 4]) == tmp + BASE * Os2ip(old(inout[..p]))
  {
    ghost var before := inout[..p];
    inout[p] := ((tmp / 0x1000000) % 0x100) as byte;
    inout[p + 1] := ((tmp / 0x10000) % 0x100) as byte;
    inout[p + 2] := ((tmp / 0x100) % 0x100) as byte;
    inout[p + 3] := (tmp % 0x100) as byte;
    assert inout[..p + 4] == before + BytesOfWord(tmp);
    WordBehind(before, tmp);
  }

  /** Little-endian words to big-endian bytes. */
  method ToBytes(len: int, aaa: array<word>, inout: array<byte>)
    requires 0 <= len == aaa.Length && inout.Length == 4 * len
    modifies inout
    ensures Os2ip(inout[..]) == Val(aaa[..])
  {
    ghost var ws := aaa[..];
    var p := 0;
    var i := len - 1;
    assert ws[len..] == [] && inout[..0] == [];
    while i >= 0
      invariant -1 <= i < len && p == 4 * (len - 1 - i) && aaa[..] == ws
      invariant Os2ip(inout[..p]) == Val(ws[i + 1..])
    {
      StoreWord(inout, p, aaa[i]);
      assert ws[i..][1..] == ws[i + 1..];
      p := p + 4;
      i := i - 1;
    }
    assert i == -1 && p == inout.Length;
    assert inout[..inout.Length] == inout[..];
    assert ws[0..] == ws;
  }

  /** As many words as the key has hold a value below R. */
  lemma WordsFit(k: PublicKey, s: seq<word>)
    requires k.Inverted() && |s| == k.len
    ensures k.Mod().Valid() && Val(s) < k.Mod().R()
  {
    KeyModulus(k);
    ValBound(s);
  }

  /** One turn of the loop of modpow. */
  method SquareTwice(key: RSAPublicKey, aR: array<word>, aaR: array<word>, ghost m: Modulus, ghost x: nat, ghost i: nat)
    requires key.Key().Inverted() && aR.Length == aaR.Length == key.len && m == key.Key().Mod()
    requires aR != aaR && {aR, aaR} !! {key.n, key.rr}
    requires m.Valid() && x < m.R() && Val(aR[..]) == Squarings(m, x, i)
    modifies aR, aaR
    ensures Val(aR[..]) == Squarings(m, x, i + 2)
  {
    MontMul(key, aaR, aR, aR);  // aaR = aR * aR / R mod M
    MontMul(key, aR, aaR, aaR);  // aR = aaR * aaR / R mod M
    SquaredTwice(m, x, i);
  }

  /** aR[] squared over and over, by way of aaR[]. */
  method SquareTimes(key: RSAPublicKey, aR: array<word>, aaR: array<word>, times: nat)
    requires times % 2 == 0 && key.Key().Inverted() && aR.Length == aaR.Length == key.len
    requires aR != aaR && {aR, aaR} !! {key.n, key.rr}
    modifies aR, aaR
    ensures key.Key().Mod().Valid() && Val(old(aR[..])) < key.Key().Mod().R()
    ensures Val(aR[..]) == Squarings(key.Key().Mod(), Val(old(aR[..])), times)
  {
    ghost var k, x := key.Key(), Val(aR[..]);
    ghost var m := k.Mod();
    WordsFit(k, aR[..]);
    ghost var half := times / 2;
    var i := 0;
    while i < times
      invariant 0 <= i <= times && times - i == 2 * half && key.Key() == k
      invariant Val(aR[..]) == Squarings(m, x, i)
    {
      SquareTwice(key, aR, aaR, m, x, i);
      i := i + 2;
      half := half - 1;
    }
  }

  lemma SquaredTwice(m: Modulus, x: nat, i: nat)
    requires m.Valid() && x < m.R()
    ensures var y := Squarings(m, x, i);
            var z := Mont(m, y, y);
            Squarings(m, x, i + 2) == Mont(m, z, z)
  {
    assert Squarings(m, x, i + 2) == var y := Squarings(m, x, i + 1); Mont(m, y, y);
  }

  /** The exponentiation itself; the result shares its array with aR or aaR. */
  method Exponentiate(key: RSAPublicKey, a: array<word>, aR: array<word>, aaR: array<word>) returns (aaa: array<word>)
    requires key.Key().WellFormed() && a.Length == aR.Length == aaR.Length == key.len
    requires aR != aaR && {aR, aaR} !! {a, key.n, key.rr}
    modifies aR, aaR
    ensures aaa in {aR, aaR}
    ensures key.Key().Mod().Valid() && Val(a[..]) < key.Key().Mod().R() && Val(key.rr[..]) < key.Key().Mod().R()
    ensures Val(aaa[..]) == Raw(key.Key().Mod(), Val(key.rr[..]), key.exponent, Val(a[..]))
  {
    ghost var k, x := key.Key(), Val(a[..]);
    ghost var m := k.Mod();
    if key.exponent == 65537 {
      aaa := aaR;  // re-use location
      MontMul(key, aR, a, key.rr);
      SquareTimes(key, aR, aaR, 16);
      MontMul(key, aaa, aR, a);
    } else {
      assert key.exponent == 3;
      aaa := aR;  // re-use location
      MontMul(key, aR, a, key.rr);
      MontMul(key, aaR, aR, aR);
      MontMul(key, aaa, aaR, a);
    }
  }

  /** What modpow takes to be enough of a reduction: one modulus off if the value is not below it. */
  method SubtractOnce(key: RSAPublicKey, aaa: array<word>)
    requires key.Key().Inverted() && aaa.Length == key.len && aaa != key.n && aaa != key.rr
    modifies aaa
    ensures Val(aaa[..]) ==
            if Val(old(aaa[..])) >= Val(key.n[..]) then Val(old(aaa[..])) - Val(key.n[..]) else Val(old(aaa[..]))
  {
    var ge := GeM(key, aaa);
    if ge {
      ghost var r, n := Val(aaa[..]), Val(key.n[..]);
      KeyModulus(key.Key());
      ValBound(aaa[..]);
      SubM(key, aaa);
      DivModUnique(r - n, Pow(BASE, key.len), 0, r - n);
    }
  }

  /** In-place public exponentiation of a big-endian byte array. */
  method ModPow(key: RSAPublicKey, inout: array<byte>)
    requires key.Key().WellFormed() && inout.Length == 4 * key.len
    modifies inout
    ensures key.Key().Mod().Valid()
    ensures Os2ip(old(inout[..])) < key.Key().Mod().R() && Val(key.rr[..]) < key.Key().Mod().R()
    ensures Os2ip(inout[..]) == Result(key.Key().Mod(), Val(key.rr[..]), key.exponent, Os2ip(old(inout[..])))
  {
    ghost var m := key.Key().Mod();
    var a := new word[key.len];
    var aR := new word[key.len];
    var aaR := new word[key.len];
    FromBytes(key.len, inout, a);
    var aaa := Exponentiate(key, a, aR, aaR);

    SubtractOnce(key, aaa);
    ToBytes(key.len, aaa, inout);
  }

  // ----- RSA_verify -----

  /** The 1024-bit padding table, zero where the hash goes. */
  const PADDING: seq<byte> := [0x00, 0x01] + seq(105, _ => 0xFF) + [0x00] + seq(SHA_DIGEST_SIZE, _ => 0x00)

  /** The block a signature must open to: 00 01, 105 bytes FF, 00, and the hash. */
  function Block(hash: seq<byte>): seq<byte> {
    [0x00, 0x01] + seq(105, _ => 0xFF) + [0x00] + hash
  }

  lemma OneValue()
    ensures Os2ip([0x00, 0x01]) == 1
  {
    Os2ipSnoc([], 0x00);
    Os2ipSnoc([0x00], 0x01);
    assert [] + [0x00] == [0x00] && [0x00] + [0x01] == [0x00, 0x01];
  }

  lemma TimesByte(whole: int, x0: int, x: int, q: int, h: int)
    requires x0 == x * 256 && whole == x0 * q + h
    ensures whole == x * (256 * q) + h
  {
    assert (x * 256) * q == x * (256 * q);
  }

  lemma ZeroEnds(front: seq<byte>)
    ensures Os2ip(front + [0x00]) == Os2ip(front) * 256
  {
    Os2ipSnoc(front, 0x00);
  }

  lemma FrontValue(front: seq<byte>, hash: seq<byte>)
    ensures Os2ip(front + [0x00] + hash) == Os2ip(front) * (256 * Pow(256, |hash|)) + Os2ip(hash)
  {
    var front0 := front + [0x00];
    ZeroEnds(front);
    Os2ipConcat(front0, hash);
    TimesByte(Os2ip(front0 + hash), Os2ip(front0), Os2ip(front), Pow(256, |hash|), Os2ip(hash));
  }

  lemma OnesFront(head: seq<byte>, ones: seq<byte>, n: nat)
    requires Os2ip(head) == 1 && ones == seq(n, _ => 0xFF)
    ensures Os2ip(head + ones) == 2 * Pow(256, n) - 1
  {
    AllOnes(n);
    Os2ipConcat(head, ones);
  }

  lemma BlockParts(hash: seq<byte>, ones: seq<byte>, n: nat)
    requires ones == seq(n, _ => 0xFF)
    ensures Os2ip([0x00, 0x01] + ones + [0x00] + hash)
            == (2 * Pow(256, n) - 1) * (256 * Pow(256, |hash|)) + Os2ip(hash)
  {
    OneValue();
    OnesFront([0x00, 0x01], ones, n);
    FrontValue([0x00, 0x01] + ones, hash);
  }

  lemma Spread(p: int, q: int)
    ensures (2 * p - 1) * (256 * q) == 2 * (p * (256 * q)) - 256 * q
  {}

  lemma BlockNumber(n: nat, h: nat)
    ensures (2 * Pow(256, n) - 1) * (256 * Pow(256, h)) == Pow(2, 8 * (n + h + 1) + 1) - Pow(2, 8 * (h + 1))
  {
    PowBits(n + h + 1);
    PowBits(h + 1);
    PowAdd(256, n, h + 1);
    Spread(Pow(256, n), Pow(256, h));
  }

  /** The block as a number: it depends on the hash alone. */
  lemma BlockValue(hash: seq<byte>)
    requires |hash| == 20
    ensures Os2ip(Block(hash)) == Pow(2, 1009) - Pow(2, 168) + Os2ip(hash)
  {
    BlockOf(hash, 105, 20);
  }

  lemma BlockOf(hash: seq<byte>, n: nat, h: nat)
    requires n == 105 && |hash| == h
    ensures Os2ip(Block(hash)) == Pow(2, 8 * (n + h + 1) + 1) - Pow(2, 8 * (h + 1)) + Os2ip(hash)
  {
    BlockParts(hash, seq(n, _ => 0xFF), n);
    BlockNumber(n, h);
  }

  /** A signature in the sense of RFC 8017, section 5.2.2: it opens to the block of the hash, in as many bytes as the
      modulus has. */
  ghost predicate ValidSignature(k: PublicKey, signature: seq<byte>, hash: seq<byte>)
    requires Val(k.n) != 0 && 0 <= k.exponent && 0 <= k.len
  {
    I2osp(Pow(Os2ip(signature), k.exponent) % Val(k.n), 4 * k.len) == Block(hash)
  }

  /** What modpow leaves of the signature is the block. */
  ghost predicate Opens(k: PublicKey, signature: seq<byte>, hash: seq<byte>)
    requires k.WellFormed() && k.len == RSA_NUM_WORDS && |signature| == RSA_NUM_BYTES
  {
    SignatureFits(k, signature);
    Result(k.Mod(), Val(k.rr), k.exponent, Os2ip(signature)) == Os2ip(Block(hash))
  }

  lemma SignatureFits(k: PublicKey, signature: seq<byte>)
    requires k.WellFormed() && |signature| == 4 * k.len
    ensures k.Mod().Valid() && Val(k.rr) < k.Mod().R() && Os2ip(signature) < k.Mod().R()
  {
    KeyModulus(k);
    Os2ipBound(signature);
    PowBytesWords(k.len);
  }

  /** With the top bit of the modulus set, or a reduced signature, opening is exactly RSA verification. */
  lemma OpensIsValid(k: PublicKey, signature: seq<byte>, hash: seq<byte>)
    requires k.WellFormed() && k.len == RSA_NUM_WORDS && |signature| == RSA_NUM_BYTES && |hash| == SHA_DIGEST_SIZE
    requires Os2ip(signature) < Val(k.n) || Pow(BASE, k.len) <= 2 * Val(k.n)
    ensures Opens(k, signature, hash) <==> ValidSignature(k, signature, hash)
  {
    SignatureFits(k, signature);
    ResultCorrect(k.Mod(), Val(k.rr), k.exponent, Os2ip(signature));
    var x := Pow(Os2ip(signature), k.exponent) % Val(k.n);
    PowBytesWords(k.len);
    Os2ipI2osp(x, 4 * k.len);
    I2ospOs2ip(Block(hash));
  }

  /** XOR the hash into the last bytes of the buffer and compare the whole with the padding table. */
  method ComparePadding(buf: array<byte>, hash: seq<byte>) returns (r: int)
    requires buf.Length == RSA_NUM_BYTES && |hash| == SHA_DIGEST_SIZE
    modifies buf
    ensures r == 0 || r == 1
    ensures r == 1 <==> Os2ip(old(buf[..])) == Os2ip(Block(hash))
  {
    ghost var powered := buf[..];
    var i := RSA_NUM_BYTES - SHA_DIGEST_SIZE;
    while i < RSA_NUM_BYTES
      invariant 108 <= i <= RSA_NUM_BYTES
      invariant forall j :: 0 <= j < RSA_NUM_BYTES ==>
        buf[j] == if 108 <= j < i then powered[j] ^ hash[j - 108] else powered[j]
    {
      buf[i] := buf[i] ^ hash[i - (RSA_NUM_BYTES - SHA_DIGEST_SIZE)];
      i := i + 1;
    }
    BlockBytes(powered, buf[..], hash);

    i := 0;
    while i < RSA_NUM_BYTES
      invariant 0 <= i <= RSA_NUM_BYTES
      invariant forall j :: 0 <= j < i ==> buf[j] == PADDING[j]
    {
      if buf[i] != PADDING[i] {
        return 0;
      }
      i := i + 1;
    }
    return 1;
  }

  /** 1 when the key, the lengths and the exponent are the supported ones and the signature opens
      to the block of the hash, 0 otherwise. */
  method RsaVerify(key: RSAPublicKey, signature: seq<byte>, len: int, hash: seq<byte>, hashLen: int) returns (r: int)
    requires len <= |signature| && hashLen <= |hash|
    requires key.len == RSA_NUM_WORDS && key.exponent in {3, 65537} ==> key.Key().WellFormed()
    ensures r == 0 || r == 1
    ensures r == 1 <==>
      && key.len == RSA_NUM_WORDS && len == RSA_NUM_BYTES && hashLen == SHA_DIGEST_SIZE
      && key.exponent in {3, 65537}
      && Opens(key.Key(), signature[..len], hash[..hashLen])
  {
    if key.len != RSA_NUM_WORDS {
      return 0;
    }
    if len != RSA_NUM_BYTES {
      return 0;
    }
    if hashLen != SHA_DIGEST_SIZE {
      return 0;
    }
    if key.exponent != 3 && key.exponent != 65537 {
      return 0;
    }

    var buf := new byte[RSA_NUM_BYTES];
    var i := 0;
    while i < len
      invariant 0 <= i <= len
      invariant forall j :: 0 <= j < i ==> buf[j] == signature[j]
    {
      buf[i] := signature[i];
      i := i + 1;
    }
    assert buf[..] == signature[..len];

    ModPow(key, buf);
    r := ComparePadding(buf, hash[..hashLen]);
  }

  /** XOR-ing the hash into the exponentiated bytes leaves the padding table exactly when they were the block. */
  lemma BlockBytes(powered: seq<byte>, xored: seq<byte>, hash: seq<byte>)
    requires |powered| == |xored| == RSA_NUM_BYTES && |hash| == SHA_DIGEST_SIZE
    requires forall j :: 0 <= j < RSA_NUM_BYTES ==>
               xored[j] == if 108 <= j then powered[j] ^ hash[j - 108] else powered[j]
    ensures xored == PADDING <==> Os2ip(powered) == Os2ip(Block(hash))
  {
    I2ospOs2ip(powered);
    I2ospOs2ip(Block(hash));
    forall j | 108 <= j < RSA_NUM_BYTES
      ensures xored[j] == PADDING[j] <==> powered[j] == Block(hash)[j]
    {
      XorZero(powered[j], hash[j - 108]);
    }
    if xored == PADDING {
      assert powered == Block(hash);
    }
    if powered == Block(hash) {
      assert xored == PADDING;
    }
  }

  lemma XorZero(x: byte, y: byte)
    ensures x ^ y == 0 <==> x == y
  {}
}
