/** Integer facts shared by the proofs: powers, products and congruences. */
module Arithmetic {

  function Pow(b: int, e: nat): int {
    if e == 0 then 1 else b * Pow(b, e - 1)
  }

  lemma MulMono(x: int, y: int, z: int)
    requires x <= y && 0 <= z
    ensures x * z <= y * z
  {}

  lemma MulMono2(x: int, y: int, u: int, v: int)
    requires 0 <= x <= y && 0 <= u <= v
    ensures 0 <= x * u <= y * v
  {
    MulMono(x, y, u);
    MulMono(u, v, y);
  }

  lemma {:induction false} PowPositive(b: int, e: nat)
    requires 1 <= b
    ensures 1 <= Pow(b, e)
  {
    if e != 0 {
      PowPositive(b, e - 1);
      MulMono2(1, b, 1, Pow(b, e - 1));
    }
  }

  lemma {:induction false} PowAdd(b: int, x: nat, y: nat)
    ensures Pow(b, x + y) == Pow(b, x) * Pow(b, y)
  {
    if x == 0 {
      assert Pow(b, 0) == 1;
    } else {
      PowAdd(b, x - 1, y);
      var p, q := Pow(b, x - 1), Pow(b, y);
      assert b * (p * q) == (b * p) * q;
      assert Pow(b, x + y) == b * Pow(b, x - 1 + y);
    }
  }

  /** Powers of 256 taken four at a time are powers of the word base. */
  lemma {:induction false} PowBits(k: nat)
    ensures Pow(2, 8 * k) == Pow(256, k)
  {
    if k != 0 {
      PowBits(k - 1);
      PowAdd(2, 8, 8 * (k - 1));
      PowAdd(2, 4, 4);
      PowAdd(2, 2, 2);
      assert Pow(2, 2) == 2 * (2 * Pow(2, 0)) by {
        assert Pow(2, 1) == 2 * Pow(2, 0);
      }
    }
  }

  lemma {:induction false} PowBytesWords(i: nat)
    ensures Pow(256, 4 * i) == Pow(0x1_0000_0000, i)
  {
    if i != 0 {
      PowBytesWords(i - 1);
      PowAdd(256, 4, 4 * (i - 1));
      assert Pow(256, 4) == 256 * (256 * (256 * (256 * 1))) by {
        assert Pow(256, 1) == 256 * Pow(256, 0);
        assert Pow(256, 2) == 256 * Pow(256, 1);
        assert Pow(256, 3) == 256 * Pow(256, 2);
      }
      assert 4 + 4 * (i - 1) == 4 * i;
    }
  }

  /** Quotient and remainder are the only ones in range. */
  lemma DivModUnique(x: int, d: int, q: int, r: int)
    requires 0 < d && 0 <= r < d
    requires x == q * d + r
    ensures x / d == q && x % d == r
  {
    var q', r' := x / d, x % d;
    assert x == d * q' + r';
    assert (q - q') * d == r' - r;
    if q < q' { MulMono(q - q', -1, d); }
    if q > q' { MulMono(1, q - q', d); }
  }

  lemma DivDiv(x: nat, d: int, e: int)
    requires 0 < d && 0 < e
    ensures 0 < d * e && x / d / e == x / (d * e)
  {
    MulMono2(1, d, 1, e);
    var q, r := x / d, x % d;
    var q', r' := q / e, q % e;
    assert x == q * d + r && q == q' * e + r';
    assert (q' * e + r') * d == q' * (d * e) + r' * d;
    MulMono(r', e - 1, d);
    assert (e - 1) * d == d * e - d;
    DivModUnique(x, d * e, q', r' * d + r);
  }

  lemma DivBounds(x: int, d: int, lo: int, hi: int)
    requires 0 < d && lo * d <= x < hi * d
    ensures lo <= x / d < hi
  {
    var q := x / d;
    assert x == q * d + x % d;
    if q < lo { MulMono(q + 1, lo, d); }
    if q >= hi { MulMono(hi, q, d); }
  }

  // ----- congruence -----

  ghost predicate Cong(x: int, y: int, n: int)
    requires 0 < n
  {
    (x - y) % n == 0
  }

  lemma MultipleMod(k: int, n: int)
    requires 0 < n
    ensures (k * n) % n == 0
  {
    DivModUnique(k * n, n, k, 0);
  }

  lemma CongIntro(x: int, y: int, k: int, n: int)
    requires 0 < n && x == y + k * n
    ensures Cong(x, y, n)
  {
    MultipleMod(k, n);
  }

  lemma CongElim(x: int, y: int, n: int) returns (k: int)
    requires 0 < n && Cong(x, y, n)
    ensures x == y + k * n
  {
    k := (x - y) / n;
  }

  lemma CongSym(x: int, y: int, n: int)
    requires 0 < n && Cong(x, y, n)
    ensures Cong(y, x, n)
  {
    var k := CongElim(x, y, n);
    assert (-k) * n == -(k * n);
    CongIntro(y, x, -k, n);
  }

  lemma CongTrans(x: int, y: int, z: int, n: int)
    requires 0 < n && Cong(x, y, n) && Cong(y, z, n)
    ensures Cong(x, z, n)
  {
    var k := CongElim(x, y, n);
    var l := CongElim(y, z, n);
    assert (k + l) * n == k * n + l * n;
    CongIntro(x, z, k + l, n);
  }

  lemma CongAdd(x: int, y: int, u: int, v: int, n: int)
    requires 0 < n && Cong(x, y, n) && Cong(u, v, n)
    ensures Cong(x + u, y + v, n)
  {
    var k := CongElim(x, y, n);
    var l := CongElim(u, v, n);
    assert (k + l) * n == k * n + l * n;
    CongIntro(x + u, y + v, k + l, n);
  }

  lemma CongScale(f: int, x: int, y: int, n: int)
    requires 0 < n && Cong(x, y, n)
    ensures Cong(f * x, f * y, n)
  {
    var k := CongElim(x, y, n);
    assert f * (y + k * n) == f * y + (f * k) * n;
    CongIntro(f * x, f * y, f * k, n);
  }

  lemma CongMul(x: int, y: int, u: int, v: int, n: int)
    requires 0 < n && Cong(x, y, n) && Cong(u, v, n)
    ensures Cong(x * u, y * v, n)
  {
    CongScale(u, x, y, n);
    CongScale(y, u, v, n);
    assert u * x == x * u && u * y == y * u;
    CongTrans(x * u, y * u, y * v, n);
  }

  /** A factor with an inverse modulo n cancels. */
  lemma CongCancel(f: int, inverse: int, x: int, y: int, n: int)
    requires 0 < n && Cong(inverse * f, 1, n) && Cong(f * x, f * y, n)
    ensures Cong(x, y, n)
  {
    CongScale(inverse, f * x, f * y, n);
    assert inverse * (f * x) == x * (inverse * f) && inverse * (f * y) == y * (inverse * f);
    CongScale(x, inverse * f, 1, n);
    CongScale(y, inverse * f, 1, n);
    CongSym(x * (inverse * f), x, n);
    CongTrans(x, x * (inverse * f), y * (inverse * f), n);
    CongTrans(x, y * (inverse * f), y, n);
  }

  lemma CongMod(x: int, n: int)
    requires 0 < n
    ensures Cong(x, x % n, n)
  {
    CongIntro(x, x % n, x / n, n);
  }

  /** A reduced representative is the remainder. */
  lemma CongReduced(x: int, y: int, n: int)
    requires 0 < n && Cong(x, y, n) && 0 <= x < n
    ensures x == y % n
  {
    CongSym(x, y, n);
    var k := CongElim(y, x, n);
    DivModUnique(y, n, k, x);
  }
}
