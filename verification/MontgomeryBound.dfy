/** Where the single subtraction at the end of modpow stops being enough: at every modulus whose top bit is clear. */
module MontgomeryBound {
  import opened Arithmetic
  import opened Words
  import opened Montgomery

  // ----- how small a product can get -----

  lemma ScaledMore(f: int, p: int, r: int, a: int, b: int, c: int, v: int)
    requires 0 <= p && f * r >= a * b + c && p * c >= v * b
    ensures (f * p) * r >= (v + p * a) * b
  {
    MulMono(a * b + c, f * r, p);
    FoldRegroup(f, p, r, a, b, c, v);
    assert (f * r) * p == p * (f * r) && (a * b + c) * p == p * (a * b + c);
  }

  lemma FullMore(f: int, p: int, r: int, a: int, least: int, v: int)
    requires 0 < f && 0 <= least <= r && 0 <= v < p && 0 <= a < f
    ensures (f * p) * r >= (v + p * a) * least
  {
    MulMono(a + 1, f, p);
    assert v + p * a <= p * (a + 1) == (a + 1) * p <= f * p;
    MulMono(v + p * a, f * p, least);
    MulMono(least, r, f * p);
    assert least * (f * p) == (f * p) * least && r * (f * p) == (f * p) * r;
  }

  /** One step: what is left is at least a * least + c over the word base, or it has been subtracted from and is
      at least R - n. */
  lemma StepAtLeast(m: Modulus, c: nat, a: word, b: nat, least: nat)
    requires m.Valid() && c < m.R() && b < m.R() && least <= b && least + m.n <= m.R()
    ensures BASE * Step(m, c, a, b) >= a * least + c || Step(m, c, a, b) >= least
  {
    LowWordCleared(m, c, a, b);
    MulMono(0, Quotient(m, c, a, b), m.n);
    MulMono(least, b, a);
    assert least * a == a * least && b * a == a * b;
  }

  /** Whatever is taken off on the way, the product is at least a / R times the smaller of b and R - n. */
  lemma {:induction false} FoldAtLeast(m: Modulus, s: seq<word>, b: nat, least: nat)
    requires m.Valid() && b < m.R() && least <= b && least + m.n <= m.R()
    ensures Pow(BASE, |s|) * Fold(m, s, b) >= Val(s) * least
  {
    if s == [] {
      assert Val(s) * least == 0 && Pow(BASE, 0) * Fold(m, s, b) == 0;
    } else {
      var k := |s| - 1;
      var c, a := Fold(m, s[..k], b), s[k];
      var r := Step(m, c, a, b);
      FoldAtLeast(m, s[..k], b, least);
      StepAtLeast(m, c, a, b, least);
      ValSnoc(s, k);
      assert s[..k + 1] == s;
      PowPositive(BASE, k);
      if r >= least {
        ValBound(s[..k]);
        FullMore(BASE, Pow(BASE, k), r, a, least, Val(s[..k]));
      } else {
        ScaledMore(BASE, Pow(BASE, k), r, a, least, c, Val(s[..k]));
      }
    }
  }

  lemma MontAtLeast(m: Modulus, a: nat, b: nat, least: nat)
    requires m.Valid() && a < m.R() && b < m.R() && least <= b && least + m.n <= m.R()
    ensures m.R() * Mont(m, a, b) >= a * least
  {
    ValToWords(a, m.len);
    FoldAtLeast(m, ToWords(a, m.len), b, least);
  }

  // ----- the operand that never shrinks -----

  /** The representative of x modulo n from low on. */
  function From(x: int, low: int, n: int): (r: int)
    requires 0 < n
    ensures low <= r < low + n && Cong(r, x, n)
  {
    CongMod(x - low, n);
    CongSym(x - low, (x - low) % n, n);
    CongIntro(low, low, 0, n);
    CongAdd((x - low) % n, x - low, low, low, n);
    low + (x - low) % n
  }

  /** The largest multiple of n below R. */
  function LastMultiple(m: Modulus): (a: nat)
    requires m.Valid()
    ensures a < m.R() <= a + m.n && Cong(a, 0, m.n)
  {
    From(0, m.R() - m.n, m.n)
  }

  /** The largest representative of R^2 below R. */
  function LargestSquare(m: Modulus): (rr: nat)
    requires m.Valid()
    ensures rr < m.R() <= rr + m.n && Cong(rr, m.R() * m.R(), m.n)
  {
    From(m.R() * m.R(), m.R() - m.n, m.n)
  }

  /** Times anything that is at least R - n, it stays what it is. */
  lemma LastMultipleStays(m: Modulus, b: nat)
    requires m.Valid() && b < m.R() <= b + m.n
    ensures Mont(m, LastMultiple(m), b) == LastMultiple(m)
  {
    var a, R := LastMultiple(m), m.R();
    var M := Mont(m, a, b);
    MontFacts(m, a, b);
    MontAtLeast(m, a, b, R - m.n);
    MultipleTimes(a, b, R, m.n);
    CongTrans(R * M, a * b, R * a, m.n);
    CancelR(m, M, a);
    var k := CongElim(M, a, m.n);
    NotBelow(M, a, k, m.n, R);
  }

  lemma MultipleTimes(a: int, x: int, y: int, n: int)
    requires 0 < n && Cong(a, 0, n)
    ensures Cong(a * x, y * a, n)
  {
    var k := CongElim(a, 0, n);
    assert a * x - y * a == (k * (x - y)) * n;
    CongIntro(a * x, y * a, k * (x - y), n);
  }

  lemma NotBelow(M: int, a: int, k: int, n: int, R: int)
    requires M == a + k * n && M < R <= a + n && 0 <= a < R && 0 < n && R * M >= a * (R - n)
    ensures M == a
  {
    MulMono(a + 1, R, n);
    assert a * (R - n) == R * a - a * n && R * (a - n) == R * a - R * n;
    if k >= 1 {
      MulMono(1, k, n);
    }
    if k <= -1 {
      MulMono(k, -1, n);
      MulMono(M, a - n, R);
    }
  }

  /** A value that its square leaves alone. */
  lemma {:induction false} StaysFixed(m: Modulus, x: nat, j: nat)
    requires m.Valid() && x < m.R() && Mont(m, x, x) == x
    ensures Squarings(m, x, j) == x
  {
    if j != 0 {
      StaysFixed(m, x, j - 1);
    }
  }

  /** Raw from its products. */
  lemma RawIs(m: Modulus, rr: nat, e: int, a: nat, x: nat, r: nat)
    requires m.Valid() && a < m.R() && rr < m.R() && e in {3, 65537} && x < m.R()
    requires Mont(m, a, rr) == x && Mont(m, x, x) == x && Mont(m, x, a) == r
    ensures Raw(m, rr, e, a) == r
  {
    forall j: nat
      ensures Squarings(m, x, j) == x
    {
      StaysFixed(m, x, j);
    }
  }

  /** With that rr the operand comes through all of modpow unchanged. */
  lemma RawOfLastMultiple(m: Modulus, e: int)
    requires m.Valid() && e in {3, 65537}
    ensures Raw(m, LargestSquare(m), e, LastMultiple(m)) == LastMultiple(m)
  {
    var a := LastMultiple(m);
    LastMultipleStays(m, LargestSquare(m));
    LastMultipleStays(m, a);
    RawIs(m, LargestSquare(m), e, a, a, a);
  }

  /** Without the top bit the last multiple below R is two moduli or more. */
  lemma TwoOrMore(a: int, n: int, R: int)
    requires 0 < n && Cong(a, 0, n) && R <= a + n && 2 * n < R
    ensures 2 * n <= a
  {
    var k := CongElim(a, 0, n);
    if k <= 1 {
      MulMono(k, 1, n);
    }
  }

  /** modpow is right for every operand and every rr. */
  ghost predicate AlwaysRight(m: Modulus, e: int)
    requires m.Valid() && e in {3, 65537}
  {
    forall rr: nat, a: nat :: rr < m.R() && a < m.R() && Cong(rr, m.R() * m.R(), m.n) ==>
      Result(m, rr, e, a) == Pow(a, e) % m.n
  }

  /** The exact condition, key by key: modpow is right for every operand and every rr exactly when the modulus has
      its top bit set. */
  lemma TopBitExactly(m: Modulus, e: int)
    requires m.Valid() && e in {3, 65537}
    ensures AlwaysRight(m, e) <==> m.R() <= 2 * m.n
  {
    if m.R() <= 2 * m.n {
      forall rr: nat, a: nat | rr < m.R() && a < m.R() && Cong(rr, m.R() * m.R(), m.n)
        ensures Result(m, rr, e, a) == Pow(a, e) % m.n
      {
        ResultCorrect(m, rr, e, a);
      }
    } else {
      RawOfLastMultiple(m, e);
      TwoOrMore(LastMultiple(m), m.n, m.R());
      ResultExact(m, LargestSquare(m), e, LastMultiple(m));
    }
  }

  // ----- a modulus of each length at which a reduced rr fails as well -----

  /** Half of R. */
  function Half(len: nat): (h: nat)
    requires 1 <= len
    ensures h >= 0x8000_0000
  {
    PowPositive(BASE, len - 1);
    0x8000_0000 * Pow(BASE, len - 1)
  }

  /** R / 2 - 1, the largest odd modulus below R / 2, with its inverse word. */
  function Largest(len: nat): Modulus
    requires 1 <= len
  {
    Modulus(len, Half(len) - 1, if len == 1 then 0x8000_0001 else 1)
  }

  lemma LowWordOfMultiple(k: int, r: int)
    requires 0 <= r < BASE
    ensures (BASE * k + r) % BASE == r
  {
    DivModUnique(BASE * k + r, BASE, k, r);
  }

  /** R is 2n + 2, and rr = 4 is its square modulo n. */
  lemma LargestFacts(len: nat)
    requires 1 <= len
    ensures var m := Largest(len);
            && m.Valid() && m.R() == 2 * m.n + 2 && 4 < m.n
            && Cong(4, m.R() * m.R(), m.n) && Cong(m.R(), 2, m.n)
            && (2 <= len ==> m.n % BASE == BASE - 1)
  {
    var m := Largest(len);
    PowPositive(BASE, len - 1);
    assert m.R() == BASE * Pow(BASE, len - 1);
    assert Half(len) >= 0x8000_0000;
    if len == 1 {
      assert Pow(BASE, 0) == 1;
    } else {
      assert Half(len) == BASE * (0x8000_0000 * Pow(BASE, len - 2));
      LowWordOfMultiple(0x8000_0000 * Pow(BASE, len - 2) - 1, BASE - 1);
    }
    SquareOfR(m.n);
  }

  lemma SquareOfR(n: int)
    requires 0 < n
    ensures Cong(4, (2 * n + 2) * (2 * n + 2), n) && Cong(2 * n + 2, 2, n)
  {
    assert (2 * n + 2) * (2 * n + 2) == 4 - (-4 * n - 8) * n;
    CongIntro(4, (2 * n + 2) * (2 * n + 2), -4 * n - 8, n);
    CongIntro(2 * n + 2, 2, 2, n);
  }

  // ----- the first products: no step subtracts -----

  /** A product congruent to 2 R that is more than 2 R, with b + n within R, comes out as n + 2. */
  lemma ProductIsTwoMore(m: Modulus, a: nat, b: nat)
    requires m.Valid() && a < m.R() && b < m.R() && b + m.n <= m.R() && m.R() == 2 * m.n + 2 && 4 < m.n
    requires Cong(a * b, m.R() * 2, m.n) && m.R() * 2 < a * b
    ensures Mont(m, a, b) == m.n + 2
  {
    var M, R := Mont(m, a, b), m.R();
    MontFacts(m, a, b);
    MontAtLeast(m, a, b, b);
    if M <= 2 {
      MulMono(M, 2, R);
    }
    CongTrans(R * M, a * b, R * 2, m.n);
    CancelR(m, M, 2);
    var k := CongElim(M, 2, m.n);
    if k < 1 { MulMono(k, 0, m.n); }
    if k > 1 { MulMono(2, k, m.n); }
  }

  lemma Products(n: int)
    requires 4 < n
    ensures Cong((2 * n + 1) * 4, (2 * n + 2) * 2, n) && (2 * n + 2) * 2 < (2 * n + 1) * 4
    ensures Cong((n + 2) * (n + 2), (2 * n + 2) * 2, n) && (2 * n + 2) * 2 < (n + 2) * (n + 2)
  {
    CongIntro((2 * n + 1) * 4, (2 * n + 2) * 2, 4, n);
    assert (n + 2) * (n + 2) == (2 * n + 2) * 2 + n * n;
    MulMono(1, n, n);
    CongIntro((n + 2) * (n + 2), (2 * n + 2) * 2, n, n);
  }

  /** The operand R - 1 goes to n + 2, and its square stays there. */
  lemma GoesToTwoMore(len: nat)
    requires 1 <= len
    ensures var m := Largest(len);
            && m.Valid() && m.n + 2 < m.R() && 4 < m.R()
            && Mont(m, m.R() - 1, 4) == m.n + 2
            && Mont(m, m.n + 2, m.n + 2) == m.n + 2
  {
    var m := Largest(len);
    LargestFacts(len);
    Products(m.n);
    ProductIsTwoMore(m, m.R() - 1, 4);
    ProductIsTwoMore(m, m.n + 2, m.n + 2);
  }

  // ----- the last product -----

  /** The words of n + 2: one, zeros, and the top bit. */
  function TwoMoreWords(len: nat): (s: seq<word>)
    requires 2 <= len
    ensures |s| == len
  {
    [1] + seq(len - 2, _ => 0) + [0x8000_0000]
  }

  lemma TwoMoreValue(len: nat)
    requires 2 <= len
    ensures Val(TwoMoreWords(len)) == Half(len) + 1
  {
    var s := TwoMoreWords(len);
    var zeros: seq<word> := seq(len - 2, _ => 0);
    ValSnoc(s, len - 1);
    assert s[..len] == s && s[..len - 1] == [1] + zeros;
    ValConcat([1], zeros);
    ValZeros(zeros);
    assert Val([1]) == 1;
  }

  lemma OneStep(m: Modulus, c: nat, a: word, b: nat, r: nat)
    requires m.Valid() && m.inv == 1 && m.n % BASE == BASE - 1 && r < m.R()
    requires (a * b + c) % BASE == BASE - 1 && a * b + c + (BASE - 1) * m.n == BASE * r
    ensures Step(m, c, a, b) == r
  {
    assert Quotient(m, c, a, b) == BASE - 1;
    DivModUnique(BASE * r, BASE, r, 0);
  }

  /** After i words of n + 2 folded into R - 1. */
  function Partial(len: nat, i: nat): nat
    requires 2 <= len && 1 <= i < len
  {
    PowPositive(BASE, len - 1 - i);
    Half(len) - 1 + 0x8000_0000 * Pow(BASE, len - 1 - i)
  }

  lemma FirstPartial(len: nat)
    requires 2 <= len
    ensures Largest(len).Valid() && Step(Largest(len), 0, 1, Largest(len).R() - 1) == Partial(len, 1)
  {
    var m, p := Largest(len), Pow(BASE, len - 2);
    LargestFacts(len);
    PowPositive(BASE, len - 2);
    assert Pow(BASE, len - 1) == BASE * p;
    assert m.R() == BASE * (BASE * p);
    LowWordOfMultiple(BASE * p - 1, BASE - 1);
    OneStep(m, 0, 1, m.R() - 1, Partial(len, 1));
  }

  lemma NextPartial(len: nat, i: nat)
    requires 2 <= len && 1 <= i < len - 1
    ensures Largest(len).Valid() && Step(Largest(len), Partial(len, i), 0, Largest(len).R() - 1) == Partial(len, i + 1)
  {
    var m, p := Largest(len), Pow(BASE, len - 2 - i);
    LargestFacts(len);
    PowPositive(BASE, len - 2 - i);
    PowPositive(BASE, len - 2);
    PowAdd(BASE, len - 2 - i, i + 1);
    PowPositive(BASE, i + 1);
    MulMono(1, Pow(BASE, i + 1), p);
    assert Pow(BASE, len - 1 - i) == BASE * p && Pow(BASE, len - 1) == BASE * Pow(BASE, len - 2);
    LowWordOfMultiple(0x8000_0000 * Pow(BASE, len - 2) - 1 + 0x8000_0000 * p, BASE - 1);
    OneStep(m, Partial(len, i), 0, m.R() - 1, Partial(len, i + 1));
  }

  lemma LastPartial(len: nat)
    requires 2 <= len
    ensures var m := Largest(len);
            m.Valid() && Step(m, Partial(len, len - 1), 0x8000_0000, m.R() - 1) == m.R() - 1
  {
    var m, p := Largest(len), Pow(BASE, len - 2);
    LargestFacts(len);
    PowPositive(BASE, len - 2);
    assert Pow(BASE, len - 1) == BASE * p && Pow(BASE, 0) == 1;
    assert m.R() == BASE * (BASE * p);
    var sum := 0x8000_0000 * (m.R() - 1) + Partial(len, len - 1);
    assert sum == 0x8000_0000 * m.R() + m.n;
    LowWordOfMultiple(0x8000_0000 * (BASE * p) + 0x8000_0000 * p - 1, BASE - 1);
    OneStep(m, Partial(len, len - 1), 0x8000_0000, m.R() - 1, m.R() - 1);
  }

  lemma {:induction false} FoldPartial(len: nat, i: nat)
    requires 2 <= len && 1 <= i < len
    ensures Largest(len).Valid() && Fold(Largest(len), TwoMoreWords(len)[..i], Largest(len).R() - 1) == Partial(len, i)
  {
    var m, s := Largest(len), TwoMoreWords(len);
    LargestFacts(len);
    var b := m.R() - 1;
    assert s[..i][..i - 1] == s[..i - 1];
    if i == 1 {
      assert s[..0] == [] && Fold(m, [], b) == 0;
      FirstPartial(len);
    } else {
      FoldPartial(len, i - 1);
      NextPartial(len, i - 1);
    }
  }

  lemma LastOfMany(len: nat)
    requires 2 <= len
    ensures Largest(len).Valid()
    ensures Fold(Largest(len), TwoMoreWords(len), Largest(len).R() - 1) == Largest(len).R() - 1
  {
    var s := TwoMoreWords(len);
    assert s[..|s| - 1] == s[..len - 1] && s[len - 1] == 0x8000_0000;
    LargestFacts(len);
    FoldPartial(len, len - 1);
    LastPartial(len);
  }

  lemma LastOfOne()
    ensures Largest(1).Valid() && Largest(1).R() == BASE && Largest(1).n == 0x7FFF_FFFF
    ensures Mont(Largest(1), 0x8000_0001, 0xFFFF_FFFF) == 0xFFFF_FFFF
  {
    LargestFacts(1);
    assert Pow(BASE, 0) == 1;
    OneWordMont(Largest(1), 0x8000_0001, 0xFFFF_FFFF);
  }

  /** The last product comes out as R - 1 = 2n + 1, two moduli too large. */
  lemma LastProduct(len: nat)
    requires 1 <= len
    ensures var m := Largest(len);
            m.Valid() && m.n + 2 < m.R() && Mont(m, m.n + 2, m.R() - 1) == 2 * m.n + 1
  {
    LargestFacts(len);
    if len == 1 {
      LastOfOne();
    } else {
      TwoMoreValue(len);
      ToWordsVal(TwoMoreWords(len));
      LastOfMany(len);
    }
  }

  lemma OneWordMont(m: Modulus, a: word, b: nat)
    requires m.Valid() && m.len == 1 && b < m.R()
    ensures Mont(m, a, b) == Step(m, 0, a, b)
  {
    assert ToWords(a, 1) == [a] + ToWords(a / BASE, 0);
    assert [a][..0] == [];
    assert Fold(m, [], b) == 0;
  }

  // ----- what modpow leaves -----

  lemma RawOfLargest(len: nat, e: int)
    requires 1 <= len && e in {3, 65537}
    ensures var m := Largest(len);
            m.Valid() && 4 < m.R() && Raw(m, 4, e, m.R() - 1) == 2 * m.n + 1
  {
    var m, x := Largest(len), Largest(len).n + 2;
    GoesToTwoMore(len);
    LastProduct(len);
    RawIs(m, 4, e, m.R() - 1, x, 2 * m.n + 1);
  }

  /** For every length and either exponent: with n = R / 2 - 1 the operand R - 1 ends at 2n + 1, so that one
      subtraction is not enough. */
  lemma OneSubtractionTooFew(len: nat, e: int)
    requires 1 <= len && e in {3, 65537}
    ensures var m := Largest(len);
            var a := m.R() - 1;
            && m.Valid() && 4 < m.n && Cong(4, m.R() * m.R(), m.n)
            && Raw(m, 4, e, a) == 2 * m.n + 1
            && Result(m, 4, e, a) != Pow(a, e) % m.n
  {
    var m := Largest(len);
    LargestFacts(len);
    RawOfLargest(len, e);
    ResultExact(m, 4, e, m.R() - 1);
  }
}
