/** The arithmetic that panda/crypto/rsa.c performs, on integers: what each step leaves and why
    one conditional subtraction at the end is enough. */
module Montgomery {
  import opened Arithmetic
  import opened Words

  /** A modulus of len words with its negated inverse modulo the word base. */
  datatype Modulus = Modulus(len: nat, n: nat, inv: word)
  {
    function R(): int {
      Pow(BASE, len)
    }

    ghost predicate Valid() {
      && 1 <= len
      && 0 < n < R()
      && (n % BASE * inv + 1) % BASE == 0
    }
  }

  // ----- one word: montMulAdd -----

  /** The multiple of the modulus that clears the low word of a * b + c. */
  function Quotient(m: Modulus, c: nat, a: word, b: nat): word {
    ((a * b + c) % BASE * m.inv) % BASE
  }

  /** a * b + c with its low word cleared and shifted out. */
  function Shifted(m: Modulus, c: nat, a: word, b: nat): nat {
    (a * b + c + Quotient(m, c, a, b) * m.n) / BASE
  }

  /** One step: the shifted sum, less one modulus when it does not fit len words. */
  function Step(m: Modulus, c: nat, a: word, b: nat): int {
    var t := Shifted(m, c, a, b);
    if t < m.R() then t else t - m.n
  }

  lemma LowWordCleared(m: Modulus, c: nat, a: word, b: nat)
    requires m.Valid()
    ensures BASE * Shifted(m, c, a, b) == a * b + c + Quotient(m, c, a, b) * m.n
  {
    var t := a * b + c;
    var d := Quotient(m, c, a, b);
    var n0 := m.n % BASE;
    CongMod(t, BASE);
    CongMod(t % BASE * m.inv, BASE);
    CongSym(t % BASE * m.inv, d, BASE);
    CongMod(m.n, BASE);
    // d * n == t * inv * n0 == -t modulo the word base
    CongMul(d, t % BASE * m.inv, m.n, n0, BASE);
    CongScale(t % BASE, m.inv * n0, -1, BASE) by {
      assert n0 * m.inv == m.inv * n0;
    }
    assert t % BASE * (m.inv * n0) == t % BASE * m.inv * n0;
    CongTrans(d * m.n, t % BASE * m.inv * n0, t % BASE * -1, BASE);
    CongAdd(t, t % BASE, d * m.n, t % BASE * -1, BASE);
    assert (t + d * m.n - 0) % BASE == 0;
  }

  /** The shifted sum is less than 2R, and one modulus brings an overflow back below R. */
  lemma ShiftedBounds(m: Modulus, c: nat, a: word, b: nat)
    requires m.Valid() && c < m.R() && b < m.R()
    ensures Shifted(m, c, a, b) < 2 * m.R()
    ensures Shifted(m, c, a, b) - m.n < m.R()
    ensures c < b + m.n ==> Shifted(m, c, a, b) < b + m.n
  {
    var T := Shifted(m, c, a, b);
    var d := Quotient(m, c, a, b);
    LowWordCleared(m, c, a, b);
    MulMono(a, BASE - 1, b);
    MulMono(d, BASE - 1, m.n);
    assert BASE * T <= (BASE - 1) * b + c + (BASE - 1) * m.n;
  }

  lemma CongLess(f: int, t: int, x: int, d: int, n: int)
    requires 0 < n && f * t == x + d * n
    ensures Cong(f * (t - n), x, n)
  {
    assert (d - f) * n == d * n - f * n;
    CongIntro(f * (t - n), x, d - f, n);
  }

  /** One step keeps the word bound and the magnitude bound, and multiplies by 1/2^32 modulo n. */
  lemma StepFacts(m: Modulus, c: nat, a: word, b: nat)
    requires m.Valid() && c < m.R() && b < m.R()
    ensures 0 <= Step(m, c, a, b) < m.R()
    ensures Cong(BASE * Step(m, c, a, b), a * b + c, m.n)
    ensures c < b + m.n ==> Step(m, c, a, b) < b + m.n
  {
    var T := Shifted(m, c, a, b);
    var d := Quotient(m, c, a, b);
    LowWordCleared(m, c, a, b);
    ShiftedBounds(m, c, a, b);
    if T < m.R() {
      CongIntro(BASE * T, a * b + c, d, m.n);
    } else {
      CongLess(BASE, T, a * b + c, d, m.n);
    }
  }

  // ----- all words: montMul -----

  /** The accumulator after folding in the words of one operand, least significant first. */
  function Fold(m: Modulus, s: seq<word>, b: nat): (r: int)
    requires m.Valid() && b < m.R()
    ensures 0 <= r < m.R()
  {
    if s == [] then
      0
    else
      var c := Fold(m, s[..|s| - 1], b);
      StepFacts(m, c, s[|s| - 1], b);
      Step(m, c, s[|s| - 1], b)
  }

  lemma {:induction false} FoldFacts(m: Modulus, s: seq<word>, b: nat)
    requires m.Valid() && b < m.R()
    ensures Fold(m, s, b) < b + m.n
    ensures Cong(Pow(BASE, |s|) * Fold(m, s, b), Val(s) * b, m.n)
  {
    if s == [] {
      assert Val(s) == 0 && Fold(m, s, b) == 0;
      CongIntro(0, 0, 0, m.n);
    } else {
      FoldFacts(m, s[..|s| - 1], b);
      FoldNext(m, s, b);
    }
  }

  lemma FoldNext(m: Modulus, s: seq<word>, b: nat)
    requires m.Valid() && b < m.R() && s != []
    requires var before := s[..|s| - 1];
             Fold(m, before, b) < b + m.n && Cong(Pow(BASE, |before|) * Fold(m, before, b), Val(before) * b, m.n)
    ensures Fold(m, s, b) < b + m.n
    ensures Cong(Pow(BASE, |s|) * Fold(m, s, b), Val(s) * b, m.n)
  {
    var k := |s| - 1;
    var c, a := Fold(m, s[..k], b), s[k];
    StepFacts(m, c, a, b);
    ValSnoc(s, k);
    assert s[..k + 1] == s;
    FoldStep(BASE, Pow(BASE, k), Step(m, c, a, b), a, b, c, Val(s[..k]), m.n);
  }

  /** Folding in one more word multiplies the scale of the accumulator by the word base. */
  lemma FoldStep(f: int, p: int, r: int, a: int, b: int, c: int, v: int, n: int)
    requires 0 < n && Cong(f * r, a * b + c, n) && Cong(p * c, v * b, n)
    ensures Cong((f * p) * r, (v + p * a) * b, n)
  {
    CongScale(p, f * r, a * b + c, n);
    CongIntro(p * (a * b), p * (a * b), 0, n);
    CongAdd(p * c, v * b, p * (a * b), p * (a * b), n);
    FoldRegroup(f, p, r, a, b, c, v);
    CongTrans(p * (f * r), p * (a * b + c), (v + p * a) * b, n);
  }

  lemma FoldRegroup(f: int, p: int, r: int, a: int, b: int, c: int, v: int)
    ensures (f * p) * r == p * (f * r)
    ensures p * (a * b + c) == p * c + p * (a * b)
    ensures v * b + p * (a * b) == (v + p * a) * b
  {
    assert (p * a) * b == p * (a * b);
  }

  /** The words of a number, least significant first. */
  function ToWords(x: nat, len: nat): (s: seq<word>)
    ensures |s| == len
  {
    if len == 0 then [] else [x % BASE] + ToWords(x / BASE, len - 1)
  }

  lemma {:induction false} ToWordsVal(s: seq<word>)
    ensures ToWords(Val(s), |s|) == s
  {
    if s != [] {
      DivModUnique(Val(s), BASE, Val(s[1..]), s[0]);
      ToWordsVal(s[1..]);
    }
  }

  lemma {:induction false} ValToWords(x: nat, len: nat)
    requires x < Pow(BASE, len)
    ensures Val(ToWords(x, len)) == x
  {
    if len != 0 {
      DivBounds(x, BASE, 0, Pow(BASE, len - 1));
      ValToWords(x / BASE, len - 1);
      assert ToWords(x, len)[1..] == ToWords(x / BASE, len - 1);
    }
  }

  /** Montgomery product of two residues. */
  function Mont(m: Modulus, a: nat, b: nat): (r: int)
    requires m.Valid() && b < m.R()
    ensures 0 <= r < m.R()
  {
    Fold(m, ToWords(a, m.len), b)
  }

  /** R times the product is a * b modulo n, and the product exceeds b by less than n. */
  lemma MontFacts(m: Modulus, a: nat, b: nat)
    requires m.Valid() && a < m.R() && b < m.R()
    ensures Cong(m.R() * Mont(m, a, b), a * b, m.n)
    ensures Mont(m, a, b) < b + m.n
  {
    ValToWords(a, m.len);
    FoldFacts(m, ToWords(a, m.len), b);
  }

  // ----- R is invertible modulo n -----

  /** The inverse of the word base modulo n that the key's inv gives. */
  function BaseInverse(m: Modulus): int {
    (m.n * m.inv + 1) / BASE
  }

  lemma BaseInverseWorks(m: Modulus)
    requires m.Valid()
    ensures Cong(BaseInverse(m) * BASE, 1, m.n)
  {
    var q := m.n / BASE;
    var n0 := m.n % BASE;
    assert m.n * m.inv + 1 == (q * m.inv) * BASE + (n0 * m.inv + 1) by {
      assert (q * BASE + n0) * m.inv == (q * m.inv) * BASE + n0 * m.inv;
    }
    var k := (n0 * m.inv + 1) / BASE;
    assert n0 * m.inv + 1 == k * BASE;
    DivModUnique(m.n * m.inv + 1, BASE, q * m.inv + k, 0);
    assert BaseInverse(m) * BASE == m.n * m.inv + 1;
    CongIntro(BaseInverse(m) * BASE, 1, m.inv, m.n) by {
      assert m.inv * m.n == m.n * m.inv;
    }
  }

  lemma {:induction false} PowerInverse(q: int, b: int, k: nat, n: nat)
    requires 0 < n && Cong(q * b, 1, n)
    ensures Cong(Pow(q, k) * Pow(b, k), 1, n)
  {
    if k == 0 {
      assert Pow(q, 0) * Pow(b, 0) == 1;
    } else {
      PowerInverse(q, b, k - 1, n);
      CongMul(q * b, 1, Pow(q, k - 1) * Pow(b, k - 1), 1, n);
      Regroup(q, b, Pow(q, k - 1), Pow(b, k - 1));
    }
  }

  lemma Regroup(q: int, b: int, x: int, y: int)
    ensures (q * b) * (x * y) == (q * x) * (b * y)
  {}

  lemma CancelR(m: Modulus, x: int, y: int)
    requires m.Valid() && Cong(m.R() * x, m.R() * y, m.n)
    ensures Cong(x, y, m.n)
  {
    BaseInverseWorks(m);
    PowerInverse(BaseInverse(m), BASE, m.len, m.n);
    CongCancel(m.R(), Pow(BaseInverse(m), m.len), x, y, m.n);
  }

  // ----- modpow -----

  /** x squared j times over, in Montgomery form. */
  function Squarings(m: Modulus, x: nat, j: nat): (r: int)
    requires m.Valid() && x < m.R()
    ensures 0 <= r < m.R()
  {
    if j == 0 then x else var y := Squarings(m, x, j - 1); Mont(m, y, y)
  }

  /** What modpow holds before its last conditional subtraction. */
  function Raw(m: Modulus, rr: nat, e: int, a: nat): (r: int)
    requires m.Valid() && a < m.R() && rr < m.R() && e in {3, 65537}
    ensures 0 <= r < m.R()
  {
    var aR := Mont(m, a, rr);
    if e == 65537 then Mont(m, Squarings(m, aR, 16), a) else Mont(m, Mont(m, aR, aR), a)
  }

  /** What modpow leaves: at most one modulus is taken off. */
  function Result(m: Modulus, rr: nat, e: int, a: nat): (r: int)
    requires m.Valid() && a < m.R() && rr < m.R() && e in {3, 65537}
    ensures 0 <= r < m.R()
  {
    var r := Raw(m, rr, e, a);
    if r >= m.n then r - m.n else r
  }

  /** Multiplying representatives x = a^j * R and y = a^k * R gives a^(j+k) * R. */
  lemma MontPowers(m: Modulus, a: nat, x: nat, j: nat, y: nat, k: nat)
    requires m.Valid() && x < m.R() && y < m.R()
    requires Cong(x, Pow(a, j) * m.R(), m.n) && Cong(y, Pow(a, k) * m.R(), m.n)
    ensures Cong(Mont(m, x, y), Pow(a, j + k) * m.R(), m.n)
  {
    var R := m.R();
    MontFacts(m, x, y);
    CongMul(x, Pow(a, j) * R, y, Pow(a, k) * R, m.n);
    PowAdd(a, j, k);
    RegroupR(Pow(a, j), Pow(a, k), R);
    CongTrans(R * Mont(m, x, y), x * y, R * (Pow(a, j + k) * R), m.n);
    CancelR(m, Mont(m, x, y), Pow(a, j + k) * R);
  }

  lemma RegroupR(p: int, q: int, r: int)
    ensures (p * r) * (q * r) == r * ((p * q) * r)
  {
    assert (p * r) * (q * r) == ((p * r) * q) * r;
    assert (p * r) * q == (p * q) * r;
  }

  lemma {:induction false} SquaringsPower(m: Modulus, a: nat, x: nat, j: nat)
    requires m.Valid() && x < m.R() && Cong(x, Pow(a, 1) * m.R(), m.n)
    ensures 0 < Pow(2, j) && Cong(Squarings(m, x, j), Pow(a, Pow(2, j)) * m.R(), m.n)
  {
    if j != 0 {
      SquaringsPower(m, a, x, j - 1);
      var y := Squarings(m, x, j - 1);
      MontPowers(m, a, y, Pow(2, j - 1), y, Pow(2, j - 1));
      assert Pow(2, j) == Pow(2, j - 1) + Pow(2, j - 1);
    }
  }

  lemma PowTwo16()
    ensures Pow(2, 16) == 65536
  {
    PowAdd(2, 8, 8);
    PowAdd(2, 4, 4);
    assert Pow(2, 4) == 2 * (2 * (2 * (2 * Pow(2, 0)))) by {
      assert Pow(2, 1) == 2 * Pow(2, 0) && Pow(2, 2) == 2 * Pow(2, 1) && Pow(2, 3) == 2 * Pow(2, 2);
    }
  }

  lemma RegroupLast(a: int, x: int, p: int, r: int)
    ensures a * x == x * a
    ensures a * (p * r) == r * (a * p)
  {
    assert a * (p * r) == (a * p) * r;
  }

  /** Multiplying a^j * R by plain a leaves a^(j+1). */
  lemma MontLast(m: Modulus, a: nat, x: nat, j: nat)
    requires m.Valid() && a < m.R() && x < m.R()
    requires Cong(x, Pow(a, j) * m.R(), m.n)
    ensures Cong(Mont(m, x, a), Pow(a, j + 1), m.n)
  {
    var R := m.R();
    MontFacts(m, x, a);
    CongScale(a, x, Pow(a, j) * R, m.n);
    RegroupLast(a, x, Pow(a, j), R);
    CongTrans(R * Mont(m, x, a), x * a, R * Pow(a, j + 1), m.n);
    CancelR(m, Mont(m, x, a), Pow(a, j + 1));
  }

  /** The first product turns the operand into Montgomery form. */
  lemma MontFirst(m: Modulus, rr: nat, a: nat)
    requires m.Valid() && a < m.R() && rr < m.R()
    requires Cong(rr, m.R() * m.R(), m.n)
    ensures Cong(Mont(m, a, rr), Pow(a, 1) * m.R(), m.n)
  {
    var R := m.R();
    MontFacts(m, a, rr);
    CongScale(a, rr, R * R, m.n);
    assert Pow(a, 1) == a * Pow(a, 0) == a;
    RegroupLast(a, 0, R, R);
    assert R * (a * R) == a * (R * R);
    CongTrans(R * Mont(m, a, rr), a * rr, R * (a * R), m.n);
    CancelR(m, Mont(m, a, rr), a * R);
  }

  /** Whatever the operand, the value before the last subtraction is a^e modulo n and below a + n. */
  lemma RawFacts(m: Modulus, rr: nat, e: int, a: nat)
    requires m.Valid() && a < m.R() && rr < m.R() && e in {3, 65537}
    requires Cong(rr, m.R() * m.R(), m.n)
    ensures Cong(Raw(m, rr, e, a), Pow(a, e), m.n)
    ensures Raw(m, rr, e, a) < a + m.n
  {
    var aR := Mont(m, a, rr);
    MontFirst(m, rr, a);
    if e == 65537 {
      var s := Squarings(m, aR, 16);
      SquaringsPower(m, a, aR, 16);
      PowTwo16();
      MontLast(m, a, s, 65536);
      MontFacts(m, s, a);
    } else {
      var s := Mont(m, aR, aR);
      MontPowers(m, a, aR, 1, aR, 1);
      MontLast(m, a, s, 2);
      MontFacts(m, s, a);
    }
  }

  /** The result is a^e mod n exactly when the value before the last subtraction is below 2n. */
  lemma ResultExact(m: Modulus, rr: nat, e: int, a: nat)
    requires m.Valid() && a < m.R() && rr < m.R() && e in {3, 65537}
    requires Cong(rr, m.R() * m.R(), m.n)
    ensures Result(m, rr, e, a) == Pow(a, e) % m.n <==> Raw(m, rr, e, a) < 2 * m.n
  {
    var r, p := Raw(m, rr, e, a), Pow(a, e);
    RawFacts(m, rr, e, a);
    if r < m.n {
      CongReduced(r, p, m.n);
    } else if r < 2 * m.n {
      CongIntro(r - m.n, r, -1, m.n);
      CongTrans(r - m.n, r, p, m.n);
      CongReduced(r - m.n, p, m.n);
    }
  }

  /** One subtraction suffices for a reduced operand, and for every operand when the modulus has
      its top bit set. */
  lemma ResultCorrect(m: Modulus, rr: nat, e: int, a: nat)
    requires m.Valid() && a < m.R() && rr < m.R() && e in {3, 65537}
    requires Cong(rr, m.R() * m.R(), m.n)
    requires a < m.n || m.R() <= 2 * m.n
    ensures Result(m, rr, e, a) == Pow(a, e) % m.n
  {
    RawFacts(m, rr, e, a);
    ResultExact(m, rr, e, a);
  }
}
