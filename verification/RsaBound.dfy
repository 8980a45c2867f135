/** A key that RSA_verify lets through to modpow, and a signature for which its last subtraction is not enough. */
module RsaBound {
  import opened Arithmetic
  import opened Words
  import opened Montgomery
  import opened MontgomeryBound
  import opened Rsa

  /** n = 2^1023 - 1, n0inv = 1, rr = 4. */
  function WeakKey(e: int): (k: PublicKey)
    ensures |k.n| == |k.rr| == k.len == RSA_NUM_WORDS && k.exponent == e
  {
    PublicKey(RSA_NUM_WORDS, Largest(RSA_NUM_WORDS).inv, ToWords(Largest(RSA_NUM_WORDS).n, RSA_NUM_WORDS),
              ToWords(4, RSA_NUM_WORDS), e)
  }

  /** What WellFormed asks of the key's first word, from the modulus. */
  lemma FirstWordInverts(m: Modulus)
    requires m.Valid()
    ensures ToWords(m.n, m.len)[0] == m.n % BASE
  {}

  lemma WeakKeyIsWellFormed(e: int)
    requires e in {3, 65537}
    ensures var k := WeakKey(e);
            && k.WellFormed() && Val(k.n) == Largest(RSA_NUM_WORDS).n && Val(k.rr) == 4
            && k.Mod() == Largest(RSA_NUM_WORDS)
  {
    var m := Largest(RSA_NUM_WORDS);
    LargestFacts(RSA_NUM_WORDS);
    ValToWords(m.n, RSA_NUM_WORDS);
    ValToWords(4, RSA_NUM_WORDS);
    FirstWordInverts(m);
  }

  /** The key passes every gate of RSA_verify, but for 128 bytes FF modpow does not leave signature^e mod n. */
  lemma UnreducedSignature(e: int)
    requires e in {3, 65537}
    ensures var k, a := WeakKey(e), Os2ip(seq(RSA_NUM_BYTES, _ => 0xFF));
            && k.WellFormed() && k.len == RSA_NUM_WORDS
            && k.Mod().Valid() && a < k.Mod().R() && Val(k.rr) < k.Mod().R()
            && Raw(k.Mod(), Val(k.rr), e, a) == 2 * Val(k.n) + 1
            && Result(k.Mod(), Val(k.rr), e, a) != Pow(a, e) % Val(k.n)
  {
    WeakKeyIsWellFormed(e);
    OnesAreTop(RSA_NUM_WORDS);
    TooFewFor(WeakKey(e), Os2ip(seq(RSA_NUM_BYTES, _ => 0xFF)), RSA_NUM_WORDS);
  }

  lemma OnesAreTop(words: nat)
    ensures Os2ip(seq(4 * words, _ => 0xFF)) == Pow(BASE, words) - 1
  {
    AllOnes(4 * words);
    PowBytesWords(words);
  }

  lemma TooFewFor(k: PublicKey, a: nat, len: nat)
    requires 1 <= len == k.len && k.exponent in {3, 65537} && Val(k.rr) == 4 && a == Pow(BASE, len) - 1
    requires k.Mod() == Largest(len)
    ensures k.Mod().Valid() && a < k.Mod().R() && Val(k.rr) < k.Mod().R()
    ensures Raw(k.Mod(), Val(k.rr), k.exponent, a) == 2 * Val(k.n) + 1
    ensures Result(k.Mod(), Val(k.rr), k.exponent, a) != Pow(a, k.exponent) % Val(k.n)
  {
    LargestFacts(len);
    OneSubtractionTooFew(len, k.exponent);
  }
}
