/** panda/board/bootstub.c: the check that decides whether the application in flash is started. */
module Bootstub {
  import opened Arithmetic
  import opened Words
  import opened Rsa
  import opened Sha1Standard
  import Sha1
  import opened SignImage

  const VERS_TAG: word := 0x53524556
  const MIN_VERSION: word := 2

  /** The longest signed area: what is left of 16 MB behind the bootstub, less a word and a signature. */
  const MAX_LENGTH: int := 0x1000000 - 0x4000 - 4 - RSA_NUM_BYTES

  /** The first word as an int. */
  function SignedLength(app: seq<byte>): int
    requires |app| >= 4
  {
    var w := WordAt(app, 0);
    if w < 0x8000_0000 then w else w - BASE
  }

  predicate LengthOk(app: seq<byte>)
    requires |app| >= 4
  {
    8 <= SignedLength(app) <= MAX_LENGTH
  }

  /** The flash from the application's start on reaches to the end of the signature, if the length is one that
      main goes on with. */
  predicate Covers(app: seq<byte>) {
    4 <= |app| && (LengthOk(app) ==> SignedLength(app) + RSA_NUM_BYTES <= |app|)
  }

  /** The eight bytes before len are the version tag and a version new enough. */
  predicate VersionAt(app: seq<byte>, len: int)
    requires 8 <= len <= |app|
  {
    WordAt(app, len - 8) == VERS_TAG && WordAt(app, len - 4) >= MIN_VERSION
  }

  /** That is how the signed area ends. */
  predicate VersionOk(app: seq<byte>)
    requires Covers(app) && LengthOk(app)
  {
    VersionAt(app, SignedLength(app))
  }

  /** The supported kind of key. */
  ghost predicate Usable(k: PublicKey) {
    k.len == RSA_NUM_WORDS && k.exponent in {3, 65537}
  }

  /** The 128 bytes at len open, under the key, to the hash of what is before them but for the first word. */
  ghost predicate SignatureAt(app: seq<byte>, len: int, k: PublicKey)
    requires 8 <= len && len + RSA_NUM_BYTES <= |app| && (Usable(k) ==> k.WellFormed())
  {
    Usable(k) && Opens(k, app[len..len + RSA_NUM_BYTES], Sha1Standard.Sha1(app[4..len]))
  }

  /** That is how the signed area is signed. */
  ghost predicate SignatureOk(app: seq<byte>, k: PublicKey)
    requires Covers(app) && LengthOk(app) && (Usable(k) ==> k.WellFormed())
  {
    SignatureAt(app, SignedLength(app), k)
  }

  /** When the application is started: the length is in bounds, the version is right, and the release key
      or, in a build that allows it, the debug key signed it. */
  ghost predicate Accepts(app: seq<byte>, release: PublicKey, debug: PublicKey, allowDebug: bool)
    requires Covers(app) && (Usable(release) ==> release.WellFormed()) && (Usable(debug) ==> debug.WellFormed())
  {
    && LengthOk(app) && VersionOk(app)
    && (SignatureOk(app, release) || (allowDebug && SignatureOk(app, debug)))
  }

  /** The check of the last bytes in the signed area. */
  method CheckVersion(app: seq<byte>, len: int) returns (ok: bool)
    requires 8 <= len <= |app|
    ensures ok <==> VersionAt(app, len)
  {
    var tag, version := WordAt(app, len - 8), WordAt(app, len - 4);
    return !(tag != VERS_TAG || version < MIN_VERSION);
  }

  lemma OpensWhole(k: PublicKey, signature: seq<byte>, digest: seq<byte>)
    requires |signature| == RSA_NUM_BYTES && |digest| == SHA_DIGEST_SIZE && Usable(k) && k.WellFormed()
    ensures Opens(k, signature[..RSA_NUM_BYTES], digest[..SHA_DIGEST_SIZE]) <==> Opens(k, signature, digest)
  {
    assert signature[..RSA_NUM_BYTES] == signature && digest[..SHA_DIGEST_SIZE] == digest;
  }

  lemma WholeArguments(app: seq<byte>, len: int, signature: seq<byte>, digest: seq<byte>, k: PublicKey)
    requires Covers(app) && LengthOk(app) && len == SignedLength(app) && (Usable(k) ==> k.WellFormed())
    requires signature == app[len..len + RSA_NUM_BYTES] && digest == Sha1Standard.Sha1(app[4..len])
    ensures SignatureOk(app, k)
       <==> Usable(k) && Opens(k, signature[..RSA_NUM_BYTES], digest[..SHA_DIGEST_SIZE])
  {
    if Usable(k) {
      OpensWhole(k, signature, digest);
    }
  }

  /** RSA_verify on the bytes behind the signed area. */
  method VerifySignature(app: seq<byte>, len: int, digest: seq<byte>, key: RSAPublicKey) returns (r: int)
    requires Covers(app) && LengthOk(app) && len == SignedLength(app)
    requires digest == Sha1Standard.Sha1(app[4..len])
    requires Usable(key.Key()) ==> key.Key().WellFormed()
    ensures r != 0 <==> SignatureOk(app, key.Key())
  {
    var signature := app[len..len + RSA_NUM_BYTES];
    WholeArguments(app, len, signature, digest, key.Key());
    r := RsaVerify(key, signature, RSA_NUM_BYTES, digest, SHA_DIGEST_SIZE);
  }

  /** main, from the length check to the jump: whether it reaches good or fail. */
  method Boot(app: seq<byte>, release: RSAPublicKey, debug: RSAPublicKey, allowDebug: bool) returns (good: bool)
    requires Covers(app)
    requires Usable(release.Key()) ==> release.Key().WellFormed()
    requires Usable(debug.Key()) ==> debug.Key().WellFormed()
    ensures good <==> Accepts(app, release.Key(), debug.Key(), allowDebug)
  {
    var len := SignedLength(app);
    if len < 8 || len > MAX_LENGTH {
      return false;
    }
    var digest := Sha1.HashMessage(app[4..len]);
    var current := CheckVersion(app, len);
    if !current {
      return false;
    }
    var r := VerifySignature(app, len, digest, release);
    if r != 0 {
      return true;
    }
    if allowDebug {
      r := VerifySignature(app, len, digest, debug);
      if r != 0 {
        return true;
      }
    }
    return false;
  }

  // ----- only what is signed is accepted -----

  /** A number determines its digits. */
  lemma SameDigits(a: int, b: int, x: int, y: int)
    requires 0 <= x < 0x100 && 0 <= y < 0x100 && a * 0x100 + x == b * 0x100 + y
    ensures a == b && x == y
  {}

  /** The word that four bytes spell determines them. */
  lemma SameBytes(a3: byte, a2: byte, a1: byte, a0: byte, b3: byte, b2: byte, b1: byte, b0: byte)
    requires WordOfBytes(a3, a2, a1, a0) == WordOfBytes(b3, b2, b1, b0)
    ensures a3 == b3 && a2 == b2 && a1 == b1 && a0 == b0
  {
    SameFour(a3 as int, a2 as int, a1 as int, a0 as int, b3 as int, b2 as int, b1 as int, b0 as int);
    SameByte(a3, b3);
    SameByte(a2, b2);
    SameByte(a1, b1);
    SameByte(a0, b0);
  }

  lemma SameFour(a3: int, a2: int, a1: int, a0: int, b3: int, b2: int, b1: int, b0: int)
    requires 0 <= a2 < 0x100 && 0 <= a1 < 0x100 && 0 <= a0 < 0x100
    requires 0 <= b2 < 0x100 && 0 <= b1 < 0x100 && 0 <= b0 < 0x100
    requires a3 * 0x1000000 + a2 * 0x10000 + a1 * 0x100 + a0 == b3 * 0x1000000 + b2 * 0x10000 + b1 * 0x100 + b0
    ensures a3 == b3 && a2 == b2 && a1 == b1 && a0 == b0
  {
    SameDigits((a3 * 0x100 + a2) * 0x100 + a1, (b3 * 0x100 + b2) * 0x100 + b1, a0, b0);
    SameDigits(a3 * 0x100 + a2, b3 * 0x100 + b2, a1, b1);
    SameDigits(a3, b3, a2, b2);
  }

  lemma TagBytes()
    ensures WordOfBytes(0x53, 0x52, 0x45, 0x56) == VERS_TAG
  {}

  lemma TagIs(b3: byte, b2: byte, b1: byte, b0: byte)
    ensures WordOfBytes(b3, b2, b1, b0) == VERS_TAG <==> b3 == 0x53 && b2 == 0x52 && b1 == 0x45 && b0 == 0x56
  {
    TagBytes();
    if WordOfBytes(b3, b2, b1, b0) == VERS_TAG {
      SameBytes(b3, b2, b1, b0, 0x53, 0x52, 0x45, 0x56);
    }
  }

  /** The version tag is the bytes VERS. */
  lemma TagIsVers(app: seq<byte>, n: nat, end: nat)
    requires end == n + 4 <= |app|
    ensures WordAt(app, n) == VERS_TAG <==> app[n..end] == [0x56, 0x45, 0x52, 0x53]
  {
    var tag := app[n..end];
    assert tag[0] == app[n] && tag[1] == app[n + 1] && tag[2] == app[n + 2] && tag[3] == app[n + 3];
    TagIs(app[n + 3], app[n + 2], app[n + 1], app[n]);
    assert tag == [tag[0], tag[1], tag[2], tag[3]];
  }

  /** RSA verification by the key, in the standard's sense, of the 128 bytes at len over the hash of what is before
      them, the first word left out. */
  ghost predicate SignedBy(app: seq<byte>, len: int, k: PublicKey)
    requires 4 <= len && len + 128 <= |app| && (Usable(k) ==> Val(k.n) != 0)
  {
    Usable(k) && ValidSignature(k, app[len..len + 128], Sha1Standard.Sha1(app[4..len]))
  }

  /** One subtraction is enough for the key, or for the signature at len. */
  ghost predicate ReducedAt(app: seq<byte>, len: int, k: PublicKey)
    requires 0 <= len && len + 128 <= |app| && 0 <= k.len
  {
    Pow(BASE, k.len) <= 2 * Val(k.n) || Os2ip(app[len..len + 128]) < Val(k.n)
  }

  ghost predicate WithinReach(app: seq<byte>, k: PublicKey)
    requires Covers(app)
  {
    Usable(k) && LengthOk(app) ==> ReducedAt(app, SignedLength(app), k)
  }

  lemma SignatureIs(app: seq<byte>, len: int, k: PublicKey)
    requires 8 <= len && len + RSA_NUM_BYTES <= |app| && (Usable(k) ==> k.WellFormed() && ReducedAt(app, len, k))
    ensures SignatureAt(app, len, k) <==> SignedBy(app, len, k)
  {
    if Usable(k) {
      OpensIsValid(k, app[len..len + RSA_NUM_BYTES], Sha1Standard.Sha1(app[4..len]));
    }
  }

  lemma LengthIs(app: seq<byte>)
    requires |app| >= 4
    ensures LengthOk(app) <==> 8 <= WordAt(app, 0) <= 16760700
    ensures LengthOk(app) ==> SignedLength(app) == WordAt(app, 0)
  {}

  /** With a length in bounds, what is left to look at. */
  lemma AcceptsAt(app: seq<byte>, len: int, release: PublicKey, debug: PublicKey, allowDebug: bool)
    requires Covers(app) && LengthOk(app) && len == SignedLength(app)
    requires (Usable(release) ==> release.WellFormed()) && (Usable(debug) ==> debug.WellFormed())
    ensures Accepts(app, release, debug, allowDebug)
       <==> VersionAt(app, len) && (SignatureAt(app, len, release) || (allowDebug && SignatureAt(app, len, debug)))
  {}

  ghost predicate SignedArea(app: seq<byte>, len: int, release: PublicKey, debug: PublicKey, allowDebug: bool)
    requires 8 <= len && len + 128 <= |app|
    requires (Usable(release) ==> Val(release.n) != 0) && (Usable(debug) ==> Val(debug.n) != 0)
  {
    && app[len - 8..len - 4] == [0x56, 0x45, 0x52, 0x53] && WordAt(app, len - 4) >= 2
    && (SignedBy(app, len, release) || (allowDebug && SignedBy(app, len, debug)))
  }

  lemma AreaIs(app: seq<byte>, len: int, release: PublicKey, debug: PublicKey, allowDebug: bool)
    requires 8 <= len && len + RSA_NUM_BYTES <= |app|
    requires Usable(release) ==> release.WellFormed() && ReducedAt(app, len, release)
    requires Usable(debug) ==> debug.WellFormed() && ReducedAt(app, len, debug)
    ensures VersionAt(app, len) && (SignatureAt(app, len, release) || (allowDebug && SignatureAt(app, len, debug)))
       <==> SignedArea(app, len, release, debug, allowDebug)
  {
    TagIsVers(app, len - 8, len - 4);
    SignatureIs(app, len, release);
    SignatureIs(app, len, debug);
  }

  /** An application is started if and only if its first word is a length from 8 to 16760700, that many bytes end in
      VERS and a version of 2 or more, and the 128 bytes behind them are an RSA signature of their hash, the first
      word left out, by the release key or, where that is allowed, by the debug key. */
  lemma AcceptedExactly(app: seq<byte>, release: PublicKey, debug: PublicKey, allowDebug: bool)
    requires Covers(app) && WithinReach(app, release) && WithinReach(app, debug)
    requires (Usable(release) ==> release.WellFormed()) && (Usable(debug) ==> debug.WellFormed())
    ensures var len := WordAt(app, 0);
            Accepts(app, release, debug, allowDebug) <==>
              && 8 <= len <= 16760700 && len + 128 <= |app|
              && SignedArea(app, len, release, debug, allowDebug)
  {
    LengthIs(app);
    if LengthOk(app) {
      AcceptsAt(app, SignedLength(app), release, debug, allowDebug);
      AreaIs(app, SignedLength(app), release, debug, allowDebug);
    }
  }

  // ----- what sign.py writes is accepted -----

  /** The private exponent undoes the public one. */
  ghost predicate Pair(public: PublicKey, private: PrivateKey) {
    && private.n == Val(public.n) != 0 && 0 <= public.exponent
    && forall m: nat :: m < private.n ==> Pow(Pow(m, private.d) % private.n, public.exponent) % private.n == m
  }

  lemma BlockBound(hash: seq<byte>)
    requires |hash| == SHA_DIGEST_SIZE
    ensures Os2ip(Block(hash)) < Pow(256, RSA_NUM_BYTES - 1)
  {
    var rest := Block(hash)[1..];
    assert Block(hash) == [0x00] + rest;
    Os2ipConcat([0x00], rest);
    Os2ipBound(rest);
    assert Os2ip([0x00]) == 0 by {
      Os2ipSnoc([], 0x00);
    }
  }

  /** A signature made with the private key opens under the public key. */
  lemma SignatureOpens(public: PublicKey, private: PrivateKey, hashed: seq<byte>)
    requires public.WellFormed() && public.len == RSA_NUM_WORDS && Pair(public, private)
    requires Pow(256, RSA_NUM_BYTES - 1) <= private.n
    ensures Opens(public, Signature(private, hashed), Sha1Standard.Sha1(hashed))
  {
    var hash := Sha1Standard.Sha1(hashed);
    var m := Os2ip(Block(hash));
    var powered := Pow(m, private.d) % private.n;
    BlockBound(hash);
    ValBound(public.n);
    PowBytesWords(public.len);
    Os2ipI2osp(powered, RSA_NUM_BYTES);
    OpensIsValid(public, Signature(private, hashed), hash);
    I2ospOs2ip(Block(hash));
  }

  /** Without SETLEN the file is the body followed by a signature that opens to its hash; with it there is a file
      unless the length does not fit 32 bits. */
  lemma SignedFile(public: PublicKey, private: PrivateKey, dat: seq<byte>)
    requires public.WellFormed() && public.len == RSA_NUM_WORDS && Pair(public, private)
    requires Pow(256, RSA_NUM_BYTES - 1) <= private.n
    ensures var file := Sign(dat, false, private);
            && file.Success? && dat <= file.value && |file.value| == |dat| + 128
            && Opens(public, file.value[|dat|..], Sha1Standard.Sha1(dat))
    ensures Sign(dat, true, private).Success? <==> |dat| + 8 < 0x1_0000_0000
  {
    SignatureOpens(public, private, dat);
    assert (dat + Signature(private, dat))[|dat|..] == Signature(private, dat);
  }

  /** The signed file, cut where main cuts it. */
  lemma Cut(app: seq<byte>, x: seq<byte>, sig: seq<byte>)
    requires x + sig <= app
    ensures app[..|x|] == x && app[|x|..|x| + |sig|] == sig
  {
    assert app[..|x| + |sig|] == x + sig;
  }

  lemma LengthReads(app: seq<byte>, dat: seq<byte>, x: seq<byte>, hashed: seq<byte>)
    requires LayOut(dat, true) == SignImage.Success((x, hashed)) && x <= app
    ensures |x| == |dat| + 8 && WordAt(app, 0) == |x|
  {
    assert app[0..4] == x[0..4] == PackWord(|x|);
    PackedReads(app, 0, |x|);
  }

  /** Behind its first word the signed area is the body with the tag and the version. */
  lemma AreaReads(app: seq<byte>, head: seq<byte>, body: seq<byte>, k: nat)
    requires |head| == 4 <= |body| && head + body[4..] <= app && 4 <= k < |body|
    ensures k < |app| && app[k] == body[k]
  {
    assert app[k] == (head + body[4..])[k];
  }

  lemma AreaEnds(app: seq<byte>, dat: seq<byte>, tag: seq<byte>, version: seq<byte>)
    requires |tag| == |version| == 4 <= |dat| && |dat| + 8 <= |app|
    requires forall k :: 4 <= k < |dat| + 8 ==> app[k] == (dat + tag + version)[k]
    ensures app[|dat|..|dat| + 4] == tag && app[|dat| + 4..|dat| + 8] == version
  {}

  /** The tag and a version behind a body of at least four bytes. */
  lemma EndReads(app: seq<byte>, head: seq<byte>, dat: seq<byte>, version: word)
    requires |head| == 4 <= |dat| && head + Versioned(dat, version)[4..] <= app
    ensures WordAt(app, |dat|) == VERS_TAG && WordAt(app, |dat| + 4) == version
  {
    var n, packed := |dat|, PackWord(version);
    forall k | 4 <= k < n + 8
      ensures app[k] == (dat + VERS + packed)[k]
    {
      AreaReads(app, head, Versioned(dat, version), k);
    }
    AreaEnds(app, dat, VERS, packed);
    TagIsVers(app, n, n + 4);
    PackedReads(app, n + 4, version);
  }

  lemma LaidOut(dat: seq<byte>, x: seq<byte>, hashed: seq<byte>) returns (head: seq<byte>)
    requires LayOut(dat, true) == SignImage.Success((x, hashed))
    ensures |head| == 4 && |x| == |dat| + 8 && x == head + Versioned(dat, VERSION)[4..]
  {
    head := PackWord(|x|);
  }

  /** A body of at least four bytes leaves the version where main looks for it. */
  lemma VersionReads(app: seq<byte>, dat: seq<byte>, x: seq<byte>, hashed: seq<byte>)
    requires LayOut(dat, true) == SignImage.Success((x, hashed)) && x <= app && |dat| >= 4
    ensures |x| == |dat| + 8 && WordAt(app, |x| - 8) == VERS_TAG && WordAt(app, |x| - 4) == VERSION
  {
    var head := LaidOut(dat, x, hashed);
    EndReads(app, head, dat, VERSION);
  }

  /** The bytes of a small number. */
  lemma SmallPacked(w: word, k: nat)
    requires w < 12 && k < 4
    ensures PackWord(w)[k] as int == if k == 0 then w else 0
  {
    ByteRoundTrip(w);
  }

  /** A shorter body does not: the length is written over the tag's first byte. */
  lemma VersionOverwritten(app: seq<byte>, dat: seq<byte>, x: seq<byte>, hashed: seq<byte>)
    requires LayOut(dat, true) == SignImage.Success((x, hashed)) && x <= app && |dat| < 4
    ensures |x| == |dat| + 8 && WordAt(app, |x| - 8) != VERS_TAG
  {
    var n := |dat|;
    assert app[n] == x[n] == PackWord(|x|)[n];
    SmallPacked(|x|, n);
    TagFirstByte(app[n + 3] as int, app[n + 2] as int, app[n + 1] as int, app[n] as int);
  }

  /** The tag read least significant byte first starts with V. */
  lemma TagFirstByte(b3: int, b2: int, b1: int, b0: int)
    requires 0 <= b0 < 256
    ensures b3 * 0x1000000 + b2 * 0x10000 + b1 * 0x100 + b0 == VERS_TAG ==> b0 == 0x56
  {
    var rest := b3 * 0x10000 + b2 * 0x100 + b1;
    assert b3 * 0x1000000 + b2 * 0x10000 + b1 * 0x100 == 0x100 * rest;
    assert VERS_TAG == 0x100 * 0x535245 + 0x56;
    if 0x100 * rest + b0 == VERS_TAG {
      assert 0x100 * (rest - 0x535245) == 0x56 - b0;
    }
  }

  /** What main verifies is what was hashed and signed. */
  lemma LongEnough(app: seq<byte>, x: seq<byte>, hashed: seq<byte>, sig: seq<byte>, release: PublicKey)
    requires Covers(app) && LengthOk(app) && SignedLength(app) == |x| && 4 <= |x| && |sig| == RSA_NUM_BYTES
    requires Usable(release) && release.WellFormed()
    requires app[..|x|] == x && app[|x|..|x| + |sig|] == sig && x[4..] == hashed
    ensures SignatureOk(app, release) <==> Opens(release, sig, Sha1Standard.Sha1(hashed))
  {
    assert app[4..|x|] == x[4..];
  }

  /** The length check on a signed file. */
  lemma SignedLengthOk(app: seq<byte>, dat: seq<byte>, x: seq<byte>, hashed: seq<byte>)
    requires LayOut(dat, true) == SignImage.Success((x, hashed)) && x <= app && |x| + RSA_NUM_BYTES <= |app|
    ensures |x| == |dat| + 8 && Covers(app)
    ensures LengthOk(app) <==> |dat| + 8 <= MAX_LENGTH
    ensures LengthOk(app) ==> SignedLength(app) == |x|
  {
    LengthReads(app, dat, x, hashed);
  }

  lemma SignedVersionOk(app: seq<byte>, dat: seq<byte>, x: seq<byte>, hashed: seq<byte>)
    requires LayOut(dat, true) == SignImage.Success((x, hashed)) && x <= app && |x| + RSA_NUM_BYTES <= |app|
    requires Covers(app) && LengthOk(app) && SignedLength(app) == |x|
    ensures VersionOk(app) <==> 4 <= |dat|
  {
    if |dat| < 4 {
      VersionOverwritten(app, dat, x, hashed);
    } else {
      VersionReads(app, dat, x, hashed);
    }
  }

  /** Whatever the flash holds behind it, a body signed with SETLEN by the holder of the release key is
      accepted exactly when it has at least four bytes and the signed area is within bounds. */
  lemma SignedIsAccepted(app: seq<byte>, dat: seq<byte>, private: PrivateKey,
                         release: PublicKey, debug: PublicKey, allowDebug: bool)
    requires Usable(debug) ==> debug.WellFormed()
    requires Usable(release) && release.WellFormed() && Pair(release, private)
    requires Pow(256, RSA_NUM_BYTES - 1) <= private.n
    requires Sign(dat, true, private).Success? && Sign(dat, true, private).value <= app
    ensures Covers(app)
    ensures Accepts(app, release, debug, allowDebug) <==> 4 <= |dat| && |dat| + 8 <= MAX_LENGTH
  {
    var (x, hashed) := LayOut(dat, true).value;
    var sig := Signature(private, hashed);
    Cut(app, x, sig);
    SignedLengthOk(app, dat, x, hashed);
    if LengthOk(app) {
      SignedVersionOk(app, dat, x, hashed);
      LongEnough(app, x, hashed, sig, release);
      SignatureOpens(release, private, hashed);
    }
  }
}
