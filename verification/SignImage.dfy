/** panda/crypto/sign.py: the image layout and its signature. */
module SignImage {
  import opened Arithmetic
  import opened Words
  import opened Rsa
  import opened Sha1Standard

  const VERSION: word := 2

  /** The ASCII bytes VERS. */
  const VERS: seq<byte> := [0x56, 0x45, 0x52, 0x53]

  /** struct.pack("I", w): the bytes of a word, least significant first. */
  function PackWord(w: word): (bs: seq<byte>)
    ensures |bs| == 4
  {
    var b := BytesOfWord(w);
    [b[3], b[2], b[1], b[0]]
  }

  /** The private part of a key pair: the modulus and the private exponent. */
  datatype PrivateKey = PrivateKey(n: nat, d: nat)

  datatype Result<T> = Success(value: T) | StructError

  /** The body with the tag and the version. */
  function Versioned(dat: seq<byte>, version: word): (bs: seq<byte>)
    ensures |bs| == |dat| + 8
  {
    dat + VERS + PackWord(version)
  }

  /** The file up to the signature, and the bytes that are hashed: with SETLEN the version goes to the end,
      the length over the first four bytes, and those four are not hashed. */
  function LayOut(dat: seq<byte>, setLen: bool): Result<(seq<byte>, seq<byte>)> {
    if setLen then
      var dat' := Versioned(dat, VERSION);
      if |dat'| >= BASE then StructError
      else Success((PackWord(|dat'|) + dat'[4..], dat'[4..]))
    else Success((dat, dat))
  }

  /** The padded digest to the private exponent, in 128 bytes. */
  function Signature(k: PrivateKey, hashed: seq<byte>): (sig: seq<byte>)
    requires k.n != 0
    ensures |sig| == RSA_NUM_BYTES
  {
    I2osp(Pow(Os2ip(Block(Sha1(hashed))), k.d) % k.n, RSA_NUM_BYTES)
  }

  /** sign.py from the file it reads to the file it writes. */
  function Sign(dat: seq<byte>, setLen: bool, k: PrivateKey): Result<seq<byte>>
    requires k.n != 0
  {
    match LayOut(dat, setLen)
    case Success((x, hashed)) => Success(x + Signature(k, hashed))
    case StructError => StructError
  }

  /** The word at p, least significant byte first. */
  function WordAt(bs: seq<byte>, p: nat): word
    requires p + 4 <= |bs|
  {
    WordOfBytes(bs[p + 3], bs[p + 2], bs[p + 1], bs[p])
  }

  lemma PackedReads(bs: seq<byte>, p: nat, w: word)
    requires p + 4 <= |bs| && bs[p..p + 4] == PackWord(w)
    ensures WordAt(bs, p) == w
  {
    var b := BytesOfWord(w);
    assert bs[p..p + 4][0] == b[3] && bs[p..p + 4][1] == b[2] && bs[p..p + 4][2] == b[1] && bs[p..p + 4][3] == b[0];
    assert b == [b[0], b[1], b[2], b[3]];
    WordOfBytesValue(b[0], b[1], b[2], b[3]);
    BytesOfWordValue(w);
  }
}
