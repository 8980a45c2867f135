/** Bytes, 32-bit words, and the integers they spell. */
module Words {
  import opened Arithmetic

  type byte = bv8
  const BASE := 0x1_0000_0000
  type word = x: int | 0 <= x < 0x1_0000_0000
  type u64 = x: int | 0 <= x < 0x1_0000_0000_0000_0000

  // ----- little-endian word sequences -----

  /** The number a little-endian word array stands for. */
  function Val(s: seq<word>): nat {
    if s == [] then 0 else s[0] + BASE * Val(s[1..])
  }

  lemma {:induction false} ValBound(s: seq<word>)
    ensures Val(s) < Pow(BASE, |s|)
  {
    if s != [] {
      ValBound(s[1..]);
      MulMono(Val(s[1..]) + 1, Pow(BASE, |s| - 1), BASE);
    }
  }

  lemma {:induction false} ValConcat(s: seq<word>, t: seq<word>)
    ensures Val(s + t) == Val(s) + Pow(BASE, |s|) * Val(t)
  {
    if s == [] {
      assert s + t == t;
    } else {
      assert (s + t)[1..] == s[1..] + t;
      ValConcat(s[1..], t);
      var p, v := Pow(BASE, |s| - 1), Val(t);
      assert BASE * (p * v) == (BASE * p) * v;
      assert BASE * (Val(s[1..]) + p * v) == BASE * Val(s[1..]) + BASE * (p * v);
    }
  }

  /** One more word extends a prefix by its weighted value. */
  lemma ValSnoc(s: seq<word>, i: nat)
    requires i < |s|
    ensures Val(s[..i + 1]) == Val(s[..i]) + Pow(BASE, i) * s[i]
  {
    assert s[..i + 1] == s[..i] + [s[i]];
    ValConcat(s[..i], [s[i]]);
    assert Val([s[i]]) == s[i] + BASE * Val([]);
  }

  lemma {:induction false} ValZeros(s: seq<word>)
    requires forall i :: 0 <= i < |s| ==> s[i] == 0
    ensures Val(s) == 0
  {
    if s != [] {
      ValZeros(s[1..]);
    }
  }

  /** Numbers with the same words above i compare as their words at i do. */
  lemma ValCompare(s: seq<word>, t: seq<word>, i: nat)
    requires |s| == |t| && i < |s| && s[i + 1..] == t[i + 1..] && s[i] < t[i]
    ensures Val(s) < Val(t)
  {
    ValSplit(s, i);
    ValSplit(t, i);
    ValBound(s[..i]);
    LeadingDigit(Pow(BASE, i), Val(s[..i]), s[i], Val(t[..i]), t[i]);
  }

  lemma LeadingDigit(p: nat, low: nat, x: nat, low': nat, y: nat)
    requires low < p && x < y
    ensures low + p * x < low' + p * y
  {
    MulMono(x + 1, y, p);
    assert p * x + p == (x + 1) * p && y * p == p * y;
  }

  lemma ValSplit(s: seq<word>, i: nat)
    requires i < |s|
    ensures Val(s) == Val(s[..i]) + Pow(BASE, i) * s[i] + Pow(BASE, i + 1) * Val(s[i + 1..])
  {
    ValConcat(s[..i + 1], s[i + 1..]);
    ValSnoc(s, i);
    assert s == s[..i + 1] + s[i + 1..];
  }

  // ----- big-endian byte strings: OS2IP and I2OSP of RFC 8017, sections 4.2 and 4.1 -----

  function Os2ip(bs: seq<byte>): nat {
    if bs == [] then 0 else Os2ip(bs[..|bs| - 1]) * 256 + bs[|bs| - 1] as int
  }

  function I2osp(x: nat, len: nat): (bs: seq<byte>)
    ensures |bs| == len
  {
    if len == 0 then [] else I2osp(x / 256, len - 1) + [(x % 256) as byte]
  }

  lemma Distribute(a: int, p: int, v: int)
    ensures (a * p + v) * 256 == a * (256 * p) + v * 256
  {
    assert (a * p) * 256 == a * (256 * p);
  }

  lemma {:induction false} Os2ipConcat(s: seq<byte>, t: seq<byte>)
    ensures Os2ip(s + t) == Os2ip(s) * Pow(256, |t|) + Os2ip(t)
  {
    if t == [] {
      assert s + t == s;
    } else {
      var t' := t[..|t| - 1];
      assert (s + t)[..|s + t| - 1] == s + t';
      Os2ipConcat(s, t');
      Distribute(Os2ip(s), Pow(256, |t'|), Os2ip(t'));
    }
  }

  lemma {:induction false} AllOnes(len: nat)
    ensures Os2ip(seq(len, _ => 0xFF)) == Pow(256, len) - 1
  {
    if len != 0 {
      AllOnes(len - 1);
      var bs: seq<byte> := seq(len, _ => 0xFF);
      assert bs[..len - 1] == seq(len - 1, _ => 0xFF);
    }
  }

  lemma {:induction false} Os2ipBound(bs: seq<byte>)
    ensures Os2ip(bs) < Pow(256, |bs|)
  {
    if bs != [] {
      Os2ipBound(bs[..|bs| - 1]);
      MulMono(Os2ip(bs[..|bs| - 1]) + 1, Pow(256, |bs| - 1), 256);
    }
  }

  lemma {:induction false} I2ospOs2ip(bs: seq<byte>)
    ensures I2osp(Os2ip(bs), |bs|) == bs
  {
    if bs != [] {
      var rest, last := bs[..|bs| - 1], bs[|bs| - 1];
      DivModUnique(Os2ip(bs), 256, Os2ip(rest), last as int);
      I2ospOs2ip(rest);
      assert bs == rest + [last];
    }
  }

  lemma {:induction false} Os2ipI2osp(x: nat, len: nat)
    requires x < Pow(256, len)
    ensures Os2ip(I2osp(x, len)) == x
  {
    if len != 0 {
      DivBounds(x, 256, 0, Pow(256, len - 1));
      Os2ipI2osp(x / 256, len - 1);
      ByteRoundTrip(x % 256);
      Os2ipSnoc(I2osp(x / 256, len - 1), (x % 256) as byte);
    }
  }

  /** Byte i of a big-endian encoding, as a shift and a truncation. */
  function ShiftedByte(x: nat, len: nat, i: nat): byte
    requires i < len
  {
    PowPositive(256, len - 1 - i);
    (x / Pow(256, len - 1 - i) % 256) as byte
  }

  lemma {:induction false} I2ospAt(x: nat, len: nat, i: nat)
    requires i < len
    ensures I2osp(x, len)[i] == ShiftedByte(x, len, i)
  {
    if i == len - 1 {
      assert Pow(256, 0) == 1;
    } else {
      I2ospAt(x / 256, len - 1, i);
      PowPositive(256, len - 2 - i);
      DivDiv(x, 256, Pow(256, len - 2 - i));
    }
  }

  lemma ByteRoundTrip(x: int)
    requires 0 <= x < 256
    ensures (x as byte) as int == x
  {
    assert x % 256 == x;
  }

  lemma SameByte(x: byte, y: byte)
    requires x as int == y as int
    ensures x == y
  {}

  // ----- four bytes and a word -----

  /** Four big-endian bytes shifted into place; the shifted bytes share no bit, so OR-ing them adds them. */
  function WordOfBytes(b0: byte, b1: byte, b2: byte, b3: byte): word {
    (b0 as int) * 0x1000000 + (b1 as int) * 0x10000 + (b2 as int) * 0x100 + b3 as int
  }

  /** The four bytes of a word, most significant first, each shifted down and truncated to eight bits. */
  function BytesOfWord(w: word): seq<byte> {
    [((w / 0x1000000) % 0x100) as byte, ((w / 0x10000) % 0x100) as byte, ((w / 0x100) % 0x100) as byte,
     (w % 0x100) as byte]
  }

  lemma Os2ipSnoc(bs: seq<byte>, b: byte)
    ensures Os2ip(bs + [b]) == Os2ip(bs) * 256 + b as int
  {
    assert (bs + [b])[..|bs|] == bs;
  }

  lemma WordOfBytesValue(b0: byte, b1: byte, b2: byte, b3: byte)
    ensures Os2ip([b0, b1, b2, b3]) == WordOfBytes(b0, b1, b2, b3)
  {
    var s2 := [b0, b1];
    assert Os2ip(s2) == b0 as int * 256 + b1 as int by {
      Os2ipSnoc([], b0);
      Os2ipSnoc([b0], b1);
      assert [] + [b0] == [b0] && [b0] + [b1] == s2;
    }
    Os2ipSnoc(s2, b2);
    Os2ipSnoc([b0, b1, b2], b3);
    assert s2 + [b2] == [b0, b1, b2] && [b0, b1, b2] + [b3] == [b0, b1, b2, b3];
    Horner(b0 as int, b1 as int, b2 as int, b3 as int);
  }

  lemma Horner(x0: int, x1: int, x2: int, x3: int)
    ensures ((x0 * 256 + x1) * 256 + x2) * 256 + x3 == x0 * 0x1000000 + x1 * 0x10000 + x2 * 0x100 + x3
  {}

  lemma BytesOfWordValue(w: word)
    ensures Os2ip(BytesOfWord(w)) == w
  {
    var x0, x1, x2, x3 := (w / 0x1000000) % 0x100, (w / 0x10000) % 0x100, (w / 0x100) % 0x100, w % 0x100;
    ByteRoundTrip(x0);
    ByteRoundTrip(x1);
    ByteRoundTrip(x2);
    ByteRoundTrip(x3);
    WordOfBytesValue(x0 as byte, x1 as byte, x2 as byte, x3 as byte);
    WordSplit(w);
  }

  lemma WordSplit(w: word)
    ensures w == (w / 0x1000000) % 0x100 * 0x1000000 + (w / 0x10000) % 0x100 * 0x10000
                 + (w / 0x100) % 0x100 * 0x100 + w % 0x100
  {
    var q1 := w / 0x100;
    var q2 := q1 / 0x100;
    var q3 := q2 / 0x100;
    DivDiv(w, 0x100, 0x100);
    DivDiv(w, 0x100, 0x10000);
    DivDiv(q1, 0x100, 0x100);
    assert w == 0x100 * q1 + w % 0x100 && q1 == 0x100 * q2 + q1 % 0x100 && q2 == 0x100 * q3 + q2 % 0x100;
    assert q3 % 0x100 == q3;
  }
}
