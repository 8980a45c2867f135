/** The CAN packet on the wire: its bit layout, its checksum, and the packets in a byte stream. */
module CanPacket {
  import opened Arithmetic
  import opened Words

  const HEAD_SIZE: nat := 6
  const STRUCT_SIZE: nat := 72

  /** The length table: 0 to 8, then 12, 16, 20, 24, 32, 48 and 64. */
  function DataLen(code: nat): (n: nat)
    requires code < 16
    ensures n <= 64
  {
    if code <= 8 then code
    else if code <= 12 then 12 + 4 * (code - 9)
    else if code == 13 then 32
    else 48 + 16 * (code - 14)
  }

  lemma LengthTable(code: nat)
    requires code < 16
    ensures DataLen(code) == [0, 1, 2, 3, 4, 5, 6, 7, 8, 12, 16, 20, 24, 32, 48, 64][code]
  {}

  /** The length code in the first byte of a packet. */
  function LengthCode(first: byte): (code: nat)
    ensures code < 16
  {
    CodeBound(first);
    (first >> 4) as int
  }

  lemma CodeBound(first: byte)
    ensures (first >> 4) as int < 16
  {}

  /** Bytes of a packet that starts with the given byte. */
  function PacketLen(first: byte): (n: nat)
    ensures HEAD_SIZE <= n <= 70
  {
    HEAD_SIZE + DataLen(LengthCode(first))
  }

  // ----- checksum -----

  function Xor(bs: seq<byte>): byte {
    if bs == [] then 0 else Xor(bs[..|bs| - 1]) ^ bs[|bs| - 1]
  }

  lemma {:induction false} XorConcat(x: seq<byte>, y: seq<byte>)
    ensures Xor(x + y) == Xor(x) ^ Xor(y)
  {
    if y == [] {
      assert x + y == x;
      XorRules(Xor(x), 0, 0);
    } else {
      assert (x + y)[..|x + y| - 1] == x + y[..|y| - 1];
      XorConcat(x, y[..|y| - 1]);
      XorRules(Xor(x), Xor(y[..|y| - 1]), y[|y| - 1]);
    }
  }

  lemma XorRules(x: byte, y: byte, z: byte)
    ensures (x ^ y) ^ z == x ^ (y ^ z)
    ensures x ^ y == y ^ x
    ensures x ^ 0 == x
    ensures x ^ x == 0
  {}

  /** Changing one byte changes the sum by the difference. */
  lemma {:induction false} XorChanged(bs: seq<byte>, i: nat, b: byte)
    requires i < |bs|
    ensures Xor(bs[i := b]) == Xor(bs) ^ (bs[i] ^ b)
  {
    var k := |bs| - 1;
    if i == k {
      assert bs[i := b][..k] == bs[..k];
      XorSwap(Xor(bs[..k]), bs[k], b);
    } else {
      assert bs[i := b][..k] == bs[..k][i := b];
      XorChanged(bs[..k], i, b);
      XorRules(Xor(bs[..k]), bs[i] ^ b, bs[k]);
      XorRules(Xor(bs[..k]), bs[k], bs[i] ^ b);
      XorRules(bs[i] ^ b, bs[k], 0);
    }
  }

  lemma XorSwap(x: byte, y: byte, z: byte)
    ensures x ^ z == (x ^ y) ^ (y ^ z)
  {}

  lemma XorDiffers(x: byte, y: byte)
    requires x != y
    ensures 0 ^ (x ^ y) != 0
  {}

  /** A header and data whose checksum byte is the XOR of everything else sum to zero. */
  lemma ChecksumClears(head: seq<byte>, data: seq<byte>)
    ensures Xor(head + [Xor(head + data)] + data) == 0
  {
    var c := Xor(head + data);
    XorConcat(head + [c], data);
    XorConcat(head, [c]);
    XorConcat(head, data);
    assert Xor([c]) == c by {
      assert [c][..0] == [];
      XorRules(c, 0, 0);
    }
    XorCancel(Xor(head), Xor(data));
  }

  lemma XorCancel(x: byte, y: byte)
    ensures (x ^ (x ^ y)) ^ y == 0
  {}

  // ----- the structure -----

  /** CANPacket_t, field by field. */
  datatype Packet = Packet(fd: nat, bus: nat, dataLenCode: nat, rejected: nat, returned: nat, extended: nat,
                           addr: nat, checksum: byte, data: seq<byte>)
  {
    predicate Valid() {
      && fd < 2 && bus < 8 && dataLenCode < 16
      && rejected < 2 && returned < 2 && extended < 2 && addr < 0x2000_0000
      && |data| == 64
    }

    function Len(): nat
      requires Valid()
    {
      HEAD_SIZE + DataLen(dataLenCode)
    }

    /** The first byte: fd in bit 0, bus in bits 1 to 3, the length code in bits 4 to 7. */
    function First(): (b: byte)
      requires Valid()
    {
      (fd + 2 * bus + 16 * dataLenCode) as byte
    }

    /** The four bytes after it, as a little-endian word: three flags under a 29-bit address. */
    function AddrWord(): (w: nat)
      requires Valid()
      ensures w < 0x1_0000_0000
    {
      rejected + 2 * returned + 4 * extended + 8 * addr
    }

    function Header(): (h: seq<byte>)
      requires Valid()
      ensures |h| == HEAD_SIZE
    {
      [First()] + LittleEndian(AddrWord()) + [checksum]
    }

    /** The bytes of the structure that travel: the header and as much data as the code says. */
    function Serialized(): (bs: seq<byte>)
      requires Valid()
      ensures |bs| == Len()
    {
      Header() + data[..DataLen(dataLenCode)]
    }
  }

  /** The four low bytes of an integer, least significant first, each shifted down and masked. */
  function LittleEndian(w: int): seq<byte> {
    [(w % 0x100) as byte, (w / 0x100 % 0x100) as byte, (w / 0x10000 % 0x100) as byte, (w / 0x1000000 % 0x100) as byte]
  }

  function FromLittleEndian(b0: byte, b1: byte, b2: byte, b3: byte): nat {
    b0 as int + b1 as int * 0x100 + b2 as int * 0x10000 + b3 as int * 0x1000000
  }

  lemma LittleEndianRoundTrip(w: nat)
    requires w < 0x1_0000_0000
    ensures var b := LittleEndian(w); FromLittleEndian(b[0], b[1], b[2], b[3]) == w
  {
    ByteRoundTrip(w % 0x100);
    ByteRoundTrip(w / 0x100 % 0x100);
    ByteRoundTrip(w / 0x10000 % 0x100);
    ByteRoundTrip(w / 0x1000000 % 0x100);
    WordSplit(w);
  }

  /** Reading a zero-filled structure back through its bit fields. */
  function Fields(bs: seq<byte>): Packet
    requires |bs| == STRUCT_SIZE
  {
    var b0, w := bs[0] as int, FromLittleEndian(bs[1], bs[2], bs[3], bs[4]);
    Packet(b0 % 2, b0 / 2 % 8, b0 / 16, w % 2, w / 2 % 2, w / 4 % 2, w / 8, bs[5], bs[6..70])
  }

  function ZeroFilled(bs: seq<byte>): (r: seq<byte>)
    requires |bs| <= STRUCT_SIZE
    ensures |r| == STRUCT_SIZE
  {
    bs + seq(STRUCT_SIZE - |bs|, _ => 0)
  }

  /** A packet with nothing beyond its data, which is what a zero-filled structure can hold. */
  predicate Trimmed(p: Packet)
    requires p.Valid()
  {
    forall k :: DataLen(p.dataLenCode) <= k < 64 ==> p.data[k] == 0
  }

  /** The bit fields of a received structure are those of the packet that was serialised. */
  lemma FieldsOfSerialized(p: Packet)
    requires p.Valid() && Trimmed(p)
    ensures Fields(ZeroFilled(p.Serialized())) == p
  {
    var bs, le := ZeroFilled(p.Serialized()), LittleEndian(p.AddrWord());
    assert bs[1] == le[0] && bs[2] == le[1] && bs[3] == le[2] && bs[4] == le[3] && bs[5] == p.checksum;
    LittleEndianRoundTrip(p.AddrWord());
    ByteRoundTrip(p.fd + 2 * p.bus + 16 * p.dataLenCode);
    SplitFields(p);
    assert bs[6..70] == p.data;
  }

  lemma SplitFields(p: Packet)
    requires p.Valid()
    ensures var b0 := p.fd + 2 * p.bus + 16 * p.dataLenCode;
            b0 % 2 == p.fd && b0 / 2 % 8 == p.bus && b0 / 16 == p.dataLenCode
    ensures var w := p.AddrWord();
            w % 2 == p.rejected && w / 2 % 2 == p.returned && w / 4 % 2 == p.extended && w / 8 == p.addr
  {
    TakeBits(p.fd, p.bus + 8 * p.dataLenCode, 2);
    TakeBits(p.bus, p.dataLenCode, 8);
    TakeBits(p.fd + 2 * p.bus, p.dataLenCode, 16);
    TakeBits(p.rejected, p.returned + 2 * p.extended + 4 * p.addr, 2);
    TakeBits(p.returned, p.extended + 2 * p.addr, 2);
    TakeBits(p.rejected + 2 * p.returned, p.extended + 2 * p.addr, 4);
    TakeBits(p.extended, p.addr, 2);
    TakeBits(p.rejected + 2 * p.returned + 4 * p.extended, p.addr, 8);
  }

  lemma TakeBits(low: nat, high: nat, d: nat)
    requires low < d
    ensures (low + d * high) % d == low && (low + d * high) / d == high
  {
    DivModUnique(low + d * high, d, high, low);
  }

  /** The length code read from the first serialised byte is the packet's. */
  lemma FirstByte(p: Packet)
    requires p.Valid()
    ensures p.Serialized()[0] == p.First()
    ensures LengthCode(p.First()) == p.dataLenCode
    ensures p.First() as int == p.fd + 2 * p.bus + 16 * p.dataLenCode
  {
    ByteRoundTrip(p.fd + 2 * p.bus + 16 * p.dataLenCode);
    SplitFields(p);
    ShiftFour(p.First());
  }

  lemma ShiftFour(b: byte)
    ensures (b >> 4) as int == b as int / 16
  {}

  // ----- a stream of packets -----

  /** The complete packets at the front of a byte stream, and the partial one left over. */
  function Parse(stream: seq<byte>): (r: (seq<seq<byte>>, seq<byte>))
  {
    if stream == [] || |stream| < PacketLen(stream[0]) then
      ([], stream)
    else
      var n := PacketLen(stream[0]);
      var (packets, rest) := Parse(stream[n..]);
      ([stream[..n]] + packets, rest)
  }

  /** Whole packets: each is as long as its first byte says. */
  ghost predicate WellFramed(packets: seq<seq<byte>>) {
    forall p <- packets :: p != [] && |p| == PacketLen(p[0])
  }

  ghost predicate Partial(rest: seq<byte>) {
    rest == [] || |rest| < PacketLen(rest[0])
  }

  function Flatten(pieces: seq<seq<byte>>): seq<byte> {
    if pieces == [] then [] else pieces[0] + Flatten(pieces[1..])
  }

  lemma {:induction false} FlattenConcat(x: seq<seq<byte>>, y: seq<seq<byte>>)
    ensures Flatten(x + y) == Flatten(x) + Flatten(y)
  {
    if x == [] {
      assert x + y == y;
    } else {
      assert (x + y)[1..] == x[1..] + y;
      FlattenConcat(x[1..], y);
    }
  }

  lemma FlattenCons(x: seq<byte>, y: seq<seq<byte>>)
    ensures Flatten([x] + y) == x + Flatten(y)
  {
    assert ([x] + y)[1..] == y;
  }

  lemma FlattenSnoc(x: seq<seq<byte>>, y: seq<byte>)
    ensures Flatten(x + [y]) == Flatten(x) + y
  {
    FlattenConcat(x, [y]);
    assert [y][1..] == [] && Flatten([y]) == y + Flatten([]);
  }

  /** Parsing leaves whole packets and a proper partial one. */
  lemma {:induction false} ParseFramed(stream: seq<byte>)
    ensures WellFramed(Parse(stream).0) && Partial(Parse(stream).1)
  {
    if stream != [] && |stream| >= PacketLen(stream[0]) {
      var n := PacketLen(stream[0]);
      ParseFramed(stream[n..]);
    }
  }

  /** Parsing loses nothing. */
  lemma {:induction false} ParseSound(stream: seq<byte>)
    ensures Flatten(Parse(stream).0) + Parse(stream).1 == stream
  {
    if stream != [] && |stream| >= PacketLen(stream[0]) {
      var n := PacketLen(stream[0]);
      ParseSound(stream[n..]);
      SoundNext(stream, n, Parse(stream[n..]).0, Parse(stream[n..]).1);
    }
  }

  lemma SoundNext(stream: seq<byte>, n: nat, packets: seq<seq<byte>>, rest: seq<byte>)
    requires n <= |stream| && Flatten(packets) + rest == stream[n..]
    ensures Flatten([stream[..n]] + packets) + rest == stream
  {
    FlattenCons(stream[..n], packets);
    Associate(stream[..n], Flatten(packets), rest);
    assert stream == stream[..n] + stream[n..];
  }

  lemma Associate<T>(x: seq<T>, y: seq<T>, z: seq<T>)
    ensures (x + y) + z == x + (y + z)
  {}

  /** Parsing is the only way to split a stream into whole packets and a partial one. */
  lemma {:induction false} ParseUnique(packets: seq<seq<byte>>, rest: seq<byte>)
    requires WellFramed(packets) && Partial(rest)
    ensures Parse(Flatten(packets) + rest) == (packets, rest)
  {
    if packets == [] {
      assert Flatten(packets) + rest == rest;
    } else {
      var p, stream := packets[0], Flatten(packets) + rest;
      Associate(p, Flatten(packets[1..]), rest);
      assert stream[..|p|] == p && stream[|p|..] == Flatten(packets[1..]) + rest;
      assert forall q <- packets[1..] :: q in packets;
      ParseUnique(packets[1..], rest);
      assert [p] + packets[1..] == packets;
    }
  }

  lemma WellFramedConcat(ps: seq<seq<byte>>, qs: seq<seq<byte>>)
    requires WellFramed(ps) && WellFramed(qs)
    ensures WellFramed(ps + qs)
  {}

  /** Parsing a stream in two parts, carrying the partial packet over, is parsing it whole. */
  lemma ParseConcat(x: seq<byte>, y: seq<byte>)
    ensures Parse(x + y) == (Parse(x).0 + Parse(Parse(x).1 + y).0, Parse(Parse(x).1 + y).1)
  {
    var (ps, rest) := Parse(x);
    var (qs, rest') := Parse(rest + y);
    ParseFramed(x);
    ParseFramed(rest + y);
    WellFramedConcat(ps, qs);
    ParseUnique(ps + qs, rest');
    ParseSound(x);
    ParseSound(rest + y);
    FlattenConcat(ps, qs);
    Associate(Flatten(ps), rest, y);
    Associate(Flatten(ps), Flatten(qs), rest');
  }
}
