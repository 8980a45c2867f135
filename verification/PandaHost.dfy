/** panda/python/__init__.py: packing frames for the device and unpacking what it sends. */
module PandaHost {
  import opened Arithmetic
  import opened Words
  import opened CanPacket

  /** A frame as Python sees it: any integers, any bytes. */
  datatype Frame = Frame(address: int, dat: seq<byte>, bus: int)

  /** The exceptions of the two functions: a length that is no key of LEN_TO_DLC, a header byte
      outside 0..255, and the failed checksum assertion. */
  datatype Error = KeyError | ValueError | AssertionError

  datatype Result<+T> = Ok(value: T) | Err(error: Error)

  // ----- calculate_checksum -----

  method CalculateChecksum(data: seq<byte>) returns (res: byte)
    ensures res == Xor(data)
  {
    res := 0;
    for i := 0 to |data|
      invariant res == Xor(data[..i])
    {
      assert data[..i + 1][..i] == data[..i];
      res := res ^ data[i];
    }
    assert data[..|data|] == data;
  }

  // ----- pack_can_buffer -----

  /** The code of a data length, if it has one. */
  function LenToDlc(n: nat): (code: Result<nat>)
    ensures code.Ok? ==> code.value < 16 && DataLen(code.value) == n
    ensures code.Err? ==> code.error == KeyError && forall c: nat :: c < 16 ==> DataLen(c) != n
  {
    if n <= 8 then Ok(n)
    else if n == 12 then Ok(9)
    else if n == 16 then Ok(10)
    else if n == 20 then Ok(11)
    else if n == 24 then Ok(12)
    else if n == 32 then Ok(13)
    else if n == 48 then Ok(14)
    else if n == 64 then Ok(15)
    else Err(KeyError)
  }

  /** header[0], when it fits a byte: the code, the bus and the flag, shifted and OR-ed. */
  function FirstByteOf(code: nat, bus: int, fd: bool): Result<byte>
    requires code < 16
  {
    if 0 <= bus < 128 then
      Ok(((code as byte) << 4) | ((bus as byte) << 1) | (if fd then 1 else 0))
    else
      Err(ValueError)
  }

  /** (address << 3) | (extended << 2), for any Python integer. */
  function AddressWord(address: int): int {
    address * 8 + (if address >= 0x800 then 4 else 0)
  }

  function HeadOf(first: byte, address: int): (h: seq<byte>)
    ensures |h| == 5
  {
    [first] + LittleEndian(AddressWord(address))
  }

  /** One packed frame, or the exception it raises. */
  function PackFrame(f: Frame, fd: bool): Result<seq<byte>> {
    var code := LenToDlc(|f.dat|);
    if code.Err? then Err(code.error)
    else
      var first := FirstByteOf(code.value, f.bus, fd);
      if first.Err? then Err(first.error)
      else
        var head := HeadOf(first.value, f.address);
        Ok(head + [Xor(head + f.dat)] + f.dat)
  }

  /** All frames packed, or the first exception. */
  function PackFrames(arr: seq<Frame>, fd: bool): Result<seq<seq<byte>>> {
    if arr == [] then Ok([])
    else
      var before := PackFrames(arr[..|arr| - 1], fd);
      if before.Err? then before
      else
        var last := PackFrame(arr[|arr| - 1], fd);
        if last.Err? then Err(last.error) else Ok(before.value + [last.value])
  }

  /** The buffers that packed frames are collected in: with chunk set, one is closed once it exceeds 256 bytes. */
  function Buffers(packets: seq<seq<byte>>, chunk: bool): (snds: seq<seq<byte>>)
    ensures snds != []
  {
    if packets == [] then [[]]
    else
      var snds := Buffers(packets[..|packets| - 1], chunk);
      var last := snds[|snds| - 1] + packets[|packets| - 1];
      snds[..|snds| - 1] + [last] + (if chunk && |last| > 256 then [[]] else [])
  }

  lemma BuffersSnoc(packets: seq<seq<byte>>, header: seq<byte>, dat: seq<byte>, chunk: bool)
    ensures var snds := Buffers(packets, chunk);
            var last := snds[|snds| - 1] + header + dat;
            Buffers(packets + [header + dat], chunk)
            == snds[|snds| - 1 := last] + (if chunk && |last| > 256 then [[]] else [])
  {
    assert (packets + [header + dat])[..|packets|] == packets;
    var snds := Buffers(packets, chunk);
    Associate(snds[|snds| - 1], header, dat);
  }

  /** The header of one frame, checksum included, or the exception it raises. */
  method PackHeader(f: Frame, fd: bool) returns (header: Result<seq<byte>>)
    ensures header.Ok? ==> PackFrame(f, fd) == Ok(header.value + f.dat)
    ensures header.Err? ==> PackFrame(f, fd) == Err(header.error)
  {
    var code := LenToDlc(|f.dat|);
    if code.Err? {
      return Err(code.error);
    }
    var first := FirstByteOf(code.value, f.bus, fd);
    if first.Err? {
      return Err(first.error);
    }
    var head := HeadOf(first.value, f.address);
    var checksum := CalculateChecksum(head + f.dat);
    return Ok(head + [checksum]);
  }

  /** A packet goes into the last buffer, header first, and chunking may close it. */
  method AddPacket(snds: seq<seq<byte>>, ghost packets: seq<seq<byte>>, header: seq<byte>, dat: seq<byte>, chunk: bool)
    returns (snds': seq<seq<byte>>)
    requires snds == Buffers(packets, chunk)
    ensures snds' == Buffers(packets + [header + dat], chunk)
  {
    BuffersSnoc(packets, header, dat, chunk);
    var last := |snds| - 1;
    snds' := snds[last := snds[last] + header];
    snds' := snds'[last := snds'[last] + dat];
    if chunk && |snds'[last]| > 256 {
      snds' := snds' + [[]];
    }
  }

  /** One more frame packed. */
  lemma PackNext(arr: seq<Frame>, fd: bool, i: nat, packets: seq<seq<byte>>)
    requires i < |arr| && PackFrames(arr[..i], fd) == Ok(packets)
    ensures var last := PackFrame(arr[i], fd);
            PackFrames(arr[..i + 1], fd) == if last.Err? then Err(last.error) else Ok(packets + [last.value])
  {
    assert arr[..i + 1][..i] == arr[..i];
  }

  method PackCanBuffer(arr: seq<Frame>, chunk: bool, fd: bool) returns (r: Result<seq<seq<byte>>>)
    ensures r == var packed := PackFrames(arr, fd);
                 if packed.Err? then Err(packed.error) else Ok(Buffers(packed.value, chunk))
  {
    var snds: seq<seq<byte>> := [[]];
    ghost var packets: seq<seq<byte>> := [];
    for i := 0 to |arr|
      invariant PackFrames(arr[..i], fd) == Ok(packets) && snds == Buffers(packets, chunk)
    {
      var header := PackHeader(arr[i], fd);
      PackNext(arr, fd, i, packets);
      if header.Err? {
        PackStops(arr, fd, i + 1);
        return Err(header.error);
      }
      snds := AddPacket(snds, packets, header.value, arr[i].dat, chunk);
      packets := packets + [header.value + arr[i].dat];
    }
    assert arr[..|arr|] == arr;
    r := Ok(snds);
  }

  /** An exception part-way is the exception of the whole. */
  lemma {:induction false} PackStops(arr: seq<Frame>, fd: bool, i: nat)
    requires i <= |arr| && PackFrames(arr[..i], fd).Err?
    ensures PackFrames(arr, fd) == PackFrames(arr[..i], fd)
    decreases |arr|
  {
    if i == |arr| {
      assert arr[..i] == arr;
    } else {
      assert arr[..|arr| - 1][..i] == arr[..i];
      PackStops(arr[..|arr| - 1], fd, i);
    }
  }

  // ----- unpack_can_buffer -----

  function AddressOf(header: seq<byte>): nat
    requires |header| == HEAD_SIZE
  {
    FromLittleEndian(header[1], header[2], header[3], header[4]) / 8
  }

  /** The bus, marked by the returned and rejected bits. */
  function BusOf(header: seq<byte>): nat
    requires |header| == HEAD_SIZE
  {
    ((header[0] >> 1) & 0x7) as int
    + (if (header[1] >> 1) & 0x1 != 0 then 128 else 0)
    + (if header[1] & 0x1 != 0 then 192 else 0)
  }

  /** The frame in one packet. */
  function Decode(p: seq<byte>): Frame
    requires |p| >= HEAD_SIZE
  {
    Frame(AddressOf(p[..HEAD_SIZE]), p[HEAD_SIZE..], BusOf(p[..HEAD_SIZE]))
  }

  function DecodeAll(packets: seq<seq<byte>>): seq<Frame>
    requires forall p <- packets :: |p| >= HEAD_SIZE
  {
    if packets == [] then [] else [Decode(packets[0])] + DecodeAll(packets[1..])
  }

  predicate AllClear(packets: seq<seq<byte>>) {
    forall p <- packets :: Xor(p) == 0
  }

  lemma PacketsHaveHeads(stream: seq<byte>)
    ensures forall p <- Parse(stream).0 :: |p| >= HEAD_SIZE
  {
    ParseFramed(stream);
  }

  /** What unpacking a stream yields: the frames of its whole packets and the partial packet, or the
      assertion failure of a bad checksum. */
  function Unpack(dat: seq<byte>): Result<(seq<Frame>, seq<byte>)> {
    var (packets, rest) := Parse(dat);
    PacketsHaveHeads(dat);
    if AllClear(packets) then Ok((DecodeAll(packets), rest)) else Err(AssertionError)
  }

  method ReadBus(header: seq<byte>) returns (bus: int)
    requires |header| == HEAD_SIZE
    ensures bus == BusOf(header)
  {
    bus := ((header[0] >> 1) & 0x7) as int;
    if (header[1] >> 1) & 0x1 != 0 {
      bus := bus + 128;
    }
    if header[1] & 0x1 != 0 {
      bus := bus + 192;
    }
  }

  /** The checksum and the frame of one packet. */
  method ReadPacket(p: seq<byte>) returns (checksum: byte, frame: Frame)
    requires |p| >= HEAD_SIZE
    ensures checksum == Xor(p) && frame == Decode(p)
  {
    var header := p[..HEAD_SIZE];
    var bus := ReadBus(header);
    var address := AddressOf(header);
    checksum := CalculateChecksum(p);
    frame := Frame(address, p[HEAD_SIZE..], bus);
  }

  /** One more whole packet moves from the unread bytes to the packets done. */
  lemma ParseStep(dat0: seq<byte>, done: seq<seq<byte>>, dat: seq<byte>)
    requires dat != [] && PacketLen(dat[0]) <= |dat|
    requires Parse(dat0) == (done + Parse(dat).0, Parse(dat).1)
    ensures var n := PacketLen(dat[0]);
            && Parse(dat0) == ((done + [dat[..n]]) + Parse(dat[n..]).0, Parse(dat[n..]).1)
            && dat[..n] in Parse(dat0).0
  {
    var n := PacketLen(dat[0]);
    var rest := Parse(dat[n..]).0;
    assert Parse(dat).0 == [dat[..n]] + rest;
    assert done + ([dat[..n]] + rest) == (done + [dat[..n]]) + rest;
    assert ((done + [dat[..n]]) + rest)[|done|] == dat[..n];
  }

  method UnpackCanBuffer(dat0: seq<byte>) returns (r: Result<(seq<Frame>, seq<byte>)>)
    ensures r == Unpack(dat0)
  {
    var dat := dat0;
    var ret: seq<Frame> := [];
    ghost var done: seq<seq<byte>> := [];
    assert [] + Parse(dat0).0 == Parse(dat0).0;
    while |dat| >= HEAD_SIZE
      invariant forall p <- done :: |p| >= HEAD_SIZE && Xor(p) == 0
      invariant Parse(dat0) == (done + Parse(dat).0, Parse(dat).1)
      invariant ret == DecodeAll(done)
      decreases |dat|
    {
      var dataLen := DataLen(LengthCode(dat[0]));
      if dataLen > |dat| - HEAD_SIZE {
        break;
      }
      var checksum, frame := ReadPacket(dat[..HEAD_SIZE + dataLen]);
      ParseStep(dat0, done, dat);
      if checksum != 0 {
        return Err(AssertionError);
      }
      DecodeAllSnoc(done, dat[..HEAD_SIZE + dataLen]);
      done := done + [dat[..HEAD_SIZE + dataLen]];
      dat := dat[HEAD_SIZE + dataLen..];
      ret := ret + [frame];
    }
    assert Parse(dat) == ([], dat);
    assert done + [] == done;
    r := Ok((ret, dat));
  }

  /** How one bulk read ends: an I/O or overflow error of the USB library, or the bytes received. */
  datatype BulkRead = UsbError | Data(dat: seq<byte>)

  /** The part of the Python object that can_recv updates. */
  class Panda {
    var canRxOverflowBuffer: seq<byte>

    constructor ()
      ensures canRxOverflowBuffer == []
    {
      canRxOverflowBuffer := [];
    }

    /** can_recv, given what the bulk reads will return; a failed one is tried again, and on a failed assertion
        the overflow stays as it was. */
    method CanRecv(bulkReads: seq<BulkRead>) returns (msgs: Result<seq<Frame>>, n: nat)
      requires exists i :: 0 <= i < |bulkReads| && bulkReads[i].Data?
      modifies this
      ensures n < |bulkReads| && bulkReads[n].Data? && forall i :: 0 <= i < n ==> bulkReads[i].UsbError?
      ensures var r := Unpack(old(canRxOverflowBuffer) + bulkReads[n].dat);
              if r.Ok? then msgs == Ok(r.value.0) && canRxOverflowBuffer == r.value.1
              else msgs == Err(r.error) && canRxOverflowBuffer == old(canRxOverflowBuffer)
    {
      n := 0;
      while bulkReads[n].UsbError?
        invariant n < |bulkReads| && forall i :: 0 <= i < n ==> bulkReads[i].UsbError?
        invariant exists i :: n <= i < |bulkReads| && bulkReads[i].Data?
        decreases |bulkReads| - n
      {
        n := n + 1;
      }
      var r := UnpackCanBuffer(canRxOverflowBuffer + bulkReads[n].dat);
      if r.Err? {
        return Err(r.error), n;
      }
      canRxOverflowBuffer := r.value.1;
      return Ok(r.value.0), n;
    }
  }

  lemma {:induction false} DecodeAllSnoc(ps: seq<seq<byte>>, p: seq<byte>)
    requires forall q <- ps :: |q| >= HEAD_SIZE
    requires |p| >= HEAD_SIZE
    ensures DecodeAll(ps + [p]) == DecodeAll(ps) + [Decode(p)]
  {
    DecodeAllConcat(ps, [p]);
    assert DecodeAll([p]) == [Decode(p)] by {
      assert [p][1..] == [];
    }
  }

  lemma DecodeAllCons(p: seq<byte>, qs: seq<seq<byte>>)
    requires |p| >= HEAD_SIZE && forall q <- qs :: |q| >= HEAD_SIZE
    ensures DecodeAll([p] + qs) == [Decode(p)] + DecodeAll(qs)
  {
    assert ([p] + qs)[1..] == qs;
  }

  lemma {:induction false} DecodeAllConcat(ps: seq<seq<byte>>, qs: seq<seq<byte>>)
    requires forall q <- ps :: |q| >= HEAD_SIZE
    requires forall q <- qs :: |q| >= HEAD_SIZE
    ensures DecodeAll(ps + qs) == DecodeAll(ps) + DecodeAll(qs)
  {
    if ps == [] {
      assert ps + qs == qs;
    } else {
      assert forall q <- ps[1..] :: q in ps;
      DecodeAllConcat(ps[1..], qs);
      DecodeAllCons(ps[0], ps[1..] + qs);
      Associate([ps[0]], ps[1..], qs);
      assert ps == [ps[0]] + ps[1..];
      Associate([Decode(ps[0])], DecodeAll(ps[1..]), DecodeAll(qs));
    }
  }

  // ----- what packing keeps -----

  /** Chunking loses nothing: the buffers hold the packets in order. */
  lemma {:induction false} BuffersFlatten(packets: seq<seq<byte>>, chunk: bool)
    ensures Flatten(Buffers(packets, chunk)) == Flatten(packets)
  {
    if packets != [] {
      var k := |packets| - 1;
      var snds, p := Buffers(packets[..k], chunk), packets[k];
      BuffersFlatten(packets[..k], chunk);
      FlattenLast(packets, k);
      LastGrown(snds, p);
      var grown := snds[..|snds| - 1] + [snds[|snds| - 1] + p];
      EmptyLast(grown);
      assert grown + [] == grown;
    }
  }

  lemma FlattenLast(xs: seq<seq<byte>>, k: nat)
    requires |xs| == k + 1
    ensures Flatten(xs) == Flatten(xs[..k]) + xs[k]
  {
    assert xs == xs[..k] + [xs[k]];
    FlattenSnoc(xs[..k], xs[k]);
  }

  /** Bytes added to the last buffer come last. */
  lemma LastGrown(snds: seq<seq<byte>>, p: seq<byte>)
    requires snds != []
    ensures var k := |snds| - 1; Flatten(snds[..k] + [snds[k] + p]) == Flatten(snds) + p
  {
    var k := |snds| - 1;
    FlattenLast(snds, k);
    FlattenSnoc(snds[..k], snds[k] + p);
    Associate(Flatten(snds[..k]), snds[k], p);
  }

  lemma EmptyLast(snds: seq<seq<byte>>)
    ensures Flatten(snds + [[]]) == Flatten(snds)
  {
    FlattenSnoc(snds, []);
  }

  /** Without chunk there is one buffer; with it every closed buffer holds 257 to 326 bytes and the
      open one at most 256. */
  lemma {:induction false} BufferSizes(packets: seq<seq<byte>>, chunk: bool)
    requires forall p <- packets :: |p| <= 70
    ensures !chunk ==> |Buffers(packets, chunk)| == 1
    ensures chunk ==> var snds := Buffers(packets, chunk);
                      && |snds[|snds| - 1]| <= 256
                      && forall i :: 0 <= i < |snds| - 1 ==> 256 < |snds[i]| <= 326
  {
    if packets != [] {
      var k := |packets| - 1;
      assert forall p <- packets[..k] :: p in packets;
      BufferSizes(packets[..k], chunk);
      assert packets[k] in packets;
    }
  }

  // ----- the frames that survive the trip -----

  /** A frame that a 29-bit address, a 3-bit bus and the length table can carry. */
  predicate InRange(f: Frame) {
    0 <= f.address < 0x2000_0000 && 0 <= f.bus < 8 && LenToDlc(|f.dat|).Ok?
  }

  /** The packet a frame in range is meant to become. */
  function PacketOf(f: Frame, fd: bool): (p: Packet)
    requires InRange(f)
    ensures p.Valid() && Trimmed(p)
  {
    var code := LenToDlc(|f.dat|).value;
    var extended := if f.address >= 0x800 then 1 else 0;
    var p := Packet(if fd then 1 else 0, f.bus, code, 0, 0, extended, f.address, 0,
                    f.dat + seq(64 - |f.dat|, _ => 0));
    p.(checksum := Xor([p.First()] + LittleEndian(p.AddrWord()) + f.dat))
  }

  lemma OrIsSum(c: byte, b: byte, f: byte)
    requires c < 16 && b < 8 && f < 2
    ensures ((c << 4) | (b << 1) | f) as int == c as int * 16 + b as int * 2 + f as int
  {}

  lemma SmallByte(x: nat, bound: nat)
    requires x < bound < 256
    ensures (x as byte) as int == x
    ensures (x as byte) < (bound as byte)
  {
    ByteRoundTrip(x);
    ByteRoundTrip(bound);
    ByteOrder(x as byte, bound as byte);
  }

  lemma ByteOrder(x: byte, y: byte)
    requires x as int < y as int
    ensures x < y
  {}

  lemma OrFields(c: byte, b: byte, f: byte, x: nat)
    requires c < 16 && b < 8 && f < 2 && x == f as int + 2 * b as int + 16 * c as int
    ensures x < 256 && (c << 4) | (b << 1) | f == x as byte
  {
    OrIsSum(c, b, f);
    ByteRoundTrip(x);
    SameByte((c << 4) | (b << 1) | f, x as byte);
  }

  /** The shifted and OR-ed first byte is the bit fields of the structure. */
  lemma FirstByteFields(code: nat, bus: nat, fd: bool)
    requires code < 16 && bus < 8
    ensures FirstByteOf(code, bus, fd) == Ok(((if fd then 1 else 0) + 2 * bus + 16 * code) as byte)
  {
    SmallByte(code, 16);
    SmallByte(bus, 8);
    var flag := if fd then 1 else 0;
    SmallByte(flag, 2);
    OrFields(code as byte, bus as byte, flag as byte, flag + 2 * bus + 16 * code);
  }

  lemma SameAddressWord(address: int, extended: nat)
    requires extended == if address >= 0x800 then 1 else 0
    ensures AddressWord(address) == 4 * extended + 8 * address
  {}

  lemma FrontPart(dat: seq<byte>, zeros: seq<byte>)
    ensures (dat + zeros)[..|dat|] == dat
  {}

  lemma PacketData(f: Frame, fd: bool)
    requires InRange(f)
    ensures PacketOf(f, fd).data[..|f.dat|] == f.dat
  {
    FrontPart(f.dat, seq(64 - |f.dat|, _ => 0));
  }

  lemma PacketSum(f: Frame, fd: bool)
    requires InRange(f)
    ensures var p := PacketOf(f, fd); p.checksum == Xor([p.First()] + LittleEndian(p.AddrWord()) + f.dat)
  {}

  lemma PacketHead(f: Frame, fd: bool)
    requires InRange(f)
    ensures var p := PacketOf(f, fd);
            && LenToDlc(|f.dat|) == Ok(p.dataLenCode) && DataLen(p.dataLenCode) == |f.dat|
            && p.First() == ((if fd then 1 else 0) + 2 * f.bus + 16 * p.dataLenCode) as byte
            && p.AddrWord() == AddressWord(f.address)
  {
    SameAddressWord(f.address, PacketOf(f, fd).extended);
  }

  lemma PacketOfFields(f: Frame, fd: bool)
    requires InRange(f)
    ensures var p := PacketOf(f, fd);
            && LenToDlc(|f.dat|) == Ok(p.dataLenCode) && DataLen(p.dataLenCode) == |f.dat|
            && p.First() == ((if fd then 1 else 0) + 2 * f.bus + 16 * p.dataLenCode) as byte
            && p.AddrWord() == AddressWord(f.address)
            && p.data[..|f.dat|] == f.dat
            && p.checksum == Xor([p.First()] + LittleEndian(p.AddrWord()) + f.dat)
  {
    PacketData(f, fd);
    PacketSum(f, fd);
    PacketHead(f, fd);
  }

  /** The serialised form of a packet whose checksum is that of its other bytes. */
  lemma SerializedForm(p: Packet, head: seq<byte>, dat: seq<byte>)
    requires p.Valid() && head == [p.First()] + LittleEndian(p.AddrWord())
    requires dat == p.data[..DataLen(p.dataLenCode)] && p.checksum == Xor(head + dat)
    ensures p.Serialized() == head + [Xor(head + dat)] + dat && Xor(p.Serialized()) == 0
  {
    ChecksumClears(head, dat);
  }

  /** Packing a frame in range lays out exactly the bytes of its packet, checksum included. */
  lemma PackedIsSerialized(f: Frame, fd: bool)
    requires InRange(f)
    ensures PackFrame(f, fd) == Ok(PacketOf(f, fd).Serialized())
    ensures Xor(PacketOf(f, fd).Serialized()) == 0
  {
    PacketOfFields(f, fd);
    PackedForm(f, fd, PacketOf(f, fd));
  }

  lemma PackedForm(f: Frame, fd: bool, p: Packet)
    requires p.Valid() && 0 <= f.bus < 8 && LenToDlc(|f.dat|) == Ok(p.dataLenCode) && DataLen(p.dataLenCode) == |f.dat|
    requires p.First() == ((if fd then 1 else 0) + 2 * f.bus + 16 * p.dataLenCode) as byte
    requires p.AddrWord() == AddressWord(f.address) && p.data[..|f.dat|] == f.dat
    requires p.checksum == Xor([p.First()] + LittleEndian(p.AddrWord()) + f.dat)
    ensures PackFrame(f, fd) == Ok(p.Serialized()) && Xor(p.Serialized()) == 0
  {
    FirstByteFields(p.dataLenCode, f.bus, fd);
    SerializedForm(p, HeadOf(p.First(), f.address), f.dat);
  }

  // ----- what a device packet decodes to -----

  /** The frame the host sees of a packet. */
  function HostFrame(p: Packet): Frame
    requires p.Valid()
  {
    Frame(p.addr, p.data[..DataLen(p.dataLenCode)], p.bus + 128 * p.returned + 192 * p.rejected)
  }

  lemma LowBit(x: byte)
    ensures (x & 1) as int == x as int % 2
  {}

  lemma ShiftOne(x: byte)
    ensures (x >> 1) as int == x as int / 2
  {}

  lemma LowThree(x: byte)
    ensures (x & 7) as int == x as int % 8
  {}

  lemma FlagBits(x: byte)
    ensures x & 1 != 0 <==> x as int % 2 == 1
    ensures (x >> 1) & 1 != 0 <==> x as int / 2 % 2 == 1
    ensures ((x >> 1) & 7) as int == x as int / 2 % 8
  {
    LowBit(x);
    LowBit(x >> 1);
    ShiftOne(x);
    LowThree(x >> 1);
  }

  lemma ByteFlags(w: nat)
    ensures w % 0x100 % 2 == w % 2 && w % 0x100 / 2 % 2 == w / 2 % 2
  {
    var q, r := w / 0x100, w % 0x100;
    DivModUnique(w, 2, 0x80 * q + r / 2, r % 2);
    DivModUnique(w / 2, 2, 0x40 * q + r / 2 / 2, r / 2 % 2);
  }

  /** Unpacking reads every field of a serialised packet back. */
  lemma DecodeSerialized(p: Packet)
    requires p.Valid()
    ensures Decode(p.Serialized()) == HostFrame(p)
  {
    var bs, w := p.Serialized(), p.AddrWord();
    var le := LittleEndian(w);
    assert bs[..HEAD_SIZE] == p.Header() && bs[HEAD_SIZE..] == p.data[..DataLen(p.dataLenCode)];
    LittleEndianRoundTrip(w);
    SplitFields(p);
    FirstByte(p);
    FlagBits(p.First());
    FlagBits(le[0]);
    ByteRoundTrip(w % 0x100);
    ByteFlags(w);
  }

  // ----- the layout in numbers -----

  lemma XorLast(front: seq<byte>, bs: seq<byte>, b: byte, x: byte)
    requires bs == front + [b] && Xor(front) == x
    ensures Xor(bs) == x ^ b
  {
    assert bs[..|bs| - 1] == front;
  }

  lemma XorOne(b: byte)
    ensures Xor([b]) == b
  {
    XorLast([], [b], b, 0);
  }

  lemma XorTwo(b0: byte, b1: byte)
    ensures Xor([b0, b1]) == b0 ^ b1
  {
    XorOne(b0);
    XorLast([b0], [b0, b1], b1, b0);
  }

  lemma XorThree(b0: byte, b1: byte, b2: byte)
    ensures Xor([b0, b1, b2]) == b0 ^ b1 ^ b2
  {
    XorTwo(b0, b1);
    XorLast([b0, b1], [b0, b1, b2], b2, b0 ^ b1);
  }

  /** The sum of a header with the given parts. */
  lemma XorHead(first: byte, b1: byte, b2: byte, rest: seq<byte>)
    requires rest == [0, 0]
    ensures Xor([first, b1, b2, 0, 0]) == first ^ b1 ^ b2
  {
    XorThree(first, b1, b2);
    XorTwo(0, 0);
    XorConcat([first, b1, b2], rest);
    assert [first, b1, b2] + rest == [first, b1, b2, 0, 0];
    XorRules(first ^ b1 ^ b2, 0, 0);
  }

  /** A frame whose header and checksum are known. */
  lemma PackedAs(f: Frame, fd: bool, head: seq<byte>, sum: byte)
    requires LenToDlc(|f.dat|).Ok? && FirstByteOf(LenToDlc(|f.dat|).value, f.bus, fd).Ok?
    requires HeadOf(FirstByteOf(LenToDlc(|f.dat|).value, f.bus, fd).value, f.address) == head
    requires Xor(head) ^ Xor(f.dat) == sum
    ensures PackFrame(f, fd) == Ok(head + [sum] + f.dat)
  {
    XorConcat(head, f.dat);
  }

  lemma HeadAs(first: byte, address: int, b1: byte, b2: byte, b3: byte, b4: byte)
    requires LittleEndian(AddressWord(address)) == [b1, b2, b3, b4]
    ensures HeadOf(first, address) == [first, b1, b2, b3, b4]
  {}

  lemma ByteIs(x: int, b: byte)
    requires x == b as int
    ensures 0 <= x < 256 && x as byte == b
  {
    ByteRoundTrip(x);
    SameByte(x as byte, b);
  }

  lemma TwoDigits(w: int, low: int, high: int)
    requires 0 <= low < 0x100 && 0 <= high < 0x100 && w == low + 0x100 * high
    ensures w % 0x100 == low && w / 0x100 % 0x100 == high && w / 0x10000 % 0x100 == 0 && w / 0x1000000 % 0x100 == 0
  {
    DivModUnique(w, 0x100, high, low);
  }

  /** The bytes of a word of two bytes. */
  lemma TwoByteWord(w: nat, low: byte, high: byte)
    requires w == low as int + 0x100 * (high as int)
    ensures LittleEndian(w) == [low, high, 0x00, 0x00]
  {
    TwoDigits(w, low as int, high as int);
    ByteIs(w % 0x100, low);
    ByteIs(w / 0x100 % 0x100, high);
    ByteIs(w / 0x10000 % 0x100, 0x00);
    ByteIs(w / 0x1000000 % 0x100, 0x00);
  }

  lemma FirstBytes()
    ensures FirstByteOf(0, 0, false) == Ok(0x00) && FirstByteOf(1, 2, true) == Ok(0x15)
  {}

  /** A standard frame on bus 0. */
  lemma PackedStandard()
    ensures PackFrame(Frame(0x123, [], 0), false) == Ok([0x00, 0x18, 0x09, 0x00, 0x00, 0x11])
  {
    FirstBytes();
    TwoByteWord(0x0918, 0x18, 0x09);
    HeadAs(0x00, 0x123, 0x18, 0x09, 0x00, 0x00);
    XorHead(0x00, 0x18, 0x09, [0x00, 0x00]);
    PackedAs(Frame(0x123, [], 0), false, [0x00, 0x18, 0x09, 0x00, 0x00], 0x11);
    assert [0x00, 0x18, 0x09, 0x00, 0x00] + [0x11] + [] == [0x00, 0x18, 0x09, 0x00, 0x00, 0x11 as byte];
  }

  /** The last standard address. */
  lemma PackedLongest()
    ensures PackFrame(Frame(0x7FF, [], 0), false) == Ok([0x00, 0xF8, 0x3F, 0x00, 0x00, 0xC7])
  {
    FirstBytes();
    TwoByteWord(0x3FF8, 0xF8, 0x3F);
    HeadAs(0x00, 0x7FF, 0xF8, 0x3F, 0x00, 0x00);
    XorHead(0x00, 0xF8, 0x3F, [0x00, 0x00]);
    PackedAs(Frame(0x7FF, [], 0), false, [0x00, 0xF8, 0x3F, 0x00, 0x00], 0xC7);
    assert [0x00, 0xF8, 0x3F, 0x00, 0x00] + [0xC7] + [] == [0x00, 0xF8, 0x3F, 0x00, 0x00, 0xC7 as byte];
  }

  /** The first extended address, with a data byte and the FD flag on bus 2. */
  lemma PackedExtended()
    ensures PackFrame(Frame(0x800, [0xAB], 2), true) == Ok([0x15, 0x04, 0x40, 0x00, 0x00, 0xFA, 0xAB])
  {
    FirstBytes();
    TwoByteWord(0x4004, 0x04, 0x40);
    HeadAs(0x15, 0x800, 0x04, 0x40, 0x00, 0x00);
    XorHead(0x15, 0x04, 0x40, [0x00, 0x00]);
    XorOne(0xAB);
    PackedAs(Frame(0x800, [0xAB], 2), true, [0x15, 0x04, 0x40, 0x00, 0x00], 0xFA);
    assert [0x15, 0x04, 0x40, 0x00, 0x00] + [0xFA] + [0xAB] == [0x15, 0x04, 0x40, 0x00, 0x00, 0xFA, 0xAB as byte];
  }

  /** A frame that came back from bus 2, and one that was rejected there. */
  lemma MarkedBytes()
    ensures Decode([0x04, 0x1A, 0x09, 0x00, 0x00, 0x17]) == Frame(0x123, [], 130)
    ensures Decode([0x04, 0x19, 0x09, 0x00, 0x00, 0x14]) == Frame(0x123, [], 194)
  {}
}
