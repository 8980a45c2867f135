/** The two ends of the CAN transport together: what the host packs the device sends, and what the
    device puts out the host recovers, however the bytes are cut on the way. */
module CanTransport {
  import opened Words
  import opened CanPacket
  import opened CanComms
  import opened PandaHost

  // ----- host to device -----

  /** Successive transfers into comms_can_write: the structures sent, and the packet left pending. */
  function WriteAll(pending: seq<byte>, transfers: seq<seq<byte>>): (seq<seq<byte>>, seq<byte>) {
    if transfers == [] then ([], pending)
    else
      var before := WriteAll(pending, transfers[..|transfers| - 1]);
      var stream := before.1 + transfers[|transfers| - 1];
      (before.0 + Sends(stream), Parse(stream).1)
  }

  lemma SendsConcat(x: seq<byte>, y: seq<byte>)
    ensures Sends(x + y) == Sends(x) + Sends(Parse(x).1 + y)
  {
    ParseConcat(x, y);
    ParsedFit(x);
    ParsedFit(Parse(x).1 + y);
    FillAllConcat(Parse(x).0, Parse(Parse(x).1 + y).0);
  }

  lemma OneMoreTransfer(stream: seq<byte>, last: seq<byte>)
    ensures var whole := Parse(stream).1 + last;
            (Sends(stream) + Sends(whole), Parse(whole).1) == (Sends(stream + last), Parse(stream + last).1)
  {
    SendsConcat(stream, last);
    ParseConcat(stream, last);
  }

  /** However a byte stream is cut into transfers, the device sends and keeps what one transfer of the
      whole would make it send and keep. */
  lemma {:induction false} CutsDoNotMatter(transfers: seq<seq<byte>>)
    ensures WriteAll([], transfers) == (Sends(Flatten(transfers)), Parse(Flatten(transfers)).1)
  {
    if transfers != [] {
      var before, last := transfers[..|transfers| - 1], transfers[|transfers| - 1];
      CutsDoNotMatter(before);
      OneMoreTransfer(Flatten(before), last);
      FlattenLast(transfers, |transfers| - 1);
    }
  }

  predicate AllInRange(arr: seq<Frame>) {
    forall f <- arr :: InRange(f)
  }

  function PacketsOf(arr: seq<Frame>, fd: bool): (ps: seq<Packet>)
    requires AllInRange(arr)
    ensures |ps| == |arr| && forall i :: 0 <= i < |arr| ==> ps[i].Valid() && Trimmed(ps[i])
  {
    seq(|arr|, i requires 0 <= i < |arr| => PacketOf(arr[i], fd))
  }

  lemma WireSnoc(ps: seq<Packet>, p: Packet)
    requires forall q <- ps :: q.Valid()
    requires p.Valid()
    ensures Wire(ps + [p]) == Wire(ps) + [p.Serialized()]
  {}

  lemma PacketsOfSnoc(arr: seq<Frame>, f: Frame, fd: bool)
    requires AllInRange(arr) && InRange(f)
    ensures AllInRange(arr + [f]) && PacketsOf(arr + [f], fd) == PacketsOf(arr, fd) + [PacketOf(f, fd)]
  {}

  /** Frames in range always pack, each into the serialised form of its packet. */
  lemma {:induction false} PackFramesInRange(arr: seq<Frame>, fd: bool)
    requires AllInRange(arr)
    ensures PackFrames(arr, fd) == Ok(Wire(PacketsOf(arr, fd)))
  {
    if arr != [] {
      var before, last := arr[..|arr| - 1], arr[|arr| - 1];
      assert forall f <- before :: f in arr;
      assert last in arr;
      assert arr == before + [last];
      PackFramesInRange(before, fd);
      PackedIsSerialized(last, fd);
      PacketsOfSnoc(before, last, fd);
      WireSnoc(PacketsOf(before, fd), PacketOf(last, fd));
    }
  }

  lemma WireFramed(ps: seq<Packet>)
    requires forall p <- ps :: p.Valid()
    ensures WellFramed(Wire(ps))
  {
    forall bs | bs in Wire(ps)
      ensures bs != [] && |bs| == PacketLen(bs[0])
    {
      var i :| 0 <= i < |ps| && bs == Wire(ps)[i];
      FirstByte(ps[i]);
    }
  }

  /** Every packet is filled up on its own. */
  lemma {:induction false} FillAllAt(packets: seq<seq<byte>>)
    requires forall p <- packets :: |p| <= STRUCT_SIZE
    ensures |FillAll(packets)| == |packets|
    ensures forall i :: 0 <= i < |packets| ==> FillAll(packets)[i] == ZeroFilled(packets[i])
  {
    if packets != [] {
      assert forall p <- packets[1..] :: p in packets;
      FillAllAt(packets[1..]);
    }
  }

  lemma WireFits(ps: seq<Packet>)
    requires forall p <- ps :: p.Valid()
    ensures forall bs <- Wire(ps) :: |bs| <= STRUCT_SIZE
  {}

  /** The structures of a list of packets, read back through their bit fields. */
  lemma FilledFields(ps: seq<Packet>)
    requires forall p <- ps :: p.Valid() && Trimmed(p)
    ensures |FillAll(Wire(ps))| == |ps|
    ensures forall i :: 0 <= i < |ps| ==> |FillAll(Wire(ps))[i]| == STRUCT_SIZE && Fields(FillAll(Wire(ps))[i]) == ps[i]
  {
    WireFits(ps);
    FillAllAt(Wire(ps));
    forall i | 0 <= i < |ps|
      ensures |FillAll(Wire(ps))[i]| == STRUCT_SIZE && Fields(FillAll(Wire(ps))[i]) == ps[i]
    {
      assert ps[i] in ps;
      FieldsOfSerialized(ps[i]);
    }
  }

  /** Whole packets cut into any transfers are sent as they are, and nothing stays pending. */
  lemma WholePacketsSent(packets: seq<seq<byte>>, transfers: seq<seq<byte>>)
    requires WellFramed(packets) && Flatten(transfers) == Flatten(packets)
    ensures forall p <- packets :: |p| <= STRUCT_SIZE
    ensures WriteAll([], transfers) == (FillAll(packets), [])
  {
    CutsDoNotMatter(transfers);
    ParseUnique(packets, []);
    assert Flatten(packets) + [] == Flatten(packets);
  }

  /** Frames in range, packed by the host with or without chunking and cut into any transfers, make the
      device send one structure per frame, in order, whose bit fields are the frame's, and leave nothing
      pending. */
  lemma HostToDevice(arr: seq<Frame>, chunk: bool, fd: bool, transfers: seq<seq<byte>>)
    requires AllInRange(arr)
    requires PackFrames(arr, fd).Ok?
    requires Flatten(transfers) == Flatten(Buffers(PackFrames(arr, fd).value, chunk))
    ensures var (sends, pending) := WriteAll([], transfers);
            && pending == [] && |sends| == |arr|
            && forall i :: 0 <= i < |arr| ==> |sends[i]| == STRUCT_SIZE && Fields(sends[i]) == PacketOf(arr[i], fd)
  {
    var ps := PacketsOf(arr, fd);
    PackFramesInRange(arr, fd);
    BuffersFlatten(Wire(ps), chunk);
    WireFramed(ps);
    WholePacketsSent(Wire(ps), transfers);
    FilledFields(ps);
  }

  // ----- device to host -----

  /** Successive calls of can_recv: the messages so far and the overflow carried over, or the assertion
      failure of unpack_can_buffer. */
  function RecvAll(pulls: seq<seq<byte>>): Result<(seq<Frame>, seq<byte>)> {
    if pulls == [] then Ok(([], []))
    else
      var before := RecvAll(pulls[..|pulls| - 1]);
      if before.Err? then before
      else
        var r := Unpack(before.value.1 + pulls[|pulls| - 1]);
        if r.Err? then r else Ok((before.value.0 + r.value.0, r.value.1))
  }

  /** Reading in pieces, with the overflow carried over, is unpacking the whole. */
  lemma {:induction false} ReadsDoNotMatter(pulls: seq<seq<byte>>)
    ensures RecvAll(pulls) == Unpack(Flatten(pulls))
  {
    if pulls == [] {
      assert Parse([]) == ([], []);
    } else {
      var before, last := pulls[..|pulls| - 1], pulls[|pulls| - 1];
      ReadsDoNotMatter(before);
      FlattenSnoc(before, last);
      assert pulls == before + [last];
      UnpackConcat(Flatten(before), last);
    }
  }

  lemma UnpackConcat(x: seq<byte>, y: seq<byte>)
    ensures Unpack(x + y) ==
            if Unpack(x).Err? then Err(AssertionError)
            else
              var r := Unpack(Unpack(x).value.1 + y);
              if r.Err? then r else Ok((Unpack(x).value.0 + r.value.0, r.value.1))
  {
    var ps, rest := Parse(x).0, Parse(x).1;
    var qs := Parse(rest + y).0;
    ParseConcat(x, y);
    PacketsHaveHeads(x);
    PacketsHaveHeads(rest + y);
    DecodeAllConcat(ps, qs);
    AllClearConcat(ps, qs);
  }

  lemma AllClearConcat(ps: seq<seq<byte>>, qs: seq<seq<byte>>)
    ensures AllClear(ps + qs) <==> AllClear(ps) && AllClear(qs)
  {
    if AllClear(ps + qs) {
      assert forall p <- ps :: p in ps + qs;
      assert forall q <- qs :: q in ps + qs;
    }
  }

  predicate Checksummed(ps: seq<Packet>) {
    forall p <- ps :: p.Valid() && Xor(p.Serialized()) == 0
  }

  function HostFrames(ps: seq<Packet>): (fs: seq<Frame>)
    requires forall p <- ps :: p.Valid()
    ensures |fs| == |ps|
  {
    seq(|ps|, i requires 0 <= i < |ps| => HostFrame(ps[i]))
  }

  lemma HostFramesTail(ps: seq<Packet>)
    requires ps != [] && forall p <- ps :: p.Valid()
    ensures HostFrames(ps) == [HostFrame(ps[0])] + HostFrames(ps[1..])
  {}

  lemma {:induction false} DecodeWire(ps: seq<Packet>)
    requires forall p <- ps :: p.Valid()
    ensures forall bs <- Wire(ps) :: |bs| >= HEAD_SIZE
    ensures DecodeAll(Wire(ps)) == HostFrames(ps)
  {
    if ps != [] {
      WireTail(ps);
      assert forall p <- ps[1..] :: p in ps;
      assert ps[0] in ps;
      DecodeWire(ps[1..]);
      DecodeSerialized(ps[0]);
      HostFramesTail(ps);
    }
  }

  /** What a front part of the bytes of whole, clear packets unpacks to: those that are whole in it. */
  lemma UnpackPrefix(w: seq<seq<byte>>, out: seq<byte>, rest: seq<byte>) returns (n: nat)
    requires WellFramed(w) && AllClear(w) && Flatten(w) == out + rest
    ensures n <= |w| && forall bs <- w[..n] :: |bs| >= HEAD_SIZE
    ensures Unpack(out) == Ok((DecodeAll(w[..n]), Parse(out).1))
    ensures out == Flatten(w[..n]) + Parse(out).1
    ensures rest == [] ==> n == |w| && Parse(out).1 == []
  {
    var done := Parse(out).0;
    n := |done|;
    ParseUnique(w, []);
    assert Flatten(w) + [] == Flatten(w);
    ParseConcat(out, rest);
    assert w[..n] == done;
    ParseSound(out);
    assert forall bs <- done :: bs in w;
    if rest == [] {
      assert out == Flatten(w);
    }
  }

  lemma WirePrefix(ps: seq<Packet>, n: nat)
    requires (forall p <- ps :: p.Valid()) && n <= |ps|
    ensures forall p <- ps[..n] :: p.Valid()
    ensures Wire(ps[..n]) == Wire(ps)[..n]
  {}

  lemma WireClear(ps: seq<Packet>)
    requires Checksummed(ps)
    ensures AllClear(Wire(ps))
  {
    forall bs | bs in Wire(ps)
      ensures Xor(bs) == 0
    {
      var i :| 0 <= i < |ps| && bs == Wire(ps)[i];
      assert ps[i] in ps;
    }
  }

  /** Well-checksummed packets that arrive at the device while the host asks for bytes in any amounts,
      and the bytes received in any pieces: the host never sees a bad checksum, has recovered exactly the
      frames of a front part of the packets, and once the device is drained all of them, with an empty
      overflow buffer. */
  lemma DeviceToHost(ps: seq<Packet>, events: seq<Event>, pulls: seq<seq<byte>>)
    requires Checksummed(ps)
    requires forall e <- events :: e.Valid()
    requires Run(IDLE, events).arrived == Wire(ps)
    requires Flatten(pulls) == Run(IDLE, events).out
    ensures var d := Run(IDLE, events);
            exists n :: 0 <= n <= |ps|
                     && RecvAll(pulls) == Ok((HostFrames(ps[..n]), Parse(d.out).1))
                     && d.out == Flatten(Wire(ps[..n])) + Parse(d.out).1
                     && (d.tail == [] && d.queue == [] ==> n == |ps| && Parse(d.out).1 == [])
  {
    var d := Run(IDLE, events);
    RunConserves(events);
    ReadsDoNotMatter(pulls);
    WireFramed(ps);
    WireClear(ps);
    var n := UnpackPrefix(Wire(ps), d.out, d.tail + Flatten(d.queue));
    WirePrefix(ps, n);
    DecodeWire(ps[..n]);
  }

  // ----- a packet that was damaged -----

  /** A stream unpacks exactly when every whole packet in it sums to zero. */
  lemma UnpacksExactly(packets: seq<seq<byte>>, rest: seq<byte>)
    requires WellFramed(packets) && Partial(rest)
    ensures Unpack(Flatten(packets) + rest).Ok? <==> AllClear(packets)
    ensures Unpack(Flatten(packets) + rest).Err? ==> Unpack(Flatten(packets) + rest) == Err(AssertionError)
  {
    ParseUnique(packets, rest);
  }

  /** One byte of one packet is another, the length code still being the same. */
  function Damaged(packets: seq<seq<byte>>, j: nat, i: nat, b: byte): seq<seq<byte>>
    requires j < |packets| && i < |packets[j]|
  {
    packets[j := packets[j][i := b]]
  }

  lemma DamagedFramed(packets: seq<seq<byte>>, j: nat, i: nat, b: byte)
    requires WellFramed(packets) && j < |packets| && i < |packets[j]|
    requires i == 0 ==> LengthCode(b) == LengthCode(packets[j][0])
    ensures WellFramed(Damaged(packets, j, i, b))
  {
    forall p | p in Damaged(packets, j, i, b)
      ensures p != [] && |p| == PacketLen(p[0])
    {
      var k :| 0 <= k < |packets| && p == Damaged(packets, j, i, b)[k];
      assert packets[k] in packets;
    }
  }

  lemma DamagedNotClear(packets: seq<seq<byte>>, j: nat, i: nat, b: byte)
    requires AllClear(packets) && j < |packets| && i < |packets[j]| && b != packets[j][i]
    ensures !AllClear(Damaged(packets, j, i, b))
  {
    var p := packets[j];
    assert p in packets && p[i := b] in Damaged(packets, j, i, b) by {
      assert Damaged(packets, j, i, b)[j] == p[i := b];
    }
    XorChanged(p, i, b);
    XorDiffers(p[i], b);
  }

  /** Any one byte of any packet, changed with the length code kept, is noticed: however the bytes arrive, with
      whatever partial packet behind them, receiving them ends in the assertion failure. */
  lemma DamageIsNoticed(arr: seq<Frame>, fd: bool, j: nat, i: nat, b: byte, rest: seq<byte>, pulls: seq<seq<byte>>)
    requires AllInRange(arr) && PackFrames(arr, fd).Ok? && Partial(rest)
    requires var packets := PackFrames(arr, fd).value;
             && j < |packets| && i < |packets[j]| && b != packets[j][i]
             && (i == 0 ==> LengthCode(b) == LengthCode(packets[j][0]))
             && Flatten(pulls) == Flatten(Damaged(packets, j, i, b)) + rest
    ensures RecvAll(pulls) == Err(AssertionError)
  {
    var ps, packets := PacketsOf(arr, fd), PackFrames(arr, fd).value;
    PackFramesInRange(arr, fd);
    PacketsOfChecksummed(arr, fd);
    WireFramed(ps);
    WireClear(ps);
    DamagedFramed(packets, j, i, b);
    DamagedNotClear(packets, j, i, b);
    UnpacksExactly(Damaged(packets, j, i, b), rest);
    ReadsDoNotMatter(pulls);
  }

  // ----- which frames survive -----

  lemma BusBits(x: byte)
    ensures ((x >> 1) & 7) as int < 8
  {
    LowThree(x >> 1);
  }

  /** Unpacking can only produce 29-bit addresses, and buses below 8 unless a mark lifts them to 128 or more. */
  lemma DecodedBounds(p: seq<byte>)
    requires |p| >= HEAD_SIZE
    ensures 0 <= Decode(p).address < 0x2000_0000
    ensures 0 <= Decode(p).bus < 8 || 128 <= Decode(p).bus
  {
    BusBits(p[0]);
  }

  lemma {:induction false} DecodedAllBounds(packets: seq<seq<byte>>)
    requires forall p <- packets :: |p| >= HEAD_SIZE
    ensures forall f <- DecodeAll(packets) :: 0 <= f.address < 0x2000_0000 && (0 <= f.bus < 8 || 128 <= f.bus)
  {
    if packets != [] {
      assert forall p <- packets[1..] :: p in packets;
      DecodedBounds(packets[0]);
      DecodedAllBounds(packets[1..]);
    }
  }

  lemma {:induction false} PackedBounds(arr: seq<Frame>, fd: bool)
    requires PackFrames(arr, fd).Ok?
    ensures forall f <- arr :: LenToDlc(|f.dat|).Ok? && 0 <= f.bus < 128
  {
    if arr != [] {
      var before, last := arr[..|arr| - 1], arr[|arr| - 1];
      PackedBounds(before, fd);
      PacksExactly(last, fd);
      forall f | f in arr
        ensures LenToDlc(|f.dat|).Ok? && 0 <= f.bus < 128
      {
        assert arr == before + [last];
        assert f in before || f == last;
      }
    }
  }

  lemma FramesOfPackets(arr: seq<Frame>, fd: bool)
    requires AllInRange(arr)
    ensures HostFrames(PacketsOf(arr, fd)) == arr
  {
    forall i | 0 <= i < |arr|
      ensures HostFrames(PacketsOf(arr, fd))[i] == arr[i]
    {
      assert arr[i] in arr;
      PacketOfFields(arr[i], fd);
    }
  }

  lemma PacketsOfChecksummed(arr: seq<Frame>, fd: bool)
    requires AllInRange(arr)
    ensures Checksummed(PacketsOf(arr, fd))
  {
    var ps := PacketsOf(arr, fd);
    forall i | 0 <= i < |ps|
      ensures ps[i].Valid() && Xor(ps[i].Serialized()) == 0
    {
      assert arr[i] in arr;
      PackedIsSerialized(arr[i], fd);
    }
  }

  /** Checksummed packets unpack to their frames, with nothing left over. */
  lemma UnpackWire(ps: seq<Packet>)
    requires Checksummed(ps)
    ensures Unpack(Flatten(Wire(ps))) == Ok((HostFrames(ps), []))
  {
    var w := Wire(ps);
    WireFramed(ps);
    WireClear(ps);
    assert Flatten(w) + [] == Flatten(w);
    var n := UnpackPrefix(w, Flatten(w), []);
    assert w[..n] == w;
    DecodeWire(ps);
  }

  /** Frames in range come back from unpacking unchanged. */
  lemma RoundTrip(arr: seq<Frame>, fd: bool)
    requires AllInRange(arr)
    ensures PackFrames(arr, fd).Ok? && Unpack(Flatten(PackFrames(arr, fd).value)) == Ok((arr, []))
  {
    var ps := PacketsOf(arr, fd);
    PackFramesInRange(arr, fd);
    FramesOfPackets(arr, fd);
    PacketsOfChecksummed(arr, fd);
    UnpackWire(ps);
  }

  /** The packer looks at the length and at whether the first byte fits, and at nothing else. */
  lemma PacksExactly(f: Frame, fd: bool)
    ensures PackFrame(f, fd).Ok? <==> LenToDlc(|f.dat|).Ok? && 0 <= f.bus < 128
  {}

  /** So an address of 30 bits packs, and a bus of four bits. */
  lemma PacksOutOfRange(fd: bool)
    ensures PackFrame(Frame(0x2000_0000, [], 0), fd).Ok? && !InRange(Frame(0x2000_0000, [], 0))
    ensures PackFrame(Frame(0, [], 8), fd).Ok? && !InRange(Frame(0, [], 8))
  {
    PacksExactly(Frame(0x2000_0000, [], 0), fd);
    PacksExactly(Frame(0, [], 8), fd);
  }

  /** A list of frames that packs without an exception comes back from unpacking unchanged exactly when
      every frame has a 29-bit address and a 3-bit bus; the packer itself does not check either. */
  lemma RoundTripExactlyInRange(arr: seq<Frame>, fd: bool)
    requires PackFrames(arr, fd).Ok?
    ensures Unpack(Flatten(PackFrames(arr, fd).value)) == Ok((arr, [])) <==> AllInRange(arr)
  {
    var stream := Flatten(PackFrames(arr, fd).value);
    if AllInRange(arr) {
      RoundTrip(arr, fd);
    }
    if Unpack(stream) == Ok((arr, [])) {
      PackedBounds(arr, fd);
      PacketsHaveHeads(stream);
      DecodedAllBounds(Parse(stream).0);
      forall f | f in arr
        ensures InRange(f)
      {
        assert 0 <= f.address < 0x2000_0000 && (0 <= f.bus < 8 || 128 <= f.bus);
        assert LenToDlc(|f.dat|).Ok? && 0 <= f.bus < 128;
      }
    }
  }
}
