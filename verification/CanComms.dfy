/** panda/board/can_comms.h: the two reassemblers between byte transfers and CAN packets. */
module CanComms {
  import opened Words
  import opened CanPacket
  import Libc

  // ----- writing: transfers in, packets out -----

  function FillAll(packets: seq<seq<byte>>): seq<seq<byte>>
    requires forall p <- packets :: |p| <= STRUCT_SIZE
  {
    if packets == [] then [] else [ZeroFilled(packets[0])] + FillAll(packets[1..])
  }

  lemma {:induction false} FillAllConcat(ps: seq<seq<byte>>, qs: seq<seq<byte>>)
    requires forall p <- ps :: |p| <= STRUCT_SIZE
    requires forall p <- qs :: |p| <= STRUCT_SIZE
    ensures FillAll(ps + qs) == FillAll(ps) + FillAll(qs)
  {
    if ps == [] {
      assert ps + qs == qs;
    } else {
      assert (ps + qs)[1..] == ps[1..] + qs;
      assert forall p <- ps[1..] :: p in ps;
      FillAllConcat(ps[1..], qs);
    }
  }

  lemma ParsedFit(stream: seq<byte>)
    ensures forall p <- Parse(stream).0 :: |p| <= STRUCT_SIZE
  {
    ParseFramed(stream);
  }

  /** The structures handed to can_send for a byte stream. */
  function Sends(stream: seq<byte>): seq<seq<byte>> {
    ParsedFit(stream);
    FillAll(Parse(stream).0)
  }

  // ----- reading: packets in, transfers out -----

  /** The bytes that travel for each packet of a queue. */
  function Wire(queue: seq<Packet>): (bs: seq<seq<byte>>)
    requires forall p <- queue :: p.Valid()
    ensures |bs| == |queue| && Sized(bs)
  {
    seq(|queue|, i requires 0 <= i < |queue| => queue[i].Serialized())
  }

  predicate Sized(queue: seq<seq<byte>>) {
    forall p <- queue :: |p| <= 70
  }

  /** What a read leaves: the bytes put out, the tail of a packet cut off, and the packets not popped. */
  datatype Reading = Reading(out: seq<byte>, tail: seq<byte>, queue: seq<seq<byte>>)

  /** Popping packets into the room that is left. */
  function Fill(queue: seq<seq<byte>>, room: nat): Reading {
    if room == 0 || queue == [] then
      Reading([], [], queue)
    else if |queue[0]| <= room then
      var r := Fill(queue[1..], room - |queue[0]|);
      Reading(queue[0] + r.out, r.tail, r.queue)
    else
      Reading(queue[0][..room], queue[0][room..], queue[1..])
  }

  /** One read: the old tail first, then packets. */
  function ReadOnce(tail: seq<byte>, queue: seq<seq<byte>>, maxLen: nat): Reading {
    if |tail| > maxLen then
      Reading(tail[..maxLen], tail[maxLen..], queue)
    else
      var r := Fill(queue, maxLen - |tail|);
      Reading(tail + r.out, r.tail, r.queue)
  }

  lemma {:induction false} FillBounds(queue: seq<seq<byte>>, room: nat)
    requires Sized(queue)
    ensures var r := Fill(queue, room);
            && |r.out| <= room && |r.tail| < 70
            && |r.queue| <= |queue| && r.queue == queue[|queue| - |r.queue|..]
            && (|r.out| < room ==> r.tail == [] && r.queue == [])
  {
    if room != 0 && queue != [] {
      assert queue[0] in queue;
      if |queue[0]| <= room {
        assert forall p <- queue[1..] :: p in queue;
        FillBounds(queue[1..], room - |queue[0]|);
      }
    }
  }

  lemma {:induction false} FillConserves(queue: seq<seq<byte>>, room: nat)
    ensures var r := Fill(queue, room);
            r.out + (r.tail + Flatten(r.queue)) == Flatten(queue)
  {
    if room == 0 || queue == [] {
      assert [] + ([] + Flatten(queue)) == Flatten(queue);
    } else if |queue[0]| <= room {
      FillConserves(queue[1..], room - |queue[0]|);
      var r := Fill(queue[1..], room - |queue[0]|);
      Associate(queue[0], r.out, r.tail + Flatten(r.queue));
    } else {
      Associate(queue[0][..room], queue[0][room..], Flatten(queue[1..]));
      assert queue[0][..room] + queue[0][room..] == queue[0];
    }
  }

  /** A read conserves bytes, and comes up short only when there is nothing left to read. */
  lemma ReadConserves(tail: seq<byte>, queue: seq<seq<byte>>, maxLen: nat)
    requires Sized(queue)
    ensures var r := ReadOnce(tail, queue, maxLen);
            && |r.out| <= maxLen && (|tail| < 70 ==> |r.tail| < 70)
            && |r.queue| <= |queue| && r.queue == queue[|queue| - |r.queue|..]
            && r.out + (r.tail + Flatten(r.queue)) == tail + Flatten(queue)
            && (|r.out| < maxLen ==> r.tail == [] && r.queue == [])
  {
    if |tail| > maxLen {
      Associate(tail[..maxLen], tail[maxLen..], Flatten(queue));
      assert tail[..maxLen] + tail[maxLen..] == tail;
    } else {
      FillBounds(queue, maxLen - |tail|);
      FillConserves(queue, maxLen - |tail|);
      var r := Fill(queue, maxLen - |tail|);
      Associate(tail, r.out, r.tail + Flatten(r.queue));
    }
  }

  /** What happens around the read side: packets arrive, or the host asks for bytes. */
  datatype Event = Arrive(packets: seq<seq<byte>>) | Ask(maxLen: nat)
  {
    predicate Valid() {
      Arrive? ==> Sized(packets)
    }
  }

  /** The read side with its history: the bytes put out so far and the packets that arrived. */
  datatype Device = Device(tail: seq<byte>, queue: seq<seq<byte>>, out: seq<byte>, arrived: seq<seq<byte>>)
  {
    predicate Valid() {
      Sized(queue) && Sized(arrived) && |tail| < 70
    }
  }

  const IDLE := Device([], [], [], [])

  function Happen(d: Device, e: Event): (d': Device)
    requires d.Valid() && e.Valid()
    ensures d'.Valid()
  {
    match e
    case Arrive(packets) => d.(queue := d.queue + packets, arrived := d.arrived + packets)
    case Ask(maxLen) =>
      ReadConserves(d.tail, d.queue, maxLen);
      var r := ReadOnce(d.tail, d.queue, maxLen);
      d.(tail := r.tail, queue := r.queue, out := d.out + r.out)
  }

  function Run(d: Device, events: seq<Event>): (d': Device)
    requires d.Valid() && forall e <- events :: e.Valid()
    ensures d'.Valid()
  {
    if events == [] then d else Happen(Run(d, events[..|events| - 1]), events[|events| - 1])
  }

  ghost predicate Conserved(d: Device) {
    d.out + (d.tail + Flatten(d.queue)) == Flatten(d.arrived)
  }

  lemma HappenConserves(d: Device, e: Event)
    requires d.Valid() && e.Valid() && Conserved(d)
    ensures Conserved(Happen(d, e))
  {
    match e
    case Arrive(packets) =>
      FlattenConcat(d.queue, packets);
      FlattenConcat(d.arrived, packets);
      Associate(d.out, d.tail + Flatten(d.queue), Flatten(packets));
      Associate(d.tail, Flatten(d.queue), Flatten(packets));
    case Ask(maxLen) =>
      var r := ReadOnce(d.tail, d.queue, maxLen);
      ReadConserves(d.tail, d.queue, maxLen);
      Associate(d.out, r.out, r.tail + Flatten(r.queue));
  }

  /** Over any run of arrivals and reads, everything put out, then the tail, then the queue, is
      everything that arrived. */
  lemma {:induction false} RunConserves(events: seq<Event>)
    requires forall e <- events :: e.Valid()
    ensures Conserved(Run(IDLE, events))
  {
    if events != [] {
      var before := events[..|events| - 1];
      assert forall e <- before :: e in events;
      RunConserves(before);
      HappenConserves(Run(IDLE, before), events[|events| - 1]);
    }
  }

  // ----- the buffers and the calls -----

  class AsmBuffer {
    var ptr: nat
    var tailSize: nat
    const data: array<byte>

    constructor ()
      ensures ptr == 0 && tailSize == 0 && fresh(data) && data.Length == STRUCT_SIZE
    {
      ptr, tailSize := 0, 0;
      data := new byte[STRUCT_SIZE];
    }
  }

  /** memcpy into an array from memory outside it. */
  method CopyIn(dst: array<byte>, at: nat, src: seq<byte>)
    requires at + |src| <= dst.Length
    modifies dst
    ensures dst[..at + |src|] == old(dst[..at]) + src
    ensures dst[at + |src|..] == old(dst[at + |src|..])
  {
    var i := 0;
    while i < |src|
      invariant 0 <= i <= |src|
      invariant forall k :: 0 <= k < dst.Length ==> dst[k] == if at <= k < at + i then src[k - at] else old(dst[k])
    {
      dst[at + i] := src[i];
      i := i + 1;
    }
  }

  /** The write side: can_write_buffer, and the structures handed to can_send, each with its own bus
      field as the bus argument. */
  class WriteSide {
    const buffer: AsmBuffer
    var sent: seq<seq<byte>>

    ghost predicate Valid()
      reads this, buffer, buffer.data
    {
      && buffer.data.Length == STRUCT_SIZE
      && buffer.ptr <= STRUCT_SIZE
      && (buffer.ptr == 0 ==> buffer.tailSize == 0)
      && (buffer.ptr != 0 ==> 0 < buffer.tailSize && buffer.ptr + buffer.tailSize == PacketLen(buffer.data[0]))
    }

    /** The partial packet waiting for its end. */
    ghost function Pending(): seq<byte>
      requires Valid()
      reads this, buffer, buffer.data
    {
      buffer.data[..buffer.ptr]
    }

    constructor ()
      ensures Valid() && fresh(buffer) && fresh(buffer.data)
      ensures Pending() == [] && sent == []
    {
      buffer := new AsmBuffer();
      sent := [];
    }

    /** The write half of comms_can_reset: the partial packet is dropped. */
    method Reset()
      requires Valid()
      modifies buffer
      ensures Valid() && Pending() == []
    {
      buffer.ptr := 0;
      buffer.tailSize := 0;
    }

    /** The overflow buffer takes the start of a packet that the transfer cuts off. */
    method StartPending(bs: seq<byte>)
      requires Valid() && buffer.ptr == 0
      requires bs != [] && |bs| < PacketLen(bs[0])
      modifies buffer, buffer.data
      ensures Valid() && Pending() == bs
    {
      CopyIn(buffer.data, 0, bs);
      buffer.ptr := |bs|;
      buffer.tailSize := PacketLen(bs[0]) - buffer.ptr;
      assert buffer.data[0] == bs[0];
    }

    /** More bytes for the packet in the overflow buffer, which they may complete. */
    method ExtendPending(bs: seq<byte>)
      requires Valid() && buffer.ptr != 0 && |bs| <= buffer.tailSize
      modifies buffer, buffer.data
      ensures buffer.ptr == old(buffer.ptr) + |bs| <= STRUCT_SIZE
      ensures buffer.tailSize == old(buffer.tailSize) - |bs|
      ensures buffer.data[..buffer.ptr] == old(Pending()) + bs
      ensures |bs| < old(buffer.tailSize) ==> Valid()
    {
      ghost var pending := Pending();
      CopyIn(buffer.data, buffer.ptr, bs);
      buffer.tailSize := buffer.tailSize - |bs|;
      buffer.ptr := buffer.ptr + |bs|;
      assert buffer.data[0] == pending[0];
    }

    /** can_send, with the packet copied into a zero-filled structure. */
    method SendPacket(packet: seq<byte>)
      requires |packet| <= STRUCT_SIZE
      modifies this`sent
      ensures sent == old(sent) + FillAll([packet])
    {
      FillOne(packet);
      sent := sent + [ZeroFilled(packet)];
    }

    /** The end of the packet in the overflow buffer: it is sent, and the buffer reset. */
    method CompletePending(bs: seq<byte>)
      requires Valid() && buffer.ptr != 0 && |bs| == buffer.tailSize
      modifies this, buffer, buffer.data
      ensures Valid() && buffer.ptr == 0 && |old(Pending()) + bs| <= STRUCT_SIZE
      ensures sent == old(sent) + FillAll([old(Pending()) + bs])
    {
      ExtendPending(bs);
      SendPacket(buffer.data[..buffer.ptr]);
      buffer.ptr := 0;
      buffer.tailSize := 0;
    }

    /** All of a transfer that does not complete the packet in the overflow buffer. */
    method TakeIn(data: seq<byte>)
      requires Valid() && buffer.ptr != 0 && |data| < buffer.tailSize
      modifies buffer, buffer.data
      ensures Valid() && Pending() == old(Pending()) + data
    {
      ExtendPending(data);
    }

    /** The first part of comms_can_write: the packet in the overflow buffer is completed and sent,
        or takes in the whole transfer. */
    method FinishPending(data: seq<byte>) returns (pos: nat, ghost done: seq<seq<byte>>)
      requires Valid() && buffer.ptr != 0
      modifies this, buffer, buffer.data
      ensures Valid() && pos <= |data| && (pos < |data| ==> buffer.ptr == 0)
      ensures Progress(old(Pending()) + data, done, Pending() + data[pos..])
      ensures (forall p <- done :: |p| <= STRUCT_SIZE) && sent == old(sent) + FillAll(done)
    {
      ghost var pending := Pending();
      if buffer.tailSize <= |data| {
        // enough to complete the packet
        pos := buffer.tailSize;
        ProgressPacket(pending, data, pos);
        done := [pending + data[..pos]];
        CompletePending(data[..pos]);
        Pieces(Pending(), data, pos);
      } else {
        // maybe next time
        pos := |data|;
        NoProgress(pending, data);
        done := [];
        TakeIn(data);
        Pieces(Pending(), data, pos);
      }
    }

    /** One turn of the loop of comms_can_write: a whole packet is sent, or a partial one kept. */
    method NextPacket(data: seq<byte>, pos: nat, ghost stream: seq<byte>, ghost done: seq<seq<byte>>)
      returns (pos': nat, ghost whole: seq<seq<byte>>)
      requires Valid() && buffer.ptr == 0 && pos < |data|
      requires Progress(stream, done, data[pos..])
      modifies this, buffer, buffer.data
      ensures Valid() && pos < pos' <= |data| && (pos' < |data| ==> buffer.ptr == 0)
      ensures Progress(stream, done + whole, Pending() + data[pos'..])
      ensures (forall p <- whole :: |p| <= STRUCT_SIZE) && sent == old(sent) + FillAll(whole)
    {
      var pcktLen := PacketLen(data[pos]);
      if pos + pcktLen <= |data| {
        var packet := data[pos..pos + pcktLen];
        CutAt(data, pos, pcktLen);
        ProgressCut(stream, done, packet, data[pos + pcktLen..]);
        SendPacket(packet);
        whole := [packet];
        pos' := pos + pcktLen;
        Pieces(Pending(), data, pos');
      } else {
        StartPending(data[pos..]);
        pos' := pos + buffer.ptr;
        whole := [];
        Pieces(Pending(), data, pos');
        assert done + whole == done;
      }
    }

    /** comms_can_write: the bytes of one transfer. */
    method Write(data: seq<byte>)
      requires Valid()
      modifies this, buffer, buffer.data
      ensures Valid()
      ensures sent == old(sent) + Sends(old(Pending()) + data)
      ensures Pending() == Parse(old(Pending()) + data).1
    {
      ghost var stream := Pending() + data;
      ghost var done: seq<seq<byte>> := [];
      var pos: nat := 0;
      if buffer.ptr != 0 {
        pos, done := FinishPending(data);
      } else {
        Pieces(Pending(), data, 0);
        NoProgress(Pending(), data);
        assert data[0..] == data;
      }
      while pos < |data|
        invariant 0 <= pos <= |data| && Valid()
        invariant pos < |data| ==> buffer.ptr == 0
        invariant (forall p <- done :: |p| <= STRUCT_SIZE) && sent == old(sent) + FillAll(done)
        invariant Progress(stream, done, Pending() + data[pos..])
      {
        Pieces(Pending(), data, pos);
        ghost var whole;
        pos, whole := NextPacket(data, pos, stream, done);
        FillAllConcat(done, whole);
        Associate(old(sent), FillAll(done), FillAll(whole));
        done := done + whole;
      }
      Pieces(Pending(), data, pos);
      ProgressDone(stream, done, Pending());
    }
  }

  /** The read side: can_read_buffer and the packets in can_rx_q. */
  class ReadSide {
    const buffer: AsmBuffer
    var rxQueue: seq<Packet>

    ghost predicate Valid()
      reads this, buffer, buffer.data
    {
      && buffer.data.Length == STRUCT_SIZE
      && buffer.ptr < 70
      && forall p <- rxQueue :: p.Valid()
    }

    /** The bytes of a packet that the last read cut off. */
    ghost function Tail(): seq<byte>
      requires Valid()
      reads this, buffer, buffer.data
    {
      buffer.data[..buffer.ptr]
    }

    constructor ()
      ensures Valid() && fresh(buffer) && fresh(buffer.data)
      ensures Tail() == [] && rxQueue == []
    {
      buffer := new AsmBuffer();
      rxQueue := [];
    }

    /** The read half of comms_can_reset: the cut-off bytes are dropped. */
    method Reset()
      requires Valid()
      modifies buffer
      ensures Valid() && Tail() == []
    {
      buffer.ptr := 0;
      buffer.tailSize := 0;
    }

    /** The first part of comms_can_read: as much of the tail as fits goes out, the rest moves down. */
    method SendTail(data: array<byte>, maxLen: nat) returns (pos: nat)
      requires Valid() && maxLen <= data.Length && data != buffer.data
      modifies data, buffer, buffer.data
      ensures Valid() && pos == (if |old(Tail())| <= maxLen then |old(Tail())| else maxLen)
      ensures data[..pos] == old(Tail())[..pos] && Tail() == old(Tail())[pos..]
    {
      pos := 0;
      if buffer.ptr > 0 {
        var overflowLen := if maxLen - pos < buffer.ptr then maxLen - pos else buffer.ptr;
        CopyIn(data, pos, buffer.data[..overflowLen]);
        pos := pos + overflowLen;
        Libc.Memcpy(buffer.data, 0, overflowLen, buffer.ptr - overflowLen);
        buffer.ptr := buffer.ptr - overflowLen;
      }
    }

    /** can_pop, and the bytes of the popped structure that travel. */
    method Pop() returns (bs: seq<byte>)
      requires Valid() && rxQueue != []
      modifies this
      ensures Valid() && rxQueue == old(rxQueue)[1..]
      ensures bs == old(Wire(rxQueue))[0] && Wire(rxQueue) == old(Wire(rxQueue))[1..]
    {
      WireTail(rxQueue);
      bs := rxQueue[0].Serialized();
      rxQueue := rxQueue[1..];
    }

    /** The rest of a packet that was cut off goes into the overflow buffer. */
    method StoreRest(bs: seq<byte>)
      requires Valid() && buffer.ptr == 0 && |bs| < 70
      modifies buffer, buffer.data
      ensures Valid() && Tail() == bs
    {
      buffer.ptr := buffer.ptr + |bs|;
      CopyIn(buffer.data, 0, bs);
    }

    /** The bytes of a popped packet go out, whole or as many as there is room for. */
    method PutPacket(data: array<byte>, pos: nat, maxLen: nat, bs: seq<byte>) returns (pos': nat)
      requires Valid() && buffer.ptr == 0 && pos < maxLen <= data.Length && data != buffer.data && |bs| <= 70
      modifies data, buffer, buffer.data
      ensures Valid() && pos <= pos' <= maxLen && (buffer.ptr != 0 ==> pos' == maxLen)
      ensures var room := maxLen - pos;
              if |bs| <= room then data[..pos'] == old(data[..pos]) + bs && Tail() == []
              else data[..pos'] == old(data[..pos]) + bs[..room] && Tail() == bs[room..]
    {
      if pos + |bs| <= maxLen {
        CopyIn(data, pos, bs);
        pos' := pos + |bs|;
      } else {
        CopyIn(data, pos, bs[..maxLen - pos]);
        StoreRest(bs[maxLen - pos..]);
        pos' := maxLen;
      }
    }

    /** One turn of the loop of comms_can_read: a packet is popped and goes out. */
    method PopPacket(data: array<byte>, pos: nat, maxLen: nat, ghost taken: seq<byte>, ghost queue: seq<seq<byte>>)
      returns (pos': nat)
      requires Valid() && buffer.ptr == 0 && pos < maxLen <= data.Length && data != buffer.data && rxQueue != []
      requires Filled(taken, queue, maxLen, data[..pos], [], Wire(rxQueue))
      modifies this, data, buffer, buffer.data
      ensures Valid() && rxQueue == old(rxQueue)[1..]
      ensures pos <= pos' <= maxLen && (buffer.ptr != 0 ==> pos' == maxLen)
      ensures Filled(taken, queue, maxLen, data[..pos'], Tail(), Wire(rxQueue))
    {
      FilledNext(taken, queue, maxLen, data[..pos], Wire(rxQueue));
      var bs := Pop();
      pos' := PutPacket(data, pos, maxLen, bs);
    }

    /** comms_can_read: up to maxLen bytes into data. */
    method Read(data: array<byte>, maxLen: nat) returns (pos: nat)
      requires Valid() && maxLen <= data.Length && data != buffer.data
      modifies this, data, buffer, buffer.data
      ensures Valid() && pos <= maxLen
      ensures Reading(data[..pos], Tail(), Wire(rxQueue)) == ReadOnce(old(Tail()), old(Wire(rxQueue)), maxLen)
    {
      ghost var tail, queue := Tail(), Wire(rxQueue);
      pos := SendTail(data, maxLen);
      if buffer.ptr == 0 {
        ghost var taken := data[..pos];
        assert taken == tail;
        while pos < maxLen && rxQueue != []
          invariant Valid() && pos <= maxLen
          invariant buffer.ptr != 0 ==> pos == maxLen
          invariant Filled(taken, queue, maxLen, data[..pos], Tail(), Wire(rxQueue))
          decreases |rxQueue|
        {
          assert Tail() == [];
          pos := PopPacket(data, pos, maxLen, taken, queue);
        }
        FilledDone(taken, queue, maxLen, data[..pos], Tail(), Wire(rxQueue));
      }
    }
  }

  lemma WireTail(queue: seq<Packet>)
    requires queue != [] && forall p <- queue :: p.Valid()
    ensures Wire(queue)[0] == queue[0].Serialized() && Wire(queue[1..]) == Wire(queue)[1..]
  {
    assert forall i :: 0 <= i < |queue| - 1 ==> Wire(queue[1..])[i] == Wire(queue)[i + 1];
  }

  /** After the bytes in out, finishing the fill finishes the read. */
  ghost predicate Filled(taken: seq<byte>, queue: seq<seq<byte>>, maxLen: nat,
                         out: seq<byte>, tail: seq<byte>, left: seq<seq<byte>>)
  {
    && |out| <= maxLen && |taken| <= maxLen
    && var whole := Fill(queue, maxLen - |taken|);
       if tail != [] then Reading(out, tail, left) == Reading(taken + whole.out, whole.tail, whole.queue)
       else var rest := Fill(left, maxLen - |out|);
            Reading(out + rest.out, rest.tail, rest.queue) == Reading(taken + whole.out, whole.tail, whole.queue)
  }

  lemma FilledNext(taken: seq<byte>, queue: seq<seq<byte>>, maxLen: nat, out: seq<byte>, left: seq<seq<byte>>)
    requires Filled(taken, queue, maxLen, out, [], left) && left != [] && |out| < maxLen
    ensures var bs, room := left[0], maxLen - |out|;
            if |bs| <= room then Filled(taken, queue, maxLen, out + bs, [], left[1..])
            else Filled(taken, queue, maxLen, out + bs[..room], bs[room..], left[1..])
  {
    var bs, room := left[0], maxLen - |out|;
    if |bs| <= room {
      Associate(out, bs, Fill(left[1..], room - |bs|).out);
    }
  }

  lemma FilledDone(taken: seq<byte>, queue: seq<seq<byte>>, maxLen: nat,
                   out: seq<byte>, tail: seq<byte>, left: seq<seq<byte>>)
    requires Filled(taken, queue, maxLen, out, tail, left) && (|out| == maxLen || left == [])
    ensures Reading(out, tail, left) == ReadOnce(taken, queue, maxLen)
  {
    assert out + [] == out;
  }

  /** The packets done are whole ones, and with the bytes unread they make up the stream. */
  ghost predicate Progress(stream: seq<byte>, done: seq<seq<byte>>, unread: seq<byte>) {
    WellFramed(done) && stream == Flatten(done) + unread
  }

  lemma ProgressPacket(pending: seq<byte>, data: seq<byte>, n: nat)
    requires pending != [] && n <= |data| && |pending| + n == PacketLen(pending[0])
    ensures Progress(pending + data, [pending + data[..n]], data[n..])
  {
    var p := pending + data[..n];
    assert [p][1..] == [] && Flatten([p]) == p + Flatten([]);
  }

  lemma NoProgress(pending: seq<byte>, data: seq<byte>)
    ensures Progress(pending + data, [], pending + data)
  {}

  /** What is left after a transfer: nothing pending, or nothing unread. */
  lemma Pieces(pending: seq<byte>, data: seq<byte>, pos: nat)
    requires pos <= |data|
    ensures pending == [] ==> pending + data[pos..] == data[pos..]
    ensures pos == |data| ==> pending + data[pos..] == pending
  {}

  lemma CutAt(data: seq<byte>, pos: nat, n: nat)
    requires pos + n <= |data|
    ensures data[pos..] == data[pos..pos + n] + data[pos + n..]
  {}

  lemma FillOne(p: seq<byte>)
    requires |p| <= STRUCT_SIZE
    ensures FillAll([p]) == [ZeroFilled(p)]
  {
    assert [p][1..] == [];
  }

  lemma ProgressCut(stream: seq<byte>, done: seq<seq<byte>>, p: seq<byte>, rest: seq<byte>)
    requires p != [] && |p| == PacketLen(p[0]) && Progress(stream, done, p + rest)
    ensures Progress(stream, done + [p], rest)
  {
    FlattenSnoc(done, p);
    Associate(Flatten(done), p, rest);
  }

  lemma ProgressDone(stream: seq<byte>, done: seq<seq<byte>>, rest: seq<byte>)
    requires Progress(stream, done, rest) && Partial(rest)
    ensures forall p <- done :: |p| <= STRUCT_SIZE
    ensures FillAll(done) == Sends(stream) && rest == Parse(stream).1
  {
    ParseUnique(done, rest);
  }
}
