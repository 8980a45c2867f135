/** msgq_repo/msgq/msgq.cc as it works on the shared memory: stores, scans and goto loops. */
module MsgqQueue {
  import opened MsgqLayout
  import opened MsgqCalls
  import opened MsgqRecv

  /** The mapped segment: msgq_header_t and the data behind it. */
  class Segment {
    var numReaders: nat
    var write: Cursor
    var writeUid: nat
    const readers: array<Cursor>
    const valids: array<bool>
    const uids: array<nat>
    const data: array<octet>

    ghost predicate Valid()
      reads this, readers, valids, uids, data
    {
      && readers.Length == valids.Length == uids.Length == NUM_READERS
      && numReaders <= NUM_READERS && data.Length < 0xFFFF_FFFF
    }

    ghost function Q(): (q: Queue)
      requires Valid()
      reads this, readers, valids, uids, data
      ensures q.WellFormed()
    {
      Queue(numReaders, write, writeUid, readers[..], valids[..], uids[..], data[..])
    }

    /** A new segment, all zeros. */
    constructor (size: nat)
      requires size < 0xFFFF_FFFF
      ensures Valid() && Zeroed(Q()) && data.Length == size
      ensures fresh(readers) && fresh(valids) && fresh(uids) && fresh(data)
    {
      numReaders, write, writeUid := 0, Cursor(0, 0), 0;
      readers := new Cursor[NUM_READERS](_ => Cursor(0, 0));
      valids := new bool[NUM_READERS](_ => false);
      uids := new nat[NUM_READERS](_ => 0);
      data := new octet[size](_ => 0);
    }

    /** A 64-bit store at p. */
    method StoreTag(p: nat, v: int)
      requires Valid() && p + 8 <= data.Length && -1 <= v < 0x1_0000_0000
      modifies data
      ensures Valid() && data[..] == old(data[..p]) + Tag(v) + old(data[p + 8..])
    {
      var bytes := Tag(v);
      Store(p, bytes);
    }

    /** memcpy into the ring. */
    method Store(p: nat, bytes: seq<octet>)
      requires Valid() && p + |bytes| <= data.Length
      modifies data
      ensures Valid() && data[..] == old(data[..p]) + bytes + old(data[p + |bytes|..])
    {
      var i := 0;
      while i < |bytes|
        invariant 0 <= i <= |bytes| && Valid()
        invariant data[..] == old(data[..p]) + bytes[..i] + old(data[p + i..])
      {
        data[p + i] := bytes[i];
        i := i + 1;
      }
    }

    /** The loops of msgq_msg_send over the readers: those at lo..hi in another cycle lose their validity. */
    method InvalidateReaders(numReaders: nat, cycles: nat, lo: int, hi: int)
      requires Valid() && numReaders == this.numReaders
      modifies valids
      ensures Valid() && valids[..] == Invalidate(old(Q()), cycles, lo, hi)
    {
      ghost var q := Q();
      var i := 0;
      while i < numReaders
        invariant 0 <= i <= numReaders && Valid()
        invariant forall k :: 0 <= k < NUM_READERS ==>
                    valids[k] == if k < i then Invalidate(q, cycles, lo, hi)[k] else q.valids[k]
      {
        var read := readers[i];
        if read.pos >= lo && read.pos < hi && read.cycles != cycles {
          valids[i] := false;
        }
        i := i + 1;
      }
    }

    /** The wrap in msgq_msg_send: the tag, the readers beyond it, the writer at the start. */
    method WrapAround()
      requires Valid() && write.pos + 8 <= data.Length
      modifies this`write, valids, data
      ensures Valid() && Q() == Wrap(old(Q()))
    {
      StoreTag(write.pos, -1);
      InvalidateReaders(numReaders, write.cycles, write.pos + 1, 0x1_0000_0000);
      write := Cursor(write.cycles + 1, 0);
    }

    /** The rest of msgq_msg_send: the readers in the way, the tag, the bytes, the writer behind them. */
    method PutMessage(m: seq<octet>)
      requires Valid() && write.pos % 8 == 0 && write.pos + Total(|m|) <= data.Length
      modifies this`write, valids, data
      ensures Valid() && Q() == Append(old(Q()), m)
    {
      EndOfFrame(write.pos, m);
      var start := write.pos;
      var end := Align(start + 8 + |m|);
      InvalidateReaders(numReaders, write.cycles, start, end);
      StoreFrame(start, m);
      write := Cursor(write.cycles, Align(start + |m| + 8));
    }

    /** The size tag and the bytes. */
    method StoreFrame(p: nat, m: seq<octet>)
      requires Valid() && p + 8 + |m| <= data.Length
      modifies data
      ensures Valid() && data[..] == PutFrame(old(data[..]), p, m)
    {
      ghost var before := data[..];
      StoreTag(p, |m|);
      Store(p + 8, m);
      TwoStores(before, p, m, data[..]);
    }
  }

  /** msgq_queue_t: one process's view of a segment. */
  class Endpoint {
    const segment: Segment
    var readerId: int
    var readUid: nat
    var writeUid: nat
    var conflate: bool

    ghost predicate Valid()
      reads this, segment, segment.readers, segment.valids, segment.uids, segment.data
    {
      segment.Valid() && -1 <= readerId < NUM_READERS
    }

    /** The calls of a subscriber assert this. */
    ghost predicate Subscribed()
      reads this
    {
      readerId >= 0
    }

    ghost function H(): Handle
      requires Subscribed()
      reads this
    {
      Handle(readerId, readUid, conflate)
    }

    constructor (segment: Segment)
      requires segment.Valid()
      ensures Valid() && this.segment == segment && !Subscribed() && !conflate
    {
      this.segment := segment;
      readerId, readUid, writeUid, conflate := -1, 0, 0, false;
    }

    /** msgq_reset_reader */
    method ResetReader()
      requires Valid() && Subscribed()
      modifies segment.valids, segment.readers
      ensures Valid() && segment.Q() == Reset(old(segment.Q()), readerId)
    {
      segment.valids[readerId] := true;
      segment.readers[readerId] := segment.write;
    }

    /** msgq_init_publisher */
    method InitPublisher(uid: nat)
      requires Valid()
      modifies this, segment, segment.valids, segment.uids
      ensures Valid() && unchanged(`readerId) && unchanged(`readUid) && unchanged(`conflate) && writeUid == uid
      ensures segment.Q() == MsgqCalls.InitPublisher(old(segment.Q()), uid)
    {
      segment.writeUid := uid;
      segment.numReaders := 0;
      ClearReaders();
      writeUid := uid;
    }

    /** Every reader's validity flag and uid cleared. */
    method ClearReaders()
      requires Valid()
      modifies segment.valids, segment.uids
      ensures Valid()
      ensures segment.Q() == old(segment.Q()).(valids := seq(NUM_READERS, _ => false), uids := seq(NUM_READERS, _ => 0))
    {
      ghost var q := segment.Q();
      var i := 0;
      while i < NUM_READERS
        invariant 0 <= i <= NUM_READERS && Valid()
        invariant forall k :: 0 <= k < i ==> !segment.valids[k] && segment.uids[k] == 0
        invariant segment.Q() == q.(valids := segment.valids[..], uids := segment.uids[..])
      {
        segment.valids[i] := false;
        segment.uids[i] := 0;
        i := i + 1;
      }
    }

    /** msgq_init_subscriber; the compare-and-swap always succeeds when the call is one step. */
    method InitSubscriber(uid: nat)
      requires Valid()
      modifies this, segment, segment.valids, segment.uids, segment.readers
      ensures Valid() && Subscribed() && writeUid == old(writeUid)
      ensures H() == Handle(MsgqCalls.InitSubscriber(old(segment.Q()), uid).1, uid, old(conflate))
      ensures segment.Q() == MsgqCalls.InitSubscriber(old(segment.Q()), uid).0
    {
      ghost var q := segment.Q();
      ghost var evicted := if q.numReaders + 1 > NUM_READERS then Evict(q) else q;
      while true
        invariant Valid() && writeUid == old(writeUid) && conflate == old(conflate)
        invariant segment.Q() == q || segment.Q() == evicted
        decreases segment.numReaders
      {
        var current := segment.numReaders;
        var new_ := current + 1;
        if new_ > NUM_READERS {
          segment.numReaders := 0;
          ClearReaders();
          continue;
        }
        segment.numReaders := new_;
        readerId := current;
        readUid := uid;
        segment.valids[current] := false;
        segment.readers[current] := Cursor(0, 0);
        segment.uids[current] := uid;
        break;
      }
      ResetReader();
    }

    /** msgq_msg_send */
    method Send(m: message) returns (outcome: SendOutcome)
      requires Valid() && RoomForTag(segment.data.Length, segment.write.pos) && segment.write.pos % 8 == 0
      modifies segment`write, segment.valids, segment.data
      ensures Valid() && unchanged(this)
      ensures outcome == SendOutcomeOf(old(segment.Q()), writeUid, m)
      ensures segment.Q() == MsgqCalls.Send(old(segment.Q()), writeUid, m)
    {
      if writeUid != segment.writeUid {
        return Killed;
      }
      var total := Align(|m| + 8);
      if !(3 * total <= segment.data.Length) {
        return Aborted;
      }
      var remaining := segment.data.Length - segment.write.pos - total - 8;
      if remaining <= 0 {
        segment.WrapAround();
      }
      segment.PutMessage(m);
      return Sent(|m|);
    }

    /** msgq_msg_recv from start up to a return or the next goto start. */
    method RecvPass(uid: nat) returns (outcome: Outcome)
      requires Valid() && Subscribed() && CanPass(segment.Q(), H())
      requires Synced(segment.Q(), H()) ==> segment.readers[readerId].pos % 8 == 0
      modifies this, segment, segment.valids, segment.uids, segment.readers
      ensures Valid() && Subscribed() && writeUid == old(writeUid)
      ensures Pass(segment.Q(), H(), outcome) == MsgqCalls.RecvPass(old(segment.Q()), old(H()), uid)
    {
      if readUid != segment.uids[readerId] {
        InitSubscriber(uid);
        return Again;
      }
      if !segment.valids[readerId] {
        ResetReader();
        return Again;
      }
      var read := segment.readers[readerId];
      if read.pos == segment.write.pos {
        return Empty;
      }
      var size := TagAt(segment.data[..], read.pos);
      if size == -1 {
        segment.readers[readerId] := Cursor(read.cycles + 1, 0);
        return Again;
      }
      if !(0 < size < segment.data.Length) || read.pos + Total(size) > segment.data.Length {
        return Crash;
      }
      AlignAfter(read.pos, size + 8);
      var next := Align(read.pos + 8 + size);
      if conflate && next != segment.write.pos {
        segment.readers[readerId] := Cursor(read.cycles, next);
        return Again;
      }
      var m := segment.data[read.pos + 8..read.pos + 8 + size];
      segment.readers[readerId] := Cursor(read.cycles, next);
      return Got(m);
    }

    /** msgq_msg_recv */
    method Recv(uid: nat, ghost hist: History) returns (outcome: Outcome)
      requires Valid() && Subscribed() && Inv(segment.Q(), hist) && HandleOk(H()) && uid != 0
      modifies this, segment, segment.valids, segment.uids, segment.readers
      ensures Valid() && Subscribed() && writeUid == old(writeUid)
      ensures Pass(segment.Q(), H(), outcome) == MsgqRecv.Recv(old(segment.Q()), hist, old(H()), uid)
    {
      PassProgress(segment.Q(), hist, H(), uid);
      ReaderAligned(segment.Q(), hist, H());
      outcome := RecvPass(uid);
      while outcome == Again
        invariant Valid() && Subscribed() && writeUid == old(writeUid)
        invariant Inv(segment.Q(), hist) && HandleOk(H())
        invariant MsgqRecv.Recv(old(segment.Q()), hist, old(H()), uid)
                  == if outcome == Again then MsgqRecv.Recv(segment.Q(), hist, H(), uid)
                     else Pass(segment.Q(), H(), outcome)
        decreases outcome == Again, Distance(segment.Q(), H()).0,
                  Distance(segment.Q(), H()).1, Distance(segment.Q(), H()).2
      {
        PassProgress(segment.Q(), hist, H(), uid);
        ReaderAligned(segment.Q(), hist, H());
        outcome := RecvPass(uid);
      }
    }

    /** msgq_msg_ready */
    method Ready(uid: nat) returns (answer: bool)
      requires Valid() && Subscribed()
      modifies this, segment, segment.valids, segment.uids, segment.readers
      ensures Valid() && Subscribed() && writeUid == old(writeUid)
      ensures (segment.Q(), H(), answer) == ReadyCall(old(segment.Q()), old(H()), uid)
    {
      if readUid != segment.uids[readerId] {
        InitSubscriber(uid);
      }
      if !segment.valids[readerId] {
        ResetReader();
      }
      return segment.readers[readerId].pos != segment.write.pos;
    }

    /** msgq_all_readers_updated */
    method AllReadersUpdated() returns (answer: bool)
      requires Valid()
      ensures answer == MsgqRecv.AllReadersUpdated(segment.Q())
    {
      var i := 0;
      while i < segment.numReaders
        invariant 0 <= i <= segment.numReaders
        invariant forall k :: 0 <= k < i && segment.valids[k] ==> segment.write == segment.readers[k]
      {
        if segment.valids[i] && segment.write != segment.readers[i] {
          return false;
        }
        i := i + 1;
      }
      return segment.numReaders > 0;
    }
  }

  /** The writer's position keeps what msgq_msg_send relies on. */
  lemma LaidSendable(q: Queue, h: History)
    requires q.WellFormed() && Laid(q.data, q.write, h)
    ensures RoomForTag(|q.data|, q.write.pos) && q.write.pos % 8 == 0
  {
    NextAligned(q.write, h, q.write.pos, |h.sent|);
  }

  /** Every position on the chain is a multiple of eight. */
  lemma NextAligned(write: Cursor, h: History, p: nat, k: nat)
    requires h.WellFormed() && Next(write, h, p, k) && k <= |h.sent|
    ensures p % 8 == 0
  {
    OffsetAligned(h.sent, k);
    OffsetAligned(h.sent, h.base);
    OffsetAligned(h.sent, h.prev);
    DifferenceAligned(Offset(h.sent, k), Offset(h.sent, h.base));
    DifferenceAligned(Offset(h.sent, k), Offset(h.sent, h.prev));
  }

  lemma DifferenceAligned(a: int, b: int)
    requires a % 8 == 0 && b % 8 == 0
    ensures (a - b) % 8 == 0
  {}

  lemma ReaderAligned(q: Queue, hist: History, h: Handle)
    requires Inv(q, hist) && h.id < NUM_READERS
    ensures Synced(q, h) ==> q.readers[h.id].pos % 8 == 0
  {
    if Synced(q, h) {
      SyncedStands(q, hist, h);
      var k: nat :| Stands(q, hist, h, k) && k <= |hist.sent|;
      NextAligned(q.write, hist, q.readers[h.id].pos, k);
    }
  }

  /** ALIGN(start + 8 + size) is the start plus the framed size. */
  lemma EndOfFrame(start: nat, m: message)
    requires start % 8 == 0
    ensures Align(start + 8 + |m|) == start + Total(|m|) && Align(start + |m| + 8) == start + Total(|m|)
  {
    AlignAfter(start, |m| + 8);
  }
}
