/** msgq_repo/msgq/msgq.cc with each call as one step on the shared queue: what the calls do, and the
    invariant that every one of them keeps. */
module MsgqCalls {
  import opened MsgqLayout

  const NUM_READERS: nat := 15

  /** A cycle count and a position, as PACK64 keeps them in one 64-bit word; the count is not bounded here. */
  datatype Cursor = Cursor(cycles: nat, pos: nat)

  /** The shared memory. */
  datatype Queue = Queue(numReaders: nat, write: Cursor, writeUid: nat,
                         readers: seq<Cursor>, valids: seq<bool>, uids: seq<nat>, data: seq<octet>)
  {
    predicate WellFormed() {
      && |readers| == |valids| == |uids| == NUM_READERS
      && numReaders <= NUM_READERS
      && |data| < 0xFFFF_FFFF
    }
  }

  /** The subscriber's part of msgq_queue_t. */
  datatype Handle = Handle(id: nat, uid: nat, conflate: bool)

  // ----- the calls -----

  /** msgq_reset_reader */
  function Reset(q: Queue, id: nat): (q': Queue)
    requires q.WellFormed() && id < NUM_READERS
    ensures q'.WellFormed()
  {
    q.(valids := q.valids[id := true], readers := q.readers[id := q.write])
  }

  /** msgq_init_publisher */
  function InitPublisher(q: Queue, uid: nat): (q': Queue)
    requires q.WellFormed()
    ensures q'.WellFormed()
  {
    q.(writeUid := uid, numReaders := 0, valids := seq(NUM_READERS, _ => false), uids := seq(NUM_READERS, _ => 0))
  }

  /** Every subscriber is kicked out. */
  function Evict(q: Queue): (q': Queue)
    requires q.WellFormed()
    ensures q'.WellFormed()
  {
    q.(numReaders := 0, valids := seq(NUM_READERS, _ => false), uids := seq(NUM_READERS, _ => 0))
  }

  /** Taking the next free slot, with a reset. */
  function Claim(q: Queue, uid: nat): (q': Queue)
    requires q.WellFormed() && q.numReaders < NUM_READERS
    ensures q'.WellFormed()
  {
    var id := q.numReaders;
    Reset(q.(numReaders := id + 1, valids := q.valids[id := false],
             readers := q.readers[id := Cursor(0, 0)], uids := q.uids[id := uid]), id)
  }

  /** msgq_init_subscriber: the next slot, after an eviction when there is none. */
  function InitSubscriber(q: Queue, uid: nat): (r: (Queue, nat))
    requires q.WellFormed()
    ensures r.0.WellFormed() && r.1 < NUM_READERS
  {
    var q0 := if q.numReaders + 1 > NUM_READERS then Evict(q) else q;
    (Claim(q0, uid), q0.numReaders)
  }

  /** The frame does not fit before the end with eight bytes to spare. */
  predicate Crowded(size: nat, pos: nat, m: message) {
    size - pos - Total(|m|) - 8 <= 0
  }

  predicate MustWrap(q: Queue, m: message) {
    Crowded(|q.data|, q.write.pos, m)
  }

  /** Readers at a position in lo..hi whose cycle is not the writer's lose their validity. */
  function Invalidate(q: Queue, cycles: nat, lo: int, hi: int): (valids: seq<bool>)
    requires q.WellFormed()
    ensures |valids| == NUM_READERS
  {
    seq(NUM_READERS, i requires 0 <= i < NUM_READERS =>
      q.valids[i] && !(i < q.numReaders && lo <= q.readers[i].pos < hi && q.readers[i].cycles != cycles))
  }

  /** The wrap tag, the readers beyond it, and the writer at the start of the next cycle. */
  function Wrap(q: Queue): (q': Queue)
    requires q.WellFormed() && q.write.pos + 8 <= |q.data|
    ensures q'.WellFormed()
  {
    q.(data := PutWrap(q.data, q.write.pos),
       valids := Invalidate(q, q.write.cycles, q.write.pos + 1, 0x1_0000_0000),
       write := Cursor(q.write.cycles + 1, 0))
  }

  /** The readers in the area, the frame, and the writer behind it. */
  function Append(q: Queue, m: message): (q': Queue)
    requires q.WellFormed() && q.write.pos + Total(|m|) <= |q.data|
    ensures q'.WellFormed()
  {
    var end := q.write.pos + Total(|m|);
    q.(valids := Invalidate(q, q.write.cycles, q.write.pos, end),
       data := PutFrame(q.data, q.write.pos, m),
       write := Cursor(q.write.cycles, end))
  }

  /** How msgq_msg_send ends: it returns -1, its assertion stops the process, or it returns the size. */
  datatype SendOutcome = Killed | Aborted | Sent(size: nat)

  predicate Fits(size: nat, m: message) {
    3 * Total(|m|) <= size
  }

  function SendOutcomeOf(q: Queue, uid: nat, m: message): SendOutcome {
    if uid != q.writeUid then Killed else if !Fits(|q.data|, m) then Aborted else Sent(|m|)
  }

  /** The write pointer leaves room for a tag. */
  predicate RoomForTag(size: nat, pos: nat) {
    pos == 0 || pos + 8 < size
  }

  /** msgq_msg_send */
  function Send(q: Queue, uid: nat, m: message): (q': Queue)
    requires q.WellFormed() && RoomForTag(|q.data|, q.write.pos)
    ensures q'.WellFormed()
  {
    if SendOutcomeOf(q, uid, m).Sent? then Append(if MustWrap(q, m) then Wrap(q) else q, m) else q
  }

  /** How one pass of msgq_msg_recv ends. */
  datatype Outcome = Again | Empty | Got(m: message) | Crash

  datatype Pass = Pass(q: Queue, h: Handle, outcome: Outcome)

  /** The reader's own slot is still its own, and marked valid. */
  predicate Live(q: Queue, h: Handle) {
    h.id < |q.uids| && q.uids[h.id] == h.uid
  }

  predicate Synced(q: Queue, h: Handle) {
    Live(q, h) && |q.valids| == |q.uids| && q.valids[h.id]
  }

  /** A cursor at which there is a whole tag to read, and a message if the tag announces one. */
  predicate Readable(q: Queue, p: nat) {
    && p + 8 <= |q.data|
    && var size := TagAt(q.data, p);
       size == -1 || (0 < size < |q.data| && p + Total(size) <= |q.data|)
  }

  /** The queue with the reader of a handle moved to a cursor. */
  function Moved(q: Queue, h: Handle, to: Cursor): (q': Queue)
    requires q.WellFormed() && h.id < NUM_READERS
    ensures q'.WellFormed()
  {
    q.(readers := q.readers[h.id := to])
  }

  /** A synchronised reader that is not at the writer has a whole tag to read. */
  predicate CanPass(q: Queue, h: Handle) {
    && q.WellFormed() && h.id < NUM_READERS
    && (Synced(q, h) && q.readers[h.id].pos != q.write.pos ==> q.readers[h.id].pos + 8 <= |q.data|)
  }

  /** One pass of msgq_msg_recv, from start to a return or the next goto start. */
  function RecvPass(q: Queue, h: Handle, uid: nat): (r: Pass)
    requires CanPass(q, h)
    ensures r.q.WellFormed() && r.h.id < NUM_READERS
  {
    if !Live(q, h) then
      var (q', id) := InitSubscriber(q, uid);
      Pass(q', Handle(id, uid, h.conflate), Again)
    else if !q.valids[h.id] then
      Pass(Reset(q, h.id), h, Again)
    else
      var read := q.readers[h.id];
      if read.pos == q.write.pos then
        Pass(q, h, Empty)
      else
        var size := TagAt(q.data, read.pos);
        if size == -1 then
          Pass(Moved(q, h, Cursor(read.cycles + 1, 0)), h, Again)
        else if !Readable(q, read.pos) then
          Pass(q, h, Crash)
        else
          var next := Cursor(read.cycles, read.pos + Total(size));
          var q' := Moved(q, h, next);
          if h.conflate && next.pos != q.write.pos then
            Pass(q', h, Again)
          else
            Pass(q', h, Got(q.data[read.pos + 8..read.pos + 8 + size]))
  }

  // ----- the invariant -----

  /** The messages sent, the first one of the cycle before the writer's, and the first one of the writer's. */
  datatype History = History(sent: log, prev: nat, base: nat)
  {
    ghost predicate WellFormed() {
      && prev <= base <= |sent|
      && forall i :: 0 <= i < |sent| ==> sent[i] != []
    }

    /** Where message i of the writer's cycle starts; the writer itself for i == |sent|. */
    ghost function Cur(i: nat): int
      requires WellFormed() && i <= |sent|
    {
      Offset(sent, i) - Offset(sent, base)
    }

    /** Where message i of the cycle before starts; its wrap tag for i == base. */
    ghost function Old(i: nat): int
      requires WellFormed() && i <= |sent|
    {
      Offset(sent, i) - Offset(sent, prev)
    }
  }

  /** What is left of the cycle before the writer's, and its wrap tag. */
  ghost predicate LaidBefore(data: seq<octet>, write: Cursor, h: History)
    requires h.WellFormed()
  {
    && 0 < h.Old(h.base) && h.Old(h.base) + 8 < |data|
    && (forall i {:trigger h.Old(i)} :: h.prev <= i < h.base && write.pos <= h.Old(i) ==>
          FrameAt(data, h.Old(i), h.sent[i]))
    && (write.pos <= h.Old(h.base) ==> WrapAt(data, h.Old(h.base)))
  }

  /** The ring holds the messages of the writer's cycle, and the cycle before ended because the first of
      them did not fit behind it. */
  ghost predicate Laid(data: seq<octet>, write: Cursor, h: History) {
    && h.WellFormed()
    && RoomForTag(|data|, write.pos)
    && write.pos == h.Cur(|h.sent|)
    && (write.pos == 0 ==> h.sent == [])
    && (forall i :: 0 <= i < |h.sent| ==> Fits(|data|, h.sent[i]))
    && (forall i {:trigger h.Cur(i)} :: h.base <= i < |h.sent| ==> FrameAt(data, h.Cur(i), h.sent[i]))
    && (write.cycles > 0 ==>
          && LaidBefore(data, write, h)
          && h.base < |h.sent| && |data| <= h.Old(h.base) + Total(|h.sent[h.base]|) + 8)
  }

  /** Position p is where message i is, or will be, read. */
  ghost predicate Next(write: Cursor, h: History, p: nat, i: nat)
    requires h.WellFormed()
  {
    || (p <= write.pos && h.base <= i <= |h.sent| && h.Cur(i) == p)
    || (write.pos < p && write.cycles > 0 && h.prev <= i <= h.base && h.Old(i) == p)
  }

  /** A cursor on an intact chain of frames, whose cycle count does not run ahead. */
  ghost predicate OnChain(write: Cursor, h: History, read: Cursor)
    requires h.WellFormed()
  {
    && (exists k :: Next(write, h, read.pos, k))
    && read.cycles <= write.cycles
    && (write.pos < read.pos ==> read.cycles < write.cycles)
  }

  /** A valid reader has a slot in use and is on the chain. */
  ghost predicate ReaderFine(q: Queue, h: History, i: nat)
    requires q.WellFormed() && h.WellFormed() && i < NUM_READERS
  {
    i < q.numReaders && OnChain(q.write, h, q.readers[i])
  }

  ghost predicate Inv(q: Queue, h: History) {
    && q.WellFormed() && Laid(q.data, q.write, h)
    && (forall i :: 0 <= i < NUM_READERS && q.valids[i] ==> ReaderFine(q, h, i))
    && (forall i :: 0 <= i < NUM_READERS && q.uids[i] != 0 ==> i < q.numReaders)
  }

  /** A position determines the message that is next there. */
  lemma NextUnique(q: Queue, h: History, p: nat, i: nat, j: nat)
    requires h.WellFormed() && Next(q.write, h, p, i) && Next(q.write, h, p, j)
    ensures i == j
  {
    if i < j {
      OffsetGrows(h.sent, i, j);
    } else if j < i {
      OffsetGrows(h.sent, j, i);
    }
  }

  /** A newly created, zero-filled queue. */
  predicate Zeroed(q: Queue) {
    && q.WellFormed() && q.numReaders == 0 && q.write == Cursor(0, 0)
    && (forall i :: 0 <= i < NUM_READERS ==> !q.valids[i] && q.uids[i] == 0)
  }

  lemma ZeroedInv(q: Queue, h: History)
    requires Zeroed(q) && h.sent == [] && h.prev == 0 && h.base == 0
    ensures Inv(q, h)
  {}

  // ----- the calls keep it -----

  lemma WriterIsNext(q: Queue, h: History)
    requires h.WellFormed() && q.write.pos == h.Cur(|h.sent|)
    ensures Next(q.write, h, q.write.pos, |h.sent|)
  {}

  lemma ResetKeeps(q: Queue, h: History, id: nat)
    requires Inv(q, h) && id < q.numReaders
    ensures Inv(Reset(q, id), h)
  {
    var q' := Reset(q, id);
    WriterIsNext(q', h);
    forall i | 0 <= i < NUM_READERS && q'.valids[i]
      ensures ReaderFine(q', h, i)
    {
      if i != id {
        ReaderKept(q, q', h, i);
      }
    }
  }

  /** A reader whose slot is untouched stays fine while the writer stands still. */
  lemma ReaderKept(q: Queue, q': Queue, h: History, i: nat)
    requires q.WellFormed() && q'.WellFormed() && h.WellFormed() && i < NUM_READERS && ReaderFine(q, h, i)
    requires q'.write == q.write && q'.readers[i] == q.readers[i] && i < q'.numReaders
    ensures ReaderFine(q', h, i)
  {
    var k :| Next(q.write, h, q.readers[i].pos, k);
    assert Next(q'.write, h, q.readers[i].pos, k);
  }

  lemma InitPublisherKeeps(q: Queue, h: History, uid: nat)
    requires Inv(q, h)
    ensures Inv(InitPublisher(q, uid), h)
  {}

  lemma EvictKeeps(q: Queue, h: History)
    requires Inv(q, h)
    ensures Inv(Evict(q), h)
  {}

  lemma InitSubscriberKeeps(q: Queue, h: History, uid: nat)
    requires Inv(q, h)
    ensures var (q', id) := InitSubscriber(q, uid);
            && Inv(q', h) && q'.write == q.write && q'.data == q.data && q'.writeUid == q.writeUid
            && q'.uids[id] == uid && q'.valids[id] && q'.readers[id] == q.write
  {
    EvictKeeps(q, h);
    ClaimKeeps(if q.numReaders + 1 > NUM_READERS then Evict(q) else q, h, uid);
  }

  lemma ClaimKeeps(q: Queue, h: History, uid: nat)
    requires Inv(q, h) && q.numReaders < NUM_READERS
    ensures var q', id := Claim(q, uid), q.numReaders;
            && Inv(q', h) && q'.write == q.write && q'.data == q.data && q'.writeUid == q.writeUid
            && q'.uids[id] == uid && q'.valids[id] && q'.readers[id] == q.write
  {
    var id := q.numReaders;
    var q1 := q.(numReaders := id + 1, valids := q.valids[id := false],
                 readers := q.readers[id := Cursor(0, 0)], uids := q.uids[id := uid]);
    forall i | 0 <= i < NUM_READERS && q1.valids[i]
      ensures ReaderFine(q1, h, i)
    {
      ReaderKept(q, q1, h, i);
    }
    ResetKeeps(q1, h, id);
  }

  // ----- send keeps it -----

  /** The history after a wrap: the writer's cycle becomes the one before. */
  function WrapHistory(h: History): History {
    History(h.sent, h.base, |h.sent|)
  }

  function AppendHistory(h: History, m: message): History {
    h.(sent := h.sent + [m])
  }

  /** The history after a send that goes through. */
  function SendHistory(q: Queue, h: History, m: message): History {
    AppendHistory(if MustWrap(q, m) then WrapHistory(h) else h, m)
  }

  /** Before a frame is appended: all that is needed of the ring and the readers, whether or not the
      writer has just wrapped. */
  ghost predicate Ready(q: Queue, h: History, t: nat) {
    && q.WellFormed() && h.WellFormed()
    && q.write.pos == h.Cur(|h.sent|) && 0 < t && q.write.pos + t + 8 < |q.data| && 3 * t <= |q.data|
    && (forall i :: 0 <= i < |h.sent| ==> Fits(|q.data|, h.sent[i]))
    && (q.write.cycles > 0 ==>
          |q.data| <= h.Old(h.base) + (if h.base < |h.sent| then Total(|h.sent[h.base]|) else t) + 8)
    && (forall i {:trigger h.Cur(i)} :: h.base <= i < |h.sent| ==> FrameAt(q.data, h.Cur(i), h.sent[i]))
    && (q.write.cycles > 0 ==> LaidBefore(q.data, q.write, h))
    && (forall i :: 0 <= i < NUM_READERS && q.valids[i] ==> ReaderFine(q, h, i))
    && (forall i :: 0 <= i < NUM_READERS && q.uids[i] != 0 ==> i < q.numReaders)
  }

  lemma CurOrder(h: History, i: nat, j: nat)
    requires h.WellFormed() && i < j <= |h.sent|
    ensures h.Cur(i) + Total(|h.sent[i]|) <= h.Cur(j)
    ensures h.Old(i) + Total(|h.sent[i]|) <= h.Old(j)
  {
    OffsetGrows(h.sent, i, j);
  }

  lemma AppendOffsets(h: History, m: message, i: nat)
    requires h.WellFormed() && m != [] && i <= |h.sent|
    ensures AppendHistory(h, m).WellFormed()
    ensures AppendHistory(h, m).Cur(i) == h.Cur(i) && AppendHistory(h, m).Old(i) == h.Old(i)
    ensures AppendHistory(h, m).Cur(|h.sent| + 1) == h.Cur(|h.sent|) + Total(|m|)
  {
    OffsetOfLonger(h.sent, m, i);
    OffsetOfLonger(h.sent, m, h.base);
    OffsetOfLonger(h.sent, m, h.prev);
    OffsetOfLonger(h.sent, m, |h.sent|);
  }

  lemma AppendCur(q: Queue, h: History, m: message, i: nat)
    requires m != [] && |m| < 0x1_0000_0000 && Ready(q, h, Total(|m|)) && h.base <= i <= |h.sent|
    ensures AppendHistory(h, m).WellFormed()
    ensures FrameAt(Append(q, m).data, AppendHistory(h, m).Cur(i), AppendHistory(h, m).sent[i])
  {
    var p := q.write.pos;
    AppendOffsets(h, m, i);
    if i < |h.sent| {
      PutFrameFrame(q.data, p, m);
      CurOrder(h, i, |h.sent|);
      FrameKept(q.data, Append(q, m).data, h.Cur(i), h.sent[i], 0, p);
    } else {
      PutFrameWorks(q.data, p, m);
    }
  }

  lemma AppendBefore(q: Queue, h: History, m: message)
    requires m != [] && |m| < 0x1_0000_0000 && Ready(q, h, Total(|m|)) && q.write.cycles > 0
    ensures AppendHistory(h, m).WellFormed() && LaidBefore(Append(q, m).data, Append(q, m).write, AppendHistory(h, m))
  {
    var q', h' := Append(q, m), AppendHistory(h, m);
    var end := q.write.pos + 8 + |m|;
    PutFrameFrame(q.data, q.write.pos, m);
    AppendOffsets(h, m, h.base);
    forall i | h'.prev <= i < h'.base && q'.write.pos <= h'.Old(i)
      ensures FrameAt(q'.data, h'.Old(i), h'.sent[i])
    {
      AppendOffsets(h, m, i);
      FrameKept(q.data, q'.data, h.Old(i), h.sent[i], end, |q.data|);
    }
    if q'.write.pos <= h.Old(h.base) {
      WrapKept(q.data, q'.data, h.Old(h.base), end, |q.data|);
    }
  }

  lemma AppendBasics(q: Queue, h: History, m: message)
    requires m != [] && |m| < 0x1_0000_0000 && Ready(q, h, Total(|m|))
    ensures var q', h' := Append(q, m), AppendHistory(h, m);
            && h'.WellFormed() && RoomForTag(|q'.data|, q'.write.pos) && q'.write.pos == h'.Cur(|h'.sent|) > 0
            && forall i :: 0 <= i < |h'.sent| ==> Fits(|q'.data|, h'.sent[i])
  {
    AppendOffsets(h, m, |h.sent|);
  }

  lemma AppendLaid(q: Queue, h: History, m: message)
    requires m != [] && |m| < 0x1_0000_0000 && Ready(q, h, Total(|m|))
    ensures Laid(Append(q, m).data, Append(q, m).write, AppendHistory(h, m))
  {
    var h' := AppendHistory(h, m);
    AppendBasics(q, h, m);
    forall i | h'.base <= i < |h'.sent|
      ensures FrameAt(Append(q, m).data, h'.Cur(i), h'.sent[i])
    {
      AppendCur(q, h, m, i);
    }
    if q.write.cycles > 0 {
      AppendBefore(q, h, m);
      AppendEnds(q, h, m);
    }
  }

  /** The cycle before still ended because the first message of this one did not fit. */
  lemma AppendEnds(q: Queue, h: History, m: message)
    requires m != [] && |m| < 0x1_0000_0000 && Ready(q, h, Total(|m|)) && q.write.cycles > 0
    ensures var h' := AppendHistory(h, m);
            && h'.WellFormed() && h'.base < |h'.sent|
            && |q.data| <= h'.Old(h'.base) + Total(|h'.sent[h'.base]|) + 8
  {
    AppendOffsets(h, m, h.base);
  }

  /** After an append a position below the old writer or beyond the new one keeps its next message; the
      new writer's position has nothing next. */
  lemma AppendNext(q: Queue, h: History, m: message, p: nat, k: nat)
    requires m != [] && h.WellFormed() && q.WellFormed() && q.write.pos + Total(|m|) <= |q.data| && |m| < 0x1_0000_0000
    requires q.write.pos == h.Cur(|h.sent|) && Next(q.write, h, p, k)
    requires p <= q.write.pos || q.write.pos + Total(|m|) <= p
    ensures AppendHistory(h, m).WellFormed()
    ensures Next(Append(q, m).write, AppendHistory(h, m), p, if p == q.write.pos + Total(|m|) then |h.sent| + 1 else k)
  {
    AppendOffsets(h, m, k);
  }

  /** A reader still valid after an append is outside the area written. */
  lemma AppendSpares(q: Queue, m: message, i: nat)
    requires q.WellFormed() && i < NUM_READERS && q.write.pos + Total(|m|) <= |q.data| && Append(q, m).valids[i]
    requires q.valids[i] ==>
               i < q.numReaders && (q.write.pos < q.readers[i].pos ==> q.readers[i].cycles < q.write.cycles)
    ensures q.valids[i] && (q.readers[i].pos <= q.write.pos || q.write.pos + Total(|m|) <= q.readers[i].pos)
    ensures q.readers[i].pos == q.write.pos ==> q.readers[i].cycles == q.write.cycles
  {}

  /** A reader still valid after an append is fine, and what is next for it has not gone back. */
  lemma AppendReader(q: Queue, h: History, m: message, i: nat, k: nat)
    requires m != [] && |m| < 0x1_0000_0000 && Ready(q, h, Total(|m|))
    requires i < NUM_READERS && Append(q, m).valids[i] && Next(q.write, h, q.readers[i].pos, k)
    ensures AppendHistory(h, m).WellFormed() && ReaderFine(Append(q, m), AppendHistory(h, m), i)
    ensures k <= |h.sent|
    ensures Next(Append(q, m).write, AppendHistory(h, m), q.readers[i].pos,
                 if q.readers[i].pos == q.write.pos + Total(|m|) then |h.sent| + 1 else k)
  {
    AppendSpares(q, m, i);
    AppendNext(q, h, m, q.readers[i].pos, k);
  }

  lemma AppendKeeps(q: Queue, h: History, m: message)
    requires m != [] && |m| < 0x1_0000_0000 && Ready(q, h, Total(|m|))
    ensures Inv(Append(q, m), AppendHistory(h, m))
  {
    AppendLaid(q, h, m);
    forall i | 0 <= i < NUM_READERS && Append(q, m).valids[i]
      ensures ReaderFine(Append(q, m), AppendHistory(h, m), i)
    {
      assert ReaderFine(q, h, i);
      var k :| Next(q.write, h, q.readers[i].pos, k);
      AppendReader(q, h, m, i, k);
    }
  }

  /** Positions on the chain lie inside the ring, with room for a tag. */
  lemma NextInside(q: Queue, h: History, p: nat, k: nat)
    requires Laid(q.data, q.write, h) && Next(q.write, h, p, k)
    ensures p == 0 || p + 8 < |q.data|
    ensures k <= |h.sent|
  {
    if q.write.pos < p && k < h.base {
      CurOrder(h, k, h.base);
    }
  }

  /** A wrap is never called for at the very start of the ring, and leaves room before the wrap tag. */
  lemma WrapRoom(q: Queue, m: message)
    requires m != [] && q.WellFormed() && RoomForTag(|q.data|, q.write.pos) && Fits(|q.data|, m) && MustWrap(q, m)
    ensures 0 < Total(|m|) <= q.write.pos && Total(|m|) + 8 < |q.data| && q.write.pos + 8 < |q.data|
  {}

  /** A reader still valid after a wrap is at or before the wrap tag. */
  lemma WrapSpares(q: Queue, h: History, i: nat)
    requires Inv(q, h) && i < NUM_READERS && q.write.pos + 8 <= |q.data| && Wrap(q).valids[i]
    ensures q.valids[i] && q.readers[i].pos <= q.write.pos && q.readers[i].cycles <= q.write.cycles
  {
    var k :| Next(q.write, h, q.readers[i].pos, k);
    NextInside(q, h, q.readers[i].pos, k);
  }

  lemma WrapNext(q: Queue, h: History, p: nat, k: nat)
    requires q.WellFormed() && Laid(q.data, q.write, h) && Next(q.write, h, p, k)
             && p <= q.write.pos && q.write.pos + 8 <= |q.data|
    ensures Next(Wrap(q).write, WrapHistory(h), p, if p == 0 then |h.sent| else k)
  {}

  lemma WrapLaid(q: Queue, h: History, i: nat)
    requires q.WellFormed() && Laid(q.data, q.write, h) && 0 < q.write.pos && h.base <= i < |h.sent|
    ensures FrameAt(Wrap(q).data, WrapHistory(h).Old(i), h.sent[i])
  {
    PutWrapFrame(q.data, q.write.pos);
    CurOrder(h, i, |h.sent|);
    FrameKept(q.data, Wrap(q).data, h.Cur(i), h.sent[i], 0, q.write.pos);
  }

  /** A wrap sets the stage for the append that follows it. */
  lemma WrapReady(q: Queue, h: History, m: message)
    requires Inv(q, h) && m != [] && Fits(|q.data|, m) && MustWrap(q, m)
    ensures q.write.pos + 8 <= |q.data| && Ready(Wrap(q), WrapHistory(h), Total(|m|))
  {
    WrapRoom(q, m);
    var q', h' := Wrap(q), WrapHistory(h);
    PutWrapWorks(q.data, q.write.pos);
    forall i | h'.prev <= i < h'.base
      ensures FrameAt(q'.data, h'.Old(i), h'.sent[i])
    {
      WrapLaid(q, h, i);
    }
    forall i | 0 <= i < NUM_READERS && q'.valids[i]
      ensures ReaderFine(q', h', i)
    {
      WrapSpares(q, h, i);
      var k :| Next(q.write, h, q.readers[i].pos, k);
      WrapNext(q, h, q.readers[i].pos, k);
    }
  }

  lemma NoWrapReady(q: Queue, h: History, m: message)
    requires Inv(q, h) && m != [] && Fits(|q.data|, m) && !MustWrap(q, m)
    ensures Ready(q, h, Total(|m|))
  {}

  /** A send that goes through keeps the invariant. */
  lemma SendKeeps(q: Queue, h: History, uid: nat, m: message)
    requires Inv(q, h) && m != [] && SendOutcomeOf(q, uid, m).Sent?
    ensures Inv(Send(q, uid, m), SendHistory(q, h, m))
  {
    if MustWrap(q, m) {
      WrapReady(q, h, m);
      AppendKeeps(Wrap(q), WrapHistory(h), m);
    } else {
      NoWrapReady(q, h, m);
      AppendKeeps(q, h, m);
    }
  }

  /** A reader still valid after a wrap and the append behind it is between the new frame and the wrap tag. */
  lemma WrapThenAppendSpares(q: Queue, h: History, m: message, i: nat)
    requires Inv(q, h) && m != [] && Fits(|q.data|, m) && MustWrap(q, m) && q.write.pos + 8 <= |q.data|
    requires i < NUM_READERS && Append(Wrap(q), m).valids[i]
    ensures q.valids[i] && Total(|m|) <= q.readers[i].pos <= q.write.pos
  {
    assert Wrap(q).valids[i];
    WrapSpares(q, h, i);
    assert q.valids[i] ==> i < q.numReaders by {
      assert ReaderFine(q, h, i);
    }
    AppendSpares(Wrap(q), m, i);
  }

  lemma WrapThenAppendNext(q: Queue, h: History, m: message, p: nat, k: nat)
    requires q.WellFormed() && Laid(q.data, q.write, h) && m != [] && |m| < 0x1_0000_0000 && q.write.pos + 8 <= |q.data|
    requires Total(|m|) <= |q.data| && Total(|m|) <= p <= q.write.pos && Next(q.write, h, p, k)
    ensures AppendHistory(WrapHistory(h), m).WellFormed()
    ensures Next(Append(Wrap(q), m).write, AppendHistory(WrapHistory(h), m),
                 p, if p == Total(|m|) then |h.sent| + 1 else k)
  {
    WrapNext(q, h, p, k);
    AppendNext(Wrap(q), WrapHistory(h), m, p, k);
  }

  /** A reader still valid after a send has not moved, and the message next for it has not gone back: it is
      the same one unless the writer has come up to the reader from behind. */
  lemma SendReader(q: Queue, h: History, uid: nat, m: message, i: nat, k: nat)
    requires Inv(q, h) && m != [] && SendOutcomeOf(q, uid, m).Sent?
    requires i < NUM_READERS && Send(q, uid, m).valids[i] && Next(q.write, h, q.readers[i].pos, k)
    ensures q.valids[i] && Send(q, uid, m).readers[i] == q.readers[i] && k <= |h.sent|
    ensures SendHistory(q, h, m).WellFormed()
    ensures Next(Send(q, uid, m).write, SendHistory(q, h, m), q.readers[i].pos,
                 if q.readers[i].pos == Send(q, uid, m).write.pos then |h.sent| + 1 else k)
  {
    if MustWrap(q, m) {
      WrapRoom(q, m);
      WrapThenAppendSpares(q, h, m, i);
      NextInside(q, h, q.readers[i].pos, k);
      WrapThenAppendNext(q, h, m, q.readers[i].pos, k);
    } else {
      NoWrapReady(q, h, m);
      AppendSpares(q, m, i);
      AppendReader(q, h, m, i, k);
    }
  }

  // ----- recv -----

  /** Beyond the writer, where the first message of its cycle is next, lies the wrap tag. */
  lemma AtWrapTag(q: Queue, h: History, p: nat, k: nat)
    requires q.WellFormed() && Laid(q.data, q.write, h) && Next(q.write, h, p, k) && q.write.pos < p && k == h.base
    ensures p + 8 <= |q.data| && TagAt(q.data, p) == -1
  {
    TagReads(q.data, p, -1);
  }

  /** Anywhere else on the chain but at the writer lies the message that is next. */
  lemma AtFrame(q: Queue, h: History, p: nat, k: nat)
    requires q.WellFormed() && Laid(q.data, q.write, h) && Next(q.write, h, p, k) && p != q.write.pos
    requires !(q.write.pos < p && k == h.base)
    ensures k < |h.sent| && FrameAt(q.data, p, h.sent[k])
    ensures p < q.write.pos ==> p + Total(|h.sent[k]|) <= q.write.pos
    ensures Next(q.write, h, p + Total(|h.sent[k]|), k + 1)
    ensures k + 1 == |h.sent| ==> p + Total(|h.sent[k]|) == q.write.pos
  {
    if p < q.write.pos {
      if k < |h.sent| {
        CurOrder(h, k, |h.sent|);
      }
    } else {
      CurOrder(h, k, h.base);
    }
  }

  lemma FrameReadable(q: Queue, p: nat, m: message)
    requires q.WellFormed() && m != [] && FrameAt(q.data, p, m)
    ensures p + 8 <= |q.data| && TagAt(q.data, p) == |m| && Readable(q, p)
  {
    TagReads(q.data, p, |m|);
  }

  /** Whether the reader of a handle stands on the chain where message k is next. */
  ghost predicate Stands(q: Queue, hist: History, h: Handle, k: nat) {
    && q.WellFormed() && hist.WellFormed() && h.id < NUM_READERS
    && Synced(q, h) && Next(q.write, hist, q.readers[h.id].pos, k)
  }

  lemma SyncedStands(q: Queue, hist: History, h: Handle)
    requires Inv(q, hist) && h.id < NUM_READERS && Synced(q, h)
    ensures exists k: nat :: Stands(q, hist, h, k) && k <= |hist.sent|
  {
    assert ReaderFine(q, hist, h.id);
    var k :| Next(q.write, hist, q.readers[h.id].pos, k);
    NextInside(q, hist, q.readers[h.id].pos, k);
    assert Stands(q, hist, h, k);
  }

  lemma PassAllowed(q: Queue, hist: History, h: Handle)
    requires Inv(q, hist) && h.id < NUM_READERS
    ensures CanPass(q, h)
  {
    if Synced(q, h) {
      SyncedStands(q, hist, h);
      var k :| Stands(q, hist, h, k);
      NextInside(q, hist, q.readers[h.id].pos, k);
    }
  }

  /** A pass at the writer returns 0 and changes nothing. */
  lemma PassAtWriter(q: Queue, hist: History, h: Handle, uid: nat, k: nat)
    requires Inv(q, hist) && Stands(q, hist, h, k) && q.readers[h.id].pos == q.write.pos
    ensures CanPass(q, h) && RecvPass(q, h, uid) == Pass(q, h, Empty) && k == |hist.sent|
  {
    WriterIsNext(q, hist);
    NextUnique(q, hist, q.write.pos, k, |hist.sent|);
  }

  /** What a pass makes of the wrap tag. */
  lemma PassWraps(q: Queue, h: Handle, uid: nat)
    requires CanPass(q, h) && Synced(q, h) && q.readers[h.id].pos != q.write.pos
             && TagAt(q.data, q.readers[h.id].pos) == -1
    ensures RecvPass(q, h, uid) == Pass(Moved(q, h, Cursor(q.readers[h.id].cycles + 1, 0)), h, Again)
  {}

  /** A pass at the wrap tag goes to the start of the ring, where the same message is next. */
  lemma PassAtWrap(q: Queue, hist: History, h: Handle, uid: nat, k: nat)
    requires Inv(q, hist) && Stands(q, hist, h, k) && q.write.pos < q.readers[h.id].pos && k == hist.base
    ensures CanPass(q, h)
    ensures var q' := Moved(q, h, Cursor(q.readers[h.id].cycles + 1, 0));
            RecvPass(q, h, uid) == Pass(q', h, Again) && Inv(q', hist) && Stands(q', hist, h, k)
  {
    assert ReaderFine(q, hist, h.id);
    AtWrapTag(q, hist, q.readers[h.id].pos, k);
    PassWraps(q, h, uid);
    var q' := Moved(q, h, Cursor(q.readers[h.id].cycles + 1, 0));
    assert Next(q'.write, hist, 0, hist.base);
    OthersKept(q, q', hist, h.id);
  }

  /** Where a reader goes from a frame. */
  function Past(read: Cursor, m: message): Cursor {
    Cursor(read.cycles, read.pos + Total(|m|))
  }

  /** What a pass makes of a frame. */
  lemma PassReads(q: Queue, h: Handle, uid: nat, m: message)
    requires CanPass(q, h) && Synced(q, h) && q.readers[h.id].pos != q.write.pos
    requires m != [] && FrameAt(q.data, q.readers[h.id].pos, m) && Readable(q, q.readers[h.id].pos)
    requires TagAt(q.data, q.readers[h.id].pos) == |m|
    ensures var to := Past(q.readers[h.id], m);
            RecvPass(q, h, uid) == Pass(Moved(q, h, to), h,
                 if h.conflate && to.pos != q.write.pos then Again else Got(m))
  {}

  /** Anywhere else a pass takes message k and stands before message k + 1; conflation drops the message
      unless it is the last. */
  lemma PassAtFrame(q: Queue, hist: History, h: Handle, uid: nat, k: nat)
    requires Inv(q, hist) && Stands(q, hist, h, k) && q.readers[h.id].pos != q.write.pos
    requires !(q.write.pos < q.readers[h.id].pos && k == hist.base)
    ensures CanPass(q, h) && k < |hist.sent|
    ensures var to := Past(q.readers[h.id], hist.sent[k]);
            && RecvPass(q, h, uid)
               == Pass(Moved(q, h, to), h, if h.conflate && to.pos != q.write.pos then Again else Got(hist.sent[k]))
            && Inv(Moved(q, h, to), hist) && Stands(Moved(q, h, to), hist, h, k + 1)
            && (q.readers[h.id].pos < q.write.pos ==> to.pos <= q.write.pos) && to.pos <= |q.data|
            && (k + 1 == |hist.sent| ==> to.pos == q.write.pos)
  {
    AtFrame(q, hist, q.readers[h.id].pos, k);
    FrameReadable(q, q.readers[h.id].pos, hist.sent[k]);
    PassReads(q, h, uid, hist.sent[k]);
    FrameKeeps(q, hist, h, k);
  }

  lemma FrameKeeps(q: Queue, hist: History, h: Handle, k: nat)
    requires Inv(q, hist) && Stands(q, hist, h, k) && k < |hist.sent|
    requires Next(q.write, hist, q.readers[h.id].pos + Total(|hist.sent[k]|), k + 1)
    requires q.readers[h.id].pos < q.write.pos ==> q.readers[h.id].pos + Total(|hist.sent[k]|) <= q.write.pos
    requires q.readers[h.id].pos != q.write.pos
    ensures var q' := Moved(q, h, Past(q.readers[h.id], hist.sent[k]));
            Inv(q', hist) && Stands(q', hist, h, k + 1)
  {
    assert ReaderFine(q, hist, h.id);
    var q' := Moved(q, h, Past(q.readers[h.id], hist.sent[k]));
    assert Next(q'.write, hist, q'.readers[h.id].pos, k + 1);
    OthersKept(q, q', hist, h.id);
  }

  /** Moving one reader along leaves the others fine. */
  lemma OthersKept(q: Queue, q': Queue, hist: History, id: nat)
    requires Inv(q, hist) && id < NUM_READERS && q'.WellFormed()
    requires q' == q.(readers := q'.readers) && q'.readers == q.readers[id := q'.readers[id]]
    requires q.valids[id] ==> ReaderFine(q', hist, id)
    ensures Inv(q', hist)
  {
    forall i | 0 <= i < NUM_READERS && q'.valids[i]
      ensures ReaderFine(q', hist, i)
    {
      if i != id {
        ReaderKept(q, q', hist, i);
      }
    }
  }

  /** What an evicted or invalid reader's pass does: it starts over at the writer. */
  lemma PassResync(q: Queue, hist: History, h: Handle, uid: nat)
    requires Inv(q, hist) && h.id < NUM_READERS && !Synced(q, h)
    requires h.uid != 0
    ensures CanPass(q, h)
    ensures var r := RecvPass(q, h, uid);
            && r.outcome == Again && Inv(r.q, hist) && r.h.conflate == h.conflate
            && Stands(r.q, hist, r.h, |hist.sent|) && r.q.readers[r.h.id] == r.q.write
            && r.q.write == q.write && r.q.data == q.data && r.q.writeUid == q.writeUid
            && (Live(q, h) ==> r.h == h && r.q == Reset(q, h.id))
            && (!Live(q, h) ==> r.h.uid == uid && r.q == InitSubscriber(q, uid).0)
  {
    WriterIsNext(q, hist);
    if Live(q, h) {
      ResetKeeps(q, hist, h.id);
      assert Next(Reset(q, h.id).write, hist, q.write.pos, |hist.sent|);
    } else {
      InitSubscriberKeeps(q, hist, uid);
      assert Next(InitSubscriber(q, uid).0.write, hist, q.write.pos, |hist.sent|);
    }
  }
}
