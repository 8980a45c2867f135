/** Whole calls of msgq_msg_recv and msgq_msg_ready: they end, and what they deliver. */
module MsgqRecv {
  import opened MsgqLayout
  import opened MsgqCalls

  // ----- msgq_msg_recv -----

  /** What has to happen before a receive can end: an eviction, an invalid mark, the wrap still to take,
      and the bytes up to the wrap tag or the writer. */
  function Distance(q: Queue, h: Handle): (d: (nat, nat, nat))
    requires q.WellFormed() && h.id < NUM_READERS
  {
    if !Live(q, h) then (3, 0, 0)
    else if !q.valids[h.id] then (2, 0, 0)
    else
      var p := q.readers[h.id].pos;
      if p > q.write.pos then (1, if p <= |q.data| then |q.data| - p else 0, 0) else (0, 0, q.write.pos - p)
  }

  predicate Nearer(d: (nat, nat, nat), e: (nat, nat, nat)) {
    d.0 < e.0 || (d.0 == e.0 && (d.1 < e.1 || (d.1 == e.1 && d.2 < e.2)))
  }

  /** A handle that some subscriber holds. */
  predicate HandleOk(h: Handle) {
    h.id < NUM_READERS && h.uid != 0
  }

  /** The message that is next for a handle: where its reader stands, or after everything sent when it is
      evicted or invalid. */
  ghost predicate Due(q: Queue, hist: History, h: Handle, k: nat)
    requires q.WellFormed() && hist.WellFormed() && h.id < NUM_READERS
  {
    if Synced(q, h) then Next(q.write, hist, q.readers[h.id].pos, k) else k == |hist.sent|
  }

  lemma DueExists(q: Queue, hist: History, h: Handle)
    requires Inv(q, hist) && HandleOk(h)
    ensures exists k: nat :: Due(q, hist, h, k) && k <= |hist.sent|
  {
    if Synced(q, h) {
      SyncedStands(q, hist, h);
      var k: nat :| Stands(q, hist, h, k) && k <= |hist.sent|;
      assert Due(q, hist, h, k);
    } else {
      assert Due(q, hist, h, |hist.sent|);
    }
  }

  /** The message that is next for a handle. */
  ghost function DueAt(q: Queue, hist: History, h: Handle): (k: nat)
    requires Inv(q, hist) && HandleOk(h)
    ensures Due(q, hist, h, k) && k <= |hist.sent|
  {
    DueExists(q, hist, h);
    var k: nat :| Due(q, hist, h, k) && k <= |hist.sent|;
    k
  }

  /** What a receive leaves alone: the ring, the writer, and, unless the handle had been evicted, every
      other reader. */
  ghost predicate OnlyReader(q: Queue, q': Queue, h: Handle, h': Handle)
    requires q.WellFormed() && q'.WellFormed()
  {
    && q'.write == q.write && q'.data == q.data && q'.writeUid == q.writeUid && h'.conflate == h.conflate
    && (Live(q, h) ==>
          && h' == h && q'.uids == q.uids && q'.numReaders == q.numReaders
          && forall i :: 0 <= i < NUM_READERS && i != h.id ==>
               q'.valids[i] == q.valids[i] && q'.readers[i] == q.readers[i])
  }

  /** A receive with message k due that ends in r: with nothing due it returned 0; otherwise a plain
      subscriber got exactly the message due, and a conflating one the last message sent; either way the
      reader then stands behind it, synchronised. */
  ghost predicate Delivered(q: Queue, hist: History, h: Handle, uid: nat, k: nat, r: Pass)
    requires q.WellFormed() && r.q.WellFormed() && hist.WellFormed() && h.id < NUM_READERS && r.h.id < NUM_READERS
  {
    var last := if h.conflate then |hist.sent| - 1 else k;
    && Synced(r.q, r.h) && OnlyReader(q, r.q, h, r.h) && (!Live(q, h) ==> r.h.uid == uid)
    && (k == |hist.sent| ==> r.outcome == Empty && Due(r.q, hist, r.h, k) && r.q.readers[r.h.id].pos == q.write.pos)
    && (k < |hist.sent| ==> last >= 0 && r.outcome == Got(hist.sent[last]) && Due(r.q, hist, r.h, last + 1))
  }

  /** A message further on, or the same one, may be due after a pass that starts over. */
  ghost predicate Onward(q: Queue, hist: History, h: Handle, uid: nat, k: nat, q': Queue, h': Handle, k': nat)
    requires q.WellFormed()
  {
    && Inv(q', hist) && HandleOk(h') && hist.WellFormed() && Due(q', hist, h', k') && Live(q', h')
    && OnlyReader(q, q', h, h') && (!Live(q, h) ==> h'.uid == uid)
    && k <= k' <= |hist.sent| && (k' == k || (h.conflate && k' < |hist.sent|))
  }

  /** What one pass does: it ends the call with the delivery, or leaves message k' due. */
  ghost predicate PassGood(q: Queue, hist: History, h: Handle, uid: nat, k: nat, s: Pass, k': nat)
    requires Inv(q, hist) && HandleOk(h)
  {
    && Inv(s.q, hist) && HandleOk(s.h)
    && if s.outcome == Again
       then Onward(q, hist, h, uid, k, s.q, s.h, k') && Nearer(Distance(s.q, s.h), Distance(q, h))
       else Delivered(q, hist, h, uid, k, s)
  }

  lemma OnwardResync(q: Queue, hist: History, h: Handle, uid: nat)
    requires Inv(q, hist) && HandleOk(h) && uid != 0 && !Synced(q, h)
    ensures CanPass(q, h)
    ensures PassGood(q, hist, h, uid, |hist.sent|, RecvPass(q, h, uid), |hist.sent|)
  {
    PassResync(q, hist, h, uid);
  }

  lemma OnwardMove(q: Queue, hist: History, h: Handle, uid: nat, k: nat, to: Cursor, k': nat)
    requires Inv(q, hist) && HandleOk(h) && Synced(q, h)
    requires Inv(Moved(q, h, to), hist) && Next(q.write, hist, to.pos, k')
    requires k <= k' <= |hist.sent| && (k' == k || (h.conflate && k' < |hist.sent|))
    ensures Onward(q, hist, h, uid, k, Moved(q, h, to), h, k')
  {}

  /** A frame that a plain subscriber takes, or that a conflating one takes as the last. */
  lemma GotMove(q: Queue, hist: History, h: Handle, uid: nat, k: nat, to: Cursor)
    requires Inv(q, hist) && HandleOk(h) && Synced(q, h) && k < |hist.sent| && (h.conflate ==> k + 1 == |hist.sent|)
    requires Inv(Moved(q, h, to), hist) && Next(q.write, hist, to.pos, k + 1)
    ensures Delivered(q, hist, h, uid, k, Pass(Moved(q, h, to), h, Got(hist.sent[k])))
  {}

  lemma NothingDue(q: Queue, hist: History, h: Handle, uid: nat)
    requires Inv(q, hist) && HandleOk(h) && Synced(q, h) && q.readers[h.id].pos == q.write.pos
    requires Next(q.write, hist, q.write.pos, |hist.sent|)
    ensures Delivered(q, hist, h, uid, |hist.sent|, Pass(q, h, Empty))
  {}

  lemma AtWriterDelivers(q: Queue, hist: History, h: Handle, uid: nat, k: nat)
    requires Inv(q, hist) && HandleOk(h) && Stands(q, hist, h, k) && q.readers[h.id].pos == q.write.pos
    ensures CanPass(q, h) && PassGood(q, hist, h, uid, k, RecvPass(q, h, uid), k)
  {
    PassAtWriter(q, hist, h, uid, k);
    NothingDue(q, hist, h, uid);
  }

  lemma AtWrapDelivers(q: Queue, hist: History, h: Handle, uid: nat, k: nat)
    requires Inv(q, hist) && HandleOk(h) && Stands(q, hist, h, k) && k <= |hist.sent|
    requires q.write.pos < q.readers[h.id].pos && k == hist.base
    ensures CanPass(q, h)
    ensures PassGood(q, hist, h, uid, k, RecvPass(q, h, uid), k)
  {
    PassAtWrap(q, hist, h, uid, k);
    OnwardMove(q, hist, h, uid, k, Cursor(q.readers[h.id].cycles + 1, 0), k);
  }

  lemma AtFrameDelivers(q: Queue, hist: History, h: Handle, uid: nat, k: nat)
    requires Inv(q, hist) && HandleOk(h) && Stands(q, hist, h, k)
    requires q.readers[h.id].pos != q.write.pos && !(q.write.pos < q.readers[h.id].pos && k == hist.base)
    ensures CanPass(q, h)
    ensures PassGood(q, hist, h, uid, k, RecvPass(q, h, uid), k + 1)
  {
    PassAtFrame(q, hist, h, uid, k);
    FrameDelivers(q, hist, h, uid, k, Past(q.readers[h.id], hist.sent[k]));
  }

  lemma PassDelivers(q: Queue, hist: History, h: Handle, uid: nat, k: nat)
    requires Inv(q, hist) && HandleOk(h) && uid != 0 && Due(q, hist, h, k) && k <= |hist.sent| && CanPass(q, h)
    ensures exists k': nat :: PassGood(q, hist, h, uid, k, RecvPass(q, h, uid), k')
  {
    if !Synced(q, h) {
      OnwardResync(q, hist, h, uid);
    } else {
      assert Stands(q, hist, h, k);
      var read := q.readers[h.id];
      if read.pos == q.write.pos {
        AtWriterDelivers(q, hist, h, uid, k);
      } else if q.write.pos < read.pos && k == hist.base {
        AtWrapDelivers(q, hist, h, uid, k);
      } else {
        AtFrameDelivers(q, hist, h, uid, k);
      }
    }
  }

  lemma FrameDelivers(q: Queue, hist: History, h: Handle, uid: nat, k: nat, to: Cursor)
    requires Inv(q, hist) && HandleOk(h) && Synced(q, h) && k < |hist.sent|
    requires Inv(Moved(q, h, to), hist) && Next(q.write, hist, to.pos, k + 1)
    requires k + 1 == |hist.sent| ==> to.pos == q.write.pos
    ensures h.conflate && to.pos != q.write.pos ==> Onward(q, hist, h, uid, k, Moved(q, h, to), h, k + 1)
    ensures !(h.conflate && to.pos != q.write.pos) ==>
              Delivered(q, hist, h, uid, k, Pass(Moved(q, h, to), h, Got(hist.sent[k])))
  {
    LastFrame(q, hist, to.pos, k + 1);
    if h.conflate && to.pos != q.write.pos {
      OnwardMove(q, hist, h, uid, k, to, k + 1);
    } else {
      GotMove(q, hist, h, uid, k, to);
    }
  }

  /** Every pass keeps the invariant and never fails an assertion; one that starts over has come nearer. */
  lemma PassProgress(q: Queue, hist: History, h: Handle, uid: nat)
    requires Inv(q, hist) && HandleOk(h) && uid != 0
    ensures CanPass(q, h)
    ensures var r := RecvPass(q, h, uid);
            && Inv(r.q, hist) && HandleOk(r.h) && r.outcome != Crash
            && (r.outcome == Again ==> Nearer(Distance(r.q, r.h), Distance(q, h)))
  {
    PassAllowed(q, hist, h);
    var k := DueAt(q, hist, h);
    PassDelivers(q, hist, h, uid, k);
    var k': nat :| PassGood(q, hist, h, uid, k, RecvPass(q, h, uid), k');
  }

  /** msgq_msg_recv, from start to return. */
  ghost function Recv(q: Queue, hist: History, h: Handle, uid: nat): (r: Pass)
    requires Inv(q, hist) && HandleOk(h) && uid != 0
    ensures Inv(r.q, hist) && HandleOk(r.h) && r.outcome != Again && r.outcome != Crash
    decreases Distance(q, h).0, Distance(q, h).1, Distance(q, h).2
  {
    PassProgress(q, hist, h, uid);
    var r := RecvPass(q, h, uid);
    if r.outcome == Again then Recv(r.q, hist, r.h, uid) else r
  }

  /** A pass that starts over passes on what the rest of the call delivers. */
  lemma DeliveredAfter(q: Queue, hist: History, h: Handle, uid: nat, k: nat, s: Pass, k': nat, r: Pass)
    requires q.WellFormed() && s.q.WellFormed() && r.q.WellFormed() && hist.WellFormed()
    requires h.id < NUM_READERS && s.h.id < NUM_READERS && r.h.id < NUM_READERS
    requires Onward(q, hist, h, uid, k, s.q, s.h, k')
    requires Delivered(s.q, hist, s.h, uid, k', r)
    ensures Delivered(q, hist, h, uid, k, r)
  {}

  /** What a receive delivers. */
  lemma {:induction false} RecvDelivers(q: Queue, hist: History, h: Handle, uid: nat, k: nat)
    requires Inv(q, hist) && HandleOk(h) && uid != 0 && Due(q, hist, h, k) && k <= |hist.sent|
    ensures Delivered(q, hist, h, uid, k, Recv(q, hist, h, uid))
    decreases Distance(q, h).0, Distance(q, h).1, Distance(q, h).2
  {
    PassProgress(q, hist, h, uid);
    var s := RecvPass(q, h, uid);
    PassDelivers(q, hist, h, uid, k);
    var k': nat :| PassGood(q, hist, h, uid, k, s, k');
    if s.outcome == Again {
      RecvDelivers(s.q, hist, s.h, uid, k');
      DeliveredAfter(q, hist, h, uid, k, s, k', Recv(s.q, hist, s.h, uid));
    }
  }

  /** Only behind the last message is the writer. */
  lemma LastFrame(q: Queue, hist: History, p: nat, k: nat)
    requires Inv(q, hist) && Next(q.write, hist, p, k)
    ensures p == q.write.pos <==> k == |hist.sent| && p <= q.write.pos
  {
    if p == q.write.pos {
      WriterIsNext(q, hist);
      NextUnique(q, hist, p, k, |hist.sent|);
    }
  }

  // ----- an evicted or invalid reader, and msgq_msg_ready -----

  /** What both calls first do: an evicted subscriber takes a new slot, an invalid one is reset. */
  function Resynced(q: Queue, h: Handle, uid: nat): (r: (Queue, Handle))
    requires q.WellFormed() && h.id < NUM_READERS
    ensures r.0.WellFormed() && r.1.id < NUM_READERS
  {
    if !Live(q, h) then
      var (q', id) := InitSubscriber(q, uid);
      (q', Handle(id, uid, h.conflate))
    else if !q.valids[h.id] then
      (Reset(q, h.id), h)
    else
      (q, h)
  }

  lemma ResyncedKeeps(q: Queue, hist: History, h: Handle, uid: nat)
    requires Inv(q, hist) && HandleOk(h) && uid != 0
    ensures var (q', h') := Resynced(q, h, uid);
            && Inv(q', hist) && HandleOk(h') && Synced(q', h') && q'.write == q.write && h'.conflate == h.conflate
            && (!Synced(q, h) ==> q'.readers[h'.id] == q.write)
  {
    if !Synced(q, h) {
      PassResync(q, hist, h, uid);
    }
  }

  /** A receive on an evicted or invalid reader resynchronises it and returns 0. */
  lemma RecvResyncs(q: Queue, hist: History, h: Handle, uid: nat)
    requires Inv(q, hist) && HandleOk(h) && uid != 0 && !Synced(q, h)
    ensures var (q', h') := Resynced(q, h, uid);
            Recv(q, hist, h, uid) == Pass(q', h', Empty)
  {
    PassResync(q, hist, h, uid);
    var (q', h') := Resynced(q, h, uid);
    WriterIsNext(q', hist);
    assert Stands(q', hist, h', |hist.sent|);
    PassAtWriter(q', hist, h', uid, |hist.sent|);
  }

  /** msgq_msg_ready: the queue and handle after it, and its answer. */
  function ReadyCall(q: Queue, h: Handle, uid: nat): (r: (Queue, Handle, bool))
    requires q.WellFormed() && h.id < NUM_READERS
    ensures r.0.WellFormed() && r.1.id < NUM_READERS
  {
    var (q', h') := Resynced(q, h, uid);
    (q', h', q'.readers[h'.id].pos != q'.write.pos)
  }

  /** A synchronised reader is away from the writer exactly when its receive returns a message. */
  lemma AwayMeansDue(q: Queue, hist: History, h: Handle, uid: nat)
    requires Inv(q, hist) && HandleOk(h) && uid != 0 && Synced(q, h)
    ensures q.readers[h.id].pos != q.write.pos <==> Recv(q, hist, h, uid).outcome.Got?
  {
    var k := DueAt(q, hist, h);
    var p := q.readers[h.id].pos;
    LastFrame(q, hist, p, k);
    if q.write.pos < p {
      BeyondWriter(q, hist, p, k);
    }
    RecvDelivers(q, hist, h, uid, k);
  }

  /** The answer is whether the next receive returns a message. */
  lemma ReadyForetells(q: Queue, hist: History, h: Handle, uid: nat, uid': nat)
    requires Inv(q, hist) && HandleOk(h) && uid != 0 && uid' != 0
    ensures var (q', h', answer) := ReadyCall(q, h, uid);
            && Inv(q', hist) && HandleOk(h')
            && (answer <==> Recv(q', hist, h', uid').outcome.Got?)
  {
    ResyncedKeeps(q, hist, h, uid);
    var (q', h') := Resynced(q, h, uid);
    AwayMeansDue(q', hist, h', uid');
  }

  /** Beyond the writer there is always a message due: the wrap that took the writer back sent one. */
  lemma BeyondWriter(q: Queue, hist: History, p: nat, k: nat)
    requires Inv(q, hist) && Next(q.write, hist, p, k) && q.write.pos < p
    ensures k < |hist.sent|
  {}

  // ----- msgq_all_readers_updated -----

  predicate AllReadersUpdated(q: Queue)
    requires q.WellFormed()
  {
    q.numReaders > 0 && forall i :: 0 <= i < q.numReaders && q.valids[i] ==> q.write == q.readers[i]
  }

  /** No valid reader has a message due. */
  predicate CaughtUp(q: Queue)
    requires q.WellFormed()
  {
    forall i :: 0 <= i < NUM_READERS && q.valids[i] ==> q.readers[i].pos == q.write.pos
  }

  lemma UpdatedIsCaughtUp(q: Queue, hist: History)
    requires Inv(q, hist) && AllReadersUpdated(q)
    ensures CaughtUp(q)
  {
    forall i | 0 <= i < NUM_READERS && q.valids[i]
      ensures q.readers[i].pos == q.write.pos
    {
      assert ReaderFine(q, hist, i);
    }
  }

  /** When everyone has caught up any subscriber's receive returns 0, whether it is valid, invalid or
      evicted, and everyone still has. */
  lemma CaughtUpRecv(q: Queue, hist: History, h: Handle, uid: nat)
    requires Inv(q, hist) && HandleOk(h) && uid != 0 && CaughtUp(q)
    ensures var r := Recv(q, hist, h, uid);
            r.outcome == Empty && CaughtUp(r.q) && (r.q, r.h) == Resynced(q, h, uid)
  {
    if Synced(q, h) {
      WriterIsNext(q, hist);
      assert Stands(q, hist, h, |hist.sent|);
      PassAtWriter(q, hist, h, uid, |hist.sent|);
    } else {
      RecvResyncs(q, hist, h, uid);
      ResyncCaughtUp(q, h, uid);
    }
  }

  lemma ResyncCaughtUp(q: Queue, h: Handle, uid: nat)
    requires q.WellFormed() && h.id < NUM_READERS && CaughtUp(q)
    ensures CaughtUp(Resynced(q, h, uid).0)
  {}

  /** A conflating subscriber's receive returns the last message sent or nothing, and an immediate second
      one nothing. */
  lemma ConflatedRecv(q: Queue, hist: History, h: Handle, uid: nat, uid': nat)
    requires Inv(q, hist) && HandleOk(h) && uid != 0 && uid' != 0 && h.conflate
    ensures var r := Recv(q, hist, h, uid);
            && (r.outcome.Got? ==> |hist.sent| > 0 && r.outcome.m == hist.sent[|hist.sent| - 1])
            && Recv(r.q, hist, r.h, uid').outcome == Empty
  {
    var k := DueAt(q, hist, h);
    RecvDelivers(q, hist, h, uid, k);
    var r := Recv(q, hist, h, uid);
    RecvDelivers(r.q, hist, r.h, uid', |hist.sent|);
  }
}
