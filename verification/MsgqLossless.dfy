/** When a subscriber loses nothing. */
module MsgqLossless {
  import opened MsgqLayout
  import opened MsgqCalls
  import opened MsgqRecv
  import opened MsgqRuns

  /** The cycle count of a cursor is that of the cycle it is in. */
  predicate ExactCursor(write: Cursor, read: Cursor) {
    if read.pos <= write.pos then read.cycles == write.cycles else read.cycles + 1 == write.cycles
  }

  /** A synchronised reader that has not been lapped. */
  predicate Exact(q: Queue, h: Handle)
    requires q.WellFormed() && h.id < NUM_READERS
  {
    Synced(q, h) && ExactCursor(q.write, q.readers[h.id])
  }

  /** The framed bytes of the messages from k on. */
  function Unread(hist: History, k: nat): int
    requires hist.WellFormed() && k <= |hist.sent|
  {
    Offset(hist.sent, |hist.sent|) - Offset(hist.sent, k)
  }

  /** No frame is larger than limit. */
  ghost predicate Bounded(hist: History, limit: nat) {
    forall i :: 0 <= i < |hist.sent| ==> Total(|hist.sent[i]|) <= limit
  }

  /** Enough of the ring is free for one more frame to miss the unread ones. */
  predicate Ample(q: Queue, hist: History, k: nat, limit: nat)
    requires hist.WellFormed() && k <= |hist.sent|
  {
    Unread(hist, k) < |q.data| - 2 * limit - 8
  }

  // ----- a send does not touch such a reader -----

  lemma SurvivesAppend(q: Queue, m: message, i: nat)
    requires q.WellFormed() && i < NUM_READERS && q.valids[i] && q.write.pos + Total(|m|) <= |q.data|
    requires q.readers[i].pos < q.write.pos || q.write.pos + Total(|m|) <= q.readers[i].pos
             || q.readers[i].cycles == q.write.cycles
    ensures Append(q, m).valids[i]
  {}

  lemma SurvivesWrap(q: Queue, i: nat)
    requires q.WellFormed() && i < NUM_READERS && q.valids[i] && q.write.pos + 8 <= |q.data|
    requires q.readers[i].pos <= q.write.pos
    ensures Wrap(q).valids[i] && Wrap(q).readers == q.readers
  {}

  /** How far a reader is from the writer. */
  lemma UnreadByPosition(q: Queue, hist: History, p: nat, k: nat)
    requires q.WellFormed() && Laid(q.data, q.write, hist) && Next(q.write, hist, p, k) && k <= |hist.sent|
    ensures p <= q.write.pos ==> Unread(hist, k) == q.write.pos - p
    ensures q.write.pos < p ==> Unread(hist, k) == (hist.Old(hist.base) - p) + q.write.pos
  {}

  /** A reader in the writer's cycle: a send that fits behind the writer spares it, and so does one that
      wraps, because the reader is further from the start of the ring than the new frame reaches. */
  lemma SendSparesCurrent(q: Queue, hist: History, h: Handle, uid: nat, m: message, k: nat, limit: nat)
    requires Inv(q, hist) && HandleOk(h) && Exact(q, h)
             && Next(q.write, hist, q.readers[h.id].pos, k) && k <= |hist.sent|
    requires m != [] && SendOutcomeOf(q, uid, m).Sent? && Total(|m|) <= limit && Ample(q, hist, k, limit)
    requires q.readers[h.id].pos <= q.write.pos
    ensures var q' := Send(q, uid, m);
            && q'.valids[h.id] && q'.readers[h.id] == q.readers[h.id] && q'.uids == q.uids
            && ExactCursor(q'.write, q.readers[h.id]) && q.readers[h.id].pos != q'.write.pos
  {
    UnreadByPosition(q, hist, q.readers[h.id].pos, k);
    if MustWrap(q, m) {
      WrapRoom(q, m);
      SurvivesWrap(q, h.id);
      SurvivesAppend(Wrap(q), m, h.id);
    } else {
      SurvivesAppend(q, m, h.id);
    }
  }

  /** A reader in the cycle before: the send does not wrap, and ends before the reader. */
  lemma SendSparesOld(q: Queue, hist: History, h: Handle, uid: nat, m: message, k: nat, limit: nat)
    requires Inv(q, hist) && HandleOk(h) && Exact(q, h)
             && Next(q.write, hist, q.readers[h.id].pos, k) && k <= |hist.sent|
    requires m != [] && SendOutcomeOf(q, uid, m).Sent? && Total(|m|) <= limit
             && Ample(q, hist, k, limit) && Bounded(hist, limit)
    requires q.write.pos < q.readers[h.id].pos
    ensures var q' := Send(q, uid, m);
            && q'.valids[h.id] && q'.readers[h.id] == q.readers[h.id] && q'.uids == q.uids
            && ExactCursor(q'.write, q.readers[h.id]) && q.readers[h.id].pos != q'.write.pos
  {
    var p := q.readers[h.id].pos;
    UnreadByPosition(q, hist, p, k);
    NextInside(q, hist, p, k);
    assert Total(|hist.sent[hist.base]|) <= limit;
    assert q.write.pos + Total(|m|) < p;
    SurvivesAppend(q, m, h.id);
  }

  /** A send with ample room leaves an unlapped reader unlapped, with the same message next. */
  lemma SendSpares(q: Queue, hist: History, h: Handle, uid: nat, m: message, k: nat, limit: nat)
    requires Inv(q, hist) && HandleOk(h) && Exact(q, h)
             && Next(q.write, hist, q.readers[h.id].pos, k) && k <= |hist.sent|
    requires m != [] && SendOutcomeOf(q, uid, m).Sent? && Total(|m|) <= limit
             && Ample(q, hist, k, limit) && Bounded(hist, limit)
    ensures var q' := Send(q, uid, m);
            && Exact(q', h) && q'.readers[h.id] == q.readers[h.id]
            && SendHistory(q, hist, m).WellFormed() && Bounded(SendHistory(q, hist, m), limit)
            && Next(q'.write, SendHistory(q, hist, m), q.readers[h.id].pos, k)
  {
    if q.readers[h.id].pos <= q.write.pos {
      SendSparesCurrent(q, hist, h, uid, m, k, limit);
    } else {
      SendSparesOld(q, hist, h, uid, m, k, limit);
    }
    SendReader(q, hist, uid, m, h.id, k);
  }

  /** One receive per send is ample: a subscriber that has read everything survives any send that fits. */
  lemma CaughtUpIsAmple(q: Queue, hist: History, m: message)
    requires Inv(q, hist) && m != [] && Fits(|q.data|, m)
    ensures var limit := |q.data| / 3;
            Ample(q, hist, |hist.sent|, limit) && Bounded(hist, limit) && Total(|m|) <= limit
  {}

  // ----- receives keep it unlapped -----

  lemma ExactMove(q: Queue, h: Handle, to: Cursor)
    requires q.WellFormed() && h.id < NUM_READERS && Synced(q, h) && ExactCursor(q.write, to)
    ensures Exact(Moved(q, h, to), h)
  {}

  lemma PassStaysExact(q: Queue, hist: History, h: Handle, uid: nat)
    requires Inv(q, hist) && HandleOk(h) && uid != 0 && Exact(q, h) && CanPass(q, h)
    ensures var s := RecvPass(q, h, uid); s.h == h && Exact(s.q, h)
  {
    var k, read := DueAt(q, hist, h), q.readers[h.id];
    assert Stands(q, hist, h, k);
    if read.pos == q.write.pos {
      PassAtWriter(q, hist, h, uid, k);
    } else if q.write.pos < read.pos && k == hist.base {
      PassAtWrap(q, hist, h, uid, k);
      ExactMove(q, h, Cursor(read.cycles + 1, 0));
    } else {
      PassAtFrame(q, hist, h, uid, k);
      ExactMove(q, h, Past(read, hist.sent[k]));
    }
  }

  lemma {:induction false} RecvStaysExact(q: Queue, hist: History, h: Handle, uid: nat)
    requires Inv(q, hist) && HandleOk(h) && uid != 0 && Exact(q, h)
    ensures var r := Recv(q, hist, h, uid); r.h == h && Exact(r.q, h)
    decreases Distance(q, h).0, Distance(q, h).1, Distance(q, h).2
  {
    PassProgress(q, hist, h, uid);
    PassStaysExact(q, hist, h, uid);
    var s := RecvPass(q, h, uid);
    if s.outcome == Again {
      RecvStaysExact(s.q, hist, s.h, uid);
    }
  }

  // ----- other subscribers' calls leave it alone -----

  lemma ResyncSpares(q: Queue, hist: History, h: Handle, uid: nat, g: Handle)
    requires Inv(q, hist) && HandleOk(h) && HandleOk(g) && g.uid != h.uid && Exact(q, g)
    requires Live(q, h) || q.numReaders < NUM_READERS
    ensures var q' := Resynced(q, h, uid).0;
            Exact(q', g) && q'.write == q.write && q'.readers[g.id] == q.readers[g.id]
  {}

  lemma ClaimSpares(q: Queue, hist: History, uid: nat, g: Handle)
    requires Inv(q, hist) && HandleOk(g) && Exact(q, g) && q.numReaders < NUM_READERS
    ensures var q' := InitSubscriber(q, uid).0;
            Exact(q', g) && q'.write == q.write && q'.readers[g.id] == q.readers[g.id]
  {}

  lemma RecvSpares(q: Queue, hist: History, h: Handle, uid: nat, g: Handle)
    requires Inv(q, hist) && HandleOk(h) && uid != 0 && HandleOk(g) && g.uid != h.uid && Exact(q, g)
    requires Live(q, h) || q.numReaders < NUM_READERS
    ensures var q' := Recv(q, hist, h, uid).q;
            Exact(q', g) && q'.write == q.write && q'.readers[g.id] == q.readers[g.id]
  {
    if Synced(q, h) {
      RecvDelivers(q, hist, h, uid, DueAt(q, hist, h));
    } else {
      RecvResyncs(q, hist, h, uid);
      ResyncSpares(q, hist, h, uid, g);
    }
  }

  // ----- runs -----

  /** A subscriber that takes every message, has lost none since message first, and is not lapped. */
  ghost predicate WholeSub(q: Queue, hist: History, s: Sub, first: nat, limit: nat)
    requires q.WellFormed() && hist.WellFormed() && s.h.id < NUM_READERS
  {
    && !s.h.conflate && Exact(q, s.h) && Bounded(hist, limit)
    && first + |s.got| <= |hist.sent|
    && Next(q.write, hist, q.readers[s.h.id].pos, first + |s.got|)
    && forall i :: 0 <= i < |s.got| ==> s.got[i] == first + i
  }

  ghost predicate Whole(w: World, j: nat, first: nat, limit: nat)
    requires WorldInv(w)
  {
    j < |w.subs| && WholeSub(w.q, w.hist, w.subs[j], first, limit)
  }

  /** A step that costs subscriber j nothing: no publisher takes over, nobody is evicted, and a message
      goes out only while the unread frames of j leave ample room. */
  ghost predicate Calm(w: World, a: Action, j: nat, first: nat, limit: nat)
    requires WorldInv(w) && Whole(w, j, first, limit) && Allowed(w, a)
  {
    match a
    case NewPublisher => false
    case NewSubscriber(_) => w.q.numReaders < NUM_READERS
    case SendBy(k, m) =>
      SendOutcomeOf(w.q, w.pubs[k], m).Sent? ==>
        Total(|m|) <= limit && Ample(w.q, w.hist, first + |w.subs[j].got|, limit)
    case RecvBy(i) => i == j || Live(w.q, w.subs[i].h) || w.q.numReaders < NUM_READERS
    case ReadyBy(i) => i == j || Live(w.q, w.subs[i].h) || w.q.numReaders < NUM_READERS
  }

  lemma OtherUids(w: World, i: nat, j: nat)
    requires WorldInv(w) && i < |w.subs| && j < |w.subs| && i != j
    ensures w.subs[i].h.uid != w.subs[j].h.uid
  {
    if j < i {
      assert w.subs[j].h.uid != w.subs[i].h.uid;
    }
  }

  lemma DueIs(q: Queue, hist: History, h: Handle, k: nat)
    requires Inv(q, hist) && HandleOk(h) && Synced(q, h) && Next(q.write, hist, q.readers[h.id].pos, k)
    ensures DueAt(q, hist, h) == k
  {
    NextUnique(q, hist, q.readers[h.id].pos, DueAt(q, hist, h), k);
  }

  /** What a delivery to a synchronised plain subscriber comes to. */
  lemma PlainDelivered(q: Queue, hist: History, h: Handle, uid: nat, k: nat, r: Pass)
    requires q.WellFormed() && r.q.WellFormed() && hist.WellFormed() && h.id < NUM_READERS && r.h.id < NUM_READERS
    requires !h.conflate && Synced(q, h) && k <= |hist.sent| && Delivered(q, hist, h, uid, k, r)
    ensures r.h == h && Synced(r.q, h)
    ensures r.outcome == if k < |hist.sent| then Got(hist.sent[k]) else Empty
    ensures Next(r.q.write, hist, r.q.readers[h.id].pos, if k < |hist.sent| then k + 1 else k)
  {}

  /** One more message in order. */
  lemma WholeMore(q: Queue, q': Queue, hist: History, s: Sub, m: message, first: nat, limit: nat)
    requires q.WellFormed() && q'.WellFormed() && hist.WellFormed() && s.h.id < NUM_READERS
    requires WholeSub(q, hist, s, first, limit) && first + |s.got| < |hist.sent|
    requires Exact(q', s.h) && Next(q'.write, hist, q'.readers[s.h.id].pos, first + |s.got| + 1)
    ensures WholeSub(q', hist, Sub(s.h, s.got + [first + |s.got|], s.msgs + [m]), first, limit)
  {}

  lemma WholeDelivered(q: Queue, hist: History, s: Sub, uid: nat, first: nat, limit: nat, r: Pass)
    requires q.WellFormed() && r.q.WellFormed() && hist.WellFormed() && s.h.id < NUM_READERS && r.h.id < NUM_READERS
    requires WholeSub(q, hist, s, first, limit) && Delivered(q, hist, s.h, uid, first + |s.got|, r) && Exact(r.q, s.h)
    ensures var s' := After(hist, s, first + |s.got|, r);
            s'.h == s.h && WholeSub(r.q, hist, s', first, limit)
  {
    PlainDelivered(q, hist, s.h, uid, first + |s.got|, r);
    if first + |s.got| < |hist.sent| {
      WholeMore(q, r.q, hist, s, r.outcome.m, first, limit);
    } else {
      WholeStill(q, r.q, hist, s, first, limit);
    }
  }

  lemma RecvWholeSub(q: Queue, hist: History, s: Sub, uid: nat, first: nat, limit: nat)
    requires Inv(q, hist) && HandleOk(s.h) && uid != 0 && WholeSub(q, hist, s, first, limit)
    ensures exists s' :: s' == Received(q, hist, s, uid) && s'.h == s.h
                      && WholeSub(Recv(q, hist, s.h, uid).q, hist, s', first, limit)
  {
    var k, r := first + |s.got|, Recv(q, hist, s.h, uid);
    DueIs(q, hist, s.h, k);
    RecvDelivers(q, hist, s.h, uid, k);
    RecvStaysExact(q, hist, s.h, uid);
    WholeDelivered(q, hist, s, uid, first, limit, r);
    assert Received(q, hist, s, uid) == After(hist, s, k, r);
  }

  lemma WholeStill(q: Queue, q': Queue, hist: History, s: Sub, first: nat, limit: nat)
    requires q.WellFormed() && q'.WellFormed() && hist.WellFormed() && s.h.id < NUM_READERS
    requires WholeSub(q, hist, s, first, limit)
    requires Exact(q', s.h) && Next(q'.write, hist, q'.readers[s.h.id].pos, first + |s.got|)
    ensures WholeSub(q', hist, s, first, limit)
  {}

  lemma OwnRecvWhole(w: World, j: nat, first: nat, limit: nat)
    requires WorldInv(w) && Whole(w, j, first, limit) && WorldInv(Step(w, RecvBy(j)))
    ensures Whole(Step(w, RecvBy(j)), j, first, limit)
  {
    RecvWholeSub(w.q, w.hist, w.subs[j], w.uid, first, limit);
  }

  lemma SendWholeSub(q: Queue, hist: History, s: Sub, uid: nat, m: message, first: nat, limit: nat)
    requires Inv(q, hist) && HandleOk(s.h) && WholeSub(q, hist, s, first, limit)
    requires m != [] && SendOutcomeOf(q, uid, m).Sent? && Total(|m|) <= limit && Ample(q, hist, first + |s.got|, limit)
    ensures SendHistory(q, hist, m).WellFormed() && WholeSub(Send(q, uid, m), SendHistory(q, hist, m), s, first, limit)
  {
    SendSpares(q, hist, s.h, uid, m, first + |s.got|, limit);
  }

  lemma SendWhole(w: World, k: nat, m: message, j: nat, first: nat, limit: nat)
    requires WorldInv(w) && Whole(w, j, first, limit) && Allowed(w, SendBy(k, m))
             && Calm(w, SendBy(k, m), j, first, limit)
    requires WorldInv(Step(w, SendBy(k, m)))
    ensures exists w' :: w' == Step(w, SendBy(k, m)) && WorldInv(w') && Whole(w', j, first, limit)
  {
    var w' := Step(w, SendBy(k, m));
    if SendOutcomeOf(w.q, w.pubs[k], m).Sent? {
      SendWholeSub(w.q, w.hist, w.subs[j], w.pubs[k], m, first, limit);
    }
    assert Whole(w', j, first, limit);
  }

  /** Another subscriber's step that leaves j's reader alone. */
  lemma SparedWhole(q: Queue, q': Queue, hist: History, s: Sub, first: nat, limit: nat)
    requires q.WellFormed() && q'.WellFormed() && hist.WellFormed() && s.h.id < NUM_READERS
    requires WholeSub(q, hist, s, first, limit)
    requires Exact(q', s.h) && q'.write == q.write && q'.readers[s.h.id] == q.readers[s.h.id]
    ensures WholeSub(q', hist, s, first, limit)
  {}

  lemma OtherWhole(w: World, a: Action, j: nat, first: nat, limit: nat)
    requires WorldInv(w) && Whole(w, j, first, limit) && Allowed(w, a) && Calm(w, a, j, first, limit)
    requires !a.SendBy? && a != RecvBy(j) && a != ReadyBy(j) && WorldInv(Step(w, a))
    ensures Whole(Step(w, a), j, first, limit)
  {
    var g := w.subs[j].h;
    match a {
      case NewSubscriber(_) => ClaimSpares(w.q, w.hist, w.uid, g);
      case RecvBy(i) =>
        OtherUids(w, i, j);
        RecvSpares(w.q, w.hist, w.subs[i].h, w.uid, g);
      case ReadyBy(i) =>
        OtherUids(w, i, j);
        ResyncSpares(w.q, w.hist, w.subs[i].h, w.uid, g);
    }
    SparedWhole(w.q, Step(w, a).q, w.hist, w.subs[j], first, limit);
  }

  lemma CalmStep(w: World, a: Action, j: nat, first: nat, limit: nat)
    requires WorldInv(w) && Whole(w, j, first, limit) && Allowed(w, a) && Calm(w, a, j, first, limit)
    ensures WorldInv(Step(w, a)) && Whole(Step(w, a), j, first, limit)
  {
    StepKeeps(w, a);
    if a.SendBy? {
      SendWhole(w, a.k, a.m, j, first, limit);
    } else if a == RecvBy(j) {
      OwnRecvWhole(w, j, first, limit);
    } else if a == ReadyBy(j) {
      SparedWhole(w.q, Step(w, a).q, w.hist, w.subs[j], first, limit);
    } else {
      OtherWhole(w, a, j, first, limit);
    }
  }

  /** Every step of a run is calm for subscriber j. */
  ghost predicate CalmRun(w: World, actions: seq<Action>, j: nat, first: nat, limit: nat)
    requires WorldInv(w)
  {
    actions == [] ||
    var before, a := actions[..|actions| - 1], actions[|actions| - 1];
    && CalmRun(w, before, j, first, limit)
    && (Whole(Run(w, before), j, first, limit) && Allowed(Run(w, before), a) ==>
          Calm(Run(w, before), a, j, first, limit))
  }

  /** Over a calm run a subscriber that was whole stays whole. */
  lemma {:induction false} CalmRunsLoseNothing(w: World, actions: seq<Action>, j: nat, first: nat, limit: nat)
    requires WorldInv(w) && Whole(w, j, first, limit) && CalmRun(w, actions, j, first, limit)
    ensures Whole(Run(w, actions), j, first, limit)
  {
    if actions != [] {
      var before, a := actions[..|actions| - 1], actions[|actions| - 1];
      CalmRunsLoseNothing(w, before, j, first, limit);
      var w' := Run(w, before);
      if Allowed(w', a) {
        CalmStep(w', a, j, first, limit);
      }
    }
  }

  /** A new plain subscriber starts whole. */
  lemma NewSubscriberWhole(w: World, limit: nat)
    requires WorldInv(w) && Bounded(w.hist, limit)
    ensures WorldInv(Step(w, NewSubscriber(false)))
    ensures Whole(Step(w, NewSubscriber(false)), |w.subs|, |w.hist.sent|, limit)
  {
    StepKeeps(w, NewSubscriber(false));
    InitSubscriberKeeps(w.q, w.hist, w.uid);
    WriterIsNext(InitSubscriber(w.q, w.uid).0, w.hist);
  }

  /** What it means to be whole: the messages received are those sent since first, none missing, and the
      next receive returns the one after them, or nothing when there is none. */
  lemma WholeMeans(w: World, j: nat, first: nat, limit: nat)
    requires WorldInv(w) && Whole(w, j, first, limit)
    ensures var s := w.subs[j];
            var next := first + |s.got|;
            && next <= |w.hist.sent| && s.msgs == w.hist.sent[first..next]
            && Recv(w.q, w.hist, s.h, w.uid).outcome == if next < |w.hist.sent| then Got(w.hist.sent[next]) else Empty
  {
    var s := w.subs[j];
    RecvDelivers(w.q, w.hist, s.h, w.uid, first + |s.got|);
    PlainDelivered(w.q, w.hist, s.h, w.uid, first + |s.got|, Recv(w.q, w.hist, s.h, w.uid));
    WholeReceived(w.q, w.hist, s, first, limit);
  }

  lemma WholeReceived(q: Queue, hist: History, s: Sub, first: nat, limit: nat)
    requires q.WellFormed() && hist.WellFormed() && SubOk(q, hist, s) && WholeSub(q, hist, s, first, limit)
    ensures s.msgs == hist.sent[first..first + |s.got|]
  {}

  // ----- runs without a send -----

  /** Once everyone has caught up, calls other than sends deliver nothing to anyone. */
  lemma QuietStep(w: World, a: Action)
    requires WorldInv(w) && Allowed(w, a) && !a.SendBy? && CaughtUp(w.q)
    ensures CaughtUp(Step(w, a).q) && |w.subs| <= |Step(w, a).subs|
    ensures forall j :: 0 <= j < |w.subs| ==> Step(w, a).subs[j].msgs == w.subs[j].msgs
  {
    match a
    case NewPublisher =>
    case NewSubscriber(_) =>
    case RecvBy(j) => CaughtUpRecv(w.q, w.hist, w.subs[j].h, w.uid);
    case ReadyBy(j) => ResyncCaughtUp(w.q, w.subs[j].h, w.uid);
  }

  /** After msgq_all_readers_updated has returned true, no subscriber receives anything until the next send. */
  lemma {:induction false} UpdatedMeansQuiet(w: World, actions: seq<Action>)
    requires WorldInv(w) && CaughtUp(w.q) && forall a <- actions :: !a.SendBy?
    ensures var w' := Run(w, actions);
            && CaughtUp(w'.q) && |w.subs| <= |w'.subs|
            && forall j :: 0 <= j < |w.subs| ==> w'.subs[j].msgs == w.subs[j].msgs
  {
    if actions != [] {
      var before, a := actions[..|actions| - 1], actions[|actions| - 1];
      assert forall b <- before :: b in actions;
      assert a in actions;
      UpdatedMeansQuiet(w, before);
      var w' := Run(w, before);
      if Allowed(w', a) {
        QuietStep(w', a);
      }
    }
  }
}
