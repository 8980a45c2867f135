/** Who may still use a queue: the publisher that a later one has replaced, the subscribers that it or a full queue has
    kicked out, and when msgq_all_readers_updated answers. */
module MsgqTakeover {
  import opened MsgqLayout
  import opened MsgqCalls
  import opened MsgqRecv
  import opened MsgqRuns
  import opened MsgqLossless

  // ----- the publisher -----

  lemma {:induction false} OffsetOfSame(l: log, m: message, i: nat)
    requires i <= |l| && forall k :: 0 <= k < |l| ==> l[k] == m
    ensures Offset(l, i) == i * Total(|m|)
  {
    if i != 0 {
      OffsetOfSame(l, m, i - 1);
    }
  }

  /** A send does nothing at all from anyone but the last publisher, and from that one exactly when three such messages
      do not fit the ring. */
  lemma SendsExactly(q: Queue, uid: nat, m: message)
    requires q.WellFormed() && RoomForTag(|q.data|, q.write.pos)
    ensures SendOutcomeOf(q, uid, m) == Killed <==> uid != q.writeUid
    ensures SendOutcomeOf(q, uid, m) == Aborted <==> uid == q.writeUid && |q.data| < Offset([m, m, m], 3)
    ensures uid != q.writeUid || |q.data| < Offset([m, m, m], 3) ==> Send(q, uid, m) == q
  {
    OffsetOfSame([m, m, m], m, 3);
  }

  /** The uids of the publishers are all different, and the last of them is the one in the queue. */
  predicate PublishersOk(pubs: seq<nat>, uid: nat, writeUid: nat) {
    && (forall i :: 0 <= i < |pubs| ==> pubs[i] < uid)
    && (forall i, j :: 0 <= i < j < |pubs| ==> pubs[i] != pubs[j])
    && (pubs != [] ==> writeUid == pubs[|pubs| - 1])
  }

  /** Only a publisher that starts changes who may send. */
  lemma CallsKeepWriter(w: World, a: Action)
    requires WorldInv(w) && Allowed(w, a) && !a.NewPublisher?
    ensures Step(w, a).q.writeUid == w.q.writeUid && Step(w, a).pubs == w.pubs && w.uid <= Step(w, a).uid
  {
    match a
    case RecvBy(j) =>
      var h := w.subs[j].h;
      RecvDelivers(w.q, w.hist, h, w.uid, DueAt(w.q, w.hist, h));
    case _ =>
  }

  lemma StepPublishers(w: World, a: Action)
    requires WorldInv(w) && Allowed(w, a) && PublishersOk(w.pubs, w.uid, w.q.writeUid)
    ensures var w' := Step(w, a); PublishersOk(w'.pubs, w'.uid, w'.q.writeUid)
  {
    if !a.NewPublisher? {
      CallsKeepWriter(w, a);
    }
  }

  lemma {:induction false} RunPublishers(w: World, actions: seq<Action>)
    requires WorldInv(w) && PublishersOk(w.pubs, w.uid, w.q.writeUid)
    ensures var w' := Run(w, actions); PublishersOk(w'.pubs, w'.uid, w'.q.writeUid)
  {
    if actions != [] {
      var before, a := Run(w, actions[..|actions| - 1]), actions[|actions| - 1];
      RunPublishers(w, actions[..|actions| - 1]);
      if Allowed(before, a) {
        StepPublishers(before, a);
      }
    }
  }

  /** Among publishers with different uids exactly those before the last are stopped. */
  lemma StoppedExactly(w: World, k: nat, m: message)
    requires WorldInv(w) && PublishersOk(w.pubs, w.uid, w.q.writeUid) && k < |w.pubs| && m != []
    ensures SendOutcomeOf(w.q, w.pubs[k], m) == Killed <==> k + 1 < |w.pubs|
    ensures k + 1 < |w.pubs| ==> Step(w, SendBy(k, m)) == w
  {}

  /** Over every run: what a publisher sends after another one has started goes nowhere, and no other publisher is
      stopped. */
  lemma OnlyTheLastPublishes(w: World, actions: seq<Action>, k: nat, m: message)
    requires WorldInv(w) && PublishersOk(w.pubs, w.uid, w.q.writeUid) && k < |Run(w, actions).pubs| && m != []
    ensures var w' := Run(w, actions);
            && (SendOutcomeOf(w'.q, w'.pubs[k], m) == Killed <==> k + 1 < |w'.pubs|)
            && (k + 1 < |w'.pubs| ==> Step(w', SendBy(k, m)) == w')
  {
    RunPublishers(w, actions);
    StoppedExactly(Run(w, actions), k, m);
  }

  lemma UnusedStarts(w: World)
    requires Unused(w)
    ensures WorldInv(w) && PublishersOk(w.pubs, w.uid, w.q.writeUid) && Held(w.q)
  {
    UnusedInv(w);
  }

  // ----- the subscribers -----

  /** A new publisher leaves nobody a slot, and the next receive of whoever had one takes a new slot at the writer and
      returns 0. */
  lemma TakeoverEvicts(q: Queue, hist: History, h: Handle, uid: nat, uid': nat)
    requires Inv(q, hist) && HandleOk(h) && uid' != 0
    ensures var q' := InitPublisher(q, uid);
            && q'.numReaders == 0 && !Live(q', h) && Inv(q', hist)
            && var r := Recv(q', hist, h, uid');
               r.outcome == Empty && r.h == Handle(0, uid', h.conflate) && r.q.readers[0] == q.write
               && r.q.valids[0] && r.q.uids[0] == uid'
  {
    InitPublisherKeeps(q, hist, uid);
    RecvResyncs(InitPublisher(q, uid), hist, h, uid');
  }

  /** A subscriber that has received mark messages will not receive one from before place first any more. */
  ghost predicate Beyond(q: Queue, hist: History, s: Sub, mark: nat, first: nat)
    requires q.WellFormed() && hist.WellFormed() && HandleOk(s.h)
  {
    && mark <= |s.got| && (forall i :: mark <= i < |s.got| ==> first <= s.got[i]) && first <= |hist.sent|
    && forall k {:trigger Due(q, hist, s.h, k)} :: Due(q, hist, s.h, k) ==> first <= k
  }

  lemma BeyondLeft(q: Queue, q': Queue, hist: History, s: Sub, mark: nat, first: nat)
    requires q.WellFormed() && q'.WellFormed() && hist.WellFormed() && HandleOk(s.h)
    requires Beyond(q, hist, s, mark, first) && Left(q, q', s.h)
    ensures Beyond(q', hist, s, mark, first)
  {
    forall k | Due(q', hist, s.h, k)
      ensures first <= k
    {
      if Synced(q', s.h) {
        assert Due(q, hist, s.h, k);
      }
    }
  }

  lemma BeyondSend(q: Queue, hist: History, uid: nat, m: message, s: Sub, mark: nat, first: nat)
    requires Inv(q, hist) && m != [] && SendOutcomeOf(q, uid, m).Sent? && HandleOk(s.h)
    requires Beyond(q, hist, s, mark, first)
    ensures SendHistory(q, hist, m).WellFormed()
    ensures Beyond(Send(q, uid, m), SendHistory(q, hist, m), s, mark, first)
  {
    var q', hist', i := Send(q, uid, m), SendHistory(q, hist, m), s.h.id;
    SendKeeps(q, hist, uid, m);
    forall k' | Due(q', hist', s.h, k')
      ensures first <= k'
    {
      if Synced(q', s.h) {
        SendNeverValidates(q, uid, m, i);
        var k := DueAt(q, hist, s.h);
        SendReader(q, hist, uid, m, i, k);
        NextUnique(q', hist', q'.readers[i].pos, k', if q.readers[i].pos == q'.write.pos then |hist.sent| + 1 else k);
      }
    }
  }

  lemma OneDue(q: Queue, hist: History, h: Handle, k: nat, j: nat)
    requires q.WellFormed() && hist.WellFormed() && h.id < NUM_READERS && Due(q, hist, h, k) && Due(q, hist, h, j)
    ensures k == j
  {
    if Synced(q, h) {
      NextUnique(q, hist, q.readers[h.id].pos, k, j);
    }
  }

  /** Message n, due at the earliest, is received or not, and what is due then comes behind it. */
  lemma BeyondAt(q: Queue, hist: History, s: Sub, mark: nat, first: nat, n: nat)
    requires q.WellFormed() && hist.WellFormed() && HandleOk(s.h) && Due(q, hist, s.h, n)
    requires mark <= |s.got| && first <= |hist.sent| && first <= n
    requires forall i :: mark <= i < |s.got| ==> first <= s.got[i]
    ensures Beyond(q, hist, s, mark, first)
  {
    forall k | Due(q, hist, s.h, k)
      ensures first <= k
    {
      OneDue(q, hist, s.h, k, n);
    }
  }

  lemma BeyondRecv(q: Queue, hist: History, s: Sub, uid: nat, mark: nat, first: nat)
    requires Inv(q, hist) && uid != 0 && HandleOk(s.h) && Beyond(q, hist, s, mark, first)
    ensures Beyond(Recv(q, hist, s.h, uid).q, hist, Received(q, hist, s, uid), mark, first)
  {
    var r, k := Recv(q, hist, s.h, uid), DueAt(q, hist, s.h);
    RecvDelivers(q, hist, s.h, uid, k);
    BeyondAt(r.q, hist, Received(q, hist, s, uid), mark, first,
             if k == |hist.sent| then k else Taken(hist, s.h.conflate, k) + 1);
  }

  lemma BeyondResynced(q: Queue, hist: History, s: Sub, uid: nat, mark: nat, first: nat)
    requires Inv(q, hist) && uid != 0 && HandleOk(s.h) && Beyond(q, hist, s, mark, first)
    ensures var (q', h') := Resynced(q, s.h, uid);
            HandleOk(h') && Beyond(q', hist, s.(h := h'), mark, first)
  {
    ResyncedKeeps(q, hist, s.h, uid);
    if !Synced(q, s.h) {
      var (q', h') := Resynced(q, s.h, uid);
      WriterIsNext(q', hist);
      BeyondAt(q', hist, s.(h := h'), mark, first, |hist.sent|);
    }
  }

  ghost predicate SubBeyond(w: World, j: nat, mark: nat, first: nat) {
    && w.q.WellFormed() && w.hist.WellFormed()
    && j < |w.subs| && HandleOk(w.subs[j].h) && Beyond(w.q, w.hist, w.subs[j], mark, first)
  }

  lemma BeyondOthers(w: World, q': Queue, j: nat, i: nat, s': Sub, mark: nat, first: nat)
    requires SubBeyond(w, j, mark, first) && i < |w.subs| && i != j && q'.WellFormed() && Left(w.q, q', w.subs[j].h)
    ensures SubBeyond(w.(q := q', subs := w.subs[i := s'], uid := w.uid + 1), j, mark, first)
  {
    BeyondLeft(w.q, q', w.hist, w.subs[j], mark, first);
  }

  lemma SendStepBeyond(w: World, k: nat, m: message, j: nat, mark: nat, first: nat)
    requires WorldInv(w) && Allowed(w, SendBy(k, m)) && SubBeyond(w, j, mark, first)
    ensures SubBeyond(Step(w, SendBy(k, m)), j, mark, first)
  {
    if SendOutcomeOf(w.q, w.pubs[k], m).Sent? {
      SendKeeps(w.q, w.hist, w.pubs[k], m);
      BeyondSend(w.q, w.hist, w.pubs[k], m, w.subs[j], mark, first);
    }
  }

  lemma RecvStepBeyond(w: World, i: nat, j: nat, mark: nat, first: nat)
    requires WorldInv(w) && Allowed(w, RecvBy(i)) && SubBeyond(w, j, mark, first)
    ensures SubBeyond(Step(w, RecvBy(i)), j, mark, first)
  {
    if i == j {
      BeyondRecv(w.q, w.hist, w.subs[j], w.uid, mark, first);
    } else {
      RecvLeaves(w.q, w.hist, w.subs[i].h, w.uid, w.subs[j].h);
      var q' := Recv(w.q, w.hist, w.subs[i].h, w.uid).q;
      BeyondOthers(w, q', j, i, Received(w.q, w.hist, w.subs[i], w.uid), mark, first);
    }
  }

  lemma ReadyStepBeyond(w: World, i: nat, j: nat, mark: nat, first: nat)
    requires WorldInv(w) && Allowed(w, ReadyBy(i)) && SubBeyond(w, j, mark, first)
    ensures SubBeyond(Step(w, ReadyBy(i)), j, mark, first)
  {
    var (q', h') := Resynced(w.q, w.subs[i].h, w.uid);
    if i == j {
      BeyondResynced(w.q, w.hist, w.subs[j], w.uid, mark, first);
    } else {
      ResyncedLeaves(w.q, w.subs[i].h, w.uid, w.subs[j].h);
      BeyondOthers(w, q', j, i, w.subs[i].(h := h'), mark, first);
    }
  }

  lemma StartStepBeyond(w: World, a: Action, j: nat, mark: nat, first: nat)
    requires WorldInv(w) && (a.NewPublisher? || a.NewSubscriber?) && SubBeyond(w, j, mark, first)
    ensures SubBeyond(Step(w, a), j, mark, first)
  {
    var s := w.subs[j];
    if a.NewSubscriber? {
      ResyncedLeaves(w.q, Handle(0, 0, false), w.uid, s.h);
      BeyondLeft(w.q, InitSubscriber(w.q, w.uid).0, w.hist, s, mark, first);
    } else {
      BeyondLeft(w.q, InitPublisher(w.q, w.uid), w.hist, s, mark, first);
    }
  }

  lemma StepBeyond(w: World, a: Action, j: nat, mark: nat, first: nat)
    requires WorldInv(w) && Allowed(w, a) && SubBeyond(w, j, mark, first)
    ensures SubBeyond(Step(w, a), j, mark, first)
  {
    match a
    case SendBy(k, m) => SendStepBeyond(w, k, m, j, mark, first);
    case RecvBy(i) => RecvStepBeyond(w, i, j, mark, first);
    case ReadyBy(i) => ReadyStepBeyond(w, i, j, mark, first);
    case _ => StartStepBeyond(w, a, j, mark, first);
  }

  lemma {:induction false} RunBeyond(w: World, actions: seq<Action>, j: nat, mark: nat, first: nat)
    requires WorldInv(w) && SubBeyond(w, j, mark, first)
    ensures SubBeyond(Run(w, actions), j, mark, first)
  {
    if actions != [] {
      var before, a := Run(w, actions[..|actions| - 1]), actions[|actions| - 1];
      RunBeyond(w, actions[..|actions| - 1], j, mark, first);
      if Allowed(before, a) {
        StepBeyond(before, a, j, mark, first);
      }
    }
  }

  lemma EvictedBeyond(w: World, j: nat)
    requires WorldInv(w) && j < |w.subs|
    ensures SubBeyond(Step(w, NewPublisher), j, |w.subs[j].got|, |w.hist.sent|)
  {
    StepKeeps(w, NewPublisher);
    TakeoverEvicts(w.q, w.hist, w.subs[j].h, w.uid, w.uid);
  }

  /** Over every run after a takeover: nobody receives a message that an earlier publisher sent. */
  lemma TakeoverForgets(w: World, more: seq<Action>, j: nat)
    requires WorldInv(w) && j < |w.subs|
    ensures WorldInv(Step(w, NewPublisher)) && j < |Run(Step(w, NewPublisher), more).subs|
    ensures var s, s' := w.subs[j], Run(Step(w, NewPublisher), more).subs[j];
            && |s.got| <= |s'.got|
            && forall i :: |s.got| <= i < |s'.got| ==> |w.hist.sent| <= s'.got[i]
  {
    StepKeeps(w, NewPublisher);
    EvictedBeyond(w, j);
    RunBeyond(Step(w, NewPublisher), more, j, |w.subs[j].got|, |w.hist.sent|);
  }

  // ----- a full queue -----

  /** With fifteen slots in use a new subscriber gets slot 0 and everybody else has lost theirs; with fewer it gets the
      next one and nobody else has. */
  lemma NewSubscriberEvicts(q: Queue, hist: History, uid: nat, h: Handle)
    requires Inv(q, hist) && HandleOk(h) && h.uid != uid
    ensures var (q', id) := InitSubscriber(q, uid);
            && id == (if q.numReaders == 15 then 0 else q.numReaders) && q'.numReaders == id + 1
            && (q.numReaders == 15 ==> !Live(q', h))
            && (q.numReaders < 15 && Live(q, h) ==>
                  Live(q', h) && q'.valids[h.id] == q.valids[h.id] && q'.readers[h.id] == q.readers[h.id])
  {}

  // ----- msgq_all_readers_updated -----

  /** The handle of whoever is in slot i. */
  function HandleIn(q: Queue, i: nat): Handle
    requires q.WellFormed() && i < NUM_READERS
  {
    Handle(i, q.uids[i], false)
  }

  /** A valid reader whose next receive would return 0, and that has not been lapped. */
  ghost predicate UpToDate(q: Queue, hist: History, i: nat, uid: nat)
    requires Inv(q, hist) && i < NUM_READERS && q.uids[i] != 0 && uid != 0
  {
    Exact(q, HandleIn(q, i)) && Recv(q, hist, HandleIn(q, i), uid).outcome == Empty
  }

  lemma UpToDateExactly(q: Queue, hist: History, i: nat, uid: nat)
    requires Inv(q, hist) && i < NUM_READERS && q.uids[i] != 0 && uid != 0 && q.valids[i]
    ensures UpToDate(q, hist, i, uid) <==> q.readers[i] == q.write
  {
    var h := HandleIn(q, i);
    AwayMeansDue(q, hist, h, uid);
  }

  /** Whoever is marked valid holds the slot. */
  predicate Held(q: Queue)
    requires q.WellFormed()
  {
    forall i :: 0 <= i < NUM_READERS && q.valids[i] ==> q.uids[i] != 0
  }

  lemma RecvHeld(q: Queue, hist: History, h: Handle, uid: nat)
    requires Inv(q, hist) && HandleOk(h) && uid != 0 && Held(q)
    ensures Held(Recv(q, hist, h, uid).q)
  {
    if Synced(q, h) {
      RecvDelivers(q, hist, h, uid, DueAt(q, hist, h));
    } else {
      RecvResyncs(q, hist, h, uid);
    }
  }

  lemma SendHeld(q: Queue, uid: nat, m: message)
    requires q.WellFormed() && RoomForTag(|q.data|, q.write.pos) && Held(q)
    ensures Held(Send(q, uid, m))
  {
    forall i | 0 <= i < NUM_READERS && Send(q, uid, m).valids[i]
      ensures Send(q, uid, m).uids[i] != 0
    {
      SendNeverValidates(q, uid, m, i);
    }
  }

  lemma StepHeld(w: World, a: Action)
    requires WorldInv(w) && Allowed(w, a) && Held(w.q)
    ensures Held(Step(w, a).q)
  {
    match a
    case SendBy(k, m) => SendHeld(w.q, w.pubs[k], m);
    case RecvBy(j) => RecvHeld(w.q, w.hist, w.subs[j].h, w.uid);
    case _ =>
  }

  lemma {:induction false} RunHeld(w: World, actions: seq<Action>)
    requires WorldInv(w) && Held(w.q)
    ensures Held(Run(w, actions).q)
  {
    if actions != [] {
      var before, a := Run(w, actions[..|actions| - 1]), actions[|actions| - 1];
      RunHeld(w, actions[..|actions| - 1]);
      if Allowed(before, a) {
        StepHeld(before, a);
      }
    }
  }

  lemma UpdatedHeld(q: Queue, hist: History, uid: nat)
    requires Inv(q, hist) && uid != 0 && Held(q)
    ensures AllReadersUpdated(q) <==>
              q.numReaders > 0 && forall i :: 0 <= i < q.numReaders && q.valids[i] ==> UpToDate(q, hist, i, uid)
  {
    forall i | 0 <= i < q.numReaders && q.valids[i]
      ensures UpToDate(q, hist, i, uid) <==> q.write == q.readers[i]
    {
      UpToDateExactly(q, hist, i, uid);
    }
  }

  /** After every run the answer is true exactly when there are readers, and every valid one has nothing left to receive
      and has not been lapped. */
  lemma UpdatedExactly(w: World, actions: seq<Action>, uid: nat)
    requires WorldInv(w) && Held(w.q) && uid != 0
    ensures var w' := Run(w, actions);
            && Held(w'.q)
            && (AllReadersUpdated(w'.q) <==>
                  && w'.q.numReaders > 0
                  && forall i :: 0 <= i < w'.q.numReaders && w'.q.valids[i] ==> UpToDate(w'.q, w'.hist, i, uid))
  {
    RunHeld(w, actions);
    UpdatedHeld(Run(w, actions).q, Run(w, actions).hist, uid);
  }
}
