/** Runs of the msgq calls, by any number of publishers and subscribers, each call one step. */
module MsgqRuns {
  import opened MsgqLayout
  import opened MsgqCalls
  import opened MsgqRecv

  /** A subscriber with its history: the messages it received, and which of the messages sent they were. */
  datatype Sub = Sub(h: Handle, got: seq<nat>, msgs: seq<message>)

  /** The queue, what was sent on it, the subscribers, the uids of the publishers, and the next fresh uid. */
  datatype World = World(q: Queue, hist: History, subs: seq<Sub>, pubs: seq<nat>, uid: nat)

  /** One call: a publisher starting (or taking over), a subscriber starting, a send by publisher k, a
      receive or a readiness check by subscriber j. */
  datatype Action = NewPublisher | NewSubscriber(conflate: bool) | SendBy(k: nat, m: message)
      | RecvBy(j: nat) | ReadyBy(j: nat)

  // ----- what holds of a subscriber -----

  /** Everything received is byte for byte what was sent, in the order of sending, each message once; and
      what is next for a synchronised reader comes after it. */
  ghost predicate SubOk(q: Queue, hist: History, s: Sub)
    requires q.WellFormed() && hist.WellFormed()
  {
    && HandleOk(s.h) && |s.got| == |s.msgs|
    && (forall i :: 0 <= i < |s.got| ==> s.got[i] < |hist.sent| && s.msgs[i] == hist.sent[s.got[i]])
    && (forall i, j :: 0 <= i < j < |s.got| ==> s.got[i] < s.got[j])
    && (Synced(q, s.h) && s.got != [] ==>
          forall k :: Next(q.write, hist, q.readers[s.h.id].pos, k) ==> s.got[|s.got| - 1] < k)
  }

  /** The reader of a handle is where it was, or no longer synchronised, and the writer stands still. */
  predicate Left(q: Queue, q': Queue, g: Handle)
    requires q.WellFormed() && q'.WellFormed()
  {
    q'.write == q.write && (Synced(q', g) ==> Synced(q, g) && q'.readers[g.id] == q.readers[g.id])
  }

  lemma LeftOk(q: Queue, q': Queue, hist: History, s: Sub)
    requires q.WellFormed() && q'.WellFormed() && hist.WellFormed() && SubOk(q, hist, s) && Left(q, q', s.h)
    ensures SubOk(q', hist, s)
  {}

  /** A new subscriber, and an evicted one coming back, leave the others where they were or unsynchronised. */
  lemma ResyncedLeaves(q: Queue, h: Handle, uid: nat, g: Handle)
    requires q.WellFormed() && h.id < NUM_READERS && HandleOk(g) && g.uid != h.uid && g.uid != uid
    ensures Left(q, Resynced(q, h, uid).0, g)
    ensures Left(q, InitSubscriber(q, uid).0, g)
  {}

  lemma RecvLeaves(q: Queue, hist: History, h: Handle, uid: nat, g: Handle)
    requires Inv(q, hist) && HandleOk(h) && uid != 0 && HandleOk(g) && g.uid != h.uid && g.uid != uid
    ensures Left(q, Recv(q, hist, h, uid).q, g)
  {
    if Synced(q, h) {
      var k := DueAt(q, hist, h);
      RecvDelivers(q, hist, h, uid, k);
    } else {
      RecvResyncs(q, hist, h, uid);
      ResyncedLeaves(q, h, uid, g);
    }
  }

  lemma SendOk(q: Queue, hist: History, uid: nat, m: message, s: Sub)
    requires Inv(q, hist) && m != [] && SendOutcomeOf(q, uid, m).Sent? && SubOk(q, hist, s)
    ensures SendHistory(q, hist, m).WellFormed() && SubOk(Send(q, uid, m), SendHistory(q, hist, m), s)
  {
    var q', hist' := Send(q, uid, m), SendHistory(q, hist, m);
    SendKeeps(q, hist, uid, m);
    if Synced(q', s.h) && s.got != [] {
      var i := s.h.id;
      assert q.valids[i] by { SendNeverValidates(q, uid, m, i); }
      assert ReaderFine(q, hist, i);
      var k: nat :| Next(q.write, hist, q.readers[i].pos, k);
      SendReader(q, hist, uid, m, i, k);
      forall k' | Next(q'.write, hist', q'.readers[i].pos, k')
        ensures s.got[|s.got| - 1] < k'
      {
        NextUnique(q', hist', q'.readers[i].pos, k', if q.readers[i].pos == q'.write.pos then |hist.sent| + 1 else k);
      }
    }
  }

  lemma SendNeverValidates(q: Queue, uid: nat, m: message, i: nat)
    requires q.WellFormed() && RoomForTag(|q.data|, q.write.pos) && i < NUM_READERS && Send(q, uid, m).valids[i]
    ensures q.valids[i]
  {}

  /** Which message a receive returns when message k is due. */
  function Taken(hist: History, conflate: bool, k: nat): nat {
    if conflate && |hist.sent| > 0 then |hist.sent| - 1 else k
  }

  /** A subscriber after a receive that found message k due. */
  function After(hist: History, s: Sub, k: nat, r: Pass): Sub {
    if r.outcome.Got? then
      Sub(r.h, s.got + [Taken(hist, s.h.conflate, k)], s.msgs + [r.outcome.m])
    else
      s.(h := r.h)
  }

  /** A subscriber after its own receive. */
  ghost function Received(q: Queue, hist: History, s: Sub, uid: nat): Sub
    requires Inv(q, hist) && HandleOk(s.h) && uid != 0
  {
    After(hist, s, DueAt(q, hist, s.h), Recv(q, hist, s.h, uid))
  }

  /** With message k next, nothing received so far comes after it. */
  lemma GotBefore(q: Queue, hist: History, s: Sub, k: nat)
    requires q.WellFormed() && hist.WellFormed() && SubOk(q, hist, s) && Due(q, hist, s.h, k)
    ensures forall i :: 0 <= i < |s.got| ==> s.got[i] < k
  {}

  /** The history grows by a later message, and the reader stands behind it. */
  lemma GotMore(q: Queue, hist: History, s: Sub, k: nat, q': Queue, h': Handle, n: nat)
    requires q.WellFormed() && hist.WellFormed() && SubOk(q, hist, s) && Due(q, hist, s.h, k) && k <= n < |hist.sent|
    requires q'.WellFormed() && HandleOk(h') && Synced(q', h') && Next(q'.write, hist, q'.readers[h'.id].pos, n + 1)
    ensures SubOk(q', hist, Sub(h', s.got + [n], s.msgs + [hist.sent[n]]))
  {
    GotBefore(q, hist, s, k);
    forall j | Next(q'.write, hist, q'.readers[h'.id].pos, j)
      ensures j == n + 1
    {
      NextUnique(q', hist, q'.readers[h'.id].pos, j, n + 1);
    }
  }

  lemma GotNothing(q: Queue, hist: History, s: Sub, k: nat, q': Queue, h': Handle)
    requires q.WellFormed() && hist.WellFormed() && SubOk(q, hist, s) && Due(q, hist, s.h, k)
    requires q'.WellFormed() && HandleOk(h') && Synced(q', h') && Next(q'.write, hist, q'.readers[h'.id].pos, k)
    ensures SubOk(q', hist, s.(h := h'))
  {
    GotBefore(q, hist, s, k);
    forall j | Next(q'.write, hist, q'.readers[h'.id].pos, j)
      ensures j == k
    {
      NextUnique(q', hist, q'.readers[h'.id].pos, j, k);
    }
  }

  lemma RecvOk(q: Queue, hist: History, s: Sub, uid: nat)
    requires Inv(q, hist) && uid != 0 && SubOk(q, hist, s)
    ensures SubOk(Recv(q, hist, s.h, uid).q, hist, Received(q, hist, s, uid))
  {
    var r, k := Recv(q, hist, s.h, uid), DueAt(q, hist, s.h);
    RecvDelivers(q, hist, s.h, uid, k);
    if k < |hist.sent| {
      GotMore(q, hist, s, k, r.q, r.h, Taken(hist, s.h.conflate, k));
    } else {
      GotNothing(q, hist, s, k, r.q, r.h);
    }
  }

  lemma ResyncedOk(q: Queue, hist: History, s: Sub, uid: nat)
    requires Inv(q, hist) && uid != 0 && SubOk(q, hist, s)
    ensures var (q', h') := Resynced(q, s.h, uid);
            Inv(q', hist) && SubOk(q', hist, s.(h := h'))
  {
    ResyncedKeeps(q, hist, s.h, uid);
    if !Synced(q, s.h) {
      var (q', h') := Resynced(q, s.h, uid);
      WriterIsNext(q', hist);
      GotNothing(q, hist, s, |hist.sent|, q', h');
    }
  }

  // ----- the steps of a run -----

  ghost predicate WorldInv(w: World) {
    && Inv(w.q, w.hist) && 0 < w.uid
    && (forall i :: 0 <= i < NUM_READERS ==> w.q.uids[i] < w.uid)
    && (forall j :: 0 <= j < |w.subs| ==> SubOk(w.q, w.hist, w.subs[j]) && w.subs[j].h.uid < w.uid)
    && (forall i, j :: 0 <= i < j < |w.subs| ==> w.subs[i].h.uid != w.subs[j].h.uid)
  }

  /** The caller exists, and the message is not empty. */
  predicate Allowed(w: World, a: Action) {
    match a
    case SendBy(k, m) => k < |w.pubs| && m != []
    case RecvBy(j) => j < |w.subs|
    case ReadyBy(j) => j < |w.subs|
    case _ => true
  }

  ghost function Step(w: World, a: Action): World
    requires WorldInv(w) && Allowed(w, a)
  {
    match a
    case NewPublisher => w.(q := InitPublisher(w.q, w.uid), pubs := w.pubs + [w.uid], uid := w.uid + 1)
    case NewSubscriber(conflate) =>
      var (q', id) := InitSubscriber(w.q, w.uid);
      w.(q := q', subs := w.subs + [Sub(Handle(id, w.uid, conflate), [], [])], uid := w.uid + 1)
    case SendBy(k, m) =>
      if SendOutcomeOf(w.q, w.pubs[k], m).Sent? then
        w.(q := Send(w.q, w.pubs[k], m), hist := SendHistory(w.q, w.hist, m))
      else w
    case RecvBy(j) =>
      var s := w.subs[j];
      w.(q := Recv(w.q, w.hist, s.h, w.uid).q, subs := w.subs[j := Received(w.q, w.hist, s, w.uid)], uid := w.uid + 1)
    case ReadyBy(j) =>
      var s := w.subs[j];
      var (q', h') := Resynced(w.q, s.h, w.uid);
      w.(q := q', subs := w.subs[j := s.(h := h')], uid := w.uid + 1)
  }

  // ----- every step keeps the invariant -----

  /** Replacing subscriber j, and leaving the others where they were or unsynchronised. */
  lemma OneSubStep(w: World, j: nat, q': Queue, s': Sub)
    requires WorldInv(w) && j < |w.subs| && Inv(q', w.hist)
    requires SubOk(q', w.hist, s') && s'.h.uid in {w.subs[j].h.uid, w.uid}
    requires forall i :: 0 <= i < |w.subs| && i != j ==> Left(w.q, q', w.subs[i].h)
    requires forall i :: 0 <= i < NUM_READERS ==> q'.uids[i] <= w.uid
    ensures WorldInv(w.(q := q', subs := w.subs[j := s'], uid := w.uid + 1))
  {
    forall i | 0 <= i < |w.subs| && i != j
      ensures SubOk(q', w.hist, w.subs[i])
    {
      LeftOk(w.q, q', w.hist, w.subs[i]);
    }
  }

  lemma ResyncedUids(q: Queue, h: Handle, uid: nat)
    requires q.WellFormed() && h.id < NUM_READERS && forall i :: 0 <= i < NUM_READERS ==> q.uids[i] <= uid
    ensures forall i :: 0 <= i < NUM_READERS ==> Resynced(q, h, uid).0.uids[i] <= uid
    ensures Resynced(q, h, uid).1.uid in {h.uid, uid}
    ensures forall i :: 0 <= i < NUM_READERS ==> InitSubscriber(q, uid).0.uids[i] <= uid
  {}

  lemma RecvUids(q: Queue, hist: History, h: Handle, uid: nat)
    requires Inv(q, hist) && HandleOk(h) && uid != 0 && forall i :: 0 <= i < NUM_READERS ==> q.uids[i] <= uid
    ensures forall i :: 0 <= i < NUM_READERS ==> Recv(q, hist, h, uid).q.uids[i] <= uid
    ensures Recv(q, hist, h, uid).h.uid in {h.uid, uid}
  {
    if Synced(q, h) {
      RecvDelivers(q, hist, h, uid, DueAt(q, hist, h));
    } else {
      RecvResyncs(q, hist, h, uid);
      ResyncedUids(q, h, uid);
    }
  }

  lemma RecvStep(w: World, j: nat)
    requires WorldInv(w) && j < |w.subs|
    ensures WorldInv(Step(w, RecvBy(j)))
  {
    var s := w.subs[j];
    RecvOk(w.q, w.hist, s, w.uid);
    RecvUids(w.q, w.hist, s.h, w.uid);
    forall i | 0 <= i < |w.subs| && i != j
      ensures Left(w.q, Recv(w.q, w.hist, s.h, w.uid).q, w.subs[i].h)
    {
      RecvLeaves(w.q, w.hist, s.h, w.uid, w.subs[i].h);
    }
    OneSubStep(w, j, Recv(w.q, w.hist, s.h, w.uid).q, Received(w.q, w.hist, s, w.uid));
  }

  lemma ReadyStep(w: World, j: nat)
    requires WorldInv(w) && j < |w.subs|
    ensures WorldInv(Step(w, ReadyBy(j)))
  {
    var s := w.subs[j];
    ResyncedOk(w.q, w.hist, s, w.uid);
    ResyncedUids(w.q, s.h, w.uid);
    var (q', h') := Resynced(w.q, s.h, w.uid);
    forall i | 0 <= i < |w.subs| && i != j
      ensures Left(w.q, q', w.subs[i].h)
    {
      ResyncedLeaves(w.q, s.h, w.uid, w.subs[i].h);
    }
    OneSubStep(w, j, q', s.(h := h'));
  }

  lemma SubscriberStep(w: World, conflate: bool)
    requires WorldInv(w)
    ensures WorldInv(Step(w, NewSubscriber(conflate)))
  {
    var (q', id) := InitSubscriber(w.q, w.uid);
    InitSubscriberKeeps(w.q, w.hist, w.uid);
    forall i | 0 <= i < |w.subs|
      ensures SubOk(q', w.hist, w.subs[i])
    {
      ResyncedLeaves(w.q, Handle(0, 0, false), w.uid, w.subs[i].h);
      LeftOk(w.q, q', w.hist, w.subs[i]);
    }
    ResyncedUids(w.q, Handle(0, 0, false), w.uid);
  }

  lemma PublisherStep(w: World)
    requires WorldInv(w)
    ensures WorldInv(Step(w, NewPublisher))
  {
    InitPublisherKeeps(w.q, w.hist, w.uid);
    var q' := InitPublisher(w.q, w.uid);
    forall i | 0 <= i < |w.subs|
      ensures SubOk(q', w.hist, w.subs[i])
    {
      LeftOk(w.q, q', w.hist, w.subs[i]);
    }
  }

  lemma SendStep(w: World, k: nat, m: message)
    requires WorldInv(w) && k < |w.pubs| && m != []
    ensures WorldInv(Step(w, SendBy(k, m)))
  {
    if SendOutcomeOf(w.q, w.pubs[k], m).Sent? {
      SendKeeps(w.q, w.hist, w.pubs[k], m);
      forall i | 0 <= i < |w.subs|
        ensures SubOk(Send(w.q, w.pubs[k], m), SendHistory(w.q, w.hist, m), w.subs[i])
      {
        SendOk(w.q, w.hist, w.pubs[k], m, w.subs[i]);
      }
    }
  }

  lemma StepKeeps(w: World, a: Action)
    requires WorldInv(w) && Allowed(w, a)
    ensures WorldInv(Step(w, a))
  {
    match a
    case NewPublisher => PublisherStep(w);
    case NewSubscriber(conflate) => SubscriberStep(w, conflate);
    case SendBy(k, m) => SendStep(w, k, m);
    case RecvBy(j) => RecvStep(w, j);
    case ReadyBy(j) => ReadyStep(w, j);
  }

  // ----- runs -----

  /** A run of calls; a call that is not allowed does not happen. */
  ghost function Run(w: World, actions: seq<Action>): (w': World)
    requires WorldInv(w)
    ensures WorldInv(w')
  {
    if actions == [] then w
    else
      var before := Run(w, actions[..|actions| - 1]);
      var a := actions[|actions| - 1];
      if Allowed(before, a) then
        StepKeeps(before, a);
        Step(before, a)
      else
        before
  }

  /** A zero-filled queue that nobody uses yet. */
  ghost predicate Unused(w: World) {
    Zeroed(w.q) && w.hist.sent == [] && w.hist.prev == 0 && w.hist.base == 0
    && w.subs == [] && w.pubs == [] && w.uid == 1
  }

  lemma UnusedInv(w: World)
    requires Unused(w)
    ensures WorldInv(w)
  {
    ZeroedInv(w.q, w.hist);
  }

  /** Over every run of publishers starting and taking over, subscribers starting and being evicted, sends,
      receives and readiness checks, each message a subscriber received is byte for byte one that was sent,
      and the messages it received are in the order of sending, each once. */
  lemma RunsDeliverInOrder(w: World, actions: seq<Action>, s: Sub)
    requires WorldInv(w) && s in Run(w, actions).subs
    ensures var sent := Run(w, actions).hist.sent;
            && |s.got| == |s.msgs|
            && (forall i :: 0 <= i < |s.got| ==> s.got[i] < |sent| && s.msgs[i] == sent[s.got[i]])
            && (forall i, j :: 0 <= i < j < |s.got| ==> s.got[i] < s.got[j])
  {
    var w' := Run(w, actions);
    var j :| 0 <= j < |w'.subs| && w'.subs[j] == s;
    assert SubOk(w'.q, w'.hist, w'.subs[j]);
  }
}
