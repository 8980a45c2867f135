/** One receive for every send is enough to lose nothing. */
module MsgqPaced {
  import opened MsgqLayout
  import opened MsgqCalls
  import opened MsgqRecv
  import opened MsgqRuns
  import opened MsgqLossless

  /** There has been a send since subscriber j's last receive. */
  function Owed(actions: seq<Action>, j: nat): bool {
    actions != [] &&
    match actions[|actions| - 1]
    case SendBy(_, _) => true
    case RecvBy(i) => i != j && Owed(actions[..|actions| - 1], j)
    case _ => Owed(actions[..|actions| - 1], j)
  }

  /** No publisher takes over, and no call evicts everybody to make room. */
  predicate RoomFor(w: World, a: Action, j: nat)
    requires w.q.WellFormed() && Allowed(w, a) && j < |w.subs|
  {
    match a
    case NewPublisher => false
    case NewSubscriber(_) => w.q.numReaders < NUM_READERS
    case SendBy(_, _) => true
    case RecvBy(i) => i == j || Live(w.q, w.subs[i].h) || w.q.numReaders < NUM_READERS
    case ReadyBy(i) => i == j || Live(w.q, w.subs[i].h) || w.q.numReaders < NUM_READERS
  }

  /** Subscriber j receives between any two sends, and nobody is evicted. */
  ghost predicate Paced(w: World, actions: seq<Action>, j: nat)
    requires WorldInv(w)
  {
    actions == [] ||
    var before, a := actions[..|actions| - 1], actions[|actions| - 1];
    && Paced(w, before, j)
    && (a.SendBy? ==> !Owed(before, j))
    && (Allowed(Run(w, before), a) && j < |Run(w, before).subs| ==> RoomFor(Run(w, before), a, j))
  }

  /** Subscriber j has lost nothing, and has everything but, when a receive is owed, the last message. */
  ghost predicate Following(w: World, j: nat, first: nat, size: nat, owed: bool)
    requires WorldInv(w)
  {
    && |w.q.data| == size && Whole(w, j, first, size / 3)
    && |w.hist.sent| <= first + |w.subs[j].got| + (if owed then 1 else 0)
  }

  lemma SendFits(w: World, k: nat, m: message)
    requires WorldInv(w) && Allowed(w, SendBy(k, m)) && SendOutcomeOf(w.q, w.pubs[k], m).Sent?
    ensures Total(|m|) <= |w.q.data| / 3 && Ample(w.q, w.hist, |w.hist.sent|, |w.q.data| / 3)
  {
    CaughtUpIsAmple(w.q, w.hist, m);
  }

  lemma RoomyIsCalm(w: World, a: Action, j: nat, first: nat, size: nat, owed: bool)
    requires WorldInv(w) && Following(w, j, first, size, owed) && Allowed(w, a) && RoomFor(w, a, j)
    requires a.SendBy? ==> !owed
    ensures Calm(w, a, j, first, size / 3)
  {
    match a
    case SendBy(k, m) =>
      if SendOutcomeOf(w.q, w.pubs[k], m).Sent? {
        SendFits(w, k, m);
      }
    case _ =>
  }

  /** What a step does to the count of messages. */
  lemma SendCounts(w: World, k: nat, m: message, j: nat)
    requires WorldInv(w) && Allowed(w, SendBy(k, m)) && j < |w.subs|
    ensures var w' := Step(w, SendBy(k, m));
            |w'.hist.sent| <= |w.hist.sent| + 1 && w'.subs == w.subs && |w'.q.data| == |w.q.data|
  {}

  lemma OwnReceiveCounts(w: World, j: nat, first: nat, limit: nat)
    requires WorldInv(w) && Whole(w, j, first, limit)
    ensures var w' := Step(w, RecvBy(j));
            && w'.hist == w.hist && |w'.q.data| == |w.q.data| && |w'.subs| == |w.subs|
            && |w'.subs[j].got| == |w.subs[j].got| + (if first + |w.subs[j].got| < |w.hist.sent| then 1 else 0)
  {
    var s := w.subs[j];
    var k := first + |s.got|;
    DueIs(w.q, w.hist, s.h, k);
    RecvDelivers(w.q, w.hist, s.h, w.uid, k);
    PlainDelivered(w.q, w.hist, s.h, w.uid, k, Recv(w.q, w.hist, s.h, w.uid));
  }

  lemma OtherCounts(w: World, a: Action, j: nat)
    requires WorldInv(w) && Allowed(w, a) && j < |w.subs| && !a.SendBy? && a != RecvBy(j)
    ensures var w' := Step(w, a);
            w'.hist == w.hist && j < |w'.subs| && w'.subs[j].got == w.subs[j].got && |w'.q.data| == |w.q.data|
  {
    match a
    case RecvBy(i) => RecvKeepsData(w.q, w.hist, w.subs[i].h, w.uid);
    case _ =>
  }

  lemma RecvKeepsData(q: Queue, hist: History, h: Handle, uid: nat)
    requires Inv(q, hist) && HandleOk(h) && uid != 0
    ensures Recv(q, hist, h, uid).q.data == q.data
  {
    RecvDelivers(q, hist, h, uid, DueAt(q, hist, h));
  }

  /** Whether a receive is owed after a step. */
  function OwedAfter(owed: bool, a: Action, j: nat): bool {
    a.SendBy? || (owed && a != RecvBy(j))
  }

  lemma FollowStep(w: World, a: Action, j: nat, first: nat, size: nat, owed: bool)
    requires WorldInv(w) && Following(w, j, first, size, owed) && Allowed(w, a) && RoomFor(w, a, j)
    requires a.SendBy? ==> !owed
    ensures WorldInv(Step(w, a)) && Following(Step(w, a), j, first, size, OwedAfter(owed, a, j))
  {
    RoomyIsCalm(w, a, j, first, size, owed);
    CalmStep(w, a, j, first, size / 3);
    if a.SendBy? {
      SendCounts(w, a.k, a.m, j);
    } else if a == RecvBy(j) {
      OwnReceiveCounts(w, j, first, size / 3);
    } else {
      OtherCounts(w, a, j);
    }
  }

  /** A call that is not allowed does not happen, and leaves at most a receive owed. */
  lemma FollowSkip(w: World, j: nat, first: nat, size: nat, owed: bool)
    requires WorldInv(w) && Following(w, j, first, size, owed)
    ensures Following(w, j, first, size, true)
  {}

  lemma FollowAction(w: World, actions: seq<Action>, j: nat, first: nat, size: nat)
    requires WorldInv(w) && actions != [] && Paced(w, actions, j)
    requires var before := actions[..|actions| - 1]; Following(Run(w, before), j, first, size, Owed(before, j))
    ensures Following(Run(w, actions), j, first, size, Owed(actions, j))
  {
    var before, a := actions[..|actions| - 1], actions[|actions| - 1];
    var w' := Run(w, before);
    if Allowed(w', a) {
      FollowStep(w', a, j, first, size, Owed(before, j));
    } else if a.SendBy? {
      FollowSkip(w', j, first, size, Owed(before, j));
    }
  }

  lemma {:induction false} PacedFollows(w: World, actions: seq<Action>, j: nat, first: nat, size: nat)
    requires WorldInv(w) && Following(w, j, first, size, false) && Paced(w, actions, j)
    ensures Following(Run(w, actions), j, first, size, Owed(actions, j))
  {
    if actions != [] {
      PacedFollows(w, actions[..|actions| - 1], j, first, size);
      FollowAction(w, actions, j, first, size);
    }
  }

  /** Over every run in which a plain subscriber that has read everything receives once between any two sends,
      and nobody is evicted, it loses nothing: whenever no receive is owed it has received every message. */
  lemma OneReceivePerSend(w: World, actions: seq<Action>, j: nat, first: nat)
    requires WorldInv(w) && Whole(w, j, first, |w.q.data| / 3) && first + |w.subs[j].got| == |w.hist.sent|
    requires Paced(w, actions, j)
    ensures Whole(Run(w, actions), j, first, |w.q.data| / 3)
    ensures var w' := Run(w, actions);
            !Owed(actions, j) ==> first + |w'.subs[j].got| == |w'.hist.sent|
  {
    PacedFollows(w, actions, j, first, |w.q.data|);
  }
}
