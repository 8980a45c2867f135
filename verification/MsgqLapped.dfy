/** When a reader is lapped without losing its validity: exactly when the writer comes up to it from behind. */
module MsgqLapped {
  import opened MsgqLayout
  import opened MsgqCalls
  import opened MsgqRecv
  import opened MsgqRuns
  import opened MsgqLossless

  /** Where the writer stands after a send that goes through. */
  function EndOfSend(size: nat, write: Cursor, m: message): nat {
    if Crowded(size, write.pos, m) then Total(|m|) else write.pos + Total(|m|)
  }

  lemma SendEnds(q: Queue, hist: History, uid: nat, m: message)
    requires Inv(q, hist) && m != [] && SendOutcomeOf(q, uid, m).Sent?
    ensures Send(q, uid, m).write.pos == EndOfSend(|q.data|, q.write, m)
  {
    if MustWrap(q, m) {
      WrapRoom(q, m);
    }
  }

  /** A send leaves an unlapped reader synchronised but lapped exactly when it ends at the reader's position. */
  lemma LappedExactly(q: Queue, hist: History, h: Handle, uid: nat, m: message)
    requires Inv(q, hist) && HandleOk(h) && Exact(q, h) && m != [] && SendOutcomeOf(q, uid, m).Sent?
    ensures var q' := Send(q, uid, m);
            Synced(q', h) && !Exact(q', h) <==> q.readers[h.id].pos == EndOfSend(|q.data|, q.write, m)
  {
    assert ReaderFine(q, hist, h.id);
    SendEnds(q, hist, uid, m);
    if MustWrap(q, m) {
      WrapRoom(q, m);
    }
  }

  /** Then every message it had not read, the one just sent included, is lost: the message due is the one
      that will be sent next, and a receive returns nothing. */
  lemma LappedLoses(q: Queue, hist: History, h: Handle, uid: nat, m: message, uid': nat)
    requires Inv(q, hist) && HandleOk(h) && Exact(q, h) && m != [] && SendOutcomeOf(q, uid, m).Sent? && uid' != 0
    requires q.readers[h.id].pos == EndOfSend(|q.data|, q.write, m)
    ensures var q', hist' := Send(q, uid, m), SendHistory(q, hist, m);
            && Inv(q', hist') && |hist'.sent| == |hist.sent| + 1
            && Due(q', hist', h, |hist'.sent|)
            && Recv(q', hist', h, uid') == Pass(q', h, Empty)
  {
    var q', hist' := Send(q, uid, m), SendHistory(q, hist, m);
    LappedExactly(q, hist, h, uid, m);
    SendEnds(q, hist, uid, m);
    SendKeeps(q, hist, uid, m);
    WriterIsNext(q', hist');
    assert Stands(q', hist', h, |hist'.sent|);
    PassAtWriter(q', hist', h, uid', |hist'.sent|);
  }

  /** A wrap spares exactly the valid readers up to the wrap tag: of those in the rest of the ring, the ones on
      the tag itself, whatever their cycle. */
  lemma WrapSparesExactly(q: Queue, hist: History, i: nat)
    requires Inv(q, hist) && i < NUM_READERS && q.valids[i] && q.write.pos + 8 <= |q.data|
    ensures Wrap(q).valids[i] <==> q.readers[i].pos <= q.write.pos
  {
    assert ReaderFine(q, hist, i);
    if q.write.pos < q.readers[i].pos {
      SyncedInside(q, hist, i);
    }
  }

  lemma SyncedInside(q: Queue, hist: History, i: nat)
    requires Inv(q, hist) && i < NUM_READERS && q.valids[i]
    ensures q.readers[i].pos < 0x1_0000_0000
  {
    assert ReaderFine(q, hist, i);
    var k: nat :| Next(q.write, hist, q.readers[i].pos, k);
    NextInside(q, hist, q.readers[i].pos, k);
  }

  // ----- a run in which it happens -----

  /** One publisher and one plain subscriber on a ring of 64 bytes with messages of eight: what was sent, how
      much of it received, which message is due, and where the two stand. */
  datatype Stage = Stage(sent: log, got: nat, due: nat, write: Cursor, read: Cursor)

  const START := Stage([], 0, 0, Cursor(0, 0), Cursor(0, 0))

  /** A publisher and a plain subscriber start. */
  const CONNECT: seq<Action> := [NewPublisher, NewSubscriber(false)]

  ghost predicate Shape(q: Queue, hist: History, got: seq<nat>, l: Stage) {
    && q.WellFormed() && hist.WellFormed()
    && |q.data| == 64 && q.writeUid == 1 && q.uids[0] == 2 && q.valids[0]
    && hist.sent == l.sent && got == seq(l.got, i => i)
    && q.write == l.write && q.readers[0] == l.read && Next(q.write, hist, l.read.pos, l.due)
  }

  const HANDLE := Handle(0, 2, false)

  ghost predicate Tracked(w: World, l: Stage) {
    WorldInv(w) && w.pubs == [1] && |w.subs| == 1 && w.subs[0].h == HANDLE && Shape(w.q, w.hist, w.subs[0].got, l)
  }

  datatype Move = Put(m: message) | Take

  function ActionOf(move: Move): Action {
    match move
    case Put(m) => SendBy(0, m)
    case Take => RecvBy(0)
  }

  /** The writer after a send. */
  function Ahead(write: Cursor): Cursor {
    if write.pos >= 40 then Cursor(write.cycles + 1, 16) else Cursor(write.cycles, write.pos + 16)
  }

  /** A send is of eight bytes and spares the reader; a receive has a message due before the writer. */
  predicate Can(l: Stage, move: Move) {
    match move
    case Put(m) =>
      && |m| == 8 && (l.write.pos >= 40 ==> l.read.pos <= l.write.pos)
      && (Ahead(l.write).pos - 16 <= l.read.pos < Ahead(l.write).pos ==> l.read.cycles == Ahead(l.write).cycles)
    case Take => l.due == l.got < |l.sent| && |l.sent[l.got]| == 8 && l.read.pos < l.write.pos
  }

  function Played(l: Stage, move: Move): Stage {
    match move
    case Put(m) =>
      Stage(l.sent + [m], l.got,
            if l.read.pos == Ahead(l.write).pos then |l.sent| + 1 else l.due, Ahead(l.write), l.read)
    case Take => Stage(l.sent, l.got + 1, l.got + 1, l.write, Cursor(l.read.cycles, l.read.pos + 16))
  }

  lemma SendMoves(q: Queue, m: message)
    requires q.WellFormed() && |q.data| == 64 && |m| == 8 && q.writeUid == 1
             && RoomForTag(64, q.write.pos) && q.valids[0]
    requires q.write.pos >= 40 ==> q.readers[0].pos <= q.write.pos
    requires Ahead(q.write).pos - 16 <= q.readers[0].pos < Ahead(q.write).pos ==>
               q.readers[0].cycles == Ahead(q.write).cycles
    ensures SendOutcomeOf(q, 1, m).Sent? && MustWrap(q, m) == (q.write.pos >= 40)
    ensures var q' := Send(q, 1, m);
            && q'.write == Ahead(q.write) && q'.valids[0]
            && q'.readers == q.readers && q'.uids == q.uids && |q'.data| == 64
            && q'.writeUid == 1
  {
    assert Total(8) == 16;
  }

  lemma SendShape(q: Queue, hist: History, got: seq<nat>, l: Stage, m: message)
    requires Inv(q, hist) && Shape(q, hist, got, l) && Can(l, Put(m))
    ensures SendOutcomeOf(q, 1, m).Sent? && Shape(Send(q, 1, m), SendHistory(q, hist, m), got, Played(l, Put(m)))
  {
    SendMoves(q, m);
    SendReader(q, hist, 1, m, 0, l.due);
  }

  lemma SendTracked(w: World, l: Stage, m: message)
    requires Tracked(w, l) && Can(l, Put(m))
    ensures Allowed(w, SendBy(0, m)) && Tracked(Step(w, SendBy(0, m)), Played(l, Put(m)))
  {
    StepKeeps(w, SendBy(0, m));
    SendShape(w.q, w.hist, w.subs[0].got, l, m);
  }

  lemma PastEight(read: Cursor, m: message)
    requires |m| == 8
    ensures Past(read, m) == Cursor(read.cycles, read.pos + 16)
  {
    assert Total(8) == 16;
  }

  /** A receive that ends in its first pass. */
  lemma RecvOfPass(q: Queue, hist: History, h: Handle, uid: nat)
    requires Inv(q, hist) && HandleOk(h) && uid != 0 && CanPass(q, h) && RecvPass(q, h, uid).outcome != Again
    ensures Recv(q, hist, h, uid) == RecvPass(q, h, uid)
  {}

  lemma FrameTaken(q: Queue, hist: History, uid: nat, k: nat)
    requires Inv(q, hist) && uid != 0 && Stands(q, hist, HANDLE, k) && k < |hist.sent| && |hist.sent[k]| == 8
    requires q.readers[0].pos < q.write.pos
    ensures var to := Cursor(q.readers[0].cycles, q.readers[0].pos + 16);
            Recv(q, hist, HANDLE, uid) == Pass(Moved(q, HANDLE, to), HANDLE, Got(hist.sent[k]))
            && Next(q.write, hist, to.pos, k + 1)
  {
    PassAtFrame(q, hist, HANDLE, uid, k);
    PastEight(q.readers[0], hist.sent[k]);
    RecvOfPass(q, hist, HANDLE, uid);
  }

  /** The reader a frame further, the message counted. */
  lemma ShapeTaken(q: Queue, hist: History, got: seq<nat>, l: Stage)
    requires Shape(q, hist, got, l) && Can(l, Take) && Next(q.write, hist, l.read.pos + 16, l.got + 1)
    ensures Shape(Moved(q, HANDLE, Cursor(l.read.cycles, l.read.pos + 16)), hist, got + [l.got], Played(l, Take))
  {
    assert seq(l.got, i => i) + [l.got] == seq(l.got + 1, i => i);
  }

  lemma ReceivedIs(q: Queue, hist: History, s: Sub, uid: nat, k: nat, m: message)
    requires Inv(q, hist) && HandleOk(s.h) && uid != 0 && !s.h.conflate && DueAt(q, hist, s.h) == k
    requires Recv(q, hist, s.h, uid).outcome == Got(m)
    ensures Received(q, hist, s, uid) == Sub(Recv(q, hist, s.h, uid).h, s.got + [k], s.msgs + [m])
  {}

  lemma RecvShape(q: Queue, hist: History, s: Sub, l: Stage, uid: nat)
    requires Inv(q, hist) && uid != 0 && s.h == HANDLE && Shape(q, hist, s.got, l) && Can(l, Take)
    ensures Received(q, hist, s, uid).h == HANDLE
    ensures Shape(Recv(q, hist, HANDLE, uid).q, hist, Received(q, hist, s, uid).got, Played(l, Take))
  {
    assert Stands(q, hist, HANDLE, l.got);
    FrameTaken(q, hist, uid, l.got);
    ShapeTaken(q, hist, s.got, l);
    DueIs(q, hist, HANDLE, l.got);
    ReceivedIs(q, hist, s, uid, l.got, hist.sent[l.got]);
  }

  lemma RecvTracked(w: World, l: Stage)
    requires Tracked(w, l) && Can(l, Take)
    ensures Allowed(w, RecvBy(0)) && Tracked(Step(w, RecvBy(0)), Played(l, Take))
  {
    StepKeeps(w, RecvBy(0));
    RecvShape(w.q, w.hist, w.subs[0], l, w.uid);
  }

  lemma RunOn(w: World, before: seq<Action>, a: Action)
    requires WorldInv(w) && Allowed(Run(w, before), a)
    ensures Run(w, before + [a]) == Step(Run(w, before), a)
  {
    assert (before + [a])[..|before|] == before;
  }

  lemma MoveTracked(w: World, before: seq<Action>, l: Stage, move: Move)
    requires WorldInv(w) && Tracked(Run(w, before), l) && Can(l, move)
    ensures Tracked(Run(w, before + [ActionOf(move)]), Played(l, move))
  {
    match move {
      case Put(m) => SendTracked(Run(w, before), l, m);
      case Take => RecvTracked(Run(w, before), l);
    }
    RunOn(w, before, ActionOf(move));
  }

  /** A queue that a first publisher has just taken. */
  ghost predicate Published(w: World) {
    && WorldInv(w) && |w.q.data| == 64 && w.pubs == [1] && w.q.writeUid == 1 && w.subs == [] && w.uid == 2
    && w.q.numReaders == 0 && w.hist.sent == [] && w.q.write == Cursor(0, 0)
  }

  lemma PublisherStarts(w: World)
    requires Unused(w) && |w.q.data| == 64
    ensures WorldInv(w) && Published(Step(w, NewPublisher))
  {
    UnusedInv(w);
    StepKeeps(w, NewPublisher);
  }

  lemma TwoSteps(w: World, l: Stage)
    requires WorldInv(w) && WorldInv(Step(w, NewPublisher))
             && Tracked(Step(Step(w, NewPublisher), NewSubscriber(false)), l)
    ensures Tracked(Run(w, CONNECT), l)
  {
    RunOn(w, [], NewPublisher);
    assert [] + [NewPublisher] == [NewPublisher];
    RunOn(w, [NewPublisher], NewSubscriber(false));
    assert [NewPublisher] + [NewSubscriber(false)] == CONNECT;
  }

  lemma Connected(w: World)
    requires Unused(w) && |w.q.data| == 64
    ensures WorldInv(w) && Tracked(Run(w, CONNECT), START)
  {
    PublisherStarts(w);
    SubscriberFollows(w);
  }

  lemma SubscriberFollows(w: World)
    requires WorldInv(w) && Published(Step(w, NewPublisher))
    ensures Tracked(Run(w, CONNECT), START)
  {
    SubscriberTracked(Step(w, NewPublisher));
    TwoSteps(w, START);
  }

  lemma SubscriberTracked(w: World)
    requires Published(w)
    ensures Tracked(Step(w, NewSubscriber(false)), START)
  {
    StepKeeps(w, NewSubscriber(false));
    InitSubscriberKeeps(w.q, w.hist, w.uid);
    WriterIsNext(InitSubscriber(w.q, w.uid).0, w.hist);
  }

  // ----- the run -----

  /** Three messages are sent and received, and four more sent. */
  function MoveAt(ms: seq<message>, i: nat): Move
    requires i < 10 && |ms| == 7
  {
    if i < 3 then Put(ms[i]) else if i < 6 then Take else Put(ms[i - 3])
  }

  /** The first i moves, after both have started. */
  function LapRun(ms: seq<message>, i: nat): seq<Action>
    requires i <= 10 && |ms| == 7
  {
    if i == 0 then CONNECT else LapRun(ms, i - 1) + [ActionOf(MoveAt(ms, i - 1))]
  }

  /** The stage after the first i moves. */
  function StageAt(ms: seq<message>, i: nat): Stage
    requires i <= 10 && |ms| == 7
  {
    if i <= 3 then Stage(ms[..i], 0, 0, Cursor(0, 16 * i), Cursor(0, 0))
    else if i <= 6 then Stage(ms[..3], i - 3, i - 3, Cursor(0, 48), Cursor(0, 16 * (i - 3)))
    else if i <= 8 then Stage(ms[..i - 3], 3, 3, Cursor(1, 16 * (i - 6)), Cursor(0, 48))
    else if i == 9 then Stage(ms[..6], 3, 6, Cursor(1, 48), Cursor(0, 48))
    else Stage(ms, 3, 6, Cursor(2, 16), Cursor(0, 48))
  }

  predicate Eights(ms: seq<message>) {
    |ms| == 7 && forall i :: 0 <= i < 7 ==> |ms[i]| == 8
  }

  lemma StageNext(ms: seq<message>, i: nat)
    requires Eights(ms) && i < 10
    ensures Can(StageAt(ms, i), MoveAt(ms, i))
    ensures Played(StageAt(ms, i), MoveAt(ms, i)) == StageAt(ms, i + 1)
  {
    assert i < 3 ==> ms[..i] + [ms[i]] == ms[..i + 1];
    assert 6 <= i ==> ms[..i - 3] + [ms[i - 3]] == ms[..i - 2];
    assert ms[..7] == ms;
  }

  lemma LapStart(ms: seq<message>)
    requires |ms| == 7
    ensures LapRun(ms, 0) == CONNECT && StageAt(ms, 0) == START
  {}

  lemma LapNext(w: World, ms: seq<message>, i: nat)
    requires WorldInv(w) && Eights(ms) && i < 10 && Tracked(Run(w, LapRun(ms, i)), StageAt(ms, i))
    ensures Tracked(Run(w, LapRun(ms, i + 1)), StageAt(ms, i + 1))
  {
    StageNext(ms, i);
    MoveTracked(w, LapRun(ms, i), StageAt(ms, i), MoveAt(ms, i));
  }

  lemma {:induction false} LapGoesOn(w: World, ms: seq<message>, i: nat)
    requires WorldInv(w) && Eights(ms) && i <= 10 && Tracked(Run(w, LapRun(ms, 0)), StageAt(ms, 0))
    ensures Tracked(Run(w, LapRun(ms, i)), StageAt(ms, i))
  {
    if i != 0 {
      LapGoesOn(w, ms, i - 1);
      LapNext(w, ms, i - 1);
    }
  }

  lemma LapTracked(w: World, ms: seq<message>, i: nat)
    requires Unused(w) && |w.q.data| == 64 && Eights(ms) && i <= 10
    ensures WorldInv(w) && Tracked(Run(w, LapRun(ms, i)), StageAt(ms, i))
  {
    Connected(w);
    LapStart(ms);
    LapGoesOn(w, ms, i);
  }

  // ----- what the run shows -----

  /** The subscriber has received the first three messages, is valid, and stands at 48. */
  ghost predicate Valid48(w: World, sent: log, write: Cursor) {
    && w.hist.sent == sent && |sent| >= 3 && |w.subs| == 1 && w.subs[0].msgs == sent[..3]
    && |w.q.data| == 64 && |w.q.valids| == |w.q.readers| == NUM_READERS
    && w.q.valids[0] && w.q.readers[0] == Cursor(0, 48) && w.q.write == write
  }

  lemma TrackedMeans(w: World, l: Stage)
    requires Tracked(w, l) && l.got == 3 <= |l.sent| && l.read == Cursor(0, 48)
    ensures HandleOk(w.subs[0].h) && Valid48(w, l.sent, l.write)
  {
    assert SubOk(w.q, w.hist, w.subs[0]);
  }

  /** A reader at the writer receives nothing, whatever it has missed. */
  lemma TrackedEmpty(w: World, l: Stage)
    requires Tracked(w, l) && l.read.pos == l.write.pos && HandleOk(w.subs[0].h)
    ensures Recv(w.q, w.hist, w.subs[0].h, w.uid).outcome == Empty
  {
    assert Stands(w.q, w.hist, w.subs[0].h, l.due);
    PassAtWriter(w.q, w.hist, w.subs[0].h, w.uid, l.due);
  }

  /** Beyond the writer, where the last message sent is the first of its cycle, lies the wrap tag. */
  lemma TrackedOnTag(w: World, l: Stage)
    requires Tracked(w, l) && l.write.pos < l.read.pos && |l.sent| == l.due + 1
             && |l.sent[l.due]| == 8 && l.write.pos == 16
    ensures l.read.pos + 8 <= |w.q.data| && TagAt(w.q.data, l.read.pos) == -1
  {
    assert Total(8) == 16;
    if w.hist.base < l.due {
      CurOrder(w.hist, w.hist.base, l.due);
    }
    AtWrapTag(w.q, w.hist, l.read.pos, l.due);
  }

  lemma TrackedGets(w: World, l: Stage)
    requires Tracked(w, l) && l.due < |l.sent| && HandleOk(w.subs[0].h)
    ensures Recv(w.q, w.hist, w.subs[0].h, w.uid).outcome == Got(l.sent[l.due])
  {
    RecvDelivers(w.q, w.hist, w.subs[0].h, w.uid, l.due);
  }

  /** What a subscriber receives next. */
  ghost predicate Receives(w: World, outcome: Outcome) {
    && WorldInv(w) && |w.subs| > 0 && HandleOk(w.subs[0].h)
    && Recv(w.q, w.hist, w.subs[0].h, w.uid).outcome == outcome
  }

  lemma AtStageNine(w: World, ms: seq<message>)
    requires Eights(ms) && Tracked(w, StageAt(ms, 9))
    ensures Valid48(w, ms[..6], Cursor(1, 48)) && Receives(w, Empty)
  {
    TrackedMeans(w, StageAt(ms, 9));
    TrackedEmpty(w, StageAt(ms, 9));
  }

  lemma AtStageTen(w: World, ms: seq<message>)
    requires Eights(ms) && Tracked(w, StageAt(ms, 10))
    ensures Valid48(w, ms, Cursor(2, 16)) && Receives(w, Got(ms[6])) && TagAt(w.q.data, 48) == -1
  {
    TrackedMeans(w, StageAt(ms, 10));
    TrackedOnTag(w, StageAt(ms, 10));
    TrackedGets(w, StageAt(ms, 10));
  }

  /** After the sixth send the reader is valid with three messages unread, and receives nothing. */
  lemma LappedUnnoticed(w: World, ms: seq<message>)
    requires Unused(w) && |w.q.data| == 64 && Eights(ms)
    ensures WorldInv(w)
    ensures Valid48(Run(w, LapRun(ms, 9)), ms[..6], Cursor(1, 48)) && Receives(Run(w, LapRun(ms, 9)), Empty)
  {
    LapTracked(w, ms, 9);
    AtStageNine(Run(w, LapRun(ms, 9)), ms);
  }

  /** After the seventh send, which wraps, it is still valid, on the wrap tag and two cycles behind; what it
      receives then is the seventh message, so that the fourth to the sixth are lost. */
  lemma LappedOntoTheTag(w: World, ms: seq<message>)
    requires Unused(w) && |w.q.data| == 64 && Eights(ms)
    ensures WorldInv(w)
    ensures Valid48(Run(w, LapRun(ms, 10)), ms, Cursor(2, 16)) && Receives(Run(w, LapRun(ms, 10)), Got(ms[6]))
    ensures TagAt(Run(w, LapRun(ms, 10)).q.data, 48) == -1
  {
    LapTracked(w, ms, 10);
    AtStageTen(Run(w, LapRun(ms, 10)), ms);
  }
}
