/** The steps of one side, taken without the other in between, are the whole calls: an undisturbed send is
    MsgqCalls.Send, and an undisturbed pass of a receive is MsgqCalls.RecvPass. */
module MsgqAlone {
  import opened MsgqLayout
  import opened MsgqCalls
  import opened MsgqSteps
  import Invariant = MsgqInterleaved

  // ----- steps of one side -----

  datatype Side = PublisherSide | SubscriberSide(i: nat)

  predicate TakenBy(a: Action, side: Side) {
    match side
    case PublisherSide => a.Begin? || a.StoreByte? || a.Publisher?
    case SubscriberSide(i) => (a.CopyByte? || a.Subscriber?) && a.i == i
  }

  /** One side alone takes s to s'. */
  ghost predicate Reaches(s: State, s': State, side: Side) {
    exists run :: (forall a <- run :: TakenBy(a, side)) && Run(s, run) == s'
  }

  lemma ReachesSelf(s: State, side: Side)
    ensures Reaches(s, s, side)
  {
    assert Run(s, []) == s;
  }

  lemma ReachesOn(s: State, s': State, side: Side, a: Action)
    requires Reaches(s, s', side) && TakenBy(a, side)
    ensures Reaches(s, Step(s', a), side)
  {
    var run :| (forall b <- run :: TakenBy(b, side)) && Run(s, run) == s';
    assert (run + [a])[..|run|] == run;
    assert Run(s, run + [a]) == Step(s', a);
  }

  // ----- the shared memory of a state -----

  /** What the whole calls see of a state; the publisher's uid is 1 and subscriber i's is i + 1. */
  function Shared(s: State): (q: Queue)
    requires |s.readers| <= NUM_READERS && |s.mem.data| < 0xFFFF_FFFF
    ensures q.WellFormed()
  {
    Queue(|s.readers|, s.mem.write, 1,
          seq(NUM_READERS, i requires 0 <= i < NUM_READERS =>
            if i < |s.readers| then s.readers[i].cursor else Cursor(0, 0)),
          seq(NUM_READERS, i requires 0 <= i < NUM_READERS => i < |s.readers| && s.readers[i].valid),
          seq(NUM_READERS, i requires 0 <= i < NUM_READERS => if i < |s.readers| then i + 1 else 0),
          s.mem.data)
  }

  // ----- a send -----

  /** The readers from the i-th on that are at lo..hi in another cycle lose their validity. */
  function Scanned(readers: seq<Reader>, i: nat, cycles: nat, lo: int, hi: int): (r: seq<Reader>)
    ensures |r| == |readers|
  {
    seq(|readers|, j requires 0 <= j < |readers| =>
      if i <= j && lo <= readers[j].cursor.pos < hi && readers[j].cursor.cycles != cycles
      then readers[j].(valid := false) else readers[j])
  }

  /** Scanning the i-th reader and then the others. */
  lemma ScannedNext(readers: seq<Reader>, i: nat, cycles: nat, lo: int, hi: int)
    requires i < |readers|
    ensures var r := readers[i];
            var first := if lo <= r.cursor.pos < hi && r.cursor.cycles != cycles
                         then readers[i := r.(valid := false)] else readers;
            Scanned(first, i + 1, cycles, lo, hi) == Scanned(readers, i, cycles, lo, hi)
  {}

  lemma ScannedNone(readers: seq<Reader>, cycles: nat, lo: int, hi: int)
    ensures Scanned(readers, |readers|, cycles, lo, hi) == readers
  {}

  predicate Small(readers: seq<Reader>) {
    forall r <- readers :: r.cursor.pos < 0x1_0000_0000
  }

  /** One reader looked at, and invalidated if it is in the way. */
  function Looked(readers: seq<Reader>, i: nat, hit: bool): (r: seq<Reader>)
    requires i < |readers|
    ensures |r| == |readers|
  {
    if hit then readers[i := readers[i].(valid := false)] else readers
  }

  lemma WrapTurn(s0: State, s: State, m: message, i: nat)
    requires Reaches(s0, s, PublisherSide) && s.sender == WrapLoad(m, i) && i < |s.readers|
    ensures var readers := Looked(s.readers, i, Beyond(s.mem.write, s.readers[i].cursor));
            Reaches(s0, s.(readers := readers, sender := WrapLoad(m, i + 1)), PublisherSide)
  {
    var s1 := Step(s, Publisher);
    ReachesOn(s0, s, PublisherSide, Publisher);
    if s1.sender.WrapStore? {
      ReachesOn(s0, s1, PublisherSide, Publisher);
    }
  }

  lemma {:induction false} WrapScan(s0: State, s: State, m: message, i: nat)
    requires Reaches(s0, s, PublisherSide) && s.sender == WrapLoad(m, i) && i <= |s.readers| && Small(s.readers)
    ensures var w := s.mem.write;
            Reaches(s0, s.(readers := Scanned(s.readers, i, w.cycles, w.pos + 1, 0x1_0000_0000),
                           sender := WrapLoad(m, |s.readers|)), PublisherSide)
    decreases |s.readers| - i
  {
    var w := s.mem.write;
    if i == |s.readers| {
      ScannedNone(s.readers, w.cycles, w.pos + 1, 0x1_0000_0000);
    } else {
      ScannedNext(s.readers, i, w.cycles, w.pos + 1, 0x1_0000_0000);
      assert s.readers[i] in s.readers;
      WrapTurn(s0, s, m, i);
      WrapScan(s0, s.(readers := Looked(s.readers, i, Beyond(w, s.readers[i].cursor)),
                     sender := WrapLoad(m, i + 1)), m, i + 1);
    }
  }

  lemma AreaTurn(s0: State, s: State, m: message, i: nat)
    requires Reaches(s0, s, PublisherSide) && s.sender == AreaLoad(m, i) && i < |s.readers|
    ensures var readers := Looked(s.readers, i, InArea(s.mem.write, s.readers[i].cursor, m));
            Reaches(s0, s.(readers := readers, sender := AreaLoad(m, i + 1)), PublisherSide)
  {
    var s1 := Step(s, Publisher);
    ReachesOn(s0, s, PublisherSide, Publisher);
    if s1.sender.AreaStore? {
      ReachesOn(s0, s1, PublisherSide, Publisher);
    }
  }

  lemma AreaLooked(readers: seq<Reader>, i: nat, w: Cursor, m: message, end: nat)
    requires i < |readers| && end == Align(w.pos + 8 + |m|)
    ensures Scanned(Looked(readers, i, InArea(w, readers[i].cursor, m)), i + 1, w.cycles, w.pos, end)
            == Scanned(readers, i, w.cycles, w.pos, end)
  {
    ScannedNext(readers, i, w.cycles, w.pos, end);
  }

  lemma {:induction false} AreaScan(s0: State, s: State, m: message, i: nat, end: nat)
    requires Reaches(s0, s, PublisherSide) && s.sender == AreaLoad(m, i) && i <= |s.readers|
    requires end == Align(s.mem.write.pos + 8 + |m|)
    ensures var w := s.mem.write;
            Reaches(s0, s.(readers := Scanned(s.readers, i, w.cycles, w.pos, end),
                           sender := AreaLoad(m, |s.readers|)), PublisherSide)
    decreases |s.readers| - i
  {
    var w := s.mem.write;
    if i == |s.readers| {
      ScannedNone(s.readers, w.cycles, w.pos, end);
    } else {
      AreaLooked(s.readers, i, w, m, end);
      AreaTurn(s0, s, m, i);
      AreaScan(s0, s.(readers := Looked(s.readers, i, InArea(w, s.readers[i].cursor, m)), sender := AreaLoad(m, i + 1)),
               m, i + 1, end);
    }
  }

  function UpTo(k: nat): set<nat> {
    if k == 0 then {} else UpTo(k - 1) + {k - 1}
  }

  lemma {:induction false} UpToHolds(k: nat, x: nat)
    ensures x in UpTo(k) <==> x < k
  {
    if k != 0 {
      UpToHolds(k - 1, x);
    }
  }

  /** The first k bytes of the payload stored in order. */
  function StoredTo(s: State, m: message, k: nat): State
    requires k <= |m| && s.mem.write.pos + 8 + |m| <= |s.mem.data|
  {
    var p := s.mem.write.pos + 8;
    s.(mem := s.mem.(data := s.mem.data[..p] + m[..k] + s.mem.data[p + k..]), sender := Storing(m, UpTo(k)))
  }

  lemma ByteStep(s: State, m: message, k: nat)
    requires s.mem.write.pos + 8 + |m| <= |s.mem.data| && k < |m|
    ensures Step(StoredTo(s, m, k), StoreByte(k)) == StoredTo(s, m, k + 1)
  {
    var p := s.mem.write.pos + 8;
    assert StoredTo(s, m, k).mem.data[p + k := m[k]] == StoredTo(s, m, k + 1).mem.data;
  }

  lemma StoreOne(s0: State, s: State, m: message, k: nat)
    requires s.mem.write.pos + 8 + |m| <= |s.mem.data| && 0 < k <= |m|
    requires Reaches(s0, StoredTo(s, m, k - 1), PublisherSide)
    ensures Reaches(s0, StoredTo(s, m, k), PublisherSide)
  {
    ByteStep(s, m, k - 1);
    ReachesOn(s0, StoredTo(s, m, k - 1), PublisherSide, StoreByte(k - 1));
  }

  lemma {:induction false} StoreBytes(s0: State, s: State, m: message, k: nat)
    requires s.mem.write.pos + 8 + |m| <= |s.mem.data| && k <= |m|
    requires Reaches(s0, StoredTo(s, m, 0), PublisherSide)
    ensures Reaches(s0, StoredTo(s, m, k), PublisherSide)
  {
    if k != 0 {
      StoreBytes(s0, s, m, k - 1);
      StoreOne(s0, s, m, k);
    }
  }

  lemma StoredFrom(s: State, m: message)
    requires s.mem.write.pos + 8 + |m| <= |s.mem.data| && s.sender == Storing(m, {})
    ensures StoredTo(s, m, 0) == s
  {
    assert StoredTo(s, m, 0).mem.data == s.mem.data;
  }

  /** With the tag and all bytes stored the frame is published. */
  lemma PublishAlone(s: State, tagged: State, m: message)
    requires |m| < 0x1_0000_0000 && s.mem.write.pos % 8 == 0 && s.mem.write.pos + Total(|m|) <= |s.mem.data|
    requires tagged == s.(mem := s.mem.(data := PutTag(s.mem.data, s.mem.write.pos, |m|)), sender := Storing(m, {}))
    ensures Step(StoredTo(tagged, m, |m|), Publisher)
            == s.(mem := Memory(PutFrame(s.mem.data, s.mem.write.pos, m),
                                Cursor(s.mem.write.cycles, s.mem.write.pos + Total(|m|)), s.mem.sent + [m]),
                  sender := Idle)
  {
    var full := StoredTo(tagged, m, |m|);
    AlignAfter(s.mem.write.pos, |m| + 8);
    assert full.mem.data == PutFrame(s.mem.data, s.mem.write.pos, m) by {
      assert m[..|m|] == m;
      TwoStores(s.mem.data, s.mem.write.pos, m, full.mem.data);
    }
    forall k: nat | k < |m|
      ensures k in UpTo(|m|)
    {
      UpToHolds(|m|, k);
    }
  }

  /** The invalidations, seen in the shared memory. */
  lemma ScannedShared(s: State, cycles: nat, lo: int, hi: int)
    requires |s.readers| <= NUM_READERS && |s.mem.data| < 0xFFFF_FFFF
    ensures Shared(s.(readers := Scanned(s.readers, 0, cycles, lo, hi)))
            == Shared(s).(valids := Invalidate(Shared(s), cycles, lo, hi))
  {}

  /** Nothing but validity flags differs. */
  ghost predicate OnlyFlags(readers: seq<Reader>, readers': seq<Reader>) {
    |readers| == |readers'| && forall i :: 0 <= i < |readers| ==> readers'[i] == readers[i].(valid := readers'[i].valid)
  }

  /** The publisher has done with s what the whole call does with its shared memory, and is idle again. */
  ghost predicate Done(s: State, s': State, q': Queue, sent: log) {
    && s'.sender.Idle? && |s'.readers| <= NUM_READERS && |s'.mem.data| < 0xFFFF_FFFF
    && Shared(s') == q' && s'.mem.sent == sent && OnlyFlags(s.readers, s'.readers)
  }

  /** The frame stored and published. */
  lemma StoreAlone(s0: State, s: State, m: message) returns (s': State)
    requires Reaches(s0, s, PublisherSide) && s.sender == AreaLoad(m, |s.readers|) && |m| < 0x1_0000_0000
    requires s.mem.write.pos % 8 == 0 && s.mem.write.pos + Total(|m|) <= |s.mem.data|
    ensures Reaches(s0, s', PublisherSide)
    ensures var pos := s.mem.write.pos;
            s' == s.(mem := Memory(PutFrame(s.mem.data, pos, m), Cursor(s.mem.write.cycles, pos + Total(|m|)),
                               s.mem.sent + [m]),
                     sender := Idle)
  {
    ReachesOn(s0, s, PublisherSide, Publisher);
    var tagged := Step(s, Publisher);
    StoredFrom(tagged, m);
    StoreBytes(s0, tagged, m, |m|);
    ReachesOn(s0, StoredTo(tagged, m, |m|), PublisherSide, Publisher);
    PublishAlone(s, tagged, m);
    s' := Step(StoredTo(tagged, m, |m|), Publisher);
  }

  lemma AppendedShared(s: State, s': State, m: message, end: nat)
    requires |s.readers| <= NUM_READERS && |s.mem.data| < 0xFFFF_FFFF && |m| < 0x1_0000_0000
    requires end == s.mem.write.pos + Total(|m|) <= |s.mem.data|
    requires s'.mem.data == PutFrame(s.mem.data, s.mem.write.pos, m) && s'.mem.write == Cursor(s.mem.write.cycles, end)
    requires s'.readers == Scanned(s.readers, 0, s.mem.write.cycles, s.mem.write.pos, end)
    ensures Shared(s') == Append(Shared(s), m)
  {
    ScannedShared(s, s.mem.write.cycles, s.mem.write.pos, end);
  }

  /** The part of a send behind the wrap. */
  lemma AppendAlone(s0: State, s: State, m: message) returns (s': State)
    requires Reaches(s0, s, PublisherSide) && s.sender == AreaLoad(m, 0) && |m| < 0x1_0000_0000
    requires |s.readers| <= NUM_READERS && |s.mem.data| < 0xFFFF_FFFF
    requires s.mem.write.pos % 8 == 0 && s.mem.write.pos + Total(|m|) <= |s.mem.data|
    ensures Reaches(s0, s', PublisherSide) && Done(s, s', Append(Shared(s), m), s.mem.sent + [m])
  {
    var w := s.mem.write;
    var end := Align(w.pos + 8 + |m|);
    AlignAfter(w.pos, |m| + 8);
    AreaScan(s0, s, m, 0, end);
    var s1 := s.(readers := Scanned(s.readers, 0, w.cycles, w.pos, end), sender := AreaLoad(m, |s.readers|));
    s' := StoreAlone(s0, s1, m);
    AppendedShared(s, s', m, end);
    assert OnlyFlags(s.readers, s'.readers);
  }

  /** The wrap. */
  lemma WrapAlone(s: State, m: message) returns (s': State)
    requires s.sender.Idle? && m != [] && Fits(|s.mem.data|, m) && Crowded(|s.mem.data|, s.mem.write.pos, m)
    requires |s.readers| <= NUM_READERS && |s.mem.data| < 0xFFFF_FFFF && Small(s.readers)
    requires s.mem.write.pos + 8 <= |s.mem.data|
    ensures Reaches(s, s', PublisherSide) && s'.sender == AreaLoad(m, 0) && s'.mem.sent == s.mem.sent
    ensures |s'.readers| <= NUM_READERS && |s'.mem.data| == |s.mem.data|
    ensures Shared(s') == Wrap(Shared(s)) && OnlyFlags(s.readers, s'.readers)
  {
    var w := s.mem.write;
    ReachesSelf(s, PublisherSide);
    ReachesOn(s, s, PublisherSide, Begin(m));
    var s1 := Step(s, Begin(m));
    WrapScan(s, s1, m, 0);
    var s2 := s1.(readers := Scanned(s.readers, 0, w.cycles, w.pos + 1, 0x1_0000_0000),
                     sender := WrapLoad(m, |s.readers|));
    ReachesOn(s, s2, PublisherSide, Publisher);
    s' := Step(s2, Publisher);
    ScannedShared(s, w.cycles, w.pos + 1, 0x1_0000_0000);
    assert Shared(s') == Wrap(Shared(s));
  }

  /** A send that no subscriber interrupts is the whole call. */
  lemma SendAlone(s: State, m: message) returns (s': State)
    requires s.sender.Idle? && m != [] && Fits(|s.mem.data|, m) && |m| < 0x1_0000_0000
    requires |s.readers| <= NUM_READERS && |s.mem.data| < 0xFFFF_FFFF && Small(s.readers)
    requires s.mem.write.pos % 8 == 0 && RoomForTag(|s.mem.data|, s.mem.write.pos)
    ensures Reaches(s, s', PublisherSide) && Done(s, s', Send(Shared(s), 1, m), s.mem.sent + [m])
  {
    assert SendOutcomeOf(Shared(s), 1, m).Sent?;
    if Crowded(|s.mem.data|, s.mem.write.pos, m) {
      var s1 := WrapAlone(s, m);
      s' := AppendAlone(s, s1, m);
    } else {
      ReachesSelf(s, PublisherSide);
      ReachesOn(s, s, PublisherSide, Begin(m));
      s' := AppendAlone(s, Step(s, Begin(m)), m);
      assert Shared(Step(s, Begin(m))) == Shared(s);
    }
  }

  // ----- a pass of a receive -----

  /** The state with one subscriber exchanged. */
  function With(s: State, i: nat, r: Reader): State
    requires i < |s.readers|
  {
    s.(readers := s.readers[i := r])
  }

  lemma SubscriberOn(s: State, i: nat, r: Reader)
    requires i < |s.readers| && Reaches(s, With(s, i, r), SubscriberSide(i))
    ensures Reaches(s, With(s, i, ReaderStep(s.mem, r)), SubscriberSide(i))
  {
    ReachesOn(s, With(s, i, r), SubscriberSide(i), Subscriber(i));
    assert s.readers[i := r][i := ReaderStep(s.mem, r)] == s.readers[i := ReaderStep(s.mem, r)];
  }

  /** A step that takes the subscriber from r to r'. */
  lemma SubscriberTo(s: State, i: nat, r: Reader, r': Reader)
    requires i < |s.readers| && Reaches(s, With(s, i, r), SubscriberSide(i)) && ReaderStep(s.mem, r) == r'
    ensures Reaches(s, With(s, i, r'), SubscriberSide(i))
  {
    SubscriberOn(s, i, r);
  }

  /** The first k bytes copied from p on. */
  function Copied(data: seq<octet>, p: nat, k: nat): map<nat, octet>
    requires p + k <= |data|
  {
    if k == 0 then map[] else Copied(data, p, k - 1)[k - 1 := data[p + (k - 1)]]
  }

  lemma {:induction false} CopiedHolds(data: seq<octet>, p: nat, k: nat, x: nat)
    requires p + k <= |data|
    ensures x in Copied(data, p, k) <==> x < k
    ensures x < k ==> Copied(data, p, k)[x] == data[p + x]
  {
    if k != 0 {
      CopiedHolds(data, p, k - 1, x);
    }
  }

  /** A subscriber that has copied the first k bytes. */
  function CopiedTo(mem: Memory, r: Reader, read: Cursor, size: nat, k: nat): Reader
    requires k <= size && read.pos + 8 + size <= |mem.data|
  {
    r.(pc := Copying(read, size, Copied(mem.data, read.pos + 8, k)))
  }

  lemma {:induction false} CopyBytes(s: State, i: nat, r: Reader, read: Cursor, size: nat, k: nat)
    requires i < |s.readers| && k <= size && read.pos + 8 + size <= |s.mem.data|
    requires Reaches(s, With(s, i, CopiedTo(s.mem, r, read, size, 0)), SubscriberSide(i))
    ensures Reaches(s, With(s, i, CopiedTo(s.mem, r, read, size, k)), SubscriberSide(i))
  {
    if k != 0 {
      CopyBytes(s, i, r, read, size, k - 1);
      var before, after := CopiedTo(s.mem, r, read, size, k - 1), CopiedTo(s.mem, r, read, size, k);
      ReachesOn(s, With(s, i, before), SubscriberSide(i), CopyByte(i, k - 1));
      assert s.readers[i := before][i := after] == s.readers[i := after];
    }
  }

  lemma CopyIsWhole(data: seq<octet>, p: nat, size: nat)
    requires p + size <= |data|
    ensures forall k: nat :: k < size ==> k in Copied(data, p, size)
    ensures seq(size, k requires 0 <= k < size => (CopiedHolds(data, p, size, k); Copied(data, p, size)[k]))
            == data[p..p + size]
  {
    forall k: nat | k < size
      ensures k in Copied(data, p, size) && Copied(data, p, size)[k] == data[p + k]
    {
      CopiedHolds(data, p, size, k);
    }
  }

  /** The copy complete, the cursor moves and the message is to be confirmed. */
  lemma CopyDone(mem: Memory, r: Reader, read: Cursor, size: nat)
    requires read.pos % 8 == 0 && read.pos + Total(size) <= |mem.data|
    ensures ReaderStep(mem, CopiedTo(mem, r, read, size, size))
            == r.(cursor := Cursor(read.cycles, read.pos + Total(size)),
                  pc := Confirm(mem.data[read.pos + 8..read.pos + 8 + size]))
  {
    AlignAfter(read.pos, size + 8);
    CopyIsWhole(mem.data, read.pos + 8, size);
    assert ReaderStep(mem, CopiedTo(mem, r, read, size, size)).pc.m == mem.data[read.pos + 8..read.pos + 8 + size];
  }

  /** A valid subscriber up to the check of the size it has loaded. */
  lemma UpToCheck(s: State, i: nat)
    requires i < |s.readers|
    requires var r := s.readers[i];
             r.pc.Start? && r.valid && r.cursor.pos != s.mem.write.pos && r.cursor.pos + 8 <= |s.mem.data|
    ensures var r := s.readers[i];
            Reaches(s, With(s, i, r.(pc := Check(r.cursor, s.mem.write.pos, TagAt(s.mem.data, r.cursor.pos)))),
                    SubscriberSide(i))
  {
    var r := s.readers[i];
    ReachesSelf(s, SubscriberSide(i));
    assert With(s, i, r) == s;
    SubscriberOn(s, i, r);
    SubscriberOn(s, i, r.(pc := LoadRead));
    SubscriberOn(s, i, r.(pc := LoadWrite(r.cursor)));
    SubscriberOn(s, i, r.(pc := LoadSize(r.cursor, s.mem.write.pos)));
  }

  /** A subscriber from the check of a genuine size to the delivery. */
  lemma UpToDelivery(s: State, i: nat, r: Reader, read: Cursor, size: nat)
    requires i < |s.readers| && r.valid && read.pos % 8 == 0 && read.pos + Total(size) <= |s.mem.data|
    requires Reaches(s, With(s, i, r.(pc := Copying(read, size, map[]))), SubscriberSide(i))
    ensures Reaches(s, With(s, i, r.(cursor := Cursor(read.cycles, read.pos + Total(size)), pc := Start,
                                     delivered := r.delivered + [s.mem.data[read.pos + 8..read.pos + 8 + size]])),
                    SubscriberSide(i))
  {
    assert CopiedTo(s.mem, r, read, size, 0) == r.(pc := Copying(read, size, map[]));
    CopyBytes(s, i, r, read, size, size);
    var full := CopiedTo(s.mem, r, read, size, size);
    CopyDone(s.mem, r, read, size);
    var copy := s.mem.data[read.pos + 8..read.pos + 8 + size];
    var moved := r.(cursor := Cursor(read.cycles, read.pos + Total(size)));
    SubscriberTo(s, i, full, moved.(pc := Confirm(copy)));
    SubscriberTo(s, i, moved.(pc := Confirm(copy)), moved.(pc := Start, delivered := r.delivered + [copy]));
  }

  /** Where a pass takes a subscriber with a genuine size. */
  function Ahead(r: Reader, size: nat): Cursor {
    Cursor(r.cursor.cycles, r.cursor.pos + Total(size))
  }

  /** A subscriber that has a whole tag to read, and a message where the tag announces one. */
  predicate Legible(mem: Memory, r: Reader) {
    && r.cursor.pos % 8 == 0 && r.cursor.pos + 8 <= |mem.data|
    && var size := TagAt(mem.data, r.cursor.pos);
       size == -1 || (0 < size < |mem.data| && r.cursor.pos + Total(size) <= |mem.data|)
  }

  predicate PassFine(mem: Memory, r: Reader) {
    r.pc.Start? && (r.valid && r.cursor.pos != mem.write.pos ==> Legible(mem, r))
  }

  /** The subscriber at the end of an undisturbed pass over a message. */
  function FrameEnd(mem: Memory, r: Reader, size: nat): Reader
    requires r.cursor.pos + 8 + size <= |mem.data|
  {
    if r.conflate && Ahead(r, size).pos != mem.write.pos then r.(cursor := Ahead(r, size))
    else r.(cursor := Ahead(r, size), delivered := r.delivered + [mem.data[r.cursor.pos + 8..r.cursor.pos + 8 + size]])
  }

  /** The subscriber at the end of an undisturbed pass. */
  function PassEnd(mem: Memory, r: Reader): Reader
    requires PassFine(mem, r)
  {
    if !r.valid then r.(valid := true, cursor := mem.write)
    else if r.cursor.pos == mem.write.pos then r
    else
      var size := TagAt(mem.data, r.cursor.pos);
      if size == -1 then r.(cursor := Cursor(r.cursor.cycles + 1, 0))
      else FrameEnd(mem, r, size)
  }

  /** Where the check of a genuine size leads. */
  lemma NextPc(mem: Memory, r: Reader, size: nat)
    requires r.valid && 0 < size < |mem.data| && r.cursor.pos % 8 == 0
    ensures ReaderStep(mem, r.(pc := Check(r.cursor, mem.write.pos, size)))
            == r.(pc := if r.conflate && Ahead(r, size).pos != mem.write.pos then StoreSkip(r.cursor, size)
                        else Copying(r.cursor, size, map[]))
  {
    AlignAfter(r.cursor.pos, size + 8);
  }

  /** From the check of a genuine size on. */
  lemma Checked(s: State, i: nat, size: nat)
    requires i < |s.readers| && s.readers[i].valid && 0 < size < |s.mem.data| && s.readers[i].cursor.pos % 8 == 0
    requires var r := s.readers[i];
             Reaches(s, With(s, i, r.(pc := Check(r.cursor, s.mem.write.pos, size))), SubscriberSide(i))
    ensures var r := s.readers[i];
            var next := if r.conflate && Ahead(r, size).pos != s.mem.write.pos then StoreSkip(r.cursor, size)
                        else Copying(r.cursor, size, map[]);
            Reaches(s, With(s, i, r.(pc := next)), SubscriberSide(i))
  {
    var r := s.readers[i];
    SubscriberOn(s, i, r.(pc := Check(r.cursor, s.mem.write.pos, size)));
    NextPc(s.mem, r, size);
  }

  /** From the check of a genuine size to the end of the pass. */
  lemma FrameEnds(s: State, i: nat, size: nat)
    requires i < |s.readers| && s.readers[i].pc.Start? && s.readers[i].valid && 0 < size < |s.mem.data|
    requires s.readers[i].cursor.pos % 8 == 0 && s.readers[i].cursor.pos + Total(size) <= |s.mem.data|
    requires var r := s.readers[i];
             Reaches(s, With(s, i, r.(pc := Check(r.cursor, s.mem.write.pos, size))), SubscriberSide(i))
    ensures Reaches(s, With(s, i, FrameEnd(s.mem, s.readers[i], size)), SubscriberSide(i))
  {
    var r := s.readers[i];
    Checked(s, i, size);
    if r.conflate && Ahead(r, size).pos != s.mem.write.pos {
      assert FrameEnd(s.mem, r, size) == r.(cursor := Ahead(r, size));
      FrameSkipped(s, i, size);
    } else {
      FrameCopied(s, i, size);
    }
  }

  lemma FrameSkipped(s: State, i: nat, size: nat)
    requires i < |s.readers| && s.readers[i].pc.Start? && s.readers[i].cursor.pos % 8 == 0
    requires var r := s.readers[i]; Reaches(s, With(s, i, r.(pc := StoreSkip(r.cursor, size))), SubscriberSide(i))
    ensures var r := s.readers[i]; Reaches(s, With(s, i, r.(cursor := Ahead(r, size))), SubscriberSide(i))
  {
    var r := s.readers[i];
    AlignAfter(r.cursor.pos, size + 8);
    SubscriberTo(s, i, r.(pc := StoreSkip(r.cursor, size)), r.(cursor := Ahead(r, size)));
  }

  lemma FrameCopied(s: State, i: nat, size: nat)
    requires i < |s.readers| && s.readers[i].pc.Start? && s.readers[i].valid
    requires s.readers[i].cursor.pos % 8 == 0 && s.readers[i].cursor.pos + Total(size) <= |s.mem.data|
    requires var r := s.readers[i]; Reaches(s, With(s, i, r.(pc := Copying(r.cursor, size, map[]))), SubscriberSide(i))
    ensures var r := s.readers[i];
            var m := s.mem.data[r.cursor.pos + 8..r.cursor.pos + 8 + size];
            Reaches(s, With(s, i, r.(cursor := Ahead(r, size), delivered := r.delivered + [m])), SubscriberSide(i))
  {
    UpToDelivery(s, i, s.readers[i], s.readers[i].cursor, size);
  }

  lemma ResetReached(s: State, i: nat)
    requires i < |s.readers| && s.readers[i].pc.Start? && !s.readers[i].valid
    ensures Reaches(s, With(s, i, s.readers[i].(valid := true, cursor := s.mem.write)), SubscriberSide(i))
  {
    var r := s.readers[i];
    ReachesSelf(s, SubscriberSide(i));
    assert With(s, i, r) == s;
    SubscriberOn(s, i, r);
    SubscriberOn(s, i, r.(pc := Resetting));
  }

  lemma WrapReached(s: State, i: nat)
    requires i < |s.readers| && s.readers[i].pc.Start? && s.readers[i].valid
    requires var r := s.readers[i];
             Reaches(s, With(s, i, r.(pc := Check(r.cursor, s.mem.write.pos, -1))), SubscriberSide(i))
    ensures var r := s.readers[i];
            Reaches(s, With(s, i, r.(cursor := Cursor(r.cursor.cycles + 1, 0))), SubscriberSide(i))
  {
    var r := s.readers[i];
    SubscriberTo(s, i, r.(pc := Check(r.cursor, s.mem.write.pos, -1)), r.(pc := StoreWrap(r.cursor)));
    SubscriberTo(s, i, r.(pc := StoreWrap(r.cursor)), r.(cursor := Cursor(r.cursor.cycles + 1, 0)));
  }

  lemma EndReached(s: State, i: nat)
    requires i < |s.readers| && PassFine(s.mem, s.readers[i])
    ensures Reaches(s, With(s, i, PassEnd(s.mem, s.readers[i])), SubscriberSide(i))
  {
    var r := s.readers[i];
    if !r.valid {
      ResetReached(s, i);
    } else if r.cursor.pos == s.mem.write.pos {
      ReachesSelf(s, SubscriberSide(i));
      assert With(s, i, r) == s;
    } else {
      UpToCheck(s, i);
      if TagAt(s.mem.data, r.cursor.pos) == -1 {
        WrapReached(s, i);
      } else {
        FrameEnds(s, i, TagAt(s.mem.data, r.cursor.pos));
      }
    }
  }

  /** What a subscriber has received after a pass. */
  function Received(delivered: seq<message>, outcome: Outcome): seq<message> {
    if outcome.Got? then delivered + [outcome.m] else delivered
  }

  /** The handle of subscriber i. */
  function HandleOf(s: State, i: nat): Handle
    requires i < |s.readers|
  {
    Handle(i, i + 1, s.readers[i].conflate)
  }

  /** Shared memory after one subscriber's part of it has changed. */
  lemma SharedWith(s: State, i: nat, r: Reader)
    requires i < |s.readers| <= NUM_READERS && |s.mem.data| < 0xFFFF_FFFF
    ensures Shared(With(s, i, r))
            == Shared(s).(readers := Shared(s).readers[i := r.cursor], valids := Shared(s).valids[i := r.valid])
    ensures r.valid == s.readers[i].valid ==> Shared(s).valids[i := r.valid] == Shared(s).valids
    ensures r.cursor == s.readers[i].cursor ==> Shared(s).readers[i := r.cursor] == Shared(s).readers
  {}

  /** The end of a pass, in shared memory and in what has been received. */
  lemma EndMeans(s: State, i: nat, uid: nat)
    requires i < |s.readers| <= NUM_READERS && |s.mem.data| < 0xFFFF_FFFF && PassFine(s.mem, s.readers[i])
    ensures CanPass(Shared(s), HandleOf(s, i))
    ensures var p, r' := RecvPass(Shared(s), HandleOf(s, i), uid), PassEnd(s.mem, s.readers[i]);
            Shared(With(s, i, r')) == p.q && r'.delivered == Received(s.readers[i].delivered, p.outcome)
  {
    SharedWith(s, i, PassEnd(s.mem, s.readers[i]));
  }

  /** A pass that the publisher does not interrupt is the pass of the whole call. */
  lemma PassAlone(s: State, i: nat, uid: nat) returns (s': State)
    requires i < |s.readers| <= NUM_READERS && |s.mem.data| < 0xFFFF_FFFF && PassFine(s.mem, s.readers[i])
    ensures CanPass(Shared(s), HandleOf(s, i))
    ensures Reaches(s, s', SubscriberSide(i)) && s' == With(s, i, PassEnd(s.mem, s.readers[i]))
    ensures var p := RecvPass(Shared(s), HandleOf(s, i), uid);
            Shared(s') == p.q && s'.readers[i].delivered == Received(s.readers[i].delivered, p.outcome)
  {
    EndReached(s, i);
    EndMeans(s, i, uid);
    s' := With(s, i, PassEnd(s.mem, s.readers[i]));
  }

  // ----- from anywhere a run may have come -----

  lemma InvAllows(s: State, g: Invariant.Shadow, i: nat)
    requires Invariant.Inv(s, g) && i < |s.readers| && s.readers[i].pc.Start?
    ensures PassFine(s.mem, s.readers[i])
  {
    var r := s.readers[i];
    assert Invariant.ReaderOk(s.mem, g.chart, r, g.trails[i]);
    if r.valid && r.cursor.pos != s.mem.write.pos {
      Invariant.TagOfSlot(s.mem, g.chart, r.cursor.pos);
      assert Invariant.SlotOk(s.mem, g.chart, r.cursor.pos);
    }
  }

  lemma InvSmall(s: State, g: Invariant.Shadow)
    requires Invariant.Inv(s, g)
    ensures Small(s.readers)
  {
    forall r | r in s.readers
      ensures r.cursor.pos < 0x1_0000_0000
    {
      var i :| 0 <= i < |s.readers| && s.readers[i] == r;
      assert Invariant.ReaderOk(s.mem, g.chart, r, g.trails[i]);
    }
  }

  /** Whatever has happened before, a message handed over now and stored without interruption leaves shared
      memory as msgq_msg_send does in one step. */
  lemma UndisturbedSend(s0: State, run: seq<Action>, m: message) returns (s': State)
    requires Fresh(s0) && |s0.readers| <= NUM_READERS && Run(s0, run).sender.Idle?
    requires m != [] && Fits(|Run(s0, run).mem.data|, m)
    ensures var s := Run(s0, run);
            && |s.mem.data| < 0xFFFF_FFFF && RoomForTag(|s.mem.data|, s.mem.write.pos)
            && Reaches(s, s', PublisherSide) && Done(s, s', Send(Shared(s), 1, m), s.mem.sent + [m])
  {
    var s := Run(s0, run);
    var g := Invariant.RunKeeps(s0, run);
    InvSmall(s, g);
    s' := SendAlone(s, m);
  }

  /** And a subscriber that starts over now and is not interrupted does what a pass of msgq_msg_recv does. */
  lemma UndisturbedPass(s0: State, run: seq<Action>, i: nat, uid: nat) returns (s': State)
    requires Fresh(s0) && i < |s0.readers| <= NUM_READERS && Run(s0, run).readers[i].pc.Start?
    ensures var s := Run(s0, run);
            && |s.mem.data| < 0xFFFF_FFFF && CanPass(Shared(s), HandleOf(s, i))
            && Reaches(s, s', SubscriberSide(i))
            && var p := RecvPass(Shared(s), HandleOf(s, i), uid);
               && |s'.readers| == |s.readers| && s'.mem == s.mem && Shared(s') == p.q && p.outcome != Crash
               && s'.readers[i].pc.Start? && s'.readers[i].delivered == Received(s.readers[i].delivered, p.outcome)
  {
    var s := Run(s0, run);
    var g := Invariant.RunKeeps(s0, run);
    InvAllows(s, g, i);
    s' := PassAlone(s, i, uid);
  }
}
