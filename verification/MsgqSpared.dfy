/** When the interleaved receive loses nothing: a subscriber without conflation that the publisher never invalidates
    and never laps receives every message, and has received them all when it stands at the writer. */
module MsgqSpared {
  import opened MsgqLayout
  import opened MsgqCalls
  import opened MsgqSteps
  import opened MsgqInterleaved

  // ----- the ring, without gaps -----

  predicate IsNext(c: Chart, p: nat, n: int) {
    p in c.slots && NextOf(c, p) == n
  }

  /** Behind a message of the writer's cycle is the message published after it, up to the writer; behind one of the
      last cycle likewise, up to tail, where its wrap tag is. */
  ghost predicate FollowsOn(mem: Memory, c: Chart, tail: nat, p: nat)
    requires p in c.slots
  {
    match c.slots[p]
    case Tail => true
    case Frame(i) =>
      && i < |mem.sent|
      && var q := p + Total(|mem.sent[i]|);
      && (p < mem.write.pos && q == mem.write.pos ==> i + 1 == |mem.sent|)
      && (p < mem.write.pos && q != mem.write.pos ==> IsNext(c, q, i + 1))
      && (mem.write.pos <= p ==> p != tail)
      && (mem.write.pos <= p < tail ==> q <= tail && IsNext(c, q, i + 1))
  }

  ghost predicate Starts(mem: Memory, c: Chart) {
    if mem.write.pos == 0 then c.base == |mem.sent| else IsNext(c, 0, c.base)
  }

  ghost predicate Gapless(mem: Memory, c: Chart, tail: nat) {
    && Starts(mem, c)
    && forall p {:trigger FollowsOn(mem, c, tail, p)} :: p in c.slots ==> FollowsOn(mem, c, tail, p)
  }

  // ----- a subscriber that has lost nothing -----

  /** The reader is in the writer's cycle and message n is next. */
  predicate InCycle(mem: Memory, c: Chart, read: Cursor, n: int) {
    && read.cycles == mem.write.cycles && read.pos <= mem.write.pos
    && if read.pos == mem.write.pos then n == |mem.sent| else IsNext(c, read.pos, n)
  }

  /** The reader is in the cycle before, ahead of the writer and not beyond the wrap tag, and message n is next. */
  predicate InLast(mem: Memory, c: Chart, tail: nat, read: Cursor, n: int) {
    && read.cycles + 1 == mem.write.cycles && mem.write.pos <= read.pos <= tail
    && IsNext(c, read.pos, n)
  }

  /** What a subscriber receives without a gap: from the from-th message it receives on, the j-th is the one
      published at place j + shift. */
  datatype Stretch = Stretch(from: nat, shift: int)

  predicate Unbroken(s: seq<nat>, e: Stretch) {
    forall j :: e.from <= j < |s| ==> s[j] == j + e.shift
  }

  /** All messages of the stretch so far are received, and the size loaded is that of the next. */
  predicate WholeReader(mem: Memory, c: Chart, tail: nat, e: Stretch, r: Reader, t: Trail) {
    var marks := Marks(r.pc, t);
    && r.valid && !r.conflate && !r.pc.Resetting? && !r.pc.StoreSkip?
    && e.from <= |t.seen| && Unbroken(marks, e)
    && (InCycle(mem, c, r.cursor, |marks| + e.shift) || InLast(mem, c, tail, r.cursor, |marks| + e.shift))
    && (r.pc.Copying? || (r.pc.Check? && r.pc.tag != -1) ==>
          r.cursor.pos in c.slots && c.slots[r.cursor.pos] == Frame(t.reading)
          && t.reading == |t.seen| + e.shift)
  }

  /** Until the publisher's loop has come by, a reader of the cycle before may be in the publisher's way. */
  predicate Timed(sender: Sender, write: Cursor, read: Cursor, i: nat) {
    read.cycles != write.cycles ==>
      match sender
      case WrapLoad(_, j) => j <= i && write.pos != read.pos
      case WrapStore(_, j) => j <= i && write.pos != read.pos
      case AreaLoad(_, j) => j <= i || write.pos != read.pos
      case AreaStore(_, j) => j <= i || write.pos != read.pos
      case _ => write.pos != read.pos
  }

  ghost predicate Intact(s: State, g: Shadow, tail: nat) {
    MsgqInterleaved.Inv(s, g) && Gapless(s.mem, g.chart, tail)
  }

  predicate Whole(s: State, g: Shadow, tail: nat, e: Stretch, i: nat)
    requires i < |s.readers| == |g.trails|
  {
    && WholeReader(s.mem, g.chart, tail, e, s.readers[i], g.trails[i])
    && Timed(s.sender, s.mem.write, s.readers[i].cursor, i)
  }

  // ----- its own steps -----

  lemma LoadSizeWhole(mem: Memory, c: Chart, tail: nat, e: Stretch, r: Reader, t: Trail)
    requires RingOk(mem, c) && ReaderOk(mem, c, r, t) && WholeReader(mem, c, tail, e, r, t) && r.pc.LoadSize?
    ensures WholeReader(mem, c, tail, e, ReaderStep(mem, r), NextTrail(c, r, t))
  {
    TagOfSlot(mem, c, r.cursor.pos);
  }

  /** From the wrap tag the reader goes on in the writer's cycle. */
  lemma StoreWrapWhole(mem: Memory, c: Chart, tail: nat, e: Stretch, r: Reader, t: Trail)
    requires RingOk(mem, c) && Gapless(mem, c, tail)
    requires ReaderOk(mem, c, r, t) && WholeReader(mem, c, tail, e, r, t) && r.pc.StoreWrap?
    ensures WholeReader(mem, c, tail, e, ReaderStep(mem, r), t)
    ensures ReaderStep(mem, r).cursor.cycles == mem.write.cycles
  {
    StartOfRing(mem, c, r.cursor.pos);
  }

  /** Behind the message it has copied the reader is whole again. */
  lemma MovesOn(mem: Memory, c: Chart, tail: nat, e: Stretch, r: Reader, t: Trail, q: nat)
    requires WholeReader(mem, c, tail, e, r, t) && r.pc.Copying? && t.reading < |mem.sent|
    requires FollowsOn(mem, c, tail, r.cursor.pos) && q == r.cursor.pos + Total(|mem.sent[t.reading]|)
    requires r.cursor.pos < q && (r.cursor.pos < mem.write.pos ==> q <= mem.write.pos)
    requires r.cursor.pos == mem.write.pos ==> r.cursor.cycles < mem.write.cycles
    ensures WholeReader(mem, c, tail, e,
                        r.(cursor := Cursor(r.cursor.cycles, q), pc := Confirm(mem.sent[t.reading])), t)
  {}

  lemma CopiedLands(mem: Memory, c: Chart, tail: nat, e: Stretch, r: Reader, t: Trail)
    requires RingOk(mem, c) && Gapless(mem, c, tail)
    requires ReaderOk(mem, c, r, t) && WholeReader(mem, c, tail, e, r, t) && r.pc.Copying?
    ensures t.reading < |mem.sent|
    ensures var to := After(r.pc.read, r.pc.size);
            && to.cycles == r.cursor.cycles && r.cursor.pos < to.pos
            && WholeReader(mem, c, tail, e, r.(cursor := to, pc := Confirm(mem.sent[t.reading])), t)
  {
    var p := r.cursor.pos;
    GripLands(mem, c, p, r.pc.size, t);
    AlignAfter(p, r.pc.size + 8);
    assert FollowsOn(mem, c, tail, p);
    MovesOn(mem, c, tail, e, r, t, p + Total(r.pc.size));
  }

  lemma CopiedWhole(mem: Memory, c: Chart, tail: nat, e: Stretch, r: Reader, t: Trail)
    requires RingOk(mem, c) && Gapless(mem, c, tail)
    requires ReaderOk(mem, c, r, t) && WholeReader(mem, c, tail, e, r, t) && r.pc.Copying?
    requires forall k: nat :: k < r.pc.size ==> k in r.pc.copied
    ensures WholeReader(mem, c, tail, e, ReaderStep(mem, r), t)
    ensures var to := ReaderStep(mem, r).cursor; to.cycles == r.cursor.cycles && r.cursor.pos < to.pos
  {
    CopyComplete(mem, c, r, t);
    CopiedLands(mem, c, tail, e, r, t);
  }

  lemma OtherStepsWhole(mem: Memory, c: Chart, tail: nat, e: Stretch, r: Reader, t: Trail)
    requires ReaderOk(mem, c, r, t) && WholeReader(mem, c, tail, e, r, t)
    requires !r.pc.LoadSize? && !r.pc.StoreWrap?
    requires r.pc.Copying? ==> exists k: nat :: k < r.pc.size && k !in r.pc.copied
    ensures WholeReader(mem, c, tail, e, ReaderStep(mem, r), NextTrail(c, r, t))
    ensures ReaderStep(mem, r).cursor == r.cursor
  {}

  lemma ReaderStepWhole(mem: Memory, c: Chart, tail: nat, e: Stretch, r: Reader, t: Trail, sender: Sender, i: nat)
    requires RingOk(mem, c) && Gapless(mem, c, tail)
    requires ReaderOk(mem, c, r, t) && WholeReader(mem, c, tail, e, r, t) && Timed(sender, mem.write, r.cursor, i)
    ensures WholeReader(mem, c, tail, e, ReaderStep(mem, r), NextTrail(c, r, t))
    ensures Timed(sender, mem.write, ReaderStep(mem, r).cursor, i)
  {
    if r.pc.LoadSize? {
      LoadSizeWhole(mem, c, tail, e, r, t);
    } else if r.pc.StoreWrap? {
      StoreWrapWhole(mem, c, tail, e, r, t);
    } else if r.pc.Copying? && forall k: nat :: k < r.pc.size ==> k in r.pc.copied {
      CopiedWhole(mem, c, tail, e, r, t);
    } else {
      OtherStepsWhole(mem, c, tail, e, r, t);
    }
  }

  // ----- the publisher's steps -----

  lemma TailGapless(mem: Memory, c: Chart, tail: nat)
    requires Gapless(mem, c, tail) && mem.write.pos + 8 <= |mem.data|
    ensures Gapless(TailMemory(mem), TailChart(mem, c), tail)
  {
    forall p | p in TailChart(mem, c).slots
      ensures FollowsOn(TailMemory(mem), TailChart(mem, c), tail, p)
    {
      if p != mem.write.pos {
        assert FollowsOn(mem, c, tail, p);
      }
    }
  }

  /** Going to the start makes the cycle just written the last one. */
  lemma TurnGapless(mem: Memory, c: Chart, tail: nat)
    requires RingOk(mem, c) && Gapless(mem, c, tail) && mem.write.pos in c.slots && c.slots[mem.write.pos] == Tail
    ensures Gapless(TurnMemory(mem), TurnChart(mem, c), mem.write.pos)
  {
    forall p | p in c.slots
      ensures FollowsOn(TurnMemory(mem), TurnChart(mem, c), mem.write.pos, p)
    {
      assert SlotOk(mem, c, p) && FollowsOn(mem, c, tail, p);
    }
  }

  lemma AreaGapless(mem: Memory, mem': Memory, c: Chart, tail: nat, m: message)
    requires RingOk(mem, c) && Gapless(mem, c, tail) && OnlyArea(mem, mem', m)
    ensures Gapless(mem', AreaChart(mem, c, m), tail)
  {
    forall p | p in AreaChart(mem, c, m).slots
      ensures FollowsOn(mem', AreaChart(mem, c, m), tail, p)
    {
      assert SlotOk(mem, c, p) && FollowsOn(mem, c, tail, p);
    }
  }

  lemma PublishGapless(mem: Memory, c: Chart, tail: nat, m: message, stored: set<nat>)
    requires RingOk(mem, c) && Gapless(mem, c, tail) && Stored(mem, c, m, stored)
    ensures Gapless(PublishMemory(mem, m), PublishChart(mem, c), tail)
  {
    forall p | p in PublishChart(mem, c).slots
      ensures FollowsOn(PublishMemory(mem, m), PublishChart(mem, c), tail, p)
    {
      if p != mem.write.pos {
        assert SlotOk(mem, c, p) && FollowsOn(mem, c, tail, p);
      }
    }
  }

  // ----- what the publisher's steps leave of it -----

  lemma TailWhole(mem: Memory, c: Chart, tail: nat, e: Stretch, r: Reader, t: Trail)
    requires RingOk(mem, c) && ReaderOk(mem, c, r, t) && WholeReader(mem, c, tail, e, r, t)
    requires mem.write.pos + 8 <= |mem.data| && Timed(Idle, mem.write, r.cursor, 0)
    ensures WholeReader(TailMemory(mem), TailChart(mem, c), tail, e, r, t)
  {}

  lemma TurnWhole(mem: Memory, c: Chart, tail: nat, e: Stretch, r: Reader, t: Trail)
    requires RingOk(mem, c) && ReaderOk(mem, c, r, t) && WholeReader(mem, c, tail, e, r, t)
    requires mem.write.pos in c.slots && c.slots[mem.write.pos] == Tail && r.cursor.cycles == mem.write.cycles
    ensures WholeReader(TurnMemory(mem), TurnChart(mem, c), mem.write.pos, e, r, t)
  {
    if r.cursor.pos != mem.write.pos {
      assert SlotOk(mem, c, r.cursor.pos);
    }
  }

  lemma AreaWhole(mem: Memory, mem': Memory, c: Chart, tail: nat, m: message, e: Stretch, r: Reader, t: Trail)
    requires OnlyArea(mem, mem', m) && Clear(mem.write, m, r)
    requires ReaderOk(mem, c, r, t) && WholeReader(mem, c, tail, e, r, t) && Timed(Idle, mem.write, r.cursor, 0)
    ensures WholeReader(mem', AreaChart(mem, c, m), tail, e, r, t)
  {}

  /** A message has been published up to where the reader is. */
  predicate Laps(s: State, s': State, i: nat)
    requires i < |s'.readers|
  {
    s'.mem.sent != s.mem.sent && s'.readers[i].cursor.pos == s'.mem.write.pos
  }

  lemma PublishWhole(mem: Memory, c: Chart, tail: nat, m: message, stored: set<nat>, e: Stretch, r: Reader, t: Trail)
    requires Stored(mem, c, m, stored) && Clear(mem.write, m, r) && r.cursor.pos != mem.write.pos + Total(|m|)
    requires ReaderOk(mem, c, r, t) && WholeReader(mem, c, tail, e, r, t) && Timed(Idle, mem.write, r.cursor, 0)
    ensures WholeReader(PublishMemory(mem, m), PublishChart(mem, c), tail, e, r, t)
    ensures Timed(Idle, PublishMemory(mem, m).write, r.cursor, 0)
  {}

  // ----- every step -----

  /** What a step does to tail. */
  function NextTail(s: State, tail: nat, a: Action): nat {
    if a == Publisher && s.sender.WrapLoad? && s.sender.i >= |s.readers| then s.mem.write.pos else tail
  }

  /** What publishing does, in one place. */
  lemma PublishedState(s: State)
    requires s.sender.Storing? && forall k: nat :: k < |s.sender.m| ==> k in s.sender.stored
    requires s.mem.write.pos % 8 == 0
    ensures Step(s, Publisher) == State(PublishMemory(s.mem, s.sender.m), Idle, s.readers)
  {
    AlignAfter(s.mem.write.pos, |s.sender.m| + 8);
  }

  lemma PublisherGapless(s: State, g: Shadow, tail: nat)
    requires Intact(s, g, tail)
    ensures Gapless(PublisherStep(s).mem, PublisherChart(s, g.chart), NextTail(s, tail, Publisher))
  {
    match s.sender
    case WrapLoad(_, i) =>
      if i >= |s.readers| {
        TurnGapless(s.mem, g.chart, tail);
      }
    case AreaLoad(m, i) =>
      if i >= |s.readers| {
        TagStored(s.mem, g.chart, m);
        AreaGapless(s.mem, PublisherStep(s).mem, g.chart, tail, m);
      }
    case Storing(m, stored) =>
      if forall k: nat :: k < |m| ==> k in stored {
        PublishedState(s);
        PublishGapless(s.mem, g.chart, tail, m, stored);
      }
    case _ =>
  }

  /** Every step leaves the ring without gaps. */
  lemma StepIntact(s: State, g: Shadow, tail: nat, a: Action)
    requires Intact(s, g, tail)
    ensures Intact(Step(s, a), NextShadow(s, g, a), NextTail(s, tail, a))
  {
    var g' := StepKeeps(s, g, a);
    match a
    case Begin(m) =>
      if s.sender.Idle? && m != [] && Fits(|s.mem.data|, m) && Crowded(|s.mem.data|, s.mem.write.pos, m) {
        TailGapless(s.mem, g.chart, tail);
      }
    case StoreByte(k) =>
      if s.sender.Storing? && k < |s.sender.m| {
        ByteStored(s.mem, g.chart, s.sender.m, s.sender.stored, k);
        AreaGapless(s.mem, Step(s, a).mem, g.chart, tail, s.sender.m);
      }
    case Publisher => PublisherGapless(s, g, tail);
    case _ =>
  }

  /** The reader is still valid, and has not been lapped. */
  predicate Spares(s: State, s': State, i: nat)
    requires i < |s'.readers|
  {
    s'.readers[i].valid && !Laps(s, s', i)
  }

  lemma SubscriberWhole(s: State, g: Shadow, tail: nat, e: Stretch, i: nat, a: Action)
    requires Intact(s, g, tail) && i < |s.readers| && Whole(s, g, tail, e, i) && (a.Subscriber? || a.CopyByte?)
    ensures Whole(Step(s, a), NextShadow(s, g, a), tail, e, i)
  {
    if a == Subscriber(i) {
      ReaderStepWhole(s.mem, g.chart, tail, e, s.readers[i], g.trails[i], s.sender, i);
    }
  }

  lemma BeginWhole(s: State, g: Shadow, tail: nat, e: Stretch, i: nat, m: message)
    requires Intact(s, g, tail) && i < |s.readers| && Whole(s, g, tail, e, i)
    ensures Whole(Step(s, Begin(m)), NextShadow(s, g, Begin(m)), tail, e, i)
  {
    if s.sender.Idle? && m != [] && Fits(|s.mem.data|, m) && Crowded(|s.mem.data|, s.mem.write.pos, m) {
      TailWhole(s.mem, g.chart, tail, e, s.readers[i], g.trails[i]);
    }
  }

  lemma StoreByteWhole(s: State, g: Shadow, tail: nat, e: Stretch, i: nat, k: nat)
    requires Intact(s, g, tail) && i < |s.readers| && Whole(s, g, tail, e, i)
    ensures Whole(Step(s, StoreByte(k)), NextShadow(s, g, StoreByte(k)), tail, e, i)
  {
    if s.sender.Storing? && k < |s.sender.m| {
      ByteStored(s.mem, g.chart, s.sender.m, s.sender.stored, k);
      AreaWhole(s.mem, Step(s, StoreByte(k)).mem, g.chart, tail, s.sender.m, e, s.readers[i], g.trails[i]);
    }
  }

  lemma PublishStepWhole(s: State, g: Shadow, tail: nat, e: Stretch, i: nat)
    requires Intact(s, g, tail) && i < |s.readers| && Whole(s, g, tail, e, i) && s.sender.Storing?
    requires !Laps(s, Step(s, Publisher), i)
    ensures Whole(Step(s, Publisher), NextShadow(s, g, Publisher), tail, e, i)
  {
    if forall k: nat :: k < |s.sender.m| ==> k in s.sender.stored {
      PublishedState(s);
      PublishWhole(s.mem, g.chart, tail, s.sender.m, s.sender.stored, e, s.readers[i], g.trails[i]);
    }
  }

  lemma AreaTagWhole(s: State, g: Shadow, tail: nat, e: Stretch, i: nat)
    requires Intact(s, g, tail) && i < |s.readers| && Whole(s, g, tail, e, i)
    requires s.sender.AreaLoad? && s.sender.i >= |s.readers|
    ensures Whole(Step(s, Publisher), NextShadow(s, g, Publisher), tail, e, i)
  {
    TagStored(s.mem, g.chart, s.sender.m);
    AreaWhole(s.mem, Step(s, Publisher).mem, g.chart, tail, s.sender.m, e, s.readers[i], g.trails[i]);
  }

  /** While the publisher looks at the readers, and when it goes to the start of the ring. */
  lemma ScanWhole(s: State, g: Shadow, tail: nat, e: Stretch, i: nat)
    requires Intact(s, g, tail) && i < |s.readers| && Whole(s, g, tail, e, i) && Spares(s, Step(s, Publisher), i)
    requires !s.sender.Storing? && (s.sender.AreaLoad? ==> s.sender.i < |s.readers|)
    ensures Whole(Step(s, Publisher), NextShadow(s, g, Publisher), NextTail(s, tail, Publisher), e, i)
  {
    if s.sender.WrapLoad? && s.sender.i >= |s.readers| {
      TurnWhole(s.mem, g.chart, tail, e, s.readers[i], g.trails[i]);
    }
  }

  lemma PublisherWhole(s: State, g: Shadow, tail: nat, e: Stretch, i: nat)
    requires Intact(s, g, tail) && i < |s.readers| && Whole(s, g, tail, e, i) && Spares(s, Step(s, Publisher), i)
    ensures Whole(Step(s, Publisher), NextShadow(s, g, Publisher), NextTail(s, tail, Publisher), e, i)
  {
    if s.sender.Storing? {
      PublishStepWhole(s, g, tail, e, i);
    } else if s.sender.AreaLoad? && s.sender.i >= |s.readers| {
      AreaTagWhole(s, g, tail, e, i);
    } else {
      ScanWhole(s, g, tail, e, i);
    }
  }

  /** Every step that spares the subscriber leaves it whole. */
  lemma StepWhole(s: State, g: Shadow, tail: nat, e: Stretch, i: nat, a: Action)
    requires Intact(s, g, tail) && i < |s.readers| && Whole(s, g, tail, e, i) && Spares(s, Step(s, a), i)
    ensures Whole(Step(s, a), NextShadow(s, g, a), NextTail(s, tail, a), e, i)
  {
    match a
    case Begin(m) => BeginWhole(s, g, tail, e, i, m);
    case StoreByte(k) => StoreByteWhole(s, g, tail, e, i, k);
    case CopyByte(_, _) => SubscriberWhole(s, g, tail, e, i, a);
    case Subscriber(_) => SubscriberWhole(s, g, tail, e, i, a);
    case Publisher => PublisherWhole(s, g, tail, e, i);
  }

  // ----- every run -----

  lemma {:induction false} RunIntact(s: State, run: seq<Action>) returns (g: Shadow, tail: nat)
    requires Fresh(s)
    ensures Intact(Run(s, run), g, tail)
  {
    if run == [] {
      g, tail := Shadow(Chart(map[], 0), seq(|s.readers|, _ => Trail(0, []))), 0;
    } else {
      var before, a := run[..|run| - 1], run[|run| - 1];
      g, tail := RunIntact(s, before);
      StepIntact(Run(s, before), g, tail, a);
      g, tail := NextShadow(Run(s, before), g, a), NextTail(Run(s, before), tail, a);
    }
  }

  /** A subscriber without conflation at the writer, as a new one or one that has just reset is. */
  predicate Joins(s: State, i: nat)
    requires i < |s.readers|
  {
    var r := s.readers[i];
    r.valid && !r.conflate && r.pc.Start? && r.cursor == s.mem.write
  }

  /** No step of the run invalidates the subscriber or laps it. */
  predicate Spared(s: State, run: seq<Action>, i: nat)
    requires i < |s.readers|
  {
    run == [] || (Spared(s, run[..|run| - 1], i) && Spares(Run(s, run[..|run| - 1]), Run(s, run), i))
  }

  /** What is received from now on is what is published from now on. */
  function FromNow(s: State, i: nat): Stretch
    requires i < |s.readers|
  {
    Stretch(|s.readers[i].delivered|, |s.mem.sent| - |s.readers[i].delivered|)
  }

  lemma JoinsWhole(s: State, g: Shadow, tail: nat, i: nat)
    requires Intact(s, g, tail) && i < |s.readers| && Joins(s, i)
    ensures Whole(s, g, tail, FromNow(s, i), i)
  {
    assert ReaderOk(s.mem, g.chart, s.readers[i], g.trails[i]);
  }

  lemma {:induction false} RunWhole(s: State, run: seq<Action>, i: nat, g0: Shadow, tail0: nat)
    returns (g: Shadow, tail: nat)
    requires Intact(s, g0, tail0) && i < |s.readers| && Joins(s, i) && Spared(s, run, i)
    ensures Intact(Run(s, run), g, tail) && Whole(Run(s, run), g, tail, FromNow(s, i), i)
  {
    if run == [] {
      g, tail := g0, tail0;
      JoinsWhole(s, g, tail, i);
    } else {
      var before, a := run[..|run| - 1], run[|run| - 1];
      g, tail := RunWhole(s, before, i, g0, tail0);
      StepIntact(Run(s, before), g, tail, a);
      StepWhole(Run(s, before), g, tail, FromNow(s, i), i, a);
      g, tail := NextShadow(Run(s, before), g, a), NextTail(Run(s, before), tail, a);
    }
  }

  lemma {:induction false} LogsGrow(s: State, run: seq<Action>, i: nat)
    requires i < |s.readers|
    ensures s.readers[i].delivered <= Run(s, run).readers[i].delivered && s.mem.sent <= Run(s, run).mem.sent
  {
    if run != [] {
      LogsGrow(s, run[..|run| - 1], i);
      StepGrows(Run(s, run[..|run| - 1]), run[|run| - 1], i);
    }
  }

  lemma StepGrows(s: State, a: Action, i: nat)
    requires i < |s.readers|
    ensures s.readers[i].delivered <= Step(s, a).readers[i].delivered && s.mem.sent <= Step(s, a).mem.sent
  {}

  /** received is before, followed by what was published from place first on. */
  predicate Continues(before: seq<message>, received: seq<message>, sent: log, first: nat) {
    && before <= received && first + |received| - |before| <= |sent|
    && received[|before|..] == sent[first..first + |received| - |before|]
  }

  /** Unbroken places pick consecutive messages. */
  lemma PicksContinue(idx: seq<nat>, received: seq<message>, sent: log, before: seq<message>, first: nat)
    requires Picks(idx, received, sent) && Unbroken(idx, Stretch(|before|, first - |before|))
    requires before <= received && first <= |sent|
    ensures Continues(before, received, sent, first)
  {
    var n := |received| - |before|;
    if n != 0 {
      assert idx[|idx| - 1] == |idx| - 1 + first - |before|;
    }
    forall j | 0 <= j < n
      ensures received[|before|..][j] == sent[first..first + n][j]
    {
      assert idx[|before| + j] == first + j;
    }
  }

  lemma MarksUnbroken(pc: Pc, t: Trail, e: Stretch)
    requires Unbroken(Marks(pc, t), e)
    ensures Unbroken(t.seen, e)
  {
    assert forall j :: 0 <= j < |t.seen| ==> t.seen[j] == Marks(pc, t)[j];
  }

  /** What a whole subscriber has received. */
  lemma WholeReceived(s: State, g: Shadow, tail: nat, e: Stretch, i: nat, before: seq<message>, first: nat)
    requires Intact(s, g, tail) && i < |s.readers| && Whole(s, g, tail, e, i)
    requires e == Stretch(|before|, first - |before|) && before <= s.readers[i].delivered && first <= |s.mem.sent|
    ensures Continues(before, s.readers[i].delivered, s.mem.sent, first)
    ensures |g.trails[i].seen| == |s.readers[i].delivered|
  {
    var r, t := s.readers[i], g.trails[i];
    assert ReaderOk(s.mem, g.chart, r, t);
    MarksUnbroken(r.pc, t, e);
    PicksContinue(t.seen, r.delivered, s.mem.sent, before, first);
  }

  /** At the writer between two sends a whole subscriber is up to date. */
  lemma WholeAtWriter(s: State, g: Shadow, tail: nat, e: Stretch, i: nat)
    requires i < |s.readers| == |g.trails| && Whole(s, g, tail, e, i)
    requires s.sender.Idle? && s.readers[i].pc.Start? && s.readers[i].cursor.pos == s.mem.write.pos
    ensures |g.trails[i].seen| + e.shift == |s.mem.sent|
  {}

  lemma EndsWhole(s: State, g: Shadow, tail: nat, i: nat, before: seq<message>, first: nat)
    requires Intact(s, g, tail) && i < |s.readers| && Whole(s, g, tail, Stretch(|before|, first - |before|), i)
    requires before <= s.readers[i].delivered && first <= |s.mem.sent|
    ensures var r := s.readers[i];
            && Continues(before, r.delivered, s.mem.sent, first)
            && (s.sender.Idle? && r.pc.Start? && r.cursor.pos == s.mem.write.pos ==>
                  |r.delivered| - |before| == |s.mem.sent| - first)
  {
    var e, r := Stretch(|before|, first - |before|), s.readers[i];
    WholeReceived(s, g, tail, e, i, before, first);
    if s.sender.Idle? && r.pc.Start? && r.cursor.pos == s.mem.write.pos {
      WholeAtWriter(s, g, tail, e, i);
    }
  }

  /** However the publisher and the subscribers interleave: from wherever a subscriber without conflation joins at the
      writer, as long as it is neither invalidated nor lapped, it receives the messages published from then on,
      leaving none out, and has received them all whenever it stands at the writer between two sends. */
  lemma SparedLosesNothing(s: State, run: seq<Action>, more: seq<Action>, i: nat)
    requires Fresh(s) && i < |s.readers| && Joins(Run(s, run), i) && Spared(Run(s, run), more, i)
    ensures var b, s' := Run(s, run), Run(Run(s, run), more);
            var before, r := b.readers[i].delivered, s'.readers[i];
            && Continues(before, r.delivered, s'.mem.sent, |b.mem.sent|)
            && (s'.sender.Idle? && r.pc.Start? && r.cursor.pos == s'.mem.write.pos ==>
                  |r.delivered| - |before| == |s'.mem.sent| - |b.mem.sent|)
  {
    var b := Run(s, run);
    var g, tail := RunIntact(s, run);
    g, tail := RunWhole(b, more, i, g, tail);
    LogsGrow(b, more, i);
    EndsWhole(Run(b, more), g, tail, i, b.readers[i].delivered, |b.mem.sent|);
  }

  /** The first send that laps it leaves the subscriber valid and, as far as it can see, at the end of what was
      published, but at least one message short even when it has confirmed the one it is at. */
  lemma LappedMisses(s: State, run: seq<Action>, more: seq<Action>, i: nat)
    requires Fresh(s) && i < |s.readers| && Joins(Run(s, run), i) && more != []
    requires Spared(Run(s, run), more[..|more| - 1], i)
    requires Laps(Run(Run(s, run), more[..|more| - 1]), Run(Run(s, run), more), i)
    ensures var b, s' := Run(s, run), Run(Run(s, run), more);
            var before, r := b.readers[i].delivered, s'.readers[i];
            && r.valid && s'.sender.Idle? && r.cursor.pos == s'.mem.write.pos
            && |r.delivered| - |before| + (if r.pc.Confirm? then 1 else 0) < |s'.mem.sent| - |b.mem.sent|
  {
    var b := Run(s, run);
    var last := Run(b, more[..|more| - 1]);
    var g, tail := RunIntact(s, run);
    g, tail := RunWhole(b, more[..|more| - 1], i, g, tail);
    LapIsPublish(last, more[|more| - 1], i);
    PublishedState(last);
    BehindSent(last, g, tail, FromNow(b, i), i);
  }

  lemma LapIsPublish(s: State, a: Action, i: nat)
    requires i < |s.readers| && Laps(s, Step(s, a), i)
    ensures a == Publisher && s.sender.Storing? && forall k: nat :: k < |s.sender.m| ==> k in s.sender.stored
  {}

  /** The next message for a whole subscriber is at most the next one to be published. */
  lemma BehindSent(s: State, g: Shadow, tail: nat, e: Stretch, i: nat)
    requires Intact(s, g, tail) && i < |s.readers| && Whole(s, g, tail, e, i)
    ensures var r := s.readers[i];
            |r.delivered| + e.shift + (if r.pc.Confirm? then 1 else 0) <= |s.mem.sent|
  {
    assert ReaderOk(s.mem, g.chart, s.readers[i], g.trails[i]);
    if s.readers[i].cursor.pos in g.chart.slots {
      assert SlotOk(s.mem, g.chart, s.readers[i].cursor.pos);
    }
  }
}
