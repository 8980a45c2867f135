/** What every step of the interleaved publisher and subscribers keeps, and what follows for every run: no
    subscriber ever returns bytes of two messages mixed, or a message twice, or out of order. */
module MsgqInterleaved {
  import opened MsgqLayout
  import opened MsgqCalls
  import opened MsgqSteps

  // ----- the ring -----

  /** What lies at a position of the ring: a message that was sent, or the wrap tag. */
  datatype Slot = Frame(i: nat) | Tail

  /** Everything intact in the ring, from any earlier cycle, and the first message of the writer's cycle. */
  datatype Chart = Chart(slots: map<nat, Slot>, base: nat)

  /** The message that is next at a slot. */
  function NextOf(c: Chart, p: nat): nat
    requires p in c.slots
  {
    match c.slots[p] case Frame(i) => i case Tail => c.base
  }

  /** At p is a slot at which a message later than i is next. */
  predicate Leads(c: Chart, p: nat, i: nat) {
    p in c.slots && i < NextOf(c, p)
  }

  /** A position a cursor can hold. */
  predicate Inside(size: nat, p: nat) {
    p % 8 == 0 && (p == 0 || p + 8 <= size)
  }

  /** A slot before the writer holds a message of its cycle and leads on up to the writer; any other holds
      an older message, or a wrap tag, and leads on beyond it. */
  ghost predicate SlotOk(mem: Memory, c: Chart, p: nat)
    requires p in c.slots
  {
    && p % 8 == 0 && p + 8 <= |mem.data|
    && match c.slots[p]
       case Tail => mem.write.pos <= p && WrapAt(mem.data, p)
       case Frame(i) =>
         && i < |mem.sent| && FrameAt(mem.data, p, mem.sent[i])
         && (p < mem.write.pos <==> c.base <= i)
         && (p < mem.write.pos ==> p + Total(|mem.sent[i]|) <= mem.write.pos)
         && (p + Total(|mem.sent[i]|) == mem.write.pos || Leads(c, p + Total(|mem.sent[i]|), i))
  }

  ghost predicate GlobalsOk(mem: Memory, c: Chart) {
    && |mem.data| < 0xFFFF_FFFF && mem.write.pos % 8 == 0 && RoomForTag(|mem.data|, mem.write.pos)
    && c.base <= |mem.sent|
    && (forall i :: 0 <= i < |mem.sent| ==> mem.sent[i] != [])
    && (0 < mem.write.pos ==> 0 in c.slots)
  }

  ghost predicate RingOk(mem: Memory, c: Chart) {
    && GlobalsOk(mem, c)
    && forall p {:trigger SlotOk(mem, c, p)} :: p in c.slots ==> SlotOk(mem, c, p)
  }

  // ----- the subscribers -----

  /** The message a subscriber has loaded the size of, and the messages it has received. */
  datatype Trail = Trail(reading: nat, seen: seq<nat>)

  predicate Increasing(s: seq<nat>) {
    forall j, k :: 0 <= j < k < |s| ==> s[j] < s[k]
  }

  /** A message received now would come after all of them. */
  predicate Behind(s: seq<nat>, i: nat) {
    s == [] || s[|s| - 1] < i
  }

  /** The messages received are messages sent, at increasing places. */
  ghost predicate Picks(idx: seq<nat>, received: seq<message>, sent: log) {
    && |idx| == |received| && Increasing(idx)
    && forall j :: 0 <= j < |idx| ==> idx[j] < |sent| && received[j] == sent[idx[j]]
  }

  /** Past the comparison of the two pointers and before the store to its own. */
  predicate Committed(pc: Pc) {
    pc.LoadSize? || pc.Check? || pc.StoreWrap? || pc.StoreSkip? || pc.Copying?
  }

  /** The locals are up to date, and a size that passed the checks keeps the copy inside the ring. */
  ghost predicate LocalsOk(size: nat, read: Cursor, pc: Pc) {
    && !pc.Crashed?
    && (pc.LoadWrite? || Committed(pc) ==> pc.read == read)
    && (Committed(pc) ==> read.pos + 8 <= size)
    && (pc.StoreSkip? || pc.Copying? ==>
          read.pos + Total(pc.size) <= size && Inside(size, read.pos + Total(pc.size)))
  }

  /** The size loaded is that of the message being read, whose bytes are still there even if the publisher
      has meanwhile put its wrap tag over the size. */
  ghost predicate Grip(mem: Memory, c: Chart, p: nat, size: nat, t: Trail) {
    && t.reading < |mem.sent| && size == |mem.sent[t.reading]| && Behind(t.seen, t.reading)
    && p + Total(size) <= |mem.data| && mem.data[p + 8..p + 8 + size] == mem.sent[t.reading]
    && p in c.slots
    && (c.slots[p] == Frame(t.reading) || (c.slots[p] == Tail && Leads(c, p + Total(size), t.reading)))
  }

  /** What the locals of a valid reader at p mean. */
  ghost predicate PcOk(mem: Memory, c: Chart, p: nat, pc: Pc, t: Trail) {
    match pc
    case Check(_, _, tag) =>
      if tag == -1 then p in c.slots && c.slots[p] == Tail else tag > 0 && Grip(mem, c, p, tag, t)
    case StoreWrap(_) => p in c.slots && c.slots[p] == Tail
    case StoreSkip(_, size) => Grip(mem, c, p, size, t)
    case Copying(_, size, copied) =>
      && Grip(mem, c, p, size, t)
      && forall k :: k in copied && k < size ==> copied[k] == mem.sent[t.reading][k]
    case Confirm(m) => t.reading < |mem.sent| && m == mem.sent[t.reading] && Behind(t.seen, t.reading)
    case _ => true
  }

  /** What the reader will have received when it is done with what it is confirming. */
  function Marks(pc: Pc, t: Trail): seq<nat> {
    if pc.Confirm? then t.seen + [t.reading] else t.seen
  }

  /** A reader beyond the writer, or committed at its position, is of an earlier cycle. */
  ghost predicate NotAhead(write: Cursor, read: Cursor, pc: Pc) {
    write.pos < read.pos || (write.pos == read.pos && Committed(pc)) ==> read.cycles < write.cycles
  }

  /** A valid reader is at the writer or at a slot, and never ahead of the writer; once it is committed it
      is at a slot in any case. */
  ghost predicate Placed(mem: Memory, c: Chart, read: Cursor, pc: Pc, t: Trail) {
    && read.cycles <= mem.write.cycles
    && NotAhead(mem.write, read, pc)
    && (read.pos != mem.write.pos || Committed(pc) ==>
          read.pos in c.slots && Behind(Marks(pc, t), NextOf(c, read.pos)))
  }

  ghost predicate ReaderOk(mem: Memory, c: Chart, r: Reader, t: Trail) {
    && Inside(|mem.data|, r.cursor.pos) && (r.valid || 24 <= |mem.data|)
    && Picks(t.seen, r.delivered, mem.sent) && LocalsOk(|mem.data|, r.cursor, r.pc)
    && (r.valid ==> Placed(mem, c, r.cursor, r.pc, t) && PcOk(mem, c, r.cursor.pos, r.pc, t))
  }

  // ----- the publisher -----

  /** The reader keeps out of the area that is being written. */
  ghost predicate Clear(write: Cursor, m: message, r: Reader) {
    && (r.valid && write.pos < r.cursor.pos ==> write.pos + Total(|m|) <= r.cursor.pos)
    && (r.valid && write.pos == r.cursor.pos ==> !Committed(r.pc))
  }

  ghost predicate ClearUpTo(write: Cursor, m: message, readers: seq<Reader>, n: nat) {
    n <= |readers| && forall j :: 0 <= j < n ==> Clear(write, m, readers[j])
  }

  /** What has been stored of the frame. */
  ghost predicate Stored(mem: Memory, c: Chart, m: message, stored: set<nat>) {
    && |m| < 0x1_0000_0000
    && (forall p :: p in c.slots ==> p < mem.write.pos || mem.write.pos + Total(|m|) <= p)
    && mem.write.pos + Total(|m|) <= |mem.data|
    && mem.data[mem.write.pos..mem.write.pos + 8] == Tag(|m|)
    && forall k :: k in stored ==> k < |m| && mem.data[mem.write.pos + 8 + k] == m[k]
  }

  ghost predicate Fitting(size: nat, m: message) {
    m != [] && |m| < 0x1_0000_0000 && Fits(size, m)
  }

  ghost predicate SenderOk(mem: Memory, c: Chart, s: Sender, readers: seq<Reader>) {
    match s
    case Idle => true
    case WrapLoad(m, i) => Fitting(|mem.data|, m) && mem.write.pos in c.slots && c.slots[mem.write.pos] == Tail
    case WrapStore(m, i) =>
      i < |readers| && Fitting(|mem.data|, m) && mem.write.pos in c.slots && c.slots[mem.write.pos] == Tail
    case AreaLoad(m, i) =>
      && Fitting(|mem.data|, m) && mem.write.pos + Total(|m|) + 8 < |mem.data|
      && ClearUpTo(mem.write, m, readers, i)
    case AreaStore(m, i) =>
      && Fitting(|mem.data|, m) && mem.write.pos + Total(|m|) + 8 < |mem.data|
      && i < |readers| && ClearUpTo(mem.write, m, readers, i)
    case Storing(m, stored) =>
      && Fitting(|mem.data|, m) && mem.write.pos + Total(|m|) + 8 < |mem.data|
      && ClearUpTo(mem.write, m, readers, |readers|) && Stored(mem, c, m, stored)
    case Faulted => false
  }

  datatype Shadow = Shadow(chart: Chart, trails: seq<Trail>)

  ghost predicate AllOk(mem: Memory, c: Chart, readers: seq<Reader>, trails: seq<Trail>) {
    |trails| == |readers| && forall i :: 0 <= i < |readers| ==> ReaderOk(mem, c, readers[i], trails[i])
  }

  ghost predicate Inv(s: State, g: Shadow) {
    && RingOk(s.mem, g.chart)
    && SenderOk(s.mem, g.chart, s.sender, s.readers)
    && AllOk(s.mem, g.chart, s.readers, g.trails)
  }

  // ----- the publisher stores its wrap tag -----

  function TailChart(mem: Memory, c: Chart): Chart {
    c.(slots := c.slots[mem.write.pos := Tail])
  }

  function TailMemory(mem: Memory): Memory
    requires mem.write.pos + 8 <= |mem.data|
  {
    mem.(data := PutTag(mem.data, mem.write.pos, -1))
  }

  lemma TailAgrees(mem: Memory)
    requires mem.write.pos + 8 <= |mem.data|
    ensures Agree(mem.data, TailMemory(mem).data, 0, mem.write.pos)
    ensures Agree(mem.data, TailMemory(mem).data, mem.write.pos + 8, |mem.data|)
  {}

  lemma TailFrame(mem: Memory, c: Chart, p: nat, i: nat)
    requires mem.write.pos % 8 == 0 && mem.write.pos + 8 <= |mem.data| && p != mem.write.pos
    requires p in c.slots && c.slots[p] == Frame(i) && SlotOk(mem, c, p)
    ensures FrameAt(TailMemory(mem).data, p, mem.sent[i])
  {
    TailAgrees(mem);
    if p < mem.write.pos {
      FrameKept(mem.data, TailMemory(mem).data, p, mem.sent[i], 0, mem.write.pos);
    } else {
      FrameKept(mem.data, TailMemory(mem).data, p, mem.sent[i], mem.write.pos + 8, |mem.data|);
    }
  }

  lemma TailSlot(mem: Memory, c: Chart, p: nat)
    requires mem.write.pos % 8 == 0 && mem.write.pos + 8 <= |mem.data|
    requires p == mem.write.pos || (p in c.slots && SlotOk(mem, c, p))
    ensures SlotOk(TailMemory(mem), TailChart(mem, c), p)
  {
    var mem', w := TailMemory(mem), mem.write.pos;
    TailAgrees(mem);
    if p == w {
      PutWrapWorks(mem.data, w);
    } else {
      match c.slots[p]
      case Tail => WrapKept(mem.data, mem'.data, p, w + 8, |mem.data|);
      case Frame(i) => TailFrame(mem, c, p, i);
    }
  }

  lemma TailRing(mem: Memory, c: Chart)
    requires RingOk(mem, c) && mem.write.pos + 8 <= |mem.data|
    ensures RingOk(TailMemory(mem), TailChart(mem, c))
  {
    forall p | p in TailChart(mem, c).slots
      ensures SlotOk(TailMemory(mem), TailChart(mem, c), p)
    {
      if p != mem.write.pos {
        assert SlotOk(mem, c, p);
      }
      TailSlot(mem, c, p);
    }
  }

  lemma TailGrip(mem: Memory, c: Chart, p: nat, size: nat, t: Trail)
    requires mem.write.pos % 8 == 0 && mem.write.pos + 8 <= |mem.data|
    requires Grip(mem, c, p, size, t) && SlotOk(mem, c, p)
    ensures Grip(TailMemory(mem), TailChart(mem, c), p, size, t)
  {
    assert TailMemory(mem).data[p + 8..p + 8 + size] == mem.data[p + 8..p + 8 + size] by {
      TailAgrees(mem);
    }
  }

  lemma TailReader(mem: Memory, c: Chart, r: Reader, t: Trail)
    requires RingOk(mem, c) && mem.write.pos + 8 <= |mem.data| && ReaderOk(mem, c, r, t)
    ensures ReaderOk(TailMemory(mem), TailChart(mem, c), r, t)
  {
    var p := r.cursor.pos;
    if r.valid {
      if p in c.slots {
        assert SlotOk(mem, c, p);
      }
      match r.pc
      case Check(_, _, tag) =>
        if tag != -1 { TailGrip(mem, c, p, tag, t); }
      case StoreSkip(_, size) => TailGrip(mem, c, p, size, t);
      case Copying(_, size, copied) => TailGrip(mem, c, p, size, t);
      case _ =>
    }
  }

  // ----- the publisher goes to the start of the ring -----

  function TurnChart(mem: Memory, c: Chart): Chart {
    c.(base := |mem.sent|)
  }

  function TurnMemory(mem: Memory): Memory {
    mem.(write := Cursor(mem.write.cycles + 1, 0))
  }

  lemma TurnRing(mem: Memory, c: Chart)
    requires RingOk(mem, c) && mem.write.pos in c.slots && c.slots[mem.write.pos] == Tail
    ensures RingOk(TurnMemory(mem), TurnChart(mem, c))
  {
    forall p | p in c.slots
      ensures SlotOk(TurnMemory(mem), TurnChart(mem, c), p)
    {
      assert SlotOk(mem, c, p);
    }
  }

  lemma TurnReader(mem: Memory, c: Chart, r: Reader, t: Trail)
    requires RingOk(mem, c) && mem.write.pos in c.slots && c.slots[mem.write.pos] == Tail && ReaderOk(mem, c, r, t)
    ensures ReaderOk(TurnMemory(mem), TurnChart(mem, c), r, t)
  {
  }

  // ----- the publisher writes the area -----

  /** The slots outside the area. */
  function AreaChart(mem: Memory, c: Chart, m: message): Chart {
    c.(slots := map p | p in c.slots && !(mem.write.pos <= p < mem.write.pos + Total(|m|)) :: c.slots[p])
  }

  /** Two memories that differ only in the area. */
  ghost predicate OnlyArea(mem: Memory, mem': Memory, m: message) {
    && mem' == mem.(data := mem'.data) && mem.write.pos + Total(|m|) <= |mem.data|
    && Agree(mem.data, mem'.data, 0, mem.write.pos)
    && Agree(mem.data, mem'.data, mem.write.pos + Total(|m|), |mem.data|)
  }

  lemma AreaSlot(mem: Memory, mem': Memory, c: Chart, m: message, p: nat)
    requires OnlyArea(mem, mem', m) && p in AreaChart(mem, c, m).slots && SlotOk(mem, c, p)
    ensures SlotOk(mem', AreaChart(mem, c, m), p)
  {
    var w, e := mem.write.pos, mem.write.pos + Total(|m|);
    match c.slots[p]
    case Tail => WrapKept(mem.data, mem'.data, p, e, |mem.data|);
    case Frame(i) =>
      if p < w {
        FrameKept(mem.data, mem'.data, p, mem.sent[i], 0, w);
      } else {
        FrameKept(mem.data, mem'.data, p, mem.sent[i], e, |mem.data|);
      }
  }

  lemma AreaRing(mem: Memory, mem': Memory, c: Chart, m: message)
    requires RingOk(mem, c) && OnlyArea(mem, mem', m)
    ensures RingOk(mem', AreaChart(mem, c, m))
  {
    forall p | p in AreaChart(mem, c, m).slots
      ensures SlotOk(mem', AreaChart(mem, c, m), p)
    {
      assert SlotOk(mem, c, p);
      AreaSlot(mem, mem', c, m, p);
    }
  }

  lemma AreaGrip(mem: Memory, mem': Memory, c: Chart, m: message, p: nat, size: nat, t: Trail)
    requires OnlyArea(mem, mem', m) && Grip(mem, c, p, size, t) && SlotOk(mem, c, p)
    requires p < mem.write.pos || mem.write.pos + Total(|m|) <= p
    ensures Grip(mem', AreaChart(mem, c, m), p, size, t)
  {
    assert mem'.data[p + 8..p + 8 + size] == mem.data[p + 8..p + 8 + size];
  }

  lemma AreaReader(mem: Memory, mem': Memory, c: Chart, m: message, r: Reader, t: Trail)
    requires RingOk(mem, c) && OnlyArea(mem, mem', m) && Clear(mem.write, m, r) && ReaderOk(mem, c, r, t)
    ensures ReaderOk(mem', AreaChart(mem, c, m), r, t)
  {
    var p := r.cursor.pos;
    if r.valid {
      if p in c.slots {
        assert SlotOk(mem, c, p);
      }
      match r.pc
      case Check(_, _, tag) =>
        if tag != -1 { AreaGrip(mem, mem', c, m, p, tag, t); }
      case StoreSkip(_, size) => AreaGrip(mem, mem', c, m, p, size, t);
      case Copying(_, size, copied) => AreaGrip(mem, mem', c, m, p, size, t);
      case _ =>
    }
  }

  // ----- the publisher publishes -----

  function PublishChart(mem: Memory, c: Chart): Chart {
    c.(slots := c.slots[mem.write.pos := Frame(|mem.sent|)])
  }

  function PublishMemory(mem: Memory, m: message): Memory {
    mem.(write := Cursor(mem.write.cycles, mem.write.pos + Total(|m|)), sent := mem.sent + [m])
  }

  lemma StoredIsFrame(mem: Memory, c: Chart, m: message, stored: set<nat>)
    requires Stored(mem, c, m, stored) && |m| < 0x1_0000_0000 && forall k: nat :: k < |m| ==> k in stored
    ensures FrameAt(mem.data, mem.write.pos, m)
  {
    assert mem.data[mem.write.pos + 8..mem.write.pos + 8 + |m|] == m;
  }

  lemma PublishSlot(mem: Memory, c: Chart, m: message, stored: set<nat>, p: nat)
    requires mem.write.pos % 8 == 0 && c.base <= |mem.sent|
    requires Stored(mem, c, m, stored) && FrameAt(mem.data, mem.write.pos, m) && m != []
    requires p == mem.write.pos || (p in c.slots && SlotOk(mem, c, p))
    ensures SlotOk(PublishMemory(mem, m), PublishChart(mem, c), p)
  {}

  lemma PublishGlobals(mem: Memory, c: Chart, m: message)
    requires RingOk(mem, c) && m != [] && mem.write.pos + Total(|m|) + 8 < |mem.data|
    ensures GlobalsOk(PublishMemory(mem, m), PublishChart(mem, c))
  {}

  lemma PublishRing(mem: Memory, c: Chart, m: message, stored: set<nat>)
    requires RingOk(mem, c) && Stored(mem, c, m, stored) && FrameAt(mem.data, mem.write.pos, m)
    requires m != [] && mem.write.pos + Total(|m|) + 8 < |mem.data|
    ensures RingOk(PublishMemory(mem, m), PublishChart(mem, c))
  {
    PublishGlobals(mem, c, m);
    forall p | p in PublishChart(mem, c).slots
      ensures SlotOk(PublishMemory(mem, m), PublishChart(mem, c), p)
    {
      if p != mem.write.pos {
        assert SlotOk(mem, c, p);
      }
      PublishSlot(mem, c, m, stored, p);
    }
  }

  lemma PublishReader(mem: Memory, c: Chart, m: message, stored: set<nat>, r: Reader, t: Trail)
    requires RingOk(mem, c) && Stored(mem, c, m, stored) && Clear(mem.write, m, r) && ReaderOk(mem, c, r, t)
    ensures ReaderOk(PublishMemory(mem, m), PublishChart(mem, c), r, t)
  {
  }

  // ----- a subscriber's steps -----

  /** What a subscriber's step does to its trail: loading a size it starts reading, confirming it has seen. */
  function NextTrail(c: Chart, r: Reader, t: Trail): Trail {
    match r.pc
    case LoadSize(read, _) =>
      if read.pos in c.slots && c.slots[read.pos].Frame? then t.(reading := c.slots[read.pos].i) else t
    case Confirm(_) => if r.valid then t.(seen := t.seen + [t.reading]) else t
    case _ => t
  }

  /** The step of a subscriber at a given place keeps its part of the invariant. */
  ghost predicate Keeps(mem: Memory, c: Chart, r: Reader, t: Trail) {
    ReaderOk(mem, c, ReaderStep(mem, r), NextTrail(c, r, t))
  }

  lemma KeepsAtStart(mem: Memory, c: Chart, r: Reader, t: Trail)
    requires RingOk(mem, c) && ReaderOk(mem, c, r, t)
    requires r.pc.Start? || r.pc.Resetting? || r.pc.LoadRead?
    ensures Keeps(mem, c, r, t)
  {}

  lemma KeepsLoadWrite(mem: Memory, c: Chart, r: Reader, t: Trail)
    requires RingOk(mem, c) && ReaderOk(mem, c, r, t) && r.pc.LoadWrite?
    ensures Keeps(mem, c, r, t)
  {
    if r.valid && r.cursor.pos in c.slots {
      assert SlotOk(mem, c, r.cursor.pos);
    }
  }

  lemma TagOfSlot(mem: Memory, c: Chart, p: nat)
    requires RingOk(mem, c) && p in c.slots
    ensures p + 8 <= |mem.data|
    ensures match c.slots[p]
            case Tail => TagAt(mem.data, p) == -1
            case Frame(i) => i < |mem.sent| && TagAt(mem.data, p) == |mem.sent[i]| > 0
  {
    assert SlotOk(mem, c, p);
    match c.slots[p]
    case Tail => TagReads(mem.data, p, -1);
    case Frame(i) => TagReads(mem.data, p, |mem.sent[i]|);
  }

  lemma FrameGrip(mem: Memory, c: Chart, p: nat, t: Trail)
    requires p in c.slots && SlotOk(mem, c, p) && c.slots[p] == Frame(t.reading) && Behind(t.seen, t.reading)
    ensures t.reading < |mem.sent| && Grip(mem, c, p, |mem.sent[t.reading]|, t)
  {}

  /** The tag loaded from a slot, and the trail that goes with it. */
  lemma SizeLoaded(mem: Memory, c: Chart, p: nat, t: Trail)
    requires RingOk(mem, c) && p in c.slots && Behind(t.seen, NextOf(c, p))
    ensures p + 8 <= |mem.data|
    ensures var tag, t' := TagAt(mem.data, p), if c.slots[p].Frame? then t.(reading := c.slots[p].i) else t;
            if tag == -1 then c.slots[p] == Tail else tag > 0 && Grip(mem, c, p, tag, t')
  {
    TagOfSlot(mem, c, p);
    assert SlotOk(mem, c, p);
    if c.slots[p].Frame? {
      FrameGrip(mem, c, p, t.(reading := c.slots[p].i));
    }
  }

  lemma KeepsLoadSize(mem: Memory, c: Chart, r: Reader, t: Trail)
    requires RingOk(mem, c) && ReaderOk(mem, c, r, t) && r.pc.LoadSize?
    ensures Keeps(mem, c, r, t)
  {
    if r.valid {
      SizeLoaded(mem, c, r.cursor.pos, t);
    }
  }

  /** Where a grip leads: to the writer, or on along the chain. */
  lemma GripLands(mem: Memory, c: Chart, p: nat, size: nat, t: Trail)
    requires RingOk(mem, c) && Grip(mem, c, p, size, t)
    ensures p % 8 == 0 && 0 < size && After(Cursor(0, p), size).pos == p + Total(size)
    ensures Inside(|mem.data|, p + Total(size))
    ensures p + Total(size) == mem.write.pos || Leads(c, p + Total(size), t.reading)
    ensures p < mem.write.pos ==> p + Total(size) <= mem.write.pos
  {
    assert SlotOk(mem, c, p);
    AlignAfter(p, size + 8);
    var q := p + Total(size);
    if q != mem.write.pos {
      assert Leads(c, q, t.reading);
      assert SlotOk(mem, c, q);
    }
  }

  /** A reader whose size passed the check goes on to skip or copy. */
  lemma CheckedOk(mem: Memory, c: Chart, r: Reader, t: Trail, pc: Pc)
    requires ReaderOk(mem, c, r, t) && r.valid && r.pc.Check? && r.pc.tag > 0
    requires Grip(mem, c, r.cursor.pos, r.pc.tag, t) && Inside(|mem.data|, r.cursor.pos + Total(r.pc.tag))
    requires pc == StoreSkip(r.pc.read, r.pc.tag) || pc == Copying(r.pc.read, r.pc.tag, map[])
    ensures ReaderOk(mem, c, r.(pc := pc), t)
  {}

  /** Without its validity, or with the wrap tag loaded, a reader only changes its place in the code. */
  lemma CheckedAside(mem: Memory, c: Chart, r: Reader, t: Trail)
    requires ReaderOk(mem, c, r, t) && r.pc.Check? && (!r.valid || r.pc.tag == -1)
    ensures Keeps(mem, c, r, t)
  {}

  lemma CheckedPc(mem: Memory, r: Reader)
    requires r.pc.Check? && r.valid && 0 < r.pc.tag < |mem.data|
    ensures var pc := ReaderStep(mem, r).pc;
            && ReaderStep(mem, r) == r.(pc := pc)
            && (pc == StoreSkip(r.pc.read, r.pc.tag) || pc == Copying(r.pc.read, r.pc.tag, map[]))
  {}

  lemma KeepsCheck(mem: Memory, c: Chart, r: Reader, t: Trail)
    requires RingOk(mem, c) && ReaderOk(mem, c, r, t) && r.pc.Check?
    ensures Keeps(mem, c, r, t)
  {
    if !r.valid || r.pc.tag == -1 {
      CheckedAside(mem, c, r, t);
    } else {
      GripLands(mem, c, r.cursor.pos, r.pc.tag, t);
      CheckedPc(mem, r);
      CheckedOk(mem, c, r, t, ReaderStep(mem, r).pc);
    }
  }

  /** From the wrap tag on: the start of the ring holds the first message of the writer's cycle, or is the writer. */
  lemma StartOfRing(mem: Memory, c: Chart, p: nat)
    requires RingOk(mem, c) && p in c.slots && c.slots[p] == Tail
    ensures mem.write.pos <= p && (0 < mem.write.pos ==> 0 in c.slots && NextOf(c, p) <= NextOf(c, 0))
  {
    assert SlotOk(mem, c, p);
    if 0 < mem.write.pos {
      assert SlotOk(mem, c, 0);
    }
  }

  /** A reader that goes to the start of the ring. */
  lemma WrappedOk(mem: Memory, c: Chart, r: Reader, t: Trail)
    requires ReaderOk(mem, c, r, t) && r.pc.StoreWrap?
    requires r.valid ==>
               && r.cursor.pos in c.slots && mem.write.pos <= r.cursor.pos
               && (0 < mem.write.pos ==> 0 in c.slots && NextOf(c, r.cursor.pos) <= NextOf(c, 0))
    ensures ReaderOk(mem, c, r.(cursor := Cursor(r.cursor.cycles + 1, 0), pc := Start), t)
  {}

  lemma KeepsStoreWrap(mem: Memory, c: Chart, r: Reader, t: Trail)
    requires RingOk(mem, c) && ReaderOk(mem, c, r, t) && r.pc.StoreWrap?
    ensures Keeps(mem, c, r, t)
  {
    if r.valid {
      StartOfRing(mem, c, r.cursor.pos);
    }
    WrappedOk(mem, c, r, t);
  }

  /** A cursor a reader may move to from the message it is reading. */
  ghost predicate Lands(mem: Memory, c: Chart, r: Reader, t: Trail, to: Cursor) {
    && Inside(|mem.data|, to.pos) && to.cycles == r.cursor.cycles
    && t.reading < |mem.sent| && Behind(t.seen, t.reading)
    && (mem.write.pos < to.pos ==> to.cycles < mem.write.cycles)
    && (to.pos == mem.write.pos || Leads(c, to.pos, t.reading))
  }

  lemma LandsBehind(mem: Memory, c: Chart, r: Reader, t: Trail, size: nat)
    requires RingOk(mem, c) && r.valid && Committed(r.pc) && Placed(mem, c, r.cursor, r.pc, t)
    requires Grip(mem, c, r.cursor.pos, size, t)
    ensures Lands(mem, c, r, t, After(r.cursor, size))
  {
    GripLands(mem, c, r.cursor.pos, size, t);
  }

  /** Where a reader lands it is placed, with the message read behind it or not. */
  lemma LandsPlaced(mem: Memory, c: Chart, r: Reader, t: Trail, to: Cursor)
    requires Lands(mem, c, r, t, to) && r.cursor.cycles <= mem.write.cycles
    ensures Placed(mem, c, to, Start, t) && Placed(mem, c, to, Confirm(mem.sent[t.reading]), t)
  {}

  /** A reader that skips its message. */
  lemma SkippedOk(mem: Memory, c: Chart, r: Reader, t: Trail, to: Cursor)
    requires ReaderOk(mem, c, r, t) && r.valid && Committed(r.pc) && Lands(mem, c, r, t, to)
    ensures ReaderOk(mem, c, r.(cursor := to, pc := Start), t)
  {
    LandsPlaced(mem, c, r, t, to);
  }

  lemma KeepsStoreSkip(mem: Memory, c: Chart, r: Reader, t: Trail)
    requires RingOk(mem, c) && ReaderOk(mem, c, r, t) && r.pc.StoreSkip?
    ensures Keeps(mem, c, r, t)
  {
    if r.valid {
      LandsBehind(mem, c, r, t, r.pc.size);
      SkippedOk(mem, c, r, t, After(r.cursor, r.pc.size));
    } else {
      AlignAfter(r.cursor.pos, r.pc.size + 8);
    }
  }

  /** Once every byte is copied the copy is the message. */
  lemma CopyComplete(mem: Memory, c: Chart, r: Reader, t: Trail)
    requires r.pc.Copying? && PcOk(mem, c, r.cursor.pos, r.pc, t) && forall k: nat :: k < r.pc.size ==> k in r.pc.copied
    ensures t.reading < |mem.sent|
    ensures ReaderStep(mem, r) == r.(cursor := After(r.pc.read, r.pc.size), pc := Confirm(mem.sent[t.reading]))
  {
    assert ReaderStep(mem, r).pc.m == mem.sent[t.reading];
  }

  /** A reader that has copied its message and moved behind it. */
  lemma CopiedOk(mem: Memory, c: Chart, r: Reader, t: Trail, to: Cursor)
    requires ReaderOk(mem, c, r, t) && r.valid && Committed(r.pc) && Lands(mem, c, r, t, to)
    ensures ReaderOk(mem, c, r.(cursor := to, pc := Confirm(mem.sent[t.reading])), t)
  {
    LandsPlaced(mem, c, r, t, to);
  }

  /** A reader that has lost its validity meanwhile moves all the same, inside the ring. */
  lemma StaleCopyOk(mem: Memory, c: Chart, r: Reader, t: Trail)
    requires ReaderOk(mem, c, r, t) && r.pc.Copying? && !r.valid
    ensures ReaderOk(mem, c, ReaderStep(mem, r), t)
  {
    AlignAfter(r.cursor.pos, r.pc.size + 8);
  }

  lemma KeepsCopying(mem: Memory, c: Chart, r: Reader, t: Trail)
    requires RingOk(mem, c) && ReaderOk(mem, c, r, t) && r.pc.Copying?
    ensures Keeps(mem, c, r, t)
  {
    if !r.valid {
      StaleCopyOk(mem, c, r, t);
    } else if forall k: nat :: k < r.pc.size ==> k in r.pc.copied {
      CopyComplete(mem, c, r, t);
      LandsBehind(mem, c, r, t, r.pc.size);
      CopiedOk(mem, c, r, t, After(r.cursor, r.pc.size));
    }
  }

  lemma PicksMore(idx: seq<nat>, received: seq<message>, sent: log, i: nat)
    requires Picks(idx, received, sent) && Behind(idx, i) && i < |sent|
    ensures Picks(idx + [i], received + [sent[i]], sent)
  {}

  lemma KeepsConfirm(mem: Memory, c: Chart, r: Reader, t: Trail)
    requires RingOk(mem, c) && ReaderOk(mem, c, r, t) && r.pc.Confirm?
    ensures Keeps(mem, c, r, t)
  {
    if r.valid {
      PicksMore(t.seen, r.delivered, mem.sent, t.reading);
    }
  }

  lemma SubscriberKeeps(mem: Memory, c: Chart, r: Reader, t: Trail)
    requires RingOk(mem, c) && ReaderOk(mem, c, r, t)
    ensures Keeps(mem, c, r, t)
  {
    match r.pc
    case Start => KeepsAtStart(mem, c, r, t);
    case Resetting => KeepsAtStart(mem, c, r, t);
    case LoadRead => KeepsAtStart(mem, c, r, t);
    case LoadWrite(_) => KeepsLoadWrite(mem, c, r, t);
    case LoadSize(_, _) => KeepsLoadSize(mem, c, r, t);
    case Check(_, _, _) => KeepsCheck(mem, c, r, t);
    case StoreWrap(_) => KeepsStoreWrap(mem, c, r, t);
    case StoreSkip(_, _) => KeepsStoreSkip(mem, c, r, t);
    case Copying(_, _, _) => KeepsCopying(mem, c, r, t);
    case Confirm(_) => KeepsConfirm(mem, c, r, t);
  }

  /** Copying one byte of a message that is still there. */
  lemma ByteCopied(mem: Memory, c: Chart, r: Reader, t: Trail, k: nat)
    requires r.pc.Copying? && PcOk(mem, c, r.cursor.pos, r.pc, t) && k < r.pc.size
    ensures r.cursor.pos + 8 + k < |mem.data|
    ensures PcOk(mem, c, r.cursor.pos, r.pc.(copied := r.pc.copied[k := mem.data[r.cursor.pos + 8 + k]]), t)
  {
    var p, m := r.cursor.pos, mem.sent[t.reading];
    assert mem.data[p + 8..p + 8 + r.pc.size][k] == m[k];
  }

  /** A reader that copies stays in its place. */
  lemma CopyingStays(mem: Memory, c: Chart, r: Reader, t: Trail, copied: map<nat, octet>)
    requires ReaderOk(mem, c, r, t) && r.pc.Copying?
    requires r.valid ==> PcOk(mem, c, r.cursor.pos, r.pc.(copied := copied), t)
    ensures ReaderOk(mem, c, r.(pc := r.pc.(copied := copied)), t)
  {}

  lemma CopyInside(size: nat, r: Reader, k: nat)
    requires LocalsOk(size, r.cursor, r.pc) && r.pc.Copying? && k < r.pc.size
    ensures r.pc.read == r.cursor && r.cursor.pos + 8 + k < size
  {}

  lemma CopyByteKeeps(mem: Memory, c: Chart, r: Reader, t: Trail, k: nat)
    requires ReaderOk(mem, c, r, t)
    ensures ReaderOk(mem, c, CopyByteStep(mem, r, k), t)
  {
    if r.pc.Copying? && k < r.pc.size {
      CopyInside(|mem.data|, r, k);
      var copied := r.pc.copied[k := mem.data[r.cursor.pos + 8 + k]];
      if r.valid {
        ByteCopied(mem, c, r, t, k);
      }
      CopyingStays(mem, c, r, t, copied);
      assert CopyByteStep(mem, r, k) == r.(pc := r.pc.(copied := copied));
    }
  }

  /** A step that moves the reader behind its message. */
  lemma MovesClear(mem: Memory, c: Chart, m: message, r: Reader, t: Trail, size: nat)
    requires RingOk(mem, c) && Grip(mem, c, r.cursor.pos, size, t)
    requires r.valid && Committed(r.pc) && Clear(mem.write, m, r)
    ensures After(r.cursor, size).pos <= mem.write.pos || mem.write.pos + Total(|m|) <= After(r.cursor, size).pos
  {
    GripLands(mem, c, r.cursor.pos, size, t);
  }

  /** A subscriber does not step into the area being written. */
  lemma SubscriberClear(mem: Memory, c: Chart, m: message, r: Reader, t: Trail)
    requires RingOk(mem, c) && ReaderOk(mem, c, r, t) && Clear(mem.write, m, r)
    ensures Clear(mem.write, m, ReaderStep(mem, r))
  {
    if r.valid && (r.pc.StoreSkip? || r.pc.Copying?) {
      MovesClear(mem, c, m, r, t, r.pc.size);
      MovingClear(mem, m, r);
    } else {
      OtherStepsClear(mem, m, r);
    }
  }

  lemma MovingClear(mem: Memory, m: message, r: Reader)
    requires Clear(mem.write, m, r) && LocalsOk(|mem.data|, r.cursor, r.pc) && (r.pc.StoreSkip? || r.pc.Copying?)
    requires var to := After(r.cursor, r.pc.size).pos; to <= mem.write.pos || mem.write.pos + Total(|m|) <= to
    ensures Clear(mem.write, m, ReaderStep(mem, r))
  {}

  lemma OtherStepsClear(mem: Memory, m: message, r: Reader)
    requires Clear(mem.write, m, r) && LocalsOk(|mem.data|, r.cursor, r.pc)
             && !(r.valid && (r.pc.StoreSkip? || r.pc.Copying?))
    ensures Clear(mem.write, m, ReaderStep(mem, r))
  {}

  // ----- every step -----

  function PublisherChart(s: State, c: Chart): Chart {
    match s.sender
    case WrapLoad(_, i) => if i < |s.readers| then c else TurnChart(s.mem, c)
    case AreaLoad(m, i) => if i < |s.readers| then c else AreaChart(s.mem, c, m)
    case Storing(m, stored) => if forall k: nat :: k < |m| ==> k in stored then PublishChart(s.mem, c) else c
    case _ => c
  }

  function NextChart(s: State, c: Chart, a: Action): Chart {
    match a
    case Begin(m) =>
      if s.sender.Idle? && m != [] && Fits(|s.mem.data|, m) && Crowded(|s.mem.data|, s.mem.write.pos, m)
      then TailChart(s.mem, c) else c
    case StoreByte(k) => if s.sender.Storing? && k < |s.sender.m| then AreaChart(s.mem, c, s.sender.m) else c
    case Publisher => PublisherChart(s, c)
    case _ => c
  }

  /** What a step does to the chart and to the trails. */
  function NextShadow(s: State, g: Shadow, a: Action): Shadow
    requires |g.trails| == |s.readers|
  {
    Shadow(NextChart(s, g.chart, a),
           if a.Subscriber? && a.i < |s.readers|
           then g.trails[a.i := NextTrail(g.chart, s.readers[a.i], g.trails[a.i])] else g.trails)
  }

  lemma InvOf(s: State, g: Shadow, mem: Memory, c: Chart, sender: Sender)
    requires s == State(mem, sender, s.readers) && g.chart == c
    requires RingOk(mem, c) && SenderOk(mem, c, sender, s.readers) && AllOk(mem, c, s.readers, g.trails)
    ensures Inv(s, g)
  {}

  /** Replacing one subscriber by one that fits in as well. */
  lemma ReaderReplaced(s: State, g: Shadow, i: nat, r: Reader, t: Trail)
    requires Inv(s, g) && i < |s.readers| && ReaderOk(s.mem, g.chart, r, t)
    requires s.sender.Idle? || s.sender.Faulted?
             || (Clear(s.mem.write, s.sender.m, s.readers[i]) ==> Clear(s.mem.write, s.sender.m, r))
    ensures Inv(s.(readers := s.readers[i := r]), g.(trails := g.trails[i := t]))
  {}

  lemma SubscriberStepKeeps(s: State, g: Shadow, i: nat) returns (g': Shadow)
    requires Inv(s, g)
    ensures Inv(Step(s, Subscriber(i)), g') && g' == NextShadow(s, g, Subscriber(i))
  {
    g' := g;
    if i < |s.readers| {
      var r, t := s.readers[i], g.trails[i];
      SubscriberKeeps(s.mem, g.chart, r, t);
      if !s.sender.Idle? && Clear(s.mem.write, s.sender.m, r) {
        SubscriberClear(s.mem, g.chart, s.sender.m, r, t);
      }
      g' := g.(trails := g.trails[i := NextTrail(g.chart, r, t)]);
      ReaderReplaced(s, g, i, ReaderStep(s.mem, r), NextTrail(g.chart, r, t));
    }
  }

  lemma CopyByteStepKeeps(s: State, g: Shadow, i: nat, k: nat) returns (g': Shadow)
    requires Inv(s, g)
    ensures Inv(Step(s, CopyByte(i, k)), g') && g' == NextShadow(s, g, CopyByte(i, k))
  {
    g' := g;
    if i < |s.readers| {
      var r, t := s.readers[i], g.trails[i];
      CopyByteKeeps(s.mem, g.chart, r, t, k);
      ReaderReplaced(s, g, i, CopyByteStep(s.mem, r, k), t);
      assert g.trails[i := t] == g.trails;
    }
  }

  lemma BeginStepKeeps(s: State, g: Shadow, m: message) returns (g': Shadow)
    requires Inv(s, g)
    ensures Inv(Step(s, Begin(m)), g') && g' == NextShadow(s, g, Begin(m))
  {
    g' := g;
    if s.sender.Idle? && m != [] && Fits(|s.mem.data|, m) && Crowded(|s.mem.data|, s.mem.write.pos, m) {
      g' := g.(chart := TailChart(s.mem, g.chart));
      TailRing(s.mem, g.chart);
      forall i | 0 <= i < |s.readers|
        ensures ReaderOk(TailMemory(s.mem), g'.chart, s.readers[i], g.trails[i])
      {
        TailReader(s.mem, g.chart, s.readers[i], g.trails[i]);
      }
    }
  }

  /** Invalidating a reader breaks nothing. */
  lemma ReaderInvalidated(mem: Memory, c: Chart, r: Reader, t: Trail)
    requires ReaderOk(mem, c, r, t) && 24 <= |mem.data|
    ensures ReaderOk(mem, c, r.(valid := false), t)
  {}

  lemma InvalidatedOk(s: State, c: Chart, trails: seq<Trail>, i: nat)
    requires AllOk(s.mem, c, s.readers, trails) && i < |s.readers| && 24 <= |s.mem.data|
    ensures AllOk(s.mem, c, Invalidated(s, i), trails)
  {
    ReaderInvalidated(s.mem, c, s.readers[i], trails[i]);
    forall j | 0 <= j < |s.readers|
      ensures ReaderOk(s.mem, c, Invalidated(s, i)[j], trails[j])
    {
      assert ReaderOk(s.mem, c, s.readers[j], trails[j]);
    }
  }

  lemma TurnAll(s: State, g: Shadow)
    requires Inv(s, g) && s.sender.WrapLoad?
    ensures RingOk(TurnMemory(s.mem), TurnChart(s.mem, g.chart))
    ensures AllOk(TurnMemory(s.mem), TurnChart(s.mem, g.chart), s.readers, g.trails)
  {
    TurnRing(s.mem, g.chart);
    forall i | 0 <= i < |s.readers|
      ensures ReaderOk(TurnMemory(s.mem), TurnChart(s.mem, g.chart), s.readers[i], g.trails[i])
    {
      TurnReader(s.mem, g.chart, s.readers[i], g.trails[i]);
    }
  }

  lemma WrapStepKeeps(s: State, g: Shadow) returns (g': Shadow)
    requires Inv(s, g) && (s.sender.WrapLoad? || s.sender.WrapStore?)
    ensures Inv(Step(s, Publisher), g') && g' == NextShadow(s, g, Publisher)
  {
    g' := g;
    if s.sender.WrapStore? {
      InvalidatedOk(s, g.chart, g.trails, s.sender.i);
    } else if s.sender.i >= |s.readers| {
      g' := g.(chart := TurnChart(s.mem, g.chart));
      TurnAll(s, g);
      InvOf(Step(s, Publisher), g', TurnMemory(s.mem), g'.chart, AreaLoad(s.sender.m, 0));
    }
  }

  /** A reader that the publisher leaves valid is out of its way. */
  lemma SparedIsClear(write: Cursor, m: message, r: Reader)
    requires write.pos % 8 == 0 && (r.valid ==> NotAhead(write, r.cursor, r.pc)) && !InArea(write, r.cursor, m)
    ensures Clear(write, m, r)
  {
    AlignAfter(write.pos, |m| + 8);
  }

  lemma AreaStoreKeeps(s: State, g: Shadow)
    requires Inv(s, g) && s.sender.AreaStore?
    ensures Inv(Step(s, Publisher), g)
  {
    InvalidatedOk(s, g.chart, g.trails, s.sender.i);
  }

  /** The scan has looked at one more reader. */
  lemma ScanGoesOn(mem: Memory, c: Chart, m: message, i: nat, readers: seq<Reader>)
    requires SenderOk(mem, c, AreaLoad(m, i), readers) && i < |readers| && mem.write.pos % 8 == 0
    requires readers[i].valid ==> NotAhead(mem.write, readers[i].cursor, readers[i].pc)
    ensures SenderOk(mem, c,
                     if InArea(mem.write, readers[i].cursor, m) then AreaStore(m, i) else AreaLoad(m, i + 1), readers)
  {
    if !InArea(mem.write, readers[i].cursor, m) {
      SparedIsClear(mem.write, m, readers[i]);
    }
  }

  lemma AreaLoadKeeps(s: State, g: Shadow)
    requires Inv(s, g) && s.sender.AreaLoad? && s.sender.i < |s.readers|
    ensures Inv(Step(s, Publisher), g)
  {
    var m, i := s.sender.m, s.sender.i;
    assert ReaderOk(s.mem, g.chart, s.readers[i], g.trails[i]);
    ScanGoesOn(s.mem, g.chart, m, i, s.readers);
    InvOf(Step(s, Publisher), g, s.mem, g.chart, Step(s, Publisher).sender);
  }

  /** Changing the ring in the area alone. */
  lemma AreaKeeps(s: State, g: Shadow, data: seq<octet>) returns (g': Shadow)
    requires Inv(s, g) && (s.sender.AreaLoad? || s.sender.Storing?)
    requires ClearUpTo(s.mem.write, s.sender.m, s.readers, |s.readers|)
    requires OnlyArea(s.mem, s.mem.(data := data), s.sender.m)
    ensures g' == g.(chart := AreaChart(s.mem, g.chart, s.sender.m))
    ensures RingOk(s.mem.(data := data), g'.chart) && AllOk(s.mem.(data := data), g'.chart, s.readers, g'.trails)
  {
    var mem', m := s.mem.(data := data), s.sender.m;
    g' := g.(chart := AreaChart(s.mem, g.chart, m));
    AreaRing(s.mem, mem', g.chart, m);
    forall i | 0 <= i < |s.readers|
      ensures ReaderOk(mem', g'.chart, s.readers[i], g.trails[i])
    {
      AreaReader(s.mem, mem', g.chart, m, s.readers[i], g.trails[i]);
    }
  }

  /** The size tag is in place. */
  lemma TagStored(mem: Memory, c: Chart, m: message)
    requires |m| < 0x1_0000_0000 && mem.write.pos + Total(|m|) <= |mem.data|
    ensures var mem' := mem.(data := PutTag(mem.data, mem.write.pos, |m|));
            OnlyArea(mem, mem', m) && Stored(mem', AreaChart(mem, c, m), m, {})
  {}

  lemma AreaTagKeeps(s: State, g: Shadow) returns (g': Shadow)
    requires Inv(s, g) && s.sender.AreaLoad? && s.sender.i >= |s.readers|
    ensures Inv(Step(s, Publisher), g') && g' == NextShadow(s, g, Publisher)
  {
    var m := s.sender.m;
    var data := PutTag(s.mem.data, s.mem.write.pos, |m|);
    TagStored(s.mem, g.chart, m);
    g' := AreaKeeps(s, g, data);
    InvOf(Step(s, Publisher), g', s.mem.(data := data), g'.chart, Storing(m, {}));
  }

  /** One more byte of the frame is in place. */
  lemma ByteStored(mem: Memory, c: Chart, m: message, stored: set<nat>, k: nat)
    requires Stored(mem, c, m, stored) && k < |m|
    ensures var mem' := mem.(data := mem.data[mem.write.pos + 8 + k := m[k]]);
            OnlyArea(mem, mem', m) && Stored(mem', AreaChart(mem, c, m), m, stored + {k})
  {
    var mem' := mem.(data := mem.data[mem.write.pos + 8 + k := m[k]]);
    assert mem'.data[mem.write.pos..mem.write.pos + 8] == mem.data[mem.write.pos..mem.write.pos + 8];
  }

  lemma StoreByteStepKeeps(s: State, g: Shadow, k: nat) returns (g': Shadow)
    requires Inv(s, g)
    ensures Inv(Step(s, StoreByte(k)), g') && g' == NextShadow(s, g, StoreByte(k))
  {
    g' := g;
    if s.sender.Storing? && k < |s.sender.m| {
      ByteStored(s.mem, g.chart, s.sender.m, s.sender.stored, k);
      var data := s.mem.data[s.mem.write.pos + 8 + k := s.sender.m[k]];
      g' := AreaKeeps(s, g, data);
      InvOf(Step(s, StoreByte(k)), g', s.mem.(data := data), g'.chart, s.sender.(stored := s.sender.stored + {k}));
    }
  }

  lemma PublishAll(s: State, g: Shadow, m: message)
    requires Inv(s, g) && s.sender.Storing? && m == s.sender.m
    requires FrameAt(s.mem.data, s.mem.write.pos, m)
    ensures RingOk(PublishMemory(s.mem, m), PublishChart(s.mem, g.chart))
    ensures AllOk(PublishMemory(s.mem, m), PublishChart(s.mem, g.chart), s.readers, g.trails)
  {
    PublishRing(s.mem, g.chart, m, s.sender.stored);
    forall i | 0 <= i < |s.readers|
      ensures ReaderOk(PublishMemory(s.mem, m), PublishChart(s.mem, g.chart), s.readers[i], g.trails[i])
    {
      PublishReader(s.mem, g.chart, m, s.sender.stored, s.readers[i], g.trails[i]);
    }
  }

  lemma PublishStepKeeps(s: State, g: Shadow) returns (g': Shadow)
    requires Inv(s, g) && s.sender.Storing?
    ensures Inv(Step(s, Publisher), g') && g' == NextShadow(s, g, Publisher)
  {
    g' := g;
    var m, stored := s.sender.m, s.sender.stored;
    if forall k: nat :: k < |m| ==> k in stored {
      g' := g.(chart := PublishChart(s.mem, g.chart));
      StoredIsFrame(s.mem, g.chart, m, stored);
      PublishAll(s, g, m);
      AlignAfter(s.mem.write.pos, |m| + 8);
      InvOf(Step(s, Publisher), g', PublishMemory(s.mem, m), g'.chart, Idle);
    }
  }

  lemma StepKeeps(s: State, g: Shadow, a: Action) returns (g': Shadow)
    requires Inv(s, g)
    ensures Inv(Step(s, a), g') && g' == NextShadow(s, g, a)
  {
    match a
    case Begin(m) => g' := BeginStepKeeps(s, g, m);
    case StoreByte(k) => g' := StoreByteStepKeeps(s, g, k);
    case CopyByte(i, k) => g' := CopyByteStepKeeps(s, g, i, k);
    case Subscriber(i) => g' := SubscriberStepKeeps(s, g, i);
    case Publisher =>
      match s.sender
      case Idle => g' := g;
      case WrapLoad(_, _) => g' := WrapStepKeeps(s, g);
      case WrapStore(_, _) => g' := WrapStepKeeps(s, g);
      case AreaLoad(_, i) =>
        if i < |s.readers| {
          AreaLoadKeeps(s, g);
          g' := g;
        } else {
          g' := AreaTagKeeps(s, g);
        }
      case AreaStore(_, _) =>
        AreaStoreKeeps(s, g);
        g' := g;
      case Storing(_, _) => g' := PublishStepKeeps(s, g);
  }

  lemma {:induction false} RunKeeps(s: State, run: seq<Action>) returns (g: Shadow)
    requires Fresh(s)
    ensures Inv(Run(s, run), g)
  {
    if run == [] {
      g := Shadow(Chart(map[], 0), seq(|s.readers|, _ => Trail(0, [])));
    } else {
      g := RunKeeps(s, run[..|run| - 1]);
      g := StepKeeps(Run(s, run[..|run| - 1]), g, run[|run| - 1]);
    }
  }

  /** In every run, however the publisher and the subscribers interleave, what a subscriber has received is,
      byte for byte, some of the messages published, in the order they were published and none of them
      twice. No size a subscriber reads fails its assertions, and neither side leaves the ring. */
  lemma RunsDeliverWholeMessages(s: State, run: seq<Action>)
    requires Fresh(s)
    ensures var s' := Run(s, run);
            && !s'.sender.Faulted?
            && forall i :: 0 <= i < |s'.readers| ==>
                 && !s'.readers[i].pc.Crashed?
                 && exists idx :: Picks(idx, s'.readers[i].delivered, s'.mem.sent)
  {
    var g := RunKeeps(s, run);
    var s' := Run(s, run);
    forall i | 0 <= i < |s'.readers|
      ensures !s'.readers[i].pc.Crashed? && exists idx :: Picks(idx, s'.readers[i].delivered, s'.mem.sent)
    {
      assert ReaderOk(s'.mem, g.chart, s'.readers[i], g.trails[i]);
    }
  }
}
