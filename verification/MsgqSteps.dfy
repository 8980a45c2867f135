/** msgq_msg_send and msgq_msg_recv cut into their shared loads and stores, so that one publisher and any
    number of subscribers can run them at the same time: a state machine whose every step touches shared
    memory at most once, except that a reset loads the write pointer and stores flag and pointer in one. */
module MsgqSteps {
  import opened MsgqLayout
  import opened MsgqCalls

  /** What only the publisher stores to, apart from the validity flags, and the messages published so far. */
  datatype Memory = Memory(data: seq<octet>, write: Cursor, sent: log)

  /** Where the publisher is in msgq_msg_send; i is the reader its loop looks at. */
  datatype Sender =
    | Idle
    | WrapLoad(m: message, i: nat)
    | WrapStore(m: message, i: nat)
    | AreaLoad(m: message, i: nat)
    | AreaStore(m: message, i: nat)
    | Storing(m: message, stored: set<nat>)
    | Faulted

  /** Where a subscriber is in msgq_msg_recv, with the locals it still needs. */
  datatype Pc =
    | Start
    | Resetting
    | LoadRead
    | LoadWrite(read: Cursor)
    | LoadSize(read: Cursor, end: nat)
    | Check(read: Cursor, end: nat, tag: int)
    | StoreWrap(read: Cursor)
    | StoreSkip(read: Cursor, size: nat)
    | Copying(read: Cursor, size: nat, copied: map<nat, octet>)
    | Confirm(m: message)
    | Crashed

  /** A subscriber: its read pointer and validity flag in shared memory, and the messages it has received. */
  datatype Reader = Reader(cursor: Cursor, valid: bool, conflate: bool, pc: Pc, delivered: seq<message>)

  datatype State = State(mem: Memory, sender: Sender, readers: seq<Reader>)

  /** What may happen next: the publisher is handed a message, stores one of its bytes, or takes its next
      step; a subscriber copies one byte, or takes its next step. Bytes are stored and copied in any order. */
  datatype Action = Begin(m: message) | StoreByte(k: nat) | Publisher | CopyByte(i: nat, k: nat) | Subscriber(i: nat)

  // ----- the publisher -----

  function BeginStep(s: State, m: message): State {
    if !s.sender.Idle? || m == [] || !Fits(|s.mem.data|, m) then s
    else if !Crowded(|s.mem.data|, s.mem.write.pos, m) then s.(sender := AreaLoad(m, 0))
    else if s.mem.write.pos + 8 > |s.mem.data| then s.(sender := Faulted)
    else s.(mem := s.mem.(data := PutTag(s.mem.data, s.mem.write.pos, -1)), sender := WrapLoad(m, 0))
  }

  /** The reader is beyond the wrap tag, in another cycle. */
  predicate Beyond(write: Cursor, read: Cursor) {
    read.pos > write.pos && read.cycles != write.cycles
  }

  /** The reader is in the area about to be written, in another cycle. */
  predicate InArea(write: Cursor, read: Cursor, m: message) {
    write.pos <= read.pos < Align(write.pos + 8 + |m|) && read.cycles != write.cycles
  }

  function Invalidated(s: State, i: nat): seq<Reader> {
    if i < |s.readers| then s.readers[i := s.readers[i].(valid := false)] else s.readers
  }

  function PublisherStep(s: State): State {
    var write := s.mem.write;
    match s.sender
    case WrapLoad(m, i) =>
      if i < |s.readers| then
        s.(sender := if Beyond(write, s.readers[i].cursor) then WrapStore(m, i) else WrapLoad(m, i + 1))
      else
        s.(mem := s.mem.(write := Cursor(write.cycles + 1, 0)), sender := AreaLoad(m, 0))
    case WrapStore(m, i) => s.(readers := Invalidated(s, i), sender := WrapLoad(m, i + 1))
    case AreaLoad(m, i) =>
      if i < |s.readers| then
        s.(sender := if InArea(write, s.readers[i].cursor, m) then AreaStore(m, i) else AreaLoad(m, i + 1))
      else if write.pos + 8 > |s.mem.data| || |m| >= 0x1_0000_0000 then
        s.(sender := Faulted)
      else
        s.(mem := s.mem.(data := PutTag(s.mem.data, write.pos, |m|)), sender := Storing(m, {}))
    case AreaStore(m, i) => s.(readers := Invalidated(s, i), sender := AreaLoad(m, i + 1))
    case Storing(m, stored) =>
      if forall k: nat :: k < |m| ==> k in stored then
        s.(mem := s.mem.(write := Cursor(write.cycles, Align(write.pos + |m| + 8)), sent := s.mem.sent + [m]),
           sender := Idle)
      else s
    case _ => s
  }

  function StoreByteStep(s: State, k: nat): State {
    if !s.sender.Storing? || k >= |s.sender.m| then s
    else if s.mem.write.pos + 8 + k >= |s.mem.data| then s.(sender := Faulted)
    else s.(mem := s.mem.(data := s.mem.data[s.mem.write.pos + 8 + k := s.sender.m[k]]),
            sender := s.sender.(stored := s.sender.stored + {k}))
  }

  // ----- a subscriber -----

  /** new_read_pointer */
  function After(read: Cursor, size: nat): Cursor {
    Cursor(read.cycles, Align(read.pos + 8 + size))
  }

  function ReaderStep(mem: Memory, r: Reader): Reader {
    match r.pc
    case Start => r.(pc := if r.valid then LoadRead else Resetting)
    case Resetting => r.(valid := true, cursor := mem.write, pc := Start)
    case LoadRead => r.(pc := LoadWrite(r.cursor))
    case LoadWrite(read) => r.(pc := if read.pos == mem.write.pos then Start else LoadSize(read, mem.write.pos))
    case LoadSize(read, end) =>
      r.(pc := if read.pos + 8 <= |mem.data| then Check(read, end, TagAt(mem.data, read.pos)) else Crashed)
    case Check(read, end, tag) =>
      r.(pc := if !r.valid then Resetting
               else if tag == -1 then StoreWrap(read)
               else if !(0 < tag < |mem.data|) then Crashed
               else if r.conflate && After(read, tag).pos != end then StoreSkip(read, tag)
               else Copying(read, tag, map[]))
    case StoreWrap(read) => r.(cursor := Cursor(read.cycles + 1, 0), pc := Start)
    case StoreSkip(read, size) => r.(cursor := After(read, size), pc := Start)
    case Copying(read, size, copied) =>
      if forall k: nat :: k < size ==> k in copied then
        r.(cursor := After(read, size), pc := Confirm(seq(size, k requires 0 <= k < size => copied[k])))
      else r
    case Confirm(m) => if r.valid then r.(delivered := r.delivered + [m], pc := Start) else r.(pc := Resetting)
    case Crashed => r
  }

  function CopyByteStep(mem: Memory, r: Reader, k: nat): Reader {
    if !r.pc.Copying? || k >= r.pc.size then r
    else if r.pc.read.pos + 8 + k >= |mem.data| then r.(pc := Crashed)
    else r.(pc := r.pc.(copied := r.pc.copied[k := mem.data[r.pc.read.pos + 8 + k]]))
  }

  // ----- runs -----

  function Step(s: State, a: Action): (s': State)
    ensures |s'.readers| == |s.readers|
  {
    match a
    case Begin(m) => BeginStep(s, m)
    case StoreByte(k) => StoreByteStep(s, k)
    case Publisher => PublisherStep(s)
    case CopyByte(i, k) =>
      if i < |s.readers| then s.(readers := s.readers[i := CopyByteStep(s.mem, s.readers[i], k)]) else s
    case Subscriber(i) =>
      if i < |s.readers| then s.(readers := s.readers[i := ReaderStep(s.mem, s.readers[i])]) else s
  }

  function Run(s: State, run: seq<Action>): (s': State)
    ensures |s'.readers| == |s.readers|
  {
    if run == [] then s else Step(Run(s, run[..|run| - 1]), run[|run| - 1])
  }

  /** A new queue whose subscribers have just connected. */
  predicate Fresh(s: State) {
    && |s.mem.data| < 0xFFFF_FFFF && s.mem.write == Cursor(0, 0) && s.mem.sent == [] && s.sender.Idle?
    && forall i :: 0 <= i < |s.readers| ==>
         var r := s.readers[i];
         r.cursor == Cursor(0, 0) && r.valid && r.pc.Start? && r.delivered == []
  }
}
