/**
 One writer and one reader running write1 and read1 at the same time on a shared ring.

 Every access to a shared cursor or to a byte of the array is a step of its own, and any
 interleaving of the two sides' steps is a run. The writer's refusal test reads `tail` four
 times, as the code does; the reader's test reads `head` twice.
 */
module RingInterleaved {
  import opened Bytes
  import opened RingLayout
  import opened RingOccupancy
  import opened RingRefusal
  import opened RingFifo

  datatype Writer =
    | Idle
    | Checking(data: Record, seen: seq<nat>)    // values of tail read so far
    | Storing(data: Record, k: nat)              // bytes stored so far, length bytes first

  datatype Reader =
    | Waiting
    | Sampled(h1: nat)       // first value of head
    | Passed                 // the emptiness test found a record
    | Loaded(len: nat)       // the length has been read

  /** `queue`, `sent` and `received` record what has been published; `wild` that some access
      fell outside the array. No step's choice depends on them. */
  datatype System = System(mem: seq<Byte>, head: nat, tail: nat, writer: Writer, reader: Reader,
                           queue: seq<seq<Byte>>, sent: seq<seq<Byte>>, received: seq<seq<Byte>>, wild: bool)

  datatype Action =
    | BeginWrite(data: Record) | ReadTail | Decide | StoreByte | PublishHead
    | SampleHead | TestHead | LoadLen | PublishTail

  function Start(mem: seq<Byte>): System {
    System(mem, 0, 0, Idle, Waiting, [], [], [], false)
  }

  function WriterStep(s: System, a: Action): System {
    match (a, s.writer)
    case (BeginWrite(data), Idle) => s.(writer := Checking(data, [s.tail]))
    case (ReadTail, Checking(data, seen)) =>
      if |seen| < 4 then s.(writer := Checking(data, seen + [s.tail])) else s
    case (Decide, Checking(data, seen)) =>
      if |seen| != 4 then s
      else if RefusesReads(|s.mem|, s.head, |data|, seen[0], seen[1], seen[2], seen[3]) then s.(writer := Idle)
      else s.(writer := Storing(data, 0))
    case (StoreByte, Storing(data, k)) =>
      if k >= 2 + |data| then s
      else if Cell(|s.mem|, s.head, |data|, k) >= |s.mem| then s.(wild := true)
      else s.(mem := s.mem[Cell(|s.mem|, s.head, |data|, k) := CellByte(data, k)], writer := Storing(data, k + 1))
    case (PublishHead, Storing(data, k)) =>
      if k != 2 + |data| then s
      else s.(head := Next(|s.mem|, s.head, |data|), writer := Idle, queue := s.queue + [data], sent := s.sent + [data])
    case _ => s
  }

  function ReaderStep(s: System, a: Action): System {
    match (a, s.reader)
    case (SampleHead, Waiting) => s.(reader := Sampled(s.head))
    case (TestHead, Sampled(h1)) =>
      if s.tail <= h1 && s.tail + 2 > s.head then s.(reader := Waiting) else s.(reader := Passed)
    case (LoadLen, Passed) =>
      var lp := LenPos(|s.mem|, s.tail);
      if lp + 1 >= |s.mem| then s.(wild := true)
      else s.(reader := Loaded(Load16(s.mem[lp], s.mem[lp + 1])))
    case (PublishTail, Loaded(len)) =>
      var bp := BodyPos(|s.mem|, s.tail, len);
      if bp + len >= |s.mem| || s.queue == [] then s.(wild := true)
      else s.(tail := bp + len, reader := Waiting, queue := s.queue[1..],
              received := s.received + [s.mem[bp..bp + len]])
    case _ => s
  }

  function Step(s: System, a: Action): System {
    if a.SampleHead? || a.TestHead? || a.LoadLen? || a.PublishTail? then ReaderStep(s, a) else WriterStep(s, a)
  }

  function Exec(s: System, acts: seq<Action>): System
    decreases |acts|
  {
    if acts == [] then s else Exec(Step(s, acts[0]), acts[1..])
  }

  // ---------- what every step keeps ----------

  ghost predicate WriterOk(mem: seq<Byte>, tail: nat, head: nat, writer: Writer) {
    match writer
    case Idle => true
    case Checking(data, seen) =>
      && 1 <= |seen| <= 4
      && forall i | 0 <= i < |seen| ::
           && seen[i] < |mem|
           && Ahead(|mem|, seen[0], head, seen[i])
           && Ahead(|mem|, seen[i], head, tail)
    case Storing(data, k) =>
      && k <= 2 + |data|
      && CanWrite(|mem|, tail, head, |data|)
      && forall j: nat | j < k ::
           var c := Cell(|mem|, head, |data|, j);
           c < |mem| && mem[c] == CellByte(data, j)
  }

  ghost predicate ReaderOk(tail: nat, queue: seq<seq<Byte>>, reader: Reader) {
    match reader
    case Waiting => true
    case Sampled(h1) => h1 != tail ==> queue != []
    case Passed => queue != []
    case Loaded(len) => queue != [] && len == |queue[0]|
  }

  ghost predicate Inv(s: System) {
    && !s.wild
    && s.head < |s.mem| && s.tail < |s.mem|
    && Chain(s.mem, s.tail, s.head, s.queue)
    && s.received + s.queue == s.sent
    && WriterOk(s.mem, s.tail, s.head, s.writer)
    && ReaderOk(s.tail, s.queue, s.reader)
  }

  // ---------- one lemma for each kind of step ----------

  /** This step begins a call of write1. */
  predicate Begins(s: System, a: Action) {
    a.BeginWrite? && s.writer == Idle
  }

  /** SafeToTest of the state in which the call begins. */
  predicate MayBegin(s: System, data: Record) {
    SafeToTest(|s.mem|, s.tail, s.head, s.queue, |data|)
  }

  /** What SafeToTest leaves behind while the writer is at its test. */
  predicate Guarded(s: System) {
    match s.writer
    case Checking(data, seen) =>
      && seen != []
      && (seen[0] <= s.head || s.head + 2 + |data| < |s.mem| || LandsClear(|s.mem|, s.tail, s.head, s.queue, |data|))
    case _ => true
  }

  /** Torn reads or not, what passes a guarded test has room. */
  lemma GuardedDecision(s: System)
    requires Inv(s) && Guarded(s) && s.writer.Checking? && |s.writer.seen| == 4
    requires !RefusesReads(|s.mem|, s.head, |s.writer.data|, s.writer.seen[0], s.writer.seen[1], s.writer.seen[2],
        s.writer.seen[3])
    ensures CanWrite(|s.mem|, s.tail, s.head, |s.writer.data|)
  {
    var r, size := s.writer.seen, |s.mem|;
    assert Ahead(size, r[0], s.head, r[1]) && Ahead(size, r[0], s.head, s.tail);
    assert Ahead(size, r[1], s.head, s.tail) && Ahead(size, r[2], s.head, s.tail) && Ahead(size, r[3], s.head, s.tail);
    hide Chain;
    if !(Torn(s.head, r[0], r[2]) && Wraps(size, s.head, |s.writer.data|)) {
      UntornTestIsSafe(size, s.head, |s.writer.data|, r[0], r[1], r[2], r[3], s.tail);
    }
  }

  lemma CheckSteps(s: System, a: Action)
    requires Inv(s) && (a.BeginWrite? || a.ReadTail? || a.Decide?)
    requires a.Decide? && s.writer.Checking? && |s.writer.seen| == 4 ==>
               var r, size, len := s.writer.seen, |s.mem|, |s.writer.data|;
               RefusesReads(size, s.head, len, r[0], r[1], r[2], r[3]) || CanWrite(size, s.tail, s.head, len)
    ensures Inv(Step(s, a))
  {
    hide Chain, RefusesReads, CanWrite;
  }

  /** A byte of a record in flight never touches a queued record, nor a byte already stored. */
  lemma StoreStep(s: System)
    requires Inv(s)
    ensures Inv(Step(s, StoreByte))
  {
    if s.writer.Storing? && s.writer.k < 2 + |s.writer.data| {
      var data, k, size := s.writer.data, s.writer.k, |s.mem|;
      WriteFrame(size, s.tail, s.head, |data|);
      var c := Cell(size, s.head, |data|, k);
      assert c < size && !Occupied(size, s.tail, s.head, c);
      var s' := Step(s, StoreByte);
      ChainFrame(s.mem, s'.mem, s.tail, s.head, s.queue);
      forall j: nat | j < k + 1
        ensures Cell(size, s.head, |data|, j) < size && s'.mem[Cell(size, s.head, |data|, j)] == CellByte(data, j)
      {
      }
    }
  }

  /** All bytes stored: the record is there. */
  lemma StoredRecord(mem: seq<Byte>, tail: nat, head: nat, data: Record)
    requires tail < |mem| && head < |mem| && CanWrite(|mem|, tail, head, |data|)
    requires forall j: nat | j < 2 + |data| ::
               var c := Cell(|mem|, head, |data|, j);
               c < |mem| && mem[c] == CellByte(data, j)
    ensures RecordAt(mem, head, data)
  {
    WriteFrame(|mem|, tail, head, |data|);
    var bp := BodyPos(|mem|, head, |data|);
    assert mem[Cell(|mem|, head, |data|, 0)] == CellByte(data, 0);
    assert mem[Cell(|mem|, head, |data|, 1)] == CellByte(data, 1);
    forall i | 0 <= i < |data|
      ensures mem[bp..bp + |data|][i] == data[i]
    {
      assert Cell(|mem|, head, |data|, 2 + i) == bp + i;
    }
  }

  lemma PublishHeadStep(s: System)
    requires Inv(s)
    ensures Inv(Step(s, PublishHead))
  {
    if s.writer.Storing? && s.writer.k == 2 + |s.writer.data| {
      var data := s.writer.data;
      StoredRecord(s.mem, s.tail, s.head, data);
      WriteFrame(|s.mem|, s.tail, s.head, |data|);
      ChainAppend(s.mem, s.tail, s.head, s.queue, data);
      assert s.received + (s.queue + [data]) == s.sent + [data];
    }
  }

  /** Both values of head may differ; a record is there all the same. */
  lemma TestSteps(s: System, a: Action)
    requires Inv(s) && (a.SampleHead? || a.TestHead? || a.LoadLen?)
    ensures Inv(Step(s, a))
  {
    assert s.queue == [] ==> s.tail == s.head;
    assert s.queue != [] ==> s.tail != s.head && RecordAt(s.mem, s.tail, s.queue[0]);
    hide Chain;
  }

  /** The reader's move of tail keeps the room a writer has found and the order of its reads. */
  lemma AdvanceKeepsWriter(s: System, tail': nat)
    requires Inv(s) && s.queue != [] && tail' == Next(|s.mem|, s.tail, |s.queue[0]|)
    ensures WriterOk(s.mem, tail', s.head, s.writer)
    ensures tail' < |s.mem| && Ahead(|s.mem|, s.tail, s.head, tail')
  {
    assert RecordAt(s.mem, s.tail, s.queue[0]);
    if s.writer.Storing? {
      RoomGrows(|s.mem|, s.tail, s.head, |s.writer.data|, s.mem, s.queue);
    }
  }

  /** The oldest record, as the reader finds it. */
  lemma FrontRecord(s: System)
    requires Inv(s) && s.queue != []
    ensures var size, len := |s.mem|, |s.queue[0]|;
            var lp, bp := LenPos(size, s.tail), BodyPos(size, s.tail, len);
            && lp + 1 < size && Load16(s.mem[lp], s.mem[lp + 1]) == len
            && bp + len < size && s.mem[bp..bp + len] == s.queue[0]
            && !(s.tail <= s.head && s.tail + 2 > s.head)
            && Chain(s.mem, bp + len, s.head, s.queue[1..])
  {
    hide WriterOk, ReaderOk;
    assert RecordAt(s.mem, s.tail, s.queue[0]);
  }

  lemma LoadLenIs(s: System, lp: nat, len: nat)
    requires s.reader == Passed && lp == LenPos(|s.mem|, s.tail) && lp + 1 < |s.mem|
    requires Load16(s.mem[lp], s.mem[lp + 1]) == len
    ensures Step(s, LoadLen) == s.(reader := Loaded(len))
  {
    hide LenPos, Load16;
  }

  lemma MoveAcross(received: seq<seq<Byte>>, queue: seq<seq<Byte>>)
    requires queue != []
    ensures (received + [queue[0]]) + queue[1..] == received + queue
  {
  }

  lemma PublishTailIs(s: System, bp: nat, r: seq<Byte>)
    requires s.reader == Loaded(|r|) && s.queue != [] && s.queue[0] == r
    requires bp == BodyPos(|s.mem|, s.tail, |r|) && bp + |r| < |s.mem| && s.mem[bp..bp + |r|] == r
    ensures Step(s, PublishTail) == s.(tail := bp + |r|, reader := Waiting, queue := s.queue[1..],
        received := s.received + [r])
  {
    hide BodyPos;
  }

  /** The record is intact at the moment its tail advance is published. */
  lemma PublishTailStep(s: System)
    requires Inv(s)
    ensures Inv(Step(s, PublishTail))
    ensures s.reader.Loaded? ==> Step(s, PublishTail).received == s.received + [s.queue[0]]
  {
    if s.reader.Loaded? {
      var bp, r := BodyPos(|s.mem|, s.tail, s.reader.len), s.queue[0];
      FrontRecord(s);
      AdvanceKeepsWriter(s, bp + |r|);
      PublishTailIs(s, bp, r);
      MoveAcross(s.received, s.queue);
      hide Chain, WriterOk, BodyPos, LenPos, Step, Load16, Ahead;
    }
  }

  /** Every step of either side but the decision keeps the invariant. */
  lemma OtherStepKeepsInv(s: System, a: Action)
    requires Inv(s) && a != Decide
    ensures Inv(Step(s, a)) && |Step(s, a).mem| == |s.mem|
  {
    match a
    case StoreByte => StoreStep(s);
    case PublishHead => PublishHeadStep(s);
    case PublishTail => PublishTailStep(s);
    case SampleHead => TestSteps(s, a);
    case TestHead => TestSteps(s, a);
    case LoadLen => TestSteps(s, a);
    case _ => CheckSteps(s, a);
  }

  lemma DecideStep(s: System)
    requires Inv(s) && Guarded(s)
    ensures Inv(Step(s, Decide)) && |Step(s, Decide).mem| == |s.mem|
  {
    if s.writer.Checking? && |s.writer.seen| == 4 {
      var r := s.writer.seen;
      if !RefusesReads(|s.mem|, s.head, |s.writer.data|, r[0], r[1], r[2], r[3]) {
        GuardedDecision(s);
      }
    }
    CheckSteps(s, Decide);
  }

  /** The guard stays while the reader moves on. */
  lemma GuardStays(s: System, a: Action)
    requires Inv(s) && Guarded(s) && (Begins(s, a) ==> MayBegin(s, a.data))
    ensures Guarded(Step(s, a))
  {
    if a == PublishTail {
      GuardStaysBehind(s);
    } else {
      hide Inv, LandsClear, BodyPos, LenPos, Load16, RefusesReads;
    }
  }

  lemma GuardStaysBehind(s: System)
    requires Inv(s) && Guarded(s)
    ensures Guarded(Step(s, PublishTail))
  {
    if s.reader.Loaded? && s.writer.Checking? {
      FrontRecord(s);
      PublishTailIs(s, BodyPos(|s.mem|, s.tail, s.reader.len), s.queue[0]);
      if LandsClear(|s.mem|, s.tail, s.head, s.queue, |s.writer.data|) {
        ClearStays(s.mem, s.tail, s.head, s.queue, |s.writer.data|);
      }
    }
    hide Inv, LandsClear;
  }

  lemma StepKeepsInv(s: System, a: Action)
    requires Inv(s) && Guarded(s) && (Begins(s, a) ==> MayBegin(s, a.data))
    ensures Inv(Step(s, a)) && Guarded(Step(s, a)) && |Step(s, a).mem| == |s.mem|
  {
    hide Inv, Step, MayBegin;
    GuardStays(s, a);
    if a == Decide {
      DecideStep(s);
    } else {
      OtherStepKeepsInv(s, a);
    }
  }

  // ---------- every run ----------

  /** Every call of write1 begins in a state that SafeToTest allows. */
  predicate BegunSafely(s: System, acts: seq<Action>)
    decreases |acts|
  {
    acts == [] || ((Begins(s, acts[0]) ==> MayBegin(s, acts[0].data)) && BegunSafely(Step(s, acts[0]), acts[1..]))
  }

  lemma {:induction false} RunKeepsInv(s: System, acts: seq<Action>)
    requires Inv(s) && Guarded(s) && BegunSafely(s, acts)
    ensures Inv(Exec(s, acts)) && Guarded(Exec(s, acts)) && |Exec(s, acts).mem| == |s.mem|
    decreases |acts|
  {
    if acts != [] {
      hide Inv, Guarded, Step, Begins, MayBegin;
      StepKeepsInv(s, acts[0]);
      RunKeepsInv(Step(s, acts[0]), acts[1..]);
    }
  }

  /** The array holds what is queued, no access has left it, and nothing is lost or doubled. */
  ghost predicate Sound(s: System) {
    && !s.wild
    && Chain(s.mem, s.tail, s.head, s.queue)
    && s.received + s.queue == s.sent
  }

  /** Safety over every interleaving whose writes begin safely: no access leaves the array, the
      bytes between tail and head are the queued records, and what the reader got is, record by
      record and byte for byte, a prefix of what the writer sent. */
  lemma InterleavedSafety(mem: seq<Byte>, acts: seq<Action>)
    requires mem != [] && BegunSafely(Start(mem), acts)
    ensures var s := Exec(Start(mem), acts); Sound(s) && s.received <= s.sent
  {
    RunKeepsInv(Start(mem), acts);
  }

  // ---------- a writer that reads tail once ----------

  /** As Step, but write1 begins with one snapshot of tail, which serves for all four reads. */
  function SnapshotStep(s: System, a: Action): System {
    if Begins(s, a) then s.(writer := Checking(a.data, [s.tail, s.tail, s.tail, s.tail])) else Step(s, a)
  }

  function SnapshotExec(s: System, acts: seq<Action>): System
    decreases |acts|
  {
    if acts == [] then s else SnapshotExec(SnapshotStep(s, acts[0]), acts[1..])
  }

  predicate OneSnapshot(s: System) {
    match s.writer
    case Checking(_, seen) => |seen| == 4 && seen[0] == seen[1] == seen[2] == seen[3]
    case _ => true
  }

  lemma SnapshotDecision(s: System)
    requires Inv(s) && OneSnapshot(s)
    ensures Inv(Step(s, Decide)) && |Step(s, Decide).mem| == |s.mem|
  {
    if s.writer.Checking? {
      var r, size := s.writer.seen, |s.mem|;
      assert Ahead(size, r[0], s.head, r[1]) && Ahead(size, r[0], s.head, s.tail);
      if !RefusesReads(size, s.head, |s.writer.data|, r[0], r[1], r[2], r[3]) {
        UntornTestIsSafe(size, s.head, |s.writer.data|, r[0], r[1], r[2], r[3], s.tail);
      }
    }
    CheckSteps(s, Decide);
  }

  lemma SnapshotStepKeepsInv(s: System, a: Action)
    requires Inv(s) && OneSnapshot(s)
    ensures Inv(SnapshotStep(s, a)) && OneSnapshot(SnapshotStep(s, a)) && |SnapshotStep(s, a).mem| == |s.mem|
  {
    if a == Decide {
      SnapshotDecision(s);
    } else if !Begins(s, a) {
      OtherStepKeepsInv(s, a);
    }
    hide Chain;
  }

  lemma {:induction false} SnapshotRunKeepsInv(s: System, acts: seq<Action>)
    requires Inv(s) && OneSnapshot(s)
    ensures Inv(SnapshotExec(s, acts))
    decreases |acts|
  {
    if acts != [] {
      hide Inv, OneSnapshot, SnapshotStep;
      SnapshotStepKeepsInv(s, acts[0]);
      SnapshotRunKeepsInv(SnapshotStep(s, acts[0]), acts[1..]);
    }
  }

  /** With one snapshot of tail every interleaving is safe, without any condition. */
  lemma SnapshotSafety(mem: seq<Byte>, acts: seq<Action>)
    requires mem != []
    ensures var s := SnapshotExec(Start(mem), acts); Sound(s) && s.received <= s.sent
  {
    SnapshotRunKeepsInv(Start(mem), acts);
  }
}
