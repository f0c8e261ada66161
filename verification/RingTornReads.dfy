/** What interleaving can do to a write that begins at the wrong moment: runs of the steps,
    and exactly when they go wrong. */
module RingTornReads {
  import opened Bytes
  import opened RingLayout
  import opened RingOccupancy
  import opened RingFifo
  import opened RingRefusal
  import opened RingInterleaved
  import opened RingSolo

  // ---------- a run that goes wrong ----------

  ghost predicate Reaches(s: System, s': System) {
    exists acts :: Exec(s, acts) == s'
  }

  lemma ReachSelf(s: System)
    ensures Reaches(s, s)
  {
    assert Exec(s, []) == s;
  }

  lemma ReachBy(s: System, m: System, acts: seq<Action>, m': System)
    requires Reaches(s, m) && Exec(m, acts) == m'
    ensures Reaches(s, m')
  {
    hide Exec;
    var before :| Exec(s, before) == m;
    ExecBoth(s, before, acts);
    assert Exec(s, before + acts) == m';
  }

  lemma Reach(s: System, m: System, a: Action, m': System)
    requires Reaches(s, m) && Step(m, a) == m'
    ensures Reaches(s, m')
  {
    hide Exec, Reaches, Step;
    ExecOne(m, a);
    ReachBy(s, m, [a], m');
  }

  /** A call of write1 that is not disturbed leads on, and keeps the invariant if it begins safely. */
  lemma WriteOn(start: System, s: System, data: Record, mem: seq<Byte>, head: nat, q: seq<seq<Byte>>,
      sent: seq<seq<Byte>>)
    requires Reaches(start, s) && Inv(s) && s.writer == Idle
    requires MayBegin(s, data) && !Refuses(|s.mem|, s.tail, s.head, |data|)
    requires RecordFits(s.mem, s.head, |data|) && mem == Store(s.mem, s.head, data)
    requires head == Next(|s.mem|, s.head, |data|) && q == s.queue + [data] && sent == s.sent + [data]
    ensures Reaches(start, s.(mem := mem, head := head, queue := q, sent := sent))
    ensures Inv(s.(mem := mem, head := head, queue := q, sent := sent))
  {
    BeginsSafely(s, data);
    assert Guarded(s);
    hide *;
    SoloAccepted(s, data);
    ReachBy(start, s, WriteCall(data), Exec(s, WriteCall(data)));
    RunKeepsInv(s, WriteCall(data));
  }

  lemma BeginsSafely(s: System, data: Record)
    requires MayBegin(s, data)
    ensures BegunSafely(s, WriteCall(data))
  {
    hide MayBegin, Step, Exec;
    var acts := WriteCall(data);
    var rest := [ReadTail, ReadTail, ReadTail, Decide] + Repeat(StoreByte, 2 + |data|) + [PublishHead];
    assert acts[0] == BeginWrite(data) && acts[1..] == rest;
    StoresDoNotBegin(2 + |data|);
    assert NoBegin(rest);
    NothingToBegin(Step(s, BeginWrite(data)), rest);
  }

  /** So does a call of read1. */
  lemma ReadOn(start: System, s: System, r: seq<Byte>, tail: nat, q: seq<seq<Byte>>, received: seq<seq<Byte>>)
    requires Reaches(start, s) && Inv(s) && s.writer == Idle && s.reader == Waiting
    requires s.queue == [r] + q && tail == Next(|s.mem|, s.tail, |r|) && received == s.received + [r]
    ensures Reaches(start, s.(tail := tail, queue := q, received := received))
    ensures Inv(s.(tail := tail, queue := q, received := received))
  {
    assert s.queue[1..] == q && s.queue[0] == r && Guarded(s) && NoBegin(READ_CALL);
    hide *;
    SoloFullRead(s, r);
    ReachBy(start, s, READ_CALL, Exec(s, READ_CALL));
    NothingToBegin(s, READ_CALL);
    RunKeepsInv(s, READ_CALL);
  }

  lemma StartIsOk(mem: seq<Byte>)
    requires mem != []
    ensures Reaches(Start(mem), Start(mem)) && Inv(Start(mem))
  {
    ReachSelf(Start(mem));
    hide Reaches;
  }

  /** Ring of five bytes, cleared. */
  function FiveBytes(): System {
    Start([0, 0, 0, 0, 0])
  }

  /** After one record has gone through it, it holds two empty records: one at 3, landing at 0, and
      one at 0. */
  function TornExample(): System {
    System([0, 0, 0, 0, 0], 2, 3, Idle, Waiting, [[], []], [[0], [], []], [[0]], false)
  }

  /** The same after the first of them has been read. */
  function TornExampleRead(w: Writer): System {
    System([0, 0, 0, 0, 0], 2, 0, w, Waiting, [[]], [[0], [], []], [[0], []], false)
  }

  function OneRecord(tail: nat, q: seq<seq<Byte>>, received: seq<seq<Byte>>): System {
    System([1, 0, 0, 0, 0], 3, tail, Idle, Waiting, q, [[0]], received, false)
  }

  function TwoSent(): System {
    System([1, 0, 0, 0, 0], 0, 3, Idle, Waiting, [[]], [[0], []], [[0]], false)
  }

  lemma FirstStore()
    ensures Store([0, 0, 0, 0, 0], 0, [0]) == [1, 0, 0, 0, 0]
  {
    hide Step, Exec, Chain;
  }

  lemma SecondStore()
    ensures Store([1, 0, 0, 0, 0], 3, []) == [1, 0, 0, 0, 0]
  {
    hide Step, Exec, Chain;
  }

  lemma ThirdStore()
    ensures Store([1, 0, 0, 0, 0], 0, []) == [0, 0, 0, 0, 0]
  {
    hide Step, Exec, Chain;
  }

  lemma FirstWrite()
    ensures Reaches(FiveBytes(), OneRecord(0, [[0]], [])) && Inv(OneRecord(0, [[0]], []))
  {
    var s := FiveBytes();
    StartIsOk(s.mem);
    FirstStore();
    assert RecordFits(s.mem, 0, 1) && Next(5, 0, 1) == 3;
    hide Reaches, Inv, Store, Next, RecordFits;
    assert s.queue + [[0]] == [[0]] && s.sent + [[0]] == [[0]];
    WriteOn(s, s, [0], [1, 0, 0, 0, 0], 3, [[0]], [[0]]);
  }

  lemma FirstRead()
    ensures Reaches(FiveBytes(), OneRecord(3, [], [[0]])) && Inv(OneRecord(3, [], [[0]]))
  {
    hide Reaches, Inv;
    FirstWrite();
    ReadOn(FiveBytes(), OneRecord(0, [[0]], []), [0], 3, [], [[0]]);
  }

  lemma SecondWrite()
    ensures Reaches(FiveBytes(), TwoSent()) && Inv(TwoSent())
  {
    hide Reaches, Inv;
    FirstRead();
    var s := OneRecord(3, [], [[0]]);
    SecondStore();
    assert s.queue + [[]] == [[]] && s.sent + [[]] == [[0], []];
    hide Store;
    WriteOn(FiveBytes(), s, [], s.mem, 0, [[]], [[0], []]);
  }

  /** The example can be reached by calls in turn. */
  lemma ThirdWrite()
    ensures Reaches(FiveBytes(), TornExample())
  {
    hide Reaches, Inv;
    SecondWrite();
    var s := TwoSent();
    ThirdStore();
    assert s.queue + [[]] == [[], []] && s.sent + [[]] == [[0], [], []];
    hide Store;
    WriteOn(FiveBytes(), s, [], [0, 0, 0, 0, 0], 2, [[], []], [[0], [], []]);
  }

  /** The writer reads tail, 3, and then the reader finds the first record ... */
  lemma TornFirstRead()
    ensures Reaches(FiveBytes(), TornExample().(writer := Checking([9], [3]), reader := Passed))
  {
    hide Reaches;
    var s := TornExample();
    var c := s.(writer := Checking([9], [3]));
    ThirdWrite();
    Reach(FiveBytes(), s, BeginWrite([9]), c);
    Reach(FiveBytes(), c, SampleHead, c.(reader := Sampled(2)));
    Reach(FiveBytes(), c.(reader := Sampled(2)), TestHead, c.(reader := Passed));
  }

  lemma ZeroAtThree()
    ensures LenPos(5, 3) == 3 && Load16(0, 0) == 0
  {
    hide Step, Exec;
  }

  lemma LoadsZero(s: System)
    requires s.reader == Passed && s.tail == 3 && |s.mem| == 5 && s.mem[3] == 0 && s.mem[4] == 0
    ensures Step(s, LoadLen) == s.(reader := Loaded(0))
  {
    hide *;
    ZeroAtThree();
    LoadLenIs(s, 3, 0);
  }

  /** ... and takes it ... */
  lemma TornFirstLoaded()
    ensures Reaches(FiveBytes(), TornExample().(writer := Checking([9], [3]), reader := Loaded(0)))
  {
    TornFirstRead();
    var p := TornExample().(writer := Checking([9], [3]), reader := Passed);
    assert p.tail == 3 && |p.mem| == 5 && p.mem[3] == 0 && p.mem[4] == 0;
    assert p.(reader := Loaded(0)) == TornExample().(writer := Checking([9], [3]), reader := Loaded(0));
    hide *;
    LoadsZero(p);
    Reach(FiveBytes(), p, LoadLen, p.(reader := Loaded(0)));
  }

  lemma TornFirstTaken()
    ensures Reaches(FiveBytes(), TornExampleRead(Checking([9], [3])))
  {
    hide Reaches, Exec;
    TornFirstLoaded();
    var l := TornExample().(writer := Checking([9], [3]), reader := Loaded(0));
    assert l.queue[1..] == [[]] && l.mem[0..0] == [] && l.received + [[]] == [[0], []];
    assert BodyPos(5, 3, 0) == 0;
    hide Step, BodyPos;
    PublishTailIs(l, 0, []);
    Reach(FiveBytes(), l, PublishTail, TornExampleRead(Checking([9], [3])));
  }

  /** ... the writer's other three reads find 0, and it goes ahead ... */
  lemma TornOtherReads()
    ensures Reaches(FiveBytes(), TornExampleRead(Storing([9], 0)))
  {
    hide Reaches;
    TornFirstTaken();
    var s, c1, c2 := TornExample(), TornExampleRead(Checking([9], [3])), TornExampleRead(Checking([9], [3, 0]));
    var c3, c4 := TornExampleRead(Checking([9], [3, 0, 0])), TornExampleRead(Checking([9], [3, 0, 0, 0]));
    assert [3] + [0] == [3, 0] && [3, 0] + [0] == [3, 0, 0] && [3, 0, 0] + [0] == [3, 0, 0, 0];
    Reach(FiveBytes(), c1, ReadTail, c2);
    Reach(FiveBytes(), c2, ReadTail, c3);
    Reach(FiveBytes(), c3, ReadTail, c4);
    Reach(FiveBytes(), c4, Decide, TornExampleRead(Storing([9], 0)));
  }

  function TornExampleFull(r: Reader): System {
    System([9, 0, 1, 0, 0], 2, 0, Storing([9], 3), r, [[]], [[0], [], []], [[0], []], false)
  }

  /** ... while the reader finds the second record and is about to load its length. */
  lemma TornStores()
    ensures Reaches(FiveBytes(), TornExampleFull(Passed))
  {
    hide Reaches;
    TornOtherReads();
    var s, w := TornExample(), TornExampleRead(Storing([9], 0));
    var p := w.(reader := Passed);
    Reach(FiveBytes(), w, SampleHead, w.(reader := Sampled(2)));
    Reach(FiveBytes(), w.(reader := Sampled(2)), TestHead, p);
    var p1 := p.(writer := Storing([9], 1), mem := [0, 0, 1, 0, 0]);
    Reach(FiveBytes(), p, StoreByte, p1);
    var p2 := p.(writer := Storing([9], 2), mem := [0, 0, 1, 0, 0]);
    Reach(FiveBytes(), p1, StoreByte, p2);
    Reach(FiveBytes(), p2, StoreByte, TornExampleFull(Passed));
  }

  /** The record let through has overwritten the length of the empty record that is still queued;
      the reader loads 9 there and runs outside the array. So a run from a cleared ring exists that
      breaks the safety over interleavings, and its restriction is needed. */
  lemma TornRunGoesWild()
    ensures exists acts :: Exec(Start([0, 0, 0, 0, 0]), acts).wild
  {
    TornStores();
    Reach(FiveBytes(), TornExampleFull(Passed), LoadLen, TornExampleFull(Loaded(9)));
    Reach(FiveBytes(), TornExampleFull(Loaded(9)), PublishTail, TornExampleFull(Loaded(9)).(wild := true));
  }

  // ---------- a write is safe exactly if it begins safely ----------

  /** No further call of write1. */
  predicate NoBegin(acts: seq<Action>) {
    forall i | 0 <= i < |acts| :: !acts[i].BeginWrite?
  }

  lemma NoBeginBoth(a: seq<Action>, b: seq<Action>)
    requires NoBegin(a) && NoBegin(b)
    ensures NoBegin(a + b)
  {
  }

  /** The reader has taken the oldest record and waits. */
  function TakenOne(s: System): System
    requires s.queue != []
  {
    s.(tail := Next(|s.mem|, s.tail, |s.queue[0]|), queue := s.queue[1..], received := s.received + [s.queue[0]],
        reader := Waiting)
  }

  lemma TakenOneOk(s: System)
    requires Inv(s) && s.queue != []
    ensures Inv(TakenOne(s))
    ensures Exec(s.(reader := Loaded(|s.queue[0]|)), [PublishTail]) == TakenOne(s)
  {
    var l := s.(reader := Loaded(|s.queue[0]|));
    assert Inv(l);
    FrontRecord(s);
    PublishTailStep(l);
    PublishTailIs(l, BodyPos(|s.mem|, s.tail, |s.queue[0]|), s.queue[0]);
    hide Inv, Step, Chain;
    ExecOne(l, PublishTail);
  }

  lemma TakeFromPassed(s: System)
    requires Inv(s) && s.queue != [] && s.reader == Passed
    ensures Exec(s, [LoadLen, PublishTail]) == TakenOne(s)
  {
    hide *;
    FrontRecord(s);
    TakenOneOk(s);
    LoadLenIs(s, LenPos(|s.mem|, s.tail), |s.queue[0]|);
    TwoSteps(s, LoadLen, PublishTail);
  }

  lemma TwoSteps(s: System, a: Action, b: Action)
    ensures Exec(s, [a, b]) == Exec(Step(s, a), [b])
  {
    hide *;
    assert [a, b] == [a] + [b];
    ExecOne(s, a);
    ExecBoth(s, [a], [b]);
  }

  /** Wherever the reader is in its call, it can go on and take the oldest record. */
  lemma TakeOne(s: System) returns (acts: seq<Action>)
    requires Inv(s) && s.queue != []
    ensures NoBegin(acts) && Exec(s, acts) == TakenOne(s)
  {
    if s.reader == Waiting {
      acts := READ_CALL;
      hide Inv, Exec, Step;
      SoloFullRead(s, s.queue[0]);
    } else if s.reader == Passed {
      acts := [LoadLen, PublishTail];
      hide Inv, Exec, Step;
      TakeFromPassed(s);
    } else if s.reader.Loaded? {
      acts := [PublishTail];
      assert s.reader == Loaded(|s.queue[0]|);
      hide Inv, Exec, Step;
      TakenOneOk(s);
    } else {
      acts := TakeFromSampled(s);
    }
  }

  lemma TakeFromSampled(s: System) returns (acts: seq<Action>)
    requires Inv(s) && s.queue != [] && s.reader.Sampled?
    ensures NoBegin(acts) && Exec(s, acts) == TakenOne(s)
  {
    var s1 := Step(s, TestHead);
    assert s1 == s.(reader := Waiting) || s1 == s.(reader := Passed);
    OtherStepKeepsInv(s, TestHead);
    hide Inv, Exec, Step;
    ExecOne(s, TestHead);
    if s1.reader == Waiting {
      SoloFullRead(s1, s.queue[0]);
      ExecBoth(s, [TestHead], READ_CALL);
      acts := [TestHead] + READ_CALL;
    } else {
      TakeFromPassed(s1);
      ExecBoth(s, [TestHead], [LoadLen, PublishTail]);
      acts := [TestHead] + [LoadLen, PublishTail];
    }
  }

  lemma {:induction false} TakeMany(s: System, n: nat) returns (acts: seq<Action>)
    requires Inv(s) && n <= |s.queue|
    ensures NoBegin(acts)
    ensures var t := Exec(s, acts);
            && Inv(t) && t.mem == s.mem && t.head == s.head && t.writer == s.writer
            && t.tail == TailAfter(|s.mem|, s.tail, s.queue, n) && t.queue == s.queue[n..]
    decreases n
  {
    if n == 0 {
      acts := [];
    } else {
      assert s.queue[1..][n - 1..] == s.queue[n..];
      hide Inv, Exec, NoBegin, Next;
      var first := TakeOne(s);
      TakenOneOk(s);
      var rest := TakeMany(TakenOne(s), n - 1);
      ExecBoth(s, first, rest);
      NoBeginBoth(first, rest);
      acts := first + rest;
    }
  }

  /** Stores by a writer for whom there may be no room. */
  lemma {:induction false} BlindStores(s: System, data: Record, n: nat)
    requires s.writer == Storing(data, 0) && n <= 2 + |data|
    ensures var t := Exec(s, Repeat(StoreByte, n));
            && |t.mem| == |s.mem| && t.head == s.head && t.tail == s.tail && t.queue == s.queue
            && (t.wild || t.writer == Storing(data, n))
  {
    if n > 0 {
      BlindStores(s, data, n - 1);
      hide Exec, Cell, CellByte;
      ExecBoth(s, Repeat(StoreByte, n - 1), [StoreByte]);
      ExecOne(Exec(s, Repeat(StoreByte, n - 1)), StoreByte);
    }
  }

  /** A record that has wrapped and ends at or beyond tail is not the end of any queue. */
  lemma {:induction false} NoChain(mem: seq<Byte>, mem': seq<Byte>, tail: nat, head: nat, q: seq<seq<Byte>>,
      r: seq<Byte>)
    requires |mem'| == |mem| && tail <= head < |mem| && Chain(mem, tail, head, q)
    requires Wraps(|mem|, head, |r|) && Next(|mem|, head, |r|) >= tail
    ensures !Chain(mem', tail, Next(|mem|, head, |r|), q + [r])
    decreases |q|
  {
    var all, end := q + [r], Next(|mem|, head, |r|);
    if Chain(mem', tail, end, all) && q != [] {
      var next := Next(|mem|, tail, |q[0]|);
      assert all[1..] == q[1..] + [r] && all[0] == q[0];
      assert Chain(mem', next, end, q[1..] + [r]) && Chain(mem, next, head, q[1..]) && next <= head && next <= end;
      NoChain(mem, mem', next, head, q[1..], r);
    }
  }

  lemma PublishHarms(t: System, data: Record)
    requires t.wild || t.writer == Storing(data, 2 + |data|)
    requires !Chain(t.mem, t.tail, Next(|t.mem|, t.head, |data|), t.queue + [data])
    ensures !Sound(Step(t, PublishHead))
  {
    hide Chain, Next;
  }

  lemma ThenPublish(s: System, stores: seq<Action>)
    ensures Exec(s, stores + [PublishHead]) == Step(Exec(s, stores), PublishHead)
  {
    hide *;
    ExecBoth(s, stores, [PublishHead]);
    ExecOne(Exec(s, stores), PublishHead);
  }

  lemma StoredBlindly(s: System, t: System, data: Record)
    requires s.tail <= s.head < |s.mem| && Chain(s.mem, s.tail, s.head, s.queue)
    requires Wraps(|s.mem|, s.head, |data|) && Next(|s.mem|, s.head, |data|) >= s.tail
    requires |t.mem| == |s.mem| && t.head == s.head && t.tail == s.tail && t.queue == s.queue
    requires t.wild || t.writer == Storing(data, 2 + |data|)
    ensures !Sound(Step(t, PublishHead))
  {
    hide *;
    NoChain(s.mem, t.mem, s.tail, s.head, s.queue, data);
    PublishHarms(t, data);
  }

  /** A writer about to store a record that has no room. */
  ghost predicate DecidedWrongly(s: System, data: Record) {
    && s.writer == Storing(data, 0)
    && s.tail <= s.head < |s.mem| && Chain(s.mem, s.tail, s.head, s.queue)
    && Wraps(|s.mem|, s.head, |data|) && Next(|s.mem|, s.head, |data|) >= s.tail
  }

  /** A writer that has decided wrongly stores and publishes: the ring does not hold its queue. */
  lemma WrongDecisionHarms(s: System, data: Record)
    requires DecidedWrongly(s, data)
    ensures !Sound(Exec(s, Repeat(StoreByte, 2 + |data|) + [PublishHead]))
  {
    hide Exec, Step, Sound, Repeat, Chain, Wraps, Next;
    BlindStores(s, data, 2 + |data|);
    ThenPublish(s, Repeat(StoreByte, 2 + |data|));
    StoredBlindly(s, Exec(s, Repeat(StoreByte, 2 + |data|)), data);
  }

  lemma ChainOf(s: System)
    requires Inv(s)
    ensures s.tail < |s.mem| && s.head < |s.mem| && Chain(s.mem, s.tail, s.head, s.queue)
  {
    hide Chain;
  }

  /** The first two reads of tail, and what the reader does before the other two. */
  lemma FirstReads(s: System, data: Record, n: nat) returns (acts: seq<Action>)
    requires Inv(s) && s.writer == Idle && n <= |s.queue|
    ensures NoBegin(acts)
    ensures var t := Exec(Step(s, BeginWrite(data)), acts);
            && Inv(t) && t.mem == s.mem && t.head == s.head && t.writer == Checking(data, [s.tail, s.tail])
            && t.tail == TailAfter(|s.mem|, s.tail, s.queue, n) && t.queue == s.queue[n..]
  {
    var s1 := Step(s, BeginWrite(data));
    var s2 := Step(s1, ReadTail);
    OtherStepKeepsInv(s, BeginWrite(data));
    OtherStepKeepsInv(s1, ReadTail);
    assert s2 == s.(writer := Checking(data, [s.tail, s.tail])) by {
      assert [s.tail] + [s.tail] == [s.tail, s.tail];
    }
    hide Inv, Exec, Step;
    ExecOne(s1, ReadTail);
    var rest := TakeMany(s2, n);
    ExecBoth(s1, [ReadTail], rest);
    acts := [ReadTail] + rest;
  }

  const LAST_READS := [ReadTail, ReadTail, Decide]

  /** The other two reads find the reader below head, and the record passes. */
  lemma LastReadsDoNotBegin()
    ensures NoBegin(LAST_READS)
  {
  }

  lemma LastReads(s: System, data: Record, t1: nat)
    requires s.writer == Checking(data, [t1, t1]) && t1 > s.head >= s.tail
    ensures Exec(s, LAST_READS) == s.(writer := Storing(data, 0))
  {
    var t := s.tail;
    var s1, s2 := s.(writer := Checking(data, [t1, t1, t])), s.(writer := Checking(data, [t1, t1, t, t]));
    assert [t1, t1] + [t] == [t1, t1, t] && [t1, t1, t] + [t] == [t1, t1, t, t];
    assert Step(s, ReadTail) == s1 && Step(s1, ReadTail) == s2;
    assert Step(s2, Decide) == s.(writer := Storing(data, 0));
    hide Step, Exec;
    assert LAST_READS == [ReadTail] + ([ReadTail] + [Decide]);
    ExecOne(s, ReadTail);
    ExecBoth(s, [ReadTail], [ReadTail] + [Decide]);
    ExecOne(s1, ReadTail);
    ExecBoth(s1, [ReadTail], [Decide]);
    ExecOne(s2, Decide);
  }

  lemma UnsafeBeginning(s: System, data: Record, k: nat)
    requires Inv(s) && !MayBegin(s, data) && k == WrapIndex(|s.mem|, s.tail, s.queue)
    ensures k + 1 <= |s.queue| && s.tail > s.head >= TailAfter(|s.mem|, s.tail, s.queue, k + 1)
    ensures Wraps(|s.mem|, s.head, |data|)
        && Next(|s.mem|, s.head, |data|) >= TailAfter(|s.mem|, s.tail, s.queue, k + 1)
  {
    WhereTailCanBe(s.mem, s.tail, s.head, s.queue, 0);
    hide Chain;
  }

  lemma WrongDecision(s: System, data: Record) returns (acts: seq<Action>)
    requires Inv(s) && s.writer == Idle && !MayBegin(s, data)
    ensures NoBegin(acts) && DecidedWrongly(Exec(Step(s, BeginWrite(data)), acts), data)
  {
    var k := WrapIndex(|s.mem|, s.tail, s.queue);
    UnsafeBeginning(s, data, k);
    hide Inv, Exec, Step, MayBegin, Wraps, Next, TailAfter, WrapIndex, Chain, NoBegin, Refuses;
    var first := FirstReads(s, data, k + 1);
    var s1 := Step(s, BeginWrite(data));
    LastReads(Exec(s1, first), data, s.tail);
    ChainOf(Exec(s1, first));
    ExecBoth(s1, first, LAST_READS);
    LastReadsDoNotBegin();
    NoBeginBoth(first, LAST_READS);
    acts := first + LAST_READS;
  }

  /** A write that begins unsafely can do harm, wherever the reader is in its call. */
  lemma HarmfulRun(s: System, data: Record) returns (acts: seq<Action>)
    requires Inv(s) && s.writer == Idle && !MayBegin(s, data)
    ensures NoBegin(acts) && !Sound(Exec(Step(s, BeginWrite(data)), acts))
  {
    hide *;
    var decide := WrongDecision(s, data);
    var s1, stores := Step(s, BeginWrite(data)), Repeat(StoreByte, 2 + |data|) + [PublishHead];
    WrongDecisionHarms(Exec(s1, decide), data);
    ExecBoth(s1, decide, stores);
    StoresDoNotBegin(2 + |data|);
    NoBeginBoth(decide, stores);
    acts := decide + stores;
  }

  lemma {:induction false} StoresDoNotBegin(n: nat)
    ensures NoBegin(Repeat(StoreByte, n))
  {
    if n > 0 {
      StoresDoNotBegin(n - 1);
    }
  }

  lemma {:induction false} NothingToBegin(s: System, acts: seq<Action>)
    requires NoBegin(acts)
    ensures BegunSafely(s, acts)
    decreases |acts|
  {
    hide Step, MayBegin;
    if acts != [] {
      NothingToBegin(Step(s, acts[0]), acts[1..]);
    }
  }

  /** Main result: from any state of the invariant, a call of write1 keeps the ring sound under every
      interleaving exactly if it begins in a state that SafeToTest allows. */
  lemma WriteSafeExactly(s: System, data: Record)
    requires Inv(s) && s.writer == Idle
    ensures (forall acts | NoBegin(acts) :: Sound(Exec(Step(s, BeginWrite(data)), acts))) <==> MayBegin(s, data)
  {
    hide Exec, Step, MayBegin, NoBegin;
    if MayBegin(s, data) {
      assert Guarded(s) && Begins(s, BeginWrite(data));
      forall acts | NoBegin(acts)
        ensures Sound(Exec(Step(s, BeginWrite(data)), acts))
      {
        SafeFrom(s, data, acts);
      }
    } else {
      var acts := HarmfulRun(s, data);
    }
  }

  lemma SafeFrom(s: System, data: Record, acts: seq<Action>)
    requires Inv(s) && s.writer == Idle && MayBegin(s, data) && NoBegin(acts)
    ensures Sound(Exec(Step(s, BeginWrite(data)), acts))
  {
    assert Guarded(s);
    hide Exec, Step, MayBegin, NoBegin, Chain;
    StepKeepsInv(s, BeginWrite(data));
    NothingToBegin(Step(s, BeginWrite(data)), acts);
    RunKeepsInv(Step(s, BeginWrite(data)), acts);
  }
}
