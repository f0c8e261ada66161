/** Without interleaving, the steps of a writer or a reader do together what write1 and read1 do. */
module RingSolo {
  import opened Bytes
  import opened RingLayout
  import opened RingFifo
  import opened RingInterleaved

  function RingOf(s: System): Ring {
    Ring(s.mem, s.head, s.tail)
  }

  function Repeat(a: Action, n: nat): (acts: seq<Action>)
    ensures |acts| == n
  {
    if n == 0 then [] else Repeat(a, n - 1) + [a]
  }

  /** All steps of one call of write1 ... */
  function WriteCall(data: Record): seq<Action> {
    [BeginWrite(data), ReadTail, ReadTail, ReadTail, Decide] + Repeat(StoreByte, 2 + |data|) + [PublishHead]
  }

  /** ... and of one call of read1. */
  const READ_CALL := [SampleHead, TestHead, LoadLen, PublishTail]

  lemma {:induction false} ExecBoth(s: System, a: seq<Action>, b: seq<Action>)
    ensures Exec(s, a + b) == Exec(Exec(s, a), b)
    decreases |a|
  {
    hide Step;
    if a == [] {
      assert a + b == b;
    } else {
      assert (a + b)[1..] == a[1..] + b;
      ExecBoth(Step(s, a[0]), a[1..], b);
    }
  }

  lemma ExecOne(s: System, a: Action)
    ensures Exec(s, [a]) == Step(s, a)
  {
    hide Step;
    assert [a][1..] == [];
  }

  /** The test of a writer that is not disturbed. */
  lemma SoloTest(s: System, data: Record)
    requires s.writer == Idle
    ensures Exec(s, [BeginWrite(data), ReadTail, ReadTail, ReadTail, Decide])
         == s.(writer := if Refuses(|s.mem|, s.tail, s.head, |data|) then Idle else Storing(data, 0))
  {
    hide RefusesReads, Cell, CellByte, Next, ReaderStep;
    var t := s.tail;
    var s1, s2 := s.(writer := Checking(data, [t])), s.(writer := Checking(data, [t, t]));
    var s3, s4 := s.(writer := Checking(data, [t, t, t])), s.(writer := Checking(data, [t, t, t, t]));
    var s5 := s.(writer := if Refuses(|s.mem|, s.tail, s.head, |data|) then Idle else Storing(data, 0));
    assert [t] + [t] == [t, t] && [t, t] + [t] == [t, t, t] && [t, t, t] + [t] == [t, t, t, t];
    assert Step(s, BeginWrite(data)) == s1;
    assert Step(s1, ReadTail) == s2 && Step(s2, ReadTail) == s3 && Step(s3, ReadTail) == s4;
    assert Step(s4, Decide) == s5;
    hide Step;
    ExecFive(s, BeginWrite(data), ReadTail, ReadTail, ReadTail, Decide);
  }

  lemma ExecFive(s: System, a: Action, b: Action, c: Action, d: Action, e: Action)
    ensures Exec(s, [a, b, c, d, e]) == Step(Step(Step(Step(Step(s, a), b), c), d), e)
  {
    hide Step, Exec;
    assert [a, b, c, d, e] == [a] + ([b] + ([c] + ([d] + [e])));
    ExecOne(s, a);
    ExecBoth(s, [a], [b] + ([c] + ([d] + [e])));
    var s1 := Step(s, a);
    ExecOne(s1, b);
    ExecBoth(s1, [b], [c] + ([d] + [e]));
    var s2 := Step(s1, b);
    ExecOne(s2, c);
    ExecBoth(s2, [c], [d] + [e]);
    var s3 := Step(s2, c);
    ExecOne(s3, d);
    ExecBoth(s3, [d], [e]);
    ExecOne(Step(s3, d), e);
  }

  /** Byte i of the array after k of the stores. */
  ghost predicate StoredSoFar(s: System, mem: seq<Byte>, data: Record, k: nat) {
    && |mem| == |s.mem| && k <= 2 + |data|
    && (forall j: nat | j < k ::
          && Cell(|mem|, s.head, |data|, j) < |mem|
          && mem[Cell(|mem|, s.head, |data|, j)] == CellByte(data, j))
    && (forall i: nat | i < |mem| && (forall j: nat | j < k :: Cell(|mem|, s.head, |data|, j) != i) ::
        mem[i] == s.mem[i])
  }

  lemma StoredOneMore(s: System, mem: seq<Byte>, data: Record, k: nat)
    requires StoredSoFar(s, mem, data, k) && k < 2 + |data|
    requires s.tail < |s.mem| && s.head < |s.mem| && CanWrite(|s.mem|, s.tail, s.head, |data|)
    ensures Cell(|mem|, s.head, |data|, k) < |mem|
    ensures StoredSoFar(s, mem[Cell(|mem|, s.head, |data|, k) := CellByte(data, k)], data, k + 1)
  {
    WriteFrame(|mem|, s.tail, s.head, |data|);
    hide CanWrite, Occupied, Next, Wraps, Cell, CellByte;
  }

  lemma StoreByteIs(s: System, data: Record, k: nat)
    requires s.writer == Storing(data, k) && k < 2 + |data| && Cell(|s.mem|, s.head, |data|, k) < |s.mem|
    ensures Exec(s, [StoreByte]) == s.(mem := s.mem[Cell(|s.mem|, s.head, |data|, k) := CellByte(data, k)],
        writer := Storing(data, k + 1))
  {
    hide Cell, CellByte;
    ExecOne(s, StoreByte);
  }

  lemma {:induction false} SoloStores(s: System, data: Record, k: nat) returns (mem: seq<Byte>)
    requires s.writer == Storing(data, 0) && k <= 2 + |data|
    requires s.tail < |s.mem| && s.head < |s.mem| && CanWrite(|s.mem|, s.tail, s.head, |data|)
    ensures Exec(s, Repeat(StoreByte, k)) == s.(mem := mem, writer := Storing(data, k))
    ensures StoredSoFar(s, mem, data, k)
  {
    if k == 0 {
      mem := s.mem;
    } else {
      var before := SoloStores(s, data, k - 1);
      assert |before| == |s.mem|;
      hide Exec, Step, CellByte, Cell, CanWrite, StoredSoFar;
      ExecBoth(s, Repeat(StoreByte, k - 1), [StoreByte]);
      StoredOneMore(s, before, data, k - 1);
      StoreByteIs(s.(mem := before, writer := Storing(data, k - 1)), data, k - 1);
      mem := before[Cell(|before|, s.head, |data|, k - 1) := CellByte(data, k - 1)];
    }
  }

  /** The same byte after all stores. */
  lemma StoredByteAt(s: System, mem: seq<Byte>, data: Record, i: nat)
    requires StoredSoFar(s, mem, data, 2 + |data|) && i < |mem|
    ensures var lp, bp := LenPos(|mem|, s.head), BodyPos(|mem|, s.head, |data|);
            mem[i] == if bp <= i < bp + |data| then data[i - bp]
                      else if i == lp then |data| % 0x100
                      else if i == lp + 1 then |data| / 0x100 else s.mem[i]
  {
    hide LenPos, BodyPos;
    var lp, bp, n := LenPos(|mem|, s.head), BodyPos(|mem|, s.head, |data|), |data|;
    if bp <= i < bp + n {
      assert Cell(|mem|, s.head, n, 2 + (i - bp)) == i;
    } else if i == lp {
      assert Cell(|mem|, s.head, n, 0) == i;
    } else if i == lp + 1 {
      assert Cell(|mem|, s.head, n, 1) == i;
    }
  }

  /** Length and body stored, nothing else touched: that determines the array. */
  lemma StoreIsThat(s: System, mem: seq<Byte>, data: Record)
    requires s.tail < |s.mem| && s.head < |s.mem| && CanWrite(|s.mem|, s.tail, s.head, |data|)
    requires StoredSoFar(s, mem, data, 2 + |data|)
    ensures RecordFits(s.mem, s.head, |data|) && mem == Store(s.mem, s.head, data)
  {
    FitsApart(|s.mem|, s.tail, s.head, |data|);
    assert |mem| == |s.mem|;
    StoreByteAt(s.mem, s.head, data, 0);
    assert RecordFits(s.mem, s.head, |data|);
    hide *;
    forall i: nat | i < |mem|
      ensures mem[i] == Store(s.mem, s.head, data)[i]
    {
      StoreByteAt(s.mem, s.head, data, i);
      StoredByteAt(s, mem, data, i);
    }
  }

  /** Idle writers and waiting readers have nothing to do. */
  lemma {:induction false} IdleSteps(s: System, n: nat)
    requires s.writer == Idle
    ensures Exec(s, Repeat(StoreByte, n)) == s
  {
    if n > 0 {
      IdleSteps(s, n - 1);
      ExecBoth(s, Repeat(StoreByte, n - 1), [StoreByte]);
      ExecOne(s, StoreByte);
    }
  }

  lemma IdlePublish(s: System)
    requires s.writer == Idle
    ensures Exec(s, [PublishHead]) == s
  {
    ExecOne(s, PublishHead);
  }

  /** A refused write is all steps of an idle writer. */
  lemma SoloRefused(s: System, data: Record)
    requires s.writer == Idle && Refuses(|s.mem|, s.tail, s.head, |data|)
    ensures Exec(s, WriteCall(data)) == s
  {
    hide Step, Exec, Refuses;
    var test, stores := [BeginWrite(data), ReadTail, ReadTail, ReadTail, Decide], Repeat(StoreByte, 2 + |data|);
    SoloTest(s, data);
    ExecBoth(s, test + stores, [PublishHead]);
    ExecBoth(s, test, stores);
    IdleSteps(s, 2 + |data|);
    IdlePublish(s);
  }

  lemma PublishStep(s: System, data: Record)
    requires s.writer == Storing(data, 2 + |data|)
    ensures Exec(s, [PublishHead])
         == s.(head := Next(|s.mem|, s.head, |data|), writer := Idle, queue := s.queue + [data],
             sent := s.sent + [data])
  {
    ExecOne(s, PublishHead);
  }

  lemma SoloAccepted(s: System, data: Record)
    requires Inv(s) && s.writer == Idle && !Refuses(|s.mem|, s.tail, s.head, |data|)
    ensures RecordFits(s.mem, s.head, |data|)
    ensures Exec(s, WriteCall(data))
         == s.(mem := Store(s.mem, s.head, data), head := Next(|s.mem|, s.head, |data|), queue := s.queue + [data],
             sent := s.sent + [data])
  {
    assert s.tail < |s.mem| && s.head < |s.mem|;
    RefusalGuardsRoom(|s.mem|, s.tail, s.head, |data|);
    hide Step, Exec, Inv, Refuses, CanWrite, StoredSoFar, Store, RecordFits, Next;
    var test, stores := [BeginWrite(data), ReadTail, ReadTail, ReadTail, Decide], Repeat(StoreByte, 2 + |data|);
    SoloTest(s, data);
    ExecBoth(s, test + stores, [PublishHead]);
    ExecBoth(s, test, stores);
    var s1 := s.(writer := Storing(data, 0));
    var mem := SoloStores(s1, data, 2 + |data|);
    StoreIsThat(s1, mem, data);
    PublishStep(s1.(mem := mem, writer := Storing(data, 2 + |data|)), data);
  }

  /** The steps of a write, one after the other, are Write. */
  lemma SoloWrite(s: System, data: Record)
    requires Inv(s) && s.writer == Idle
    ensures var s' := Exec(s, WriteCall(data));
            && (RingOf(s'), s'.sent) == (Write(RingOf(s), data).0, if Write(RingOf(s), data).1 then s.sent + [data]
                else s.sent)
            && s'.writer == Idle && s'.received == s.received && !s'.wild
  {
    hide Exec, Refuses, Store, Next, Chain;
    if Refuses(|s.mem|, s.tail, s.head, |data|) {
      SoloRefused(s, data);
    } else {
      SoloAccepted(s, data);
    }
  }

  lemma SoloEmptyRead(s: System)
    requires s.reader == Waiting && s.tail == s.head
    ensures Exec(s, READ_CALL) == s
  {
    hide Exec;
    var s1 := s.(reader := Sampled(s.head));
    assert Step(s, SampleHead) == s1 && Step(s1, TestHead) == s;
    assert Step(s, LoadLen) == s && Step(s, PublishTail) == s;
    hide Step;
    ExecFour(s, SampleHead, TestHead, LoadLen, PublishTail);
  }

  /** The first three steps of a read that finds the record r. */
  lemma FindsRecord(s: System, lp: nat, len: nat)
    requires s.reader == Waiting && !(s.tail <= s.head && s.tail + 2 > s.head)
    requires lp == LenPos(|s.mem|, s.tail) && lp + 1 < |s.mem| && Load16(s.mem[lp], s.mem[lp + 1]) == len
    ensures Step(Step(Step(s, SampleHead), TestHead), LoadLen) == s.(reader := Loaded(len))
  {
    hide LenPos, Load16;
    assert Step(s, SampleHead) == s.(reader := Sampled(s.head));
    assert Step(s.(reader := Sampled(s.head)), TestHead) == s.(reader := Passed);
  }

  lemma SoloFullRead(s: System, r: seq<Byte>)
    requires Inv(s) && s.reader == Waiting && s.queue != [] && r == s.queue[0]
    ensures Exec(s, READ_CALL) == s.(tail := Next(|s.mem|, s.tail, |r|), queue := s.queue[1..],
        received := s.received + [r])
  {
    FrontRecord(s);
    hide Exec, Inv, Chain, LenPos, BodyPos, Load16, Step;
    FindsRecord(s, LenPos(|s.mem|, s.tail), |r|);
    PublishTailIs(s.(reader := Loaded(|r|)), BodyPos(|s.mem|, s.tail, |r|), r);
    ExecFour(s, SampleHead, TestHead, LoadLen, PublishTail);
  }

  lemma ReadTakes(mem: seq<Byte>, head: nat, tail: nat, q: seq<seq<Byte>>)
    requires Holds(Ring(mem, head, tail), q) && q != []
    ensures Read(Ring(mem, head, tail)) == (Ring(mem, head, Next(|mem|, tail, |q[0]|)), Bytes(q[0]))
  {
    ReadRefinesDequeue(Ring(mem, head, tail), q);
    assert RecordAt(mem, tail, q[0]);
    hide Chain;
  }

  /** The steps of a read, one after the other, are Read. */
  lemma SoloRead(s: System)
    requires Inv(s) && s.reader == Waiting
    ensures var s', result := Exec(s, READ_CALL), Read(RingOf(s)).1;
            && RingOf(s') == Read(RingOf(s)).0
            && s'.received == (if result.Bytes? then s.received + [result.data] else s.received)
            && s'.reader == Waiting && s'.sent == s.sent && !s'.wild
  {
    assert Holds(RingOf(s), s.queue) && !s.wild;
    if s.queue == [] {
      assert s.tail == s.head;
      ReadRefinesDequeue(RingOf(s), s.queue);
      hide Exec, Read, Inv;
      SoloEmptyRead(s);
    } else {
      hide Exec, Read, Inv, Chain, Next;
      SoloFullRead(s, s.queue[0]);
      ReadTakes(s.mem, s.head, s.tail, s.queue);
    }
  }

  lemma ExecFour(s: System, a: Action, b: Action, c: Action, d: Action)
    ensures Exec(s, [a, b, c, d]) == Step(Step(Step(Step(s, a), b), c), d)
  {
    hide Step, Exec;
    assert [a, b, c, d] == [a] + ([b] + ([c] + [d]));
    ExecOne(s, a);
    ExecBoth(s, [a], [b] + ([c] + [d]));
    var s1 := Step(s, a);
    ExecOne(s1, b);
    ExecBoth(s1, [b], [c] + [d]);
    var s2 := Step(s1, b);
    ExecOne(s2, c);
    ExecBoth(s2, [c], [d]);
    ExecOne(Step(s2, c), d);
  }
}
