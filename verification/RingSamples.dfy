/** The reader samples head twice: what the writer may do in between, and what the reader then sees. */
module RingSamples {
  import opened Bytes
  import opened RingLayout
  import opened RingFifo
  import opened RingInterleaved
  import opened RingSolo
  import opened RingTornReads

  /** No step of the reader. */
  predicate WriterOnly(acts: seq<Action>) {
    forall i | 0 <= i < |acts| ::
      !(acts[i].SampleHead? || acts[i].TestHead? || acts[i].LoadLen? || acts[i].PublishTail?)
  }

  lemma WriterStepKeepsReader(s: System, a: Action)
    requires !(a.SampleHead? || a.TestHead? || a.LoadLen? || a.PublishTail?)
    ensures Step(s, a).reader == s.reader && Step(s, a).tail == s.tail && s.queue <= Step(s, a).queue
  {
    hide Cell, CellByte, RefusesReads, Next;
  }

  lemma {:induction false} WriterRunKeepsReader(s: System, acts: seq<Action>)
    requires WriterOnly(acts)
    ensures Exec(s, acts).reader == s.reader && Exec(s, acts).tail == s.tail && s.queue <= Exec(s, acts).queue
    decreases |acts|
  {
    hide Step;
    if acts != [] {
      WriterStepKeepsReader(s, acts[0]);
      assert WriterOnly(acts[1..]);
      WriterRunKeepsReader(Step(s, acts[0]), acts[1..]);
    }
  }

  /** The test on two samples of head, between which the queue has grown from q1 to q2. */
  lemma SamplesExactly(mem1: seq<Byte>, h1: nat, q1: seq<seq<Byte>>, mem2: seq<Byte>, h2: nat, q2: seq<seq<Byte>>,
      tail: nat)
    requires |mem1| == |mem2| && tail < |mem1| && h1 < |mem1| && h2 < |mem2|
    requires Chain(mem1, tail, h1, q1) && Chain(mem2, tail, h2, q2) && q1 <= q2
    ensures (tail <= h1 && tail + 2 > h2) <==> (q2 == [] || h2 < tail <= h1)
    ensures (tail <= h1 && tail + 2 > h2) && q1 != [] ==> h2 < tail < h1
  {
  }

  /** Whatever a writer that begins safely does between the reader's two samples of head, the reader
      reports an empty ring exactly if it is empty at the second sample, or head has passed the end of
      the array in between. In the second case it may miss a record that was there all along. */
  lemma NullExactly(s: System, acts: seq<Action>)
    requires Inv(s) && Guarded(s) && s.reader == Waiting
    requires WriterOnly(acts) && BegunSafely(Step(s, SampleHead), acts)
    ensures var t := Exec(Step(s, SampleHead), acts);
            && t.tail == s.tail && s.queue <= t.queue
            && (Step(t, TestHead).reader == Waiting <==> t.queue == [] || t.head < s.tail <= s.head)
            && (Step(t, TestHead).reader == Waiting && s.queue != [] ==> t.head < s.tail < s.head)
  {
    var s1 := Step(s, SampleHead);
    assert s1 == s.(reader := Sampled(s.head));
    StepKeepsInv(s, SampleHead);
    hide Inv, Guarded, Exec, Step, BegunSafely;
    RunKeepsInv(s1, acts);
    WriterRunKeepsReader(s1, acts);
    var t := Exec(s1, acts);
    ChainOf(s);
    ChainOf(t);
    SamplesExactly(s.mem, s.head, s.queue, t.mem, t.head, t.queue, s.tail);
    TestHeadIs(t, s.head);
  }

  lemma TestHeadIs(t: System, h1: nat)
    requires t.reader == Sampled(h1)
    ensures Step(t, TestHead).reader == Waiting <==> t.tail <= h1 && t.tail + 2 > t.head
  {
  }

  function SixBytes(): System {
    Start([0, 0, 0, 0, 0, 0])
  }

  /** A record of one byte has gone through the ring, or is still there; an empty one may follow it. */
  function MissExample(mem: seq<Byte>, head: nat, tail: nat, q: seq<seq<Byte>>, sent: seq<seq<Byte>>,
      received: seq<seq<Byte>>): System {
    System(mem, head, tail, Idle, Waiting, q, sent, received, false)
  }

  lemma MissFirstWrite() returns (mem: seq<Byte>)
    ensures |mem| == 6 && Reaches(SixBytes(), MissExample(mem, 3, 0, [[0]], [[0]], []))
    ensures Inv(MissExample(mem, 3, 0, [[0]], [[0]], []))
  {
    var s := SixBytes();
    StartIsOk(s.mem);
    assert s.queue + [[0]] == [[0]] && s.sent + [[0]] == [[0]] && RecordFits(s.mem, 0, 1) && Next(6, 0, 1) == 3;
    mem := Store(s.mem, 0, [0]);
    assert |mem| == 6;
    hide Reaches, Inv, Store, RecordFits, Next;
    WriteOn(s, s, [0], mem, 3, [[0]], [[0]]);
  }

  lemma MissFirstRead() returns (mem: seq<Byte>)
    ensures |mem| == 6 && Reaches(SixBytes(), MissExample(mem, 3, 3, [], [[0]], [[0]]))
    ensures Inv(MissExample(mem, 3, 3, [], [[0]], [[0]]))
  {
    hide Reaches, Inv;
    mem := MissFirstWrite();
    ReadOn(SixBytes(), MissExample(mem, 3, 0, [[0]], [[0]], []), [0], 3, [], [[0]]);
  }

  /** A record is queued behind the reader ... */
  lemma MissSecondWrite() returns (mem: seq<Byte>)
    ensures |mem| == 6 && Reaches(SixBytes(), MissExample(mem, 5, 3, [[]], [[0], []], [[0]]))
    ensures Inv(MissExample(mem, 5, 3, [[]], [[0], []], [[0]]))
  {
    hide Reaches, Inv;
    var before := MissFirstRead();
    var s := MissExample(before, 3, 3, [], [[0]], [[0]]);
    assert s.queue + [[]] == [[]] && s.sent + [[]] == [[0], []] && RecordFits(s.mem, 3, 0) && Next(6, 3, 0) == 5;
    mem := Store(s.mem, 3, []);
    assert |mem| == 6;
    hide Store, RecordFits, Next;
    WriteOn(SixBytes(), s, [], mem, 5, [[]], [[0], []]);
  }

  lemma AcceptedWrite(s: System, data: Record)
    requires Inv(s) && s.writer == Idle && !Refuses(|s.mem|, s.tail, s.head, |data|)
    ensures var t := Exec(s, WriteCall(data));
            t.reader == s.reader && t.tail == s.tail && t.head == Next(|s.mem|, s.head, |data|)
  {
    hide *;
    SoloAccepted(s, data);
  }

  /** ... and if between its two samples a record is written that takes head past the end and stays
      below it, it sees nothing. */
  lemma WrapHidesQueue(s: System, data: Record)
    requires Inv(s) && s.writer == Idle && s.reader == Waiting && !Refuses(|s.mem|, s.tail, s.head, |data|)
    requires Next(|s.mem|, s.head, |data|) < s.tail <= s.head
    ensures Step(Exec(Step(s, SampleHead), WriteCall(data)), TestHead).reader == Waiting
  {
    var s1 := Step(s, SampleHead);
    assert s1 == s.(reader := Sampled(s.head));
    OtherStepKeepsInv(s, SampleHead);
    hide *;
    AcceptedWrite(s1, data);
    TestHeadIs(Exec(s1, WriteCall(data)), s.head);
  }

  /** The reader finds nothing although a record was queued before it looked. */
  predicate Missed(start: System, before: seq<Action>, between: seq<Action>) {
    var s := Exec(start, before);
    && s.reader == Waiting && s.queue != [] && WriterOnly(between)
    && Step(Exec(Step(s, SampleHead), between), TestHead).reader == Waiting
  }

  lemma MissesARecord()
    ensures exists before, between :: Missed(Start([0, 0, 0, 0, 0, 0]), before, between)
  {
    var mem := MissSecondWrite();
    hide Exec, Step, Inv;
    var s := MissExample(mem, 5, 3, [[]], [[0], []], [[0]]);
    var before :| Exec(SixBytes(), before) == s;
    assert !Refuses(6, 3, 5, 0) && Next(6, 5, 0) == 2;
    WrapHidesQueue(s, []);
    WritesOnly([]);
    assert Missed(SixBytes(), before, WriteCall([]));
  }

  lemma WritesOnly(data: Record)
    ensures WriterOnly(WriteCall(data))
  {
    StoresAreStores(2 + |data|);
  }

  lemma {:induction false} StoresAreStores(n: nat)
    ensures forall i | 0 <= i < n :: Repeat(StoreByte, n)[i] == StoreByte
  {
    if n > 0 {
      StoresAreStores(n - 1);
    }
  }
}
