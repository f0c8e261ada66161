/** The refusal test of write1 while the reader moves, and exactly when it lets a record through that has
    no room. */
module RingRefusal {
  import opened Bytes
  import opened RingLayout
  import opened RingOccupancy

  /** Moving forward from t0 without passing head leads to t. */
  predicate Ahead(size: nat, t0: nat, head: nat, t: nat) {
    if t0 <= head then t0 <= t <= head else t0 <= t < size || t <= head
  }

  /** The reads straddle a wrap of the reader: the first clause saw tail above head, the second
      one saw it below, and so neither of them looked at the room. */
  predicate Torn(head: nat, t1: nat, t3: nat) {
    t1 > head >= t3
  }

  lemma UntornTestIsSafe(size: nat, head: nat, len: nat, t1: nat, t2: nat, t3: nat, t4: nat, tail: nat)
    requires tail < size && head < size
    requires Ahead(size, t1, head, tail) && Ahead(size, t1, head, t2) && Ahead(size, t2, head, tail)
    requires Ahead(size, t3, head, tail) && Ahead(size, t4, head, tail)
    requires t4 < size
    requires !(Torn(head, t1, t3) && Wraps(size, head, len))
    requires !RefusesReads(size, head, len, t1, t2, t3, t4)
    ensures CanWrite(size, tail, head, len)
  {
  }

  /** While head is below tail: the reader's cursor stays above head up to the wrapping record;
      from there on it is at or below head and never again before the landing place. */
  lemma {:induction false} WhereTailCanBe(mem: seq<Byte>, tail: nat, head: nat, q: seq<seq<Byte>>, i: nat)
    requires head < |mem| && tail < |mem| && Chain(mem, tail, head, q) && i <= |q|
    ensures TailAfter(|mem|, tail, q, i) < |mem|
    ensures tail <= head ==> tail <= TailAfter(|mem|, tail, q, i) <= head
    ensures tail > head ==>
              var k := WrapIndex(|mem|, tail, q);
              && k < |q|
              && (i <= k ==> tail <= TailAfter(|mem|, tail, q, i))
              && TailAfter(|mem|, tail, q, k + 1) <= head
              && (i > k ==> TailAfter(|mem|, tail, q, k + 1) <= TailAfter(|mem|, tail, q, i) <= head)
    decreases |q|
  {
    if q != [] {
      var next := Next(|mem|, tail, |q[0]|);
      WhereTailCanBe(mem, next, head, q[1..], if i == 0 then 0 else i - 1);
    }
  }

  /** Reading on moves tail ahead. */
  lemma {:induction false} TailMovesAhead(mem: seq<Byte>, tail: nat, head: nat, q: seq<seq<Byte>>, i: nat, j: nat)
    requires head < |mem| && tail < |mem| && Chain(mem, tail, head, q) && i <= j <= |q|
    ensures Ahead(|mem|, TailAfter(|mem|, tail, q, i), head, TailAfter(|mem|, tail, q, j))
    decreases |q|
  {
    if i > 0 {
      TailMovesAhead(mem, Next(|mem|, tail, |q[0]|), head, q[1..], i - 1, j - 1);
    } else {
      WhereTailCanBe(mem, tail, head, q, j);
    }
  }

  /** Where the reader is, or will be when it has just wrapped, the record ends below it. */
  predicate LandsClear(size: nat, tail: nat, head: nat, q: seq<seq<Byte>>, len: nat) {
    Next(size, head, len) < if tail <= head then tail else TailAfter(size, tail, q, WrapIndex(size, tail, q) + 1)
  }

  /** Reading on does not bring the reader's landing place back. */
  lemma ClearStays(mem: seq<Byte>, tail: nat, head: nat, q: seq<seq<Byte>>, len: nat)
    requires head < |mem| && tail < |mem| && q != [] && Chain(mem, tail, head, q)
    requires LandsClear(|mem|, tail, head, q, len)
    ensures LandsClear(|mem|, Next(|mem|, tail, |q[0]|), head, q[1..], len)
  {
  }

  /** Where the four reads of tail may find the reader, and where it is at the decision. */
  predicate Schedule(n: nat, i: seq<nat>) {
    |i| == 5 && i[0] <= i[1] <= i[2] <= i[3] <= i[4] <= n
  }

  /** The test is wrong for this schedule: it lets a record through that has no room. */
  predicate LetsThrough(size: nat, tail: nat, head: nat, q: seq<seq<Byte>>, len: nat, i: seq<nat>)
    requires |i| == 5
  {
    && !RefusesReads(size, head, len, TailAfter(size, tail, q, i[0]), TailAfter(size, tail, q, i[1]),
                     TailAfter(size, tail, q, i[2]), TailAfter(size, tail, q, i[3]))
    && !CanWrite(size, TailAfter(size, tail, q, i[4]), head, len)
  }

  /** What a caller can check before the call: tail is at or below head, or the record need not
      wrap, or the reader's first cursor after its own wrap leaves room for it. */
  predicate SafeToTest(size: nat, tail: nat, head: nat, q: seq<seq<Byte>>, len: nat) {
    tail <= head || head + 2 + len < size || LandsClear(size, tail, head, q, len)
  }

  /** However the reader moves during the test, it lets only records with room through exactly
      when SafeToTest holds at the start of the call. */
  lemma RefusalTestExact(mem: seq<Byte>, tail: nat, head: nat, q: seq<seq<Byte>>, len: nat)
    requires head < |mem| && tail < |mem| && Chain(mem, tail, head, q)
    ensures (forall i: seq<nat> | Schedule(|q|, i) :: !LetsThrough(|mem|, tail, head, q, len, i))
       <==> SafeToTest(|mem|, tail, head, q, len)
  {
    var size := |mem|;
    if SafeToTest(size, tail, head, q, len) {
      forall i: seq<nat> | Schedule(|q|, i)
        ensures !LetsThrough(size, tail, head, q, len, i)
      {
        SafeScheduleHolds(mem, tail, head, q, len, i);
      }
    } else {
      WhereTailCanBe(mem, tail, head, q, 0);
      var k := WrapIndex(size, tail, q);
      var i: seq<nat> := [0, 0, k + 1, k + 1, k + 1];
      assert Schedule(|q|, i) && LetsThrough(size, tail, head, q, len, i);
    }
  }

  lemma SafeScheduleHolds(mem: seq<Byte>, tail: nat, head: nat, q: seq<seq<Byte>>, len: nat, i: seq<nat>)
    requires head < |mem| && tail < |mem| && Chain(mem, tail, head, q)
    requires SafeToTest(|mem|, tail, head, q, len) && Schedule(|q|, i)
    ensures !LetsThrough(|mem|, tail, head, q, len, i)
  {
    var size := |mem|;
    var t1, t2, t3, t4, t5 := TailAfter(size, tail, q, i[0]), TailAfter(size, tail, q, i[1]),
                              TailAfter(size, tail, q, i[2]), TailAfter(size, tail, q, i[3]),
                                  TailAfter(size, tail, q, i[4]);
    TailMovesAhead(mem, tail, head, q, i[0], i[1]);
    TailMovesAhead(mem, tail, head, q, i[0], i[4]);
    TailMovesAhead(mem, tail, head, q, i[1], i[4]);
    TailMovesAhead(mem, tail, head, q, i[2], i[4]);
    TailMovesAhead(mem, tail, head, q, i[3], i[4]);
    WhereTailCanBe(mem, tail, head, q, i[0]);
    WhereTailCanBe(mem, tail, head, q, i[3]);
    if Torn(head, t1, t3) && Wraps(size, head, len) {
      WhereTailCanBe(mem, tail, head, q, i[2]);
      WhereTailCanBe(mem, tail, head, q, i[4]);
    } else if !RefusesReads(size, head, len, t1, t2, t3, t4) {
      UntornTestIsSafe(size, head, len, t1, t2, t3, t4, t5);
    }
  }
}
