/** The reader's side of the flow accumulator: a scan over the blocks that goes on where the last one
    stopped, and the search by key. */
module BlockScan {
  import opened FlowSeqKey

  // ---------- the iterator of the scan ----------

  /** One turn of the loop looks at the block `Examined` and moves the iterator behind it; n is end(). */
  function Examined(n: nat, it: nat): nat {
    if it == n then 0 else it
  }

  /** The iterator after k turns. */
  function Turns(n: nat, start: nat, k: nat): nat {
    if k == 0 then start else Examined(n, Turns(n, start, k - 1)) + 1
  }

  /** The block that turn k (counting from 0) looks at. */
  function Looked(n: nat, start: nat, k: nat): nat {
    Examined(n, Turns(n, start, k))
  }

  /** The loop ends with turn k: the block is ready, or the iterator is back where it was. */
  predicate EndsAt(ready: seq<bool>, start: nat, k: nat) {
    (Looked(|ready|, start, k) < |ready| && ready[Looked(|ready|, start, k)]) || Turns(|ready|, start, k + 1) == start
  }

  predicate SomeReady(ready: seq<bool>) {
    exists i :: 0 <= i < |ready| && ready[i]
  }

  /** The k-th block in cyclic order from the iterator. */
  function Cyclic(n: nat, start: nat, k: nat): nat
    requires start <= n && k < n
  {
    if start + k < n then start + k else start + k - n
  }

  /** During the first n turns the loop looks at the blocks in cyclic order, each once. */
  lemma {:induction false} LooksInCyclicOrder(n: nat, start: nat, k: nat)
    requires n > 0 && start <= n && k < n
    ensures Looked(n, start, k) == Cyclic(n, start, k)
    ensures Turns(n, start, k + 1) == Cyclic(n, start, k) + 1
  {
    if k > 0 {
      LooksInCyclicOrder(n, start, k - 1);
    }
  }

  lemma EachBlockOnce(n: nat, start: nat, i: nat) returns (k: nat)
    requires start <= n && i < n
    ensures k < n && Cyclic(n, start, k) == i
    ensures forall j: nat | j < n && Cyclic(n, start, j) == i :: j == k
  {
    k := if start == n then i else if i >= start then i - start else i + n - start;
  }

  lemma {:induction false} TurnsPositive(n: nat, start: nat, k: nat)
    requires n > 0 && start <= n
    ensures Turns(n, start, k) <= n
    ensures k > 0 ==> Turns(n, start, k) > 0
  {
    if k > 0 {
      TurnsPositive(n, start, k - 1);
    }
  }

  /** With readiness fixed, the scan of a non-empty map ends exactly when the iterator is not on the
      first block or some block is ready. */
  lemma ScanEnds(ready: seq<bool>, start: nat)
    requires ready != [] && start <= |ready|
    ensures (exists k: nat :: EndsAt(ready, start, k)) <==> start != 0 || SomeReady(ready)
  {
    var n := |ready|;
    if start != 0 {
      LooksInCyclicOrder(n, start, n - 1);
      assert EndsAt(ready, start, n - 1);
    } else if SomeReady(ready) {
      var i :| 0 <= i < n && ready[i];
      LooksInCyclicOrder(n, start, i);
      assert EndsAt(ready, start, i);
    } else {
      forall k: nat
        ensures !EndsAt(ready, start, k)
      {
        TurnsPositive(n, start, k + 1);
      }
    }
  }

  // ---------- the class ----------

  class SharedFlowAccum {
    var itRead: nat

    constructor (start: nat)
      ensures itRead == start
    {
      itRead := start;
    }

    /** get, for a map of |ready| blocks of which the flagged ones are complete and expired. It comes
        back only under the condition of ScanEnds, which is why it is required here. */
    method Get(ready: seq<bool>) returns (got: bool, block: nat, ghost looks: nat)
      requires itRead <= |ready|
      requires ready != [] ==> itRead != 0 || SomeReady(ready)
      modifies this
      ensures ready == [] ==> !got && block == |ready| && itRead == old(itRead)
      ensures got <==> SomeReady(ready)
      ensures looks <= |ready| && itRead <= |ready|
      ensures got ==>
                && looks > 0 && block == Cyclic(|ready|, old(itRead), looks - 1) && ready[block]
                && (forall j: nat | j < looks - 1 :: !ready[Cyclic(|ready|, old(itRead), j)])
                && itRead == block + 1
      ensures !got ==> block == |ready| && itRead == old(itRead)
    {
      got, block, looks := false, |ready|, 0;
      if ready == [] {
        return;
      }
      var n, lastRead := |ready|, itRead;
      while true
        invariant 0 <= looks < n && itRead == Turns(n, lastRead, looks) && lastRead == old(itRead)
        invariant !got && block == n
        invariant forall j: nat | j < looks :: !ready[Cyclic(n, lastRead, j)]
        decreases n - looks
      {
        LooksInCyclicOrder(n, lastRead, looks);
        if itRead == n {
          itRead := 0;
        }
        if ready[itRead] {
          block := itRead;
          got := true;
        }
        itRead := itRead + 1;
        looks := looks + 1;
        if block != n {
          break;
        }
        if itRead == lastRead {
          NoneReady(ready, lastRead, looks);
          break;
        }
        if looks == n {
          NoneReady(ready, lastRead, looks);
          assert false;
        }
      }
    }

    /** getLowerBoundBlock, on the keys of the map */
    method GetLowerBoundBlock(keys: seq<Key>, key: Key) returns (block: nat, got: bool)
      requires Sorted(keys)
      ensures block == LowerBound(keys, key)
      ensures got <==> exists i :: 0 <= i < |keys| && key <= keys[i]
    {
      got := false;
      if keys == [] {
        return 0, false;
      }
      block := LowerBound(keys, key);
      if block != |keys| {
        got := true;
      }
    }
  }

  /** The iterator is back, or has gone all the way round: nothing was ready. */
  lemma NoneReady(ready: seq<bool>, start: nat, looks: nat)
    requires ready != [] && start <= |ready| && 0 < looks <= |ready|
    requires forall j: nat | j < looks :: !ready[Cyclic(|ready|, start, j)]
    requires Turns(|ready|, start, looks) == start || looks == |ready|
    ensures looks == |ready| && !SomeReady(ready)
    ensures start != 0 ==> Turns(|ready|, start, looks) == start
  {
    var n := |ready|;
    LooksInCyclicOrder(n, start, looks - 1);
    LooksInCyclicOrder(n, start, n - 1);
    forall i | 0 <= i < n
      ensures !ready[i]
    {
      var k := EachBlockOnce(n, start, i);
    }
  }
}
