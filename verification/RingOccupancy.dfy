/** What `length()` counts, and when an empty ring has room at every cursor. */
module RingOccupancy {
  import opened Bytes
  import opened RingLayout

  /** `length()` */
  function Length(size: nat, tail: nat, head: nat): int {
    if head >= tail then head - tail else size - tail + head
  }

  /** The cells a record takes away from the ring, including those skipped before a wrap. */
  function Cost(size: nat, cur: nat, len: nat): int {
    Length(size, cur, Next(size, cur, len))
  }

  /** The bytes the queued records need: a length and a body each. */
  function Payload(q: seq<seq<Byte>>): nat {
    if q == [] then 0 else 2 + |q[0]| + Payload(q[1..])
  }

  /** The cursor reached from cur after the records of q. */
  function Walk(size: nat, cur: nat, q: seq<seq<Byte>>): nat
    decreases |q|
  {
    if q == [] then cur else Walk(size, Next(size, cur, |q[0]|), q[1..])
  }

  /** tail after the reader has taken i of the queued records. */
  function TailAfter(size: nat, tail: nat, q: seq<seq<Byte>>, i: nat): nat
    decreases i
  {
    if i == 0 || q == [] then tail else TailAfter(size, Next(size, tail, |q[0]|), q[1..], i - 1)
  }

  /** Index of the record that wraps, |q| if there is none. */
  function WrapIndex(size: nat, cur: nat, q: seq<seq<Byte>>): (k: nat)
    ensures k <= |q|
    decreases |q|
  {
    if q == [] || Wraps(size, cur, |q[0]|) then 0 else 1 + WrapIndex(size, Next(size, cur, |q[0]|), q[1..])
  }

  /** A record costs its own bytes, plus a gap only when it wraps. */
  lemma CostOfRecord(size: nat, cur: nat, len: nat)
    requires cur < size && Next(size, cur, len) < size
    requires Wraps(size, cur, len) ==> Next(size, cur, len) < cur
    ensures !Wraps(size, cur, len) ==> Cost(size, cur, len) == 2 + len
    ensures Wraps(size, cur, len) ==>
              2 + len <= Cost(size, cur, len) <= 2 + len + (if len == 0 then 1 else len)
  {
  }

  /** The cells skipped when the record of index k wraps. */
  function GapAt(size: nat, tail: nat, q: seq<seq<Byte>>, k: nat): int
    requires k < |q|
  {
    Cost(size, TailAfter(size, tail, q, k), |q[k]|) - (2 + |q[k]|)
  }

  /** Occupancy is conserved: the bytes of the queued records, plus the one gap before the wrap, which
      exists only while head is below tail and is bounded by the wrapping record. */
  lemma {:induction false} LengthIsPayloadPlusGap(mem: seq<Byte>, tail: nat, head: nat, q: seq<seq<Byte>>)
    requires tail < |mem| && head < |mem| && Chain(mem, tail, head, q)
    ensures 0 <= Length(|mem|, tail, head) <= |mem| - 1
    ensures tail <= head ==> Length(|mem|, tail, head) == Payload(q) && WrapIndex(|mem|, tail, q) == |q|
    ensures tail > head ==>
              var k := WrapIndex(|mem|, tail, q);
              && k < |q|
              && Length(|mem|, tail, head) == Payload(q) + GapAt(|mem|, tail, q, k)
              && 0 <= GapAt(|mem|, tail, q, k) <= if |q[k]| == 0 then 1 else |q[k]|
    decreases |q|
  {
    if q != [] {
      var next := Next(|mem|, tail, |q[0]|);
      LengthIsPayloadPlusGap(mem, next, head, q[1..]);
      if tail > head && !Wraps(|mem|, tail, |q[0]|) {
        var k := WrapIndex(|mem|, next, q[1..]);
        assert q[1..][k] == q[k + 1];
      }
    }
  }

  /** Writing takes exactly the cost of the record at the cursor head ... */
  lemma WriteTakes(size: nat, tail: nat, head: nat, len: nat)
    requires tail < size && head < size && CanWrite(size, tail, head, len)
    ensures Length(size, tail, Next(size, head, len)) == Length(size, tail, head) + Cost(size, head, len)
  {
  }

  /** ... reading gives back the cost of the record at the cursor tail ... */
  lemma ReadGivesBack(mem: seq<Byte>, tail: nat, head: nat, q: seq<seq<Byte>>)
    requires tail < |mem| && head < |mem| && q != [] && Chain(mem, tail, head, q)
    ensures Length(|mem|, Next(|mem|, tail, |q[0]|), head)
         == Length(|mem|, tail, head) - Cost(|mem|, tail, |q[0]|)
  {
    LengthIsPayloadPlusGap(mem, Next(|mem|, tail, |q[0]|), head, q[1..]);
  }

  /** ... and that cursor is the same one: every record is read at the cursor it was written at. */
  lemma {:induction false} CursorOfRecord(mem: seq<Byte>, tail: nat, head: nat, q: seq<seq<Byte>>, r: seq<Byte>, i: nat)
    requires tail < |mem| && Chain(mem, tail, head, q) && i <= |q|
    ensures Walk(|mem|, tail, q) == head
    ensures Walk(|mem|, tail, (q + [r])[..i]) == Walk(|mem|, tail, q[..i])
    ensures i == |q| ==> Walk(|mem|, tail, (q + [r])[..i]) == head
    ensures 0 < i ==> Walk(|mem|, Next(|mem|, tail, |q[0]|), q[1..][..i - 1]) == Walk(|mem|, tail, q[..i])
    decreases |q|
  {
    assert (q + [r])[..i] == q[..i];
    assert q[..|q|] == q;
    if q != [] {
      CursorOfRecord(mem, Next(|mem|, tail, |q[0]|), head, q[1..], r, 0);
      if 0 < i { assert q[..i][1..] == q[1..][..i - 1]; }
    }
  }

  // ---------- progress ----------

  /** Records of one length, written and read back one at a time from a cleared ring: the
      cursor at which the n-th of them is tried. */
  function PingPong(size: nat, len: nat, n: nat): nat {
    if n == 0 then 0 else Next(size, PingPong(size, len, n - 1), len)
  }

  /** An empty ring accepts a record of length len at every cursor exactly when 2*len + 4 < size. */
  lemma EmptyRingAccepts(size: nat, len: nat)
    requires 0 < size < 0x8000_0000
    ensures (forall c: nat | c < size :: !Refuses(size, c, c, len)) <==> 2 * len + 4 < size
  {
    if 2 * len + 4 >= size {
      var c := if len + 2 < size then len + 2 else 0;
      assert Refuses(size, c, c, len);
    }
  }

  /** Ping-pong traffic from a cleared ring runs for ever exactly when 2*len + 4 < size; below
      that it stops at the first record that does not fit or at the second one. */
  lemma PingPongNeverRefused(size: nat, len: nat)
    requires 0 < size < 0x8000_0000
    ensures (forall n: nat ::
               PingPong(size, len, n) < size && !Refuses(size, PingPong(size, len, n), PingPong(size, len, n), len))
       <==> 2 * len + 4 < size
    ensures len + 2 < size <= 2 * len + 4 ==>
              && !Refuses(size, 0, 0, len)
              && PingPong(size, len, 1) < size
              && Refuses(size, PingPong(size, len, 1), PingPong(size, len, 1), len)
    ensures size <= len + 2 ==> Refuses(size, 0, 0, len)
  {
    assert PingPong(size, len, 0) == 0;
    if 2 * len + 4 < size {
      forall n: nat
        ensures PingPong(size, len, n) < size && !Refuses(size, PingPong(size, len, n), PingPong(size, len, n), len)
      {
        PingPongInBounds(size, len, n);
      }
    } else if len + 2 < size {
      assert PingPong(size, len, 1) == len + 2;
    }
  }

  lemma {:induction false} PingPongInBounds(size: nat, len: nat, n: nat)
    requires 2 * len + 4 < size
    ensures PingPong(size, len, n) < size
  {
    if n > 0 {
      PingPongInBounds(size, len, n - 1);
      WriteFrame(size, PingPong(size, len, n - 1), PingPong(size, len, n - 1), len);
    }
  }
}
