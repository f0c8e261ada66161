/**
 Where the records of a CycleBuffer lie.

 A record whose cursor is `cur` is a two-byte length followed by the body. It is laid out
 in one of three ways, all derived from the cursor, the length and the ring's size:
   - linear:   length at cur, body right after it;
   - split:    length at cur, body at 0, when the body would reach the end of the array;
   - restart:  cursor on the last byte, length at 0 and body at 2.
 */
module RingLayout {
  import opened Bytes

  function LenPos(size: nat, cur: nat): nat {
    if cur + 1 == size then 0 else cur
  }

  predicate Wraps(size: nat, cur: nat, len: nat) {
    cur + 2 + len >= size
  }

  function BodyPos(size: nat, cur: nat, len: nat): nat {
    if cur + 1 == size then 2 else if Wraps(size, cur, len) then 0 else cur + 2
  }

  /** The cursor after a record. */
  function Next(size: nat, cur: nat, len: nat): nat {
    BodyPos(size, cur, len) + len
  }

  /** There is room for a record in front of `head`: it stays below a tail that lies ahead, or it need
      not wrap, or it ends below tail once it has wrapped. RoomExactly says what that is worth. */
  predicate CanWrite(size: nat, tail: nat, head: nat, len: nat) {
    if tail <= head then head + 2 + len < size || tail > Next(size, head, len) else head + 2 + len < tail
  }

  /** What the code asks for, without its cast: two bytes more than needed when only the body wraps. */
  predicate CautiousRoom(size: nat, tail: nat, head: nat, len: nat) {
    if tail <= head then head + 2 + len < size || tail > len + 2 else head + 2 + len < tail
  }

  /** The two clauses of the refusal test, each with its own reads of `tail`. */
  predicate RefusesReads(size: nat, head: nat, len: nat, t1: nat, t2: nat, t3: nat, t4: nat) {
    || (t1 <= head && head + 2 + len >= size && ToInt32(t2) <= len + 2)
    || (t3 > head && head + 2 + len >= t4)
  }

  /** The refusal test when `tail` does not move while it is evaluated. */
  predicate Refuses(size: nat, tail: nat, head: nat, len: nat) {
    RefusesReads(size, head, len, tail, tail, tail, tail)
  }

  /** What passes the test has room. Below 2^31 the test refuses exactly the writes without cautious
      room, and of those with room only the ones whose body alone wraps and ends one or two bytes below tail. */
  lemma RefusalGuardsRoom(size: nat, tail: nat, head: nat, len: nat)
    ensures !Refuses(size, tail, head, len) ==> CanWrite(size, tail, head, len)
    ensures tail < 0x8000_0000 ==> (Refuses(size, tail, head, len) <==> !CautiousRoom(size, tail, head, len))
    ensures CanWrite(size, tail, head, len) && !CautiousRoom(size, tail, head, len)
       <==> tail <= head && Wraps(size, head, len) && head + 1 != size && len < tail <= len + 2
  {
  }

  /** Cell i lies between tail and head. */
  predicate Occupied(size: nat, tail: nat, head: nat, i: nat) {
    if tail <= head then tail <= i < head else tail <= i < size || i < head
  }

  /** The k-th byte a record occupies, counting the length bytes first. */
  function Cell(size: nat, cur: nat, len: nat, k: nat): nat {
    if k < 2 then LenPos(size, cur) + k else BodyPos(size, cur, len) + (k - 2)
  }

  function CellByte(data: seq<Byte>, k: nat): Byte
    requires |data| < U16 && k < 2 + |data|
  {
    if k == 0 then |data| % 0x100 else if k == 1 then |data| / 0x100 else data[k - 2]
  }

  /** The record `data` is stored at cursor `cur`. */
  ghost predicate RecordAt(mem: seq<Byte>, cur: nat, data: seq<Byte>) {
    var size, lp, bp := |mem|, LenPos(|mem|, cur), BodyPos(|mem|, cur, |data|);
    && |data| < U16
    && cur < size
    && lp + 1 < size
    && bp + |data| < size
    && Load16(mem[lp], mem[lp + 1]) == |data|
    && mem[bp..bp + |data|] == data
  }

  /** The records q lie one after the other from tail to head, with at most one wrap. */
  ghost predicate Chain(mem: seq<Byte>, tail: nat, head: nat, q: seq<seq<Byte>>)
    decreases |q|
  {
    if q == [] then
      tail == head
    else
      var size, len := |mem|, |q[0]|;
      var next := Next(size, tail, len);
      && RecordAt(mem, tail, q[0])
      && (if tail <= head then !Wraps(size, tail, len) && next <= head
          else Wraps(size, tail, len) ==> next <= head)
      && Chain(mem, next, head, q[1..])
  }

  /** A write does no harm: the bytes it stores lie inside the array, outside every queued record, and
      are all different; head stays inside and never reaches tail, and a wrapped head is below tail. */
  ghost predicate Harmless(size: nat, tail: nat, head: nat, len: nat) {
    && (forall k: nat | k < 2 + len :: Cell(size, head, len, k) < size)
    && (forall k: nat | k < 2 + len :: !Occupied(size, tail, head, Cell(size, head, len, k)))
    && (forall j: nat, k: nat | j < k < 2 + len :: Cell(size, head, len, j) != Cell(size, head, len, k))
    && Next(size, head, len) < size && Next(size, head, len) != tail
    && (Wraps(size, head, len) ==> Next(size, head, len) < tail)
  }

  /** Room is exactly what a write needs to do no harm. */
  lemma RoomExactly(size: nat, tail: nat, head: nat, len: nat)
    requires tail < size && head < size
    ensures CanWrite(size, tail, head, len) <==> Harmless(size, tail, head, len)
  {
    if !CanWrite(size, tail, head, len) && tail > head {
      if !Wraps(size, head, len) {
        assert tail < head + 2 + len ==> Cell(size, head, len, tail - head) == tail;
      } else if tail == head + 1 {
        assert Cell(size, head, len, 1) == tail;
      } else {
        assert Cell(size, head, len, 2) == 0 && Cell(size, head, len, 0) == head;
      }
    }
  }

  /** What a permitted write does to the region between tail and head: it grows by the stored cells. */
  lemma WriteFrame(size: nat, tail: nat, head: nat, len: nat)
    requires tail < size && head < size && CanWrite(size, tail, head, len)
    ensures Harmless(size, tail, head, len)
    ensures Wraps(size, head, len) <==> Next(size, head, len) < head
    ensures forall i: nat | i < size ::
              Occupied(size, tail, Next(size, head, len), i)
              <== Occupied(size, tail, head, i) || exists k: nat :: k < 2 + len && Cell(size, head, len, k) == i
  {
  }

  /** Changing free bytes does not change the queue. */
  lemma {:induction false} ChainFrame(mem: seq<Byte>, mem': seq<Byte>, tail: nat, head: nat, q: seq<seq<Byte>>)
    requires |mem'| == |mem|
    requires head < |mem| && Chain(mem, tail, head, q)
    requires forall i: nat | i < |mem| && Occupied(|mem|, tail, head, i) :: mem'[i] == mem[i]
    ensures Chain(mem', tail, head, q)
    decreases |q|
  {
    if q != [] {
      var len := |q[0]|;
      var bp := BodyPos(|mem|, tail, len);
      assert mem'[bp..bp + len] == mem[bp..bp + len];
      ChainFrame(mem, mem', Next(|mem|, tail, len), head, q[1..]);
    }
  }

  /** A record written at head becomes the last of the queue. */
  lemma {:induction false} ChainAppend(mem: seq<Byte>, tail: nat, head: nat, q: seq<seq<Byte>>, r: seq<Byte>)
    requires tail < |mem| && head < |mem|
    requires Chain(mem, tail, head, q) && RecordAt(mem, head, r)
    requires CanWrite(|mem|, tail, head, |r|)
    ensures Chain(mem, tail, Next(|mem|, head, |r|), q + [r])
    decreases |q|
  {
    if q == [] {
      assert (q + [r])[1..] == [];
    } else {
      ChainAppend(mem, Next(|mem|, tail, |q[0]|), head, q[1..], r);
      assert (q + [r])[1..] == q[1..] + [r];
    }
  }

  /** Reading moves tail forward, which only frees room. */
  lemma RoomGrows(size: nat, tail: nat, head: nat, len: nat, mem: seq<Byte>, q: seq<seq<Byte>>)
    requires size == |mem| && head < size && q != [] && Chain(mem, tail, head, q)
    requires CanWrite(size, tail, head, len)
    ensures CanWrite(size, Next(size, tail, |q[0]|), head, len)
  {
    if |q| > 1 { assert q[1..][0] == q[1]; }
  }
}
