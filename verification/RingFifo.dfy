/** The ring as one writer and one reader use it in turn, and its refinement of a FIFO queue. */
module RingFifo {
  import opened Bytes
  import opened RingLayout
  import opened RingOccupancy

  type Record = d: seq<Byte> | |d| < U16

  // ---------- the ring as a value ----------

  datatype Ring = Ring(mem: seq<Byte>, head: nat, tail: nat)

  datatype ReadResult = Null | Bytes(data: seq<Byte>) | OutOfBounds

  /** The cursors are inside the array; a ring of size 0 has both at 0. */
  predicate CursorsInRange(r: Ring) {
    (r.head < |r.mem| && r.tail < |r.mem|) || (r.mem == [] && r.head == 0 && r.tail == 0)
  }

  /** The ring r holds the queue q. */
  ghost predicate Holds(r: Ring, q: seq<seq<Byte>>) {
    CursorsInRange(r) && Chain(r.mem, r.tail, r.head, q)
  }

  predicate RecordFits(mem: seq<Byte>, cur: nat, len: nat) {
    && cur < |mem| && LenPos(|mem|, cur) + 1 < |mem|
    && BodyPos(|mem|, cur, len) + len <= |mem|
  }

  /** The array after a record's length has been stored at cursor cur ... */
  function StoreLength(mem: seq<Byte>, cur: nat, len: nat): (r: seq<Byte>)
    requires LenPos(|mem|, cur) + 1 < |mem| && len < 0x10000
    ensures |r| == |mem|
  {
    var lp := LenPos(|mem|, cur);
    mem[lp := len % 0x100][lp + 1 := len / 0x100]
  }

  /** ... and its body as well. */
  function Store(mem: seq<Byte>, cur: nat, data: Record): seq<Byte>
    requires RecordFits(mem, cur, |data|)
  {
    var bp, withLength := BodyPos(|mem|, cur, |data|), StoreLength(mem, cur, |data|);
    withLength[..bp] + data + withLength[bp + |data|..]
  }

  function Write(r: Ring, data: Record): (Ring, bool)
    requires CursorsInRange(r)
  {
    if Refuses(|r.mem|, r.tail, r.head, |data|) then (r, false)
    else
      RefusalGuardsRoom(|r.mem|, r.tail, r.head, |data|);
      (Ring(Store(r.mem, r.head, data), Next(|r.mem|, r.head, |data|), r.tail), true)
  }

  function Read(r: Ring): (Ring, ReadResult)
    requires CursorsInRange(r)
  {
    if r.tail <= r.head && r.tail + 2 > r.head then (r, Null)
    else if LenPos(|r.mem|, r.tail) + 1 >= |r.mem| then (r, OutOfBounds)
    else
      var lp := LenPos(|r.mem|, r.tail);
      var len := Load16(r.mem[lp], r.mem[lp + 1]);
      var bp := BodyPos(|r.mem|, r.tail, len);
      if bp + len >= |r.mem| then (r, OutOfBounds)
      else (r.(tail := bp + len), Bytes(r.mem[bp..bp + len]))
  }

  /** Byte i of a stored record's array. */
  lemma StoreByteAt(mem: seq<Byte>, cur: nat, data: Record, i: nat)
    requires RecordFits(mem, cur, |data|) && i < |mem|
    requires var lp, bp := LenPos(|mem|, cur), BodyPos(|mem|, cur, |data|); lp + 1 < bp || bp + |data| <= lp
    ensures |Store(mem, cur, data)| == |mem|
    ensures var lp, bp := LenPos(|mem|, cur), BodyPos(|mem|, cur, |data|);
            Store(mem, cur, data)[i] == if bp <= i < bp + |data| then data[i - bp]
                                        else if i == lp then |data| % 0x100
                                        else if i == lp + 1 then |data| / 0x100 else mem[i]
  {
    hide LenPos, BodyPos;
  }

  lemma FitsApart(size: nat, tail: nat, head: nat, len: nat)
    requires tail < size && head < size && CanWrite(size, tail, head, len)
    ensures var lp, bp := LenPos(size, head), BodyPos(size, head, len);
            lp + 1 < size && bp + len < size && (lp + 1 < bp || bp + len <= lp)
  {
  }

  lemma StoreGivesRecord(mem: seq<Byte>, cur: nat, data: Record)
    requires RecordFits(mem, cur, |data|) && BodyPos(|mem|, cur, |data|) + |data| < |mem|
    requires var lp, bp := LenPos(|mem|, cur), BodyPos(|mem|, cur, |data|); lp + 1 < bp || bp + |data| <= lp
    ensures RecordAt(Store(mem, cur, data), cur, data)
  {
    var lp, bp := LenPos(|mem|, cur), BodyPos(|mem|, cur, |data|);
    StoreByteAt(mem, cur, data, lp);
    StoreByteAt(mem, cur, data, lp + 1);
    assert Store(mem, cur, data)[bp..bp + |data|] == data by {
      hide LenPos, BodyPos;
    }
    hide Store, LenPos, BodyPos;
  }

  /** An occupied cell is none of those that a permitted write stores. */
  lemma OccupiedIsApart(size: nat, tail: nat, head: nat, len: nat, i: nat)
    requires tail < size && head < size && CanWrite(size, tail, head, len) && Occupied(size, tail, head, i)
    ensures var lp, bp := LenPos(size, head), BodyPos(size, head, len); i != lp && i != lp + 1 && !(bp <= i < bp + len)
  {
  }

  lemma StoreMakesRecord(r: Ring, data: Record)
    requires CursorsInRange(r) && CanWrite(|r.mem|, r.tail, r.head, |data|)
    requires r.mem != []
    ensures RecordFits(r.mem, r.head, |data|)
    ensures var mem := Store(r.mem, r.head, data);
            && |mem| == |r.mem| && RecordAt(mem, r.head, data)
            && forall i: nat | i < |mem| && Occupied(|mem|, r.tail, r.head, i) :: mem[i] == r.mem[i]
  {
    var size, mem := |r.mem|, Store(r.mem, r.head, data);
    FitsApart(size, r.tail, r.head, |data|);
    hide Occupied, CanWrite, LenPos, BodyPos, RecordAt, Store;
    StoreGivesRecord(r.mem, r.head, data);
    StoreByteAt(r.mem, r.head, data, 0);
    forall i: nat | i < |mem| && Occupied(|mem|, r.tail, r.head, i)
      ensures mem[i] == r.mem[i]
    {
      OccupiedIsApart(size, r.tail, r.head, |data|, i);
      StoreByteAt(r.mem, r.head, data, i);
    }
  }

  /** A write leaves the bytes between tail and head alone. */
  ghost predicate WriteFrameOk(r: Ring, data: Record)
    requires CursorsInRange(r)
  {
    var mem := Write(r, data).0.mem;
    |mem| == |r.mem| && forall i: nat | i < |r.mem| && Occupied(|r.mem|, r.tail, r.head, i) :: mem[i] == r.mem[i]
  }

  lemma WriteKeepsQueued(r: Ring, data: Record)
    requires CursorsInRange(r)
    ensures WriteFrameOk(r, data)
  {
    RefusalGuardsRoom(|r.mem|, r.tail, r.head, |data|);
    if Write(r, data).1 {
      StoreMakesRecord(r, data);
    }
  }

  /** An accepted write appends exactly its record; a refused one changes nothing. */
  lemma WriteRefinesEnqueue(r: Ring, q: seq<seq<Byte>>, data: Record)
    requires Holds(r, q)
    ensures Write(r, data).1 ==> Holds(Write(r, data).0, q + [data])
    ensures !Write(r, data).1 ==> Write(r, data).0 == r
    ensures q == [] && |r.mem| < 0x8000_0000 && 2 * |data| + 4 < |r.mem| ==> Write(r, data).1
  {
    if Write(r, data).1 {
      RefusalGuardsRoom(|r.mem|, r.tail, r.head, |data|);
      StoreMakesRecord(r, data);
      var mem := Store(r.mem, r.head, data);
      ChainFrame(r.mem, mem, r.tail, r.head, q);
      WriteFrame(|mem|, r.tail, r.head, |data|);
      ChainAppend(mem, r.tail, r.head, q, data);
    }
  }

  /** A read finds nothing exactly when the queue is empty; otherwise it takes the oldest record,
      byte for byte, having worked out the layout from tail, the length and the size alone. */
  lemma ReadRefinesDequeue(r: Ring, q: seq<seq<Byte>>)
    requires Holds(r, q)
    ensures Read(r).1 == Null <==> q == []
    ensures q == [] ==> Read(r).0 == r
    ensures q != [] ==> Read(r).1 == Bytes(q[0]) && Holds(Read(r).0, q[1..])
  {
    if q != [] {
      var lp := LenPos(|r.mem|, r.tail);
      assert RecordAt(r.mem, r.tail, q[0]);
      assert Load16(r.mem[lp], r.mem[lp + 1]) == |q[0]|;
    }
  }

  // ---------- every run of calls ----------

  datatype Op = Put(data: Record) | Get
  datatype Out = Stored(ok: bool) | Got(result: ReadResult)

  function Call(r: Ring, op: Op): (Ring, Out)
    requires CursorsInRange(r)
  {
    match op
    case Put(data) => var (r', ok) := Write(r, data); (r', Stored(ok))
    case Get => var (r', result) := Read(r); (r', Got(result))
  }

  lemma CallKeepsCursors(r: Ring, op: Op)
    requires CursorsInRange(r)
    ensures CursorsInRange(Call(r, op).0) && |Call(r, op).0.mem| == |r.mem|
  {
    if op.Put? { RefusalGuardsRoom(|r.mem|, r.tail, r.head, |op.data|); }
  }

  function RunCalls(r: Ring, ops: seq<Op>): (Ring, seq<Out>)
    requires CursorsInRange(r)
    decreases |ops|
  {
    if ops == [] then (r, [])
    else
      CallKeepsCursors(r, ops[0]);
      var (r', out) := Call(r, ops[0]);
      var (end, outs) := RunCalls(r', ops[1..]);
      (end, [out] + outs)
  }

  /** The outcomes are those of a FIFO queue that starts as q and ends as q'. A write may be
      refused, but not when the queue is empty and the record is small enough for the ring. */
  ghost predicate Explains(size: nat, q: seq<seq<Byte>>, ops: seq<Op>, outs: seq<Out>, q': seq<seq<Byte>>)
    decreases |ops|
  {
    if ops == [] then
      outs == [] && q' == q
    else if outs == [] then
      false
    else
      match (ops[0], outs[0])
      case (Put(data), Stored(ok)) =>
        && (ok || q != [] || 2 * |data| + 4 >= size || size >= 0x8000_0000)
        && Explains(size, if ok then q + [data] else q, ops[1..], outs[1..], q')
      case (Get, Got(Null)) => q == [] && Explains(size, q, ops[1..], outs[1..], q')
      case (Get, Got(Bytes(data))) => q != [] && data == q[0] && Explains(size, q[1..], ops[1..], outs[1..], q')
      case _ => false
  }

  /** FIFO refinement: every run of calls on a ring behaves as the queue it holds, and no call
      reads or writes outside the array. */
  lemma {:induction false} RunRefinesFifo(r: Ring, q: seq<seq<Byte>>, ops: seq<Op>) returns (q': seq<seq<Byte>>)
    requires Holds(r, q)
    ensures Explains(|r.mem|, q, ops, RunCalls(r, ops).1, q')
    ensures Holds(RunCalls(r, ops).0, q')
    decreases |ops|
  {
    if ops == [] {
      q' := q;
    } else {
      CallKeepsCursors(r, ops[0]);
      var (r', out) := Call(r, ops[0]);
      var mid := q;
      if ops[0].Put? {
        WriteRefinesEnqueue(r, q, ops[0].data);
        mid := if out.ok then q + [ops[0].data] else q;
      } else {
        ReadRefinesDequeue(r, q);
        mid := if q == [] then q else q[1..];
      }
      q' := RunRefinesFifo(r', mid, ops[1..]);
      var (end, outs) := RunCalls(r', ops[1..]);
      assert ([out] + outs)[1..] == outs;
    }
  }

  /** The same from `clear`, whatever the array contained. */
  lemma ClearedRingIsFifo(mem: seq<Byte>, ops: seq<Op>)
    ensures exists q' ::
              && Explains(|mem|, [], ops, RunCalls(Ring(mem, 0, 0), ops).1, q')
              && Holds(RunCalls(Ring(mem, 0, 0), ops).0, q')
  {
    var q' := RunRefinesFifo(Ring(mem, 0, 0), [], ops);
  }

  // ---------- the class ----------

  class CycleBuffer {
    const buffer: array<Byte>
    var head: nat
    var tail: nat
    ghost var queue: seq<seq<Byte>>

    ghost predicate Valid()
      reads this, buffer
    {
      Holds(Model(), queue)
    }

    ghost function Model(): Ring
      reads this, buffer
    {
      Ring(buffer[..], head, tail)
    }

    constructor (buffer: array<Byte>)
      ensures Valid() && this.buffer == buffer && queue == [] && Model() == Ring(buffer[..], 0, 0)
    {
      this.buffer := buffer;
      head, tail := 0, 0;
      queue := [];
    }

    method Clear()
      modifies this
      ensures Valid() && queue == [] && Model() == Ring(buffer[..], 0, 0)
    {
      head, tail := 0, 0;
      queue := [];
    }

    method LengthUsed() returns (n: nat)
      requires Valid()
      ensures n == Length(buffer.Length, tail, head)
      ensures n == 0 <==> queue == []
      ensures Payload(queue) <= n <= buffer.Length
      ensures buffer.Length > 0 ==> n < buffer.Length
    {
      if buffer.Length > 0 {
        LengthIsPayloadPlusGap(buffer[..], tail, head, queue);
      }
      n := if head >= tail then head - tail else buffer.Length - tail + head;
    }

    /** The part of write1 after the check: store the length, copy the body, publish head. */
    method StoreRecord(data: Record)
      requires head < buffer.Length && RecordFits(buffer[..], head, |data|)
      modifies this`head, buffer
      ensures buffer[..] == Store(old(buffer[..]), old(head), data)
      ensures head == Next(buffer.Length, old(head), |data|)
    {
      var len := |data|;
      var pos := head + 2;
      if head == buffer.Length - 1 {
        buffer[0], buffer[1] := len % 0x100, len / 0x100;
        pos := 2;
      } else {
        buffer[pos - 2], buffer[pos - 1] := len % 0x100, len / 0x100;
        if pos + len >= buffer.Length {
          pos := 0;
        }
      }
      assert buffer[..] == StoreLength(old(buffer[..]), head, len);
      hide StoreLength;
      CopyBody(pos, data);
      head := pos + len;
    }

    /** memcpy of the body. */
    method CopyBody(pos: nat, data: seq<Byte>)
      requires pos + |data| <= buffer.Length
      modifies buffer
      ensures buffer[..] == old(buffer[..])[..pos] + data + old(buffer[..])[pos + |data|..]
    {
      forall i | 0 <= i < |data| {
        buffer[pos + i] := data[i];
      }
    }

    method Write1(data: Record) returns (ok: bool)
      requires Valid()
      modifies this`head, this`queue, buffer
      ensures Valid()
      ensures (Model(), ok) == Write(old(Model()), data)
      ensures queue == if ok then old(queue) + [data] else old(queue)
      ensures !ok ==> Model() == old(Model())
      ensures forall i: nat | i < buffer.Length && Occupied(buffer.Length, tail, old(head), i) ::
          buffer[..][i] == old(buffer[..])[i]
    {
      hide Chain, Store;
      ghost var before, q := Model(), queue;
      assert Holds(Write(before, data).0, if Write(before, data).1 then q + [data] else q)
          && WriteFrameOk(before, data) by {
        WriteRefinesEnqueue(before, q, data);
        WriteKeepsQueued(before, data);
      }
      var pos, len := head + 2, |data|;
      if (tail <= head && pos + len >= buffer.Length && ToInt32(tail) <= len + 2)
         || (tail > head && pos + len >= tail)
      {
        return false;
      }
      assert !Refuses(buffer.Length, tail, head, len);
      RefusalGuardsRoom(buffer.Length, tail, head, len);
      StoreRecord(data);
      assert Model() == Write(before, data).0;
      queue := queue + [data];
      return true;
    }

    /** The pointer and the length that read1 hands out, as a position in the array. */
    method Read1() returns (found: bool, pos: nat, len: nat)
      requires Valid()
      modifies this`tail, this`queue
      ensures Valid()
      ensures found <==> old(queue) != []
      ensures !found ==> queue == old(queue)
      ensures found ==> pos + len <= buffer.Length && buffer[pos..pos + len] == old(queue)[0]
      ensures found ==> queue == old(queue)[1..]
      ensures Model() == Read(old(Model())).0
    {
      hide Chain;
      ghost var before, q := Model(), queue;
      pos, len := tail + 2, 0;
      if tail <= head && pos > head {
        assert q == [] by { ReadRefinesDequeue(before, q); }
        return false, pos, len;
      }
      ReadRefinesDequeue(before, q);
      assert Read(before).1 == Bytes(q[0]);
      if tail == buffer.Length - 1 {
        len := Load16(buffer[0], buffer[1]);
        pos := 2;
      } else {
        len := Load16(buffer[pos - 2], buffer[pos - 1]);
        if pos + len >= buffer.Length {
          pos := 0;
        }
      }
      tail := pos + len;
      queue := queue[1..];
      assert Model() == Read(before).0;
      return true, pos, len;
    }
  }
}
