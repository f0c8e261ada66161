/**
 The allocator of fixed-size slots with its intrusive free list.

 A slot is a row of cells; the last cell of a free slot is its `next` link. A lent slot belongs to
 the client, who may write every cell of it, the link included.
 */
module SlotAllocator {
  import opened Wrappers

  /** What a pointer-sized cell can hold. */
  datatype Cell = Null | Slot(index: nat) | Packet(ptr: int)

  type Memory = seq<seq<Cell>>

  predicate WellShaped(m: Memory, width: nat) {
    width >= 1 && forall i: nat | i < |m| :: |m[i]| == width
  }

  predicate Distinct(s: seq<nat>) {
    forall i: nat, j: nat | i < j < |s| :: s[i] != s[j]
  }

  predicate InRange(s: seq<nat>, n: nat) {
    forall i: nat | i < |s| :: s[i] < n
  }

  predicate LinkAt(m: Memory, width: nat, s: seq<nat>, i: nat)
    requires WellShaped(m, width) && i < |s| && s[i] < |m|
  {
    m[s[i]][width - 1] == if i + 1 < |s| then Slot(s[i + 1]) else Null
  }

  /** Following `next` from the first slot of s visits exactly s and ends in a null link. */
  ghost predicate Linked(m: Memory, width: nat, s: seq<nat>)
    requires WellShaped(m, width) && InRange(s, |m|)
  {
    forall i: nat | i < |s| :: LinkAt(m, width, s, i)
  }

  ghost predicate FreeList(m: Memory, width: nat, free: seq<nat>) {
    && WellShaped(m, width)
    && Distinct(free) && InRange(free, |m|)
    && Linked(m, width, free)
  }

  /** The slots handed out. */
  ghost function LentSlots(overall: nat, free: seq<nat>): set<nat> {
    set i: nat | i < overall && i !in free
  }

  /** Lent and free slots are all the slots, and no slot is both. */
  lemma {:induction false} PartitionCount(overall: nat, free: seq<nat>)
    requires Distinct(free) && InRange(free, overall)
    ensures |LentSlots(overall, free)| + |free| == overall
    decreases |free|
  {
    if free == [] {
      AllSlots(overall);
    } else {
      var rest, last := free[..|free| - 1], free[|free| - 1];
      PartitionCount(overall, rest);
      assert LentSlots(overall, rest) == LentSlots(overall, free) + {last};
      assert last !in LentSlots(overall, free);
    }
  }

  lemma {:induction false} AllSlots(n: nat)
    ensures |LentSlots(n, [])| == n
  {
    if n > 0 {
      AllSlots(n - 1);
      assert LentSlots(n, []) == LentSlots(n - 1, []) + {n - 1};
    }
  }

  lemma {:induction false} EachOnce(s: seq<nat>, x: nat)
    requires Distinct(s)
    ensures multiset(s)[x] == if x in s then 1 else 0
    decreases |s|
  {
    if s != [] {
      var rest, last := s[..|s| - 1], s[|s| - 1];
      EachOnce(rest, x);
      assert s == rest + [last];
    }
  }

  /** All slots, each once, are the free ones and the lent ones. */
  lemma SlotsSplit(overall: nat, free: seq<nat>)
    requires Distinct(free) && InRange(free, overall)
    ensures multiset(seq(overall, i => i)) == multiset(free) + multiset(LentSlots(overall, free))
  {
    var all: seq<nat> := seq(overall, i => i);
    forall x: nat
      ensures multiset(all)[x] == (multiset(free) + multiset(LentSlots(overall, free)))[x]
    {
      EachOnce(all, x);
      EachOnce(free, x);
      if x < overall { assert all[x] == x; }
    }
  }

  /** A history of slots handed out and given back, in the order of the free list. */
  lemma LentIsOutstanding(overall: nat, free: seq<nat>, granted: seq<nat>, returned: seq<nat>)
    requires Distinct(free) && InRange(free, overall)
    requires granted + free == seq(overall, i => i) + returned
    ensures multiset(granted) == multiset(returned) + multiset(LentSlots(overall, free))
  {
    var all: seq<nat> := seq(overall, i => i);
    SlotsSplit(overall, free);
    assert multiset(granted + free) == multiset(granted) + multiset(free);
    assert multiset(all + returned) == multiset(all) + multiset(returned);
    assert granted + free == all + returned;
    Cancel(multiset(granted), multiset(free), multiset(returned), multiset(LentSlots(overall, free)));
  }

  lemma Cancel(a: multiset<nat>, b: multiset<nat>, c: multiset<nat>, d: multiset<nat>)
    requires a + b == b + d + c
    ensures a == c + d
  {
    forall x: nat
      ensures a[x] == (c + d)[x]
    {
      assert (a + b)[x] == (b + d + c)[x];
    }
  }

  /** Writing cells of slots that are not free leaves the free list alone. */
  lemma FreeListFrame(m: Memory, m': Memory, width: nat, free: seq<nat>)
    requires FreeList(m, width, free) && |m'| == |m| && WellShaped(m', width)
    requires forall i: nat | i < |m| && i in free :: m'[i] == m[i]
    ensures FreeList(m', width, free)
  {
    forall i: nat | i < |free|
      ensures LinkAt(m', width, free, i)
    {
      assert LinkAt(m, width, free, i) && free[i] in free;
    }
  }

  // ---------- init: where the slots lie in the region ----------

  const PAGE := 4096
  const CONTEXT_SIZE := 40

  /** Number of slots init makes of a region of `size` bytes. */
  function SlotsIn(size: nat, slotSize: nat): nat
    requires size >= PAGE && slotSize > 0
  {
    (size - PAGE) / slotSize
  }

  /** First byte of the slot array; `residue` is what the array field happens to hold, modulo the page
      size, because init reads the field before it sets it. */
  function ArrayStart(residue: nat): nat
    requires residue < PAGE
  {
    PAGE - residue
  }

  predicate Apart(a: nat, aLength: nat, b: nat, bLength: nat) {
    a + aLength <= b || b + bLength <= a
  }

  /** There are as many slots as fit behind the first page. They fit in the region for every residue;
      they stay clear of the allocator's own context at the start of the region exactly when the residue
      is at most PAGE - CONTEXT_SIZE. */
  lemma SlotsFitRegion(size: nat, slotSize: nat, residue: nat)
    requires size > PAGE + CONTEXT_SIZE && slotSize > 0 && residue < PAGE && SlotsIn(size, slotSize) >= 1
    ensures SlotsIn(size, slotSize) * slotSize <= size - PAGE < (SlotsIn(size, slotSize) + 1) * slotSize
    ensures ArrayStart(residue) + SlotsIn(size, slotSize) * slotSize <= size
    ensures Apart(0, CONTEXT_SIZE, ArrayStart(residue), SlotsIn(size, slotSize) * slotSize)
       <==> residue <= PAGE - CONTEXT_SIZE
  {
    var n := SlotsIn(size, slotSize);
    assert n * slotSize + (size - PAGE) % slotSize == size - PAGE;
    assert n * slotSize >= slotSize;
  }

  lemma AllFree(n: nat)
    ensures var free: seq<nat> := seq(n, i => i);
            Distinct(free) && InRange(free, n) && LentSlots(n, free) == {}
  {
    var free: seq<nat> := seq(n, i => i);
    forall i: nat | i < n
      ensures i in free
    {
      assert free[i] == i;
    }
  }

  // ---------- the class ----------

  class AllocatorList {
    const width: nat
    const mem: array<seq<Cell>>
    var begin: nat
    var end: nat
    var count: nat
    ghost var free: seq<nat>
    // every slot ever handed out by get, and every slot ever given back to put, in order
    ghost var granted: seq<nat>
    ghost var returned: seq<nat>

    ghost predicate Valid()
      reads this, mem
    {
      && FreeList(mem[..], width, free)
      && count == |free| >= 1
      && begin == free[0] && end == free[|free| - 1]
      && granted + free == seq(mem.Length, i => i) + returned
    }

    ghost function Lent(): (lent: set<nat>)
      reads this, mem
      ensures forall i :: i in lent ==> i < mem.Length
    {
      LentSlots(mem.Length, free)
    }

    /** The lent slots are those handed out and not given back since, each counted as often. */
    lemma Outstanding()
      requires Valid()
      ensures multiset(granted) == multiset(returned) + multiset(Lent())
      ensures |Lent()| + count == mem.Length
    {
      LentIsOutstanding(mem.Length, free, granted, returned);
      PartitionCount(mem.Length, free);
    }

    /** init with create */
    constructor (width: nat, mem: array<seq<Cell>>)
      requires mem.Length >= 1 && WellShaped(mem[..], width)
      modifies mem
      ensures this.width == width && this.mem == mem
      ensures Valid() && Lent() == {} && free == seq(mem.Length, i => i) && granted == [] && returned == []
    {
      this.width, this.mem := width, mem;
      begin, end, count := 0, mem.Length - 1, mem.Length;
      free := seq(mem.Length, i => i);
      granted, returned := [], [];
      new;
      var entry := 0;
      while entry < mem.Length - 1
        modifies mem
        invariant 0 <= entry <= mem.Length - 1 && WellShaped(mem[..], width)
        invariant forall i: nat | i < entry :: mem[i][width - 1] == Slot(i + 1)
      {
        mem[entry] := mem[entry][width - 1 := Slot(entry + 1)];
        entry := entry + 1;
      }
      mem[entry] := mem[entry][width - 1 := Null];
      AllFree(mem.Length);
      LinkedInOrder(mem[..], width);
    }

    /** The oldest free slot, unless it is the only one left. */
    method Get() returns (slot: Option<nat>)
      requires Valid()
      modifies this`begin, this`count, this`free, this`granted
      ensures Valid()
      ensures slot == None <==> old(count) == 1
      ensures slot == None ==> free == old(free) && count == old(count) && granted == old(granted)
      ensures slot.Some? ==>
                && slot.value == old(free)[0] && free == old(free)[1..]
                && granted == old(granted) + [slot.value]
                && slot.value < mem.Length && slot.value !in old(Lent()) && Lent() == old(Lent()) + {slot.value}
    {
      var entry := begin;
      assert LinkAt(mem[..], width, free, 0);
      match mem[entry][width - 1]
      case Slot(next) =>
        begin := next;
        count := count - 1;
        TakeFirst(mem[..], width, free);
        assert granted + free == (granted + [entry]) + free[1..];
        free := free[1..];
        granted := granted + [entry];
        return Some(entry);
      case _ =>
        return None;
    }

    /** Gives a lent slot back, behind all the free ones. */
    method Put(slot: nat)
      requires Valid() && slot in Lent()
      modifies this`end, this`count, this`free, this`returned, mem
      ensures Valid()
      ensures free == old(free) + [slot] && returned == old(returned) + [slot]
      ensures Lent() == old(Lent()) - {slot}
      ensures forall i: nat | i < mem.Length && i != slot && i !in old(free) :: mem[i] == old(mem[i])
    {
      ghost var before := mem[..];
      mem[slot] := mem[slot][width - 1 := Null];
      mem[end] := mem[end][width - 1 := Slot(slot)];
      end := slot;
      count := count + 1;
      GiveBack(before, width, free, slot);
      assert mem[..] == GivenBack(before, width, free, slot);
      assert granted + (free + [slot]) == (granted + free) + [slot];
      free := free + [slot];
      returned := returned + [slot];
    }

    /** A client writes one cell of a slot it has been lent. */
    method Store(slot: nat, k: nat, value: Cell)
      requires Valid() && slot in Lent() && k < width
      modifies mem
      ensures Valid()
      ensures mem[..] == old(mem[..])[slot := old(mem[slot])[k := value]]
    {
      ghost var before := mem[..];
      mem[slot] := mem[slot][k := value];
      assert mem[..] == before[slot := before[slot][k := value]];
      FreeListFrame(before, mem[..], width, free);
    }
  }

  lemma LinkedInOrder(m: Memory, width: nat)
    requires WellShaped(m, width)
    requires forall i: nat | i < |m| :: m[i][width - 1] == if i + 1 < |m| then Slot(i + 1) else Null
    ensures var free: seq<nat> := seq(|m|, i => i); InRange(free, |m|) && Linked(m, width, free)
  {
  }

  lemma TakeFirst(m: Memory, width: nat, free: seq<nat>)
    requires FreeList(m, width, free) && |free| >= 2
    ensures FreeList(m, width, free[1..])
    ensures m[free[0]][width - 1] == Slot(free[1])
    ensures forall n: nat :: LentSlots(n, free[1..]) == LentSlots(n, free) + (if free[0] < n then {free[0]} else {})
  {
    forall n: nat, i: nat | i < n
      ensures i in LentSlots(n, free[1..]) <==> i in LentSlots(n, free) || i == free[0]
    {
      assert i in free <==> i == free[0] || i in free[1..];
      assert free[0] !in free[1..];
    }
    forall i: nat | i < |free[1..]|
      ensures LinkAt(m, width, free[1..], i)
    {
      assert LinkAt(m, width, free, i + 1);
    }
    assert LinkAt(m, width, free, 0);
  }

  /** The two link writes of put. */
  ghost function GivenBack(m: Memory, width: nat, free: seq<nat>, slot: nat): Memory
    requires FreeList(m, width, free) && free != [] && slot < |m|
  {
    var end := free[|free| - 1];
    var m1 := m[slot := m[slot][width - 1 := Null]];
    m1[end := m1[end][width - 1 := Slot(slot)]]
  }

  lemma GiveBack(m: Memory, width: nat, free: seq<nat>, slot: nat)
    requires FreeList(m, width, free) && free != [] && slot < |m| && slot !in free
    ensures FreeList(GivenBack(m, width, free, slot), width, free + [slot])
    ensures LentSlots(|m|, free + [slot]) == LentSlots(|m|, free) - {slot}
  {
    var m', s := GivenBack(m, width, free, slot), free + [slot];
    forall i: nat | i < |s|
      ensures LinkAt(m', width, s, i)
    {
      if i < |free| {
        assert LinkAt(m, width, free, i) && free[i] in free;
      }
    }
  }
}
