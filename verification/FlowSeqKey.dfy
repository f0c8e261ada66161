/** The ordered key of a block: flow side, flow index and sequence number in one 64-bit word. */
module FlowSeqKey {

  import opened Bytes

  type Word32 = w: nat | w < U32
  type Key = k: nat | k < U64

  const SIDE_BIT := 0x8000_0000

  /** The upper word: the index with the side in the top bit. The parts do not overlap, so that the
      bitwise or is a sum. */
  function Flow(idx: Word32, side: bool): (f: Word32)
    requires idx < 0x7FFF_FFFF
  {
    idx + if side then SIDE_BIT else 0
  }

  /** prepare_key; its assertion keeps the index below 0x7FFFFFFF. */
  function PrepareKey(s: Word32, idx: Word32, side: bool): Key
    requires idx < 0x7FFF_FFFF
  {
    Flow(idx, side) * U32 + s
  }

  function GetFlowIdx(key: Key): nat {
    key / U32 % SIDE_BIT
  }

  function GetSeq(key: Key): (s: Word32) {
    key % U32
  }

  /** The mask 0x80000000 picks the top bit of the sequence number, and the shift by 32 drops it. */
  function GetFlowSide(key: Key): bool {
    key / SIDE_BIT % 2 * SIDE_BIT / U32 != 0
  }

  /** Lexicographic order of (side, idx, seq), with false before true. */
  predicate Before(s1: Word32, idx1: Word32, side1: bool, s2: Word32, idx2: Word32, side2: bool) {
    (!side1 && side2) || (side1 == side2 && (idx1 < idx2 || (idx1 == idx2 && s1 < s2)))
  }

  lemma SplitKey(f: Word32, s: Word32)
    ensures (f * U32 + s) / U32 == f && (f * U32 + s) % U32 == s
  {
  }

  /** Index and sequence number decode back; the side does exactly when it is false. */
  lemma KeyRoundTrip(s: Word32, idx: Word32, side: bool)
    requires idx < 0x7FFF_FFFF
    ensures GetFlowIdx(PrepareKey(s, idx, side)) == idx && GetSeq(PrepareKey(s, idx, side)) == s
    ensures GetFlowSide(PrepareKey(s, idx, side)) == side <==> !side
  {
    SplitKey(Flow(idx, side), s);
    assert Flow(idx, side) % SIDE_BIT == idx;
  }

  /** Keys compare as their parts do, in lexicographic order; so different parts give different keys. */
  lemma KeyOrder(s1: Word32, idx1: Word32, side1: bool, s2: Word32, idx2: Word32, side2: bool)
    requires idx1 < 0x7FFF_FFFF && idx2 < 0x7FFF_FFFF
    ensures PrepareKey(s1, idx1, side1) < PrepareKey(s2, idx2, side2) <==> Before(s1, idx1, side1, s2, idx2, side2)
    ensures PrepareKey(s1, idx1, side1) == PrepareKey(s2, idx2, side2) <==> s1 == s2 && idx1 == idx2 && side1 == side2
  {
  }

  // ---------- a sorted multimap of blocks ----------

  predicate Sorted(keys: seq<Key>) {
    forall i, j | 0 <= i < j < |keys| :: keys[i] <= keys[j]
  }

  /** The block belongs to this side of this flow. */
  predicate InFlow(key: Key, idx: Word32, side: bool)
    requires idx < 0x7FFF_FFFF
  {
    key / U32 == Flow(idx, side)
  }

  /** A prepared key is in the flow it was prepared for and in no other. */
  lemma PreparedInFlow(s: Word32, idx1: Word32, side1: bool, idx2: Word32, side2: bool)
    requires idx1 < 0x7FFF_FFFF && idx2 < 0x7FFF_FFFF
    ensures InFlow(PrepareKey(s, idx1, side1), idx2, side2) <==> idx1 == idx2 && side1 == side2
  {
    SplitKey(Flow(idx1, side1), s);
  }

  /** The keys of a flow side are those between its least and its greatest. */
  lemma FlowRange(key: Key, idx: Word32, side: bool)
    requires idx < 0x7FFF_FFFF
    ensures InFlow(key, idx, side) <==> PrepareKey(0, idx, side) <= key <= PrepareKey(0xFFFF_FFFF, idx, side)
  {
  }

  /** Inside a flow side a key is determined by its sequence number and ordered by it. */
  lemma FlowOrder(key: Key, s: Word32, idx: Word32, side: bool)
    requires idx < 0x7FFF_FFFF && InFlow(key, idx, side)
    ensures key == PrepareKey(GetSeq(key), idx, side)
    ensures PrepareKey(s, idx, side) <= key <==> s <= GetSeq(key)
  {
  }

  /** lower_bound: the first block whose key is not below `key`. */
  function LowerBound(keys: seq<Key>, key: Key): (i: nat)
    ensures i <= |keys|
    ensures forall j | 0 <= j < i :: keys[j] < key
    ensures i < |keys| ==> key <= keys[i]
  {
    if keys == [] || key <= keys[0] then 0 else 1 + LowerBound(keys[1..], key)
  }

  /** The end of the blocks whose keys do not exceed `key`. */
  function UpperBound(keys: seq<Key>, key: Key): (i: nat)
    ensures i <= |keys|
    ensures forall j | 0 <= j < i :: keys[j] <= key
    ensures i < |keys| ==> key < keys[i]
  {
    if keys == [] || key < keys[0] then 0 else 1 + UpperBound(keys[1..], key)
  }

  /** The blocks of one flow side are one contiguous run of the sorted map, in sequence order. */
  lemma FlowIsContiguous(keys: seq<Key>, idx: Word32, side: bool)
    requires Sorted(keys) && idx < 0x7FFF_FFFF
    ensures var lo, hi := LowerBound(keys, PrepareKey(0, idx, side)),
        UpperBound(keys, PrepareKey(0xFFFF_FFFF, idx, side));
            && (forall i | 0 <= i < |keys| :: InFlow(keys[i], idx, side) <==> lo <= i < hi)
            && (forall i, j | 0 <= i < |keys| && 0 <= j < |keys| && lo <= i < j < hi ::
                GetSeq(keys[i]) <= GetSeq(keys[j]))
  {
    var lo, hi := LowerBound(keys, PrepareKey(0, idx, side)), UpperBound(keys, PrepareKey(0xFFFF_FFFF, idx, side));
    hide PrepareKey, InFlow, GetSeq;
    forall i | 0 <= i < |keys|
      ensures InFlow(keys[i], idx, side) <==> lo <= i < hi
    {
      FlowRange(keys[i], idx, side);
    }
    forall i, j | 0 <= i < |keys| && 0 <= j < |keys| && lo <= i < j < hi
      ensures GetSeq(keys[i]) <= GetSeq(keys[j])
    {
      FlowOrder(keys[i], GetSeq(keys[i]), idx, side);
      FlowOrder(keys[j], GetSeq(keys[i]), idx, side);
    }
  }

  /** getLowerBoundBlock with a prepared key finds the first block of the flow side that starts at or
      behind the sequence number; if it lands outside the flow side there is no such block. */
  lemma LowerBoundFindsBlock(keys: seq<Key>, s: Word32, idx: Word32, side: bool)
    requires Sorted(keys) && idx < 0x7FFF_FFFF
    ensures var i := LowerBound(keys, PrepareKey(s, idx, side));
            && (forall j | 0 <= j < i && InFlow(keys[j], idx, side) :: GetSeq(keys[j]) < s)
            && (forall j | i <= j < |keys| && InFlow(keys[j], idx, side) :: s <= GetSeq(keys[j]))
            && (i < |keys| && !InFlow(keys[i], idx, side) ==> forall j | i <= j < |keys| :: !InFlow(keys[j], idx, side))
  {
    var i := LowerBound(keys, PrepareKey(s, idx, side));
    hide PrepareKey, InFlow, GetSeq;
    forall j | 0 <= j < |keys| && InFlow(keys[j], idx, side)
      ensures j < i <==> GetSeq(keys[j]) < s
    {
      FlowOrder(keys[j], s, idx, side);
    }
    if i < |keys| && !InFlow(keys[i], idx, side) {
      KeyAbove(s, idx, side);
      FlowRange(keys[i], idx, side);
      forall j | i <= j < |keys|
        ensures !InFlow(keys[j], idx, side)
      {
        FlowRange(keys[j], idx, side);
      }
    }
  }

  lemma KeyAbove(s: Word32, idx: Word32, side: bool)
    requires idx < 0x7FFF_FFFF
    ensures PrepareKey(0, idx, side) <= PrepareKey(s, idx, side)
  {
  }
}
