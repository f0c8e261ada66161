/**
 The unrolled list of packets, whose blocks are slots of the allocator: a block holds
 BLOCKCNT - 1 packets and, in its last cell, the link to the next block.
 */
module PacketList {
  import opened SlotAllocator
  import opened Wrappers

  /** The packets that stand in a chain of blocks of which the last one is filled up to n cells. */
  function Contents(m: Memory, width: nat, blocks: seq<nat>, n: nat): seq<Cell>
    requires WellShaped(m, width) && InRange(blocks, |m|) && n < width
    decreases |blocks|
  {
    if blocks == [] then []
    else
      var rest := blocks[..|blocks| - 1];
      Contents(m, width, rest, width - 1) + m[blocks[|blocks| - 1]][..n]
  }

  predicate NextAt(m: Memory, width: nat, blocks: seq<nat>, i: nat)
    requires WellShaped(m, width) && i + 1 < |blocks| && blocks[i] < |m|
  {
    m[blocks[i]][width - 1] == Slot(blocks[i + 1])
  }

  /** Every block but the last links to the next one; the last one's link is whatever the free list
      left there. */
  ghost predicate Chained(m: Memory, width: nat, blocks: seq<nat>)
    requires WellShaped(m, width) && InRange(blocks, |m|)
  {
    forall i: nat | i + 1 < |blocks| :: NextAt(m, width, blocks, i)
  }

  function Pointers(packets: seq<int>): seq<Cell> {
    seq(|packets|, i requires 0 <= i < |packets| => Packet(packets[i]))
  }

  ghost predicate Accumulated(m: Memory, width: nat, blocks: seq<nat>, n: nat, packets: seq<int>) {
    && WellShaped(m, width) && n < width
    && Distinct(blocks) && InRange(blocks, |m|)
    && Chained(m, width, blocks)
    && Contents(m, width, blocks, n) == Pointers(packets)
  }

  /** Walking the links from `block` to the block `last`, of which n cells are taken. */
  function Walk(m: Memory, width: nat, block: nat, last: nat, n: nat, fuel: nat): Option<seq<Cell>>
    requires WellShaped(m, width) && n < width
    decreases fuel
  {
    if block >= |m| then None
    else if block == last then Some(m[block][..n])
    else if fuel == 0 then None
    else
      var link := m[block][width - 1];
      if !link.Slot? then None
      else
        var rest := Walk(m, width, link.index, last, n, fuel - 1);
        if rest == None then None else Some(m[block][..width - 1] + rest.value)
  }

  lemma {:induction false} ContentsFromFront(m: Memory, width: nat, blocks: seq<nat>, n: nat)
    requires WellShaped(m, width) && InRange(blocks, |m|) && n < width && |blocks| >= 2
    ensures Contents(m, width, blocks, n) == m[blocks[0]][..width - 1] + Contents(m, width, blocks[1..], n)
    decreases |blocks|
  {
    var rest, last := blocks[..|blocks| - 1], blocks[|blocks| - 1];
    var tail := blocks[1..];
    assert tail[..|tail| - 1] == rest[1..] && tail[|tail| - 1] == last;
    var first := m[blocks[0]][..width - 1];
    if |blocks| == 2 {
      assert rest == [blocks[0]] && rest[..0] == [] && rest[1..] == [];
      assert Contents(m, width, rest, width - 1) == [] + first;
    } else {
      ContentsFromFront(m, width, rest, width - 1);
      assert Contents(m, width, rest, width - 1) == first + Contents(m, width, rest[1..], width - 1);
    }
  }

  /** Walking the links reads exactly the contents. */
  lemma {:induction false} WalkReadsContents(m: Memory, width: nat, blocks: seq<nat>, n: nat)
    requires WellShaped(m, width) && n < width && blocks != []
    requires Distinct(blocks) && InRange(blocks, |m|) && Chained(m, width, blocks)
    ensures Walk(m, width, blocks[0], blocks[|blocks| - 1], n, |blocks|) == Some(Contents(m, width, blocks, n))
    decreases |blocks|
  {
    if |blocks| == 1 {
      assert blocks[..0] == [];
      assert Contents(m, width, blocks, n) == [] + m[blocks[0]][..n] == m[blocks[0]][..n];
    } else {
      assert NextAt(m, width, blocks, 0);
      var tail := blocks[1..];
      forall i: nat | i + 1 < |tail|
        ensures NextAt(m, width, tail, i)
      {
        assert NextAt(m, width, blocks, i + 1);
      }
      assert Distinct(tail) && tail[|tail| - 1] == blocks[|blocks| - 1] && tail[0] == blocks[1];
      WalkReadsContents(m, width, tail, n);
      ContentsFromFront(m, width, blocks, n);
      assert blocks[0] != blocks[|blocks| - 1] && m[blocks[0]][width - 1] == Slot(blocks[1]);
    }
  }

  /** Cells outside the blocks do not matter. */
  lemma {:induction false} ContentsFrame(m: Memory, m': Memory, width: nat, blocks: seq<nat>, n: nat)
    requires WellShaped(m, width) && WellShaped(m', width) && |m'| == |m| && InRange(blocks, |m|) && n < width
    requires forall i: nat | i < |blocks| :: m'[blocks[i]] == m[blocks[i]]
    ensures Contents(m', width, blocks, n) == Contents(m, width, blocks, n)
    decreases |blocks|
  {
    if blocks != [] {
      var rest := blocks[..|blocks| - 1];
      assert forall i: nat | i < |rest| :: m'[rest[i]] == m[rest[i]];
      ContentsFrame(m, m', width, rest, width - 1);
    }
  }

  /** So other clients of the allocator cannot disturb an accumulator. */
  lemma AccumulatedFrame(m: Memory, m': Memory, width: nat, blocks: seq<nat>, n: nat, packets: seq<int>)
    requires Accumulated(m, width, blocks, n, packets) && WellShaped(m', width) && |m'| == |m|
    requires forall i: nat | i < |blocks| :: m'[blocks[i]] == m[blocks[i]]
    ensures Accumulated(m', width, blocks, n, packets)
  {
    ContentsFrame(m, m', width, blocks, n);
    forall i: nat | i + 1 < |blocks|
      ensures NextAt(m', width, blocks, i)
    {
      assert NextAt(m, width, blocks, i);
    }
  }

  /** A fresh block behind a full one. */
  lemma LinkBlock(m: Memory, width: nat, blocks: seq<nat>, packets: seq<int>, b: nat)
    requires width >= 2 && blocks != [] && Accumulated(m, width, blocks, width - 1, packets)
    requires b < |m| && b !in blocks
    ensures var last := blocks[|blocks| - 1];
            Accumulated(m[last := m[last][width - 1 := Slot(b)]], width, blocks + [b], 0, packets)
  {
    var last := blocks[|blocks| - 1];
    var m' := m[last := m[last][width - 1 := Slot(b)]];
    var all := blocks + [b];
    forall i: nat | i + 1 < |all|
      ensures NextAt(m', width, all, i)
    {
      if i + 1 < |blocks| { assert NextAt(m, width, blocks, i); }
    }
    assert all[..|all| - 1] == blocks;
    SameFullContents(m, width, blocks, m[last][width - 1 := Slot(b)]);
    assert Contents(m', width, all, 0) == Contents(m', width, blocks, width - 1) + [];
  }

  lemma SameFullContents(m: Memory, width: nat, blocks: seq<nat>, row: seq<Cell>)
    requires width >= 2 && WellShaped(m, width) && blocks != [] && Distinct(blocks) && InRange(blocks, |m|)
    requires |row| == width && row[..width - 1] == m[blocks[|blocks| - 1]][..width - 1]
    ensures var m' := m[blocks[|blocks| - 1] := row];
            WellShaped(m', width) && Contents(m', width, blocks, width - 1) == Contents(m, width, blocks, width - 1)
  {
    ContentsFrame(m, m[blocks[|blocks| - 1] := row], width, blocks[..|blocks| - 1], width - 1);
  }

  /** One more packet in the current block. */
  lemma StorePacket(m: Memory, width: nat, blocks: seq<nat>, n: nat, packets: seq<int>, pkt: int)
    requires blocks != [] && n + 1 < width && Accumulated(m, width, blocks, n, packets)
    ensures var last := blocks[|blocks| - 1];
            Accumulated(m[last := m[last][n := Packet(pkt)]], width, blocks, n + 1, packets + [pkt])
  {
    var last, rest := blocks[|blocks| - 1], blocks[..|blocks| - 1];
    var m' := m[last := m[last][n := Packet(pkt)]];
    ContentsFrame(m, m', width, rest, width - 1);
    assert m'[last][..n + 1] == m[last][..n] + [Packet(pkt)];
    forall i: nat | i + 1 < |blocks|
      ensures NextAt(m', width, blocks, i)
    {
      assert NextAt(m, width, blocks, i);
    }
    assert Contents(m', width, blocks, n + 1) == Contents(m, width, blocks, n) + [Packet(pkt)];
    assert Pointers(packets + [pkt]) == Pointers(packets) + [Packet(pkt)];
  }

  /** The first block. */
  lemma FirstBlock(m: Memory, width: nat, b: nat)
    requires WellShaped(m, width) && b < |m|
    ensures Accumulated(m, width, [b], 0, [])
  {
    assert [b][..0] == [];
    assert Contents(m, width, [b], 0) == [];
  }

  // ---------- the class ----------

  class PacketAccum {
    const blockCnt: nat
    const alloc: AllocatorList
    var firstBlock: Option<nat>
    var currBlock: Option<nat>
    var packetsTotal: nat
    var packetsCurr: nat
    ghost var blocks: seq<nat>
    ghost var packets: seq<int>

    ghost predicate Holds()
      reads this, alloc, alloc.mem
    {
      && alloc.Valid() && alloc.width == blockCnt >= 2
      && (forall i: nat | i < |blocks| :: blocks[i] in alloc.Lent())
      && packetsCurr < blockCnt
      && Accumulated(alloc.mem[..], blockCnt, blocks, packetsCurr, packets)
    }

    ghost predicate Counted()
      reads this
    {
      && packetsTotal == |packets|
      && if blocks == [] then
           firstBlock == None && currBlock == None && packetsTotal == packetsCurr == 0
         else
           && firstBlock == Some(blocks[0]) && currBlock == Some(blocks[|blocks| - 1])
           && packetsTotal == (|blocks| - 1) * (blockCnt - 1) + packetsCurr
    }

    ghost predicate Valid()
      reads this, alloc, alloc.mem
    {
      Holds() && Counted() && (blocks != [] ==> packetsCurr >= 1)
    }

    constructor (alloc: AllocatorList)
      requires alloc.Valid() && alloc.width >= 2
      ensures this.alloc == alloc && this.blockCnt == alloc.width
      ensures Valid() && packets == [] && blocks == []
    {
      this.alloc, this.blockCnt := alloc, alloc.width;
      firstBlock, currBlock := None, None;
      packetsTotal, packetsCurr := 0, 0;
      blocks, packets := [], [];
    }

    method Size() returns (n: nat)
      requires Valid()
      ensures n == |packets|
    {
      n := packetsTotal;
    }

    /** The part of put that hangs a new block in. */
    method AddBlock(b: nat)
      requires Holds() && Counted() && b in alloc.Lent() && b !in blocks
      requires blocks == [] || packetsCurr == blockCnt - 1
      modifies this`firstBlock, this`currBlock, this`packetsCurr, this`blocks, alloc.mem
      ensures Holds() && Counted() && packetsCurr == 0 && blocks == old(blocks) + [b]
      ensures forall i: nat | i < alloc.mem.Length && i !in old(blocks) :: alloc.mem[i] == old(alloc.mem[i])
    {
      hide Contents, Chained, FreeList, LentSlots, WellShaped, Distinct, InRange;
      ghost var before := alloc.mem[..];
      if firstBlock.Some? {
        LinkBlock(before, blockCnt, blocks, packets, b);
        alloc.Store(currBlock.value, blockCnt - 1, Slot(b));
        currBlock := Some(b);
        packetsCurr := 0;
        assert |blocks| * (blockCnt - 1) == (|blocks| - 1) * (blockCnt - 1) + (blockCnt - 1);
      } else {
        FirstBlock(before, blockCnt, b);
        assert packets == [] && blocks + [b] == [b];
        firstBlock := Some(b);
        currBlock := Some(b);
      }
      blocks := blocks + [b];
    }

    /** The part of put that stores the packet. */
    method AddPacket(pkt: int)
      requires Holds() && Counted() && blocks != [] && packetsCurr < blockCnt - 1
      modifies this`packetsCurr, this`packetsTotal, this`packets, alloc.mem
      ensures Valid() && packets == old(packets) + [pkt]
      ensures forall i: nat | i < alloc.mem.Length && i !in blocks :: alloc.mem[i] == old(alloc.mem[i])
    {
      hide Contents, Chained, FreeList, LentSlots, WellShaped, Distinct, InRange;
      StorePacket(alloc.mem[..], blockCnt, blocks, packetsCurr, packets, pkt);
      alloc.Store(currBlock.value, packetsCurr, Packet(pkt));
      packetsCurr := packetsCurr + 1;
      packetsTotal := packetsTotal + 1;
      packets := packets + [pkt];
    }

    /** Takes the packet over, unless it needs a block and the allocator has none to give. */
    method Put(pkt: int) returns (ok: bool)
      requires Valid()
      modifies this, alloc, alloc.mem
      ensures Valid()
      ensures packets == if ok then old(packets) + [pkt] else old(packets)
      ensures ok <==> !(old(currBlock == None || packetsCurr == blockCnt - 1) && old(alloc.count) == 1)
      ensures !ok ==> blocks == old(blocks) && packetsCurr == old(packetsCurr) && packetsTotal == old(packetsTotal)
                      && alloc.mem[..] == old(alloc.mem[..]) && alloc.free == old(alloc.free)
      ensures forall i: nat | i < alloc.mem.Length && i in old(alloc.Lent()) && i !in old(blocks) ::
                alloc.mem[i] == old(alloc.mem[i])
      ensures old(alloc.Lent()) <= alloc.Lent()
      ensures forall i: nat | i < |blocks| :: blocks[i] in old(blocks) || blocks[i] !in old(alloc.Lent())
    {
      hide Accumulated, FreeList, LentSlots;
      if currBlock == None || packetsCurr == blockCnt - 1 {
        var newBlock := alloc.Get();
        if newBlock == None {
          return false;
        }
        AddBlock(newBlock.value);
      }
      AddPacket(pkt);
      return true;
    }
  }
}
