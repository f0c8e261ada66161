/**
 The flow key and the two side functions, said on the bytes of the packet and on the stack of layers
 as it was pushed.
 */
module FlowBytes {
  import opened Bytes
  import opened FlowLayers
  import opened FlowKey
  import opened FlowSteps
  import opened FlowDirection

  // ---------- the order of two addresses ----------

  predicate FirstDifference(a: seq<Byte>, b: seq<Byte>, k: nat)
    requires |a| == |b|
  {
    k < |a| && a[..k] == b[..k] && a[k] < b[k]
  }

  /** At the first place where the strings differ, a has the smaller byte. */
  ghost predicate Lower(a: seq<Byte>, b: seq<Byte>)
    requires |a| == |b|
  {
    exists k: nat :: FirstDifference(a, b, k)
  }

  lemma DifferenceCons(a: seq<Byte>, b: seq<Byte>, k: nat)
    requires |a| == |b| && a != [] && a[0] == b[0]
    ensures FirstDifference(a, b, k + 1) <==> FirstDifference(a[1..], b[1..], k)
    ensures !FirstDifference(a, b, 0)
  {
    if k < |a| - 1 {
      assert a[..k + 1] == [a[0]] + a[1..][..k] && b[..k + 1] == [b[0]] + b[1..][..k];
      if a[..k + 1] == b[..k + 1] {
        assert a[1..][..k] == a[..k + 1][1..] && b[1..][..k] == b[..k + 1][1..];
      }
    }
  }

  lemma LowerCons(a: seq<Byte>, b: seq<Byte>)
    requires |a| == |b| && a != [] && a[0] == b[0]
    ensures Lower(a, b) <==> Lower(a[1..], b[1..])
  {
    hide FirstDifference;
    if Lower(a, b) {
      var k: nat :| FirstDifference(a, b, k);
      DifferenceCons(a, b, 0);
      DifferenceCons(a, b, k - 1);
    }
    if Lower(a[1..], b[1..]) {
      var k: nat :| FirstDifference(a[1..], b[1..], k);
      DifferenceCons(a, b, k);
    }
  }

  lemma LowerAtOnce(a: seq<Byte>, b: seq<Byte>)
    requires |a| == |b| && a != [] && a[0] != b[0]
    ensures Lower(a, b) <==> a[0] < b[0]
  {
    if a[0] < b[0] {
      assert FirstDifference(a, b, 0);
    } else {
      forall k: nat ensures !FirstDifference(a, b, k) {
        assert 0 < k <= |a| ==> a[..k][0] != b[..k][0];
      }
    }
  }

  /** memcmp is negative exactly if the first string is the lower, positive exactly if the second is. */
  lemma {:induction false} MemcmpIsOrder(a: seq<Byte>, b: seq<Byte>)
    requires |a| == |b|
    ensures Memcmp(a, b) < 0 <==> Lower(a, b)
    ensures Memcmp(a, b) > 0 <==> Lower(b, a)
  {
    hide Lower;
    if a == [] {
      NothingLower(a, b);
      NothingLower(b, a);
    } else if a[0] == b[0] {
      MemcmpIsOrder(a[1..], b[1..]);
      LowerCons(a, b);
      LowerCons(b, a);
    } else {
      LowerAtOnce(a, b);
      LowerAtOnce(b, a);
    }
  }

  lemma NothingLower(a: seq<Byte>, b: seq<Byte>)
    requires a == [] && b == []
    ensures !Lower(a, b)
  {
  }

  // ---------- the two addresses of a layer, as its header holds them ----------

  /** Figure 3 of ITU-T Q.704: fourteen bits of destination point code, low byte first, ... */
  function PointCode1(d: seq<Byte>, o: nat): nat
    requires o + 4 <= |d|
  {
    var b0: int, b1: int := d[o], d[o + 1];
    b0 + 0x100 * (b1 % 0x40)
  }

  /** ... fourteen of originating point code, and four of link selection. */
  function PointCode2(d: seq<Byte>, o: nat): nat
    requires o + 4 <= |d|
  {
    var b1: int, b2: int, b3: int := d[o + 1], d[o + 2], d[o + 3];
    b1 / 0x40 + 4 * b2 + 0x400 * (b3 % 0x10)
  }

  /** The width of one of a layer's two addresses in its header, for those that have two whole ones. */
  function Width(t: Type): nat {
    match t
    case Eth => 6 case Ip4 => 4 case Tcp => 2 case Udp => 2 case Sctp => 2 case _ => 0
  }

  predicate HasLabel(t: Type) {
    t == Mtp || t == Mtp3
  }

  /** The address that stands first is lower than the one that stands second. */
  ghost predicate FirstLower(l: Layer, d: seq<Byte>)
    requires InPacket(l, d)
  {
    var o, w := l.offset, Width(l.type_);
    if HasLabel(l.type_) then PointCode1(d, o) < PointCode2(d, o)
    else if Tag(l.type_) then d[o] < d[o + 1]
    else Lower(d[o..o + w], d[o + w..o + w + w])
  }

  ghost predicate SecondLower(l: Layer, d: seq<Byte>)
    requires InPacket(l, d)
  {
    var o, w := l.offset, Width(l.type_);
    if HasLabel(l.type_) then PointCode2(d, o) < PointCode1(d, o)
    else if Tag(l.type_) then d[o + 1] < d[o]
    else Lower(d[o + w..o + w + w], d[o..o + w])
  }

  predicate SameAddresses(l: Layer, d: seq<Byte>)
    requires InPacket(l, d)
  {
    var o, w := l.offset, Width(l.type_);
    if HasLabel(l.type_) then PointCode1(d, o) == PointCode2(d, o)
    else if Tag(l.type_) then d[o] == d[o + 1]
    else d[o..o + w] == d[o + w..o + w + w]
  }

  /** What a layer contributes to the key: its first address and then its second if `side`, otherwise
      the other way round; of the SCCP and ISUP layers their first byte. */
  function AddressBytes(l: Layer, d: seq<Byte>, side: bool): seq<Byte>
    requires InPacket(l, d)
  {
    var o, w := l.offset, Width(l.type_);
    if HasLabel(l.type_) then PointCodes(d, o, side)
    else if Tag(l.type_) then if side then [d[o], d[o + 1]] else [d[o + 1], d[o]]
    else if l.type_ == Sccp || l.type_ == Isup then [d[o]]
    else if side then d[o..o + w] + d[o + w..o + w + w]
    else d[o + w..o + w + w] + d[o..o + w]
  }

  function PointCodes(d: seq<Byte>, o: nat, side: bool): seq<Byte>
    requires o + 4 <= |d|
  {
    var a, b := PointCode1(d, o), PointCode2(d, o);
    if side then Store16(a) + Store16(b) else Store16(b) + Store16(a)
  }

  lemma Parts14(low: int, high: int)
    requires 0 <= low < 0x4000
    ensures (low + 0x4000 * high) % 0x4000 == low && (low + 0x4000 * high) / 0x4000 == high
  {
  }

  lemma Parts8(low: int, high: int)
    requires 0 <= low < 0x100
    ensures (low + 0x100 * high) % 0x100 == low && (low + 0x100 * high) / 0x100 == high
  {
  }

  lemma LabelSplits(b0: int, b1: int, b2: int, b3: int)
    requires 0 <= b0 < 0x100 && 0 <= b1 < 0x100 && 0 <= b2 < 0x100 && 0 <= b3 < 0x100
    ensures var w := b0 + 0x100 * b1 + 0x1_0000 * b2 + 0x100_0000 * b3;
            && w % 0x4000 == b0 + 0x100 * (b1 % 0x40)
            && w / 0x4000 % 0x4000 == b1 / 0x40 + 4 * b2 + 0x400 * (b3 % 0x10)
  {
    var c1, c3 := b1 / 0x40, b3 / 0x10;
    assert b1 == b1 % 0x40 + 0x40 * c1 && b3 == b3 % 0x10 + 0x10 * c3;
    Parts14(b0 + 0x100 * (b1 % 0x40), c1 + 4 * b2 + 0x400 * b3);
    Parts14(c1 + 4 * b2 + 0x400 * (b3 % 0x10), c3);
  }

  lemma TagSplits(b0: int, b1: int, b2: int, b3: int)
    requires 0 <= b0 < 0x100 && 0 <= b1 < 0x100 && 0 <= b2 < 0x100 && 0 <= b3 < 0x100
    ensures var w := b0 + 0x100 * b1 + 0x1_0000 * b2 + 0x100_0000 * b3;
            w % 0x100 == b0 && w / 0x100 % 0x100 == b1
  {
    Parts8(b0, b1 + 0x100 * b2 + 0x1_0000 * b3);
    Parts8(b1, b2 + 0x100 * b3);
  }

  lemma WordSplits(d: seq<Byte>, o: nat)
    requires o + 4 <= |d|
    ensures Load32(d[o..o + 4]) % 0x4000 == PointCode1(d, o)
    ensures Load32(d[o..o + 4]) / 0x4000 % 0x4000 == PointCode2(d, o)
    ensures Load32(d[o..o + 4]) % 0x100 == d[o] && Load32(d[o..o + 4]) / 0x100 % 0x100 == d[o + 1]
  {
    var b0: int, b1: int, b2: int, b3: int := d[o], d[o + 1], d[o + 2], d[o + 3];
    assert Load32(d[o..o + 4]) == b0 + 0x100 * b1 + 0x1_0000 * b2 + 0x100_0000 * b3;
    assert PointCode1(d, o) == b0 + 0x100 * (b1 % 0x40);
    assert PointCode2(d, o) == b1 / 0x40 + 4 * b2 + 0x400 * (b3 % 0x10);
    hide Load32, PointCode1, PointCode2;
    LabelSplits(b0, b1, b2, b3);
    TagSplits(b0, b1, b2, b3);
  }

  lemma FieldsOf(v: nat)
    ensures Field(v, ScanForward(0x3FFF), 0x3FFF) == v % 0x4000
    ensures Field(v, ScanReverse(0x3FFF), 0x3FFF) == v / 0x4000 % 0x4000
    ensures Field(v, ScanForward(0xFF), 0xFF) == v % 0x100
    ensures Field(v, ScanReverse(0xFF), 0xFF) == v / 0x100 % 0x100
  {
    ScansOfTheMasks();
    hide ScanForward, ScanReverse, Pow2;
  }

  /** The two fields that the mask picks are the two point codes ... */
  lemma LabelFields(l: Layer, d: seq<Byte>)
    requires InPacket(l, d) && HasLabel(l.type_)
    ensures TypeMask(l.type_) != 0
    ensures SrcField(l, d) == PointCode1(d, l.offset) && DstField(l, d) == PointCode2(d, l.offset)
  {
    var o, v := l.offset, Word32(l, d);
    assert TypeMask(l.type_) == 0x3FFF && o + 4 <= |d| && v == Load32(d[o..o + 4]);
    assert SrcField(l, d) == Field(v, ScanForward(0x3FFF), 0x3FFF);
    assert DstField(l, d) == Field(v, ScanReverse(0x3FFF), 0x3FFF);
    hide *;
    WordSplits(d, o);
    FieldsOf(v);
  }

  /** ... or the first two bytes of a tag. */
  lemma TagFields(l: Layer, d: seq<Byte>)
    requires InPacket(l, d) && Tag(l.type_)
    ensures TypeMask(l.type_) != 0 && SrcField(l, d) == d[l.offset] && DstField(l, d) == d[l.offset + 1]
  {
    var o, v := l.offset, Word32(l, d);
    assert TypeMask(l.type_) == 0xFF && o + 4 <= |d| && v == Load32(d[o..o + 4]);
    assert SrcField(l, d) == Field(v, ScanForward(0xFF), 0xFF);
    assert DstField(l, d) == Field(v, ScanReverse(0xFF), 0xFF);
    hide *;
    WordSplits(d, o);
    FieldsOf(v);
  }

  lemma WholeAddresses(l: Layer, d: seq<Byte>)
    requires InPacket(l, d) && !HasLabel(l.type_) && !Tag(l.type_)
    ensures TypeMask(l.type_) == 0
    ensures var o, w := l.offset, Width(l.type_);
            o + w + w <= |d| && Src(l, d) == d[o..o + w] && Dst(l, d) == d[o + w..o + w + w]
    ensures TypeLength(l.type_) == 1 ==> l.offset < |d| && d[l.offset..l.offset + 1] == [d[l.offset]]
  {
  }

  lemma LayerKinds(l: Layer)
    ensures HasLabel(l.type_) ==> !Tag(l.type_) && TypeLength(l.type_) == 4
    ensures Tag(l.type_) ==> TypeLength(l.type_) == 2
    ensures TypeLength(l.type_) == 1 <==> l.type_ == Sccp || l.type_ == Isup
  {
  }

  /** How the code compares a layer's addresses is how they stand in the header. */
  lemma CompareExactly(l: Layer, d: seq<Byte>)
    requires InPacket(l, d)
    ensures Compare(l, d) < 0 <==> FirstLower(l, d)
    ensures Compare(l, d) > 0 <==> SecondLower(l, d)
    ensures Compare(l, d) == 0 <==> SameAddresses(l, d)
  {
    LayerKinds(l);
    hide TypeLength, TypeMask, HasLabel, Tag, InPacket, SrcField, DstField, PointCode1, PointCode2, Src, Dst, Width;
    if HasLabel(l.type_) {
      LabelFields(l, d);
    } else if Tag(l.type_) {
      TagFields(l, d);
    } else {
      WholeAddresses(l, d);
      MemcmpIsOrder(Src(l, d), Dst(l, d));
      hide Memcmp, Lower;
    }
  }

  /** And what it puts into the key is what stands there. */
  lemma KeyBytesExactly(l: Layer, d: seq<Byte>, side: bool)
    requires InPacket(l, d)
    ensures KeyBytes(l, d, side) == AddressBytes(l, d, side)
  {
    LayerKinds(l);
    hide TypeLength, TypeMask, HasLabel, Tag, InPacket, SrcField, DstField, PointCode1, PointCode2, Width;
    if HasLabel(l.type_) {
      LabelFields(l, d);
    } else if Tag(l.type_) {
      TagFields(l, d);
    } else {
      WholeAddresses(l, d);
    }
  }

  // ---------- which layers take part ----------

  /** A mixed layer never does, a tag does except in isSrcLowerAddr. */
  predicate Counts(l: Layer, tags: bool) {
    !l.mix && (tags || (l.type_ != Vlan && l.type_ != Mpls))
  }

  /** Bytes of a key that the layers from i on, which are the inner ones, take. */
  function Taken(ls: seq<Layer>, i: nat, tags: bool): nat
    requires i <= |ls|
    decreases |ls| - i
  {
    if i == |ls| then 0
    else Taken(ls, i + 1, tags) + if Counts(ls[i], tags) then TypeLength(ls[i].type_) else 0
  }

  predicate Ties(l: Layer, d: seq<Byte>) {
    InPacket(l, d) && SameAddresses(l, d)
  }

  predicate Differs(l: Layer, d: seq<Byte>) {
    InPacket(l, d) && !SameAddresses(l, d)
  }

  /** Layer i decides: with the layers inside it it fits behind pos bytes into the 31 of a key, its two
      addresses differ, and those of the layers inside it do not. */
  predicate Decides(ls: seq<Layer>, d: seq<Byte>, i: nat, tags: bool, pos: nat) {
    && i < |ls| && Counts(ls[i], tags) && pos + Taken(ls, i, tags) <= 31
    && Differs(ls[i], d)
    && forall j | i < j < |ls| && Counts(ls[j], tags) :: Ties(ls[j], d)
  }

  /** The address that stands first, or the one that stands second, is the lower. */
  ghost predicate LowerOne(l: Layer, d: seq<Byte>, first: bool) {
    InPacket(l, d) && if first then FirstLower(l, d) else SecondLower(l, d)
  }

  /** Some layer decides, for its first address, or for its second. */
  ghost predicate Decided(ls: seq<Layer>, d: seq<Byte>, first: bool, tags: bool, pos: nat) {
    exists i: nat :: Decides(ls, d, i, tags, pos) && LowerOne(ls[i], d, first)
  }

  lemma {:induction false} TakenSnoc(outer: seq<Layer>, l: Layer, i: nat, tags: bool)
    requires i <= |outer|
    ensures Taken(outer + [l], i, tags)
         == Taken(outer, i, tags) + if Counts(l, tags) then TypeLength(l.type_) else 0
    decreases |outer| - i
  {
    hide Counts, TypeLength;
    if i < |outer| {
      TakenSnoc(outer, l, i + 1, tags);
    } else {
      assert Taken(outer + [l], i + 1, tags) == 0;
    }
  }

  lemma DecidesSnoc(outer: seq<Layer>, l: Layer, d: seq<Byte>, i: nat, tags: bool, pos: nat)
    requires i < |outer|
    ensures Decides(outer + [l], d, i, tags, pos) <==>
              if Counts(l, tags) then Ties(l, d) && Decides(outer, d, i, tags, pos + TypeLength(l.type_))
              else Decides(outer, d, i, tags, pos)
  {
    var ls := outer + [l];
    TakenSnoc(outer, l, i, tags);
    hide Counts, Differs, Ties, TypeLength, Taken;
    assert forall j | i < j < |outer| :: ls[j] == outer[j];
    assert ls[|outer|] == l;
  }

  lemma DecidesInner(outer: seq<Layer>, l: Layer, d: seq<Byte>, tags: bool, pos: nat)
    ensures Decides(outer + [l], d, |outer|, tags, pos) <==>
              Counts(l, tags) && pos + TypeLength(l.type_) <= 31 && Differs(l, d)
  {
    var ls := outer + [l];
    assert Taken(ls, |ls|, tags) == 0;
    hide Counts, Differs, Ties, TypeLength;
  }

  lemma DecidedSnoc(outer: seq<Layer>, l: Layer, d: seq<Byte>, first: bool, tags: bool, pos: nat)
    requires InPacket(l, d)
    ensures Decided(outer + [l], d, first, tags, pos) <==>
              if !Counts(l, tags) then Decided(outer, d, first, tags, pos)
              else if pos + TypeLength(l.type_) > 31 then false
              else if Differs(l, d) then LowerOne(l, d, first)
              else Decided(outer, d, first, tags, pos + TypeLength(l.type_))
  {
    var ls, pos' := outer + [l], if Counts(l, tags) then pos + TypeLength(l.type_) else pos;
    DecidesInner(outer, l, d, tags, pos);
    assert Differs(l, d) <==> !Ties(l, d);
    assert forall i: nat :: Decides(outer, d, i, tags, pos') ==> pos' <= 31;
    hide Counts, TypeLength, Differs, Ties, InPacket, LowerOne;
    assert forall i: nat :: Decides(ls, d, i, tags, pos) ==> i <= |outer|;
    assert forall i: nat :: Decides(outer, d, i, tags, pos') ==> i < |outer|;
    hide Decides;
    forall i: nat | i < |outer|
      ensures Decides(ls, d, i, tags, pos) <==> (Counts(l, tags) ==> Ties(l, d)) && Decides(outer, d, i, tags, pos')
      ensures ls[i] == outer[i]
    {
      DecidesSnoc(outer, l, d, i, tags, pos);
    }
    if Decided(outer, d, first, tags, pos') && (Counts(l, tags) ==> Ties(l, d)) {
      var i: nat :| Decides(outer, d, i, tags, pos') && LowerOne(outer[i], d, first);
      assert Decides(ls, d, i, tags, pos) && LowerOne(ls[i], d, first);
    }
    if Decides(ls, d, |outer|, tags, pos) && LowerOne(l, d, first) {
      assert LowerOne(ls[|outer|], d, first);
    }
    if Decided(ls, d, first, tags, pos) {
      var i: nat :| Decides(ls, d, i, tags, pos) && LowerOne(ls[i], d, first);
      if i < |outer| {
        assert Decides(outer, d, i, tags, pos') && LowerOne(outer[i], d, first);
      }
    }
  }

  // ---------- the side functions ----------

  /** What calcSide, with the tags, and isSrcLowerAddr, without, decide about these layers. */
  ghost function Verdict(ls: seq<Layer>, d: seq<Byte>, tags: bool, pos: nat): int
    requires AllInPacket(ls, d)
  {
    if tags then SideFrom(ls, pos, d) else LowerFrom(ls, pos, d)
  }

  lemma VerdictSnoc(outer: seq<Layer>, l: Layer, d: seq<Byte>, tags: bool, pos: nat)
    requires InPacket(l, d) && AllInPacket(outer, d) && AllInPacket(outer + [l], d)
    ensures Verdict(outer + [l], d, tags, pos)
         == if !Counts(l, tags) then Verdict(outer, d, tags, pos)
            else if pos + TypeLength(l.type_) > 31 then 0
            else if Compare(l, d) != 0 then Compare(l, d)
            else Verdict(outer, d, tags, pos + TypeLength(l.type_))
  {
    assert Bidirectional(l.type_) <==> l.type_ != Vlan && l.type_ != Mpls;
    hide Bidirectional, InPacket, AllInPacket, LowerFrom, SideFrom, Compare, TypeLength;
    LowerStep(outer, l, pos, d);
    SideStep(outer, l, pos, d);
  }

  lemma {:induction false} VerdictExactly(ls: seq<Layer>, d: seq<Byte>, tags: bool, pos: nat)
    requires AllInPacket(ls, d)
    ensures Verdict(ls, d, tags, pos) < 0 <==> Decided(ls, d, true, tags, pos)
    ensures Verdict(ls, d, tags, pos) > 0 <==> Decided(ls, d, false, tags, pos)
    decreases |ls|
  {
    hide *;
    if ls == [] {
      NothingDecided(d, tags, pos);
    } else {
      var outer, l := Outer(ls), Inner(ls);
      Unsnoc(ls);
      AllUnsnoc(ls, d);
      VerdictSnoc(outer, l, d, tags, pos);
      DecidedSnoc(outer, l, d, true, tags, pos);
      DecidedSnoc(outer, l, d, false, tags, pos);
      LayerExactly(l, d);
      VerdictExactly(outer, d, tags, if Counts(l, tags) then pos + TypeLength(l.type_) else pos);
    }
  }

  lemma LayerExactly(l: Layer, d: seq<Byte>)
    requires InPacket(l, d)
    ensures Compare(l, d) != 0 <==> Differs(l, d)
    ensures Compare(l, d) < 0 <==> LowerOne(l, d, true)
    ensures Compare(l, d) > 0 <==> LowerOne(l, d, false)
  {
    CompareExactly(l, d);
    hide Compare, SameAddresses, FirstLower, SecondLower, InPacket;
  }

  lemma NothingDecided(d: seq<Byte>, tags: bool, pos: nat)
    ensures AllInPacket([], d) && Verdict([], d, tags, pos) == 0
    ensures !Decided([], d, true, tags, pos) && !Decided([], d, false, tags, pos)
  {
  }

  /** Main result: isSrcLowerAddr answers yes exactly if some unmixed layer other than a tag, fitting
      into the key with those inside it, has in its header a first address lower than the second,
      and all layers inside it that take part have equal addresses. */
  lemma SrcLowerExactly(layers: seq<Layer>, d: seq<Byte>)
    requires AllInPacket(layers, d)
    ensures SrcLower(layers, d)
       <==> exists i: nat :: Decides(layers, d, i, false, 0) && LowerOne(layers[i], d, true)
  {
    AtTheStart(layers, d, false);
    hide SrcLower, LowerFrom;
    VerdictExactly(layers, d, false, 0);
  }

  /** Main result: calcSide answers 1 exactly if some unmixed layer, fitting into the key with those
      inside it, has in its header a second address lower than the first, and all layers inside it
      that take part have equal addresses. */
  lemma SideExactly(layers: seq<Layer>, d: seq<Byte>)
    requires AllInPacket(layers, d)
    ensures SideOf(layers, d)
       <==> exists i: nat :: Decides(layers, d, i, true, 0) && LowerOne(layers[i], d, false)
  {
    AtTheStart(layers, d, false);
    hide SideOf, SideFrom;
    VerdictExactly(layers, d, true, 0);
  }

  // ---------- the key ----------

  /** The layer is in a key that has pos bytes already. */
  predicate InKeyAt(ls: seq<Layer>, i: nat, pos: nat) {
    i < |ls| && !ls[i].mix && pos + Taken(ls, i, true) <= 31
  }

  /** The addresses of layer i stand in the key behind those of the layers inside it. */
  ghost predicate Stands(key: seq<Byte>, ls: seq<Layer>, d: seq<Byte>, side: bool, i: nat)
    requires i < |ls|
  {
    && InPacket(ls[i], d)
    && Taken(ls, i + 1, true) <= Taken(ls, i, true) <= |key|
    && key[Taken(ls, i + 1, true)..Taken(ls, i, true)] == AddressBytes(ls[i], d, side)
  }

  /** The bytes that a layer puts before the key of those outside it. */
  function Front(l: Layer, d: seq<Byte>, side: bool): (bytes: seq<Byte>)
    requires InPacket(l, d)
  {
    if l.mix then [] else AddressBytes(l, d, side)
  }

  lemma FrontTakes(outer: seq<Layer>, l: Layer, d: seq<Byte>, side: bool)
    requires InPacket(l, d)
    ensures |Front(l, d, side)| == if l.mix then 0 else TypeLength(l.type_)
    ensures Taken(outer + [l], |outer|, true) == |Front(l, d, side)| && Taken(outer + [l], |outer| + 1, true) == 0
    ensures forall i: nat | i <= |outer| :: Taken(outer + [l], i, true) == |Front(l, d, side)| + Taken(outer, i, true)
  {
    KeyBytesExactly(l, d, side);
    assert Counts(l, true) <==> !l.mix;
    hide TypeLength, AddressBytes, InPacket, Counts;
    forall i: nat | i <= |outer|
      ensures Taken(outer + [l], i, true) == |Front(l, d, side)| + Taken(outer, i, true)
    {
      TakenSnoc(outer, l, i, true);
    }
  }

  lemma Shifted(front: seq<Byte>, key: seq<Byte>, a: nat, b: nat)
    requires a <= b <= |key|
    ensures (front + key)[|front| + a..|front| + b] == key[a..b]
  {
  }

  lemma StandsSnoc(key: seq<Byte>, outer: seq<Layer>, l: Layer, d: seq<Byte>, side: bool, i: nat)
    requires i < |outer| && InPacket(l, d) && Stands(key, outer, d, side, i)
    ensures Stands(Front(l, d, side) + key, outer + [l], d, side, i)
  {
    FrontTakes(outer, l, d, side);
    hide AddressBytes, Taken, TypeLength, InPacket, Front;
    Shifted(Front(l, d, side), key, Taken(outer, i + 1, true), Taken(outer, i, true));
  }

  lemma StandsInner(key: seq<Byte>, outer: seq<Layer>, l: Layer, d: seq<Byte>, side: bool)
    requires !l.mix && InPacket(l, d)
    ensures Stands(Front(l, d, side) + key, outer + [l], d, side, |outer|)
  {
    FrontTakes(outer, l, d, side);
    hide AddressBytes, Taken, TypeLength, InPacket;
  }

  /** The key is as long as the addresses of the layers from some place inwards. */
  ghost predicate EndsWithALayer(key: seq<Byte>, ls: seq<Layer>) {
    exists i: nat :: i <= |ls| && |key| == Taken(ls, i, true)
  }

  ghost predicate LaidOut(key: seq<Byte>, ls: seq<Layer>, d: seq<Byte>, side: bool, pos: nat) {
    && (forall i: nat | InKeyAt(ls, i, pos) :: Stands(key, ls, d, side, i))
    && (pos <= 31 ==> pos + |key| <= 31)
    && EndsWithALayer(key, ls)
  }

  lemma NoneInKey(ls: seq<Layer>, pos: nat, d: seq<Byte>, side: bool)
    requires ls == [] || (!Inner(ls).mix && pos + TypeLength(Inner(ls).type_) > 31)
    ensures LaidOut([], ls, d, side, pos)
  {
    assert Taken(ls, |ls|, true) == 0;
    if ls != [] {
      Unsnoc(ls);
      forall i: nat | i < |ls|
        ensures !InKeyAt(ls, i, pos)
      {
        TakenSnoc(Outer(ls), Inner(ls), i, true);
      }
    }
  }

  lemma LaidOutSnoc(key: seq<Byte>, outer: seq<Layer>, l: Layer, d: seq<Byte>, side: bool, pos: nat)
    requires InPacket(l, d) && (!l.mix ==> pos + TypeLength(l.type_) <= 31)
    requires LaidOut(key, outer, d, side, pos + |Front(l, d, side)|)
    ensures LaidOut(Front(l, d, side) + key, outer + [l], d, side, pos)
  {
    var ls, bytes := outer + [l], Front(l, d, side);
    FrontTakes(outer, l, d, side);
    hide AddressBytes, Taken, TypeLength, InPacket, Front, Stands;
    forall i: nat | InKeyAt(ls, i, pos)
      ensures Stands(bytes + key, ls, d, side, i)
    {
      if i < |outer| {
        assert ls[i] == outer[i];
        assert InKeyAt(outer, i, pos + |bytes|);
        StandsSnoc(key, outer, l, d, side, i);
      } else {
        StandsInner(key, outer, l, d, side);
      }
    }
    var i: nat :| i <= |outer| && |key| == Taken(outer, i, true);
    assert i <= |ls| && |bytes + key| == Taken(ls, i, true);
  }

  lemma {:induction false} KeyFromLaidOut(ls: seq<Layer>, pos: nat, d: seq<Byte>, side: bool)
    requires AllInPacket(ls, d)
    ensures LaidOut(KeyFrom(ls, pos, d, side), ls, d, side, pos)
    decreases |ls|
  {
    assert ROOM == 31;
    hide *;
    if ls == [] {
      NothingLeft(pos, d, side);
      NoneInKey(ls, pos, d, side);
    } else {
      var outer, l := Outer(ls), Inner(ls);
      Unsnoc(ls);
      AllUnsnoc(ls, d);
      KeyStep(outer, l, pos, d, side);
      if !l.mix && pos + TypeLength(l.type_) > 31 {
        NoneInKey(ls, pos, d, side);
      } else {
        var pos' := if l.mix then pos else pos + TypeLength(l.type_);
        FrontIs(l, d, side, KeyFrom(outer, pos', d, side));
        KeyFromLaidOut(outer, pos', d, side);
        LaidOutSnoc(KeyFrom(outer, pos', d, side), outer, l, d, side, pos);
      }
    }
  }

  lemma FrontIs(l: Layer, d: seq<Byte>, side: bool, key: seq<Byte>)
    requires InPacket(l, d)
    ensures Front(l, d, side) + key == if l.mix then key else KeyBytes(l, d, side) + key
    ensures |Front(l, d, side)| == if l.mix then 0 else TypeLength(l.type_)
  {
    KeyBytesExactly(l, d, side);
    hide KeyBytes, AddressBytes;
  }

  /** Main result: the key holds, from the innermost layer outwards, the addresses of every unmixed layer
      that fits with those inside it into 31 bytes, as they stand in its header, in the order that
      `side` says, and nothing else. */
  lemma KeyLaidOut(layers: seq<Layer>, d: seq<Byte>, side: bool)
    requires AllInPacket(layers, d)
    ensures var key := FlowKeyOf(layers, d, side);
            && |key| <= 31
            && (exists i: nat :: i <= |layers| && |key| == Taken(layers, i, true))
            && forall i: nat | i < |layers| && !layers[i].mix && Taken(layers, i, true) <= 31 ::
                 && InPacket(layers[i], d)
                 && Taken(layers, i + 1, true) <= Taken(layers, i, true) <= |key|
                 && key[Taken(layers, i + 1, true)..Taken(layers, i, true)] == AddressBytes(layers[i], d, side)
  {
    AtTheStart(layers, d, side);
    KeyFromLaidOut(layers, 0, d, side);
    var key := FlowKeyOf(layers, d, side);
    hide KeyFrom, FlowKeyOf, AddressBytes, InPacket, Taken;
    assert EndsWithALayer(key, layers);
    forall i: nat | i < |layers| && !layers[i].mix && Taken(layers, i, true) <= 31
      ensures Stands(key, layers, d, side, i)
    {
      assert InKeyAt(layers, i, 0);
    }
  }
}
