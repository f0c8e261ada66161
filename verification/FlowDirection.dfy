/**
 The two directions of a flow, each with the side that it computes for itself: exactly when they get
 the same key.
 */
module FlowDirection {
  import opened Bytes
  import opened FlowLayers
  import opened FlowKey

  predicate NoEthernet(ls: seq<Layer>)
    decreases |ls|
  {
    ls == [] || (Inner(ls).type_ != Eth && NoEthernet(Outer(ls)))
  }

  predicate NoTags(ls: seq<Layer>)
    decreases |ls|
  {
    ls == [] || (!Tag(Inner(ls).type_) && NoTags(Outer(ls)))
  }

  /** Source and destination of every other layer with two addresses are the same. */
  ghost predicate PairsEqual(ls: seq<Layer>, d: seq<Byte>)
    requires AllInPacket(ls, d)
    decreases |ls|
  {
    ls == [] || ((Paired(Inner(ls).type_) ==> Src(Inner(ls), d) == Dst(Inner(ls), d)) && PairsEqual(Outer(ls), d))
  }

  predicate PairEqual(l: Layer, d: seq<Byte>)
    requires InPacket(l, d)
  {
    Paired(l.type_) ==> Src(l, d) == Dst(l, d)
  }

  /** A layer whose two halves are not exchanged in the reverse packet. */
  predicate OneWay(t: Type) {
    Tag(t) || t == Eth
  }

  predicate OneWaySame(l: Layer, d: seq<Byte>)
    requires InPacket(l, d)
  {
    OneWay(l.type_) ==> Src(l, d) == Dst(l, d)
  }

  /** The two halves of every VLAN, MPLS and Ethernet layer are the same. */
  ghost predicate OneWaySymmetric(ls: seq<Layer>, d: seq<Byte>)
    requires AllInPacket(ls, d)
    decreases |ls|
  {
    ls == [] || (OneWaySame(Inner(ls), d) && OneWaySymmetric(Outer(ls), d))
  }

  predicate SameStation(l: Layer, d: seq<Byte>)
    requires InPacket(l, d)
  {
    l.type_ == Eth ==> l.offset >= 6 && d[l.offset - 6..l.offset] == Src(l, d)
  }

  /** Every Ethernet header goes from a station to itself. */
  ghost predicate StationsEqual(ls: seq<Layer>, d: seq<Byte>)
    requires AllInPacket(ls, d)
    decreases |ls|
  {
    ls == [] || (SameStation(Inner(ls), d) && StationsEqual(Outer(ls), d))
  }

  lemma AgreesAtIs(l: Layer, d: seq<Byte>, sameSide: bool)
    requires InPacket(l, d)
    ensures AgreesAt(l, d, sameSide) <==> SameStation(l, d) && if sameSide then PairEqual(l, d) else OneWaySame(l, d)
  {
    hide Src, Dst, InPacket;
  }

  /** The layers of a key agree exactly if no Ethernet header in it joins two stations, and, on the same
      side, the pairs are equal, on different sides, the other layers read the same both ways. */
  lemma {:induction false} AgreementExactly(ls: seq<Layer>, d: seq<Byte>, sameSide: bool)
    requires AllInPacket(ls, d)
    ensures AllAgree(ls, d, sameSide)
       <==> StationsEqual(ls, d) && if sameSide then PairsEqual(ls, d) else OneWaySymmetric(ls, d)
    decreases |ls|
  {
    if ls != [] {
      AgreementExactly(Outer(ls), d, sameSide);
      AgreesAtIs(Inner(ls), d, sameSide);
      hide AgreesAt, SameStation, OneWaySame, InPacket, Src, Dst, Inner, Outer;
    }
  }

  // ---------- how the reverse packet compares ----------

  /** The comparison that the reverse packet makes, from this packet's bytes. */
  function CompareBack(l: Layer, d: seq<Byte>): (c: int)
    requires InPacket(l, d)
    ensures -1 <= c <= 1
  {
    if Paired(l.type_) then -Compare(l, d)
    else if l.type_ == Eth && l.offset >= 6 then Memcmp(d[l.offset - 6..l.offset], Dst(l, d))
    else Compare(l, d)
  }

  ghost function FirstBack(ls: seq<Layer>, d: seq<Byte>): (c: int)
    requires AllInPacket(ls, d)
    ensures -1 <= c <= 1
    decreases |ls|
  {
    if ls == [] then 0
    else if CompareBack(Inner(ls), d) != 0 then CompareBack(Inner(ls), d)
    else FirstBack(Outer(ls), d)
  }

  lemma EthernetReversed(l: Layer, d: seq<Byte>, d2: seq<Byte>)
    requires InPacket(l, d) && InPacket(l, d2) && Mirror(l, d, d2) && l.type_ == Eth
    ensures Compare(l, d2) == CompareBack(l, d)
  {
    hide Memcmp;
  }

  lemma LayerReversed(l: Layer, d: seq<Byte>, d2: seq<Byte>)
    requires InPacket(l, d) && InPacket(l, d2) && Mirror(l, d, d2)
    ensures Compare(l, d2) == CompareBack(l, d)
  {
    if l.type_ == Eth {
      EthernetReversed(l, d, d2);
    } else {
      MirrorHalves(l, d, d2);
      hide Mirror, InPacket, KeyBytes, Compare, Src, Dst;
    }
  }

  lemma {:induction false} BackIsReverse(ls: seq<Layer>, d: seq<Byte>, d2: seq<Byte>)
    requires AllInPacket(ls, d) && AllInPacket(ls, d2) && AllMirror(ls, d, d2)
    ensures FirstCompare(ls, d2) == FirstBack(ls, d)
    decreases |ls|
  {
    if ls != [] {
      LayerReversed(Inner(ls), d, d2);
      BackIsReverse(Outer(ls), d, d2);
      hide Mirror, InPacket, Compare, CompareBack, Inner, Outer;
    }
  }

  lemma LayerCompares(l: Layer, d: seq<Byte>)
    requires InPacket(l, d)
    ensures OneWaySame(l, d) && SameStation(l, d) ==> CompareBack(l, d) == -Compare(l, d)
    ensures PairEqual(l, d) && SameStation(l, d) ==> CompareBack(l, d) == Compare(l, d)
    ensures OneWaySame(l, d) && Compare(l, d) == 0 ==> PairEqual(l, d)
  {
    CompareDecides(l, d);
    assert TypeLength(l.type_) / 2 == 0 ==> Src(l, d) == Dst(l, d);
    assert !Paired(l.type_) && !OneWay(l.type_) ==> TypeLength(l.type_) / 2 == 0;
    if l.type_ == Eth {
      assert Compare(l, d) == Memcmp(Src(l, d), Dst(l, d));
    }
    hide Memcmp, Compare, InPacket, TypeMask, TypeLength, Src, Dst;
  }

  /** With equal stations the reverse packet decides the other way if what is not exchanged reads the
      same both ways, and the same way if the pairs are equal. */
  lemma {:induction false} BackExactly(ls: seq<Layer>, d: seq<Byte>)
    requires AllInPacket(ls, d) && StationsEqual(ls, d)
    ensures OneWaySymmetric(ls, d) ==> FirstBack(ls, d) == -FirstCompare(ls, d)
    ensures OneWaySymmetric(ls, d) && FirstCompare(ls, d) == 0 ==> PairsEqual(ls, d)
    ensures PairsEqual(ls, d) ==> FirstBack(ls, d) == FirstCompare(ls, d)
    decreases |ls|
  {
    if ls != [] {
      LayerCompares(Inner(ls), d);
      BackExactly(Outer(ls), d);
      hide Compare, CompareBack, SameStation, OneWaySame, InPacket, Inner, Outer, Src, Dst, Paired;
    }
  }

  // ---------- the layers of the key among those compared ----------

  /** PairsEqual, of a sequence that need not lie in the packet. */
  ghost predicate EqualPairs(ls: seq<Layer>, d: seq<Byte>) {
    AllInPacket(ls, d) && PairsEqual(ls, d)
  }

  lemma PairsSnoc(outer: seq<Layer>, l: Layer, d: seq<Byte>)
    ensures EqualPairs(outer + [l], d) <==> InPacket(l, d) && PairEqual(l, d) && EqualPairs(outer, d)
  {
    Snoc(outer, l);
  }

  lemma NothingPaired(d: seq<Byte>)
    ensures EqualPairs([], d)
  {
  }

  lemma OneWayIsEqual(l: Layer, d: seq<Byte>)
    requires InPacket(l, d) && !Bidirectional(l.type_)
    ensures PairEqual(l, d)
  {
  }

  lemma PairsStep(outer: seq<Layer>, l: Layer, d: seq<Byte>, pos: nat, posB: nat)
    requires InPacket(l, d) && posB <= pos && pos + TypeLength(l.type_) <= ROOM
    requires EqualPairs(Fit(Bidirs(outer + [l]), posB), d)
    ensures if Bidirectional(l.type_) then EqualPairs(Fit(Bidirs(outer), posB + TypeLength(l.type_)), d)
            else EqualPairs(Fit(Bidirs(outer), posB), d)
    ensures EqualPairs(Fit(outer, pos + TypeLength(l.type_)), d) ==> EqualPairs(Fit(outer + [l], pos), d)
  {
    hide *;
    var len := TypeLength(l.type_);
    BidirsSnoc(outer, l);
    FitSnoc(outer, l, pos);
    FitSnoc(Bidirs(outer), l, posB);
    PairsSnoc(Fit(outer, pos + len), l, d);
    PairsSnoc(Fit(Bidirs(outer), posB + len), l, d);
    if !Bidirectional(l.type_) {
      OneWayIsEqual(l, d);
    }
  }

  lemma FitNothing(ls: seq<Layer>, pos: nat)
    requires ls == [] || pos + TypeLength(Inner(ls).type_) > ROOM
    ensures Fit(ls, pos) == []
  {
  }

  lemma AllUnsnoc(ls: seq<Layer>, d: seq<Byte>)
    requires ls != [] && AllInPacket(ls, d)
    ensures InPacket(Inner(ls), d) && AllInPacket(Outer(ls), d)
  {
  }

  /** The address pairs of the key are among those that isSrcLowerAddr compares. */
  lemma {:induction false} PairsAreCompared(ls: seq<Layer>, d: seq<Byte>, pos: nat, posB: nat)
    requires AllInPacket(ls, d) && posB <= pos && EqualPairs(Fit(Bidirs(ls), posB), d)
    ensures EqualPairs(Fit(ls, pos), d)
    decreases |ls|
  {
    hide *;
    if ls == [] || pos + TypeLength(Inner(ls).type_) > ROOM {
      FitNothing(ls, pos);
      NothingPaired(d);
    } else {
      var l, outer, len := Inner(ls), Outer(ls), TypeLength(Inner(ls).type_);
      Unsnoc(ls);
      AllUnsnoc(ls, d);
      PairsStep(outer, l, d, pos, posB);
      PairsAreCompared(outer, d, pos + len, if Bidirectional(l.type_) then posB + len else posB);
    }
  }

  /** The layers of an untagged key are the innermost ones of those that isSrcLowerAddr compares: an
      address pair that differs decides there too. */
  lemma {:induction false} KeyDecides(ls: seq<Layer>, pos: nat, d: seq<Byte>)
    requires AllInPacket(ls, d) && AllInPacket(Fit(ls, pos), d) && AllInPacket(Fit(Bidirs(ls), pos), d)
        && NoTags(Fit(ls, pos))
    ensures FirstCompare(Fit(ls, pos), d) != 0 ==>
              FirstCompare(Fit(Bidirs(ls), pos), d) == FirstCompare(Fit(ls, pos), d)
    ensures FirstBack(Fit(ls, pos), d) != 0 ==>
              FirstBack(Fit(Bidirs(ls), pos), d) == FirstBack(Fit(ls, pos), d)
    decreases |ls|
  {
    hide *;
    if ls == [] || pos + TypeLength(Inner(ls).type_) > ROOM {
      FitNothing(ls, pos);
      NothingCompares(d);
    } else {
      var l, outer, pos' := Inner(ls), Outer(ls), pos + TypeLength(Inner(ls).type_);
      Unsnoc(ls);
      AllUnsnoc(ls, d);
      FitSnoc(outer, l, pos);
      NoTagsSnoc(Fit(outer, pos'), l);
      UntaggedIsBidirectional(l, d);
      BidirsSnoc(outer, l);
      FitSnoc(Bidirs(outer), l, pos);
      BidirsInPacket(outer, d);
      FitInPacket(outer, pos', d);
      FitInPacket(Bidirs(outer), pos', d);
      KeyDecides(outer, pos', d);
      FirstSnoc(Fit(outer, pos'), l, d);
      FirstSnoc(Fit(Bidirs(outer), pos'), l, d);
    }
  }

  lemma NothingCompares(d: seq<Byte>)
    ensures AllInPacket([], d) && FirstCompare([], d) == 0 && FirstBack([], d) == 0
  {
  }

  lemma FirstSnoc(outer: seq<Layer>, l: Layer, d: seq<Byte>)
    requires AllInPacket(outer, d) && InPacket(l, d)
    ensures AllInPacket(outer + [l], d)
    ensures FirstCompare(outer + [l], d) == if Compare(l, d) != 0 then Compare(l, d) else FirstCompare(outer, d)
    ensures FirstBack(outer + [l], d) == if CompareBack(l, d) != 0 then CompareBack(l, d) else FirstBack(outer, d)
  {
    Snoc(outer, l);
    hide Compare, CompareBack, InPacket;
  }

  lemma NoTagsSnoc(outer: seq<Layer>, l: Layer)
    ensures NoTags(outer + [l]) <==> !Tag(l.type_) && NoTags(outer)
  {
    Snoc(outer, l);
  }

  lemma UntaggedIsBidirectional(l: Layer, d: seq<Byte>)
    requires InPacket(l, d) && !Tag(l.type_)
    ensures Bidirectional(l.type_)
  {
  }

  /** Tags are compared by calcSide but not by isSrcLowerAddr. */
  lemma {:induction false} BidirsHaveNoTags(ls: seq<Layer>)
    ensures NoTags(Bidirs(ls))
    decreases |ls|
  {
    if ls != [] {
      BidirsHaveNoTags(Outer(ls));
      Snoc(Bidirs(Outer(ls)), Inner(ls));
      assert Bidirectional(Inner(ls).type_) ==> !Tag(Inner(ls).type_);
      hide Bidirectional, Tag;
    }
  }

  lemma NoEthernetSnoc(outer: seq<Layer>, l: Layer)
    ensures NoEthernet(outer + [l]) <==> l.type_ != Eth && NoEthernet(outer)
    ensures NoEthernet([]) && NoTags([])
  {
    Snoc(outer, l);
  }

  lemma {:induction false} NoEthernetSelected(ls: seq<Layer>, pos: nat)
    requires NoEthernet(ls)
    ensures NoEthernet(Fit(ls, pos))
    decreases |ls|
  {
    hide *;
    if ls == [] || pos + TypeLength(Inner(ls).type_) > ROOM {
      FitNothing(ls, pos);
      NoEthernetSnoc([], Layer(Unknown, 0, false));
    } else {
      var l, outer, pos' := Inner(ls), Outer(ls), pos + TypeLength(Inner(ls).type_);
      Unsnoc(ls);
      NoEthernetSnoc(outer, l);
      FitSnoc(outer, l, pos);
      NoEthernetSelected(outer, pos');
      NoEthernetSnoc(Fit(outer, pos'), l);
    }
  }

  lemma {:induction false} NoTagsSelected(ls: seq<Layer>, pos: nat)
    requires NoTags(ls)
    ensures NoTags(Fit(ls, pos))
    decreases |ls|
  {
    hide *;
    if ls == [] || pos + TypeLength(Inner(ls).type_) > ROOM {
      FitNothing(ls, pos);
      NoEthernetSnoc([], Layer(Unknown, 0, false));
    } else {
      var l, outer, pos' := Inner(ls), Outer(ls), pos + TypeLength(Inner(ls).type_);
      Unsnoc(ls);
      NoTagsSnoc(outer, l);
      FitSnoc(outer, l, pos);
      NoTagsSelected(outer, pos');
      NoTagsSnoc(Fit(outer, pos'), l);
    }
  }

  lemma {:induction false} NothingOneWay(ls: seq<Layer>, d: seq<Byte>)
    requires AllInPacket(ls, d) && NoEthernet(ls)
    ensures StationsEqual(ls, d)
    ensures NoTags(ls) ==> OneWaySymmetric(ls, d)
    decreases |ls|
  {
    if ls != [] {
      NothingOneWay(Outer(ls), d);
      hide InPacket, Src, Dst;
    }
  }

  // ---------- the theorems ----------

  /** isSrcLowerAddr answers the same for the packet and its reverse. */
  ghost predicate SidesCoincide(layers: seq<Layer>, d: seq<Byte>)
    requires AllInPacket(layers, d)
  {
    (FirstCompare(Compared(layers, d), d) < 0) == (FirstBack(Compared(layers, d), d) < 0)
  }

  lemma SidesCoincideIs(layers: seq<Layer>, d: seq<Byte>)
    requires AllInPacket(layers, d)
    ensures SidesCoincide(layers, d)
        <==> (FirstCompare(Compared(layers, d), d) < 0 <==> FirstBack(Compared(layers, d), d) < 0)
  {
  }

  /** A packet and its reverse, each with its own side, get the same key exactly if no Ethernet header in
      the key joins two stations and, where both take the same side, the address pairs in the key are
      equal, where they take different ones, its VLAN, MPLS and Ethernet layers read the same both
      ways. The sides are those that isSrcLowerAddr gives, and both are read off the one packet. */
  lemma DirectionIndependentBySrcLower(layers: seq<Layer>, d: seq<Byte>, d2: seq<Byte>)
    requires AllInPacket(layers, d) && AllInPacket(layers, d2) && AllMirror(layers, d, d2)
    ensures FlowKeyOf(layers, d2, SrcLower(layers, d2)) == FlowKeyOf(layers, d, SrcLower(layers, d))
       <==> && StationsEqual(InKey(layers, d), d)
            && if SidesCoincide(layers, d) then PairsEqual(InKey(layers, d), d)
                else OneWaySymmetric(InKey(layers, d), d)
  {
    SidesCoincideIs(layers, d);
    SrcLowerIs(layers, d);
    SrcLowerIs(layers, d2);
    hide *;
    SelectionMirror(layers, d, d2);
    KeysAgreeExactly(layers, d, d2, SrcLower(layers, d), SrcLower(layers, d2));
    BackIsReverse(Compared(layers, d), d, d2);
    AgreementExactly(InKey(layers, d), d, SrcLower(layers, d) == SrcLower(layers, d2));
  }

  lemma SrcLowerIs(layers: seq<Layer>, d: seq<Byte>)
    requires AllInPacket(layers, d)
    ensures SrcLower(layers, d) <==> FirstCompare(Compared(layers, d), d) < 0
    ensures SideOf(layers, d) <==> FirstCompare(InKey(layers, d), d) > 0
  {
  }

  /** With calcSide, which compares the layers of the key itself: exactly if no Ethernet header in the
      key joins two stations, and either the address pairs in it are equal or the other layers read
      the same both ways. */
  lemma DirectionIndependentByCalcSide(layers: seq<Layer>, d: seq<Byte>, d2: seq<Byte>)
    requires AllInPacket(layers, d) && AllInPacket(layers, d2) && AllMirror(layers, d, d2)
    ensures FlowKeyOf(layers, d2, SideOf(layers, d2)) == FlowKeyOf(layers, d, SideOf(layers, d))
       <==> && StationsEqual(InKey(layers, d), d)
            && (PairsEqual(InKey(layers, d), d) || OneWaySymmetric(InKey(layers, d), d))
  {
    SrcLowerIs(layers, d);
    SrcLowerIs(layers, d2);
    hide *;
    SelectionMirror(layers, d, d2);
    KeysAgreeExactly(layers, d, d2, SideOf(layers, d), SideOf(layers, d2));
    BackIsReverse(InKey(layers, d), d, d2);
    AgreementExactly(InKey(layers, d), d, SideOf(layers, d) == SideOf(layers, d2));
    if StationsEqual(InKey(layers, d), d) {
      BackExactly(InKey(layers, d), d);
    }
  }

  /** The criterion for isSrcLowerAddr where Ethernet takes no part: all addresses that it compares are
      equal, or the tags in the key read the same both ways. */
  lemma SrcLowerWithoutEthernet(layers: seq<Layer>, d: seq<Byte>, d2: seq<Byte>)
    requires AllInPacket(layers, d) && AllInPacket(layers, d2) && AllMirror(layers, d, d2)
    requires NoEthernet(InKey(layers, d)) && NoEthernet(Compared(layers, d))
    ensures FlowKeyOf(layers, d2, SrcLower(layers, d2)) == FlowKeyOf(layers, d, SrcLower(layers, d))
       <==> FirstCompare(Compared(layers, d), d) == 0 || OneWaySymmetric(InKey(layers, d), d)
  {
    ComparedPairs(layers, d);
    hide *;
    SidesCoincideIs(layers, d);
    DirectionIndependentBySrcLower(layers, d, d2);
    NothingOneWay(InKey(layers, d), d);
    NothingOneWay(Compared(layers, d), d);
    BackExactly(Compared(layers, d), d);
  }

  lemma ComparedPairs(layers: seq<Layer>, d: seq<Byte>)
    requires AllInPacket(layers, d)
    ensures PairsEqual(Compared(layers, d), d) ==> PairsEqual(InKey(layers, d), d)
    ensures NoTags(Compared(layers, d))
    ensures NoTags(InKey(layers, d)) && FirstCompare(InKey(layers, d), d) != 0 ==>
              FirstCompare(Compared(layers, d), d) == FirstCompare(InKey(layers, d), d)
    ensures NoTags(InKey(layers, d)) && FirstBack(InKey(layers, d), d) != 0 ==>
              FirstBack(Compared(layers, d), d) == FirstBack(InKey(layers, d), d)
  {
    var unmixed, cmp, key := Unmixed(layers), Compared(layers, d), InKey(layers, d);
    UnmixedInPacket(layers, d);
    assert cmp == Fit(Bidirs(unmixed), 0) && key == Fit(unmixed, 0);
    assert PairsEqual(cmp, d) ==> EqualPairs(cmp, d);
    assert EqualPairs(key, d) ==> PairsEqual(key, d);
    hide *;
    BidirsHaveNoTags(unmixed);
    NoTagsSelected(Bidirs(unmixed), 0);
    if PairsEqual(cmp, d) {
      PairsAreCompared(unmixed, d, 0, 0);
    }
    if NoTags(key) {
      KeyDecides(unmixed, 0, d);
    }
  }

  /** The two functions answer the opposite of each other: without tags in the key, of every packet that
      has two different addresses in its key exactly one of them says yes; calcSide says no of the
      others. */
  lemma SidesAreOpposite(layers: seq<Layer>, d: seq<Byte>)
    requires AllInPacket(layers, d) && NoTags(InKey(layers, d))
    ensures SideOf(layers, d) <==> !SrcLower(layers, d) && FirstCompare(InKey(layers, d), d) != 0
    ensures !(SideOf(layers, d) && SrcLower(layers, d))
  {
    SrcLowerIs(layers, d);
    hide *;
    ComparedPairs(layers, d);
  }

  /** In particular: without Ethernet, VLAN and MPLS layers in the key it does not depend on the
      direction, whichever function chooses the side, and whatever lies outside the key. */
  lemma DirectionIndependent(layers: seq<Layer>, d: seq<Byte>, d2: seq<Byte>)
    requires AllInPacket(layers, d) && AllInPacket(layers, d2) && AllMirror(layers, d, d2)
    requires NoEthernet(InKey(layers, d)) && NoTags(InKey(layers, d))
    ensures FlowKeyOf(layers, d2, SrcLower(layers, d2)) == FlowKeyOf(layers, d, SrcLower(layers, d))
    ensures FlowKeyOf(layers, d2, SideOf(layers, d2)) == FlowKeyOf(layers, d, SideOf(layers, d))
  {
    hide *;
    SidesCoincideIs(layers, d);
    DirectionIndependentBySrcLower(layers, d, d2);
    DirectionIndependentByCalcSide(layers, d, d2);
    NothingOneWay(InKey(layers, d), d);
    BackExactly(InKey(layers, d), d);
    ComparedPairs(layers, d);
  }

  /** Layers that are not there before the key is made are not in it. */
  lemma NothingIntoKey(layers: seq<Layer>, d: seq<Byte>)
    requires AllInPacket(layers, d) && NoEthernet(Unmixed(layers)) && NoTags(Unmixed(layers))
    ensures NoEthernet(InKey(layers, d)) && NoTags(InKey(layers, d))
  {
    NoEthernetSelected(Unmixed(layers), 0);
    NoTagsSelected(Unmixed(layers), 0);
  }
}
