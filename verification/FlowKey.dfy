/**
 The flow key as a whole, defined without the loops of the code, and what it takes for the two
 directions of a flow to get the same key.

 A stack of layers is a sequence with the innermost layer last; the code works from there outwards,
 and so do the definitions.
 */
module FlowKey {
  import opened Bytes
  import opened FlowLayers

  // ---------- reference definitions ----------

  /** Room for addresses in a key of CONFIG_FLOWADDR_SIZE = 32 bytes, the last of which is the length. */
  const KEY_SIZE := 32
  const ROOM := KEY_SIZE - 1

  function Inner(ls: seq<Layer>): Layer
    requires ls != []
  {
    ls[|ls| - 1]
  }

  function Outer(ls: seq<Layer>): (outer: seq<Layer>)
    requires ls != []
    ensures |outer| < |ls|
  {
    ls[..|ls| - 1]
  }

  /** The layers that take part. */
  function Unmixed(layers: seq<Layer>): seq<Layer>
    decreases |layers|
  {
    if layers == [] then []
    else if Inner(layers).mix then Unmixed(Outer(layers))
    else Unmixed(Outer(layers)) + [Inner(layers)]
  }

  predicate Bidirectional(t: Type) {
    Code(t) > Code(BidirMark)
  }

  function Bidirs(ls: seq<Layer>): seq<Layer>
    decreases |ls|
  {
    if ls == [] then []
    else if !Bidirectional(Inner(ls).type_) then Bidirs(Outer(ls))
    else Bidirs(Outer(ls)) + [Inner(ls)]
  }

  /** The innermost layers that fit behind pos bytes. */
  function Fit(ls: seq<Layer>, pos: nat): seq<Layer>
    decreases |ls|
  {
    if ls == [] || pos + TypeLength(Inner(ls).type_) > ROOM then []
    else Fit(Outer(ls), pos + TypeLength(Inner(ls).type_)) + [Inner(ls)]
  }

  ghost predicate AllInPacket(ls: seq<Layer>, data: seq<Byte>)
    decreases |ls|
  {
    ls == [] || (InPacket(Inner(ls), data) && AllInPacket(Outer(ls), data))
  }

  /** The addresses, the innermost layer's first. */
  ghost function Key(ls: seq<Layer>, data: seq<Byte>, side: bool): seq<Byte>
    requires AllInPacket(ls, data)
    decreases |ls|
  {
    if ls == [] then [] else KeyBytes(Inner(ls), data, side) + Key(Outer(ls), data, side)
  }

  /** The comparison of the innermost layer whose two addresses differ. */
  ghost function FirstCompare(ls: seq<Layer>, data: seq<Byte>): (c: int)
    requires AllInPacket(ls, data)
    ensures -1 <= c <= 1
    decreases |ls|
  {
    if ls == [] then 0
    else if Compare(Inner(ls), data) != 0 then Compare(Inner(ls), data)
    else FirstCompare(Outer(ls), data)
  }

  lemma Snoc(outer: seq<Layer>, l: Layer)
    ensures Inner(outer + [l]) == l && Outer(outer + [l]) == outer
  {
  }

  /** The layers whose addresses make up the key. */
  ghost function InKey(layers: seq<Layer>, data: seq<Byte>): (ls: seq<Layer>)
    requires AllInPacket(layers, data)
    ensures AllInPacket(ls, data)
  {
    UnmixedInPacket(layers, data);
    FitInPacket(Unmixed(layers), 0, data);
    Fit(Unmixed(layers), 0)
  }

  /** The layers that isSrcLowerAddr compares. */
  ghost function Compared(layers: seq<Layer>, data: seq<Byte>): (ls: seq<Layer>)
    requires AllInPacket(layers, data)
    ensures AllInPacket(ls, data)
  {
    UnmixedInPacket(layers, data);
    BidirsInPacket(Unmixed(layers), data);
    FitInPacket(Bidirs(Unmixed(layers)), 0, data);
    Fit(Bidirs(Unmixed(layers)), 0)
  }

  ghost function FlowKeyOf(layers: seq<Layer>, data: seq<Byte>, side: bool): seq<Byte>
    requires AllInPacket(layers, data)
  {
    Key(InKey(layers, data), data, side)
  }

  /** isSrcLowerAddr looks at the bidirectional layers only ... */
  ghost predicate SrcLower(layers: seq<Layer>, data: seq<Byte>)
    requires AllInPacket(layers, data)
  {
    FirstCompare(Compared(layers, data), data) < 0
  }

  /** ... calcSide at all layers of the key, and answers the other way round. */
  ghost predicate SideOf(layers: seq<Layer>, data: seq<Byte>)
    requires AllInPacket(layers, data)
  {
    FirstCompare(InKey(layers, data), data) > 0
  }

  lemma {:induction false} UnmixedInPacket(ls: seq<Layer>, data: seq<Byte>)
    requires AllInPacket(ls, data)
    ensures AllInPacket(Unmixed(ls), data)
    decreases |ls|
  {
    if ls != [] {
      UnmixedInPacket(Outer(ls), data);
      Snoc(Unmixed(Outer(ls)), Inner(ls));
    }
  }

  lemma {:induction false} BidirsInPacket(ls: seq<Layer>, data: seq<Byte>)
    requires AllInPacket(ls, data)
    ensures AllInPacket(Bidirs(ls), data)
    decreases |ls|
  {
    if ls != [] {
      BidirsInPacket(Outer(ls), data);
      Snoc(Bidirs(Outer(ls)), Inner(ls));
    }
  }

  lemma {:induction false} FitInPacket(ls: seq<Layer>, pos: nat, data: seq<Byte>)
    requires AllInPacket(ls, data)
    ensures AllInPacket(Fit(ls, pos), data)
    decreases |ls|
  {
    if ls != [] {
      var pos' := pos + TypeLength(Inner(ls).type_);
      FitInPacket(Outer(ls), pos', data);
      Snoc(Fit(Outer(ls), pos'), Inner(ls));
    }
  }

  lemma {:induction false} FitLength(ls: seq<Layer>, pos: nat, data: seq<Byte>, side: bool)
    requires AllInPacket(ls, data) && AllInPacket(Fit(ls, pos), data) && pos <= ROOM
    ensures pos + |Key(Fit(ls, pos), data, side)| <= ROOM
    decreases |ls|
  {
    if ls != [] {
      var pos' := pos + TypeLength(Inner(ls).type_);
      if pos' <= ROOM {
        Snoc(Fit(Outer(ls), pos'), Inner(ls));
        FitLength(Outer(ls), pos', data, side);
      }
    }
  }

  // ---------- the reverse packet ----------

  predicate Paired(t: Type) {
    t == Ip4 || t == Tcp || t == Udp || t == Sctp || t == Mtp || t == Mtp3
  }

  predicate Tag(t: Type) {
    t == Vlan || t == Mpls
  }

  /** The layer in the reverse packet: source and destination change places, everything else that
      belongs to the layer stays. In an Ethernet header the destination stands before the source. */
  predicate Mirror(l: Layer, d: seq<Byte>, d2: seq<Byte>)
    requires InPacket(l, d) && InPacket(l, d2)
  {
    var o, half := l.offset, TypeLength(l.type_) / 2;
    if Paired(l.type_) then
      if TypeMask(l.type_) != 0 then
        SrcField(l, d2) == DstField(l, d) && DstField(l, d2) == SrcField(l, d)
      else
        d2[o..o + half] == d[o + half..o + half + half] && d2[o + half..o + half + half] == d[o..o + half]
    else if l.type_ == Eth then
      o >= 6 && d2[o..o + 6] == d[o - 6..o] && d2[o - 6..o] == d[o..o + 6] && d2[o + 6..o + 12] == d[o + 6..o + 12]
    else
      d2[o..o + ReadLength(l.type_)] == d[o..o + ReadLength(l.type_)]
  }

  ghost predicate AllMirror(ls: seq<Layer>, d: seq<Byte>, d2: seq<Byte>)
    requires AllInPacket(ls, d) && AllInPacket(ls, d2)
    decreases |ls|
  {
    ls == [] || (Mirror(Inner(ls), d, d2) && AllMirror(Outer(ls), d, d2))
  }

  /** What makes a layer's bytes in the key agree with those of the reverse packet, when the two
      packets use the same side or different ones. */
  predicate AgreesAt(l: Layer, d: seq<Byte>, sameSide: bool)
    requires InPacket(l, d)
  {
    if Paired(l.type_) then sameSide ==> Src(l, d) == Dst(l, d)
    else if Tag(l.type_) then !sameSide ==> Src(l, d) == Dst(l, d)
    else if l.type_ == Eth then
      && l.offset >= 6
      && d[l.offset - 6..l.offset] == Src(l, d)
      && (!sameSide ==> Src(l, d) == Dst(l, d))
    else true
  }

  lemma SameSlices(d: seq<Byte>, d2: seq<Byte>, o: nat, n: nat)
    requires o + n <= |d| && o + n <= |d2| && d2[o..o + n] == d[o..o + n]
    ensures forall i, j :: o <= i <= j <= o + n ==> d2[i..j] == d[i..j]
  {
    forall k | o <= k < o + n
      ensures d2[k] == d[k]
    {
      assert d2[k] == d2[o..o + n][k - o];
    }
  }

  lemma MirrorHalves(l: Layer, d: seq<Byte>, d2: seq<Byte>)
    requires InPacket(l, d) && InPacket(l, d2) && Mirror(l, d, d2)
    ensures Paired(l.type_) ==> Src(l, d2) == Dst(l, d) && Dst(l, d2) == Src(l, d) && Compare(l, d2) == -Compare(l, d)
    ensures !Paired(l.type_) && l.type_ != Eth ==>
              && (forall side :: KeyBytes(l, d2, side) == KeyBytes(l, d, side))
              && Compare(l, d2) == Compare(l, d)
  {
    if Paired(l.type_) {
      MirrorSwaps(l, d, d2);
    } else if l.type_ != Eth {
      SameReading(l, d, d2);
    }
  }

  lemma MirrorSwaps(l: Layer, d: seq<Byte>, d2: seq<Byte>)
    requires InPacket(l, d) && InPacket(l, d2) && Mirror(l, d, d2) && Paired(l.type_)
    ensures Src(l, d2) == Dst(l, d) && Dst(l, d2) == Src(l, d) && Compare(l, d2) == -Compare(l, d)
  {
    hide SrcField, DstField, LowBytes, Memcmp, TypeLength, TypeMask, ReadLength, InPacket, Paired;
    if TypeMask(l.type_) == 0 {
      MemcmpAntisymmetric(Src(l, d), Dst(l, d));
    }
  }

  lemma SameReading(l: Layer, d: seq<Byte>, d2: seq<Byte>)
    requires InPacket(l, d) && InPacket(l, d2)
    requires var o, n := l.offset, ReadLength(l.type_); d2[o..o + n] == d[o..o + n]
    ensures forall side :: KeyBytes(l, d2, side) == KeyBytes(l, d, side)
    ensures Compare(l, d2) == Compare(l, d)
  {
    var o, n := l.offset, ReadLength(l.type_);
    SameSlices(d, d2, o, n);
    hide Load32, Field, LowBytes, Memcmp;
    assert Src(l, d2) == Src(l, d) && Dst(l, d2) == Dst(l, d);
    hide Src, Dst;
  }

  lemma EqualHalves(a: seq<Byte>, b: seq<Byte>, c: seq<Byte>, d: seq<Byte>)
    requires |a| == |c|
    ensures a + b == c + d <==> a == c && b == d
  {
    if a + b == c + d {
      assert a == (a + b)[..|a|] && c == (c + d)[..|a|];
      assert b == (a + b)[|a|..] && d == (c + d)[|a|..];
    }
  }

  /** One layer agrees exactly when AgreesAt says so. */
  lemma LayerAgrees(l: Layer, d: seq<Byte>, d2: seq<Byte>, s: bool, s2: bool)
    requires InPacket(l, d) && InPacket(l, d2) && Mirror(l, d, d2)
    ensures KeyBytes(l, d2, s2) == KeyBytes(l, d, s) <==> AgreesAt(l, d, s == s2)
  {
    MirrorHalves(l, d, d2);
    if TypeLength(l.type_) > 1 {
      hide Compare;
      var a, b, a2, b2 := Src(l, d), Dst(l, d), Src(l, d2), Dst(l, d2);
      EqualHalves(a2, b2, a, b);
      EqualHalves(a2, b2, b, a);
      EqualHalves(b2, a2, a, b);
      EqualHalves(b2, a2, b, a);
      EqualHalves(a, b, b, a);
    }
  }

  ghost predicate AllAgree(ls: seq<Layer>, d: seq<Byte>, sameSide: bool)
    requires AllInPacket(ls, d)
    decreases |ls|
  {
    ls == [] || (AgreesAt(Inner(ls), d, sameSide) && AllAgree(Outer(ls), d, sameSide))
  }

  lemma {:induction false} KeyAgrees(ls: seq<Layer>, d: seq<Byte>, d2: seq<Byte>, s: bool, s2: bool)
    requires AllInPacket(ls, d) && AllInPacket(ls, d2) && AllMirror(ls, d, d2)
    ensures Key(ls, d2, s2) == Key(ls, d, s) <==> AllAgree(ls, d, s == s2)
    decreases |ls|
  {
    if ls != [] {
      var l, outer := Inner(ls), Outer(ls);
      LayerAgrees(l, d, d2, s, s2);
      KeyAgrees(outer, d, d2, s, s2);
      hide AgreesAt, Mirror, KeyBytes, InPacket, Inner, Outer;
      EqualHalves(KeyBytes(l, d2, s2), Key(outer, d2, s2), KeyBytes(l, d, s), Key(outer, d, s));
    }
  }

  lemma {:induction false} UnmixedMirror(ls: seq<Layer>, d: seq<Byte>, d2: seq<Byte>)
    requires AllInPacket(ls, d) && AllInPacket(ls, d2) && AllMirror(ls, d, d2)
    ensures AllInPacket(Unmixed(ls), d) && AllInPacket(Unmixed(ls), d2) && AllMirror(Unmixed(ls), d, d2)
    decreases |ls|
  {
    UnmixedInPacket(ls, d);
    UnmixedInPacket(ls, d2);
    if ls != [] {
      UnmixedMirror(Outer(ls), d, d2);
      Snoc(Unmixed(Outer(ls)), Inner(ls));
    }
  }

  lemma {:induction false} BidirsMirror(ls: seq<Layer>, d: seq<Byte>, d2: seq<Byte>)
    requires AllInPacket(ls, d) && AllInPacket(ls, d2) && AllMirror(ls, d, d2)
    ensures AllInPacket(Bidirs(ls), d) && AllInPacket(Bidirs(ls), d2) && AllMirror(Bidirs(ls), d, d2)
    decreases |ls|
  {
    BidirsInPacket(ls, d);
    BidirsInPacket(ls, d2);
    if ls != [] {
      BidirsMirror(Outer(ls), d, d2);
      Snoc(Bidirs(Outer(ls)), Inner(ls));
    }
  }

  lemma {:induction false} FitMirror(ls: seq<Layer>, pos: nat, d: seq<Byte>, d2: seq<Byte>)
    requires AllInPacket(ls, d) && AllInPacket(ls, d2) && AllMirror(ls, d, d2)
    ensures AllInPacket(Fit(ls, pos), d) && AllInPacket(Fit(ls, pos), d2) && AllMirror(Fit(ls, pos), d, d2)
    decreases |ls|
  {
    FitInPacket(ls, pos, d);
    FitInPacket(ls, pos, d2);
    if ls != [] {
      var pos' := pos + TypeLength(Inner(ls).type_);
      FitMirror(Outer(ls), pos', d, d2);
      Snoc(Fit(Outer(ls), pos'), Inner(ls));
    }
  }

  /** The layers in the key and the layers compared are the same for a packet and its reverse. */
  lemma SelectionMirror(layers: seq<Layer>, d: seq<Byte>, d2: seq<Byte>)
    requires AllInPacket(layers, d) && AllInPacket(layers, d2) && AllMirror(layers, d, d2)
    ensures InKey(layers, d2) == InKey(layers, d) && AllMirror(InKey(layers, d), d, d2)
    ensures Compared(layers, d2) == Compared(layers, d) && AllMirror(Compared(layers, d), d, d2)
  {
    UnmixedMirror(layers, d, d2);
    BidirsMirror(Unmixed(layers), d, d2);
    FitMirror(Unmixed(layers), 0, d, d2);
    FitMirror(Bidirs(Unmixed(layers)), 0, d, d2);
  }

  /** For every stack of layers, and whatever sides the two packets use, a packet and its reverse
      get the same key exactly when every layer in the key agrees. */
  lemma KeysAgreeExactly(layers: seq<Layer>, d: seq<Byte>, d2: seq<Byte>, s: bool, s2: bool)
    requires AllInPacket(layers, d) && AllInPacket(layers, d2) && AllMirror(layers, d, d2)
    ensures FlowKeyOf(layers, d2, s2) == FlowKeyOf(layers, d, s) <==> AllAgree(InKey(layers, d), d, s == s2)
  {
    SelectionMirror(layers, d, d2);
    hide InKey, Compared, AllMirror;
    KeyAgrees(InKey(layers, d), d, d2, s, s2);
  }

  /** An unmixed Ethernet layer takes twelve bytes from the source address on, which are the source
      address, the type and four bytes of payload. So two stations never share a key: whatever the
      sides, the key of the reverse packet is a different one. */
  lemma EthernetBreaksTheKey(layers: seq<Layer>, d: seq<Byte>, d2: seq<Byte>, i: nat, s: bool, s2: bool)
    requires AllInPacket(layers, d) && AllInPacket(layers, d2) && AllMirror(layers, d, d2)
    requires i < |InKey(layers, d)| && InKey(layers, d)[i].type_ == Eth
    requires InPacket(InKey(layers, d)[i], d)
    requires var o := InKey(layers, d)[i].offset; o >= 6 && d[o - 6..o] != d[o..o + 6]
    ensures FlowKeyOf(layers, d2, s2) != FlowKeyOf(layers, d, s)
  {
    NeverAgrees(InKey(layers, d)[i], d, s == s2);
    hide *;
    KeysAgreeExactly(layers, d, d2, s, s2);
    AllAgreeAt(InKey(layers, d), d, s == s2, i);
  }

  lemma NeverAgrees(l: Layer, d: seq<Byte>, sameSide: bool)
    requires InPacket(l, d) && l.type_ == Eth && l.offset >= 6
    requires d[l.offset - 6..l.offset] != d[l.offset..l.offset + 6]
    ensures !AgreesAt(l, d, sameSide)
  {
    assert Src(l, d) == d[l.offset..l.offset + 6];
    hide Src, Dst;
  }

  lemma {:induction false} AllAgreeAt(ls: seq<Layer>, d: seq<Byte>, sameSide: bool, i: nat)
    requires AllInPacket(ls, d) && i < |ls|
    ensures InPacket(ls[i], d)
    ensures AllAgree(ls, d, sameSide) ==> AgreesAt(ls[i], d, sameSide)
    decreases |ls|
  {
    if i < |ls| - 1 {
      AllAgreeAt(Outer(ls), d, sameSide, i);
    }
  }

  lemma FitSnoc(outer: seq<Layer>, l: Layer, pos: nat)
    ensures Fit(outer + [l], pos)
         == if pos + TypeLength(l.type_) > ROOM then [] else Fit(outer, pos + TypeLength(l.type_)) + [l]
  {
    Snoc(outer, l);
  }

  lemma BidirsSnoc(outer: seq<Layer>, l: Layer)
    ensures Bidirs(outer + [l]) == if Bidirectional(l.type_) then Bidirs(outer) + [l] else Bidirs(outer)
  {
    Snoc(outer, l);
  }

  lemma Unsnoc(ls: seq<Layer>)
    requires ls != []
    ensures Outer(ls) + [Inner(ls)] == ls
  {
  }
}
