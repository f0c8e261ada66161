/** The loops of the key functions, one step at a time from the innermost layer outwards. */
module FlowSteps {
  import opened Bytes
  import opened FlowLayers
  import opened FlowKey

  /** What the loop of isSrcLowerAddr still has to decide about the layers not yet seen, with pos
      bytes of the key taken. */
  ghost function LowerFrom(todo: seq<Layer>, pos: nat, data: seq<Byte>): int
    requires AllInPacket(todo, data)
  {
    UnmixedInPacket(todo, data);
    BidirsInPacket(Unmixed(todo), data);
    FitInPacket(Bidirs(Unmixed(todo)), pos, data);
    FirstCompare(Fit(Bidirs(Unmixed(todo)), pos), data)
  }

  /** The same for calcSide ... */
  ghost function SideFrom(todo: seq<Layer>, pos: nat, data: seq<Byte>): int
    requires AllInPacket(todo, data)
  {
    UnmixedInPacket(todo, data);
    FitInPacket(Unmixed(todo), pos, data);
    FirstCompare(Fit(Unmixed(todo), pos), data)
  }

  /** ... and what fillAddresses still has to store. */
  ghost function KeyFrom(todo: seq<Layer>, pos: nat, data: seq<Byte>, side: bool): seq<Byte>
    requires AllInPacket(todo, data)
  {
    UnmixedInPacket(todo, data);
    FitInPacket(Unmixed(todo), pos, data);
    Key(Fit(Unmixed(todo), pos), data, side)
  }

  lemma UnmixedSnoc(outer: seq<Layer>, l: Layer)
    ensures Unmixed(outer + [l]) == if l.mix then Unmixed(outer) else Unmixed(outer) + [l]
  {
    Snoc(outer, l);
  }

  lemma AllSnoc(outer: seq<Layer>, l: Layer, data: seq<Byte>)
    ensures AllInPacket(outer + [l], data) <==> InPacket(l, data) && AllInPacket(outer, data)
    ensures AllInPacket([], data)
  {
    Snoc(outer, l);
  }

  lemma CompareSnoc(outer: seq<Layer>, l: Layer, data: seq<Byte>)
    requires AllInPacket(outer + [l], data) && InPacket(l, data) && AllInPacket(outer, data)
    ensures FirstCompare(outer + [l], data) == if Compare(l, data) != 0 then Compare(l, data)
        else FirstCompare(outer, data)
  {
    hide Compare;
    Snoc(outer, l);
  }

  lemma KeySnoc(outer: seq<Layer>, l: Layer, data: seq<Byte>, side: bool)
    requires AllInPacket(outer + [l], data) && InPacket(l, data) && AllInPacket(outer, data)
    ensures Key(outer + [l], data, side) == KeyBytes(l, data, side) + Key(outer, data, side)
  {
    hide KeyBytes;
    Snoc(outer, l);
  }

  lemma NothingToCompare(data: seq<Byte>, side: bool)
    ensures AllInPacket([], data) && FirstCompare([], data) == 0 && Key([], data, side) == []
  {
  }

  lemma LowerStep(outer: seq<Layer>, l: Layer, pos: nat, data: seq<Byte>)
    requires InPacket(l, data) && AllInPacket(outer, data) && AllInPacket(outer + [l], data)
    ensures LowerFrom(outer + [l], pos, data)
         == (if l.mix || !Bidirectional(l.type_) then LowerFrom(outer, pos, data)
             else if pos + TypeLength(l.type_) > ROOM then 0
             else if Compare(l, data) != 0 then Compare(l, data)
             else LowerFrom(outer, pos + TypeLength(l.type_), data))
  {
    var unmixed, pos' := Unmixed(outer), pos + TypeLength(l.type_);
    hide Fit, Bidirs, Unmixed, FirstCompare, Compare, TypeLength, Bidirectional, InPacket, AllInPacket, Inner, Outer;
    UnmixedSnoc(outer, l);
    BidirsSnoc(unmixed, l);
    FitSnoc(Bidirs(unmixed), l, pos);
    NothingToCompare(data, false);
    if !l.mix && Bidirectional(l.type_) && pos' <= ROOM {
      UnmixedInPacket(outer, data);
      BidirsInPacket(unmixed, data);
      FitInPacket(Bidirs(unmixed), pos', data);
      AllSnoc(Fit(Bidirs(unmixed), pos'), l, data);
      CompareSnoc(Fit(Bidirs(unmixed), pos'), l, data);
    }
  }

  lemma SideStep(outer: seq<Layer>, l: Layer, pos: nat, data: seq<Byte>)
    requires InPacket(l, data) && AllInPacket(outer, data) && AllInPacket(outer + [l], data)
    ensures SideFrom(outer + [l], pos, data)
         == (if l.mix then SideFrom(outer, pos, data)
             else if pos + TypeLength(l.type_) > ROOM then 0
             else if Compare(l, data) != 0 then Compare(l, data)
             else SideFrom(outer, pos + TypeLength(l.type_), data))
  {
    var unmixed, pos' := Unmixed(outer), pos + TypeLength(l.type_);
    hide Fit, Unmixed, FirstCompare, Compare, TypeLength, InPacket, AllInPacket, Inner, Outer;
    UnmixedSnoc(outer, l);
    FitSnoc(unmixed, l, pos);
    NothingToCompare(data, false);
    if !l.mix && pos' <= ROOM {
      UnmixedInPacket(outer, data);
      FitInPacket(unmixed, pos', data);
      AllSnoc(Fit(unmixed, pos'), l, data);
      CompareSnoc(Fit(unmixed, pos'), l, data);
    }
  }

  lemma KeyStep(outer: seq<Layer>, l: Layer, pos: nat, data: seq<Byte>, side: bool)
    requires InPacket(l, data) && AllInPacket(outer, data) && AllInPacket(outer + [l], data)
    ensures KeyFrom(outer + [l], pos, data, side)
         == (if l.mix then KeyFrom(outer, pos, data, side)
             else if pos + TypeLength(l.type_) > ROOM then []
             else KeyBytes(l, data, side) + KeyFrom(outer, pos + TypeLength(l.type_), data, side))
  {
    var unmixed, pos' := Unmixed(outer), pos + TypeLength(l.type_);
    hide Fit, Unmixed, Key, KeyBytes, TypeLength, InPacket, AllInPacket, Inner, Outer;
    UnmixedSnoc(outer, l);
    FitSnoc(unmixed, l, pos);
    NothingToCompare(data, side);
    if !l.mix && pos' <= ROOM {
      UnmixedInPacket(outer, data);
      FitInPacket(unmixed, pos', data);
      AllSnoc(Fit(unmixed, pos'), l, data);
      KeySnoc(Fit(unmixed, pos'), l, data, side);
    }
  }

  lemma NothingLeft(pos: nat, data: seq<Byte>, side: bool)
    ensures AllInPacket([], data)
    ensures LowerFrom([], pos, data) == 0 && SideFrom([], pos, data) == 0 && KeyFrom([], pos, data, side) == []
  {
  }

  lemma AtTheStart(ls: seq<Layer>, data: seq<Byte>, side: bool)
    requires AllInPacket(ls, data)
    ensures SrcLower(ls, data) == (LowerFrom(ls, 0, data) < 0)
    ensures SideOf(ls, data) == (SideFrom(ls, 0, data) > 0)
    ensures FlowKeyOf(ls, data, side) == KeyFrom(ls, 0, data, side)
  {
  }

  /** The next layer of a loop that runs down from the end of ls. */
  lemma NextLayer(ls: seq<Layer>, i: nat, data: seq<Byte>)
    requires i < |ls| && AllInPacket(ls[..i + 1], data)
    ensures ls[..i + 1] == ls[..i] + [ls[i]] && InPacket(ls[i], data) && AllInPacket(ls[..i], data)
  {
    assert ls[..i + 1] == ls[..i] + [ls[i]];
    hide InPacket;
    AllSnoc(ls[..i], ls[i], data);
  }
}
