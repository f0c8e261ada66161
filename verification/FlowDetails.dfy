/** The object that the parsers fill and the flow table asks for its key. */
module FlowDetails {
  import opened Bytes
  import opened FlowLayers
  import opened FlowKey
  import opened FlowSteps
  import opened FlowPushes

  // ---------- the loops ----------

  /** The loop of isSrcLowerAddr. */
  method ScanSrcLower(ls: seq<Layer>, data: seq<Byte>) returns (lower: bool)
    requires AllInPacket(ls, data)
    ensures lower == SrcLower(ls, data)
  {
    hide AllInPacket, InPacket, LowerFrom, SideFrom, KeyFrom, SrcLower, SideOf, FlowKeyOf;
    hide KeyStored, Compare, KeyBytes, TypeLength, Bidirectional;
    AtTheStart(ls, data, false);
    var pos, i := 0, |ls|;
    ghost var todo := ls;
    assert ls[..i] == ls;
    while i > 0
      invariant 0 <= i <= |ls| && 0 <= pos <= ROOM && todo == ls[..i] && AllInPacket(todo, data)
      invariant LowerFrom(todo, pos, data) == LowerFrom(ls, 0, data)
    {
      i := i - 1;
      var l := ls[i];
      NextLayer(ls, i, data);
      todo := ls[..i];
      LowerStep(todo, l, pos, data);
      var len := TypeLength(l.type_);
      if Bidirectional(l.type_) && !l.mix {
        if pos + len > KEY_SIZE - 1 {
          return false;
        }
        var c := Compare(l, data);
        if c < 0 {
          return true;
        }
        if c > 0 {
          return false;
        }
        pos := pos + len;
      }
    }
    NothingLeft(pos, data, false);
    return false;
  }

  /** The loop of calcSide. */
  method ScanSide(ls: seq<Layer>, data: seq<Byte>) returns (side: bool)
    requires AllInPacket(ls, data)
    ensures side == SideOf(ls, data)
  {
    hide AllInPacket, InPacket, LowerFrom, SideFrom, KeyFrom, SrcLower, SideOf, FlowKeyOf;
    hide KeyStored, Compare, KeyBytes, TypeLength, Bidirectional;
    AtTheStart(ls, data, false);
    var pos, i := 0, |ls|;
    ghost var todo := ls;
    assert ls[..i] == ls;
    while i > 0
      invariant 0 <= i <= |ls| && 0 <= pos <= ROOM && todo == ls[..i] && AllInPacket(todo, data)
      invariant SideFrom(todo, pos, data) == SideFrom(ls, 0, data)
    {
      i := i - 1;
      var l := ls[i];
      NextLayer(ls, i, data);
      todo := ls[..i];
      SideStep(todo, l, pos, data);
      var len := TypeLength(l.type_);
      if !l.mix {
        if pos + len > KEY_SIZE - 1 {
          return false;
        }
        var c := Compare(l, data);
        if c < 0 {
          return false;
        }
        if c > 0 {
          return true;
        }
        pos := pos + len;
      }
    }
    NothingLeft(pos, data, false);
    return false;
  }

  /** The array after `done` has been stored over its beginning. */
  ghost function Over(done: seq<Byte>, was: seq<Byte>): seq<Byte>
    requires |done| <= |was|
  {
    done + was[|done|..]
  }

  /** One turn of the loop of fillAddresses: `done` has been stored over `was`, now one more layer is. */
  method StoreNext(l: Layer, data: seq<Byte>, addresses: array<Byte>, pos: nat, side: bool, ghost done: seq<Byte>,
      ghost was: seq<Byte>)
    requires InPacket(l, data) && pos == |done| && pos + TypeLength(l.type_) <= |was|
    requires addresses[..] == Over(done, was)
    modifies addresses
    ensures addresses[..] == Over(done + KeyBytes(l, data, side), was)
  {
    hide InPacket, KeyBytes, TypeLength;
    ghost var before := addresses[..];
    StoreLayer(l, data, addresses, pos, side);
    StoreAppends(before, done, was, KeyBytes(l, data, side));
  }

  lemma NothingStored(was: seq<Byte>)
    ensures Over([], was) == was
  {
  }

  lemma StoreAppends(before: seq<Byte>, done: seq<Byte>, was: seq<Byte>, bytes: seq<Byte>)
    requires |done| + |bytes| <= |was| && before == Over(done, was)
    ensures before[..|done|] + bytes + before[|done| + |bytes|..] == Over(done + bytes, was)
  {
    assert before[..|done|] == done;
    assert before[|done| + |bytes|..] == was[|done| + |bytes|..];
  }

  /** The length goes to the last byte. */
  method StoreLength(addresses: array<Byte>, pos: nat, ghost key: seq<Byte>, ghost was: seq<Byte>)
    requires pos == |key| <= ROOM && addresses.Length >= KEY_SIZE && |was| == addresses.Length
    requires addresses[..] == Over(key, was)
    modifies addresses
    ensures addresses[..] == key + was[pos..][ROOM - pos := pos]
  {
    addresses[KEY_SIZE - 1] := pos;
  }

  lemma Regroup(done: seq<Byte>, bytes: seq<Byte>, rest: seq<Byte>)
    ensures done + (bytes + rest) == (done + bytes) + rest
    ensures done + [] == done && [] + done == done
  {
  }

  /** The loop of fillAddresses: stores go to bytes 0..30 and to byte 31 only. */
  method FillKey(ls: seq<Layer>, data: seq<Byte>, addresses: array<Byte>, side: bool) returns (pos: nat)
    requires AllInPacket(ls, data) && addresses.Length >= KEY_SIZE
    modifies addresses
    ensures pos == |FlowKeyOf(ls, data, side)| <= ROOM
    ensures addresses[..] == FlowKeyOf(ls, data, side) + old(addresses[..])[pos..][ROOM - pos := pos]
  {
    hide AllInPacket, InPacket, LowerFrom, SideFrom, KeyFrom, SrcLower, SideOf, FlowKeyOf;
    hide KeyStored, Compare, KeyBytes, TypeLength, Bidirectional, Over;
    AtTheStart(ls, data, side);
    ghost var key := KeyFrom(ls, 0, data, side);
    pos := 0;
    var i := |ls|;
    ghost var was, todo, done := addresses[..], ls, [];
    Regroup(key, [], []);
    assert ls[..i] == ls;
    NothingStored(was);
    while i > 0
      invariant 0 <= i <= |ls| && pos == |done| <= ROOM && todo == ls[..i] && AllInPacket(todo, data)
      invariant done + KeyFrom(todo, pos, data, side) == key
      invariant addresses[..] == Over(done, was)
    {
      i := i - 1;
      var l := ls[i];
      NextLayer(ls, i, data);
      todo := ls[..i];
      KeyStep(todo, l, pos, data, side);
      var len := TypeLength(l.type_);
      if !l.mix {
        if pos + len > KEY_SIZE - 1 {
          Regroup(done, [], []);
          break;
        }
        Regroup(done, KeyBytes(l, data, side), KeyFrom(todo, pos + len, data, side));
        StoreNext(l, data, addresses, pos, side, done, was);
        done := done + KeyBytes(l, data, side);
        pos := pos + len;
      }
    }
    NothingLeft(pos, data, side);
    Regroup(done, [], []);
    assert done == key;
    StoreLength(addresses, pos, key, was);
  }

  /** One turn of the loop of cmpAddresses: `rest` is what the stored key must hold behind the layer. */
  method MatchNext(l: Layer, data: seq<Byte>, stored: seq<Byte>, pos: nat, side: bool, ghost rest: seq<Byte>,
      ghost key: seq<Byte>)
    returns (eq: bool)
    requires InPacket(l, data) && pos + TypeLength(l.type_) <= |stored|
    requires stored[..pos] + (KeyBytes(l, data, side) + rest) == key
    ensures eq ==> stored[..pos + TypeLength(l.type_)] + rest == key
    ensures !eq ==> !(key <= stored)
  {
    hide InPacket, KeyBytes, TypeLength;
    MatchSplit(stored, pos, KeyBytes(l, data, side), rest, key);
    eq := MatchLayer(l, data, stored[pos..pos + TypeLength(l.type_)], side);
  }

  /** The loop of cmpAddresses: what filling a key and comparing it with the stored one would say. */
  method MatchKey(ls: seq<Layer>, data: seq<Byte>, stored: seq<Byte>, side: bool) returns (same: bool)
    requires AllInPacket(ls, data) && |stored| == KEY_SIZE
    ensures same <==> KeyStored(ls, data, stored, side)
  {
    hide AllInPacket, InPacket, LowerFrom, SideFrom, KeyFrom, SrcLower, SideOf, FlowKeyOf;
    hide KeyStored, Compare, KeyBytes, TypeLength, Bidirectional;
    AtTheStart(ls, data, side);
    StoredMeans(ls, data, stored, side);
    ghost var key := KeyFrom(ls, 0, data, side);
    var pos, i := 0, |ls|;
    ghost var todo := ls;
    Regroup(key, [], []);
    assert ls[..i] == ls && stored[..0] == [];
    while i > 0
      invariant 0 <= i <= |ls| && 0 <= pos <= ROOM && todo == ls[..i] && AllInPacket(todo, data)
      invariant stored[..pos] + KeyFrom(todo, pos, data, side) == key
    {
      i := i - 1;
      var l := ls[i];
      NextLayer(ls, i, data);
      todo := ls[..i];
      KeyStep(todo, l, pos, data, side);
      var len := TypeLength(l.type_);
      if !l.mix {
        if pos + len > KEY_SIZE - 1 {
          AllStored(stored, pos, key);
          return stored[KEY_SIZE - 1] == pos;
        }
        var eq := MatchNext(l, data, stored, pos, side, KeyFrom(todo, pos + len, data, side), key);
        if !eq {
          return false;
        }
        pos := pos + len;
      }
    }
    NothingLeft(pos, data, side);
    AllStored(stored, pos, key);
    return stored[KEY_SIZE - 1] == pos;
  }

  lemma AllStored(stored: seq<Byte>, pos: nat, key: seq<Byte>)
    requires pos <= |stored| && stored[..pos] + [] == key
    ensures key <= stored && |key| == pos
  {
  }

  /** The stored key agrees with the packet's addresses on as many bytes as those are, and in length. */
  ghost predicate KeyStored(ls: seq<Layer>, data: seq<Byte>, stored: seq<Byte>, side: bool)
    requires AllInPacket(ls, data) && |stored| == KEY_SIZE
  {
    var key := FlowKeyOf(ls, data, side);
    key <= stored && stored[KEY_SIZE - 1] == |key|
  }

  lemma StoredMeans(ls: seq<Layer>, data: seq<Byte>, stored: seq<Byte>, side: bool)
    requires AllInPacket(ls, data) && |stored| == KEY_SIZE
    ensures KeyStored(ls, data, stored, side)
       <==> FlowKeyOf(ls, data, side) <= stored && stored[KEY_SIZE - 1] == |FlowKeyOf(ls, data, side)|
  {
  }

  lemma MatchSplit(a: seq<Byte>, pos: nat, bytes: seq<Byte>, rest: seq<Byte>, key: seq<Byte>)
    requires pos + |bytes| <= |a| && a[..pos] + (bytes + rest) == key
    ensures a[pos..pos + |bytes|] == bytes ==> a[..pos + |bytes|] + rest == key
    ensures a[pos..pos + |bytes|] != bytes ==> !(key <= a)
  {
    var end := pos + |bytes|;
    assert a[..pos] + a[pos..end] == a[..end];
    assert a[..pos] + (bytes + rest) == a[..pos] + bytes + rest;
    if key <= a {
      assert key[pos..end] == bytes && a[pos..end] == key[pos..end];
    }
  }

  method CopyBytes(src: seq<Byte>, dst: array<Byte>, at: nat)
    requires at + |src| <= dst.Length
    modifies dst
    ensures dst[..] == old(dst[..])[..at] + src + old(dst[..])[at + |src|..]
  {
    forall k | 0 <= k < |src| {
      dst[at + k] := src[k];
    }
  }

  /** A layer goes into the key as it stands, or half by half. */
  lemma KeyHalves(l: Layer, data: seq<Byte>, side: bool)
    requires InPacket(l, data)
    ensures TypeMask(l.type_) == 0 && (side || TypeLength(l.type_) == 1) ==>
              l.offset + TypeLength(l.type_) <= |data|
              && KeyBytes(l, data, side) == data[l.offset..l.offset + TypeLength(l.type_)]
    ensures !(TypeMask(l.type_) == 0 && (side || TypeLength(l.type_) == 1)) ==>
              && |Src(l, data)| == |Dst(l, data)| == TypeLength(l.type_) / 2
              && |Src(l, data)| + |Dst(l, data)| == TypeLength(l.type_)
              && KeyBytes(l, data, side) == if side then Src(l, data) + Dst(l, data) else Dst(l, data) + Src(l, data)
  {
    assert TypeLength(l.type_) != 1 ==> TypeLength(l.type_) % 2 == 0;
    assert TypeMask(l.type_) != 0 ==> TypeLength(l.type_) != 1;
  }

  lemma TwoCopies(a: seq<Byte>, pos: nat, x: seq<Byte>, y: seq<Byte>)
    requires pos + |x| + |y| <= |a|
    ensures var a1, mid := a[..pos] + x + a[pos + |x|..], pos + |x|;
            a1[..mid] + y + a1[mid + |y|..] == a[..pos] + (x + y) + a[mid + |y|..]
  {
  }

  method CopyBoth(x: seq<Byte>, y: seq<Byte>, dst: array<Byte>, at: nat)
    requires at + |x| + |y| <= dst.Length
    modifies dst
    ensures dst[..] == old(dst[..])[..at] + (x + y) + old(dst[..])[at + |x| + |y|..]
  {
    ghost var was := dst[..];
    CopyBytes(x, dst, at);
    CopyBytes(y, dst, at + |x|);
    TwoCopies(was, at, x, y);
  }

  /** The memcpy calls for one layer. */
  method StoreLayer(l: Layer, data: seq<Byte>, addresses: array<Byte>, pos: nat, side: bool)
    requires InPacket(l, data) && pos + TypeLength(l.type_) <= addresses.Length
    modifies addresses
    ensures addresses[..] == old(addresses[..])[..pos] + KeyBytes(l, data, side)
                             + old(addresses[..])[pos + TypeLength(l.type_)..]
  {
    hide *;
    KeyHalves(l, data, side);
    var len, src, dst := TypeLength(l.type_), Src(l, data), Dst(l, data);
    if TypeMask(l.type_) == 0 && (side || len == 1) {
      CopyBytes(data[l.offset..l.offset + len], addresses, pos);
    } else if side {
      CopyBoth(src, dst, addresses, pos);
    } else {
      CopyBoth(dst, src, addresses, pos);
    }
  }

  /** The two memcmp calls for one layer. */
  method MatchLayer(l: Layer, data: seq<Byte>, stored: seq<Byte>, side: bool) returns (eq: bool)
    requires InPacket(l, data) && |stored| == TypeLength(l.type_)
    ensures eq <==> stored == KeyBytes(l, data, side)
  {
    KeyHalves(l, data, side);
    var len := TypeLength(l.type_);
    if TypeMask(l.type_) == 0 && (side || len == 1) {
      return stored == data[l.offset..l.offset + len];
    }
    var first, second := if side then Src(l, data) else Dst(l, data), if side then Dst(l, data) else Src(l, data);
    hide *;
    EqualHalves(stored[..len / 2], stored[len / 2..], first, second);
    assert stored[..len / 2] + stored[len / 2..] == stored;
    if stored[..len / 2] != first {
      return false;
    }
    return stored[len / 2..] == second;
  }

  /** getLayersCnt: the last IP layer loses its mix bit. */
  function LastIpUnmixed(d: Details): Details
    requires d.lastIp == 0xFF || d.lastIp < |d.layers|
  {
    if d.lastIp == 0xFF then d else d.(layers := d.layers[d.lastIp := UnsetMix(d.layers[d.lastIp])])
  }

  lemma UnmixedIsEffective(d: Details)
    requires Counted(d) <= |d.layers| && (d.lastIp == 0xFF || d.lastIp < |d.layers|)
    ensures EffectiveLayers(LastIpUnmixed(d)) == EffectiveLayers(d)
    ensures forall i | 0 <= i < Counted(d) :: Unpack(LastIpUnmixed(d).layers[i]) == EffectiveLayers(d)[i]
  {
    hide Unpack, UnsetMix;
    if d.lastIp != 0xFF {
      UnsetMixOnly(d.layers[d.lastIp]);
    }
  }

  class PacketDetails {
    const cfg: Config
    var flowHash: nat
    var lastIpLayer: nat
    var lastMtpLayer: nat
    var lastM3uaLayer: nat
    var layersCnt: nat
    var layers2Cnt: nat
    var layers3Cnt: nat
    var layers4Cnt: nat
    var more2Layers: bool
    var more3Layers: bool
    var more4Layers: bool
    const layers: array<Word>

    /** The layers array is the tail of the allocation; layersCnt is an unsigned byte. */
    ghost predicate Valid()
      reads this, layers
    {
      && cfg.l3Max >= 1 && cfg.l4Max >= 1
      && layersCnt <= layers.Length <= 0xFF
      && CountersOk(cfg, Model())
    }

    ghost function Model(): Details
      requires layersCnt <= layers.Length
      reads this, layers
    {
      Details(flowHash, lastIpLayer, lastMtpLayer, lastM3uaLayer, layers2Cnt, layers3Cnt, layers4Cnt,
              more2Layers, more3Layers, more4Layers, layers[..layersCnt])
    }

    ghost function Stack(): seq<Layer>
      requires Valid()
      reads this, layers
    {
      EffectiveLayers(Model())
    }

    /** init() */
    constructor (cfg: Config, layers: array<Word>)
      requires cfg.l3Max >= 1 && cfg.l4Max >= 1 && layers.Length <= 0xFF
      ensures this.cfg == cfg && this.layers == layers
      ensures Valid() && Model() == EMPTY
    {
      this.cfg, this.layers := cfg, layers;
      lastIpLayer, lastMtpLayer, lastM3uaLayer := 0xFF, 0xFF, 0xFF;
      flowHash, layersCnt, layers2Cnt, layers3Cnt, layers4Cnt := 0, 0, 0, 0, 0;
      more2Layers, more3Layers, more4Layers := false, false, false;
    }

    // ---------- push ----------

    method Append(l: Layer)
      requires layersCnt < layers.Length
      modifies layers, this`layersCnt
      ensures layersCnt == old(layersCnt) + 1
      ensures Model() == FlowPushes.Append(old(Model()), l)
    {
      layers[layersCnt] := Pack(l);
      layersCnt := layersCnt + 1;
      assert layers[..layersCnt] == old(layers[..layersCnt]) + [Pack(l)];
    }

    method ReplaceLast(l: Layer)
      requires 1 <= layersCnt <= layers.Length
      modifies layers
      ensures Model() == FlowPushes.ReplaceLast(old(Model()), l)
    {
      layers[layersCnt - 1] := Pack(l);
      assert layers[..layersCnt] == old(layers[..layersCnt])[layersCnt - 1 := Pack(l)];
    }

    // `hash` is what the header adds to the flow hash; PushHeader below takes it from the packet.

    /** pushEth, pushVlan and pushMpls */
    method PushL2(l: Layer, hash: nat)
      requires Valid() && (layers2Cnt != cfg.l2Max ==> layersCnt < layers.Length)
      modifies this, layers
      ensures Valid() && Model() == ApplyL2(cfg, old(Model()), l, hash)
    {
      hide Pack, HashSum;
      if layers2Cnt != cfg.l2Max {
        if !l.mix {
          flowHash := HashSum(flowHash, hash);
        }
        Append(l);
        layers2Cnt := layers2Cnt + 1;
      } else {
        more2Layers := true;
      }
    }

    /** pushMtp and pushMtp3 */
    method PushMtp(l: Layer, hash: nat)
      requires Valid() && (layers3Cnt != cfg.l3Max ==> layersCnt < layers.Length)
      modifies this, layers
      ensures Valid() && Model() == ApplyMtp(cfg, old(Model()), l, hash)
    {
      hide Pack, HashSum;
      MtpKeepsCounters(cfg, Model(), l, hash);
      assert layers3Cnt == cfg.l3Max ==> layersCnt > 0;
      hide CountersOk;
      flowHash := HashSum(flowHash, hash);
      lastMtpLayer := layersCnt;
      if layers3Cnt != cfg.l3Max {
        Append(l);
        layers3Cnt := layers3Cnt + 1;
      } else {
        ReplaceLast(l);
        more3Layers := true;
      }
    }

    method PushIp4(l: Layer, hash: nat)
      requires Valid() && (layers3Cnt != cfg.l3Max ==> layersCnt < layers.Length)
      modifies this, layers
      ensures Valid() && Model() == ApplyIp4(cfg, old(Model()), l, hash)
    {
      hide Pack, HashSum;
      Ip4KeepsCounters(cfg, Model(), l, hash);
      assert layers3Cnt == cfg.l3Max ==> layersCnt > 0;
      assert HashSum(flowHash, 0) == flowHash;
      hide CountersOk;
      if layers3Cnt != cfg.l3Max {
        if !l.mix {
          flowHash := HashSum(flowHash, hash);
        }
        lastIpLayer := layersCnt;
        Append(l);
        layers3Cnt := layers3Cnt + 1;
      } else {
        flowHash := HashSum(flowHash, hash);
        ReplaceLast(l.(mix := false));
        more3Layers := true;
      }
    }

    /** pushIsup, pushTcp, pushUdp and pushSctp */
    method PushL4(l: Layer, hash: nat)
      requires Valid() && (layers4Cnt != cfg.l4Max ==> layersCnt < layers.Length)
      modifies this, layers
      ensures Valid() && Model() == ApplyL4(cfg, old(Model()), l, hash)
    {
      hide Pack, HashSum;
      L4KeepsCounters(cfg, Model(), l, hash);
      assert layers4Cnt == cfg.l4Max ==> layersCnt > 0;
      hide CountersOk;
      flowHash := HashSum(flowHash, hash);
      if layers4Cnt != cfg.l4Max {
        Append(l);
        layers4Cnt := layers4Cnt + 1;
      } else {
        ReplaceLast(l);
        more4Layers := true;
      }
    }

    /** pushSctpChunk and pushM2ua: stored, but counted in layersCnt only */
    method PushPlain(l: Layer)
      requires Valid() && (layers4Cnt != cfg.l4Max ==> layersCnt < layers.Length)
      modifies this, layers
      ensures Valid() && Model() == ApplyPlain(cfg, old(Model()), l)
    {
      if layers4Cnt != cfg.l4Max {
        Append(l);
      }
    }

    /** pushM3ua; without an address in the header the hash is 0. */
    method PushM3ua(l: Layer, hash: nat)
      requires Valid() && (layers4Cnt != cfg.l4Max ==> layersCnt < layers.Length)
      modifies this, layers
      ensures Valid() && Model() == ApplyM3ua(cfg, old(Model()), l, hash)
    {
      hide Pack, HashSum;
      lastM3uaLayer := layersCnt;
      flowHash := HashSum(flowHash, hash);
      if layers4Cnt != cfg.l4Max {
        Append(l);
        layers4Cnt := layers4Cnt + 1;
      }
    }

    /** The push call that a parser makes for a header that it has found. */
    method PushHeader(p: Push, data: seq<Byte>)
      requires HeaderInPacket(p, data)
      requires Valid() && (AddsLayer(cfg, Model(), p) ==> layersCnt < layers.Length)
      modifies this, layers
      ensures Valid() && Model() == Apply(cfg, old(Model()), p, data)
    {
      var l, hash := LayerOf(p), HashOf(p, data);
      hide Pack, HashOf, LayerOf, HeaderInPacket, CountersOk, ApplyL2, ApplyMtp, ApplyIp4, ApplyL4, ApplyPlain,
          ApplyM3ua;
      match p
      case PushL2(_, _, _) => PushL2(l, hash);
      case PushMtp(_, _) => PushMtp(l, hash);
      case PushIp4(_, _) => PushIp4(l, hash);
      case PushL4(_, _) => PushL4(l, hash);
      case PushPlain(_, _) => PushPlain(l);
      case PushM3ua(_, _) => PushM3ua(l, hash);
    }

    // ---------- the key functions ----------

    /** Takes the mix bit off the last IP layer as a side effect; the effective stack stays. */
    method GetLayersCnt() returns (n: nat)
      requires Valid()
      modifies layers
      ensures Valid() && Stack() == old(Stack()) && n == |Stack()|
      ensures Plain(Stack())
      ensures Model() == old(Model()).(layers := Model().layers)
    {
      ghost var before := Model();
      UnmixedIsEffective(before);
      hide Unpack, UnsetMix, Effective;
      if lastIpLayer != 0xFF {
        layers[lastIpLayer] := UnsetMix(layers[lastIpLayer]);
      }
      assert Model() == LastIpUnmixed(before);
      n := layers2Cnt + layers3Cnt + layers4Cnt;
    }

    /** getLayerAddr reads the stored word as it is: after getLayersCnt that is the effective layer. */
    ghost predicate Plain(ls: seq<Layer>)
      reads this, layers
    {
      && |ls| <= layers.Length
      && forall i | 0 <= i < |ls| :: Unpack(layers[i]) == ls[i]
    }

    /** getLayersCnt and then every getLayerAddr: the layers as the loops see them. */
    method LoadLayers() returns (ls: seq<Layer>)
      requires Valid()
      modifies layers
      ensures Valid() && Stack() == old(Stack()) && ls == Stack()
    {
      var n := GetLayersCnt();
      ls := seq(n, i requires 0 <= i < n reads this, layers => Unpack(layers[i]));
    }

    method IsSrcLowerAddr(data: seq<Byte>) returns (lower: bool)
      requires Valid() && AllInPacket(Stack(), data)
      modifies layers
      ensures Valid() && Stack() == old(Stack())
      ensures lower == SrcLower(Stack(), data)
    {
      var ls := LoadLayers();
      lower := ScanSrcLower(ls, data);
    }

    method CalcSide(data: seq<Byte>) returns (side: bool)
      requires Valid() && AllInPacket(Stack(), data)
      modifies layers
      ensures Valid() && Stack() == old(Stack())
      ensures side == SideOf(Stack(), data)
    {
      var ls := LoadLayers();
      side := ScanSide(ls, data);
    }

    method FillAddresses(data: seq<Byte>, addresses: array<Byte>, side: bool) returns (pos: nat)
      requires Valid() && AllInPacket(Stack(), data)
      requires addresses.Length >= KEY_SIZE && addresses as object != layers
      modifies layers, addresses
      ensures Valid() && Stack() == old(Stack())
      ensures pos == |FlowKeyOf(Stack(), data, side)| <= ROOM
      ensures addresses[..] == FlowKeyOf(Stack(), data, side) + old(addresses[..])[pos..][ROOM - pos := pos]
      ensures KeyStored(Stack(), data, addresses[..KEY_SIZE], side)
    {
      var ls := LoadLayers();
      hide FlowKeyOf, AllInPacket;
      pos := FillKey(ls, data, addresses, side);
      assert FlowKeyOf(ls, data, side) <= addresses[..KEY_SIZE];
    }

    method CmpAddresses(data: seq<Byte>, addresses: array<Byte>, side: bool) returns (same: bool)
      requires Valid() && AllInPacket(Stack(), data)
      requires addresses.Length >= KEY_SIZE && addresses as object != layers
      modifies layers
      ensures Valid() && Stack() == old(Stack())
      ensures same <==> KeyStored(Stack(), data, addresses[..KEY_SIZE], side)
    {
      var ls := LoadLayers();
      same := MatchKey(ls, data, addresses[..KEY_SIZE], side);
    }
  }
}
