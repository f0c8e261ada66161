/** What the pushed headers add up to: the flow hash and the counters as functions of the headers' fields. */
module FlowHash {
  import opened Bytes
  import opened FlowLayers
  import opened FlowKey
  import opened FlowBytes
  import opened FlowPushes

  // ---------- one header ----------

  /** The fields that the flow hash takes from a header. A hardware address is its first four bytes and
      its last two, each as a number; the tag of an MPLS header has twenty bits. */
  datatype Header =
    | Stations(dest4: nat, dest2: nat, source4: nat, source2: nat)
    | TagControl(tci: nat)
    | Shim(tag: nat, flags: nat)
    | PointCodes(dpc: nat, opc: nat, sls: nat)
    | Addresses(source: nat, dest: nat)
    | Ports(source: nat, dest: nat)
    | Circuit(cic: nat, spare: nat)
    | Nothing

  predicate Fields(h: Header) {
    match h
    case Stations(a, b, c, e) => a < U32 && b < U16 && c < U32 && e < U16
    case TagControl(tci) => tci < U16
    case Shim(tag, flags) => tag < 0x10_0000 && flags < 0x10
    case PointCodes(dpc, opc, sls) => dpc < 0x4000 && opc < 0x4000 && sls < 0x10
    case Addresses(a, b) => a < U32 && b < U32
    case Ports(a, b) => a < U16 && b < U16
    case Circuit(cic, spare) => cic < 0x1000 && spare < 0x10
    case Nothing => true
  }

  /** The header that the call is made for has these fields in the packet, in memory order. */
  predicate Carries(p: Push, data: seq<Byte>, h: Header)
    requires HeaderInPacket(p, data)
  {
    var o := p.offset;
    Fields(h) &&
    match h
    case Stations(a, b, c, e) =>
      TypeOf(p) == Eth && data[o - 6..o] == Store32(a) + Store16(b) && data[o..o + 6] == Store32(c) + Store16(e)
    case TagControl(tci) => TypeOf(p) == Vlan && data[o..o + 2] == Store16(tci)
    case Shim(tag, flags) =>
      TypeOf(p) == Mpls && data[o..o + 2] == Store16(tag % U16) && data[o + 2] == tag / U16 * 0x10 + flags
    case PointCodes(dpc, opc, sls) => p.PushMtp? && data[o..o + 4] == Store32(RoutingLabel(dpc, opc, sls))
    case Addresses(a, b) =>
      (p.PushIp4? || (p.PushM3ua? && p.hasOpc)) && data[o..o + 4] == Store32(a) && data[o + 4..o + 8] == Store32(b)
    case Ports(a, b) =>
      p.PushL4? && p.type_ != Isup && data[o..o + 2] == Store16(a) && data[o + 2..o + 4] == Store16(b)
    case Circuit(cic, spare) => TypeOf(p) == Isup && data[o..o + 2] == Store16(cic + 0x1000 * spare)
    case Nothing => p.PushPlain? || (p.PushM3ua? && !p.hasOpc)
  }

  /** Fourteen bits of destination, fourteen of origin, four of link selection. */
  function RoutingLabel(dpc: nat, opc: nat, sls: nat): (v: nat)
    requires dpc < 0x4000 && opc < 0x4000 && sls < 0x10
    ensures v < U32
  {
    dpc + 0x4000 * opc + 0x1000_0000 * sls
  }

  /** What the call adds to the hash when it adds anything: both ends of the header, so that it is the
      same in both directions; a VLAN or MPLS tag twice. */
  function Sum(h: Header): nat {
    match h
    case Stations(a, b, c, e) => (a + b) % U32 + (c + e) % U32
    case TagControl(tci) => tci + tci
    case Shim(tag, _) => tag + tag
    case PointCodes(dpc, opc, _) => opc + dpc
    case Addresses(a, b) => a + b
    case Ports(a, b) => a + b
    case Circuit(cic, _) => cic
    case Nothing => 0
  }

  lemma At32Is(data: seq<Byte>, o: nat, v: nat)
    requires o + 4 <= |data| && v < U32 && data[o..o + 4] == Store32(v)
    ensures At32(data, o) == v
  {
    RoundTrip32(v);
    hide Store32, Load32;
  }

  lemma At16Is(data: seq<Byte>, o: nat, v: nat)
    requires o + 2 <= |data| && v < U16 && data[o..o + 2] == Store16(v)
    ensures At16(data, o) == v
  {
    Load16Of(v);
    assert data[o] == data[o..o + 2][0] && data[o + 1] == data[o..o + 2][1];
    hide Load16;
  }

  lemma MacIs(data: seq<Byte>, o: nat, a: nat, b: nat)
    requires o + 6 <= |data| && a < U32 && b < U16 && data[o..o + 6] == Store32(a) + Store16(b)
    ensures MacHash(data, o) == (a + b) % U32
  {
    hide Store32, Store16, At32, At16;
    var mac := Store32(a) + Store16(b);
    assert data[o..o + 4] == data[o..o + 6][..4] == mac[..4] == Store32(a);
    assert data[o + 4..o + 6] == data[o..o + 6][4..] == mac[4..] == Store16(b);
    At32Is(data, o, a);
    At16Is(data, o + 4, b);
  }

  lemma TagIs(data: seq<Byte>, o: nat, tag: nat, flags: nat)
    requires o + 4 <= |data| && tag < 0x10_0000 && flags < 0x10
    requires data[o..o + 2] == Store16(tag % U16) && data[o + 2] == tag / U16 * 0x10 + flags
    ensures MplsLabel(data, o) == tag
  {
    At16Is(data, o, tag % U16);
    hide At16, Store16;
  }

  lemma LabelParts(dpc: nat, opc: nat, sls: nat)
    requires dpc < 0x4000 && opc < 0x4000 && sls < 0x10
    ensures RoutingLabel(dpc, opc, sls) % 0x4000 == dpc && RoutingLabel(dpc, opc, sls) / 0x4000 % 0x4000 == opc
  {
    assert RoutingLabel(dpc, opc, sls) == dpc + 0x4000 * (opc + 0x4000 * sls);
    hide *;
    Parts14(dpc, opc + 0x4000 * sls);
    Parts14(opc, sls);
  }

  lemma CodesInPacket(data: seq<Byte>, o: nat, dpc: nat, opc: nat, sls: nat)
    requires o + 4 <= |data| && dpc < 0x4000 && opc < 0x4000 && sls < 0x10
    requires data[o..o + 4] == Store32(RoutingLabel(dpc, opc, sls))
    ensures PointCode1(data, o) == dpc && PointCode2(data, o) == opc
  {
    hide *;
    RoundTrip32(RoutingLabel(dpc, opc, sls));
    WordSplits(data, o);
    LabelParts(dpc, opc, sls);
  }

  lemma PointCodesAre(l: Layer, data: seq<Byte>, dpc: nat, opc: nat, sls: nat)
    requires InPacket(l, data) && HasLabel(l.type_) && dpc < 0x4000 && opc < 0x4000 && sls < 0x10
    requires data[l.offset..l.offset + 4] == Store32(RoutingLabel(dpc, opc, sls))
    ensures TypeMask(l.type_) != 0 && MtpHash(l, data) == dpc + opc
  {
    assert l.offset + 4 <= |data|;
    hide *;
    CodesInPacket(data, l.offset, dpc, opc, sls);
    LabelFields(l, data);
    MtpHashIs(l, data);
  }

  lemma MtpHashIs(l: Layer, data: seq<Byte>)
    requires InPacket(l, data) && TypeMask(l.type_) != 0
    ensures MtpHash(l, data) == SrcField(l, data) + DstField(l, data)
  {
  }

  lemma Twelve(cic: nat, spare: nat)
    requires cic < 0x1000
    ensures (cic + 0x1000 * spare) % 0x1000 == cic
  {
  }

  lemma EthernetHash(p: Push, data: seq<Byte>)
    requires HeaderInPacket(p, data) && TypeOf(p) == Eth
    ensures 6 <= p.offset && p.offset + 6 <= |data|
    ensures HashOf(p, data) == MacHash(data, p.offset) + MacHash(data, p.offset - 6)
  {
    hide MacHash;
  }

  lemma StationsAre(p: Push, data: seq<Byte>, h: Header)
    requires HeaderInPacket(p, data) && h.Stations? && Carries(p, data, h) && 6 <= p.offset && p.offset + 6 <= |data|
    ensures MacHash(data, p.offset - 6) == (h.dest4 + h.dest2) % U32
    ensures MacHash(data, p.offset) == (h.source4 + h.source2) % U32
  {
    hide Store32, Store16, MacHash, HeaderInPacket;
    MacIs(data, p.offset - 6, h.dest4, h.dest2);
    MacIs(data, p.offset, h.source4, h.source2);
  }

  lemma StationsHash(p: Push, data: seq<Byte>, h: Header)
    requires HeaderInPacket(p, data) && Carries(p, data, h) && h.Stations?
    ensures HashOf(p, data) == Sum(h)
  {
    assert TypeOf(p) == Eth && Sum(h) == (h.dest4 + h.dest2) % U32 + (h.source4 + h.source2) % U32;
    hide *;
    EthernetHash(p, data);
    StationsAre(p, data, h);
  }

  lemma TagControlHash(p: Push, data: seq<Byte>, h: Header)
    requires HeaderInPacket(p, data) && Carries(p, data, h) && h.TagControl?
    ensures HashOf(p, data) == Sum(h)
  {
    hide Store32, Store16, At32, At16, MacHash, MplsLabel, MtpHash, RoutingLabel, InPacket;
    At16Is(data, p.offset, h.tci);
  }

  lemma ShimHash(p: Push, data: seq<Byte>, h: Header)
    requires HeaderInPacket(p, data) && Carries(p, data, h) && h.Shim?
    ensures HashOf(p, data) == Sum(h)
  {
    hide Store32, Store16, At32, At16, MacHash, MplsLabel, MtpHash, RoutingLabel, InPacket;
    TagIs(data, p.offset, h.tag, h.flags);
  }

  lemma PointCodesHash(p: Push, data: seq<Byte>, h: Header)
    requires HeaderInPacket(p, data) && Carries(p, data, h) && h.PointCodes?
    ensures HashOf(p, data) == Sum(h)
  {
    assert HasLabel(LayerOf(p).type_);
    hide Store32, Store16, At32, At16, MacHash, MplsLabel, MtpHash, RoutingLabel, InPacket;
    PointCodesAre(LayerOf(p), data, h.dpc, h.opc, h.sls);
  }

  lemma AddressesHash(p: Push, data: seq<Byte>, h: Header)
    requires HeaderInPacket(p, data) && Carries(p, data, h) && h.Addresses?
    ensures HashOf(p, data) == Sum(h)
  {
    assert p.offset + 8 <= |data|;
    hide Store32, Store16, At32, At16, MacHash, MplsLabel, MtpHash, RoutingLabel, InPacket;
    At32Is(data, p.offset, h.source);
    At32Is(data, p.offset + 4, h.dest);
  }

  lemma PortsHash(p: Push, data: seq<Byte>, h: Header)
    requires HeaderInPacket(p, data) && Carries(p, data, h) && h.Ports?
    ensures HashOf(p, data) == Sum(h)
  {
    hide Store32, Store16, At32, At16, MacHash, MplsLabel, MtpHash, RoutingLabel, InPacket;
    At16Is(data, p.offset, h.source);
    At16Is(data, p.offset + 2, h.dest);
  }

  lemma CircuitHash(p: Push, data: seq<Byte>, h: Header)
    requires HeaderInPacket(p, data) && Carries(p, data, h) && h.Circuit?
    ensures HashOf(p, data) == Sum(h)
  {
    hide Store32, Store16, At32, At16, MacHash, MplsLabel, MtpHash, RoutingLabel, InPacket;
    At16Is(data, p.offset, h.cic + 0x1000 * h.spare);
    Twelve(h.cic, h.spare);
  }

  lemma NothingHash(p: Push, data: seq<Byte>, h: Header)
    requires HeaderInPacket(p, data) && Carries(p, data, h) && h.Nothing?
    ensures HashOf(p, data) == Sum(h)
  {
    hide Store32, Store16, At32, At16, MacHash, MplsLabel, MtpHash, RoutingLabel, InPacket;
  }

  /** Main result on one header: the hash takes exactly its fields from the packet. */
  lemma HashOfHeader(p: Push, data: seq<Byte>, h: Header)
    requires HeaderInPacket(p, data) && Carries(p, data, h)
    ensures HashOf(p, data) == Sum(h)
  {
    hide *;
    match h
    case Stations(_, _, _, _) => StationsHash(p, data, h);
    case TagControl(_) => TagControlHash(p, data, h);
    case Shim(_, _) => ShimHash(p, data, h);
    case PointCodes(_, _, _) => PointCodesHash(p, data, h);
    case Addresses(_, _) => AddressesHash(p, data, h);
    case Ports(_, _) => PortsHash(p, data, h);
    case Circuit(_, _) => CircuitHash(p, data, h);
    case Nothing => NothingHash(p, data, h);
  }

  // ---------- any sequence of calls ----------

  function Level(p: Push): nat {
    match p
    case PushL2(_, _, _) => 2
    case PushMtp(_, _) => 3
    case PushIp4(_, _) => 3
    case PushPlain(_, _) => 0
    case _ => 4
  }

  /** How many of the first n calls are for this level. */
  function Calls(ps: seq<Push>, n: nat, level: nat): nat
    requires n <= |ps|
  {
    if n == 0 then 0 else Calls(ps, n - 1, level) + if Level(ps[n - 1]) == level then 1 else 0
  }

  /** Call i adds to the hash: mixed headers do not, except an IP header when its level is full; nor do
      headers of level 2 when that is full. */
  predicate Hashed(cfg: Config, ps: seq<Push>, i: nat)
    requires i < |ps|
  {
    match ps[i]
    case PushL2(_, _, mix) => !mix && Calls(ps, i, 2) < cfg.l2Max
    case PushIp4(_, mix) => !mix || Calls(ps, i, 3) >= cfg.l3Max
    case _ => true
  }

  ghost predicate AllCarry(ps: seq<Push>, data: seq<Byte>, hs: seq<Header>)
    requires AllHeadersInPacket(ps, data)
  {
    |hs| == |ps| && forall i: nat | i < |ps| :: Carries(ps[i], data, hs[i])
  }

  /** The sum of the headers that are hashed among the first n. */
  function Total(cfg: Config, ps: seq<Push>, hs: seq<Header>, n: nat): nat
    requires n <= |ps| == |hs|
  {
    if n == 0 then 0 else Total(cfg, ps, hs, n - 1) + if Hashed(cfg, ps, n - 1) then Sum(hs[n - 1]) else 0
  }

  function Min(a: nat, b: nat): nat {
    if a < b then a else b
  }

  /** The counters after these calls, and the flags of levels 2 and 3. */
  predicate Counting(cfg: Config, ps: seq<Push>, n: nat, d: Details)
    requires n <= |ps|
  {
    && d.l2 == Min(Calls(ps, n, 2), cfg.l2Max)
    && d.l3 == Min(Calls(ps, n, 3), cfg.l3Max)
    && d.l4 == Min(Calls(ps, n, 4), cfg.l4Max)
    && (d.more2 <==> Calls(ps, n, 2) > cfg.l2Max)
    && (d.more3 <==> Calls(ps, n, 3) > cfg.l3Max)
  }

  /** What a call does to the counters. */
  lemma ApplyCounts(cfg: Config, d: Details, p: Push, data: seq<Byte>)
    requires HeaderInPacket(p, data)
    ensures var e := Apply(cfg, d, p, data);
            && e.l2 == (if Level(p) == 2 && d.l2 != cfg.l2Max then d.l2 + 1 else d.l2)
            && e.l3 == (if Level(p) == 3 && d.l3 != cfg.l3Max then d.l3 + 1 else d.l3)
            && e.l4 == (if Level(p) == 4 && d.l4 != cfg.l4Max then d.l4 + 1 else d.l4)
            && (e.more2 <==> d.more2 || (Level(p) == 2 && d.l2 == cfg.l2Max))
            && (e.more3 <==> d.more3 || (Level(p) == 3 && d.l3 == cfg.l3Max))
  {
    hide HashOf, HashSum, LayerOf, Pack, HeaderInPacket;
  }

  /** The call is for a transport or ISUP header and finds level 4 full; an M3UA header sets no flag. */
  predicate Overflows4(cfg: Config, ps: seq<Push>, i: nat) {
    i < |ps| && ps[i].PushL4? && Calls(ps, i, 4) >= cfg.l4Max
  }

  lemma CountingStep(cfg: Config, ps: seq<Push>, n: nat, d: Details, data: seq<Byte>)
    requires n < |ps| && HeaderInPacket(ps[n], data) && Counting(cfg, ps, n, d)
    ensures Counting(cfg, ps, n + 1, Apply(cfg, d, ps[n], data))
  {
    hide Apply, Level, HeaderInPacket;
    ApplyCounts(cfg, d, ps[n], data);
  }

  lemma HashSumIs(flowHash: nat, h: nat)
    ensures HashSum(flowHash, h) == (flowHash + h) % U64
    ensures flowHash < U64 ==> flowHash == (flowHash + 0) % U64
  {
  }

  /** What a call adds to the hash. */
  lemma ApplyHashes(cfg: Config, d: Details, p: Push, data: seq<Byte>)
    requires HeaderInPacket(p, data) && d.flowHash < U64
    ensures var h, adds := HashOf(p, data),
                match p
                case PushL2(_, _, mix) => !mix && d.l2 != cfg.l2Max
                case PushIp4(_, mix) => !mix || d.l3 == cfg.l3Max
                case _ => true;
            Apply(cfg, d, p, data).flowHash == HashSum(d.flowHash, if adds then h else 0)
  {
    HashSumIs(d.flowHash, 0);
    assert p.PushPlain? ==> HashOf(p, data) == 0;
    hide HashOf, Pack, HeaderInPacket, HashSum;
  }

  lemma HashStep(cfg: Config, ps: seq<Push>, n: nat, d: Details, data: seq<Byte>)
    requires n < |ps| && HeaderInPacket(ps[n], data) && Counting(cfg, ps, n, d) && d.flowHash < U64
    ensures Apply(cfg, d, ps[n], data).flowHash
         == HashSum(d.flowHash, if Hashed(cfg, ps, n) then HashOf(ps[n], data) else 0)
  {
    ApplyHashes(cfg, d, ps[n], data);
    hide Apply, HashOf, HashSum, HeaderInPacket, Calls;
  }

  lemma SumsWrap(a: nat, b: nat)
    ensures HashSum(a % U64, b) == (a + b) % U64
  {
  }

  lemma {:induction false} CountsKept(cfg: Config, ps: seq<Push>, n: nat, data: seq<Byte>)
    requires n <= |ps| && AllHeadersInPacket(ps, data)
    ensures Counting(cfg, ps, n, After(cfg, ps, n, data))
  {
    hide *;
    if n == 0 {
      AfterNothing(cfg, ps, data);
      NothingCounted(cfg, ps);
    } else {
      CountsKept(cfg, ps, n - 1, data);
      AfterStep(cfg, ps, n, data);
      CountingStep(cfg, ps, n - 1, After(cfg, ps, n - 1, data), data);
    }
  }

  lemma {:induction false} HashKept(cfg: Config, ps: seq<Push>, hs: seq<Header>, n: nat, data: seq<Byte>)
    requires n <= |ps| == |hs| && AllHeadersInPacket(ps, data) && AllCarry(ps, data, hs)
    ensures After(cfg, ps, n, data).flowHash == Total(cfg, ps, hs, n) % U64
  {
    hide *;
    if n == 0 {
      AfterNothing(cfg, ps, data);
      NothingHashed(cfg, ps, hs);
    } else {
      HashKept(cfg, ps, hs, n - 1, data);
      AfterStep(cfg, ps, n, data);
      var d := After(cfg, ps, n - 1, data);
      CountsKept(cfg, ps, n - 1, data);
      HashIsBelow(d, Total(cfg, ps, hs, n - 1));
      HashStep(cfg, ps, n - 1, d, data);
      CarriesAt(ps, data, hs, n - 1);
      HashOfHeader(ps[n - 1], data, hs[n - 1]);
      SumsWrap(Total(cfg, ps, hs, n - 1), if Hashed(cfg, ps, n - 1) then Sum(hs[n - 1]) else 0);
      TotalStep(cfg, ps, hs, n);
    }
  }

  lemma ApplyMore4(cfg: Config, d: Details, p: Push, data: seq<Byte>)
    requires HeaderInPacket(p, data)
    ensures Apply(cfg, d, p, data).more4 <==> d.more4 || (p.PushL4? && d.l4 == cfg.l4Max)
  {
    hide HashOf, HashSum, LayerOf, Pack, HeaderInPacket;
  }

  lemma More4Step(cfg: Config, ps: seq<Push>, n: nat, d: Details, data: seq<Byte>)
    requires n < |ps| && HeaderInPacket(ps[n], data) && Counting(cfg, ps, n, d)
    ensures Apply(cfg, d, ps[n], data).more4 <==> d.more4 || Overflows4(cfg, ps, n)
  {
    ApplyMore4(cfg, d, ps[n], data);
    hide Apply, HeaderInPacket, Calls;
  }

  lemma {:induction false} More4Kept(cfg: Config, ps: seq<Push>, n: nat, data: seq<Byte>)
    requires n <= |ps| && AllHeadersInPacket(ps, data)
    ensures After(cfg, ps, n, data).more4 <==> exists i: nat :: i < n && Overflows4(cfg, ps, i)
  {
    hide *;
    if n == 0 {
      AfterNothing(cfg, ps, data);
      NoOverflowYet();
    } else {
      More4Kept(cfg, ps, n - 1, data);
      AfterStep(cfg, ps, n, data);
      CountsKept(cfg, ps, n - 1, data);
      More4Step(cfg, ps, n - 1, After(cfg, ps, n - 1, data), data);
    }
  }

  lemma NoOverflowYet()
    ensures !EMPTY.more4
  {
  }

  lemma HashIsBelow(d: Details, total: nat)
    requires d.flowHash == total % U64
    ensures d.flowHash < U64
  {
  }

  lemma CarriesAt(ps: seq<Push>, data: seq<Byte>, hs: seq<Header>, i: nat)
    requires AllHeadersInPacket(ps, data) && AllCarry(ps, data, hs) && i < |ps|
    ensures |hs| == |ps| && HeaderInPacket(ps[i], data) && Carries(ps[i], data, hs[i])
  {
    hide HeaderInPacket, Carries;
  }

  lemma TotalStep(cfg: Config, ps: seq<Push>, hs: seq<Header>, n: nat)
    requires 0 < n <= |ps| == |hs|
    ensures Total(cfg, ps, hs, n)
         == Total(cfg, ps, hs, n - 1) + if Hashed(cfg, ps, n - 1) then Sum(hs[n - 1]) else 0
  {
  }

  lemma NothingCounted(cfg: Config, ps: seq<Push>)
    ensures Counting(cfg, ps, 0, EMPTY)
  {
  }

  lemma NothingHashed(cfg: Config, ps: seq<Push>, hs: seq<Header>)
    requires |hs| == |ps|
    ensures EMPTY.flowHash == Total(cfg, ps, hs, 0) % U64
  {
  }

  /** Main result: after any sequence of calls that stores at most 255 layers, flowHash is the sum of the
      headers that are hashed, modulo 2^64; each level counts its calls up to its maximum, and says so
      when there were more; of level 4 only transport and ISUP headers do. */
  lemma FlowHashExactly(cfg: Config, ps: seq<Push>, hs: seq<Header>, n: nat, data: seq<Byte>)
    requires n <= |ps| == |hs| && AllHeadersInPacket(ps, data) && AllCarry(ps, data, hs)
    requires FitsBytes(After(cfg, ps, n, data))
    ensures var e := After(cfg, ps, n, data);
            && e.flowHash == Total(cfg, ps, hs, n) % U64
            && e.l2 == Min(Calls(ps, n, 2), cfg.l2Max)
            && e.l3 == Min(Calls(ps, n, 3), cfg.l3Max)
            && e.l4 == Min(Calls(ps, n, 4), cfg.l4Max)
            && (e.more2 <==> Calls(ps, n, 2) > cfg.l2Max)
            && (e.more3 <==> Calls(ps, n, 3) > cfg.l3Max)
            && (e.more4 <==> exists i: nat :: i < n && Overflows4(cfg, ps, i))
  {
    More4Kept(cfg, ps, n, data);
    CountsKept(cfg, ps, n, data);
    HashKept(cfg, ps, hs, n, data);
    hide After, Total, Calls, AllHeadersInPacket, AllCarry, Overflows4;
  }
}
