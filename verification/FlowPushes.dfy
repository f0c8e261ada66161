/** The counters, layers and flow hash that the parsers' push calls build up. */
module FlowPushes {
  import opened Bytes
  import opened FlowLayers
  import opened FlowKey
  import opened FlowDirection

  datatype Config = Config(l2Max: nat, l3Max: nat, l4Max: nat)

  /** One push call, by the kinds that share a body: pushEth, pushVlan and pushMpls; pushMtp and
      pushMtp3; pushIp4; pushIsup, pushTcp, pushUdp and pushSctp; pushSctpChunk and pushM2ua; pushM3ua. */
  datatype Push =
    | PushL2(type_: Type, offset: nat, mix: bool)
    | PushMtp(type_: Type, offset: nat)
    | PushIp4(offset: nat, mix: bool)
    | PushL4(type_: Type, offset: nat)
    | PushPlain(type_: Type, offset: nat)
    | PushM3ua(offset: nat, hasOpc: bool)

  function TypeOf(p: Push): Type {
    match p
    case PushIp4(_, _) => Ip4
    case PushM3ua(_, _) => M3ua
    case _ => p.type_
  }

  predicate WellTyped(p: Push) {
    match p
    case PushL2(t, _, _) => t == Eth || t == Vlan || t == Mpls
    case PushMtp(t, _) => t == Mtp || t == Mtp3
    case PushIp4(_, _) => true
    case PushL4(t, _) => t == Isup || t == Tcp || t == Udp || t == Sctp
    case PushPlain(t, _) => t == SctpChunk || t == M2ua
    case PushM3ua(_, _) => true
  }

  /** The layer that the call would store. */
  function LayerOf(p: Push): Layer {
    Layer(TypeOf(p), p.offset, (p.PushL2? || p.PushIp4?) && p.mix)
  }

  // ---------- the hash ----------

  /** How many bytes of the header, from the offset on, the hash may read. */
  function HashedBytes(p: Push): nat {
    match p
    case PushPlain(_, _) => 0
    case PushM3ua(_, hasOpc) => if hasOpc then 8 else 0
    case _ => if TypeOf(p) == Isup then 2 else 4
  }

  /** The header bytes that the hash reads lie in the packet. */
  predicate HeaderInPacket(p: Push, data: seq<Byte>) {
    && WellTyped(p)
    && p.offset + HashedBytes(p) <= |data|
    && InPacket(LayerOf(p), data)
    && (TypeOf(p) == Eth ==> p.offset >= 6)
  }

  function At32(data: seq<Byte>, o: nat): (v: nat)
    requires o + 4 <= |data|
    ensures v < U32
  {
    Load32(data[o..o + 4])
  }

  function At16(data: seq<Byte>, o: nat): nat
    requires o + 2 <= |data|
  {
    Load16(data[o], data[o + 1])
  }

  /** A hardware address as pushEth adds it up, in 32-bit arithmetic. */
  function MacHash(data: seq<Byte>, o: nat): nat
    requires o + 6 <= |data|
  {
    (At32(data, o) + At16(data, o + 4)) % U32
  }

  /** getLabel of an MPLS header: sixteen bits and, behind a nibble of flags, four more. */
  function MplsLabel(data: seq<Byte>, o: nat): nat
    requires o + 4 <= |data|
  {
    At16(data, o) + HighNibble(data[o + 2]) * 0x1_0000
  }

  function L2Hash(type_: Type, data: seq<Byte>, o: nat): nat
    requires 6 <= o || type_ != Eth
    requires o + (if type_ == Eth then 6 else 4) <= |data|
  {
    if type_ == Eth then MacHash(data, o) + MacHash(data, o - 6)
    else if type_ == Vlan then 2 * At16(data, o)
    else 2 * MplsLabel(data, o)
  }

  function MtpHash(l: Layer, data: seq<Byte>): nat
    requires InPacket(l, data) && TypeMask(l.type_) != 0
  {
    SrcField(l, data) + DstField(l, data)
  }

  /** The circuit identification code of twelve bits, or two ports. */
  function L4Hash(type_: Type, data: seq<Byte>, o: nat): nat
    requires o + (if type_ == Isup then 2 else 4) <= |data|
  {
    if type_ == Isup then At16(data, o) % 0x1000 else At16(data, o) + At16(data, o + 2)
  }

  function AddressHash(data: seq<Byte>, o: nat): nat
    requires o + 8 <= |data|
  {
    At32(data, o) + At32(data, o + 4)
  }

  /** What a call adds to flowHash when it adds anything. */
  function HashOf(p: Push, data: seq<Byte>): nat
    requires HeaderInPacket(p, data)
  {
    match p
    case PushL2(type_, o, _) => L2Hash(type_, data, o)
    case PushMtp(_, _) => MtpHash(LayerOf(p), data)
    case PushIp4(o, _) => AddressHash(data, o)
    case PushL4(type_, o) => L4Hash(type_, data, o)
    case PushPlain(_, _) => 0
    case PushM3ua(o, hasOpc) => if hasOpc then AddressHash(data, o) else 0
  }

  // ---------- the state ----------

  datatype Details = Details(flowHash: nat, lastIp: nat, lastMtp: nat, lastM3ua: nat,
                             l2: nat, l3: nat, l4: nat, more2: bool, more3: bool, more4: bool, layers: seq<Word>)

  /** init() */
  const EMPTY := Details(0, 0xFF, 0xFF, 0xFF, 0, 0, 0, false, false, false, [])

  function HashSum(flowHash: nat, h: nat): (sum: nat)
    ensures sum < U64 && (h == 0 && flowHash < U64 ==> sum == flowHash)
  {
    (flowHash + h) % U64
  }

  function AddHash(d: Details, h: nat): Details {
    d.(flowHash := HashSum(d.flowHash, h))
  }

  function Append(d: Details, l: Layer): Details {
    d.(layers := d.layers + [Pack(l)])
  }

  /** `layers[layersCnt - 1].set(...)` */
  function ReplaceLast(d: Details, l: Layer): Details {
    if d.layers == [] then d else d.(layers := d.layers[|d.layers| - 1 := Pack(l)])
  }

  function ApplyL2(cfg: Config, d: Details, l: Layer, h: nat): Details {
    if d.l2 == cfg.l2Max then d.(more2 := true)
    else Append(AddHash(d, if l.mix then 0 else h), l).(l2 := d.l2 + 1)
  }

  function ApplyMtp(cfg: Config, d: Details, l: Layer, h: nat): Details {
    var d1 := AddHash(d, h).(lastMtp := |d.layers|);
    if d.l3 == cfg.l3Max then ReplaceLast(d1, l).(more3 := true) else Append(d1, l).(l3 := d.l3 + 1)
  }

  /** Once the level is full the last IP header takes the last layer's place, and never mixed. */
  function ApplyIp4(cfg: Config, d: Details, l: Layer, h: nat): Details {
    if d.l3 == cfg.l3Max then ReplaceLast(AddHash(d, h), l.(mix := false)).(more3 := true)
    else Append(AddHash(d, if l.mix then 0 else h), l).(l3 := d.l3 + 1, lastIp := |d.layers|)
  }

  function ApplyL4(cfg: Config, d: Details, l: Layer, h: nat): Details {
    var d1 := AddHash(d, h);
    if d.l4 == cfg.l4Max then ReplaceLast(d1, l).(more4 := true) else Append(d1, l).(l4 := d.l4 + 1)
  }

  function ApplyPlain(cfg: Config, d: Details, l: Layer): Details {
    if d.l4 == cfg.l4Max then d else Append(d, l)
  }

  function ApplyM3ua(cfg: Config, d: Details, l: Layer, h: nat): Details {
    var d1 := AddHash(d, h).(lastM3ua := |d.layers|);
    if d.l4 == cfg.l4Max then d1 else Append(d1, l).(l4 := d.l4 + 1)
  }

  function Apply(cfg: Config, d: Details, p: Push, data: seq<Byte>): Details
    requires HeaderInPacket(p, data)
  {
    var l, h := LayerOf(p), HashOf(p, data);
    match p
    case PushL2(_, _, _) => ApplyL2(cfg, d, l, h)
    case PushMtp(_, _) => ApplyMtp(cfg, d, l, h)
    case PushIp4(_, _) => ApplyIp4(cfg, d, l, h)
    case PushL4(_, _) => ApplyL4(cfg, d, l, h)
    case PushPlain(_, _) => ApplyPlain(cfg, d, l)
    case PushM3ua(_, _) => ApplyM3ua(cfg, d, l, h)
  }

  /** The call stores a layer of its own: the level is not full. */
  predicate AddsLayer(cfg: Config, d: Details, p: Push) {
    match p
    case PushL2(_, _, _) => d.l2 != cfg.l2Max
    case PushMtp(_, _) => d.l3 != cfg.l3Max
    case PushIp4(_, _) => d.l3 != cfg.l3Max
    case _ => d.l4 != cfg.l4Max
  }

  ghost predicate AllHeadersInPacket(ps: seq<Push>, data: seq<Byte>) {
    forall i: nat | i < |ps| :: HeaderInPacket(ps[i], data)
  }

  /** The state after the first n calls. */
  ghost function After(cfg: Config, ps: seq<Push>, n: nat, data: seq<Byte>): Details
    requires n <= |ps| && AllHeadersInPacket(ps, data)
  {
    if n == 0 then EMPTY else Apply(cfg, After(cfg, ps, n - 1, data), ps[n - 1], data)
  }

  // ---------- bookkeeping over any push sequence ----------

  /** Layers stored by pushSctpChunk and pushM2ua, which no per-level counter counts. */
  ghost function Uncounted(cfg: Config, ps: seq<Push>, n: nat, data: seq<Byte>): nat
    requires n <= |ps| && AllHeadersInPacket(ps, data)
  {
    if n == 0 then 0
    else Uncounted(cfg, ps, n - 1, data)
         + if ps[n - 1].PushPlain? && After(cfg, ps, n - 1, data).l4 != cfg.l4Max then 1 else 0
  }

  function Counted(d: Details): nat {
    d.l2 + d.l3 + d.l4
  }

  /** The word is the one that the call stores; pushIp4 takes the mix bit off when it overwrites. */
  predicate StoredBy(w: Word, p: Push) {
    WellTyped(p) && (w == Pack(LayerOf(p)) || (p.PushIp4? && w == Pack(LayerOf(p).(mix := false))))
  }

  ghost predicate FromPush(w: Word, ps: seq<Push>) {
    exists i: nat :: i < |ps| && StoredBy(w, ps[i])
  }

  ghost predicate FromHigherPush(w: Word, ps: seq<Push>) {
    exists i: nat :: i < |ps| && !ps[i].PushL2? && StoredBy(w, ps[i])
  }

  ghost predicate CountersOk(cfg: Config, d: Details) {
    && d.l2 <= cfg.l2Max && d.l3 <= cfg.l3Max && d.l4 <= cfg.l4Max
    && Counted(d) <= |d.layers|
    && (d.lastIp == 0xFF || d.lastIp < |d.layers|)
    && (d.lastMtp == 0xFF || d.lastMtp <= |d.layers|)
    && (d.more3 ==> d.l3 == cfg.l3Max) && (d.more4 ==> d.l4 == cfg.l4Max) && (d.more2 ==> d.l2 == cfg.l2Max)
    && d.flowHash < U64
  }

  ghost predicate LayersOk(layers: seq<Word>, lastIp: nat, ps: seq<Push>) {
    && (forall i: nat | i < |layers| :: FromPush(layers[i], ps))
    && (lastIp != 0xFF && lastIp < |layers| ==> FromHigherPush(layers[lastIp], ps))
  }

  ghost predicate BookOk(cfg: Config, d: Details, ps: seq<Push>) {
    CountersOk(cfg, d) && LayersOk(d.layers, d.lastIp, ps)
  }

  lemma L2KeepsCounters(cfg: Config, d: Details, l: Layer, h: nat)
    requires CountersOk(cfg, d)
    ensures var e := ApplyL2(cfg, d, l, h);
            CountersOk(cfg, e) && |e.layers| - Counted(e) == |d.layers| - Counted(d)
  {
    hide Pack, HashSum;
  }

  lemma MtpKeepsCounters(cfg: Config, d: Details, l: Layer, h: nat)
    requires CountersOk(cfg, d) && cfg.l3Max >= 1
    ensures var e := ApplyMtp(cfg, d, l, h);
            CountersOk(cfg, e) && |e.layers| - Counted(e) == |d.layers| - Counted(d)
  {
    hide Pack, HashSum;
  }

  lemma Ip4KeepsCounters(cfg: Config, d: Details, l: Layer, h: nat)
    requires CountersOk(cfg, d) && cfg.l3Max >= 1
    ensures var e := ApplyIp4(cfg, d, l, h);
            CountersOk(cfg, e) && |e.layers| - Counted(e) == |d.layers| - Counted(d)
  {
    hide Pack, HashSum;
  }

  lemma L4KeepsCounters(cfg: Config, d: Details, l: Layer, h: nat)
    requires CountersOk(cfg, d) && cfg.l4Max >= 1
    ensures var e := ApplyL4(cfg, d, l, h);
            CountersOk(cfg, e) && |e.layers| - Counted(e) == |d.layers| - Counted(d)
  {
    hide Pack, HashSum;
  }

  lemma M3uaKeepsCounters(cfg: Config, d: Details, l: Layer, h: nat)
    requires CountersOk(cfg, d)
    ensures var e := ApplyM3ua(cfg, d, l, h);
            CountersOk(cfg, e) && |e.layers| - Counted(e) == |d.layers| - Counted(d)
  {
    hide Pack, HashSum;
  }

  lemma ApplyKeepsCounters(cfg: Config, d: Details, p: Push, data: seq<Byte>)
    requires HeaderInPacket(p, data) && CountersOk(cfg, d)
    requires cfg.l3Max >= 1 && cfg.l4Max >= 1
    ensures var e := Apply(cfg, d, p, data);
            && CountersOk(cfg, e)
            && |e.layers| - Counted(e) == |d.layers| - Counted(d) + if p.PushPlain? && d.l4 != cfg.l4Max then 1 else 0
  {
    var l, hash := LayerOf(p), HashOf(p, data);
    hide HashOf, LayerOf, Pack, HeaderInPacket, HashSum, ApplyL2, ApplyMtp, ApplyIp4, ApplyL4, ApplyM3ua;
    match p
    case PushL2(_, _, _) => L2KeepsCounters(cfg, d, l, hash);
    case PushMtp(_, _) => MtpKeepsCounters(cfg, d, l, hash);
    case PushIp4(_, _) => Ip4KeepsCounters(cfg, d, l, hash);
    case PushL4(_, _) => L4KeepsCounters(cfg, d, l, hash);
    case PushPlain(_, _) =>
    case PushM3ua(_, _) => M3uaKeepsCounters(cfg, d, l, hash);
  }

  lemma StoreKeepsLayers(layers: seq<Word>, lastIp: nat, ps: seq<Push>, w: Word)
    requires LayersOk(layers, lastIp, ps) && FromPush(w, ps)
    requires lastIp == 0xFF || lastIp < |layers|
    ensures LayersOk(layers + [w], lastIp, ps)
    ensures FromHigherPush(w, ps) ==> LayersOk(layers + [w], |layers|, ps)
    ensures FromHigherPush(w, ps) && layers != [] ==> LayersOk(layers[|layers| - 1 := w], lastIp, ps)
  {
    hide FromPush, FromHigherPush;
  }

  lemma FromPushAt(p: Push, w: Word, ps: seq<Push>, i: nat)
    requires i < |ps| && ps[i] == p && StoredBy(w, p)
    ensures FromPush(w, ps) && (!p.PushL2? ==> FromHigherPush(w, ps))
  {
  }

  lemma StoresOwn(p: Push, data: seq<Byte>)
    requires HeaderInPacket(p, data)
    ensures StoredBy(Pack(LayerOf(p)), p)
    ensures p.PushIp4? ==> StoredBy(Pack(LayerOf(p).(mix := false)), p)
  {
  }

  lemma ApplyKeepsLayers(cfg: Config, d: Details, data: seq<Byte>, ps: seq<Push>, i: nat)
    requires i < |ps| && HeaderInPacket(ps[i], data) && CountersOk(cfg, d) && LayersOk(d.layers, d.lastIp, ps)
    ensures var e := Apply(cfg, d, ps[i], data); LayersOk(e.layers, e.lastIp, ps)
  {
    hide Pack, HashOf, StoredBy, FromPush, FromHigherPush, LayersOk, HeaderInPacket, LayerOf;
    var p := ps[i];
    var w, plain := Pack(LayerOf(p)), Pack(LayerOf(p).(mix := false));
    StoresOwn(p, data);
    FromPushAt(p, w, ps, i);
    StoreKeepsLayers(d.layers, d.lastIp, ps, w);
    if p.PushIp4? {
      FromPushAt(p, plain, ps, i);
      StoreKeepsLayers(d.layers, d.lastIp, ps, plain);
    }
  }

  lemma AfterStep(cfg: Config, ps: seq<Push>, n: nat, data: seq<Byte>)
    requires 0 < n <= |ps| && AllHeadersInPacket(ps, data)
    ensures HeaderInPacket(ps[n - 1], data)
    ensures After(cfg, ps, n, data) == Apply(cfg, After(cfg, ps, n - 1, data), ps[n - 1], data)
    ensures Uncounted(cfg, ps, n, data) == Uncounted(cfg, ps, n - 1, data)
         + if ps[n - 1].PushPlain? && After(cfg, ps, n - 1, data).l4 != cfg.l4Max then 1 else 0
  {
    hide Apply, HeaderInPacket;
  }

  lemma AfterNothing(cfg: Config, ps: seq<Push>, data: seq<Byte>)
    requires AllHeadersInPacket(ps, data)
    ensures After(cfg, ps, 0, data) == EMPTY && Uncounted(cfg, ps, 0, data) == 0 && Counted(EMPTY) == 0
  {
    hide AllHeadersInPacket, HeaderInPacket, Apply;
  }

  lemma NoCountersYet(cfg: Config)
    ensures CountersOk(cfg, EMPTY)
  {
    assert EMPTY.l2 == 0 && EMPTY.l3 == 0 && EMPTY.l4 == 0 && EMPTY.layers == [] && EMPTY.flowHash == 0;
  }

  lemma NoLayersYet(ps: seq<Push>)
    ensures LayersOk(EMPTY.layers, EMPTY.lastIp, ps)
  {
    hide FromPush, FromHigherPush;
    assert |EMPTY.layers| == 0;
  }

  /** What the unsigned bytes of the code must hold: the number of stored layers, which bounds every
      counter and every index of a layer. */
  predicate FitsBytes(d: Details) {
    |d.layers| <= 0xFF
  }

  lemma {:induction false} BookSteps(cfg: Config, ps: seq<Push>, n: nat, data: seq<Byte>)
    requires n <= |ps| && AllHeadersInPacket(ps, data) && cfg.l3Max >= 1 && cfg.l4Max >= 1
    ensures var e := After(cfg, ps, n, data);
            BookOk(cfg, e, ps) && |e.layers| == Counted(e) + Uncounted(cfg, ps, n, data)
  {
    hide After, Uncounted, Apply, CountersOk, LayersOk, HeaderInPacket, AllHeadersInPacket, Counted;
    if n == 0 {
      AfterNothing(cfg, ps, data);
      NoCountersYet(cfg);
      NoLayersYet(ps);
    } else {
      BookSteps(cfg, ps, n - 1, data);
      AfterStep(cfg, ps, n, data);
      var d := After(cfg, ps, n - 1, data);
      ApplyKeepsCounters(cfg, d, ps[n - 1], data);
      ApplyKeepsLayers(cfg, d, data, ps, n - 1);
    }
  }

  /** Layers are never taken away. */
  lemma {:induction false} LayersGrow(cfg: Config, ps: seq<Push>, m: nat, n: nat, data: seq<Byte>)
    requires m <= n <= |ps| && AllHeadersInPacket(ps, data) && cfg.l3Max >= 1 && cfg.l4Max >= 1
    ensures |After(cfg, ps, m, data).layers| <= |After(cfg, ps, n, data).layers|
    decreases n
  {
    hide After, Apply, HeaderInPacket, AllHeadersInPacket, CountersOk, LayersOk;
    if m < n {
      LayersGrow(cfg, ps, m, n - 1, data);
      AfterStep(cfg, ps, n, data);
      BookSteps(cfg, ps, n - 1, data);
      ApplyKeepsCounters(cfg, After(cfg, ps, n - 1, data), ps[n - 1], data);
      CountedGrows(cfg, After(cfg, ps, n - 1, data), ps[n - 1], data);
    }
  }

  lemma CountedGrows(cfg: Config, d: Details, p: Push, data: seq<Byte>)
    requires HeaderInPacket(p, data)
    ensures Counted(Apply(cfg, d, p, data)) >= Counted(d)
  {
    hide HashOf, Pack, HeaderInPacket;
  }

  /** Over every sequence of calls that stores at most 255 layers no byte wraps at any point, each
      counter stays within its maximum, layersCnt exceeds the sum of the counters by exactly the
      uncounted layers, lastIpLayer is unset or a stored layer, and every stored word comes from one
      of the calls. */
  lemma BookKept(cfg: Config, ps: seq<Push>, n: nat, data: seq<Byte>)
    requires n <= |ps| && AllHeadersInPacket(ps, data) && cfg.l3Max >= 1 && cfg.l4Max >= 1
    requires FitsBytes(After(cfg, ps, n, data))
    ensures var e := After(cfg, ps, n, data);
            BookOk(cfg, e, ps) && |e.layers| == Counted(e) + Uncounted(cfg, ps, n, data)
    ensures forall m: nat | m <= n :: FitsBytes(After(cfg, ps, m, data)) && Counted(After(cfg, ps, m, data)) <= 0xFF
  {
    BookSteps(cfg, ps, n, data);
    hide After, Uncounted, LayersOk, AllHeadersInPacket;
    forall m: nat | m <= n
      ensures FitsBytes(After(cfg, ps, m, data)) && Counted(After(cfg, ps, m, data)) <= 0xFF
    {
      LayersGrow(cfg, ps, m, n, data);
      BookSteps(cfg, ps, m, data);
    }
  }

  function Plains(ps: seq<Push>, n: nat): nat
    requires n <= |ps|
  {
    if n == 0 then 0 else Plains(ps, n - 1) + if ps[n - 1].PushPlain? then 1 else 0
  }

  lemma {:induction false} UncountedArePlain(cfg: Config, ps: seq<Push>, n: nat, data: seq<Byte>)
    requires n <= |ps| && AllHeadersInPacket(ps, data)
    ensures Uncounted(cfg, ps, n, data) <= Plains(ps, n)
  {
    hide After, HeaderInPacket, AllHeadersInPacket;
    if n > 0 {
      UncountedArePlain(cfg, ps, n - 1, data);
    }
  }

  /** Enough for that: the maxima and the number of SctpChunk and M2ua headers sum up to at most 255. */
  lemma WhenBytesFit(cfg: Config, ps: seq<Push>, n: nat, data: seq<Byte>)
    requires n <= |ps| && AllHeadersInPacket(ps, data) && cfg.l3Max >= 1 && cfg.l4Max >= 1
    requires cfg.l2Max + cfg.l3Max + cfg.l4Max + Plains(ps, n) <= 0xFF
    ensures FitsBytes(After(cfg, ps, n, data))
  {
    BookSteps(cfg, ps, n, data);
    UncountedArePlain(cfg, ps, n, data);
    hide After, Uncounted, Plains, LayersOk, AllHeadersInPacket;
  }

  // ---------- the two directions of a flow ----------

  /** The header in the reverse packet. */
  predicate MirrorHeader(p: Push, d: seq<Byte>, d2: seq<Byte>)
    requires HeaderInPacket(p, d) && HeaderInPacket(p, d2)
  {
    var o := p.offset;
    && Mirror(LayerOf(p), d, d2)
    && (TypeOf(p) == Isup ==> d2[o..o + 2] == d[o..o + 2])
    && (p.PushM3ua? && p.hasOpc ==> d2[o..o + 4] == d[o + 4..o + 8] && d2[o + 4..o + 8] == d[o..o + 4])
  }

  lemma SameByteAt(d: seq<Byte>, d2: seq<Byte>, o: nat, o2: nat, n: nat, k: nat)
    requires o + n <= |d| && o2 + n <= |d2| && d2[o2..o2 + n] == d[o..o + n] && k < n
    ensures d2[o2 + k] == d[o + k]
  {
    assert d2[o2..o2 + n][k] == d2[o2 + k] && d[o..o + n][k] == d[o + k];
  }

  lemma FirstFour(s: seq<Byte>, o: nat, n: nat)
    requires 4 <= n && o + n <= |s|
    ensures s[o..o + n][..4] == s[o..o + 4]
  {
  }

  lemma SameAt32(d: seq<Byte>, d2: seq<Byte>, o: nat, o2: nat, n: nat)
    requires 4 <= n && o + n <= |d| && o2 + n <= |d2| && d2[o2..o2 + n] == d[o..o + n]
    ensures At32(d2, o2) == At32(d, o)
  {
    hide Load32;
    FirstFour(d, o, n);
    FirstFour(d2, o2, n);
  }

  lemma SameAt16(d: seq<Byte>, d2: seq<Byte>, o: nat, o2: nat, n: nat, k: nat)
    requires k + 2 <= n && o + n <= |d| && o2 + n <= |d2| && d2[o2..o2 + n] == d[o..o + n]
    ensures At16(d2, o2 + k) == At16(d, o + k)
  {
    hide Load16;
    SameByteAt(d, d2, o, o2, n, k);
    SameByteAt(d, d2, o, o2, n, k + 1);
  }

  lemma SameMac(d: seq<Byte>, d2: seq<Byte>, o: nat, o2: nat)
    requires o + 6 <= |d| && o2 + 6 <= |d2| && d2[o2..o2 + 6] == d[o..o + 6]
    ensures MacHash(d2, o2) == MacHash(d, o)
  {
    SameAt32(d, d2, o, o2, 6);
    SameAt16(d, d2, o, o2, 6, 4);
    hide At32, At16;
  }

  lemma SameLabel(d: seq<Byte>, d2: seq<Byte>, o: nat)
    requires o + 4 <= |d| && o + 4 <= |d2| && d2[o..o + 4] == d[o..o + 4]
    ensures MplsLabel(d2, o) == MplsLabel(d, o)
  {
    SameAt16(d, d2, o, o, 4, 0);
    SameByteAt(d, d2, o, o, 4, 2);
    hide At16;
  }

  lemma HashMirroredPairs(p: Push, d: seq<Byte>, d2: seq<Byte>)
    requires HeaderInPacket(p, d) && HeaderInPacket(p, d2) && MirrorHeader(p, d, d2) && Paired(TypeOf(p))
    ensures HashOf(p, d2) == HashOf(p, d)
  {
    hide At16, At32;
    var o := p.offset;
    if TypeOf(p) == Ip4 {
      SameAt32(d, d2, o + 4, o, 4);
      SameAt32(d, d2, o, o + 4, 4);
    } else if TypeMask(TypeOf(p)) == 0 {
      SameAt16(d, d2, o + 2, o, 2, 0);
      SameAt16(d, d2, o, o + 2, 2, 0);
    }
  }

  lemma HashMirroredOthers(p: Push, d: seq<Byte>, d2: seq<Byte>)
    requires HeaderInPacket(p, d) && HeaderInPacket(p, d2) && MirrorHeader(p, d, d2)
    requires !Paired(TypeOf(p)) && !Tag(TypeOf(p))
    ensures HashOf(p, d2) == HashOf(p, d)
  {
    hide MacHash, At16, At32, MplsLabel;
    var o := p.offset;
    if TypeOf(p) == Eth {
      SameMac(d, d2, o - 6, o);
      SameMac(d, d2, o, o - 6);
    } else if TypeOf(p) == Isup {
      SameAt16(d, d2, o, o, 2, 0);
    } else if p.PushM3ua? && p.hasOpc {
      SameAt32(d, d2, o + 4, o, 4);
      SameAt32(d, d2, o, o + 4, 4);
    }
  }

  lemma HashMirroredTags(p: Push, d: seq<Byte>, d2: seq<Byte>)
    requires HeaderInPacket(p, d) && HeaderInPacket(p, d2) && MirrorHeader(p, d, d2) && Tag(TypeOf(p))
    ensures HashOf(p, d2) == HashOf(p, d)
  {
    hide MacHash, At16, At32, MplsLabel;
    SameAt16(d, d2, p.offset, p.offset, 4, 0);
    SameLabel(d, d2, p.offset);
  }

  /** A header and its reverse add the same to the hash. */
  lemma HashMirrored(p: Push, d: seq<Byte>, d2: seq<Byte>)
    requires HeaderInPacket(p, d) && HeaderInPacket(p, d2) && MirrorHeader(p, d, d2)
    ensures HashOf(p, d2) == HashOf(p, d)
  {
    hide *;
    if Paired(TypeOf(p)) {
      HashMirroredPairs(p, d, d2);
    } else if Tag(TypeOf(p)) {
      HashMirroredTags(p, d, d2);
    } else {
      HashMirroredOthers(p, d, d2);
    }
  }

  ghost predicate AllHeadersMirror(ps: seq<Push>, d: seq<Byte>, d2: seq<Byte>) {
    && AllHeadersInPacket(ps, d) && AllHeadersInPacket(ps, d2)
    && forall i: nat | i < |ps| :: MirrorHeader(ps[i], d, d2)
  }

  lemma ApplyMirrored(cfg: Config, s: Details, p: Push, d: seq<Byte>, d2: seq<Byte>)
    requires HeaderInPacket(p, d) && HeaderInPacket(p, d2) && MirrorHeader(p, d, d2)
    ensures Apply(cfg, s, p, d2) == Apply(cfg, s, p, d)
  {
    hide HashOf, MirrorHeader, HeaderInPacket, ApplyL2, ApplyMtp, ApplyIp4, ApplyL4, ApplyPlain, ApplyM3ua, LayerOf;
    HashMirrored(p, d, d2);
  }

  lemma MirrorAll(ps: seq<Push>, d: seq<Byte>, d2: seq<Byte>)
    requires AllHeadersMirror(ps, d, d2)
    ensures AllHeadersInPacket(ps, d) && AllHeadersInPacket(ps, d2)
  {
    hide HeaderInPacket, MirrorHeader;
  }

  lemma MirrorAt(ps: seq<Push>, d: seq<Byte>, d2: seq<Byte>, i: nat)
    requires AllHeadersMirror(ps, d, d2) && i < |ps|
    ensures HeaderInPacket(ps[i], d) && HeaderInPacket(ps[i], d2) && MirrorHeader(ps[i], d, d2)
  {
    hide HeaderInPacket, MirrorHeader;
  }

  lemma {:induction false} StepsAreDirectionFree(cfg: Config, ps: seq<Push>, n: nat, d: seq<Byte>, d2: seq<Byte>)
    requires n <= |ps| && AllHeadersMirror(ps, d, d2)
    ensures After(cfg, ps, n, d2) == After(cfg, ps, n, d)
  {
    hide *;
    MirrorAll(ps, d, d2);
    if n == 0 {
      AfterNothing(cfg, ps, d);
      AfterNothing(cfg, ps, d2);
    } else {
      MirrorAt(ps, d, d2, n - 1);
      StepsAreDirectionFree(cfg, ps, n - 1, d, d2);
      AfterStep(cfg, ps, n, d);
      AfterStep(cfg, ps, n, d2);
      ApplyMirrored(cfg, After(cfg, ps, n - 1, d), ps[n - 1], d, d2);
    }
  }

  /** The same calls on a packet and on its reverse leave the same state: the same hash, counters and
      layers, also when levels overflow, as long as no byte does. */
  lemma HashIsDirectionFree(cfg: Config, ps: seq<Push>, n: nat, d: seq<Byte>, d2: seq<Byte>)
    requires n <= |ps| && AllHeadersMirror(ps, d, d2) && cfg.l3Max >= 1 && cfg.l4Max >= 1
    requires FitsBytes(After(cfg, ps, n, d))
    ensures After(cfg, ps, n, d2) == After(cfg, ps, n, d)
    ensures forall m: nat | m <= n :: FitsBytes(After(cfg, ps, m, d)) && FitsBytes(After(cfg, ps, m, d2))
  {
    BookKept(cfg, ps, n, d);
    StepsAreDirectionFree(cfg, ps, n, d, d2);
    hide After, AllHeadersMirror, AllHeadersInPacket;
    forall m: nat | m <= n
      ensures FitsBytes(After(cfg, ps, m, d2))
    {
      StepsAreDirectionFree(cfg, ps, m, d, d2);
    }
  }

  // ---------- from the calls to the key ----------

  /** The layers that the key functions see: the counted ones, the last IP layer never mixed. */
  function Effective(layers: seq<Word>, count: nat, lastIp: nat): (ls: seq<Layer>)
    requires count <= |layers|
    ensures |ls| == count
  {
    seq(count, i requires 0 <= i < count =>
      if lastIp != 0xFF && i == lastIp then Unpack(layers[i]).(mix := false) else Unpack(layers[i]))
  }

  function EffectiveLayers(d: Details): seq<Layer>
    requires Counted(d) <= |d.layers|
  {
    Effective(d.layers, Counted(d), d.lastIp)
  }

  /** Each of these layers lies where one of the calls put it; an Ethernet, VLAN or MPLS layer keeps
      the mix bit it was pushed with. */
  lemma EffectiveFromPush(d: Details, ps: seq<Push>, i: nat) returns (k: nat)
    requires LayersOk(d.layers, d.lastIp, ps) && Counted(d) <= |d.layers| && i < Counted(d)
    requires forall k: nat | k < |ps| :: ps[k].offset < 2048
    ensures var l := EffectiveLayers(d)[i];
            && k < |ps| && WellTyped(ps[k]) && l == LayerOf(ps[k]).(mix := l.mix)
            && (ps[k].PushL2? ==> l.mix == ps[k].mix)
  {
    var w := d.layers[i];
    if d.lastIp != 0xFF && i == d.lastIp {
      assert FromHigherPush(w, ps);
      k :| k < |ps| && !ps[k].PushL2? && StoredBy(w, ps[k]);
    } else {
      assert FromPush(w, ps);
      k :| k < |ps| && StoredBy(w, ps[k]);
    }
    PackRoundTrip(LayerOf(ps[k]));
    PackRoundTrip(LayerOf(ps[k]).(mix := false));
    hide Pack, Unpack;
  }

  /** What a caller can check before pushing: offsets that the layer word can hold, and every
      Ethernet, VLAN and MPLS header pushed with mix. */
  predicate Careful(p: Push) {
    p.offset < 2048 && (p.PushL2? ==> p.mix)
  }

  lemma EffectiveMirrored(d: Details, ps: seq<Push>, i: nat, data: seq<Byte>, data2: seq<Byte>)
    requires LayersOk(d.layers, d.lastIp, ps) && Counted(d) <= |d.layers| && i < Counted(d)
    requires AllHeadersMirror(ps, data, data2) && forall k: nat | k < |ps| :: Careful(ps[k])
    ensures var l := EffectiveLayers(d)[i];
            && InPacket(l, data) && InPacket(l, data2) && Mirror(l, data, data2)
            && (!l.mix ==> l.type_ != Eth && !Tag(l.type_))
  {
    var l := EffectiveLayers(d)[i];
    var k := EffectiveFromPush(d, ps, i);
    assert Careful(ps[k]);
    hide LayersOk, EffectiveLayers, AllHeadersMirror, Mirror, InPacket;
    LayerMirrors(ps, k, data, data2);
    MirrorIgnoresMix(l, LayerOf(ps[k]), data, data2);
  }

  lemma LayerMirrors(ps: seq<Push>, k: nat, data: seq<Byte>, data2: seq<Byte>)
    requires k < |ps| && AllHeadersMirror(ps, data, data2)
    ensures var l := LayerOf(ps[k]); InPacket(l, data) && InPacket(l, data2) && Mirror(l, data, data2)
  {
    assert HeaderInPacket(ps[k], data) && HeaderInPacket(ps[k], data2) && MirrorHeader(ps[k], data, data2);
    hide InPacket, Mirror, LayerOf, AllHeadersMirror;
  }

  lemma {:induction false} FromEach(ls: seq<Layer>, d: seq<Byte>, d2: seq<Byte>)
    requires forall i: nat | i < |ls| :: InPacket(ls[i], d) && InPacket(ls[i], d2) && Mirror(ls[i], d, d2)
    requires forall i: nat | i < |ls| :: !ls[i].mix ==> ls[i].type_ != Eth && !Tag(ls[i].type_)
    ensures AllInPacket(ls, d) && AllInPacket(ls, d2) && AllMirror(ls, d, d2)
    ensures NoEthernet(Unmixed(ls)) && NoTags(Unmixed(ls))
    decreases |ls|
  {
    if ls != [] {
      var l := ls[|ls| - 1];
      assert InPacket(l, d) && InPacket(l, d2) && Mirror(l, d, d2);
      hide InPacket, Mirror, Tag;
      FromEach(Outer(ls), d, d2);
      Snoc(Unmixed(Outer(ls)), l);
    }
  }

  /** End to end: if all calls are careful and store at most 255 layers, the two directions of a flow get
      the same hash and the same key. */
  lemma FlowIsDirectionFree(cfg: Config, ps: seq<Push>, d: seq<Byte>, d2: seq<Byte>)
    requires cfg.l3Max >= 1 && cfg.l4Max >= 1
    requires AllHeadersMirror(ps, d, d2) && forall k: nat | k < |ps| :: Careful(ps[k])
    requires FitsBytes(After(cfg, ps, |ps|, d))
    ensures var a, b := After(cfg, ps, |ps|, d), After(cfg, ps, |ps|, d2);
            && a.flowHash == b.flowHash
            && Counted(a) <= |a.layers| && Counted(b) <= |b.layers|
            && var ls := EffectiveLayers(a);
               && ls == EffectiveLayers(b)
               && AllInPacket(ls, d) && AllInPacket(ls, d2)
               && FlowKeyOf(ls, d2, SrcLower(ls, d2)) == FlowKeyOf(ls, d, SrcLower(ls, d))
               && FlowKeyOf(ls, d2, SideOf(ls, d2)) == FlowKeyOf(ls, d, SideOf(ls, d))
  {
    BookKept(cfg, ps, |ps|, d);
    HashIsDirectionFree(cfg, ps, |ps|, d, d2);
    var a := After(cfg, ps, |ps|, d);
    assert Counted(a) <= |a.layers| && LayersOk(a.layers, a.lastIp, ps);
    hide *;
    EffectiveMirroredAll(a, ps, d, d2);
    NothingIntoKey(EffectiveLayers(a), d);
    DirectionIndependent(EffectiveLayers(a), d, d2);
  }

  lemma EffectiveMirroredAll(a: Details, ps: seq<Push>, d: seq<Byte>, d2: seq<Byte>)
    requires LayersOk(a.layers, a.lastIp, ps) && Counted(a) <= |a.layers|
    requires AllHeadersMirror(ps, d, d2) && forall k: nat | k < |ps| :: Careful(ps[k])
    ensures var ls := EffectiveLayers(a);
            && AllInPacket(ls, d) && AllInPacket(ls, d2) && AllMirror(ls, d, d2)
            && NoEthernet(Unmixed(ls)) && NoTags(Unmixed(ls))
  {
    var ls := EffectiveLayers(a);
    assert |ls| == Counted(a);
    hide *;
    forall i: nat | i < |ls|
      ensures InPacket(ls[i], d) && InPacket(ls[i], d2) && Mirror(ls[i], d, d2)
      ensures !ls[i].mix ==> ls[i].type_ != Eth && !Tag(ls[i].type_)
    {
      EffectiveMirrored(a, ps, i, d, d2);
    }
    FromEach(ls, d, d2);
  }

  lemma MirrorIgnoresMix(l: Layer, k: Layer, d: seq<Byte>, d2: seq<Byte>)
    requires InPacket(k, d) && InPacket(k, d2) && Mirror(k, d, d2)
    requires l == k.(mix := l.mix)
    ensures InPacket(l, d) && InPacket(l, d2) && Mirror(l, d, d2)
  {
    hide Paired, TypeLength, TypeMask, ReadLength, Known, Field;
  }
}
