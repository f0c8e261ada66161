/** Which layers the push calls leave in the stack, and with which mix bit the key functions see them. */
module FlowStack {
  import opened Bytes
  import opened FlowLayers
  import opened FlowKey
  import opened FlowPushes
  import opened FlowHash

  // ---------- one call ----------

  /** The layer of a call: the type and place of its header, and the mix bit for the headers that have one. */
  function Pushed(p: Push): Layer {
    match p
    case PushL2(type_, offset, mix) => Layer(type_, offset, mix)
    case PushMtp(type_, offset) => Layer(type_, offset, false)
    case PushIp4(offset, mix) => Layer(Ip4, offset, mix)
    case PushL4(type_, offset) => Layer(type_, offset, false)
    case PushPlain(type_, offset) => Layer(type_, offset, false)
    case PushM3ua(offset, _) => Layer(M3ua, offset, false)
  }

  lemma LayerIsPushed(p: Push)
    ensures LayerOf(p) == Pushed(p) && Pushed(p).offset == p.offset
  {
  }

  /** A call adds its layer to the stack as long as its level is not full. */
  lemma AddsItsLayer(cfg: Config, d: Details, p: Push, data: seq<Byte>)
    requires HeaderInPacket(p, data) && AddsLayer(cfg, d, p) && p.offset < 2048
    ensures var e := Apply(cfg, d, p, data);
            && |e.layers| == |d.layers| + 1 && e.layers[..|d.layers|] == d.layers
            && Unpack(e.layers[|d.layers|]) == Pushed(p)
            && e.lastIp == (if p.PushIp4? then |d.layers| else d.lastIp)
            && e.lastMtp == (if p.PushMtp? then |d.layers| else d.lastMtp)
            && e.lastM3ua == (if p.PushM3ua? then |d.layers| else d.lastM3ua)
  {
    LayerIsPushed(p);
    PackRoundTrip(Pushed(p));
    hide HashOf, HashSum, LayerOf, Pushed, Pack, Unpack, HeaderInPacket;
  }

  /** Once its level is full, an MTP, IP or level 4 header takes the place of the innermost layer, and is
      not mixed; any other header changes no layer. lastIpLayer then stays, and lastMtpLayer points
      behind the layers. */
  lemma FullLevel(cfg: Config, d: Details, p: Push, data: seq<Byte>)
    requires HeaderInPacket(p, data) && !AddsLayer(cfg, d, p) && p.offset < 2048 && d.layers != []
    ensures var e, n := Apply(cfg, d, p, data), |d.layers|;
            && |e.layers| == n && e.layers[..n - 1] == d.layers[..n - 1]
            && (if p.PushMtp? || p.PushIp4? || p.PushL4? then Unpack(e.layers[n - 1]) == Pushed(p).(mix := false)
                else e.layers == d.layers)
            && e.lastIp == d.lastIp
            && e.lastMtp == (if p.PushMtp? then n else d.lastMtp)
            && e.lastM3ua == (if p.PushM3ua? then n else d.lastM3ua)
  {
    LayerIsPushed(p);
    PackRoundTrip(Pushed(p).(mix := false));
    hide HashOf, HashSum, Pack, Unpack, HeaderInPacket, Pushed;
  }

  // ---------- sequences that fit ----------

  /** No level gets more calls than it can hold, and none is for a header that no level counts. */
  predicate Roomy(cfg: Config, ps: seq<Push>, n: nat)
    requires n <= |ps|
  {
    && Calls(ps, n, 2) <= cfg.l2Max && Calls(ps, n, 3) <= cfg.l3Max && Calls(ps, n, 4) <= cfg.l4Max
    && Calls(ps, n, 0) == 0
  }

  /** The last of the first n calls that is for an IP header. */
  function LastIp(ps: seq<Push>, n: nat): nat
    requires n <= |ps|
  {
    if n == 0 then 0xFF else if ps[n - 1].PushIp4? then n - 1 else LastIp(ps, n - 1)
  }

  /** Every layer is the one of its call. */
  ghost predicate OnePerCall(ps: seq<Push>, n: nat, d: Details)
    requires n <= |ps|
  {
    && |d.layers| == n == Counted(d) && d.lastIp == LastIp(ps, n)
    && forall i: nat | i < n :: Unpack(d.layers[i]) == Pushed(ps[i])
  }

  lemma RoomyBefore(cfg: Config, ps: seq<Push>, n: nat, d: Details)
    requires 0 < n <= |ps| && Roomy(cfg, ps, n) && Counting(cfg, ps, n - 1, d)
    ensures Roomy(cfg, ps, n - 1) && AddsLayer(cfg, d, ps[n - 1]) && !ps[n - 1].PushPlain?
  {
  }

  lemma {:induction false} CallsAll(ps: seq<Push>, n: nat)
    requires n <= |ps|
    ensures Calls(ps, n, 0) + Calls(ps, n, 2) + Calls(ps, n, 3) + Calls(ps, n, 4) == n
  {
    if n > 0 {
      CallsAll(ps, n - 1);
    }
  }

  lemma AllCounted(cfg: Config, ps: seq<Push>, n: nat, d: Details)
    requires n <= |ps| && Roomy(cfg, ps, n) && Counting(cfg, ps, n, d)
    ensures Counted(d) == n
  {
    CallsAll(ps, n);
    hide Calls;
  }

  lemma OneMore(cfg: Config, ps: seq<Push>, n: nat, d: Details, data: seq<Byte>)
    requires n < |ps| && HeaderInPacket(ps[n], data) && AddsLayer(cfg, d, ps[n]) && ps[n].offset < 2048
    requires OnePerCall(ps, n, d) && Counted(Apply(cfg, d, ps[n], data)) == n + 1
    ensures OnePerCall(ps, n + 1, Apply(cfg, d, ps[n], data))
  {
    AddsItsLayer(cfg, d, ps[n], data);
    var e := Apply(cfg, d, ps[n], data);
    hide Apply, Unpack, Pushed, HeaderInPacket, Counted;
    forall i: nat | i < n + 1
      ensures Unpack(e.layers[i]) == Pushed(ps[i])
    {
      assert i < n ==> e.layers[i] == e.layers[..n][i];
    }
  }

  lemma {:induction false} OnePerCallKept(cfg: Config, ps: seq<Push>, n: nat, data: seq<Byte>)
    requires n <= |ps| && AllHeadersInPacket(ps, data) && Roomy(cfg, ps, n)
    requires forall k: nat | k < n :: ps[k].offset < 2048
    ensures OnePerCall(ps, n, After(cfg, ps, n, data))
  {
    hide *;
    if n == 0 {
      AfterNothing(cfg, ps, data);
      NoneYet(ps);
    } else {
      var d := After(cfg, ps, n - 1, data);
      AfterStep(cfg, ps, n, data);
      CountsKept(cfg, ps, n - 1, data);
      CountsKept(cfg, ps, n, data);
      RoomyBefore(cfg, ps, n, d);
      AllCounted(cfg, ps, n, After(cfg, ps, n, data));
      OnePerCallKept(cfg, ps, n - 1, data);
      OneMore(cfg, ps, n - 1, d, data);
    }
  }

  lemma NoneYet(ps: seq<Push>)
    ensures OnePerCall(ps, 0, EMPTY)
  {
  }

  /** Main result: as long as no level overflows, the key functions see one layer for each call, in the
      order of the calls, each with the type, place and mix bit it was pushed with; only the last IP
      header is never mixed. */
  lemma StackIsCalls(cfg: Config, ps: seq<Push>, n: nat, data: seq<Byte>)
    requires n <= |ps| && n <= 0xFF && AllHeadersInPacket(ps, data) && Roomy(cfg, ps, n)
    requires forall k: nat | k < n :: ps[k].offset < 2048
    ensures var e := After(cfg, ps, n, data);
            && Counted(e) == |e.layers| == n
            && forall i: nat | i < n ::
                 EffectiveLayers(e)[i] == if i == LastIp(ps, n) then Pushed(ps[i]).(mix := false) else Pushed(ps[i])
  {
    OnePerCallKept(cfg, ps, n, data);
    hide After, AllHeadersInPacket, Roomy, Unpack, Pushed, Counted;
  }
}
