/** The server's registry of channels and the hashes bound to them, as commands change it. */
module ChannelRegistry {
  import opened Bytes

  type Sock = int
  type Hash = nat
  type Id = nat

  /** As the server sees it: a client's read channel is written by the server. */
  datatype Direction = Reading | Writing

  datatype Ctx = Ctx(id: Id, dir: Direction)

  datatype SockState = Connected | Inited

  datatype Registry = Registry(channels: map<Sock, seq<Ctx>>, byHash: map<Hash, Ctx>, hashesOf: map<Id, seq<Hash>>,
                               states: map<Sock, SockState>, next: nat)

  const EMPTY := Registry(map[], map[], map[], map[], 0)

  /** A new channel's size and name prefix do not enter the registry. */
  datatype Cmd =
    | Init(keyword: bool) | NewRChan(size: nat, prefix: seq<Byte>) | NewWChan(size: nat, prefix: seq<Byte>)
    | BindChan(id: Id, hash: Hash) | CloseChan(id: Id) | Unsupported

  /** What happens to the registry from outside. `created` says whether the shared memory of a new
      channel could be set up, `wrote` and `wroteAgain` whether the replies could be written. */
  datatype Event =
    | Accept(sock: Sock)
    | Lost(sock: Sock)
    | Command(sock: Sock, cmd: Cmd, created: bool, wrote: bool, wroteAgain: bool)

  /** The channels of a socket, in the order they were made. */
  function ChannelsOf(r: Registry, sock: Sock): seq<Ctx> {
    if sock in r.channels then r.channels[sock] else []
  }

  /** Index of the first channel with this id, the length if there is none. */
  function Find(cs: seq<Ctx>, id: Id): (i: nat)
    ensures i <= |cs|
    ensures i < |cs| ==> cs[i].id == id
    ensures forall j | 0 <= j < i :: cs[j].id != id
  {
    if cs == [] then 0 else if cs[0].id == id then 0 else 1 + Find(cs[1..], id)
  }

  /** closeConnection; the socket's channels stay. */
  function Disconnect(r: Registry, sock: Sock): Registry {
    r.(states := r.states - {sock})
  }

  /** A reply that cannot be written closes the connection. */
  function Reply(r: Registry, sock: Sock, wrote: bool): Registry {
    if wrote then r else Disconnect(r, sock)
  }

  function AddChannel(r: Registry, sock: Sock, dir: Direction, created: bool): Registry {
    var r1 := r.(next := (r.next + 1) % U64);
    if created then r1.(channels := r.channels[sock := ChannelsOf(r, sock) + [Ctx(r.next, dir)]]) else r1
  }

  function Bind(r: Registry, sock: Sock, id: Id, hash: Hash): Registry {
    var i := Find(ChannelsOf(r, sock), id);
    if i == |ChannelsOf(r, sock)| || hash in r.byHash then r
    else r.(byHash := r.byHash[hash := ChannelsOf(r, sock)[i]],
            hashesOf := if id in r.hashesOf then r.hashesOf else r.hashesOf[id := [hash]])
  }

  function DropChannel(r: Registry, sock: Sock, id: Id): Registry {
    var cs := ChannelsOf(r, sock);
    var i := Find(cs, id);
    if i == |cs| then r else r.(channels := r.channels[sock := cs[..i] + cs[i + 1..]])
  }

  function Elements(hashes: seq<Hash>): set<Hash> {
    set h | h in hashes
  }

  function DropHashes(r: Registry, id: Id): Registry {
    if id !in r.hashesOf then r
    else r.(byHash := r.byHash - Elements(r.hashesOf[id]), hashesOf := r.hashesOf - {id})
  }

  /** processCommands */
  function Process(r: Registry, e: Event): Registry
    requires e.Command?
  {
    if e.sock !in r.states then r
    else if e.cmd.Init? then
      if e.cmd.keyword then Reply(r.(states := r.states[e.sock := Inited]), e.sock, e.wrote) else Disconnect(r, e.sock)
    else if r.states[e.sock] != Inited then r
    else
      match e.cmd
      case NewRChan(_, _) => Reply(AddChannel(r, e.sock, Writing, e.created), e.sock, e.wrote)
      case NewWChan(_, _) => Reply(AddChannel(r, e.sock, Reading, e.created), e.sock, e.wrote)
      case BindChan(id, hash) =>
        Reply(Bind(r, e.sock, id, hash), e.sock, e.wrote && (ChannelsOf(r, e.sock) != [] || e.wroteAgain))
      case CloseChan(id) => Reply(DropHashes(DropChannel(r, e.sock, id), id), e.sock, e.wrote)
      case _ => Disconnect(r, e.sock)
  }

  function Step(r: Registry, e: Event): Registry {
    match e
    case Accept(sock) => r.(states := r.states[sock := Connected])
    case Lost(sock) => Disconnect(r, sock)
    case Command(_, _, _, _, _) => Process(r, e)
  }

  /** send: data for this hash is pushed to the channel with this id. */
  predicate RoutesTo(r: Registry, hash: Hash, id: Id) {
    hash in r.byHash && r.byHash[hash] == Ctx(id, Writing)
  }

  // ---------- what every step keeps ----------

  type Channels = map<Sock, seq<Ctx>>

  predicate Registered(channels: Channels, s: Sock, i: nat) {
    s in channels && i < |channels[s]|
  }

  /** Channel ids are distinct and below the index. */
  ghost predicate IdsOk(channels: Channels, next: nat) {
    && (forall s, i: nat | Registered(channels, s, i) :: channels[s][i].id < next)
    && (forall s, i: nat, t, j: nat | Registered(channels, s, i) && Registered(channels, t, j) && (s != t || i != j) ::
          channels[s][i].id != channels[t][j].id)
  }

  /** Every id with hashes has exactly one, and that hash leads back to it. */
  ghost predicate HashesOk(byHash: map<Hash, Ctx>, hashesOf: map<Id, seq<Hash>>, next: nat) {
    && (forall id | id in hashesOf ::
          && |hashesOf[id]| == 1 && hashesOf[id][0] in byHash
          && byHash[hashesOf[id][0]].id == id)
    && (forall h | h in byHash :: byHash[h].id < next)
  }

  ghost predicate Inv(r: Registry) {
    IdsOk(r.channels, r.next) && HashesOk(r.byHash, r.hashesOf, r.next)
  }

  lemma AddChannelKeeps(r: Registry, sock: Sock, dir: Direction, created: bool)
    requires Inv(r) && r.next + 1 < U64
    ensures Inv(AddChannel(r, sock, dir, created)) && AddChannel(r, sock, dir, created).next == r.next + 1
  {
    var r' := AddChannel(r, sock, dir, created);
    forall s, i: nat | Registered(r'.channels, s, i)
      ensures r'.channels[s][i] == Ctx(r.next, dir)
          || (Registered(r.channels, s, i) && r'.channels[s][i] == r.channels[s][i])
      ensures Registered(r.channels, s, i) || (s == sock && i == |ChannelsOf(r, sock)|)
    {
    }
  }

  lemma BindKeeps(r: Registry, sock: Sock, id: Id, hash: Hash)
    requires Inv(r)
    ensures Inv(Bind(r, sock, id, hash)) && Bind(r, sock, id, hash).next == r.next
  {
    var i := Find(ChannelsOf(r, sock), id);
    if i < |ChannelsOf(r, sock)| {
      assert Registered(r.channels, sock, i);
    }
  }

  lemma DropChannelKeeps(r: Registry, sock: Sock, id: Id)
    requires Inv(r)
    ensures Inv(DropChannel(r, sock, id)) && DropChannel(r, sock, id).next == r.next
    ensures forall s, i: nat | Registered(DropChannel(r, sock, id).channels, s, i) ::
              exists j: nat :: Registered(r.channels, s, j)
                  && r.channels[s][j] == DropChannel(r, sock, id).channels[s][i]
  {
    var cs, r' := ChannelsOf(r, sock), DropChannel(r, sock, id);
    var k := Find(cs, id);
    forall s, i: nat | Registered(r'.channels, s, i)
      ensures var j := if s == sock && k < |cs| && i >= k then i + 1 else i;
              Registered(r.channels, s, j) && r.channels[s][j] == r'.channels[s][i]
    {
    }
  }

  lemma DropHashesKeeps(r: Registry, id: Id)
    requires Inv(r)
    ensures Inv(DropHashes(r, id)) && DropHashes(r, id).next == r.next
  {
    var r' := DropHashes(r, id);
    forall k | k in r'.hashesOf
      ensures r'.hashesOf[k][0] in r'.byHash
    {
    }
  }

  lemma StepKeepsInv(r: Registry, e: Event)
    requires Inv(r) && r.next + 1 < U64
    ensures Inv(Step(r, e)) && Step(r, e).next <= r.next + 1
  {
    hide IdsOk, HashesOk, AddChannel, Bind, DropChannel, DropHashes;
    if e.Command? && e.sock in r.states && r.states[e.sock] == Inited {
      match e.cmd
      case NewRChan(_, _) => AddChannelKeeps(r, e.sock, Writing, e.created);
      case NewWChan(_, _) => AddChannelKeeps(r, e.sock, Reading, e.created);
      case BindChan(id, hash) => BindKeeps(r, e.sock, id, hash);
      case CloseChan(id) =>
        DropChannelKeeps(r, e.sock, id);
        DropHashesKeeps(DropChannel(r, e.sock, id), id);
      case _ =>
    }
  }

  ghost predicate NoWrap(r: Registry, es: seq<Event>) {
    r.next + |es| < U64
  }

  function Run(r: Registry, es: seq<Event>): Registry
    decreases |es|
  {
    if es == [] then r else Run(Step(r, es[0]), es[1..])
  }

  /** Over every run of fewer than 2^64 events. */
  lemma {:induction false} RunKeepsInv(r: Registry, es: seq<Event>)
    requires Inv(r) && NoWrap(r, es)
    ensures Inv(Run(r, es))
    decreases |es|
  {
    if es != [] {
      hide Inv, Step;
      StepKeepsInv(r, es[0]);
      RunKeepsInv(Step(r, es[0]), es[1..]);
    }
  }

  // ---------- what one step can change ----------

  predicate FromInited(r: Registry, e: Event) {
    e.Command? && e.sock in r.states && r.states[e.sock] == Inited && !e.cmd.Init?
  }

  /** Only commands of an initialised socket change the maps. */
  lemma OnlyInitedChange(r: Registry, e: Event)
    requires !FromInited(r, e)
    ensures var r' := Step(r, e);
            r'.channels == r.channels && r'.byHash == r.byHash && r'.hashesOf == r.hashesOf && r'.next == r.next
  {
  }

  /** A bound hash keeps its channel until that channel is closed: it is gone only after a CloseChan
      of an initialised socket for exactly the id under which the hash is listed. */
  lemma BoundHashStays(r: Registry, e: Event, h: Hash)
    requires Inv(r) && h in r.byHash
    ensures h in Step(r, e).byHash ==> Step(r, e).byHash[h] == r.byHash[h]
    ensures h !in Step(r, e).byHash <==>
              FromInited(r, e) && e.cmd.CloseChan? && e.cmd.id in r.hashesOf && r.hashesOf[e.cmd.id] == [h]
  {
    hide IdsOk, Find, ChannelsOf;
    if FromInited(r, e) && e.cmd.CloseChan? && e.cmd.id in r.hashesOf {
      assert r.hashesOf[e.cmd.id] == [r.hashesOf[e.cmd.id][0]];
    }
  }

  lemma StatesKept(r: Registry, sock: Sock, dir: Direction, created: bool, id: Id, hash: Hash)
    ensures AddChannel(r, sock, dir, created).states == r.states
    ensures Bind(r, sock, id, hash).states == r.states
    ensures DropHashes(DropChannel(r, sock, id), id).states == r.states
  {
    hide Find, Elements;
  }

  // ---------- exact inverses ----------

  /** Every bound hash is the one listed under the id of its channel. */
  ghost predicate Inverse(r: Registry) {
    forall h | h in r.byHash :: r.byHash[h].id in r.hashesOf && r.hashesOf[r.byHash[h].id] == [h]
  }

  /** The step binds one more hash to a channel that has one already. */
  predicate Rebinds(r: Registry, e: Event) {
    && FromInited(r, e) && e.cmd.BindChan?
    && Find(ChannelsOf(r, e.sock), e.cmd.id) < |ChannelsOf(r, e.sock)|
    && e.cmd.hash !in r.byHash
    && e.cmd.id in r.hashesOf
  }

  lemma DropHashesInverse(r: Registry, id: Id)
    requires Inv(r) && Inverse(r)
    ensures Inverse(DropHashes(r, id))
    ensures forall h | h in DropHashes(r, id).byHash :: DropHashes(r, id).byHash[h].id != id
  {
    var r' := DropHashes(r, id);
    forall h | h in r'.byHash
      ensures r'.byHash[h].id != id
    {
      assert h in r.byHash;
    }
  }

  lemma BindInverse(r: Registry, sock: Sock, id: Id, hash: Hash)
    requires Inv(r) && Inverse(r)
    ensures Inverse(Bind(r, sock, id, hash))
       <==> !(Find(ChannelsOf(r, sock), id) < |ChannelsOf(r, sock)| && hash !in r.byHash && id in r.hashesOf)
  {
    var r' := Bind(r, sock, id, hash);
    if Find(ChannelsOf(r, sock), id) < |ChannelsOf(r, sock)| && hash !in r.byHash {
      if id in r.hashesOf {
        assert r'.byHash[hash].id == id && r.hashesOf[id][0] != hash;
      } else {
        forall h | h in r'.byHash
          ensures r'.byHash[h].id in r'.hashesOf && r'.hashesOf[r'.byHash[h].id] == [h]
        {
          assert h != hash ==> h in r.byHash && r.byHash[h].id != id;
        }
      }
    }
  }

  /** The two hash maps stay exact inverses through a step exactly when it does not rebind. */
  lemma InverseKept(r: Registry, e: Event)
    requires Inv(r) && Inverse(r)
    ensures Inverse(Step(r, e)) <==> !Rebinds(r, e)
  {
    if FromInited(r, e) && e.cmd.CloseChan? {
      DropChannelKeeps(r, e.sock, e.cmd.id);
      DropHashesInverse(DropChannel(r, e.sock, e.cmd.id), e.cmd.id);
    } else if FromInited(r, e) && e.cmd.BindChan? {
      BindInverse(r, e.sock, e.cmd.id, e.cmd.hash);
    }
    hide Inv, Bind, DropHashes;
  }

  /** No hash leads to the id any more after closeChan, exactly when every hash that led to it was the
      one listed under it. */
  lemma CloseUnbinds(r: Registry, e: Event)
    requires Inv(r) && FromInited(r, e) && e.cmd.CloseChan?
    ensures (forall h | h in Step(r, e).byHash :: Step(r, e).byHash[h].id != e.cmd.id)
       <==> (forall h | h in r.byHash && r.byHash[h].id == e.cmd.id ::
               e.cmd.id in r.hashesOf && r.hashesOf[e.cmd.id] == [h])
  {
    hide IdsOk, Find, ChannelsOf;
    var id, r' := e.cmd.id, Step(r, e);
    if id in r.hashesOf {
      assert r.hashesOf[id] == [r.hashesOf[id][0]];
    }
    forall h
      ensures h in r'.byHash <==> h in r.byHash && !(id in r.hashesOf && r.hashesOf[id] == [h])
      ensures h in r'.byHash ==> r'.byHash[h] == r.byHash[h]
    {
      if h in r.byHash { BoundHashStays(r, e, h); }
    }
  }

  /** Without rebinding, every bound hash leads to a channel that is still open. */
  ghost predicate Live(r: Registry) {
    forall h | h in r.byHash :: IsOpen(r.channels, r.byHash[h])
  }

  ghost predicate IsOpen(channels: Channels, c: Ctx) {
    exists s, i: nat :: Registered(channels, s, i) && channels[s][i] == c
  }

  lemma DropKeepsOpen(r: Registry, sock: Sock, id: Id, c: Ctx)
    requires IsOpen(r.channels, c) && id != c.id
    ensures IsOpen(DropChannel(r, sock, id).channels, c)
  {
    var s, i: nat :| Registered(r.channels, s, i) && r.channels[s][i] == c;
    var cs, r' := ChannelsOf(r, sock), DropChannel(r, sock, id);
    var k := Find(cs, id);
    var j := if s == sock && k < i then i - 1 else i;
    assert Registered(r'.channels, s, j) && r'.channels[s][j] == c;
  }

  lemma AddKeepsOpen(r: Registry, sock: Sock, dir: Direction, created: bool, c: Ctx)
    requires IsOpen(r.channels, c)
    ensures IsOpen(AddChannel(r, sock, dir, created).channels, c)
  {
    var s, i: nat :| Registered(r.channels, s, i) && r.channels[s][i] == c;
    var r' := AddChannel(r, sock, dir, created);
    assert Registered(r'.channels, s, i) && r'.channels[s][i] == c;
  }

  lemma StaysOpen(r: Registry, e: Event, c: Ctx)
    requires IsOpen(r.channels, c) && (FromInited(r, e) && e.cmd.CloseChan? ==> e.cmd.id != c.id)
    ensures IsOpen(Step(r, e).channels, c)
  {
    hide IsOpen, AddChannel, DropChannel;
    if FromInited(r, e) {
      match e.cmd
      case NewRChan(_, _) => AddKeepsOpen(r, e.sock, Writing, e.created, c);
      case NewWChan(_, _) => AddKeepsOpen(r, e.sock, Reading, e.created, c);
      case CloseChan(id) => DropKeepsOpen(r, e.sock, id, c);
      case _ =>
    }
  }

  lemma LiveKept(r: Registry, e: Event)
    requires Inv(r) && Inverse(r) && Live(r)
    ensures Live(Step(r, e))
  {
    var r' := Step(r, e);
    forall h | h in r'.byHash
      ensures IsOpen(r'.channels, r'.byHash[h])
    {
      if h in r.byHash {
        BoundHashStays(r, e, h);
        StaysOpen(r, e, r.byHash[h]);
      } else {
        NewlyBoundIsOpen(r, e, h);
      }
    }
  }

  lemma NewlyBoundIsOpen(r: Registry, e: Event, h: Hash)
    requires h !in r.byHash && h in Step(r, e).byHash
    ensures IsOpen(Step(r, e).channels, Step(r, e).byHash[h])
  {
    var cs := ChannelsOf(r, e.sock);
    var i := Find(cs, e.cmd.id);
    assert Registered(r.channels, e.sock, i) && r.channels[e.sock][i] == Step(r, e).byHash[h];
  }

  ghost predicate NeverRebinds(r: Registry, es: seq<Event>)
    decreases |es|
  {
    es == [] || (!Rebinds(r, es[0]) && NeverRebinds(Step(r, es[0]), es[1..]))
  }

  lemma {:induction false} RunWithoutRebinding(r: Registry, es: seq<Event>)
    requires Inv(r) && NoWrap(r, es) && Inverse(r) && Live(r) && NeverRebinds(r, es)
    ensures Inv(Run(r, es)) && Inverse(Run(r, es)) && Live(Run(r, es))
    decreases |es|
  {
    if es != [] {
      hide Inv, Inverse, Live, Step, Rebinds;
      StepKeepsInv(r, es[0]);
      InverseKept(r, es[0]);
      LiveKept(r, es[0]);
      RunWithoutRebinding(Step(r, es[0]), es[1..]);
    }
  }

  /** From the empty registry, over every run of fewer than 2^64 events: ids are distinct and below the
      index, and every id's single hash leads back to it. If moreover no channel that has a hash is
      bound again, the hash maps are exact inverses, and send pushes to open channels only. */
  lemma RegistryConsistent(es: seq<Event>)
    requires |es| < U64
    ensures Inv(Run(EMPTY, es))
    ensures NeverRebinds(EMPTY, es) ==>
              && Inverse(Run(EMPTY, es)) && Live(Run(EMPTY, es))
              && forall h, id | RoutesTo(Run(EMPTY, es), h, id) :: IsOpen(Run(EMPTY, es).channels, Ctx(id, Writing))
  {
    hide IsOpen;
    RunKeepsInv(EMPTY, es);
    if NeverRebinds(EMPTY, es) {
      RunWithoutRebinding(EMPTY, es);
    }
  }

  /** Rebinding does harm: a client binds two hashes to its channel and closes it, and the second hash
      still leads to the channel that is gone. */
  lemma RebindingLeavesAHash(s: Sock, h1: Hash, h2: Hash)
    requires h1 != h2
    ensures var es := [Accept(s), Command(s, Init(true), true, true, true),
        Command(s, NewRChan(0, []), true, true, true),
                       Command(s, BindChan(0, h1), true, true, true), Command(s, BindChan(0, h2), true, true, true),
                       Command(s, CloseChan(0), true, true, true)];
            var r := Run(EMPTY, es);
            r.byHash == map[h2 := Ctx(0, Writing)] && !IsOpen(r.channels, Ctx(0, Writing)) && RoutesTo(r, h2, 0)
  {
    var e1, e2, e3 := Accept(s), Command(s, Init(true), true, true, true),
        Command(s, NewRChan(0, []), true, true, true);
    var e4, e5 := Command(s, BindChan(0, h1), true, true, true), Command(s, BindChan(0, h2), true, true, true);
    var e6 := Command(s, CloseChan(0), true, true, true);
    var c := Ctx(0, Writing);
    var r3 := Registry(map[s := [c]], map[], map[], map[s := Inited], 1);
    var r5 := Registry(map[s := [c]], map[h1 := c, h2 := c], map[0 := [h1]], map[s := Inited], 1);
    var r6 := Registry(map[s := []], map[h2 := c], map[], map[s := Inited], 1);
    var r1 := Registry(map[], map[], map[], map[s := Connected], 0);
    assert Step(EMPTY, e1) == r1;
    assert Step(r1, e2) == r1.(states := map[s := Inited]);
    assert ChannelsOf(r1, s) + [c] == [c];
    assert Step(Step(r1, e2), e3) == r3;
    assert Step(r3, e4) == r3.(byHash := map[h1 := c], hashesOf := map[0 := [h1]]);
    assert Step(Step(r3, e4), e5) == r5;
    assert Step(r5, e6) == r6;
    RunSix(EMPTY, e1, e2, e3, e4, e5, e6);
  }

  lemma {:induction false} RunSnoc(r: Registry, es: seq<Event>, e: Event)
    ensures Run(r, es + [e]) == Step(Run(r, es), e)
    decreases |es|
  {
    hide Step;
    if es == [] {
      assert [e][1..] == [] && es + [e] == [e];
    } else {
      assert (es + [e])[1..] == es[1..] + [e];
      RunSnoc(Step(r, es[0]), es[1..], e);
    }
  }

  lemma RunCons(r: Registry, e: Event, es: seq<Event>)
    ensures Run(r, [e] + es) == Run(Step(r, e), es)
  {
    assert ([e] + es)[1..] == es;
  }

  lemma RunSix(r: Registry, e1: Event, e2: Event, e3: Event, e4: Event, e5: Event, e6: Event)
    ensures Run(r, [e1, e2, e3, e4, e5, e6]) == Step(Step(Step(Step(Step(Step(r, e1), e2), e3), e4), e5), e6)
  {
    hide Step, Run;
    var r1 := Step(r, e1);
    var r2 := Step(r1, e2);
    var r3 := Step(r2, e3);
    var r4 := Step(r3, e4);
    RunCons(r, e1, [e2, e3, e4, e5, e6]);
    RunCons(r1, e2, [e3, e4, e5, e6]);
    RunCons(r2, e3, [e4, e5, e6]);
    RunCons(r3, e4, [e5, e6]);
    RunCons(r4, e5, [e6]);
    RunCons(Step(r4, e5), e6, []);
    RunNothing(Step(Step(r4, e5), e6));
    assert [e1] + [e2, e3, e4, e5, e6] == [e1, e2, e3, e4, e5, e6] && [e2] + [e3, e4, e5, e6] == [e2, e3, e4, e5, e6];
    assert [e3] + [e4, e5, e6] == [e3, e4, e5, e6] && [e4] + [e5, e6] == [e4, e5, e6] && [e5] + [e6] == [e5, e6];
    assert [e6] + [] == [e6];
  }

  lemma RunNothing(r: Registry)
    ensures Run(r, []) == r
  {
  }
}
