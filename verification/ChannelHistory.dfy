/** The registry read off the history of events that led to it: who is initialised, which channels are
    open, and where the data for a hash goes. */
module ChannelHistory {
  import opened Bytes
  import opened ChannelRegistry

  /** The registry before event k. */
  function At(es: seq<Event>, k: nat): Registry
    requires k <= |es|
  {
    Run(EMPTY, es[..k])
  }

  lemma AtSnoc(es: seq<Event>, e: Event)
    ensures Run(EMPTY, es + [e]) == Step(Run(EMPTY, es), e)
    ensures forall k: nat | k <= |es| :: At(es + [e], k) == At(es, k)
    ensures At(es, |es|) == Run(EMPTY, es)
  {
    RunSnoc(EMPTY, es, e);
    assert es[..|es|] == es;
    forall k: nat | k <= |es|
      ensures At(es + [e], k) == At(es, k)
    {
      assert (es + [e])[..k] == es[..k];
    }
  }

  // ---------- who is initialised ----------

  predicate IsInited(r: Registry, s: Sock) {
    s in r.states && r.states[s] == Inited
  }

  /** The socket has sent the keyword, and the answer could be written. */
  predicate Greets(e: Event, s: Sock) {
    e.Command? && e.sock == s && e.cmd == Init(true) && e.wrote
  }

  /** The event ends what a greeting has begun: the connection is lost or a new one, or one of its own
      commands closes it, because it is not understood, or because an answer cannot be written. */
  predicate Resets(r: Registry, e: Event, s: Sock) {
    e.sock == s &&
    match e
    case Accept(_) => true
    case Lost(_) => true
    case Command(_, cmd, _, wrote, wroteAgain) =>
      match cmd
      case Init(keyword) => !(keyword && wrote)
      case BindChan(_, _) => !wrote || (ChannelsOf(r, s) == [] && !wroteAgain)
      case Unsupported => true
      case _ => !wrote
  }

  lemma InitedStep(r: Registry, e: Event, s: Sock)
    ensures IsInited(Step(r, e), s)
       <==> (Greets(e, s) && s in r.states) || (IsInited(r, s) && !Resets(r, e, s))
  {
    hide AddChannel, Bind, DropChannel, DropHashes, ChannelsOf;
    if e.Command? {
      match e.cmd
      case NewRChan(_, _) => StatesKept(r, e.sock, Writing, e.created, 0, 0);
      case NewWChan(_, _) => StatesKept(r, e.sock, Reading, e.created, 0, 0);
      case BindChan(id, hash) => StatesKept(r, e.sock, Writing, true, id, hash);
      case CloseChan(id) => StatesKept(r, e.sock, Writing, true, id, 0);
      case _ =>
    }
  }

  ghost predicate GreetedAt(es: seq<Event>, s: Sock, k: nat) {
    && k < |es| && Greets(es[k], s) && s in At(es, k).states
    && forall j: nat | k < j < |es| :: !Resets(At(es, j), es[j], s)
  }

  lemma GreetedSnoc(es: seq<Event>, e: Event, s: Sock, k: nat)
    requires k < |es|
    ensures GreetedAt(es + [e], s, k) <==> GreetedAt(es, s, k) && !Resets(Run(EMPTY, es), e, s)
  {
    AtSnoc(es, e);
    hide At, Resets, Greets;
    assert forall j: nat | j < |es| :: (es + [e])[j] == es[j];
    assert (es + [e])[|es|] == e;
  }

  lemma GreetedLast(es: seq<Event>, e: Event, s: Sock)
    ensures GreetedAt(es + [e], s, |es|) <==> Greets(e, s) && s in Run(EMPTY, es).states
  {
    AtSnoc(es, e);
    hide At, Resets, Greets;
  }

  /** Main result: over every run a socket is initialised exactly if it has sent the keyword on this
      connection, and nothing has ended that since. */
  lemma {:induction false} InitedExactly(es: seq<Event>, s: Sock)
    ensures IsInited(Run(EMPTY, es), s) <==> exists k: nat :: GreetedAt(es, s, k)
    decreases |es|
  {
    if es == [] {
    } else {
      var pre, e := es[..|es| - 1], es[|es| - 1];
      assert es == pre + [e];
      hide Run, Step, Resets, Greets, IsInited;
      InitedExactly(pre, s);
      AtSnoc(pre, e);
      InitedStep(Run(EMPTY, pre), e, s);
      GreetedLast(pre, e, s);
      hide At;
      forall k: nat | k < |pre|
        ensures GreetedAt(es, s, k) <==> GreetedAt(pre, s, k) && !Resets(Run(EMPTY, pre), e, s)
      {
        GreetedSnoc(pre, e, s, k);
      }
      GreetedBounds(pre, es, s);
      hide GreetedAt;
    }
  }

  lemma GreetedBounds(pre: seq<Event>, es: seq<Event>, s: Sock)
    requires |es| == |pre| + 1
    ensures forall k: nat :: GreetedAt(pre, s, k) ==> k < |pre|
    ensures forall k: nat :: GreetedAt(es, s, k) ==> k < |pre| || k == |pre|
  {
    hide At, Resets, Greets;
  }

  // ---------- which channels are open ----------

  /** Event k is a command that the server carries out. */
  predicate Served(es: seq<Event>, k: nat) {
    k < |es| && FromInited(At(es, k), es[k])
  }

  predicate IsNew(c: Cmd) {
    c.NewRChan? || c.NewWChan?
  }

  /** How many channels have been asked for before event n. */
  function NewsBefore(es: seq<Event>, n: nat): nat
    requires n <= |es|
  {
    if n == 0 then 0
    else NewsBefore(es, n - 1) + if Served(es, n - 1) && IsNew(es[n - 1].cmd) then 1 else 0
  }

  /** Event k opens the channel c for the socket: a channel that the client reads is written by the server,
      and the other way round; its id is the number of channels asked for before. */
  predicate Opens(es: seq<Event>, k: nat, s: Sock, c: Ctx) {
    && Served(es, k) && es[k].sock == s && es[k].created && c.id == NewsBefore(es, k)
    && ((es[k].cmd.NewRChan? && c.dir == Writing) || (es[k].cmd.NewWChan? && c.dir == Reading))
  }

  /** Event k is the socket's own command to close the id. */
  predicate Closes(es: seq<Event>, k: nat, s: Sock, id: Id) {
    Served(es, k) && es[k].sock == s && es[k].cmd == CloseChan(id)
  }

  predicate Opened(r: Registry, e: Event, s: Sock, c: Ctx) {
    && FromInited(r, e) && e.sock == s && e.created && c.id == r.next
    && ((e.cmd.NewRChan? && c.dir == Writing) || (e.cmd.NewWChan? && c.dir == Reading))
  }

  predicate Closed(r: Registry, e: Event, s: Sock, id: Id) {
    FromInited(r, e) && e.sock == s && e.cmd == CloseChan(id)
  }

  lemma ReplyKeepsChannels(r: Registry, sock: Sock, wrote: bool)
    ensures Reply(r, sock, wrote).channels == r.channels
    ensures Reply(r, sock, wrote).byHash == r.byHash && Reply(r, sock, wrote).hashesOf == r.hashesOf
    ensures Reply(r, sock, wrote).next == r.next
  {
  }

  lemma AddedChannel(r: Registry, sock: Sock, dir: Direction, created: bool, s: Sock, c: Ctx)
    ensures c in ChannelsOf(AddChannel(r, sock, dir, created), s)
       <==> c in ChannelsOf(r, s) || (created && s == sock && c == Ctx(r.next, dir))
  {
  }

  lemma Without(cs: seq<Ctx>, k: nat, c: Ctx)
    requires k < |cs| && forall i: nat | i < |cs| && i != k :: cs[i].id != cs[k].id
    ensures c in cs[..k] + cs[k + 1..] <==> c in cs && c.id != cs[k].id
  {
    var left := cs[..k] + cs[k + 1..];
    if c in cs && c.id != cs[k].id {
      var i: nat :| i < |cs| && cs[i] == c;
      assert left[if i < k then i else i - 1] == c;
    }
    if c in left {
      var i: nat :| i < |left| && left[i] == c;
      assert cs[if i < k then i else i + 1] == c;
    }
  }

  lemma IdsDiffer(r: Registry, sock: Sock, i: nat, k: nat)
    requires Inv(r) && i < |ChannelsOf(r, sock)| && k < |ChannelsOf(r, sock)| && i != k
    ensures ChannelsOf(r, sock)[i].id != ChannelsOf(r, sock)[k].id
  {
    assert Registered(r.channels, sock, i) && Registered(r.channels, sock, k);
  }

  lemma DroppedList(r: Registry, sock: Sock, id: Id)
    ensures var cs, k := ChannelsOf(r, sock), Find(ChannelsOf(r, sock), id);
            ChannelsOf(DropHashes(DropChannel(r, sock, id), id), sock)
            == if k == |cs| then cs else cs[..k] + cs[k + 1..]
    ensures forall s | s != sock :: ChannelsOf(DropHashes(DropChannel(r, sock, id), id), s) == ChannelsOf(r, s)
  {
    hide Find, Elements;
  }

  lemma DroppedChannel(r: Registry, sock: Sock, id: Id, s: Sock, c: Ctx)
    requires Inv(r)
    ensures c in ChannelsOf(DropHashes(DropChannel(r, sock, id), id), s)
       <==> c in ChannelsOf(r, s) && !(s == sock && c.id == id)
  {
    hide *;
    DroppedList(r, sock, id);
    var cs := ChannelsOf(r, sock);
    var k := Find(cs, id);
    if k < |cs| {
      forall i: nat | i < |cs| && i != k
        ensures cs[i].id != cs[k].id
      {
        IdsDiffer(r, sock, i, k);
      }
      Without(cs, k, c);
    }
  }

  lemma ChannelsStep(r: Registry, e: Event, s: Sock, c: Ctx)
    requires Inv(r)
    ensures c in ChannelsOf(Step(r, e), s)
       <==> (c in ChannelsOf(r, s) && !Closed(r, e, s, c.id)) || Opened(r, e, s, c)
  {
    hide Inv, AddChannel, Bind, DropChannel, DropHashes;
    if FromInited(r, e) {
      match e.cmd
      case NewRChan(_, _) => AddedChannel(r, e.sock, Writing, e.created, s, c);
      case NewWChan(_, _) => AddedChannel(r, e.sock, Reading, e.created, s, c);
      case BindChan(id, hash) => BindChannels(r, e.sock, id, hash);
      case CloseChan(id) => DroppedChannel(r, e.sock, id, s, c);
      case _ =>
    }
  }

  lemma BindChannels(r: Registry, sock: Sock, id: Id, hash: Hash)
    ensures Bind(r, sock, id, hash).channels == r.channels
  {
  }

  lemma NextKept(r: Registry, sock: Sock, id: Id, hash: Hash)
    ensures Bind(r, sock, id, hash).next == r.next
    ensures DropHashes(DropChannel(r, sock, id), id).next == r.next
  {
    hide Find, ChannelsOf, Elements;
  }

  lemma NextAdded(r: Registry, sock: Sock, dir: Direction, created: bool)
    requires r.next + 1 < U64
    ensures AddChannel(r, sock, dir, created).next == r.next + 1
  {
  }

  lemma NextStep(r: Registry, e: Event)
    requires r.next + 1 < U64
    ensures Step(r, e).next == r.next + if FromInited(r, e) && IsNew(e.cmd) then 1 else 0
  {
    hide AddChannel, Bind, DropChannel, DropHashes, ChannelsOf;
    if FromInited(r, e) {
      match e.cmd
      case NewRChan(_, _) => NextAdded(r, e.sock, Writing, e.created);
      case NewWChan(_, _) => NextAdded(r, e.sock, Reading, e.created);
      case BindChan(id, hash) => NextKept(r, e.sock, id, hash);
      case CloseChan(id) => NextKept(r, e.sock, id, 0);
      case _ =>
    }
  }

  lemma ServedSnoc(es: seq<Event>, e: Event, k: nat)
    ensures k < |es| ==> (Served(es + [e], k) <==> Served(es, k)) && (es + [e])[k] == es[k]
    ensures Served(es + [e], |es|) <==> FromInited(Run(EMPTY, es), e)
    ensures (es + [e])[|es|] == e
  {
    AtSnoc(es, e);
    hide At, FromInited;
  }

  lemma {:induction false} NewsSnoc(es: seq<Event>, e: Event, n: nat)
    requires n <= |es|
    ensures NewsBefore(es + [e], n) == NewsBefore(es, n)
  {
    if n > 0 {
      NewsSnoc(es, e, n - 1);
      ServedSnoc(es, e, n - 1);
      hide Served;
    }
  }

  lemma {:induction false} NextIsNews(es: seq<Event>)
    requires |es| < U64
    ensures Run(EMPTY, es).next == NewsBefore(es, |es|) <= |es|
    decreases |es|
  {
    if es != [] {
      var pre, e := es[..|es| - 1], es[|es| - 1];
      assert es == pre + [e];
      hide Run, Step, Served, FromInited;
      NextIsNews(pre);
      AtSnoc(pre, e);
      ServedSnoc(pre, e, 0);
      NewsSnoc(pre, e, |pre|);
      NextStep(Run(EMPTY, pre), e);
    }
  }

  /** Event k has opened the channel, and the socket has not asked to close it since. */
  ghost predicate OpenSince(es: seq<Event>, s: Sock, c: Ctx, k: nat) {
    Opens(es, k, s, c) && forall j: nat | k < j < |es| :: !Closes(es, j, s, c.id)
  }

  lemma OpenSnoc(es: seq<Event>, e: Event, s: Sock, c: Ctx, k: nat)
    requires k < |es|
    ensures OpenSince(es + [e], s, c, k) <==> OpenSince(es, s, c, k) && !Closed(Run(EMPTY, es), e, s, c.id)
  {
    var all := es + [e];
    NewsSnoc(es, e, k);
    ServedSnoc(es, e, k);
    assert Opens(all, k, s, c) <==> Opens(es, k, s, c);
    assert Closes(all, |es|, s, c.id) <==> Closed(Run(EMPTY, es), e, s, c.id);
    hide Served, Run, Opens, Closed, NewsBefore, FromInited;
    forall j: nat | j < |es|
      ensures Closes(all, j, s, c.id) <==> Closes(es, j, s, c.id)
    {
      ServedSnoc(es, e, j);
    }
    hide Closes;
  }

  lemma OpenLast(es: seq<Event>, e: Event, s: Sock, c: Ctx)
    requires |es| < U64
    ensures OpenSince(es + [e], s, c, |es|) <==> Opened(Run(EMPTY, es), e, s, c)
  {
    NextIsNews(es);
    NewsSnoc(es, e, |es|);
    ServedSnoc(es, e, 0);
    hide Served, Run, NewsBefore, FromInited, Closes;
  }

  lemma OpenBounds(pre: seq<Event>, es: seq<Event>, s: Sock, c: Ctx)
    requires |es| == |pre| + 1
    ensures forall k: nat :: OpenSince(pre, s, c, k) ==> k < |pre|
    ensures forall k: nat :: OpenSince(es, s, c, k) ==> k < |pre| || k == |pre|
  {
    hide At, Closes, FromInited, NewsBefore;
  }

  lemma NothingOpen(s: Sock, c: Ctx)
    ensures c !in ChannelsOf(Run(EMPTY, []), s)
    ensures forall k: nat :: !OpenSince([], s, c, k)
  {
    hide At, FromInited, NewsBefore;
  }

  /** Main result: over every run of fewer than 2^64 events a socket has a channel exactly if a command of
      its own has opened it, while initialised, and none has closed it since. */
  lemma {:induction false} ChannelsExactly(es: seq<Event>, s: Sock, c: Ctx)
    requires |es| < U64
    ensures c in ChannelsOf(Run(EMPTY, es), s) <==> exists k: nat :: OpenSince(es, s, c, k)
    decreases |es|
  {
    hide *;
    if es == [] {
      NothingOpen(s, c);
    } else {
      var pre, e := es[..|es| - 1], es[|es| - 1];
      assert es == pre + [e];
      ChannelsExactly(pre, s, c);
      InvAfter(pre);
      AtSnoc(pre, e);
      ChannelsStep(Run(EMPTY, pre), e, s, c);
      OpenLast(pre, e, s, c);
      forall k: nat | k < |pre|
        ensures OpenSince(es, s, c, k) <==> OpenSince(pre, s, c, k) && !Closed(Run(EMPTY, pre), e, s, c.id)
      {
        OpenSnoc(pre, e, s, c, k);
      }
      OpenBounds(pre, es, s, c);
    }
  }

  lemma InvAfter(es: seq<Event>)
    requires |es| < U64
    ensures Inv(Run(EMPTY, es))
  {
    RunKeepsInv(EMPTY, es);
    hide Run;
  }

  // ---------- where data goes ----------

  /** Event j binds the hash to the id, for the socket. */
  predicate Binds(es: seq<Event>, j: nat, s: Sock, id: Id, h: Hash) {
    Served(es, j) && es[j].sock == s && es[j].cmd == BindChan(id, h)
  }

  /** Before event j the socket has the channel that event k opened, and event j binds the hash to it. */
  ghost predicate BoundBy(es: seq<Event>, h: Hash, c: Ctx, s: Sock, k: nat, j: nat) {
    k < j < |es| && OpenSince(es[..j], s, c, k) && Binds(es, j, s, c.id, h)
  }

  lemma BoundSnoc(es: seq<Event>, e: Event, h: Hash, c: Ctx, s: Sock, k: nat, j: nat)
    requires BoundBy(es, h, c, s, k, j)
    ensures BoundBy(es + [e], h, c, s, k, j)
  {
    ServedSnoc(es, e, j);
    assert (es + [e])[..j] == es[..j];
    hide Served, OpenSince;
  }

  lemma BoundByBind(r: Registry, sock: Sock, id: Id, hash: Hash, h: Hash)
    requires h !in r.byHash
    ensures var r' := Bind(r, sock, id, hash);
            h in r'.byHash ==> h == hash && r'.byHash[h].id == id && r'.byHash[h] in ChannelsOf(r, sock)
  {
  }

  lemma HashesKept(r: Registry, sock: Sock, dir: Direction, created: bool, id: Id, h: Hash)
    ensures AddChannel(r, sock, dir, created).byHash == r.byHash
    ensures h in DropHashes(DropChannel(r, sock, id), id).byHash ==> h in r.byHash
  {
  }

  lemma BindStep(r: Registry, e: Event, h: Hash)
    requires h !in r.byHash && h in Step(r, e).byHash
    ensures FromInited(r, e) && e.cmd.BindChan? && e.cmd.hash == h
    ensures var c := Step(r, e).byHash[h]; c.id == e.cmd.id && c in ChannelsOf(r, e.sock)
  {
    hide AddChannel, Bind, DropChannel, DropHashes, ChannelsOf;
    if FromInited(r, e) {
      match e.cmd
      case NewRChan(_, _) => HashesKept(r, e.sock, Writing, e.created, 0, h);
      case NewWChan(_, _) => HashesKept(r, e.sock, Reading, e.created, 0, h);
      case BindChan(id, hash) => BoundByBind(r, e.sock, id, hash, h);
      case CloseChan(id) => HashesKept(r, e.sock, Writing, true, id, h);
      case _ =>
    }
  }

  /** Main result: over every run a hash leads to a channel only because the socket that has opened the
      channel, and not closed it, bound the hash to its id. */
  lemma {:induction false} HashesLeadBack(es: seq<Event>, h: Hash) returns (s: Sock, k: nat, j: nat)
    requires |es| < U64 && h in Run(EMPTY, es).byHash
    ensures BoundBy(es, h, Run(EMPTY, es).byHash[h], s, k, j)
    decreases |es|
  {
    assert es != [] by { NothingBound(h); }
    hide *;
    var pre, e := es[..|es| - 1], es[|es| - 1];
    assert es == pre + [e] && es[..|pre|] == pre;
    AtSnoc(pre, e);
    var r := Run(EMPTY, pre);
    InvAfter(pre);
    if h in r.byHash {
      BoundHashStays(r, e, h);
      s, k, j := HashesLeadBack(pre, h);
      BoundSnoc(pre, e, h, r.byHash[h], s, k, j);
    } else {
      BindStep(r, e, h);
      s, j := e.sock, |pre|;
      var c := Step(r, e).byHash[h];
      ChannelsExactly(pre, s, c);
      k :| OpenSince(pre, s, c, k);
      OpenBounds(pre, es, s, c);
      BoundLast(pre, e, h, c, k);
    }
  }

  lemma NothingBound(h: Hash)
    ensures h !in Run(EMPTY, []).byHash
  {
  }

  lemma BoundLast(es: seq<Event>, e: Event, h: Hash, c: Ctx, k: nat)
    requires k < |es| && OpenSince(es, e.sock, c, k) && FromInited(Run(EMPTY, es), e) && e.cmd == BindChan(c.id, h)
    ensures BoundBy(es + [e], h, c, e.sock, k, |es|)
  {
    ServedSnoc(es, e, 0);
    assert (es + [e])[..|es|] == es;
    hide Served, OpenSince;
  }

  lemma BindsTo(r: Registry, e: Event, c: Ctx)
    requires Inv(r) && FromInited(r, e) && e.cmd.BindChan? && e.cmd.id == c.id && e.cmd.hash !in r.byHash
    requires c in ChannelsOf(r, e.sock)
    ensures e.cmd.hash in Step(r, e).byHash && Step(r, e).byHash[e.cmd.hash] == c
  {
    var cs := ChannelsOf(r, e.sock);
    var i: nat :| i < |cs| && cs[i] == c;
    var k := Find(cs, c.id);
    assert Registered(r.channels, e.sock, i) && Registered(r.channels, e.sock, k);
    assert cs[k] == c;
  }

  /** The socket has the channel, binds a free hash to it, and nobody closes the id since. */
  ghost predicate Bound(es: seq<Event>, h: Hash, c: Ctx, s: Sock, j: nat) {
    && Binds(es, j, s, c.id, h) && c in ChannelsOf(At(es, j), s) && h !in At(es, j).byHash
    && forall i: nat | j < i < |es| && Served(es, i) :: es[i].cmd != CloseChan(c.id)
  }

  lemma BoundBefore(es: seq<Event>, e: Event, h: Hash, c: Ctx, s: Sock, j: nat)
    requires Bound(es + [e], h, c, s, j) && j < |es|
    ensures Bound(es, h, c, s, j)
    ensures FromInited(Run(EMPTY, es), e) ==> e.cmd != CloseChan(c.id)
  {
    var all := es + [e];
    AtSnoc(es, e);
    ServedSnoc(es, e, j);
    hide At, Run;
    forall i: nat | j < i < |es| && Served(es, i)
      ensures es[i].cmd != CloseChan(c.id)
    {
      ServedSnoc(es, e, i);
      assert Served(all, i);
    }
  }

  /** And such a hash does lead there. */
  lemma {:induction false} BoundHashLeads(es: seq<Event>, h: Hash, c: Ctx, s: Sock, j: nat)
    requires |es| < U64 && Bound(es, h, c, s, j)
    ensures h in Run(EMPTY, es).byHash && Run(EMPTY, es).byHash[h] == c
    decreases |es|
  {
    assert j < |es|;
    var pre, e := es[..|es| - 1], es[|es| - 1];
    assert es == pre + [e];
    InvAfter(pre);
    AtSnoc(pre, e);
    var r := Run(EMPTY, pre);
    if j < |pre| {
      hide *;
      BoundBefore(pre, e, h, c, s, j);
      BoundHashLeads(pre, h, c, s, j);
      NotUnbound(r, e, h, c);
    } else {
      ServedSnoc(pre, e, 0);
      hide Run, Step, Inv, FromInited;
      BindsTo(r, e, c);
    }
  }

  lemma NotUnbound(r: Registry, e: Event, h: Hash, c: Ctx)
    requires Inv(r) && h in r.byHash && r.byHash[h] == c && (FromInited(r, e) ==> e.cmd != CloseChan(c.id))
    ensures h in Step(r, e).byHash && Step(r, e).byHash[h] == c
  {
    BoundHashStays(r, e, h);
    hide Step, IdsOk;
  }

  /** Main result: data for a hash goes to a channel only if some socket asked for it with SS_NEWRCHAN and
      bound the hash to it; and it does go there from then on until somebody closes the channel's id. */
  lemma RoutesAsAsked(es: seq<Event>, h: Hash, id: Id)
    requires |es| < U64
    ensures RoutesTo(Run(EMPTY, es), h, id) ==> exists s, k: nat, j: nat :: BoundBy(es, h, Ctx(id, Writing), s, k, j)
    ensures (exists s, j: nat :: Bound(es, h, Ctx(id, Writing), s, j)) ==> RoutesTo(Run(EMPTY, es), h, id)
  {
    hide Run, BoundBy, Bound;
    if RoutesTo(Run(EMPTY, es), h, id) {
      var s, k, j := HashesLeadBack(es, h);
    }
    if exists s, j: nat :: Bound(es, h, Ctx(id, Writing), s, j) {
      var s, j: nat :| Bound(es, h, Ctx(id, Writing), s, j);
      BoundHashLeads(es, h, Ctx(id, Writing), s, j);
    }
  }
}
