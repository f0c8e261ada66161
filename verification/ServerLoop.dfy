/** The server's turns for its connections, and what the registry is after any number of them. */
module ServerLoop {
  import opened CommandFraming
  import opened CommandCodec
  import opened ChannelRegistry
  import opened ChannelServer
  import SharedSocket
  import opened Bytes

  /** How a command's side effects turn out. */
  datatype Outcome = Outcome(created: bool, wrote: bool, wroteAgain: bool)

  /** The commands that one socket has in a history of events. */
  function CommandsOf(es: seq<Event>, sock: Sock): seq<Cmd> {
    if es == [] then []
    else
      var e := es[|es| - 1];
      CommandsOf(es[..|es| - 1], sock) + if e.Command? && e.sock == sock then [e.cmd] else []
  }

  /** The commands that a stream of bytes contains. */
  function Requested(stream: seq<Byte>): (cs: seq<Cmd>)
    ensures |cs| == |stream| / CMD_SIZE
  {
    CutLosesNothing(stream);
    DecodeAll(Commands(stream))
  }

  lemma CommandsSnoc(es: seq<Event>, e: Event, sock: Sock)
    ensures CommandsOf(es + [e], sock) == CommandsOf(es, sock) + if e.Command? && e.sock == sock then [e.cmd] else []
  {
    assert (es + [e])[..|es|] == es;
  }

  // ---------- the turns ----------

  /** A connection: the commands of earlier connections with the same descriptor, the bytes received,
      and whether the server still has it. */
  datatype Conn = Conn(earlier: seq<Cmd>, received: seq<Byte>, open: bool)

  datatype Server = Server(registry: Registry, conns: map<Sock, Conn>)

  /** What select can report: a new connection, bytes of an open one, or its end. */
  datatype Turn = Accepted(sock: Sock) | Portion(sock: Sock, bytes: seq<Byte>, outcome: Outcome) | Ended(sock: Sock)

  const IDLE := Server(EMPTY, map[])

  predicate IsOpen(s: Server, sock: Sock) {
    sock in s.conns && s.conns[sock].open
  }

  /** All commands that have come over a descriptor. */
  function Asked(s: Server, sock: Sock): seq<Cmd> {
    if sock in s.conns then s.conns[sock].earlier + Requested(s.conns[sock].received) else []
  }

  /** A new connection has a descriptor that is not in use; a portion does not go beyond a command. */
  predicate Possible(s: Server, t: Turn) {
    match t
    case Accepted(sock) => !IsOpen(s, sock)
    case Portion(sock, bytes, _) => IsOpen(s, sock) && |Remainder(s.conns[sock].received)| + |bytes| <= CMD_SIZE
    case Ended(sock) => IsOpen(s, sock)
  }

  /** What the turn does to the registry, if anything. */
  function EventOf(s: Server, t: Turn): seq<Event>
    requires Possible(s, t)
  {
    match t
    case Accepted(sock) => [Accept(sock)]
    case Ended(sock) => [Lost(sock)]
    case Portion(sock, bytes, o) =>
      var cmd := Remainder(s.conns[sock].received) + bytes;
      if |cmd| < CMD_SIZE then [] else [Command(sock, Decode(cmd), o.created, o.wrote, o.wroteAgain)]
  }

  function After(r: Registry, es: seq<Event>): Registry
    requires |es| <= 1
  {
    if es == [] then r else Step(r, es[0])
  }

  function Take(s: Server, t: Turn): Server
    requires Possible(s, t)
  {
    var registry := After(s.registry, EventOf(s, t));
    match t
    case Accepted(sock) => Server(registry, s.conns[sock := Conn(Asked(s, sock), [], true)])
    case Ended(sock) => Server(registry, s.conns[sock := s.conns[sock].(open := false)])
    case Portion(sock, bytes, _) =>
      // a command can close its own connection
      var open := |EventOf(s, t)| == 0 || sock in registry.states;
      Server(registry, s.conns[sock := s.conns[sock].(received := s.conns[sock].received + bytes, open := open)])
  }

  predicate AllPossible(s: Server, ts: seq<Turn>)
    decreases |ts|
  {
    ts == [] || (Possible(s, ts[0]) && AllPossible(Take(s, ts[0]), ts[1..]))
  }

  function TakeAll(s: Server, ts: seq<Turn>): Server
    requires AllPossible(s, ts)
    decreases |ts|
  {
    if ts == [] then s else TakeAll(Take(s, ts[0]), ts[1..])
  }

  /** The history es explains the server: it leads to the registry, every descriptor has in it exactly
      the commands that its bytes contain, and the open connections are those the registry knows. */
  ghost predicate Explains(es: seq<Event>, s: Server) {
    && s.registry == Run(EMPTY, es)
    && (forall sock :: CommandsOf(es, sock) == Asked(s, sock))
    && (forall sock :: IsOpen(s, sock) <==> sock in s.registry.states)
  }

  lemma PortionRequests(received: seq<Byte>, bytes: seq<Byte>)
    requires |Remainder(received)| + |bytes| <= CMD_SIZE
    ensures var cmd := Remainder(received) + bytes;
            Requested(received + bytes) == Requested(received) + if |cmd| < CMD_SIZE then [] else [Decode(cmd)]
  {
    hide Commands, Remainder, Decode;
    CutPortion(received, bytes);
    CutLosesNothing(received);
    CutLosesNothing(received + bytes);
  }

  lemma NothingRequested()
    ensures Requested([]) == []
  {
  }

  /** Which commands the turn adds to those of a descriptor. */
  lemma AskedAfter(s: Server, t: Turn, sock: Sock)
    requires Possible(s, t)
    ensures Asked(Take(s, t), sock)
         == Asked(s, sock) + if EventOf(s, t) != [] && EventOf(s, t)[0].Command? && t.sock == sock
             then [EventOf(s, t)[0].cmd] else []
  {
    hide Decode, Requested, Remainder, Step;
    if t.Portion? && t.sock == sock {
      var c := s.conns[sock];
      PortionRequests(c.received, t.bytes);
      hide *;
    } else if t.Accepted? && t.sock == sock {
      NothingRequested();
    }
  }

  /** An event changes the state of its own socket only. */
  lemma OtherStatesStay(r: Registry, e: Event, sock: Sock)
    requires e.sock != sock
    ensures sock in Step(r, e).states <==> sock in r.states
  {
    hide AddChannel, Bind, DropChannel, DropHashes, ChannelsOf;
    if e.Command? {
      match e.cmd
      case NewRChan(_, _) => StatesKept(r, e.sock, Writing, e.created, 0, 0);
      case NewWChan(_, _) => StatesKept(r, e.sock, Reading, e.created, 0, 0);
      case BindChan(id, hash) => StatesKept(r, e.sock, Writing, true, id, hash);
      case CloseChan(id) => StatesKept(r, e.sock, Writing, true, id, 0);
      case _ =>
    }
  }

  lemma OpenAfter(s: Server, t: Turn, sock: Sock)
    requires Possible(s, t) && (forall x :: IsOpen(s, x) <==> x in s.registry.states)
    ensures IsOpen(Take(s, t), sock) <==> sock in Take(s, t).registry.states
  {
    var es := EventOf(s, t);
    assert es != [] ==> es[0].sock == t.sock;
    if es != [] && sock != t.sock {
      OtherStatesStay(s.registry, es[0], sock);
    }
    hide Decode, Remainder, Process, Asked;
  }

  lemma TurnFacts(s: Server, t: Turn)
    requires Possible(s, t)
    ensures Take(s, t).registry == After(s.registry, EventOf(s, t)) && |EventOf(s, t)| <= 1
    ensures EventOf(s, t) != [] ==> EventOf(s, t)[0].sock == t.sock
  {
    hide Decode, Remainder, Step, Asked;
  }

  lemma RegistryGrows(s: Server, t: Turn, es: seq<Event>)
    requires Possible(s, t) && s.registry == Run(EMPTY, es)
    ensures Take(s, t).registry == Run(EMPTY, es + EventOf(s, t))
  {
    TurnFacts(s, t);
    hide *;
    EventsAfter(s.registry, es, EventOf(s, t));
  }

  lemma EventsAfter(r: Registry, es: seq<Event>, ev: seq<Event>)
    requires |ev| <= 1 && r == Run(EMPTY, es)
    ensures After(r, ev) == Run(EMPTY, es + ev)
  {
    hide Run, Step;
    if ev == [] {
      assert es + ev == es;
    } else {
      assert ev == [ev[0]];
      RunSnoc(EMPTY, es, ev[0]);
    }
  }

  lemma CommandsGrow(s: Server, t: Turn, es: seq<Event>, sock: Sock)
    requires Possible(s, t) && CommandsOf(es, sock) == Asked(s, sock)
    ensures CommandsOf(es + EventOf(s, t), sock) == Asked(Take(s, t), sock)
  {
    TurnFacts(s, t);
    AskedAfter(s, t, sock);
    var ev := EventOf(s, t);
    hide *;
    if ev == [] {
      assert es + ev == es && Asked(s, sock) + [] == Asked(s, sock);
    } else {
      assert ev == [ev[0]];
      CommandsSnoc(es, ev[0], sock);
    }
  }

  lemma HistoryGrows(s: Server, t: Turn, es: seq<Event>)
    requires Explains(es, s) && Possible(s, t)
    ensures Explains(es + EventOf(s, t), Take(s, t))
  {
    hide EventOf, Take, Possible, Run, Asked, CommandsOf, IsOpen;
    RegistryGrows(s, t, es);
    forall sock
      ensures CommandsOf(es + EventOf(s, t), sock) == Asked(Take(s, t), sock)
    {
      CommandsGrow(s, t, es, sock);
    }
    forall sock
      ensures IsOpen(Take(s, t), sock) <==> sock in Take(s, t).registry.states
    {
      OpenAfter(s, t, sock);
    }
  }

  lemma {:induction false} HistoryOf(s: Server, es: seq<Event>, ts: seq<Turn>) returns (es': seq<Event>)
    requires Explains(es, s) && AllPossible(s, ts)
    ensures Explains(es', TakeAll(s, ts)) && |es'| <= |es| + |ts|
    decreases |ts|
  {
    if ts == [] {
      es' := es;
    } else {
      hide Explains, Take, EventOf, Possible;
      HistoryGrows(s, ts[0], es);
      TurnFacts(s, ts[0]);
      es' := HistoryOf(Take(s, ts[0]), es + EventOf(s, ts[0]), ts[1..]);
    }
  }

  lemma NothingYet()
    ensures Explains([], IDLE)
  {
  }

  /** Main result, over every run of fewer than 2^64 turns of any number of connections: some history of
      events leads to the registry, in it every descriptor has exactly the commands that its bytes
      contain, however they were split on the way, and the registry is consistent; if no command
      of the history binds a channel twice, send reaches open channels only. */
  lemma EveryRunIsConsistent(ts: seq<Turn>) returns (es: seq<Event>)
    requires AllPossible(IDLE, ts) && |ts| < U64
    ensures Explains(es, TakeAll(IDLE, ts)) && Inv(TakeAll(IDLE, ts).registry)
    ensures NeverRebinds(EMPTY, es) ==> Inverse(TakeAll(IDLE, ts).registry) && Live(TakeAll(IDLE, ts).registry)
  {
    hide Inv, Inverse, Live, NeverRebinds, TakeAll, AllPossible;
    NothingYet();
    es := HistoryOf(IDLE, [], ts);
    RegistryConsistent(es);
  }

  // ---------- the loop body ----------

  /** The object and its connection stand for this state. */
  ghost predicate Shows(server: SharedServer, conn: Connection, s: Server, sock: Sock)
    reads server, conn
  {
    && server.Model() == s.registry
    && sock in s.conns && conn.received == s.conns[sock].received && conn.open == s.conns[sock].open
  }

  /** A connection that has become readable: what has arrived is put by, and a complete command is
      carried out, which is one turn. */
  method ServeReadable(server: SharedServer, conn: Connection, sock: Sock, o: Outcome, ghost s: Server)
    returns (ghost t: Turn)
    requires conn.Valid() && Shows(server, conn, s, sock) && IsOpen(s, sock)
    modifies server, conn, conn.socket`incoming, conn.partial
    ensures conn.Valid() && Possible(s, t) && Shows(server, conn, Take(s, t), sock)
    ensures var ready, missing := old(SharedSocket.Ready(conn.socket.incoming)), Missing(old(conn.received));
            t == if |ready| >= missing || !old(SharedSocket.EndsNow(conn.socket.incoming))
                 then Portion(sock, First(ready, missing), o) else Ended(sock)
  {
    hide Step, Requested, Commands, Remainder, Decode, Asked, Run, First;
    ghost var was := conn.received;
    var handledBefore := |conn.handled|;
    conn.OnReadable();
    if !conn.open {
      server.CloseConnection(sock);
      t := Ended(sock);
      LostIsDisconnect(s.registry, sock);
    } else {
      ghost var bytes := conn.received[|was|..];
      t := Portion(sock, bytes, o);
      assert conn.received == was + bytes;
      CutPortion(was, bytes);
      if |conn.handled| > handledBefore {
        var cmd := conn.handled[handledBefore];
        assert cmd == Remainder(was) + bytes && |cmd| == CMD_SIZE;
        server.ProcessCommand(sock, Decode(cmd), o.created, o.wrote, o.wroteAgain);
        if sock !in server.socketCtxMap {
          conn.open := false;
        }
      }
    }
  }

  lemma LostIsDisconnect(r: Registry, sock: Sock)
    ensures Step(r, Lost(sock)) == Disconnect(r, sock)
  {
  }
}
