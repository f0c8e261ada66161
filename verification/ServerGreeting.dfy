/** What a connection must have sent for the server to carry out its commands. */
module ServerGreeting {
  import opened Bytes
  import opened CommandFraming
  import opened CommandCodec
  import opened CommandLayout
  import opened ChannelRegistry
  import opened ChannelHistory
  import opened ServerLoop

  /** The bytes contain a whole command with code 0 whose text is "hi!". */
  ghost predicate Greeted(received: seq<Byte>) {
    exists i: nat :: GreetingAt(received, i)
  }

  predicate GreetingAt(received: seq<Byte>, i: nat) {
    && CMD_SIZE * i + CMD_SIZE <= |received|
    && var cmd := received[CMD_SIZE * i..CMD_SIZE * i + CMD_SIZE];
       cmd[..4] == [0, 0, 0, 0] && Text(cmd[16..], GREETING)
  }

  lemma StillGreeted(received: seq<Byte>, bytes: seq<Byte>)
    requires Greeted(received)
    ensures Greeted(received + bytes)
  {
    var i: nat :| GreetingAt(received, i);
    var from, to := CMD_SIZE * i, CMD_SIZE * i + CMD_SIZE;
    assert (received + bytes)[from..to] == received[from..to];
    assert GreetingAt(received + bytes, i);
  }

  /** Where the last whole command of the bytes stands. */
  lemma {:induction false} RemainderIs(stream: seq<Byte>)
    ensures var n := |stream| / CMD_SIZE; CMD_SIZE * n <= |stream| && Remainder(stream) == stream[CMD_SIZE * n..]
    decreases |stream|
  {
    if |stream| >= CMD_SIZE {
      var tail := stream[CMD_SIZE..];
      RemainderIs(tail);
      assert |stream| / CMD_SIZE == |tail| / CMD_SIZE + 1;
    }
  }

  lemma GreetsNow(received: seq<Byte>, bytes: seq<Byte>)
    requires |Remainder(received)| + |bytes| == CMD_SIZE && Decode(Remainder(received) + bytes) == Init(true)
    ensures Greeted(received + bytes)
  {
    var cmd, all, n := Remainder(received) + bytes, received + bytes, |received| / CMD_SIZE;
    DecodeExactly(cmd, Init(true));
    RemainderIs(received);
    hide Decode, Remainder, Text;
    assert all[CMD_SIZE * n..CMD_SIZE * n + CMD_SIZE] == cmd;
    assert GreetingAt(all, n);
  }

  /** Every initialised socket has an open connection that has sent the keyword. */
  ghost predicate InitedHaveGreeted(s: Server) {
    forall sock | IsInited(s.registry, sock) :: sock in s.conns && Greeted(s.conns[sock].received)
  }

  lemma OtherStateStays(r: Registry, e: Event, sock: Sock)
    requires e.sock != sock
    ensures IsInited(Step(r, e), sock) <==> IsInited(r, sock)
  {
    InitedStep(r, e, sock);
    hide Step;
  }

  lemma TurnKeepsGreeted(s: Server, t: Turn, sock: Sock)
    requires Possible(s, t) && InitedHaveGreeted(s) && IsInited(Take(s, t).registry, sock)
    ensures sock in Take(s, t).conns && Greeted(Take(s, t).conns[sock].received)
  {
    var s', es := Take(s, t), EventOf(s, t);
    TurnFacts(s, t);
    if sock != t.sock {
      if es != [] {
        OtherStateStays(s.registry, es[0], sock);
      }
      ConnsAfter(s, t, sock);
      hide Take, EventOf, Step, Greeted, IsInited;
    } else {
      if es != [] {
        InitedStep(s.registry, es[0], sock);
      }
      hide Step, Greeted, IsInited, Decode, Remainder, Asked, ChannelsOf;
      match t
      case Accepted(_) =>
      case Ended(_) =>
      case Portion(_, bytes, _) =>
        var received := s.conns[sock].received;
        if es != [] && Greets(es[0], sock) {
          GreetsNow(received, bytes);
        } else {
          StillGreeted(received, bytes);
        }
    }
  }

  lemma ConnsAfter(s: Server, t: Turn, sock: Sock)
    requires Possible(s, t) && sock != t.sock
    ensures sock in s.conns ==> sock in Take(s, t).conns && Take(s, t).conns[sock] == s.conns[sock]
  {
    hide Step, Decode, Remainder, Asked;
  }

  lemma {:induction false} GreetedKept(s: Server, ts: seq<Turn>)
    requires AllPossible(s, ts) && InitedHaveGreeted(s)
    ensures InitedHaveGreeted(TakeAll(s, ts))
    decreases |ts|
  {
    if ts != [] {
      hide Take, Possible;
      var s' := Take(s, ts[0]);
      assert InitedHaveGreeted(s') by {
        forall sock | IsInited(s'.registry, sock)
          ensures sock in s'.conns && Greeted(s'.conns[sock].received)
        {
          TurnKeepsGreeted(s, ts[0], sock);
        }
      }
      hide InitedHaveGreeted;
      GreetedKept(s', ts[1..]);
    }
  }

  /** Main result: over every run of turns of any number of connections, the server regards a socket as
      initialised only if among the whole commands that its present connection has sent there is one
      with the code 0 and the text "hi!". */
  lemma InitedOnlyByKeyword(ts: seq<Turn>, sock: Sock)
    requires AllPossible(IDLE, ts) && IsInited(TakeAll(IDLE, ts).registry, sock)
    ensures sock in TakeAll(IDLE, ts).conns && Greeted(TakeAll(IDLE, ts).conns[sock].received)
  {
    assert InitedHaveGreeted(IDLE);
    GreetedKept(IDLE, ts);
    hide TakeAll, Greeted, IsInited;
  }
}
