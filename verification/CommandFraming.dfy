/** Commands of a fixed size cut out of a byte stream that arrives in arbitrary portions. */
module CommandFraming {
  import opened Bytes
  import opened SharedSocket

  /** sizeof(ss_cmd): two 64-bit fields and 128 bytes of text. */
  const CMD_SIZE := 144

  /** The stream cut into consecutive commands ... */
  function Commands(stream: seq<Byte>): seq<seq<Byte>> {
    if |stream| < CMD_SIZE then [] else [stream[..CMD_SIZE]] + Commands(stream[CMD_SIZE..])
  }

  /** ... and what is left of it. */
  function Remainder(stream: seq<Byte>): (rest: seq<Byte>)
    ensures |rest| < CMD_SIZE
  {
    if |stream| < CMD_SIZE then stream else Remainder(stream[CMD_SIZE..])
  }

  function Concat(cmds: seq<seq<Byte>>): seq<Byte> {
    if cmds == [] then [] else cmds[0] + Concat(cmds[1..])
  }

  predicate AllCommands(cmds: seq<seq<Byte>>) {
    forall i: nat | i < |cmds| :: |cmds[i]| == CMD_SIZE
  }

  lemma {:induction false} CommandsHaveSize(stream: seq<Byte>)
    ensures AllCommands(Commands(stream))
    ensures |Commands(stream)| == |stream| / CMD_SIZE
    decreases |stream|
  {
    if |stream| >= CMD_SIZE {
      var tail := stream[CMD_SIZE..];
      CommandsHaveSize(tail);
      assert |stream| / CMD_SIZE == |tail| / CMD_SIZE + 1;
      assert forall i: nat | 0 < i < |Commands(stream)| :: Commands(stream)[i] == Commands(tail)[i - 1];
    }
  }

  /** Cutting loses nothing, and every command has its size. */
  lemma {:induction false} CutLosesNothing(stream: seq<Byte>)
    ensures Concat(Commands(stream)) + Remainder(stream) == stream
    ensures AllCommands(Commands(stream))
    ensures |Commands(stream)| == |stream| / CMD_SIZE
    decreases |stream|
  {
    CommandsHaveSize(stream);
    if |stream| >= CMD_SIZE {
      hide AllCommands;
      var head, tail := stream[..CMD_SIZE], stream[CMD_SIZE..];
      CutLosesNothing(tail);
      assert ([head] + Commands(tail))[1..] == Commands(tail);
      var a, b := Concat(Commands(tail)), Remainder(tail);
      assert head + (a + b) == head + a + b;
      assert head + tail == stream;
    }
  }

  /** A portion that does not go beyond the current command completes it or is put by. */
  lemma {:induction false} CutPortion(stream: seq<Byte>, portion: seq<Byte>)
    requires |Remainder(stream)| + |portion| <= CMD_SIZE
    ensures |Remainder(stream)| + |portion| < CMD_SIZE ==>
              Commands(stream + portion) == Commands(stream)
                  && Remainder(stream + portion) == Remainder(stream) + portion
    ensures |Remainder(stream)| + |portion| == CMD_SIZE ==>
              Commands(stream + portion) == Commands(stream) + [Remainder(stream) + portion]
                  && Remainder(stream + portion) == []
    decreases |stream|
  {
    var all := stream + portion;
    if |stream| < CMD_SIZE {
      if |all| == CMD_SIZE {
        assert all[..CMD_SIZE] == all && all[CMD_SIZE..] == [];
      }
    } else {
      assert all[..CMD_SIZE] == stream[..CMD_SIZE] && all[CMD_SIZE..] == stream[CMD_SIZE..] + portion;
      CutPortion(stream[CMD_SIZE..], portion);
    }
  }

  /** A prefix of the stream gives a prefix of the commands. */
  lemma {:induction false} CutPrefix(part: seq<Byte>, stream: seq<Byte>)
    requires part <= stream
    ensures Commands(part) <= Commands(stream)
    decreases |part|
  {
    if |part| >= CMD_SIZE {
      assert part[..CMD_SIZE] == stream[..CMD_SIZE];
      CutPrefix(part[CMD_SIZE..], stream[CMD_SIZE..]);
    }
  }

  /** Cutting undoes sending. */
  lemma {:induction false} CutOfSent(cmds: seq<seq<Byte>>)
    requires AllCommands(cmds)
    ensures Commands(Concat(cmds)) == cmds && Remainder(Concat(cmds)) == []
    decreases |cmds|
  {
    if cmds != [] {
      var all, tail := Concat(cmds), Concat(cmds[1..]);
      assert all[..CMD_SIZE] == cmds[0] && all[CMD_SIZE..] == tail;
      assert AllCommands(cmds[1..]) by {
        assert forall i: nat | i < |cmds[1..]| :: cmds[1..][i] == cmds[i + 1];
      }
      CutOfSent(cmds[1..]);
    }
  }

  /** End to end: whatever part of the sent bytes has arrived, in whatever portions, the commands cut
      out of it are the first of those sent, and all of those that are complete. */
  lemma ReceivedIsPrefixOfSent(cmds: seq<seq<Byte>>, wire: seq<Byte>, received: seq<Byte>)
    requires AllCommands(cmds) && received <= wire <= Concat(cmds)
    ensures Commands(received) <= cmds
    ensures |Commands(received)| == |received| / CMD_SIZE
    ensures received == Concat(cmds) ==> Commands(received) == cmds
  {
    CutOfSent(cmds);
    CutPrefix(received, Concat(cmds));
    CutLosesNothing(received);
  }

  // ---------- the sending side ----------

  lemma {:induction false} ConcatSnoc(cmds: seq<seq<Byte>>, cmd: seq<Byte>)
    ensures Concat(cmds + [cmd]) == Concat(cmds) + cmd
    decreases |cmds|
  {
    if cmds == [] {
      assert [cmd][1..] == [] && cmds + [cmd] == [cmd];
    } else {
      assert (cmds + [cmd])[1..] == cmds[1..] + [cmd];
      ConcatSnoc(cmds[1..], cmd);
    }
  }

  lemma {:induction false} ConcatPrefix(cmds: seq<seq<Byte>>, n: nat)
    requires n <= |cmds|
    ensures Concat(cmds[..n]) <= Concat(cmds)
    decreases |cmds|
  {
    if n > 0 {
      assert cmds[..n][1..] == cmds[1..][..n - 1];
      ConcatPrefix(cmds[1..], n - 1);
    }
  }

  /** Commands written one after the other until one fails: a prefix of their bytes is on the wire. */
  method WriteAll(socket: Socket, cmds: seq<seq<Byte>>) returns (ok: bool)
    requires AllCommands(cmds) && socket.outgoing == []
    modifies socket`outgoing, socket`room
    ensures socket.outgoing <= Concat(cmds)
    ensures ok <==> socket.outgoing == Concat(cmds)
  {
    assert cmds[..|cmds|] == cmds;
    var i := 0;
    while i < |cmds|
      invariant 0 <= i <= |cmds| && socket.outgoing == Concat(cmds[..i])
    {
      assert cmds[..i + 1] == cmds[..i] + [cmds[i]];
      ConcatSnoc(cmds[..i], cmds[i]);
      ConcatPrefix(cmds, i + 1);
      var r, total := socket.Write(cmds[i]);
      if r == SOCKET_ERROR {
        return false;
      }
      assert cmds[i][..total] == cmds[i];
      i := i + 1;
    }
    return true;
  }

  // ---------- the receiving side ----------

  /** As many as there are of the first n bytes. */
  function First(s: seq<Byte>, n: nat): (f: seq<Byte>)
    ensures f <= s && |f| <= n
  {
    if |s| < n then s else s[..n]
  }

  /** How many bytes the current command lacks. */
  function Missing(received: seq<Byte>): (n: nat)
    ensures 0 < n <= CMD_SIZE
  {
    CMD_SIZE - |Remainder(received)|
  }

  /** One connection of the server: the buffer of _partial_data and its fill, and the commands that
      have been passed on to processCommands. */
  class Connection {
    const socket: Socket
    const partial: array<Byte>
    var size: nat
    var open: bool
    var handled: seq<seq<Byte>>
    ghost var received: seq<Byte>

    ghost predicate Valid()
      reads this, socket, partial
    {
      && socket.Valid()
      && partial.Length == CMD_SIZE && size < CMD_SIZE
      && handled == Commands(received)
      && partial[..size] == Remainder(received)
    }

    constructor (socket: Socket)
      requires socket.Valid()
      ensures Valid() && received == [] && open && this.socket == socket && fresh(partial)
    {
      this.socket := socket;
      partial := new Byte[CMD_SIZE];
      size, open, handled, received := 0, true, [], [];
    }

    /** What the server does when select reports the socket: the bytes that are ready, up to the end of the
        current command, are added to those received, unless the connection ends before; and the
        commands handled are always exactly the ones that the bytes received so far contain, however
        recv cuts the stream into portions. */
    method OnReadable()
      requires Valid() && open
      modifies this, socket`incoming, partial
      ensures Valid()
      ensures open <==> |old(Ready(socket.incoming))| >= Missing(old(received)) || !old(EndsNow(socket.incoming))
      ensures !open ==> received == old(received) && handled == old(handled)
      ensures open ==> received == old(received) + First(old(Ready(socket.incoming)), Missing(old(received)))
      ensures open ==> received + Stream(socket.incoming) == old(received) + old(Stream(socket.incoming))
      ensures old(handled) <= handled && |handled| <= |old(handled)| + 1
    {
      hide Stream, Ready, EndsNow, Commands, Remainder, Meaningful;
      ghost var before, stream := partial[..size], Stream(socket.incoming);
      ReadyComesFirst(socket.incoming);
      var r := socket.Read(partial, size, CMD_SIZE - size);
      if r == SOCKET_ERROR {
        open := false;
        assert partial[..size] == before;
        return;
      }
      ghost var portion := old(Ready(socket.incoming))[..r];
      assert partial[..size + r] == before + portion;
      assert portion == stream[..r] && stream == portion + stream[r..];
      assert received + stream == (received + portion) + stream[r..];
      CutPortion(received, portion);
      received := received + portion;
      if size + r == CMD_SIZE {
        assert partial[..] == partial[..CMD_SIZE];
        handled := handled + [partial[..]];
        size := 0;
        assert partial[..size] == [];
      } else {
        size := size + r;
      }
    }
  }
}
