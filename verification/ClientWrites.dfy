/**
 The client's side of the wire when it goes on after a failure. Its methods return the result of
 SharedSocket::write as a truth value, so that the error -1 counts as success.
 */
module ClientWrites {
  import opened Bytes
  import opened SharedSocket
  import opened CommandFraming

  /** What a method of the client returns: the count or the error of write, taken for a truth value. */
  method ClientWrite(socket: Socket, cmd: seq<Byte>) returns (ok: bool, ghost total: nat)
    requires |cmd| == CMD_SIZE
    modifies socket`outgoing, socket`room
    ensures ok
    ensures total <= |cmd| && socket.outgoing == old(socket.outgoing) + cmd[..total]
  {
    var r;
    r, total := socket.Write(cmd);
    ok := r != 0;
  }

  predicate Portions(totals: seq<nat>) {
    forall i: nat | i < |totals| :: totals[i] <= CMD_SIZE
  }

  /** The bytes on the wire when so many of each command have gone out. */
  function WireOf(cmds: seq<seq<Byte>>, totals: seq<nat>): seq<Byte>
    requires |totals| == |cmds| && AllCommands(cmds) && Portions(totals)
  {
    if cmds == [] then [] else cmds[0][..totals[0]] + WireOf(cmds[1..], totals[1..])
  }

  predicate AllZero(totals: seq<nat>) {
    forall i: nat | i < |totals| :: totals[i] == 0
  }

  /** After a command that has not gone out in full, nothing has. */
  predicate StopsShort(totals: seq<nat>) {
    totals == [] || if totals[0] == CMD_SIZE then StopsShort(totals[1..]) else AllZero(totals[1..])
  }

  lemma {:induction false} NothingOnWire(cmds: seq<seq<Byte>>, totals: seq<nat>)
    requires |totals| == |cmds| && AllCommands(cmds) && Portions(totals) && AllZero(totals)
    ensures WireOf(cmds, totals) == []
    decreases |cmds|
  {
    if cmds != [] {
      NothingOnWire(cmds[1..], totals[1..]);
    }
  }

  lemma {:induction false} StoppedIsPrefix(cmds: seq<seq<Byte>>, totals: seq<nat>)
    requires |totals| == |cmds| && AllCommands(cmds) && Portions(totals) && StopsShort(totals)
    ensures WireOf(cmds, totals) <= Concat(cmds)
    decreases |cmds|
  {
    if cmds != [] {
      if totals[0] == CMD_SIZE {
        assert cmds[0][..totals[0]] == cmds[0];
        StoppedIsPrefix(cmds[1..], totals[1..]);
      } else {
        NothingOnWire(cmds[1..], totals[1..]);
        assert cmds[0][..totals[0]] + [] == cmds[0][..totals[0]];
      }
    }
  }

  function Filled(b: Byte): (cmd: seq<Byte>)
    ensures |cmd| == CMD_SIZE
  {
    seq(CMD_SIZE, i => b)
  }

  function Ones(n: nat): (cmds: seq<seq<Byte>>)
    ensures |cmds| == n && AllCommands(cmds)
  {
    if n == 0 then [] else [Filled(1)] + Ones(n - 1)
  }

  lemma {:induction false} OnesOnWire(totals: seq<nat>)
    requires Portions(totals) && !AllZero(totals)
    ensures WireOf(Ones(|totals|), totals) != [] && WireOf(Ones(|totals|), totals)[0] == 1
    decreases |totals|
  {
    var cmds := Ones(|totals|);
    assert cmds[0] == Filled(1) && cmds[1..] == Ones(|totals| - 1);
    if totals[0] == 0 {
      OnesOnWire(totals[1..]);
      assert cmds[0][..0] + WireOf(cmds[1..], totals[1..]) == WireOf(cmds[1..], totals[1..]);
    }
  }

  lemma {:induction false} GoingOnBreaks(totals: seq<nat>) returns (cmds: seq<seq<Byte>>)
    requires Portions(totals) && !StopsShort(totals)
    ensures |cmds| == |totals| && AllCommands(cmds) && !(WireOf(cmds, totals) <= Concat(cmds))
    decreases |totals|
  {
    if totals[0] == CMD_SIZE {
      var rest := GoingOnBreaks(totals[1..]);
      cmds := [Filled(0)] + rest;
      assert cmds[1..] == rest && cmds[0][..CMD_SIZE] == cmds[0];
      SamePrefix(cmds[0], WireOf(rest, totals[1..]), Concat(rest));
    } else {
      var rest := Ones(|totals| - 1);
      OnesOnWire(totals[1..]);
      cmds := [Filled(0)] + rest;
      assert cmds[1..] == rest;
      var wire, t := WireOf(cmds, totals), totals[0];
      assert wire == cmds[0][..t] + WireOf(rest, totals[1..]);
      assert wire[t] == 1 && Concat(cmds)[t] == 0;
    }
  }

  lemma SamePrefix(a: seq<Byte>, b: seq<Byte>, c: seq<Byte>)
    ensures a + b <= a + c <==> b <= c
  {
    if a + b <= a + c {
      assert (a + c)[..|a| + |b|] == a + b;
      assert c[..|b|] == (a + c)[..|a| + |b|][|a|..] == (a + b)[|a|..] == b;
    }
  }

  /** What has gone out is a prefix of what was sent, whatever the commands are, exactly if the client
      stops after the first command that has not gone out in full. */
  lemma PrefixExactly(totals: seq<nat>)
    requires Portions(totals)
    ensures (forall cmds | |cmds| == |totals| && AllCommands(cmds) :: WireOf(cmds, totals) <= Concat(cmds))
        <==> StopsShort(totals)
  {
    hide WireOf, Concat, StopsShort;
    if StopsShort(totals) {
      forall cmds | |cmds| == |totals| && AllCommands(cmds)
        ensures WireOf(cmds, totals) <= Concat(cmds)
      {
        StoppedIsPrefix(cmds, totals);
      }
    } else {
      var cmds := GoingOnBreaks(totals);
    }
  }

  /** A client that calls one method after the other, none of which reports a failure. */
  method SendAll(socket: Socket, cmds: seq<seq<Byte>>) returns (ghost totals: seq<nat>)
    requires AllCommands(cmds) && socket.outgoing == []
    modifies socket`outgoing, socket`room
    ensures |totals| == |cmds| && Portions(totals) && socket.outgoing == WireOf(cmds, totals)
  {
    var i := 0;
    totals := [];
    assert cmds[..|cmds|] == cmds;
    while i < |cmds|
      invariant 0 <= i <= |cmds| == |cmds[..i]| + (|cmds| - i) && |totals| == i && Portions(totals)
      invariant AllCommands(cmds[..i]) && socket.outgoing == WireOf(cmds[..i], totals)
    {
      assert cmds[..i + 1] == cmds[..i] + [cmds[i]];
      ghost var total;
      var ok;
      ok, total := ClientWrite(socket, cmds[i]);
      WireSnoc(cmds[..i], totals, cmds[i], total);
      totals := totals + [total];
      i := i + 1;
    }
  }

  lemma {:induction false} WireSnoc(cmds: seq<seq<Byte>>, totals: seq<nat>, cmd: seq<Byte>, total: nat)
    requires |totals| == |cmds| && AllCommands(cmds) && Portions(totals) && |cmd| == CMD_SIZE && total <= CMD_SIZE
    ensures AllCommands(cmds + [cmd]) && Portions(totals + [total])
    ensures WireOf(cmds + [cmd], totals + [total]) == WireOf(cmds, totals) + cmd[..total]
    decreases |cmds|
  {
    if cmds == [] {
      assert [cmd][1..] == [] && [total][1..] == [] && cmds + [cmd] == [cmd] && totals + [total] == [total];
    } else {
      assert (cmds + [cmd])[1..] == cmds[1..] + [cmd] && (totals + [total])[1..] == totals[1..] + [total];
      WireSnoc(cmds[1..], totals[1..], cmd, total);
    }
  }
}
