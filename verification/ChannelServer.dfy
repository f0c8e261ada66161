/** The server object whose handlers change the registry in place. */
module ChannelServer {
  import opened Bytes
  import opened ChannelRegistry

  class SharedServer {
    // _ctx_map_sock, _ctx_map_hash, _shmid_hash_map, _socket_ctx_map and _shm_index
    var ctxMapSock: map<Sock, seq<Ctx>>
    var ctxMapHash: map<Hash, Ctx>
    var shmidHashMap: map<Id, seq<Hash>>
    var socketCtxMap: map<Sock, SockState>
    var shmIndex: nat

    ghost function Model(): Registry
      reads this
    {
      Registry(ctxMapSock, ctxMapHash, shmidHashMap, socketCtxMap, shmIndex)
    }

    constructor ()
      ensures Model() == EMPTY
    {
      ctxMapSock, ctxMapHash, shmidHashMap, socketCtxMap, shmIndex := map[], map[], map[], map[], 0;
    }

    /** acceptConnections, for one new socket */
    method AcceptConnection(sock: Sock)
      modifies this`socketCtxMap
      ensures Model() == Step(old(Model()), Accept(sock))
    {
      socketCtxMap := socketCtxMap[sock := Connected];
    }

    method CloseConnection(sock: Sock)
      modifies this`socketCtxMap
      ensures Model() == Disconnect(old(Model()), sock)
    {
      socketCtxMap := socketCtxMap - {sock};
    }

    /** writeData, which closes the connection when the write fails */
    method WriteData(sock: Sock, wrote: bool)
      modifies this`socketCtxMap
      ensures Model() == Reply(old(Model()), sock, wrote)
    {
      if !wrote {
        CloseConnection(sock);
      }
    }

    method GetShmemIndex() returns (index: Id)
      modifies this`shmIndex
      ensures index == old(shmIndex) && shmIndex == (old(shmIndex) + 1) % U64
    {
      index := shmIndex;
      shmIndex := (shmIndex + 1) % U64;
    }

    /** newRChan and newWChan, which differ in the direction only */
    method NewChan(sock: Sock, dir: Direction, created: bool, wrote: bool) returns (ok: bool)
      modifies this
      ensures Model() == Reply(AddChannel(old(Model()), sock, dir, created), sock, wrote)
      ensures ok == created
    {
      var id := GetShmemIndex();
      if created {
        var list := if sock in ctxMapSock then ctxMapSock[sock] else [];
        ctxMapSock := ctxMapSock[sock := list + [Ctx(id, dir)]];
      }
      WriteData(sock, wrote);
      return created;
    }

    method BindChan(sock: Sock, id: Id, hash: Hash, wrote: bool, wroteAgain: bool) returns (ok: bool)
      modifies this
      ensures var r := old(Model());
              && Model() == Reply(Bind(r, sock, id, hash), sock, wrote && (ChannelsOf(r, sock) != [] || wroteAgain))
              && (ok <==> Find(ChannelsOf(r, sock), id) < |ChannelsOf(r, sock)|)
    {
      ghost var r := Model();
      var results := if sock in ctxMapSock then ctxMapSock[sock] else [];
      if results == [] {
        WriteData(sock, wrote);
      }
      var found := false;
      var i := 0;
      while i < |results|
        invariant 0 <= i <= |results| && !found
        invariant forall j | 0 <= j < i :: results[j].id != id
        invariant Model() == if results == [] then Reply(r, sock, wrote) else r
      {
        if results[i].id == id {
          FindIsFirst(results, id, i);
          found := true;
          if hash !in ctxMapHash {
            ctxMapHash := ctxMapHash[hash := results[i]];
            if id !in shmidHashMap {
              shmidHashMap := shmidHashMap[id := [hash]];
            }
          }
          WriteData(sock, wrote);
          break;
        }
        i := i + 1;
      }
      if !found {
        FindIsFirst(results, id, |results|);
        WriteData(sock, if results == [] then wroteAgain else wrote);
      }
      return found;
    }

    method CloseChan(sock: Sock, id: Id, wrote: bool)
      modifies this
      ensures Model() == Reply(DropHashes(DropChannel(old(Model()), sock, id), id), sock, wrote)
    {
      ghost var r := Model();
      var results := if sock in ctxMapSock then ctxMapSock[sock] else [];
      var i := 0;
      while i < |results| && results[i].id != id
        invariant 0 <= i <= |results|
        invariant forall j | 0 <= j < i :: results[j].id != id
      {
        i := i + 1;
      }
      FindIsFirst(results, id, i);
      if i < |results| {
        ctxMapSock := ctxMapSock[sock := results[..i] + results[i + 1..]];
      }
      assert Model() == DropChannel(r, sock, id);
      EraseHashes(id);
      WriteData(sock, wrote);
    }

    method EraseHashes(id: Id)
      modifies this`ctxMapHash, this`shmidHashMap
      ensures Model() == DropHashes(old(Model()), id)
    {
      if id in shmidHashMap {
        var hashes := shmidHashMap[id];
        ghost var all := ctxMapHash;
        var i := 0;
        while i < |hashes|
          invariant 0 <= i <= |hashes| && shmidHashMap == old(shmidHashMap)
          invariant ctxMapHash == all - Elements(hashes[..i])
        {
          assert hashes[..i + 1] == hashes[..i] + [hashes[i]];
          ctxMapHash := ctxMapHash - {hashes[i]};
          i := i + 1;
        }
        assert hashes[..i] == hashes;
        shmidHashMap := shmidHashMap - {id};
      }
    }

    method ProcessCommand(sock: Sock, cmd: Cmd, created: bool, wrote: bool, wroteAgain: bool)
      modifies this
      ensures Model() == Step(old(Model()), Command(sock, cmd, created, wrote, wroteAgain))
    {
      hide AddChannel, Bind, DropChannel, DropHashes;
      if sock !in socketCtxMap {
        return;
      }
      if cmd.Init? {
        if cmd.keyword {
          socketCtxMap := socketCtxMap[sock := Inited];
          WriteData(sock, wrote);
        } else {
          CloseConnection(sock);
        }
        return;
      }
      if socketCtxMap[sock] != Inited {
        return;
      }
      match cmd
      case NewRChan(_, _) =>
        var ok := NewChan(sock, Writing, created, wrote);
      case NewWChan(_, _) =>
        var ok := NewChan(sock, Reading, created, wrote);
      case BindChan(id, hash) =>
        var ok := BindChan(sock, id, hash, wrote, wroteAgain);
      case CloseChan(id) =>
        CloseChan(sock, id, wrote);
      case Unsupported =>
        CloseConnection(sock);
    }

    /** send: the channel that the data is pushed to, if any */
    method Send(hash: Hash) returns (pushed: bool, id: Id)
      ensures pushed ==> RoutesTo(Model(), hash, id)
      ensures !pushed ==> forall k :: !RoutesTo(Model(), hash, k)
    {
      if hash in ctxMapHash && ctxMapHash[hash].dir == Writing {
        return true, ctxMapHash[hash].id;
      }
      return false, 0;
    }
  }

  lemma FindIsFirst(cs: seq<Ctx>, id: Id, i: nat)
    requires i <= |cs| && (i < |cs| ==> cs[i].id == id) && forall j | 0 <= j < i :: cs[j].id != id
    ensures Find(cs, id) == i
  {
  }
}
