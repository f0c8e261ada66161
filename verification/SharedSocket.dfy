/** read and write of the control connection, over a socket that moves bytes in arbitrary portions. */
module SharedSocket {
  import opened Bytes

  const SOCKET_ERROR := -1

  /** What the kernel has for a reader next: some bytes, nothing yet, or the end of the connection. */
  datatype Event = Data(bytes: seq<Byte>) | Block | End

  /** The bytes that can still be read before the connection ends. */
  function Stream(events: seq<Event>): seq<Byte> {
    if events == [] || events[0].End? then []
    else if events[0].Data? then events[0].bytes + Stream(events[1..])
    else Stream(events[1..])
  }

  /** The bytes that can be read without waiting ... */
  function Ready(events: seq<Event>): seq<Byte> {
    if events == [] || !events[0].Data? then [] else events[0].bytes + Ready(events[1..])
  }

  /** ... and whether it is the end of the connection that comes right behind them. */
  predicate EndsNow(events: seq<Event>) {
    events != [] && (events[0].End? || (events[0].Data? && EndsNow(events[1..])))
  }

  predicate Meaningful(events: seq<Event>) {
    forall i: nat | i < |events| && events[i].Data? :: events[i].bytes != []
  }

  /** A measure that every call of recv decreases. */
  function Pending(events: seq<Event>): nat {
    if events == [] then 0
    else (if events[0].Data? then |events[0].bytes| + 1 else 1) + Pending(events[1..])
  }

  /** A buffer after the first n of the bytes have been stored from position at on. */
  function Filled(buffer: seq<Byte>, at: nat, bytes: seq<Byte>, n: nat): (r: seq<Byte>)
    requires at + n <= |buffer| && n <= |bytes|
  {
    buffer[..at] + bytes[..n] + buffer[at + n..]
  }

  lemma DropFirst(a: seq<Byte>, b: seq<Byte>, n: nat)
    requires n <= |a|
    ensures (a + b)[n..] == a[n..] + b && (n == |a| ==> (a + b)[n..] == b)
  {
  }

  /** What a recv leaves behind it that takes n bytes of the portion in front. */
  function Rest(events: seq<Event>, n: nat): seq<Event>
    requires events != [] && events[0].Data? && n <= |events[0].bytes|
  {
    var bytes := events[0].bytes;
    if n == |bytes| then events[1..] else [Data(bytes[n..])] + events[1..]
  }

  lemma TakenFromFront(events: seq<Event>, n: nat)
    requires Meaningful(events) && events != [] && events[0].Data? && 0 < n <= |events[0].bytes|
    ensures var left := Rest(events, n);
            && Meaningful(left) && Pending(left) < Pending(events) && EndsNow(left) == EndsNow(events)
            && n <= |Ready(events)| && Ready(events)[..n] == events[0].bytes[..n] && Ready(left) == Ready(events)[n..]
            && n <= |Stream(events)| && Stream(left) == Stream(events)[n..]
  {
    var bytes, behind, left := events[0].bytes, events[1..], Rest(events, n);
    DropFirst(bytes, Ready(behind), n);
    DropFirst(bytes, Stream(behind), n);
    if n < |bytes| {
      assert left[0] == Data(bytes[n..]) && left[1..] == behind;
    }
  }

  lemma FilledAlike(buffer: seq<Byte>, at: nat, a: seq<Byte>, b: seq<Byte>, n: nat)
    requires at + n <= |buffer| && n <= |a| && n <= |b| && a[..n] == b[..n]
    ensures Filled(buffer, at, a, n) == Filled(buffer, at, b, n)
  {
  }

  method CopyFirst(bytes: seq<Byte>, n: nat, buffer: array<Byte>, at: nat)
    requires n <= |bytes| && at + n <= buffer.Length
    modifies buffer
    ensures buffer[..] == Filled(old(buffer[..]), at, bytes, n)
  {
    forall k | 0 <= k < n {
      buffer[at + k] := bytes[k];
    }
  }

  class Socket {
    var incoming: seq<Event>
    var outgoing: seq<Byte>
    // what the next calls of send will do: -1 is an error, otherwise the room in the send buffer
    var room: seq<int>

    ghost predicate Valid()
      reads this
    {
      Meaningful(incoming)
    }

    /** recv: a positive count, 0 for a closed or broken connection, -1 for EWOULDBLOCK. */
    method Recv(buffer: array<Byte>, at: nat, n: nat) returns (rc: int)
      requires Valid() && n > 0 && at + n <= buffer.Length
      modifies this`incoming, buffer
      ensures Valid() && -1 <= rc <= n
      ensures rc > 0 <==> old(Ready(incoming)) != []
      ensures rc == 0 <==> old(Ready(incoming)) == [] && old(EndsNow(incoming))
      ensures rc > 0 ==> rc <= |old(Ready(incoming))| && rc <= |old(Stream(incoming))|
      ensures rc > 0 ==> Ready(incoming) == old(Ready(incoming))[rc..] && EndsNow(incoming) == old(EndsNow(incoming))
      ensures rc > 0 ==> buffer[..] == Filled(old(buffer[..]), at, old(Ready(incoming)), rc)
      ensures rc <= 0 ==> buffer[..] == old(buffer[..])
      ensures Stream(incoming) == old(Stream(incoming))[if rc > 0 then rc else 0..]
      ensures rc < 0 ==> incoming == if old(incoming) == [] then [] else old(incoming)[1..]
      ensures rc > 0 ==> Pending(incoming) < Pending(old(incoming))
    {
      if incoming == [] {
        return -1;
      }
      match incoming[0]
      case End =>
        return 0;
      case Block =>
        incoming := incoming[1..];
        return -1;
      case Data(bytes) =>
        assert bytes != [];
        rc := if |bytes| <= n then |bytes| else n;
        TakenFromFront(incoming, rc);
        hide Ready, Stream, EndsNow, Pending, Meaningful, Rest, Filled;
        FilledAlike(buffer[..], at, Ready(incoming), bytes, rc);
        CopyFirst(bytes, rc, buffer, at);
        incoming := Rest(incoming, rc);
    }

    /** send: the count taken, or -1. */
    method Send(data: seq<Byte>) returns (sent: int)
      modifies this`outgoing, this`room
      ensures -1 <= sent <= |data|
      ensures sent >= 0 ==> outgoing == old(outgoing) + data[..sent]
      ensures sent == -1 ==> outgoing == old(outgoing) && (room == [] || room[0] < 0)
      ensures sent != -1 ==> |room| < |old(room)|
    {
      if room == [] || room[0] < 0 {
        return -1;
      }
      sent := if room[0] <= |data| then room[0] else |data|;
      outgoing := outgoing + data[..sent];
      room := room[1..];
    }

    /** SharedSocket::read: the bytes that are ready, up to readSize, in however many portions; an
        error when the connection ends before readSize bytes have come. */
    method Read(data: array<Byte>, at: nat, readSize: nat) returns (r: int)
      requires Valid() && readSize > 0 && at + readSize <= data.Length
      modifies this`incoming, data
      ensures Valid()
      ensures r == (if |old(Ready(incoming))| >= readSize then readSize
                    else if old(EndsNow(incoming)) then SOCKET_ERROR
                    else |old(Ready(incoming))|)
      ensures data[..at] == old(data[..at])
      ensures r != SOCKET_ERROR ==>
                && r <= |old(Ready(incoming))|
                && data[..] == Filled(old(data[..]), at, old(Ready(incoming)), r)
                && r <= |old(Stream(incoming))|
                && Stream(incoming) == old(Stream(incoming))[r..]
    {
      ReadyComesFirst(incoming);
      hide Stream, Ready, EndsNow, Meaningful, Pending, Filled;
      ghost var was, ready, stream := data[..], Ready(incoming), Stream(incoming);
      NothingFilled(was, at, ready);
      var readBytes := 0;
      while true
        invariant Valid() && 0 <= readBytes < readSize
        invariant readBytes <= |ready| && Ready(incoming) == ready[readBytes..]
        invariant Stream(incoming) == stream[readBytes..]
        invariant data[..] == Filled(was, at, ready, readBytes) && data[..at] == was[..at]
        invariant EndsNow(incoming) == EndsNow(old(incoming))
        decreases Pending(incoming)
      {
        var rc := Recv(data, at + readBytes, readSize - readBytes);
        if rc < 0 {
          break;
        } else if rc == 0 {
          return SOCKET_ERROR;
        }
        PortionFills(was, at, ready, readBytes, rc);
        assert stream[readBytes..][rc..] == stream[readBytes + rc..];
        if rc == readSize - readBytes {
          return readSize;
        } else {
          readBytes := readBytes + rc;
        }
      }
      return readBytes;
    }

    /** SharedSocket::write: everything, or an error after some prefix of it. */
    method Write(data: seq<Byte>) returns (r: int, ghost total: nat)
      modifies this`outgoing, this`room
      ensures total <= |data| && outgoing == old(outgoing) + data[..total]
      ensures r != SOCKET_ERROR <==> total == |data| && data != []
      ensures r != SOCKET_ERROR ==> 0 < r <= |data|
      ensures r == SOCKET_ERROR && data != [] ==> room == [] || room[0] < 0
    {
      ghost var was := outgoing;
      var totalSent := 0;
      assert was + data[..0] == was;
      while totalSent != |data|
        invariant 0 <= totalSent <= |data|
        invariant data != [] ==> totalSent < |data|
        invariant outgoing == was + data[..totalSent]
        decreases |room|
      {
        var sent := Send(data[totalSent..]);
        if sent == -1 {
          return SOCKET_ERROR, totalSent;
        }
        assert data[..totalSent] + data[totalSent..][..sent] == data[..totalSent + sent];
        assert was + data[..totalSent] + data[totalSent..][..sent] == was + data[..totalSent + sent];
        if sent == |data| - totalSent {
          return sent, |data|;
        }
        totalSent := totalSent + sent;
      }
      return SOCKET_ERROR, totalSent;
    }
  }

  lemma {:induction false} ReadyComesFirst(events: seq<Event>)
    ensures Ready(events) <= Stream(events)
    decreases |events|
  {
    if events != [] && events[0].Data? {
      ReadyComesFirst(events[1..]);
    }
  }

  lemma NothingFilled(was: seq<Byte>, at: nat, bytes: seq<Byte>)
    requires at <= |was|
    ensures Filled(was, at, bytes, 0) == was
  {
  }

  lemma PortionFills(was: seq<Byte>, at: nat, bytes: seq<Byte>, n: nat, rc: nat)
    requires at + n + rc <= |was| && n + rc <= |bytes|
    ensures |Filled(was, at, bytes, n)| == |was|
    ensures Filled(Filled(was, at, bytes, n), at + n, bytes[n..], rc) == Filled(was, at, bytes, n + rc)
    ensures Filled(was, at, bytes, n + rc)[..at] == was[..at]
    ensures bytes[n..][rc..] == bytes[n + rc..]
  {
  }
}
