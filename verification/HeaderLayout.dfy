/** What the stack of headers yields for headers that lie one behind the other in the buffer, each of
    which says its own length in its own way. */
module HeaderLayout {
  import opened Bytes
  import opened HeaderStack

  predicate Nibbles(b: Byte, high: nat, low: nat) {
    high < 0x10 && low < 0x10 && b == 0x10 * high + low
  }

  /** The bytes are a header of this kind that gives its own length: an IP header in words of four bytes in
      the low half of its first byte (section 3.1 of RFC 791), a TCP header in words in the high half of
      its thirteenth (section 3.1 of RFC 9293), an SCTP chunk in bytes in its third and fourth, the
      high one first (section 3.2 of RFC 9260). */
  ghost predicate SaysItsLength(kind: Kind, h: seq<Byte>) {
    match kind
    case Fixed(length) => |h| == length < U16
    case Ip4 => h != [] && |h| % 4 == 0 && exists version: nat :: Nibbles(h[0], version, |h| / 4)
    case Tcp => |h| > 12 && |h| % 4 == 0 && exists flags: nat :: Nibbles(h[12], |h| / 4, flags)
    case SctpChunk => 4 <= |h| < U16 && h[2] == |h| / 0x100 && h[3] == |h| % 0x100
  }

  function Concat(hs: seq<seq<Byte>>): seq<Byte> {
    if hs == [] then [] else Concat(hs[..|hs| - 1]) + hs[|hs| - 1]
  }

  /** Headers of these kinds, each with its length. */
  ghost predicate Headers(ks: seq<Kind>, hs: seq<seq<Byte>>) {
    |hs| == |ks| && forall i: nat | i < |ks| :: SaysItsLength(ks[i], hs[i])
  }

  /** The headers lie one behind the other in the buffer, from the base on. */
  predicate LieIn(hs: seq<seq<Byte>>, v: View) {
    Offset(v) + |Concat(hs)| <= |v.buf| && v.buf[Offset(v)..Offset(v) + |Concat(hs)|] == Concat(hs)
  }

  lemma NibblesAre(b: Byte, high: nat, low: nat)
    requires Nibbles(b, high, low)
    ensures HighNibble(b) == high && LowNibble(b) == low
  {
  }

  lemma ByteOfHeader(h: seq<Byte>, buf: seq<Byte>, at: nat, i: nat)
    requires at + |h| <= |buf| && buf[at..at + |h|] == h && i < |h|
    ensures ByteAt(buf, at + i) == h[i]
  {
    assert buf[at + i] == buf[at..at + |h|][i];
  }

  /** Such a header at its place has the size that it says. */
  lemma SizeOfHeader(kind: Kind, h: seq<Byte>, buf: seq<Byte>, at: nat)
    requires SaysItsLength(kind, h) && at + |h| <= |buf| && buf[at..at + |h|] == h
    ensures SizeAt(kind, buf, at) == |h|
  {
    hide ByteAt, HighNibble, LowNibble;
    match kind
    case Fixed(_) =>
    case Ip4 =>
      var version: nat :| Nibbles(h[0], version, |h| / 4);
      NibblesAre(h[0], version, |h| / 4);
      ByteOfHeader(h, buf, at, 0);
    case Tcp =>
      var flags: nat :| Nibbles(h[12], |h| / 4, flags);
      NibblesAre(h[12], |h| / 4, flags);
      ByteOfHeader(h, buf, at, 12);
    case SctpChunk =>
      ByteOfHeader(h, buf, at, 2);
      ByteOfHeader(h, buf, at, 3);
  }

  lemma LieSplits(hs: seq<seq<Byte>>, v: View)
    requires hs != [] && LieIn(hs, v)
    ensures var below, h := hs[..|hs| - 1], hs[|hs| - 1];
            var at := Offset(v) + |Concat(below)|;
            && |Concat(hs)| == |Concat(below)| + |h|
            && LieIn(below, v) && at + |h| <= |v.buf| && v.buf[at..at + |h|] == h
  {
    hide Offset;
    var below, h, o := Concat(hs[..|hs| - 1]), hs[|hs| - 1], Offset(v);
    assert Concat(hs) == below + h;
    assert v.buf[o..o + |below|] == v.buf[o..o + |below| + |h|][..|below|];
    assert v.buf[o + |below|..o + |below| + |h|] == v.buf[o..o + |below| + |h|][|below|..];
  }

  lemma HeadersSplit(ks: seq<Kind>, hs: seq<seq<Byte>>)
    requires ks != [] && Headers(ks, hs)
    ensures Headers(Below(ks), hs[..|hs| - 1]) && SaysItsLength(Top(ks), hs[|hs| - 1])
  {
    hide SaysItsLength;
  }

  /** Main result: for headers laid out one behind the other, of any kinds and to any depth, the sizes add
      up to their lengths, and the top header and the payload are found where they lie. */
  lemma {:induction false} StackOfHeaders(ks: seq<Kind>, hs: seq<seq<Byte>>, v: View)
    requires Headers(ks, hs) && LieIn(hs, v) && |Concat(hs)| < U16
    ensures FullSize(ks, v) == |Concat(hs)| && Payload(ks, v) == Offset(v) + |Concat(hs)| && NoWrap(ks, v)
    ensures ks != [] ==>
              && Hdr(ks, v) == Offset(v) + |Concat(hs[..|hs| - 1])|
              && TopSize(ks, v) == |hs[|hs| - 1]|
              && v.buf[Hdr(ks, v)..Payload(ks, v)] == hs[|hs| - 1]
    decreases |ks|
  {
    if ks == [] {
    } else {
      hide *;
      HeadersSplit(ks, hs);
      LieSplits(hs, v);
      StackOfHeaders(Below(ks), hs[..|hs| - 1], v);
      OneHeaderOn(ks, v, hs[|hs| - 1]);
    }
  }

  /** A header where those below it end. */
  lemma OneHeaderOn(ks: seq<Kind>, v: View, h: seq<Byte>)
    requires ks != [] && SaysItsLength(Top(ks), h) && NoWrap(Below(ks), v)
    requires Payload(Below(ks), v) == Offset(v) + FullSize(Below(ks), v)
    requires var at := Payload(Below(ks), v); at + |h| <= |v.buf| && v.buf[at..at + |h|] == h
    requires FullSize(Below(ks), v) + |h| < U16
    ensures FullSize(ks, v) == FullSize(Below(ks), v) + |h| && NoWrap(ks, v)
    ensures Hdr(ks, v) == Payload(Below(ks), v) && TopSize(ks, v) == |h|
    ensures Payload(ks, v) == Hdr(ks, v) + |h| && v.buf[Hdr(ks, v)..Payload(ks, v)] == h
  {
    hide SaysItsLength, SizeAt, Offset;
    SizeOfHeader(Top(ks), h, v.buf, Hdr(ks, v));
    FullSizeStep(ks, v);
  }

  // ---------- the length that getLength reports ----------

  /** The total length of an IP header, in its third and fourth byte, the high one first. */
  predicate SaysTotal(h: seq<Byte>, total: nat) {
    |h| >= 4 && total < U16 && h[2] == total / 0x100 && h[3] == total % 0x100
  }

  lemma TotalOfHeader(h: seq<Byte>, total: nat, buf: seq<Byte>, at: nat)
    requires SaysTotal(h, total) && at + |h| <= |buf| && buf[at..at + |h|] == h
    ensures TotalLength(buf, at) == total
  {
    assert buf[at + 2] == buf[at..at + |h|][2] && buf[at + 3] == buf[at..at + |h|][3];
  }

  /** Main result: getLength is the total length that the nearest IP header from the top says, ... */
  lemma {:induction false} LengthOfHeaders(ks: seq<Kind>, hs: seq<seq<Byte>>, v: View, i: nat, total: nat)
    requires Headers(ks, hs) && LieIn(hs, v) && |Concat(hs)| < U16
    requires i < |ks| && ks[i].Ip4? && SaysTotal(hs[i], total)
    requires forall j: nat | i < j < |ks| :: !ks[j].Ip4?
    ensures Length(ks, v) == total
    decreases |ks|
  {
    StackOfHeaders(ks, hs, v);
    HeadersSplit(ks, hs);
    LieSplits(hs, v);
    hide Headers, LieIn, Concat, FullSize, Offset, SaysTotal;
    if i == |ks| - 1 {
      TotalOfHeader(hs[i], total, v.buf, Hdr(ks, v));
    } else {
      assert forall j: nat | i < j < |Below(ks)| :: Below(ks)[j] == ks[j];
      LengthOfHeaders(Below(ks), hs[..|hs| - 1], v, i, total);
    }
  }

  /** ... of which payloadLength takes all headers off; ... */
  lemma PayloadLengthOfHeaders(ks: seq<Kind>, hs: seq<seq<Byte>>, v: View, i: nat, total: nat)
    requires Headers(ks, hs) && LieIn(hs, v) && |Concat(hs)| < U16
    requires i < |ks| && ks[i].Ip4? && SaysTotal(hs[i], total)
    requires forall j: nat | i < j < |ks| :: !ks[j].Ip4?
    ensures |Concat(hs)| <= total ==> PayloadLength(ks, v) == total - |Concat(hs)|
  {
    StackOfHeaders(ks, hs, v);
    LengthOfHeaders(ks, hs, v, i, total);
    hide Headers, LieIn, FullSize, Length;
  }

  /** ... and without one it is the base's: what the packet header in the buffer says, or, for a base with an
      offset of its own, so much less as that lies further on. */
  lemma BaseOfPacket(ks: seq<Kind>, v: View, length: nat, offset: nat)
    requires |v.buf| >= PACKET_HEADER && length < U16 && offset < U16 && !HasIp4(ks)
    requires v.buf[..2] == Store16(length) && v.buf[2..4] == Store16(offset)
    ensures v.base.InBuffer? ==> Offset(v) == offset && Length(ks, v) == length
    ensures v.base.Own? && offset <= v.base.offset <= offset + length ==>
              Offset(v) == v.base.offset && Length(ks, v) == offset + length - v.base.offset
  {
    LengthOfBase(ks, v);
    hide Length, HasIp4;
    Load16Of(length);
    Load16Of(offset);
    assert v.buf[0] == v.buf[..2][0] && v.buf[1] == v.buf[..2][1];
    assert v.buf[2] == v.buf[2..4][0] && v.buf[3] == v.buf[2..4][1];
  }

  // ---------- what push and rebase leave ----------

  lemma BytesBehind(v: View, length: nat, size: nat)
    requires |v.buf| >= PACKET_HEADER
    ensures |Advance(v, length, size).buf| == |v.buf|
    ensures Advance(v, length, size).buf[PACKET_HEADER..] == v.buf[PACKET_HEADER..]
  {
    hide ToU16;
  }

  lemma SameTail(a: seq<Byte>, b: seq<Byte>, from: nat)
    requires |a| == |b| && PACKET_HEADER <= from <= |a| && a[PACKET_HEADER..] == b[PACKET_HEADER..]
    ensures a[from..] == b[from..]
  {
    assert a[from..] == a[PACKET_HEADER..][from - PACKET_HEADER..];
    assert b[from..] == b[PACKET_HEADER..][from - PACKET_HEADER..];
  }

  /** The bytes of a buffer that a base shows. */
  function Shown(v: View): seq<Byte>
    requires Offset(v) <= |v.buf|
  {
    v.buf[Offset(v)..]
  }

  /** Main result: a base that shows headers and then a payload shows exactly the payload after push, and
      the top header with the payload after rebase. */
  lemma WhatIsShown(ks: seq<Kind>, hs: seq<seq<Byte>>, payload: seq<Byte>, v: View)
    requires Headers(ks, hs) && |v.buf| >= PACKET_HEADER && PACKET_HEADER <= Offset(v) <= |v.buf|
    requires Shown(v) == Concat(hs) + payload && Offset(v) + |Concat(hs)| < U16
    ensures Offset(Push(ks, v)) <= |Push(ks, v).buf| && Shown(Push(ks, v)) == payload
    ensures ks != [] ==>
              && Offset(Rebase(ks, v)) <= |Rebase(ks, v).buf|
              && Shown(Rebase(ks, v)) == hs[|hs| - 1] + payload
  {
    assert |hs| == |ks|;
    hide *;
    LieWhereShown(hs, payload, v);
    StackOfHeaders(ks, hs, v);
    PushAdvances(ks, v);
    ShownAfter(v, Length(ks, v), Concat(hs), payload);
    if ks != [] {
      var below, h := Concat(hs[..|hs| - 1]), hs[|hs| - 1];
      ConcatSplits(hs, payload);
      RebaseAdvances(ks, v);
      ShownAfter(v, Length(ks, v), below, h + payload);
    }
  }

  lemma PushAdvances(ks: seq<Kind>, v: View)
    requires |v.buf| >= PACKET_HEADER
    ensures Push(ks, v) == Advance(v, Length(ks, v), FullSize(ks, v))
    ensures Payload(ks, v) == Offset(v) + FullSize(ks, v)
    ensures PayloadLength(ks, v) == ToU16(Length(ks, v) as int - FullSize(ks, v))
  {
    hide Advance, FullSize, Length, Offset, ToU16;
  }

  lemma RebaseAdvances(ks: seq<Kind>, v: View)
    requires |v.buf| >= PACKET_HEADER && ks != []
    ensures Hdr(ks, v) == Offset(v) + FullSize(Below(ks), v)
    ensures Rebase(ks, v) == Advance(v, Length(ks, v), FullSize(Below(ks), v))
  {
    hide Advance, FullSize, Length, Offset, Below;
  }

  lemma ConcatSplits(hs: seq<seq<Byte>>, payload: seq<Byte>)
    requires hs != []
    ensures var below, h := Concat(hs[..|hs| - 1]), hs[|hs| - 1];
            Concat(hs) + payload == below + (h + payload) && |Concat(hs)| == |below| + |h|
  {
    var below, h := Concat(hs[..|hs| - 1]), hs[|hs| - 1];
    assert (below + h) + payload == below + (h + payload);
  }

  lemma LieWhereShown(hs: seq<seq<Byte>>, payload: seq<Byte>, v: View)
    requires Offset(v) <= |v.buf| && Shown(v) == Concat(hs) + payload
    ensures LieIn(hs, v)
  {
    hide Offset, Concat;
    ShownSplits(v.buf, Offset(v), Concat(hs), payload);
  }

  /** Moving the base past the front of what it shows. */
  lemma ShownAfter(v: View, length: nat, front: seq<Byte>, back: seq<Byte>)
    requires |v.buf| >= PACKET_HEADER && PACKET_HEADER <= Offset(v) <= |v.buf|
    requires Shown(v) == front + back && Offset(v) + |front| < U16
    ensures Offset(Advance(v, length, |front|)) <= |Advance(v, length, |front|).buf|
    ensures Shown(Advance(v, length, |front|)) == back
  {
    hide Advance, Offset, ToU16;
    ShownSplits(v.buf, Offset(v), front, back);
    Moved(v, length, |front|);
  }

  lemma ShownSplits(buf: seq<Byte>, o: nat, front: seq<Byte>, back: seq<Byte>)
    requires o <= |buf| && buf[o..] == front + back
    ensures o + |front| <= |buf| && buf[o..o + |front|] == front && buf[o + |front|..] == back
  {
    assert buf[o..o + |front|] == buf[o..][..|front|];
    assert buf[o + |front|..] == buf[o..][|front|..];
  }

  lemma Moved(v: View, length: nat, size: nat)
    requires |v.buf| >= PACKET_HEADER && PACKET_HEADER <= Offset(v) && Offset(v) + size < U16
    requires Offset(v) + size <= |v.buf|
    ensures Offset(Advance(v, length, size)) == Offset(v) + size <= |Advance(v, length, size).buf|
    ensures Shown(Advance(v, length, size)) == v.buf[Offset(v) + size..]
  {
    OffsetAfter(v, length, size);
    BytesBehind(v, length, size);
    hide Advance, Offset;
    SameTail(Advance(v, length, size).buf, v.buf, Offset(v) + size);
  }

  /** What kind of base push leaves, and where that keeps length and offset: a PacketPtr, which stores them
      in the buffer, also from a PacketOffsetPtr; only PktOffset leaves its like and the buffer alone. */
  lemma BaseOfPush(ks: seq<Kind>, v: View)
    requires Reachable(ks, v)
    ensures var v', at := Push(ks, v), Payload(ks, v);
            && |v'.buf| == |v.buf|
            && v'.buf[PACKET_HEADER..] == v.buf[PACKET_HEADER..]
            && (if v.base.Own? && v.base.again then v'.base == Own(at, true) && v'.buf == v.buf
                else
                  && v'.base == InBuffer
                  && v'.buf[..2] == Store16(PayloadLength(ks, v)) && v'.buf[2..4] == Store16(at))
  {
    PushAdvances(ks, v);
    assert |v.buf| >= PACKET_HEADER && Payload(ks, v) < U16;
    hide *;
    BytesBehind(v, Length(ks, v), FullSize(ks, v));
    BaseAfter(v, Length(ks, v), FullSize(ks, v));
  }

  lemma BaseAfter(v: View, length: nat, size: nat)
    requires |v.buf| >= PACKET_HEADER && Offset(v) + size < U16
    ensures var v' := Advance(v, length, size);
            if v.base.Own? && v.base.again then v'.base == Own(Offset(v) + size, true) && v'.buf == v.buf
            else
              && v'.base == InBuffer && |v'.buf| == |v.buf|
              && v'.buf[..2] == Store16(ToU16(length as int - size)) && v'.buf[2..4] == Store16(Offset(v) + size)
  {
    hide StoreHeader, Offset, Store16, ToU16, HeaderLength, HeaderOffset;
    var at := Offset(v) + size;
    assert ToU16(at) == at;
    if !(v.base.Own? && v.base.again) {
      StoredHeader(v.buf, ToU16(length as int - size), at);
    }
  }

  lemma StoredHeader(buf: seq<Byte>, length: nat, offset: nat)
    requires |buf| >= PACKET_HEADER && length < U16 && offset < U16
    ensures var r := StoreHeader(buf, length, offset); r[..2] == Store16(length) && r[2..4] == Store16(offset)
  {
    hide HeaderLength, HeaderOffset;
  }
}
