/**
 A packet buffer seen through a stack of protocol headers, and what moving the base of the stack
 forward (rebase, push) does to the addresses and lengths that the stack yields.

 All sizes, offsets and lengths are 16-bit and wrap as they do in the code; an address is the
 buffer's plus an offset plus a size, and that sum is not wrapped again.
 */
module HeaderStack {
  import opened Bytes

  /** The header kinds by where they find their own size: in their type, or in their bytes. */
  datatype Kind = Fixed(length: nat) | Ip4 | Tcp | SctpChunk

  /** Where a base pointer keeps its offset: in the packet header at the start of the buffer
      (PacketPtr), or in itself (PacketOffsetPtr). The latter's BaseType is PacketPtr, unless a class
      derived from it declares itself again, as PktOffset does. */
  datatype Base = InBuffer | Own(offset: nat, again: bool)

  /** A base pointer and the bytes of the buffer it points to. */
  datatype View = View(base: Base, buf: seq<Byte>)

  /** The packet header at the start of a buffer: two 16-bit fields, length and offset. */
  const PACKET_HEADER := 4

  function ByteAt(buf: seq<Byte>, at: nat): Byte {
    if at < |buf| then buf[at] else 0
  }

  function HeaderLength(buf: seq<Byte>): (n: nat)
    ensures n < U16
  {
    Load16(ByteAt(buf, 0), ByteAt(buf, 1))
  }

  function HeaderOffset(buf: seq<Byte>): (n: nat)
    ensures n < U16
  {
    Load16(ByteAt(buf, 2), ByteAt(buf, 3))
  }

  /** getOffset of the two pointer classes */
  function Offset(v: View): nat {
    if v.base.InBuffer? then HeaderOffset(v.buf) else v.base.offset
  }

  /** getLength of the two pointer classes */
  function BaseLength(v: View): (n: nat)
    ensures n < U16
  {
    if v.base.InBuffer? then HeaderLength(v.buf)
    else ToU16(HeaderLength(v.buf) - (v.base.offset - HeaderOffset(v.buf)))
  }

  // ---------- a stack of headers, the top one last ----------

  /** size of a header that starts at `at`; an IP header's low nibble counts words, so does a TCP
      header's data offset, and an SCTP chunk has its length in network order. */
  function SizeAt(kind: Kind, buf: seq<Byte>, at: nat): (n: nat)
    ensures n < U16
  {
    match kind
    case Fixed(length) => ToU16(length)
    case Ip4 => LowNibble(ByteAt(buf, at)) * 4
    case Tcp => HighNibble(ByteAt(buf, at + 12)) * 4
    case SctpChunk => Load16(ByteAt(buf, at + 3), ByteAt(buf, at + 2))
  }

  function Below(ks: seq<Kind>): seq<Kind>
    requires ks != []
  {
    ks[..|ks| - 1]
  }

  function Top(ks: seq<Kind>): Kind
    requires ks != []
  {
    ks[|ks| - 1]
  }

  /** fullSize */
  function FullSize(ks: seq<Kind>, v: View): (size: nat)
    ensures size < U16
    decreases |ks|
  {
    if ks == [] then 0
    else ToU16(SizeAt(Top(ks), v.buf, Offset(v) + FullSize(Below(ks), v)) + FullSize(Below(ks), v))
  }

  /** hdr, as an offset into the buffer */
  function Hdr(ks: seq<Kind>, v: View): nat
    requires ks != []
  {
    Offset(v) + FullSize(Below(ks), v)
  }

  /** size of the top header */
  function TopSize(ks: seq<Kind>, v: View): (n: nat)
    requires ks != []
    ensures n < U16
  {
    SizeAt(Top(ks), v.buf, Hdr(ks, v))
  }

  /** payload, as an offset into the buffer */
  function Payload(ks: seq<Kind>, v: View): nat {
    Offset(v) + FullSize(ks, v)
  }

  /** total_length of an IP header, in network order */
  function TotalLength(buf: seq<Byte>, at: nat): (n: nat)
    ensures n < U16
  {
    Load16(ByteAt(buf, at + 3), ByteAt(buf, at + 2))
  }

  predicate HasIp4(ks: seq<Kind>)
    decreases |ks|
  {
    ks != [] && (Top(ks).Ip4? || HasIp4(Below(ks)))
  }

  /** getLength: the nearest Ip4 layer overrides that of the base. */
  function Length(ks: seq<Kind>, v: View): (n: nat)
    ensures n < U16
    decreases |ks|
  {
    if ks == [] then BaseLength(v)
    else if Top(ks).Ip4? then TotalLength(v.buf, Hdr(ks, v))
    else Length(Below(ks), v)
  }

  function PayloadLength(ks: seq<Kind>, v: View): nat {
    ToU16(Length(ks, v) - FullSize(ks, v))
  }

  // ---------- moving the base forward ----------

  /** setLength and setOffset of PacketPtr */
  function StoreHeader(buf: seq<Byte>, length: nat, offset: nat): (r: seq<Byte>)
    requires |buf| >= PACKET_HEADER && length < U16 && offset < U16
    ensures |r| == |buf| && HeaderLength(r) == length && HeaderOffset(r) == offset
    ensures r[PACKET_HEADER..] == buf[PACKET_HEADER..]
  {
    buf[0 := length % 0x100][1 := length / 0x100][2 := offset % 0x100][3 := offset / 0x100]
  }

  /** What the pointers' constructors make of a length and an offset: PacketPtr stores both in the
      buffer, PacketOffsetPtr keeps the offset and leaves the length alone. */
  function Construct(base: Base, buf: seq<Byte>, length: nat, offset: nat): View
    requires |buf| >= PACKET_HEADER && length < U16 && offset < U16
  {
    if base.InBuffer? then View(InBuffer, StoreHeader(buf, length, offset)) else View(Own(offset, base.again), buf)
  }

  /** BaseType */
  function BaseType(base: Base): Base {
    if base.Own? && base.again then base else InBuffer
  }

  /** The base that rebase and push make stores the length that it is given. */
  predicate StoresLength(v: View) {
    BaseType(v.base).InBuffer?
  }

  /** The base moved forward by `size` bytes of a stack whose getLength says `length`. */
  function Advance(v: View, length: nat, size: nat): View
    requires |v.buf| >= PACKET_HEADER
  {
    Construct(BaseType(v.base), v.buf, ToU16(length - size), ToU16(Offset(v) + size))
  }

  /** rebase: the headers below the top one are taken off. */
  function Rebase(ks: seq<Kind>, v: View): View
    requires ks != [] && |v.buf| >= PACKET_HEADER
  {
    Advance(v, Length(ks, v), FullSize(Below(ks), v))
  }

  /** push: all headers are taken off. */
  function Push(ks: seq<Kind>, v: View): View
    requires |v.buf| >= PACKET_HEADER
  {
    Advance(v, Length(ks, v), FullSize(ks, v))
  }

  lemma OffsetAfter(v: View, length: nat, size: nat)
    requires |v.buf| >= PACKET_HEADER
    ensures Offset(Advance(v, length, size)) == ToU16(Offset(v) + size)
  {
    hide ToU16;
  }

  lemma LessOffset(lengthAndOffset: int, at: int, size: int)
    ensures ToU16(lengthAndOffset - ToU16(at + size)) == ToU16(ToU16(lengthAndOffset - at) - size)
  {
    hide ToU16;
    WrapFirst(lengthAndOffset, at + size);
    WrapFirst(lengthAndOffset - at, size);
  }

  /** The new base's length is the one given if it is a PacketPtr, and otherwise the old base's less the
      bytes passed. */
  lemma LengthAfter(v: View, length: nat, size: nat)
    requires |v.buf| >= PACKET_HEADER
    ensures BaseLength(Advance(v, length, size)) == ToU16((if StoresLength(v) then length else BaseLength(v)) - size)
  {
    hide ToU16, HeaderLength, HeaderOffset, StoreHeader;
    if !StoresLength(v) {
      var lengthAndOffset := HeaderLength(v.buf) + HeaderOffset(v.buf);
      LessOffset(lengthAndOffset, v.base.offset, size);
      assert HeaderLength(v.buf) - (v.base.offset - HeaderOffset(v.buf)) == lengthAndOffset - v.base.offset;
    }
  }

  lemma ByteKept(v: View, length: nat, size: nat, at: nat)
    requires |v.buf| >= PACKET_HEADER && at >= PACKET_HEADER
    ensures ByteAt(Advance(v, length, size).buf, at) == ByteAt(v.buf, at)
  {
    hide ToU16;
    var b, b' := v.buf, Advance(v, length, size).buf;
    assert b'[PACKET_HEADER..] == b[PACKET_HEADER..];
    if at < |b| {
      assert b[at] == b[PACKET_HEADER..][at - PACKET_HEADER];
      assert b'[at] == b'[PACKET_HEADER..][at - PACKET_HEADER];
    }
  }

  /** Beyond the packet header, a header says of itself what it said before. */
  lemma HeaderKept(kind: Kind, v: View, length: nat, size: nat, at: nat)
    requires |v.buf| >= PACKET_HEADER && at >= PACKET_HEADER
    ensures SizeAt(kind, Advance(v, length, size).buf, at) == SizeAt(kind, v.buf, at)
    ensures TotalLength(Advance(v, length, size).buf, at) == TotalLength(v.buf, at)
  {
    ByteKept(v, length, size, at);
    ByteKept(v, length, size, at + 2);
    ByteKept(v, length, size, at + 3);
    ByteKept(v, length, size, at + 12);
    hide Advance, ByteAt;
  }

  // ---------- a base moved past some headers, seen through the rest ----------

  /** No sum of sizes on the way up the stack reaches 2^16. */
  predicate NoWrap(ks: seq<Kind>, v: View)
    decreases |ks|
  {
    ks == [] || (NoWrap(Below(ks), v) && FullSize(Below(ks), v) + TopSize(ks, v) < U16)
  }

  /** The base can be moved past these headers: the place is behind the packet header, and fits the
      16-bit offset. */
  predicate Reachable(ks: seq<Kind>, v: View) {
    |v.buf| >= PACKET_HEADER && PACKET_HEADER <= Payload(ks, v) < U16
  }

  lemma SplitTop(ks: seq<Kind>, more: seq<Kind>)
    requires more != []
    ensures ks + more != []
    ensures Top(ks + more) == Top(more) && Below(ks + more) == ks + Below(more)
  {
  }

  lemma NoWrapStep(ks: seq<Kind>, v: View)
    requires ks != [] && NoWrap(ks, v)
    ensures NoWrap(Below(ks), v) && FullSize(ks, v) == FullSize(Below(ks), v) + TopSize(ks, v)
  {
  }

  lemma FullSizeStep(ks: seq<Kind>, v: View)
    requires ks != []
    ensures FullSize(ks, v) == ToU16(TopSize(ks, v) + FullSize(Below(ks), v))
  {
    hide ToU16, SizeAt;
  }

  /** Main result: moving the base past the headers `ks` and laying the headers `more` on it gives the
      same payload as `ks` with `more` on top of them gave, for stacks of any depth. */
  lemma {:induction false} AdvanceKeepsPayload(ks: seq<Kind>, more: seq<Kind>, v: View, length: nat)
    requires Reachable(ks, v) && NoWrap(ks + more, v)
    ensures Payload(more, Advance(v, length, FullSize(ks, v))) == Payload(ks + more, v)
    decreases |more|
  {
    hide ToU16, SizeAt, Advance, NoWrap;
    var v' := Advance(v, length, FullSize(ks, v));
    OffsetAfter(v, length, FullSize(ks, v));
    if more == [] {
      assert ks + more == ks;
    } else {
      SplitTop(ks, more);
      NoWrapStep(ks + more, v);
      AdvanceKeepsPayload(ks, Below(more), v, length);
      HeaderKept(Top(more), v, length, FullSize(ks, v), Hdr(more, v'));
      FullSizeStep(more, v');
      hide *;
    }
  }

  lemma AdvanceKeepsHeader(ks: seq<Kind>, more: seq<Kind>, v: View, length: nat)
    requires Reachable(ks, v) && NoWrap(ks + more, v) && more != []
    ensures Hdr(more, Advance(v, length, FullSize(ks, v))) == Hdr(ks + more, v)
    ensures TopSize(more, Advance(v, length, FullSize(ks, v))) == TopSize(ks + more, v)
  {
    hide ToU16, SizeAt, Advance, NoWrap;
    var v' := Advance(v, length, FullSize(ks, v));
    SplitTop(ks, more);
    NoWrapStep(ks + more, v);
    OffsetAfter(v, length, FullSize(ks, v));
    AdvanceKeepsPayload(ks, Below(more), v, length);
    HeaderKept(Top(more), v, length, FullSize(ks, v), Hdr(more, v'));
  }

  /** getLength after the move: an Ip4 layer still speaks for itself; otherwise the new base does. */
  lemma {:induction false} LengthAbove(ks: seq<Kind>, more: seq<Kind>, v: View, length: nat)
    requires Reachable(ks, v) && NoWrap(ks + more, v)
    ensures var v' := Advance(v, length, FullSize(ks, v));
            if HasIp4(more) then Length(more, v') == Length(ks + more, v)
            else Length(more, v') == BaseLength(v') && Length(ks + more, v) == Length(ks, v)
    decreases |more|
  {
    hide ToU16, SizeAt, Advance, NoWrap, TotalLength, BaseLength, Offset;
    var v' := Advance(v, length, FullSize(ks, v));
    hide Reachable;
    if more == [] {
      assert ks + more == ks;
    } else {
      SplitTop(ks, more);
      NoWrapStep(ks + more, v);
      AdvanceKeepsHeader(ks, more, v, length);
      LengthAbove(ks, Below(more), v, length);
      BehindHeader(ks, more, v);
      HeaderKept(Top(more), v, length, FullSize(ks, v), Hdr(ks + more, v));
      hide Hdr;
    }
  }

  lemma BehindHeader(ks: seq<Kind>, more: seq<Kind>, v: View)
    requires Reachable(ks, v) && NoWrap(ks + more, v) && more != []
    ensures |v.buf| >= PACKET_HEADER && Hdr(ks + more, v) >= PACKET_HEADER
  {
    hide ToU16, SizeAt, NoWrap, Advance;
    SplitTop(ks, more);
    NoWrapStep(ks + more, v);
    OffsetAfter(v, 0, FullSize(ks, v));
    AdvanceKeepsPayload(ks, Below(more), v, 0);
  }

  /** Whether the payload's length survives the move as its address does:
      - with an Ip4 layer among `more`, whose length counts from that layer, only if the base did not
        move at all;
      - otherwise always if the new base is a PacketPtr, which stores what getLength said;
      - and if it is a PacketOffsetPtr exactly when getLength agreed with the base's. */
  predicate LengthMoves(ks: seq<Kind>, more: seq<Kind>, v: View) {
    if HasIp4(more) then FullSize(ks, v) == 0
    else StoresLength(v) || Length(ks, v) == BaseLength(v)
  }

  lemma AdvanceKeepsPayloadLength(ks: seq<Kind>, more: seq<Kind>, v: View)
    requires Reachable(ks, v) && NoWrap(ks + more, v)
    ensures PayloadLength(more, Advance(v, Length(ks + more, v), FullSize(ks, v))) == PayloadLength(ks + more, v)
            <==> LengthMoves(ks, more, v)
  {
    hide ToU16, HasIp4, Advance, FullSize, Length, NoWrap, BaseLength;
    var l, size := Length(ks + more, v), FullSize(ks, v);
    var v' := Advance(v, l, size);
    OffsetAfter(v, l, size);
    LengthAfter(v, l, size);
    AdvanceKeepsPayload(ks, more, v, l);
    LengthAbove(ks, more, v, l);
    var rest := FullSize(more, v');
    assert FullSize(ks + more, v) == size + rest;
    hide *;
    DifferBy(l - rest, size);
    if !HasIp4(more) {
      var n := if StoresLength(v) then l else BaseLength(v);
      WrapFirst(n - size, rest);
      SameAfter(n, l, size + rest);
    }
  }

  lemma DifferBy(a: int, c: nat)
    requires c < U16
    ensures ToU16(a) == ToU16(a - c) <==> c == 0
  {
    SameU16(a, a - c);
  }

  lemma SameAfter(a: nat, b: nat, c: int)
    requires a < U16 && b < U16
    ensures ToU16(a - c) == ToU16(b - c) <==> a == b
  {
    SameU16(a - c, b - c);
    assert (a - b) % U16 == 0 <==> a == b;
  }

  lemma OneHeader(ks: seq<Kind>)
    requires ks != []
    ensures Below(ks) + [Top(ks)] == ks
    ensures Top([Top(ks)]) == Top(ks) && Below([Top(ks)]) == []
    ensures HasIp4([Top(ks)]) <==> Top(ks).Ip4?
  {
    assert Below([Top(ks)]) == [];
  }

  /** Main result: rebase keeps what the top header sees, whatever lies below it. */
  lemma RebaseKeepsView(ks: seq<Kind>, v: View)
    requires ks != [] && Reachable(Below(ks), v) && NoWrap(ks, v)
    ensures var v', top := Rebase(ks, v), [Top(ks)];
            && Hdr(top, v') == Hdr(ks, v)
            && Payload(top, v') == Payload(ks, v)
            && (PayloadLength(top, v') == PayloadLength(ks, v) <==>
                if Top(ks).Ip4? then FullSize(Below(ks), v) == 0
                else StoresLength(v) || Length(Below(ks), v) == BaseLength(v))
  {
    hide ToU16, Advance, NoWrap, HasIp4, FullSize, Length, BaseLength, PayloadLength, Payload, Hdr;
    OneHeader(ks);
    AdvanceKeepsHeader(Below(ks), [Top(ks)], v, Length(ks, v));
    AdvanceKeepsPayload(Below(ks), [Top(ks)], v, Length(ks, v));
    AdvanceKeepsPayloadLength(Below(ks), [Top(ks)], v);
  }

  /** What payload() asserts before it hands out the address. */
  predicate MarkupFits(ks: seq<Kind>, v: View)
    requires ks != []
  {
    Length(ks, v) >= TopSize(ks, v)
  }

  /** Before rebase the assertion compares the length with the top header alone, afterwards, if the
      new base is a PacketPtr, with the whole stack; an Ip4 header is compared with itself both times. */
  lemma RebaseSharpensAssertion(ks: seq<Kind>, v: View)
    requires ks != [] && Reachable(Below(ks), v) && NoWrap(ks, v)
    ensures Top(ks).Ip4? ==> (MarkupFits([Top(ks)], Rebase(ks, v)) <==> MarkupFits(ks, v))
    ensures !Top(ks).Ip4? && StoresLength(v) && FullSize(Below(ks), v) <= Length(ks, v) ==>
              (MarkupFits([Top(ks)], Rebase(ks, v)) <==> Length(ks, v) >= FullSize(ks, v))
  {
    hide ToU16, Advance, NoWrap, HasIp4, FullSize, Length, BaseLength, Hdr;
    var l, size := Length(ks, v), FullSize(Below(ks), v);
    OneHeader(ks);
    NoWrapStep(ks, v);
    AdvanceKeepsHeader(Below(ks), [Top(ks)], v, l);
    LengthAbove(Below(ks), [Top(ks)], v, l);
    LengthAfter(v, l, size);
    hide *;
  }

  /** Main result: push leaves a base whose window is the payload; its length is the payload's unless it
      is a PacketOffsetPtr and the old one's length had been overridden. */
  lemma PushYieldsPayload(ks: seq<Kind>, v: View)
    requires Reachable(ks, v)
    ensures Offset(Push(ks, v)) == Payload(ks, v)
    ensures BaseLength(Push(ks, v)) == PayloadLength(ks, v) <==> StoresLength(v) || Length(ks, v) == BaseLength(v)
  {
    hide ToU16, Advance, FullSize, Length, BaseLength;
    var l, size := Length(ks, v), FullSize(ks, v);
    OffsetAfter(v, l, size);
    LengthAfter(v, l, size);
    hide *;
    SameAfter(if StoresLength(v) then l else BaseLength(v), l, size);
  }

  /** The end of the packet, offset plus length, stays put under rebase and push alike, as a 16-bit sum
      and under the same condition. */
  lemma AdvanceKeepsEnd(v: View, length: nat, size: nat)
    requires |v.buf| >= PACKET_HEADER && length < U16
    ensures ToU16(Offset(Advance(v, length, size)) + BaseLength(Advance(v, length, size))) == ToU16(Offset(v) + length)
            <==> StoresLength(v) || length == BaseLength(v)
  {
    hide ToU16, Advance, BaseLength;
    var n := if StoresLength(v) then length else BaseLength(v);
    OffsetAfter(v, length, size);
    LengthAfter(v, length, size);
    hide *;
    SumWraps(Offset(v) + size, n - size);
    SameAfter(n, length, 0 - Offset(v));
  }

  lemma SumWraps(a: int, b: int)
    ensures ToU16(ToU16(a) + ToU16(b)) == ToU16(a + b)
  {
    hide ToU16;
    WrapFirst(ToU16(a), b);
    WrapFirst(b, a);
  }

  /** Without an Ip4 layer getLength is the base's, so the conditions on lengths above hold. */
  lemma {:induction false} LengthOfBase(ks: seq<Kind>, v: View)
    requires !HasIp4(ks)
    ensures Length(ks, v) == BaseLength(v)
    decreases |ks|
  {
    if ks != [] {
      LengthOfBase(Below(ks), v);
    }
  }

  /** Which restriction rebase needs: the top header keeps its address exactly if that address fits the
      16-bit offset, and then its payload does exactly if the sum of the sizes does not wrap. */
  lemma RebaseExactly(ks: seq<Kind>, v: View)
    requires ks != [] && |v.buf| >= PACKET_HEADER && Hdr(ks, v) >= PACKET_HEADER
    ensures Hdr([Top(ks)], Rebase(ks, v)) == Hdr(ks, v) <==> Hdr(ks, v) < U16
    ensures Hdr(ks, v) < U16 ==>
              (Payload([Top(ks)], Rebase(ks, v)) == Payload(ks, v) <==> FullSize(Below(ks), v) + TopSize(ks, v) < U16)
  {
    hide ToU16, Advance, SizeAt, Length;
    var v', top, size := Rebase(ks, v), [Top(ks)], FullSize(Below(ks), v);
    OneHeader(ks);
    OffsetAfter(v, Length(ks, v), size);
    FullSizeStep(top, v');
    FullSizeStep(ks, v);
    if Hdr(ks, v) < U16 {
      HeaderKept(Top(ks), v, Length(ks, v), size, Hdr(ks, v));
      assert Hdr(top, v') == Hdr(ks, v);
      assert TopSize(top, v') == TopSize(ks, v);
    }
  }

  // ---------- the pointer classes ----------

  /** PacketPtr, and PacketOffsetPtr when not `inBuffer`; `again` says that its BaseType is itself. */
  class PacketPtr {
    const inBuffer: bool
    const again: bool
    var ptr: array?<Byte>
    var offset: nat

    predicate Valid()
      reads this, ptr
    {
      ptr != null && ptr.Length >= PACKET_HEADER && (inBuffer || offset < U16)
    }

    /** What the pointer stands for. */
    function Now(): View
      requires Valid()
      reads this, ptr
    {
      View(if inBuffer then InBuffer else Own(offset, again), ptr[..])
    }

    /** Takes a buffer over, with a length and an offset. */
    constructor (inBuffer: bool, again: bool, ptr: array<Byte>, length: nat, offset: nat)
      requires ptr.Length >= PACKET_HEADER && length < U16 && offset < U16
      modifies ptr
      ensures Valid() && this.ptr == ptr && this.inBuffer == inBuffer && this.again == again
      ensures Now() == Construct(if inBuffer then InBuffer else Own(0, again), old(ptr[..]), length, offset)
    {
      this.inBuffer, this.again, this.ptr, this.offset := inBuffer, again, ptr, 0;
      new;
      SetLength(length);
      SetOffset(offset);
    }

    method SetLength(length: nat)
      requires Valid() && length < U16
      modifies ptr
      ensures ptr[..] == if inBuffer then old(ptr[..])[0 := length % 0x100][1 := length / 0x100] else old(ptr[..])
    {
      if inBuffer {
        ptr[0], ptr[1] := length % 0x100, length / 0x100;
      }
    }

    method SetOffset(offset: nat)
      requires Valid() && offset < U16
      modifies this`offset, ptr
      ensures Valid() && ptr[..] == if inBuffer then old(ptr[..])[2 := offset % 0x100][3 := offset / 0x100]
          else old(ptr[..])
      ensures this.offset == if inBuffer then old(this.offset) else offset
    {
      if inBuffer {
        ptr[2], ptr[3] := offset % 0x100, offset / 0x100;
      } else {
        this.offset := offset;
      }
    }

    method GetLength() returns (n: nat)
      requires Valid()
      ensures n == BaseLength(Now())
    {
      n := Load16(ptr[0], ptr[1]);
      if !inBuffer {
        n := ToU16(n - (offset - Load16(ptr[2], ptr[3])));
      }
    }

    method GetOffset() returns (n: nat)
      requires Valid()
      ensures n == Offset(Now())
    {
      n := if inBuffer then Load16(ptr[2], ptr[3]) else offset;
    }

    /** Move assignment: the source gives its buffer up. */
    method MoveFrom(pkt: PacketPtr)
      requires pkt.Valid() && pkt != this && pkt.inBuffer == inBuffer && pkt.again == again
      modifies this, pkt
      ensures Valid() && ptr == old(pkt.ptr) && pkt.ptr == null && Now() == old(pkt.Now())
    {
      ptr, pkt.ptr := pkt.ptr, null;
      if !inBuffer {
        offset := pkt.offset;
      }
    }

    /** Gives the buffer up to a new base, moved forward. */
    method GiveUp(length: nat, size: nat) returns (base: PacketPtr)
      requires Valid()
      modifies this, ptr
      ensures ptr == null && fresh(base) && base.Valid() && base.ptr == old(ptr)
      ensures base.Now() == Advance(old(Now()), length, size)
    {
      ghost var before := Now();
      var at := Offset(Now());
      hide StoreHeader, ToU16, Offset;
      base := new PacketPtr(inBuffer || !again, again, ptr, ToU16(length as int - size), ToU16(at + size));
      assert base.Now() == Advance(before, length, size);
      ptr := null;
    }

    /** To a base that starts where the top header of the stack does. */
    method RebaseTo(ks: seq<Kind>) returns (base: PacketPtr)
      requires Valid() && ks != []
      modifies this, ptr
      ensures ptr == null && fresh(base) && base.Valid() && base.ptr == old(ptr)
      ensures base.Now() == Rebase(ks, old(Now()))
    {
      hide FullSize, Length, Advance;
      base := GiveUp(Length(ks, Now()), FullSize(Below(ks), Now()));
    }

    /** To a base that starts where the payload does. */
    method PushTo(ks: seq<Kind>) returns (base: PacketPtr)
      requires Valid()
      modifies this, ptr
      ensures ptr == null && fresh(base) && base.Valid() && base.ptr == old(ptr)
      ensures base.Now() == Push(ks, old(Now()))
    {
      hide FullSize, Length, Advance;
      base := GiveUp(Length(ks, Now()), FullSize(ks, Now()));
    }
  }
}
