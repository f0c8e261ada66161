/** Layers of a parsed packet and the bytes each of them contributes to the flow key. */
module FlowLayers {
  import opened Bytes

  datatype Type =
    | Vlan | Mpls | BidirMark | Eth | Ip4 | Tcp | Udp | Mtp | Mtp3 | Sccp | Isup | Sctp | SctpChunk | M2ua | M3ua
    | Unknown

  const TYPES: seq<Type> :=
    [Vlan, Mpls, BidirMark, Eth, Ip4, Tcp, Udp, Mtp, Mtp3, Sccp, Isup, Sctp, SctpChunk, M2ua, M3ua, Unknown]

  function Code(t: Type): (c: nat)
    ensures c < 16
  {
    match t
    case Vlan => 0 case Mpls => 1 case BidirMark => 2 case Eth => 3 case Ip4 => 4 case Tcp => 5 case Udp => 6
    case Mtp => 7 case Mtp3 => 8 case Sccp => 9 case Isup => 10 case Sctp => 11 case SctpChunk => 12
    case M2ua => 13 case M3ua => 14 case Unknown => 15
  }

  lemma CodeNamesType(t: Type)
    ensures TYPES[Code(t)] == t
  {
  }

  /** The types that getTypeLength and getTypeMask know. */
  predicate Known(t: Type) {
    t != BidirMark && t != Unknown
  }

  function TypeLength(t: Type): nat {
    match t
    case Vlan => 2 case Mpls => 2 case Eth => 12 case Ip4 => 8
    case Tcp => 4 case Udp => 4 case Mtp => 4 case Mtp3 => 4 case Sctp => 4
    case Sccp => 1 case Isup => 1
    case _ => 0
  }

  function TypeMask(t: Type): nat {
    match t
    case Vlan => 0xFF case Mpls => 0xFF case Mtp => 0x3FFF case Mtp3 => 0x3FFF
    case _ => 0
  }

  // ---------- the packed AddrOffset word ----------

  type Word = w: nat | w < 0x1_0000

  datatype Layer = Layer(type_: Type, offset: nat, mix: bool)

  /** AddrOffset::set, with its truncation to 16 bits. */
  function Pack(l: Layer): Word {
    (l.offset * 32 + (if l.mix then 16 else 0) + Code(l.type_)) % 0x1_0000
  }

  /** getType, getOffset and getMix of one word. */
  function Unpack(w: Word): Layer {
    Layer(TYPES[w % 16], w / 32, w / 16 % 2 == 1)
  }

  function UnsetMix(w: Word): Word {
    if w / 16 % 2 == 1 then w - 16 else w
  }

  /** Type and mix always come back; the offset only modulo 2048, although set's own assertion
      admits offsets up to 0x3FFF. So a layer comes back whole exactly when its offset is below 2048. */
  lemma PackRoundTrip(l: Layer)
    ensures Unpack(Pack(l)) == l.(offset := l.offset % 2048)
    ensures Unpack(Pack(l)) == l <==> l.offset < 2048
  {
    CodeNamesType(l.type_);
    PackFields(l.offset / 2048, l.offset % 2048, if l.mix then 1 else 0, Code(l.type_));
    hide Code;
    assert l.offset == 2048 * (l.offset / 2048) + l.offset % 2048;
  }

  lemma PackFields(q: nat, o: nat, m: nat, c: nat)
    requires o < 2048 && m < 2 && c < 16
    ensures var w := ((2048 * q + o) * 32 + m * 16 + c) % 0x1_0000;
            w % 16 == c && w / 16 % 2 == m && w / 32 == o
  {
    var low := o * 32 + m * 16 + c;
    assert (2048 * q + o) * 32 + m * 16 + c == low + q * 0x1_0000;
    assert (low + q * 0x1_0000) % 0x1_0000 == low;
    assert low / 16 == o * 2 + m;
  }

  lemma UnsetMixOnly(w: Word)
    ensures Unpack(UnsetMix(w)) == Unpack(w).(mix := false)
  {
    if w / 16 % 2 == 1 {
      assert (w - 16) / 16 == w / 16 - 1;
      assert (w - 16) / 32 == w / 32;
    }
  }

  // ---------- bit scans ----------

  /** bitScanForward: index of the lowest set bit. */
  function ScanForward(mask: nat): nat
    requires mask > 0
  {
    if mask % 2 == 1 then 0 else 1 + ScanForward(mask / 2)
  }

  /** bitScanReverse of the Linux build: one past the index of the highest set bit. */
  function ScanReverse(mask: nat): nat {
    if mask == 0 then 0 else 1 + ScanReverse(mask / 2)
  }

  function Pow2(n: nat): (p: nat)
    ensures p > 0
  {
    if n == 0 then 1 else 2 * Pow2(n - 1)
  }

  /** (v >> shift) & mask for a mask of low bits. */
  function Field(v: nat, shift: nat, mask: nat): (f: nat)
    ensures f <= mask
  {
    v / Pow2(shift) % (mask + 1)
  }

  lemma ScansOfTheMasks()
    ensures ScanForward(0xFF) == 0 && ScanForward(0x3FFF) == 0
    ensures ScanReverse(0xFF) == 8 && ScanReverse(0x3FFF) == 14
    ensures Pow2(0) == 1 && Pow2(8) == 0x100 && Pow2(14) == 0x4000
  {
    assert ScanReverse(1) == 1;
    assert ScanReverse(0x1F) == 5;
    assert ScanReverse(0xFF) == 8;
    assert ScanReverse(0x3FF) == 10;
    assert ScanReverse(0x3FFF) == 14;
    assert Pow2(4) == 16;
    assert Pow2(8) == 0x100;
    assert Pow2(12) == 0x1000;
  }

  // ---------- one layer's two addresses ----------

  /** Bytes of the packet that the key functions read for a layer. */
  function ReadLength(t: Type): nat {
    if TypeMask(t) != 0 then 4 else TypeLength(t)
  }

  predicate InPacket(l: Layer, data: seq<Byte>) {
    Known(l.type_) && l.offset + ReadLength(l.type_) <= |data|
  }

  function Word32(l: Layer, data: seq<Byte>): (v: nat)
    requires InPacket(l, data) && TypeMask(l.type_) != 0
    ensures v < U32
  {
    Load32(data[l.offset..l.offset + 4])
  }

  function SrcField(l: Layer, data: seq<Byte>): (f: nat)
    requires InPacket(l, data) && TypeMask(l.type_) != 0
    ensures f <= TypeMask(l.type_)
  {
    Field(Word32(l, data), ScanForward(TypeMask(l.type_)), TypeMask(l.type_))
  }

  function DstField(l: Layer, data: seq<Byte>): (f: nat)
    requires InPacket(l, data) && TypeMask(l.type_) != 0
    ensures f <= TypeMask(l.type_)
  {
    Field(Word32(l, data), ScanReverse(TypeMask(l.type_)), TypeMask(l.type_))
  }

  /** The first n (at most two) bytes of a 32-bit variable in memory. */
  function LowBytes(v: nat, n: nat): (s: seq<Byte>)
    requires v < 0x1_0000 && n <= 2
    ensures |s| == n
  {
    [v % 0x100, v / 0x100][..n]
  }

  /** The half of the layer that the code takes for the source address. */
  function Src(l: Layer, data: seq<Byte>): (s: seq<Byte>)
    requires InPacket(l, data)
    ensures |s| == TypeLength(l.type_) / 2
  {
    var half := TypeLength(l.type_) / 2;
    if TypeMask(l.type_) != 0 then LowBytes(SrcField(l, data), half) else data[l.offset..l.offset + half]
  }

  /** The half that it takes for the destination address. */
  function Dst(l: Layer, data: seq<Byte>): (s: seq<Byte>)
    requires InPacket(l, data)
    ensures |s| == TypeLength(l.type_) / 2
  {
    var half := TypeLength(l.type_) / 2;
    if TypeMask(l.type_) != 0 then LowBytes(DstField(l, data), half)
    else data[l.offset + half..l.offset + half + half]
  }

  /** What a layer puts into the key: its two halves, the lower one of the flow first. */
  function KeyBytes(l: Layer, data: seq<Byte>, side: bool): (s: seq<Byte>)
    requires InPacket(l, data)
    ensures |s| == TypeLength(l.type_)
  {
    if TypeLength(l.type_) == 1 then data[l.offset..l.offset + 1]
    else if side then Src(l, data) + Dst(l, data)
    else Dst(l, data) + Src(l, data)
  }

  /** memcmp: the sign of the first difference. */
  function Memcmp(a: seq<Byte>, b: seq<Byte>): (c: int)
    requires |a| == |b|
    ensures c == 0 <==> a == b
    ensures -1 <= c <= 1
  {
    if a == [] then 0
    else if a[0] != b[0] then (if a[0] < b[0] then -1 else 1)
    else
      var c := Memcmp(a[1..], b[1..]);
      assert c == 0 ==> a == [a[0]] + a[1..] && b == [b[0]] + b[1..];
      c
  }

  lemma {:induction false} MemcmpAntisymmetric(a: seq<Byte>, b: seq<Byte>)
    requires |a| == |b|
    ensures Memcmp(a, b) == -Memcmp(b, a)
  {
    if a != [] { MemcmpAntisymmetric(a[1..], b[1..]); }
  }

  /** How the side functions compare the two addresses of a layer. */
  function Compare(l: Layer, data: seq<Byte>): (c: int)
    requires InPacket(l, data)
    ensures -1 <= c <= 1
  {
    if TypeMask(l.type_) == 0 then Memcmp(Src(l, data), Dst(l, data))
    else if SrcField(l, data) < DstField(l, data) then -1
    else if SrcField(l, data) > DstField(l, data) then 1
    else 0
  }

  /** Only a layer with equal halves compares as equal. */
  lemma CompareDecides(l: Layer, data: seq<Byte>)
    requires InPacket(l, data)
    ensures Compare(l, data) == 0 <==> Src(l, data) == Dst(l, data)
  {
    if TypeMask(l.type_) != 0 {
      var a, b := SrcField(l, data), DstField(l, data);
      if Src(l, data) == Dst(l, data) {
        assert [a % 0x100, a / 0x100][0] == Src(l, data)[0];
        assert [b % 0x100, b / 0x100][0] == Dst(l, data)[0];
        if TypeLength(l.type_) == 4 {
          assert [a % 0x100, a / 0x100][1] == Src(l, data)[1];
          assert [b % 0x100, b / 0x100][1] == Dst(l, data)[1];
        }
      }
    }
  }
}
