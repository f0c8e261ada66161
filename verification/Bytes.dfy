/** Bytes and the little-endian integers that the packet library reads and writes through casts. */
module Bytes {

  type Byte = b: int | 0 <= b < 0x100

  const U16: int := 0x1_0000
  const U32: int := 0x1_0000_0000
  const U64: int := 0x1_0000_0000_0000_0000

  /** `*(uint16_t*)p` */
  function Load16(lo: Byte, hi: Byte): (v: nat)
    ensures v < U16
  {
    lo + 0x100 * hi
  }

  /** The two bytes of a 16-bit value load as that value. */
  lemma Load16Of(v: nat)
    requires v < U16
    ensures v / 0x100 < 0x100 && Load16(v % 0x100, v / 0x100) == v
  {
  }

  function HighNibble(b: Byte): (n: nat)
    ensures n < 16
  {
    b / 16
  }

  function LowNibble(b: Byte): (n: nat)
    ensures n < 16
  {
    b % 16
  }

  /** `*(uint32_t*)p` */
  function Load32(s: seq<Byte>): (v: nat)
    requires |s| == 4
    ensures v < U32
  {
    var b0: int, b1: int, b2: int, b3: int := s[0], s[1], s[2], s[3];
    b0 + 0x100 * b1 + 0x1_0000 * b2 + 0x100_0000 * b3
  }

  /** `*(uint64_t*)p` */
  function Load64(s: seq<Byte>): (v: nat)
    requires |s| == 8
    ensures v < U64
  {
    Load32(s[..4]) + U32 * Load32(s[4..])
  }

  /** The bytes of an integer in memory. */
  function Store16(v: nat): (s: seq<Byte>)
    requires v < U16
    ensures |s| == 2
  {
    [v % 0x100, v / 0x100]
  }

  function Store32(v: nat): (s: seq<Byte>)
    requires v < U32
    ensures |s| == 4
  {
    [v % 0x100, v / 0x100 % 0x100, v / 0x1_0000 % 0x100, v / 0x100_0000]
  }

  function Store64(v: nat): (s: seq<Byte>)
    requires v < U64
    ensures |s| == 8
  {
    Store32(v % U32) + Store32(v / U32)
  }

  lemma LowByte(v: nat)
    ensures v == v % 0x100 + 0x100 * (v / 0x100)
    ensures v / 0x100 / 0x100 == v / 0x1_0000 && v / 0x1_0000 / 0x100 == v / 0x100_0000
  {
  }

  lemma Digits(v: int, w: int, x: int, y: int)
    requires v == v % 0x100 + 0x100 * w && w == w % 0x100 + 0x100 * x && x == x % 0x100 + 0x100 * y
    ensures v == v % 0x100 + 0x100 * (w % 0x100) + 0x1_0000 * (x % 0x100) + 0x100_0000 * y
  {
  }

  lemma RoundTrip32(v: nat)
    requires v < U32
    ensures Load32(Store32(v)) == v
  {
    LowByte(v);
    LowByte(v / 0x100);
    LowByte(v / 0x1_0000);
    Digits(v, v / 0x100, v / 0x1_0000, v / 0x100_0000);
  }

  /** Four bytes load as v exactly if they are those of v. */
  lemma LoadsAs32(s: seq<Byte>, v: nat)
    requires |s| == 4 && v < U32
    ensures Load32(s) == v <==> s == Store32(v)
  {
    RoundTrip32(v);
    if Load32(s) == v {
      var b0: int, b1: int, b2: int, b3: int := s[0], s[1], s[2], s[3];
      assert v == b0 + 0x100 * (b1 + 0x100 * (b2 + 0x100 * b3));
      hide Load32, Store32;
      TopDigits(b0, b1 + 0x100 * (b2 + 0x100 * b3));
      TopDigits(b1, b2 + 0x100 * b3);
      TopDigits(b2, b3);
      LowByte(v);
      BytesOf(s, v);
    }
  }

  lemma TopDigits(low: int, high: int)
    requires 0 <= low < 0x100
    ensures (low + 0x100 * high) % 0x100 == low && (low + 0x100 * high) / 0x100 == high
  {
  }

  lemma BytesOf(s: seq<Byte>, v: nat)
    requires |s| == 4 && v < U32
    requires s[0] == v % 0x100 && s[1] == v / 0x100 % 0x100 && s[2] == v / 0x1_0000 % 0x100 && s[3] == v / 0x100_0000
    ensures s == Store32(v)
  {
  }

  lemma LoadsAs64(s: seq<Byte>, v: nat)
    requires |s| == 8 && v < U64
    ensures Load64(s) == v <==> s == Store64(v)
  {
    RoundTrip64(v);
    if Load64(s) == v {
      LoadsAs32(s[..4], v % U32);
      LoadsAs32(s[4..], v / U32);
      assert s == s[..4] + s[4..];
    }
  }

  /** The byte at the lowest address is the least significant one. */
  lemma LowByteFirst(v: nat)
    requires v < U32
    ensures var b0: int, b1: int, b2: int, b3: int := Store32(v)[0], Store32(v)[1], Store32(v)[2], Store32(v)[3];
            v == b0 + 0x100 * b1 + 0x1_0000 * b2 + 0x100_0000 * b3
    ensures v < U16 ==> var b0: int, b1: int := Store16(v)[0], Store16(v)[1]; v == b0 + 0x100 * b1
  {
    RoundTrip32(v);
    LowByte(v);
  }

  lemma RoundTrip64(v: nat)
    requires v < U64
    ensures Load64(Store64(v)) == v
  {
    hide Load32, Store32;
    RoundTrip32(v % U32);
    RoundTrip32(v / U32);
    var s := Store64(v);
    assert s[..4] == Store32(v % U32) && s[4..] == Store32(v / U32);
  }

  /** Conversion to uint16_t, as every assignment to a 16-bit field does it. */
  function ToU16(v: int): (r: nat)
    ensures r < U16
    ensures 0 <= v < U16 ==> r == v
  {
    v % U16
  }

  /** Values that differ by a multiple of 2^16 are the same 16-bit value; and only those. */
  lemma SameU16(a: int, b: int)
    ensures ToU16(a) == ToU16(b) <==> (a - b) % U16 == 0
  {
    assert a == a / U16 * U16 + a % U16 && b == b / U16 * U16 + b % U16;
  }

  /** Wrapping an operand first changes nothing. */
  lemma WrapFirst(a: int, b: int)
    ensures ToU16(a - ToU16(b)) == ToU16(a - b)
    ensures ToU16(ToU16(a) - b) == ToU16(a - b)
    ensures ToU16(a + ToU16(b)) == ToU16(a + b)
  {
    var p, q := a / U16, b / U16;
    assert a == p * U16 + a % U16 && b == q * U16 + b % U16;
    Shift(a - b, q);
    Shift(a - b, -p);
    Shift(a + b, -q);
  }

  lemma Shift(a: int, k: int)
    ensures ToU16(a + k * U16) == ToU16(a)
  {
  }

  /** `static_cast<int>` of an unsigned 64-bit value: the low 32 bits, read as two's complement. */
  function ToInt32(v: nat): (r: int)
    ensures -0x8000_0000 <= r < 0x8000_0000
    ensures r <= v
    ensures v < 0x8000_0000 ==> r == v
  {
    var low := v % U32;
    if low < 0x8000_0000 then low else low - U32
  }
}
