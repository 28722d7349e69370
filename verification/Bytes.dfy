/**
  Octets, 16-bit words and the byte swaps of `src/include/data_util.h`.

  A C integer is modelled as the number it stands for, so a mask is a remainder and a
  right shift a quotient; `BswapBitsAgree` ties that reading to the bit expression.
 */
module Bytes {

  type byte = x: int | 0 <= x < 0x100
  type word = x: int | 0 <= x < 0x1_0000
  type dword = x: int | 0 <= x < 0x1_0000_0000

  datatype Option<+T> = None | Some(value: T)

  /** The order in which a host keeps the two bytes of a 16-bit word. */
  datatype ByteOrder = LittleEndian | BigEndian

  /** The word that a load from two consecutive bytes gives. */
  function Load(o: ByteOrder, b0: byte, b1: byte): word {
    match o
    case LittleEndian => b0 + 0x100 * b1
    case BigEndian => 0x100 * b0 + b1
  }

  /** The two bytes that a store of `w` leaves in memory. */
  function Store(o: ByteOrder, w: word): seq<byte> {
    match o
    case LittleEndian => [w % 0x100, w / 0x100]
    case BigEndian => [w / 0x100, w % 0x100]
  }

  /** The four bytes that a 32-bit store leaves on a little-endian host. */
  function StoreDword(d: dword): seq<byte> {
    [d % 0x100, d / 0x100 % 0x100, d / 0x1_0000 % 0x100, d / 0x100_0000]
  }

  function Bswap16(x: word): word {
    var hi := x / 0x100;
    var lo := x % 0x100;
    lo * 0x100 + hi
  }

  function Htons(x: word): word { Bswap16(x) }

  function Ntohs(x: word): word { Bswap16(x) }

  /**
    A swap is its own inverse, and it turns one byte order into the other: a word
    passed through `htons` and stored on a little-endian host is on the wire in
    big-endian order.
   */
  lemma BswapChangesByteOrder(x: word, b0: byte, b1: byte)
    ensures Bswap16(Bswap16(x)) == x
    ensures Bswap16(Load(LittleEndian, b0, b1)) == Load(BigEndian, b0, b1)
    ensures Store(LittleEndian, Htons(x)) == Store(BigEndian, x)
  {
  }

  /** Loading what was stored gives the word back, in either byte order. */
  lemma LoadStore(o: ByteOrder, x: word)
    ensures var b := Store(o, x); Load(o, b[0], b[1]) == x
  {
  }

  lemma DwordFrom(a: byte, b: byte, c: byte, d: byte)
    ensures StoreDword(a as int + 0x100 * b as int + 0x1_0000 * c as int + 0x100_0000 * d as int) == [a, b, c, d]
  {
    var x: int := a as int + 0x100 * b as int + 0x1_0000 * c as int + 0x100_0000 * d as int;
    assert x / 0x100_0000 == d;
    assert x / 0x1_0000 == c as int + 0x100 * d as int;
    assert x / 0x100 == b as int + 0x100 * c as int + 0x1_0000 * d as int;
  }

  lemma DwordOfBytes(x: dword)
    ensures var b := StoreDword(x);
            x == b[0] as int + 0x100 * b[1] as int + 0x1_0000 * b[2] as int + 0x100_0000 * b[3] as int
  {
    var y: int := x / 0x100;
    var z := y / 0x100;
    assert x / 0x1_0000 == z;
    assert x / 0x100_0000 == z / 0x100;
    assert x == 0x100 * y + x % 0x100;
    assert y == 0x100 * z + y % 0x100;
    assert z == 0x100 * (z / 0x100) + z % 0x100;
  }

  lemma StoreDwordInjective(x: dword, y: dword)
    ensures StoreDword(x) == StoreDword(y) <==> x == y
  {
    DwordOfBytes(x);
    DwordOfBytes(y);
  }

  // The bit expression of `bswap_16`, and its agreement with the arithmetic one.

  function JoinBits(hi: bv16, lo: bv16): bv16 { (hi << 8) | lo }

  function BswapBits(x: bv16): bv16 {
    var hi := (x & 0xFF00) >> 8;
    var lo := x & 0x00FF;
    JoinBits(lo, hi)
  }

  lemma BswapBitsAgree(x: bv16)
    ensures BswapBits(x) as int == Bswap16(x as int)
  {
    var hi, lo := (x & 0xFF00) >> 8, x & 0x00FF;
    HalvesOf(x, hi, lo);
    SwappedValue(x, hi, lo);
    assert BswapBits(x) == JoinBits(lo, hi);
  }

  lemma SwappedValue(x: bv16, hi: bv16, lo: bv16)
    requires hi < 0x100 && lo < 0x100 && x == JoinBits(hi, lo)
    ensures JoinBits(lo, hi) as int == Bswap16(x as int)
  {
    ShiftJoins(hi, lo);
    ShiftJoins(lo, hi);
    SmallAsInt(hi);
    SmallAsInt(lo);
    Quotient(x as int, hi as int, lo as int);
  }

  lemma HalvesOf(x: bv16, hi: bv16, lo: bv16)
    requires hi == (x & 0xFF00) >> 8 && lo == x & 0x00FF
    ensures hi < 0x100 && lo < 0x100 && x == JoinBits(hi, lo)
  {
  }

  lemma ShiftJoins(hi: bv16, lo: bv16)
    requires hi < 0x100 && lo < 0x100
    ensures JoinBits(hi, lo) as int == 0x100 * (hi as int) + lo as int
  {
    ShiftOr(hi, lo);
  }

  lemma ShiftOr(hi: bv16, lo: bv16)
    requires hi < 0x100 && lo < 0x100
    ensures ((hi << 8) | lo) as int == 0x100 * (hi as int) + lo as int
  {
  }

  lemma SmallAsInt(x: bv16)
    requires x < 0x100
    ensures x as int < 0x100
  {
  }

  lemma Quotient(n: int, q: int, r: int)
    requires 0 <= r < 0x100 && n == 0x100 * q + r
    ensures n / 0x100 == q && n % 0x100 == r
  {
  }
}
