/**
  Bit-level helpers shared by the bit cursor and the bit reader: the byte
  type, the width of a byte, the mapping from a logical bit offset to a
  physical bit position under the two bit orders, and single-bit access on
  one byte.
 */
module BitOps {

  /** Length of one byte in bits. */
  const BYTE_LEN: nat := 8

  /** Physical bit positions inside one byte. */
  type BitIndex = p: int | 0 <= p < 8

  function Min(a: int, b: int): int
  {
    if a <= b then a else b
  }

  function Max(a: int, b: int): int
  {
    if a >= b then a else b
  }

  /** Integer division rounding up, as the repository's CEIL_DIV macro
      computes it for a positive dividend. */
  function CeilDiv(x: int, y: int): (r: int)
    requires x >= 1 && y >= 1
    ensures (r - 1) * y < x <= r * y
    ensures r >= 1
  {
    1 + (x - 1) / y
  }

  /** Bit `count` of a run lies in byte `count / 8` at bit `count % 8`; the
      run of `count` bits spans `(count + 7) / 8` bytes. */
  lemma DivModByte(count: nat)
    ensures count == count / BYTE_LEN * BYTE_LEN + count % BYTE_LEN
    ensures 0 <= count % BYTE_LEN < BYTE_LEN
    ensures (count + 7) / BYTE_LEN == if count % BYTE_LEN == 0 then count / BYTE_LEN else count / BYTE_LEN + 1
    ensures (count + 1 + 7) / BYTE_LEN == count / BYTE_LEN + 1
  {
  }

  /** The byte with only physical bit `p` set (`0x1 << p`). */
  function Mask(p: BitIndex): (m: bv8)
  {
    match p
    case 0 => 0x01
    case 1 => 0x02
    case 2 => 0x04
    case 3 => 0x08
    case 4 => 0x10
    case 5 => 0x20
    case 6 => 0x40
    case 7 => 0x80
  }

  /** True iff physical bit `p` of `b` is set. */
  predicate ByteBit(b: bv8, p: BitIndex)
  {
    b & Mask(p) != 0
  }

  /** `b` with physical bit `p` forced to `v`; all other bits kept. */
  function SetBit(b: bv8, p: BitIndex, v: bool): (r: bv8)
    ensures ByteBit(r, p) == v
    ensures forall q: BitIndex :: q != p ==> ByteBit(r, q) == ByteBit(b, q)
  {
    if v then b | Mask(p) else b & !Mask(p)
  }

  /** Two bytes that agree on every physical bit are equal. */
  lemma ByteExt(a: bv8, b: bv8)
    requires forall p: BitIndex :: ByteBit(a, p) == ByteBit(b, p)
    ensures a == b
  {
    ByteBitsEqual(a, b);
  }

  /** Two bytes agreeing on each of the eight bits, listed one by one, are equal. */
  lemma ByteBitsEqual(a: bv8, b: bv8)
    requires ByteBit(a, 0) == ByteBit(b, 0) && ByteBit(a, 1) == ByteBit(b, 1)
    requires ByteBit(a, 2) == ByteBit(b, 2) && ByteBit(a, 3) == ByteBit(b, 3)
    requires ByteBit(a, 4) == ByteBit(b, 4) && ByteBit(a, 5) == ByteBit(b, 5)
    requires ByteBit(a, 6) == ByteBit(b, 6) && ByteBit(a, 7) == ByteBit(b, 7)
    ensures a == b
  {
  }

  /** Physical bit position of logical offset `bit` (the MSB_OFFSET macro):
      counted from the top of the byte when `msb` is set, from the bottom
      otherwise. */
  function MsbOffset(bit: BitIndex, msb: bool): (r: BitIndex)
    ensures msb ==> r + bit == BYTE_LEN - 1
    ensures !msb ==> r == bit
  {
    if msb then BYTE_LEN - 1 - bit else bit
  }

  /** MSB_OFFSET is its own inverse, hence a bijection on 0..7. */
  lemma MsbOffsetInvolution(bit: BitIndex, msb: bool)
    ensures MsbOffset(MsbOffset(bit, msb), msb) == bit
  {
  }

  lemma MsbOffsetInjective(a: BitIndex, b: BitIndex, msb: bool)
    requires MsbOffset(a, msb) == MsbOffset(b, msb)
    ensures a == b
  {
  }

  /** The shift applied to the final source byte of a most-significant-first
      write (the MSB_SHIFT macro): the number of unused high bits of a final
      byte holding `n` meaningful bits. */
  function MsbShift(n: int): (r: int)
    requires 1 <= n <= BYTE_LEN
    ensures 0 <= r < BYTE_LEN
    ensures n + r == BYTE_LEN || (n == BYTE_LEN && r == 0)
  {
    (BYTE_LEN - n) % BYTE_LEN
  }
}
