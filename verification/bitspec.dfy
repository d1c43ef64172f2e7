/**
  Reference semantics for bit reads, independent of the cursor machinery:
  the medium as a sequence of logical bits in a given bit order, and the
  destination bytes a read of `count` bits from bit position `from` should
  produce — each byte the bits it receives read as a binary numeral,
  big-endian (first bit most significant) for most-significant-first order
  and little-endian for least-significant-first order.
 */
module BitSpec {
  import opened BitOps

  /** The eight logical bits of one byte, first bit first. */
  function ByteBits(b: bv8, msb: bool): (r: seq<bool>)
    ensures |r| == BYTE_LEN
    ensures forall q: BitIndex :: r[q] == ByteBit(b, MsbOffset(q, msb))
  {
    seq(BYTE_LEN, q requires 0 <= q < BYTE_LEN => ByteBit(b, MsbOffset(q, msb)))
  }

  /** The medium as a sequence of logical bits: byte after byte, each in
      the given bit order. */
  function Bits(data: seq<bv8>, msb: bool): (r: seq<bool>)
    ensures |r| == |data| * BYTE_LEN
    decreases |data|
  {
    if data == [] then [] else ByteBits(data[0], msb) + Bits(data[1..], msb)
  }

  /** Logical bit `q` of byte `i` is physical bit MSB_OFFSET(q) of that byte. */
  lemma {:induction false} BitsAt(data: seq<bv8>, msb: bool, i: nat, q: BitIndex)
    requires i < |data|
    ensures i * BYTE_LEN + q < |Bits(data, msb)|
    ensures Bits(data, msb)[i * BYTE_LEN + q] == ByteBit(data[i], MsbOffset(q, msb))
    decreases i
  {
    var rest := Bits(data[1..], msb);
    assert Bits(data, msb) == ByteBits(data[0], msb) + rest;
    if i > 0 {
      BitsAt(data[1..], msb, i - 1, q);
      assert (i - 1) * BYTE_LEN + q + BYTE_LEN == i * BYTE_LEN + q;
      assert data[1..][i - 1] == data[i];
    }
  }

  function BitValue(bits: seq<bool>, k: int): (v: bv8)
    requires 0 <= k < |bits|
    ensures v == 0 || v == 1
  {
    if bits[k] then 1 else 0
  }

  /** The `len` bits from `from` as a big-endian numeral. */
  function PackMsb(bits: seq<bool>, from: int, len: int): bv8
    requires 0 <= from && 0 <= len <= BYTE_LEN && from + len <= |bits|
    decreases len
  {
    if len == 0 then 0 else (PackMsb(bits, from, len - 1) << 1) | BitValue(bits, from + len - 1)
  }

  /** The `len` bits from `from` as a little-endian numeral. */
  function PackLsb(bits: seq<bool>, from: int, len: int): bv8
    requires 0 <= from && 0 <= len <= BYTE_LEN && from + len <= |bits|
    decreases len
  {
    if len == 0 then 0 else (PackLsb(bits, from + 1, len - 1) << 1) | BitValue(bits, from)
  }

  function PackBits(bits: seq<bool>, from: int, len: int, msb: bool): bv8
    requires 0 <= from && 0 <= len <= BYTE_LEN && from + len <= |bits|
  {
    if msb then PackMsb(bits, from, len) else PackLsb(bits, from, len)
  }

  /** Byte `j` of the destination of a read that obtained `count` bits from
      position `from`: the numeral of the (at most eight) bits it receives,
      zero when it receives none. */
  function DestByte(bits: seq<bool>, from: int, count: int, j: nat, msb: bool): bv8
    requires 0 <= from && 0 <= count && from + count <= |bits|
  {
    var start := j * BYTE_LEN;
    if count - start <= 0 then 0
    else PackBits(bits, from + start, Min(count - start, BYTE_LEN), msb)
  }

  /** The `size`-byte destination of such a read: full bytes, then one
      partial byte, then zero bytes. */
  function ReadSpec(bits: seq<bool>, from: int, count: int, size: nat, msb: bool): (r: seq<bv8>)
    requires 0 <= from && 0 <= count && from + count <= |bits|
    ensures |r| == size
  {
    seq(size, j requires 0 <= j < size => DestByte(bits, from, count, j, msb))
  }

  /** Physical bit `p` of destination byte `j` of such a read: set only for
      one of the bits the byte received, placed as the numeral places it. */
  predicate ExpectedBit(bits: seq<bool>, from: int, count: int, msb: bool, j: nat, p: BitIndex)
  {
    var len := Min(count - j * BYTE_LEN, BYTE_LEN);
    var k := j * BYTE_LEN + (if msb then len - 1 - p else p);
    p < len && 0 <= from + k < |bits| && bits[from + k]
  }

  lemma ShiftInBit(x: bv8, b: bv8, p: BitIndex)
    requires b == 0 || b == 1
    ensures ByteBit((x << 1) | b, p) == if p == 0 then b == 1 else ByteBit(x, p - 1)
  {
  }

  lemma {:induction false} PackMsbBits(bits: seq<bool>, from: int, len: int, p: BitIndex)
    requires 0 <= from && 0 <= len <= BYTE_LEN && from + len <= |bits|
    ensures ByteBit(PackMsb(bits, from, len), p) == (p < len && bits[from + len - 1 - p])
    decreases len
  {
    if len > 0 {
      var x := PackMsb(bits, from, len - 1);
      var b := BitValue(bits, from + len - 1);
      assert PackMsb(bits, from, len) == (x << 1) | b;
      ShiftInBit(x, b, p);
      if p > 0 {
        PackMsbBits(bits, from, len - 1, p - 1);
        assert from + (len - 1) - 1 - (p - 1) == from + len - 1 - p;
      }
    }
  }

  lemma {:induction false} PackLsbBits(bits: seq<bool>, from: int, len: int, p: BitIndex)
    requires 0 <= from && 0 <= len <= BYTE_LEN && from + len <= |bits|
    ensures ByteBit(PackLsb(bits, from, len), p) == (p < len && bits[from + p])
    decreases len
  {
    if len > 0 {
      var x := PackLsb(bits, from + 1, len - 1);
      var b := BitValue(bits, from);
      assert PackLsb(bits, from, len) == (x << 1) | b;
      ShiftInBit(x, b, p);
      if p > 0 {
        PackLsbBits(bits, from + 1, len - 1, p - 1);
        assert from + 1 + (p - 1) == from + p;
      }
    }
  }

  /** Bit `p` of a packed byte is the bit the numeral puts there. */
  lemma PackBitsBits(bits: seq<bool>, from: int, len: int, msb: bool, p: BitIndex)
    requires 0 <= from && 0 <= len <= BYTE_LEN && from + len <= |bits|
    ensures ByteBit(PackBits(bits, from, len, msb), p)
            == (p < len && bits[from + (if msb then len - 1 - p else p)])
  {
    if msb { PackMsbBits(bits, from, len, p); } else { PackLsbBits(bits, from, len, p); }
  }

  /** The reference destination, bit by bit. */
  lemma DestByteBits(bits: seq<bool>, from: int, count: int, msb: bool, j: nat, p: BitIndex)
    requires 0 <= from && 0 <= count && from + count <= |bits|
    ensures ByteBit(DestByte(bits, from, count, j, msb), p) == ExpectedBit(bits, from, count, msb, j, p)
  {
    var start := j * BYTE_LEN;
    if count - start > 0 {
      var len := Min(count - start, BYTE_LEN);
      PackBitsBits(bits, from + start, len, msb, p);
      if p < len {
        var k := if msb then len - 1 - p else p;
        assert from + (start + k) == from + start + k;
      }
    }
  }

  lemma ReadSpecBits(bits: seq<bool>, from: int, count: int, size: nat, msb: bool, j: nat, p: BitIndex)
    requires 0 <= from && 0 <= count && from + count <= |bits|
    requires j < size
    ensures ByteBit(ReadSpec(bits, from, count, size, msb)[j], p) == ExpectedBit(bits, from, count, msb, j, p)
  {
    DestByteBits(bits, from, count, msb, j, p);
  }

  /** Any destination that agrees with the reference on every bit is it. */
  lemma ReadSpecUnique(out: seq<bv8>, bits: seq<bool>, from: int, count: int, msb: bool)
    requires 0 <= from && 0 <= count && from + count <= |bits|
    requires forall j: nat, p: BitIndex :: j < |out| ==> ByteBit(out[j], p) == ExpectedBit(bits, from, count, msb, j, p)
    ensures out == ReadSpec(bits, from, count, |out|, msb)
  {
    var spec := ReadSpec(bits, from, count, |out|, msb);
    forall j | 0 <= j < |out|
      ensures out[j] == spec[j]
    {
      forall p: BitIndex
        ensures ByteBit(out[j], p) == ByteBit(spec[j], p)
      {
        ReadSpecBits(bits, from, count, |out|, msb, j, p);
      }
      ByteExt(out[j], spec[j]);
    }
  }

  /** A whole byte read from a byte boundary is that byte, in either order. */
  lemma AlignedByteReadsItself(data: seq<bv8>, i: nat, msb: bool)
    requires i < |data|
    ensures PackBits(Bits(data, msb), i * BYTE_LEN, BYTE_LEN, msb) == data[i]
  {
    var bits := Bits(data, msb);
    forall p: BitIndex
      ensures ByteBit(PackBits(bits, i * BYTE_LEN, BYTE_LEN, msb), p) == ByteBit(data[i], p)
    {
      PackBitsBits(bits, i * BYTE_LEN, BYTE_LEN, msb, p);
      var q: BitIndex := if msb then BYTE_LEN - 1 - p else p;
      BitsAt(data, msb, i, q);
      assert MsbOffset(q, msb) == p;
    }
    ByteExt(PackBits(bits, i * BYTE_LEN, BYTE_LEN, msb), data[i]);
  }
}
