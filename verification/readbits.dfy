/**
  The earlier, least-significant-first bit reader: a `BitReader` holds the
  file, the byte under the cursor, the bit offset into it and a `canRead`
  indicator. `getBits` packs up to BIT_LIMIT bits into a 64-bit result,
  first bit lowest; `seekBits` moves to a byte and bit offset. Unlike the
  bit cursor, `seekBits` applies no correction for the byte it has already
  fetched, so a seek from the current position lands one byte further on.
 */
module ReadBits {
  import opened BitOps
  import opened ByteStream
  import opened BitSpec

  /** The most bits one `getBits` call returns (the width of its result). */
  const BIT_LIMIT: nat := 64

  /** The C `char` the bit count is passed as. */
  type SChar = x: int | -128 <= x <= 127

  /** The reader's `FILE*`: absent when the file failed to open. */
  datatype Source = NoFile | File(stream: Stream)

  datatype BitReader = BitReader(file: Source, byte: bv8, bitOffset: int, canRead: bool)

  function Pow2(n: nat): (r: nat)
    ensures r >= 1
  {
    if n == 0 then 1 else 2 * Pow2(n - 1)
  }

  /** The bits `b` as an unsigned numeral, first bit least significant. */
  function LsbValue(b: seq<bool>): nat
    decreases |b|
  {
    if b == [] then 0 else (if b[0] then 1 else 0) + 2 * LsbValue(b[1..])
  }

  /** Bit `i` of the binary expansion of `x`. */
  predicate NatBit(x: nat, i: nat)
    decreases i
  {
    if i == 0 then x % 2 == 1 else NatBit(x / 2, i - 1)
  }

  /** Bit `i` of the numeral is the `i`-th bit of the sequence, and every
      bit from `|b|` up is clear. */
  lemma {:induction false} LsbValueBits(b: seq<bool>, i: nat)
    ensures NatBit(LsbValue(b), i) == (i < |b| && b[i])
    decreases i
  {
    if b == [] {
      NatBitZero(i);
    } else {
      HalfOf(if b[0] then 1 else 0, LsbValue(b[1..]));
      if i > 0 {
        LsbValueBits(b[1..], i - 1);
      }
    }
  }

  /** Halving a numeral drops its lowest bit. */
  lemma HalfOf(c: nat, x: nat)
    requires c < 2
    ensures (c + 2 * x) / 2 == x && (c + 2 * x) % 2 == c
  {
  }

  lemma {:induction false} NatBitZero(i: nat)
    ensures !NatBit(0, i)
    decreases i
  {
    if i > 0 {
      NatBitZero(i - 1);
    }
  }

  /** An `n`-bit numeral is below `2^n`. */
  lemma {:induction false} LsbValueBound(b: seq<bool>)
    ensures LsbValue(b) < Pow2(|b|)
    decreases |b|
  {
    if b != [] {
      LsbValueBound(b[1..]);
    }
  }

  /** One more bit at the top adds its weight `2^|b|`. */
  lemma {:induction false} LsbValueSnoc(b: seq<bool>, x: bool)
    ensures LsbValue(b + [x]) == LsbValue(b) + (if x then Pow2(|b|) else 0)
    decreases |b|
  {
    if b == [] {
      assert [x][1..] == [];
    } else {
      assert (b + [x])[1..] == b[1..] + [x];
      LsbValueSnoc(b[1..], x);
    }
  }

  /** `v` shifted left by `n` bits, that is `v * 2^n`. */
  function Shl(v: nat, n: nat): nat
  {
    if n == 0 then v else 2 * Shl(v, n - 1)
  }

  lemma {:induction false} ShlIsMul(v: nat, n: nat)
    ensures Shl(v, n) == v * Pow2(n)
  {
    if n > 0 {
      ShlIsMul(v, n - 1);
      assert v * (2 * Pow2(n - 1)) == 2 * (v * Pow2(n - 1));
    }
  }

  /** The numeral of two runs of bits is the first run's numeral plus the
      second's, shifted left by the first run's length. */
  lemma {:induction false} LsbValueAppend(a: seq<bool>, b: seq<bool>)
    ensures LsbValue(a + b) == LsbValue(a) + Shl(LsbValue(b), |a|)
    decreases |a|
  {
    if a == [] {
      assert a + b == b;
    } else {
      assert (a + b)[0] == a[0] && (a + b)[1..] == a[1..] + b;
      LsbValueAppend(a[1..], b);
    }
  }

  /* --- The reader's routines --- */

  /** `getByte`: fetches the next byte of the file into `byte` and returns
      false; at end of file returns true and clears `canRead`. */
  function GetByte(br: BitReader): (r: (bool, BitReader))
    requires br.file.File?
    ensures r.1.file.File? && r.1.file.stream.data == br.file.stream.data
    ensures r.1.bitOffset == br.bitOffset
    ensures var s := br.file.stream;
            if s.pos < |s.data|
            then !r.0 && r.1 == br.(file := File(s.(pos := s.pos + 1)), byte := s.data[s.pos])
            else r.0 && r.1 == br.(file := File(s.(eof := true)), canRead := false)
  {
    var (c, s) := Getc(br.file.stream);
    if c == EOF then (true, br.(file := File(s), canRead := false))
    else (false, br.(file := File(s), byte := c as bv8))
  }

  /** `getBit`: the bit at `bitOffset` of the held byte, advancing the offset. */
  function GetBit(br: BitReader): (r: (bool, BitReader))
    requires 0 <= br.bitOffset < BYTE_LEN
    ensures r.0 == ByteBit(br.byte, br.bitOffset)
    ensures r.1 == br.(bitOffset := br.bitOffset + 1)
  {
    (br.byte & Mask(br.bitOffset) != 0, br.(bitOffset := br.bitOffset + 1))
  }

  /** The alignment loop of `getBits`: while the offset has run past the
      held byte, fetch the next byte and step back eight bits; true when a
      fetch hits end of file. */
  function AlignLoop(br: BitReader): (r: (bool, BitReader))
    requires br.file.File? && br.bitOffset >= 0
    ensures r.1.file.File? && r.1.file.stream.data == br.file.stream.data
    ensures !r.0 ==> 0 <= r.1.bitOffset < BYTE_LEN && r.1.canRead == br.canRead
    ensures r.0 ==> !r.1.canRead
    ensures 0 <= r.1.bitOffset <= Max(br.bitOffset, BYTE_LEN)
    decreases br.bitOffset
  {
    if br.bitOffset < BYTE_LEN then (false, br)
    else
      var (eof, br1) := GetByte(br);
      if eof then (true, br1) else AlignLoop(br1.(bitOffset := br1.bitOffset - BYTE_LEN))
  }

  /** The bit loop of `getBits`: bit `resOffset` of the result is the next
      bit read; an end of file while aligning returns the bits so far. */
  function ReadLoop(br: BitReader, count: int, resOffset: nat, result: nat): (r: (nat, BitReader))
    requires br.file.File? && 0 <= br.bitOffset <= BYTE_LEN
    ensures r.1.file.File? && r.1.file.stream.data == br.file.stream.data
    ensures 0 <= r.1.bitOffset <= BYTE_LEN
    decreases count - resOffset
  {
    if resOffset >= count then (result, br)
    else
      var (eof, br1) := AlignLoop(br);
      if eof then (result, br1)
      else
        var (bit, br2) := GetBit(br1);
        ReadLoop(br2, count, resOffset + 1, result + (if bit then Pow2(resOffset) else 0))
  }

  /** A reader the routines can act on: whenever it claims to be readable
      it has a file and its offset lies within or just past the held byte. */
  predicate Ready(br: BitReader)
  {
    br.canRead ==> br.file.File? && 0 <= br.bitOffset <= BYTE_LEN
  }

  /** The first normalisation loop of `seekBits`: while the bit offset is
      above eight (strictly), move eight bits into the byte offset. */
  function SeekNormUp(byteOffset: int, bitOffset: int): (r: (int, int))
    ensures r.0 * BYTE_LEN + r.1 == byteOffset * BYTE_LEN + bitOffset
    ensures bitOffset <= BYTE_LEN ==> r == (byteOffset, bitOffset)
    ensures bitOffset > BYTE_LEN ==> 0 < r.1 <= BYTE_LEN
    decreases bitOffset
  {
    if bitOffset > BYTE_LEN then SeekNormUp(byteOffset + 1, bitOffset - BYTE_LEN) else (byteOffset, bitOffset)
  }

  /** The second normalisation loop: while the bit offset is negative,
      borrow eight bits from the byte offset. */
  function SeekNormDown(byteOffset: int, bitOffset: int): (r: (int, int))
    ensures r.0 * BYTE_LEN + r.1 == byteOffset * BYTE_LEN + bitOffset
    ensures bitOffset < 0 ==> 0 <= r.1 < BYTE_LEN
    ensures bitOffset >= 0 ==> r == (byteOffset, bitOffset)
    decreases -bitOffset
  {
    if bitOffset < 0 then SeekNormDown(byteOffset - 1, bitOffset + BYTE_LEN) else (byteOffset, bitOffset)
  }

  /** Both loops: the bit position `byte * 8 + bit` is kept and the bit
      offset ends between 0 and 8, with 8 itself left as it is. */
  function SeekNormalise(byteOffset: int, bitOffset: int): (r: (int, int))
    ensures r.0 * BYTE_LEN + r.1 == byteOffset * BYTE_LEN + bitOffset
    ensures 0 <= r.1 <= BYTE_LEN
    ensures bitOffset == BYTE_LEN ==> r == (byteOffset, BYTE_LEN)
  {
    var up := SeekNormUp(byteOffset, bitOffset);
    SeekNormDown(up.0, up.1)
  }

  /** `seekBits`: with a file, seek the stream to the normalised byte offset
      from `whence` (a failing stream seek is ignored), fetch the byte there
      and, unless that hits end of file, take the normalised bit offset and
      become readable. Seeking from the current position adds the current
      bit offset, but measures bytes from the stream position, which is
      already one past the held byte. */
  function SeekBits(br: BitReader, byteOffset: int, bitOffset: int, whence: Whence): (r: BitReader)
    requires Ready(br)
    ensures Ready(r)
    ensures br.file == NoFile ==> r == br
    ensures br.file.File? ==> r.file.File? && r.file.stream.data == br.file.stream.data
  {
    if br.file == NoFile then br
    else
      var bit := if whence == SeekCur then bitOffset + br.bitOffset else bitOffset;
      var (byteO, bitO) := SeekNormalise(byteOffset, bit);
      var s := Fseek(br.file.stream, byteO, whence).1;
      var (eof, br1) := GetByte(br.(file := File(s)));
      if eof then br1 else br1.(bitOffset := bitO, canRead := true)
  }

  /** `getBits`: nothing from a reader that cannot read; a request above
      BIT_LIMIT first skips the excess with a seek from the current
      position and then reads BIT_LIMIT bits; otherwise the bit loop. */
  function GetBits(br: BitReader, bitCount: SChar): (r: (nat, BitReader))
    requires Ready(br)
    ensures Ready(r.1)
    ensures !br.canRead ==> r == (0, br)
    ensures br.file.File? ==> r.1.file.File? && r.1.file.stream.data == br.file.stream.data
    decreases if bitCount > BIT_LIMIT then 1 else 0
  {
    if !br.canRead then (0, br)
    else if bitCount > BIT_LIMIT then GetBits(SeekBits(br, 0, bitCount - BIT_LIMIT, SeekCur), BIT_LIMIT)
    else
      ReadLoop(br, bitCount, 0, 0)
  }

  /** `newBitReader`: a zeroed reader over `file`, readable when the file
      opened, having fetched its first byte. */
  function NewBitReader(file: Source): (br: BitReader)
    ensures Ready(br)
    ensures file == NoFile ==> !br.canRead
    ensures file.File? ==> br.file.File? && br.file.stream.data == file.stream.data
  {
    var br := BitReader(file, 0, 0, file.File?);
    if br.canRead then GetByte(br).1 else br
  }
}
