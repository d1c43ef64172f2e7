/**
  What the least-significant-first reader computes: over a file whose
  bytes are read first bit lowest, `getBits` returns the numeral of the
  next bits, and `seekBits` lands where its arguments say, one byte
  further on when seeking from the current position.
 */
module ReaderProps {
  import opened BitOps
  import opened ByteStream
  import opened BitSpec
  import opened ReadBits

  /** The reader holds the byte just before the stream position, and its
      offset lies within that byte or just past it. */
  predicate InStep(br: BitReader)
  {
    && br.file.File?
    && 1 <= br.file.stream.pos <= |br.file.stream.data|
    && br.byte == br.file.stream.data[br.file.stream.pos - 1]
    && 0 <= br.bitOffset <= BYTE_LEN
  }

  /** The file as a sequence of bits, each byte lowest bit first. */
  function ReaderBits(br: BitReader): (bits: seq<bool>)
    requires br.file.File?
    ensures |bits| == |br.file.stream.data| * BYTE_LEN
  {
    Bits(br.file.stream.data, false)
  }

  /** The index in `ReaderBits` of the next bit an in-step reader returns. */
  function Pos(br: BitReader): int
    requires br.file.File?
  {
    (br.file.stream.pos - 1) * BYTE_LEN + br.bitOffset
  }

  lemma PosInRange(br: BitReader)
    requires InStep(br)
    ensures 0 <= Pos(br) <= |ReaderBits(br)|
    ensures Pos(br) == |ReaderBits(br)| <==> br.file.stream.pos == |br.file.stream.data| && br.bitOffset == BYTE_LEN
  {
  }

  /** The bit under an in-step offset is the next bit of the file. */
  lemma HeldBit(br: BitReader)
    requires InStep(br) && br.bitOffset < BYTE_LEN
    ensures Pos(br) < |ReaderBits(br)|
    ensures ReaderBits(br)[Pos(br)] == ByteBit(br.byte, br.bitOffset)
  {
    BitsAt(br.file.stream.data, false, br.file.stream.pos - 1, br.bitOffset);
  }

  /** Alignment from an in-step reader keeps its position when a bit
      remains, and hits end of file exactly when none does. */
  lemma AlignInStep(br: BitReader)
    requires InStep(br)
    ensures var r := AlignLoop(br);
            if Pos(br) < |ReaderBits(br)|
            then !r.0 && InStep(r.1) && r.1.bitOffset < BYTE_LEN && Pos(r.1) == Pos(br) && r.1.canRead == br.canRead
            else r.0 && !r.1.canRead
  {
    PosInRange(br);
    if br.bitOffset == BYTE_LEN {
      var s := br.file.stream;
      if s.pos < |s.data| {
        var br1 := GetByte(br).1;
        assert AlignLoop(br) == AlignLoop(br1.(bitOffset := 0));
      }
    }
  }

  /** One turn of the bit loop with a bit remaining: the reader moves one
      bit on, in step, and the accumulated numeral gains that bit. */
  lemma ReadLoopStep(br: BitReader, count: int, resOffset: nat, result: nat, start: int, bits: seq<bool>)
    returns (br2: BitReader, off: nat, next: nat)
    requires InStep(br) && bits == ReaderBits(br) && resOffset < count
    requires 0 <= start && start + resOffset == Pos(br) && Pos(br) < |bits|
    requires result == LsbValue(bits[start..Pos(br)])
    ensures InStep(br2) && bits == ReaderBits(br2) && br2.canRead == br.canRead
    ensures off == resOffset + 1 && off <= count && start + off == Pos(br2)
    ensures next == LsbValue(bits[start..Pos(br2)])
    ensures ReadLoop(br, count, resOffset, result) == ReadLoop(br2, count, off, next)
  {
    off := resOffset + 1;
    AlignInStep(br);
    var br1 := AlignLoop(br).1;
    HeldBit(br1);
    var bit := ByteBit(br1.byte, br1.bitOffset);
    br2 := TakeBit(br1);
    next := result + (if bit then Pow2(resOffset) else 0);
    ReadLoopUnfold(br, count, resOffset, off, result, br1, br2, next);
    SnocValue(bits, start, Pos(br), Pos(br2), resOffset, bit);
  }

  /** Moving an in-step reader one bit on within its byte keeps it in
      step over the same bits. */
  lemma TakeBit(br1: BitReader) returns (br2: BitReader)
    requires InStep(br1) && br1.bitOffset < BYTE_LEN
    ensures br2 == br1.(bitOffset := br1.bitOffset + 1)
    ensures InStep(br2) && ReaderBits(br2) == ReaderBits(br1) && br2.canRead == br1.canRead
    ensures Pos(br2) == Pos(br1) + 1
  {
    br2 := br1.(bitOffset := br1.bitOffset + 1);
  }

  lemma ReadLoopUnfold(br: BitReader, count: int, resOffset: nat, off: nat, result: nat, br1: BitReader, br2: BitReader, next: nat)
    requires br.file.File? && 0 <= br.bitOffset <= BYTE_LEN && resOffset < count && off == resOffset + 1
    requires AlignLoop(br) == (false, br1)
    requires br2 == br1.(bitOffset := br1.bitOffset + 1)
    requires next == result + (if ByteBit(br1.byte, br1.bitOffset) then Pow2(resOffset) else 0)
    ensures ReadLoop(br, count, resOffset, result) == ReadLoop(br2, count, off, next)
  {
  }

  lemma ReadLoopEof(br: BitReader, count: int, resOffset: nat, result: nat)
    requires br.file.File? && 0 <= br.bitOffset <= BYTE_LEN && resOffset < count
    requires AlignLoop(br).0
    ensures ReadLoop(br, count, resOffset, result) == (result, AlignLoop(br).1)
  {
  }

  lemma SnocValue(bits: seq<bool>, start: int, end: int, end': int, k: nat, bit: bool)
    requires 0 <= start <= end < |bits| && bits[end] == bit
    requires end' == end + 1 && k == end - start
    ensures LsbValue(bits[start..end']) == LsbValue(bits[start..end]) + (if bit then Pow2(k) else 0)
  {
    assert bits[start..end] + [bit] == bits[start..end'];
    LsbValueSnoc(bits[start..end], bit);
  }

  /** What the bit loop returns for `count` bits from `start`: their
      numeral, with the reader in step just past them and as readable as
      it was; or, when fewer remain, the numeral of the rest, with the
      reader no longer readable. */
  predicate LoopRead(r: (nat, BitReader), start: int, count: int, bits: seq<bool>, canRead: bool)
  {
    && 0 <= start <= |bits| && 0 <= count
    && (start + count <= |bits| ==>
          r.0 == LsbValue(bits[start..start + count])
          && InStep(r.1) && Pos(r.1) == start + count && r.1.canRead == canRead)
    && (start + count > |bits| ==> r.0 == LsbValue(bits[start..]) && !r.1.canRead)
  }

  /** The bit loop from an in-step reader at `start + resOffset`, holding
      the numeral of the bits from `start`, returns the numeral of the
      next `count` bits from `start`, or of every remaining bit with the
      reader no longer readable. */
  lemma {:induction false} ReadLoopReads(br: BitReader, count: int, resOffset: nat, result: nat, start: int, bits: seq<bool>)
    requires InStep(br) && bits == ReaderBits(br) && resOffset <= count
    requires 0 <= start && start + resOffset == Pos(br)
    requires result == LsbValue(bits[start..Pos(br)])
    ensures LoopRead(ReadLoop(br, count, resOffset, result), start, count, bits, br.canRead)
    decreases count - resOffset
  {
    PosInRange(br);
    if resOffset == count {
      ReadLoopDone(br, count, resOffset, result, start, bits);
    } else if Pos(br) < |bits| {
      var br2, off, next := ReadLoopStep(br, count, resOffset, result, start, bits);
      ReadLoopReads(br2, count, off, next, start, bits);
    } else {
      ReadLoopEnd(br, count, resOffset, result, start, bits);
    }
  }

  lemma ReadLoopDone(br: BitReader, count: int, resOffset: nat, result: nat, start: int, bits: seq<bool>)
    requires InStep(br) && bits == ReaderBits(br) && resOffset == count
    requires 0 <= start && start + resOffset == Pos(br) && Pos(br) <= |bits|
    requires result == LsbValue(bits[start..Pos(br)])
    ensures LoopRead(ReadLoop(br, count, resOffset, result), start, count, bits, br.canRead)
  {
  }

  lemma ReadLoopEnd(br: BitReader, count: int, resOffset: nat, result: nat, start: int, bits: seq<bool>)
    requires InStep(br) && bits == ReaderBits(br) && resOffset < count
    requires 0 <= start && start + resOffset == Pos(br) && Pos(br) == |bits|
    requires result == LsbValue(bits[start..Pos(br)])
    ensures LoopRead(ReadLoop(br, count, resOffset, result), start, count, bits, br.canRead)
  {
    PosInRange(br);
    AlignInStep(br);
    ReadLoopEof(br, count, resOffset, result);
    assert bits[start..Pos(br)] == bits[start..];
  }

  /** LSB packing: a readable in-step reader asked for at most BIT_LIMIT
      bits returns the numeral of the next bits, first bit lowest, and
      stays readable just past them; asked for more than remain, it
      returns the numeral of what remains and stops being readable. */
  lemma GetBitsReads(br: BitReader, bitCount: SChar)
    requires InStep(br) && br.canRead && 0 <= bitCount <= BIT_LIMIT
    ensures var r := GetBits(br, bitCount);
            var from := Pos(br);
            var bits := ReaderBits(br);
            && r.1.file.File? && ReaderBits(r.1) == bits
            && (from + bitCount <= |bits| ==>
                  r.0 == LsbValue(bits[from..from + bitCount]) && r.1.canRead && InStep(r.1) && Pos(r.1) == from + bitCount)
            && (from + bitCount > |bits| ==> r.0 == LsbValue(bits[from..]) && !r.1.canRead)
  {
    PosInRange(br);
    ReadLoopReads(br, bitCount, 0, 0, Pos(br), ReaderBits(br));
  }

  /** Bit `i` of the result of a complete read is the `i`-th bit from the
      cursor, and no bit at or above the count is set. */
  lemma GetBitsPacks(br: BitReader, bitCount: SChar, i: nat)
    requires InStep(br) && br.canRead && 0 <= bitCount <= BIT_LIMIT
    requires Pos(br) + bitCount <= |ReaderBits(br)|
    ensures var v := GetBits(br, bitCount).0;
            NatBit(v, i) == (i < bitCount && ReaderBits(br)[Pos(br) + i])
            && v < Pow2(bitCount)
  {
    GetBitsReads(br, bitCount);
    var got := ReaderBits(br)[Pos(br)..Pos(br) + bitCount];
    LsbValueBits(got, i);
    LsbValueBound(got);
  }

  /** Where `seekBits` lands: on a target byte inside the file it fetches
      that byte and the reader is readable, in step, at bit
      `8 * target + bit`, the target measured from `whence` in whole
      bytes and the bit offset including the current one when seeking
      from the current position. */
  lemma SeekBitsLands(br: BitReader, byteOffset: int, bitOffset: int, whence: Whence)
    requires Ready(br) && br.file.File?
    requires var bit := if whence == SeekCur then bitOffset + br.bitOffset else bitOffset;
             var t := SeekTarget(br.file.stream, SeekNormalise(byteOffset, bit).0, whence);
             0 <= t < |br.file.stream.data|
    ensures var r := SeekBits(br, byteOffset, bitOffset, whence);
            var bit := if whence == SeekCur then bitOffset + br.bitOffset else bitOffset;
            && r.canRead && InStep(r) && ReaderBits(r) == ReaderBits(br)
            && Pos(r) == SeekTarget(br.file.stream, byteOffset, whence) * BYTE_LEN + bit
  {
  }

  /** A seek from the current position of an in-step reader lands a whole
      byte past the bit it names: the stream position it measures from is
      already one byte beyond the held byte. */
  lemma SeekCurOvershoots(br: BitReader, byteOffset: int, bitOffset: int)
    requires Ready(br) && InStep(br)
    requires var t := SeekTarget(br.file.stream, SeekNormalise(byteOffset, bitOffset + br.bitOffset).0, SeekCur);
             0 <= t < |br.file.stream.data|
    ensures var r := SeekBits(br, byteOffset, bitOffset, SeekCur);
            r.canRead && Pos(r) == Pos(br) + BYTE_LEN + byteOffset * BYTE_LEN + bitOffset
  {
    SeekBitsLands(br, byteOffset, bitOffset, SeekCur);
  }

  /** A seek whose target byte lies at or past the end of the file leaves
      the reader unreadable. */
  lemma SeekBitsPastEnd(br: BitReader, byteOffset: int, bitOffset: int, whence: Whence)
    requires Ready(br) && br.file.File?
    requires var bit := if whence == SeekCur then bitOffset + br.bitOffset else bitOffset;
             SeekTarget(br.file.stream, SeekNormalise(byteOffset, bit).0, whence) >= |br.file.stream.data|
    ensures !SeekBits(br, byteOffset, bitOffset, whence).canRead
  {
  }

  /** A seek whose target byte lies before the start: the stream seek
      fails unnoticed, and the byte fetched is the one at the unchanged
      stream position, with the normalised bit offset. */
  lemma SeekBitsBeforeStart(br: BitReader, byteOffset: int, bitOffset: int, whence: Whence)
    requires Ready(br) && br.file.File? && br.file.stream.pos < |br.file.stream.data|
    requires var bit := if whence == SeekCur then bitOffset + br.bitOffset else bitOffset;
             SeekTarget(br.file.stream, SeekNormalise(byteOffset, bit).0, whence) < 0
    ensures var r := SeekBits(br, byteOffset, bitOffset, whence);
            var bit := if whence == SeekCur then bitOffset + br.bitOffset else bitOffset;
            r.canRead && InStep(r) && Pos(r) == br.file.stream.pos * BYTE_LEN + SeekNormalise(byteOffset, bit).1
  {
  }

  /** A reader over a newly opened non-empty file is readable at bit 0;
      over an empty file it is not. */
  lemma NewBitReaderStarts(data: seq<bv8>, cap: nat)
    ensures var br := NewBitReader(File(Open(data, cap)));
            && (data != [] ==> br.canRead && InStep(br) && Pos(br) == 0 && ReaderBits(br) == Bits(data, false))
            && (data == [] ==> !br.canRead)
  {
  }

  /** The numeral of the BIT_LIMIT bits from `from`, or of all the bits
      from `from` when fewer remain. */
  function WindowValue(bits: seq<bool>, from: int): nat
    requires 0 <= from <= |bits|
  {
    if from + BIT_LIMIT <= |bits| then LsbValue(bits[from..from + BIT_LIMIT]) else LsbValue(bits[from..])
  }

  /** Where a request for `bitCount` bits above BIT_LIMIT starts reading:
      the excess past the cursor, plus the held byte the seek overshoots by. */
  function OverLimitStart(br: BitReader, bitCount: int): int
    requires br.file.File?
  {
    Pos(br) + BYTE_LEN + (bitCount - BIT_LIMIT)
  }

  /** A request above BIT_LIMIT skips the excess with a seek from the
      current position, which overshoots by the held byte: the BIT_LIMIT
      bits returned start one byte plus the excess past the cursor. */
  lemma GetBitsOverLimit(br: BitReader, bitCount: SChar)
    requires InStep(br) && br.canRead && bitCount > BIT_LIMIT
    requires OverLimitStart(br, bitCount) < |ReaderBits(br)|
    ensures GetBits(br, bitCount).0 == WindowValue(ReaderBits(br), OverLimitStart(br, bitCount))
  {
    var sk := SkipExcess(br, bitCount);
    ReadsFrom(sk, OverLimitStart(br, bitCount), ReaderBits(br));
  }

  /** The seek a request above BIT_LIMIT makes first, after which the
      request reads BIT_LIMIT bits. */
  lemma SkipExcess(br: BitReader, bitCount: SChar) returns (sk: BitReader)
    requires InStep(br) && br.canRead && bitCount > BIT_LIMIT
    requires OverLimitStart(br, bitCount) < |ReaderBits(br)|
    ensures sk.canRead && InStep(sk) && ReaderBits(sk) == ReaderBits(br)
    ensures Pos(sk) == OverLimitStart(br, bitCount)
    ensures GetBits(br, bitCount).0 == GetBits(sk, BIT_LIMIT).0
  {
    var excess := bitCount - BIT_LIMIT;
    sk := SeekBits(br, 0, excess, SeekCur);
    GetBitsDelegates(br, bitCount, sk);
    var norm := SeekNormalise(0, excess + br.bitOffset);
    var s := br.file.stream;
    assert norm.0 >= 0;
    assert (s.pos + norm.0) * BYTE_LEN <= Pos(br) + BYTE_LEN + excess;
    SeekCurOvershoots(br, 0, excess);
    SeekBitsLands(br, 0, excess, SeekCur);
  }

  /** A full-width read from an in-step reader at `from`. */
  lemma ReadsFrom(sk: BitReader, from: int, bits: seq<bool>)
    requires sk.canRead && InStep(sk) && ReaderBits(sk) == bits && Pos(sk) == from
    ensures GetBits(sk, BIT_LIMIT).0 == WindowValue(bits, from)
  {
    GetBitsReads(sk, BIT_LIMIT);
  }

  lemma GetBitsDelegates(br: BitReader, bitCount: SChar, sk: BitReader)
    requires Ready(br) && br.canRead && bitCount > BIT_LIMIT
    requires sk == SeekBits(br, 0, bitCount - BIT_LIMIT, SeekCur)
    ensures GetBits(br, bitCount) == GetBits(sk, BIT_LIMIT)
  {
  }
}
