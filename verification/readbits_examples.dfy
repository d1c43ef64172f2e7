/**
  Consecutive `getBits` calls on one reader, and the values the reader's
  own test suite expects over the four-byte file "tuvw", derived from the
  packing theorem rather than by running the reader.
 */
module ReaderExamples {
  import opened BitOps
  import opened ByteStream
  import opened BitSpec
  import opened ReadBits
  import opened ReaderProps
  import opened BitFileExamples

  /** Every count is one a single read takes without seeking first. */
  predicate WithinLimit(counts: seq<SChar>)
  {
    forall i :: 0 <= i < |counts| ==> 0 <= counts[i] <= BIT_LIMIT
  }

  /** The values `getBits` returns for `counts[0]`, `counts[1]`, ... in turn. */
  function ReaderReads(br: BitReader, counts: seq<SChar>): (r: seq<nat>)
    requires Ready(br)
    ensures |r| == |counts|
    decreases |counts|
  {
    if counts == [] then []
    else
      var res := GetBits(br, counts[0]);
      [res.0] + ReaderReads(res.1, counts[1..])
  }

  /** The reference outcome of the same reads from bit `from` of `bits`:
      while `live`, each read is the numeral of the bits it asks for, or
      of all that remain, after which every read is zero; a count of zero
      or less reads nothing. */
  function SpecLsbReads(bits: seq<bool>, from: int, counts: seq<SChar>, live: bool): (r: seq<nat>)
    requires 0 <= from <= |bits|
    ensures |r| == |counts|
    decreases |counts|
  {
    if counts == [] then []
    else if !live || counts[0] <= 0 then [0] + SpecLsbReads(bits, from, counts[1..], live)
    else if from + counts[0] <= |bits| then
      [LsbValue(bits[from..from + counts[0]])] + SpecLsbReads(bits, from + counts[0], counts[1..], true)
    else [LsbValue(bits[from..])] + SpecLsbReads(bits, |bits|, counts[1..], false)
  }

  /** A reader that is readable in step at `from`, or not readable at all. */
  predicate ReaderAt(br: BitReader, from: int, bits: seq<bool>)
  {
    Ready(br) && (br.canRead ==> InStep(br) && Pos(br) == from && ReaderBits(br) == bits)
  }

  lemma ReadsUnfold(br: BitReader, counts: seq<SChar>, v: nat, next: BitReader)
    requires Ready(br) && counts != [] && (v, next) == GetBits(br, counts[0])
    ensures ReaderReads(br, counts) == [v] + ReaderReads(next, counts[1..])
  {
  }

  /** One read from a reader at `from`: both outcomes start with the same
      value, and the reader is left at the position the reference moves to. */
  lemma ReaderStep(br: BitReader, counts: seq<SChar>, from: int, bits: seq<bool>)
    returns (v: nat, next: BitReader, from2: int)
    requires WithinLimit(counts) && counts != [] && 0 <= from <= |bits| && ReaderAt(br, from, bits)
    ensures 0 <= from2 <= |bits| && WithinLimit(counts[1..]) && ReaderAt(next, from2, bits)
    ensures ReaderReads(br, counts) == [v] + ReaderReads(next, counts[1..])
    ensures SpecLsbReads(bits, from, counts, br.canRead) == [v] + SpecLsbReads(bits, from2, counts[1..], next.canRead)
  {
    var res := GetBits(br, counts[0]);
    v, next := res.0, res.1;
    ReadsUnfold(br, counts, v, next);
    if !br.canRead {
      from2 := from;
    } else {
      GetBitsReads(br, counts[0]);
      from2 := if from + counts[0] <= |bits| then from + counts[0] else |bits|;
    }
  }

  /** The reader's reads agree with the reference, read after read. */
  lemma {:induction false} ReaderMatchesSpec(br: BitReader, counts: seq<SChar>, from: int, bits: seq<bool>)
    requires WithinLimit(counts) && 0 <= from <= |bits| && ReaderAt(br, from, bits)
    ensures ReaderReads(br, counts) == SpecLsbReads(bits, from, counts, br.canRead)
    decreases |counts|
  {
    if counts != [] {
      var v, next, from2 := ReaderStep(br, counts, from, bits);
      ReaderMatchesSpec(next, counts[1..], from2, bits);
    }
  }

  /** A reader whose file failed to open returns zero for every read. */
  lemma {:induction false} UnopenedReadsZero(counts: seq<SChar>)
    ensures ReaderReads(NewBitReader(NoFile), counts) == seq(|counts|, _ => 0)
    decreases |counts|
  {
    var br := NewBitReader(NoFile);
    if counts != [] {
      assert GetBits(br, counts[0]) == (0, br);
      UnopenedReadsZero(counts[1..]);
    }
  }

  /* --- The test file "tuvw" --- */

  /** A reader as `newBitReader` leaves it over "tuvw". */
  function TuvwReader(): (br: BitReader)
    ensures Ready(br) && br.canRead && InStep(br) && Pos(br) == 0 && ReaderBits(br) == TuvwBits(false)
  {
    NewBitReaderStarts(TUVW, |TUVW|);
    TuvwBitsLiteral(false);
    NewBitReader(File(Open(TUVW, |TUVW|)))
  }

  /** The numeral of bits `a` to `b` splits at any `m` between them. */
  lemma LsbSplit(bits: seq<bool>, a: int, m: int, b: int)
    requires 0 <= a <= m <= b <= |bits|
    ensures LsbValue(bits[a..b]) == LsbValue(bits[a..m]) + Shl(LsbValue(bits[m..b]), m - a)
  {
    assert bits[a..b] == bits[a..m] + bits[m..b];
    LsbValueAppend(bits[a..m], bits[m..b]);
  }

  /* The numerals of short runs of "tuvw", least significant bit first. */

  lemma Tuvw0To6(bits: seq<bool>)
    requires bits == TuvwBits(false)
    ensures LsbValue(bits[0..6]) == 52
  {
    assert bits[0..6] == [false, false, true, false, true, true];
    assert LsbValue([false, false, true, false, true, true]) == 52;
  }

  lemma Tuvw0To8(bits: seq<bool>)
    requires bits == TuvwBits(false)
    ensures LsbValue(bits[0..8]) == 116
  {
    assert bits[0..8] == [false, false, true, false, true, true, true, false];
    assert LsbValue([false, false, true, false, true, true, true, false]) == 116;
  }

  lemma Tuvw6To10(bits: seq<bool>)
    requires bits == TuvwBits(false)
    ensures LsbValue(bits[6..10]) == 5
  {
    assert bits[6..10] == [true, false, true, false];
    assert LsbValue([true, false, true, false]) == 5;
  }

  lemma Tuvw8To12(bits: seq<bool>)
    requires bits == TuvwBits(false)
    ensures LsbValue(bits[8..12]) == 5
  {
    assert bits[8..12] == [true, false, true, false];
    assert LsbValue([true, false, true, false]) == 5;
  }

  lemma Tuvw8To16(bits: seq<bool>)
    requires bits == TuvwBits(false)
    ensures LsbValue(bits[8..16]) == 117
  {
    assert bits[8..16] == [true, false, true, false, true, true, true, false];
    assert LsbValue([true, false, true, false, true, true, true, false]) == 117;
  }

  lemma Tuvw9To16(bits: seq<bool>)
    requires bits == TuvwBits(false)
    ensures LsbValue(bits[9..16]) == 58
  {
    assert bits[9..16] == [false, true, false, true, true, true, false];
    assert LsbValue([false, true, false, true, true, true, false]) == 58;
  }

  lemma Tuvw10To13(bits: seq<bool>)
    requires bits == TuvwBits(false)
    ensures LsbValue(bits[10..13]) == 5
  {
    assert bits[10..13] == [true, false, true];
    assert LsbValue([true, false, true]) == 5;
  }

  lemma Tuvw12To16(bits: seq<bool>)
    requires bits == TuvwBits(false)
    ensures LsbValue(bits[12..16]) == 7
  {
    assert bits[12..16] == [true, true, true, false];
    assert LsbValue([true, true, true, false]) == 7;
  }

  lemma Tuvw13To19(bits: seq<bool>)
    requires bits == TuvwBits(false)
    ensures LsbValue(bits[13..19]) == 51
  {
    assert bits[13..19] == [true, true, false, false, true, true];
    assert LsbValue([true, true, false, false, true, true]) == 51;
  }

  lemma Tuvw16To24(bits: seq<bool>)
    requires bits == TuvwBits(false)
    ensures LsbValue(bits[16..24]) == 118
  {
    assert bits[16..24] == [false, true, true, false, true, true, true, false];
    assert LsbValue([false, true, true, false, true, true, true, false]) == 118;
  }

  lemma Tuvw19To22(bits: seq<bool>)
    requires bits == TuvwBits(false)
    ensures LsbValue(bits[19..22]) == 6
  {
    assert bits[19..22] == [false, true, true];
    assert LsbValue([false, true, true]) == 6;
  }

  lemma Tuvw22To26(bits: seq<bool>)
    requires bits == TuvwBits(false)
    ensures LsbValue(bits[22..26]) == 13
  {
    assert bits[22..26] == [true, false, true, true];
    assert LsbValue([true, false, true, true]) == 13;
  }

  lemma Tuvw24To29(bits: seq<bool>)
    requires bits == TuvwBits(false)
    ensures LsbValue(bits[24..29]) == 23
  {
    assert bits[24..29] == [true, true, true, false, true];
    assert LsbValue([true, true, true, false, true]) == 23;
  }

  lemma Tuvw24To32(bits: seq<bool>)
    requires bits == TuvwBits(false)
    ensures LsbValue(bits[24..32]) == 119
  {
    assert bits[24..32] == [true, true, true, false, true, true, true, false];
    assert LsbValue([true, true, true, false, true, true, true, false]) == 119;
  }

  lemma Tuvw26To31(bits: seq<bool>)
    requires bits == TuvwBits(false)
    ensures LsbValue(bits[26..31]) == 29
  {
    assert bits[26..31] == [true, false, true, true, true];
    assert LsbValue([true, false, true, true, true]) == 29;
  }

  lemma Tuvw29To32(bits: seq<bool>)
    requires bits == TuvwBits(false)
    ensures LsbValue(bits[29..32]) == 3
  {
    assert bits[29..32] == [true, true, false];
    assert LsbValue([true, true, false]) == 3;
  }

  lemma Tuvw31To32(bits: seq<bool>)
    requires bits == TuvwBits(false)
    ensures LsbValue(bits[31..32]) == 0
  {
    assert bits[31..32] == [false];
    assert LsbValue([false]) == 0;
  }

  /** Bits 16 to 32: the last two bytes, 0x7776. */
  lemma Tuvw16To32(bits: seq<bool>)
    requires bits == TuvwBits(false)
    ensures LsbValue(bits[16..32]) == 30582
  {
    LsbSplit(bits, 16, 24, 32);
    Tuvw16To24(bits);
    Tuvw24To32(bits);
  }

  /* --- The reference outcomes of the test reads --- */

  /** A live read that fits. */
  lemma SpecFits(bits: seq<bool>, from: int, c: SChar, to: int, rest: seq<SChar>)
    requires 0 <= from && 0 < c && to == from + c <= |bits|
    ensures SpecLsbReads(bits, from, [c] + rest, true) == [LsbValue(bits[from..to])] + SpecLsbReads(bits, to, rest, true)
  {
    assert ([c] + rest)[1..] == rest;
  }

  /** A live read running off the end. */
  lemma SpecRunsOut(bits: seq<bool>, from: int, c: SChar, rest: seq<SChar>)
    requires 0 <= from <= |bits| && from + c > |bits|
    ensures SpecLsbReads(bits, from, [c] + rest, true) == [LsbValue(bits[from..])] + SpecLsbReads(bits, |bits|, rest, false)
  {
    assert ([c] + rest)[1..] == rest;
  }

  /** A read after the reader stopped. */
  lemma SpecDead(bits: seq<bool>, from: int, c: SChar, rest: seq<SChar>)
    requires 0 <= from <= |bits|
    ensures SpecLsbReads(bits, from, [c] + rest, false) == [0] + SpecLsbReads(bits, from, rest, false)
  {
    assert ([c] + rest)[1..] == rest;
  }

  /** The whole-byte reads, from the values of the four bytes. */
  lemma WholeBytesSpec(bits: seq<bool>, counts: seq<SChar>)
    requires |bits| == 32 && counts == [8, 8, 8, 8]
    requires LsbValue(bits[0..8]) == 116 && LsbValue(bits[8..16]) == 117
    requires LsbValue(bits[16..24]) == 118 && LsbValue(bits[24..32]) == 119
    ensures SpecLsbReads(bits, 0, counts, true) == [116, 117, 118, 119]
  {
    SpecFits(bits, 24, 8, 32, []);
    SpecFits(bits, 16, 8, 24, [8]);
    SpecFits(bits, 8, 8, 16, [8, 8]);
    SpecFits(bits, 0, 8, 8, [8, 8, 8]);
  }

  lemma PartialBytesSpecTail(bits: seq<bool>, counts: seq<SChar>)
    requires |bits| == 32 && counts == [3, 4, 5, 1]
    requires LsbValue(bits[19..22]) == 6 && LsbValue(bits[22..26]) == 13
    requires LsbValue(bits[26..31]) == 29 && LsbValue(bits[31..32]) == 0
    ensures SpecLsbReads(bits, 19, counts, true) == [6, 13, 29, 0]
  {
    SpecFits(bits, 31, 1, 32, []);
    SpecFits(bits, 26, 5, 31, [1]);
    SpecFits(bits, 22, 4, 26, [5, 1]);
    SpecFits(bits, 19, 3, 22, [4, 5, 1]);
  }

  lemma PartialBytesSpecMid(bits: seq<bool>, counts: seq<SChar>)
    requires |bits| == 32 && counts == [3, 6, 3, 4, 5, 1]
    requires LsbValue(bits[10..13]) == 5 && LsbValue(bits[13..19]) == 51
    requires SpecLsbReads(bits, 19, [3, 4, 5, 1], true) == [6, 13, 29, 0]
    ensures SpecLsbReads(bits, 10, counts, true) == [5, 51, 6, 13, 29, 0]
  {
    SpecFits(bits, 13, 6, 19, [3, 4, 5, 1]);
    SpecFits(bits, 10, 3, 13, [6, 3, 4, 5, 1]);
  }

  lemma PartialBytesSpecHead(bits: seq<bool>, counts: seq<SChar>)
    requires |bits| == 32 && counts == [6, 4, 3, 6, 3, 4, 5, 1]
    requires LsbValue(bits[0..6]) == 52 && LsbValue(bits[6..10]) == 5
    requires SpecLsbReads(bits, 10, [3, 6, 3, 4, 5, 1], true) == [5, 51, 6, 13, 29, 0]
    ensures SpecLsbReads(bits, 0, counts, true) == [52, 5, 5, 51, 6, 13, 29, 0]
  {
    assert [4] + [3, 6, 3, 4, 5, 1] == [4, 3, 6, 3, 4, 5, 1];
    assert [6] + [4, 3, 6, 3, 4, 5, 1] == [6, 4, 3, 6, 3, 4, 5, 1];
    assert [5] + [5, 51, 6, 13, 29, 0] == [5, 5, 51, 6, 13, 29, 0];
    assert [52] + [5, 5, 51, 6, 13, 29, 0] == [52, 5, 5, 51, 6, 13, 29, 0];
    SpecFits(bits, 6, 4, 10, [3, 6, 3, 4, 5, 1]);
    SpecFits(bits, 0, 6, 6, [4, 3, 6, 3, 4, 5, 1]);
  }

  lemma Tuvw0To12(bits: seq<bool>)
    requires bits == TuvwBits(false)
    ensures LsbValue(bits[0..12]) == 1396
  {
    LsbSplit(bits, 0, 8, 12);
    Tuvw0To8(bits);
    Tuvw8To12(bits);
  }

  lemma Tuvw12To29(bits: seq<bool>)
    requires bits == TuvwBits(false)
    ensures LsbValue(bits[12..29]) == 96103
  {
    LsbSplit(bits, 12, 16, 29);
    LsbSplit(bits, 16, 24, 29);
    Tuvw12To16(bits);
    Tuvw16To24(bits);
    Tuvw24To29(bits);
    assert LsbValue(bits[16..29]) == 118 + Shl(23, 8) == 6006;
    assert Shl(6006, 4) == 96096;
  }

  lemma MultiByteSpec(bits: seq<bool>, counts: seq<SChar>)
    requires |bits| == 32 && counts == [12, 17, 3]
    requires LsbValue(bits[0..12]) == 1396 && LsbValue(bits[12..29]) == 96103
    requires LsbValue(bits[29..32]) == 3
    ensures SpecLsbReads(bits, 0, counts, true) == [1396, 96103, 3]
  {
    SpecFits(bits, 29, 3, 32, []);
    SpecFits(bits, 12, 17, 29, [3]);
    SpecFits(bits, 0, 12, 12, [17, 3]);
  }

  lemma ReadPastEndSpec(bits: seq<bool>, counts: seq<SChar>)
    requires |bits| == 32 && counts == [8, 8, 64, 2]
    requires LsbValue(bits[0..8]) == 116 && LsbValue(bits[8..16]) == 117
    requires LsbValue(bits[16..32]) == 30582
    ensures SpecLsbReads(bits, 0, counts, true) == [116, 117, 30582, 0]
  {
    SpecDead(bits, 32, 2, []);
    assert bits[16..] == bits[16..32];
    SpecRunsOut(bits, 16, 64, [2]);
    SpecFits(bits, 8, 8, 16, [64, 2]);
    SpecFits(bits, 0, 8, 8, [8, 64, 2]);
  }

  /** Bits 9 to the end: 0x777675 shifted right once. */
  lemma Tuvw9ToEnd(bits: seq<bool>)
    requires bits == TuvwBits(false)
    ensures LsbValue(bits[9..]) == 3914554
  {
    assert |bits| == 32;
    assert bits[9..] == bits[9..32];
    LsbSplit(bits, 9, 16, 32);
    Tuvw9To16(bits);
    Tuvw16To32(bits);
    assert Shl(30582, 7) == 3914496;
  }

  /** The reference outcomes over "tuvw", from the numerals of its runs. */
  lemma TuvwWholeBytes(bits: seq<bool>)
    requires bits == TuvwBits(false)
    ensures SpecLsbReads(bits, 0, [8, 8, 8, 8], true) == [116, 117, 118, 119]
  {
    Tuvw0To8(bits);
    Tuvw8To16(bits);
    Tuvw16To24(bits);
    Tuvw24To32(bits);
    WholeBytesSpec(bits, [8, 8, 8, 8]);
  }

  lemma TuvwPartialTail(bits: seq<bool>)
    requires bits == TuvwBits(false)
    ensures SpecLsbReads(bits, 19, [3, 4, 5, 1], true) == [6, 13, 29, 0]
  {
    Tuvw19To22(bits);
    Tuvw22To26(bits);
    Tuvw26To31(bits);
    Tuvw31To32(bits);
    PartialBytesSpecTail(bits, [3, 4, 5, 1]);
  }

  lemma TuvwPartialBytes(bits: seq<bool>)
    requires bits == TuvwBits(false)
    ensures SpecLsbReads(bits, 0, [6, 4, 3, 6, 3, 4, 5, 1], true) == [52, 5, 5, 51, 6, 13, 29, 0]
  {
    TuvwPartialTail(bits);
    Tuvw0To6(bits);
    Tuvw6To10(bits);
    Tuvw10To13(bits);
    Tuvw13To19(bits);
    PartialBytesSpecMid(bits, [3, 6, 3, 4, 5, 1]);
    PartialBytesSpecHead(bits, [6, 4, 3, 6, 3, 4, 5, 1]);
  }

  lemma TuvwMultiByte(bits: seq<bool>)
    requires bits == TuvwBits(false)
    ensures SpecLsbReads(bits, 0, [12, 17, 3], true) == [1396, 96103, 3]
  {
    Tuvw0To12(bits);
    Tuvw12To29(bits);
    Tuvw29To32(bits);
    MultiByteSpec(bits, [12, 17, 3]);
  }

  lemma TuvwReadPastEnd(bits: seq<bool>)
    requires bits == TuvwBits(false)
    ensures SpecLsbReads(bits, 0, [8, 8, 64, 2], true) == [116, 117, 30582, 0]
  {
    Tuvw0To8(bits);
    Tuvw8To16(bits);
    Tuvw16To32(bits);
    ReadPastEndSpec(bits, [8, 8, 64, 2]);
  }

  /* --- The outcomes the test suite expects, for the reader itself --- */

  /** Whole bytes read as themselves. */
  lemma WholeBytes()
    ensures ReaderReads(TuvwReader(), [8, 8, 8, 8]) == [116, 117, 118, 119]
  {
    ReaderMatchesSpec(TuvwReader(), [8, 8, 8, 8], 0, TuvwBits(false));
    TuvwWholeBytes(TuvwBits(false));
  }

  /** Runs that start and end inside bytes. */
  lemma PartialBytes()
    ensures ReaderReads(TuvwReader(), [6, 4, 3, 6, 3, 4, 5, 1]) == [52, 5, 5, 51, 6, 13, 29, 0]
  {
    ReaderMatchesSpec(TuvwReader(), [6, 4, 3, 6, 3, 4, 5, 1], 0, TuvwBits(false));
    TuvwPartialBytes(TuvwBits(false));
  }

  /** Runs spanning several bytes. */
  lemma MultiByte()
    ensures ReaderReads(TuvwReader(), [12, 17, 3]) == [1396, 96103, 3]
  {
    ReaderMatchesSpec(TuvwReader(), [12, 17, 3], 0, TuvwBits(false));
    TuvwMultiByte(TuvwBits(false));
  }

  /** A read running off the end returns what it found, and the reader
      then returns zero: 8, 8, 64 and 2 bits give 116, 117, 0x7776 and 0. */
  lemma ReadPastEnd()
    ensures ReaderReads(TuvwReader(), [8, 8, 64, 2]) == [116, 117, 30582, 0]
  {
    ReaderMatchesSpec(TuvwReader(), [8, 8, 64, 2], 0, TuvwBits(false));
    TuvwReadPastEnd(TuvwBits(false));
  }

  /** A 65-bit request skips one bit with a seek from the current position
      that also skips the held byte, then returns the 23 bits from bit 9,
      0x777675 shifted right once. */
  lemma OverLimit()
    ensures GetBits(TuvwReader(), 65).0 == 3914554
  {
    TuvwOverLimit(TuvwReader());
  }

  lemma TuvwOverLimit(br: BitReader)
    requires InStep(br) && br.canRead && Pos(br) == 0 && ReaderBits(br) == TuvwBits(false)
    ensures GetBits(br, 65).0 == 3914554
  {
    var bits := ReaderBits(br);
    assert GetBits(br, 65).0 == LsbValue(bits[9..]) by {
      assert |bits| == 32;
      GetBitsOverLimit(br, 65);
    }
    assert LsbValue(bits[9..]) == 3914554 by {
      Tuvw9ToEnd(bits);
    }
  }

  /** A reader whose file does not exist reads 0 and 0. */
  lemma MissingFile()
    ensures ReaderReads(NewBitReader(NoFile), [8, 8]) == [0, 0]
  {
    UnopenedReadsZero([8, 8]);
  }
}
