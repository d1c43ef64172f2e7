/**
  Consecutive reads on a cursor, and the outcomes the repository's own
  test suite expects over the four-byte medium "tuvw", derived from the
  read theorem rather than by running the cursor.
 */
module BitFileExamples {
  import opened BitOps
  import opened ByteStream
  import opened BitSpec
  import opened BitCursor
  import opened BitRead
  import opened BitPosition

  /** The test medium "tuvw". */
  const TUVW: seq<bv8> := [0x74, 0x75, 0x76, 0x77]

  predicate AllPositive(ns: seq<nat>)
  {
    forall i :: 0 <= i < |ns| ==> ns[i] >= 1
  }

  /** A cursor as `bfopen` leaves it for reading ("r") over `data`. */
  function Fresh(data: seq<bv8>, msb: bool): (bf: BitFile)
    ensures Synced(bf) && Tell(bf) == 0 && bf.flags.read && bf.flags.msb == msb
    ensures bf.fileobj.data == data
  {
    Reset(BitFile(Open(data, |data|), Byte(0), 0, Flags(true, false, msb, false)), msb)
  }

  /** `bfread` of `n` bits into a fresh zero `ceil(n/8)`-byte buffer. */
  function ReadFresh(bf: BitFile, n: nat): (nat, seq<bv8>, BitFile)
    requires n >= 1
  {
    BfRead(bf, seq(CeilDiv(n, BYTE_LEN), _ => 0 as bv8), n)
  }

  /** The cursor reads `ns[0]`, `ns[1]`, ... bits in turn, each into a
      fresh `ceil(n/8)`-byte buffer: the counts and buffers it returns. */
  function MachineReads(bf: BitFile, ns: seq<nat>): (r: seq<(nat, seq<bv8>)>)
    requires AllPositive(ns)
    ensures |r| == |ns|
    decreases |ns|
  {
    if ns == [] then []
    else
      var res := ReadFresh(bf, ns[0]);
      [(res.0, res.1)] + MachineReads(res.2, ns[1..])
  }

  /** The reference outcome of the same reads from bit `from`: each takes
      what it asks for or what remains, and its buffer is the reference
      destination. */
  function SpecReads(bits: seq<bool>, from: int, ns: seq<nat>, msb: bool): (r: seq<(nat, seq<bv8>)>)
    requires 0 <= from <= |bits| && AllPositive(ns)
    ensures |r| == |ns|
    decreases |ns|
  {
    if ns == [] then []
    else
      var c := Min(ns[0], |bits| - from);
      [(c, ReadSpec(bits, from, c, CeilDiv(ns[0], BYTE_LEN), msb))] + SpecReads(bits, from + c, ns[1..], msb)
  }

  /** Nothing left to read: the reference destination is all zero. */
  lemma ReadSpecEmpty(bits: seq<bool>, from: int, size: nat, msb: bool)
    requires 0 <= from <= |bits|
    ensures ReadSpec(bits, from, 0, size, msb) == seq(size, _ => 0 as bv8)
  {
    var spec := ReadSpec(bits, from, 0, size, msb);
    forall j | 0 <= j < size
      ensures spec[j] == 0
    {
      assert spec[j] == DestByte(bits, from, 0, j, msb);
    }
  }

  /** A cursor in step at `from`, or at end of file with `from` the end. */
  predicate ReadyAt(bf: BitFile, from: int)
  {
    (Synced(bf) && from == Tell(bf)) || (BfEof(bf) && bf.bitoffset >= 0 && from == |MediumBits(bf)|)
  }

  /** A ready cursor is at a bit of the medium or at its end. */
  lemma ReadyInRange(bf: BitFile, from: int)
    requires ReadyAt(bf, from)
    ensures 0 <= from <= |MediumBits(bf)|
  {
    if Synced(bf) && from == Tell(bf) {
      SyncedTell(bf);
    }
  }

  /** One read from a ready cursor: the reference count and destination,
      and a cursor ready at the position after them. */
  lemma ReadStep(bf: BitFile, n: nat, from: int, bits: seq<bool>, msb: bool) returns (res: (nat, seq<bv8>, BitFile))
    requires n >= 1 && bf.flags.read && ReadyAt(bf, from)
    requires bits == MediumBits(bf) && msb == bf.flags.msb
    ensures res == ReadFresh(bf, n)
    ensures 0 <= from <= |bits|
    ensures res.0 == Min(n, |bits| - from)
    ensures res.1 == ReadSpec(bits, from, res.0, CeilDiv(n, BYTE_LEN), msb)
    ensures bits == MediumBits(res.2) && res.2.flags == bf.flags
    ensures ReadyAt(res.2, from + res.0)
  {
    var buf := seq(CeilDiv(n, BYTE_LEN), _ => 0 as bv8);
    res := BfRead(bf, buf, n);
    if Synced(bf) && from == Tell(bf) {
      BfReadSynced(bf, buf, n);
    } else {
      BfReadAtEof(bf, buf, n);
      ReadSpecEmpty(bits, from, |buf|, msb);
    }
  }

  lemma MachineUnfold(bf: BitFile, ns: seq<nat>, c: nat, buf: seq<bv8>, next: BitFile)
    requires AllPositive(ns) && ns != [] && (c, buf, next) == ReadFresh(bf, ns[0])
    ensures MachineReads(bf, ns) == [(c, buf)] + MachineReads(next, ns[1..])
  {
  }

  lemma SpecUnfold(bits: seq<bool>, from: int, ns: seq<nat>, msb: bool, c: nat, buf: seq<bv8>, to: int)
    requires 0 <= from <= |bits| && AllPositive(ns) && ns != []
    requires c == Min(ns[0], |bits| - from) && buf == ReadSpec(bits, from, c, CeilDiv(ns[0], BYTE_LEN), msb)
    requires to == from + c
    ensures SpecReads(bits, from, ns, msb) == [(c, buf)] + SpecReads(bits, to, ns[1..], msb)
  {
  }

  /** The first of several reads from a ready cursor: both outcomes start
      with the reference count and destination, and the cursor is ready for
      the rest. */
  lemma ReadsStep(bf: BitFile, ns: seq<nat>, from: int, bits: seq<bool>, msb: bool) returns (c: nat, buf: seq<bv8>, next: BitFile, to: int)
    requires AllPositive(ns) && ns != [] && bf.flags.read && ReadyAt(bf, from)
    requires bits == MediumBits(bf) && msb == bf.flags.msb
    ensures to == from + c && 0 <= from <= to <= |bits| && AllPositive(ns[1..])
    ensures next.flags.read && ReadyAt(next, to)
    ensures bits == MediumBits(next) && msb == next.flags.msb
    ensures MachineReads(bf, ns) == [(c, buf)] + MachineReads(next, ns[1..])
    ensures SpecReads(bits, from, ns, msb) == [(c, buf)] + SpecReads(bits, to, ns[1..], msb)
  {
    var res := ReadStep(bf, ns[0], from, bits, msb);
    c, buf, next := res.0, res.1, res.2;
    to := from + c;
    MachineUnfold(bf, ns, c, buf, next);
    SpecUnfold(bits, from, ns, msb, c, buf, to);
  }

  /** Consecutive reads from a ready cursor yield the reference outcome: the
      sequence of counts and buffers the bits of the medium determine. */
  lemma {:induction false} MachineMatchesSpec(bf: BitFile, ns: seq<nat>, from: int, bits: seq<bool>, msb: bool)
    requires AllPositive(ns) && bf.flags.read && ReadyAt(bf, from)
    requires bits == MediumBits(bf) && msb == bf.flags.msb
    ensures 0 <= from <= |bits|
    ensures MachineReads(bf, ns) == SpecReads(bits, from, ns, msb)
    decreases |ns|, 1
  {
    ReadyInRange(bf, from);
    if ns == [] {
      assert MachineReads(bf, []) == [];
      assert SpecReads(bits, from, [], msb) == [];
    } else {
      var c, buf, next, to := ReadsStep(bf, ns, from, bits, msb);
      MatchesAfterFirst(bf, ns, from, bits, msb, c, buf, next, to);
    }
  }

  /** The rest of `MachineMatchesSpec` once the first read is known. */
  lemma {:induction false} MatchesAfterFirst(bf: BitFile, ns: seq<nat>, from: int, bits: seq<bool>, msb: bool, c: nat, buf: seq<bv8>, next: BitFile, to: int)
    requires AllPositive(ns) && ns != [] && 0 <= from <= to <= |bits| && AllPositive(ns[1..])
    requires next.flags.read && ReadyAt(next, to)
    requires bits == MediumBits(next) && msb == next.flags.msb
    requires MachineReads(bf, ns) == [(c, buf)] + MachineReads(next, ns[1..])
    requires SpecReads(bits, from, ns, msb) == [(c, buf)] + SpecReads(bits, to, ns[1..], msb)
    ensures MachineReads(bf, ns) == SpecReads(bits, from, ns, msb)
    decreases |ns|, 0
  {
    MachineMatchesSpec(next, ns[1..], to, bits, msb);
  }

  /* --- Concrete values --- */

  /** The logical bits of "tuvw" in each order, written out byte by byte. */
  function TuvwBits(msb: bool): (bits: seq<bool>)
    ensures |bits| == |TUVW| * BYTE_LEN
  {
    if msb then
      [false, true, true, true, false, true, false, false]
      + [false, true, true, true, false, true, false, true]
      + [false, true, true, true, false, true, true, false]
      + [false, true, true, true, false, true, true, true]
    else
      [false, false, true, false, true, true, true, false]
      + [true, false, true, false, true, true, true, false]
      + [false, true, true, false, true, true, true, false]
      + [true, true, true, false, true, true, true, false]
  }

  lemma TuvwBitsLiteral(msb: bool)
    ensures Bits(TUVW, msb) == TuvwBits(msb)
  {
    assert TUVW[1..][1..][1..][1..] == [];
    assert Bits(TUVW, msb) == ByteBits(0x74, msb) + ByteBits(0x75, msb) + ByteBits(0x76, msb) + ByteBits(0x77, msb);
    if msb {
      assert ByteBits(0x74, true) == [false, true, true, true, false, true, false, false];
      assert ByteBits(0x75, true) == [false, true, true, true, false, true, false, true];
      assert ByteBits(0x76, true) == [false, true, true, true, false, true, true, false];
      assert ByteBits(0x77, true) == [false, true, true, true, false, true, true, true];
    } else {
      assert ByteBits(0x74, false) == [false, false, true, false, true, true, true, false];
      assert ByteBits(0x75, false) == [true, false, true, false, true, true, true, false];
      assert ByteBits(0x76, false) == [false, true, true, false, true, true, true, false];
      assert ByteBits(0x77, false) == [true, true, true, false, true, true, true, false];
    }
  }

  /** Physical bit `p` of `v` is the bit a numeral of `len` bits from
      `from` puts there. */
  predicate Agree(v: bv8, bits: seq<bool>, from: int, len: int, msb: bool, p: BitIndex)
    requires 0 <= from && 0 <= len <= BYTE_LEN && from + len <= |bits|
  {
    ByteBit(v, p) == (p < len && bits[from + (if msb then len - 1 - p else p)])
  }

  /** A byte agreeing, bit by bit, with the numeral of some bits is that
      numeral. */
  lemma PackBitsIs(bits: seq<bool>, from: int, len: int, msb: bool, v: bv8)
    requires 0 <= from && 0 <= len <= BYTE_LEN && from + len <= |bits|
    requires Agree(v, bits, from, len, msb, 0) && Agree(v, bits, from, len, msb, 1)
    requires Agree(v, bits, from, len, msb, 2) && Agree(v, bits, from, len, msb, 3)
    requires Agree(v, bits, from, len, msb, 4) && Agree(v, bits, from, len, msb, 5)
    requires Agree(v, bits, from, len, msb, 6) && Agree(v, bits, from, len, msb, 7)
    ensures PackBits(bits, from, len, msb) == v
  {
    forall p: BitIndex {
      PackBitsBits(bits, from, len, msb, p);
    }
    ByteBitsEqual(PackBits(bits, from, len, msb), v);
  }

  /* --- Single reads over "tuvw", from the bitwise description of the numeral --- */

  lemma LsbRead6From0Into1()
    ensures ReadSpec(TuvwBits(false), 0, 6, 1, false) == [52]
  {
    PackBitsIs(TuvwBits(false), 0, 6, false, 52);
  }

  lemma LsbRead8From0Into1()
    ensures ReadSpec(TuvwBits(false), 0, 8, 1, false) == [116]
  {
    PackBitsIs(TuvwBits(false), 0, 8, false, 116);
  }

  lemma LsbRead12From0Into2()
    ensures ReadSpec(TuvwBits(false), 0, 12, 2, false) == [116, 5]
  {
    PackBitsIs(TuvwBits(false), 0, 8, false, 116);
    PackBitsIs(TuvwBits(false), 8, 4, false, 5);
  }

  lemma LsbRead32From0Into9()
    ensures ReadSpec(TuvwBits(false), 0, 32, 9, false) == [116, 117, 118, 119, 0, 0, 0, 0, 0]
  {
    assert DestByte(TuvwBits(false), 0, 32, 0, false) == 116 by { PackBitsIs(TuvwBits(false), 0, 8, false, 116); }
    assert DestByte(TuvwBits(false), 0, 32, 1, false) == 117 by { PackBitsIs(TuvwBits(false), 8, 8, false, 117); }
    assert DestByte(TuvwBits(false), 0, 32, 2, false) == 118 by { PackBitsIs(TuvwBits(false), 16, 8, false, 118); }
    assert DestByte(TuvwBits(false), 0, 32, 3, false) == 119 by { PackBitsIs(TuvwBits(false), 24, 8, false, 119); }
  }

  lemma LsbRead4From6Into1()
    ensures ReadSpec(TuvwBits(false), 6, 4, 1, false) == [5]
  {
    PackBitsIs(TuvwBits(false), 6, 4, false, 5);
  }

  lemma LsbRead8From8Into1()
    ensures ReadSpec(TuvwBits(false), 8, 8, 1, false) == [117]
  {
    PackBitsIs(TuvwBits(false), 8, 8, false, 117);
  }

  lemma LsbRead3From10Into1()
    ensures ReadSpec(TuvwBits(false), 10, 3, 1, false) == [5]
  {
    PackBitsIs(TuvwBits(false), 10, 3, false, 5);
  }

  lemma LsbRead17From12Into3()
    ensures ReadSpec(TuvwBits(false), 12, 17, 3, false) == [103, 119, 1]
  {
    assert DestByte(TuvwBits(false), 12, 17, 0, false) == 103 by { PackBitsIs(TuvwBits(false), 12, 8, false, 103); }
    assert DestByte(TuvwBits(false), 12, 17, 1, false) == 119 by { PackBitsIs(TuvwBits(false), 20, 8, false, 119); }
    assert DestByte(TuvwBits(false), 12, 17, 2, false) == 1 by { PackBitsIs(TuvwBits(false), 28, 1, false, 1); }
  }

  lemma LsbRead6From13Into1()
    ensures ReadSpec(TuvwBits(false), 13, 6, 1, false) == [51]
  {
    PackBitsIs(TuvwBits(false), 13, 6, false, 51);
  }

  lemma LsbRead8From16Into1()
    ensures ReadSpec(TuvwBits(false), 16, 8, 1, false) == [118]
  {
    PackBitsIs(TuvwBits(false), 16, 8, false, 118);
  }

  lemma LsbRead3From19Into1()
    ensures ReadSpec(TuvwBits(false), 19, 3, 1, false) == [6]
  {
    PackBitsIs(TuvwBits(false), 19, 3, false, 6);
  }

  lemma LsbRead4From22Into1()
    ensures ReadSpec(TuvwBits(false), 22, 4, 1, false) == [13]
  {
    PackBitsIs(TuvwBits(false), 22, 4, false, 13);
  }

  lemma LsbRead8From24Into1()
    ensures ReadSpec(TuvwBits(false), 24, 8, 1, false) == [119]
  {
    PackBitsIs(TuvwBits(false), 24, 8, false, 119);
  }

  lemma LsbRead5From26Into1()
    ensures ReadSpec(TuvwBits(false), 26, 5, 1, false) == [29]
  {
    PackBitsIs(TuvwBits(false), 26, 5, false, 29);
  }

  lemma LsbRead3From29Into1()
    ensures ReadSpec(TuvwBits(false), 29, 3, 1, false) == [3]
  {
    PackBitsIs(TuvwBits(false), 29, 3, false, 3);
  }

  lemma LsbRead1From31Into1()
    ensures ReadSpec(TuvwBits(false), 31, 1, 1, false) == [0]
  {
    PackBitsIs(TuvwBits(false), 31, 1, false, 0);
  }

  lemma MsbRead6From0Into1()
    ensures ReadSpec(TuvwBits(true), 0, 6, 1, true) == [29]
  {
    PackBitsIs(TuvwBits(true), 0, 6, true, 29);
  }

  lemma MsbRead8From0Into1()
    ensures ReadSpec(TuvwBits(true), 0, 8, 1, true) == [116]
  {
    PackBitsIs(TuvwBits(true), 0, 8, true, 116);
  }

  lemma MsbRead12From0Into2()
    ensures ReadSpec(TuvwBits(true), 0, 12, 2, true) == [116, 7]
  {
    PackBitsIs(TuvwBits(true), 0, 8, true, 116);
    PackBitsIs(TuvwBits(true), 8, 4, true, 7);
  }

  lemma MsbRead4From6Into1()
    ensures ReadSpec(TuvwBits(true), 6, 4, 1, true) == [1]
  {
    PackBitsIs(TuvwBits(true), 6, 4, true, 1);
  }

  lemma MsbRead8From8Into1()
    ensures ReadSpec(TuvwBits(true), 8, 8, 1, true) == [117]
  {
    PackBitsIs(TuvwBits(true), 8, 8, true, 117);
  }

  lemma MsbRead3From10Into1()
    ensures ReadSpec(TuvwBits(true), 10, 3, 1, true) == [6]
  {
    PackBitsIs(TuvwBits(true), 10, 3, true, 6);
  }

  lemma MsbRead17From12Into3()
    ensures ReadSpec(TuvwBits(true), 12, 17, 3, true) == [87, 103, 0]
  {
    assert DestByte(TuvwBits(true), 12, 17, 0, true) == 87 by { PackBitsIs(TuvwBits(true), 12, 8, true, 87); }
    assert DestByte(TuvwBits(true), 12, 17, 1, true) == 103 by { PackBitsIs(TuvwBits(true), 20, 8, true, 103); }
    assert DestByte(TuvwBits(true), 12, 17, 2, true) == 0 by { PackBitsIs(TuvwBits(true), 28, 1, true, 0); }
  }

  lemma MsbRead6From13Into1()
    ensures ReadSpec(TuvwBits(true), 13, 6, 1, true) == [43]
  {
    PackBitsIs(TuvwBits(true), 13, 6, true, 43);
  }

  lemma MsbRead8From16Into1()
    ensures ReadSpec(TuvwBits(true), 16, 8, 1, true) == [118]
  {
    PackBitsIs(TuvwBits(true), 16, 8, true, 118);
  }

  lemma MsbRead16From16Into8()
    ensures ReadSpec(TuvwBits(true), 16, 16, 8, true) == [118, 119, 0, 0, 0, 0, 0, 0]
  {
    PackBitsIs(TuvwBits(true), 16, 8, true, 118);
    PackBitsIs(TuvwBits(true), 24, 8, true, 119);
  }

  lemma MsbRead3From19Into1()
    ensures ReadSpec(TuvwBits(true), 19, 3, 1, true) == [5]
  {
    PackBitsIs(TuvwBits(true), 19, 3, true, 5);
  }

  lemma MsbRead4From22Into1()
    ensures ReadSpec(TuvwBits(true), 22, 4, 1, true) == [9]
  {
    PackBitsIs(TuvwBits(true), 22, 4, true, 9);
  }

  lemma MsbRead8From24Into1()
    ensures ReadSpec(TuvwBits(true), 24, 8, 1, true) == [119]
  {
    PackBitsIs(TuvwBits(true), 24, 8, true, 119);
  }

  lemma MsbRead5From26Into1()
    ensures ReadSpec(TuvwBits(true), 26, 5, 1, true) == [27]
  {
    PackBitsIs(TuvwBits(true), 26, 5, true, 27);
  }

  lemma MsbRead3From29Into1()
    ensures ReadSpec(TuvwBits(true), 29, 3, 1, true) == [7]
  {
    PackBitsIs(TuvwBits(true), 29, 3, true, 7);
  }

  lemma MsbRead1From31Into1()
    ensures ReadSpec(TuvwBits(true), 31, 1, 1, true) == [1]
  {
    PackBitsIs(TuvwBits(true), 31, 1, true, 1);
  }

  /* --- The reference outcomes of the test sequences --- */

  lemma WholeByteSpecLsb(bits: seq<bool>, ns: seq<nat>)
    requires bits == TuvwBits(false) && ns == [8, 8, 8, 8]
    ensures SpecReads(bits, 0, ns, false) == [(8, [116]), (8, [117]), (8, [118]), (8, [119])]
  {
    LsbRead8From0Into1();
    SpecUnfold(bits, 0, ns, false, 8, [116], 8);
    LsbRead8From8Into1();
    SpecUnfold(bits, 8, ns[1..], false, 8, [117], 16);
    LsbRead8From16Into1();
    SpecUnfold(bits, 16, ns[1..][1..], false, 8, [118], 24);
    LsbRead8From24Into1();
    SpecUnfold(bits, 24, ns[1..][1..][1..], false, 8, [119], 32);
    assert SpecReads(bits, 32, [], false) == [];
  }

  lemma WholeByteSpecMsb(bits: seq<bool>, ns: seq<nat>)
    requires bits == TuvwBits(true) && ns == [8, 8, 8, 8]
    ensures SpecReads(bits, 0, ns, true) == [(8, [116]), (8, [117]), (8, [118]), (8, [119])]
  {
    MsbRead8From0Into1();
    SpecUnfold(bits, 0, ns, true, 8, [116], 8);
    MsbRead8From8Into1();
    SpecUnfold(bits, 8, ns[1..], true, 8, [117], 16);
    MsbRead8From16Into1();
    SpecUnfold(bits, 16, ns[1..][1..], true, 8, [118], 24);
    MsbRead8From24Into1();
    SpecUnfold(bits, 24, ns[1..][1..][1..], true, 8, [119], 32);
    assert SpecReads(bits, 32, [], true) == [];
  }

  lemma PartialByteLsbSpecTail(bits: seq<bool>, ns: seq<nat>)
    requires bits == TuvwBits(false) && ns == [3, 4, 5, 1]
    ensures SpecReads(bits, 19, ns, false) == [(3, [6]), (4, [13]), (5, [29]), (1, [0])]
  {
    LsbRead3From19Into1();
    SpecUnfold(bits, 19, ns, false, 3, [6], 22);
    LsbRead4From22Into1();
    SpecUnfold(bits, 22, ns[1..], false, 4, [13], 26);
    LsbRead5From26Into1();
    SpecUnfold(bits, 26, ns[1..][1..], false, 5, [29], 31);
    LsbRead1From31Into1();
    SpecUnfold(bits, 31, ns[1..][1..][1..], false, 1, [0], 32);
    assert SpecReads(bits, 32, [], false) == [];
  }

  lemma PartialByteLsbSpec(bits: seq<bool>, ns: seq<nat>)
    requires bits == TuvwBits(false) && ns == [6, 4, 3, 6, 3, 4, 5, 1]
    ensures SpecReads(bits, 0, ns, false) == [(6, [52]), (4, [5]), (3, [5]), (6, [51]), (3, [6]), (4, [13]), (5, [29]), (1, [0])]
  {
    LsbRead6From0Into1();
    SpecUnfold(bits, 0, ns, false, 6, [52], 6);
    LsbRead4From6Into1();
    SpecUnfold(bits, 6, ns[1..], false, 4, [5], 10);
    PartialByteLsbSpecMid(bits, ns[2..]);
  }

  lemma PartialByteLsbSpecMid(bits: seq<bool>, ns: seq<nat>)
    requires bits == TuvwBits(false) && ns == [3, 6, 3, 4, 5, 1]
    ensures SpecReads(bits, 10, ns, false) == [(3, [5]), (6, [51])] + [(3, [6]), (4, [13]), (5, [29]), (1, [0])]
  {
    LsbRead3From10Into1();
    SpecUnfold(bits, 10, ns, false, 3, [5], 13);
    LsbRead6From13Into1();
    SpecUnfold(bits, 13, ns[1..], false, 6, [51], 19);
    PartialByteLsbSpecTail(bits, ns[2..]);
  }

  lemma PartialByteMsbSpecTail(bits: seq<bool>, ns: seq<nat>)
    requires bits == TuvwBits(true) && ns == [3, 4, 5, 1]
    ensures SpecReads(bits, 19, ns, true) == [(3, [5]), (4, [9]), (5, [27]), (1, [1])]
  {
    MsbRead3From19Into1();
    SpecUnfold(bits, 19, ns, true, 3, [5], 22);
    MsbRead4From22Into1();
    SpecUnfold(bits, 22, ns[1..], true, 4, [9], 26);
    MsbRead5From26Into1();
    SpecUnfold(bits, 26, ns[1..][1..], true, 5, [27], 31);
    MsbRead1From31Into1();
    SpecUnfold(bits, 31, ns[1..][1..][1..], true, 1, [1], 32);
    assert SpecReads(bits, 32, [], true) == [];
  }

  lemma PartialByteMsbSpec(bits: seq<bool>, ns: seq<nat>)
    requires bits == TuvwBits(true) && ns == [6, 4, 3, 6, 3, 4, 5, 1]
    ensures SpecReads(bits, 0, ns, true) == [(6, [29]), (4, [1]), (3, [6]), (6, [43]), (3, [5]), (4, [9]), (5, [27]), (1, [1])]
  {
    MsbRead6From0Into1();
    SpecUnfold(bits, 0, ns, true, 6, [29], 6);
    MsbRead4From6Into1();
    SpecUnfold(bits, 6, ns[1..], true, 4, [1], 10);
    PartialByteMsbSpecMid(bits, ns[2..]);
  }

  lemma PartialByteMsbSpecMid(bits: seq<bool>, ns: seq<nat>)
    requires bits == TuvwBits(true) && ns == [3, 6, 3, 4, 5, 1]
    ensures SpecReads(bits, 10, ns, true) == [(3, [6]), (6, [43])] + [(3, [5]), (4, [9]), (5, [27]), (1, [1])]
  {
    MsbRead3From10Into1();
    SpecUnfold(bits, 10, ns, true, 3, [6], 13);
    MsbRead6From13Into1();
    SpecUnfold(bits, 13, ns[1..], true, 6, [43], 19);
    PartialByteMsbSpecTail(bits, ns[2..]);
  }

  lemma MultiByteLsbSpec(bits: seq<bool>, ns: seq<nat>)
    requires bits == TuvwBits(false) && ns == [12, 17, 3]
    ensures SpecReads(bits, 0, ns, false) == [(12, [116, 5]), (17, [103, 119, 1]), (3, [3])]
  {
    LsbRead12From0Into2();
    SpecUnfold(bits, 0, ns, false, 12, [116, 5], 12);
    LsbRead17From12Into3();
    SpecUnfold(bits, 12, ns[1..], false, 17, [103, 119, 1], 29);
    LsbRead3From29Into1();
    SpecUnfold(bits, 29, ns[1..][1..], false, 3, [3], 32);
    assert SpecReads(bits, 32, [], false) == [];
  }

  lemma MultiByteMsbSpec(bits: seq<bool>, ns: seq<nat>)
    requires bits == TuvwBits(true) && ns == [12, 17, 3]
    ensures SpecReads(bits, 0, ns, true) == [(12, [116, 7]), (17, [87, 103, 0]), (3, [7])]
  {
    MsbRead12From0Into2();
    SpecUnfold(bits, 0, ns, true, 12, [116, 7], 12);
    MsbRead17From12Into3();
    SpecUnfold(bits, 12, ns[1..], true, 17, [87, 103, 0], 29);
    MsbRead3From29Into1();
    SpecUnfold(bits, 29, ns[1..][1..], true, 3, [7], 32);
    assert SpecReads(bits, 32, [], true) == [];
  }

  lemma ShortReadSpec(bits: seq<bool>, ns: seq<nat>)
    requires bits == TuvwBits(false) && ns == [66]
    ensures SpecReads(bits, 0, ns, false) == [(32, [116, 117, 118, 119, 0, 0, 0, 0, 0])]
  {
    LsbRead32From0Into9();
    SpecUnfold(bits, 0, ns, false, 32, [116, 117, 118, 119, 0, 0, 0, 0, 0], 32);
    assert SpecReads(bits, 32, [], false) == [];
  }

  lemma ReadAfterEofSpecTail(bits: seq<bool>, ns: seq<nat>)
    requires bits == TuvwBits(true) && ns == [64, 2]
    ensures SpecReads(bits, 16, ns, true) == [(16, [118, 119, 0, 0, 0, 0, 0, 0]), (0, [0])]
  {
    MsbRead16From16Into8();
    SpecUnfold(bits, 16, ns, true, 16, [118, 119, 0, 0, 0, 0, 0, 0], 32);
    ReadSpecEmpty(bits, 32, 1, true);
    SpecUnfold(bits, 32, ns[1..], true, 0, [0], 32);
    assert SpecReads(bits, 32, [], true) == [];
  }

  lemma ReadAfterEofSpec(bits: seq<bool>, ns: seq<nat>)
    requires bits == TuvwBits(true) && ns == [8, 8, 64, 2]
    ensures SpecReads(bits, 0, ns, true) == [(8, [116]), (8, [117]), (16, [118, 119, 0, 0, 0, 0, 0, 0]), (0, [0])]
  {
    var tail := SpecReads(bits, 16, ns[1..][1..], true);
    assert tail == [(16, [118, 119, 0, 0, 0, 0, 0, 0]), (0, [0])] by {
      ReadAfterEofSpecTail(bits, ns[1..][1..]);
    }
    assert SpecReads(bits, 8, ns[1..], true) == [(8, [117])] + tail by {
      MsbRead8From8Into1();
      SpecUnfold(bits, 8, ns[1..], true, 8, [117], 16);
    }
    assert SpecReads(bits, 0, ns, true) == [(8, [116])] + SpecReads(bits, 8, ns[1..], true) by {
      MsbRead8From0Into1();
      SpecUnfold(bits, 0, ns, true, 8, [116], 8);
    }
  }

  /* --- The outcomes the test suite expects, for the cursor itself --- */

  /** Reads from a cursor freshly opened over "tuvw" yield the reference
      outcome over its bits. */
  lemma TuvwMatches(msb: bool, ns: seq<nat>)
    requires AllPositive(ns)
    ensures MachineReads(Fresh(TUVW, msb), ns) == SpecReads(TuvwBits(msb), 0, ns, msb)
  {
    MachineMatchesSpec(Fresh(TUVW, msb), ns, 0, Bits(TUVW, msb), msb);
    TuvwBitsLiteral(msb);
  }

  /** Whole bytes read as themselves in either bit order. */
  lemma WholeByte(msb: bool)
    ensures MachineReads(Fresh(TUVW, msb), [8, 8, 8, 8]) == [(8, [116]), (8, [117]), (8, [118]), (8, [119])]
  {
    TuvwMatches(msb, [8, 8, 8, 8]);
    if msb { WholeByteSpecMsb(TuvwBits(true), [8, 8, 8, 8]); } else { WholeByteSpecLsb(TuvwBits(false), [8, 8, 8, 8]); }
  }

  /** Partial bytes, least-significant-first. */
  lemma PartialByteLsb()
    ensures MachineReads(Fresh(TUVW, false), [6, 4, 3, 6, 3, 4, 5, 1]) == [(6, [52]), (4, [5]), (3, [5]), (6, [51]), (3, [6]), (4, [13]), (5, [29]), (1, [0])]
  {
    TuvwMatches(false, [6, 4, 3, 6, 3, 4, 5, 1]);
    PartialByteLsbSpec(TuvwBits(false), [6, 4, 3, 6, 3, 4, 5, 1]);
  }

  /** Partial bytes, most-significant-first. */
  lemma PartialByteMsb()
    ensures MachineReads(Fresh(TUVW, true), [6, 4, 3, 6, 3, 4, 5, 1]) == [(6, [29]), (4, [1]), (3, [6]), (6, [43]), (3, [5]), (4, [9]), (5, [27]), (1, [1])]
  {
    TuvwMatches(true, [6, 4, 3, 6, 3, 4, 5, 1]);
    PartialByteMsbSpec(TuvwBits(true), [6, 4, 3, 6, 3, 4, 5, 1]);
  }

  /** Reads spanning several bytes, least-significant-first. */
  lemma MultiByteLsb()
    ensures MachineReads(Fresh(TUVW, false), [12, 17, 3]) == [(12, [116, 5]), (17, [103, 119, 1]), (3, [3])]
  {
    TuvwMatches(false, [12, 17, 3]);
    MultiByteLsbSpec(TuvwBits(false), [12, 17, 3]);
  }

  /** Reads spanning several bytes, most-significant-first. */
  lemma MultiByteMsb()
    ensures MachineReads(Fresh(TUVW, true), [12, 17, 3]) == [(12, [116, 7]), (17, [87, 103, 0]), (3, [7])]
  {
    TuvwMatches(true, [12, 17, 3]);
    MultiByteMsbSpec(TuvwBits(true), [12, 17, 3]);
  }

  /** A read longer than the medium stops at its end: 32 of 66 bits, the rest of the nine-byte buffer zero. */
  lemma ShortRead()
    ensures MachineReads(Fresh(TUVW, false), [66]) == [(32, [116, 117, 118, 119, 0, 0, 0, 0, 0])]
  {
    TuvwMatches(false, [66]);
    ShortReadSpec(TuvwBits(false), [66]);
  }

  /** End of file is sticky: reads of 8, 8, 64 and 2 bits return 8, 8, 16 and 0 bits. */
  lemma ReadAfterEof()
    ensures MachineReads(Fresh(TUVW, true), [8, 8, 64, 2]) == [(8, [116]), (8, [117]), (16, [118, 119, 0, 0, 0, 0, 0, 0]), (0, [0])]
  {
    TuvwMatches(true, [8, 8, 64, 2]);
    ReadAfterEofSpec(TuvwBits(true), [8, 8, 64, 2]);
  }

  /* --- Seeking before a read --- */

  lemma LsbRead16From16Into2()
    ensures ReadSpec(TuvwBits(false), 16, 16, 2, false) == [118, 119]
  {
    PackBitsIs(TuvwBits(false), 16, 8, false, 118);
    PackBitsIs(TuvwBits(false), 24, 8, false, 119);
  }

  lemma LsbRead16From8Into2()
    ensures ReadSpec(TuvwBits(false), 8, 16, 2, false) == [117, 118]
  {
    PackBitsIs(TuvwBits(false), 8, 8, false, 117);
    PackBitsIs(TuvwBits(false), 16, 8, false, 118);
  }

  /** Seeking to bit 16 from the start, then reading 16 bits, yields the
      last two bytes. */
  lemma SeekSetThenRead()
    ensures var s := BfSeek(Fresh(TUVW, false), 16, SeekSet);
            s.0 == 0 && ReadFresh(s.1, 16).0 == 16 && ReadFresh(s.1, 16).1 == [118, 119]
  {
    var bf := Fresh(TUVW, false);
    BfSeekLands(bf, 16, SeekSet);
    var s := BfSeek(bf, 16, SeekSet);
    var r := ReadStep(s.1, 16, 16, Bits(TUVW, false), false);
    TuvwBitsLiteral(false);
    LsbRead16From16Into2();
  }

  /** Seeking to 24 bits before the end, then reading 16 bits, yields the
      middle two bytes. */
  lemma SeekEndThenRead()
    ensures var s := BfSeek(Fresh(TUVW, false), -24, SeekEnd);
            s.0 == 0 && ReadFresh(s.1, 16).0 == 16 && ReadFresh(s.1, 16).1 == [117, 118]
  {
    var bf := Fresh(TUVW, false);
    BfSeekLands(bf, -24, SeekEnd);
    var s := BfSeek(bf, -24, SeekEnd);
    var r := ReadStep(s.1, 16, 8, Bits(TUVW, false), false);
    TuvwBitsLiteral(false);
    LsbRead16From8Into2();
  }

  lemma LsbRead16From0Into2()
    ensures ReadSpec(TuvwBits(false), 0, 16, 2, false) == [116, 117]
  {
    PackBitsIs(TuvwBits(false), 0, 8, false, 116);
    PackBitsIs(TuvwBits(false), 8, 8, false, 117);
  }

  /** Seeking 8 bits back from bit 0 of a fresh cursor, whose lookahead is
      not yet fetched, aims at byte -1: the stream seek fails and is
      ignored, and the refill fetches byte 0, so the cursor stays at bit 0
      and the next 16 bits are the first two bytes. */
  lemma SeekCurThenRead()
    ensures var s := BfSeek(Fresh(TUVW, false), -8, SeekCur);
            s.0 == 0 && Tell(s.1) == 0 && ReadFresh(s.1, 16).0 == 16 && ReadFresh(s.1, 16).1 == [116, 117]
  {
    var bf := Fresh(TUVW, false);
    assert bf.fileobj.pos == 0 && bf.bitoffset == BYTE_LEN;
    assert SeekNormalise(bf, -8, SeekCur) == (0, -1);
    BfSeekBeforeStart(bf, -8, SeekCur);
    var s := BfSeek(bf, -8, SeekCur);
    var r := ReadStep(s.1, 16, 0, Bits(TUVW, false), false);
    TuvwBitsLiteral(false);
    LsbRead16From0Into2();
  }
}
