/**
  What `bfread` reads: on a cursor in step with its stream, a read of `n`
  bits yields exactly the reference destination of `BitSpec` for the bits
  from `bftell` on, cut short only by the end of the medium.
 */
module BitRead {
  import opened BitOps
  import opened ByteStream
  import opened BitSpec
  import opened BitCursor

  /** A cursor in step with its stream: the offset lies in 0..8, the stream
      is not at end of file, and unless the offset has run to 8 (the next
      operation fetches a fresh byte) the lookahead holds the byte just
      behind the stream cursor. */
  predicate Synced(bf: BitFile)
  {
    var s := bf.fileobj;
    0 <= bf.bitoffset <= BYTE_LEN && !s.eof && bf.currbyte.Byte? && s.pos <= |s.data|
    && (bf.bitoffset < BYTE_LEN ==> 1 <= s.pos && bf.currbyte.value == s.data[s.pos - 1])
  }

  /** The medium of a cursor as a bit sequence in the cursor's bit order. */
  function MediumBits(bf: BitFile): (bits: seq<bool>)
    ensures |bits| == |bf.fileobj.data| * BYTE_LEN
  {
    Bits(bf.fileobj.data, bf.flags.msb)
  }

  /** In step, `bftell` lies within the medium. */
  lemma SyncedTell(bf: BitFile)
    requires Synced(bf)
    ensures 0 <= Tell(bf) <= |MediumBits(bf)|
    ensures bf.bitoffset < BYTE_LEN ==> Tell(bf) < |MediumBits(bf)|
  {
  }

  /** The bit under an aligned cursor is the medium's bit at `bftell`. */
  lemma CurrentBit(bf: BitFile)
    requires Synced(bf) && bf.bitoffset < BYTE_LEN
    ensures 0 <= Tell(bf) < |MediumBits(bf)|
    ensures ByteBit(bf.currbyte.value, MsbOffset(bf.bitoffset, bf.flags.msb)) == MediumBits(bf)[Tell(bf)]
  {
    var i := bf.fileobj.pos - 1;
    BitsAt(bf.fileobj.data, bf.flags.msb, i, bf.bitoffset);
    assert Tell(bf) == i * BYTE_LEN + bf.bitoffset;
  }

  /** `alignByte` on a cursor in step succeeds exactly while bits remain,
      keeps `bftell`, and leaves the cursor in step and aligned; otherwise
      it reports end of file. */
  lemma AlignSynced(bf: BitFile)
    requires Synced(bf)
    ensures var (code, bf1) := AlignByte(bf);
            (code == 0 <==> Tell(bf) < |MediumBits(bf)|)
            && (code == 0 ==> Synced(bf1) && bf1.bitoffset < BYTE_LEN && Tell(bf1) == Tell(bf))
            && (code != 0 ==> code == 1 && BfEof(bf1) && bf1.bitoffset >= 0)
            && bf1.fileobj.data == bf.fileobj.data && bf1.flags == bf.flags
  {
    if bf.bitoffset == BYTE_LEN {
      var bf0 := bf.(bitoffset := 0);
      var (eof, next) := GetByte(bf0);
      if !eof {
        assert AlignLoop(next) == (0, next);
      }
    }
  }

  lemma ShiftDownBit(b: bv8, p: BitIndex)
    ensures ByteBit(b >> 1, p) == (p < BYTE_LEN - 1 && ByteBit(b, p + 1))
  {
  }

  /** Most-significant-first, the tail loop of `bfread` moves the `k` bits
      held at the top of the byte down to its low end. */
  lemma {:induction false} FinishByteMsb(b: bv8, k: int, p: BitIndex)
    requires 0 < k <= BYTE_LEN
    ensures ByteBit(FinishByte(b, k, true), p) == (p + BYTE_LEN - k < BYTE_LEN && ByteBit(b, p + BYTE_LEN - k))
    decreases BYTE_LEN - k
  {
    if k < BYTE_LEN {
      FinishByteMsb(b >> 1, k + 1, p);
      if p + BYTE_LEN - k - 1 < BYTE_LEN {
        ShiftDownBit(b, p + BYTE_LEN - k - 1);
      }
    }
  }

  /** Least-significant-first, it keeps the low `k` bits and clears the rest. */
  lemma {:induction false} FinishByteLsb(b: bv8, k: int, p: BitIndex)
    requires 0 < k <= BYTE_LEN
    ensures ByteBit(FinishByte(b, k, false), p) == (p < k && ByteBit(b, p))
    decreases BYTE_LEN - k
  {
    if k < BYTE_LEN {
      FinishByteLsb(SetBit(b, k, false), k + 1, p);
    }
  }

  /** Physical bit `p` of destination byte `j` while the main loop of
      `bfread` runs: the logical bit it stands for, once that bit has been
      received among the first `count`. */
  predicate RawBit(bits: seq<bool>, from: int, count: int, msb: bool, j: int, p: BitIndex)
  {
    var k := j * BYTE_LEN + MsbOffset(p, msb);
    k < count && 0 <= from + k < |bits| && bits[from + k]
  }

  /** The invariant of the main loop of `bfread` on the bytes started so far. */
  predicate Received(out: seq<bv8>, bits: seq<bool>, from: int, count: int, msb: bool)
  {
    forall j, p: BitIndex :: 0 <= j < |out| ==> ByteBit(out[j], p) == RawBit(bits, from, count, msb, j, p)
  }

  /** Starting a fresh zero byte every eighth bit keeps the invariant and
      leaves the byte of bit `count` last. */
  lemma StartByte(out: seq<bv8>, bits: seq<bool>, from: int, count: nat, msb: bool)
    requires |out| == (count + 7) / BYTE_LEN && Received(out, bits, from, count, msb)
    ensures var out1 := if count % BYTE_LEN == 0 then out + [0] else out;
            |out1| == count / BYTE_LEN + 1 && Received(out1, bits, from, count, msb)
  {
    DivModByte(count);
    if count % BYTE_LEN == 0 {
      var out1 := out + [0];
      forall j, p: BitIndex | 0 <= j < |out1|
        ensures ByteBit(out1[j], p) == RawBit(bits, from, count, msb, j, p)
      {
        if j == |out| {
          assert j * BYTE_LEN == count;
        }
      }
    }
  }

  /** Copying bit `count` of the read into its place in the last byte
      extends the invariant by one bit. */
  lemma ReceiveBit(out1: seq<bv8>, last: bv8, bits: seq<bool>, from: int, count: nat, msb: bool)
    requires |out1| == count / BYTE_LEN + 1 && Received(out1, bits, from, count, msb)
    requires 0 <= from && from + count < |bits|
    requires ByteBit(last, MsbOffset(count % BYTE_LEN, msb)) == bits[from + count]
    requires forall q: BitIndex :: q != MsbOffset(count % BYTE_LEN, msb) ==> ByteBit(last, q) == ByteBit(out1[|out1| - 1], q)
    ensures Received(out1[|out1| - 1 := last], bits, from, count + 1, msb)
  {
    DivModByte(count);
    var r: BitIndex := count % BYTE_LEN;
    var out2 := out1[|out1| - 1 := last];
    forall j, p: BitIndex | 0 <= j < |out2|
      ensures ByteBit(out2[j], p) == RawBit(bits, from, count + 1, msb, j, p)
    {
      var k := j * BYTE_LEN + MsbOffset(p, msb);
      if j < |out1| - 1 {
        assert (j + 1) * BYTE_LEN <= count / BYTE_LEN * BYTE_LEN;
        assert k < count;
      } else {
        assert j * BYTE_LEN + r == count;
        if p == MsbOffset(r, msb) {
          MsbOffsetInvolution(r, msb);
          assert k == count;
        } else {
          if MsbOffset(p, msb) == r {
            MsbOffsetInvolution(p, msb);
          }
          assert k != count;
        }
      }
    }
  }

  /** What the main loop of `bfread` promises from a cursor in step at bit
      `from`: it receives every bit up to `n` or to the end of the medium,
      whichever comes first, and either stays in step with `bftell`
      advanced by `n` or stops at end of file. */
  predicate LoopOutcome(bits: seq<bool>, msb: bool, n: nat, from: int, r: (nat, seq<bv8>, BitFile))
  {
    r.0 == Min(n, |bits| - from)
    && Received(r.1, bits, from, r.0, msb)
    && (r.0 == n ==> Synced(r.2) && Tell(r.2) == from + n)
    && (r.0 < n ==> BfEof(r.2) && r.2.bitoffset >= 0)
  }

  lemma {:induction false} ReadLoopSynced(bf: BitFile, n: nat, count: nat, out: seq<bv8>, from: int, bits: seq<bool>, msb: bool)
    requires bits == MediumBits(bf) && msb == bf.flags.msb
    requires count <= n && |out| == (count + 7) / BYTE_LEN
    requires Synced(bf) && 0 <= from && Tell(bf) == from + count
    requires Received(out, bits, from, count, msb)
    ensures LoopOutcome(bits, msb, n, from, ReadLoop(bf, n, count, out))
    decreases n - count
  {
    if count == n {
      ReadDone(bf, n, count, out, from);
    } else if Tell(bf) < |bits| {
      var bf2, out2 := ReadRound(bf, n, count, out, from);
      ReadLoopSynced(bf2, n, count + 1, out2, from, bits, msb);
    } else {
      ReadStop(bf, n, count, out, from);
    }
  }

  /** With all `n` bits received the loop ends, in step. */
  lemma ReadDone(bf: BitFile, n: nat, count: nat, out: seq<bv8>, from: int)
    requires count == n && |out| == (count + 7) / BYTE_LEN
    requires Synced(bf) && 0 <= from && Tell(bf) == from + count
    requires Received(out, MediumBits(bf), from, count, bf.flags.msb)
    ensures LoopOutcome(MediumBits(bf), bf.flags.msb, n, from, ReadLoop(bf, n, count, out))
  {
    SyncedTell(bf);
    assert ReadLoop(bf, n, count, out) == (count, out, bf);
  }

  /** One round of the loop while bits remain: bit `count` received, the
      cursor still in step one bit further on. */
  lemma ReadRound(bf: BitFile, n: nat, count: nat, out: seq<bv8>, from: int) returns (bf2: BitFile, out2: seq<bv8>)
    requires count < n && |out| == (count + 7) / BYTE_LEN
    requires Synced(bf) && 0 <= from && Tell(bf) == from + count && Tell(bf) < |MediumBits(bf)|
    requires Received(out, MediumBits(bf), from, count, bf.flags.msb)
    ensures Synced(bf2) && Tell(bf2) == from + count + 1
    ensures MediumBits(bf2) == MediumBits(bf) && bf2.flags == bf.flags
    ensures |out2| == (count + 1 + 7) / BYTE_LEN && Received(out2, MediumBits(bf), from, count + 1, bf.flags.msb)
    ensures ReadLoop(bf, n, count, out) == ReadLoop(bf2, n, count + 1, out2)
  {
    AlignSynced(bf);
    var bf1 := AlignByte(bf).1;
    ReadLoopUnfold(bf, n, count, out);
    StepSynced(bf1, count, out);
    StepReceived(bf1, count, out, from);
    bf2, out2 := StepState(bf1, count, out), StepOut(bf1, count, out);
  }

  /** The destination bytes after one round of the loop on an aligned
      cursor: a fresh zero byte every eighth bit, then one bit copied. */
  function StepOut(bf: BitFile, count: nat, out: seq<bv8>): (o: seq<bv8>)
    requires 0 <= bf.bitoffset < BYTE_LEN && |out| == (count + 7) / BYTE_LEN
    ensures |o| == (count + 1 + 7) / BYTE_LEN
  {
    DivModByte(count);
    var out1 := if count % BYTE_LEN == 0 then out + [0] else out;
    out1[|out1| - 1 := GetBit(out1[|out1| - 1], count, bf).0]
  }

  /** The cursor after one round of the loop on an aligned cursor. */
  function StepState(bf: BitFile, count: nat, out: seq<bv8>): (r: BitFile)
    requires 0 <= bf.bitoffset < BYTE_LEN
    ensures r == bf.(bitoffset := bf.bitoffset + 1)
  {
    bf.(bitoffset := bf.bitoffset + 1)
  }

  /** One round of the main loop of `bfread` once the cursor is aligned. */
  lemma ReadLoopUnfold(bf: BitFile, n: nat, count: nat, out: seq<bv8>)
    requires count < n && |out| == (count + 7) / BYTE_LEN
    requires AlignByte(bf).0 == 0
    ensures 0 <= AlignByte(bf).1.bitoffset < BYTE_LEN
    ensures ReadLoop(bf, n, count, out)
            == ReadLoop(StepState(AlignByte(bf).1, count, out), n, count + 1, StepOut(AlignByte(bf).1, count, out))
  {
  }

  /** One round on an aligned cursor in step keeps it in step, one bit on. */
  lemma StepSynced(bf1: BitFile, count: nat, out: seq<bv8>)
    requires Synced(bf1) && bf1.bitoffset < BYTE_LEN
    ensures Synced(StepState(bf1, count, out)) && Tell(StepState(bf1, count, out)) == Tell(bf1) + 1
    ensures MediumBits(StepState(bf1, count, out)) == MediumBits(bf1)
    ensures StepState(bf1, count, out).flags == bf1.flags
  {
  }

  /** One round on an aligned cursor in step receives bit `count`. */
  lemma StepReceived(bf1: BitFile, count: nat, out: seq<bv8>, from: int)
    requires Synced(bf1) && bf1.bitoffset < BYTE_LEN && |out| == (count + 7) / BYTE_LEN
    requires 0 <= from && Tell(bf1) == from + count
    requires Received(out, MediumBits(bf1), from, count, bf1.flags.msb)
    ensures Received(StepOut(bf1, count, out), MediumBits(bf1), from, count + 1, bf1.flags.msb)
  {
    var out1 := if count % BYTE_LEN == 0 then out + [0] else out;
    StartByte(out, MediumBits(bf1), from, count, bf1.flags.msb);
    ReceiveGot(out1, bf1, from, count);
  }

  /** The bit `bfgetbit` copies from an aligned cursor in step is bit
      `count` of the read. */
  lemma ReceiveGot(out1: seq<bv8>, bf1: BitFile, from: int, count: nat)
    requires Synced(bf1) && bf1.bitoffset < BYTE_LEN && 0 <= from && Tell(bf1) == from + count
    requires |out1| == count / BYTE_LEN + 1 && Received(out1, MediumBits(bf1), from, count, bf1.flags.msb)
    ensures Received(out1[|out1| - 1 := GetBit(out1[|out1| - 1], count, bf1).0], MediumBits(bf1), from, count + 1, bf1.flags.msb)
  {
    CurrentBit(bf1);
    ReceiveBit(out1, GetBit(out1[|out1| - 1], count, bf1).0, MediumBits(bf1), from, count, bf1.flags.msb);
  }

  /** At the end of the medium the loop stops at once, at end of file. */
  lemma ReadStop(bf: BitFile, n: nat, count: nat, out: seq<bv8>, from: int)
    requires count < n && |out| == (count + 7) / BYTE_LEN
    requires Synced(bf) && 0 <= from && Tell(bf) == from + count && Tell(bf) >= |MediumBits(bf)|
    requires Received(out, MediumBits(bf), from, count, bf.flags.msb)
    ensures LoopOutcome(MediumBits(bf), bf.flags.msb, n, from, ReadLoop(bf, n, count, out))
  {
    SyncedTell(bf);
    AlignSynced(bf);
    var (code, bf1) := AlignByte(bf);
    assert ReadLoop(bf, n, count, out) == (count, out, bf1);
  }

  /** A byte the loop filled completely already reads as the reference byte. */
  lemma FullByteExpected(bits: seq<bool>, from: int, c: int, msb: bool, j: nat, p: BitIndex)
    requires (j + 1) * BYTE_LEN <= c
    ensures RawBit(bits, from, c, msb, j, p) == ExpectedBit(bits, from, c, msb, j, p)
  {
    assert Min(c - j * BYTE_LEN, BYTE_LEN) == BYTE_LEN;
  }

  /** The tail loop turns a partly filled last byte into the reference byte. */
  lemma PartialByteExpected(b: bv8, bits: seq<bool>, from: int, c: int, msb: bool, j: nat, p: BitIndex)
    requires j * BYTE_LEN < c < (j + 1) * BYTE_LEN
    requires forall q: BitIndex :: ByteBit(b, q) == RawBit(bits, from, c, msb, j, q)
    ensures ByteBit(FinishByte(b, c - j * BYTE_LEN, msb), p) == ExpectedBit(bits, from, c, msb, j, p)
  {
    var k := c - j * BYTE_LEN;
    assert Min(c - j * BYTE_LEN, BYTE_LEN) == k;
    if msb {
      FinishByteMsb(b, k, p);
      if p < k {
        var q: BitIndex := p + BYTE_LEN - k;
        assert ByteBit(b, q) == RawBit(bits, from, c, msb, j, q);
        assert MsbOffset(q, msb) == k - 1 - p;
      }
    } else {
      FinishByteLsb(b, k, p);
      assert ByteBit(b, p) == RawBit(bits, from, c, msb, j, p);
    }
  }

  /** After the tail loop every started byte reads as the reference. */
  lemma FinishExpected(out: seq<bv8>, bits: seq<bool>, from: int, c: nat, msb: bool)
    requires |out| == (c + 7) / BYTE_LEN && Received(out, bits, from, c, msb)
    ensures var out1 := FinishLast(out, c, msb);
            forall j: nat, p: BitIndex :: j < |out1| ==> ByteBit(out1[j], p) == ExpectedBit(bits, from, c, msb, j, p)
  {
    var out1 := FinishLast(out, c, msb);
    forall j: nat, p: BitIndex | j < |out1|
      ensures ByteBit(out1[j], p) == ExpectedBit(bits, from, c, msb, j, p)
    {
      FinishedByteExpected(out, bits, from, c, msb, j, p);
    }
  }

  lemma FinishedByteExpected(out: seq<bv8>, bits: seq<bool>, from: int, c: nat, msb: bool, j: nat, p: BitIndex)
    requires |out| == (c + 7) / BYTE_LEN && Received(out, bits, from, c, msb) && j < |out|
    ensures ByteBit(FinishLast(out, c, msb)[j], p) == ExpectedBit(bits, from, c, msb, j, p)
  {
    DivModByte(c);
    if c % BYTE_LEN != 0 && j == |out| - 1 {
      LastByteExpected(out, bits, from, c, msb, p);
    } else {
      assert (j + 1) * BYTE_LEN <= c;
      assert FinishLast(out, c, msb)[j] == out[j];
      FullByteExpected(bits, from, c, msb, j, p);
    }
  }

  lemma LastByteExpected(out: seq<bv8>, bits: seq<bool>, from: int, c: nat, msb: bool, p: BitIndex)
    requires |out| == (c + 7) / BYTE_LEN && Received(out, bits, from, c, msb) && c % BYTE_LEN != 0
    ensures |out| > 0
    ensures ByteBit(FinishLast(out, c, msb)[|out| - 1], p) == ExpectedBit(bits, from, c, msb, |out| - 1, p)
  {
    DivModByte(c);
    var j := |out| - 1;
    assert j == c / BYTE_LEN;
    assert c - j * BYTE_LEN == c % BYTE_LEN;
    PartialByteExpected(out[j], bits, from, c, msb, j, p);
  }

  /** Bytes past the last started one receive no bits. */
  lemma PaddingExpected(bits: seq<bool>, from: int, c: nat, msb: bool, j: nat, p: BitIndex)
    requires j >= (c + 7) / BYTE_LEN
    ensures !ExpectedBit(bits, from, c, msb, j, p)
  {
    DivModByte(c);
    assert j * BYTE_LEN >= c;
  }

  /** What a read promises from a cursor in step at bit `from`: the count is
      `n` or whatever remains of the medium, the buffer is the reference
      destination of that many bits, and the cursor is either in step
      `count` bits further on or at end of file. */
  predicate ReadOutcome(bits: seq<bool>, msb: bool, n: nat, from: int, size: nat, r: (nat, seq<bv8>, BitFile))
  {
    0 <= from <= |bits|
    && r.0 == Min(n, |bits| - from)
    && r.1 == ReadSpec(bits, from, r.0, size, msb)
    && (r.0 == n ==> Synced(r.2) && Tell(r.2) == from + n)
    && (r.0 < n ==> BfEof(r.2) && r.2.bitoffset >= 0)
  }

  /** The destination `bfread` leaves after the loop received `c` bits is
      the reference destination of those bits. */
  lemma DestinationExpected(out: seq<bv8>, bits: seq<bool>, from: int, c: nat, msb: bool, size: nat)
    requires |out| == (c + 7) / BYTE_LEN && |out| <= size && Received(out, bits, from, c, msb)
    requires 0 <= from && from + c <= |bits|
    ensures ZeroPad(FinishLast(out, c, msb), size) == ReadSpec(bits, from, c, size, msb)
  {
    FinishExpected(out, bits, from, c, msb);
    var out1 := FinishLast(out, c, msb);
    var o := ZeroPad(out1, size);
    forall j: nat, p: BitIndex | j < |o|
      ensures ByteBit(o[j], p) == ExpectedBit(bits, from, c, msb, j, p)
    {
      if j >= |out1| {
        PaddingExpected(bits, from, c, msb, j, p);
      } else {
        assert o[j] == out1[j];
      }
    }
    ReadSpecUnique(o, bits, from, c, msb);
  }

  /** `bfread` from a cursor in step reads exactly the medium's bits from
      `bftell` on, in the cursor's bit order, cut short only by the end of
      the medium, with every bit past the count zero. */
  lemma BfReadSynced(bf: BitFile, buf: seq<bv8>, n: nat)
    requires n >= 1 && |buf| == CeilDiv(n, BYTE_LEN)
    requires bf.flags.read && Synced(bf)
    ensures ReadOutcome(MediumBits(bf), bf.flags.msb, n, Tell(bf), |buf|, BfRead(bf, buf, n))
  {
    SyncedTell(bf);
    ReadLoopSynced(bf, n, 0, [], Tell(bf), MediumBits(bf), bf.flags.msb);
    var r := ReadLoop(bf, n, 0, []);
    DestinationExpected(r.1, MediumBits(bf), Tell(bf), r.0, bf.flags.msb, |buf|);
  }

  /** Sticky end of file: once at end of file, a read returns 0, zeroes the
      whole destination and changes nothing. */
  lemma BfReadAtEof(bf: BitFile, buf: seq<bv8>, n: nat)
    requires n >= 1 && |buf| == CeilDiv(n, BYTE_LEN)
    requires bf.flags.read && BfEof(bf) && bf.bitoffset >= 0
    ensures BfRead(bf, buf, n) == (0, seq(|buf|, _ => 0 as bv8), bf)
  {
    assert ReadLoop(bf, n, 0, []) == (0, [], bf);
    assert ZeroPad(FinishLast([], 0, bf.flags.msb), |buf|) == seq(|buf|, _ => 0 as bv8);
  }

  /** In the fault state (negative offset) a read returns 0 and a zeroed
      destination, leaving the cursor as it was. */
  lemma BfReadFault(bf: BitFile, buf: seq<bv8>, n: nat)
    requires n >= 1 && |buf| == CeilDiv(n, BYTE_LEN)
    requires bf.flags.read && bf.bitoffset < 0
    ensures BfRead(bf, buf, n) == (0, seq(|buf|, _ => 0 as bv8), bf)
  {
    assert ReadLoop(bf, n, 0, []) == (0, [], bf);
    assert ZeroPad(FinishLast([], 0, bf.flags.msb), |buf|) == seq(|buf|, _ => 0 as bv8);
  }
}
