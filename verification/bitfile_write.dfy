/**
  What `bfwrite` writes. From a cursor in step on the last byte of the
  medium or just past it (where the stream's put-then-get never runs ahead
  of the cursor), a write of `n` bits replaces the medium's bits from
  `bftell` on with the bits it emits, keeps every bit around them, pads the
  last byte written with zero bits, and reads back as the source bytes with
  their unused high bits cleared. When the medium has room for fewer bytes,
  the count reports exactly the bits that reached it.
 */
module BitWrite {
  import opened BitOps
  import opened ByteStream
  import opened BitSpec
  import opened BitCursor
  import opened BitRead
  import opened BitPosition

  /* --- The bits a write emits --- */

  /** The physical bit of source byte `i / 8` that an `n`-bit write from
      `size` source bytes emits as its bit `i`: the order-adjusted bit
      `i % 8`, except that most-significant-first the last source byte keeps
      its meaningful bits at its low end, most significant first, so that
      the write's final bit is that byte's bit 0. */
  function SourceBit(n: nat, size: nat, i: nat, msb: bool): (p: BitIndex)
    requires i < n && size == CeilDiv(n, BYTE_LEN)
  {
    if msb && i >= (size - 1) * BYTE_LEN then n - 1 - i else MsbOffset(i % BYTE_LEN, msb)
  }

  /** The bits an `n`-bit write of `src` emits, in order. */
  function WriteBits(src: seq<bv8>, n: nat, msb: bool): (w: seq<bool>)
    requires n >= 1 && |src| == CeilDiv(n, BYTE_LEN)
    ensures |w| == n
  {
    seq(n, i requires 0 <= i < n => ByteBit(src[i / BYTE_LEN], SourceBit(n, |src|, i, msb)))
  }

  /** The shift `bfwrite` holds while copying bit `count`: zero before the
      last source byte; on it, most-significant-first, MSB_SHIFT of the
      number of meaningful bits it holds. */
  function ShiftAt(n: nat, size: nat, count: nat, msb: bool): (s: int)
    requires n >= 1 && size == CeilDiv(n, BYTE_LEN)
    ensures 0 <= s < BYTE_LEN
  {
    if msb && count > (size - 1) * BYTE_LEN then MsbShift(n - (size - 1) * BYTE_LEN) else 0
  }

  /** The shift of the write loop follows `ShiftAt`, and the source offset
      it hands to `bfputbit` selects exactly the bit `SourceBit` names: the
      MSB_SHIFT correction aligns the low bits of the last source byte. */
  lemma ShiftStep(src: seq<bv8>, n: nat, count: nat, msb: bool)
    requires count < n && |src| == CeilDiv(n, BYTE_LEN)
    ensures WriteShift(src, n, count, ShiftAt(n, |src|, count, msb), msb) == ShiftAt(n, |src|, count + 1, msb)
    ensures MsbOffset((ShiftAt(n, |src|, count + 1, msb) + count) % BYTE_LEN, msb) == SourceBit(n, |src|, count, msb)
  {
    var last := (|src| - 1) * BYTE_LEN;
    var shift := ShiftAt(n, |src|, count + 1, msb);
    if msb && count >= last {
      var k := n - last;
      var j := count - last;
      assert 0 <= j < k <= BYTE_LEN;
      assert shift == BYTE_LEN - k || (k == BYTE_LEN && shift == 0);
      assert 0 <= shift + j < BYTE_LEN;
      assert (shift + count) % BYTE_LEN == shift + j;
    } else {
      assert count < last || !msb;
    }
  }

  /* --- Where the bits go --- */

  /** Bit `i` of the medium before the write; zero past its end. */
  function OldBit(prior: seq<bool>, i: int): bool
  {
    0 <= i < |prior| && prior[i]
  }

  /** Bit `i` of the medium once the first `c` bits of `w` are written from
      bit `t` on. */
  function SplicedBit(prior: seq<bool>, t: nat, w: seq<bool>, c: nat, i: int): bool
    requires c <= |w|
  {
    if t <= i < t + c then w[i - t] else OldBit(prior, i)
  }

  /** The reference medium after `w` is written from bit `t` on: the prior
      bits before and after the written ones, and zero bits up to the end of
      the last byte the write touched. */
  function Splice(prior: seq<bool>, t: nat, w: seq<bool>): (r: seq<bool>)
  {
    seq(BYTE_LEN * Max(|prior| / BYTE_LEN, (t + |w| + 7) / BYTE_LEN), i => SplicedBit(prior, t, w, |w|, i))
  }

  /** Byte `v`, destined for byte `at` of the medium, holds that byte's
      bits once the first `c` bits of `w` are written from bit `t` on. */
  predicate Holds(v: bv8, at: int, msb: bool, prior: seq<bool>, t: nat, w: seq<bool>, c: nat)
    requires c <= |w|
  {
    forall p: BitIndex {:trigger ByteBit(v, p)} :: ByteBit(v, p) == SplicedBit(prior, t, w, c, at * BYTE_LEN + MsbOffset(p, msb))
  }

  /** The stream bytes before `upto` hold their bits. */
  predicate Stored(data: seq<bv8>, upto: int, msb: bool, prior: seq<bool>, t: nat, w: seq<bool>, c: nat)
    requires c <= |w|
  {
    upto <= |data| && forall b {:trigger Holds(data[b], b, msb, prior, t, w, c)} :: 0 <= b < upto ==> Holds(data[b], b, msb, prior, t, w, c)
  }

  /** The stream during an append of `w` from bit `t`, which began on byte
      `first`, over a medium of `priorLen` bytes whose bits were `prior`: the
      bytes behind the cursor are stored, the one under it (if any) is
      still the prior one, every flush so far has found room, and the stream
      never holds more than one byte past the cursor. */
  predicate Medium(s: Stream, msb: bool, prior: seq<bool>, priorLen: nat, t: nat, first: int, w: seq<bool>, c: nat)
  {
    c <= |w| && |prior| == priorLen * BYTE_LEN && t <= |prior|
    && 0 <= first && first * BYTE_LEN <= t && first <= s.pos && (s.pos == first || s.pos <= s.cap)
    && priorLen <= s.pos + 1 && |s.data| == Max(priorLen, s.pos)
    && Stored(s.data, s.pos, msb, prior, t, w, c)
    && (s.pos < |s.data| ==> Holds(s.data[s.pos], s.pos, msb, prior, t, w, 0))
  }

  /** The invariant of the write loop of an append, after `c` bits: the
      lookahead is destined for the byte at the stream cursor and holds its
      bits, and the cursor's logical position is `t + c`. */
  predicate Writing(bf: BitFile, prior: seq<bool>, priorLen: nat, t: nat, first: int, w: seq<bool>, c: nat)
  {
    match bf.currbyte
    case AtEof => false
    case Byte(v) =>
      var s := bf.fileobj;
      Medium(s, bf.flags.msb, prior, priorLen, t, first, w, c)
      && 0 <= bf.bitoffset <= BYTE_LEN && !s.eof
      && s.pos * BYTE_LEN + bf.bitoffset == t + c
      && Holds(v, s.pos, bf.flags.msb, prior, t, w, c)
  }

  /** A byte whose bits lie wholly outside the bits written between `c`
      and `c'` holds the same bits at both counts. */
  lemma HoldsMove(v: bv8, at: int, msb: bool, prior: seq<bool>, t: nat, w: seq<bool>, c: nat, c': nat)
    requires c <= |w| && c' <= |w| && Holds(v, at, msb, prior, t, w, c)
    requires c == c' || t + Max(c, c') <= at * BYTE_LEN || t + Min(c, c') >= at * BYTE_LEN + BYTE_LEN
    ensures Holds(v, at, msb, prior, t, w, c')
  {
    forall p: BitIndex
      ensures ByteBit(v, p) == SplicedBit(prior, t, w, c', at * BYTE_LEN + MsbOffset(p, msb))
    {
      assert ByteBit(v, p) == SplicedBit(prior, t, w, c, at * BYTE_LEN + MsbOffset(p, msb));
    }
  }

  lemma StoredMove(data: seq<bv8>, upto: int, msb: bool, prior: seq<bool>, t: nat, w: seq<bool>, c: nat, c': nat)
    requires c <= |w| && c' <= |w| && Stored(data, upto, msb, prior, t, w, c)
    requires t + Min(c, c') >= upto * BYTE_LEN
    ensures Stored(data, upto, msb, prior, t, w, c')
  {
    forall b | 0 <= b < upto
      ensures Holds(data[b], b, msb, prior, t, w, c')
    {
      HoldsMove(data[b], b, msb, prior, t, w, c, c');
    }
  }

  /** Every byte of a medium holds its own prior bits. */
  lemma OldHolds(data: seq<bv8>, msb: bool, b: int, t: nat, w: seq<bool>)
    requires 0 <= b < |data|
    ensures Holds(data[b], b, msb, Bits(data, msb), t, w, 0)
  {
    forall p: BitIndex
      ensures ByteBit(data[b], p) == SplicedBit(Bits(data, msb), t, w, 0, b * BYTE_LEN + MsbOffset(p, msb))
    {
      BitsAt(data, msb, b, MsbOffset(p, msb));
      MsbOffsetInvolution(p, msb);
    }
  }

  /* --- The write, step by step --- */

  /** The byte an append from a cursor in step begins on: the byte under
      the cursor, or the one after it when the cursor has run to its end. */
  function FirstByte(bf: BitFile): int
  {
    if bf.bitoffset >= BYTE_LEN then bf.fileobj.pos else bf.fileobj.pos - 1
  }

  /** The preparation of `bfwrite` on a cursor in step at the end of the
      medium succeeds, and the loop invariant holds before the first bit. */
  lemma StartAppend(bf: BitFile, w: seq<bool>) returns (bf2: BitFile)
    requires Synced(bf) && bf.fileobj.pos == |bf.fileobj.data|
    ensures WriteStart(bf) == (true, bf2)
    ensures Writing(bf2, MediumBits(bf), |bf.fileobj.data|, Tell(bf), FirstByte(bf), w, 0)
    ensures bf2.flags.msb == bf.flags.msb && bf2.fileobj.cap == bf.fileobj.cap
  {
    SyncedTell(bf);
    var s := bf.fileobj;
    var msb := bf.flags.msb;
    var prior := MediumBits(bf);
    var t := Tell(bf);
    forall b | 0 <= b < |s.data|
      ensures Holds(s.data[b], b, msb, prior, t, w, 0)
    {
      OldHolds(s.data, msb, b, t, w);
    }
    if bf.bitoffset == BYTE_LEN {
      var bf1 := GetByte(bf.(bitoffset := 0)).1;
      assert AlignByte(bf) == (1, bf1);
      bf2 := ClearBfErr(bf1);
      assert bf2.fileobj.pos == s.pos && bf2.bitoffset == 0 && bf2.currbyte == Byte(0);
      forall p: BitIndex
        ensures ByteBit(0, p) == SplicedBit(prior, t, w, 0, s.pos * BYTE_LEN + MsbOffset(p, msb))
      {
      }
    } else {
      assert AlignByte(bf) == (0, bf);
      bf2 := bf.(fileobj := s.(pos := s.pos - 1, eof := false));
      assert s.data[s.pos - 1] == bf.currbyte.value;
    }
  }

  /** Setting the bit for position `t + c` of the held byte to bit `c` of
      `w`, and keeping the others, extends what it holds by that bit. */
  lemma PutHolds(v: bv8, v': bv8, at: int, msb: bool, prior: seq<bool>, t: nat, w: seq<bool>, c: nat, r: BitIndex)
    requires c < |w| && Holds(v, at, msb, prior, t, w, c) && at * BYTE_LEN + r == t + c
    requires ByteBit(v', MsbOffset(r, msb)) == w[c]
    requires forall q: BitIndex :: q != MsbOffset(r, msb) ==> ByteBit(v', q) == ByteBit(v, q)
    ensures Holds(v', at, msb, prior, t, w, c + 1)
  {
    forall p: BitIndex
      ensures ByteBit(v', p) == SplicedBit(prior, t, w, c + 1, at * BYTE_LEN + MsbOffset(p, msb))
    {
      if p == MsbOffset(r, msb) {
        MsbOffsetInvolution(r, msb);
      } else {
        if MsbOffset(p, msb) == r {
          MsbOffsetInvolution(p, msb);
        }
        assert ByteBit(v, p) == SplicedBit(prior, t, w, c, at * BYTE_LEN + MsbOffset(p, msb));
      }
    }
  }

  /** The source bit `bfputbit` copies for bit `c` is bit `c` of the write. */
  lemma PutSource(src: seq<bv8>, n: nat, c: nat, msb: bool)
    requires n >= 1 && |src| == CeilDiv(n, BYTE_LEN) && c < n
    ensures c / BYTE_LEN < |src|
    ensures ByteBit(src[c / BYTE_LEN], MsbOffset((ShiftAt(n, |src|, c + 1, msb) + c) % BYTE_LEN, msb)) == WriteBits(src, n, msb)[c]
  {
    ShiftStep(src, n, c, msb);
  }

  /** A lookahead one bit on that holds its byte's bits after `c + 1` bits
      keeps the invariant one bit on. */
  lemma PutKeeps(bf: BitFile, next: BitFile, prior: seq<bool>, priorLen: nat, t: nat, first: int, w: seq<bool>, c: nat)
    requires c < |w| && Writing(bf, prior, priorLen, t, first, w, c) && bf.bitoffset < BYTE_LEN
    requires next.fileobj == bf.fileobj && next.flags == bf.flags && next.bitoffset == bf.bitoffset + 1
    requires next.currbyte.Byte? && Holds(next.currbyte.value, bf.fileobj.pos, bf.flags.msb, prior, t, w, c + 1)
    ensures Writing(next, prior, priorLen, t, first, w, c + 1)
  {
    var s := bf.fileobj;
    StoredMove(s.data, s.pos, bf.flags.msb, prior, t, w, c, c + 1);
  }

  /** Copying bit `c` into a lookahead with room keeps the invariant, one
      bit on. */
  lemma PutStep(bf: BitFile, src: seq<bv8>, n: nat, c: nat, shift': int, prior: seq<bool>, priorLen: nat, t: nat, first: int, w: seq<bool>)
      returns (next: BitFile)
    requires n >= 1 && |src| == CeilDiv(n, BYTE_LEN) && c < n && c < |w| && c / BYTE_LEN < |src|
    requires shift' == ShiftAt(n, |src|, c + 1, bf.flags.msb)
    requires w[c] == ByteBit(src[c / BYTE_LEN], MsbOffset((shift' + c) % BYTE_LEN, bf.flags.msb))
    requires Writing(bf, prior, priorLen, t, first, w, c) && bf.bitoffset < BYTE_LEN
    ensures next == PutBit(src[c / BYTE_LEN], shift' + c, bf)
    ensures Writing(next, prior, priorLen, t, first, w, c + 1)
    ensures 0 < next.bitoffset && next.flags == bf.flags
  {
    next := PutBit(src[c / BYTE_LEN], shift' + c, bf);
    PutHolds(bf.currbyte.value, next.currbyte.value, bf.fileobj.pos, bf.flags.msb, prior, t, w, c, bf.bitoffset);
    PutKeeps(bf, next, prior, priorLen, t, first, w, c);
  }

  /** The cursor after a successful flush at the end of the medium: the
      byte stored, the stream one byte on with both indicators clear, and a
      zero lookahead (the byte after it does not exist yet). */
  function Flushed(bf: BitFile): (r: BitFile)
    requires bf.currbyte.Byte?
    ensures r.flags == bf.flags && r.bitoffset == bf.bitoffset
  {
    var s := bf.fileobj;
    bf.(fileobj := s.(data := WriteAt(s.data, s.pos, bf.currbyte.value), pos := s.pos + 1, eof := false, err := false),
        currbyte := Byte(0))
  }

  /** A flush of a full lookahead with room in the medium stores it, and
      the invariant holds for the next byte. */
  lemma FlushStep(bf: BitFile, prior: seq<bool>, priorLen: nat, t: nat, first: int, w: seq<bool>, c: nat)
    requires Writing(bf, prior, priorLen, t, first, w, c) && bf.bitoffset == BYTE_LEN
    requires bf.fileobj.pos < bf.fileobj.cap
    ensures WriteByte(bf, true) == (0, Flushed(bf))
    ensures Writing(Flushed(bf).(bitoffset := 0), prior, priorLen, t, first, w, c)
  {
    var s := bf.fileobj;
    var msb := bf.flags.msb;
    var v := bf.currbyte.value;
    FlushOk(bf);
    var f := Flushed(bf).(bitoffset := 0);
    var d := f.fileobj.data;
    forall b | 0 <= b < s.pos + 1
      ensures Holds(d[b], b, msb, prior, t, w, c)
    {
      if b < s.pos {
        assert d[b] == s.data[b];
      }
    }
    forall p: BitIndex
      ensures ByteBit(0, p) == SplicedBit(prior, t, w, c, (s.pos + 1) * BYTE_LEN + MsbOffset(p, msb))
    {
    }
  }

  /** A flush with no room left in the medium fails: the stream's error
      indicator is set and the lookahead becomes the sentinel. */
  lemma FlushFails(bf: BitFile, inc: bool)
    requires bf.fileobj.pos >= bf.fileobj.cap && !bf.fileobj.eof && bf.currbyte.Byte?
    ensures WriteByte(bf, inc) == (EOF, bf.(fileobj := bf.fileobj.(err := true), currbyte := AtEof))
  {
  }

  /** The final flush with room stores the lookahead and keeps it. */
  lemma FinalFlush(bf: BitFile)
    requires bf.fileobj.pos < bf.fileobj.cap && !bf.fileobj.eof && bf.currbyte.Byte?
    ensures var s := bf.fileobj;
            WriteByte(bf, false) == (0, bf.(fileobj := s.(data := WriteAt(s.data, s.pos, bf.currbyte.value), pos := s.pos + 1)))
  {
    var v := bf.currbyte.value;
    assert (v as int) as bv8 == v;
  }

  /* --- The write loop --- */

  /** A write loop stopped by a failed flush: the stream's error indicator
      is set, the medium has no room at the stream cursor, and the full
      lookahead of the `c` bits written so far was lost (the lookahead is
      the end-of-file sentinel). */
  predicate Stalled(bf: BitFile, prior: seq<bool>, priorLen: nat, t: nat, first: int, w: seq<bool>, c: nat)
  {
    match bf.currbyte
    case Byte(_) => false
    case AtEof =>
      var s := bf.fileobj;
      Medium(s, bf.flags.msb, prior, priorLen, t, first, w, c)
      && s.err && s.pos >= s.cap && bf.bitoffset == BYTE_LEN && s.pos * BYTE_LEN + BYTE_LEN == t + c
  }

  /** What the write loop of an append ends with: every bit held (the last
      byte still in the lookahead), or a stall; the medium's room kept. */
  predicate LoopResult(r: (nat, BitFile, bool), prior: seq<bool>, priorLen: nat, t: nat, first: int, w: seq<bool>, cap: int)
  {
    r.1.fileobj.cap == cap
    && (!r.2 ==> r.0 == |w| && Writing(r.1, prior, priorLen, t, first, w, |w|) && 0 < r.1.bitoffset)
    && (r.2 ==> r.0 < |w| && Stalled(r.1, prior, priorLen, t, first, w, r.0))
  }

  /** The source bits still to be copied from count `c` on are those of the write. */
  predicate Emits(w: seq<bool>, src: seq<bv8>, n: nat, c: nat, msb: bool)
    requires n >= 1 && |src| == CeilDiv(n, BYTE_LEN)
  {
    |w| == n && forall k | c <= k < n :: w[k] == ByteBit(src[k / BYTE_LEN], SourceBit(n, |src|, k, msb))
  }

  /** A round of the write loop with room in the lookahead copies one bit. */
  lemma StepPut(bf: BitFile, src: seq<bv8>, n: nat, c: nat, shift: int, shift': int, next: BitFile)
    requires 1 <= n && c < n && |src| == CeilDiv(n, BYTE_LEN) && shift >= 0
    requires 0 <= bf.bitoffset < BYTE_LEN && bf.currbyte.Byte? && !bf.fileobj.eof && (c > 0 ==> 0 < bf.bitoffset)
    requires shift' == WriteShift(src, n, c, shift, bf.flags.msb) && shift' >= 0 && c / BYTE_LEN < |src|
    requires next == PutBit(src[c / BYTE_LEN], shift' + c, bf)
    ensures WriteStep(bf, src, n, c, shift) == (false, next, shift')
  {
    assert (if bf.bitoffset >= BYTE_LEN then WriteByte(bf, true) else (0, bf)) == (0, bf);
  }

  /** A round of the write loop on a full lookahead whose flush succeeds
      copies one bit into the fresh lookahead. */
  lemma StepFlush(bf: BitFile, src: seq<bv8>, n: nat, c: nat, shift: int, f: BitFile, shift': int, next: BitFile)
    requires 1 <= n && c < n && |src| == CeilDiv(n, BYTE_LEN) && shift >= 0
    requires bf.bitoffset == BYTE_LEN && bf.currbyte.Byte? && !bf.fileobj.eof
    requires WriteByte(bf, true) == (0, f) && f.currbyte.Byte?
    requires shift' == WriteShift(src, n, c, shift, bf.flags.msb) && shift' >= 0 && c / BYTE_LEN < |src|
    requires next == PutBit(src[c / BYTE_LEN], shift' + c, f.(bitoffset := 0))
    ensures WriteStep(bf, src, n, c, shift) == (false, next, shift')
  {
    assert (if bf.bitoffset >= BYTE_LEN then WriteByte(bf, true) else (0, bf)) == (0, f);
  }

  /** A round that does not stall hands the rest of the loop its result. */
  lemma LoopOnward(bf: BitFile, src: seq<bv8>, n: nat, c: nat, shift: int)
    requires 1 <= n && c < n && |src| == CeilDiv(n, BYTE_LEN) && shift >= 0
    requires 0 <= bf.bitoffset && bf.currbyte.Byte? && !bf.fileobj.eof && (c > 0 ==> 0 < bf.bitoffset <= BYTE_LEN)
    requires !WriteStep(bf, src, n, c, shift).0
    ensures var (_, next, shift') := WriteStep(bf, src, n, c, shift);
            WriteLoop(bf, src, n, c, shift) == WriteLoop(next, src, n, c + 1, shift')
  {
  }

  /** A flush of the lookahead at the end of the data, with room in the
      medium, stores it and finds no byte after it. */
  lemma FlushOk(bf: BitFile)
    requires bf.fileobj.pos < bf.fileobj.cap && !bf.fileobj.eof && bf.currbyte.Byte?
    requires |bf.fileobj.data| <= bf.fileobj.pos + 1
    ensures WriteByte(bf, true) == (0, Flushed(bf))
  {
    var s := bf.fileobj;
    var v := bf.currbyte.value;
    var s1 := s.(data := WriteAt(s.data, s.pos, v), pos := s.pos + 1);
    assert Putc(s, v) == (v as int, s1);
    assert (v as int) as bv8 == v;
    var written := bf.(fileobj := s1, currbyte := Byte(v));
    assert !BfEof(written);
    assert GetByte(written) == (true, written.(fileobj := s1.(eof := true), currbyte := AtEof));
  }

  /** One round of the write loop with room in the lookahead. */
  lemma RoundPut(bf: BitFile, src: seq<bv8>, n: nat, c: nat,
                 prior: seq<bool>, priorLen: nat, t: nat, first: int, w: seq<bool>) returns (next: BitFile)
    requires n >= 1 && |src| == CeilDiv(n, BYTE_LEN) && c < n && c < |w| && c / BYTE_LEN < |src|
    requires w[c] == ByteBit(src[c / BYTE_LEN], MsbOffset((ShiftAt(n, |src|, c + 1, bf.flags.msb) + c) % BYTE_LEN, bf.flags.msb))
    requires WriteShift(src, n, c, ShiftAt(n, |src|, c, bf.flags.msb), bf.flags.msb) == ShiftAt(n, |src|, c + 1, bf.flags.msb)
    requires Writing(bf, prior, priorLen, t, first, w, c) && (c > 0 ==> 0 < bf.bitoffset) && bf.bitoffset < BYTE_LEN
    ensures Writing(next, prior, priorLen, t, first, w, c + 1) && 0 < next.bitoffset
    ensures next.flags == bf.flags && next.fileobj.cap == bf.fileobj.cap
    ensures WriteStep(bf, src, n, c, ShiftAt(n, |src|, c, bf.flags.msb)) == (false, next, ShiftAt(n, |src|, c + 1, bf.flags.msb))
  {
    var shift' := ShiftAt(n, |src|, c + 1, bf.flags.msb);
    next := PutStep(bf, src, n, c, shift', prior, priorLen, t, first, w);
    StepPut(bf, src, n, c, ShiftAt(n, |src|, c, bf.flags.msb), shift', next);
  }

  /** One round of the write loop on a full lookahead with room in the medium. */
  lemma RoundFlush(bf: BitFile, src: seq<bv8>, n: nat, c: nat,
                   prior: seq<bool>, priorLen: nat, t: nat, first: int, w: seq<bool>) returns (next: BitFile)
    requires n >= 1 && |src| == CeilDiv(n, BYTE_LEN) && c < n && c < |w| && c / BYTE_LEN < |src|
    requires w[c] == ByteBit(src[c / BYTE_LEN], MsbOffset((ShiftAt(n, |src|, c + 1, bf.flags.msb) + c) % BYTE_LEN, bf.flags.msb))
    requires WriteShift(src, n, c, ShiftAt(n, |src|, c, bf.flags.msb), bf.flags.msb) == ShiftAt(n, |src|, c + 1, bf.flags.msb)
    requires Writing(bf, prior, priorLen, t, first, w, c) && bf.bitoffset == BYTE_LEN && bf.fileobj.pos < bf.fileobj.cap
    ensures Writing(next, prior, priorLen, t, first, w, c + 1) && 0 < next.bitoffset
    ensures next.flags == bf.flags && next.fileobj.cap == bf.fileobj.cap
    ensures WriteStep(bf, src, n, c, ShiftAt(n, |src|, c, bf.flags.msb)) == (false, next, ShiftAt(n, |src|, c + 1, bf.flags.msb))
  {
    FlushStep(bf, prior, priorLen, t, first, w, c);
    var shift' := ShiftAt(n, |src|, c + 1, bf.flags.msb);
    next := PutStep(Flushed(bf).(bitoffset := 0), src, n, c, shift', prior, priorLen, t, first, w);
    StepFlush(bf, src, n, c, ShiftAt(n, |src|, c, bf.flags.msb), Flushed(bf), shift', next);
  }

  /** The next bit to emit is the one the write loop's source offset
      selects, and the loop's shift moves on as `ShiftAt` says. */
  lemma EmitsNext(w: seq<bool>, src: seq<bv8>, n: nat, c: nat, msb: bool)
    requires n >= 1 && |src| == CeilDiv(n, BYTE_LEN) && c < n && Emits(w, src, n, c, msb)
    ensures c < |w| && c / BYTE_LEN < |src|
    ensures w[c] == ByteBit(src[c / BYTE_LEN], MsbOffset((ShiftAt(n, |src|, c + 1, msb) + c) % BYTE_LEN, msb))
    ensures WriteShift(src, n, c, ShiftAt(n, |src|, c, msb), msb) == ShiftAt(n, |src|, c + 1, msb)
  {
    ShiftStep(src, n, c, msb);
    assert w[c] == ByteBit(src[c / BYTE_LEN], SourceBit(n, |src|, c, msb));
  }

  /** One round of the write loop that does not stall: a flush with room
      if the lookahead is full, then one bit copied. */
  lemma WriteRound(bf: BitFile, src: seq<bv8>, n: nat, c: nat,
                   prior: seq<bool>, priorLen: nat, t: nat, first: int, w: seq<bool>) returns (next: BitFile)
    requires n >= 1 && |src| == CeilDiv(n, BYTE_LEN) && c < n
    requires Emits(w, src, n, c, bf.flags.msb)
    requires Writing(bf, prior, priorLen, t, first, w, c) && (c > 0 ==> 0 < bf.bitoffset)
    requires bf.bitoffset >= BYTE_LEN ==> bf.fileobj.pos < bf.fileobj.cap
    ensures Writing(next, prior, priorLen, t, first, w, c + 1) && 0 < next.bitoffset
    ensures next.flags == bf.flags && next.fileobj.cap == bf.fileobj.cap
    ensures WriteStep(bf, src, n, c, ShiftAt(n, |src|, c, bf.flags.msb)) == (false, next, ShiftAt(n, |src|, c + 1, bf.flags.msb))
  {
    EmitsNext(w, src, n, c, bf.flags.msb);
    if bf.bitoffset >= BYTE_LEN {
      next := RoundFlush(bf, src, n, c, prior, priorLen, t, first, w);
    } else {
      next := RoundPut(bf, src, n, c, prior, priorLen, t, first, w);
    }
  }

  /** A round that finds the lookahead full and no room stalls the loop. */
  lemma WriteStall(bf: BitFile, src: seq<bv8>, n: nat, c: nat,
                   prior: seq<bool>, priorLen: nat, t: nat, first: int, w: seq<bool>) returns (r: (nat, BitFile, bool))
    requires n >= 1 && |src| == CeilDiv(n, BYTE_LEN) && c < n && |w| == n
    requires Writing(bf, prior, priorLen, t, first, w, c)
    requires bf.bitoffset >= BYTE_LEN && bf.fileobj.pos >= bf.fileobj.cap
    ensures r == WriteLoop(bf, src, n, c, ShiftAt(n, |src|, c, bf.flags.msb))
    ensures r.1.flags == bf.flags && LoopResult(r, prior, priorLen, t, first, w, bf.fileobj.cap)
  {
    FlushFails(bf, true);
    r := (c, bf.(fileobj := bf.fileobj.(err := true), currbyte := AtEof), true);
  }

  /** From the loop invariant after `c` bits, the rest of the write loop
      either holds every bit or stalls on a medium with no room. */
  lemma {:induction false} WriteLoopAppends(bf: BitFile, src: seq<bv8>, n: nat, c: nat,
                                            prior: seq<bool>, priorLen: nat, t: nat, first: int, w: seq<bool>)
      returns (r: (nat, BitFile, bool))
    requires n >= 1 && |src| == CeilDiv(n, BYTE_LEN) && c <= n
    requires Emits(w, src, n, c, bf.flags.msb)
    requires Writing(bf, prior, priorLen, t, first, w, c) && (c > 0 ==> 0 < bf.bitoffset)
    ensures r == WriteLoop(bf, src, n, c, ShiftAt(n, |src|, c, bf.flags.msb))
    ensures r.1.flags == bf.flags && LoopResult(r, prior, priorLen, t, first, w, bf.fileobj.cap)
    decreases n - c
  {
    if c == n {
      r := (c, bf, false);
    } else if bf.bitoffset >= BYTE_LEN && bf.fileobj.pos >= bf.fileobj.cap {
      r := WriteStall(bf, src, n, c, prior, priorLen, t, first, w);
    } else {
      var next := WriteRound(bf, src, n, c, prior, priorLen, t, first, w);
      LoopOnward(bf, src, n, c, ShiftAt(n, |src|, c, bf.flags.msb));
      r := WriteLoopAppends(next, src, n, c + 1, prior, priorLen, t, first, w);
    }
  }

  /* --- The medium after the write --- */

  /** A medium whose every byte holds its bits after `k` bits of `w`, and
      which is just long enough for them, is the reference splice. */
  lemma BitsOfHeld(data: seq<bv8>, msb: bool, prior: seq<bool>, priorLen: nat, t: nat, w: seq<bool>, k: nat)
    requires k <= |w| && |prior| == priorLen * BYTE_LEN && t <= |prior|
    requires |data| == Max(priorLen, (t + k + 7) / BYTE_LEN)
    requires Stored(data, |data|, msb, prior, t, w, k)
    ensures Bits(data, msb) == Splice(prior, t, w[..k])
  {
    var bits := Bits(data, msb);
    var spliced := Splice(prior, t, w[..k]);
    assert |bits| == |spliced|;
    forall i | 0 <= i < |bits|
      ensures bits[i] == spliced[i]
    {
      StoredBit(data, msb, prior, t, w, k, i);
    }
  }

  /** Bit `i` of a medium whose every byte holds its bits is the spliced bit. */
  lemma StoredBit(data: seq<bv8>, msb: bool, prior: seq<bool>, t: nat, w: seq<bool>, k: nat, i: int)
    requires k <= |w| && 0 <= i < |data| * BYTE_LEN && Stored(data, |data|, msb, prior, t, w, k)
    ensures Bits(data, msb)[i] == SplicedBit(prior, t, w, k, i)
  {
    var b := i / BYTE_LEN;
    var q: BitIndex := i % BYTE_LEN;
    BitsAt(data, msb, b, q);
    var p := MsbOffset(q, msb);
    MsbOffsetInvolution(q, msb);
    assert Holds(data[b], b, msb, prior, t, w, k);
    assert ByteBit(data[b], p) == SplicedBit(prior, t, w, k, b * BYTE_LEN + MsbOffset(p, msb));
  }

  /** After the last byte is stored, every byte holds all `c` bits. */
  lemma StoredLast(s: Stream, msb: bool, prior: seq<bool>, priorLen: nat, t: nat, first: int, w: seq<bool>, c: nat, v: bv8)
    requires Medium(s, msb, prior, priorLen, t, first, w, c) && Holds(v, s.pos, msb, prior, t, w, c)
    ensures var data := WriteAt(s.data, s.pos, v);
            |data| == s.pos + 1 && Stored(data, |data|, msb, prior, t, w, c)
  {
    var data := WriteAt(s.data, s.pos, v);
    forall b | 0 <= b < |data|
      ensures Holds(data[b], b, msb, prior, t, w, c)
    {
      if b < s.pos {
        assert data[b] == s.data[b];
        assert Holds(s.data[b], b, msb, prior, t, w, c);
      }
    }
  }

  /** When the byte at the stream cursor was lost, the medium holds the
      bits of `w` written before that byte, and the prior bits from it on. */
  lemma StoredLost(s: Stream, msb: bool, prior: seq<bool>, priorLen: nat, t: nat, first: int, w: seq<bool>, c: nat)
    requires Medium(s, msb, prior, priorLen, t, first, w, c) && s.pos * BYTE_LEN <= t + c
    ensures var k := Max(0, s.pos * BYTE_LEN - t);
            k <= c && |s.data| == Max(priorLen, (t + k + 7) / BYTE_LEN)
            && Stored(s.data, |s.data|, msb, prior, t, w, k)
  {
    var k := Max(0, s.pos * BYTE_LEN - t);
    forall b | 0 <= b < |s.data|
      ensures Holds(s.data[b], b, msb, prior, t, w, k)
    {
      if b < s.pos {
        HoldsMove(s.data[b], b, msb, prior, t, w, c, k);
      } else {
        HoldsMove(s.data[b], b, msb, prior, t, w, 0, k);
      }
    }
  }

  /* --- Outcomes --- */

  /** What an append of `w` from bit `t` leaves behind, when the medium
      has room up to byte `stop`: the count is every bit, or the bits before
      that byte; the medium is the prior one with exactly those bits
      spliced in; a short count comes with the stream's error indicator;
      a full count leaves the cursor in step at the end of the medium, just
      past the bits written. */
  predicate Appended(count: int, bf1: BitFile, msb: bool, prior: seq<bool>, t: nat, w: seq<bool>, stop: int)
  {
    count == Min(|w|, Max(0, BYTE_LEN * stop - t))
    && Bits(bf1.fileobj.data, msb) == Splice(prior, t, w[..count])
    && (count < |w| ==> bf1.fileobj.err)
    && (count == |w| ==> Synced(bf1) && Tell(bf1) == t + |w| && bf1.fileobj.pos == |bf1.fileobj.data|)
  }

  /** A loop that stalled: the count loses the bits of the lost byte. */
  lemma StalledOutcome(bf1: BitFile, count: int, msb: bool, prior: seq<bool>, priorLen: nat, t: nat, first: int,
                       w: seq<bool>, c: nat, stop: int)
    requires c < |w| && Stalled(bf1, prior, priorLen, t, first, w, c)
    requires count == c - Min(c, bf1.bitoffset) && msb == bf1.flags.msb && stop == Max(first, bf1.fileobj.cap)
    ensures Appended(count, bf1, msb, prior, t, w, stop)
  {
    var s := bf1.fileobj;
    StoredLost(s, msb, prior, priorLen, t, first, w, c);
    BitsOfHeld(s.data, msb, prior, priorLen, t, w, count);
  }

  /** A final flush with no room: the count loses the bits of the last byte. */
  lemma FinalLostOutcome(bf: BitFile, bf1: BitFile, count: int, msb: bool, prior: seq<bool>, priorLen: nat, t: nat,
                         first: int, w: seq<bool>, stop: int)
    requires |w| >= 1 && Writing(bf, prior, priorLen, t, first, w, |w|) && 0 < bf.bitoffset
    requires bf.fileobj.pos >= bf.fileobj.cap
    requires bf1 == bf.(fileobj := bf.fileobj.(err := true), currbyte := AtEof) && count == |w| - Min(|w|, bf.bitoffset)
    requires msb == bf.flags.msb && stop == Max(first, bf.fileobj.cap)
    ensures Appended(count, bf1, msb, prior, t, w, stop)
  {
    var s := bf.fileobj;
    StoredLost(s, msb, prior, priorLen, t, first, w, |w|);
    BitsOfHeld(s.data, msb, prior, priorLen, t, w, count);
  }

  /** A final flush with room stores the last byte: every bit is written. */
  lemma FinalOutcome(bf: BitFile, bf1: BitFile, msb: bool, prior: seq<bool>, priorLen: nat, t: nat,
                     first: int, w: seq<bool>, stop: int)
    requires Writing(bf, prior, priorLen, t, first, w, |w|) && 0 < bf.bitoffset
    requires bf.fileobj.pos < bf.fileobj.cap
    requires var s := bf.fileobj;
             bf1 == bf.(fileobj := s.(data := WriteAt(s.data, s.pos, bf.currbyte.value), pos := s.pos + 1))
    requires msb == bf.flags.msb && stop == Max(first, bf.fileobj.cap)
    ensures Appended(|w|, bf1, msb, prior, t, w, stop)
  {
    var s := bf.fileobj;
    var v := bf.currbyte.value;
    var data := WriteAt(s.data, s.pos, v);
    StoredLast(s, msb, prior, priorLen, t, first, w, |w|, v);
    assert (t + |w| + 7) / BYTE_LEN == s.pos + 1;
    BitsOfHeld(data, msb, prior, priorLen, t, w, |w|);
    assert w[..|w|] == w;
  }

  /** The byte at which an append from `bf` runs out of room: the medium's
      capacity, or the byte it starts on when that already lies past it. */
  function StopByte(bf: BitFile): int
  {
    Max(FirstByte(bf), bf.fileobj.cap)
  }

  /** `bfwrite` when its write loop stalls. */
  lemma BodyStalled(bf: BitFile, src: seq<bv8>, n: nat, bf2: BitFile, r: (nat, BitFile, bool))
    requires n >= 1 && |src| == CeilDiv(n, BYTE_LEN) && bf.flags.write
    requires WriteStart(bf) == (true, bf2) && r == WriteLoop(bf2, src, n, 0, 0) && r.2
    ensures BfWrite(bf, src, n) == (r.0 - Min(r.0, r.1.bitoffset), r.1)
  {
  }

  /** `bfwrite` when its write loop runs through and the final flush
      stores the last byte. */
  lemma BodyFlushed(bf: BitFile, src: seq<bv8>, n: nat, bf2: BitFile, r: (nat, BitFile, bool), bf4: BitFile)
    requires n >= 1 && |src| == CeilDiv(n, BYTE_LEN) && bf.flags.write
    requires WriteStart(bf) == (true, bf2) && r == WriteLoop(bf2, src, n, 0, 0) && !r.2
    requires WriteByte(r.1, false) == (0, bf4)
    ensures BfWrite(bf, src, n) == (n, bf4)
  {
  }

  /** `bfwrite` when its write loop runs through and the final flush fails. */
  lemma BodyLost(bf: BitFile, src: seq<bv8>, n: nat, bf2: BitFile, r: (nat, BitFile, bool), bf4: BitFile, count: nat)
    requires n >= 1 && |src| == CeilDiv(n, BYTE_LEN) && bf.flags.write
    requires WriteStart(bf) == (true, bf2) && r == WriteLoop(bf2, src, n, 0, 0) && !r.2
    requires WriteByte(r.1, false) == (EOF, bf4) && count == n - Min(n, bf4.bitoffset)
    ensures BfWrite(bf, src, n) == (count, bf4)
  {
  }

  /** An append whose write loop stalled. */
  lemma AppendStalled(bf: BitFile, src: seq<bv8>, n: nat, bf2: BitFile, r: (nat, BitFile, bool)) returns (count: nat, bf1: BitFile)
    requires n >= 1 && |src| == CeilDiv(n, BYTE_LEN)
    requires bf.flags.write && Synced(bf) && bf.fileobj.pos == |bf.fileobj.data|
    requires WriteStart(bf) == (true, bf2) && r == WriteLoop(bf2, src, n, 0, 0) && r.1.flags.msb == bf.flags.msb
    requires LoopResult(r, MediumBits(bf), |bf.fileobj.data|, Tell(bf), FirstByte(bf), WriteBits(src, n, bf.flags.msb), bf.fileobj.cap)
    requires r.2
    ensures (count, bf1) == BfWrite(bf, src, n)
    ensures Appended(count, bf1, bf.flags.msb, MediumBits(bf), Tell(bf), WriteBits(src, n, bf.flags.msb), StopByte(bf))
  {
    count, bf1 := r.0 - Min(r.0, r.1.bitoffset), r.1;
    StalledOutcome(r.1, count, bf.flags.msb, MediumBits(bf), |bf.fileobj.data|, Tell(bf), FirstByte(bf),
                   WriteBits(src, n, bf.flags.msb), r.0, StopByte(bf));
    BodyStalled(bf, src, n, bf2, r);
  }

  /** An append whose final flush found room. */
  lemma AppendFinal(bf: BitFile, src: seq<bv8>, n: nat, bf2: BitFile, r: (nat, BitFile, bool)) returns (count: nat, bf1: BitFile)
    requires n >= 1 && |src| == CeilDiv(n, BYTE_LEN)
    requires bf.flags.write && Synced(bf) && bf.fileobj.pos == |bf.fileobj.data|
    requires WriteStart(bf) == (true, bf2) && r == WriteLoop(bf2, src, n, 0, 0) && r.1.flags.msb == bf.flags.msb
    requires LoopResult(r, MediumBits(bf), |bf.fileobj.data|, Tell(bf), FirstByte(bf), WriteBits(src, n, bf.flags.msb), bf.fileobj.cap)
    requires !r.2 && r.1.fileobj.pos < r.1.fileobj.cap
    ensures (count, bf1) == BfWrite(bf, src, n)
    ensures Appended(count, bf1, bf.flags.msb, MediumBits(bf), Tell(bf), WriteBits(src, n, bf.flags.msb), StopByte(bf))
  {
    var bf3 := r.1;
    var s := bf3.fileobj;
    FinalFlush(bf3);
    bf1 := bf3.(fileobj := s.(data := WriteAt(s.data, s.pos, bf3.currbyte.value), pos := s.pos + 1));
    FinalOutcome(bf3, bf1, bf.flags.msb, MediumBits(bf), |bf.fileobj.data|, Tell(bf), FirstByte(bf),
                 WriteBits(src, n, bf.flags.msb), StopByte(bf));
    BodyFlushed(bf, src, n, bf2, r, bf1);
    count := n;
  }

  /** An append whose final flush found no room. */
  lemma AppendLost(bf: BitFile, src: seq<bv8>, n: nat, bf2: BitFile, r: (nat, BitFile, bool)) returns (count: nat, bf1: BitFile)
    requires n >= 1 && |src| == CeilDiv(n, BYTE_LEN)
    requires bf.flags.write && Synced(bf) && bf.fileobj.pos == |bf.fileobj.data|
    requires WriteStart(bf) == (true, bf2) && r == WriteLoop(bf2, src, n, 0, 0) && r.1.flags.msb == bf.flags.msb
    requires LoopResult(r, MediumBits(bf), |bf.fileobj.data|, Tell(bf), FirstByte(bf), WriteBits(src, n, bf.flags.msb), bf.fileobj.cap)
    requires !r.2 && r.1.fileobj.pos >= r.1.fileobj.cap
    ensures (count, bf1) == BfWrite(bf, src, n)
    ensures Appended(count, bf1, bf.flags.msb, MediumBits(bf), Tell(bf), WriteBits(src, n, bf.flags.msb), StopByte(bf))
  {
    var bf3 := r.1;
    var s := bf3.fileobj;
    FlushFails(bf3, false);
    bf1 := bf3.(fileobj := s.(err := true), currbyte := AtEof);
    count := n - Min(n, bf3.bitoffset);
    FinalLostOutcome(bf3, bf1, count, bf.flags.msb, MediumBits(bf), |bf.fileobj.data|, Tell(bf), FirstByte(bf),
                     WriteBits(src, n, bf.flags.msb), StopByte(bf));
    BodyLost(bf, src, n, bf2, r, bf1, count);
  }

  /** `bfwrite` from a cursor in step at the end of the medium does what
      `Appended` describes. */
  lemma AppendWrites(bf: BitFile, src: seq<bv8>, n: nat) returns (count: nat, bf1: BitFile)
    requires n >= 1 && |src| == CeilDiv(n, BYTE_LEN)
    requires bf.flags.write && Synced(bf) && bf.fileobj.pos == |bf.fileobj.data|
    ensures (count, bf1) == BfWrite(bf, src, n)
    ensures Appended(count, bf1, bf.flags.msb, MediumBits(bf), Tell(bf), WriteBits(src, n, bf.flags.msb), StopByte(bf))
  {
    var msb := bf.flags.msb;
    var w := WriteBits(src, n, msb);
    var bf2 := StartAppend(bf, w);
    assert Emits(w, src, n, 0, msb);
    var r := WriteLoopAppends(bf2, src, n, 0, MediumBits(bf), |bf.fileobj.data|, Tell(bf), FirstByte(bf), w);
    assert ShiftAt(n, |src|, 0, msb) == 0;
    if r.2 {
      count, bf1 := AppendStalled(bf, src, n, bf2, r);
    } else if r.1.fileobj.pos < r.1.fileobj.cap {
      count, bf1 := AppendFinal(bf, src, n, bf2, r);
    } else {
      count, bf1 := AppendLost(bf, src, n, bf2, r);
    }
  }

  /** An append with `bfwrite`: from a cursor in step at the end of the
      medium, starting at bit `bftell`, the count is every bit when the
      medium has room for them and otherwise the bits that fit before the
      first byte with no room; the new medium is the old one with exactly
      the counted bits spliced in from `bftell` on (zero bits fill the last
      byte touched); a short count sets the stream's error indicator; a
      full one leaves the cursor in step at the new end, `n` bits on. */
  lemma BfWriteAtEnd(bf: BitFile, src: seq<bv8>, n: nat)
    requires n >= 1 && |src| == CeilDiv(n, BYTE_LEN)
    requires bf.flags.write && Synced(bf) && bf.fileobj.pos == |bf.fileobj.data|
    ensures var (count, bf1) := BfWrite(bf, src, n);
            var t := Tell(bf);
            count == Min(n, Max(0, BYTE_LEN * StopByte(bf) - t))
            && MediumBits(bf1) == Splice(MediumBits(bf), t, WriteBits(src, n, bf.flags.msb)[..count])
            && (count < n ==> bf1.fileobj.err)
            && (count == n ==> Synced(bf1) && Tell(bf1) == t + n && bf1.fileobj.pos == |bf1.fileobj.data|)
  {
    var count, bf1 := AppendWrites(bf, src, n);
  }

  /* --- The count as written --- */

  /** The count `bfwrite` returns as written for an append of `n` bits
      from bit `t` when the medium has room up to byte `stop`: every bit
      when they all fit; when only the last byte found no room, the whole
      bit offset of that byte is taken off, so the bits it held before the
      call are taken off too (the result is negative when the write began
      inside that byte); when a byte inside the loop found no room, the
      bits copied so far, the lost byte's included. */
  function Reported(n: nat, t: int, stop: int): int
  {
    if t + n <= BYTE_LEN * stop then n
    else if t + n <= BYTE_LEN * stop + BYTE_LEN then BYTE_LEN * stop - t
    else BYTE_LEN * stop + BYTE_LEN - t
  }

  /** A stream in the middle of an append never runs past the byte where
      the medium runs out of room, and stands on it once it has no room. */
  lemma StopAt(s: Stream, msb: bool, prior: seq<bool>, priorLen: nat, t: nat, first: int, w: seq<bool>, c: nat)
    requires Medium(s, msb, prior, priorLen, t, first, w, c)
    ensures s.pos <= Max(first, s.cap)
    ensures s.pos >= s.cap ==> s.pos == Max(first, s.cap)
  {
  }

  /** Where a write loop that ran through leaves the stream: on the byte
      holding bit `t + |w| - 1`, never past the byte where the medium runs
      out of room, and on that byte once it has no room. */
  lemma LoopEndsAt(r: (nat, BitFile, bool), prior: seq<bool>, priorLen: nat, t: nat, first: int, w: seq<bool>, cap: int)
    requires LoopResult(r, prior, priorLen, t, first, w, cap) && !r.2
    ensures r.1.fileobj.pos * BYTE_LEN + r.1.bitoffset == t + |w| && 0 < r.1.bitoffset <= BYTE_LEN
    ensures r.1.fileobj.pos <= Max(first, cap) && (r.1.fileobj.pos >= cap ==> r.1.fileobj.pos == Max(first, cap))
    ensures !r.1.fileobj.eof && r.1.currbyte.Byte?
  {
    StopAt(r.1.fileobj, r.1.flags.msb, prior, priorLen, t, first, w, |w|);
  }

  /** `bfwrite` as written when its write loop stalls. */
  lemma BodyStalledAsWritten(bf: BitFile, src: seq<bv8>, n: nat, bf2: BitFile, r: (nat, BitFile, bool))
    requires n >= 1 && |src| == CeilDiv(n, BYTE_LEN) && bf.flags.write
    requires WriteStart(bf) == (true, bf2) && r == WriteLoop(bf2, src, n, 0, 0) && r.2
    ensures BfWriteAsWritten(bf, src, n) == (r.0, r.1)
  {
  }

  /** `bfwrite` as written when the final flush finds room: every bit is
      counted. */
  lemma BodyFlushedAsWritten(bf: BitFile, src: seq<bv8>, n: nat, bf2: BitFile, r: (nat, BitFile, bool))
    requires n >= 1 && |src| == CeilDiv(n, BYTE_LEN) && bf.flags.write
    requires WriteStart(bf) == (true, bf2) && r == WriteLoop(bf2, src, n, 0, 0) && !r.2
    requires r.1.fileobj.pos < r.1.fileobj.cap
    ensures BfWriteAsWritten(bf, src, n).0 == n
  {
    FinalFlush(r.1);
  }

  /** `bfwrite` as written when the final flush fails. */
  lemma BodyLostAsWritten(bf: BitFile, src: seq<bv8>, n: nat, bf2: BitFile, r: (nat, BitFile, bool), bf4: BitFile)
    requires n >= 1 && |src| == CeilDiv(n, BYTE_LEN) && bf.flags.write
    requires WriteStart(bf) == (true, bf2) && r == WriteLoop(bf2, src, n, 0, 0) && !r.2
    requires WriteByte(r.1, false) == (EOF, bf4)
    ensures BfWriteAsWritten(bf, src, n) == (n - bf4.bitoffset, bf4)
  {
  }

  /** The count as written of an append whose write loop stalled. */
  lemma ReportedStalled(bf: BitFile, src: seq<bv8>, n: nat, bf2: BitFile, r: (nat, BitFile, bool))
    requires n >= 1 && |src| == CeilDiv(n, BYTE_LEN)
    requires bf.flags.write && Synced(bf) && bf.fileobj.pos == |bf.fileobj.data|
    requires WriteStart(bf) == (true, bf2) && r == WriteLoop(bf2, src, n, 0, 0) && r.1.flags.msb == bf.flags.msb
    requires LoopResult(r, MediumBits(bf), |bf.fileobj.data|, Tell(bf), FirstByte(bf), WriteBits(src, n, bf.flags.msb), bf.fileobj.cap)
    requires r.2
    ensures BfWriteAsWritten(bf, src, n).0 == Reported(n, Tell(bf), StopByte(bf))
  {
    StopAt(r.1.fileobj, bf.flags.msb, MediumBits(bf), |bf.fileobj.data|, Tell(bf), FirstByte(bf),
           WriteBits(src, n, bf.flags.msb), r.0);
    BodyStalledAsWritten(bf, src, n, bf2, r);
  }

  /** The count as written of an append whose final flush found room. */
  lemma ReportedFlushed(bf: BitFile, src: seq<bv8>, n: nat, bf2: BitFile, r: (nat, BitFile, bool))
    requires n >= 1 && |src| == CeilDiv(n, BYTE_LEN)
    requires bf.flags.write && Synced(bf) && bf.fileobj.pos == |bf.fileobj.data|
    requires WriteStart(bf) == (true, bf2) && r == WriteLoop(bf2, src, n, 0, 0) && r.1.flags.msb == bf.flags.msb
    requires LoopResult(r, MediumBits(bf), |bf.fileobj.data|, Tell(bf), FirstByte(bf), WriteBits(src, n, bf.flags.msb), bf.fileobj.cap)
    requires !r.2 && r.1.fileobj.pos < r.1.fileobj.cap
    ensures BfWriteAsWritten(bf, src, n).0 == Reported(n, Tell(bf), StopByte(bf))
  {
    var bf3 := r.1;
    var s := bf3.fileobj;
    LoopEndsAt(r, MediumBits(bf), |bf.fileobj.data|, Tell(bf), FirstByte(bf), WriteBits(src, n, bf.flags.msb), bf.fileobj.cap);
    assert Tell(bf) + n <= BYTE_LEN * StopByte(bf);
    BodyFlushedAsWritten(bf, src, n, bf2, r);
  }

  /** The count as written of an append whose final flush found no room. */
  lemma ReportedLost(bf: BitFile, src: seq<bv8>, n: nat, bf2: BitFile, r: (nat, BitFile, bool))
    requires n >= 1 && |src| == CeilDiv(n, BYTE_LEN)
    requires bf.flags.write && Synced(bf) && bf.fileobj.pos == |bf.fileobj.data|
    requires WriteStart(bf) == (true, bf2) && r == WriteLoop(bf2, src, n, 0, 0) && r.1.flags.msb == bf.flags.msb
    requires LoopResult(r, MediumBits(bf), |bf.fileobj.data|, Tell(bf), FirstByte(bf), WriteBits(src, n, bf.flags.msb), bf.fileobj.cap)
    requires !r.2 && r.1.fileobj.pos >= r.1.fileobj.cap
    ensures BfWriteAsWritten(bf, src, n).0 == Reported(n, Tell(bf), StopByte(bf))
  {
    var bf3 := r.1;
    var s := bf3.fileobj;
    LoopEndsAt(r, MediumBits(bf), |bf.fileobj.data|, Tell(bf), FirstByte(bf), WriteBits(src, n, bf.flags.msb), bf.fileobj.cap);
    assert s.pos == StopByte(bf);
    FlushFails(bf3, false);
    var bf4 := bf3.(fileobj := s.(err := true), currbyte := AtEof);
    BodyLostAsWritten(bf, src, n, bf2, r, bf4);
  }

  /** `bfwrite` as written, from a cursor in step at the end of the medium:
      the same state as `BfWrite`, and the count `Reported` gives, which
      differs from the bits actually committed when a flush inside the loop
      finds no room, or when the final flush finds none for a byte the call
      began inside (see `AsWrittenExactWhen`). */
  lemma BfWriteAsWrittenAtEnd(bf: BitFile, src: seq<bv8>, n: nat)
    requires n >= 1 && |src| == CeilDiv(n, BYTE_LEN)
    requires bf.flags.write && Synced(bf) && bf.fileobj.pos == |bf.fileobj.data|
    ensures BfWriteAsWritten(bf, src, n).1 == BfWrite(bf, src, n).1
    ensures BfWriteAsWritten(bf, src, n).0 == Reported(n, Tell(bf), StopByte(bf))
  {
    var msb := bf.flags.msb;
    var w := WriteBits(src, n, msb);
    var bf2 := StartAppend(bf, w);
    assert Emits(w, src, n, 0, msb);
    var r := WriteLoopAppends(bf2, src, n, 0, MediumBits(bf), |bf.fileobj.data|, Tell(bf), FirstByte(bf), w);
    assert ShiftAt(n, |src|, 0, msb) == 0;
    if r.2 {
      ReportedStalled(bf, src, n, bf2, r);
    } else if r.1.fileobj.pos < r.1.fileobj.cap {
      ReportedFlushed(bf, src, n, bf2, r);
    } else {
      ReportedLost(bf, src, n, bf2, r);
    }
  }

  /** The count as written against the bits committed, for a write from bit
      `t` with room up to byte `stop` and beginning no later than that byte:
      they agree exactly when no byte inside the loop lies past `stop` and
      the write does not begin inside `stop` itself. */
  lemma ReportedExact(n: nat, t: int, stop: int)
    requires n >= 1 && t < BYTE_LEN * stop + BYTE_LEN
    ensures Reported(n, t, stop) == Min(n, Max(0, BYTE_LEN * stop - t))
            <==> t + n <= BYTE_LEN * stop + BYTE_LEN && t <= BYTE_LEN * stop
  {
  }

  /** `bfwrite` as written reports the bits committed exactly when no flush
      inside its loop fails (the bits reach no further than the byte where
      the medium runs out of room) and a failing final flush, if any, is on
      a byte the call did not begin inside. */
  lemma AsWrittenExactWhen(bf: BitFile, src: seq<bv8>, n: nat)
    requires n >= 1 && |src| == CeilDiv(n, BYTE_LEN)
    requires bf.flags.write && Synced(bf) && bf.fileobj.pos == |bf.fileobj.data|
    ensures BfWriteAsWritten(bf, src, n).0 == BfWrite(bf, src, n).0
            <==> Tell(bf) + n <= BYTE_LEN * StopByte(bf) + BYTE_LEN && Tell(bf) <= BYTE_LEN * StopByte(bf)
  {
    BfWriteAsWrittenAtEnd(bf, src, n);
    BfWriteAtEnd(bf, src, n);
    ReportedExact(n, Tell(bf), StopByte(bf));
  }
}
