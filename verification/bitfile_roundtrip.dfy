/**
  Writing then reading back: bits a `bfwrite` committed are what a
  `bfread` from the same position returns, in either bit order.
 */
module WriteRead {
  import opened BitOps
  import opened ByteStream
  import opened BitSpec
  import opened BitCursor
  import opened BitRead
  import opened BitPosition
  import opened BitWrite

  /** `b` with every physical bit from `len` up cleared. */
  function LowBits(b: bv8, len: nat): (r: bv8)
    requires len <= BYTE_LEN
    ensures forall p: BitIndex :: ByteBit(r, p) == (p < len && ByteBit(b, p))
    decreases BYTE_LEN - len
  {
    if len == BYTE_LEN then b else SetBit(LowBits(b, len + 1), len, false)
  }

  /** The part of an `n`-bit source buffer a write takes bits from: every
      byte whole, except that only the low `n % 8` bits of a partial last
      byte count. */
  function Meaningful(src: seq<bv8>, n: nat): (r: seq<bv8>)
    requires n >= 1 && |src| == CeilDiv(n, BYTE_LEN)
    ensures |r| == |src|
    ensures forall j, p: BitIndex :: 0 <= j < |r| ==> ByteBit(r[j], p) == (p < Min(n - j * BYTE_LEN, BYTE_LEN) && ByteBit(src[j], p))
  {
    seq(|src|, j requires 0 <= j < |src| => LowBits(src[j], Min(n - j * BYTE_LEN, BYTE_LEN)))
  }

  /** Bit `k` of a write lands at bit `t + k` of the spliced medium. */
  lemma SplicedAt(prior: seq<bool>, t: nat, w: seq<bool>, k: nat)
    requires k < |w|
    ensures t + k < |Splice(prior, t, w)| && Splice(prior, t, w)[t + k] == w[k]
  {
  }

  /** The source bit a write emits as bit `k` of destination byte `j`,
      where the read of byte `j` puts physical bit `p`, is bit `p` of
      source byte `j`. */
  lemma EmittedAt(src: seq<bv8>, n: nat, msb: bool, j: nat, p: BitIndex, len: int, k: int)
    requires n >= 1 && |src| == CeilDiv(n, BYTE_LEN) && j < |src|
    requires len == Min(n - j * BYTE_LEN, BYTE_LEN) && p < len
    requires k == j * BYTE_LEN + (if msb then len - 1 - p else p)
    ensures 0 <= k < n && k / BYTE_LEN == j && SourceBit(n, |src|, k, msb) == p
  {
    if !(msb && k >= (|src| - 1) * BYTE_LEN) {
      assert k % BYTE_LEN == (if msb then BYTE_LEN - 1 - p else p);
    }
  }

  /** One bit of the read-back buffer is the bit the reference read expects
      from a medium holding the write's bits from `t` on. */
  lemma ReadBackBit(src: seq<bv8>, n: nat, msb: bool, t: nat, w: seq<bool>, bits: seq<bool>, j: nat, p: BitIndex)
    requires n >= 1 && |src| == CeilDiv(n, BYTE_LEN) && j < |src|
    requires w == WriteBits(src, n, msb) && t + n <= |bits|
    requires forall i {:trigger w[i]} :: 0 <= i < n ==> bits[t + i] == w[i]
    ensures ByteBit(Meaningful(src, n)[j], p) == ExpectedBit(bits, t, n, msb, j, p)
  {
    var len := Min(n - j * BYTE_LEN, BYTE_LEN);
    var kept := ByteBit(Meaningful(src, n)[j], p);
    assert kept == (p < len && ByteBit(src[j], p));
    if p < len {
      var k := j * BYTE_LEN + (if msb then len - 1 - p else p);
      EmittedAt(src, n, msb, j, p, len, k);
      assert w[k] == ByteBit(src[j], p);
      assert ExpectedBit(bits, t, n, msb, j, p) == bits[t + k];
    } else {
      assert !ExpectedBit(bits, t, n, msb, j, p);
    }
  }

  /** A read of the bits a write spliced in, from where they begin, gives
      back the meaningful part of the written source buffer. */
  lemma ReadsBackWritten(src: seq<bv8>, n: nat, msb: bool, prior: seq<bool>, t: nat)
    requires n >= 1 && |src| == CeilDiv(n, BYTE_LEN)
    ensures var bits := Splice(prior, t, WriteBits(src, n, msb));
            t + n <= |bits| && ReadSpec(bits, t, n, |src|, msb) == Meaningful(src, n)
  {
    var w := WriteBits(src, n, msb);
    var bits := Splice(prior, t, w);
    var out := Meaningful(src, n);
    SplicedAt(prior, t, w, n - 1);
    forall i | 0 <= i < n
      ensures bits[t + i] == w[i]
    {
      SplicedAt(prior, t, w, i);
    }
    forall j: nat, p: BitIndex | j < |out|
      ensures ByteBit(out[j], p) == ExpectedBit(bits, t, n, msb, j, p)
    {
      ReadBackBit(src, n, msb, t, w, bits, j, p);
    }
    ReadSpecUnique(out, bits, t, n, msb);
  }

  /** Round trip: a write that committed every bit from a cursor in step at
      the end of the medium, a seek back to where it began, and a read of
      as many bits return every bit, and the buffer holds the meaningful
      part of what was written. */
  lemma WriteThenRead(bf: BitFile, src: seq<bv8>, n: nat)
    requires n >= 1 && |src| == CeilDiv(n, BYTE_LEN)
    requires bf.flags.write && bf.flags.read && Synced(bf) && bf.fileobj.pos == |bf.fileobj.data|
    requires BfWrite(bf, src, n).0 == n
    ensures var bf2 := BfSeek(BfWrite(bf, src, n).1, Tell(bf), SeekSet).1;
            var r := BfRead(bf2, seq(|src|, _ => 0 as bv8), n);
            r.0 == n && r.1 == Meaningful(src, n)
  {
    var t := Tell(bf);
    var msb := bf.flags.msb;
    SyncedTell(bf);
    BfWriteAtEnd(bf, src, n);
    var bf1 := BfWrite(bf, src, n).1;
    var w := WriteBits(src, n, msb);
    assert w[..n] == w;
    assert MediumBits(bf1) == Splice(MediumBits(bf), t, w);
    SyncedTell(bf1);
    SeekAim(bf1, t, SeekSet);
    BfSeekLands(bf1, t, SeekSet);
    var bf2 := BfSeek(bf1, t, SeekSet).1;
    assert MediumBits(bf2) == MediumBits(bf1);
    var buf := seq(|src|, _ => 0 as bv8);
    BfReadSynced(bf2, buf, n);
    ReadsBackWritten(src, n, msb, MediumBits(bf), t);
  }
}
