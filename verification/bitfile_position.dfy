/**
  Positioning the BITFILE cursor: where `bfseek` lands, and the
  `bfgetpos`/`bfsetpos` round trip, stated against `bftell` and the read
  semantics of `BitRead`.
 */
module BitPosition {
  import opened BitOps
  import opened ByteStream
  import opened BitSpec
  import opened BitCursor
  import opened BitRead

  /** The absolute bit position a seek of `offset` bits from `whence` asks
      for: from the start, from the cursor's logical position, or from the
      end of the medium. */
  function SeekGoal(bf: BitFile, offset: int, whence: Whence): int
  {
    match whence
    case SeekSet => offset
    case SeekCur => Tell(bf) + offset
    case SeekEnd => |bf.fileobj.data| * BYTE_LEN + offset
  }

  /** The byte `bfseek` hands to the stream seek, made absolute. */
  function SeekByte(bf: BitFile, offset: int, whence: Whence): int
  {
    SeekTarget(bf.fileobj, SeekNormalise(bf, offset, whence).1, whence)
  }

  /** The byte and bit `bfseek` aims at are the goal position. */
  lemma SeekAim(bf: BitFile, offset: int, whence: Whence)
    ensures var off := SeekNormalise(bf, offset, whence).0;
            0 <= off < BYTE_LEN && SeekByte(bf, offset, whence) * BYTE_LEN + off == SeekGoal(bf, offset, whence)
  {
  }

  /** A seek whose goal byte exists succeeds, leaves the cursor in step, and
      `bftell` reports the goal. */
  lemma BfSeekLands(bf: BitFile, offset: int, whence: Whence)
    requires 0 <= SeekByte(bf, offset, whence) < |bf.fileobj.data|
    ensures BfSeek(bf, offset, whence).0 == 0
    ensures Synced(BfSeek(bf, offset, whence).1)
    ensures Tell(BfSeek(bf, offset, whence).1) == SeekGoal(bf, offset, whence)
  {
    SeekAim(bf, offset, whence);
  }

  /** A seek whose goal byte lies at or past the end of the medium reports
      end of file with the offset at 0. */
  lemma BfSeekPastEnd(bf: BitFile, offset: int, whence: Whence)
    requires SeekByte(bf, offset, whence) >= |bf.fileobj.data|
    ensures BfSeek(bf, offset, whence).0 == 1
    ensures BfEof(BfSeek(bf, offset, whence).1) && BfSeek(bf, offset, whence).1.bitoffset == 0
  {
  }

  /** A seek whose goal byte lies before the start: the failed stream seek
      is ignored, so the lookahead is refilled from wherever the stream
      already was, at the normalised offset. */
  lemma BfSeekBeforeStart(bf: BitFile, offset: int, whence: Whence)
    requires SeekByte(bf, offset, whence) < 0
    requires bf.fileobj.pos < |bf.fileobj.data| && !bf.fileobj.eof
    ensures BfSeek(bf, offset, whence).0 == 0
    ensures Synced(BfSeek(bf, offset, whence).1)
    ensures Tell(BfSeek(bf, offset, whence).1) == bf.fileobj.pos * BYTE_LEN + SeekNormalise(bf, offset, whence).0
  {
  }

  /** `bfsetpos` with the snapshot `bfgetpos` took, applied to any cursor
      over the same medium, returns to the same `bftell` in step. */
  lemma GetSetPosRoundTrip(bf: BitFile, other: BitFile)
    requires bf.bitoffset >= 0 && other.fileobj.data == bf.fileobj.data
    requires 0 <= BfGetPos(bf).1.byte < |bf.fileobj.data|
    ensures BfSetPos(other, BfGetPos(bf).1).0 == 0
    ensures Synced(BfSetPos(other, BfGetPos(bf).1).1)
    ensures Tell(BfSetPos(other, BfGetPos(bf).1).1) == Tell(bf)
  {
  }

  /** Restoring a snapshot of a cursor in step, whatever was done in
      between, reads the same bits as reading on straight away. */
  lemma RestoredReadsAlike(bf: BitFile, other: BitFile, buf: seq<bv8>, n: nat)
    requires n >= 1 && |buf| == CeilDiv(n, BYTE_LEN)
    requires Synced(bf) && bf.flags.read && other.flags == bf.flags && other.fileobj.data == bf.fileobj.data
    requires 0 <= BfGetPos(bf).1.byte < |bf.fileobj.data|
    ensures var restored := BfSetPos(other, BfGetPos(bf).1).1;
            BfRead(restored, buf, n).0 == BfRead(bf, buf, n).0
            && BfRead(restored, buf, n).1 == BfRead(bf, buf, n).1
  {
    GetSetPosRoundTrip(bf, other);
    var restored := BfSetPos(other, BfGetPos(bf).1).1;
    BfReadSynced(bf, buf, n);
    BfReadSynced(restored, buf, n);
    assert MediumBits(restored) == MediumBits(bf);
  }

  /** A snapshot whose byte lies at or past the end of the medium does not
      come back: the stream seek succeeds, but the refill of the lookahead
      finds no byte, so `bfsetpos` reports end of file with `bftell` a whole
      byte short of the snapshot. */
  lemma GetSetPosPastEnd(bf: BitFile, other: BitFile)
    requires bf.bitoffset >= 0 && other.fileobj.data == bf.fileobj.data
    requires BfGetPos(bf).1.byte >= |bf.fileobj.data|
    ensures BfSetPos(other, BfGetPos(bf).1).0 == 1
    ensures BfEof(BfSetPos(other, BfGetPos(bf).1).1)
    ensures Tell(BfSetPos(other, BfGetPos(bf).1).1) == Tell(bf) - BYTE_LEN
  {
  }

  /** A read from a cursor in step at the very end of the medium returns no
      bits, but `alignByte` has stepped the offset back before it finds no
      byte, so `bftell` falls a whole byte behind. */
  lemma ReadAtEndStepsBack(bf: BitFile, buf: seq<bv8>, n: nat)
    requires n >= 1 && |buf| == CeilDiv(n, BYTE_LEN)
    requires bf.flags.read && Synced(bf) && Tell(bf) == |bf.fileobj.data| * BYTE_LEN
    ensures BfRead(bf, buf, n).0 == 0
    ensures BfEof(BfRead(bf, buf, n).2) && BfRead(bf, buf, n).2.bitoffset == 0
    ensures Tell(BfRead(bf, buf, n).2) == Tell(bf) - BYTE_LEN
  {
  }

  /** After such a read the snapshot names the last byte: restoring it
      reads that byte again, where reading on returns nothing. */
  lemma AfterEofRestoreRereads(bf: BitFile, buf: seq<bv8>, n: nat)
    requires n >= 1 && |buf| == CeilDiv(n, BYTE_LEN)
    requires bf.flags.read && Synced(bf) && 1 <= |bf.fileobj.data| && Tell(bf) == |bf.fileobj.data| * BYTE_LEN
    ensures var after := BfRead(bf, buf, n).2;
            BfRead(after, buf, n).0 == 0
            && BfRead(BfSetPos(after, BfGetPos(after).1).1, buf, n).0 == Min(n, BYTE_LEN)
  {
    ReadAtEndStepsBack(bf, buf, n);
    var after := BfRead(bf, buf, n).2;
    BfReadAtEof(after, buf, n);
    GetSetPosRoundTrip(after, after);
    BfReadSynced(BfSetPos(after, BfGetPos(after).1).1, buf, n);
  }

  /** A cursor just opened or rewound is in step at bit 0. */
  lemma RewoundSynced(bf: BitFile)
    ensures Synced(BfRewind(bf)) && Tell(BfRewind(bf)) == 0
  {
  }
}
