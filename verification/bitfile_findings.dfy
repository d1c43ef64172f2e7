/**
  Inputs on which `bfwrite` as the repository writes it reports a count,
  or leaves a position, other than the one its callers are promised, set
  beside what the corrected `BitCursor.BfWrite` gives on the same input.
 */
module WriteFindings {
  import opened BitOps
  import opened ByteStream
  import opened BitSpec
  import opened BitCursor
  import opened BitRead
  import opened BitWrite

  /** A writable cursor over the one byte 0x74, in step five bits into it,
      on a medium with no room for any byte. */
  function PartWay(msb: bool): (bf: BitFile)
    ensures Synced(bf) && bf.flags.write && bf.fileobj.pos == |bf.fileobj.data|
    ensures Tell(bf) == 5 && StopByte(bf) == 0
  {
    BitFile(Stream([0x74], 1, false, false, 0), Byte(0x74), 5, Flags(false, true, msb, false))
  }

  /** A writable cursor as `bfopen` leaves it over an empty medium with no
      room for any byte. */
  function FreshNoRoom(msb: bool): (bf: BitFile)
    ensures Synced(bf) && bf.flags.write && bf.fileobj.pos == |bf.fileobj.data|
    ensures Tell(bf) == 0 && StopByte(bf) == 0
  {
    Reset(BitFile(Open([], 0), Byte(0), 0, Flags(false, true, msb, false)), msb)
  }

  /** The final flush of a one-bit write fails: as written the count is
      the bit offset subtracted from one, -5; no bit was committed. */
  lemma FinalFlushUnderflow(msb: bool, src: seq<bv8>)
    requires |src| == 1
    ensures BfWriteAsWritten(PartWay(msb), src, 1).0 == -5
    ensures BfWrite(PartWay(msb), src, 1).0 == 0
  {
    BfWriteAsWrittenAtEnd(PartWay(msb), src, 1);
    BfWriteAtEnd(PartWay(msb), src, 1);
  }

  /** A sixteen-bit write whose first flush, inside the loop, fails: as
      written the count is the eight bits of the lost byte; no bit was
      committed. */
  lemma LoopFlushOvercount(msb: bool, src: seq<bv8>)
    requires |src| == 2
    ensures BfWriteAsWritten(FreshNoRoom(msb), src, 16).0 == 8
    ensures BfWrite(FreshNoRoom(msb), src, 16).0 == 0
  {
    BfWriteAsWrittenAtEnd(FreshNoRoom(msb), src, 16);
    BfWriteAtEnd(FreshNoRoom(msb), src, 16);
  }

  /** A cursor three bits into the first of the two bytes 0x74 0x75. */
  function ThreeIn(msb: bool): (bf: BitFile)
    ensures Synced(bf) && bf.flags.write && Tell(bf) == 3
  {
    BitFile(Stream([0x74, 0x75], 1, false, false, 2), Byte(0x74), 3, Flags(false, true, msb, false))
  }

  /** A write of no bits, as written, still puts the stream back on the
      byte under the cursor and never flushes it: the position `bftell`
      reports moves back eight bits, and the cursor is out of step. The
      corrected write leaves the cursor as it was. */
  lemma ZeroBitWriteMoves(msb: bool)
    ensures var bf1 := BfWriteAsWritten(ThreeIn(msb), [], 0).1;
            Tell(bf1) == -5 && !Synced(bf1)
    ensures BfWrite(ThreeIn(msb), [], 0) == (0, ThreeIn(msb))
  {
    var bf := ThreeIn(msb);
    assert AlignByte(bf) == (0, bf);
  }
}
