/**
  The BITFILE bit cursor of src/bitfile.c, as pure state transitions.

  A `BitFile` pairs the underlying byte stream with the cursor: the one-byte
  lookahead `currbyte` (or the end-of-file sentinel), the signed bit offset
  into it, and the READ/WRITE/MSB/ERR flags. While the cursor is in use the
  stream sits one byte past the byte held in `currbyte`, so the logical bit
  position is `(pos - 1) * 8 + bitoffset` (see `Tell`).
 */
module BitCursor {
  import opened BitOps
  import opened ByteStream

  /** The flag byte: readable, writable, most-significant-bit-first order,
      and an invalid-access-mode error. */
  datatype Flags = Flags(read: bool, write: bool, msb: bool, err: bool)

  /** The lookahead `_currbyte`: a byte, or the `EOF` sentinel. */
  datatype Lookahead = Byte(value: bv8) | AtEof

  datatype BitFile = BitFile(fileobj: Stream, currbyte: Lookahead, bitoffset: int, flags: Flags)

  /** Position snapshot of `bfgetpos`/`bfsetpos`. */
  datatype BfPos = BfPos(byte: int, bit: int)

  /** The low eight bits of `_currbyte` as C sees them: the `EOF` sentinel
      (-1) has all bits set. */
  function ByteValue(l: Lookahead): (b: bv8)
    ensures l.Byte? ==> b == l.value
  {
    match l
    case Byte(v) => v
    case AtEof => 0xFF
  }

  /** C's `%` truncates toward zero. */
  function CRem(a: int, b: int): (r: int)
    requires b > 0
    ensures a >= 0 ==> 0 <= r < b && r == a % b
    ensures a < 0 ==> -b < r <= 0
  {
    if a >= 0 then a % b else -((-a) % b)
  }

  /* --- Bit access --- */

  /** `bfgetbit`: copies the cursor's current bit into bit `offset % 8`
      (order-adjusted) of `dst` and advances the cursor by one bit. */
  function GetBit(dst: bv8, offset: int, bf: BitFile): (r: (bv8, BitFile))
    requires offset >= 0 && 0 <= bf.bitoffset < BYTE_LEN
    ensures ByteBit(r.0, MsbOffset(offset % BYTE_LEN, bf.flags.msb))
            == ByteBit(ByteValue(bf.currbyte), MsbOffset(bf.bitoffset, bf.flags.msb))
    ensures forall q: BitIndex :: q != MsbOffset(offset % BYTE_LEN, bf.flags.msb) ==> ByteBit(r.0, q) == ByteBit(dst, q)
    ensures r.1 == bf.(bitoffset := bf.bitoffset + 1)
  {
    var dstbit := MsbOffset(offset % BYTE_LEN, bf.flags.msb);
    var srcbit := MsbOffset(bf.bitoffset, bf.flags.msb);
    (SetBit(dst, dstbit, ByteBit(ByteValue(bf.currbyte), srcbit)), bf.(bitoffset := bf.bitoffset + 1))
  }

  /** `bfputbit`: copies bit `offset % 8` (order-adjusted) of `src` into the
      cursor's current bit of `currbyte` and advances the cursor by one bit. */
  function PutBit(src: bv8, offset: int, bf: BitFile): (r: BitFile)
    requires offset >= 0 && 0 <= bf.bitoffset < BYTE_LEN && bf.currbyte.Byte?
    ensures r.currbyte.Byte?
    ensures ByteBit(r.currbyte.value, MsbOffset(bf.bitoffset, bf.flags.msb))
            == ByteBit(src, MsbOffset(offset % BYTE_LEN, bf.flags.msb))
    ensures forall q: BitIndex :: q != MsbOffset(bf.bitoffset, bf.flags.msb) ==>
              ByteBit(r.currbyte.value, q) == ByteBit(bf.currbyte.value, q)
    ensures r == bf.(currbyte := r.currbyte, bitoffset := bf.bitoffset + 1)
  {
    var srcbit := MsbOffset(offset % BYTE_LEN, bf.flags.msb);
    var dstbit := MsbOffset(bf.bitoffset, bf.flags.msb);
    bf.(currbyte := Byte(SetBit(bf.currbyte.value, dstbit, ByteBit(src, srcbit))),
        bitoffset := bf.bitoffset + 1)
  }

  /* --- Cursor state --- */

  /** `bfreset`: lookahead zeroed, offset 8 so the first bit operation
      fetches a byte, bit order set; stream and other flags untouched. */
  function Reset(bf: BitFile, msb: bool): (r: BitFile)
    ensures r.fileobj == bf.fileobj && r.currbyte == Byte(0)
    ensures r.flags == bf.flags.(msb := msb)
    ensures Tell(r) == bf.fileobj.pos * BYTE_LEN
  {
    BitFile(bf.fileobj, Byte(0), BYTE_LEN, bf.flags.(msb := msb))
  }

  /** `getByte`: fetches the next stream byte into the lookahead; true at
      end of file, where the lookahead becomes the sentinel. */
  function GetByte(bf: BitFile): (r: (bool, BitFile))
    ensures r.0 <==> bf.fileobj.pos >= |bf.fileobj.data|
    ensures r.0 ==> r.1 == bf.(fileobj := bf.fileobj.(eof := true), currbyte := AtEof)
    ensures !r.0 ==> r.1 == bf.(fileobj := bf.fileobj.(pos := bf.fileobj.pos + 1),
                                currbyte := Byte(bf.fileobj.data[bf.fileobj.pos]))
  {
    var (c, s) := Getc(bf.fileobj);
    if c == EOF then (true, bf.(fileobj := s, currbyte := AtEof))
    else (false, bf.(fileobj := s, currbyte := Byte(c as bv8)))
  }

  /** `bfeof`: the stream's end-of-file indicator or the sentinel lookahead. */
  predicate BfEof(bf: BitFile)
  {
    bf.fileobj.eof || bf.currbyte == AtEof
  }

  /** `bferror`: nonzero for a stream error (1), an access-mode error (1) or
      a negative bit offset (-1); zero otherwise. */
  function BfError(bf: BitFile): (r: int)
    ensures r == 0 <==> !bf.fileobj.err && !bf.flags.err && bf.bitoffset >= 0
    ensures r == -1 <==> !bf.fileobj.err && !bf.flags.err && bf.bitoffset < 0
  {
    if bf.fileobj.err then 1
    else if bf.flags.err then 1
    else if bf.bitoffset >= 0 then 0
    else -1
  }

  /** `clearbferr`: the only way out of the fault state and the end-of-file
      state; the data, the stream cursor and a non-negative offset are kept. */
  function ClearBfErr(bf: BitFile): (r: BitFile)
    ensures BfError(r) == 0 && !BfEof(r)
    ensures r.fileobj.data == bf.fileobj.data && r.fileobj.pos == bf.fileobj.pos && r.fileobj.cap == bf.fileobj.cap
    ensures bf.bitoffset >= 0 ==> r.bitoffset == bf.bitoffset
    ensures bf.currbyte.Byte? ==> r.currbyte == bf.currbyte
    ensures r.flags == bf.flags.(err := false)
  {
    BitFile(Clearerr(bf.fileobj),
            if bf.currbyte == AtEof then Byte(0) else bf.currbyte,
            if bf.bitoffset < 0 then 0 else bf.bitoffset,
            bf.flags.(err := false))
  }

  /** The loop of `alignByte`: while the offset has run past the byte,
      step it back by 8 and fetch the next byte; 1 at end of file. */
  function AlignLoop(bf: BitFile): (r: (int, BitFile))
    requires bf.bitoffset >= 0
    ensures r.0 == 0 || r.0 == 1
    ensures bf.bitoffset < BYTE_LEN ==> r == (0, bf)
    ensures r.0 == 0 ==> 0 <= r.1.bitoffset < BYTE_LEN
    ensures r.0 == 0 && bf.bitoffset >= BYTE_LEN ==>
              1 <= r.1.fileobj.pos <= |r.1.fileobj.data| && r.1.currbyte == Byte(r.1.fileobj.data[r.1.fileobj.pos - 1])
    ensures r.0 == 0 ==> r.1.fileobj.pos * BYTE_LEN + r.1.bitoffset == bf.fileobj.pos * BYTE_LEN + bf.bitoffset
    ensures r.0 == 1 ==> BfEof(r.1) && r.1.fileobj.pos >= |bf.fileobj.data|
    ensures r.1.fileobj.data == bf.fileobj.data && r.1.fileobj.cap == bf.fileobj.cap && r.1.flags == bf.flags
    ensures r.1.fileobj.eof == (bf.fileobj.eof || r.0 == 1)
    decreases bf.bitoffset
  {
    if bf.bitoffset < BYTE_LEN then (0, bf)
    else
      var (eof, next) := GetByte(bf.(bitoffset := bf.bitoffset - BYTE_LEN));
      if eof then (1, next) else AlignLoop(next)
  }

  /** `alignByte`: 2 in the fault state (negative offset), 1 at end of file
      (now or once the next needed byte is missing), 0 once the lookahead
      holds the byte the offset points into. */
  function AlignByte(bf: BitFile): (r: (int, BitFile))
    ensures r.0 == 2 <==> bf.bitoffset < 0
    ensures r.0 == 2 ==> r.1 == bf
    ensures bf.bitoffset >= 0 && BfEof(bf) ==> r == (1, bf)
    ensures r.0 == 0 ==> 0 <= r.1.bitoffset < BYTE_LEN && r.1.currbyte.Byte? && !BfEof(r.1)
    ensures r.0 == 1 ==> BfEof(r.1)
    ensures r.0 != 2 ==> r.1.fileobj.pos * BYTE_LEN + r.1.bitoffset == bf.fileobj.pos * BYTE_LEN + bf.bitoffset || r.0 == 1
    ensures r.1.fileobj.data == bf.fileobj.data && r.1.fileobj.cap == bf.fileobj.cap && r.1.flags == bf.flags
  {
    if bf.bitoffset < 0 then (2, bf)
    else if BfEof(bf) then (1, bf)
    else AlignLoop(bf)
  }

  /** `writeByte`: stores the lookahead at the stream cursor; with `inc`,
      fetches the following byte (zero past the end of the data, with the
      indicators cleared). `EOF` when the store fails, else 1 if end of file
      remains flagged, else 0. */
  function WriteByte(bf: BitFile, inc: bool): (r: (int, BitFile))
    ensures r.0 == EOF <==> bf.fileobj.pos >= bf.fileobj.cap || bf.fileobj.eof
    ensures bf.fileobj.pos >= bf.fileobj.cap ==> r.1.fileobj.err && r.1.fileobj.data == bf.fileobj.data
    ensures bf.fileobj.pos < bf.fileobj.cap ==>
              r.1.fileobj.data == WriteAt(bf.fileobj.data, bf.fileobj.pos, ByteValue(bf.currbyte))
    ensures r.0 == 0 <==> bf.fileobj.pos < bf.fileobj.cap && !bf.fileobj.eof
    ensures r.0 == 0 && inc ==> r.1.currbyte.Byte? && !r.1.fileobj.eof
    ensures r.1.bitoffset == bf.bitoffset && r.1.flags == bf.flags
  {
    var (c, s) := Putc(bf.fileobj, ByteValue(bf.currbyte));
    var written := bf.(fileobj := s, currbyte := if c == EOF then AtEof else Byte(c as bv8));
    if BfEof(written) then (EOF, written)
    else if !inc then (if BfEof(written) then 1 else 0, written)
    else
      var (eof, next) := GetByte(written);
      var next' := if eof then next.(fileobj := Clearerr(next.fileobj), currbyte := Byte(0)) else next;
      (if BfEof(next') then 1 else 0, next')
  }

  /* --- Reading --- */

  /** The main loop of `bfread`: `out` holds the destination bytes started
      so far; each step aligns the lookahead, starts a fresh zero byte every
      eighth bit, and copies one bit. Stops at `n` bits or at end of file. */
  function ReadLoop(bf: BitFile, n: nat, count: nat, out: seq<bv8>): (r: (nat, seq<bv8>, BitFile))
    requires count <= n && |out| == (count + 7) / 8
    ensures count <= r.0 <= n && |r.1| == (r.0 + 7) / 8
    ensures r.0 < n ==> BfEof(r.2) || bf.bitoffset < 0
    ensures r.2.fileobj.data == bf.fileobj.data && r.2.flags == bf.flags
    decreases n - count
  {
    if count == n then (count, out, bf)
    else
      var (code, bf1) := AlignByte(bf);
      if code != 0 then (count, out, bf1)
      else
        DivModByte(count);
        var out1 := if count % BYTE_LEN == 0 then out + [0] else out;
        var (last, bf2) := GetBit(out1[|out1| - 1], count, bf1);
        ReadLoop(bf2, n, count + 1, out1[|out1| - 1 := last])
  }

  /** The tail loop of `bfread` on the last started byte holding `k` bits:
      most-significant-first shifts them down to the low end, otherwise
      clears the bits above them. */
  function FinishByte(b: bv8, k: int, msb: bool): (r: bv8)
    requires 0 < k <= BYTE_LEN
    decreases BYTE_LEN - k
  {
    if k == BYTE_LEN then b
    else FinishByte(if msb then b >> 1 else SetBit(b, k, false), k + 1, msb)
  }

  /** `bfread` of `n` bits into the caller's `ceil(n/8)`-byte buffer `buf`:
      the bit count read, the buffer afterwards, and the new state. Without
      the READ flag nothing is read. */
  function BfRead(bf: BitFile, buf: seq<bv8>, n: nat): (r: (nat, seq<bv8>, BitFile))
    requires n >= 1 && |buf| == CeilDiv(n, BYTE_LEN)
    ensures r.0 <= n && |r.1| == |buf|
    ensures !bf.flags.read ==> r == (0, buf, bf)
    ensures bf.flags.read && r.0 < n ==> BfEof(r.2) || bf.bitoffset < 0
    ensures r.2.fileobj.data == bf.fileobj.data && r.2.flags == bf.flags
  {
    if !bf.flags.read then (0, buf, bf)
    else
      var (count, out, bf1) := ReadLoop(bf, n, 0, []);
      (count, ZeroPad(FinishLast(out, count, bf.flags.msb), |buf|), bf1)
  }

  /** The tail loop of `bfread` applied to the last started byte, when it
      holds fewer than eight bits. */
  function FinishLast(out: seq<bv8>, count: nat, msb: bool): (r: seq<bv8>)
    requires |out| == (count + 7) / BYTE_LEN
    ensures |r| == |out|
  {
    if count % BYTE_LEN != 0
    then out[|out| - 1 := FinishByte(out[|out| - 1], count % BYTE_LEN, msb)]
    else out
  }

  /** The final loop of `bfread`: the destination bytes after the started
      ones are zeroed. */
  function ZeroPad(out: seq<bv8>, size: nat): (r: seq<bv8>)
    requires |out| <= size
    ensures |r| == size && r[..|out|] == out
    ensures forall j :: |out| <= j < size ==> r[j] == 0
  {
    out + seq(size - |out|, _ => 0 as bv8)
  }

  /* --- Writing --- */

  /** The source-bit offset `bfwrite` passes to `bfputbit` for bit `count`:
      the running count plus the final-byte shift. */
  function WriteShift(src: seq<bv8>, n: nat, count: nat, shift: int, msb: bool): (s: int)
    requires count < n && |src| == CeilDiv(n, BYTE_LEN)
  {
    if count % BYTE_LEN == 0 && msb && count / BYTE_LEN == |src| - 1
    then MsbShift(n - count) else shift
  }

  /** One round of the main loop of `bfwrite`: flushes the lookahead when
      the offset has run past it, then copies source bit `count` into it
      with the updated shift. True in the first component when the flush
      fails. */
  function WriteStep(bf: BitFile, src: seq<bv8>, n: nat, count: nat, shift: int): (r: (bool, BitFile, int))
    requires 1 <= n && count < n && |src| == CeilDiv(n, BYTE_LEN)
    requires 0 <= bf.bitoffset && bf.currbyte.Byte? && !bf.fileobj.eof
    requires count > 0 ==> 0 < bf.bitoffset <= BYTE_LEN
    requires shift >= 0
    ensures r.0 ==> r.1.fileobj.err && r.1.bitoffset == bf.bitoffset >= BYTE_LEN
    ensures !r.0 ==> 0 < r.1.bitoffset <= BYTE_LEN && r.1.currbyte.Byte? && !r.1.fileobj.eof && r.2 >= 0
    ensures r.1.flags == bf.flags
  {
    var (code, bf1) := if bf.bitoffset >= BYTE_LEN then WriteByte(bf, true) else (0, bf);
    if code != 0 then (true, bf1, shift)
    else
      var bf2 := if bf.bitoffset >= BYTE_LEN then bf1.(bitoffset := 0) else bf1;
      var shift' := WriteShift(src, n, count, shift, bf.flags.msb);
      (false, PutBit(src[count / BYTE_LEN], shift' + count, bf2), shift')
  }

  /** The main loop of `bfwrite`, one `WriteStep` per bit. The flag reports
      an early return after a failed flush. */
  function WriteLoop(bf: BitFile, src: seq<bv8>, n: nat, count: nat, shift: int): (r: (nat, BitFile, bool))
    requires 1 <= n && count <= n && |src| == CeilDiv(n, BYTE_LEN)
    requires 0 <= bf.bitoffset && bf.currbyte.Byte? && !bf.fileobj.eof
    requires count > 0 ==> 0 < bf.bitoffset <= BYTE_LEN
    requires shift >= 0
    ensures count <= r.0 <= n
    ensures r.2 ==> r.1.fileobj.err && r.0 < n && r.1.bitoffset >= BYTE_LEN && (r.0 > 0 ==> r.1.bitoffset == BYTE_LEN)
    ensures !r.2 ==> r.0 == n && 0 < r.1.bitoffset <= BYTE_LEN && r.1.currbyte.Byte? && !r.1.fileobj.eof
    ensures r.1.flags == bf.flags
    decreases n - count
  {
    if count == n then (count, bf, false)
    else
      var (stalled, next, shift') := WriteStep(bf, src, n, count, shift);
      if stalled then (count, next, true)
      else WriteLoop(next, src, n, count + 1, shift')
  }

  /** Which byte, if any, `bfwrite` failed to store: none, a full lookahead
      flushed inside the loop, or the last one flushed after it. */
  datatype Lost = NoneLost | LostInLoop | LostAtEnd

  /** The preparation of `bfwrite`: align the lookahead, then put the stream
      back on the lookahead's byte (clearing the end-of-file state instead
      when there is no byte). False when the write cannot start: the fault
      state or a failed stream step back. */
  function WriteStart(bf: BitFile): (r: (bool, BitFile))
    ensures r.0 ==> 0 <= r.1.bitoffset && r.1.currbyte.Byte? && !r.1.fileobj.eof
    ensures !r.0 ==> bf.bitoffset < 0 || r.1.fileobj.pos == 0
    ensures r.1.fileobj.data == bf.fileobj.data && r.1.fileobj.cap == bf.fileobj.cap
    ensures r.1.flags.read == bf.flags.read && r.1.flags.write == bf.flags.write && r.1.flags.msb == bf.flags.msb
  {
    var (code, bf1) := AlignByte(bf);
    if code == 2 then (false, bf1)
    else if BfEof(bf1) then (true, ClearBfErr(bf1))
    else
      var (res, s) := Fseek(bf1.fileobj, -1, SeekCur);
      (res == 0, bf1.(fileobj := s))
  }

  /** `bfwrite` on a writable cursor up to its return statement, before the
      count is adjusted for a lost byte: the bits copied into the lookahead,
      the state, and which byte failed to reach the stream. */
  function WriteBody(bf: BitFile, src: seq<bv8>, n: nat): (r: (nat, BitFile, Lost))
    requires n >= 1 ==> |src| == CeilDiv(n, BYTE_LEN)
    ensures r.0 <= n
    ensures r.2 != NoneLost ==> r.1.fileobj.err
    ensures r.2 == LostInLoop ==> r.0 < n && r.1.bitoffset >= BYTE_LEN && (r.0 > 0 ==> r.1.bitoffset == BYTE_LEN)
    ensures r.2 == LostAtEnd ==> r.0 == n && 0 < r.1.bitoffset <= BYTE_LEN
    ensures r.2 == NoneLost && r.0 < n ==> r.0 == 0 && (bf.bitoffset < 0 || r.1.fileobj.pos == 0)
    ensures r.1.flags.read == bf.flags.read && r.1.flags.write == bf.flags.write && r.1.flags.msb == bf.flags.msb
  {
    var (ok, bf2) := WriteStart(bf);
    if !ok || n == 0 then (0, bf2, NoneLost)
    else
      var (count, bf3, stopped) := WriteLoop(bf2, src, n, 0, 0);
      if stopped then (count, bf3, LostInLoop)
      else
        var (code, bf4) := WriteByte(bf3, false);
        (count, bf4, if code != 0 then LostAtEnd else NoneLost)
  }

  /** `bfwrite` of the first `n` bits of `src` (`ceil(n/8)` bytes): the bit
      count committed and the new state. Without the WRITE flag, or with no
      bits to write, nothing changes. When a flush fails, the bits of this
      call held in the lost byte are taken off the count; those are all the
      bits in it when the write started in an earlier byte, and only the
      count itself when the whole write went into that byte. */
  function BfWrite(bf: BitFile, src: seq<bv8>, n: nat): (r: (nat, BitFile))
    requires n >= 1 ==> |src| == CeilDiv(n, BYTE_LEN)
    ensures r.0 <= n
    ensures !bf.flags.write || n == 0 ==> r == (0, bf)
    ensures r.0 < n && bf.flags.write ==> bf.bitoffset < 0 || r.1.fileobj.err || r.1.fileobj.pos == 0
    ensures r.1.flags.read == bf.flags.read && r.1.flags.write == bf.flags.write && r.1.flags.msb == bf.flags.msb
  {
    if !bf.flags.write || n == 0 then (0, bf)
    else
      var (count, bf1, lost) := WriteBody(bf, src, n);
      (if lost == NoneLost then count else count - Min(count, bf1.bitoffset), bf1)
  }

  /** `bfwrite` exactly as the repository writes its count: a flush failing
      inside the loop returns the bits copied so far, lost byte included,
      and a failing final flush subtracts the whole bit offset of the lost
      byte, which also counts the bits that byte held before the call. */
  function BfWriteAsWritten(bf: BitFile, src: seq<bv8>, n: nat): (r: (int, BitFile))
    requires n >= 1 ==> |src| == CeilDiv(n, BYTE_LEN)
    ensures r.0 <= n
    ensures !bf.flags.write ==> r == (0, bf)
    ensures n >= 1 ==> r.1 == BfWrite(bf, src, n).1
  {
    if !bf.flags.write then (0, bf)
    else
      var (count, bf1, lost) := WriteBody(bf, src, n);
      (if lost == LostAtEnd then count - bf1.bitoffset else count, bf1)
  }

  /* --- Positioning --- */

  /** First normalisation loop of `bfseek`: folds whole bytes out of a
      non-negative bit offset. */
  function NormUp(offset: int, byteOffset: int): (r: (int, int))
    ensures r.0 < BYTE_LEN && (offset >= 0 ==> r.0 >= 0)
    ensures r.1 * BYTE_LEN + r.0 == byteOffset * BYTE_LEN + offset
    decreases offset
  {
    if offset >= BYTE_LEN then NormUp(offset - BYTE_LEN, byteOffset + 1) else (offset, byteOffset)
  }

  /** Second normalisation loop of `bfseek`: borrows whole bytes into a
      negative bit offset. */
  function NormDown(offset: int, byteOffset: int): (r: (int, int))
    ensures r.0 >= 0 && (offset < BYTE_LEN ==> r.0 < BYTE_LEN)
    ensures r.1 * BYTE_LEN + r.0 == byteOffset * BYTE_LEN + offset
    decreases -offset
  {
    if offset < 0 then NormDown(offset + BYTE_LEN, byteOffset - 1) else (offset, byteOffset)
  }

  /** The bit offset and byte offset `bfseek` hands on after normalisation;
      seeking from the current position adds the cursor's offset and takes
      one byte off for the lookahead. */
  function SeekNormalise(bf: BitFile, offset: int, whence: Whence): (r: (int, int))
    ensures 0 <= r.0 < BYTE_LEN
    ensures whence != SeekCur ==> r.1 * BYTE_LEN + r.0 == offset
    ensures whence == SeekCur ==> r.1 * BYTE_LEN + r.0 == offset + bf.bitoffset - BYTE_LEN
  {
    var (off, byteOffset) := if whence == SeekCur then (offset + bf.bitoffset, -1) else (offset, 0);
    var up := NormUp(off, byteOffset);
    NormDown(up.0, up.1)
  }

  /** `bfseek` to the bit `offset` relative to `whence`: the stream seeks to
      the whole byte (its failure is ignored), the lookahead is refilled;
      0 on success, 1 at end of file with the offset reset to 0. */
  function BfSeek(bf: BitFile, offset: int, whence: Whence): (r: (int, BitFile))
    ensures r.0 == 0 || r.0 == 1
    ensures 0 <= r.1.bitoffset < BYTE_LEN
    ensures r.0 == 1 <==> BfEof(r.1) && r.1.currbyte == AtEof
    ensures r.1.fileobj.data == bf.fileobj.data && r.1.flags == bf.flags
  {
    var (off, byteOffset) := SeekNormalise(bf, offset, whence);
    var (_, s) := Fseek(bf.fileobj, byteOffset, whence);
    var (eof, bf1) := GetByte(bf.(fileobj := s, bitoffset := off));
    if !eof then (0, bf1) else (1, bf1.(bitoffset := 0))
  }

  /** `bftell`: the logical bit position, one byte behind the stream. */
  function Tell(bf: BitFile): (t: int)
    ensures 0 <= bf.bitoffset < BYTE_LEN ==> (bf.fileobj.pos - 1) * BYTE_LEN <= t < bf.fileobj.pos * BYTE_LEN
    ensures bf.bitoffset == BYTE_LEN ==> t == bf.fileobj.pos * BYTE_LEN
  {
    bf.fileobj.pos * BYTE_LEN + bf.bitoffset - BYTE_LEN
  }

  /** `bfrewind`: stream to its start with indicators cleared, cursor reset
      keeping the bit order. */
  function BfRewind(bf: BitFile): (r: BitFile)
    ensures Tell(r) == 0 && r.fileobj.pos == 0 && !BfEof(r) && r.fileobj.data == bf.fileobj.data
    ensures r.flags == bf.flags
  {
    Reset(bf.(fileobj := Rewind(bf.fileobj)), bf.flags.msb)
  }

  /** `bfgetpos`: the snapshot and the status, -1 in the fault state. */
  function BfGetPos(bf: BitFile): (r: (int, BfPos))
    ensures r.0 == 0 <==> bf.bitoffset >= 0
    ensures r.0 == -1 <==> bf.bitoffset < 0
    ensures bf.bitoffset >= 0 ==> 0 <= r.1.bit < BYTE_LEN && r.1.byte * BYTE_LEN + r.1.bit == Tell(bf)
  {
    var byte := bf.fileobj.pos - 1;
    var bit := CRem(bf.bitoffset, BYTE_LEN);
    var byte' := if bf.bitoffset >= BYTE_LEN then byte + bf.bitoffset / BYTE_LEN else byte;
    (if bf.bitoffset < 0 then -1 else 0, BfPos(byte', bit))
  }

  /** `bfsetpos`: rejects a bit outside 0..7 with 1 and no change; otherwise
      seeks the stream to the byte, sets the offset and refills the
      lookahead (1 at end of file); a negative byte fails the stream seek. */
  function BfSetPos(bf: BitFile, p: BfPos): (r: (int, BitFile))
    ensures !(0 <= p.bit < BYTE_LEN) ==> r == (1, bf)
    ensures 0 <= p.bit < BYTE_LEN && p.byte < 0 ==> r.0 != 0 && r.1 == bf
    ensures 0 <= p.bit < BYTE_LEN && 0 <= p.byte < |bf.fileobj.data| ==>
              r.0 == 0 && Tell(r.1) == p.byte * BYTE_LEN + p.bit
              && r.1.currbyte == Byte(bf.fileobj.data[p.byte])
    ensures r.1.fileobj.data == bf.fileobj.data && r.1.flags == bf.flags
  {
    if p.bit < 0 || p.bit >= BYTE_LEN then (1, bf)
    else
      var (res, s) := Fseek(bf.fileobj, p.byte, SeekSet);
      if res != 0 then (res, bf.(fileobj := s))
      else
        var (eof, bf1) := GetByte(bf.(fileobj := s, bitoffset := p.bit));
        (if eof then 1 else 0, bf1)
  }
}
