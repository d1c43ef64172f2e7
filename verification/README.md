# bitfile in Dafny

A model of the bit cursor of `bathtaters/bitfile`. The cursor is the
`BITFILE` of `src/bitfile.c`, which gives bit-granular read, write and seek
access over a byte stream in either bit order. The model also covers the
earlier least-significant-first `BitReader` of `src/readbits.c`.

Every C routine is a pure transition over an immutable state:

- **The stream (`ByteStream`).** The `FILE*` becomes a record holding:
  - the medium's bytes;
  - the stream cursor;
  - the end-of-file and error indicators;
  - a capacity, standing for any underlying write failure.

  `getc`, `putc`, `fseek`, `rewind` and `clearerr` are functions on that
  record. A negative seek target fails and leaves the stream unchanged.
- **The cursor (`BitCursor`).** Its state is the stream, the one-byte
  lookahead (a byte or the `EOF` sentinel), the signed bit offset, and the
  READ/WRITE/MSB/ERR flags. The invariant that the stream sits one byte past
  the logical byte is the predicate `BitRead.Synced`.
- **What the cursor should do.** Two kinds of reference definition pin it down:
  - a logical bit sequence of the medium in the cursor's bit order
    (`BitSpec.Bits`);
  - the destination a read of `k` bits should produce (`BitSpec.ReadSpec`).

  The theorems relate `bfread`, `bfwrite`, `bfseek`, `bfgetpos`/`bfsetpos`
  and `bfrewind` to those references.
- **The test suites.** They become lemmas whose values are derived from the
  theorems, not computed by running the model:
  - over the four-byte medium "tuvw" (`BitFileExamples`);
  - over the same file for the bit reader (`ReaderExamples`).

Modules:
- `BitOps` holds `MSB_OFFSET`, `MSB_SHIFT` and single-bit access.
- `BitRead`, `BitPosition`, `BitWrite` and `WriteRead` hold the read,
  position, write and write-then-read theorems.
- `WriteFindings` holds the concrete counterexamples for the findings below.
- `BitUtils` holds `swapendian`, `isIn` and `copyByteAccessMode`.
- `ReadBits` and `ReaderProps` hold the bit reader and its theorems.

Behaviour of the C worth knowing:

- **Seeking before the start.** `bfseek` (src/bitfile.c:166-196) takes one
  signed bit offset. For a target before the start, the `fseek` at
  src/bitfile.c:189 fails and its result is ignored. The normalised offset is
  stored, and the lookahead is refilled from wherever the stream already was
  (`BitPosition.BfSeekBeforeStart`). None of the modelled
  routines makes the bit offset negative.
- **The negative offset.** `bferror` reports it as -1 (src/bitfile.c:245-247), and
  `alignByte` refuses it (src/bitfile.c:400-404). The model accepts such a
  cursor as an input state.
- **Rewinding keeps ERR.** `bfrewind` (src/bitfile.c:203-207) goes through
  `bfreset` (src/bitfile.c:352-358), which keeps every flag but MSB, so an
  invalid-mode error survives a rewind.
- **Failed writes can miscount.** `bfwrite`'s count (src/bitfile.c:129,
  src/bitfile.c:148) is wrong in two cases: a flush inside the loop fails, or
  the final flush fails on a byte the call began inside. When only the final
  flush fails, on a byte the call began at its start, the count is right
  (`BitWrite.AsWrittenExactWhen`). See "Findings".
- **A read at the end steps back.** `alignByte` lowers the offset before it
  fetches (src/bitfile.c:410-411). A read attempted at the very end of the
  medium therefore leaves `bftell` one byte early
  (`BitPosition.ReadAtEndStepsBack`).
- **Snapshots at the end do not restore.** `bfsetpos` refills the lookahead
  after seeking (src/bitfile.c:233-234). For a snapshot at the end of the
  medium that refill finds no byte, so it returns 1 with `bftell` one byte
  short (`BitPosition.GetSetPosPastEnd`).
- **Headers that do not match the code.** The model follows the code:
  - `src/bitfile.h:69` declares a `bfseek` with a different signature from
    the one at src/bitfile.c:166.
  - `src/readbits.h:17-42` declares a different `BitReader` and different
    signatures from src/readbits.c.
- **Names the source never defines.**
  - `BF_FLAG_*` becomes a record of booleans.
  - `BIT_LIMIT` is 64, the width of `getBits`' result.
  - `bsize_t`, `bpos_t` and `fpos_t` become mathematical integers.

## Model

| member | source | states |
|---|---|---|
| BitOps.MsbOffset | src/bitfile.c:6 | logical offset b maps to physical bit 7-b most-significant-first and to b otherwise |
| BitOps.MsbOffsetInvolution | src/bitfile.c:6 | MSB_OFFSET applied twice is the identity, so it is a bijection on 0..7 |
| BitOps.MsbOffsetInjective | src/bitfile.c:6 | distinct logical offsets map to distinct physical bits |
| BitOps.MsbShift | src/bitfile.c:8 | MSB_SHIFT of a final byte with n meaningful bits is its number of unused high bits, 8-n, and 0 for a full byte |
| BitOps.CeilDiv | src/bitfile.h:27 | CEIL_DIV of a positive count is the least number of bytes holding it |
| BitOps.SetBit | src/bitfile.c:347-348 | forcing one bit sets exactly that bit and keeps the other seven |
| BitCursor.ByteValue | src/bitfile.c:335 | the byte C tests the lookahead's bits in is the held byte itself when one is held |
| BitCursor.CRem | src/bitfile.c:214 | C's `%` truncates toward zero: a result in 0..b-1 for a non-negative dividend, in -(b-1)..0 otherwise |
| BitCursor.GetBit | src/bitfile.c:329-337 | `bfgetbit` copies the cursor's current order-adjusted bit into the order-adjusted bit `offset % 8` of the destination, keeps its other seven bits and advances the offset by one |
| BitCursor.PutBit | src/bitfile.c:341-349 | `bfputbit` copies the order-adjusted source bit into the cursor's current bit of the lookahead, keeps its other seven bits and advances the offset by one |
| BitCursor.Reset | src/bitfile.c:352-358 | `bfreset` zeroes the lookahead and sets the bit order; `bftell` is then the stream position in bits; the stream and other flags are kept |
| BitCursor.GetByte | src/bitfile.c:371-376 | `getByte` reports end of file exactly when the stream has no byte left, then holding the sentinel; otherwise it holds the next byte and the stream advances |
| BitCursor.BfError | src/bitfile.c:240-248 | `bferror` is 0 exactly when neither indicator is set and the offset is non-negative, and -1 exactly for a negative offset with no indicator |
| BitCursor.ClearBfErr | src/bitfile.c:257-263 | after `clearbferr` neither `bferror` nor `bfeof` reports anything; the data, stream position, a non-negative offset and a held byte are kept |
| BitCursor.BfEof | src/bitfile.c:250-255 | `bfeof` holds when the stream's end-of-file indicator is set or the lookahead holds the `EOF` sentinel; `BitRead.AlignSynced` and `BitRead.BfReadAtEof` state what it means for a read |
| BitCursor.AlignLoop | src/bitfile.c:408-412 | the loop keeps the absolute bit position `pos * 8 + offset` and ends aligned on the byte just behind the stream, or at end of file |
| BitCursor.AlignByte | src/bitfile.c:398-414 | `alignByte` returns 2 exactly for a negative offset, 1 with nothing changed once at end of file, and 0 only with an aligned offset and a held byte at the same bit position |
| BitCursor.WriteByte | src/bitfile.c:382-395 | `writeByte` fails with EOF exactly when the stream has no room or is at end of file; with room the medium holds the lookahead at the stream cursor; 0 with `inc` leaves a held byte |
| BitCursor.ReadLoop | src/bitfile.c:81-89 | the read loop counts between its start and n bits, stops short only at end of file or in the fault state, and starts one destination byte per eight bits |
| BitCursor.FinishByte | src/bitfile.c:92-96 | the tail loop of `bfread` on a byte that received k bits, one step per missing bit; `BitRead.FinishByteMsb` and `BitRead.FinishByteLsb` state its result |
| BitCursor.FinishLast | src/bitfile.c:91-96 | the tail loop applies only to the last started byte, and only when it received fewer than eight bits; the buffer keeps its length |
| BitCursor.BfRead | src/bitfile.c:67-101 | `bfread` returns at most n bits into a buffer of unchanged size; without READ it does nothing; a short count means end of file or the fault state |
| BitCursor.ZeroPad | src/bitfile.c:98 | the final loop keeps the started bytes and zeroes every later byte |
| BitCursor.WriteShift | src/bitfile.c:133-141 | the shift update of the write loop: at the start of the last source byte, most significant first, MSB_SHIFT of the bits left, otherwise the shift unchanged; `BitWrite.ShiftStep` states which source bit it selects |
| BitCursor.WriteStep | src/bitfile.c:126-144 | one round of the write loop either fails its flush with the offset past the byte, or copies one bit, leaving a held byte and an offset in 1..8 |
| BitCursor.WriteLoop | src/bitfile.c:124-145 | the write loop ends after all n bits with a held byte, or early after a failed flush with the stream's error indicator set |
| BitCursor.WriteStart | src/bitfile.c:117-122 | the write starts only with a non-negative offset, a held byte and no end of file; it fails only in the fault state or when the stream cannot step back |
| BitCursor.WriteBody | src/bitfile.c:111-148 | which byte, if any, failed to reach the stream, with the bits copied up to that point |
| BitCursor.BfWrite | src/bitfile.c:103-150 | corrected: `bfwrite` commits at most n bits; without WRITE, or for zero bits, it changes nothing; a short count means the fault state, a stream error or a failed step back |
| BitCursor.BfWriteAsWritten | src/bitfile.c:103-150 | the count the source computes at src/bitfile.c:129 and src/bitfile.c:148, as a mathematical integer, never exceeds n; for a write of at least one bit, the write leaves the same state as the corrected write |
| BitCursor.NormUp | src/bitfile.c:178-182 | the upper loop keeps `byte * 8 + bit` and ends with the bit offset below 8 |
| BitCursor.NormDown | src/bitfile.c:183-187 | the lower loop keeps `byte * 8 + bit` and ends with a non-negative bit offset |
| BitCursor.SeekNormalise | src/bitfile.c:168-187 | the normalised offset lies in 0..7 and with the byte offset spells the requested position; from the current position the cursor's offset is added and one byte taken off |
| BitCursor.BfSeek | src/bitfile.c:166-196 | `bfseek` returns 0 or 1, leaves the offset in 0..7, and returns 1 exactly when the refill hit end of file |
| BitCursor.Tell | src/bitfile.c:198-201 | `bftell` is the logical position one byte behind the stream: inside the byte just before the stream cursor while the lookahead is in use, and at the start of the stream's byte once the lookahead is spent |
| BitCursor.BfRewind | src/bitfile.c:203-207 | after `bfrewind`, `bftell` is 0, the stream is at its start with no end of file, and the flags are kept |
| BitCursor.BfGetPos | src/bitfile.c:209-220 | `bfgetpos` fails with -1 exactly in the fault state; otherwise the snapshot's bit lies in 0..7 and `byte * 8 + bit` equals `bftell` |
| BitCursor.BfSetPos | src/bitfile.c:222-235 | `bfsetpos` rejects a bit outside 0..7 with 1 and no change; a negative byte fails and changes nothing; a byte inside the medium lands `bftell` on the snapshot and holds that byte |
| ByteStream.Open | src/bitfile.c:22-36 | a freshly opened stream holds the medium's bytes, stands at its start, and has both indicators clear |
| ByteStream.Getc | src/bitfile.c:373 | `getc` returns the byte at the cursor and advances, or EOF with the end-of-file indicator set |
| ByteStream.Putc | src/bitfile.c:385 | `putc` overwrites or extends at the cursor and advances; beyond the capacity it fails with EOF and sets the error indicator |
| ByteStream.WriteAt | src/bitfile.c:385 | the stored byte lands at the cursor, every other byte is kept, and a gap past the end is zero-filled |
| ByteStream.SeekTarget | src/bitfile.c:189 | the absolute byte a stream seek names: the offset itself, the offset from the stream cursor, or the offset from the end of the data; `ByteStream.Fseek` fails exactly when it is negative |
| ByteStream.Fseek | src/bitfile.c:189 | `fseek` fails exactly for a target before the start, leaving the stream unchanged; otherwise it moves there and clears end of file |
| ByteStream.Rewind | src/bitfile.c:205 | `rewind` returns to the start with both indicators cleared |
| ByteStream.Clearerr | src/bitfile.c:262 | `clearerr` clears both indicators and nothing else |
| BitSpec.BitsAt | src/bitfile.c:331-332 | logical bit q of byte i of the medium is physical bit MSB_OFFSET(q) of that byte |
| BitSpec.PackBitsBits | src/bitfile.c:92-96 | bit p of a packed byte is the bit the numeral of the run puts there: big-endian most-significant-first, little-endian otherwise |
| BitSpec.DestByteBits | src/bitfile.c:81-96 | bit p of destination byte j is the read bit placed there: big-endian most-significant-first, little-endian otherwise, and 0 where no bit lands |
| BitSpec.ReadSpecBits | src/bitfile.c:81-98 | every byte of the reference destination, inside the bytes read or in the zeroed tail, holds exactly the expected bit at each position |
| BitSpec.ReadSpecUnique | src/bitfile.c:81-98 | a destination agreeing bit for bit with the expected placement of the read bits is the reference destination |
| BitSpec.AlignedByteReadsItself | src/bitfile.test.c:16-20 | a whole byte read from a byte boundary is that byte in either bit order |
| BitRead.AlignSynced | src/bitfile.c:398-414 | on a cursor in step, `alignByte` succeeds exactly while bits remain, keeping `bftell` and the cursor in step; otherwise it reports end of file |
| BitRead.CurrentBit | src/bitfile.c:200 | the bit under an aligned cursor in step is the medium's bit at `bftell` |
| BitRead.FinishByteMsb | src/bitfile.c:92-94 | most-significant-first, the tail loop moves the k received bits from the top of the byte to its low end |
| BitRead.FinishByteLsb | src/bitfile.c:92-95 | least-significant-first, the tail loop keeps the k low bits and clears the rest |
| BitRead.ReadLoopSynced | src/bitfile.c:81-89 | from a cursor in step at bit `from`, the read loop receives every bit up to n or the end of the medium and stays in step n bits on, or stops at end of file |
| BitRead.DestinationExpected | src/bitfile.c:91-98 | after the loop, the tail loop and the zero fill, the buffer is the reference destination of the received bits |
| BitRead.BfReadSynced | src/bitfile.c:67-101 | from a cursor in step, `bfread` returns min(n, bits remaining) bits, exactly the reference destination of the medium's bits from `bftell`, with every later bit zero |
| BitRead.BfReadAtEof | src/bitfile.c:84-98 | once at end of file, `bfread` returns 0, zeroes the whole destination and changes nothing |
| BitRead.BfReadFault | src/bitfile.c:84-98 | in the fault state, `bfread` returns 0, zeroes the whole destination and changes nothing |
| BitPosition.SeekAim | src/bitfile.c:168-189 | the byte handed to the stream seek and the normalised bit offset together name the requested absolute bit position |
| BitPosition.BfSeekLands | src/bitfile.c:166-196 | a seek whose target byte exists returns 0 with the cursor in step and `bftell` at the requested bit |
| BitPosition.BfSeekPastEnd | src/bitfile.c:189-195 | a seek whose target byte lies at or past the end returns 1, at end of file, with the offset 0 |
| BitPosition.BfSeekBeforeStart | src/bitfile.c:183-193 | a seek before the start is not an error: the failed stream seek is ignored and the cursor lands in the byte the stream was already on, at the normalised offset |
| BitPosition.GetSetPosRoundTrip | src/bitfile.c:209-235 | `bfsetpos` with the snapshot from `bfgetpos`, on any cursor over the same medium, returns 0, in step, with the same `bftell` |
| BitPosition.RestoredReadsAlike | src/bitfile.c:209-235 | after restoring a snapshot, whatever happened in between, a read returns the same count and bits as reading straight away |
| BitPosition.GetSetPosPastEnd | src/bitfile.c:209-235 | a snapshot whose byte lies at or past the end of the medium does not restore: `bfsetpos` returns 1 at end of file with `bftell` a whole byte short of the snapshot |
| BitPosition.ReadAtEndStepsBack | src/bitfile.c:67-101 | a read from a cursor in step at the very end of the medium returns no bits and leaves `bftell` a whole byte earlier, because `alignByte` lowers the offset before its fetch fails (src/bitfile.c:410-411) |
| BitPosition.AfterEofRestoreRereads | src/bitfile.c:209-235 | after such a read, restoring the snapshot taken then reads the last byte again, min(n, 8) bits, where reading on returns none |
| BitPosition.RewoundSynced | src/bitfile.c:203-207 | a rewound cursor is in step at bit 0 |
| BitWrite.ShiftAt | src/bitfile.c:115-141 | the shift the write holds is 0 before the last source byte and MSB_SHIFT of its meaningful bits on it |
| BitWrite.ShiftStep | src/bitfile.c:134-144 | the loop's shift update follows `ShiftAt`, and the offset handed to `bfputbit` selects the source bit the write should emit next, the low bits of a partial last byte most significant first |
| BitWrite.WriteBits | src/bitfile.c:124-145 | an n-bit write emits exactly n bits |
| BitWrite.StopAt | src/bitfile.c:124-131 | during an append the stream never passes the byte where the medium runs out of room, and stands on it once there is none |
| BitWrite.LoopEndsAt | src/bitfile.c:124-145 | a write loop that ran through stands on the byte holding its last bit, with a held byte, no end of file, and never past the first byte with no room |
| BitWrite.AppendWrites | src/bitfile.c:103-150 | a write from a cursor in step at the end of the medium splices exactly the counted bits in from `bftell`; the count is every bit or those before the first byte with no room |
| BitWrite.BfWriteAtEnd | src/bitfile.c:103-150 | an append commits min(n, room) bits, splices exactly those into the medium from `bftell` keeping every other bit, sets the error indicator when short, and when complete leaves the cursor in step n bits on |
| BitWrite.BfWriteAsWrittenAtEnd | src/bitfile.c:124-150 | as written, the append leaves the same state but reports `Reported`: every bit when all fit; when only the final flush fails, the bits from the start of the write to the start of the lost byte, negative when the write began inside it; when a flush inside the loop fails, the bits copied so far, the lost byte's included |
| BitWrite.AsWrittenExactWhen | src/bitfile.c:124-150 | the count as written equals the bits committed exactly when no flush inside the loop fails (the bits reach no further than the first byte with no room) and the write did not begin inside that byte |
| WriteRead.Meaningful | src/bitfile.c:137-144 | the part of the source a write takes: every byte whole, only the low n mod 8 bits of a partial last byte |
| WriteRead.ReadsBackWritten | src/bitfile.c:92-96 | reading back the bits a write spliced in, from where they begin, gives the meaningful part of the source |
| WriteRead.WriteThenRead | src/bitfile.c:67-150 | a complete append, a seek back to where it began and a read of as many bits return every bit and the meaningful part of the source, in either bit order |
| WriteFindings.FinalFlushUnderflow | src/bitfile.c:148 | a one-bit write five bits into a byte whose final flush fails reports -5 as written; the corrected count is 0 |
| WriteFindings.LoopFlushOvercount | src/bitfile.c:127-131 | a sixteen-bit write whose first flush fails reports 8 as written; the corrected count is 0 |
| WriteFindings.ZeroBitWriteMoves | src/bitfile.c:117-124 | a zero-bit write as written steps the stream back, moving `bftell` eight bits back and leaving the cursor out of step; the corrected write changes nothing |
| BitFileExamples.ReadStep | src/bitfile.c:67-101 | one read from a ready cursor returns min(n, bits remaining) bits, the reference destination, and a cursor ready at the following bit |
| BitFileExamples.MachineMatchesSpec | src/bitfile.c:67-101 | any sequence of reads from a ready cursor yields the reference counts and destinations of consecutive runs of the medium's bits |
| BitFileExamples.TuvwMatches | src/bitfile.test.c:16-56 | any sequence of positive read counts from a fresh cursor over "tuvw" yields the reference outcome over that file's bits |
| BitFileExamples.WholeByte | src/bitfile.test.c:16-20 | reading 8, 8, 8, 8 bits of "tuvw" gives 116, 117, 118, 119 in either bit order |
| BitFileExamples.PartialByteLsb | src/bitfile.test.c:22-25 | reading 6, 4, 3, 6, 3, 4, 5, 1 bits least-significant-first gives 52, 5, 5, 51, 6, 13, 29, 0 |
| BitFileExamples.PartialByteMsb | src/bitfile.test.c:22-26 | the same counts most-significant-first give 29, 1, 6, 43, 5, 9, 27, 1 |
| BitFileExamples.MultiByteLsb | src/bitfile.test.c:28-31 | reading 12, 17, 3 bits least-significant-first gives {116,5}, {103,119,1}, {3} |
| BitFileExamples.MultiByteMsb | src/bitfile.test.c:28-32 | the same counts most-significant-first give {116,7}, {87,103,0}, {7} |
| BitFileExamples.SeekSetThenRead | src/bitfile.test.c:34-38 | after seeking to bit 16 from the start, 16 bits read as {118,119} |
| BitFileExamples.SeekCurThenRead | src/bitfile.test.c:34-39 | after seeking -8 bits from the current position of a fresh cursor, `bftell` is still 0 and 16 bits read as {116,117} |
| BitFileExamples.SeekEndThenRead | src/bitfile.test.c:34-40 | after seeking -24 bits from the end, 16 bits read as {117,118} |
| BitFileExamples.ShortRead | src/bitfile.test.c:42-44 | a 66-bit read returns 32 bits and {116,117,118,119,0,0,0,0,0} |
| BitFileExamples.ReadAfterEof | src/bitfile.test.c:54-56 | reads of 8, 8, 64, 2 bits return 8, 8, 16, 0 bits with {116}, {117}, {118,119,0,...}, {0} |
| BitUtils.Reverse | src/bitfile.c:276-284 | element i of the reversal is element len-1-i of the input |
| BitUtils.ReverseReverse | src/bitfile.c:276-284 | reversing twice is the identity |
| BitUtils.SwapEndian | src/bitfile.c:268-285 | the mirror swaps below half the length reverse the first CEIL_DIV(n, 8) bytes and keep every later byte |
| BitUtils.SwapEndianInvolution | src/bitfile.c:268-285 | swapping twice restores the buffer |
| BitUtils.SwapEndianSingleByte | src/bitfile.c:272-277 | for n of at most 8 the buffer is unchanged |
| BitUtils.IsIn | src/bitfile.c:319-326 | `isIn` is true exactly when the value occurs in the array |
| BitUtils.CString | src/bitfile.c:422 | the string `strlen` measures is the buffer up to its first NUL |
| BitUtils.LetterFlags | src/bitfile.c:439-455 | `+` adds read and write (the switch falls through into `r`), `r` read, `w` and `a` write |
| BitUtils.CopyByteAccessModeAsWritten | src/bitfile.c:420-462 | an error exactly when the string is not a mode letter followed by at most two `+`/`b` letters; otherwise read iff `r` or `+` occurs, write iff `w`, `a` or `+` occurs, and the input with `b` appended unless present |
| BitUtils.RepeatedPlusOverflows | src/bitfile.c:420-462 | `r++` is accepted as written and stores `r++b`, whose NUL no longer fits the four-byte buffer |
| BitUtils.ExpectedModesListed | src/bitfile.c:416-419 | a mode letter followed by at most one `+` and at most one `b` is exactly one of the fifteen modes the comment lists |
| BitUtils.CopyByteAccessMode | src/bitfile.c:416-462 | corrected: an error exactly for a string outside the fifteen listed modes; the same flags and appended `b` otherwise, with the stored mode and its NUL always fitting the buffer |
| ReadBits.LsbValueBits | src/readbits.c:32 | bit i of the numeral of a bit run is the run's i-th bit, and every bit from its length up is clear |
| ReadBits.LsbValueBound | src/readbits.c:22-36 | the numeral of an n-bit run is below 2^n |
| ReadBits.LsbValueSnoc | src/readbits.c:32 | one more bit at the top adds its weight 2^len |
| ReadBits.ShlIsMul | src/readbits.c:32 | a left shift by n multiplies by 2^n |
| ReadBits.LsbValueAppend | src/readbits.c:22-36 | the numeral of two runs is the first's plus the second's shifted left by the first's length |
| ReadBits.GetByte | src/readbits.c:104-116 | `getByte` fetches the byte at the stream position and advances; at end of file it returns 1 and clears `canRead` |
| ReadBits.GetBit | src/readbits.c:119-124 | `getBit` returns the bit at the offset of the held byte and advances the offset |
| ReadBits.AlignLoop | src/readbits.c:25-29 | the alignment loop ends with an offset in 0..7 and `canRead` unchanged, or hits end of file and clears `canRead` |
| ReadBits.ReadLoop | src/readbits.c:22-36 | the bit loop keeps the file's data, and leaves a file attached with the bit offset in 0..8; `ReaderProps.ReadLoopReads` states the value it returns |
| ReadBits.SeekNormUp | src/readbits.c:55-59 | the upper loop keeps `byte * 8 + bit`; it only runs above 8, so a bit offset of 8 is left as it is |
| ReadBits.SeekNormDown | src/readbits.c:60-64 | the lower loop keeps `byte * 8 + bit` and ends with a non-negative bit offset |
| ReadBits.SeekNormalise | src/readbits.c:54-64 | both loops keep `byte * 8 + bit` and end with the bit offset in 0..8, 8 included |
| ReadBits.SeekBits | src/readbits.c:40-73 | without a file `seekBits` changes nothing; with one the data is kept and the reader stays usable |
| ReadBits.GetBits | src/readbits.c:6-37 | a reader that cannot read returns 0 and is unchanged; the data is kept and the reader stays usable |
| ReadBits.NewBitReader | src/readbits.c:76-84 | a reader without a file cannot read; with one it reads that file's data |
| ReaderProps.HeldBit | src/readbits.c:119-124 | the bit at an in-step offset is the next bit of the file, each byte read lowest bit first |
| ReaderProps.AlignInStep | src/readbits.c:25-29 | from an in-step reader the alignment loop keeps the position when a bit remains and hits end of file exactly when none does |
| ReaderProps.ReadLoopReads | src/readbits.c:22-36 | the bit loop returns the numeral of the next `count` bits with the reader in step past them, or of every remaining bit with `canRead` cleared |
| ReaderProps.GetBitsReads | src/readbits.c:6-37 | up to BIT_LIMIT bits, `getBits` returns the numeral of the next bits, first bit lowest, and stays readable just past them; past the end it returns the numeral of the rest and stops being readable |
| ReaderProps.GetBitsPacks | src/readbits.c:22-36 | bit i of a complete read is the i-th file bit from the cursor, and the result is below 2^bitCount |
| ReaderProps.GetBitsDelegates | src/readbits.c:15-20 | a request above BIT_LIMIT returns exactly what BIT_LIMIT bits return after the reader skips the excess from its current position |
| ReaderProps.SeekBitsLands | src/readbits.c:40-73 | a seek to a byte inside the file makes the reader readable and in step at `8 * target + bit`, the current offset added from the current position |
| ReaderProps.SeekCurOvershoots | src/readbits.c:49-72 | a seek from the current position lands one whole byte past the bit it names |
| ReaderProps.SeekBitsPastEnd | src/readbits.c:66-69 | a seek to a byte at or past the end leaves the reader unable to read |
| ReaderProps.SeekBitsBeforeStart | src/readbits.c:60-72 | a seek before the start fails unnoticed; the byte at the unchanged stream position is fetched, with the normalised offset |
| ReaderProps.NewBitReaderStarts | src/readbits.c:76-84 | a reader over a non-empty file is readable at bit 0; over an empty file it is not |
| ReaderProps.GetBitsOverLimit | src/readbits.c:15-20 | above BIT_LIMIT, the BIT_LIMIT bits returned start one byte plus the excess past the cursor |
| ReaderExamples.ReaderMatchesSpec | src/readbits.c:6-37 | any sequence of reads up to BIT_LIMIT returns the numerals of consecutive runs of the file's bits, then zero once the file is exhausted |
| ReaderExamples.UnopenedReadsZero | src/readbits.c:10-14 | a reader whose file failed to open returns zero for every read |
| ReaderExamples.WholeBytes | src/readbits.test.c:13-15 | 8, 8, 8, 8 bits of "tuvw" read 116, 117, 118, 119 |
| ReaderExamples.PartialBytes | src/readbits.test.c:18-20 | 6, 4, 3, 6, 3, 4, 5, 1 bits read 52, 5, 5, 51, 6, 13, 29, 0 |
| ReaderExamples.MultiByte | src/readbits.test.c:23-25 | 12, 17, 3 bits read 1396, 96103, 3 |
| ReaderExamples.OverLimit | src/readbits.test.c:28-30 | a 65-bit request returns 3914554 |
| ReaderExamples.ReadPastEnd | src/readbits.test.c:38-40 | 8, 8, 64, 2 bits read 116, 117, 30582, 0 |
| ReaderExamples.MissingFile | src/readbits.test.c:48-50 | a reader of a missing file reads 0 and 0 |

## Left out

- `bfopen`, `bfclose`, `bfreopen`, `tmpbitfile`, `bfflush`, `setbfbuf` and `freeBitReader` are I/O plumbing around the core. The stream is a value: opening one is `ByteStream.Open`, and `newBitReader`'s `fopen` becomes a parameter that is `NoFile` when the open fails.
- The missing-file test of src/bitfile.test.c:67-69 needs `bfopen`, so it is not modelled. The bit reader's missing-file test is.
- The stray one-byte `fread`/`fwrite` in the not-readable and not-writable branches (src/bitfile.c:71, src/bitfile.c:107) is not modelled. Only the 0 return and the unchanged cursor are.
- `errno` assignments are not modelled. They are a global side channel, and every error is visible in the returned values.
- The `printf` diagnostics of `src/readbits.c`, `printbin` and `fprintbin` are not modelled. They only format output.
- `incBitOffset` is not modelled, because nothing calls it.
- The overwrite round trip is not modelled. After each flush `writeByte` calls `getc` with no reposition, which C leaves undefined, and over existing data this runs two bytes ahead. `BitCursor.BfWrite` models every state, but the write theorems assume a cursor in step at the end of the medium.
- Fixed-width integers are mathematical integers: the `int8_t` bit offset, `bsize_t`, `bpos_t` and `fpos_t`. Their overflow is not modelled.
- BitPosition.GetSetPosRoundTrip: holds only for a snapshot whose byte lies inside the medium. At the end of the medium `bfsetpos` returns 1 and `bftell` lands a byte short (src/bitfile.c:213-217, src/bitfile.c:233-234), as `BitPosition.GetSetPosPastEnd` states.
- BitPosition.RestoredReadsAlike: requires a cursor in step with its snapshot byte inside the medium. A cursor that has read to the very end is excluded, and so is one after a read has run into end of file. There `alignByte` has already lowered the offset (src/bitfile.c:410-411), so the snapshot names the last byte, and restoring it reads that byte again where reading on returns nothing (`BitPosition.AfterEofRestoreRereads`).
- BitCursor.BfWriteAsWritten: its count is a mathematical integer. `bsize_t` is defined nowhere in the source; if it is unsigned, the negative count of the first finding wraps to a huge value.
- BitCursor.BfRead: requires at least one bit, because `CEIL_DIV(0, 8)` wraps for an unsigned count and the C destination size is then meaningless.
- BitUtils.SwapEndian: requires at least one bit, for the same `CEIL_DIV(0, 8)` reason.
- ReadBits.GetBits: models `getBit(br) << resOffset` as the intended 64-bit shift, returning the numeral of the bits read. In C this is an `int` shift, undefined from bit 31.
- ReadBits.GetBits: the count is the C `char` it is passed as, -128..127. A count of zero or less reads nothing.
- A failing `putc` stands for any write failure. It happens exactly when the stream cursor is at or past the medium's capacity.

## Findings

| source | as written | input that shows it | evidently intended | confidence | as-written member | corrected member |
|---|---|---|---|---|---|---|
| src/bitfile.c:148 | a failed final flush subtracts the whole bit offset of the lost byte, including bits it held before the call | a one-bit write 5 bits into the byte 0x74 on a medium with no room returns 1 - 6 = -5 (wrapping for an unsigned count) | the count of bits that reached the medium, here 0 | high (not executed) | WriteFindings.FinalFlushUnderflow | BitWrite.BfWriteAtEnd |
| src/bitfile.c:129 | a flush failing inside the loop returns the count including the bits of the byte that was lost | a 16-bit write on an empty medium with no room returns 8 | the count of bits that reached the medium, here 0 | high (not executed) | WriteFindings.LoopFlushOvercount | BitWrite.BfWriteAtEnd |
| src/bitfile.c:117-122 | a write of zero bits still aligns and steps the stream back one byte, and never flushes | a zero-bit write 3 bits into "tu" moves `bftell` from 3 to -5 and breaks the lookahead invariant | a zero-bit write changes nothing | high (not executed) | WriteFindings.ZeroBitWriteMoves | BitCursor.BfWrite |
| src/bitfile.c:423-461 | each of the last two letters is checked only against `{+, b}`, so repeats pass | `r++` is accepted and stored as `r++b` plus NUL, five bytes in the four-byte buffer of src/bitfile.c:24 | only the fifteen modes listed at src/bitfile.c:417 are accepted | high (not executed) | BitUtils.RepeatedPlusOverflows | BitUtils.CopyByteAccessMode |
