/**
  The byte stream underneath the bit cursor: an abstract stand-in for a C
  `FILE*` holding the medium's bytes, the stream cursor, the end-of-file and
  error indicators, and the medium's capacity (a write at or beyond it fails,
  which stands for any underlying write failure).
 */
module ByteStream {

  /** The `EOF` sentinel `getc` and `putc` return on failure. */
  const EOF: int := -1

  datatype Whence = SeekSet | SeekCur | SeekEnd

  datatype Stream = Stream(data: seq<bv8>, pos: nat, eof: bool, err: bool, cap: nat)

  /** A stream over `data`, positioned at its start, indicators clear. */
  function Open(data: seq<bv8>, cap: nat): (s: Stream)
    ensures s.data == data && s.pos == 0 && !s.eof && !s.err
  {
    Stream(data, 0, false, false, cap)
  }

  /** `getc`: the byte at the cursor, advancing it; at or past the end of the
      data, `EOF` with the end-of-file indicator set and the cursor kept. */
  function Getc(s: Stream): (r: (int, Stream))
    ensures s.pos < |s.data| ==> r.0 == s.data[s.pos] as int && r.1 == s.(pos := s.pos + 1)
    ensures s.pos >= |s.data| ==> r.0 == EOF && r.1 == s.(eof := true)
    ensures r.0 == EOF || 0 <= r.0 < 256
  {
    if s.pos < |s.data| then (s.data[s.pos] as int, s.(pos := s.pos + 1))
    else (EOF, s.(eof := true))
  }

  /** The data after writing `b` at position `pos`: an overwrite inside the
      data, an extension at its end, and zero fill for a gap left by a seek
      past the end. */
  function WriteAt(data: seq<bv8>, pos: nat, b: bv8): (d: seq<bv8>)
    ensures |d| == if pos < |data| then |data| else pos + 1
    ensures d[pos] == b
    ensures forall i :: 0 <= i < |data| && i != pos ==> d[i] == data[i]
    ensures forall i :: |data| <= i < pos ==> d[i] == 0
  {
    if pos < |data| then data[pos := b]
    else data + seq(pos - |data|, _ => 0 as bv8) + [b]
  }

  /** `putc`: writes `b` at the cursor and advances it, returning `b`; a
      write at or beyond the capacity fails with `EOF` and sets the error
      indicator. */
  function Putc(s: Stream, b: bv8): (r: (int, Stream))
    ensures s.pos < s.cap ==> r.0 == b as int && r.1.pos == s.pos + 1
                              && r.1.data == WriteAt(s.data, s.pos, b)
                              && r.1.eof == s.eof && r.1.err == s.err && r.1.cap == s.cap
    ensures s.pos >= s.cap ==> r.0 == EOF && r.1 == s.(err := true)
  {
    if s.pos < s.cap then (b as int, s.(data := WriteAt(s.data, s.pos, b), pos := s.pos + 1))
    else (EOF, s.(err := true))
  }

  /** The absolute byte position `offset` bytes from `whence`. */
  function SeekTarget(s: Stream, offset: int, whence: Whence): int
  {
    match whence
    case SeekSet => offset
    case SeekCur => s.pos + offset
    case SeekEnd => |s.data| + offset
  }

  /** `fseek`: 0 and the cursor at the target with end-of-file cleared, or
      -1 with the stream unchanged when the target is before the start. */
  function Fseek(s: Stream, offset: int, whence: Whence): (r: (int, Stream))
    ensures SeekTarget(s, offset, whence) < 0 <==> r.0 == -1
    ensures r.0 == -1 ==> r.1 == s
    ensures r.0 == 0 ==> r.1 == s.(pos := SeekTarget(s, offset, whence), eof := false)
  {
    var target := SeekTarget(s, offset, whence);
    if target < 0 then (-1, s) else (0, s.(pos := target, eof := false))
  }

  /** `rewind`: cursor to the start, both indicators cleared. */
  function Rewind(s: Stream): (r: Stream)
    ensures r.pos == 0 && !r.eof && !r.err && r.data == s.data && r.cap == s.cap
  {
    s.(pos := 0, eof := false, err := false)
  }

  /** `clearerr`: both indicators cleared, nothing else touched. */
  function Clearerr(s: Stream): (r: Stream)
    ensures !r.eof && !r.err && r.data == s.data && r.pos == s.pos && r.cap == s.cap
  {
    s.(eof := false, err := false)
  }
}
