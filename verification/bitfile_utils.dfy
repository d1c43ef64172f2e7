/**
  The bit cursor's pure utilities: `swapendian`, which reverses the bytes
  of an `n`-bit buffer, and the access-mode validator `copyByteAccessMode`
  (with its helper `isIn`), which turns an `fopen` mode string into the
  cursor's flags and the binary-mode string actually opened.
 */
module BitUtils {
  import opened BitOps
  import opened BitCursor

  /** The reversal of `s`. */
  function Reverse<T>(s: seq<T>): (r: seq<T>)
    ensures |r| == |s|
    ensures forall i :: 0 <= i < |s| ==> r[i] == s[|s| - 1 - i]
  {
    if s == [] then [] else Reverse(s[1..]) + [s[0]]
  }

  lemma {:induction false} ReverseReverse<T>(s: seq<T>)
    ensures Reverse(Reverse(s)) == s
  {
    var r := Reverse(Reverse(s));
    assert forall i :: 0 <= i < |s| ==> r[i] == s[i];
  }

  /** The buffer `swapendian` leaves behind: its first `CeilDiv(n, 8)` bytes
      in reverse order, every later byte untouched. */
  function Swapped(data: seq<bv8>, n: nat): (r: seq<bv8>)
    requires n >= 1 && CeilDiv(n, BYTE_LEN) <= |data|
    ensures |r| == |data|
  {
    var k := CeilDiv(n, BYTE_LEN);
    Reverse(data[..k]) + data[k..]
  }

  /** `swapendian`: swap byte `a` with byte `CeilDiv(n, 8) - 1 - a` for
      every `a` below half that length. */
  method SwapEndian(data: seq<bv8>, n: nat) returns (r: seq<bv8>)
    requires n >= 1 && CeilDiv(n, BYTE_LEN) <= |data|
    ensures r == Swapped(data, n)
  {
    var k := CeilDiv(n, BYTE_LEN);
    var half := k / 2;
    var last := k - 1;
    r := data;
    var a := 0;
    while a < half
      invariant 0 <= a <= half && |r| == |data|
      invariant forall i :: 0 <= i < a ==> r[i] == data[last - i] && r[last - i] == data[i]
      invariant forall i :: a <= i <= last - a ==> r[i] == data[i]
      invariant forall i :: k <= i < |data| ==> r[i] == data[i]
    {
      var b := last - a;
      var temp := r[a];
      r := r[a := r[b]];
      r := r[b := temp];
      a := a + 1;
    }
    SwappedFromIndices(data, n, r);
  }

  /** A buffer that agrees with `data` reversed below `CeilDiv(n, 8)` and
      with `data` above it is `Swapped(data, n)`. */
  lemma SwappedFromIndices(data: seq<bv8>, n: nat, r: seq<bv8>)
    requires n >= 1 && CeilDiv(n, BYTE_LEN) <= |data| == |r|
    requires forall i :: 0 <= i < CeilDiv(n, BYTE_LEN) / 2 ==>
               r[i] == data[CeilDiv(n, BYTE_LEN) - 1 - i] && r[CeilDiv(n, BYTE_LEN) - 1 - i] == data[i]
    requires forall i :: CeilDiv(n, BYTE_LEN) / 2 <= i <= CeilDiv(n, BYTE_LEN) - 1 - CeilDiv(n, BYTE_LEN) / 2 ==> r[i] == data[i]
    requires forall i :: CeilDiv(n, BYTE_LEN) <= i < |data| ==> r[i] == data[i]
    ensures r == Swapped(data, n)
  {
    var k := CeilDiv(n, BYTE_LEN);
    assert forall i :: 0 <= i < k ==> r[i] == data[k - 1 - i];
    assert r == Reverse(data[..k]) + data[k..];
  }

  /** Swapping twice restores the buffer. */
  lemma SwapEndianInvolution(data: seq<bv8>, n: nat)
    requires n >= 1 && CeilDiv(n, BYTE_LEN) <= |data|
    ensures Swapped(Swapped(data, n), n) == data
  {
    var k := CeilDiv(n, BYTE_LEN);
    var once := Swapped(data, n);
    assert once[..k] == Reverse(data[..k]);
    assert once[k..] == data[k..];
    ReverseReverse(data[..k]);
  }

  /** A buffer of at most one byte is left as it was. */
  lemma SwapEndianSingleByte(data: seq<bv8>, n: nat)
    requires 1 <= n <= BYTE_LEN && 1 <= |data|
    ensures Swapped(data, n) == data
  {
    assert data[..1] + data[1..] == data;
  }

  /** `isIn`: whether `val` occurs in `arr`. */
  method IsIn(val: char, arr: seq<char>) returns (found: bool)
    ensures found <==> val in arr
  {
    var i := 0;
    while i < |arr|
      invariant 0 <= i <= |arr|
      invariant val !in arr[..i]
    {
      if arr[i] == val {
        return true;
      }
      i := i + 1;
    }
    assert arr[..i] == arr;
    return false;
  }

  /** ACCESS_MODE_LEN: room for two mode letters, the appended `b` and the
      terminating NUL. */
  const ACCESS_MODE_LEN: nat := 4

  /** The letters allowed at each index of a mode string; the zero
      entries pad the last two rows to three elements. */
  const VALID_ACCESS_CHARS: seq<seq<char>> := [['r', 'w', 'a'], ['+', 'b', '\0'], ['+', 'b', '\0']]

  /** The characters of a C string held in `buf`: everything before the
      first NUL, or all of `buf` when it holds none. */
  function CString(buf: seq<char>): (s: seq<char>)
    ensures |s| <= |buf| && s == buf[..|s|] && '\0' !in s
    ensures |s| < |buf| ==> buf[|s|] == '\0'
  {
    if buf == [] || buf[0] == '\0' then [] else [buf[0]] + CString(buf[1..])
  }

  /** A mode string `copyByteAccessMode` accepts: one of `r`, `w`, `a`,
      followed by at most two letters each `+` or `b`. */
  predicate ValidMode(s: seq<char>)
  {
    1 <= |s| <= ACCESS_MODE_LEN - 1 && s[0] in "rwa"
    && forall i :: 1 <= i < |s| ==> s[i] in "+b"
  }

  /** The flags one mode letter adds: `+` both directions (the C switch
      falls through from `+` into `r`), `r` read, `w` and `a` write. */
  function LetterFlags(c: char, flags: Flags): (r: Flags)
    ensures r.read == (flags.read || c == 'r' || c == '+')
    ensures r.write == (flags.write || c == 'w' || c == 'a' || c == '+')
    ensures r.msb == flags.msb && r.err == flags.err
  {
    match c
    case '+' => flags.(write := true, read := true)
    case 'r' => flags.(read := true)
    case 'a' => flags.(write := true)
    case 'w' => flags.(write := true)
    case _ => flags
  }

  /** `copyByteAccessMode` as written: validates the C string in `basic`
      and returns the flags it selects together with the mode string to
      open, which is the input with a `b` appended unless it already has
      one. An invalid string returns the error flag, joined with the flags
      of the letters checked before the offending one. */
  method CopyByteAccessModeAsWritten(basic: seq<char>) returns (flags: Flags, access: seq<char>)
    ensures flags.err <==> !ValidMode(CString(basic))
    ensures !flags.msb
    ensures flags.read ==> 'r' in CString(basic) || '+' in CString(basic)
    ensures flags.write ==> 'w' in CString(basic) || 'a' in CString(basic) || '+' in CString(basic)
    ensures !flags.err ==> var s := CString(basic);
              (flags.read <==> 'r' in s || '+' in s)
              && (flags.write <==> 'w' in s || 'a' in s || '+' in s)
              && access == s + (if 'b' in s then [] else ['b'])
              && |access| <= ACCESS_MODE_LEN
  {
    var s := CString(basic);
    var len := |s|;
    flags := Flags(false, false, false, false);
    access := [];
    if len < 1 || len > ACCESS_MODE_LEN - 1 {
      flags := flags.(err := true);
      return;
    }
    var hasB := false;
    var i := 0;
    while i < len
      invariant 0 <= i <= len && access == s[..i]
      invariant forall j :: 1 <= j < i ==> s[j] in "+b"
      invariant i >= 1 ==> s[0] in "rwa"
      invariant !flags.msb && !flags.err
      invariant flags.read <==> 'r' in s[..i] || '+' in s[..i]
      invariant flags.write <==> 'w' in s[..i] || 'a' in s[..i] || '+' in s[..i]
      invariant hasB <==> 'b' in s[..i]
    {
      var ok := IsIn(s[i], VALID_ACCESS_CHARS[i]);
      if !ok {
        assert !ValidMode(s) by {
          if i == 0 { assert s[0] !in "rwa"; } else { assert s[i] !in "+b"; }
        }
        assert s[..i] <= s;
        flags := flags.(err := true);
        return;
      }
      assert s[i] != '\0';
      assert s[..i + 1] == s[..i] + [s[i]];
      if s[i] == 'b' {
        hasB := true;
      }
      flags := LetterFlags(s[i], flags);
      access := access + [s[i]];
      i := i + 1;
    }
    assert s[..i] == s;
    if !hasB {
      access := access + ['b'];
    }
  }

  /** The mode `r++` passes the validator as written, and the string it
      stores, `r++b` with its terminating NUL, is one character longer
      than the ACCESS_MODE_LEN buffer `bfopen` and `bfreopen` hand in. */
  method RepeatedPlusOverflows(basic: seq<char>) returns (flags: Flags, access: seq<char>)
    requires CString(basic) == "r++"
    ensures !flags.err && flags.read && flags.write
    ensures access == "r++b" && |access| + 1 > ACCESS_MODE_LEN
  {
    flags, access := CopyByteAccessModeAsWritten(basic);
    assert ValidMode("r++");
    assert 'b' !in "r++";
  }

  /** The modes the routine's own comment lists as expected: a mode letter
      followed by at most one `+` and at most one `b`, in either order. */
  predicate ExpectedMode(s: seq<char>)
  {
    ValidMode(s) && (|s| == ACCESS_MODE_LEN - 1 ==> s[1] != s[2])
  }

  /** The expected modes are exactly the fifteen the comment enumerates. */
  lemma ExpectedModesListed(s: seq<char>)
    ensures ExpectedMode(s) <==> s in ["r", "w", "a", "r+", "w+", "a+", "rb", "wb", "ab",
                                       "rb+", "wb+", "ab+", "r+b", "w+b", "a+b"]
  {
    if ExpectedMode(s) {
      assert s[0] in "rwa";
      if |s| >= 2 { assert s[1] in "+b"; }
      if |s| == 3 { assert s[2] in "+b"; }
      if |s| == 1 {
        assert s == [s[0]];
      } else if |s| == 2 {
        assert s == [s[0], s[1]];
      } else {
        assert s == [s[0], s[1], s[2]];
      }
    }
  }

  /** `copyByteAccessMode` corrected: a repeated `+` or `b` is rejected
      like any other invalid letter, so the stored mode and its NUL always
      fit the ACCESS_MODE_LEN buffer. */
  method CopyByteAccessMode(basic: seq<char>) returns (flags: Flags, access: seq<char>)
    ensures flags.err <==> !ExpectedMode(CString(basic))
    ensures !flags.msb
    ensures flags.read ==> 'r' in CString(basic) || '+' in CString(basic)
    ensures flags.write ==> 'w' in CString(basic) || 'a' in CString(basic) || '+' in CString(basic)
    ensures !flags.err ==> var s := CString(basic);
              (flags.read <==> 'r' in s || '+' in s)
              && (flags.write <==> 'w' in s || 'a' in s || '+' in s)
              && access == s + (if 'b' in s then [] else ['b'])
              && |access| + 1 <= ACCESS_MODE_LEN
  {
    var s := CString(basic);
    if |s| == ACCESS_MODE_LEN - 1 && s[1] == s[2] {
      return Flags(false, false, false, true), [];
    }
    flags, access := CopyByteAccessModeAsWritten(basic);
  }
}
