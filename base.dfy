/** Bytes, the program's compile-time configuration, and the C-string view
    of a byte buffer that the rest of the model shares. */
module Base {

  /** One `char` of the C program's buffers, read as an unsigned byte. */
  newtype byte = x: int | 0 <= x < 256

  type Bytes = seq<byte>

  datatype Option<T> = None | Some(value: T)

  // Application configuration (the #defines at the top of the program).
  const WINDOW_WIDTH: int := 1200
  const WINDOW_HEIGHT: int := 800
  const SIDEBAR_WIDTH: int := 280
  const HEADER_HEIGHT: int := 50
  const MAX_NOTES: nat := 100
  const MAX_TITLE_LENGTH: nat := 128
  const MAX_CONTENT_LENGTH: nat := 32768
  /** Size of the `filepath` buffer of a note; snprintf keeps at most one byte less. */
  const FILEPATH_SIZE: nat := 256

  // The byte values the program compares against.
  const NUL: byte := 0
  const NEWLINE: byte := 10
  const SPACE: byte := 32
  const HASH: byte := 35
  const DASH: byte := 45
  const DOT: byte := 46

  /** True when every character of `s` fits in one byte. */
  predicate IsByteString(s: string) {
    forall i :: 0 <= i < |s| ==> s[i] as int < 256
  }

  /** The bytes of a string literal that uses only one-byte characters. */
  function Lit(s: string): (r: Bytes)
    requires IsByteString(s)
    ensures |r| == |s|
    ensures forall i :: 0 <= i < |s| ==> r[i] as int == s[i] as int
  {
    seq(|s|, i requires 0 <= i < |s| => s[i] as int as byte)
  }

  /** No byte of `s` is the C string terminator. */
  predicate NoNul(s: Bytes) {
    forall i :: 0 <= i < |s| ==> s[i] != NUL
  }

  /** What a note's content buffer can hold: a C string that leaves room for
      its terminator in a buffer of MAX_CONTENT_LENGTH bytes. */
  predicate ContentOk(s: Bytes) {
    |s| <= MAX_CONTENT_LENGTH - 1 && NoNul(s)
  }

  /** The C string stored in a buffer: everything before the first NUL. */
  function CString(s: Bytes): (r: Bytes)
    ensures NoNul(r)
    ensures |r| <= |s| && r == s[..|r|]
    ensures |r| < |s| ==> s[|r|] == NUL
  {
    if s == [] || s[0] == NUL then [] else [s[0]] + CString(s[1..])
  }

  /** snprintf into a buffer of `size` bytes keeps at most `size - 1` of them. */
  function Truncate(s: Bytes, size: nat): (r: Bytes)
    requires size > 0
    ensures |r| <= size - 1 && |r| <= |s| && r == s[..|r|]
    ensures |s| <= size - 1 ==> r == s
    ensures |s| > size - 1 ==> |r| == size - 1
  {
    if |s| <= size - 1 then s else s[..size - 1]
  }

  function Max(a: int, b: int): int {
    if a < b then b else a
  }

  function Min(a: int, b: int): int {
    if a < b then a else b
  }
}
