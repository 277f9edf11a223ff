/** Bytes, C strings and the integer limits of the platform shuf runs on. */
module Bytes {

  /** An unsigned char: one byte of input or output. */
  newtype byte = b: int | 0 <= b < 256

  /** The two delimiters shuf can be configured with: newline (the default) and NUL (`-z`). */
  const NL: byte := 10
  const NUL: byte := 0

  /** INT_MAX of a 32-bit `int`. */
  const INT_MAX: int := 0x7fff_ffff

  /** SIZE_MAX of a 64-bit `size_t`: what a post-decrement of zero wraps to. */
  const SIZE_MAX: nat := 0xffff_ffff_ffff_ffff

  predicate ValidDelimiter(d: byte)
  {
    d == NL || d == NUL
  }

  /** The length of the longest prefix of `s` free of `d`: the index of the first `d`, or `|s|`. */
  function RunLen(s: seq<byte>, d: byte): (n: nat)
    ensures n <= |s|
    ensures n < |s| ==> s[n] == d
    ensures d !in s[..n]
  {
    if s == [] || s[0] == d then 0
    else
      var m := RunLen(s[1..], d);
      assert s[..m + 1] == [s[0]] + s[1..][..m];
      1 + m
  }

  /** `strlen`: the number of bytes before the first NUL. */
  function Strlen(s: seq<byte>): (n: nat)
    requires NUL in s
    ensures n < |s| && s[n] == NUL && NUL !in s[..n]
  {
    RunLen(s, NUL)
  }

  /** A string as `argv` holds it: bytes other than NUL, then the terminating NUL. */
  predicate IsCString(s: seq<byte>)
  {
    |s| > 0 && s[|s| - 1] == NUL && NUL !in s[..|s| - 1]
  }

  /** Any prefix free of `d` that ends at a `d` or at the end of `s` is the run `RunLen` measures. */
  lemma RunLenUnique(s: seq<byte>, d: byte, n: nat)
    requires n <= |s| && d !in s[..n]
    requires n < |s| ==> s[n] == d
    ensures RunLen(s, d) == n
  {
  }

  /** `strlen` of an `argv` string is its length without the terminator. */
  lemma CStringLength(s: seq<byte>)
    requires IsCString(s)
    ensures NUL in s && Strlen(s) == |s| - 1
  {
    assert s[|s| - 1] == NUL;
    RunLenUnique(s, NUL, |s| - 1);
  }
}
