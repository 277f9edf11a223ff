/**
 * main's read loop in line mode: every byte of the input is appended to a buffer that starts at
 * 1024 bytes and doubles whenever it fills, while the items are counted.
 */
module Input {
  import opened Bytes
  import opened Tokenizer

  function Pow2(k: nat): (p: nat)
    ensures p >= 1
  {
    if k == 0 then 1 else 2 * Pow2(k - 1)
  }

  /** `realloc` to a larger size: a fresh buffer that begins with the old contents. */
  method Realloc(buf: array<byte>, size: nat) returns (grown: array<byte>)
    requires buf.Length <= size
    ensures fresh(grown) && grown.Length == size && grown[..buf.Length] == buf[..]
  {
    grown := new byte[size];
    for i := 0 to buf.Length
      invariant grown[..i] == buf[..i]
    {
      grown[i] := buf[i];
    }
  }

  /** `buf[buflen++] = ch`, then doubling the buffer when that filled it. */
  method Append(buf: array<byte>, buflen: nat, bufsize: nat, ch: byte, ghost doublings: nat)
    returns (grown: array<byte>, size: nat, ghost k: nat)
    requires buflen < bufsize == buf.Length == 1024 * Pow2(doublings)
    modifies buf
    ensures grown == buf || fresh(grown)
    ensures buflen + 1 < size == grown.Length == 1024 * Pow2(k)
    ensures grown[..buflen + 1] == old(buf[..buflen]) + [ch]
    ensures buflen + 1 < bufsize ==> grown == buf && size == bufsize && k == doublings
    ensures buflen + 1 == bufsize ==> size == 2 * bufsize && k == doublings + 1
  {
    buf[buflen] := ch;
    assert buf[..buflen + 1] == old(buf[..buflen]) + [ch];
    grown, size, k := buf, bufsize, doublings;
    if buflen + 1 == bufsize {
      size := bufsize * 2;
      grown := Realloc(buf, size);
      k := doublings + 1;
      assert grown[..buflen + 1] == buf[..buflen + 1];
    }
  }

  /** Reading one more byte counts one more item exactly when the byte before it was a delimiter. */
  lemma CountStep(s: seq<byte>, ch: byte, prev: int, d: byte)
    requires ValidDelimiter(d)
    requires prev == if s == [] then 1 else s[|s| - 1] as int
    ensures ItemCount(s + [ch], d) == ItemCount(s, d) + (if prev == d as int then 1 else 0)
  {
    var t := s + [ch];
    assert t[..|t| - 1] == s;
    if s != [] {
      assert s == s[..|s| - 1] + [s[|s| - 1]];
    }
  }

  /** One pass of main's read loop: the next byte is appended, and counted as starting an item when it follows a delimiter. */
  method ReadByte(input: seq<byte>, delimiter: byte, buf: array<byte>, buflen: nat, bufsize: nat, ghost doublings: nat, prev: int, argn: int)
    returns (grown: array<byte>, size: nat, ghost k: nat, last: int, count: int)
    requires ValidDelimiter(delimiter) && buflen < |input|
    requires buflen < bufsize == buf.Length == 1024 * Pow2(doublings)
    requires buf[..buflen] == input[..buflen]
    requires prev == if buflen == 0 then 1 else input[buflen - 1] as int
    requires argn == ItemCount(input[..buflen], delimiter)
    modifies buf
    ensures grown == buf || fresh(grown)
    ensures buflen + 1 < size == grown.Length == 1024 * Pow2(k)
    ensures grown[..buflen + 1] == input[..buflen + 1]
    ensures last == input[buflen] as int
    ensures count == ItemCount(input[..buflen + 1], delimiter)
  {
    var ch := input[buflen];
    grown, size, k := Append(buf, buflen, bufsize, ch, doublings);
    assert input[..buflen] + [ch] == input[..buflen + 1];
    count := argn;
    if prev == delimiter as int {
      count := argn + 1;
    }
    CountStep(input[..buflen], ch, prev, delimiter);
    last := ch as int;
  }

  /**
   * Reads `input` (the bytes `fgetc` returns before EOF) into a fresh buffer. Afterwards the
   * buffer holds the input followed by a NUL, its size is 1024 doubled `doublings` times, and
   * `argn` is one plus the number of delimiters before the final byte.
   */
  method ReadInput(input: seq<byte>, delimiter: byte) returns (buf: array<byte>, buflen: nat, argn: int, ghost doublings: nat)
    requires ValidDelimiter(delimiter)
    ensures fresh(buf)
    ensures buflen == |input| < buf.Length && buf[..buflen] == input && buf[buflen] == NUL
    ensures buf.Length == 1024 * Pow2(doublings)
    ensures argn == ItemCount(input, delimiter)
  {
    var bufsize: nat := 1024;
    buf := new byte[bufsize];
    buflen, argn, doublings := 0, 1, 0;
    var prev: int := 1;
    while buflen < |input|
      invariant buflen <= |input| && buflen < bufsize == buf.Length == 1024 * Pow2(doublings)
      invariant fresh(buf)
      invariant buf[..buflen] == input[..buflen]
      invariant prev == if buflen == 0 then 1 else input[buflen - 1] as int
      invariant argn == ItemCount(input[..buflen], delimiter)
    {
      buf, bufsize, doublings, prev, argn := ReadByte(input, delimiter, buf, buflen, bufsize, doublings, prev, argn);
      buflen := buflen + 1;
    }
    assert input[..buflen] == input;
    buf[buflen] := NUL;
  }
}
