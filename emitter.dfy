/**
 * What shuf writes to its output: `printshuf`'s records for line and argument items, and
 * `fprintf("%d%c")` records for integers. The output is a sequence of tokens: raw bytes, and
 * integers standing for their decimal text.
 */
module Emitter {
  import opened Bytes
  import opened Tokenizer

  datatype Token = Byte(b: byte) | Decimal(n: int)

  /** Bytes as output tokens. */
  function Tokens(s: seq<byte>): (r: seq<Token>)
    ensures |r| == |s|
  {
    seq(|s|, k requires 0 <= k < |s| => Byte(s[k]))
  }

  lemma TokensAppend(a: seq<byte>, b: seq<byte>)
    ensures Tokens(a + b) == Tokens(a) + Tokens(b)
  {
  }

  /**
   * The read `printshuf` makes of an item stays inside the item's storage: with several items
   * `strlen` needs a terminating NUL, with a single item the caller's `len` bytes must be there.
   */
  predicate Readable(item: seq<byte>, argn: int, len: nat)
  {
    if argn > 1 then NUL in item else len <= |item|
  }

  ghost predicate AllReadable(items: seq<seq<byte>>, argn: int, len: nat)
  {
    forall k :: 0 <= k < |items| ==> Readable(items[k], argn, len)
  }

  /** How many bytes of an item `printshuf` writes: its `strlen` among several items, `len` for a single one. */
  function WriteLen(item: seq<byte>, argn: int, len: nat): (n: nat)
    requires Readable(item, argn, len)
    ensures n <= |item|
    ensures argn > 1 ==> NUL !in item[..n] && n < |item| && item[n] == NUL
  {
    if argn > 1 then Strlen(item) else len
  }

  /** One call of `printshuf`: the item's first `WriteLen` bytes, then one delimiter byte. */
  function Record(item: seq<byte>, argn: int, len: nat, d: byte): seq<Token>
    requires Readable(item, argn, len)
  {
    Tokens(item[..WriteLen(item, argn, len)]) + [Byte(d)]
  }

  /** The records of the items, one call of `printshuf` each, in order. */
  function Emitted(items: seq<seq<byte>>, argn: int, len: nat, d: byte): seq<Token>
    requires AllReadable(items, argn, len)
    decreases |items|
  {
    if items == [] then []
    else Emitted(items[..|items| - 1], argn, len, d) + Record(items[|items| - 1], argn, len, d)
  }

  /** A record is the first bytes of the item, as many as `WriteLen` says, then exactly one delimiter. */
  lemma RecordBytes(item: seq<byte>, argn: int, len: nat, d: byte)
    requires Readable(item, argn, len)
    ensures var r := Record(item, argn, len, d);
      |r| == WriteLen(item, argn, len) + 1 && r[|r| - 1] == Byte(d) &&
      forall k :: 0 <= k < |r| - 1 ==> r[k] == Byte(item[k])
  {
  }

  /** Every item printed adds at least its delimiter, and the output of any item ends in the delimiter. */
  lemma {:induction false} EmittedRecords(items: seq<seq<byte>>, argn: int, len: nat, d: byte)
    requires AllReadable(items, argn, len)
    ensures |Emitted(items, argn, len, d)| >= |items|
    ensures items != [] ==> Emitted(items, argn, len, d)[|Emitted(items, argn, len, d)| - 1] == Byte(d)
    decreases |items|
  {
    if items != [] {
      var init := items[..|items| - 1];
      assert AllReadable(init, argn, len);
      EmittedRecords(init, argn, len, d);
      RecordBytes(items[|items| - 1], argn, len, d);
    }
  }

  /** `fprintf(ofile, "%d%c", v, delimiter)` for each value, in order. */
  function Numbers(values: seq<int>, d: byte): seq<Token>
    decreases |values|
  {
    if values == [] then []
    else Numbers(values[..|values| - 1], d) + [Decimal(values[|values| - 1]), Byte(d)]
  }

  /** Reading the numbers back: value `k` is token `2k`, and every value is followed by the delimiter. */
  lemma {:induction false} NumbersAt(values: seq<int>, d: byte)
    ensures |Numbers(values, d)| == 2 * |values|
    ensures forall k :: 0 <= k < |values| ==>
      Numbers(values, d)[2 * k] == Decimal(values[k]) && Numbers(values, d)[2 * k + 1] == Byte(d)
    decreases |values|
  {
    if values != [] {
      var init := values[..|values| - 1];
      NumbersAt(init, d);
      forall k | 0 <= k < |values|
        ensures Numbers(values, d)[2 * k] == Decimal(values[k]) && Numbers(values, d)[2 * k + 1] == Byte(d)
      {
        if k < |init| {
          assert init[k] == values[k];
        }
      }
    }
  }

  /** Printing the values one by one from the first: each prefix's output extends the previous prefix's. */
  lemma NumbersPrefix(values: seq<int>, i: nat, d: byte)
    requires i < |values|
    ensures Numbers(values[..i + 1], d) == Numbers(values[..i], d) + [Decimal(values[i]), Byte(d)]
  {
    assert values[..i + 1][..i] == values[..i];
  }

  /** An item's bytes followed by the delimiter: what a record is meant to be. */
  function ItemRecord(item: seq<byte>, d: byte): seq<Token>
  {
    Tokens(item) + [Byte(d)]
  }

  /** The intended records of the items, in order. */
  function Written(items: seq<seq<byte>>, d: byte): seq<Token>
    decreases |items|
  {
    if items == [] then [] else Written(items[..|items| - 1], d) + ItemRecord(items[|items| - 1], d)
  }

  /** The text of C strings: the bytes before each one's first NUL. */
  function Texts(args: seq<seq<byte>>): (texts: seq<seq<byte>>)
    ensures |texts| == |args|
  {
    seq(|args|, k requires 0 <= k < |args| => args[k][..RunLen(args[k], NUL)])
  }

  /** Each item's records follow those of the items before it. */
  lemma {:induction false} EmittedAppend(xs: seq<seq<byte>>, ys: seq<seq<byte>>, argn: int, len: nat, d: byte)
    requires AllReadable(xs, argn, len) && AllReadable(ys, argn, len)
    ensures AllReadable(xs + ys, argn, len)
    ensures Emitted(xs + ys, argn, len, d) == Emitted(xs, argn, len, d) + Emitted(ys, argn, len, d)
    decreases |ys|
  {
    assert AllReadable(xs + ys, argn, len) by {
      forall k | 0 <= k < |xs + ys| ensures Readable((xs + ys)[k], argn, len) {
        if k >= |xs| { assert (xs + ys)[k] == ys[k - |xs|]; }
      }
    }
    if ys != [] {
      var init := ys[..|ys| - 1];
      assert (xs + ys)[..|xs + ys| - 1] == xs + init;
      assert (xs + ys)[|xs + ys| - 1] == ys[|ys| - 1];
      assert AllReadable(init, argn, len) by {
        forall k | 0 <= k < |init| ensures Readable(init[k], argn, len) { assert init[k] == ys[k]; }
      }
      EmittedAppend(xs, init, argn, len, d);
      var last := Record(ys[|ys| - 1], argn, len, d);
      assert Emitted(ys, argn, len, d) == Emitted(init, argn, len, d) + last;
      assert Emitted(xs + ys, argn, len, d) == Emitted(xs + init, argn, len, d) + last;
    } else {
      assert xs + ys == xs;
    }
  }

  /** One more call of `printshuf` appends the item's record. */
  lemma EmittedStep(items: seq<seq<byte>>, item: seq<byte>, argn: int, len: nat, d: byte)
    requires AllReadable(items, argn, len) && Readable(item, argn, len)
    ensures AllReadable(items + [item], argn, len)
    ensures Emitted(items + [item], argn, len, d) == Emitted(items, argn, len, d) + Record(item, argn, len, d)
  {
    assert (items + [item])[..|items|] == items;
  }

  /** Printing the items one by one from the first: each prefix's records extend the previous prefix's. */
  lemma EmittedPrefix(items: seq<seq<byte>>, i: nat, argn: int, len: nat, d: byte)
    requires AllReadable(items, argn, len) && i < |items|
    ensures AllReadable(items[..i], argn, len) && AllReadable(items[..i + 1], argn, len)
    ensures Emitted(items[..i + 1], argn, len, d) == Emitted(items[..i], argn, len, d) + Record(items[i], argn, len, d)
  {
    assert items[..i + 1][..i] == items[..i];
  }

  /**
   * In `-e` mode every argument is written exactly as given and followed by the delimiter:
   * `strlen` of each among several, and for a single one the `len` that `shufecho` passes, its `strlen`.
   */
  lemma {:induction false} EchoEmitted(args: seq<seq<byte>>, argn: int, len: nat, d: byte)
    requires forall k :: 0 <= k < |args| ==> IsCString(args[k])
    requires argn <= 1 ==> forall k :: 0 <= k < |args| ==> len == |args[k]| - 1
    ensures AllReadable(args, argn, len)
    ensures Emitted(args, argn, len, d) == Written(Texts(args), d)
    decreases |args|
  {
    forall k | 0 <= k < |args| ensures Readable(args[k], argn, len) && Record(args[k], argn, len, d) == ItemRecord(Texts(args)[k], d) {
      CStringLength(args[k]);
    }
    if args != [] {
      var init := args[..|args| - 1];
      EchoEmitted(init, argn, len, d);
      assert Texts(args)[..|args| - 1] == Texts(init);
    }
  }

  /**
   * In line mode the reads of `printshuf` stay inside the storage `shuffile` allocated: each
   * stored item ends in NUL, and a lone item is at most one byte shorter than the whole input.
   */
  lemma FileReadable(input: seq<byte>, d: byte)
    ensures |Split(input, d)| == 1 ==> |input| <= |Split(input, d)[0]| + 1
    ensures AllReadable(Stored(Split(input, d)), |Split(input, d)|, |input|)
  {
    var items := Split(input, d);
    var stored := Stored(items);
    if |items| == 1 {
      SingleItem(input, d);
    }
    forall k | 0 <= k < |stored| ensures Readable(stored[k], |items|, |input|) {
      assert stored[k][|stored[k]| - 1] == NUL;
    }
  }

  /** A lone item is the whole input, less its trailing delimiter if it has one. */
  lemma SingleItem(input: seq<byte>, d: byte)
    requires |Split(input, d)| == 1
    ensures Split(input, d)[0] == Trim(input, d)
  {
  }

  /**
   * As written: a lone item of an input that ends in the delimiter is written together with the
   * NUL terminator of its storage, because `printshuf` writes the whole input length.
   */
  lemma SingleItemWritesTerminator(input: seq<byte>, d: byte)
    requires |Split(input, d)| == 1 && |input| > 0 && input[|input| - 1] == d
    ensures Readable(Stored(Split(input, d))[0], 1, |input|)
    ensures Record(Stored(Split(input, d))[0], 1, |input|, d) == Tokens(Split(input, d)[0]) + [Byte(NUL), Byte(d)]
  {
    FileReadable(input, d);
    SingleItem(input, d);
    var item := Split(input, d)[0];
    assert Stored(Split(input, d))[0][..|input|] == item + [NUL];
    TokensAppend(item, [NUL]);
  }

  /** The smallest case: the one-line input "a\n" comes out as "a", NUL, "\n". */
  lemma OneLineExample()
    ensures Readable(Stored(Split([97, NL], NL))[0], 1, 2)
    ensures Record(Stored(Split([97, NL], NL))[0], 1, 2, NL) == [Byte(97), Byte(NUL), Byte(NL)]
  {
    var input: seq<byte> := [97, NL];
    assert Trim(input, NL) == [97];
    assert RunLen([97], NL) == 1;
    assert Split(input, NL) == [[97]];
    SingleItemWritesTerminator(input, NL);
  }

  /**
   * As written: among several line items, one that holds a NUL byte is cut short at it,
   * because `printshuf` writes `strlen` bytes of it.
   */
  lemma SeveralItemsStopAtNul(input: seq<byte>, d: byte, k: nat)
    requires |Split(input, d)| > 1 && k < |Split(input, d)| && NUL in Split(input, d)[k]
    ensures Readable(Stored(Split(input, d))[k], |Split(input, d)|, |input|)
    ensures Record(Stored(Split(input, d))[k], |Split(input, d)|, |input|, d)
         == Tokens(Split(input, d)[k][..RunLen(Split(input, d)[k], NUL)]) + [Byte(d)]
    ensures RunLen(Split(input, d)[k], NUL) < |Split(input, d)[k]|
  {
    var item := Split(input, d)[k];
    var stored := item + [NUL];
    assert Stored(Split(input, d))[k] == stored;
    var n := RunLen(item, NUL);
    assert stored[..n] == item[..n];
    RunLenUnique(stored, NUL, n);
  }

  /** The smallest case: of the lines "a", NUL, "b" and "c", the first comes out as "a". */
  lemma NulLineExample()
    ensures Split([97, NUL, 98, NL, 99], NL) == [[97, NUL, 98], [99]]
    ensures Readable(Stored(Split([97, NUL, 98, NL, 99], NL))[0], 2, 5)
    ensures Record(Stored(Split([97, NUL, 98, NL, 99], NL))[0], 2, 5, NL) == [Byte(97), Byte(NL)]
  {
    var input: seq<byte> := [97, NUL, 98, NL, 99];
    assert Trim(input, NL) == input;
    RunLenUnique(input, NL, 3);
    assert input[..3] == [97, NUL, 98];
    assert input[4..] == [99];
    RunLenUnique([99], NL, 1);
    assert Fields([99], NL) == [[99]];
    assert Split(input, NL) == [[97, NUL, 98], [99]];
    RunLenUnique([97, NUL, 98], NUL, 1);
    SeveralItemsStopAtNul(input, NL, 0);
  }

  /** Where neither case applies, `printshuf` writes a line item exactly as read. */
  lemma FileRecordIntended(input: seq<byte>, d: byte, k: nat)
    requires k < |Split(input, d)|
    requires |Split(input, d)| > 1 ==> NUL !in Split(input, d)[k]
    requires |Split(input, d)| == 1 ==> |input| == 0 || input[|input| - 1] != d
    ensures Readable(Stored(Split(input, d))[k], |Split(input, d)|, |input|)
    ensures Record(Stored(Split(input, d))[k], |Split(input, d)|, |input|, d) == ItemRecord(Split(input, d)[k], d)
  {
    var items := Split(input, d);
    var item := items[k];
    assert Stored(items)[k] == item + [NUL];
    FileReadable(input, d);
    if |items| > 1 {
      RunLenUnique(item + [NUL], NUL, |item|);
    } else {
      SingleItem(input, d);
    }
    assert (item + [NUL])[..|item|] == item;
  }

  /** With `-z` the delimiter is NUL, no item holds one, and every line item comes out as read. */
  lemma NulDelimitedIntended(input: seq<byte>, k: nat)
    requires |Split(input, NUL)| > 1 && k < |Split(input, NUL)|
    ensures Readable(Stored(Split(input, NUL))[k], |Split(input, NUL)|, |input|)
    ensures Record(Stored(Split(input, NUL))[k], |Split(input, NUL)|, |input|, NUL) == ItemRecord(Split(input, NUL)[k], NUL)
  {
    SplitJoin(input, NUL);
    FileRecordIntended(input, NUL, k);
  }

  lemma {:induction false} WrittenAppend(xs: seq<seq<byte>>, ys: seq<seq<byte>>, d: byte)
    ensures Written(xs + ys, d) == Written(xs, d) + Written(ys, d)
    decreases |ys|
  {
    if ys != [] {
      var init := ys[..|ys| - 1];
      assert (xs + ys)[..|xs + ys| - 1] == xs + init;
      assert (xs + ys)[|xs + ys| - 1] == ys[|ys| - 1];
      WrittenAppend(xs, init, d);
      var last := ItemRecord(ys[|ys| - 1], d);
      assert Written(ys, d) == Written(init, d) + last;
      assert Written(xs + ys, d) == Written(xs + init, d) + last;
    } else {
      assert xs + ys == xs;
    }
  }

  /** The intended records of joined items spell out the join followed by one delimiter. */
  lemma {:induction false} WrittenJoin(items: seq<seq<byte>>, d: byte)
    requires |items| >= 1
    ensures Written(items, d) == Tokens(Join(items, d) + [d])
    decreases |items|
  {
    if |items| == 1 {
      assert Written(items, d) == Written([], d) + ItemRecord(items[0], d);
      TokensAppend(items[0], [d]);
    } else {
      var rest := items[1..];
      WrittenJoin(rest, d);
      assert items == [items[0]] + rest;
      WrittenAppend([items[0]], rest, d);
      assert Written([items[0]], d) == ItemRecord(items[0], d);
      TokensAppend(items[0], [d]);
      TokensAppend(items[0] + [d], Join(rest, d) + [d]);
      assert Join(items, d) + [d] == items[0] + [d] + (Join(rest, d) + [d]);
    }
  }

  /**
   * Intended: writing every line item in input order gives back the input, ending in exactly
   * one delimiter whether or not the input did.
   */
  lemma WrittenRoundTrip(input: seq<byte>, d: byte)
    ensures Written(Split(input, d), d) == Tokens(Trim(input, d) + [d])
  {
    SplitJoin(input, d);
    WrittenJoin(Split(input, d), d);
  }
}
