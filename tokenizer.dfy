/**
 * The items shuf reads out of an input buffer: the maximal runs between delimiters,
 * where one delimiter in the final byte ends the last item instead of starting a new one.
 */
module Tokenizer {
  import opened Bytes

  /** The fields of `s` when every delimiter separates two fields: `n` delimiters give `n + 1` fields. */
  function Fields(s: seq<byte>, d: byte): (items: seq<seq<byte>>)
    ensures |items| >= 1
    decreases |s|
  {
    var n := RunLen(s, d);
    if n == |s| then [s] else [s[..n]] + Fields(s[n + 1..], d)
  }

  /** `s` without one trailing delimiter, if it has one. */
  function Trim(s: seq<byte>, d: byte): seq<byte>
  {
    if |s| > 0 && s[|s| - 1] == d then s[..|s| - 1] else s
  }

  /** The items shuf makes of an input buffer. */
  function Split(s: seq<byte>, d: byte): seq<seq<byte>>
  {
    Fields(Trim(s, d), d)
  }

  /** The count main keeps while reading: one, plus one per delimiter that is followed by another byte. */
  function ItemCount(s: seq<byte>, d: byte): nat
  {
    if s == [] then 1 else 1 + multiset(s[..|s| - 1])[d]
  }

  /** The items separated by single delimiters, without a final delimiter. */
  function Join(items: seq<seq<byte>>, d: byte): seq<byte>
    requires |items| >= 1
  {
    if |items| == 1 then items[0] else items[0] + [d] + Join(items[1..], d)
  }

  predicate DelimiterFree(items: seq<seq<byte>>, d: byte)
  {
    forall k :: 0 <= k < |items| ==> d !in items[k]
  }

  /** Each item as the tokenizer stores it: its bytes in a buffer one longer, ending in NUL. */
  function Stored(items: seq<seq<byte>>): (cs: seq<seq<byte>>)
    ensures |cs| == |items|
  {
    seq(|items|, k requires 0 <= k < |items| => items[k] + [NUL])
  }

  /** The number of fields is one more than the number of delimiters. */
  lemma {:induction false} FieldsCount(s: seq<byte>, d: byte)
    ensures |Fields(s, d)| == 1 + multiset(s)[d]
    decreases |s|
  {
    var n := RunLen(s, d);
    if n < |s| {
      FieldsCount(s[n + 1..], d);
      assert s == s[..n] + [d] + s[n + 1..];
      assert multiset(s[..n])[d] == 0;
    }
  }

  /** No field contains the delimiter. */
  lemma {:induction false} FieldsDelimiterFree(s: seq<byte>, d: byte)
    ensures DelimiterFree(Fields(s, d), d)
    decreases |s|
  {
    var n := RunLen(s, d);
    if n < |s| {
      FieldsDelimiterFree(s[n + 1..], d);
      assert s[..n] == Fields(s, d)[0];
      assert Fields(s, d)[1..] == Fields(s[n + 1..], d);
    }
  }

  /** Joining the fields with the delimiter gives back the buffer. */
  lemma {:induction false} JoinFields(s: seq<byte>, d: byte)
    ensures Join(Fields(s, d), d) == s
    decreases |s|
  {
    var n := RunLen(s, d);
    if n < |s| {
      var rest := Fields(s[n + 1..], d);
      JoinFields(s[n + 1..], d);
      assert Fields(s, d) == [s[..n]] + rest;
      assert ([s[..n]] + rest)[1..] == rest;
      assert s == s[..n] + [d] + s[n + 1..];
    }
  }

  /** Splitting a join of delimiter-free items gives back the items. */
  lemma {:induction false} FieldsJoin(items: seq<seq<byte>>, d: byte)
    requires |items| >= 1 && DelimiterFree(items, d)
    ensures Fields(Join(items, d), d) == items
    decreases |items|
  {
    if |items| == 1 {
      FieldsWhole(Join(items, d), d);
    } else {
      var rest := items[1..];
      assert DelimiterFree(rest, d) by {
        forall k | 0 <= k < |rest| ensures d !in rest[k] { assert rest[k] == items[k + 1]; }
      }
      FieldsJoin(rest, d);
      JoinHead(items, d);
      FieldsCons(Join(items, d), d, |items[0]|);
      assert items == [items[0]] + rest;
    }
  }

  /** Bytes without the delimiter are a single field. */
  lemma FieldsWhole(s: seq<byte>, d: byte)
    requires d !in s
    ensures Fields(s, d) == [s]
  {
    RunLenUnique(s, d, |s|);
  }

  /** Up to the first delimiter is the first field; the rest are the fields after it. */
  lemma FieldsCons(s: seq<byte>, d: byte, n: nat)
    requires n < |s| && s[n] == d && d !in s[..n]
    ensures Fields(s, d) == [s[..n]] + Fields(s[n + 1..], d)
  {
    RunLenUnique(s, d, n);
  }

  /** A join of several items is the first item, the delimiter, then the join of the others. */
  lemma JoinHead(items: seq<seq<byte>>, d: byte)
    requires |items| > 1
    ensures var s, n := Join(items, d), |items[0]|;
      n < |s| && s[..n] == items[0] && s[n] == d && s[n + 1..] == Join(items[1..], d)
  {
  }

  /** The last item is what the join ends with. */
  lemma {:induction false} JoinEndsWithLast(items: seq<seq<byte>>, d: byte)
    requires |items| >= 1
    ensures |Join(items, d)| >= |items[|items| - 1]|
    ensures Join(items, d)[|Join(items, d)| - |items[|items| - 1]|..] == items[|items| - 1]
    decreases |items|
  {
    if |items| > 1 {
      var rest := items[1..];
      JoinEndsWithLast(rest, d);
      assert rest[|rest| - 1] == items[|items| - 1];
      var j, r := Join(items, d), Join(rest, d);
      assert j == items[0] + [d] + r;
      assert j[|j| - |rest[|rest| - 1]|..] == r[|r| - |rest[|rest| - 1]|..];
    }
  }

  /** main's count is one plus the delimiters of the buffer once a final delimiter is dropped. */
  lemma ItemCountDelimiters(s: seq<byte>, d: byte)
    ensures ItemCount(s, d) == 1 + multiset(Trim(s, d))[d]
  {
    if s != [] {
      var init := s[..|s| - 1];
      assert s == init + [s[|s| - 1]];
    }
  }

  /** The tokenizer makes exactly as many items as main counts while reading. */
  lemma SplitCount(s: seq<byte>, d: byte)
    ensures |Split(s, d)| == ItemCount(s, d)
  {
    var t := Trim(s, d);
    FieldsCount(t, d);
    if s != [] {
      var init := s[..|s| - 1];
      assert s == init + [s[|s| - 1]];
      if s[|s| - 1] != d {
        assert multiset(s)[d] == multiset(init)[d];
      }
    }
  }

  /**
   * Every item is free of the delimiter, and joining the items gives back the buffer,
   * save for the one trailing delimiter the tokenizer drops.
   */
  lemma SplitJoin(s: seq<byte>, d: byte)
    ensures DelimiterFree(Split(s, d), d)
    ensures Join(Split(s, d), d) == Trim(s, d)
    ensures s == Join(Split(s, d), d) || s == Join(Split(s, d), d) + [d]
  {
    FieldsDelimiterFree(Trim(s, d), d);
    JoinFields(Trim(s, d), d);
  }

  /** A join of several items is the join of all but the last, the delimiter, then the last. */
  lemma {:induction false} JoinLast(items: seq<seq<byte>>, d: byte)
    requires |items| > 1
    ensures Join(items, d) == Join(items[..|items| - 1], d) + [d] + items[|items| - 1]
    decreases |items|
  {
    var rest, init := items[1..], items[..|items| - 1];
    if |items| > 2 {
      JoinLast(rest, d);
      assert rest[..|rest| - 1] == init[1..];
      assert Join(init, d) == init[0] + [d] + Join(init[1..], d);
    }
  }

  /**
   * Tokenizing delimiter-terminated items gives back the items; so does tokenizing the bare join,
   * exactly when it does not end in a delimiter, that is unless its last item, after the first, is empty.
   */
  lemma JoinSplit(items: seq<seq<byte>>, d: byte)
    requires |items| >= 1 && DelimiterFree(items, d)
    ensures Split(Join(items, d) + [d], d) == items
    ensures Split(Join(items, d), d) == items <==> |items| == 1 || items[|items| - 1] != []
  {
    var j := Join(items, d);
    assert Trim(j + [d], d) == j;
    FieldsJoin(items, d);
    if |items| == 1 || items[|items| - 1] != [] {
      JoinKeepsLast(items, d);
    } else {
      JoinDropsEmptyLast(items, d);
    }
  }

  /** A bare join that does not end in a delimiter is its own trimmed form. */
  lemma JoinKeepsLast(items: seq<seq<byte>>, d: byte)
    requires |items| >= 1 && DelimiterFree(items, d)
    requires |items| == 1 || items[|items| - 1] != []
    ensures Trim(Join(items, d), d) == Join(items, d)
  {
    var j, last := Join(items, d), items[|items| - 1];
    if |items| == 1 {
      assert j == last;
    } else {
      JoinEndsWithLast(items, d);
      assert j[|j| - 1] == last[|last| - 1];
    }
  }

  /** A bare join of several items ending in an empty one loses that item to the trim. */
  lemma JoinDropsEmptyLast(items: seq<seq<byte>>, d: byte)
    requires |items| > 1 && DelimiterFree(items, d) && items[|items| - 1] == []
    ensures |Split(Join(items, d), d)| == |items| - 1
  {
    var init := items[..|items| - 1];
    JoinLast(items, d);
    assert Join(items, d) == Join(init, d) + [d];
    assert Trim(Join(items, d), d) == Join(init, d);
    FieldsJoin(init, d);
  }

  /** An empty buffer is one empty item; a lone delimiter is too. */
  lemma SplitEmpty(d: byte)
    ensures Split([], d) == [[]]
    ensures Split([d], d) == [[]]
  {
    assert Trim([d], d) == [];
  }
}
