/**
 * The shuf program: its process-wide state and the functions that shuffle, sample and print
 * lines, arguments and integer ranges.
 */
module Shuf {
  import opened Bytes
  import opened Tokenizer
  import opened Sampler
  import opened Emitter
  import opened Options
  import Input

  /** One run of shuf: the globals `ofile`, `delimiter`, `most` and `rflag`. */
  class Session {
    /** Everything written to `ofile` so far. */
    var out: seq<Token>
    /** Newline, or NUL under `-z`. */
    const delimiter: byte
    /** Sample with replacement (`-r`). */
    const rflag: bool
    /** The `-n` count, -1 when none was given. */
    var most: int

    ghost predicate Valid()
      reads this
    {
      ValidDelimiter(delimiter) && ValidCount(most)
    }

    constructor (delimiter: byte, rflag: bool, most: int)
      requires ValidDelimiter(delimiter) && ValidCount(most)
      ensures Valid() && out == []
      ensures this.delimiter == delimiter && this.rflag == rflag && this.most == most
    {
      this.delimiter := delimiter;
      this.rflag := rflag;
      this.most := most;
      out := [];
    }

    /**
     * The draws a run over `n` items consumes, starting from the count `count`: with `-r` one index
     * below `n` per printed item (as many as the run is watched for when the count is -1); otherwise
     * one per step of the shuffle.
     */
    ghost predicate DrawsFit(draws: seq<nat>, n: nat, count: int)
    {
      if rflag then IndexDraws(draws, n) && (count == -1 || |draws| == count)
      else ShuffleDraws(draws, n)
    }

    /** `printshuf`: writes item `ind`, `strlen` bytes of it or `len` for a lone item, then the delimiter. */
    method PrintShuf(argn: int, args: array<seq<byte>>, ind: int, len: nat)
      requires argn == args.Length && 0 <= ind < argn && Readable(args[ind], argn, len)
      modifies this`out
      ensures out == old(out) + Record(args[ind], argn, len, delimiter)
    {
      var n := len;
      if argn > 1 {
        n := Strlen(args[ind]);
      }
      out := out + Tokens(args[ind][..n]);
      out := out + [Byte(delimiter)];
    }

    /**
     * `randomshuf`: prints the item at a freshly drawn index, `most` times, counting `most` down
     * to -1; with no count it never stops, and the model follows it for `|draws|` prints.
     */
    method RandomShuf(argn: int, args: array<seq<byte>>, len: nat, draws: seq<nat>)
      requires Valid() && argn == args.Length >= 1
      requires AllReadable(args[..], argn, len)
      requires IndexDraws(draws, argn) && (most == -1 || |draws| == most)
      modifies this`most, this`out
      ensures Valid() && most == -1
      ensures out == old(out) + Emitted(Picks(args[..], draws), argn, len, delimiter)
    {
      ghost var out0 := out;
      ghost var items := args[..];
      ghost var picks := Picks(items, draws);
      PicksReadable(items, draws, argn, len);
      ghost var unbounded := most == -1;
      var k := 0;
      while true
        invariant 0 <= k <= |draws| && args[..] == items
        invariant unbounded ==> most == -1
        invariant !unbounded ==> most == |draws| - k
        invariant AllReadable(picks[..k], argn, len)
        invariant out == out0 + Emitted(picks[..k], argn, len, delimiter)
        decreases |draws| - k
      {
        var go := CountDown();
        if !go {
          break;
        }
        if k == |draws| {
          // Only a run without `-n` gets here: the draws observed of it are used up.
          assert unbounded;
          break;
        }
        PrintPick(argn, args, len, draws, k, picks, out0);
        k := k + 1;
      }
      assert picks[..k] == picks;
    }

    /** The body of the `randomshuf` loop: `printshuf` of the item at the `k`-th draw. */
    method PrintPick(argn: int, args: array<seq<byte>>, len: nat, draws: seq<nat>, k: nat, ghost picks: seq<seq<byte>>, ghost out0: seq<Token>)
      requires argn == args.Length && IndexDraws(draws, argn) && k < |draws|
      requires AllReadable(args[..], argn, len) && picks == Picks(args[..], draws)
      requires AllReadable(picks[..k], argn, len)
      requires out == out0 + Emitted(picks[..k], argn, len, delimiter)
      modifies this`out
      ensures AllReadable(picks[..k + 1], argn, len)
      ensures out == out0 + Emitted(picks[..k + 1], argn, len, delimiter)
    {
      var i := draws[k];
      PrintShuf(argn, args, i, len);
      PicksReadable(args[..], draws, argn, len);
      EmittedPrefix(picks, k, argn, len, delimiter);
    }

    /** The test `most == -1 ? 1 : most-- > 0` of the sampling loops: a count is used up one by one, ending at -1. */
    method CountDown() returns (go: bool)
      modifies this`most
      ensures old(most) == -1 ==> go && most == -1
      ensures old(most) != -1 ==> go == (old(most) > 0) && most == old(most) - 1
    {
      if most == -1 {
        go := true;
      } else {
        go := most > 0;
        most := most - 1;
      }
    }

    /** `shuf`: shuffles the items in place, then prints the first `most` of them, all when there is no count. */
    method Shuf(argn: int, args: array<seq<byte>>, len: nat, draws: seq<nat>)
      requires Valid() && argn == args.Length <= INT_MAX
      requires AllReadable(args[..], argn, len)
      requires ShuffleDraws(draws, argn)
      modifies args, this`most, this`out
      ensures Valid()
      ensures args[..] == Shuffled(old(args[..]), draws)
      ensures most == PermutationCount(old(most), argn)
      ensures AllReadable(args[..], argn, len)
      ensures out == old(out) + Emitted(args[..most], argn, len, delimiter)
    {
      ghost var before := args[..];
      FisherYates(args, draws);
      ShuffleReadable(before, draws, argn, len);
      most := if most == -1 then argn else if most > argn then argn else most;
      PrintFirst(argn, args, len);
    }

    /** The print loop of `shuf`: `printshuf` of entries `0 .. most - 1`, in order. */
    method PrintFirst(argn: int, args: array<seq<byte>>, len: nat)
      requires argn == args.Length && 0 <= most <= argn
      requires AllReadable(args[..], argn, len)
      modifies this`out
      ensures out == old(out) + Emitted(args[..most], argn, len, delimiter)
    {
      ghost var items := args[..];
      ghost var out0 := out;
      assert items[..0] == [];
      var i := 0;
      while i < most
        invariant 0 <= i <= most && args[..] == items
        invariant AllReadable(items[..i], argn, len)
        invariant out == out0 + Emitted(items[..i], argn, len, delimiter)
      {
        PrintShuf(argn, args, i, len);
        EmittedPrefix(items, i, argn, len, delimiter);
        i := i + 1;
      }
    }

    /** `shufecho`: samples or shuffles the arguments of `-e`, each printed as given. */
    method ShufEcho(argn: int, args: array<seq<byte>>, draws: seq<nat>)
      requires Valid() && argn == args.Length && 1 <= argn <= INT_MAX
      requires forall k :: 0 <= k < argn ==> IsCString(args[k])
      requires DrawsFit(draws, argn, most)
      modifies args, this`most, this`out
      ensures Valid()
      ensures rflag ==> most == -1 && args[..] == old(args[..])
      ensures rflag ==> out == old(out) + Written(Texts(Picks(old(args[..]), draws)), delimiter)
      ensures !rflag ==> args[..] == Shuffled(old(args[..]), draws) && most == PermutationCount(old(most), argn)
      ensures !rflag ==> out == old(out) + Written(Texts(args[..most]), delimiter)
    {
      CStringLength(args[0]);
      var len := Strlen(args[0]);
      assert argn <= 1 ==> forall k :: 0 <= k < argn ==> len == |args[k]| - 1;
      if rflag {
        EchoSample(argn, args, len, draws);
      } else {
        EchoShuffle(argn, args, len, draws);
      }
    }

    /** The `-r` branch of `shufecho`: `randomshuf` over the arguments. */
    method EchoSample(argn: int, args: array<seq<byte>>, len: nat, draws: seq<nat>)
      requires Valid() && argn == args.Length >= 1
      requires forall k :: 0 <= k < argn ==> IsCString(args[k])
      requires argn <= 1 ==> forall k :: 0 <= k < argn ==> len == |args[k]| - 1
      requires IndexDraws(draws, argn) && (most == -1 || |draws| == most)
      modifies this`most, this`out
      ensures Valid() && most == -1
      ensures out == old(out) + Written(Texts(Picks(args[..], draws)), delimiter)
    {
      ghost var before := args[..];
      EchoEmitted(before, argn, len, delimiter);
      RandomShuf(argn, args, len, draws);
      EchoEmitted(Picks(before, draws), argn, len, delimiter);
    }

    /** The default branch of `shufecho`: `shuf` over the arguments. */
    method EchoShuffle(argn: int, args: array<seq<byte>>, len: nat, draws: seq<nat>)
      requires Valid() && argn == args.Length <= INT_MAX
      requires forall k :: 0 <= k < argn ==> IsCString(args[k])
      requires argn <= 1 ==> forall k :: 0 <= k < argn ==> len == |args[k]| - 1
      requires ShuffleDraws(draws, argn)
      modifies args, this`most, this`out
      ensures Valid()
      ensures args[..] == Shuffled(old(args[..]), draws) && most == PermutationCount(old(most), argn)
      ensures out == old(out) + Written(Texts(args[..most]), delimiter)
    {
      ghost var before := args[..];
      EchoEmitted(before, argn, len, delimiter);
      Shuf(argn, args, len, draws);
      ShuffleCStrings(before, draws);
      assert argn == 1 ==> args[..] == before;
      EchoEmitted(args[..most], argn, len, delimiter);
    }

    /**
     * `shuffile`: splits the `inputlen` bytes of the buffer into their items, clamps the count to the
     * number of items (keeping -1, so also under `-r`), then samples or shuffles them; a lone item is
     * written `inputlen` bytes long.
     */
    method ShufFile(input: array<byte>, argn: int, inputlen: nat, draws: seq<nat>)
      requires Valid()
      requires inputlen < input.Length && input[inputlen] == NUL
      requires argn == ItemCount(input[..inputlen], delimiter) <= INT_MAX
      requires DrawsFit(draws, argn, FileCount(most, argn))
      modifies this`most, this`out
      ensures Valid() && |Split(input[..inputlen], delimiter)| == argn
      ensures AllReadable(Stored(Split(input[..inputlen], delimiter)), argn, inputlen)
      ensures rflag ==> most == -1
      ensures rflag ==> out == old(out) + Emitted(Picks(Stored(Split(input[..inputlen], delimiter)), draws), argn, inputlen, delimiter)
      ensures !rflag ==> most == PermutationCount(old(most), argn)
      ensures !rflag ==> AllReadable(Shuffled(Stored(Split(input[..inputlen], delimiter)), draws), argn, inputlen)
      ensures !rflag ==> out == old(out) + Emitted(Shuffled(Stored(Split(input[..inputlen], delimiter)), draws)[..most], argn, inputlen, delimiter)
    {
      ghost var b := input[..inputlen];
      SplitCount(b, delimiter);
      FileReadable(b, delimiter);
      var args := Tokenize(input, argn, inputlen);
      ghost var items := args[..];
      var savedinputlen := inputlen;
      most := if most < argn then most else argn;
      FileCountThenPermutation(old(most), argn);
      if rflag {
        RandomShuf(argn, args, savedinputlen, draws);
      } else {
        Shuf(argn, args, savedinputlen, draws);
        ShuffleReadable(items, draws, argn, savedinputlen);
      }
    }

    /**
     * `shufintegers`: under `-r` prints `lo` plus a fresh index below `range`, counting `most` down;
     * otherwise fills an array with `lo .. lo + range - 1`, shuffles it and prints the first `most`.
     */
    method ShufIntegers(range: int, lo: int, draws: seq<nat>)
      requires Valid() && 2 <= range <= INT_MAX && 0 <= lo && lo + range - 1 <= INT_MAX
      requires DrawsFit(draws, range, most)
      modifies this`most, this`out
      ensures Valid()
      ensures rflag ==> most == -1 && out == old(out) + Numbers(Picks(Interval(lo, range), draws), delimiter)
      ensures !rflag ==> most == PermutationCount(old(most), range)
      ensures !rflag ==> out == old(out) + Numbers(Shuffled(Interval(lo, range), draws)[..most], delimiter)
    {
      var args := new int[range];
      if rflag {
        RandomIntegers(range, lo, draws);
      } else {
        FillRange(args, lo);
        FisherYates(args, draws);
        ghost var values := args[..];
        most := if most == -1 then range else if most > range then range else most;
        ghost var out0 := out;
        var i := 0;
        while i < most
          modifies this`out
          invariant 0 <= i <= most <= range && args[..] == values
          invariant out == out0 + Numbers(values[..i], delimiter)
        {
          out := out + [Decimal(args[i]), Byte(delimiter)];
          NumbersPrefix(values, i, delimiter);
          i := i + 1;
        }
      }
    }

    /**
     * `-i lo-hi`: main rejects bounds that are not ordered or that span the whole of [0, INT_MAX]
     * before anything is written; otherwise it calls `shufintegers` with `hi - lo + 1` numbers from `lo`.
     */
    method ShufRange(lo: int, hi: int, draws: seq<nat>) returns (checked: Result<int, RangeError>)
      requires Valid() && 0 <= lo <= INT_MAX && 0 <= hi <= INT_MAX
      requires lo < hi && !(lo == 0 && hi == INT_MAX) ==> DrawsFit(draws, hi - lo + 1, most)
      modifies this`most, this`out
      ensures Valid()
      ensures checked.Ok? <==> lo < hi && !(lo == 0 && hi == INT_MAX)
      ensures checked.Err? ==> out == old(out) && most == old(most)
      ensures checked.Ok? && rflag ==> out == old(out) + Numbers(Picks(Interval(lo, hi - lo + 1), draws), delimiter)
      ensures checked.Ok? && !rflag ==> most == PermutationCount(old(most), hi - lo + 1)
      ensures checked.Ok? && !rflag ==> out == old(out) + Numbers(Shuffled(Interval(lo, hi - lo + 1), draws)[..most], delimiter)
    {
      checked := CheckRange(lo, hi);
      if checked.Ok? {
        ShufIntegers(checked.value, lo, draws);
      }
    }

    /**
     * Line mode of main: the input is read into a buffer while its items are counted, then handed
     * to `shuffile`.
     */
    method ShufLines(input: seq<byte>, draws: seq<nat>)
      requires Valid() && ItemCount(input, delimiter) <= INT_MAX
      requires DrawsFit(draws, ItemCount(input, delimiter), FileCount(most, ItemCount(input, delimiter)))
      modifies this`most, this`out
      ensures Valid() && |Split(input, delimiter)| == ItemCount(input, delimiter)
      ensures rflag ==> most == -1
      ensures rflag ==> out == old(out) + Emitted(Picks(Stored(Split(input, delimiter)), draws), ItemCount(input, delimiter), |input|, delimiter)
      ensures !rflag ==> most == PermutationCount(old(most), ItemCount(input, delimiter))
      ensures !rflag ==> AllReadable(Shuffled(Stored(Split(input, delimiter)), draws), ItemCount(input, delimiter), |input|)
      ensures !rflag ==> out == old(out) + Emitted(Shuffled(Stored(Split(input, delimiter)), draws)[..most], ItemCount(input, delimiter), |input|, delimiter)
    {
      var buf, buflen, argn, doublings := Input.ReadInput(input, delimiter);
      ShufFile(buf, argn, buflen, draws);
    }

    /** The `-r` branch of `shufintegers`: `lo` plus a fresh index below `range`, printed while the count lasts. */
    method RandomIntegers(range: int, lo: int, draws: seq<nat>)
      requires Valid() && 1 <= range
      requires IndexDraws(draws, range) && (most == -1 || |draws| == most)
      modifies this`most, this`out
      ensures Valid() && most == -1
      ensures out == old(out) + Numbers(Picks(Interval(lo, range), draws), delimiter)
    {
      ghost var out0 := out;
      ghost var picks := Picks(Interval(lo, range), draws);
      ghost var unbounded := most == -1;
      var k := 0;
      while true
        invariant 0 <= k <= |draws|
        invariant unbounded ==> most == -1
        invariant !unbounded ==> most == |draws| - k
        invariant out == out0 + Numbers(picks[..k], delimiter)
        decreases |draws| - k
      {
        var go := CountDown();
        if !go {
          break;
        }
        if k == |draws| {
          // Only a run without `-n` gets here: the draws observed of it are used up.
          assert unbounded;
          break;
        }
        PrintDraw(range, lo, draws, k, picks, out0);
        k := k + 1;
      }
      assert picks[..k] == picks;
    }

    /** The body of the `-i -r` loop: `fprintf` of the `k`-th draw plus `lo`, then the delimiter. */
    method PrintDraw(range: int, lo: int, draws: seq<nat>, k: nat, ghost picks: seq<int>, ghost out0: seq<Token>)
      requires 1 <= range && IndexDraws(draws, range) && k < |draws|
      requires picks == Picks(Interval(lo, range), draws)
      requires out == out0 + Numbers(picks[..k], delimiter)
      modifies this`out
      ensures out == out0 + Numbers(picks[..k + 1], delimiter)
    {
      out := out + [Decimal(draws[k] + lo), Byte(delimiter)];
      assert picks[k] == Interval(lo, range)[draws[k]] == draws[k] + lo;
      NumbersPrefix(picks, k, delimiter);
    }

    /**
     * The split loop of `shuffile`: walks the buffer with the pointers `input` and `s`, counting the
     * bytes left in the `size_t` `left` (`inputlen`), and copies each item into storage of its own.
     */
    method Tokenize(buf: array<byte>, argn: int, inputlen: nat) returns (args: array<seq<byte>>)
      requires inputlen < buf.Length && buf[inputlen] == NUL
      requires argn == ItemCount(buf[..inputlen], delimiter)
      ensures fresh(args)
      ensures args[..] == Stored(Split(buf[..inputlen], delimiter))
    {
      ghost var b := buf[..inputlen];
      ghost var items := Split(b, delimiter);
      SplitCount(b, delimiter);
      args := new seq<byte>[argn];
      var left: nat := inputlen;
      var input: nat := 0;
      var i := 0;
      assert Trim(b, delimiter)[0..] == Trim(b, delimiter);
      while i < argn
        invariant 0 <= i <= argn == |items| == args.Length
        invariant forall k :: 0 <= k < i ==> args[k] == items[k] + [NUL]
        invariant i < argn ==> Pending(b, delimiter, items, i, input, left)
        decreases argn - i
      {
        var item, stop;
        item, input, left, stop := NextItem(buf, inputlen, input, left, items, i);
        args[i] := item;
        i := i + 1;
        if stop {
          break;
        }
      }
      StoredFrom(args[..], items);
    }

    /**
     * One pass of the split loop: the scan to the end of the item at `input`, its copy, and the step
     * past the delimiter, which ends the loop when it uses up the last byte.
     */
    method NextItem(buf: array<byte>, inputlen: nat, input: nat, left: nat, ghost items: seq<seq<byte>>, ghost i: nat)
      returns (item: seq<byte>, next: nat, rest: nat, stop: bool)
      requires inputlen < buf.Length && buf[inputlen] == NUL
      requires i < |items| && Pending(buf[..inputlen], delimiter, items, i, input, left)
      ensures item == items[i] + [NUL]
      ensures i + 1 < |items| ==> !stop && Pending(buf[..inputlen], delimiter, items, i + 1, next, rest)
      ensures stop ==> i + 1 == |items|
    {
      ghost var b := buf[..inputlen];
      var s;
      s, rest := ScanItem(buf, inputlen, b, input, left);
      NextField(b, delimiter, items, i, input, s, left);
      assert s + 1 < |b| ==> rest == |b| - s;
      var len := s - input;
      item := CopyItem(buf, b, input, len);
      next := input + len;
      next := next + 1;
      stop := false;
      if rest > 0 {
        rest := rest - 1;
        if rest == 0 {
          stop := true;
        }
      }
    }

    /**
     * The scan of `shuffile` for the end of the next item: from `input` it stops at the first
     * delimiter or, once the bytes left have run down to zero, at the end of the buffer, where the
     * post-decrement of the `size_t` count wraps it to SIZE_MAX.
     */
    method ScanItem(buf: array<byte>, end: nat, ghost b: seq<byte>, input: nat, left: nat) returns (s: nat, rest: nat)
      requires end < buf.Length && buf[end] == NUL && b == buf[..end] && input <= end && left == end - input
      ensures input <= s <= end && delimiter !in b[input..s]
      ensures s < end ==> b[s] == delimiter
      ensures rest == if s < end || delimiter == NUL then end - s else SIZE_MAX
    {
      s, rest := input, left;
      while buf[s] != delimiter
        invariant input <= s <= end && rest == end - s
        invariant delimiter !in b[input..s]
        decreases end - s
      {
        if rest == 0 {
          rest := SIZE_MAX;
          break;
        }
        rest := rest - 1;
        s := s + 1;
      }
    }
  }

  /** Shuffled readable items are readable. */
  lemma ShuffleReadable(items: seq<seq<byte>>, draws: seq<nat>, argn: int, len: nat)
    requires ShuffleDraws(draws, |items|) && AllReadable(items, argn, len)
    ensures AllReadable(Shuffled(items, draws), argn, len)
  {
    ShuffleKeeps(items, draws, item => Readable(item, argn, len));
  }

  /** Shuffled C strings are C strings. */
  lemma ShuffleCStrings(args: seq<seq<byte>>, draws: seq<nat>)
    requires ShuffleDraws(draws, |args|) && forall k :: 0 <= k < |args| ==> IsCString(args[k])
    ensures forall k :: 0 <= k < |args| ==> IsCString(Shuffled(args, draws)[k])
  {
    ShuffleKeeps(args, draws, IsCString);
  }

  /** Items drawn from readable items are readable, and the `k`-th is the item at the `k`-th draw. */
  lemma PicksReadable(items: seq<seq<byte>>, draws: seq<nat>, argn: int, len: nat)
    requires AllReadable(items, argn, len) && forall k :: 0 <= k < |draws| ==> draws[k] < |items|
    ensures AllReadable(Picks(items, draws), argn, len)
    ensures forall k :: 0 <= k < |draws| ==> Picks(items, draws)[k] == items[draws[k]]
  {
  }

  /** Storage holding each item followed by its NUL is `Stored` of the items. */
  lemma StoredFrom(xs: seq<seq<byte>>, items: seq<seq<byte>>)
    requires |xs| == |items| && forall k :: 0 <= k < |xs| ==> xs[k] == items[k] + [NUL]
    ensures xs == Stored(items)
  {
  }

  /** The split loop's state before item `i`: the bytes left count from `input`, where the items from `i` on begin. */
  ghost predicate Pending(b: seq<byte>, d: byte, items: seq<seq<byte>>, i: nat, input: nat, left: nat)
  {
    left == |b| - input && input <= |Trim(b, d)| && i <= |items| && items[i..] == Fields(Trim(b, d)[input..], d)
  }

  /** The fill loop of `shufintegers`: entry `i` becomes `lo + i`. */
  method FillRange(args: array<int>, lo: int)
    modifies args
    ensures args[..] == Interval(lo, args.Length)
  {
    for i := 0 to args.Length
      invariant forall k :: 0 <= k < i ==> args[k] == lo + k
    {
      args[i] := lo + i;
    }
  }

  /** The copy loop of `shuffile`: the `len` bytes from `input`, then the NUL that ends the item. */
  method CopyItem(buf: array<byte>, ghost b: seq<byte>, input: nat, len: nat) returns (item: seq<byte>)
    requires input + len <= |b| <= buf.Length && b == buf[..|b|]
    ensures item == b[input..input + len] + [NUL]
  {
    item := [];
    var n, from := len, input;
    while n > 0
      invariant input <= from <= input + len && n == input + len - from
      invariant item == b[input..from]
    {
      item := item + [buf[from]];
      from := from + 1;
      n := n - 1;
    }
    item := item + [NUL];
  }

  /**
   * One scan of `shuffile` from `p` stops at `q`, the first delimiter or the end of the buffer:
   * the bytes between are the next item, and the scan goes on after `q` exactly when bytes follow it.
   */
  lemma ScanField(b: seq<byte>, d: byte, p: nat, q: nat)
    requires p <= |Trim(b, d)| && p <= q <= |b| && d !in b[p..q]
    requires q < |b| ==> b[q] == d
    ensures q + 1 < |b| ==> q + 1 <= |Trim(b, d)|
    ensures Fields(Trim(b, d)[p..], d) == [b[p..q]] + (if q + 1 < |b| then Fields(Trim(b, d)[q + 1..], d) else [])
  {
    var t := Trim(b, d);
    var r := t[p..];
    if q + 1 < |b| {
      assert r[..q - p] == b[p..q] && r[q - p] == d;
      RunLenUnique(r, d, q - p);
      assert r[q - p + 1..] == t[q + 1..];
    } else {
      assert r == b[p..q];
      RunLenUnique(r, d, |r|);
    }
  }

  /** The item the scan from `p` delimits is the `i`-th, and the split goes on after `q` exactly when bytes follow it. */
  lemma NextField(b: seq<byte>, d: byte, items: seq<seq<byte>>, i: nat, p: nat, q: nat, left: nat)
    requires i < |items| && Pending(b, d, items, i, p, left)
    requires p <= q <= |b| && d !in b[p..q] && (q < |b| ==> b[q] == d)
    ensures items[i] == b[p..q]
    ensures q + 1 < |b| ==> i + 1 < |items| && Pending(b, d, items, i + 1, q + 1, |b| - (q + 1))
    ensures q + 1 >= |b| ==> i + 1 == |items|
  {
    ScanField(b, d, p, q);
    assert items[i] == items[i..][0];
    assert items[i + 1..] == items[i..][1..];
  }
}
