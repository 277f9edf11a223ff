/**
 * The sampling engine: the Fisher–Yates shuffle shuf runs in place over its items, the counts
 * that decide how many of them it prints, and the index draws of sampling with replacement.
 *
 * `arc4random_uniform` is an oracle: a shuffle or a sampling run is given the values it returns,
 * in the order it is called, as a sequence `draws`.
 */
module Sampler {
  import opened Bytes

  /** `s` with the entries at `i` and `j` exchanged. */
  function Swap<T>(s: seq<T>, i: nat, j: nat): (r: seq<T>)
    requires i < |s| && j < |s|
    ensures |r| == |s|
  {
    s[i := s[j]][j := s[i]]
  }

  /**
   * Draws fit for the steps `i`, `i - 1`, ..., `1` of the shuffle: the `k`-th draw is made
   * with the bound `i - k + 1`, so it is at most `i - k`.
   */
  ghost predicate StepDraws(draws: seq<nat>, i: nat)
  {
    |draws| == i && forall k :: 0 <= k < i ==> draws[k] <= i - k
  }

  /** Draws fit for shuffling `n` items: one per step from `n - 1` down to `1`. */
  ghost predicate ShuffleDraws(draws: seq<nat>, n: nat)
  {
    if n == 0 then draws == [] else StepDraws(draws, n - 1)
  }

  /** The steps `i`, `i - 1`, ..., `1` of the shuffle: step `i` swaps entry `i` with the drawn entry. */
  ghost function Steps<T>(s: seq<T>, i: nat, draws: seq<nat>): (r: seq<T>)
    requires i < |s| && StepDraws(draws, i)
    ensures |r| == |s|
    decreases i
  {
    if i == 0 then s else Steps(Swap(s, i, draws[0]), i - 1, draws[1..])
  }

  /** The arrangement the shuffle leaves `s` in for the given draws. */
  ghost function Shuffled<T>(s: seq<T>, draws: seq<nat>): (r: seq<T>)
    requires ShuffleDraws(draws, |s|)
    ensures |r| == |s|
  {
    if |s| == 0 then s else Steps(s, |s| - 1, draws)
  }

  /**
   * The swap loop of `shuf` and `shufintegers`: for `i` from `n - 1` down to `1`, swap
   * entry `i` with entry `j`, `j` drawn from `[0, i]`.
   */
  method FisherYates<T>(a: array<T>, draws: seq<nat>)
    requires ShuffleDraws(draws, a.Length)
    modifies a
    ensures a[..] == Shuffled(old(a[..]), draws)
  {
    var n := a.Length;
    var i := n - 1;
    while i > 0
      invariant -1 <= i < n && (i == -1 <==> n == 0)
      invariant n > 0 ==> StepDraws(draws[n - 1 - i..], i)
      invariant n > 0 ==> Steps(a[..], i, draws[n - 1 - i..]) == Shuffled(old(a[..]), draws)
    {
      ghost var before := a[..];
      var j := draws[n - 1 - i];
      var t := a[j];
      a[j] := a[i];
      a[i] := t;
      assert a[..] == Swap(before, i, j);
      assert draws[n - 1 - i..][1..] == draws[n - 1 - (i - 1)..];
      i := i - 1;
    }
  }

  /** A swap keeps the multiset of entries. */
  lemma SwapPermutes<T>(s: seq<T>, i: nat, j: nat)
    requires i < |s| && j < |s|
    ensures multiset(Swap(s, i, j)) == multiset(s)
  {
    var t := s[i := s[j]];
    assert multiset(t) == multiset(s) - multiset{s[i]} + multiset{s[j]};
  }

  lemma {:induction false} StepsPermutes<T>(s: seq<T>, i: nat, draws: seq<nat>)
    requires i < |s| && StepDraws(draws, i)
    ensures multiset(Steps(s, i, draws)) == multiset(s)
    decreases i
  {
    if i > 0 {
      SwapPermutes(s, i, draws[0]);
      StepsPermutes(Swap(s, i, draws[0]), i - 1, draws[1..]);
    }
  }

  /** Whatever the draws, the shuffle is a permutation: same length, same multiset. */
  lemma ShufflePermutes<T>(s: seq<T>, draws: seq<nat>)
    requires ShuffleDraws(draws, |s|)
    ensures |Shuffled(s, draws)| == |s|
    ensures multiset(Shuffled(s, draws)) == multiset(s)
  {
    if |s| > 0 {
      StepsPermutes(s, |s| - 1, draws);
    }
  }

  /** The steps from `i` down leave the entries above `i` where they are. */
  lemma {:induction false} StepsKeepAbove<T>(s: seq<T>, i: nat, draws: seq<nat>, p: nat)
    requires i < p < |s| && StepDraws(draws, i)
    ensures Steps(s, i, draws)[p] == s[p]
    decreases i
  {
    if i > 0 {
      StepsKeepAbove(Swap(s, i, draws[0]), i - 1, draws[1..], p);
    }
  }

  ghost predicate Distinct<T>(s: seq<T>)
  {
    forall p, q :: 0 <= p < q < |s| ==> s[p] != s[q]
  }

  lemma {:induction false} StepsInjective<T>(s: seq<T>, i: nat, d1: seq<nat>, d2: seq<nat>)
    requires i < |s| && Distinct(s) && StepDraws(d1, i) && StepDraws(d2, i)
    requires Steps(s, i, d1) == Steps(s, i, d2)
    ensures d1 == d2
    decreases i
  {
    if i > 0 {
      var t1, t2 := Swap(s, i, d1[0]), Swap(s, i, d2[0]);
      StepsKeepAbove(t1, i - 1, d1[1..], i);
      StepsKeepAbove(t2, i - 1, d2[1..], i);
      assert s[d1[0]] == s[d2[0]];
      assert d1[0] == d2[0];
      assert Distinct(t1) by {
        forall p, q | 0 <= p < q < |t1| ensures t1[p] != t1[q] {
          var p', q' := if p == i then d1[0] else if p == d1[0] then i else p,
                        if q == i then d1[0] else if q == d1[0] then i else q;
          assert t1[p] == s[p'] && t1[q] == s[q'] && p' != q';
        }
      }
      StepsInjective(t1, i - 1, d1[1..], d2[1..]);
      assert d1 == [d1[0]] + d1[1..] && d2 == [d2[0]] + d2[1..];
    }
  }

  /**
   * Distinct draw sequences shuffle distinct items into distinct arrangements: the map from draws
   * to results is one-to-one, the counting basis of the shuffle's uniformity.
   */
  lemma ShuffleInjective<T>(s: seq<T>, d1: seq<nat>, d2: seq<nat>)
    requires Distinct(s) && ShuffleDraws(d1, |s|) && ShuffleDraws(d2, |s|)
    requires Shuffled(s, d1) == Shuffled(s, d2)
    ensures d1 == d2
  {
    if |s| > 0 {
      StepsInjective(s, |s| - 1, d1, d2);
    }
  }

  /** Bringing `t[i]` to position `i` leaves a smaller instance of the same problem. */
  lemma SwapTowards<T>(s: seq<T>, t: seq<T>, i: nat, j: nat)
    requires 0 < i < |s| == |t| && j <= i && s[j] == t[i]
    requires multiset(s[..i + 1]) == multiset(t[..i + 1]) && s[i + 1..] == t[i + 1..]
    ensures multiset(Swap(s, i, j)[..i]) == multiset(t[..i])
    ensures Swap(s, i, j)[i..] == t[i..]
  {
    var u := Swap(s, i, j);
    assert multiset(u[..i + 1]) == multiset(s[..i + 1]) by {
      assert u[..i + 1] == Swap(s[..i + 1], i, j);
      SwapPermutes(s[..i + 1], i, j);
    }
    assert u[i] == t[i];
    DropLast(u, t, i);
    assert u[i + 1..] == s[i + 1..];
    assert u[i..] == [u[i]] + u[i + 1..] && t[i..] == [t[i]] + t[i + 1..];
  }

  /** Sequences that agree after their first entry and hold the same first entry are equal. */
  lemma ReachOne<T>(s: seq<T>, t: seq<T>)
    requires 0 < |s| == |t| && multiset(s[..1]) == multiset(t[..1]) && s[1..] == t[1..]
    ensures s == t
  {
    assert s[..1] == [s[0]] && t[..1] == [t[0]];
    assert s[0] in multiset{t[0]};
    assert s == [s[0]] + s[1..] && t == [t[0]] + t[1..];
  }

  /** The entry `t` wants at `i` is somewhere in `s` up to `i`. */
  lemma PickSource<T>(s: seq<T>, t: seq<T>, i: nat) returns (j: nat)
    requires i < |s| == |t| && multiset(s[..i + 1]) == multiset(t[..i + 1])
    ensures j <= i && s[j] == t[i]
  {
    assert t[i] in multiset(t[..i + 1]) by { assert t[..i + 1][i] == t[i]; }
    assert t[i] in s[..i + 1];
    j :| 0 <= j <= i && s[j] == t[i];
  }

  /** A draw at most `i` in front of valid draws for the steps below `i`. */
  lemma StepDrawsCons(j: nat, rest: seq<nat>, i: nat)
    requires 0 < i && j <= i && StepDraws(rest, i - 1)
    ensures StepDraws([j] + rest, i) && ([j] + rest)[0] == j && ([j] + rest)[1..] == rest
  {
    var draws := [j] + rest;
    assert draws[1..] == rest;
    forall k | 0 <= k < i ensures draws[k] <= i - k {
      if k > 0 { assert draws[k] == rest[k - 1]; }
    }
  }

  /** Equal multisets up to `i` that share the entry at `i` are equal below `i`. */
  lemma DropLast<T>(u: seq<T>, t: seq<T>, i: nat)
    requires i < |u| && i < |t| && u[i] == t[i] && multiset(u[..i + 1]) == multiset(t[..i + 1])
    ensures multiset(u[..i]) == multiset(t[..i])
  {
    assert u[..i + 1] == u[..i] + [u[i]] && t[..i + 1] == t[..i] + [t[i]];
    forall x ensures multiset(u[..i])[x] == multiset(t[..i])[x] {
      assert multiset(u[..i + 1])[x] == multiset(t[..i + 1])[x];
    }
  }

  /** Some valid draws take `s` to `t` when the two agree above `i` and hold the same entries up to `i`. */
  lemma {:induction false} StepsReach<T>(s: seq<T>, t: seq<T>, i: nat)
    requires i < |s| == |t|
    requires multiset(s[..i + 1]) == multiset(t[..i + 1]) && s[i + 1..] == t[i + 1..]
    ensures exists draws :: StepDraws(draws, i) && Steps(s, i, draws) == t
    decreases i
  {
    if i == 0 {
      ReachOne(s, t);
      assert StepDraws([], 0) && Steps(s, 0, []) == t;
    } else {
      var j := PickSource(s, t, i);
      var u := Swap(s, i, j);
      SwapTowards(s, t, i, j);
      StepsReach(u, t, i - 1);
      var rest :| StepDraws(rest, i - 1) && Steps(u, i - 1, rest) == t;
      StepDrawsCons(j, rest, i);
      var draws := [j] + rest;
      assert Steps(s, i, draws) == t;
    }
  }

  /**
   * Every rearrangement of the items is the result of some valid draws; with `ShuffleInjective`,
   * the draws and the arrangements are in one-to-one correspondence.
   */
  lemma ShuffleReaches<T>(s: seq<T>, t: seq<T>)
    requires |s| == |t| && multiset(s) == multiset(t)
    ensures exists draws :: ShuffleDraws(draws, |s|) && Shuffled(s, draws) == t
  {
    if |s| == 0 {
      assert ShuffleDraws([], 0) && Shuffled(s, []) == t;
    } else {
      var n := |s|;
      assert s[..n] == s && t[..n] == t && s[n..] == [] == t[n..];
      StepsReach(s, t, n - 1);
      var draws :| StepDraws(draws, n - 1) && Steps(s, n - 1, draws) == t;
      assert ShuffleDraws(draws, n) && Shuffled(s, draws) == t;
    }
  }

  /** Shuffling keeps any property every item has. */
  lemma ShuffleKeeps<T>(s: seq<T>, draws: seq<nat>, P: T -> bool)
    requires ShuffleDraws(draws, |s|)
    requires forall k :: 0 <= k < |s| ==> P(s[k])
    ensures forall k :: 0 <= k < |s| ==> P(Shuffled(s, draws)[k])
  {
    var r := Shuffled(s, draws);
    ShufflePermutes(s, draws);
    forall k | 0 <= k < |r| ensures P(r[k]) {
      assert r[k] in multiset(r);
      assert r[k] in multiset(s);
      var m :| 0 <= m < |s| && s[m] == r[k];
    }
  }

  /**
   * A prefix of a shuffle of distinct items repeats none of them and holds only items of the
   * input: the first `count` entries are `count` different input items.
   */
  lemma ShufflePrefix<T>(s: seq<T>, draws: seq<nat>, count: nat)
    requires ShuffleDraws(draws, |s|) && count <= |s|
    ensures multiset(Shuffled(s, draws)[..count]) <= multiset(s)
    ensures Distinct(s) ==> Distinct(Shuffled(s, draws)[..count])
  {
    var r := Shuffled(s, draws);
    ShufflePermutes(s, draws);
    assert r == r[..count] + r[count..];
    assert multiset(r) == multiset(r[..count]) + multiset(r[count..]);
    if Distinct(s) {
      PermutationDistinct(s, r);
      var prefix := r[..count];
      forall p, q | 0 <= p < q < count ensures prefix[p] != prefix[q] {
        assert prefix[p] == r[p] && prefix[q] == r[q];
      }
    }
  }

  /** A rearrangement of a sequence without repeats has none either. */
  lemma PermutationDistinct<T>(s: seq<T>, r: seq<T>)
    requires multiset(s) == multiset(r) && Distinct(s)
    ensures Distinct(r)
  {
    forall p, q | 0 <= p < q < |r| ensures r[p] != r[q] {
      if r[p] == r[q] {
        RepeatCounted(r, p, q);
        assert r[p] in multiset(s);
        var m :| 0 <= m < |s| && s[m] == r[p];
        DistinctCount(s, m);
        assert false;
      }
    }
  }

  /** An entry found at two positions is counted at least twice. */
  lemma RepeatCounted<T>(r: seq<T>, p: nat, q: nat)
    requires p < q < |r| && r[p] == r[q]
    ensures multiset(r)[r[p]] >= 2
  {
    assert r == r[..p] + [r[p]] + r[p + 1..q] + [r[q]] + r[q + 1..];
  }

  /** An entry of a sequence without repeats occurs once. */
  lemma {:induction false} DistinctCount<T>(s: seq<T>, m: nat)
    requires Distinct(s) && m < |s|
    ensures multiset(s)[s[m]] == 1
  {
    assert s == s[..m] + [s[m]] + s[m + 1..];
    assert s[m] !in s[..m] by {
      forall p | 0 <= p < m ensures s[..m][p] != s[m] { assert s[..m][p] == s[p]; }
    }
    assert s[m] !in s[m + 1..] by {
      var after := s[m + 1..];
      forall p | 0 <= p < |after| ensures after[p] != s[m] { assert after[p] == s[m + 1 + p]; }
    }
  }

  /** How many shuffled entries `shuf` prints: all of them for -1, at most `most` otherwise. */
  function PermutationCount(most: int, n: nat): (count: nat)
    requires most >= -1
    ensures count <= n
    ensures most == -1 ==> count == n
    ensures most >= 0 ==> count <= most && (count == most || count == n)
    ensures most == 0 ==> count == 0
  {
    if most == -1 then n else if most > n then n else most
  }

  /** The clamp of file mode: a count of at most `n`, with -1 (unbounded) kept as it is. */
  function FileCount(most: int, n: nat): (m: int)
    requires most >= -1
    ensures most == -1 <==> m == -1
    ensures m <= n && m <= most
    ensures m >= 0 ==> m == most || m == n
  {
    if most < n then most else n
  }

  /** In permutation mode the file-mode clamp changes nothing: `shuf` clamps the same way again. */
  lemma FileCountThenPermutation(most: int, n: nat)
    requires most >= -1
    ensures PermutationCount(FileCount(most, n), n) == PermutationCount(most, n)
  {
  }

  /** Draws fit for sampling with replacement from `n` items: each is an index below `n`. */
  ghost predicate IndexDraws(draws: seq<nat>, n: nat)
  {
    forall k :: 0 <= k < |draws| ==> draws[k] < n
  }

  /** The items sampling with replacement picks: one per draw, repeats allowed. */
  function Picks<T>(s: seq<T>, draws: seq<nat>): (r: seq<T>)
    requires forall k :: 0 <= k < |draws| ==> draws[k] < |s|
    ensures |r| == |draws|
    ensures forall k :: 0 <= k < |r| ==> r[k] in s
  {
    seq(|draws|, k requires 0 <= k < |draws| => s[draws[k]])
  }

  /** The items of `-i lo-hi`: the integers `lo`, `lo + 1`, ..., `lo + n - 1`. */
  function Interval(lo: int, n: nat): (r: seq<int>)
    ensures |r| == n
  {
    seq(n, i requires 0 <= i < n => lo + i)
  }

  /** The filled array runs up one at a time from `lo` to `lo + n - 1`. */
  lemma IntervalExact(lo: int, n: nat)
    ensures n > 0 ==> Interval(lo, n)[0] == lo && Interval(lo, n)[n - 1] == lo + n - 1
    ensures forall i, j :: 0 <= i < j < n ==> Interval(lo, n)[i] < Interval(lo, n)[j]
  {
  }

  /** Sampling integers with replacement prints only integers of the range. */
  lemma SampledIntegersInRange(lo: int, n: nat, draws: seq<nat>)
    requires IndexDraws(draws, n)
    ensures forall k :: 0 <= k < |draws| ==> lo <= Picks(Interval(lo, n), draws)[k] < lo + n
  {
    var r := Picks(Interval(lo, n), draws);
    forall k | 0 <= k < |draws| ensures lo <= r[k] < lo + n {
      assert r[k] == Interval(lo, n)[draws[k]];
    }
  }

  /** A shuffled range prints only integers of the range, none of them twice. */
  lemma ShuffledIntegersInRange(lo: int, n: nat, draws: seq<nat>, count: nat)
    requires ShuffleDraws(draws, n) && count <= n
    ensures Distinct(Shuffled(Interval(lo, n), draws)[..count])
    ensures forall k :: 0 <= k < count ==> lo <= Shuffled(Interval(lo, n), draws)[k] < lo + n
  {
    var s := Interval(lo, n);
    assert Distinct(s);
    ShufflePrefix(s, draws, count);
    ShuffleKeeps(s, draws, x => lo <= x < lo + n);
  }
}
