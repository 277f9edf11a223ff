/** What main requires of the numbers it parsed from `-n count` and `-i lo-hi`. */
module Options {
  import opened Bytes

  datatype RangeError = LoNotBelowHi | RangeTooLarge

  datatype Result<T, E> = Ok(value: T) | Err(error: E)

  /** The values `most` takes: -1 when no `-n` was given, else a count `strtonum` took from [0, INT_MAX]. */
  predicate ValidCount(most: int)
  {
    most == -1 || 0 <= most <= INT_MAX
  }

  /**
   * The checks main makes of `-i lo-hi` once both bounds parsed as numbers in [0, INT_MAX],
   * and, when they pass, the size `hi - lo + 1` it passes to `shufintegers`: `hi` is included.
   */
  function CheckRange(lo: int, hi: int): (r: Result<int, RangeError>)
    requires 0 <= lo <= INT_MAX && 0 <= hi <= INT_MAX
    ensures r.Ok? <==> lo < hi && !(lo == 0 && hi == INT_MAX)
    ensures r.Err? ==> (r.error == LoNotBelowHi <==> lo >= hi)
    ensures r.Ok? ==> 2 <= r.value <= INT_MAX && lo + r.value - 1 == hi
  {
    if lo >= hi then Err(LoNotBelowHi)
    else if hi == INT_MAX && lo == 0 then Err(RangeTooLarge)
    else Ok(hi - lo + 1)
  }

  /** Among ordered bounds, the `lo == 0 && hi == INT_MAX` check is exactly the one that keeps `hi - lo + 1` an `int`. */
  lemma RangeSizeFits(lo: int, hi: int)
    requires 0 <= lo < hi <= INT_MAX
    ensures hi - lo + 1 <= INT_MAX <==> !(lo == 0 && hi == INT_MAX)
  {
  }
}
