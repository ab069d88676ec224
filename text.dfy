/** Character-level helpers on `string` (= `seq<char>`) used by the scanners. */
module Text {
  import opened Wrappers

  /** `pat` occurs in `s` starting at index `k`. */
  predicate At(s: string, k: int, pat: string) {
    0 <= k && k + |pat| <= |s| && s[k..k + |pat|] == pat
  }

  /** Rust's `str::contains(&str)`. */
  predicate Contains(s: string, pat: string) {
    exists k | 0 <= k <= |s| - |pat| :: At(s, k, pat)
  }

  /** The largest `k` in `[lo, hi]` at which `pat` occurs in `s`. */
  function LastAt(s: string, pat: string, lo: int, hi: int): (r: Option<int>)
    ensures r.Some? ==> lo <= r.value <= hi && At(s, r.value, pat)
    ensures r.Some? ==> forall k :: r.value < k <= hi ==> !At(s, k, pat)
    ensures r.None? ==> forall k :: lo <= k <= hi ==> !At(s, k, pat)
    decreases hi - lo
  {
    if hi < lo then None
    else if At(s, hi, pat) then Some(hi)
    else LastAt(s, pat, lo, hi - 1)
  }

  /** The index of the first occurrence of `c` in `s`. */
  function FirstIndex(s: string, c: char): (r: Option<nat>)
    ensures r.Some? ==> r.value < |s| && s[r.value] == c && c !in s[..r.value]
    ensures r.None? <==> c !in s
  {
    if |s| == 0 then None
    else if s[0] == c then Some(0)
    else
      match FirstIndex(s[1..], c)
      case None => None
      case Some(k) =>
        assert s[1..][..k] == s[1..k + 1];
        assert s[..k + 1] == [s[0]] + s[1..k + 1];
        Some(k + 1)
  }
}
