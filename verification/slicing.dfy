/** Python's slice `s[lo:hi]` on a sequence: negative bounds count from the
    end, and bounds outside the sequence are clamped rather than rejected.
    Every slice in the model (the train/validation cut, the batch windows,
    and the generation context `idx[:, -block_size:]`) goes through here. */
module Slicing {

  /** Where a slice bound lands in a sequence of length `len`. */
  function ClampBound(i: int, len: nat): (r: nat)
    ensures r <= len
    ensures 0 <= i <= len ==> r == i
    ensures i < 0 && -i <= len ==> r == len + i
    ensures i < 0 && len < -i ==> r == 0
    ensures len < i ==> r == len
  {
    if i < 0 then (if len + i < 0 then 0 else len + i)
    else if i > len then len
    else i
  }

  /** `s[lo:hi]`: the run of `s` between the clamped bounds, empty when
      they cross. */
  function Slice<T>(s: seq<T>, lo: int, hi: int): (r: seq<T>)
    ensures 0 <= lo <= hi <= |s| ==> r == s[lo..hi]
    ensures |r| <= |s|
  {
    var a := ClampBound(lo, |s|);
    var b := ClampBound(hi, |s|);
    if a <= b then s[a..b] else []
  }

  /** `s[:hi]` */
  function Prefix<T>(s: seq<T>, hi: int): (r: seq<T>)
    ensures 0 <= hi <= |s| ==> r == s[..hi]
    ensures hi < 0 && -hi <= |s| ==> r == s[..|s| + hi]
  {
    Slice(s, 0, hi)
  }

  /** `s[lo:]` */
  function Suffix<T>(s: seq<T>, lo: int): (r: seq<T>)
    ensures 0 <= lo <= |s| ==> r == s[lo..]
    ensures lo < 0 && -lo <= |s| ==> r == s[|s| + lo..]
    ensures lo < 0 && |s| < -lo ==> r == s
  {
    Slice(s, lo, |s|)
  }

  /** `s[:n] + s[n:] == s` for every integer `n`, whatever its sign or size. */
  lemma PrefixSuffixCover<T>(s: seq<T>, n: int)
    ensures Prefix(s, n) + Suffix(s, n) == s
  {
    var c := ClampBound(n, |s|);
    assert Prefix(s, n) == s[..c];
    assert Suffix(s, n) == s[c..];
    assert s[..c] + s[c..] == s;
  }

  /** `s[-k:]` keeps the last `k` elements when there are that many, and the
      whole sequence otherwise; `k == 0` is Python's `-0 == 0` and keeps
      everything. */
  lemma LastK<T>(s: seq<T>, k: int)
    requires k >= 0
    ensures k <= |s| && k > 0 ==> Suffix(s, -k) == s[|s| - k..] && |Suffix(s, -k)| == k
    ensures |s| < k ==> Suffix(s, -k) == s
    ensures k == 0 ==> Suffix(s, -k) == s
  {
  }
}
