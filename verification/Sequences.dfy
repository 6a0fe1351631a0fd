/** Sequences: what the layers share. */
module Sequences {
  import opened Options

  lemma Regroup<T>(a: seq<T>, b: seq<T>, c: seq<T>)
    ensures (a + b) + c == a + (b + c)
  {
  }

  /** `s` without its element `i`. */
  function Without<T>(s: seq<T>, i: nat): (r: seq<T>)
    requires i < |s|
    ensures |r| == |s| - 1
  {
    s[..i] + s[i + 1..]
  }

  /** `memchr`: the first `c` among the `n` elements from `lo` on. */
  method MemChr<T(==)>(s: seq<T>, lo: nat, n: nat, c: T) returns (r: Option<nat>)
    requires lo + n <= |s|
    ensures r.None? ==> c !in s[lo..lo + n]
    ensures r.Some? ==> lo <= r.value < lo + n && s[r.value] == c && c !in s[lo..r.value]
  {
    for i := lo to lo + n
      invariant c !in s[lo..i]
    {
      if s[i] == c {
        return Some(i);
      }
    }
    return None;
  }
}
