/** Slices of sequences, and sequences with a slice replaced. */
module Slices {

  /** s with t written at i. */
  function Overwrite<T>(s: seq<T>, i: nat, t: seq<T>): (r: seq<T>)
    requires i + |t| <= |s|
    ensures |r| == |s|
  {
    s[..i] + t + s[i + |t|..]
  }

  lemma OverwriteMore<T>(s: seq<T>, i: nat, t: seq<T>, x: T)
    requires i + |t| < |s|
    ensures Overwrite(s, i, t)[i + |t| := x] == Overwrite(s, i, t + [x])
  {
  }

  lemma OverwriteAgain<T>(s: seq<T>, t: seq<T>, u: seq<T>)
    requires |t| <= |u| <= |s|
    ensures Overwrite(Overwrite(s, 0, t), 0, u) == Overwrite(s, 0, u)
  {
  }

  lemma OverwriteBeside<T>(s: seq<T>, i: nat, t: seq<T>, lo: nat, hi: nat)
    requires i + |t| <= |s| && lo <= hi <= |s| && (hi <= i || i + |t| <= lo)
    ensures Overwrite(s, i, t)[lo..hi] == s[lo..hi]
  {
  }

  lemma PrefixOfSum<T>(s: seq<T>, t: seq<T>, n: nat)
    requires n <= |s|
    ensures (s + t)[..n] == s[..n]
  {
  }

  lemma SliceOfSlice<T>(s: seq<T>, start: nat, end: nat, lo: nat, hi: nat)
    requires start <= end <= |s| && lo <= hi <= end - start
    ensures s[start..end][lo..hi] == s[start + lo..start + hi]
  {
    var a, b := s[start..end][lo..hi], s[start + lo..start + hi];
    assert |a| == |b| && forall k :: 0 <= k < |a| ==> a[k] == b[k];
  }
}
