/** Sequences without duplicates, and sequences less one element. */
module Sequences {

  ghost predicate Distinct<T(!new)>(s: seq<T>) {
    forall i, j | 0 <= i < j < |s| :: s[i] != s[j]
  }

  function Without<T>(s: seq<T>, k: nat): seq<T>
    requires k < |s|
  {
    s[..k] + s[k + 1..]
  }

  /** Taking an earlier element out leaves the last one last. */
  lemma WithoutInit<T>(s: seq<T>, k: nat)
    requires k < |s| - 1
    ensures Without(s, k) == Without(s[..|s| - 1], k) + [s[|s| - 1]]
    ensures Without(s, k)[..|s| - 2] == Without(s[..|s| - 1], k)
  {
  }
}
