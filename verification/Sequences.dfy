/** Sequences with an element put in, one taken out, or turned. */
module Sequences {

  // s with x put in at place k
  function Spliced<T>(s: seq<T>, k: nat, x: T): seq<T>
    requires k <= |s|
  {
    s[..k] + [x] + s[k..]
  }

  lemma SplicedAt<T>(s: seq<T>, k: nat, x: T, i: nat)
    requires k <= |s| && i <= |s|
    ensures Spliced(s, k, x)[i] == if i < k then s[i] else if i == k then x else s[i - 1]
  { }

  // s without the element at place k
  function Without<T>(s: seq<T>, k: nat): seq<T>
    requires k < |s|
  {
    s[..k] + s[k + 1..]
  }

  lemma WithoutAt<T>(s: seq<T>, k: nat)
    requires k < |s|
    ensures |Without(s, k)| == |s| - 1
    ensures forall i :: 0 <= i < |s| - 1 ==> Without(s, k)[i] == s[if i < k then i else i + 1]
  { }

  // s, begun anew at place k
  function Rotated<T>(s: seq<T>, k: nat): seq<T>
    requires k <= |s|
  {
    s[k..] + s[..k]
  }
}
