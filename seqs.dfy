/** Searches and filters over sequences keyed by a projection: the model of
    Rust's `iter().find(|x| x.id == k)`, `iter().any(..)` and
    `Vec::retain(|x| x.id != k)` on the source's lists. */
module Seqs {

  import opened Wrappers

  /** The position of the first element whose key is `k`, as `find` returns it. */
  function IndexOfKey<T, K(==)>(s: seq<T>, key: T -> K, k: K): (r: Option<nat>)
    ensures r.Some? ==> r.value < |s| && key(s[r.value]) == k
    ensures r.Some? ==> forall j :: 0 <= j < r.value ==> key(s[j]) != k
    ensures r.None? <==> forall j :: 0 <= j < |s| ==> key(s[j]) != k
  {
    if |s| == 0 then None
    else if key(s[0]) == k then Some(0)
    else match IndexOfKey(s[1..], key, k) {
      case None => None
      case Some(i) => Some(i + 1)
    }
  }

  /** `retain(|x| key(x) != k)`: the elements whose key is not `k`, in order. */
  function RemoveKey<T(!new), K(==)>(s: seq<T>, key: T -> K, k: K): (r: seq<T>)
    ensures |r| <= |s|
    ensures forall x :: x in r <==> x in s && key(x) != k
    ensures (forall j :: 0 <= j < |s| ==> key(s[j]) != k) ==> r == s
  {
    if |s| == 0 then []
    else if key(s[0]) == k then RemoveKey(s[1..], key, k)
    else [s[0]] + RemoveKey(s[1..], key, k)
  }

  /** `retain(|x| *x != v)`: every element except `v`, in order. */
  function Without<T(==,!new)>(s: seq<T>, v: T): (r: seq<T>)
    ensures |r| <= |s|
    ensures v in s ==> |r| < |s|
    ensures forall x :: x in r <==> x in s && x != v
    ensures v !in s ==> r == s
  {
    if |s| == 0 then []
    else if s[0] == v then Without(s[1..], v)
    else [s[0]] + Without(s[1..], v)
  }

  /** A list of fewer than `n` numbers misses some number below `n`. */
  lemma {:induction false} MissingBelow(ids: seq<nat>, n: nat)
    requires |ids| < n
    ensures exists v: nat :: v < n && v !in ids
    decreases n
  {
    if n - 1 in ids {
      var rest := Without<nat>(ids, n - 1);
      MissingBelow(rest, n - 1);
      var v: nat :| v < n - 1 && v !in rest;
      assert v !in ids;
    } else {
      assert n - 1 !in ids;
    }
  }
}
