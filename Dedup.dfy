/** Order-preserving de-duplication by a key: the `seen`-set loops over PDF links keyed by
    `url` (OECDSIDS/TESTSTEP2.py, OECDSIDS/step2_extractfromxls.py) and `dict.fromkeys`
    over URL strings (INGredients_Analysis/Extractsccspdfs.py). */
module Dedup {

  /** The keys of the elements of `xs`. */
  function KeySet<T, K>(xs: seq<T>, key: T -> K): set<K> {
    set i | 0 <= i < |xs| :: key(xs[i])
  }

  /** `xs` with every element dropped whose key an earlier element already has. */
  function DedupBy<T, K(==)>(xs: seq<T>, key: T -> K): (r: seq<T>)
    ensures |r| <= |xs|
  {
    if xs == [] then []
    else
      var init := xs[..|xs| - 1];
      var prev := DedupBy(init, key);
      if key(xs[|xs| - 1]) in KeySet(init, key) then prev else prev + [xs[|xs| - 1]]
  }

  /** The position of the first element of `xs` whose key is `k`. */
  function FirstIndex<T, K(==)>(xs: seq<T>, key: T -> K, k: K): (i: nat)
    requires k in KeySet(xs, key)
    ensures i < |xs| && key(xs[i]) == k
    ensures forall j :: 0 <= j < i ==> key(xs[j]) != k
  {
    if key(xs[0]) == k then 0
    else
      var w :| 0 <= w < |xs| && key(xs[w]) == k;
      assert key(xs[1..][w - 1]) == k;
      FirstIndex(xs[1..], key, k) + 1
  }

  lemma KeySetSnoc<T, K>(xs: seq<T>, x: T, key: T -> K)
    ensures KeySet(xs + [x], key) == KeySet(xs, key) + {key(x)}
  {
    var ys := xs + [x];
    assert forall i :: 0 <= i < |xs| ==> ys[i] == xs[i];
    assert ys[|xs|] == x;
  }

  /** Appending an element does not move the first occurrence of a key already present,
      and a new key first occurs at the appended position. */
  lemma FirstIndexSnoc<T, K>(xs: seq<T>, x: T, key: T -> K, k: K)
    requires k in KeySet(xs + [x], key)
    ensures k in KeySet(xs, key) ==> FirstIndex(xs + [x], key, k) == FirstIndex(xs, key, k)
    ensures k !in KeySet(xs, key) ==> FirstIndex(xs + [x], key, k) == |xs|
  {
    var ys := xs + [x];
    assert forall j :: 0 <= j < |xs| ==> ys[j] == xs[j];
    assert forall j :: 0 <= j < |xs| ==> key(xs[j]) in KeySet(xs, key);
  }

  /** Every key of the input survives de-duplication, and no other key appears. */
  lemma {:induction false} DedupByKeys<T, K>(xs: seq<T>, key: T -> K)
    ensures KeySet(DedupBy(xs, key), key) == KeySet(xs, key)
  {
    if xs != [] {
      var init, last := xs[..|xs| - 1], xs[|xs| - 1];
      assert xs == init + [last];
      DedupByKeys(init, key);
      KeySetSnoc(init, last, key);
      KeySetSnoc(DedupBy(init, key), last, key);
    }
  }

  /** The output keys are pairwise distinct. */
  lemma {:induction false} DedupByDistinct<T, K>(xs: seq<T>, key: T -> K)
    ensures forall i, j :: 0 <= i < j < |DedupBy(xs, key)| ==>
      key(DedupBy(xs, key)[i]) != key(DedupBy(xs, key)[j])
  {
    if xs != [] {
      var init, last := xs[..|xs| - 1], xs[|xs| - 1];
      var prev := DedupBy(init, key);
      DedupByDistinct(init, key);
      if key(last) !in KeySet(init, key) {
        DedupByKeys(init, key);
        forall i | 0 <= i < |prev|
          ensures key(prev[i]) != key(last)
        {
          assert key(prev[i]) in KeySet(prev, key);
        }
      }
    }
  }

  /** The output lists, for every key, the first input element with that key, in the
      order in which the keys first occur in the input. */
  lemma {:induction false} DedupByFirstOccurrences<T, K>(xs: seq<T>, key: T -> K)
    ensures forall j :: 0 <= j < |DedupBy(xs, key)| ==>
      key(DedupBy(xs, key)[j]) in KeySet(xs, key) &&
      DedupBy(xs, key)[j] == xs[FirstIndex(xs, key, key(DedupBy(xs, key)[j]))]
    ensures forall i, j :: 0 <= i < j < |DedupBy(xs, key)| ==>
      key(DedupBy(xs, key)[i]) in KeySet(xs, key) &&
      key(DedupBy(xs, key)[j]) in KeySet(xs, key) &&
      FirstIndex(xs, key, key(DedupBy(xs, key)[i])) < FirstIndex(xs, key, key(DedupBy(xs, key)[j]))
  {
    if xs != [] {
      var init, last := xs[..|xs| - 1], xs[|xs| - 1];
      assert xs == init + [last];
      var prev := DedupBy(init, key);
      var r := DedupBy(xs, key);
      DedupByFirstOccurrences(init, key);
      KeySetSnoc(init, last, key);
      forall j | 0 <= j < |prev|
        ensures key(prev[j]) in KeySet(init, key)
        ensures FirstIndex(xs, key, key(prev[j])) == FirstIndex(init, key, key(prev[j]))
        ensures prev[j] == xs[FirstIndex(xs, key, key(prev[j]))]
        ensures FirstIndex(xs, key, key(prev[j])) < |init|
      {
        FirstIndexSnoc(init, last, key, key(prev[j]));
      }
      if key(last) !in KeySet(init, key) {
        FirstIndexSnoc(init, last, key, key(last));
        assert r == prev + [last];
        forall j | 0 <= j < |r|
          ensures key(r[j]) in KeySet(xs, key) && r[j] == xs[FirstIndex(xs, key, key(r[j]))]
        {
          if j < |prev| { assert r[j] == prev[j]; }
        }
        forall i, j | 0 <= i < j < |r|
          ensures key(r[i]) in KeySet(xs, key) && key(r[j]) in KeySet(xs, key)
          ensures FirstIndex(xs, key, key(r[i])) < FirstIndex(xs, key, key(r[j]))
        {
          assert r[i] == prev[i];
          if j < |prev| { assert r[j] == prev[j]; }
        }
      }
    }
  }

  /** The `seen`-set loop: walk the input once, keep an element when its key is unseen. */
  method DedupByKey<T, K(==)>(xs: seq<T>, key: T -> K) returns (r: seq<T>)
    ensures r == DedupBy(xs, key)
  {
    var seen: set<K> := {};
    r := [];
    var i := 0;
    while i < |xs|
      invariant 0 <= i <= |xs|
      invariant seen == KeySet(xs[..i], key)
      invariant r == DedupBy(xs[..i], key)
    {
      assert xs[..i + 1][..i] == xs[..i];
      KeySetSnoc(xs[..i], xs[i], key);
      assert xs[..i + 1] == xs[..i] + [xs[i]];
      if key(xs[i]) !in seen {
        seen := seen + {key(xs[i])};
        r := r + [xs[i]];
      }
      i := i + 1;
    }
    assert xs[..i] == xs;
  }
}
