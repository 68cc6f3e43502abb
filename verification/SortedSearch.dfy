/** Searching a sorted list of keys. */
module SortedSearch {
  ghost predicate Ascending(keys: seq<nat>) {
    forall i, j :: 0 <= i < j < |keys| ==> keys[i] <= keys[j]
  }

  /** The first position whose key is not below `k`. */
  function LowerBound(keys: seq<nat>, k: nat): (i: nat)
    ensures i <= |keys|
  {
    if keys == [] || keys[0] >= k then 0 else 1 + LowerBound(keys[1..], k)
  }

  function UpperBound(keys: seq<nat>, k: nat): (i: nat)
    ensures i <= |keys|
  {
    if keys == [] || keys[0] > k then 0 else 1 + UpperBound(keys[1..], k)
  }

  lemma {:induction false} LowerBoundSplits(keys: seq<nat>, k: nat)
    requires Ascending(keys)
    ensures forall j :: 0 <= j < LowerBound(keys, k) ==> keys[j] < k
    ensures forall j :: LowerBound(keys, k) <= j < |keys| ==> keys[j] >= k
  {
    if keys != [] && keys[0] < k {
      LowerBoundSplits(keys[1..], k);
      var i := LowerBound(keys[1..], k);
      forall j | 0 <= j < i + 1 ensures keys[j] < k { if j > 0 { assert keys[1..][j - 1] == keys[j]; } }
      forall j | i + 1 <= j < |keys| ensures keys[j] >= k { assert keys[1..][j - 1] == keys[j]; }
    }
  }

  lemma {:induction false} UpperBoundSplits(keys: seq<nat>, k: nat)
    requires Ascending(keys)
    ensures forall j :: 0 <= j < UpperBound(keys, k) ==> keys[j] <= k
    ensures forall j :: UpperBound(keys, k) <= j < |keys| ==> keys[j] > k
  {
    if keys != [] && keys[0] <= k {
      UpperBoundSplits(keys[1..], k);
      var i := UpperBound(keys[1..], k);
      forall j | 0 <= j < i + 1 ensures keys[j] <= k { if j > 0 { assert keys[1..][j - 1] == keys[j]; } }
      forall j | i + 1 <= j < |keys| ensures keys[j] > k { assert keys[1..][j - 1] == keys[j]; }
    }
  }
}
