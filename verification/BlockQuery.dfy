/** The block log as a paginated container. */
module BlockQuery {
  import opened Basics
  import opened Options
  import opened BlockLogs
  import opened SyncProtocol
  import Pagination
  import SortedSearch

  function Nums(s: seq<BlockWithId>): (r: seq<nat>)
    ensures |r| == |s| && forall i :: 0 <= i < |s| ==> r[i] == s[i].Num()
  {
    seq(|s|, i requires 0 <= i < |s| => s[i].Num())
  }

  /** upper_bound_by_num. */
  function UpperBoundByNum(s: seq<BlockWithId>, num: uint32): nat {
    if num == UINT32 - 1 then |s| else LowerBoundByNum(s, num + 1)
  }

  /** The constant-time lookups find what a search for the key finds. */
  lemma LookupsAreBounds(s: seq<BlockWithId>, num: uint32)
    requires Linked(s)
    ensures Pagination.Sorted(Nums(s))
    ensures LowerBoundByNum(s, num) == SortedSearch.LowerBound(Nums(s), num)
    ensures UpperBoundByNum(s, num) == SortedSearch.UpperBound(Nums(s), num)
  {
    var keys := Nums(s);
    assert Pagination.Sorted(keys);
    LowerBoundIsSearch(s, num);
    SortedSearch.LowerBoundSplits(keys, num);
    SamePosition(keys, LowerBoundByNum(s, num), SortedSearch.LowerBound(keys, num), num);
    SortedSearch.UpperBoundSplits(keys, num);
    if num < UINT32 - 1 {
      LowerBoundIsSearch(s, num + 1);
      SamePosition(keys, LowerBoundByNum(s, num + 1), SortedSearch.UpperBound(keys, num), num + 1);
    } else {
      SamePosition(keys, |s|, SortedSearch.UpperBound(keys, num), num + 1);
    }
  }

  lemma SamePosition(keys: seq<nat>, i: nat, j: nat, k: nat)
    requires i <= |keys| && j <= |keys|
    requires forall n :: 0 <= n < i ==> keys[n] < k
    requires forall n :: i <= n < |keys| ==> keys[n] >= k
    requires forall n :: 0 <= n < j ==> keys[n] < k
    requires forall n :: j <= n < |keys| ==> keys[n] >= k
    ensures i == j
  {
    assert (i < |keys| ==> keys[i] >= k) && (j < |keys| ==> keys[j] >= k);
  }

  /** The query a client's status is made from returns all blocks from the irreversible
      one on: an unpaged query is the whole range. */
  lemma StatusQuery(l: Log, maxBlocks: nat)
    requires Linked(l.blocks)
    ensures var keys := Nums(l.blocks);
            var st := StatusOf(l, maxBlocks);
            var edges := Pagination.Edges(keys, Pagination.Bounds(None, Some(st.irreversible), None, None), None, None, None, None);
            |edges| == |st.blocks| && forall i :: 0 <= i < |edges| ==> edges[i] == st.blocks[i].num
  {
    var keys, st := Nums(l.blocks), StatusOf(l, maxBlocks);
    var b := Pagination.Bounds(None, Some(st.irreversible), None, None);
    var i := LowerBoundByNum(l.blocks, st.irreversible);
    LookupsAreBounds(l.blocks, st.irreversible);
    SortedSearch.LowerBoundSplits(keys, st.irreversible);
    Pagination.FilterIsSlice(keys, (k: nat) => Pagination.InRange(b, k), i, |keys|);
    var range := keys[i..|keys|];
    assert Pagination.Range(keys, b) == range;
    Pagination.SliceSorted(keys, i, |keys|);
    Pagination.BetweenIsSlice(range, None, None);
    assert range[0..|range|] == range;
  }
}
