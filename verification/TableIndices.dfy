/** All the indices of one table, index 0 being the primary key. */
module TableIndices {
  import opened OrderedIndex
  import opened UndoModel

  type Indices = seq<seq<Ptr>>

  function LiveSet<V>(nodes: map<Ptr, Node<V>>): set<Ptr> {
    set p | p in nodes && !nodes[p].erased
  }

  /** Index m holds exactly the nodes in `live`, strictly sorted by its key. */
  ghost predicate Exact<V>(nodes: map<Ptr, Node<V>>, ext: Extractor<V>, s: seq<Ptr>, live: set<Ptr>) {
    Within(nodes, s) && Increasing(nodes, ext, s) && forall q :: q in s <==> q in live
  }

  /** As Exact, but equal keys are possible. */
  ghost predicate Loose<V>(nodes: map<Ptr, Node<V>>, ext: Extractor<V>, s: seq<Ptr>, live: set<Ptr>) {
    Within(nodes, s) && NonDecreasing(nodes, ext, s) && NoDuplicates(s) && forall q :: q in s <==> q in live
  }

  ghost predicate Holds<V>(nodes: map<Ptr, Node<V>>, exts: Extractors<V>, ix: Indices, live: set<Ptr>, from: nat) {
    |ix| == |exts| && forall m :: from <= m < |exts| ==> Exact(nodes, exts[m], ix[m], live)
  }

  ghost predicate HoldsLoosely<V>(nodes: map<Ptr, Node<V>>, exts: Extractors<V>, ix: Indices, live: set<Ptr>, from: nat) {
    |ix| == |exts| && forall m :: from <= m < |exts| ==> Loose(nodes, exts[m], ix[m], live)
  }

  /** Index m holds exactly the nodes in `live`, strictly sorted but for `p`, which is
      anywhere. */
  ghost predicate Around<V>(nodes: map<Ptr, Node<V>>, ext: Extractor<V>, s: seq<Ptr>, live: set<Ptr>, p: Ptr) {
    && p in s && Within(nodes, s) && NoDuplicates(s) && (forall q :: q in s <==> q in live)
    && Within(nodes, Erase(s, p)) && Increasing(nodes, ext, Erase(s, p))
  }

  ghost predicate HoldsAround<V>(nodes: map<Ptr, Node<V>>, exts: Extractors<V>, ix: Indices, live: set<Ptr>, p: Ptr, from: nat) {
    |ix| == |exts| && forall m :: from <= m < |exts| ==> Around(nodes, exts[m], ix[m], live, p)
  }

  lemma ExactIsAround<V>(nodes: map<Ptr, Node<V>>, ext: Extractor<V>, s: seq<Ptr>, live: set<Ptr>, p: Ptr)
    requires Exact(nodes, ext, s, live) && p in live
    ensures Around(nodes, ext, s, live, p)
  {
    IncreasingHasNoDuplicates(nodes, ext, s);
    EraseKeepsOrder(nodes, ext, s, p);
  }

  lemma HoldsIsAround<V>(nodes: map<Ptr, Node<V>>, exts: Extractors<V>, ix: Indices, live: set<Ptr>, p: Ptr, n: nat)
    requires Holds(nodes, exts, ix, live, n) && p in live
    ensures HoldsAround(nodes, exts, ix, live, p, n)
  {
    forall m | n <= m < |exts|
      ensures Around(nodes, exts[m], ix[m], live, p)
    {
      ExactIsAround(nodes, exts[m], ix[m], live, p);
    }
  }

  /** Where `p` is sorted in does not depend on its own key. */
  lemma AroundFrame<V>(before: map<Ptr, Node<V>>, nodes: map<Ptr, Node<V>>, exts: Extractors<V>, ix: Indices, live: set<Ptr>, p: Ptr, n: nat)
    requires HoldsAround(before, exts, ix, live, p, n) && SameBut(before, nodes, live, p)
    ensures HoldsAround(nodes, exts, ix, live, p, n)
  {
    forall m | n <= m < |exts|
      ensures Around(nodes, exts[m], ix[m], live, p)
    {
      assert Around(before, exts[m], ix[m], live, p);
      EraseMembers(ix[m], p);
      var e := Erase(ix[m], p);
      forall i | 0 <= i < |e|
        ensures e[i] in nodes && Key(nodes, exts[m], e[i]) == Key(before, exts[m], e[i])
      {
        assert e[i] in e;
      }
    }
  }

  // ----- insert_impl -----

  /** Inserts into the indices from `n` on; undone again when one of them refuses. */
  function InsertFrom<V>(nodes: map<Ptr, Node<V>>, exts: Extractors<V>, ix: Indices, p: Ptr, n: nat): (r: (Indices, bool))
    requires |ix| == |exts| && n <= |exts| && p in nodes
    requires forall m :: n <= m < |exts| ==> Within(nodes, ix[m])
    ensures |r.0| == |ix| && forall m :: 0 <= m < n ==> r.0[m] == ix[m]
    decreases |exts| - n
  {
    if n == |exts| then (ix, true)
    else
      var (s, inserted) := InsertUnique(nodes, exts[n], ix[n], p);
      if !inserted then (ix, false)
      else
        assert p in s by { assert s[LowerBound(nodes, exts[n], ix[n], Key(nodes, exts[n], p))] == p; }
        var (rest, ok) := InsertFrom(nodes, exts, ix[n := s], p, n + 1);
        if ok then (rest, true) else (rest[n := Erase(rest[n], p)], false)
  }

  lemma InsertFromStep<V>(nodes: map<Ptr, Node<V>>, exts: Extractors<V>, ix: Indices, p: Ptr, n: nat)
    requires |ix| == |exts| && n < |exts| && p in nodes
    requires forall m :: n <= m < |exts| ==> Within(nodes, ix[m])
    requires InsertUnique(nodes, exts[n], ix[n], p).1
    ensures var s := InsertUnique(nodes, exts[n], ix[n], p).0;
            var (rest, ok) := InsertFrom(nodes, exts, ix[n := s], p, n + 1);
            p in s && InsertFrom(nodes, exts, ix, p, n) == if ok then (rest, true) else (rest[n := Erase(s, p)], false)
  {
    var s := InsertUnique(nodes, exts[n], ix[n], p).0;
    assert s[LowerBound(nodes, exts[n], ix[n], Key(nodes, exts[n], p))] == p;
  }

  lemma EraseInserted(s: seq<Ptr>, i: nat, p: Ptr)
    requires i <= |s| && p !in s
    ensures p in InsertAt(s, i, p) && Erase(InsertAt(s, i, p), p) == s
  {
    var t := InsertAt(s, i, p);
    assert t[i] == p;
    forall j | 0 <= j < |t| && j != i
      ensures t[j] != p
    {
      assert t[j] == s[if j < i then j else j - 1];
    }
  }

  ghost predicate KeyFreeAt<V>(nodes: map<Ptr, Node<V>>, ext: Extractor<V>, live: set<Ptr>, p: Ptr)
    requires p in nodes && forall q :: q in live ==> q in nodes
  {
    forall q :: q in live && q != p ==> Key(nodes, ext, q) != Key(nodes, ext, p)
  }

  lemma InsertedIndex<V>(nodes: map<Ptr, Node<V>>, ext: Extractor<V>, s: seq<Ptr>, live: set<Ptr>, p: Ptr)
    requires Exact(nodes, ext, s, live) && p in nodes && p !in live
    requires forall q :: q in live ==> q in nodes
    ensures var (t, inserted) := InsertUnique(nodes, ext, s, p);
            && (inserted <==> KeyFreeAt(nodes, ext, live, p))
            && (inserted ==> Exact(nodes, ext, t, live + {p}))
            && (inserted ==> p in t && Erase(t, p) == s)
  {
    InsertUniqueSorted(nodes, ext, s, p);
    IncreasingHasNoDuplicates(nodes, ext, s);
    var i := LowerBound(nodes, ext, s, Key(nodes, ext, p));
    InsertAtMembers(s, i, p);
    EraseInserted(s, i, p);
  }

  /** Inserting a node succeeds exactly when none of its keys is taken; otherwise
      every index is as before. */
  lemma {:induction false} InsertFromWorks<V>(nodes: map<Ptr, Node<V>>, exts: Extractors<V>, ix: Indices, live: set<Ptr>, p: Ptr, n: nat)
    requires Holds(nodes, exts, ix, live, n) && n <= |exts| && p in nodes && p !in live
    requires forall q :: q in live ==> q in nodes
    ensures var (t, ok) := InsertFrom(nodes, exts, ix, p, n);
            && (ok <==> forall m :: n <= m < |exts| ==> KeyFreeAt(nodes, exts[m], live, p))
            && (ok ==> Holds(nodes, exts, t, live + {p}, n))
            && (!ok ==> t == ix)
    decreases |exts| - n
  {
    if n < |exts| {
      assert Exact(nodes, exts[n], ix[n], live);
      InsertedIndex(nodes, exts[n], ix[n], live, p);
      var (s, inserted) := InsertUnique(nodes, exts[n], ix[n], p);
      if inserted {
        var jx := ix[n := s];
        assert Holds(nodes, exts, jx, live, n + 1) by {
          forall m | n + 1 <= m < |exts| ensures Exact(nodes, exts[m], jx[m], live) { assert jx[m] == ix[m]; }
        }
        InsertFromWorks(nodes, exts, jx, live, p, n + 1);
        var (rest, ok) := InsertFrom(nodes, exts, jx, p, n + 1);
        InsertFromStep(nodes, exts, ix, p, n);
        if ok {
          assert rest[n] == s;
        } else {
          assert jx[n := ix[n]] == ix;
        }
      }
    }
  }

  // ----- erase_impl -----

  function EraseFrom(ix: Indices, p: Ptr, n: nat): (r: Indices)
    requires n <= |ix| && forall m :: n <= m < |ix| ==> p in ix[m]
    ensures |r| == |ix| && forall m :: 0 <= m < |ix| ==> r[m] == if m < n then ix[m] else Erase(ix[m], p)
    decreases |ix| - n
  {
    if n == |ix| then ix else EraseFrom(ix[n := Erase(ix[n], p)], p, n + 1)
  }

  lemma EraseFromWorks<V>(nodes: map<Ptr, Node<V>>, exts: Extractors<V>, ix: Indices, live: set<Ptr>, p: Ptr, n: nat)
    requires HoldsAround(nodes, exts, ix, live, p, n) && n <= |exts|
    ensures forall m :: n <= m < |ix| ==> p in ix[m]
    ensures Holds(nodes, exts, EraseFrom(ix, p, n), live - {p}, n)
  {
    forall m | n <= m < |ix|
      ensures p in ix[m] && Exact(nodes, exts[m], Erase(ix[m], p), live - {p})
    {
      assert Around(nodes, exts[m], ix[m], live, p);
      EraseMembers(ix[m], p);
    }
  }

  // ----- post_modify -----

  function RepositionEqualFrom<V>(nodes: map<Ptr, Node<V>>, exts: Extractors<V>, ix: Indices, p: Ptr, n: nat): (r: Indices)
    requires |ix| == |exts| && n <= |exts|
    requires forall m :: n <= m < |exts| ==> Within(nodes, ix[m]) && p in ix[m]
    ensures |r| == |ix| && forall m :: 0 <= m < |ix| ==> r[m] == if m < n then ix[m] else RepositionEqual(nodes, exts[m], ix[m], p)
    decreases |exts| - n
  {
    if n == |exts| then ix
    else RepositionEqualFrom(nodes, exts, ix[n := RepositionEqual(nodes, exts[n], ix[n], p)], p, n + 1)
  }

  function RepositionUniqueFrom<V>(nodes: map<Ptr, Node<V>>, exts: Extractors<V>, ix: Indices, p: Ptr, n: nat): (r: (Indices, bool))
    requires |ix| == |exts| && n <= |exts|
    requires forall m :: n <= m < |exts| ==> Within(nodes, ix[m]) && p in ix[m]
    ensures |r.0| == |ix| && forall m :: 0 <= m < n ==> r.0[m] == ix[m]
    decreases |exts| - n
  {
    if n == |exts| then (ix, true)
    else
      var (s, ok) := RepositionUnique(nodes, exts[n], ix[n], p);
      if !ok then (ix[n := s], false) else RepositionUniqueFrom(nodes, exts, ix[n := s], p, n + 1)
  }

  /** Only node `p` may have changed. */
  ghost predicate SameBut<V>(before: map<Ptr, Node<V>>, nodes: map<Ptr, Node<V>>, live: set<Ptr>, p: Ptr) {
    && p in live && nodes.Keys == before.Keys && (forall q :: q in live ==> q in nodes)
    && forall q :: q in live && q != p ==> nodes[q].id == before[q].id && nodes[q].value == before[q].value
  }

  /** The value of one node of a sorted index changed: without it the index is sorted. */
  lemma RestSorted<V>(before: map<Ptr, Node<V>>, nodes: map<Ptr, Node<V>>, ext: Extractor<V>, s: seq<Ptr>, live: set<Ptr>, p: Ptr)
    requires Loose(before, ext, s, live) && SameBut(before, nodes, live, p)
    ensures p in s && Within(nodes, s) && Within(nodes, Erase(s, p)) && NonDecreasing(nodes, ext, Erase(s, p))
    ensures Increasing(before, ext, s) ==> Increasing(nodes, ext, Erase(s, p))
  {
    EraseMembers(s, p);
    EraseKeepsOrder(before, ext, s, p);
    var e := Erase(s, p);
    forall i | 0 <= i < |e|
      ensures e[i] in nodes && Key(nodes, ext, e[i]) == Key(before, ext, e[i])
    {
      assert e[i] in e;
    }
  }

  lemma RepositionEqualFromWorks<V>(before: map<Ptr, Node<V>>, nodes: map<Ptr, Node<V>>, exts: Extractors<V>, ix: Indices,
                                    live: set<Ptr>, p: Ptr, n: nat)
    requires HoldsLoosely(before, exts, ix, live, n) && n <= |exts| && SameBut(before, nodes, live, p)
    ensures forall m :: n <= m < |exts| ==> Within(nodes, ix[m]) && p in ix[m]
    ensures HoldsLoosely(nodes, exts, RepositionEqualFrom(nodes, exts, ix, p, n), live, n)
  {
    forall m | n <= m < |exts|
      ensures Within(nodes, ix[m]) && p in ix[m]
      ensures Loose(nodes, exts[m], RepositionEqual(nodes, exts[m], ix[m], p), live)
    {
      assert Loose(before, exts[m], ix[m], live);
      RestSorted(before, nodes, exts[m], ix[m], live, p);
      RepositionEqualSorted(nodes, exts[m], ix[m], p);
    }
  }

  lemma ExactIsLoose<V>(nodes: map<Ptr, Node<V>>, exts: Extractors<V>, ix: Indices, live: set<Ptr>, n: nat)
    requires Holds(nodes, exts, ix, live, n)
    ensures HoldsLoosely(nodes, exts, ix, live, n)
  {
    forall m | n <= m < |exts|
      ensures Loose(nodes, exts[m], ix[m], live)
    {
      assert Exact(nodes, exts[m], ix[m], live);
      IncreasingHasNoDuplicates(nodes, exts[m], ix[m]);
    }
  }

  lemma IndicesCover<V>(nodes: map<Ptr, Node<V>>, exts: Extractors<V>, ix: Indices, live: set<Ptr>, p: Ptr, n: nat)
    requires HoldsAround(nodes, exts, ix, live, p, n)
    ensures forall m :: n <= m < |exts| ==> Within(nodes, ix[m]) && p in ix[m]
  {
    forall m | n <= m < |exts|
      ensures Within(nodes, ix[m]) && p in ix[m]
    {
      assert Around(nodes, exts[m], ix[m], live, p);
    }
  }

  /** Modifying a row succeeds exactly when none of its new keys belongs to another row;
      refused, it leaves only that row out of place. */
  lemma {:induction false} RepositionUniqueFromWorks<V>(nodes: map<Ptr, Node<V>>, exts: Extractors<V>, ix: Indices,
                                                        live: set<Ptr>, p: Ptr, n: nat)
    requires HoldsAround(nodes, exts, ix, live, p, n) && n <= |exts|
    requires forall m :: n <= m < |exts| ==> Within(nodes, ix[m]) && p in ix[m]
    requires p in nodes && forall q :: q in live ==> q in nodes
    ensures var (t, ok) := RepositionUniqueFrom(nodes, exts, ix, p, n);
            && (ok <==> forall m :: n <= m < |exts| ==> KeyFreeAt(nodes, exts[m], live, p))
            && (ok ==> Holds(nodes, exts, t, live, n))
            && HoldsAround(nodes, exts, t, live, p, n)
    decreases |exts| - n
  {
    hide Around, Exact, KeyFreeAt, RepositionUnique;
    if n < |exts| {
      RepositionedIndex(nodes, exts[n], ix[n], live, p);
      var (s, ok) := RepositionUnique(nodes, exts[n], ix[n], p);
      var jx := ix[n := s];
      IndicesCover(nodes, exts, jx, live, p, n);
      if ok {
        RepositionUniqueFromWorks(nodes, exts, jx, live, p, n + 1);
        RepositionStep(nodes, exts, ix, p, n);
      } else {
        assert RepositionUniqueFrom(nodes, exts, ix, p, n) == (jx, false);
        assert !KeyFreeAt(nodes, exts[n], live, p);
      }
    }
  }

  lemma RepositionStep<V>(nodes: map<Ptr, Node<V>>, exts: Extractors<V>, ix: Indices, p: Ptr, n: nat)
    requires |ix| == |exts| && n < |exts|
    requires forall m :: n <= m < |exts| ==> Within(nodes, ix[m]) && p in ix[m]
    requires RepositionUnique(nodes, exts[n], ix[n], p).1
    ensures var s := RepositionUnique(nodes, exts[n], ix[n], p).0;
            var t := RepositionUniqueFrom(nodes, exts, ix[n := s], p, n + 1);
            RepositionUniqueFrom(nodes, exts, ix, p, n) == t && t.0[n] == s
  {
  }

  lemma RepositionedIndex<V>(nodes: map<Ptr, Node<V>>, ext: Extractor<V>, s: seq<Ptr>, live: set<Ptr>, p: Ptr)
    requires Around(nodes, ext, s, live, p) && p in nodes && forall q :: q in live ==> q in nodes
    ensures var (t, ok) := RepositionUnique(nodes, ext, s, p);
            (ok <==> KeyFreeAt(nodes, ext, live, p)) && (ok ==> Exact(nodes, ext, t, live)) && Around(nodes, ext, t, live, p)
  {
    RepositionUniqueSorted(nodes, ext, s, p);
    var (t, ok) := RepositionUnique(nodes, ext, s, p);
    if ok {
      ExactIsAround(nodes, ext, t, live, p);
    } else {
      var e := Erase(s, p);
      EraseMembers(s, p);
      EraseInserted(e, LowerBound(nodes, ext, e, Key(nodes, ext, p)), p);
    }
  }

  // ----- frames -----

  lemma HoldsFrame<V>(before: map<Ptr, Node<V>>, nodes: map<Ptr, Node<V>>, exts: Extractors<V>, ix: Indices, live: set<Ptr>, n: nat)
    requires Holds(before, exts, ix, live, n)
    requires forall q :: q in live ==> q in before && q in nodes && nodes[q].id == before[q].id && nodes[q].value == before[q].value
    ensures Holds(nodes, exts, ix, live, n)
  {
    forall m | n <= m < |exts|
      ensures Exact(nodes, exts[m], ix[m], live)
    {
      assert Exact(before, exts[m], ix[m], live);
      forall i | 0 <= i < |ix[m]|
        ensures ix[m][i] in nodes && Key(nodes, exts[m], ix[m][i]) == Key(before, exts[m], ix[m][i])
      {
        assert ix[m][i] in ix[m];
      }
    }
  }

  /** An index is strictly sorted once its keys are distinct again. */
  lemma DistinctIsExact<V>(nodes: map<Ptr, Node<V>>, exts: Extractors<V>, ix: Indices, live: set<Ptr>, n: nat)
    requires HoldsLoosely(nodes, exts, ix, live, n)
    requires forall q :: q in live ==> q in nodes
    requires forall m, a, b :: n <= m < |exts| && a in live && b in live && a != b ==> Key(nodes, exts[m], a) != Key(nodes, exts[m], b)
    ensures Holds(nodes, exts, ix, live, n)
  {
    forall m | n <= m < |exts|
      ensures Exact(nodes, exts[m], ix[m], live)
    {
      assert Loose(nodes, exts[m], ix[m], live);
      forall i, j | 0 <= i < j < |ix[m]|
        ensures Key(nodes, exts[m], ix[m][i]) < Key(nodes, exts[m], ix[m][j])
      {
        assert ix[m][i] in ix[m] && ix[m][j] in ix[m];
      }
    }
  }

  /** A node with a key above all others goes at the end. */
  lemma AppendedIndex<V>(nodes: map<Ptr, Node<V>>, ext: Extractor<V>, s: seq<Ptr>, live: set<Ptr>, p: Ptr)
    requires Exact(nodes, ext, s, live) && p in nodes && p !in live
    requires forall q :: q in live ==> q in nodes && Key(nodes, ext, q) < Key(nodes, ext, p)
    ensures Exact(nodes, ext, s + [p], live + {p})
  {
    var t := s + [p];
    assert t[|s|] == p;
    forall i, j | 0 <= i < j < |t|
      ensures t[i] in nodes && t[j] in nodes && Key(nodes, ext, t[i]) < Key(nodes, ext, t[j])
    {
      assert t[i] in s;
    }
    forall q | q in live + {p}
      ensures q in t
    {
      if q in s { var i :| 0 <= i < |s| && s[i] == q; assert t[i] == q; }
    }
  }
}
