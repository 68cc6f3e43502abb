/** One ordered index of an undo_index: the in-order sequence of node addresses of
    an intrusive tree, searched by a key computed from the node.  The tree shape is
    not modelled; a position in the sequence stands for an iterator. */
module OrderedIndex {

  /** The address of a node. */
  type Ptr = nat

  /** A row of the table together with the bookkeeping the undo machinery keeps on
      it.  `erased` is the flag stored in the colour field of a removed node. */
  datatype Node<V> = Node(id: nat, value: V, mtime: nat, erased: bool)

  /** A key extractor; it sees the primary key and the rest of the row. */
  type Extractor<!V> = (nat, V) -> int

  function Key<V>(nodes: map<Ptr, Node<V>>, ext: Extractor<V>, p: Ptr): int
    requires p in nodes
  {
    ext(nodes[p].id, nodes[p].value)
  }

  predicate Within<V>(nodes: map<Ptr, Node<V>>, s: seq<Ptr>) {
    forall i :: 0 <= i < |s| ==> s[i] in nodes
  }

  predicate NoDuplicates<T(==)>(s: seq<T>) {
    forall i, j :: 0 <= i < j < |s| ==> s[i] != s[j]
  }

  predicate NonDecreasing<V>(nodes: map<Ptr, Node<V>>, ext: Extractor<V>, s: seq<Ptr>)
    requires Within(nodes, s)
  {
    forall i, j :: 0 <= i < j < |s| ==> Key(nodes, ext, s[i]) <= Key(nodes, ext, s[j])
  }

  predicate Increasing<V>(nodes: map<Ptr, Node<V>>, ext: Extractor<V>, s: seq<Ptr>)
    requires Within(nodes, s)
  {
    forall i, j :: 0 <= i < j < |s| ==> Key(nodes, ext, s[i]) < Key(nodes, ext, s[j])
  }

  function RemoveAt<T>(s: seq<T>, i: nat): (r: seq<T>)
    requires i < |s|
  {
    s[..i] + s[i + 1..]
  }

  function InsertAt<T>(s: seq<T>, i: nat, x: T): (r: seq<T>)
    requires i <= |s|
  {
    s[..i] + [x] + s[i..]
  }

  function IndexOf<T(==)>(s: seq<T>, x: T): (i: nat)
    requires x in s
    ensures i < |s| && s[i] == x && x !in s[..i]
  {
    if s[0] == x then 0 else 1 + IndexOf(s[1..], x)
  }

  /** The first position whose key is not below `k`. */
  function LowerBound<V>(nodes: map<Ptr, Node<V>>, ext: Extractor<V>, s: seq<Ptr>, k: int): (i: nat)
    requires Within(nodes, s)
    ensures i <= |s|
    ensures forall j :: 0 <= j < i ==> Key(nodes, ext, s[j]) < k
    ensures i < |s| ==> k <= Key(nodes, ext, s[i])
  {
    if s == [] || k <= Key(nodes, ext, s[0]) then 0 else 1 + LowerBound(nodes, ext, s[1..], k)
  }

  /** The first position whose key is above `k`. */
  function UpperBound<V>(nodes: map<Ptr, Node<V>>, ext: Extractor<V>, s: seq<Ptr>, k: int): (i: nat)
    requires Within(nodes, s)
    ensures i <= |s|
    ensures forall j :: 0 <= j < i ==> Key(nodes, ext, s[j]) <= k
    ensures i < |s| ==> k < Key(nodes, ext, s[i])
  {
    if s == [] || k < Key(nodes, ext, s[0]) then 0 else 1 + UpperBound(nodes, ext, s[1..], k)
  }

  /** insert_unique: refuses a key that is already present. */
  function InsertUnique<V>(nodes: map<Ptr, Node<V>>, ext: Extractor<V>, s: seq<Ptr>, p: Ptr): (r: (seq<Ptr>, bool))
    requires Within(nodes, s) && p in nodes
  {
    var k := Key(nodes, ext, p);
    var i := LowerBound(nodes, ext, s, k);
    if i < |s| && Key(nodes, ext, s[i]) == k then (s, false) else (InsertAt(s, i, p), true)
  }

  function InsertEqual<V>(nodes: map<Ptr, Node<V>>, ext: Extractor<V>, s: seq<Ptr>, p: Ptr): (r: seq<Ptr>)
    requires Within(nodes, s) && p in nodes
  {
    InsertAt(s, UpperBound(nodes, ext, s, Key(nodes, ext, p)), p)
  }

  function Erase(s: seq<Ptr>, p: Ptr): (r: seq<Ptr>)
    requires p in s
  {
    RemoveAt(s, IndexOf(s, p))
  }

  /** The test post_modify makes: is the node out of order with one of its neighbours? */
  predicate NeedsFixup<V>(nodes: map<Ptr, Node<V>>, ext: Extractor<V>, s: seq<Ptr>, i: nat)
    requires Within(nodes, s) && i < |s|
  {
    (i > 0 && Key(nodes, ext, s[i - 1]) >= Key(nodes, ext, s[i])) ||
    (i + 1 < |s| && Key(nodes, ext, s[i]) >= Key(nodes, ext, s[i + 1]))
  }

  /** post_modify<false> on one index. */
  function RepositionEqual<V>(nodes: map<Ptr, Node<V>>, ext: Extractor<V>, s: seq<Ptr>, p: Ptr): (r: seq<Ptr>)
    requires Within(nodes, s) && p in s
  {
    if NeedsFixup(nodes, ext, s, IndexOf(s, p)) then InsertEqual(nodes, ext, Erase(s, p), p) else s
  }

  /** post_modify<true> on one index; on a clash the node is put back before the
      node it clashes with. */
  function RepositionUnique<V>(nodes: map<Ptr, Node<V>>, ext: Extractor<V>, s: seq<Ptr>, p: Ptr): (r: (seq<Ptr>, bool))
    requires Within(nodes, s) && p in s
  {
    if NeedsFixup(nodes, ext, s, IndexOf(s, p)) then
      var e := Erase(s, p);
      var (t, ok) := InsertUnique(nodes, ext, e, p);
      if ok then (t, true) else (InsertAt(e, LowerBound(nodes, ext, e, Key(nodes, ext, p)), p), false)
    else
      (s, true)
  }

  // ----- lemmas -----

  lemma IncreasingHasNoDuplicates<V>(nodes: map<Ptr, Node<V>>, ext: Extractor<V>, s: seq<Ptr>)
    requires Within(nodes, s) && Increasing(nodes, ext, s)
    ensures NoDuplicates(s) && NonDecreasing(nodes, ext, s)
  {
    forall i, j | 0 <= i < j < |s|
      ensures s[i] != s[j]
    {
      assert Key(nodes, ext, s[i]) < Key(nodes, ext, s[j]);
    }
  }

  /** Erasing keeps the order and takes out exactly the erased node. */
  lemma EraseMembers(s: seq<Ptr>, p: Ptr)
    requires p in s && NoDuplicates(s)
    ensures NoDuplicates(Erase(s, p))
    ensures forall q :: q in Erase(s, p) <==> q in s && q != p
  {
    var i := IndexOf(s, p);
    var r := Erase(s, p);
    forall q | q in s && q != p
      ensures q in r
    {
      var j :| 0 <= j < |s| && s[j] == q;
      if j < i { assert r[j] == q; } else { assert r[j - 1] == q; }
    }
  }

  lemma EraseKeepsOrder<V>(nodes: map<Ptr, Node<V>>, ext: Extractor<V>, s: seq<Ptr>, p: Ptr)
    requires Within(nodes, s) && p in s
    ensures Within(nodes, Erase(s, p))
    ensures NonDecreasing(nodes, ext, s) ==> NonDecreasing(nodes, ext, Erase(s, p))
    ensures Increasing(nodes, ext, s) ==> Increasing(nodes, ext, Erase(s, p))
  {
  }

  lemma InsertAtMembers(s: seq<Ptr>, i: nat, p: Ptr)
    requires i <= |s| && p !in s && NoDuplicates(s)
    ensures NoDuplicates(InsertAt(s, i, p))
    ensures forall q :: q in InsertAt(s, i, p) <==> q in s || q == p
  {
    var r := InsertAt(s, i, p);
    forall q | q in s || q == p
      ensures q in r
    {
      if q == p {
        assert r[i] == p;
      } else {
        var j :| 0 <= j < |s| && s[j] == q;
        if j < i { assert r[j] == q; } else { assert r[j + 1] == q; }
      }
    }
  }

  /** insert_equal keeps a sorted index sorted, equal keys allowed. */
  lemma InsertEqualSorted<V>(nodes: map<Ptr, Node<V>>, ext: Extractor<V>, s: seq<Ptr>, p: Ptr)
    requires Within(nodes, s) && p in nodes && NonDecreasing(nodes, ext, s)
    ensures Within(nodes, InsertEqual(nodes, ext, s, p))
    ensures NonDecreasing(nodes, ext, InsertEqual(nodes, ext, s, p))
  {
    var k := Key(nodes, ext, p);
    var i := UpperBound(nodes, ext, s, k);
    var r := InsertEqual(nodes, ext, s, p);
    assert r[..i] == s[..i] && r[i] == p && r[i + 1..] == s[i..];
    forall a, b | 0 <= a < b < |r|
      ensures r[a] in nodes && r[b] in nodes && Key(nodes, ext, r[a]) <= Key(nodes, ext, r[b])
    {
      if a < i < b { assert r[b] == s[b - 1] && Key(nodes, ext, s[i]) <= Key(nodes, ext, s[b - 1]); }
      else if a == i { assert r[b] == s[b - 1] && Key(nodes, ext, s[i]) <= Key(nodes, ext, s[b - 1]); }
      else if i < a { assert r[a] == s[a - 1] && r[b] == s[b - 1]; }
    }
  }

  /** insert_unique succeeds exactly when the key is new, and then keeps the index
      strictly sorted. */
  lemma InsertUniqueSorted<V>(nodes: map<Ptr, Node<V>>, ext: Extractor<V>, s: seq<Ptr>, p: Ptr)
    requires Within(nodes, s) && p in nodes && Increasing(nodes, ext, s)
    ensures InsertUnique(nodes, ext, s, p).1 <==> forall q :: q in s ==> Key(nodes, ext, q) != Key(nodes, ext, p)
    ensures Within(nodes, InsertUnique(nodes, ext, s, p).0)
    ensures Increasing(nodes, ext, InsertUnique(nodes, ext, s, p).0)
  {
    var k := Key(nodes, ext, p);
    var i := LowerBound(nodes, ext, s, k);
    forall j | i < j < |s|
      ensures k < Key(nodes, ext, s[j])
    {
      assert Key(nodes, ext, s[i]) < Key(nodes, ext, s[j]);
    }
    if i < |s| && Key(nodes, ext, s[i]) == k {
      assert s[i] in s;
    } else {
      InsertedIsIncreasing(nodes, ext, s, i, p);
    }
  }

  lemma InsertedIsIncreasing<V>(nodes: map<Ptr, Node<V>>, ext: Extractor<V>, s: seq<Ptr>, i: nat, p: Ptr)
    requires Within(nodes, s) && p in nodes && Increasing(nodes, ext, s) && i <= |s|
    requires forall j :: 0 <= j < i ==> Key(nodes, ext, s[j]) < Key(nodes, ext, p)
    requires forall j :: i <= j < |s| ==> Key(nodes, ext, p) < Key(nodes, ext, s[j])
    ensures Within(nodes, InsertAt(s, i, p)) && Increasing(nodes, ext, InsertAt(s, i, p))
  {
    var r := InsertAt(s, i, p);
    forall a, b | 0 <= a < b < |r|
      ensures r[a] in nodes && r[b] in nodes && Key(nodes, ext, r[a]) < Key(nodes, ext, r[b])
    {
      assert r[a] == if a < i then s[a] else if a == i then p else s[a - 1];
      assert r[b] == if b < i then s[b] else if b == i then p else s[b - 1];
    }
  }

  /** When one node of a sorted index has just changed its key, repositioning it
      sorts the index again, whatever the new key is. */
  lemma RepositionEqualSorted<V>(nodes: map<Ptr, Node<V>>, ext: Extractor<V>, s: seq<Ptr>, p: Ptr)
    requires Within(nodes, s) && p in s && NoDuplicates(s)
    requires NonDecreasing(nodes, ext, Erase(s, p))
    ensures var r := RepositionEqual(nodes, ext, s, p);
            Within(nodes, r) && NonDecreasing(nodes, ext, r) && NoDuplicates(r) && forall q :: q in r <==> q in s
  {
    var i := IndexOf(s, p);
    var e := Erase(s, p);
    EraseMembers(s, p);
    if NeedsFixup(nodes, ext, s, i) {
      InsertEqualSorted(nodes, ext, e, p);
      InsertAtMembers(e, UpperBound(nodes, ext, e, Key(nodes, ext, p)), p);
    } else {
      KeptInPlace(nodes, ext, s, i);
    }
  }

  /** If the rest is sorted and the node fits between its neighbours, the whole is. */
  lemma KeptInPlace<V>(nodes: map<Ptr, Node<V>>, ext: Extractor<V>, s: seq<Ptr>, i: nat)
    requires Within(nodes, s) && i < |s|
    requires NonDecreasing(nodes, ext, RemoveAt(s, i))
    requires !NeedsFixup(nodes, ext, s, i)
    ensures NonDecreasing(nodes, ext, s)
    ensures Increasing(nodes, ext, RemoveAt(s, i)) ==> Increasing(nodes, ext, s)
  {
    var e := RemoveAt(s, i);
    forall a, b | 0 <= a < b < |s|
      ensures Key(nodes, ext, s[a]) <= Key(nodes, ext, s[b])
      ensures Increasing(nodes, ext, e) ==> Key(nodes, ext, s[a]) < Key(nodes, ext, s[b])
    {
      if a == i {
        assert e[i] == s[i + 1] && e[b - 1] == s[b];
      } else if b == i {
        assert e[i - 1] == s[i - 1] && e[a] == s[a];
      } else {
        assert s[a] == e[if a < i then a else a - 1] && s[b] == e[if b < i then b else b - 1];
      }
    }
  }

  /** The unique form succeeds exactly when no other row has the new key; the
      members never change. */
  lemma RepositionUniqueSorted<V>(nodes: map<Ptr, Node<V>>, ext: Extractor<V>, s: seq<Ptr>, p: Ptr)
    requires Within(nodes, s) && p in s && NoDuplicates(s)
    requires Increasing(nodes, ext, Erase(s, p))
    ensures var (r, ok) := RepositionUnique(nodes, ext, s, p);
            && Within(nodes, r) && NoDuplicates(r) && (forall q :: q in r <==> q in s)
            && (ok <==> forall q :: q in s && q != p ==> Key(nodes, ext, q) != Key(nodes, ext, p))
            && (ok ==> Increasing(nodes, ext, r))
  {
    var e := Erase(s, p);
    EraseMembers(s, p);
    IncreasingHasNoDuplicates(nodes, ext, e);
    if NeedsFixup(nodes, ext, s, IndexOf(s, p)) {
      MovedUnique(nodes, ext, e, p);
    } else {
      KeptInPlace(nodes, ext, s, IndexOf(s, p));
      KeptIsUnique(nodes, ext, s, p);
    }
  }

  lemma MovedUnique<V>(nodes: map<Ptr, Node<V>>, ext: Extractor<V>, e: seq<Ptr>, p: Ptr)
    requires Within(nodes, e) && p in nodes && p !in e && Increasing(nodes, ext, e) && NoDuplicates(e)
    ensures var (t, ok) := InsertUnique(nodes, ext, e, p);
            var r := if ok then t else InsertAt(e, LowerBound(nodes, ext, e, Key(nodes, ext, p)), p);
            && Within(nodes, r) && NoDuplicates(r) && (forall q :: q in r <==> q in e || q == p)
            && (ok <==> forall q :: q in e ==> Key(nodes, ext, q) != Key(nodes, ext, p))
            && (ok ==> Increasing(nodes, ext, r))
  {
    InsertUniqueSorted(nodes, ext, e, p);
    InsertAtMembers(e, LowerBound(nodes, ext, e, Key(nodes, ext, p)), p);
  }

  lemma KeptIsUnique<V>(nodes: map<Ptr, Node<V>>, ext: Extractor<V>, s: seq<Ptr>, p: Ptr)
    requires Within(nodes, s) && Increasing(nodes, ext, s) && p in s
    ensures forall q :: q in s && q != p ==> Key(nodes, ext, q) != Key(nodes, ext, p)
  {
    var i := IndexOf(s, p);
    forall q | q in s && q != p
      ensures Key(nodes, ext, q) != Key(nodes, ext, p)
    {
      var j :| 0 <= j < |s| && s[j] == q;
      if j < i { assert Key(nodes, ext, s[j]) < Key(nodes, ext, s[i]); }
      else { assert Key(nodes, ext, s[i]) < Key(nodes, ext, s[j]); }
    }
  }
}
