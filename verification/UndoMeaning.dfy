/** How the rows of the meaning sit in the nodes and the indices. */
module UndoMeaning {
  import opened OrderedIndex
  import opened UndoModel
  import opened TableIndices
  import opened UndoInvariant

  lemma LiveRows<V>(c: Core<V>, g: Shadow<V>)
    requires Arena(c, g) && Current(c, g)
    ensures forall p :: p in LiveSet(c.nodes) ==> c.nodes[p].id in g.rows && g.rows[c.nodes[p].id] == c.nodes[p].value
    ensures forall p :: p in LiveSet(c.nodes) ==> g.home[c.nodes[p].id] == p && c.nodes[p].id < c.nextId
    ensures forall id :: id in g.rows ==> id in g.home && g.home[id] in LiveSet(c.nodes) && c.nodes[g.home[id]].id == id
  {
  }

  /** `after` agrees with the table on all rows but `p`, whose id does not change. */
  ghost predicate SameRowsBut<V>(c: Core<V>, g: Shadow<V>, after: map<Ptr, Node<V>>, p: Ptr) {
    && p in after
    && (forall q :: q in LiveSet(c.nodes) ==> q in after && (q != p ==> after[q].id == c.nodes[q].id && after[q].value == c.nodes[q].value))
    && (if p in LiveSet(c.nodes) then after[p].id == c.nodes[p].id else after[p].id !in g.rows)
  }

  /** The indices find a key free exactly when no other row has it. */
  lemma TakenKeys<V>(exts: Extractors<V>, c: Core<V>, g: Shadow<V>, after: map<Ptr, Node<V>>, p: Ptr)
    requires Arena(c, g) && Current(c, g) && SameRowsBut(c, g, after, p)
    ensures (forall m :: 1 <= m < |exts| ==> KeyFreeAt(after, exts[m], LiveSet(c.nodes), p))
            <==> KeysFree(exts, g.rows, after[p].id, after[p].value)
  {
    LiveRows(c, g);
    var live, id, v := LiveSet(c.nodes), after[p].id, after[p].value;
    if KeysFree(exts, g.rows, id, v) {
      forall m, q | 1 <= m < |exts| && q in live && q != p
        ensures Key(after, exts[m], q) != Key(after, exts[m], p)
      {
        var other := c.nodes[q].id;
        assert g.home[other] == q;
        assert other in g.rows && other != id;
      }
    }
    if forall m :: 1 <= m < |exts| ==> KeyFreeAt(after, exts[m], live, p) {
      forall m, other | 1 <= m < |exts| && other in g.rows && other != id
        ensures exts[m](other, g.rows[other]) != exts[m](id, v)
      {
        var q := g.home[other];
        assert KeyFreeAt(after, exts[m], live, p);
        assert q in live && q != p;
        assert Key(after, exts[m], q) != Key(after, exts[m], p);
      }
    }
  }

  /** In a table whose indices are strictly sorted no two rows agree on a key. */
  lemma RowsDistinct<V>(exts: Extractors<V>, ix: Indices, c: Core<V>, g: Shadow<V>)
    requires Arena(c, g) && Current(c, g) && Holds(c.nodes, exts, ix, LiveSet(c.nodes), 0)
    ensures KeysDistinct(exts, g.rows)
  {
    LiveRows(c, g);
    forall m, a, b | 1 <= m < |exts| && a in g.rows && b in g.rows && a != b
      ensures exts[m](a, g.rows[a]) != exts[m](b, g.rows[b])
    {
      assert Exact(c.nodes, exts[m], ix[m], LiveSet(c.nodes));
      var p, q := g.home[a], g.home[b];
      assert p in ix[m] && q in ix[m];
      var i :| 0 <= i < |ix[m]| && ix[m][i] == p;
      var j :| 0 <= j < |ix[m]| && ix[m][j] == q;
      assert Key(c.nodes, exts[m], p) != Key(c.nodes, exts[m], q);
    }
  }

  ghost predicate SavedDistinct<V>(exts: Extractors<V>, saved: seq<Snapshot<V>>) {
    forall i :: 0 <= i < |saved| ==> KeysDistinct(exts, saved[i].rows)
  }

  /** The primary index after a row with the next id is appended. */
  lemma AppendedPrimary<V(!new)>(exts: Extractors<V>, s: seq<Ptr>, c: Core<V>, g: Shadow<V>, after: map<Ptr, Node<V>>, p: Ptr)
    requires IdFirst(exts) && Arena(c, g) && Current(c, g) && SameRowsBut(c, g, after, p)
    requires p !in LiveSet(c.nodes) && after[p].id == c.nextId
    requires Exact(after, exts[0], s, LiveSet(c.nodes))
    ensures Exact(after, exts[0], s + [p], LiveSet(c.nodes) + {p})
  {
    LiveRows(c, g);
    AppendedIndex(after, exts[0], s, LiveSet(c.nodes), p);
  }

  /** The whole invariant of a table. */
  ghost predicate ValidAt<V(!new)>(exts: Extractors<V>, c: Core<V>, g: Shadow<V>, ix: Indices) {
    && IdFirst(exts)
    && Holds(c.nodes, exts, ix, LiveSet(c.nodes), 0)
    && Inv(c, g, |c.undoStack|)
    && SavedDistinct(exts, g.saved)
  }

  /** The part of it that does not depend on sessions: the rows and the indices are right. */
  ghost predicate SoundAt<V(!new)>(exts: Extractors<V>, c: Core<V>, g: Shadow<V>, ix: Indices) {
    IdFirst(exts) && Holds(c.nodes, exts, ix, LiveSet(c.nodes), 0) && Arena(c, g) && Current(c, g)
  }

  /** The same, but row `p` may be out of place in the other indices. */
  ghost predicate SoundBut<V(!new)>(exts: Extractors<V>, c: Core<V>, g: Shadow<V>, ix: Indices, p: Ptr) {
    && IdFirst(exts) && p in LiveSet(c.nodes)
    && HoldsAround(c.nodes, exts, ix, LiveSet(c.nodes), p, 1)
    && Exact(c.nodes, exts[0], ix[0], LiveSet(c.nodes))
    && Arena(c, g) && Current(c, g)
  }

  ghost predicate ValidBut<V(!new)>(exts: Extractors<V>, c: Core<V>, g: Shadow<V>, ix: Indices, p: Ptr) {
    SoundBut(exts, c, g, ix, p) && Inv(c, g, |c.undoStack|) && SavedDistinct(exts, g.saved)
  }

  lemma ValidIsSound<V(!new)>(exts: Extractors<V>, c: Core<V>, g: Shadow<V>, ix: Indices)
    requires ValidAt(exts, c, g, ix)
    ensures SoundAt(exts, c, g, ix)
  {
    hide Holds, Arena, Current;
  }

  lemma SoundIsBut<V(!new)>(exts: Extractors<V>, c: Core<V>, g: Shadow<V>, ix: Indices, p: Ptr)
    requires SoundAt(exts, c, g, ix) && p in LiveSet(c.nodes)
    ensures SoundBut(exts, c, g, ix, p)
  {
    hide Arena, Current;
    HoldsIsAround(c.nodes, exts, ix, LiveSet(c.nodes), p, 1);
    assert Exact(c.nodes, exts[0], ix[0], LiveSet(c.nodes));
  }

  lemma ValidIsBut<V(!new)>(exts: Extractors<V>, c: Core<V>, g: Shadow<V>, ix: Indices, p: Ptr)
    requires ValidAt(exts, c, g, ix) && p in LiveSet(c.nodes)
    ensures ValidBut(exts, c, g, ix, p)
  {
    ValidIsSound(exts, c, g, ix);
    SoundIsBut(exts, c, g, ix, p);
    hide Inv;
  }

  lemma IndexCount<V(!new)>(exts: Extractors<V>, c: Core<V>, g: Shadow<V>, ix: Indices)
    requires ValidAt(exts, c, g, ix)
    ensures |exts| >= 1 && |ix| == |exts|
  {
  }

  lemma SessionCount<V(!new)>(exts: Extractors<V>, c: Core<V>, g: Shadow<V>, ix: Indices)
    requires ValidAt(exts, c, g, ix)
    ensures |g.saved| == |g.oldEnds| == |g.removedEnds| == |c.undoStack|
  {
  }

  // ----- emplace -----

  function NewNode<V>(c: Core<V>, v: V, mtime: nat): Node<V> { Node(c.nextId, v, mtime, false) }

  function CreatedCore<V>(c: Core<V>, p: Ptr, v: V): Core<V> {
    c.(nodes := c.nodes[p := NewNode(c, v, if |c.undoStack| == 0 then 0 else c.monotonic)], nextId := c.nextId + 1)
  }

  function CreatedShadow<V>(c: Core<V>, g: Shadow<V>, p: Ptr, v: V): Shadow<V> {
    g.(home := g.home[c.nextId := p], rows := g.rows[c.nextId := v])
  }

  lemma EmplaceInserts<V(!new)>(exts: Extractors<V>, c: Core<V>, g: Shadow<V>, ix: Indices, p: Ptr, v: V)
    requires ValidAt(exts, c, g, ix) && p !in c.nodes
    ensures var after := c.nodes[p := NewNode(c, v, 0)];
            && Holds(after, exts, ix, LiveSet(c.nodes), 0)
            && (forall m :: 0 <= m < |exts| ==> Within(after, ix[m]))
            && var (t, ok) := InsertFrom(after, exts, ix, p, 1);
               && (ok <==> KeysFree(exts, g.rows, c.nextId, v))
               && (ok ==> Holds(after, exts, t, LiveSet(c.nodes) + {p}, 1))
               && (!ok ==> t == ix)
  {
    var after, live := c.nodes[p := NewNode(c, v, 0)], LiveSet(c.nodes);
    HoldsFrame(c.nodes, after, exts, ix, live, 0);
    forall m | 0 <= m < |exts|
      ensures Exact(after, exts[m], ix[m], live)
    {
    }
    InsertFromWorks(after, exts, ix, live, p, 1);
    LiveRows(c, g);
    TakenKeys(exts, c, g, after, p);
  }

  lemma EmplaceKeepsValid<V(!new)>(exts: Extractors<V>, c: Core<V>, g: Shadow<V>, ix: Indices, p: Ptr, v: V, t: Indices)
    requires ValidAt(exts, c, g, ix) && p !in c.nodes
    requires Holds(c.nodes[p := NewNode(c, v, 0)], exts, ix, LiveSet(c.nodes), 0)
    requires Holds(c.nodes[p := NewNode(c, v, 0)], exts, t, LiveSet(c.nodes) + {p}, 1) && t[0] == ix[0]
    ensures ValidAt(exts, CreatedCore(c, p, v), CreatedShadow(c, g, p, v), t[0 := t[0] + [p]])
  {
    AfterCreate(c, g, |c.undoStack|, p, v);
    CreatedIndices(exts, c, g, ix, p, v, t);
    hide Inv, Holds, SavedDistinct;
  }

  lemma CreatedIndices<V(!new)>(exts: Extractors<V>, c: Core<V>, g: Shadow<V>, ix: Indices, p: Ptr, v: V, t: Indices)
    requires ValidAt(exts, c, g, ix) && p !in c.nodes
    requires Holds(c.nodes[p := NewNode(c, v, 0)], exts, ix, LiveSet(c.nodes), 0)
    requires Holds(c.nodes[p := NewNode(c, v, 0)], exts, t, LiveSet(c.nodes) + {p}, 1) && t[0] == ix[0]
    ensures var nodes := CreatedCore(c, p, v).nodes; Holds(nodes, exts, t[0 := t[0] + [p]], LiveSet(nodes), 0)
  {
    hide Session;
    var after, live := c.nodes[p := NewNode(c, v, 0)], LiveSet(c.nodes);
    var c' := CreatedCore(c, p, v);
    AppendedIndices(exts, c, g, after, ix, p, t);
    hide Inv, Holds;
    assert LiveSet(c'.nodes) == live + {p};
    HoldsFrame(after, c'.nodes, exts, t[0 := t[0] + [p]], live + {p}, 0);
  }

  lemma AppendedIndices<V(!new)>(exts: Extractors<V>, c: Core<V>, g: Shadow<V>, after: map<Ptr, Node<V>>, ix: Indices, p: Ptr, t: Indices)
    requires IdFirst(exts) && Arena(c, g) && Current(c, g) && SameRowsBut(c, g, after, p)
    requires p !in LiveSet(c.nodes) && after[p].id == c.nextId
    requires Holds(after, exts, ix, LiveSet(c.nodes), 0)
    requires Holds(after, exts, t, LiveSet(c.nodes) + {p}, 1) && t[0] == ix[0]
    ensures Holds(after, exts, t[0 := t[0] + [p]], LiveSet(c.nodes) + {p}, 0)
  {
    assert Exact(after, exts[0], ix[0], LiveSet(c.nodes));
    AppendedPrimary(exts, ix[0], c, g, after, p);
  }

  // ----- modify -----

  function BackedUpCore<V>(c: Core<V>, p: Ptr, addr: Ptr): Core<V>
    requires p in c.nodes
  {
    var node := c.nodes[p];
    c.(nodes := c.nodes[p := node.(mtime := c.monotonic)],
       oldValues := c.oldValues + [OldNode(addr, node.id, node.value, node.mtime, p)])
  }

  lemma BackupKeepsValid<V(!new)>(exts: Extractors<V>, c: Core<V>, g: Shadow<V>, ix: Indices, p: Ptr, addr: Ptr)
    requires ValidAt(exts, c, g, ix) && p in LiveSet(c.nodes) && |c.undoStack| > 0
    requires forall a :: 0 <= a < |c.oldValues| ==> c.oldValues[a].addr != addr
    ensures ValidAt(exts, BackedUpCore(c, p, addr), g, ix)
    ensures c.undoStack[|c.undoStack| - 1].ctime <= c.monotonic
  {
    var c' := BackedUpCore(c, p, addr);
    NewestTime(c, g);
    AfterBackup(c, g, |c.undoStack|, p, addr);
    hide Inv;
    assert LiveSet(c'.nodes) == LiveSet(c.nodes);
    HoldsFrame(c.nodes, c'.nodes, exts, ix, LiveSet(c.nodes), 0);
  }

  lemma NewestTime<V>(c: Core<V>, g: Shadow<V>)
    requires Shape(c, g, |c.undoStack|) && |c.undoStack| > 0
    ensures c.undoStack[|c.undoStack| - 1].ctime <= c.monotonic
  {
  }

  function ModifiedCore<V>(c: Core<V>, p: Ptr, v: V): Core<V>
    requires p in c.nodes
  {
    c.(nodes := c.nodes[p := c.nodes[p].(value := v)])
  }

  function ModifiedShadow<V>(c: Core<V>, g: Shadow<V>, p: Ptr, v: V): Shadow<V>
    requires p in c.nodes
  {
    g.(rows := g.rows[c.nodes[p].id := v])
  }

  /** Changing a row in place and moving it in the indices. */
  lemma ModifySound<V(!new)>(exts: Extractors<V>, c: Core<V>, g: Shadow<V>, ix: Indices, p: Ptr, v: V)
    requires SoundBut(exts, c, g, ix, p)
    ensures var c' := ModifiedCore(c, p, v);
            && |ix| == |exts| && |exts| >= 1
            && (forall m :: 1 <= m < |exts| ==> Within(c'.nodes, ix[m]) && p in ix[m])
            && var (t, ok) := RepositionUniqueFrom(c'.nodes, exts, ix, p, 1);
               && (ok <==> KeysFree(exts, g.rows, c.nodes[p].id, v))
               && (ok ==> SoundAt(exts, c', ModifiedShadow(c, g, p, v), t))
               && SoundBut(exts, c', ModifiedShadow(c, g, p, v), t, p)
  {
    hide RepositionUniqueFrom, KeysFree, Within;
    ModifyInserts(exts, c, g, ix, p, v);
    RowsAfterModify(c, g, p, v);
    hide Arena, Current;
    assert LiveSet(ModifiedCore(c, p, v).nodes) == LiveSet(c.nodes);
  }

  lemma RowsAfterModify<V>(c: Core<V>, g: Shadow<V>, p: Ptr, v: V)
    requires Arena(c, g) && Current(c, g) && p in LiveSet(c.nodes)
    ensures Arena(ModifiedCore(c, p, v), ModifiedShadow(c, g, p, v)) && Current(ModifiedCore(c, p, v), ModifiedShadow(c, g, p, v))
  {
  }

  lemma ModifyWorks<V(!new)>(exts: Extractors<V>, c: Core<V>, g: Shadow<V>, ix: Indices, p: Ptr, v: V)
    requires ValidBut(exts, c, g, ix, p)
    requires |c.undoStack| > 0 ==> c.nodes[p].mtime >= c.undoStack[|c.undoStack| - 1].ctime
    ensures var c' := ModifiedCore(c, p, v);
            && |ix| == |exts| && |exts| >= 1
            && (forall m :: 1 <= m < |exts| ==> Within(c'.nodes, ix[m]) && p in ix[m])
            && var (t, ok) := RepositionUniqueFrom(c'.nodes, exts, ix, p, 1);
               && (ok <==> KeysFree(exts, g.rows, c.nodes[p].id, v))
               && (ok ==> ValidAt(exts, c', ModifiedShadow(c, g, p, v), t))
               && ValidBut(exts, c', ModifiedShadow(c, g, p, v), t, p)
  {
    hide Inv, RepositionUniqueFrom, KeysFree, Within;
    ModifySound(exts, c, g, ix, p, v);
    AfterModifyInPlace(c, g, |c.undoStack|, p, v);
    hide Arena, Current, Holds, HoldsAround, Exact;
  }

  lemma ModifyInserts<V(!new)>(exts: Extractors<V>, c: Core<V>, g: Shadow<V>, ix: Indices, p: Ptr, v: V)
    requires SoundBut(exts, c, g, ix, p)
    ensures var after := c.nodes[p := c.nodes[p].(value := v)];
            && (forall m :: 1 <= m < |exts| ==> Within(after, ix[m]) && p in ix[m])
            && var (t, ok) := RepositionUniqueFrom(after, exts, ix, p, 1);
               && (ok <==> KeysFree(exts, g.rows, c.nodes[p].id, v))
               && (ok ==> Holds(after, exts, t, LiveSet(c.nodes), 0))
               && Exact(after, exts[0], t[0], LiveSet(c.nodes)) && HoldsAround(after, exts, t, LiveSet(c.nodes), p, 1)
  {
    var after, live := c.nodes[p := c.nodes[p].(value := v)], LiveSet(c.nodes);
    AroundFrame(c.nodes, after, exts, ix, live, p, 1);
    IndicesCover(after, exts, ix, live, p, 1);
    RepositionUniqueFromWorks(after, exts, ix, live, p, 1);
    TakenKeys(exts, c, g, after, p);
    PrimaryUnmoved(exts, c.nodes, after, ix[0], live);
    hide Around;
    var (t, ok) := RepositionUniqueFrom(after, exts, ix, p, 1);
    assert t[0] == ix[0];
  }

  /** Values do not matter to the primary index. */
  lemma PrimaryUnmoved<V(!new)>(exts: Extractors<V>, before: map<Ptr, Node<V>>, after: map<Ptr, Node<V>>, s: seq<Ptr>, live: set<Ptr>)
    requires IdFirst(exts) && Exact(before, exts[0], s, live)
    requires forall q :: q in live ==> q in before && q in after && after[q].id == before[q].id
    ensures Exact(after, exts[0], s, live)
  {
    forall i | 0 <= i < |s|
      ensures s[i] in after && Key(after, exts[0], s[i]) == Key(before, exts[0], s[i])
    {
      assert s[i] in s;
    }
  }

  // ----- remove -----

  function DisposedCore<V>(c: Core<V>, p: Ptr): Core<V> {
    c.(nodes := c.nodes - {p})
  }

  function ShelvedCore<V>(c: Core<V>, p: Ptr): Core<V>
    requires p in c.nodes
  {
    c.(nodes := c.nodes[p := c.nodes[p].(erased := true)], removedValues := c.removedValues + [p])
  }

  lemma RemoveErases<V(!new)>(exts: Extractors<V>, c: Core<V>, g: Shadow<V>, ix: Indices, p: Ptr)
    requires SoundBut(exts, c, g, ix, p)
    ensures forall m :: 0 <= m < |ix| ==> p in ix[m]
    ensures Holds(c.nodes, exts, EraseFrom(ix, p, 0), LiveSet(c.nodes) - {p}, 0)
  {
    hide Inv;
    ExactIsAround(c.nodes, exts[0], ix[0], LiveSet(c.nodes), p);
    hide Around, Exact;
    EraseFromWorks(c.nodes, exts, ix, LiveSet(c.nodes), p, 0);
  }

  lemma DisposeKeepsValid<V(!new)>(exts: Extractors<V>, c: Core<V>, g: Shadow<V>, ix: Indices, p: Ptr, t: Indices)
    requires ValidBut(exts, c, g, ix, p)
    requires |c.undoStack| > 0 ==> c.nodes[p].id >= c.undoStack[|c.undoStack| - 1].oldNextId
    requires Holds(c.nodes, exts, t, LiveSet(c.nodes) - {p}, 0)
    ensures ValidAt(exts, DisposedCore(c, p), g.(home := g.home - {c.nodes[p].id}, rows := g.rows - {c.nodes[p].id}), t)
  {
    AfterDispose(c, g, |c.undoStack|, p);
    hide Inv;
    var c' := DisposedCore(c, p);
    assert LiveSet(c'.nodes) == LiveSet(c.nodes) - {p};
    HoldsFrame(c.nodes, c'.nodes, exts, t, LiveSet(c'.nodes), 0);
  }

  lemma ShelveKeepsValid<V(!new)>(exts: Extractors<V>, c: Core<V>, g: Shadow<V>, ix: Indices, p: Ptr, t: Indices)
    requires ValidBut(exts, c, g, ix, p) && |c.undoStack| > 0
    requires Holds(c.nodes, exts, t, LiveSet(c.nodes) - {p}, 0)
    ensures ValidAt(exts, ShelvedCore(c, p), g.(rows := g.rows - {c.nodes[p].id}), t)
  {
    AfterShelve(c, g, |c.undoStack|, p);
    hide Inv;
    var c' := ShelvedCore(c, p);
    assert LiveSet(c'.nodes) == LiveSet(c.nodes) - {p};
    HoldsFrame(c.nodes, c'.nodes, exts, t, LiveSet(c'.nodes), 0);
  }

  // ----- start a session -----

  function StartedCore<V>(c: Core<V>): Core<V> {
    c.(undoStack := c.undoStack + [UndoState(HeadOld(c), HeadRemoved(c), c.nextId, c.monotonic + 1)], monotonic := c.monotonic + 1)
  }

  function StartedShadow<V>(c: Core<V>, g: Shadow<V>): Shadow<V> {
    g.(oldEnds := g.oldEnds + [|c.oldValues|], removedEnds := g.removedEnds + [|c.removedValues|],
       saved := g.saved + [Snapshot(g.rows, c.nextId)])
  }

  lemma StartKeepsValid<V(!new)>(exts: Extractors<V>, c: Core<V>, g: Shadow<V>, ix: Indices)
    requires ValidAt(exts, c, g, ix)
    ensures ValidAt(exts, StartedCore(c), StartedShadow(c, g), ix)
  {
    AfterAddSession(c, g, |c.undoStack|);
    RowsDistinct(exts, ix, c, g);
    hide Inv;
  }

  /** No row has a backup in a session that has just started. */
  lemma NoneSaved<V(!new)>(exts: Extractors<V>, c: Core<V>, g: Shadow<V>, ix: Indices)
    requires ValidAt(exts, c, g, ix)
    ensures forall p :: p in c.nodes ==> c.nodes[p].mtime < c.monotonic + 1
  {
  }

  // ----- lookups -----

  /** A lookup in the primary index finds exactly the row with the id. */
  lemma FindById<V(!new)>(exts: Extractors<V>, c: Core<V>, g: Shadow<V>, ix: Indices, id: nat)
    requires ValidAt(exts, c, g, ix)
    ensures |ix| == |exts| >= 1 && Within(c.nodes, ix[0])
    ensures var i := LowerBound(c.nodes, exts[0], ix[0], id);
            && (id in g.rows <==> i < |ix[0]| && c.nodes[ix[0][i]].id == id)
            && (id in g.rows ==> ix[0][i] in LiveSet(c.nodes) && c.nodes[ix[0][i]].value == g.rows[id])
  {
    LiveRows(c, g);
    hide Inv;
    assert Exact(c.nodes, exts[0], ix[0], LiveSet(c.nodes));
    var i := LowerBound(c.nodes, exts[0], ix[0], id);
    if i < |ix[0]| { assert ix[0][i] in ix[0]; }
    if id in g.rows {
      FoundAt(c.nodes, exts[0], ix[0], g.home[id]);
    }
  }

  /** The first node whose key is not below a present key has that key. */
  lemma FoundAt<V>(nodes: map<Ptr, Node<V>>, ext: Extractor<V>, s: seq<Ptr>, p: Ptr)
    requires Within(nodes, s) && Increasing(nodes, ext, s) && p in s
    ensures LowerBound(nodes, ext, s, Key(nodes, ext, p)) < |s| && s[LowerBound(nodes, ext, s, Key(nodes, ext, p))] == p
  {
    var i := LowerBound(nodes, ext, s, Key(nodes, ext, p));
    var j :| 0 <= j < |s| && s[j] == p;
    if i < j { assert false; }
  }

  ghost predicate HasKey<V>(exts: Extractors<V>, rows: map<nat, V>, n: nat, key: int)
    requires n < |exts|
  {
    exists id :: id in rows && exts[n](id, rows[id]) == key
  }

  lemma FindByKey<V(!new)>(exts: Extractors<V>, c: Core<V>, g: Shadow<V>, ix: Indices, n: nat, key: int)
    requires ValidAt(exts, c, g, ix) && n < |exts|
    ensures |ix| == |exts| && Within(c.nodes, ix[n])
    ensures var i := LowerBound(c.nodes, exts[n], ix[n], key);
            var found := i < |ix[n]| && Key(c.nodes, exts[n], ix[n][i]) == key;
            && (found <==> HasKey(exts, g.rows, n, key))
            && (found ==> ix[n][i] in LiveSet(c.nodes) && c.nodes[ix[n][i]].id in g.rows &&
                          g.rows[c.nodes[ix[n][i]].id] == c.nodes[ix[n][i]].value)
  {
    LiveRows(c, g);
    hide Inv;
    assert Exact(c.nodes, exts[n], ix[n], LiveSet(c.nodes));
    var i := LowerBound(c.nodes, exts[n], ix[n], key);
    if i < |ix[n]| && Key(c.nodes, exts[n], ix[n][i]) == key {
      assert ix[n][i] in ix[n];
      assert exts[n](c.nodes[ix[n][i]].id, g.rows[c.nodes[ix[n][i]].id]) == key;
    }
    if HasKey(exts, g.rows, n, key) {
      var id :| id in g.rows && exts[n](id, g.rows[id]) == key;
      FoundAt(c.nodes, exts[n], ix[n], g.home[id]);
    }
  }
}
