/** What a refused modify leaves behind, for a caller that goes on after the failed check. */
module UndoRefusal {
  import opened OrderedIndex
  import opened UndoModel
  import opened TableIndices
  import opened UndoInvariant
  import opened UndoMeaning
  import opened UndoPhases

  /** A refused modify of a row it had to back up: the row is as before, but for its time. */
  function RevertedCore<V>(c: Core<V>, p: Ptr): Core<V>
    requires p in c.nodes
  {
    c.(nodes := c.nodes[p := c.nodes[p].(mtime := c.monotonic)])
  }

  /** Putting the value back after a refusal succeeds. */
  lemma RevertWorks<V(!new)>(exts: Extractors<V>, c: Core<V>, g: Shadow<V>, ix: Indices, p: Ptr, v: V, t: Indices)
    requires ValidAt(exts, c, g, ix) && p in LiveSet(c.nodes)
    requires |c.undoStack| > 0 ==> c.nodes[p].mtime >= c.undoStack[|c.undoStack| - 1].ctime
    requires ValidBut(exts, ModifiedCore(c, p, v), ModifiedShadow(c, g, p, v), t, p)
    ensures |t| == |exts| >= 1
    ensures forall m :: 1 <= m < |exts| ==> Within(c.nodes, t[m]) && p in t[m]
    ensures var (t', ok) := RepositionUniqueFrom(c.nodes, exts, t, p, 1); ok && ValidAt(exts, c, g, t') && Holds(c.nodes, exts, t', LiveSet(c.nodes), 0)
  {
    hide Holds, HoldsAround, SavedDistinct, RepositionUniqueFrom, Exact, KeysFree, Base;
    OldKeysFree(exts, c, g, ix, p, v);
    var w := c.nodes[p].value;
    ModifyWorks(exts, ModifiedCore(c, p, v), ModifiedShadow(c, g, p, v), t, p, w);
    PutBack(c, g, p, v);
  }

  lemma PutBack<V>(c: Core<V>, g: Shadow<V>, p: Ptr, v: V)
    requires Arena(c, g) && Current(c, g) && p in LiveSet(c.nodes)
    ensures var c', w := ModifiedCore(c, p, v), c.nodes[p].value;
            ModifiedCore(c', p, w) == c && ModifiedShadow(c', ModifiedShadow(c, g, p, v), p, w) == g
  {
    var c', w := ModifiedCore(c, p, v), c.nodes[p].value;
    assert ModifiedCore(c', p, w).nodes == c.nodes;
    assert ModifiedShadow(c', ModifiedShadow(c, g, p, v), p, w).rows == g.rows;
  }

  /** The row's old keys are still its own. */
  lemma OldKeysFree<V(!new)>(exts: Extractors<V>, c: Core<V>, g: Shadow<V>, ix: Indices, p: Ptr, v: V)
    requires ValidAt(exts, c, g, ix) && p in LiveSet(c.nodes)
    ensures KeysFree(exts, ModifiedShadow(c, g, p, v).rows, c.nodes[p].id, c.nodes[p].value)
    ensures Arena(c, g) && Current(c, g)
  {
    RowsDistinct(exts, ix, c, g);
    LiveRows(c, g);
  }

  /** Such a row has no backup any more that the newest session would put back. */
  lemma NothingToRestore<V(!new)>(exts: Extractors<V>, c: Core<V>, g: Shadow<V>, ix: Indices, p: Ptr)
    requires ValidAt(exts, c, g, ix) && p in LiveSet(c.nodes) && |c.undoStack| > 0
    requires c.nodes[p].mtime < c.undoStack[|c.undoStack| - 1].ctime
    ensures var l := |c.undoStack| - 1;
            && |g.oldEnds| == |g.saved| == |c.undoStack| && g.oldEnds[l] <= |c.oldValues|
            && (forall a :: g.oldEnds[l] <= a < |c.oldValues| ==> c.oldValues[a].current != p)
            && c.nodes[p].id < c.undoStack[l].oldNextId
            && c.nodes[p].id in g.saved[l].rows && g.saved[l].rows[c.nodes[p].id] == c.nodes[p].value
  {
    assert SessionAt(c, g, |c.undoStack| - 1);
  }

  /** After such a refusal the row may be changed again in the session, in place and without
      a backup.  The loops of an undo then bring back the value saved at the session's start
      exactly when the row still has it. */
  lemma UndoAfterRefusal<V(!new)>(exts: Extractors<V>, c: Core<V>, g: Shadow<V>, ix: Indices, p: Ptr, v: V,
                                  n1: map<Ptr, Node<V>>, n2: map<Ptr, Node<V>>)
    requires ValidAt(exts, c, g, ix) && p in LiveSet(c.nodes) && |c.undoStack| > 0
    requires c.nodes[p].mtime < c.undoStack[|c.undoStack| - 1].ctime
    requires |g.oldEnds| == |g.saved| == |c.undoStack|
    requires var u, c' := c.undoStack[|c.undoStack| - 1], ModifiedCore(RevertedCore(c, p), p, v);
             NewErased(c'.nodes, n1, u.oldNextId) && Replayed(c'.oldValues, g.oldEnds[|c.undoStack| - 1], u.ctime, n1, n2)
    ensures p in n2 && n2[p].value == v
    ensures var s := g.saved[|c.undoStack| - 1];
            c.nodes[p].id in s.rows && (n2[p].value == s.rows[c.nodes[p].id] <==> v == c.nodes[p].value)
  {
    NothingToRestore(exts, c, g, ix, p);
    hide ValidAt;
  }

  /** The rows and the indices are right in that state. */
  lemma RevertedIsSound<V(!new)>(exts: Extractors<V>, c: Core<V>, g: Shadow<V>, ix: Indices, p: Ptr, t: Indices)
    requires ValidAt(exts, c, g, ix) && p in LiveSet(c.nodes)
    requires var nodes := RevertedCore(c, p).nodes; Holds(nodes, exts, t, LiveSet(nodes), 0)
    ensures SoundAt(exts, RevertedCore(c, p), g, t)
  {
    hide Session, Holds;
  }

  /** What the first loop leaves can be replayed, in the state after a refusal too, whatever
      value the row has been given since. */
  lemma StillReplayable<V(!new)>(exts: Extractors<V>, c: Core<V>, g: Shadow<V>, ix: Indices, p: Ptr, v: V, n1: map<Ptr, Node<V>>)
    requires ValidAt(exts, c, g, ix) && p in LiveSet(c.nodes) && |c.undoStack| > 0 && NewestEnds(c, g)
    requires NewErased(ModifiedCore(RevertedCore(c, p), p, v).nodes, n1, c.undoStack[|c.undoStack| - 1].oldNextId)
    ensures Replayable(c.oldValues, g.oldEnds[|c.undoStack| - 1], c.undoStack[|c.undoStack| - 1].ctime, n1)
  {
    hide ValidAt;
    AllReplayable(exts, c, g, ix);
    var n := map q | q in n1 :: c.nodes[q];
    assert NewErased(c.nodes, n, c.undoStack[|c.undoStack| - 1].oldNextId);
    assert n.Keys == n1.Keys;
  }

  /** No shadow makes the state one that meets the invariant behind undoing. */
  lemma RevertedIsNotValid<V(!new)>(exts: Extractors<V>, c: Core<V>, g: Shadow<V>, ix: Indices, p: Ptr, g': Shadow<V>, ix': Indices)
    requires ValidAt(exts, c, g, ix) && p in LiveSet(c.nodes) && |c.undoStack| > 0
    requires c.nodes[p].mtime < c.undoStack[|c.undoStack| - 1].ctime
    ensures !ValidAt(exts, RevertedCore(c, p), g', ix')
  {
    NothingToRestore(exts, c, g, ix, p);
    TouchedHasBackup(exts, RevertedCore(c, p), g', ix', p);
    SameEnd(c, g, RevertedCore(c, p), g', |c.undoStack| - 1);
    hide Holds, Inv, Shape, SavedDistinct;
  }

  /** In a table that can be undone a row older than the newest session and touched in it
      has a backup. */
  lemma TouchedHasBackup<V(!new)>(exts: Extractors<V>, c: Core<V>, g: Shadow<V>, ix: Indices, p: Ptr)
    requires p in LiveSet(c.nodes) && |c.undoStack| > 0
    requires var u := c.undoStack[|c.undoStack| - 1]; c.nodes[p].id < u.oldNextId && c.nodes[p].mtime >= u.ctime
    ensures ValidAt(exts, c, g, ix) ==>
              var l := |c.undoStack| - 1;
              Shape(c, g, |c.undoStack|) && HasBackup(c, c.undoStack[l], g.oldEnds[l], p)
  {
    if ValidAt(exts, c, g, ix) {
      assert SessionAt(c, g, |c.undoStack| - 1);
    }
  }

  /** A session's end is where its backup's address is. */
  lemma SameEnd<V>(c: Core<V>, g: Shadow<V>, c': Core<V>, g': Shadow<V>, l: nat)
    requires Shape(c, g, |c.undoStack|) && l < |c.undoStack|
    requires c'.undoStack == c.undoStack && c'.oldValues == c.oldValues
    ensures Shape(c', g', |c.undoStack|) ==> g'.oldEnds[l] == g.oldEnds[l]
  {
    if Shape(c', g', |c.undoStack|) {
      assert EndsAt(c, g, l) && EndsAt(c', g', l);
    }
  }
}
