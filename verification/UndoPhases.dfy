/** The three loops of undo: erase the new rows, put the backups back, put the
    removed rows back. */
module UndoPhases {
  import opened OrderedIndex
  import opened UndoModel
  import opened TableIndices
  import opened UndoInvariant
  import opened UndoRestore
  import opened UndoMeaning

  // ----- new rows -----

  /** The live rows with an id from `nextId` on are gone. */
  ghost predicate NewErased<V>(before: map<Ptr, Node<V>>, after: map<Ptr, Node<V>>, nextId: nat) {
    && (forall p :: p in after <==> p in before && (before[p].erased || before[p].id < nextId))
    && (forall p :: p in after ==> after[p] == before[p])
  }

  /** Halfway: only such rows are gone, and those still there sit from `from` on. */
  ghost predicate Erasing<V(!new)>(exts: Extractors<V>, before: map<Ptr, Node<V>>, after: map<Ptr, Node<V>>, ix: Indices, from: nat, nextId: nat) {
    && IdFirst(exts) && Holds(after, exts, ix, LiveSet(after), 0)
    && (forall p :: p in after ==> p in before && after[p] == before[p])
    && (forall p :: p in before && p !in after ==> !before[p].erased && before[p].id >= nextId)
    && from <= |ix[0]|
    && (forall j :: 0 <= j < |ix[0]| ==> ix[0][j] in after && (after[ix[0][j]].id < nextId <==> j < from))
  }

  lemma EraseStarts<V(!new)>(exts: Extractors<V>, nodes: map<Ptr, Node<V>>, ix: Indices, nextId: nat)
    requires IdFirst(exts) && Holds(nodes, exts, ix, LiveSet(nodes), 0)
    ensures Within(nodes, ix[0]) && Erasing(exts, nodes, nodes, ix, LowerBound(nodes, exts[0], ix[0], nextId), nextId)
  {
    assert Exact(nodes, exts[0], ix[0], LiveSet(nodes));
    var from := LowerBound(nodes, exts[0], ix[0], nextId);
    forall j | 0 <= j < |ix[0]|
      ensures nodes[ix[0][j]].id < nextId <==> j < from
    {
      assert Key(nodes, exts[0], ix[0][j]) == nodes[ix[0][j]].id;
      if from < j { assert Key(nodes, exts[0], ix[0][from]) < Key(nodes, exts[0], ix[0][j]); }
    }
  }

  lemma EraseStep<V(!new)>(exts: Extractors<V>, before: map<Ptr, Node<V>>, after: map<Ptr, Node<V>>, ix: Indices, from: nat, nextId: nat)
    requires Erasing(exts, before, after, ix, from, nextId) && from < |ix[0]|
    ensures var p := ix[0][from];
            && (forall m :: 0 <= m < |ix| ==> p in ix[m])
            && Erasing(exts, before, after - {p}, EraseFrom(ix, p, 0), from, nextId)
            && |EraseFrom(ix, p, 0)[0]| < |ix[0]|
  {
    var p := ix[0][from];
    assert Exact(after, exts[0], ix[0], LiveSet(after));
    IncreasingHasNoDuplicates(after, exts[0], ix[0]);
    ErasedHold(exts, after, ix, p);
    hide Holds;
    var after', t := after - {p}, EraseFrom(ix, p, 0);
    assert IndexOf(ix[0], p) == from;
    assert t[0] == RemoveAt(ix[0], from);
    forall j | 0 <= j < |t[0]|
      ensures t[0][j] in after' && (after'[t[0][j]].id < nextId <==> j < from)
    {
      assert t[0][j] == ix[0][if j < from then j else j + 1];
    }
  }

  lemma ErasedHold<V>(exts: Extractors<V>, after: map<Ptr, Node<V>>, ix: Indices, p: Ptr)
    requires Holds(after, exts, ix, LiveSet(after), 0) && p in LiveSet(after)
    ensures forall m :: 0 <= m < |ix| ==> p in ix[m]
    ensures Holds(after - {p}, exts, EraseFrom(ix, p, 0), LiveSet(after - {p}), 0)
  {
    HoldsIsAround(after, exts, ix, LiveSet(after), p, 0);
    hide Around, Exact;
    EraseFromWorks(after, exts, ix, LiveSet(after), p, 0);
    assert LiveSet(after - {p}) == LiveSet(after) - {p};
    HoldsFrame(after, after - {p}, exts, EraseFrom(ix, p, 0), LiveSet(after - {p}), 0);
  }

  lemma EraseEnds<V(!new)>(exts: Extractors<V>, before: map<Ptr, Node<V>>, after: map<Ptr, Node<V>>, ix: Indices, from: nat, nextId: nat)
    requires Erasing(exts, before, after, ix, from, nextId) && from >= |ix[0]|
    ensures NewErased(before, after, nextId)
  {
    assert Exact(after, exts[0], ix[0], LiveSet(after));
    forall p | p in after && !after[p].erased
      ensures after[p].id < nextId
    {
      assert p in ix[0];
      var j :| 0 <= j < |ix[0]| && ix[0][j] == p;
    }
  }

  // ----- backups -----

  /** The backups from `j` on that are older than the session are back in their nodes. */
  ghost predicate Replayed<V>(ov: seq<OldNode<V>>, j: nat, ctime: nat, before: map<Ptr, Node<V>>, after: map<Ptr, Node<V>>) {
    && (forall p :: p in after <==> p in before)
    && (forall p :: p in after ==> after[p].id == before[p].id && after[p].erased == before[p].erased)
    && (forall a :: j <= a < |ov| && ov[a].mtime < ctime ==>
          ov[a].current in after && after[ov[a].current].value == ov[a].value && after[ov[a].current].mtime == ov[a].mtime)
    && (forall p :: p in after && (forall a :: j <= a < |ov| && ov[a].mtime < ctime ==> ov[a].current != p) ==> after[p] == before[p])
  }

  /** The backups above `end` that are older than the session point at allocated nodes, one each. */
  ghost predicate Replayable<V>(ov: seq<OldNode<V>>, end: nat, ctime: nat, nodes: map<Ptr, Node<V>>) {
    && end <= |ov|
    && (forall a :: end <= a < |ov| && ov[a].mtime < ctime ==> ov[a].current in nodes)
    && (forall a, b :: end <= a < b < |ov| && ov[a].current == ov[b].current ==> ov[b].mtime >= ctime)
  }

  function RestoredFrom<V>(o: OldNode<V>, nodes: map<Ptr, Node<V>>): map<Ptr, Node<V>>
    requires o.current in nodes
  {
    nodes[o.current := nodes[o.current].(value := o.value, mtime := o.mtime)]
  }

  lemma ReplayStep<V>(ov: seq<OldNode<V>>, end: nat, j: nat, ctime: nat, before: map<Ptr, Node<V>>, after: map<Ptr, Node<V>>)
    requires Replayable(ov, end, ctime, before) && end < j <= |ov| && Replayed(ov, j, ctime, before, after)
    ensures ov[j - 1].mtime < ctime ==>
              ov[j - 1].current in after && Replayed(ov, j - 1, ctime, before, RestoredFrom(ov[j - 1], after))
    ensures ov[j - 1].mtime >= ctime ==> Replayed(ov, j - 1, ctime, before, after)
  {
  }

  lemma ReplayStarts<V>(ov: seq<OldNode<V>>, ctime: nat, nodes: map<Ptr, Node<V>>)
    ensures Replayed(ov, |ov|, ctime, nodes, nodes)
  {
  }

  /** The table during the loop: the primary index is exact, the others sorted with
      equal keys allowed. */
  ghost predicate Transient<V(!new)>(exts: Extractors<V>, nodes: map<Ptr, Node<V>>, ix: Indices) {
    && IdFirst(exts) && |ix| == |exts|
    && Exact(nodes, exts[0], ix[0], LiveSet(nodes))
    && HoldsLoosely(nodes, exts, ix, LiveSet(nodes), 1)
  }

  lemma TransientStarts<V(!new)>(exts: Extractors<V>, nodes: map<Ptr, Node<V>>, ix: Indices)
    requires IdFirst(exts) && Holds(nodes, exts, ix, LiveSet(nodes), 0)
    ensures Transient(exts, nodes, ix)
  {
    ExactIsLoose(nodes, exts, ix, LiveSet(nodes), 0);
  }

  lemma TransientStep<V(!new)>(exts: Extractors<V>, nodes: map<Ptr, Node<V>>, ix: Indices, o: OldNode<V>)
    requires Transient(exts, nodes, ix) && o.current in nodes
    ensures |exts| == |ix| >= 1
    ensures var after := RestoredFrom(o, nodes);
            && (nodes[o.current].erased ==> Transient(exts, after, ix))
            && (!nodes[o.current].erased ==>
                 && (forall m :: 1 <= m < |exts| ==> Within(after, ix[m]) && o.current in ix[m])
                 && Transient(exts, after, RepositionEqualFrom(after, exts, ix, o.current, 1)))
  {
    var after, live := RestoredFrom(o, nodes), LiveSet(nodes);
    assert LiveSet(after) == live;
    PrimaryUnmoved(exts, nodes, after, ix[0], live);
    if nodes[o.current].erased {
      LooseFrame(nodes, after, exts, ix, live, 1);
    } else {
      RepositionEqualFromWorks(nodes, after, exts, ix, live, o.current, 1);
    }
  }

  lemma LooseFrame<V>(before: map<Ptr, Node<V>>, nodes: map<Ptr, Node<V>>, exts: Extractors<V>, ix: Indices, live: set<Ptr>, n: nat)
    requires HoldsLoosely(before, exts, ix, live, n)
    requires forall q :: q in live ==> q in before && q in nodes && nodes[q].id == before[q].id && nodes[q].value == before[q].value
    ensures HoldsLoosely(nodes, exts, ix, live, n)
  {
    forall m | n <= m < |exts|
      ensures Loose(nodes, exts[m], ix[m], live)
    {
      assert Loose(before, exts[m], ix[m], live);
      forall i | 0 <= i < |ix[m]|
        ensures ix[m][i] in nodes && Key(nodes, exts[m], ix[m][i]) == Key(before, exts[m], ix[m][i])
      {
        assert ix[m][i] in ix[m];
      }
    }
  }

  // ----- the values after the second loop -----

  /** Node `p` holds its saved row. */
  ghost predicate HoldsSaved<V>(nodes: map<Ptr, Node<V>>, rows: map<nat, V>, p: Ptr) {
    p in nodes && nodes[p].id in rows && nodes[p].value == rows[nodes[p].id]
  }

  lemma CanReplay<V>(c: Core<V>, home: map<nat, Ptr>, u: UndoState, oldEnd: nat, removedEnd: nat, s: Snapshot<V>, nodes: map<Ptr, Node<V>>)
    requires Session(c, home, u, oldEnd, removedEnd, s) && NewErased(c.nodes, nodes, u.oldNextId)
    ensures Replayable(c.oldValues, oldEnd, u.ctime, nodes)
  {
    forall a | oldEnd <= a < |c.oldValues| && c.oldValues[a].mtime < u.ctime
      ensures c.oldValues[a].current in nodes
    {
      assert GoodBackup(c, removedEnd, s, a);
    }
  }

  /** After the second loop every node in scope that is not newer holds its saved row. */
  lemma SavedValues<V>(c: Core<V>, home: map<nat, Ptr>, u: UndoState, oldEnd: nat, removedEnd: nat, s: Snapshot<V>,
                       nodes: map<Ptr, Node<V>>, after: map<Ptr, Node<V>>)
    requires Session(c, home, u, oldEnd, removedEnd, s) && NewErased(c.nodes, nodes, u.oldNextId)
    requires Replayed(c.oldValues, oldEnd, u.ctime, nodes, after)
    ensures forall p :: p in after && InScope(c, removedEnd, p) && c.nodes[p].id < u.oldNextId ==> HoldsSaved(after, s.rows, p)
  {
    forall p | p in after && InScope(c, removedEnd, p) && c.nodes[p].id < u.oldNextId
      ensures HoldsSaved(after, s.rows, p)
    {
      if HasBackup(c, u, oldEnd, p) {
        var a :| Restores(c, u, oldEnd, a, p);
        assert GoodBackup(c, removedEnd, s, a);
      } else {
        NoBackupNoChange(c, u, oldEnd, p);
      }
    }
  }

  lemma NoBackupNoChange<V>(c: Core<V>, u: UndoState, oldEnd: nat, p: Ptr)
    requires !HasBackup(c, u, oldEnd, p)
    ensures forall a :: oldEnd <= a < |c.oldValues| && c.oldValues[a].mtime < u.ctime ==> c.oldValues[a].current != p
  {
    forall a | oldEnd <= a < |c.oldValues| && c.oldValues[a].mtime < u.ctime
      ensures c.oldValues[a].current != p
    {
      assert !Restores(c, u, oldEnd, a, p);
    }
  }

  /** Rows that all come from one snapshot have distinct keys. */
  lemma SavedKeysDistinct<V(!new)>(exts: Extractors<V>, nodes: map<Ptr, Node<V>>, home: map<nat, Ptr>, rows: map<nat, V>, live: set<Ptr>)
    requires KeysDistinct(exts, rows)
    requires forall p :: p in live ==> HoldsSaved(nodes, rows, p) && nodes[p].id in home && home[nodes[p].id] == p
    ensures forall p :: p in live ==> p in nodes
    ensures forall m, a, b :: 1 <= m < |exts| && a in live && b in live && a != b ==> Key(nodes, exts[m], a) != Key(nodes, exts[m], b)
  {
    forall p | p in live
      ensures p in nodes
    {
      assert HoldsSaved(nodes, rows, p);
    }
    forall m, a, b | 1 <= m < |exts| && a in live && b in live && a != b
      ensures Key(nodes, exts[m], a) != Key(nodes, exts[m], b)
    {
      assert HoldsSaved(nodes, rows, a) && HoldsSaved(nodes, rows, b);
      assert nodes[a].id != nodes[b].id;
    }
  }

  /** Once the backups are back no two live rows clash, so every index is exact. */
  lemma TransientEnds<V(!new)>(exts: Extractors<V>, nodes: map<Ptr, Node<V>>, ix: Indices, home: map<nat, Ptr>, rows: map<nat, V>)
    requires Transient(exts, nodes, ix) && KeysDistinct(exts, rows)
    requires forall p :: p in LiveSet(nodes) ==> HoldsSaved(nodes, rows, p) && nodes[p].id in home && home[nodes[p].id] == p
    ensures Holds(nodes, exts, ix, LiveSet(nodes), 0)
  {
    SavedKeysDistinct(exts, nodes, home, rows, LiveSet(nodes));
    DistinctIsExact(nodes, exts, ix, LiveSet(nodes), 1);
  }

  // ----- removed rows -----

  /** The removed nodes from `j` on are live again, or gone if they were newer. */
  ghost predicate Reinserted<V>(rv: seq<Ptr>, j: nat, nextId: nat, before: map<Ptr, Node<V>>, after: map<Ptr, Node<V>>)
    requires j <= |rv|
  {
    && (forall p :: p in after <==> p in before && (p in rv[j..] ==> before[p].id < nextId))
    && (forall p :: p in after ==> after[p] == before[p].(erased := before[p].erased && p !in rv[j..]))
  }

  /** What the third loop works on. */
  ghost predicate Reinsertable<V(!new)>(exts: Extractors<V>, rv: seq<Ptr>, end: nat, nextId: nat, nodes: map<Ptr, Node<V>>,
                                        home: map<nat, Ptr>, rows: map<nat, V>) {
    && IdFirst(exts) && end <= |rv| && NoDuplicates(rv) && KeysDistinct(exts, rows)
    && (forall p :: p in rv ==> p in nodes && nodes[p].erased)
    && (forall p :: p in nodes ==> nodes[p].id in home && home[nodes[p].id] == p)
    && (forall p :: p in nodes && (!nodes[p].erased || p in rv[end..]) && nodes[p].id < nextId ==> HoldsSaved(nodes, rows, p))
    && (forall p :: p in nodes && !nodes[p].erased ==> nodes[p].id < nextId)
  }

  lemma ReinsertStep<V(!new)>(exts: Extractors<V>, rv: seq<Ptr>, end: nat, j: nat, nextId: nat,
                              before: map<Ptr, Node<V>>, after: map<Ptr, Node<V>>, home: map<nat, Ptr>, rows: map<nat, V>, ix: Indices)
    requires Reinsertable(exts, rv, end, nextId, before, home, rows)
    requires end < j <= |rv| && Reinserted(rv, j, nextId, before, after)
    requires Holds(after, exts, ix, LiveSet(after), 0)
    ensures var p := rv[j - 1];
            && p in after
            && (after[p].id >= nextId ==>
                 Reinserted(rv, j - 1, nextId, before, after - {p}) && Holds(after - {p}, exts, ix, LiveSet(after - {p}), 0))
            && (after[p].id < nextId ==>
                 var after' := after[p := after[p].(erased := false)];
                 && Reinserted(rv, j - 1, nextId, before, after')
                 && (forall m :: 0 <= m < |exts| ==> Within(after', ix[m]))
                 && InsertFrom(after', exts, ix, p, 0).1
                 && Holds(after', exts, InsertFrom(after', exts, ix, p, 0).0, LiveSet(after'), 0))
  {
    var p := rv[j - 1];
    TailOf(rv, j);
    if after[p].id >= nextId {
      assert LiveSet(after - {p}) == LiveSet(after);
      HoldsFrame(after, after - {p}, exts, ix, LiveSet(after), 0);
    } else {
      assert p in rv[end..] by { assert rv[end..][j - 1 - end] == p; }
      ReinsertOne(exts, before, after, home, rows, ix, p, rv[end..], rv[j..], nextId);
    }
  }

  lemma ReinsertStarts<V(!new)>(exts: Extractors<V>, rv: seq<Ptr>, end: nat, nextId: nat, nodes: map<Ptr, Node<V>>,
                                home: map<nat, Ptr>, rows: map<nat, V>)
    requires Reinsertable(exts, rv, end, nextId, nodes, home, rows)
    ensures end <= |rv| && NoDuplicates(rv) && Reinserted(rv, |rv|, nextId, nodes, nodes)
  {
  }

  lemma TailOf(rv: seq<Ptr>, j: nat)
    requires 0 < j <= |rv| && NoDuplicates(rv)
    ensures forall q :: q in rv[j - 1..] <==> q in rv[j..] || q == rv[j - 1]
    ensures rv[j - 1] !in rv[j..]
  {
    assert rv[j - 1..] == [rv[j - 1]] + rv[j..];
  }

  /** Re-inserting a removed row cannot fail: all keys come from one snapshot. */
  lemma ReinsertOne<V(!new)>(exts: Extractors<V>, before: map<Ptr, Node<V>>, after: map<Ptr, Node<V>>, home: map<nat, Ptr>,
                             rows: map<nat, V>, ix: Indices, p: Ptr, pending: seq<Ptr>, done: seq<Ptr>, nextId: nat)
    requires IdFirst(exts) && KeysDistinct(exts, rows)
    requires forall q :: q in before ==> before[q].id in home && home[before[q].id] == q
    requires forall q :: q in before && (!before[q].erased || q in pending) && before[q].id < nextId ==> HoldsSaved(before, rows, q)
    requires forall q :: q in before && !before[q].erased ==> before[q].id < nextId
    requires forall q :: q in after ==> q in before && after[q] == before[q].(erased := before[q].erased && q !in done)
    requires forall q :: q in done ==> q in pending
    requires forall q :: q in done && q in after ==> before[q].id < nextId
    requires p in after && p in pending && p !in done && before[p].erased && before[p].id < nextId
    requires Holds(after, exts, ix, LiveSet(after), 0)
    ensures var after' := after[p := after[p].(erased := false)];
            && (forall m :: 0 <= m < |exts| ==> Within(after', ix[m]))
            && InsertFrom(after', exts, ix, p, 0).1
            && Holds(after', exts, InsertFrom(after', exts, ix, p, 0).0, LiveSet(after'), 0)
  {
    var after' := after[p := after[p].(erased := false)];
    var live := LiveSet(after);
    assert LiveSet(after') == live + {p};
    HoldsFrame(after, after', exts, ix, live, 0);
    forall m | 0 <= m < |exts|
      ensures Within(after', ix[m])
    {
      assert Exact(after', exts[m], ix[m], live);
    }
    SavedKeysDistinct(exts, after', home, rows, live + {p});
    forall m | 0 <= m < |exts|
      ensures KeyFreeAt(after', exts[m], live, p)
    {
      if m == 0 {
        assert forall q :: q in live && q != p ==> after'[q].id != after'[p].id;
      }
    }
    InsertFromWorks(after', exts, ix, live, p, 0);
  }

  // ----- all together -----

  lemma PhasesRestore<V>(c: Core<V>, home: map<nat, Ptr>, u: UndoState, oldEnd: nat, removedEnd: nat, s: Snapshot<V>,
                         n1: map<Ptr, Node<V>>, n2: map<Ptr, Node<V>>, n3: map<Ptr, Node<V>>)
    requires Session(c, home, u, oldEnd, removedEnd, s)
    requires NewErased(c.nodes, n1, u.oldNextId)
    requires Replayed(c.oldValues, oldEnd, u.ctime, n1, n2)
    requires Reinserted(c.removedValues, removedEnd, u.oldNextId, n2, n3)
    ensures Restored(c, u, oldEnd, removedEnd, n3)
  {
    hide Covered, Ordered, Good;
    PhasesNodes(c, u, oldEnd, removedEnd, n1, n2, n3);
    PhasesUnchanged(c, u, oldEnd, removedEnd, n1, n2, n3);
    PhasesBackups(c, u, oldEnd, removedEnd, n1, n2, n3);
    hide NewErased, Replayed, Reinserted, Session;
  }

  lemma PhasesNodes<V>(c: Core<V>, u: UndoState, oldEnd: nat, removedEnd: nat,
                       n1: map<Ptr, Node<V>>, n2: map<Ptr, Node<V>>, n3: map<Ptr, Node<V>>)
    requires removedEnd <= |c.removedValues| && oldEnd <= |c.oldValues|
    requires forall p :: p in c.nodes && c.nodes[p].id >= u.oldNextId ==> InScope(c, removedEnd, p)
    requires NewErased(c.nodes, n1, u.oldNextId)
    requires Replayed(c.oldValues, oldEnd, u.ctime, n1, n2)
    requires Reinserted(c.removedValues, removedEnd, u.oldNextId, n2, n3)
    ensures forall p :: p in n3 <==> p in c.nodes && c.nodes[p].id < u.oldNextId
    ensures forall p :: p in n3 ==> n3[p].id == c.nodes[p].id && n3[p].erased == !InScope(c, removedEnd, p)
  {
    forall p
      ensures p in n3 <==> p in c.nodes && c.nodes[p].id < u.oldNextId
    {
      if p in c.nodes { assert c.nodes[p].id >= u.oldNextId ==> InScope(c, removedEnd, p); }
    }
  }

  lemma PhasesBackups<V>(c: Core<V>, u: UndoState, oldEnd: nat, removedEnd: nat,
                         n1: map<Ptr, Node<V>>, n2: map<Ptr, Node<V>>, n3: map<Ptr, Node<V>>)
    requires removedEnd <= |c.removedValues| && oldEnd <= |c.oldValues|
    requires Replayed(c.oldValues, oldEnd, u.ctime, n1, n2)
    requires Reinserted(c.removedValues, removedEnd, u.oldNextId, n2, n3)
    ensures forall a, p :: p in n3 && Restores(c, u, oldEnd, a, p) ==>
              n3[p].value == c.oldValues[a].value && n3[p].mtime == c.oldValues[a].mtime
  {
  }

  lemma PhasesUnchanged<V>(c: Core<V>, u: UndoState, oldEnd: nat, removedEnd: nat,
                           n1: map<Ptr, Node<V>>, n2: map<Ptr, Node<V>>, n3: map<Ptr, Node<V>>)
    requires removedEnd <= |c.removedValues| && oldEnd <= |c.oldValues|
    requires NewErased(c.nodes, n1, u.oldNextId)
    requires Replayed(c.oldValues, oldEnd, u.ctime, n1, n2)
    requires Reinserted(c.removedValues, removedEnd, u.oldNextId, n2, n3)
    ensures forall p :: p in n3 && !HasBackup(c, u, oldEnd, p) ==> n3[p].value == c.nodes[p].value && n3[p].mtime == c.nodes[p].mtime
  {
    forall p | p in n3 && !HasBackup(c, u, oldEnd, p)
      ensures n3[p].value == c.nodes[p].value && n3[p].mtime == c.nodes[p].mtime
    {
      NoBackupNoChange(c, u, oldEnd, p);
    }
  }

  /** Where the newest session's ends are. */
  ghost predicate NewestEnds<V>(c: Core<V>, g: Shadow<V>) {
    && |c.undoStack| > 0 && |g.oldEnds| == |g.removedEnds| == |g.saved| == |c.undoStack|
    && EndsAt(c, g, |c.undoStack| - 1)
    && g.saved[|c.undoStack| - 1].nextId == c.undoStack[|c.undoStack| - 1].oldNextId
    && (forall a, b :: 0 <= a < b < |c.oldValues| ==> c.oldValues[a].addr != c.oldValues[b].addr)
  }

  lemma UndoReady<V(!new)>(exts: Extractors<V>, c: Core<V>, g: Shadow<V>, ix: Indices)
    requires ValidAt(exts, c, g, ix) && |c.undoStack| > 0
    ensures IdFirst(exts) && Holds(c.nodes, exts, ix, LiveSet(c.nodes), 0)
    ensures NewestEnds(c, g)
  {
  }

  lemma UndoAfterReplay<V(!new)>(exts: Extractors<V>, c: Core<V>, g: Shadow<V>, n1: map<Ptr, Node<V>>, n2: map<Ptr, Node<V>>, ix: Indices)
    requires NewestEnds(c, g) && SessionAt(c, g, |c.undoStack| - 1) && Arena(c, g) && NoDuplicates(c.removedValues)
    requires KeysDistinct(exts, g.saved[|c.undoStack| - 1].rows)
    requires NewErased(c.nodes, n1, c.undoStack[|c.undoStack| - 1].oldNextId)
    requires Replayed(c.oldValues, g.oldEnds[|c.undoStack| - 1], c.undoStack[|c.undoStack| - 1].ctime, n1, n2)
    requires Transient(exts, n2, ix)
    ensures var l := |c.undoStack| - 1;
            && Reinsertable(exts, c.removedValues, g.removedEnds[l], c.undoStack[l].oldNextId, n2, g.home, g.saved[l].rows)
            && Holds(n2, exts, ix, LiveSet(n2), 0)
  {
    var l := |c.undoStack| - 1;
    SavedValues(c, g.home, c.undoStack[l], g.oldEnds[l], g.removedEnds[l], g.saved[l], n1, n2);
    hide Session;
    ReinsertableNow(exts, c, g, n1, n2);
    hide Replayed;
    TransientEnds(exts, n2, ix, g.home, g.saved[l].rows);
  }

  lemma ReinsertableNow<V(!new)>(exts: Extractors<V>, c: Core<V>, g: Shadow<V>, n1: map<Ptr, Node<V>>, n2: map<Ptr, Node<V>>)
    requires NewestEnds(c, g) && Arena(c, g) && NoDuplicates(c.removedValues) && IdFirst(exts)
    requires KeysDistinct(exts, g.saved[|c.undoStack| - 1].rows)
    requires NewErased(c.nodes, n1, c.undoStack[|c.undoStack| - 1].oldNextId)
    requires Replayed(c.oldValues, g.oldEnds[|c.undoStack| - 1], c.undoStack[|c.undoStack| - 1].ctime, n1, n2)
    requires var l := |c.undoStack| - 1;
             forall p :: p in n2 && InScope(c, g.removedEnds[l], p) && c.nodes[p].id < c.undoStack[l].oldNextId ==> HoldsSaved(n2, g.saved[l].rows, p)
    ensures var l := |c.undoStack| - 1;
            Reinsertable(exts, c.removedValues, g.removedEnds[l], c.undoStack[l].oldNextId, n2, g.home, g.saved[l].rows)
  {
  }

  lemma UndoAfterAll<V(!new)>(exts: Extractors<V>, c: Core<V>, g: Shadow<V>,
                              n1: map<Ptr, Node<V>>, n2: map<Ptr, Node<V>>, n3: map<Ptr, Node<V>>, ix: Indices)
    requires IdFirst(exts) && NewestEnds(c, g) && Inv(c, g, |c.undoStack|) && SavedDistinct(exts, g.saved)
    requires NewErased(c.nodes, n1, c.undoStack[|c.undoStack| - 1].oldNextId)
    requires Replayed(c.oldValues, g.oldEnds[|c.undoStack| - 1], c.undoStack[|c.undoStack| - 1].ctime, n1, n2)
    requires Reinserted(c.removedValues, g.removedEnds[|c.undoStack| - 1], c.undoStack[|c.undoStack| - 1].oldNextId, n2, n3)
    requires Holds(n3, exts, ix, LiveSet(n3), 0)
    ensures var l := |c.undoStack| - 1;
            ValidAt(exts, UndoneCore(c, g.oldEnds[l], g.removedEnds[l], n3), UndoneShadow(g, c.undoStack[l].oldNextId), ix)
  {
    var l := |c.undoStack| - 1;
    assert SessionAt(c, g, l);
    PhasesRestore(c, g.home, c.undoStack[l], g.oldEnds[l], g.removedEnds[l], g.saved[l], n1, n2, n3);
    AfterUndo(c, g, l + 1, n3);
    hide Inv;
  }

  lemma NewestSession<V(!new)>(exts: Extractors<V>, c: Core<V>, g: Shadow<V>, ix: Indices)
    requires ValidAt(exts, c, g, ix) && |c.undoStack| > 0
    ensures NewestEnds(c, g) && SessionAt(c, g, |c.undoStack| - 1)
    ensures Arena(c, g) && NoDuplicates(c.removedValues) && KeysDistinct(exts, g.saved[|c.undoStack| - 1].rows)
  {
  }

  // The same steps, from a valid table; `o` is its indices.

  /** Whatever the first loop leaves can be replayed. */
  lemma AllReplayable<V(!new)>(exts: Extractors<V>, c: Core<V>, g: Shadow<V>, o: Indices)
    requires ValidAt(exts, c, g, o) && NewestEnds(c, g)
    ensures var l := |c.undoStack| - 1;
            forall n :: NewErased(c.nodes, n, c.undoStack[l].oldNextId) ==> Replayable(c.oldValues, g.oldEnds[l], c.undoStack[l].ctime, n)
  {
    var l := |c.undoStack| - 1;
    NewestSession(exts, c, g, o);
    hide ValidAt, Session, NewErased, Replayable;
    forall n | NewErased(c.nodes, n, c.undoStack[l].oldNextId)
      ensures Replayable(c.oldValues, g.oldEnds[l], c.undoStack[l].ctime, n)
    {
      CanReplay(c, g.home, c.undoStack[l], g.oldEnds[l], g.removedEnds[l], g.saved[l], n);
    }
  }

  lemma UndoReplayed<V(!new)>(exts: Extractors<V>, c: Core<V>, g: Shadow<V>, o: Indices, n1: map<Ptr, Node<V>>, n2: map<Ptr, Node<V>>, ix: Indices)
    requires ValidAt(exts, c, g, o) && NewestEnds(c, g)
    requires NewErased(c.nodes, n1, c.undoStack[|c.undoStack| - 1].oldNextId)
    requires Replayed(c.oldValues, g.oldEnds[|c.undoStack| - 1], c.undoStack[|c.undoStack| - 1].ctime, n1, n2)
    requires Transient(exts, n2, ix)
    ensures var l := |c.undoStack| - 1;
            && Reinsertable(exts, c.removedValues, g.removedEnds[l], c.undoStack[l].oldNextId, n2, g.home, g.saved[l].rows)
            && Holds(n2, exts, ix, LiveSet(n2), 0)
  {
    NewestSession(exts, c, g, o);
    hide Inv, Session, Replayed, Transient;
    UndoAfterReplay(exts, c, g, n1, n2, ix);
  }

  lemma UndoFinished<V(!new)>(exts: Extractors<V>, c: Core<V>, g: Shadow<V>, o: Indices,
                              n1: map<Ptr, Node<V>>, n2: map<Ptr, Node<V>>, n3: map<Ptr, Node<V>>, ix: Indices)
    requires ValidAt(exts, c, g, o) && NewestEnds(c, g)
    requires NewErased(c.nodes, n1, c.undoStack[|c.undoStack| - 1].oldNextId)
    requires Replayed(c.oldValues, g.oldEnds[|c.undoStack| - 1], c.undoStack[|c.undoStack| - 1].ctime, n1, n2)
    requires Reinserted(c.removedValues, g.removedEnds[|c.undoStack| - 1], c.undoStack[|c.undoStack| - 1].oldNextId, n2, n3)
    requires Holds(n3, exts, ix, LiveSet(n3), 0)
    ensures var l := |c.undoStack| - 1;
            ValidAt(exts, UndoneCore(c, g.oldEnds[l], g.removedEnds[l], n3), UndoneShadow(g, c.undoStack[l].oldNextId), ix)
  {
    UndoAfterAll(exts, c, g, n1, n2, n3, ix);
  }
}
