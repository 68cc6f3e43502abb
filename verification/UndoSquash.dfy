/** The loops of compress_impl, and what squash and commit do to a whole table. */
module UndoSquash {
  import opened OrderedIndex
  import opened UndoModel
  import opened TableIndices
  import opened UndoInvariant
  import opened UndoCompress
  import opened UndoMeaning

  // ----- compress_impl: the oldest n sessions are kept -----

  /** The part of the lists newer than the newest session starts at the two ends. */
  ghost predicate Compressible<V(!new)>(exts: Extractors<V>, c: Core<V>, g: Shadow<V>, ix: Indices, n: nat, oldEnd: nat, removedEnd: nat) {
    && Holds(c.nodes, exts, ix, LiveSet(c.nodes), 0)
    && Inv(c, g, n) && n > 0
    && g.oldEnds[n - 1] <= oldEnd <= |c.oldValues|
    && g.removedEnds[n - 1] <= removedEnd <= |c.removedValues|
  }

  /** No backup from `i` on is newer than the newest kept session, and each is of a live node. */
  ghost predicate CleanFrom<V>(c: Core<V>, n: nat, i: nat)
    requires 0 < n <= |c.undoStack|
  {
    forall b :: i <= b < |c.oldValues| ==>
      c.oldValues[b].mtime < c.undoStack[n - 1].ctime && c.oldValues[b].current in LiveSet(c.nodes)
  }

  /** No removed node from `i` on was made after the newest kept session started. */
  ghost predicate RemovedCleanFrom<V>(c: Core<V>, n: nat, i: nat)
    requires 0 < n <= |c.undoStack|
  {
    forall k :: i <= k < |c.removedValues| ==>
      c.removedValues[k] in c.nodes && c.nodes[c.removedValues[k]].id < c.undoStack[n - 1].oldNextId
  }

  /** What session `k` needs of the lists from the two ends on is all there is: one backup
      of a node, made before anything changed it in the session, and removed nodes that are older. */
  ghost predicate NothingRedundant<V>(c: Core<V>, k: nat, oldEnd: nat, removedEnd: nat)
    requires k < |c.undoStack|
  {
    && CleanFrom(c, k + 1, oldEnd) && RemovedCleanFrom(c, k + 1, removedEnd)
    && forall a, b :: oldEnd <= a < b < |c.oldValues| ==> c.oldValues[a].current != c.oldValues[b].current
  }

  function DroppedOld<V>(c: Core<V>, a: nat): Core<V>
    requires a < |c.oldValues|
  {
    c.(oldValues := RemoveAt(c.oldValues, a))
  }

  function FoldedOld<V>(c: Core<V>, a: nat): Core<V>
    requires a < |c.oldValues| && c.oldValues[a].current in c.nodes
  {
    var o := c.oldValues[a];
    c.(nodes := c.nodes[o.current := c.nodes[o.current].(value := o.value, mtime := o.mtime)], oldValues := RemoveAt(c.oldValues, a))
  }

  /** A backup that is not newer than the session points at an allocated node. */
  lemma BackupIsAllocated<V(!new)>(exts: Extractors<V>, c: Core<V>, g: Shadow<V>, ix: Indices, n: nat, oldEnd: nat, removedEnd: nat, a: nat)
    requires Compressible(exts, c, g, ix, n, oldEnd, removedEnd) && oldEnd <= a < |c.oldValues|
    requires n <= |c.undoStack| && c.oldValues[a].mtime < c.undoStack[n - 1].ctime
    ensures c.oldValues[a].current in c.nodes
  {
    assert SessionAt(c, g, n - 1);
    assert GoodBackup(c, g.removedEnds[n - 1], g.saved[n - 1], a);
  }

  lemma DropStep<V(!new)>(exts: Extractors<V>, c: Core<V>, g: Shadow<V>, ix: Indices, n: nat, oldEnd: nat, removedEnd: nat, a: nat)
    requires Compressible(exts, c, g, ix, n, oldEnd, removedEnd) && oldEnd <= a < |c.oldValues|
    requires n <= |c.undoStack| && c.oldValues[a].mtime >= c.undoStack[n - 1].ctime && CleanFrom(c, n, a + 1)
    ensures Compressible(exts, DroppedOld(c, a), g, ix, n, oldEnd, removedEnd) && CleanFrom(DroppedOld(c, a), n, a)
  {
    AfterDropBackup(c, g, n, a);
    hide Inv, LiveSet;
  }

  lemma FoldStep<V(!new)>(exts: Extractors<V>, c: Core<V>, g: Shadow<V>, ix: Indices, n: nat, oldEnd: nat, removedEnd: nat, a: nat)
    requires Compressible(exts, c, g, ix, n, oldEnd, removedEnd) && oldEnd <= a < |c.oldValues|
    requires n <= |c.undoStack| && c.oldValues[a].mtime < c.undoStack[n - 1].ctime && CleanFrom(c, n, a + 1)
    requires c.oldValues[a].current in c.nodes && c.nodes[c.oldValues[a].current].erased
    ensures Compressible(exts, FoldedOld(c, a), g, ix, n, oldEnd, removedEnd) && CleanFrom(FoldedOld(c, a), n, a)
  {
    AfterFoldBackup(c, g, n, a);
    hide Inv;
    assert LiveSet(FoldedOld(c, a).nodes) == LiveSet(c.nodes);
    HoldsFrame(c.nodes, FoldedOld(c, a).nodes, exts, ix, LiveSet(c.nodes), 0);
    hide LiveSet, Holds;
  }

  function DroppedRemoved<V>(c: Core<V>, k: nat): Core<V>
    requires k < |c.removedValues|
  {
    c.(nodes := c.nodes - {c.removedValues[k]}, removedValues := RemoveAt(c.removedValues, k))
  }

  lemma RemovedAreAllocated<V(!new)>(exts: Extractors<V>, c: Core<V>, g: Shadow<V>, ix: Indices, n: nat, oldEnd: nat, removedEnd: nat)
    requires Compressible(exts, c, g, ix, n, oldEnd, removedEnd)
    ensures n <= |c.undoStack| && NoDuplicates(c.removedValues)
    ensures forall k :: 0 <= k < |c.removedValues| ==> c.removedValues[k] in c.nodes && c.nodes[c.removedValues[k]].erased
    ensures forall a, b :: 0 <= a < b < |c.oldValues| ==> c.oldValues[a].addr != c.oldValues[b].addr
  {
    assert forall k :: 0 <= k < |c.removedValues| ==> c.removedValues[k] in c.removedValues;
  }

  lemma DisposeStep<V(!new)>(exts: Extractors<V>, c: Core<V>, g: Shadow<V>, ix: Indices, n: nat, oldEnd: nat, removedEnd: nat, k: nat)
    requires Compressible(exts, c, g, ix, n, oldEnd, removedEnd) && removedEnd <= k < |c.removedValues|
    requires n <= |c.undoStack| && c.removedValues[k] in c.nodes && c.nodes[c.removedValues[k]].id >= c.undoStack[n - 1].oldNextId
    requires CleanFrom(c, n, oldEnd) && RemovedCleanFrom(c, n, k + 1)
    ensures Compressible(exts, DroppedRemoved(c, k), g.(home := g.home - {c.nodes[c.removedValues[k]].id}), ix, n, oldEnd, removedEnd)
    ensures CleanFrom(DroppedRemoved(c, k), n, oldEnd) && RemovedCleanFrom(DroppedRemoved(c, k), n, k)
  {
    RemovedAreAllocated(exts, c, g, ix, n, oldEnd, removedEnd);
    AfterDropRemoved(c, g, n, k);
    hide Inv;
    var c' := DroppedRemoved(c, k);
    assert LiveSet(c'.nodes) == LiveSet(c.nodes);
    HoldsFrame(c.nodes, c'.nodes, exts, ix, LiveSet(c.nodes), 0);
    RemovedStaysClean(c, n, k);
    hide LiveSet, Holds, RemovedCleanFrom;
  }

  lemma RemovedStaysClean<V>(c: Core<V>, n: nat, k: nat)
    requires 0 < n <= |c.undoStack| && k < |c.removedValues| && NoDuplicates(c.removedValues) && RemovedCleanFrom(c, n, k + 1)
    ensures RemovedCleanFrom(DroppedRemoved(c, k), n, k)
  {
  }

  lemma OneMoreRemovedIsClean<V>(c: Core<V>, n: nat, i: nat)
    requires 0 < n <= |c.undoStack| && i < |c.removedValues| && RemovedCleanFrom(c, n, i + 1)
    requires c.removedValues[i] in c.nodes && c.nodes[c.removedValues[i]].id < c.undoStack[n - 1].oldNextId
    ensures RemovedCleanFrom(c, n, i)
  {
  }

  /** A compressed session has at most one backup of a node. */
  lemma OneBackupEach<V(!new)>(exts: Extractors<V>, c: Core<V>, g: Shadow<V>, ix: Indices, k: nat, oldEnd: nat, removedEnd: nat)
    requires Compressible(exts, c, g, ix, k + 1, oldEnd, removedEnd) && k < |c.undoStack|
    requires CleanFrom(c, k + 1, oldEnd) && RemovedCleanFrom(c, k + 1, removedEnd)
    ensures NothingRedundant(c, k, oldEnd, removedEnd)
  {
    assert SessionAt(c, g, k);
    hide LiveSet, Holds, Base, Scope, Covered, Good;
  }

  /** A valid table can be compressed down to any of its sessions. */
  lemma CompressReady<V(!new)>(exts: Extractors<V>, c: Core<V>, g: Shadow<V>, ix: Indices, n: nat)
    requires ValidAt(exts, c, g, ix) && 0 < n <= |c.undoStack|
    ensures var l := |c.undoStack| - 1;
            && |g.saved| == |g.oldEnds| == |g.removedEnds| == l + 1 && EndsAt(c, g, l)
            && Compressible(exts, c, Prefix(g, n), ix, n, g.oldEnds[l], g.removedEnds[l])
  {
    var l := |c.undoStack| - 1;
    FewerSessions(c, g, l + 1, n, c.undoStack);
    assert c.(undoStack := c.undoStack) == c;
    assert EndsAt(c, g, l);
    assert g.oldEnds[n - 1] <= g.oldEnds[l] && g.removedEnds[n - 1] <= g.removedEnds[l];
  }

  /** The sessions a compression keeps, when the others are dropped. */
  lemma CompressDone<V(!new)>(exts: Extractors<V>, c: Core<V>, g: Shadow<V>, ix: Indices, n: nat, oldEnd: nat, removedEnd: nat)
    requires Compressible(exts, c, g, ix, n, oldEnd, removedEnd) && IdFirst(exts) && SavedDistinct(exts, g.saved)
    requires n <= |c.undoStack|
    ensures ValidAt(exts, c.(undoStack := c.undoStack[..n]), g, ix)
  {
    assert |g.saved| == n && |g.oldEnds| == n && |g.removedEnds| == n;
    FewerSessions(c, g, n, n, c.undoStack[..n]);
    hide Inv;
    assert Prefix(g, n) == g;
  }

  // ----- squash_fast -----

  lemma PopKeepsValid<V(!new)>(exts: Extractors<V>, c: Core<V>, g: Shadow<V>, ix: Indices)
    requires ValidAt(exts, c, g, ix) && |c.undoStack| > 0
    ensures |g.saved| == |g.oldEnds| == |g.removedEnds| == |c.undoStack|
    ensures ValidAt(exts, c.(undoStack := c.undoStack[..|c.undoStack| - 1]), Prefix(g, |c.undoStack| - 1), ix)
  {
    FewerSessions(c, g, |c.undoStack|, |c.undoStack| - 1, c.undoStack[..|c.undoStack| - 1]);
    hide Inv;
  }

  // ----- forgetting everything -----

  function ForgottenCore<V>(c: Core<V>): Core<V> {
    Core(Live(c.nodes), [], [], [], c.nextId, c.monotonic)
  }

  function ForgottenShadow<V>(c: Core<V>, g: Shadow<V>): Shadow<V> {
    Shadow(LiveHome(g.home, Live(c.nodes)), [], [], g.rows, [])
  }

  lemma ForgetKeepsValid<V(!new)>(exts: Extractors<V>, c: Core<V>, g: Shadow<V>, ix: Indices)
    requires ValidAt(exts, c, g, ix)
    ensures ValidAt(exts, ForgottenCore(c), ForgottenShadow(c, g), ix)
    ensures forall p :: p in Live(c.nodes) <==> p in c.nodes && p !in c.removedValues
  {
    AfterForgetAll(c, g, |c.undoStack|);
    RemovedAreErased(c, g);
    hide Inv;
    assert LiveSet(Live(c.nodes)) == LiveSet(c.nodes);
    HoldsFrame(c.nodes, Live(c.nodes), exts, ix, LiveSet(c.nodes), 0);
  }

  lemma RemovedAreErased<V>(c: Core<V>, g: Shadow<V>)
    requires Arena(c, g)
    ensures forall p :: p in Live(c.nodes) <==> p in c.nodes && p !in c.removedValues
  {
  }

  // ----- partial commit -----

  function Keep(end: nat): nat {
    if end == 0 then 0 else end - 1
  }

  /** Only the sessions from `k` on are left. */
  function LaterCore<V>(c: Core<V>, k: nat): Core<V>
    requires k <= |c.undoStack|
  {
    c.(undoStack := c.undoStack[k..])
  }

  function LaterShadow<V>(g: Shadow<V>, k: nat): Shadow<V>
    requires k <= |g.saved| && |g.saved| == |g.oldEnds| == |g.removedEnds|
  {
    g.(oldEnds := g.oldEnds[k..], removedEnds := g.removedEnds[k..], saved := g.saved[k..])
  }

  lemma LaterKeepsValid<V(!new)>(exts: Extractors<V>, c: Core<V>, g: Shadow<V>, ix: Indices, k: nat)
    requires ValidAt(exts, c, g, ix) && k < |c.undoStack|
    ensures |g.saved| == |g.oldEnds| == |g.removedEnds| == |c.undoStack| && EndsAt(c, g, k)
    ensures ValidAt(exts, LaterCore(c, k), LaterShadow(g, k), ix)
    ensures forall i :: 0 <= i < |g.saved| - k ==> g.oldEnds[k..][i] >= g.oldEnds[k] && g.removedEnds[k..][i] >= g.removedEnds[k]
  {
    assert EndsAt(c, g, k);
    AfterDropSessions(c, g, |c.undoStack|, k);
    assert forall i :: k <= i < |g.saved| ==> g.oldEnds[i] >= g.oldEnds[k] && g.removedEnds[i] >= g.removedEnds[k];
    hide Inv;
  }

  lemma CutOldKeepsValid<V(!new)>(exts: Extractors<V>, c: Core<V>, g: Shadow<V>, ix: Indices, end: nat)
    requires ValidAt(exts, c, g, ix) && end <= |c.oldValues| && forall i :: 0 <= i < |g.oldEnds| ==> g.oldEnds[i] >= end
    ensures ValidAt(exts, c.(oldValues := c.oldValues[Keep(end)..]), g.(oldEnds := Shifted(g.oldEnds, Keep(end))), ix)
  {
    AfterCutBackups(c, g, |c.undoStack|, Keep(end));
    hide Inv;
  }

  lemma RemovedErased<V>(c: Core<V>, g: Shadow<V>)
    requires Arena(c, g)
    ensures forall p :: p in c.removedValues ==> p in c.nodes && c.nodes[p].erased
  {
  }

  lemma CutRemovedKeepsValid<V(!new)>(exts: Extractors<V>, c: Core<V>, g: Shadow<V>, ix: Indices, end: nat, nodes: map<Ptr, Node<V>>)
    requires ValidAt(exts, c, g, ix) && end <= |c.removedValues| && forall i :: 0 <= i < |g.removedEnds| ==> g.removedEnds[i] >= end
    requires DisposedFirst(c, Keep(end), nodes)
    ensures ValidAt(exts, c.(nodes := nodes, removedValues := c.removedValues[Keep(end)..]),
                    g.(home := LiveHome(g.home, nodes), removedEnds := Shifted(g.removedEnds, Keep(end))), ix)
  {
    AfterCutRemoved(c, g, |c.undoStack|, Keep(end), nodes);
    RemovedErased(c, g);
    hide Inv, Exact;
    assert LiveSet(nodes) == LiveSet(c.nodes);
    HoldsFrame(c.nodes, nodes, exts, ix, LiveSet(c.nodes), 0);
  }

  // ----- facts the loops need -----

  lemma NothingIsClean<V>(c: Core<V>, n: nat)
    requires 0 < n <= |c.undoStack|
    ensures CleanFrom(c, n, |c.oldValues|) && RemovedCleanFrom(c, n, |c.removedValues|)
  {
  }

  lemma OneMoreIsClean<V>(c: Core<V>, n: nat, i: nat)
    requires 0 < n <= |c.undoStack| && i < |c.oldValues|
    requires CleanFrom(c, n, i + 1) && c.oldValues[i].mtime < c.undoStack[n - 1].ctime && c.oldValues[i].current in LiveSet(c.nodes)
    ensures CleanFrom(c, n, i)
  {
  }

  /** The walk down the removed nodes, too. */
  lemma OnlyRemovedEnd<V(!new)>(exts: Extractors<V>, c: Core<V>, g: Shadow<V>, ix: Indices, n: nat, oldEnd: nat, removedEnd: nat, i: nat)
    requires Compressible(exts, c, g, ix, n, oldEnd, removedEnd) && removedEnd <= i <= |c.removedValues|
    requires removedEnd > 0 && i > 0 ==> c.removedValues[i - 1] == c.removedValues[removedEnd - 1]
    requires removedEnd == 0 ==> i == 0
    ensures i == removedEnd
  {
  }

  /** The walk down the backups stops just above the one at the end. */
  lemma OnlyEnd<V(!new)>(exts: Extractors<V>, c: Core<V>, g: Shadow<V>, ix: Indices, n: nat, oldEnd: nat, removedEnd: nat, i: nat)
    requires Compressible(exts, c, g, ix, n, oldEnd, removedEnd) && oldEnd <= i <= |c.oldValues|
    requires oldEnd > 0 && i > 0 ==> c.oldValues[i - 1].addr == c.oldValues[oldEnd - 1].addr
    requires oldEnd == 0 ==> i == 0
    ensures i == oldEnd
  {
  }

  lemma KeepFacts<V(!new)>(exts: Extractors<V>, c: Core<V>, g: Shadow<V>, ix: Indices)
    requires ValidAt(exts, c, g, ix)
    ensures IdFirst(exts) && SavedDistinct(exts, g.saved)
  {
  }

  lemma FewerDistinct<V>(exts: Extractors<V>, saved: seq<Snapshot<V>>, n: nat)
    requires SavedDistinct(exts, saved) && n <= |saved|
    ensures SavedDistinct(exts, saved[..n])
  {
  }

  lemma AddressesDistinct<V(!new)>(exts: Extractors<V>, c: Core<V>, g: Shadow<V>, ix: Indices)
    requires ValidAt(exts, c, g, ix)
    ensures NoDuplicates(c.removedValues)
    ensures forall a, b :: 0 <= a < b < |c.oldValues| ==> c.oldValues[a].addr != c.oldValues[b].addr
  {
  }
}
