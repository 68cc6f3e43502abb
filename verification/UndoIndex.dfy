/** The undo table itself: a multi-index container whose edits can be undone. */
module UndoTable {
  import opened Basics
  import opened OrderedIndex
  import opened Options
  import opened UndoModel
  import opened TableIndices
  import opened UndoInvariant
  import opened UndoRestore
  import opened UndoCompress
  import opened UndoMeaning
  import opened UndoPhases
  import opened UndoRefusal
  import opened UndoSquash

  /** A first-fit allocator: addresses of disposed nodes are used again. */
  method Allocate(used: set<Ptr>) returns (p: Ptr)
    ensures p !in used
  {
    p := 0;
    ghost var left := used;
    while p in used
      invariant left <= used && forall q :: q in used && q >= p ==> q in left
      decreases left
    {
      left := left - {p};
      p := p + 1;
    }
  }

  class UndoIndex<V(!new)> {
    const exts: Extractors<V>
    var nodes: map<Ptr, Node<V>>
    var indices: Indices
    var undoStack: seq<UndoState>
    var oldValues: seq<OldNode<V>>
    var removedValues: seq<Ptr>
    var nextId: nat
    var revision: int
    var monotonic: nat
    ghost var shadow: Shadow<V>

    ghost function Rep(): Core<V>
      reads this
    {
      Core(nodes, oldValues, removedValues, undoStack, nextId, monotonic)
    }

    /** What the table means. */
    ghost function Abs(): Model<V>
      reads this
    {
      Model(Snapshot(shadow.rows, nextId), revision, shadow.saved)
    }

    ghost predicate Valid()
      reads this
    {
      ValidAt(exts, Rep(), shadow, indices)
    }

    /** The rows and the indices are right, whatever the sessions. */
    ghost predicate Sound()
      reads this
    {
      SoundAt(exts, Rep(), shadow, indices)
    }

    constructor (exts: Extractors<V>)
      requires IdFirst(exts)
      ensures Valid() && this.exts == exts
      ensures Abs() == Model(Snapshot(map[], 0), 0, [])
    {
      this.exts := exts;
      nodes := map[];
      indices := seq(|exts|, i => []);
      undoStack, oldValues, removedValues := [], [], [];
      nextId, revision, monotonic := 0, 0, 0;
      shadow := Shadow(map[], [], [], map[], []);
    }

    /** Adds a row; it gets the next id.  Refused when one of its keys is taken. */
    method Emplace(v: V) returns (ok: bool, p: Ptr)
      requires Valid()
      modifies this
      ensures Valid()
      ensures ok <==> KeysFree(exts, old(Abs()).current.rows, old(nextId), v)
      ensures Abs() == if ok then Created(old(Abs()), v) else old(Abs())
      ensures ok ==> p in nodes && !nodes[p].erased && nodes[p].id == old(nextId)
    {
      hide ValidAt, Holds, InsertFrom, KeysFree;
      IndexCount(exts, Rep(), shadow, indices);
      p := Allocate(nodes.Keys);
      EmplaceInserts(exts, Rep(), shadow, indices, p, v);
      ghost var c, g, ix0 := Rep(), shadow, indices;
      nodes := nodes[p := Node(nextId, v, 0, false)];
      var (ix, inserted) := InsertFrom(nodes, exts, indices, p, 1);
      ok := inserted;
      if !ok {
        nodes := nodes - {p};
        assert nodes == c.nodes;
        return;
      }
      indices := ix[0 := ix[0] + [p]];
      if undoStack != [] {
        nodes := nodes[p := nodes[p].(mtime := monotonic)];
      }
      nextId := nextId + 1;
      shadow := CreatedShadow(c, g, p, v);
      EmplaceKeepsValid(exts, c, g, ix0, p, v, ix);
      assert nodes == CreatedCore(c, p, v).nodes;
    }

    /** The newest session has no backup of the row yet. */
    predicate Unsaved(p: Ptr)
      requires p in nodes
      reads this
    {
      undoStack != [] && nodes[p].mtime < undoStack[|undoStack| - 1].ctime
    }

    /** Replaces the rest of a row.  Refused when one of its new keys is taken.  Then a row that
        was backed up for this call gets its value back, though not its time, and any
        other row is removed. */
    method Modify(p: Ptr, v: V) returns (ok: bool)
      requires Sound() && p in LiveSet(nodes) && (Unsaved(p) ==> Valid())
      modifies this
      ensures p in old(nodes) && (ok <==> KeysFree(exts, old(Abs()).current.rows, old(nodes[p].id), v))
      ensures ok ==> Sound() && (old(Valid()) ==> Valid()) && Abs() == Modified(old(Abs()), old(nodes[p].id), v)
      ensures ok && !old(Unsaved(p)) ==> Rep() == ModifiedCore(old(Rep()), p, v) && shadow.oldEnds == old(shadow).oldEnds
      ensures !ok && !old(Unsaved(p)) ==> (old(Valid()) ==> Valid()) && Abs() == Removed(old(Abs()), old(nodes[p].id))
      ensures !ok && old(Unsaved(p)) ==> Abs() == old(Abs()) && shadow == old(shadow) && Rep() == RevertedCore(old(Rep()), p)
      ensures !ok && old(Unsaved(p)) ==> Sound() && !Valid()
    {
      hide ValidAt, ValidBut, SoundAt, SoundBut, Holds, KeysFree, RepositionUniqueFrom;
      ghost var valid, c0, g0, ix0 := Valid(), Rep(), shadow, indices;
      var backup := OnModify(p);
      ghost var c, ix1 := Rep(), indices;
      SoundIsBut(exts, c, shadow, indices, p);
      ModifySound(exts, c, shadow, indices, p, v);
      if valid {
        ValidIsBut(exts, c, shadow, indices, p);
        ModifyWorks(exts, c, shadow, indices, p, v);
      }
      nodes := nodes[p := nodes[p].(value := v)];
      var (ix, fits) := RepositionUniqueFrom(nodes, exts, indices, p, 1);
      indices, ok := ix, fits;
      shadow := ModifiedShadow(c, g0, p, v);
      assert Rep() == ModifiedCore(c, p, v);
      if !ok {
        if backup {
          PutBack(p, v, c, g0, ix1);
          RevertedIsNotValid(exts, c0, g0, ix0, p, shadow, indices);
          assert Rep() == RevertedCore(c0, p);
          RevertedIsSound(exts, c0, g0, ix0, p, indices);
        } else {
          Unlink(p);
          assert Removed(Modified(old(Abs()), c0.nodes[p].id, v), c0.nodes[p].id) == Removed(old(Abs()), c0.nodes[p].id);
        }
      }
    }

    /** Backs a row up the first time it is changed in the newest session. */
    method OnModify(p: Ptr) returns (backup: bool)
      requires Sound() && p in LiveSet(nodes) && (Unsaved(p) ==> Valid())
      modifies this`nodes, this`oldValues
      ensures Sound() && (old(Valid()) ==> Valid())
      ensures p in old(nodes) && p in LiveSet(nodes) && !Unsaved(p) && backup == old(Unsaved(p))
      ensures if backup then oldValues != [] && Rep() == BackedUpCore(old(Rep()), p, oldValues[|oldValues| - 1].addr)
              else Rep() == old(Rep())
    {
      hide ValidAt, SoundAt;
      backup := Unsaved(p);
      if backup {
        var addr := Allocate(set a | 0 <= a < |oldValues| :: oldValues[a].addr);
        BackupKeepsValid(exts, Rep(), shadow, indices, p, addr);
        ghost var c := Rep();
        oldValues := oldValues + [OldNode(addr, nodes[p].id, nodes[p].value, nodes[p].mtime, p)];
        nodes := nodes[p := nodes[p].(mtime := monotonic)];
        assert Rep() == BackedUpCore(c, p, addr);
        ValidIsSound(exts, Rep(), shadow, indices);
      }
    }

    /** After a refusal: the newest backup goes back into the row. */
    method PutBack(p: Ptr, ghost v: V, ghost c: Core<V>, ghost g: Shadow<V>, ghost ix: Indices)
      requires ValidAt(exts, c, g, ix) && p in LiveSet(c.nodes) && Rep() == ModifiedCore(c, p, v) && shadow == ModifiedShadow(c, g, p, v)
      requires |c.undoStack| > 0 ==> c.nodes[p].mtime >= c.undoStack[|c.undoStack| - 1].ctime
      requires ValidBut(exts, Rep(), shadow, indices, p)
      requires oldValues != [] && oldValues[|oldValues| - 1].value == c.nodes[p].value
      modifies this`nodes, this`indices, this`oldValues, this`shadow
      ensures Rep() == c.(oldValues := c.oldValues[..|c.oldValues| - 1]) && shadow == g
      ensures Holds(nodes, exts, indices, LiveSet(nodes), 0)
    {
      hide ValidAt, ValidBut, Inv, Holds, RepositionUniqueFrom;
      RevertWorks(exts, c, g, ix, p, v, indices);
      nodes := nodes[p := nodes[p].(value := oldValues[|oldValues| - 1].value)];
      assert nodes == c.nodes;
      indices := RepositionUniqueFrom(nodes, exts, indices, p, 1).0;
      oldValues := oldValues[..|oldValues| - 1];
      shadow := g;
    }

    /** Removes a row. */
    method Remove(p: Ptr)
      requires Valid() && p in LiveSet(nodes)
      modifies this
      ensures p in old(nodes) && Valid() && Abs() == Removed(old(Abs()), old(nodes[p].id))
      ensures |indices| == |old(indices)| && forall m :: 0 <= m < |indices| ==> p in old(indices)[m] && indices[m] == Erase(old(indices)[m], p)
    {
      ValidIsBut(exts, Rep(), shadow, indices, p);
      hide ValidAt, SoundBut;
      Unlink(p);
    }

    /** Removes a row that may be out of place in the indices. */
    method Unlink(p: Ptr)
      requires SoundBut(exts, Rep(), shadow, indices, p) && p in LiveSet(nodes)
      modifies this
      ensures old(ValidBut(exts, Rep(), shadow, indices, p)) ==> Valid()
      ensures p in old(nodes) && Abs() == Removed(old(Abs()), old(nodes[p].id))
      ensures |indices| == |old(indices)| && forall m :: 0 <= m < |indices| ==> p in old(indices)[m] && indices[m] == Erase(old(indices)[m], p)
    {
      hide ValidAt, ValidBut, SoundBut, Holds, EraseFrom;
      RemoveErases(exts, Rep(), shadow, indices, p);
      ghost var c, g, ix0, valid := Rep(), shadow, indices, ValidBut(exts, Rep(), shadow, indices, p);
      var id := nodes[p].id;
      indices := EraseFrom(indices, p, 0);
      shadow := shadow.(rows := shadow.rows - {id});
      if undoStack == [] || id >= undoStack[|undoStack| - 1].oldNextId {
        nodes := nodes - {p};
        shadow := shadow.(home := shadow.home - {id});
        if valid { DisposeKeepsValid(exts, c, g, ix0, p, indices); }
        assert Rep() == DisposedCore(c, p);
      } else {
        nodes := nodes[p := nodes[p].(erased := true)];
        removedValues := removedValues + [p];
        if valid { ShelveKeepsValid(exts, c, g, ix0, p, indices); }
        assert Rep() == ShelvedCore(c, p);
      }
    }

    /** Starts an undo session. */
    method AddSession() returns (r: int)
      requires Valid()
      modifies this
      ensures Valid() && Abs() == SessionAdded(old(Abs())) && r == revision
      ensures nodes == old(nodes) && forall p :: p in nodes ==> Unsaved(p)
    {
      hide ValidAt;
      NoneSaved(exts, Rep(), shadow, indices);
      StartKeepsValid(exts, Rep(), shadow, indices);
      ghost var c, g := Rep(), shadow;
      monotonic := monotonic + 1;
      undoStack := undoStack + [UndoState(if oldValues == [] then None else Some(oldValues[|oldValues| - 1].addr),
                                          if removedValues == [] then None else Some(removedValues[|removedValues| - 1]),
                                          nextId, monotonic)];
      revision := revision + 1;
      shadow := StartedShadow(c, g);
      r := revision;
      assert Rep() == StartedCore(c);
    }

    // ----- undo -----

    /** Erases the live rows with an id from `oldNextId` on. */
    method EraseNewRows(oldNextId: nat)
      requires IdFirst(exts) && Holds(nodes, exts, indices, LiveSet(nodes), 0)
      modifies this`nodes, this`indices
      ensures NewErased(old(nodes), nodes, oldNextId)
      ensures Holds(nodes, exts, indices, LiveSet(nodes), 0)
    {
      ghost var before := nodes;
      EraseStarts(exts, nodes, indices, oldNextId);
      var from := LowerBound(nodes, exts[0], indices[0], oldNextId);
      while from < |indices[0]|
        invariant |indices| == |exts| && Erasing(exts, before, nodes, indices, from, oldNextId)
        decreases |indices[0]|
      {
        var p := indices[0][from];
        EraseStep(exts, before, nodes, indices, from, oldNextId);
        indices := EraseFrom(indices, p, 0);
        nodes := nodes - {p};
      }
      EraseEnds(exts, before, nodes, indices, from, oldNextId);
    }

    /** Pops the backups above the one at `end` and puts back those older than `ctime`. */
    method RestoreOldValues(end: Option<Ptr>, ctime: nat, ghost oldEnd: nat)
      requires Transient(exts, nodes, indices) && Replayable(oldValues, oldEnd, ctime, nodes)
      requires forall a, b :: 0 <= a < b < |oldValues| ==> oldValues[a].addr != oldValues[b].addr
      requires if end.None? then oldEnd == 0 else oldEnd > 0 && oldValues[oldEnd - 1].addr == end.value
      modifies this`nodes, this`indices, this`oldValues
      ensures oldValues == old(oldValues)[..oldEnd]
      ensures Replayed(old(oldValues), oldEnd, ctime, old(nodes), nodes)
      ensures Transient(exts, nodes, indices)
    {
      hide Transient, Replayed, RepositionEqualFrom;
      ghost var ov, before := oldValues, nodes;
      ReplayStarts(ov, ctime, nodes);
      while oldValues != [] && Some(oldValues[|oldValues| - 1].addr) != end
        invariant oldEnd <= |oldValues| <= |ov| && oldValues == ov[..|oldValues|]
        invariant Replayed(ov, |oldValues|, ctime, before, nodes)
        invariant Transient(exts, nodes, indices)
        decreases |oldValues|
      {
        var o := oldValues[|oldValues| - 1];
        assert oldEnd < |oldValues|;
        ReplayStep(ov, oldEnd, |oldValues|, ctime, before, nodes);
        if o.mtime < ctime {
          TransientStep(exts, nodes, indices, o);
          var erased := nodes[o.current].erased;
          nodes := nodes[o.current := nodes[o.current].(value := o.value, mtime := o.mtime)];
          if !erased {
            indices := RepositionEqualFrom(nodes, exts, indices, o.current, 1);
          }
        }
        oldValues := oldValues[..|oldValues| - 1];
      }
    }

    /** Pops the removed nodes above the one at `end` and puts back those that are not newer. */
    method ReinsertRemoved(end: Option<Ptr>, oldNextId: nat, ghost removedEnd: nat, ghost home: map<nat, Ptr>, ghost rows: map<nat, V>)
      requires Reinsertable(exts, removedValues, removedEnd, oldNextId, nodes, home, rows)
      requires Holds(nodes, exts, indices, LiveSet(nodes), 0)
      requires if end.None? then removedEnd == 0 else removedEnd > 0 && removedValues[removedEnd - 1] == end.value
      modifies this`nodes, this`indices, this`removedValues
      ensures removedValues == old(removedValues)[..removedEnd]
      ensures Reinserted(old(removedValues), removedEnd, oldNextId, old(nodes), nodes)
      ensures Holds(nodes, exts, indices, LiveSet(nodes), 0)
    {
      hide Reinsertable, Reinserted, Holds, InsertFrom;
      ghost var rv, before := removedValues, nodes;
      ReinsertStarts(exts, rv, removedEnd, oldNextId, nodes, home, rows);
      while removedValues != [] && Some(removedValues[|removedValues| - 1]) != end
        invariant removedEnd <= |removedValues| <= |rv| && removedValues == rv[..|removedValues|]
        invariant Reinserted(rv, |removedValues|, oldNextId, before, nodes)
        invariant Holds(nodes, exts, indices, LiveSet(nodes), 0)
        decreases |removedValues|
      {
        var p := removedValues[|removedValues| - 1];
        assert removedEnd < |removedValues|;
        ReinsertStep(exts, rv, removedEnd, |removedValues|, oldNextId, before, nodes, home, rows, indices);
        if nodes[p].id < oldNextId {
          nodes := nodes[p := nodes[p].(erased := false)];
          indices := InsertFrom(nodes, exts, indices, p, 0).0;
        } else {
          nodes := nodes - {p};
        }
        removedValues := removedValues[..|removedValues| - 1];
      }
    }

    /** The first two loops of an undo. */
    method Rewind(ghost oldEnd: nat) returns (ghost n1: map<Ptr, Node<V>>)
      requires undoStack != [] && IdFirst(exts) && Holds(nodes, exts, indices, LiveSet(nodes), 0)
      requires var u := undoStack[|undoStack| - 1];
               && (forall n :: NewErased(nodes, n, u.oldNextId) ==> Replayable(oldValues, oldEnd, u.ctime, n))
               && (if u.oldValuesEnd.None? then oldEnd == 0 else 0 < oldEnd <= |oldValues| && oldValues[oldEnd - 1].addr == u.oldValuesEnd.value)
      requires forall a, b :: 0 <= a < b < |oldValues| ==> oldValues[a].addr != oldValues[b].addr
      modifies this`nodes, this`indices, this`oldValues
      ensures oldEnd <= |old(oldValues)| && oldValues == old(oldValues)[..oldEnd] && Transient(exts, nodes, indices)
      ensures var u := undoStack[|undoStack| - 1];
              NewErased(old(nodes), n1, u.oldNextId) && Replayed(old(oldValues), oldEnd, u.ctime, n1, nodes)
    {
      hide Holds, IdFirst, NewErased, Replayed, Replayable, Transient;
      var u := undoStack[|undoStack| - 1];
      EraseNewRows(u.oldNextId);
      n1 := nodes;
      TransientStarts(exts, nodes, indices);
      RestoreOldValues(u.oldValuesEnd, u.ctime, oldEnd);
    }

    /** Goes back to the start of the newest session. */
    method Undo()
      requires Valid()
      modifies this
      ensures Valid() && Abs() == Undone(old(Abs()))
    {
      hide ValidAt, Inv, Holds, SavedDistinct, IdFirst, NewErased, Replayed, Replayable, Transient, Reinserted, Reinsertable, KeysDistinct, LiveSet;
      ghost var c, g, o, l := Rep(), shadow, indices, |undoStack| - 1;
      SessionCount(exts, c, g, o);
      if undoStack == [] {
        return;
      }
      var u := undoStack[|undoStack| - 1];
      UndoReady(exts, c, g, indices);
      AllReplayable(exts, c, g, indices);
      ghost var n1 := Rewind(g.oldEnds[l]);
      ghost var n2 := nodes;
      UndoReplayed(exts, c, g, o, n1, n2, indices);
      ReinsertRemoved(u.removedValuesEnd, u.oldNextId, g.removedEnds[l], g.home, g.saved[l].rows);
      nextId := u.oldNextId;
      undoStack := undoStack[..|undoStack| - 1];
      revision := revision - 1;
      shadow := UndoneShadow(g, u.oldNextId);
      UndoFinished(exts, c, g, o, n1, n2, nodes, indices);
      assert Rep() == UndoneCore(c, g.oldEnds[l], g.removedEnds[l], nodes);
    }

    // ----- squash -----

    /** Drops the backups of the newest session that would be redundant if every
        session after number `k` were squashed into it. */
    method CompressOldValues(k: nat, ghost oldEnd: nat, ghost removedEnd: nat)
      requires k < |undoStack| && Compressible(exts, Rep(), shadow, indices, k + 1, oldEnd, removedEnd)
      requires oldEnd <= |oldValues|
      requires var u := undoStack[|undoStack| - 1];
               if u.oldValuesEnd.None? then oldEnd == 0 else oldEnd > 0 && oldValues[oldEnd - 1].addr == u.oldValuesEnd.value
      modifies this`nodes, this`oldValues
      ensures Compressible(exts, Rep(), shadow, indices, k + 1, oldEnd, removedEnd)
      ensures CleanFrom(Rep(), k + 1, oldEnd)
    {
      hide Compressible, CleanFrom;
      var session, back := undoStack[k], undoStack[|undoStack| - 1];
      ghost var n := k + 1;
      var i := |oldValues|;
      NothingIsClean(Rep(), n);
      while i > 0 && Some(oldValues[i - 1].addr) != back.oldValuesEnd
        invariant oldEnd <= i <= |oldValues| && (oldEnd > 0 ==> Some(oldValues[oldEnd - 1].addr) == back.oldValuesEnd)
        invariant Compressible(exts, Rep(), shadow, indices, n, oldEnd, removedEnd) && CleanFrom(Rep(), n, i)
        decreases i
      {
        var o := oldValues[i - 1];
        ghost var c := Rep();
        if o.mtime >= session.ctime {
          DropStep(exts, c, shadow, indices, n, oldEnd, removedEnd, i - 1);
          oldValues := RemoveAt(oldValues, i - 1);
          assert Rep() == DroppedOld(c, i - 1);
        } else {
          BackupIsAllocated(exts, c, shadow, indices, n, oldEnd, removedEnd, i - 1);
          if nodes[o.current].erased {
            FoldStep(exts, c, shadow, indices, n, oldEnd, removedEnd, i - 1);
            nodes := nodes[o.current := nodes[o.current].(value := o.value, mtime := o.mtime)];
            oldValues := RemoveAt(oldValues, i - 1);
            assert Rep() == FoldedOld(c, i - 1);
          } else {
            OneMoreIsClean(c, n, i - 1);
          }
        }
        i := i - 1;
      }
      OnlyEnd(exts, Rep(), shadow, indices, n, oldEnd, removedEnd, i);
    }

    /** Disposes the removed nodes of the newest session that are newer than session `k`. */
    method CompressRemovedValues(k: nat, ghost oldEnd: nat, ghost removedEnd: nat)
      requires k < |undoStack| && Compressible(exts, Rep(), shadow, indices, k + 1, oldEnd, removedEnd)
      requires removedEnd <= |removedValues| && CleanFrom(Rep(), k + 1, oldEnd)
      requires var u := undoStack[|undoStack| - 1];
               if u.removedValuesEnd.None? then removedEnd == 0
               else removedEnd > 0 && removedValues[removedEnd - 1] == u.removedValuesEnd.value
      modifies this`nodes, this`removedValues, this`shadow
      ensures Compressible(exts, Rep(), shadow, indices, k + 1, oldEnd, removedEnd)
      ensures NothingRedundant(Rep(), k, oldEnd, removedEnd)
      ensures shadow.rows == old(shadow).rows && shadow.saved == old(shadow).saved
    {
      hide Compressible, CleanFrom, RemovedCleanFrom, NothingRedundant;
      var session, back := undoStack[k], undoStack[|undoStack| - 1];
      ghost var n := k + 1;
      var i := |removedValues|;
      NothingIsClean(Rep(), n);
      while i > 0 && Some(removedValues[i - 1]) != back.removedValuesEnd
        invariant removedEnd <= i <= |removedValues|
        invariant removedEnd > 0 ==> Some(removedValues[removedEnd - 1]) == back.removedValuesEnd
        invariant Compressible(exts, Rep(), shadow, indices, n, oldEnd, removedEnd)
        invariant CleanFrom(Rep(), n, oldEnd) && RemovedCleanFrom(Rep(), n, i)
        invariant shadow.rows == old(shadow).rows && shadow.saved == old(shadow).saved
        decreases i
      {
        var p := removedValues[i - 1];
        ghost var c := Rep();
        RemovedAreAllocated(exts, c, shadow, indices, n, oldEnd, removedEnd);
        if nodes[p].id >= session.oldNextId {
          DisposeStep(exts, c, shadow, indices, n, oldEnd, removedEnd, i - 1);
          shadow := shadow.(home := shadow.home - {nodes[p].id});
          nodes := nodes - {p};
          removedValues := RemoveAt(removedValues, i - 1);
          assert Rep() == DroppedRemoved(c, i - 1);
        } else {
          OneMoreRemovedIsClean(c, n, i - 1);
        }
        i := i - 1;
      }
      OnlyRemovedEnd(exts, Rep(), shadow, indices, n, oldEnd, removedEnd, i);
      OneBackupEach(exts, Rep(), shadow, indices, k, oldEnd, removedEnd);
    }

    /** Drops the entries of the newest session that would be redundant if every
        session after number `k` were squashed into it.  The sessions after `k` are
        not usable afterwards. */
    method CompressImpl(k: nat, ghost oldEnd: nat, ghost removedEnd: nat)
      requires k < |undoStack| && Compressible(exts, Rep(), shadow, indices, k + 1, oldEnd, removedEnd)
      requires oldEnd <= |oldValues| && removedEnd <= |removedValues|
      requires var u := undoStack[|undoStack| - 1];
               && (if u.oldValuesEnd.None? then oldEnd == 0 else oldEnd > 0 && oldValues[oldEnd - 1].addr == u.oldValuesEnd.value)
               && (if u.removedValuesEnd.None? then removedEnd == 0
                   else removedEnd > 0 && removedValues[removedEnd - 1] == u.removedValuesEnd.value)
      modifies this`nodes, this`oldValues, this`removedValues, this`shadow
      ensures Compressible(exts, Rep(), shadow, indices, k + 1, oldEnd, removedEnd)
      ensures NothingRedundant(Rep(), k, oldEnd, removedEnd)
      ensures shadow.rows == old(shadow).rows && shadow.saved == old(shadow).saved
    {
      hide Compressible, CleanFrom, NothingRedundant;
      CompressOldValues(k, oldEnd, removedEnd);
      CompressRemovedValues(k, oldEnd, removedEnd);
    }

    /** What looking at the newest session's changes does first: nothing a caller could see. */
    method CompressLastUndoSession()
      requires Valid() && undoStack != []
      modifies this
      ensures Valid() && Abs() == old(Abs()) && undoStack == old(undoStack)
    {
      hide ValidAt, Compressible, SavedDistinct, IdFirst;
      ghost var g, n := shadow, |undoStack|;
      SessionCount(exts, Rep(), g, indices);
      CompressReady(exts, Rep(), g, indices, n);
      KeepFacts(exts, Rep(), g, indices);
      shadow := Prefix(g, n);
      assert shadow == g;
      CompressImpl(|undoStack| - 1, g.oldEnds[n - 1], g.removedEnds[n - 1]);
      CompressDone(exts, Rep(), shadow, indices, n, g.oldEnds[n - 1], g.removedEnds[n - 1]);
      assert Rep().(undoStack := undoStack[..n]) == Rep();
    }

    /** Frees both lists. */
    method DisposeUndo()
      modifies this`nodes, this`oldValues, this`removedValues
      ensures oldValues == [] && removedValues == []
      ensures forall p :: p in nodes <==> p in old(nodes) && p !in old(removedValues)
      ensures forall p :: p in nodes ==> nodes[p] == old(nodes)[p]
    {
      oldValues := [];
      DisposeNodes(removedValues);
      removedValues := [];
    }

    method DisposeNodes(s: seq<Ptr>)
      modifies this`nodes
      ensures forall p :: p in nodes <==> p in old(nodes) && p !in s
      ensures forall p :: p in nodes ==> nodes[p] == old(nodes)[p]
    {
      var i := |s|;
      while i > 0
        invariant 0 <= i <= |s|
        invariant forall p :: p in nodes <==> p in old(nodes) && p !in s[i..]
        invariant forall p :: p in nodes ==> nodes[p] == old(nodes)[p]
      {
        i := i - 1;
        nodes := nodes - {s[i]};
        assert s[i..] == [s[i]] + s[i + 1..];
      }
      assert s[0..] == s;
    }

    /** Combines the two newest sessions without compressing. */
    method SquashFast()
      requires Valid()
      modifies this
      ensures Valid() && Abs() == Squashed(old(Abs()))
    {
      hide ValidAt;
      ghost var c, g := Rep(), shadow;
      SessionCount(exts, c, g, indices);
      if undoStack == [] {
        return;
      } else if |undoStack| == 1 {
        ForgetKeepsValid(exts, c, g, indices);
        DisposeUndo();
        undoStack := undoStack[..|undoStack| - 1];
        shadow := ForgottenShadow(c, g);
        assert nodes == Live(c.nodes);
        assert Rep() == ForgottenCore(c);
      } else {
        PopKeepsValid(exts, c, g, indices);
        undoStack := undoStack[..|undoStack| - 1];
        shadow := Prefix(g, |undoStack|);
        assert Rep() == c.(undoStack := c.undoStack[..|c.undoStack| - 1]);
      }
      revision := revision - 1;
    }

    /** Combines the two newest sessions. */
    method Squash()
      requires Valid()
      modifies this
      ensures Valid() && Abs() == Squashed(old(Abs()))
    {
      if |undoStack| >= 2 {
        SquashCompressed();
      } else {
        SquashFast();
      }
    }

    method SquashCompressed()
      requires Valid() && |undoStack| >= 2
      modifies this
      ensures Valid() && Abs() == Squashed(old(Abs()))
    {
      hide ValidAt, Compressible, SavedDistinct, IdFirst;
      ghost var g, n := shadow, |undoStack| - 1;
      SessionCount(exts, Rep(), g, indices);
      CompressReady(exts, Rep(), g, indices, n);
      KeepFacts(exts, Rep(), g, indices);
      FewerDistinct(exts, g.saved, n);
      shadow := Prefix(g, n);
      CompressImpl(|undoStack| - 2, g.oldEnds[n], g.removedEnds[n]);
      CompressDone(exts, Rep(), shadow, indices, n, g.oldEnds[n], g.removedEnds[n]);
      ghost var c := Rep();
      undoStack := undoStack[..|undoStack| - 1];
      revision := revision - 1;
      assert Rep() == c.(undoStack := c.undoStack[..n]);
    }

    // ----- commit -----

    /** Forgets the sessions older than `rev`. */
    method Commit(rev: int)
      requires Valid()
      modifies this
      ensures Valid() && Abs() == Committed(old(Abs()), rev)
    {
      hide ValidAt;
      ghost var c, g := Rep(), shadow;
      SessionCount(exts, c, g, indices);
      var to := Min(rev, revision);
      if to == revision {
        ForgetKeepsValid(exts, c, g, indices);
        DisposeUndo();
        undoStack := [];
        shadow := ForgottenShadow(c, g);
        assert nodes == Live(c.nodes);
        assert Rep() == ForgottenCore(c);
      } else if revision - to < |undoStack| {
        CommitPart(|undoStack| - (revision - to));
      }
    }

    /** Keeps the sessions from number `k` on.  One element is left on each list below
        what they need. */
    method CommitPart(k: nat)
      requires Valid() && k < |undoStack|
      modifies this
      ensures |old(shadow).saved| == old(|undoStack|)
      ensures Valid() && Abs() == old(Abs()).(saved := old(Abs()).saved[k..])
    {
      hide ValidAt;
      ghost var c, g := Rep(), shadow;
      LaterKeepsValid(exts, c, g, indices, k);
      ghost var oldEnd, removedEnd := g.oldEnds[k], g.removedEnds[k];
      var first := undoStack[k];
      undoStack := undoStack[k..];
      shadow := LaterShadow(g, k);
      assert Rep() == LaterCore(c, k);
      DisposeOldValues(first.oldValuesEnd, oldEnd);
      DisposeRemovedValues(first.removedValuesEnd, removedEnd);
    }

    method DisposeOldValues(end: Option<Ptr>, ghost oldEnd: nat)
      requires Valid() && oldEnd <= |oldValues| && forall i :: 0 <= i < |shadow.oldEnds| ==> shadow.oldEnds[i] >= oldEnd
      requires if end.None? then oldEnd == 0 else oldEnd > 0 && oldValues[oldEnd - 1].addr == end.value
      modifies this`oldValues, this`shadow
      ensures Valid() && Abs() == old(Abs()) && shadow.removedEnds == old(shadow).removedEnds
    {
      hide ValidAt;
      ghost var c, g := Rep(), shadow;
      CutOldKeepsValid(exts, c, g, indices, oldEnd);
      if end.Some? {
        AddressesDistinct(exts, c, g, indices);
        var at := PositionOfBackup(end.value, oldEnd);
        oldValues := oldValues[at..];
      }
      assert c.oldValues[0..] == c.oldValues;
      shadow := g.(oldEnds := Shifted(g.oldEnds, Keep(oldEnd)));
      assert Rep() == c.(oldValues := c.oldValues[Keep(oldEnd)..]);
    }

    method DisposeRemovedValues(end: Option<Ptr>, ghost removedEnd: nat)
      requires Valid() && removedEnd <= |removedValues| && forall i :: 0 <= i < |shadow.removedEnds| ==> shadow.removedEnds[i] >= removedEnd
      requires if end.None? then removedEnd == 0 else removedEnd > 0 && removedValues[removedEnd - 1] == end.value
      modifies this`nodes, this`removedValues, this`shadow
      ensures Valid() && Abs() == old(Abs())
    {
      hide ValidAt;
      ghost var c, g, cut := Rep(), shadow, Keep(removedEnd);
      if end.Some? {
        AddressesDistinct(exts, c, g, indices);
        var at := PositionOfRemoved(end.value, removedEnd);
        DisposeNodes(removedValues[..at]);
        removedValues := removedValues[at..];
      }
      assert c.removedValues[0..] == c.removedValues;
      CutRemovedKeepsValid(exts, c, g, indices, removedEnd, nodes);
      shadow := g.(home := LiveHome(g.home, nodes), removedEnds := Shifted(g.removedEnds, cut));
      assert Rep() == c.(nodes := nodes, removedValues := c.removedValues[cut..]);
    }

    method PositionOfBackup(addr: Ptr, ghost end: nat) returns (i: nat)
      requires 0 < end <= |oldValues| && oldValues[end - 1].addr == addr
      requires forall a, b :: 0 <= a < b < |oldValues| ==> oldValues[a].addr != oldValues[b].addr
      ensures i == end - 1
    {
      i := 0;
      while oldValues[i].addr != addr
        invariant i <= end - 1
        decreases end - i
      {
        i := i + 1;
      }
    }

    method PositionOfRemoved(p: Ptr, ghost end: nat) returns (i: nat)
      requires 0 < end <= |removedValues| && removedValues[end - 1] == p && NoDuplicates(removedValues)
      ensures i == end - 1
    {
      i := 0;
      while removedValues[i] != p
        invariant i <= end - 1
        decreases end - i
      {
        i := i + 1;
      }
    }

    /** Sets the revision of a table without sessions.  Refused otherwise. */
    method SetRevision(to: nat) returns (ok: bool)
      requires Valid()
      modifies this`revision
      ensures Valid() && (ok <==> MaySetRevision(old(Abs()), to))
      ensures ok <==> |old(Abs()).saved| == 0 && to < 0x8000_0000_0000_0000 && to >= old(Abs()).revision
      ensures Abs() == if ok then old(Abs()).(revision := to) else old(Abs())
    {
      hide ValidAt;
      SessionCount(exts, Rep(), shadow, indices);
      if undoStack != [] || to >= INT64 || to < revision {
        return false;
      }
      revision := to;
      ok := true;
    }

    // ----- lookups -----

    /** The row with an id, found in the primary index. */
    method Find(id: nat) returns (r: Option<Ptr>)
      requires Valid()
      ensures r.Some? <==> id in Abs().current.rows
      ensures r.Some? ==> r.value in LiveSet(nodes) && nodes[r.value].id == id && nodes[r.value].value == Abs().current.rows[id]
    {
      FindById(exts, Rep(), shadow, indices, id);
      hide ValidAt;
      var i := LowerBound(nodes, exts[0], indices[0], id);
      if i < |indices[0]| && nodes[indices[0][i]].id == id {
        r := Some(indices[0][i]);
      } else {
        r := None;
      }
    }

    /** The row with a key, found in index `n`. */
    method FindBy(n: nat, key: int) returns (r: Option<Ptr>)
      requires Valid() && n < |exts|
      ensures r.Some? <==> HasKey(exts, Abs().current.rows, n, key)
      ensures r.Some? ==> r.value in LiveSet(nodes) && nodes[r.value].id in Abs().current.rows &&
                          Abs().current.rows[nodes[r.value].id] == nodes[r.value].value &&
                          exts[n](nodes[r.value].id, nodes[r.value].value) == key
    {
      FindByKey(exts, Rep(), shadow, indices, n, key);
      hide ValidAt;
      var i := LowerBound(nodes, exts[n], indices[n], key);
      if i < |indices[n]| && Key(nodes, exts[n], indices[n][i]) == key {
        r := Some(indices[n][i]);
      } else {
        r := None;
      }
    }
  }

  /** How a run is carried out: whether to squash without compressing, and whether to
      look at the newest session's changes first. */
  datatype Manner = Manner(fast: bool, look: bool)

  /** Carries out a run.  Every call is what it means on full copies of the table, it
      fails exactly when that does, and the manner makes no difference. */
  method RunAll<V(!new)>(t: UndoIndex<V>, ops: seq<Op<V>>, manner: seq<Manner>) returns (ok: bool)
    requires t.Valid() && |manner| == |ops|
    modifies t
    ensures ok <==> Run(t.exts, old(t.Abs()), ops).Some?
    ensures ok ==> t.Valid() && Run(t.exts, old(t.Abs()), ops) == Some(t.Abs())
  {
    ghost var m0 := t.Abs();
    var i := 0;
    assert ops[0..] == ops;
    while i < |ops|
      invariant i <= |ops| && t.Valid()
      invariant Run(t.exts, m0, ops) == Run(t.exts, t.Abs(), ops[i..])
    {
      assert ops[i..][0] == ops[i] && ops[i..][1..] == ops[i + 1..];
      if manner[i].look && t.undoStack != [] {
        t.CompressLastUndoSession();
      }
      ok := RunOne(t, ops[i], manner[i].fast);
      if !ok {
        return false;
      }
      i := i + 1;
    }
    assert ops[i..] == [];
    ok := true;
  }

  method RunOne<V(!new)>(t: UndoIndex<V>, op: Op<V>, fast: bool) returns (ok: bool)
    requires t.Valid()
    modifies t
    ensures ok <==> Step(t.exts, old(t.Abs()), op).Some?
    ensures ok ==> t.Valid() && Step(t.exts, old(t.Abs()), op) == Some(t.Abs())
  {
    hide ValidAt, SoundAt;
    match op
    case Emplace(v) =>
      var p;
      ok, p := t.Emplace(v);
    case Modify(id, v) =>
      var found := t.Find(id);
      if found.None? {
        return false;
      }
      ValidIsSound(t.exts, t.Rep(), t.shadow, t.indices);
      ok := t.Modify(found.value, v);
    case Remove(id) =>
      var found := t.Find(id);
      if found.None? {
        return false;
      }
      t.Remove(found.value);
      ok := true;
    case AddSession =>
      var r := t.AddSession();
      ok := true;
    case Undo =>
      t.Undo();
      ok := true;
    case Squash =>
      if fast { t.SquashFast(); } else { t.Squash(); }
      ok := true;
    case Commit(revision) =>
      t.Commit(revision);
      ok := true;
    case SetRevision(to) =>
      ok := t.SetRevision(to);
  }
}
