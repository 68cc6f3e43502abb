/** A run that loses a saved value: a refused modify whose failed check is caught. */
module UndoLoss {
  import opened OrderedIndex
  import opened UndoModel
  import opened TableIndices
  import opened UndoInvariant
  import opened UndoMeaning
  import opened UndoPhases
  import opened UndoRefusal
  import opened UndoTable

  /** A modify of an untouched row is refused, another one is not, and the session is undone as
      far as rows that are not removed go.  The row keeps the value of the second modify. */
  method ChangeAfterRefusal<V(!new)>(t: UndoIndex<V>, p: Ptr, taken: V, v: V)
    requires t.Valid() && p in LiveSet(t.nodes) && t.Unsaved(p)
    requires !KeysFree(t.exts, t.Abs().current.rows, t.nodes[p].id, taken) && KeysFree(t.exts, t.Abs().current.rows, t.nodes[p].id, v)
    modifies t
    ensures p in t.nodes && !t.nodes[p].erased && t.nodes[p].value == v && p in old(t.nodes) && t.nodes[p].id == old(t.nodes[p].id)
    ensures |old(t.Abs()).saved| == |t.undoStack| > 0
    ensures var s := old(t.Abs()).saved[|t.undoStack| - 1];
            old(t.nodes[p].id) in s.rows && (t.nodes[p].value == s.rows[old(t.nodes[p].id)] <==> v == old(t.nodes[p].value))
  {
    hide ValidAt, KeysFree, SoundAt, NewErased, Replayable, Replayed;
    ghost var c, g, ix, l := t.Rep(), t.shadow, t.indices, |t.undoStack| - 1;
    UndoReady(t.exts, c, g, ix);
    NothingToRestore(t.exts, c, g, ix, p);
    RefuseThenChange(t, p, taken, v);
    SoundHolds(t.exts, t.Rep(), t.shadow, t.indices);
    hide Holds, IdFirst, Transient;
    ghost var before := t.nodes;
    forall n | NewErased(before, n, c.undoStack[l].oldNextId)
      ensures Replayable(c.oldValues, g.oldEnds[l], c.undoStack[l].ctime, n)
    {
      StillReplayable(t.exts, c, g, ix, p, v, n);
    }
    ghost var n1 := t.Rewind(g.oldEnds[l]);
    UndoAfterRefusal(t.exts, c, g, ix, p, v, n1, t.nodes);
    SameNode(before, n1, t.nodes, c.undoStack[l].oldNextId, c.oldValues, g.oldEnds[l], c.undoStack[l].ctime, p);
  }

  /** The two modifies. */
  method RefuseThenChange<V(!new)>(t: UndoIndex<V>, p: Ptr, taken: V, v: V)
    requires t.Valid() && p in LiveSet(t.nodes) && t.Unsaved(p)
    requires !KeysFree(t.exts, t.Abs().current.rows, t.nodes[p].id, taken) && KeysFree(t.exts, t.Abs().current.rows, t.nodes[p].id, v)
    modifies t
    ensures t.Sound() && p in old(t.nodes) && t.Rep() == ModifiedCore(RevertedCore(old(t.Rep()), p), p, v)
  {
    hide ValidAt, KeysFree, SoundAt;
    ValidIsSound(t.exts, t.Rep(), t.shadow, t.indices);
    StartedBefore(t.exts, t.Rep(), t.shadow, t.indices);
    var ok := t.Modify(p, taken);
    ok := t.Modify(p, v);
  }

  lemma StartedBefore<V(!new)>(exts: Extractors<V>, c: Core<V>, g: Shadow<V>, ix: Indices)
    requires ValidAt(exts, c, g, ix) && |c.undoStack| > 0
    ensures c.undoStack[|c.undoStack| - 1].ctime <= c.monotonic
  {
  }

  lemma SoundHolds<V(!new)>(exts: Extractors<V>, c: Core<V>, g: Shadow<V>, ix: Indices)
    requires SoundAt(exts, c, g, ix)
    ensures IdFirst(exts) && Holds(c.nodes, exts, ix, LiveSet(c.nodes), 0)
  {
  }

  /** The loops change no id and erase no older row. */
  lemma SameNode<V>(before: map<Ptr, Node<V>>, n1: map<Ptr, Node<V>>, after: map<Ptr, Node<V>>, nextId: nat,
                    ov: seq<OldNode<V>>, end: nat, ctime: nat, p: Ptr)
    requires NewErased(before, n1, nextId) && Replayed(ov, end, ctime, n1, after) && p in before && p in after
    ensures after[p].id == before[p].id && after[p].erased == before[p].erased
  {
  }

  // ----- from an empty table -----

  function ById(): Extractor<int> { (id: nat, v: int) => id }
  function ByValue(): Extractor<int> { (id: nat, v: int) => v }

  /** Two rows, a session, and a modify of the first row to the key of the second: it is
      refused, and the table no longer meets the invariant behind undoing. */
  method ClashInSession() returns (t: UndoIndex<int>, p: Ptr)
    ensures fresh(t) && t.exts == [ById(), ByValue()] && t.Sound() && !t.Valid()
    ensures t.Abs() == Model(Snapshot(map[0 := 1, 1 := 2], 2), 1, [Snapshot(map[0 := 1, 1 := 2], 2)])
    ensures p in LiveSet(t.nodes) && t.nodes[p].id == 0
  {
    hide ValidAt, SoundAt;
    t, p := TwoRows();
    assert t.Abs().current.rows[1] == 2 && t.exts[1](1, 2) == t.exts[1](0, 2);
    ValidIsSound(t.exts, t.Rep(), t.shadow, t.indices);
    var ok := t.Modify(p, 2);
  }

  method TwoRows() returns (t: UndoIndex<int>, p: Ptr)
    ensures fresh(t) && t.exts == [ById(), ByValue()] && t.Valid()
    ensures t.Abs() == Model(Snapshot(map[0 := 1, 1 := 2], 2), 1, [Snapshot(map[0 := 1, 1 := 2], 2)])
    ensures p in LiveSet(t.nodes) && t.nodes[p].id == 0 && t.nodes[p].value == 1 && t.Unsaved(p)
  {
    hide ValidAt;
    t := new UndoIndex([ById(), ByValue()]);
    var ok, q := t.Emplace(1);
    ok, q := t.Emplace(2);
    assert t.Abs().current.rows == map[0 := 1, 1 := 2];
    var r := t.AddSession();
    var found := t.Find(0);
    p := found.value;
  }

  /** The same run with one more modify: the first row had 1 when the session started, and
      keeps 3 when it is undone. */
  method ValueLost() returns (t: UndoIndex<int>, p: Ptr)
    ensures p in t.nodes && t.nodes[p].id == 0 && !t.nodes[p].erased && t.nodes[p].value == 3
    ensures |t.undoStack| == 1
  {
    hide ValidAt;
    t, p := TwoRows();
    assert t.Abs().current.rows[1] == 2 && t.exts[1](1, 2) == t.exts[1](0, 2);
    ChangeAfterRefusal(t, p, 2, 3);
  }
}
