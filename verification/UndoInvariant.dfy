/** The representation of the undo table and the invariant that ties it to full
    snapshots.  The two lists are held oldest element first, so that the front of a
    source list is the last element of the sequence here. */
module UndoInvariant {
  import opened OrderedIndex
  import opened Options
  import opened UndoModel

  /** A backup made by a modification: the value and mtime before it, and the node. */
  datatype OldNode<V> = OldNode(addr: Ptr, id: nat, value: V, mtime: nat, current: Ptr)

  /** A session: the heads of the two lists when it started (None for an empty
      list), the next id, and its creation time. */
  datatype UndoState = UndoState(oldValuesEnd: Option<Ptr>, removedValuesEnd: Option<Ptr>, oldNextId: nat, ctime: nat)

  /** The fields of an undo_index that undo depends on; `nodes` is the allocated memory. */
  datatype Core<V> = Core(
    nodes: map<Ptr, Node<V>>,
    oldValues: seq<OldNode<V>>,
    removedValues: seq<Ptr>,
    undoStack: seq<UndoState>,
    nextId: nat,
    monotonic: nat)

  /** What the proof remembers: where each id lives, the position of each session's
      list heads, and the meaning. */
  datatype Shadow<V> = Shadow(
    home: map<nat, Ptr>,
    oldEnds: seq<nat>,
    removedEnds: seq<nat>,
    rows: map<nat, V>,
    saved: seq<Snapshot<V>>)

  // ----- the invariant, for the oldest n sessions -----

  ghost predicate EndsAt<V>(c: Core<V>, g: Shadow<V>, i: nat)
    requires i < |c.undoStack| && i < |g.oldEnds| && i < |g.removedEnds|
  {
    var u, a, b := c.undoStack[i], g.oldEnds[i], g.removedEnds[i];
    && a <= |c.oldValues| && b <= |c.removedValues|
    && (if u.oldValuesEnd.None? then a == 0 else a > 0 && c.oldValues[a - 1].addr == u.oldValuesEnd.value)
    && (if u.removedValuesEnd.None? then b == 0 else b > 0 && c.removedValues[b - 1] == u.removedValuesEnd.value)
  }

  ghost predicate Shape<V>(c: Core<V>, g: Shadow<V>, n: nat) {
    && n <= |c.undoStack| && |g.oldEnds| == n && |g.removedEnds| == n && |g.saved| == n
    && NoDuplicates(c.removedValues)
    && (forall a, b :: 0 <= a < b < |c.oldValues| ==> c.oldValues[a].addr != c.oldValues[b].addr)
    && (forall i :: 0 <= i < n ==> EndsAt(c, g, i))
    && (forall i :: 0 <= i < n ==>
          && c.undoStack[i].oldNextId <= c.nextId
          && c.undoStack[i].ctime <= c.monotonic
          && g.saved[i].nextId == c.undoStack[i].oldNextId)
    && (forall i, j :: 0 <= i < j < n ==>
          && g.oldEnds[i] <= g.oldEnds[j]
          && g.removedEnds[i] <= g.removedEnds[j]
          && c.undoStack[i].ctime < c.undoStack[j].ctime
          && c.undoStack[i].oldNextId <= c.undoStack[j].oldNextId)
  }

  ghost predicate NodesKnown<V>(c: Core<V>, g: Shadow<V>) {
    forall p :: p in c.nodes ==>
      && c.nodes[p].id in g.home && g.home[c.nodes[p].id] == p
      && c.nodes[p].id < c.nextId
      && c.nodes[p].mtime <= c.monotonic
      && (c.nodes[p].erased <==> p in c.removedValues)
  }

  ghost predicate RemovedKnown<V>(c: Core<V>) {
    forall p :: p in c.removedValues ==> p in c.nodes
  }

  ghost predicate HomesKnown<V>(c: Core<V>, g: Shadow<V>) {
    forall id :: id in g.home ==> g.home[id] in c.nodes && c.nodes[g.home[id]].id == id
  }

  /** Every node is a live row or on the removed list; ids are unique among them. */
  ghost predicate Arena<V>(c: Core<V>, g: Shadow<V>) {
    NodesKnown(c, g) && RemovedKnown(c) && HomesKnown(c, g)
  }

  ghost predicate Current<V>(c: Core<V>, g: Shadow<V>)
    requires Arena(c, g)
  {
    && (forall id :: id in g.rows <==> id in g.home && !c.nodes[g.home[id]].erased)
    && (forall p :: p in c.nodes && !c.nodes[p].erased ==> g.rows[c.nodes[p].id] == c.nodes[p].value)
  }

  /** The node is live, or was removed after session `i` started. */
  ghost predicate InScope<V>(c: Core<V>, end: nat, p: Ptr)
    requires p in c.nodes && end <= |c.removedValues|
  {
    !c.nodes[p].erased || p in c.removedValues[end..]
  }

  /** Entry `a` is the backup that session `u` would restore `p` from. */
  ghost predicate Restores<V>(c: Core<V>, u: UndoState, end: nat, a: int, p: Ptr) {
    end <= a < |c.oldValues| && c.oldValues[a].current == p && c.oldValues[a].mtime < u.ctime
  }

  ghost predicate HasBackup<V>(c: Core<V>, u: UndoState, end: nat, p: Ptr) {
    exists a :: Restores(c, u, end, a, p)
  }

  /** The saved ids are those of the older nodes in scope; newer nodes were made since. */
  ghost predicate Scope<V>(c: Core<V>, home: map<nat, Ptr>, u: UndoState, removedEnd: nat, s: Snapshot<V>)
    requires removedEnd <= |c.removedValues|
  {
    && (forall p :: p in c.nodes && c.nodes[p].id < u.oldNextId && InScope(c, removedEnd, p) ==> c.nodes[p].id in s.rows)
    && (forall id :: id in s.rows ==>
          && id < u.oldNextId && id in home && home[id] in c.nodes && c.nodes[home[id]].id == id
          && InScope(c, removedEnd, home[id]))
    && (forall p :: p in c.nodes && c.nodes[p].id >= u.oldNextId ==> c.nodes[p].mtime >= u.ctime && InScope(c, removedEnd, p))
  }

  /** A node untouched since the session started holds the saved value; a touched
      one has a backup. */
  ghost predicate Covered<V>(c: Core<V>, u: UndoState, oldEnd: nat, removedEnd: nat, s: Snapshot<V>)
    requires removedEnd <= |c.removedValues|
  {
    forall p :: p in c.nodes && c.nodes[p].id in s.rows && InScope(c, removedEnd, p) ==>
      if c.nodes[p].mtime < u.ctime then c.nodes[p].value == s.rows[c.nodes[p].id]
      else HasBackup(c, u, oldEnd, p)
  }

  /** Only a touched node has a backup, and a second backup of the same node is
      never older than the session. */
  ghost predicate Ordered<V>(c: Core<V>, u: UndoState, oldEnd: nat) {
    && (forall a :: oldEnd <= a < |c.oldValues| && c.oldValues[a].current in c.nodes ==>
          c.nodes[c.oldValues[a].current].mtime >= u.ctime)
    && (forall a, b :: oldEnd <= a < b < |c.oldValues| && c.oldValues[a].current == c.oldValues[b].current ==>
          c.oldValues[b].mtime >= u.ctime)
  }

  /** A backup older than the session points at a node in scope and holds its saved
      value; the others may point at disposed memory. */
  ghost predicate Good<V>(c: Core<V>, u: UndoState, oldEnd: nat, removedEnd: nat, s: Snapshot<V>)
    requires removedEnd <= |c.removedValues|
  {
    forall a :: oldEnd <= a < |c.oldValues| && c.oldValues[a].mtime < u.ctime ==> GoodBackup(c, removedEnd, s, a)
  }

  /** What the two lists must hold so that undoing session `u` would bring back `s`. */
  ghost predicate Session<V>(c: Core<V>, home: map<nat, Ptr>, u: UndoState, oldEnd: nat, removedEnd: nat, s: Snapshot<V>) {
    && oldEnd <= |c.oldValues| && removedEnd <= |c.removedValues|
    && Scope(c, home, u, removedEnd, s)
    && Covered(c, u, oldEnd, removedEnd, s)
    && Ordered(c, u, oldEnd)
    && Good(c, u, oldEnd, removedEnd, s)
  }

  ghost predicate GoodBackup<V>(c: Core<V>, removedEnd: nat, s: Snapshot<V>, a: nat)
    requires a < |c.oldValues| && removedEnd <= |c.removedValues|
  {
    var o := c.oldValues[a];
    && o.current in c.nodes && c.nodes[o.current].id == o.id && InScope(c, removedEnd, o.current)
    && o.id in s.rows && o.value == s.rows[o.id]
  }

  ghost predicate SessionAt<V>(c: Core<V>, g: Shadow<V>, i: nat)
    requires i < |c.undoStack| && i < |g.oldEnds| && i < |g.removedEnds| && i < |g.saved|
  {
    Session(c, g.home, c.undoStack[i], g.oldEnds[i], g.removedEnds[i], g.saved[i])
  }

  ghost predicate Base<V>(c: Core<V>, g: Shadow<V>, n: nat) {
    Shape(c, g, n) && Arena(c, g) && Current(c, g)
  }

  ghost predicate Inv<V>(c: Core<V>, g: Shadow<V>, n: nat) {
    && Base(c, g, n)
    && forall i :: 0 <= i < n ==> SessionAt(c, g, i)
  }

  // ----- create -----

  lemma AfterCreate<V>(c: Core<V>, g: Shadow<V>, n: nat, p: Ptr, v: V)
    requires Inv(c, g, n) && n == |c.undoStack| && p !in c.nodes
    ensures
      var node := Node(c.nextId, v, if n == 0 then 0 else c.monotonic, false);
      Inv(c.(nodes := c.nodes[p := node], nextId := c.nextId + 1),
          g.(home := g.home[c.nextId := p], rows := g.rows[c.nextId := v]), n)
  {
    hide Session;
    var node := Node(c.nextId, v, if n == 0 then 0 else c.monotonic, false);
    var c' := c.(nodes := c.nodes[p := node], nextId := c.nextId + 1);
    var g' := g.(home := g.home[c.nextId := p], rows := g.rows[c.nextId := v]);
    BaseAfterCreate(c, g, n, p, v);
    forall i | 0 <= i < n
      ensures SessionAt(c', g', i)
    {
      assert SessionAt(c, g, i) && EndsAt(c, g, i);
      SessionAfterCreate(c, g.home, c.undoStack[i], g.oldEnds[i], g.removedEnds[i], g.saved[i], p, node);
    }
  }

  lemma BaseAfterCreate<V>(c: Core<V>, g: Shadow<V>, n: nat, p: Ptr, v: V)
    requires Base(c, g, n) && n == |c.undoStack| && p !in c.nodes
    ensures
      var node := Node(c.nextId, v, if n == 0 then 0 else c.monotonic, false);
      Base(c.(nodes := c.nodes[p := node], nextId := c.nextId + 1),
          g.(home := g.home[c.nextId := p], rows := g.rows[c.nextId := v]), n)
  {
    var node := Node(c.nextId, v, if n == 0 then 0 else c.monotonic, false);
    var c' := c.(nodes := c.nodes[p := node], nextId := c.nextId + 1);
    var g' := g.(home := g.home[c.nextId := p], rows := g.rows[c.nextId := v]);
    assert Shape(c', g', n) by {
      forall i | 0 <= i < n
        ensures EndsAt(c', g', i)
      {
        assert EndsAt(c, g, i);
      }
    }
    assert Arena(c', g');
    assert Current(c', g');
  }

  lemma SessionAfterCreate<V>(c: Core<V>, home: map<nat, Ptr>, u: UndoState, oldEnd: nat, removedEnd: nat, s: Snapshot<V>,
                              p: Ptr, node: Node<V>)
    requires Session(c, home, u, oldEnd, removedEnd, s)
    requires p !in c.nodes && node.id == c.nextId >= u.oldNextId && node.mtime >= u.ctime && !node.erased
    ensures Session(c.(nodes := c.nodes[p := node], nextId := c.nextId + 1), home[node.id := p], u, oldEnd, removedEnd, s)
  {
    var c' := c.(nodes := c.nodes[p := node], nextId := c.nextId + 1);
    forall a | oldEnd <= a < |c.oldValues| && c.oldValues[a].mtime < u.ctime
      ensures GoodBackup(c', removedEnd, s, a)
    {
      assert GoodBackup(c, removedEnd, s, a);
    }
    assert Covered(c', u, oldEnd, removedEnd, s) by {
      BackupsSurvive(c, c', u, oldEnd);
    }
  }

  // ----- modify -----

  /** The node already changed in the newest session: no backup is made. */
  lemma AfterModifyInPlace<V>(c: Core<V>, g: Shadow<V>, n: nat, p: Ptr, v: V)
    requires Inv(c, g, n) && n == |c.undoStack| && p in c.nodes && !c.nodes[p].erased
    requires n > 0 ==> c.nodes[p].mtime >= c.undoStack[n - 1].ctime
    ensures Inv(c.(nodes := c.nodes[p := c.nodes[p].(value := v)]), g.(rows := g.rows[c.nodes[p].id := v]), n)
  {
    hide Session;
    var c' := c.(nodes := c.nodes[p := c.nodes[p].(value := v)]);
    var g' := g.(rows := g.rows[c.nodes[p].id := v]);
    BaseAfterModify(c, g, n, p, c.nodes[p].(value := v));
    forall i | 0 <= i < n
      ensures SessionAt(c', g', i)
    {
      assert SessionAt(c, g, i);
      SessionAfterModifyInPlace(c, g.home, c.undoStack[i], g.oldEnds[i], g.removedEnds[i], g.saved[i], p, v);
    }
  }

  lemma BaseAfterModify<V>(c: Core<V>, g: Shadow<V>, n: nat, p: Ptr, node: Node<V>)
    requires Base(c, g, n) && n == |c.undoStack| && p in c.nodes && !c.nodes[p].erased
    requires !node.erased && node.id == c.nodes[p].id && node.mtime <= c.monotonic
    ensures Base(c.(nodes := c.nodes[p := node]), g.(rows := g.rows[node.id := node.value]), n)
  {
    var c' := c.(nodes := c.nodes[p := node]);
    var g' := g.(rows := g.rows[node.id := node.value]);
    assert Shape(c', g', n) by {
      forall i | 0 <= i < n
        ensures EndsAt(c', g', i)
      {
        assert EndsAt(c, g, i);
      }
    }
    assert Arena(c', g');
    assert Current(c', g');
  }

  lemma SessionAfterModifyInPlace<V>(c: Core<V>, home: map<nat, Ptr>, u: UndoState, oldEnd: nat, removedEnd: nat, s: Snapshot<V>,
                                     p: Ptr, v: V)
    requires Session(c, home, u, oldEnd, removedEnd, s)
    requires p in c.nodes && c.nodes[p].mtime >= u.ctime
    ensures Session(c.(nodes := c.nodes[p := c.nodes[p].(value := v)]), home, u, oldEnd, removedEnd, s)
  {
    var c' := c.(nodes := c.nodes[p := c.nodes[p].(value := v)]);
    assert forall q :: q in c.nodes ==> InScope(c', removedEnd, q) == InScope(c, removedEnd, q);
    BackupsSurvive(c, c', u, oldEnd);
    hide InScope, HasBackup;
    CoveredInPlace(c, c', u, oldEnd, removedEnd, s, p);
    GoodInPlace(c, c', u, oldEnd, removedEnd, s);
    hide Covered, Good;
  }

  /** Nodes keep their ids and scope, and all but a touched one their values. */
  ghost predicate InPlace<V>(c: Core<V>, c': Core<V>, removedEnd: nat)
    requires removedEnd <= |c.removedValues| && removedEnd <= |c'.removedValues|
  {
    && c'.oldValues == c.oldValues && c'.nodes.Keys == c.nodes.Keys
    && forall q :: q in c.nodes ==>
         && c'.nodes[q].id == c.nodes[q].id && c'.nodes[q].mtime == c.nodes[q].mtime
         && InScope(c', removedEnd, q) == InScope(c, removedEnd, q)
  }

  lemma CoveredInPlace<V>(c: Core<V>, c': Core<V>, u: UndoState, oldEnd: nat, removedEnd: nat, s: Snapshot<V>, p: Ptr)
    requires removedEnd <= |c.removedValues| && removedEnd <= |c'.removedValues| && Covered(c, u, oldEnd, removedEnd, s)
    requires InPlace(c, c', removedEnd) && p in c.nodes && c.nodes[p].mtime >= u.ctime
    requires forall q :: q in c.nodes && q != p ==> c'.nodes[q].value == c.nodes[q].value
    requires forall q :: HasBackup(c, u, oldEnd, q) ==> HasBackup(c', u, oldEnd, q)
    ensures Covered(c', u, oldEnd, removedEnd, s)
  {
    hide InScope, HasBackup;
  }

  lemma GoodInPlace<V>(c: Core<V>, c': Core<V>, u: UndoState, oldEnd: nat, removedEnd: nat, s: Snapshot<V>)
    requires removedEnd <= |c.removedValues| && removedEnd <= |c'.removedValues| && Good(c, u, oldEnd, removedEnd, s)
    requires InPlace(c, c', removedEnd)
    ensures Good(c', u, oldEnd, removedEnd, s)
  {
    hide InScope;
    forall a | oldEnd <= a < |c.oldValues| && c.oldValues[a].mtime < u.ctime
      ensures GoodBackup(c', removedEnd, s, a)
    {
      assert GoodBackup(c, removedEnd, s, a);
    }
  }

  /** Backups are found again when entries are only added. */
  lemma BackupsSurvive<V>(c: Core<V>, c': Core<V>, u: UndoState, oldEnd: nat)
    requires c.oldValues <= c'.oldValues
    ensures forall q :: HasBackup(c, u, oldEnd, q) ==> HasBackup(c', u, oldEnd, q)
  {
    forall q | HasBackup(c, u, oldEnd, q)
      ensures HasBackup(c', u, oldEnd, q)
    {
      var a :| Restores(c, u, oldEnd, a, q);
      assert Restores(c', u, oldEnd, a, q);
    }
  }

  /** The first change in the newest session pushes a backup. */
  lemma AfterBackup<V>(c: Core<V>, g: Shadow<V>, n: nat, p: Ptr, addr: Ptr)
    requires Inv(c, g, n) && n == |c.undoStack| > 0 && p in c.nodes && !c.nodes[p].erased
    requires forall a :: 0 <= a < |c.oldValues| ==> c.oldValues[a].addr != addr
    ensures
      var node := c.nodes[p];
      Inv(c.(nodes := c.nodes[p := node.(mtime := c.monotonic)],
             oldValues := c.oldValues + [OldNode(addr, node.id, node.value, node.mtime, p)]), g, n)
  {
    hide Session;
    var node := c.nodes[p];
    var c1 := c.(nodes := c.nodes[p := node.(mtime := c.monotonic)]);
    var c' := c1.(oldValues := c.oldValues + [OldNode(addr, node.id, node.value, node.mtime, p)]);
    BaseAfterModify(c, g, n, p, node.(mtime := c.monotonic));
    assert g.(rows := g.rows[node.id := node.value]) == g by {
      assert g.rows[node.id := node.value] == g.rows;
    }
    forall i | 0 <= i < n
      ensures EndsAt(c', g, i)
      ensures SessionAt(c', g, i)
    {
      assert EndsAt(c1, g, i) && SessionAt(c, g, i);
      SessionAfterBackup(c, g.home, c.undoStack[i], g.oldEnds[i], g.removedEnds[i], g.saved[i], p, addr);
    }
    assert Arena(c', g);
  }

  lemma SessionAfterBackup<V>(c: Core<V>, home: map<nat, Ptr>, u: UndoState, oldEnd: nat, removedEnd: nat, s: Snapshot<V>,
                              p: Ptr, addr: Ptr)
    requires Session(c, home, u, oldEnd, removedEnd, s)
    requires p in c.nodes && !c.nodes[p].erased && c.monotonic >= u.ctime
    ensures
      var node := c.nodes[p];
      Session(c.(nodes := c.nodes[p := node.(mtime := c.monotonic)],
                 oldValues := c.oldValues + [OldNode(addr, node.id, node.value, node.mtime, p)]), home, u, oldEnd, removedEnd, s)
  {
    var node := c.nodes[p];
    var c' := c.(nodes := c.nodes[p := node.(mtime := c.monotonic)],
                 oldValues := c.oldValues + [OldNode(addr, node.id, node.value, node.mtime, p)]);
    forall q | q in c.nodes
      ensures InScope(c', removedEnd, q) == InScope(c, removedEnd, q)
    {
    }
    assert Scope(c', home, u, removedEnd, s);
    assert Covered(c', u, oldEnd, removedEnd, s) by {
      BackupsSurvive(c, c', u, oldEnd);
      if node.mtime < u.ctime {
        assert Restores(c', u, oldEnd, |c.oldValues|, p);
      }
    }
    OrderedAfterBackup(c, u, oldEnd, p, addr);
    hide Ordered, Covered, HasBackup;
    forall a | oldEnd <= a < |c'.oldValues| && c'.oldValues[a].mtime < u.ctime
      ensures GoodBackup(c', removedEnd, s, a)
    {
      if a < |c.oldValues| { assert GoodBackup(c, removedEnd, s, a); }
    }
  }

  lemma OrderedAfterBackup<V>(c: Core<V>, u: UndoState, oldEnd: nat, p: Ptr, addr: Ptr)
    requires Ordered(c, u, oldEnd) && p in c.nodes && c.monotonic >= u.ctime && oldEnd <= |c.oldValues|
    ensures var node := c.nodes[p];
            Ordered(c.(nodes := c.nodes[p := node.(mtime := c.monotonic)],
                       oldValues := c.oldValues + [OldNode(addr, node.id, node.value, node.mtime, p)]), u, oldEnd)
  {
  }

  // ----- remove -----

  /** A row made in the newest session, or with no session at all, is disposed. */
  lemma AfterDispose<V>(c: Core<V>, g: Shadow<V>, n: nat, p: Ptr)
    requires Inv(c, g, n) && n == |c.undoStack| && p in c.nodes && !c.nodes[p].erased
    requires n > 0 ==> c.nodes[p].id >= c.undoStack[n - 1].oldNextId
    ensures Inv(c.(nodes := c.nodes - {p}), g.(home := g.home - {c.nodes[p].id}, rows := g.rows - {c.nodes[p].id}), n)
  {
    hide Session;
    var id := c.nodes[p].id;
    var c' := c.(nodes := c.nodes - {p});
    var g' := g.(home := g.home - {id}, rows := g.rows - {id});
    BaseAfterDispose(c, g, n, p);
    forall i | 0 <= i < n
      ensures SessionAt(c', g', i)
    {
      assert SessionAt(c, g, i);
      SessionAfterDispose(c, g.home, c.undoStack[i], g.oldEnds[i], g.removedEnds[i], g.saved[i], p);
    }
  }

  lemma BaseAfterDispose<V>(c: Core<V>, g: Shadow<V>, n: nat, p: Ptr)
    requires Base(c, g, n) && p in c.nodes && !c.nodes[p].erased
    ensures Base(c.(nodes := c.nodes - {p}), g.(home := g.home - {c.nodes[p].id}, rows := g.rows - {c.nodes[p].id}), n)
  {
    var id := c.nodes[p].id;
    var c' := c.(nodes := c.nodes - {p});
    var g' := g.(home := g.home - {id}, rows := g.rows - {id});
    assert Shape(c', g', n) by {
      forall i | 0 <= i < n
        ensures EndsAt(c', g', i)
      {
        assert EndsAt(c, g, i);
      }
    }
    assert Arena(c', g');
    assert Current(c', g');
  }

  lemma SessionAfterDispose<V>(c: Core<V>, home: map<nat, Ptr>, u: UndoState, oldEnd: nat, removedEnd: nat, s: Snapshot<V>, p: Ptr)
    requires Session(c, home, u, oldEnd, removedEnd, s)
    requires p in c.nodes && c.nodes[p].id >= u.oldNextId
    ensures Session(c.(nodes := c.nodes - {p}), home - {c.nodes[p].id}, u, oldEnd, removedEnd, s)
  {
    var c' := c.(nodes := c.nodes - {p});
    forall q | q in c'.nodes
      ensures InScope(c', removedEnd, q) == InScope(c, removedEnd, q)
    {
    }
    assert Covered(c', u, oldEnd, removedEnd, s) by {
      BackupsSurvive(c, c', u, oldEnd);
    }
    forall a | oldEnd <= a < |c.oldValues| && c.oldValues[a].mtime < u.ctime
      ensures GoodBackup(c', removedEnd, s, a)
    {
      assert GoodBackup(c, removedEnd, s, a);
    }
  }

  /** An older row goes onto the removed list. */
  lemma AfterShelve<V>(c: Core<V>, g: Shadow<V>, n: nat, p: Ptr)
    requires Inv(c, g, n) && n == |c.undoStack| > 0 && p in c.nodes && !c.nodes[p].erased
    ensures Inv(c.(nodes := c.nodes[p := c.nodes[p].(erased := true)], removedValues := c.removedValues + [p]),
                g.(rows := g.rows - {c.nodes[p].id}), n)
  {
    hide Session;
    var id := c.nodes[p].id;
    var c' := c.(nodes := c.nodes[p := c.nodes[p].(erased := true)], removedValues := c.removedValues + [p]);
    var g' := g.(rows := g.rows - {id});
    assert Shape(c', g', n) by {
      forall i | 0 <= i < n
        ensures EndsAt(c', g', i)
      {
        assert EndsAt(c, g, i);
      }
    }
    BaseAfterShelve(c, g, n, p);
    forall i | 0 <= i < n
      ensures SessionAt(c', g', i)
    {
      assert SessionAt(c, g, i);
      SessionAfterShelve(c, g.home, c.undoStack[i], g.oldEnds[i], g.removedEnds[i], g.saved[i], p);
    }
  }

  lemma BaseAfterShelve<V>(c: Core<V>, g: Shadow<V>, n: nat, p: Ptr)
    requires Base(c, g, n) && p in c.nodes && !c.nodes[p].erased
    ensures Base(c.(nodes := c.nodes[p := c.nodes[p].(erased := true)], removedValues := c.removedValues + [p]),
                g.(rows := g.rows - {c.nodes[p].id}), n)
  {
    var id := c.nodes[p].id;
    var c' := c.(nodes := c.nodes[p := c.nodes[p].(erased := true)], removedValues := c.removedValues + [p]);
    var g' := g.(rows := g.rows - {id});
    assert forall q :: q in c'.removedValues <==> q in c.removedValues || q == p;
    assert Shape(c', g', n) by {
      forall i | 0 <= i < n
        ensures EndsAt(c', g', i)
      {
        assert EndsAt(c, g, i);
      }
    }
    assert Arena(c', g');
    assert Current(c', g');
  }

  lemma SessionAfterShelve<V>(c: Core<V>, home: map<nat, Ptr>, u: UndoState, oldEnd: nat, removedEnd: nat, s: Snapshot<V>, p: Ptr)
    requires Session(c, home, u, oldEnd, removedEnd, s)
    requires p in c.nodes && !c.nodes[p].erased
    ensures Session(c.(nodes := c.nodes[p := c.nodes[p].(erased := true)], removedValues := c.removedValues + [p]),
                    home, u, oldEnd, removedEnd, s)
  {
    hide Covered, Good;
    var c' := c.(nodes := c.nodes[p := c.nodes[p].(erased := true)], removedValues := c.removedValues + [p]);
    assert c'.removedValues[removedEnd..] == c.removedValues[removedEnd..] + [p];
    assert forall q :: q in c.nodes ==> InScope(c', removedEnd, q) == InScope(c, removedEnd, q);
    BackupsSurvive(c, c', u, oldEnd);
    hide InScope, HasBackup;
    CoveredShelved(c, c', u, oldEnd, removedEnd, s);
    GoodInPlace(c, c', u, oldEnd, removedEnd, s);
  }

  lemma CoveredShelved<V>(c: Core<V>, c': Core<V>, u: UndoState, oldEnd: nat, removedEnd: nat, s: Snapshot<V>)
    requires removedEnd <= |c.removedValues| && removedEnd <= |c'.removedValues| && Covered(c, u, oldEnd, removedEnd, s)
    requires InPlace(c, c', removedEnd) && forall q :: q in c.nodes ==> c'.nodes[q].value == c.nodes[q].value
    requires forall q :: HasBackup(c, u, oldEnd, q) ==> HasBackup(c', u, oldEnd, q)
    ensures Covered(c', u, oldEnd, removedEnd, s)
  {
    hide InScope, HasBackup;
  }

  // ----- start a session -----

  function HeadOld<V>(c: Core<V>): Option<Ptr> {
    if c.oldValues == [] then None else Some(c.oldValues[|c.oldValues| - 1].addr)
  }

  function HeadRemoved<V>(c: Core<V>): Option<Ptr> {
    if c.removedValues == [] then None else Some(c.removedValues[|c.removedValues| - 1])
  }

  lemma AfterAddSession<V>(c: Core<V>, g: Shadow<V>, n: nat)
    requires Inv(c, g, n) && n == |c.undoStack|
    ensures
      Inv(c.(undoStack := c.undoStack + [UndoState(HeadOld(c), HeadRemoved(c), c.nextId, c.monotonic + 1)],
             monotonic := c.monotonic + 1),
          g.(oldEnds := g.oldEnds + [|c.oldValues|], removedEnds := g.removedEnds + [|c.removedValues|],
             saved := g.saved + [Snapshot(g.rows, c.nextId)]), n + 1)
  {
    var u := UndoState(HeadOld(c), HeadRemoved(c), c.nextId, c.monotonic + 1);
    var s := Snapshot(g.rows, c.nextId);
    var c' := c.(undoStack := c.undoStack + [u], monotonic := c.monotonic + 1);
    var g' := g.(oldEnds := g.oldEnds + [|c.oldValues|], removedEnds := g.removedEnds + [|c.removedValues|], saved := g.saved + [s]);
    BaseAfterAddSession(c, g, n);
    assert Session(c', g.home, u, |c.oldValues|, |c.removedValues|, s);
    hide Session;
    forall i | 0 <= i < n
      ensures SessionAt(c', g', i)
    {
      assert SessionAt(c, g, i);
      SessionSameLists(c, c', g.home, c.undoStack[i], g.oldEnds[i], g.removedEnds[i], g.saved[i]);
    }
  }

  lemma BaseAfterAddSession<V>(c: Core<V>, g: Shadow<V>, n: nat)
    requires Base(c, g, n) && n == |c.undoStack|
    ensures
      Base(c.(undoStack := c.undoStack + [UndoState(HeadOld(c), HeadRemoved(c), c.nextId, c.monotonic + 1)],
             monotonic := c.monotonic + 1),
          g.(oldEnds := g.oldEnds + [|c.oldValues|], removedEnds := g.removedEnds + [|c.removedValues|],
             saved := g.saved + [Snapshot(g.rows, c.nextId)]), n + 1)
  {
    var u := UndoState(HeadOld(c), HeadRemoved(c), c.nextId, c.monotonic + 1);
    var s := Snapshot(g.rows, c.nextId);
    var c' := c.(undoStack := c.undoStack + [u], monotonic := c.monotonic + 1);
    var g' := g.(oldEnds := g.oldEnds + [|c.oldValues|], removedEnds := g.removedEnds + [|c.removedValues|], saved := g.saved + [s]);
    assert Shape(c', g', n + 1) by {
      forall i | 0 <= i < n + 1
        ensures EndsAt(c', g', i)
      {
        if i < n { assert EndsAt(c, g, i); }
      }
      forall i | 0 <= i < n
        ensures g.oldEnds[i] <= |c.oldValues| && g.removedEnds[i] <= |c.removedValues|
      {
        assert EndsAt(c, g, i);
      }
    }
    assert Arena(c', g');
    assert Current(c', g');
  }

  /** A session looks only at the nodes and the two lists. */
  lemma SessionSameLists<V>(c: Core<V>, c': Core<V>, home: map<nat, Ptr>, u: UndoState, oldEnd: nat, removedEnd: nat, s: Snapshot<V>)
    requires Session(c, home, u, oldEnd, removedEnd, s)
    requires c'.nodes == c.nodes && c'.oldValues == c.oldValues && c'.removedValues == c.removedValues
    ensures Session(c', home, u, oldEnd, removedEnd, s)
  {
    forall q | q in c.nodes
      ensures InScope(c', removedEnd, q) == InScope(c, removedEnd, q)
    {
    }
    assert Covered(c', u, oldEnd, removedEnd, s) by {
      BackupsSurvive(c, c', u, oldEnd);
    }
    forall a | oldEnd <= a < |c.oldValues| && c.oldValues[a].mtime < u.ctime
      ensures GoodBackup(c', removedEnd, s, a)
    {
      assert GoodBackup(c, removedEnd, s, a);
    }
  }
}
