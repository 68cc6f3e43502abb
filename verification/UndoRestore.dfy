/** Undoing the newest session, on the representation of UndoInvariant. */
module UndoRestore {
  import opened OrderedIndex
  import opened UndoModel
  import opened UndoInvariant

  /** The nodes after an undo of session `u`: newer nodes are gone, nodes removed in
      the session are live again, and nodes with a backup have its value and mtime. */
  ghost predicate Restored<V>(c: Core<V>, u: UndoState, oldEnd: nat, removedEnd: nat, nodes: map<Ptr, Node<V>>)
    requires removedEnd <= |c.removedValues|
  {
    && (forall p :: p in nodes <==> p in c.nodes && c.nodes[p].id < u.oldNextId)
    && (forall p :: p in nodes ==>
          && nodes[p].id == c.nodes[p].id
          && nodes[p].erased == !InScope(c, removedEnd, p)
          && (!HasBackup(c, u, oldEnd, p) ==> nodes[p].value == c.nodes[p].value && nodes[p].mtime == c.nodes[p].mtime))
    && (forall a, p :: p in nodes && Restores(c, u, oldEnd, a, p) ==>
          nodes[p].value == c.oldValues[a].value && nodes[p].mtime == c.oldValues[a].mtime)
  }

  function UndoneCore<V>(c: Core<V>, oldEnd: nat, removedEnd: nat, nodes: map<Ptr, Node<V>>): Core<V>
    requires c.undoStack != [] && oldEnd <= |c.oldValues| && removedEnd <= |c.removedValues|
  {
    var l := |c.undoStack| - 1;
    Core(nodes, c.oldValues[..oldEnd], c.removedValues[..removedEnd], c.undoStack[..l], c.undoStack[l].oldNextId, c.monotonic)
  }

  function UndoneShadow<V>(g: Shadow<V>, nextId: nat): Shadow<V>
    requires |g.saved| > 0 && |g.oldEnds| == |g.saved| == |g.removedEnds|
  {
    var l := |g.saved| - 1;
    Shadow(map id | id in g.home && id < nextId :: g.home[id], g.oldEnds[..l], g.removedEnds[..l], g.saved[l].rows, g.saved[..l])
  }

  lemma AfterUndo<V>(c: Core<V>, g: Shadow<V>, n: nat, nodes: map<Ptr, Node<V>>)
    requires Inv(c, g, n) && n == |c.undoStack| > 0
    requires g.oldEnds[n - 1] <= |c.oldValues| && g.removedEnds[n - 1] <= |c.removedValues|
    requires Restored(c, c.undoStack[n - 1], g.oldEnds[n - 1], g.removedEnds[n - 1], nodes)
    ensures Inv(UndoneCore(c, g.oldEnds[n - 1], g.removedEnds[n - 1], nodes),
                UndoneShadow(g, c.undoStack[n - 1].oldNextId), n - 1)
  {
    hide Session;
    var l := n - 1;
    var c' := UndoneCore(c, g.oldEnds[l], g.removedEnds[l], nodes);
    var g' := UndoneShadow(g, c.undoStack[l].oldNextId);
    assert SessionAt(c, g, l);
    BaseAfterUndo(c, g, n, nodes);
    forall i | 0 <= i < l
      ensures SessionAt(c', g', i)
    {
      assert SessionAt(c, g, i);
      SessionAfterUndo(c, g, n, nodes, i);
    }
  }

  lemma BaseAfterUndo<V>(c: Core<V>, g: Shadow<V>, n: nat, nodes: map<Ptr, Node<V>>)
    requires Base(c, g, n) && n == |c.undoStack| > 0 && SessionAt(c, g, n - 1)
    requires g.oldEnds[n - 1] <= |c.oldValues| && g.removedEnds[n - 1] <= |c.removedValues|
    requires Restored(c, c.undoStack[n - 1], g.oldEnds[n - 1], g.removedEnds[n - 1], nodes)
    ensures Base(UndoneCore(c, g.oldEnds[n - 1], g.removedEnds[n - 1], nodes),
                 UndoneShadow(g, c.undoStack[n - 1].oldNextId), n - 1)
  {
    ShapeAfterUndo(c, g, n, nodes);
    hide Shape, Restored, Covered, Good, Ordered;
    ArenaAfterUndo(c, g, n, nodes);
    CurrentAfterUndo(c, g, n, nodes);
    hide Arena, Current;
  }

  lemma CurrentAfterUndo<V>(c: Core<V>, g: Shadow<V>, n: nat, nodes: map<Ptr, Node<V>>)
    requires n == |c.undoStack| > 0 && |g.oldEnds| == |g.removedEnds| == |g.saved| == n && SessionAt(c, g, n - 1)
    requires g.oldEnds[n - 1] <= |c.oldValues| && g.removedEnds[n - 1] <= |c.removedValues|
    requires Restored(c, c.undoStack[n - 1], g.oldEnds[n - 1], g.removedEnds[n - 1], nodes)
    requires Arena(UndoneCore(c, g.oldEnds[n - 1], g.removedEnds[n - 1], nodes), UndoneShadow(g, c.undoStack[n - 1].oldNextId))
    ensures Current(UndoneCore(c, g.oldEnds[n - 1], g.removedEnds[n - 1], nodes), UndoneShadow(g, c.undoStack[n - 1].oldNextId))
  {
    hide Session, Restored;
    var l := n - 1;
    RestoredRows(c, g.home, c.undoStack[l], g.oldEnds[l], g.removedEnds[l], g.saved[l], nodes);
  }

  lemma ShapeAfterUndo<V>(c: Core<V>, g: Shadow<V>, n: nat, nodes: map<Ptr, Node<V>>)
    requires Base(c, g, n) && n == |c.undoStack| > 0
    requires g.oldEnds[n - 1] <= |c.oldValues| && g.removedEnds[n - 1] <= |c.removedValues|
    ensures Shape(UndoneCore(c, g.oldEnds[n - 1], g.removedEnds[n - 1], nodes), UndoneShadow(g, c.undoStack[n - 1].oldNextId), n - 1)
  {
    hide Arena;
    var l := n - 1;
    var c' := UndoneCore(c, g.oldEnds[l], g.removedEnds[l], nodes);
    var g' := UndoneShadow(g, c.undoStack[l].oldNextId);
    forall i | 0 <= i < l
      ensures EndsAt(c', g', i)
    {
      assert EndsAt(c, g, i);
    }
  }

  lemma ArenaAfterUndo<V>(c: Core<V>, g: Shadow<V>, n: nat, nodes: map<Ptr, Node<V>>)
    requires Base(c, g, n) && n == |c.undoStack| > 0
    requires g.oldEnds[n - 1] <= |c.oldValues| && g.removedEnds[n - 1] <= |c.removedValues|
    requires Scope(c, g.home, c.undoStack[n - 1], g.removedEnds[n - 1], g.saved[n - 1])
    requires Restored(c, c.undoStack[n - 1], g.oldEnds[n - 1], g.removedEnds[n - 1], nodes)
    ensures Arena(UndoneCore(c, g.oldEnds[n - 1], g.removedEnds[n - 1], nodes), UndoneShadow(g, c.undoStack[n - 1].oldNextId))
  {
    RestoredMtimes(c, g, n, nodes);
    RestoredIds(c, g, n, nodes);
    NewInScope(c, g.home, c.undoStack[n - 1], g.removedEnds[n - 1], g.saved[n - 1]);
    ErasedIffRemoved(c, g);
    hide Restored, Scope, Shape, Current, InScope, NodesKnown, RemovedKnown, HomesKnown;
    RestoredErased(c, c.undoStack[n - 1], g.oldEnds[n - 1], g.removedEnds[n - 1], nodes);
    ArenaOf(UndoneCore(c, g.oldEnds[n - 1], g.removedEnds[n - 1], nodes), UndoneShadow(g, c.undoStack[n - 1].oldNextId));
  }

  lemma NewInScope<V>(c: Core<V>, home: map<nat, Ptr>, u: UndoState, removedEnd: nat, s: Snapshot<V>)
    requires removedEnd <= |c.removedValues| && Scope(c, home, u, removedEnd, s)
    ensures forall p :: p in c.nodes && c.nodes[p].id >= u.oldNextId ==> InScope(c, removedEnd, p)
  {
  }

  lemma ErasedIffRemoved<V>(c: Core<V>, g: Shadow<V>)
    requires Arena(c, g)
    ensures forall p :: p in c.nodes ==> (c.nodes[p].erased <==> p in c.removedValues)
    ensures forall p :: p in c.removedValues ==> p in c.nodes
  {
  }

  lemma ArenaOf<V>(c: Core<V>, g: Shadow<V>)
    requires forall p :: p in c.nodes ==> c.nodes[p].id in g.home && g.home[c.nodes[p].id] == p && c.nodes[p].id < c.nextId
    requires forall p :: p in c.nodes ==> c.nodes[p].mtime <= c.monotonic && (c.nodes[p].erased <==> p in c.removedValues)
    requires forall p :: p in c.removedValues ==> p in c.nodes
    requires forall id :: id in g.home ==> g.home[id] in c.nodes && c.nodes[g.home[id]].id == id
    ensures Arena(c, g)
  {
  }

  lemma RestoredErased<V>(c: Core<V>, u: UndoState, oldEnd: nat, removedEnd: nat, nodes: map<Ptr, Node<V>>)
    requires removedEnd <= |c.removedValues| && NoDuplicates(c.removedValues) && Restored(c, u, oldEnd, removedEnd, nodes)
    requires forall p :: p in c.nodes ==> (c.nodes[p].erased <==> p in c.removedValues)
    requires forall p :: p in c.removedValues ==> p in c.nodes
    requires forall p :: p in c.nodes && c.nodes[p].id >= u.oldNextId ==> InScope(c, removedEnd, p)
    ensures forall p :: p in nodes ==> (nodes[p].erased <==> p in c.removedValues[..removedEnd])
    ensures forall p :: p in c.removedValues[..removedEnd] ==> p in nodes
  {
    hide HasBackup, Restores;
    ListSplit(c.removedValues, removedEnd);
    forall p | p in c.removedValues[..removedEnd]
      ensures p in nodes
    {
      assert p in c.removedValues && !InScope(c, removedEnd, p);
    }
  }

  lemma RestoredIds<V>(c: Core<V>, g: Shadow<V>, n: nat, nodes: map<Ptr, Node<V>>)
    requires Arena(c, g) && n == |c.undoStack| == |g.saved| == |g.oldEnds| == |g.removedEnds| && n > 0
    requires g.removedEnds[n - 1] <= |c.removedValues|
    requires Restored(c, c.undoStack[n - 1], g.oldEnds[n - 1], g.removedEnds[n - 1], nodes)
    ensures var home := UndoneShadow(g, c.undoStack[n - 1].oldNextId).home;
            && (forall p :: p in nodes ==> nodes[p].id in home && home[nodes[p].id] == p && nodes[p].id < c.undoStack[n - 1].oldNextId)
            && (forall id :: id in home ==> home[id] in nodes && nodes[home[id]].id == id)
  {
    hide HasBackup, Restores;
  }

  lemma ListSplit(s: seq<Ptr>, k: nat)
    requires k <= |s| && NoDuplicates(s)
    ensures forall p :: p in s <==> p in s[..k] || p in s[k..]
    ensures forall p :: p in s[..k] ==> p !in s[k..]
  {
    assert s == s[..k] + s[k..];
  }

  lemma RestoredMtimes<V>(c: Core<V>, g: Shadow<V>, n: nat, nodes: map<Ptr, Node<V>>)
    requires Base(c, g, n) && n == |c.undoStack| > 0
    requires g.oldEnds[n - 1] <= |c.oldValues| && g.removedEnds[n - 1] <= |c.removedValues|
    requires Restored(c, c.undoStack[n - 1], g.oldEnds[n - 1], g.removedEnds[n - 1], nodes)
    ensures forall p :: p in nodes ==> nodes[p].mtime <= c.monotonic
  {
    var u := c.undoStack[n - 1];
    forall p | p in nodes
      ensures nodes[p].mtime <= c.monotonic
    {
      if HasBackup(c, u, g.oldEnds[n - 1], p) {
        var a :| Restores(c, u, g.oldEnds[n - 1], a, p);
      }
    }
  }

  /** The heart of undo: every restored row has the value saved at session start, and
      no other row is live. */
  lemma RestoredRows<V>(c: Core<V>, home: map<nat, Ptr>, u: UndoState, oldEnd: nat, removedEnd: nat, s: Snapshot<V>,
                        nodes: map<Ptr, Node<V>>)
    requires Session(c, home, u, oldEnd, removedEnd, s)
    requires Restored(c, u, oldEnd, removedEnd, nodes)
    ensures forall p :: p in nodes && !nodes[p].erased ==> nodes[p].id in s.rows && nodes[p].value == s.rows[nodes[p].id]
    ensures forall id :: id in s.rows ==> id in home && home[id] in nodes && nodes[home[id]].id == id && !nodes[home[id]].erased
  {
    forall p | p in nodes && !nodes[p].erased
      ensures nodes[p].id in s.rows && nodes[p].value == s.rows[nodes[p].id]
    {
      assert InScope(c, removedEnd, p);
      if HasBackup(c, u, oldEnd, p) {
        var a :| Restores(c, u, oldEnd, a, p);
        assert GoodBackup(c, removedEnd, s, a);
      } else {
        assert c.nodes[p].mtime < u.ctime;
      }
    }
  }

  lemma SessionAfterUndo<V>(c: Core<V>, g: Shadow<V>, n: nat, nodes: map<Ptr, Node<V>>, i: nat)
    requires Base(c, g, n) && n == |c.undoStack| && i < n - 1
    requires SessionAt(c, g, i) && SessionAt(c, g, n - 1)
    requires Restored(c, c.undoStack[n - 1], g.oldEnds[n - 1], g.removedEnds[n - 1], nodes)
    ensures SessionAt(UndoneCore(c, g.oldEnds[n - 1], g.removedEnds[n - 1], nodes),
                      UndoneShadow(g, c.undoStack[n - 1].oldNextId), i)
  {
    OlderSession(c, g.home, c.undoStack[i], g.oldEnds[i], g.removedEnds[i], g.saved[i],
                 c.undoStack[n - 1], g.oldEnds[n - 1], g.removedEnds[n - 1], g.saved[n - 1],
                 UndoneCore(c, g.oldEnds[n - 1], g.removedEnds[n - 1], nodes),
                 UndoneShadow(g, c.undoStack[n - 1].oldNextId).home);
  }

  /** An older session `u` is unharmed by the undo of a newer one `v`. */
  lemma OlderSession<V>(c: Core<V>, home: map<nat, Ptr>, u: UndoState, oldEnd: nat, removedEnd: nat, s: Snapshot<V>,
                        v: UndoState, vOld: nat, vRemoved: nat, t: Snapshot<V>, c': Core<V>, home': map<nat, Ptr>)
    requires Session(c, home, u, oldEnd, removedEnd, s) && Session(c, home, v, vOld, vRemoved, t)
    requires oldEnd <= vOld && removedEnd <= vRemoved && u.ctime < v.ctime && u.oldNextId <= v.oldNextId
    requires NoDuplicates(c.removedValues) && forall p :: p in c.nodes && c.nodes[p].erased ==> p in c.removedValues
    requires Restored(c, v, vOld, vRemoved, c'.nodes)
    requires c'.oldValues == c.oldValues[..vOld] && c'.removedValues == c.removedValues[..vRemoved]
    requires home' == map id | id in home && id < v.oldNextId :: home[id]
    ensures Session(c', home', u, oldEnd, removedEnd, s)
  {
    ScopeAfterUndo(c, removedEnd, v, vOld, vRemoved, c');
    hide InScope;
    assert Scope(c', home', u, removedEnd, s) by {
      NewAfterUndo(c, home, u, oldEnd, removedEnd, s, v, vOld, vRemoved, c');
    }
    assert Covered(c', u, oldEnd, removedEnd, s) by {
      CoveredAfterUndo(c, home, u, oldEnd, removedEnd, s, v, vOld, vRemoved, t, c');
    }
    assert Ordered(c', u, oldEnd) by {
      OrderedAfterUndo(c, u, oldEnd, v, vOld, vRemoved, c');
    }
    GoodAfterUndo(c, home, u, oldEnd, removedEnd, s, v, vOld, vRemoved, c');
    hide Scope, Covered, Ordered, Good;
  }

  lemma GoodAfterUndo<V>(c: Core<V>, home: map<nat, Ptr>, u: UndoState, oldEnd: nat, removedEnd: nat, s: Snapshot<V>,
                         v: UndoState, vOld: nat, vRemoved: nat, c': Core<V>)
    requires removedEnd <= vRemoved <= |c.removedValues| && removedEnd <= |c'.removedValues| && vOld <= |c.oldValues|
    requires Good(c, u, oldEnd, removedEnd, s) && Scope(c, home, u, removedEnd, s)
    requires u.ctime < v.ctime && u.oldNextId <= v.oldNextId
    requires Restored(c, v, vOld, vRemoved, c'.nodes) && c'.oldValues == c.oldValues[..vOld]
    requires forall p :: p in c'.nodes ==> InScope(c', removedEnd, p) == InScope(c, removedEnd, p)
    requires NoDuplicates(c.removedValues)
    ensures Good(c', u, oldEnd, removedEnd, s)
  {
    forall a | oldEnd <= a < |c'.oldValues| && c'.oldValues[a].mtime < u.ctime
      ensures GoodBackup(c', removedEnd, s, a)
    {
      assert GoodBackup(c, removedEnd, s, a);
    }
  }

  lemma ScopeAfterUndo<V>(c: Core<V>, removedEnd: nat, v: UndoState, vOld: nat, vRemoved: nat, c': Core<V>)
    requires removedEnd <= vRemoved <= |c.removedValues|
    requires NoDuplicates(c.removedValues) && forall p :: p in c.nodes && c.nodes[p].erased ==> p in c.removedValues
    requires Restored(c, v, vOld, vRemoved, c'.nodes)
    requires c'.removedValues == c.removedValues[..vRemoved]
    ensures forall p :: p in c'.nodes ==> InScope(c', removedEnd, p) == InScope(c, removedEnd, p)
  {
    var r := c.removedValues;
    ListSplit(r, vRemoved);
    ListSplit(r, removedEnd);
    assert r[removedEnd..] == c'.removedValues[removedEnd..] + r[vRemoved..];
  }

  lemma NewAfterUndo<V>(c: Core<V>, home: map<nat, Ptr>, u: UndoState, oldEnd: nat, removedEnd: nat, s: Snapshot<V>,
                        v: UndoState, vOld: nat, vRemoved: nat, c': Core<V>)
    requires Session(c, home, u, oldEnd, removedEnd, s)
    requires oldEnd <= vOld && vRemoved <= |c.removedValues|
    requires Restored(c, v, vOld, vRemoved, c'.nodes)
    ensures forall p :: p in c'.nodes && c'.nodes[p].id >= u.oldNextId ==> c'.nodes[p].mtime >= u.ctime
  {
    forall p | p in c'.nodes && c'.nodes[p].id >= u.oldNextId
      ensures c'.nodes[p].mtime >= u.ctime
    {
      if HasBackup(c, v, vOld, p) {
        var b :| Restores(c, v, vOld, b, p);
        if c.oldValues[b].mtime < u.ctime {
          assert false;
        }
      }
    }
  }

  lemma CoveredAfterUndo<V>(c: Core<V>, home: map<nat, Ptr>, u: UndoState, oldEnd: nat, removedEnd: nat, s: Snapshot<V>,
                            v: UndoState, vOld: nat, vRemoved: nat, t: Snapshot<V>, c': Core<V>)
    requires Session(c, home, u, oldEnd, removedEnd, s) && Session(c, home, v, vOld, vRemoved, t)
    requires oldEnd <= vOld && removedEnd <= vRemoved && u.ctime < v.ctime
    requires Restored(c, v, vOld, vRemoved, c'.nodes)
    requires c'.oldValues == c.oldValues[..vOld] && c'.removedValues == c.removedValues[..vRemoved]
    requires forall p :: p in c'.nodes ==> InScope(c', removedEnd, p) == InScope(c, removedEnd, p)
    ensures Covered(c', u, oldEnd, removedEnd, s)
  {
    forall p | p in c'.nodes && c'.nodes[p].id in s.rows && InScope(c', removedEnd, p)
      ensures if c'.nodes[p].mtime < u.ctime then c'.nodes[p].value == s.rows[c'.nodes[p].id] else HasBackup(c', u, oldEnd, p)
    {
      if HasBackup(c, v, vOld, p) {
        RestoredNode(c, home, u, oldEnd, removedEnd, s, v, vOld, vRemoved, t, c', p);
      } else if c.nodes[p].mtime >= u.ctime {
        var a :| Restores(c, u, oldEnd, a, p);
        assert !Restores(c, v, vOld, a, p);
        assert Restores(c', u, oldEnd, a, p);
      }
    }
  }

  lemma RestoredNode<V>(c: Core<V>, home: map<nat, Ptr>, u: UndoState, oldEnd: nat, removedEnd: nat, s: Snapshot<V>,
                        v: UndoState, vOld: nat, vRemoved: nat, t: Snapshot<V>, c': Core<V>, p: Ptr)
    requires removedEnd <= vRemoved <= |c.removedValues| && oldEnd <= vOld <= |c.oldValues|
    requires Covered(c, u, oldEnd, removedEnd, s) && Good(c, u, oldEnd, removedEnd, s)
    requires Ordered(c, v, vOld) && u.ctime < v.ctime
    requires Restored(c, v, vOld, vRemoved, c'.nodes)
    requires c'.oldValues == c.oldValues[..vOld]
    requires p in c'.nodes && c'.nodes[p].id in s.rows && InScope(c, removedEnd, p) && HasBackup(c, v, vOld, p)
    ensures if c'.nodes[p].mtime < u.ctime then c'.nodes[p].value == s.rows[c'.nodes[p].id] else HasBackup(c', u, oldEnd, p)
  {
    var b :| Restores(c, v, vOld, b, p);
    if c.oldValues[b].mtime < u.ctime {
      assert GoodBackup(c, removedEnd, s, b);
    } else {
      assert c.nodes[p].mtime >= v.ctime;
      var a :| Restores(c, u, oldEnd, a, p);
      OneBackup(c, v, vOld, a, b, p);
      assert Restores(c', u, oldEnd, a, p);
    }
  }

  /** A node has one backup per session; an older session's one lies further down. */
  lemma OneBackup<V>(c: Core<V>, v: UndoState, vOld: nat, a: nat, b: nat, p: Ptr)
    requires Ordered(c, v, vOld) && Restores(c, v, vOld, b, p)
    requires a < |c.oldValues| && c.oldValues[a].current == p && c.oldValues[a].mtime < v.ctime && a != b
    ensures a < vOld
  {
  }

  lemma OrderedAfterUndo<V>(c: Core<V>, u: UndoState, oldEnd: nat, v: UndoState, vOld: nat, vRemoved: nat, c': Core<V>)
    requires Ordered(c, u, oldEnd) && oldEnd <= vOld <= |c.oldValues| && vRemoved <= |c.removedValues|
    requires Restored(c, v, vOld, vRemoved, c'.nodes) && c'.oldValues == c.oldValues[..vOld]
    ensures Ordered(c', u, oldEnd)
  {
    forall a | oldEnd <= a < |c'.oldValues| && c'.oldValues[a].current in c'.nodes
      ensures c'.nodes[c'.oldValues[a].current].mtime >= u.ctime
    {
      var p := c.oldValues[a].current;
      if HasBackup(c, v, vOld, p) {
        var b :| Restores(c, v, vOld, b, p);
        assert a < b && c.oldValues[a].current == c.oldValues[b].current;
      }
    }
  }
}
