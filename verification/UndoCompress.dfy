/** Forgetting history: compressing the newest session, squashing, and committing. */
module UndoCompress {
  import opened OrderedIndex
  import opened UndoModel
  import opened UndoInvariant

  function Prefix<V>(g: Shadow<V>, n: nat): Shadow<V>
    requires n <= |g.oldEnds| && n <= |g.removedEnds| && n <= |g.saved|
  {
    g.(oldEnds := g.oldEnds[..n], removedEnds := g.removedEnds[..n], saved := g.saved[..n])
  }

  /** Dropping the newest sessions is always allowed. */
  lemma FewerSessions<V>(c: Core<V>, g: Shadow<V>, m: nat, n: nat, stack: seq<UndoState>)
    requires Inv(c, g, m) && n <= m && n <= |stack| <= |c.undoStack| && stack == c.undoStack[..|stack|]
    ensures Inv(c.(undoStack := stack), Prefix(g, n), n)
  {
    hide Session;
    var c' := c.(undoStack := stack);
    var g' := Prefix(g, n);
    assert Shape(c', g', n) by {
      forall i | 0 <= i < n
        ensures EndsAt(c', g', i)
      {
        assert EndsAt(c, g, i);
      }
    }
    forall i | 0 <= i < n
      ensures SessionAt(c', g', i)
    {
      assert SessionAt(c, g, i);
      SessionSameLists(c, c', g.home, c.undoStack[i], g.oldEnds[i], g.removedEnds[i], g.saved[i]);
    }
  }

  // ----- dropping a backup that the newest kept session does not need -----

  lemma AfterDropBackup<V>(c: Core<V>, g: Shadow<V>, n: nat, a: nat)
    requires Inv(c, g, n) && n > 0 && a < |c.oldValues| && g.oldEnds[n - 1] <= a
    requires c.oldValues[a].mtime >= c.undoStack[n - 1].ctime
    ensures Inv(c.(oldValues := RemoveAt(c.oldValues, a)), g, n)
  {
    hide Session;
    var c' := c.(oldValues := RemoveAt(c.oldValues, a));
    BaseAfterDropOld(c, g, n, a, c.nodes);
    assert c.(nodes := c.nodes) == c;
    forall i | 0 <= i < n
      ensures SessionAt(c', g, i)
    {
      assert SessionAt(c, g, i) && EndsAt(c, g, i);
      assert c.undoStack[i].ctime <= c.undoStack[n - 1].ctime && g.oldEnds[i] <= g.oldEnds[n - 1];
      SessionAfterDropBackup(c, g.home, c.undoStack[i], g.oldEnds[i], g.removedEnds[i], g.saved[i], a);
    }
  }

  /** The backup list loses an entry above every end, and removed nodes may change value. */
  lemma BaseAfterDropOld<V>(c: Core<V>, g: Shadow<V>, n: nat, a: nat, nodes: map<Ptr, Node<V>>)
    requires Base(c, g, n) && n > 0 && a < |c.oldValues| && g.oldEnds[n - 1] <= a
    requires nodes.Keys == c.nodes.Keys
    requires forall p :: p in nodes ==> nodes[p].id == c.nodes[p].id && nodes[p].erased == c.nodes[p].erased && nodes[p].mtime <= c.monotonic
    requires forall p :: p in nodes && !nodes[p].erased ==> nodes[p].value == c.nodes[p].value
    ensures Base(c.(nodes := nodes, oldValues := RemoveAt(c.oldValues, a)), g, n)
  {
    var c' := c.(nodes := nodes, oldValues := RemoveAt(c.oldValues, a));
    assert Shape(c', g, n) by {
      forall i | 0 <= i < n
        ensures EndsAt(c', g, i)
      {
        assert EndsAt(c, g, i) && g.oldEnds[i] <= g.oldEnds[n - 1];
      }
    }
    assert Arena(c', g);
  }

  lemma SessionAfterDropBackup<V>(c: Core<V>, home: map<nat, Ptr>, u: UndoState, oldEnd: nat, removedEnd: nat, s: Snapshot<V>, a: nat)
    requires Session(c, home, u, oldEnd, removedEnd, s)
    requires oldEnd <= a < |c.oldValues| && c.oldValues[a].mtime >= u.ctime
    ensures Session(c.(oldValues := RemoveAt(c.oldValues, a)), home, u, oldEnd, removedEnd, s)
  {
    var c' := c.(oldValues := RemoveAt(c.oldValues, a));
    forall q | q in c.nodes
      ensures InScope(c', removedEnd, q) == InScope(c, removedEnd, q)
    {
    }
    OthersSurvive(c, c', u, oldEnd, a);
    OrderedAfterDrop(c, u, oldEnd, a);
    forall b | oldEnd <= b < |c'.oldValues| && c'.oldValues[b].mtime < u.ctime
      ensures GoodBackup(c', removedEnd, s, b)
    {
      assert GoodBackup(c, removedEnd, s, if b < a then b else b + 1);
    }
  }

  /** A session keeps every backup but the dropped one. */
  lemma OthersSurvive<V>(c: Core<V>, c': Core<V>, u: UndoState, oldEnd: nat, a: nat)
    requires a < |c.oldValues| && c'.oldValues == RemoveAt(c.oldValues, a)
    ensures forall q :: HasBackup(c, u, oldEnd, q) && !Restores(c, u, oldEnd, a, q) && oldEnd <= a ==> HasBackup(c', u, oldEnd, q)
  {
    forall q | HasBackup(c, u, oldEnd, q) && !Restores(c, u, oldEnd, a, q) && oldEnd <= a
      ensures HasBackup(c', u, oldEnd, q)
    {
      var x :| Restores(c, u, oldEnd, x, q);
      assert Restores(c', u, oldEnd, if x < a then x else x - 1, q);
    }
  }

  lemma OrderedAfterDrop<V>(c: Core<V>, u: UndoState, oldEnd: nat, a: nat)
    requires Ordered(c, u, oldEnd) && oldEnd <= a < |c.oldValues|
    ensures Ordered(c.(oldValues := RemoveAt(c.oldValues, a)), u, oldEnd)
  {
    var c' := c.(oldValues := RemoveAt(c.oldValues, a));
    forall x, y | oldEnd <= x < y < |c'.oldValues| && c'.oldValues[x].current == c'.oldValues[y].current
      ensures c'.oldValues[y].mtime >= u.ctime
    {
      var x0, y0 := if x < a then x else x + 1, if y < a then y else y + 1;
      assert c.oldValues[x0] == c'.oldValues[x] && c.oldValues[y0] == c'.oldValues[y];
    }
  }

  // ----- folding a backup into the removed node it belongs to -----

  lemma AfterFoldBackup<V>(c: Core<V>, g: Shadow<V>, n: nat, a: nat)
    requires Inv(c, g, n) && n > 0 && a < |c.oldValues| && g.oldEnds[n - 1] <= a
    requires c.oldValues[a].mtime < c.undoStack[n - 1].ctime
    requires c.oldValues[a].current in c.nodes && c.nodes[c.oldValues[a].current].erased
    requires forall b :: a < b < |c.oldValues| ==> c.oldValues[b].mtime < c.undoStack[n - 1].ctime
    ensures Inv(Folded(c, a), g, n)
  {
    var c' := Folded(c, a);
    BaseAfterDropOld(c, g, n, a, c'.nodes);
    assert SessionAt(c, g, n - 1);
    NoLaterBackup(c, c.undoStack[n - 1], g.oldEnds[n - 1], a);
    EndsOrdered(c, g, n);
    hide Session, Base;
    forall i | 0 <= i < n
      ensures SessionAt(c', g, i)
    {
      assert SessionAt(c, g, i) && g.oldEnds[i] <= g.oldEnds[n - 1];
      SessionAfterFoldBackup(c, g.home, c.undoStack[i], g.oldEnds[i], g.removedEnds[i], g.saved[i], a);
    }
  }

  lemma EndsOrdered<V>(c: Core<V>, g: Shadow<V>, n: nat)
    requires Shape(c, g, n) && n > 0
    ensures |g.oldEnds| == |g.removedEnds| == |g.saved| == n <= |c.undoStack|
    ensures forall i :: 0 <= i < n ==> g.oldEnds[i] <= g.oldEnds[n - 1]
  {
  }

  lemma NoLaterBackup<V>(c: Core<V>, u: UndoState, oldEnd: nat, a: nat)
    requires Ordered(c, u, oldEnd) && oldEnd <= a < |c.oldValues|
    requires forall b :: a < b < |c.oldValues| ==> c.oldValues[b].mtime < u.ctime
    ensures forall b :: a < b < |c.oldValues| ==> c.oldValues[b].current != c.oldValues[a].current
  {
  }

  /** The backup goes into the node and out of the list. */
  function Folded<V>(c: Core<V>, a: nat): Core<V>
    requires a < |c.oldValues| && c.oldValues[a].current in c.nodes
  {
    var o := c.oldValues[a];
    c.(nodes := c.nodes[o.current := c.nodes[o.current].(value := o.value, mtime := o.mtime)], oldValues := RemoveAt(c.oldValues, a))
  }

  lemma SessionAfterFoldBackup<V>(c: Core<V>, home: map<nat, Ptr>, u: UndoState, oldEnd: nat, removedEnd: nat, s: Snapshot<V>, a: nat)
    requires Session(c, home, u, oldEnd, removedEnd, s)
    requires oldEnd <= a < |c.oldValues| && c.oldValues[a].current in c.nodes
    requires forall b :: a < b < |c.oldValues| ==> c.oldValues[b].current != c.oldValues[a].current
    ensures Session(Folded(c, a), home, u, oldEnd, removedEnd, s)
  {
    ScopeAfterFold(c, home, u, removedEnd, s, oldEnd, a);
    CoveredAfterFold(c, u, oldEnd, removedEnd, s, a);
    OrderedAfterFold(c, u, oldEnd, a);
    GoodAfterFold(c, u, oldEnd, removedEnd, s, a);
    hide Scope, Covered, Ordered, Good;
  }

  lemma SameScope<V>(c: Core<V>, removedEnd: nat, a: nat)
    requires a < |c.oldValues| && c.oldValues[a].current in c.nodes && removedEnd <= |c.removedValues|
    ensures forall q :: q in c.nodes ==> InScope(Folded(c, a), removedEnd, q) == InScope(c, removedEnd, q)
  {
  }

  lemma ScopeAfterFold<V>(c: Core<V>, home: map<nat, Ptr>, u: UndoState, removedEnd: nat, s: Snapshot<V>, oldEnd: nat, a: nat)
    requires removedEnd <= |c.removedValues| && Scope(c, home, u, removedEnd, s) && Good(c, u, oldEnd, removedEnd, s)
    requires oldEnd <= a < |c.oldValues| && c.oldValues[a].current in c.nodes
    ensures Scope(Folded(c, a), home, u, removedEnd, s)
  {
    hide InScope;
    SameScope(c, removedEnd, a);
    if c.oldValues[a].mtime < u.ctime { assert GoodBackup(c, removedEnd, s, a); }
  }

  lemma CoveredAfterFold<V>(c: Core<V>, u: UndoState, oldEnd: nat, removedEnd: nat, s: Snapshot<V>, a: nat)
    requires removedEnd <= |c.removedValues| && Covered(c, u, oldEnd, removedEnd, s) && Good(c, u, oldEnd, removedEnd, s)
    requires Ordered(c, u, oldEnd) && oldEnd <= a < |c.oldValues| && c.oldValues[a].current in c.nodes
    ensures Covered(Folded(c, a), u, oldEnd, removedEnd, s)
  {
    hide InScope, HasBackup;
    SameScope(c, removedEnd, a);
    OthersSurvive(c, Folded(c, a), u, oldEnd, a);
    if c.oldValues[a].mtime < u.ctime { assert GoodBackup(c, removedEnd, s, a); }
  }

  lemma OrderedAfterFold<V>(c: Core<V>, u: UndoState, oldEnd: nat, a: nat)
    requires Ordered(c, u, oldEnd) && oldEnd <= a < |c.oldValues| && c.oldValues[a].current in c.nodes
    requires forall b :: a < b < |c.oldValues| ==> c.oldValues[b].current != c.oldValues[a].current
    ensures Ordered(Folded(c, a), u, oldEnd)
  {
    OrderedAfterDrop(c, u, oldEnd, a);
    var c' := Folded(c, a);
    forall x | oldEnd <= x < |c'.oldValues| && c'.oldValues[x].current in c'.nodes
      ensures c'.nodes[c'.oldValues[x].current].mtime >= u.ctime
    {
      var x0 := if x < a then x else x + 1;
      assert c.oldValues[x0] == c'.oldValues[x];
    }
  }

  lemma GoodAfterFold<V>(c: Core<V>, u: UndoState, oldEnd: nat, removedEnd: nat, s: Snapshot<V>, a: nat)
    requires removedEnd <= |c.removedValues| && Good(c, u, oldEnd, removedEnd, s)
    requires oldEnd <= a < |c.oldValues| && c.oldValues[a].current in c.nodes
    ensures Good(Folded(c, a), u, oldEnd, removedEnd, s)
  {
    hide InScope;
    SameScope(c, removedEnd, a);
    var c' := Folded(c, a);
    forall b | oldEnd <= b < |c'.oldValues| && c'.oldValues[b].mtime < u.ctime
      ensures GoodBackup(c', removedEnd, s, b)
    {
      assert c'.oldValues[b] == c.oldValues[if b < a then b else b + 1];
      assert GoodBackup(c, removedEnd, s, if b < a then b else b + 1);
    }
  }

  // ----- disposing a removed node that is newer than the kept sessions -----

  lemma AfterDropRemoved<V>(c: Core<V>, g: Shadow<V>, n: nat, k: nat)
    requires Inv(c, g, n) && n > 0 && k < |c.removedValues| && g.removedEnds[n - 1] <= k
    requires c.removedValues[k] in c.nodes && c.nodes[c.removedValues[k]].id >= c.undoStack[n - 1].oldNextId
    ensures var p := c.removedValues[k];
            Inv(c.(nodes := c.nodes - {p}, removedValues := RemoveAt(c.removedValues, k)), g.(home := g.home - {c.nodes[p].id}), n)
  {
    hide Session;
    var p := c.removedValues[k];
    var c' := c.(nodes := c.nodes - {p}, removedValues := RemoveAt(c.removedValues, k));
    var g' := g.(home := g.home - {c.nodes[p].id});
    BaseAfterDropRemoved(c, g, n, k);
    forall i | 0 <= i < n
      ensures SessionAt(c', g', i)
    {
      assert SessionAt(c, g, i) && EndsAt(c, g, i);
      assert c.undoStack[i].oldNextId <= c.undoStack[n - 1].oldNextId && g.removedEnds[i] <= g.removedEnds[n - 1];
      SessionAfterDropRemoved(c, g.home, c.undoStack[i], g.oldEnds[i], g.removedEnds[i], g.saved[i], k);
    }
  }

  lemma BaseAfterDropRemoved<V>(c: Core<V>, g: Shadow<V>, n: nat, k: nat)
    requires Base(c, g, n) && n > 0 && k < |c.removedValues| && g.removedEnds[n - 1] <= k
    requires c.removedValues[k] in c.nodes
    ensures var p := c.removedValues[k];
            Base(c.(nodes := c.nodes - {p}, removedValues := RemoveAt(c.removedValues, k)), g.(home := g.home - {c.nodes[p].id}), n)
  {
    var p := c.removedValues[k];
    var c' := c.(nodes := c.nodes - {p}, removedValues := RemoveAt(c.removedValues, k));
    var g' := g.(home := g.home - {c.nodes[p].id});
    ShapeAfterDropRemoved(c, g, n, k);
    ArenaAfterDropRemoved(c, g, k);
    hide Shape, Arena, Current;
  }

  lemma ArenaAfterDropRemoved<V>(c: Core<V>, g: Shadow<V>, k: nat)
    requires Arena(c, g) && Current(c, g) && NoDuplicates(c.removedValues) && k < |c.removedValues|
    requires c.removedValues[k] in c.nodes
    ensures var p := c.removedValues[k];
            var c' := c.(nodes := c.nodes - {p}, removedValues := RemoveAt(c.removedValues, k));
            var g' := g.(home := g.home - {c.nodes[p].id});
            Arena(c', g') && Current(c', g')
  {
    var p := c.removedValues[k];
    var c' := c.(nodes := c.nodes - {p}, removedValues := RemoveAt(c.removedValues, k));
    var g' := g.(home := g.home - {c.nodes[p].id});
    RemovedOne(c.removedValues, k);
    hide RemoveAt, NoDuplicates;
    assert p in c.removedValues;
    assert NodesKnown(c', g');
    hide NodesKnown;
    assert RemovedKnown(c');
    hide RemovedKnown;
    assert HomesKnown(c', g');
    hide HomesKnown;
    HomeAfterDrop(c, g, p, c', g');
  }

  lemma HomeAfterDrop<V>(c: Core<V>, g: Shadow<V>, p: Ptr, c': Core<V>, g': Shadow<V>)
    requires Arena(c, g) && Current(c, g) && p in c.removedValues && Arena(c', g')
    requires c'.nodes == c.nodes - {p} && g'.home == g.home - {c.nodes[p].id} && g'.rows == g.rows
    ensures Current(c', g')
  {
  }

  lemma ShapeAfterDropRemoved<V>(c: Core<V>, g: Shadow<V>, n: nat, k: nat)
    requires Shape(c, g, n) && n > 0 && k < |c.removedValues| && g.removedEnds[n - 1] <= k
    requires c.removedValues[k] in c.nodes
    ensures var p := c.removedValues[k];
            Shape(c.(nodes := c.nodes - {p}, removedValues := RemoveAt(c.removedValues, k)), g.(home := g.home - {c.nodes[p].id}), n)
  {
    var p := c.removedValues[k];
    var c' := c.(nodes := c.nodes - {p}, removedValues := RemoveAt(c.removedValues, k));
    var g' := g.(home := g.home - {c.nodes[p].id});
    RemovedOne(c.removedValues, k);
    forall i | 0 <= i < n
      ensures EndsAt(c', g', i)
    {
      assert EndsAt(c, g, i) && g.removedEnds[i] <= g.removedEnds[n - 1];
    }
  }

  lemma RemovedOne(s: seq<Ptr>, k: nat)
    requires k < |s| && NoDuplicates(s)
    ensures NoDuplicates(RemoveAt(s, k))
    ensures forall q :: q in RemoveAt(s, k) <==> q in s && q != s[k]
  {
    assert s == s[..k] + [s[k]] + s[k + 1..];
  }

  lemma RemovedFromTail(s: seq<Ptr>, k: nat, e: nat)
    requires e <= k < |s|
    ensures forall q :: q != s[k] ==> (q in RemoveAt(s, k)[e..] <==> q in s[e..])
  {
    assert RemoveAt(s, k)[e..] == s[e..k] + s[k + 1..];
    assert s[e..] == s[e..k] + [s[k]] + s[k + 1..];
  }

  lemma SessionAfterDropRemoved<V>(c: Core<V>, home: map<nat, Ptr>, u: UndoState, oldEnd: nat, removedEnd: nat, s: Snapshot<V>, k: nat)
    requires Session(c, home, u, oldEnd, removedEnd, s)
    requires removedEnd <= k < |c.removedValues| && NoDuplicates(c.removedValues)
    requires c.removedValues[k] in c.nodes && c.nodes[c.removedValues[k]].id >= u.oldNextId
    ensures var p := c.removedValues[k];
            Session(c.(nodes := c.nodes - {p}, removedValues := RemoveAt(c.removedValues, k)), home - {c.nodes[p].id},
                    u, oldEnd, removedEnd, s)
  {
    var p := c.removedValues[k];
    var c' := c.(nodes := c.nodes - {p}, removedValues := RemoveAt(c.removedValues, k));
    RemovedOne(c.removedValues, k);
    RemovedFromTail(c.removedValues, k, removedEnd);
    forall q | q in c'.nodes
      ensures InScope(c', removedEnd, q) == InScope(c, removedEnd, q)
    {
    }
    assert Covered(c', u, oldEnd, removedEnd, s) by {
      BackupsSurvive(c, c', u, oldEnd);
    }
    forall a | oldEnd <= a < |c.oldValues| && c.oldValues[a].mtime < u.ctime
      ensures GoodBackup(c', removedEnd, s, a)
    {
      assert GoodBackup(c, removedEnd, s, a);
    }
  }

  // ----- forgetting everything -----

  function Live<V>(nodes: map<Ptr, Node<V>>): map<Ptr, Node<V>> {
    map p | p in nodes && !nodes[p].erased :: nodes[p]
  }

  function LiveHome<V>(home: map<nat, Ptr>, nodes: map<Ptr, Node<V>>): map<nat, Ptr> {
    map id | id in home && home[id] in nodes :: home[id]
  }

  lemma AfterForgetAll<V>(c: Core<V>, g: Shadow<V>, n: nat)
    requires Base(c, g, n)
    ensures Inv(Core(Live(c.nodes), [], [], [], c.nextId, c.monotonic),
                Shadow(LiveHome(g.home, Live(c.nodes)), [], [], g.rows, []), 0)
  {
  }

  // ----- commit: the oldest sessions go, and with them the far ends of the lists -----

  lemma AfterDropSessions<V>(c: Core<V>, g: Shadow<V>, n: nat, k: nat)
    requires Inv(c, g, n) && n == |c.undoStack| && k <= n
    ensures Inv(c.(undoStack := c.undoStack[k..]),
                g.(oldEnds := g.oldEnds[k..], removedEnds := g.removedEnds[k..], saved := g.saved[k..]), n - k)
  {
    hide Session;
    var c' := c.(undoStack := c.undoStack[k..]);
    var g' := g.(oldEnds := g.oldEnds[k..], removedEnds := g.removedEnds[k..], saved := g.saved[k..]);
    assert Shape(c', g', n - k) by {
      forall i | 0 <= i < n - k
        ensures EndsAt(c', g', i)
      {
        assert EndsAt(c, g, k + i);
      }
    }
    forall i | 0 <= i < n - k
      ensures SessionAt(c', g', i)
    {
      assert SessionAt(c, g, k + i);
      SessionSameLists(c, c', g.home, c.undoStack[k + i], g.oldEnds[k + i], g.removedEnds[k + i], g.saved[k + i]);
    }
  }

  /** Every end moves down by `d`. */
  function Shifted(ends: seq<nat>, d: nat): (r: seq<nat>)
    requires forall i :: 0 <= i < |ends| ==> d <= ends[i]
    ensures |r| == |ends| && forall i :: 0 <= i < |ends| ==> r[i] == ends[i] - d
  {
    seq(|ends|, i requires 0 <= i < |ends| => ends[i] - d)
  }

  /** The oldest `d` backups go; the element below each end stays. */
  lemma AfterCutBackups<V>(c: Core<V>, g: Shadow<V>, n: nat, d: nat)
    requires Inv(c, g, n) && n == |c.undoStack| && d <= |c.oldValues|
    requires forall i :: 0 <= i < n ==> d < g.oldEnds[i] || d == 0
    ensures Inv(c.(oldValues := c.oldValues[d..]), g.(oldEnds := Shifted(g.oldEnds, d)), n)
  {
    hide Session;
    BaseAfterCutBackups(c, g, n, d);
    forall i | 0 <= i < n
      ensures SessionAt(c.(oldValues := c.oldValues[d..]), g.(oldEnds := Shifted(g.oldEnds, d)), i)
    {
      assert SessionAt(c, g, i);
      SessionAfterCutBackups(c, g.home, c.undoStack[i], g.oldEnds[i], g.removedEnds[i], g.saved[i], d);
    }
  }

  lemma BaseAfterCutBackups<V>(c: Core<V>, g: Shadow<V>, n: nat, d: nat)
    requires Base(c, g, n) && n == |c.undoStack| && d <= |c.oldValues|
    requires forall i :: 0 <= i < n ==> d < g.oldEnds[i] || d == 0
    ensures Base(c.(oldValues := c.oldValues[d..]), g.(oldEnds := Shifted(g.oldEnds, d)), n)
  {
    var c' := c.(oldValues := c.oldValues[d..]);
    var g' := g.(oldEnds := Shifted(g.oldEnds, d));
    assert Shape(c', g', n) by {
      forall i | 0 <= i < n
        ensures EndsAt(c', g', i)
      {
        assert EndsAt(c, g, i);
      }
    }
    assert Arena(c', g');
    assert Current(c', g');
  }

  lemma SessionAfterCutBackups<V>(c: Core<V>, home: map<nat, Ptr>, u: UndoState, oldEnd: nat, removedEnd: nat, s: Snapshot<V>, d: nat)
    requires Session(c, home, u, oldEnd, removedEnd, s) && d <= oldEnd
    ensures Session(c.(oldValues := c.oldValues[d..]), home, u, oldEnd - d, removedEnd, s)
  {
    var c' := c.(oldValues := c.oldValues[d..]);
    forall q | q in c.nodes
      ensures InScope(c', removedEnd, q) == InScope(c, removedEnd, q)
    {
    }
    ShiftedBackups(c, c', u, oldEnd, d);
    forall a | oldEnd - d <= a < |c'.oldValues| && c'.oldValues[a].mtime < u.ctime
      ensures GoodBackup(c', removedEnd, s, a)
    {
      assert GoodBackup(c, removedEnd, s, a + d);
    }
    assert Ordered(c', u, oldEnd - d) by {
      OrderedAfterCut(c, u, oldEnd, d);
    }
  }

  lemma OrderedAfterCut<V>(c: Core<V>, u: UndoState, oldEnd: nat, d: nat)
    requires Ordered(c, u, oldEnd) && d <= oldEnd <= |c.oldValues|
    ensures Ordered(c.(oldValues := c.oldValues[d..]), u, oldEnd - d)
  {
    var c' := c.(oldValues := c.oldValues[d..]);
    forall x, y | oldEnd - d <= x < y < |c'.oldValues| && c'.oldValues[x].current == c'.oldValues[y].current
      ensures c'.oldValues[y].mtime >= u.ctime
    {
      assert c.oldValues[x + d] == c'.oldValues[x] && c.oldValues[y + d] == c'.oldValues[y];
    }
  }

  lemma ShiftedBackups<V>(c: Core<V>, c': Core<V>, u: UndoState, oldEnd: nat, d: nat)
    requires d <= oldEnd <= |c.oldValues| && c'.oldValues == c.oldValues[d..]
    ensures forall q :: HasBackup(c, u, oldEnd, q) ==> HasBackup(c', u, oldEnd - d, q)
  {
    forall q | HasBackup(c, u, oldEnd, q)
      ensures HasBackup(c', u, oldEnd - d, q)
    {
      var x :| Restores(c, u, oldEnd, x, q);
      assert Restores(c', u, oldEnd - d, x - d, q);
    }
  }

  /** The nodes left when the oldest `d` removed nodes are disposed. */
  ghost predicate DisposedFirst<V>(c: Core<V>, d: nat, nodes: map<Ptr, Node<V>>)
    requires d <= |c.removedValues|
  {
    && (forall p :: p in nodes <==> p in c.nodes && p !in c.removedValues[..d])
    && (forall p :: p in nodes ==> nodes[p] == c.nodes[p])
  }

  lemma AfterCutRemoved<V>(c: Core<V>, g: Shadow<V>, n: nat, d: nat, nodes: map<Ptr, Node<V>>)
    requires Inv(c, g, n) && n == |c.undoStack| && d <= |c.removedValues|
    requires forall i :: 0 <= i < n ==> d < g.removedEnds[i] || d == 0
    requires DisposedFirst(c, d, nodes)
    ensures Inv(c.(nodes := nodes, removedValues := c.removedValues[d..]),
                g.(home := LiveHome(g.home, nodes), removedEnds := Shifted(g.removedEnds, d)), n)
  {
    hide Session;
    BaseAfterCutRemoved(c, g, n, d, nodes);
    assert NoDuplicates(c.removedValues) && forall p :: p in c.removedValues ==> p in c.nodes && c.nodes[p].erased;
    forall i | 0 <= i < n
      ensures SessionAt(c.(nodes := nodes, removedValues := c.removedValues[d..]),
                        g.(home := LiveHome(g.home, nodes), removedEnds := Shifted(g.removedEnds, d)), i)
    {
      assert SessionAt(c, g, i);
      SessionAtAfterCutRemoved(c, g, n, d, nodes, i);
    }
  }

  lemma BaseAfterCutRemoved<V>(c: Core<V>, g: Shadow<V>, n: nat, d: nat, nodes: map<Ptr, Node<V>>)
    requires Base(c, g, n) && n == |c.undoStack| && d <= |c.removedValues|
    requires forall i :: 0 <= i < n ==> d < g.removedEnds[i] || d == 0
    requires DisposedFirst(c, d, nodes)
    ensures Base(c.(nodes := nodes, removedValues := c.removedValues[d..]),
                g.(home := LiveHome(g.home, nodes), removedEnds := Shifted(g.removedEnds, d)), n)
  {
    var c' := c.(nodes := nodes, removedValues := c.removedValues[d..]);
    var g' := g.(home := LiveHome(g.home, nodes), removedEnds := Shifted(g.removedEnds, d));
    SplitAt(c.removedValues, d);
    assert Shape(c', g', n) by {
      forall i | 0 <= i < n
        ensures EndsAt(c', g', i)
      {
        assert EndsAt(c, g, i);
      }
    }
    assert Arena(c', g');
    assert Current(c', g');
  }

  lemma SessionAtAfterCutRemoved<V>(c: Core<V>, g: Shadow<V>, n: nat, d: nat, nodes: map<Ptr, Node<V>>, i: nat)
    requires |c.undoStack| == |g.oldEnds| == |g.removedEnds| == |g.saved| == n && i < n && SessionAt(c, g, i)
    requires NoDuplicates(c.removedValues) && forall p :: p in c.removedValues ==> p in c.nodes && c.nodes[p].erased
    requires d <= |c.removedValues| && forall j :: 0 <= j < n ==> d <= g.removedEnds[j]
    requires DisposedFirst(c, d, nodes)
    ensures SessionAt(c.(nodes := nodes, removedValues := c.removedValues[d..]),
                      g.(home := LiveHome(g.home, nodes), removedEnds := Shifted(g.removedEnds, d)), i)
  {
    SessionAfterCutRemoved(c, g.home, c.undoStack[i], g.oldEnds[i], g.removedEnds[i], g.saved[i], d, nodes);
  }

  lemma SplitAt(s: seq<Ptr>, k: nat)
    requires k <= |s| && NoDuplicates(s)
    ensures forall p :: p in s <==> p in s[..k] || p in s[k..]
    ensures forall p :: p in s[..k] ==> p !in s[k..]
    ensures NoDuplicates(s[k..])
  {
    assert s == s[..k] + s[k..];
  }

  lemma SessionAfterCutRemoved<V>(c: Core<V>, home: map<nat, Ptr>, u: UndoState, oldEnd: nat, removedEnd: nat, s: Snapshot<V>,
                                  d: nat, nodes: map<Ptr, Node<V>>)
    requires Session(c, home, u, oldEnd, removedEnd, s) && NoDuplicates(c.removedValues) && d <= removedEnd
    requires forall p :: p in c.removedValues ==> p in c.nodes && c.nodes[p].erased
    requires DisposedFirst(c, d, nodes)
    ensures Session(c.(nodes := nodes, removedValues := c.removedValues[d..]), LiveHome(home, nodes), u, oldEnd, removedEnd - d, s)
  {
    var c' := c.(nodes := nodes, removedValues := c.removedValues[d..]);
    var home' := LiveHome(home, nodes);
    InScopeAfterCut(c, removedEnd, d, nodes);
    assert Scope(c', home', u, removedEnd - d, s);
    assert Covered(c', u, oldEnd, removedEnd - d, s) by {
      BackupsSurvive(c, c', u, oldEnd);
    }
    forall a | oldEnd <= a < |c'.oldValues| && c'.oldValues[a].mtime < u.ctime
      ensures GoodBackup(c', removedEnd - d, s, a)
    {
      assert GoodBackup(c, removedEnd, s, a);
    }
  }

  lemma InScopeAfterCut<V>(c: Core<V>, removedEnd: nat, d: nat, nodes: map<Ptr, Node<V>>)
    requires d <= removedEnd <= |c.removedValues| && NoDuplicates(c.removedValues)
    requires forall p :: p in c.removedValues ==> p in c.nodes && c.nodes[p].erased
    requires DisposedFirst(c, d, nodes)
    ensures var c' := c.(nodes := nodes, removedValues := c.removedValues[d..]);
            && (forall q :: q in nodes ==> InScope(c', removedEnd - d, q) == InScope(c, removedEnd, q))
            && (forall q :: q in c.nodes && InScope(c, removedEnd, q) ==> q in nodes)
  {
    var r := c.removedValues;
    SplitAt(r, d);
    assert r[d..][removedEnd - d..] == r[removedEnd..];
    assert r[d..] == r[d..removedEnd] + r[removedEnd..];
  }
}
