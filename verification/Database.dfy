/** Several undo tables under one database, and its sessions. */
module Databases {
  import opened Options
  import opened UndoModel
  import opened UndoLaws
  import opened UndoTable
  import opened UndoMeaning

  // ----- what a database means -----

  /** A call on one table's rows, or one that goes to every table. */
  datatype DbOp<V> = OnRow(table: nat, op: Op<V>) | OnAll(op: Op<V>)

  predicate IsRowOp<V>(op: Op<V>) { op.Emplace? || op.Modify? || op.Remove? }

  ghost function StepAll<V>(exts: seq<Extractors<V>>, ms: seq<Model<V>>, op: Op<V>): (r: Option<seq<Model<V>>>)
    requires |exts| == |ms|
    ensures r.Some? ==> |r.value| == |ms|
  {
    if forall n :: 0 <= n < |ms| ==> Step(exts[n], ms[n], op).Some? then
      Some(seq(|ms|, n requires 0 <= n < |ms| && Step(exts[n], ms[n], op).Some? => Step(exts[n], ms[n], op).value))
    else None
  }

  ghost function DbStep<V>(exts: seq<Extractors<V>>, ms: seq<Model<V>>, op: DbOp<V>): (r: Option<seq<Model<V>>>)
    requires |exts| == |ms|
    ensures r.Some? ==> |r.value| == |ms|
  {
    match op
    case OnRow(n, o) =>
      if n < |ms| && IsRowOp(o) && Step(exts[n], ms[n], o).Some? then Some(ms[n := Step(exts[n], ms[n], o).value]) else None
    case OnAll(o) => if IsRowOp(o) then None else StepAll(exts, ms, o)
  }

  ghost function DbRun<V>(exts: seq<Extractors<V>>, ms: seq<Model<V>>, ops: seq<DbOp<V>>): (r: Option<seq<Model<V>>>)
    requires |exts| == |ms|
    ensures r.Some? ==> |r.value| == |ms|
    decreases |ops|
  {
    if ops == [] then Some(ms)
    else
      var r := DbStep(exts, ms, ops[0]);
      if r.None? then None else DbRun(exts, r.value, ops[1..])
  }

  /** All tables are at one revision and have as many sessions. */
  predicate Lockstep<V>(ms: seq<Model<V>>) {
    forall i, j :: 0 <= i < |ms| && 0 <= j < |ms| ==> ms[i].revision == ms[j].revision && |ms[i].saved| == |ms[j].saved|
  }

  predicate Matches<V>(ms: seq<Model<V>>, m: Model<V>) {
    forall i :: 0 <= i < |ms| ==> ms[i].revision == m.revision && |ms[i].saved| == |m.saved|
  }

  lemma MatchingAdded<V>(ms: seq<Model<V>>, m: Model<V>)
    ensures Lockstep(ms + [m]) <==> Lockstep(ms) && Matches(ms, m)
  {
    if Lockstep(ms + [m]) {
      forall i, j | 0 <= i < |ms| && 0 <= j < |ms|
        ensures ms[i].revision == ms[j].revision && |ms[i].saved| == |ms[j].saved|
      {
        assert (ms + [m])[i] == ms[i] && (ms + [m])[j] == ms[j];
      }
      forall i | 0 <= i < |ms| ensures ms[i].revision == m.revision && |ms[i].saved| == |m.saved| {
        assert (ms + [m])[i] == ms[i] && (ms + [m])[|ms|] == m;
      }
    }
  }

  /** Tables in lockstep stay so. */
  lemma {:induction false} LockstepKept<V>(exts: seq<Extractors<V>>, ms: seq<Model<V>>, ops: seq<DbOp<V>>)
    requires |exts| == |ms| && Lockstep(ms) && DbRun(exts, ms, ops).Some?
    ensures Lockstep(DbRun(exts, ms, ops).value)
    decreases |ops|
  {
    if ops != [] {
      LockstepStep(exts, ms, ops[0]);
      LockstepKept(exts, DbStep(exts, ms, ops[0]).value, ops[1..]);
    }
  }

  lemma LockstepStep<V>(exts: seq<Extractors<V>>, ms: seq<Model<V>>, op: DbOp<V>)
    requires |exts| == |ms| && Lockstep(ms) && DbStep(exts, ms, op).Some?
    ensures Lockstep(DbStep(exts, ms, op).value)
  {
    var r := DbStep(exts, ms, op).value;
    forall i, j | 0 <= i < |ms| && 0 <= j < |ms|
      ensures r[i].revision == r[j].revision && |r[i].saved| == |r[j].saved|
    {
      match op
      case OnRow(n, o) =>
        RowOpsKeepSessions(exts[n], ms[n], o);
      case OnAll(o) =>
        StepsAlike(exts[i], exts[j], ms[i], ms[j], o);
    }
  }

  lemma RowOpsKeepSessions<V>(exts: Extractors<V>, m: Model<V>, op: Op<V>)
    requires IsRowOp(op) && Step(exts, m, op).Some?
    ensures var r := Step(exts, m, op).value; r.revision == m.revision && r.saved == m.saved
  {
  }

  /** In lockstep, a call to every table does to each what it does to the others, and all
      accept it or all refuse it. */
  lemma StepsAlike<V>(extsA: Extractors<V>, extsB: Extractors<V>, a: Model<V>, b: Model<V>, op: Op<V>)
    requires !IsRowOp(op) && a.revision == b.revision && |a.saved| == |b.saved|
    ensures Step(extsA, a, op).Some? <==> Step(extsB, b, op).Some?
    ensures Step(extsA, a, op).Some? ==>
              var ra, rb := Step(extsA, a, op).value, Step(extsB, b, op).value;
              ra.revision == rb.revision && |ra.saved| == |rb.saved|
  {
    hide Step;
    SizesAfter(extsA, a, op);
    SizesAfter(extsB, b, op);
  }

  /** A revision and a number of sessions after a call; these depend on nothing else. */
  function Sizes<V>(revision: int, n: nat, op: Op<V>): (int, int)
    requires !IsRowOp(op)
  {
    match op
    case AddSession => (revision + 1, n + 1)
    case Commit(to) => (revision, Min(n, revision - Min(to, revision)))
    case SetRevision(to) => (to, n)
    case _ => if n == 0 then (revision, n) else (revision - 1, n - 1)
  }

  lemma SizesAfter<V>(exts: Extractors<V>, m: Model<V>, op: Op<V>)
    requires !IsRowOp(op)
    ensures Step(exts, m, op).Some? <==> (op.SetRevision? ==> |m.saved| == 0 && m.revision <= op.to < 0x8000_0000_0000_0000)
    ensures Step(exts, m, op).Some? ==>
              var r := Step(exts, m, op).value; (r.revision, |r.saved|) == Sizes(m.revision, |m.saved|, op)
  {
    match op
    case AddSession =>
    case Undo =>
    case Squash =>
    case Commit(to) =>
    case SetRevision(to) =>
  }

  /** The calls one table sees. */
  function Seen<V>(ops: seq<DbOp<V>>, n: nat): seq<Op<V>>
    decreases |ops|
  {
    if ops == [] then []
    else if ops[0].OnAll? || ops[0].table == n then [ops[0].op] + Seen(ops[1..], n)
    else Seen(ops[1..], n)
  }

  /** Tables do not meddle with each other: each ends as after the calls it saw. */
  lemma {:induction false} EachTableAlone<V>(exts: seq<Extractors<V>>, ms: seq<Model<V>>, ops: seq<DbOp<V>>, n: nat)
    requires |exts| == |ms| && n < |ms| && DbRun(exts, ms, ops).Some?
    ensures Run(exts[n], ms[n], Seen(ops, n)) == Some(DbRun(exts, ms, ops).value[n])
    decreases |ops|
  {
    if ops != [] {
      EachTableAlone(exts, DbStep(exts, ms, ops[0]).value, ops[1..], n);
      var seen := Seen(ops[1..], n);
      assert ([ops[0].op] + seen)[1..] == seen;
    }
  }

  function DbDepthAfter<V>(d: int, op: DbOp<V>): int { if op.OnAll? then DepthAfter(d, op.op) else d }

  /** As `Brackets`, for every table at once. */
  ghost predicate DbBrackets<V>(exts: seq<Extractors<V>>, ms: seq<Model<V>>, d: int, ops: seq<DbOp<V>>)
    requires |exts| == |ms|
    decreases |ops|
  {
    && 1 <= d && (forall n :: 0 <= n < |ms| ==> d <= |ms[n].saved|)
    && if ops == [] then d == 1
       else
         var r := DbStep(exts, ms, ops[0]);
         r.Some? && DbBrackets(exts, r.value, DbDepthAfter(d, ops[0]), ops[1..])
  }

  lemma {:induction false} BracketsEach<V>(exts: seq<Extractors<V>>, ms: seq<Model<V>>, d: int, ops: seq<DbOp<V>>, n: nat)
    requires |exts| == |ms| && n < |ms| && DbBrackets(exts, ms, d, ops)
    ensures Brackets(exts[n], ms[n], d, Seen(ops, n)) && DbRun(exts, ms, ops).Some?
    decreases |ops|
  {
    if ops != [] {
      BracketsEach(exts, DbStep(exts, ms, ops[0]).value, DbDepthAfter(d, ops[0]), ops[1..], n);
      var seen := Seen(ops[1..], n);
      assert ([ops[0].op] + seen)[1..] == seen;
    }
  }

  lemma {:induction false} DbRunThen<V>(exts: seq<Extractors<V>>, ms: seq<Model<V>>, ops: seq<DbOp<V>>, last: DbOp<V>)
    requires |exts| == |ms| && DbRun(exts, ms, ops).Some?
    ensures DbRun(exts, ms, ops + [last]) == DbStep(exts, DbRun(exts, ms, ops).value, last)
    decreases |ops|
  {
    if ops == [] {
      assert ops + [last] == [last];
      assert [last][1..] == [];
    } else {
      assert (ops + [last])[1..] == ops[1..] + [last];
      DbRunThen(exts, DbStep(exts, ms, ops[0]).value, ops[1..], last);
    }
  }

  function Added<V>(ms: seq<Model<V>>): (r: seq<Model<V>>)
    ensures |r| == |ms|
  {
    seq(|ms|, n requires 0 <= n < |ms| => SessionAdded(ms[n]))
  }

  /** An undone session leaves every table as it was when the session was started, whatever
      was done to any of them in between. */
  lemma DbUndoRestores<V>(exts: seq<Extractors<V>>, ms: seq<Model<V>>, ops: seq<DbOp<V>>)
    requires |exts| == |ms| > 0 && DbBrackets(exts, Added(ms), 1, ops)
    ensures var r := DbRun(exts, ms, [OnAll(AddSession)] + ops + [OnAll(Undo)]);
            r.Some? && forall n :: 0 <= n < |ms| ==> r.value[n].current == ms[n].current && r.value[n].revision == ms[n].revision
  {
    var all := [OnAll(AddSession)] + ops + [OnAll(Undo)];
    BracketsEach(exts, Added(ms), 1, ops, 0);
    DbRunThen(exts, Added(ms), ops, OnAll(Undo));
    assert all[1..] == ops + [OnAll(Undo)];
    AddedIsStep(exts, ms);
    forall n | 0 <= n < |ms|
      ensures DbRun(exts, ms, all).value[n].current == ms[n].current && DbRun(exts, ms, all).value[n].revision == ms[n].revision
    {
      BracketsEach(exts, Added(ms), 1, ops, n);
      UndoRestores(exts[n], ms[n], Seen(ops, n));
      EachTableAlone(exts, ms, all, n);
      SeenAround(ops, n);
    }
  }

  lemma AddedIsStep<V>(exts: seq<Extractors<V>>, ms: seq<Model<V>>)
    requires |exts| == |ms|
    ensures StepAll(exts, ms, AddSession) == Some(Added(ms))
  {
    assert StepAll(exts, ms, AddSession).value == Added(ms);
  }

  lemma SeenAround<V>(ops: seq<DbOp<V>>, n: nat)
    ensures Seen([OnAll(AddSession)] + ops + [OnAll(Undo)], n) == [AddSession] + Seen(ops, n) + [Undo]
  {
    var all := [OnAll(AddSession)] + ops + [OnAll(Undo)];
    assert all[1..] == ops + [OnAll(Undo)];
    SeenThen(ops, OnAll(Undo), n);
  }

  lemma {:induction false} SeenThen<V>(ops: seq<DbOp<V>>, last: DbOp<V>, n: nat)
    requires last.OnAll?
    ensures Seen(ops + [last], n) == Seen(ops, n) + [last.op]
    decreases |ops|
  {
    if ops == [] {
      assert ops + [last] == [last];
      assert [last][1..] == [];
    } else {
      assert (ops + [last])[1..] == ops[1..] + [last];
      SeenThen(ops[1..], last, n);
    }
  }

  // ----- the objects -----

  ghost predicate Distinct<V(!new)>(tables: seq<UndoIndex<V>>) {
    forall i, j :: 0 <= i < j < |tables| ==> tables[i] != tables[j]
  }

  ghost predicate AllValid<V(!new)>(tables: seq<UndoIndex<V>>)
    reads tables
  {
    Distinct(tables) && forall i :: 0 <= i < |tables| ==> tables[i].Valid()
  }

  ghost function Meanings<V(!new)>(tables: seq<UndoIndex<V>>): (ms: seq<Model<V>>)
    reads tables
    ensures |ms| == |tables|
  {
    seq(|tables|, i requires 0 <= i < |tables| reads tables => tables[i].Abs())
  }

  ghost function ExtractorsOf<V(!new)>(tables: seq<UndoIndex<V>>): (exts: seq<Extractors<V>>)
    ensures |exts| == |tables|
  {
    seq(|tables|, i requires 0 <= i < |tables| => tables[i].exts)
  }

  /** One call on each table in turn; stops where one refuses it. */
  method EachTable<V(!new)>(tables: seq<UndoIndex<V>>, op: Op<V>) returns (ok: bool)
    requires AllValid(tables)
    modifies tables
    ensures ok <==> StepAll(ExtractorsOf(tables), old(Meanings(tables)), op).Some?
    ensures ok ==> AllValid(tables) && StepAll(ExtractorsOf(tables), old(Meanings(tables)), op) == Some(Meanings(tables))
  {
    hide ValidAt, Step, StepAll;
    ghost var ms, exts := Meanings(tables), ExtractorsOf(tables);
    var i := 0;
    while i < |tables|
      invariant i <= |tables| && forall j :: 0 <= j < |tables| ==> tables[j].Valid()
      invariant forall j :: i <= j < |tables| ==> tables[j].Abs() == ms[j]
      invariant forall j :: 0 <= j < i ==> Step(exts[j], ms[j], op) == Some(tables[j].Abs())
    {
      ok := RunOne(tables[i], op, false);
      if !ok {
        RefusedByOne(exts, ms, op, i);
        return false;
      }
      i := i + 1;
    }
    AllStepped(exts, ms, op, Meanings(tables));
    ok := true;
  }

  lemma RefusedByOne<V>(exts: seq<Extractors<V>>, ms: seq<Model<V>>, op: Op<V>, i: nat)
    requires i < |ms| == |exts| && Step(exts[i], ms[i], op).None?
    ensures StepAll(exts, ms, op).None?
  {
  }

  lemma AllStepped<V>(exts: seq<Extractors<V>>, ms: seq<Model<V>>, op: Op<V>, r: seq<Model<V>>)
    requires |exts| == |ms| == |r| && forall n :: 0 <= n < |ms| ==> Step(exts[n], ms[n], op) == Some(r[n])
    ensures StepAll(exts, ms, op) == Some(r)
  {
    assert StepAll(exts, ms, op).value == r;
  }

  class Database<V(!new)> {
    var indexList: seq<UndoIndex<V>>
    var typeIds: seq<nat>

    ghost predicate Valid()
      reads this, indexList
    {
      AllValid(indexList) && |typeIds| == |indexList|
    }

    constructor ()
      ensures Valid() && indexList == [] && typeIds == []
    {
      indexList, typeIds := [], [];
    }

    /** Adds a table.  Refused when its type is there already; its revision and sessions
        are not looked at, so the tables stay in lockstep only when they match. */
    method AddIndex(index: UndoIndex<V>, typeId: nat) returns (ok: bool)
      requires Valid() && index.Valid() && index !in indexList
      modifies this
      ensures Valid() && (ok <==> typeId !in old(typeIds))
      ensures indexList == if ok then old(indexList) + [index] else old(indexList)
      ensures typeIds == if ok then old(typeIds) + [typeId] else old(typeIds)
      ensures ok ==> (Lockstep(Meanings(indexList)) <==> Lockstep(old(Meanings(indexList))) && Matches(old(Meanings(indexList)), index.Abs()))
    {
      hide ValidAt;
      if typeId in typeIds {
        return false;
      }
      MatchingAdded(Meanings(indexList), index.Abs());
      assert Meanings(indexList + [index]) == Meanings(indexList) + [index.Abs()];
      indexList, typeIds := indexList + [index], typeIds + [typeId];
      ok := true;
    }

    method Revision() returns (r: int)
      requires Valid()
      ensures indexList == [] ==> r == -1
      ensures indexList != [] && Lockstep(Meanings(indexList)) ==> forall n :: 0 <= n < |indexList| ==> r == Meanings(indexList)[n].revision
    {
      if |indexList| == 0 { return -1; }
      r := indexList[0].revision;
      assert Meanings(indexList)[0].revision == r;
    }

    /** Every call to all tables: undo, squash, commit, set_revision. */
    method OnEach(op: Op<V>) returns (ok: bool)
      requires Valid() && !IsRowOp(op)
      modifies indexList
      ensures ok <==> StepAll(ExtractorsOf(indexList), old(Meanings(indexList)), op).Some?
      ensures ok ==> Valid() && StepAll(ExtractorsOf(indexList), old(Meanings(indexList)), op) == Some(Meanings(indexList))
      ensures ok && Lockstep(old(Meanings(indexList))) ==> Lockstep(Meanings(indexList))
      ensures !ok && Lockstep(old(Meanings(indexList))) ==> AllRefuse(ExtractorsOf(indexList), old(Meanings(indexList)), op)
    {
      hide ValidAt, Step;
      if Lockstep(Meanings(indexList)) { LockstepOrNone(ExtractorsOf(indexList), Meanings(indexList), op); }
      ok := EachTable(indexList, op);
    }

    /** Starts a session on every table; a session that is not enabled has none. */
    method StartUndoSession(enabled: bool) returns (s: Session<V>)
      requires Valid()
      modifies indexList
      ensures Valid() && fresh(s) && s.pending == if enabled then indexList else []
      ensures Meanings(indexList) == if enabled then Added(old(Meanings(indexList))) else old(Meanings(indexList))
    {
      hide ValidAt, StepAll, Lockstep;
      AddedIsStep(ExtractorsOf(indexList), Meanings(indexList));
      if enabled {
        var ok := OnEach(AddSession);
        s := new Session(indexList);
      } else {
        s := new Session([]);
      }
    }

    /** Undoes every session of every table. */
    method UndoAll()
      requires Valid()
      modifies indexList
      ensures Valid() && (Lockstep(old(Meanings(indexList))) ==> Lockstep(Meanings(indexList)))
      ensures forall n :: 0 <= n < |indexList| ==> Meanings(indexList)[n] == AllUndone(old(Meanings(indexList))[n])
      ensures forall n :: 0 <= n < |indexList| ==> Meanings(indexList)[n].saved == []
      ensures forall n :: 0 <= n < |indexList| && old(Meanings(indexList))[n].saved != [] ==>
                var m, r := old(Meanings(indexList))[n], Meanings(indexList)[n];
                r.current == m.saved[0] && r.revision == m.revision - |m.saved|
    {
      hide ValidAt, AllUndone;
      ghost var ms := Meanings(indexList);
      var i := 0;
      while i < |indexList|
        invariant i <= |indexList| && AllValid(indexList)
        invariant forall j :: i <= j < |indexList| ==> indexList[j].Abs() == ms[j]
        invariant forall j :: 0 <= j < i ==> indexList[j].Abs() == AllUndone(ms[j])
      {
        UndoAllOf(indexList[i]);
        i := i + 1;
      }
      if Lockstep(ms) { UndoneAlike(ms, Meanings(indexList)); }
      forall n | 0 <= n < |indexList| { AllUndoneIs(indexList[n].exts, ms[n]); }
    }
  }

  /** A session of the database: the table sessions that are still to be pushed, squashed or
      undone. */
  class Session<V(!new)> {
    var pending: seq<UndoIndex<V>>

    constructor (pending: seq<UndoIndex<V>>)
      ensures this.pending == pending
    {
      this.pending := pending;
    }

    /** Keeps the changes and the table sessions. */
    method Push()
      modifies this
      ensures pending == []
    {
      pending := [];
    }

    method Squash()
      requires AllValid(pending)
      modifies this, pending
      ensures AllValid(old(pending)) && pending == []
      ensures Meanings(old(pending)) == Each(old(Meanings(pending)), m => Squashed(m))
    {
      hide ValidAt;
      var ok := EachTable(pending, Op.Squash);
      pending := [];
    }

    /** Takes the changes back; also what happens when the session goes out of scope, so a
        session that was pushed, squashed or undone is left alone then. */
    method Undo()
      requires AllValid(pending)
      modifies this, pending
      ensures AllValid(old(pending)) && pending == []
      ensures Meanings(old(pending)) == Each(old(Meanings(pending)), m => Undone(m))
    {
      hide ValidAt;
      var ok := EachTable(pending, Op.Undo);
      pending := [];
    }
  }

  function Each<V>(ms: seq<Model<V>>, f: Model<V> -> Model<V>): (r: seq<Model<V>>)
    ensures |r| == |ms| && forall i :: 0 <= i < |ms| ==> r[i] == f(ms[i])
  {
    seq(|ms|, i requires 0 <= i < |ms| => f(ms[i]))
  }

  function AllUndone<V>(m: Model<V>): Model<V> {
    if m.saved == [] then m else Model(m.saved[0], m.revision - |m.saved|, [])
  }

  /** Undoing all is as many undos as there are sessions: the table of the oldest copy is
      back, and no session is left. */
  lemma AllUndoneIs<V>(exts: Extractors<V>, m: Model<V>)
    ensures Run(exts, m, Undos(|m.saved|)) == Some(AllUndone(m))
    ensures AllUndone(m).saved == [] && (m.saved == [] ==> AllUndone(m) == m)
    ensures m.saved != [] ==> AllUndone(m).current == m.saved[0] && AllUndone(m).revision == m.revision - |m.saved|
  {
    UndosRun(exts, m, |m.saved|);
  }

  lemma UndoneAlike<V>(ms: seq<Model<V>>, r: seq<Model<V>>)
    requires Lockstep(ms) && |r| == |ms| && forall i :: 0 <= i < |ms| ==> r[i] == AllUndone(ms[i])
    ensures Lockstep(r)
  {
  }

  method UndoAllOf<V(!new)>(t: UndoIndex<V>)
    requires t.Valid()
    modifies t
    ensures t.Valid() && t.Abs() == AllUndone(old(t.Abs()))
  {
    hide ValidAt;
    SessionCount(t.exts, t.Rep(), t.shadow, t.indices);
    while t.undoStack != []
      invariant t.Valid() && AllUndone(t.Abs()) == AllUndone(old(t.Abs())) && |t.undoStack| == |t.Abs().saved|
      decreases |t.undoStack|
    {
      t.Undo();
      SessionCount(t.exts, t.Rep(), t.shadow, t.indices);
    }
  }

  ghost predicate AllRefuse<V>(exts: seq<Extractors<V>>, ms: seq<Model<V>>, op: Op<V>)
    requires |exts| == |ms|
  {
    forall n :: 0 <= n < |ms| ==> Step(exts[n], ms[n], op).None?
  }

  /** In lockstep, no call is refused half way. */
  lemma LockstepOrNone<V>(exts: seq<Extractors<V>>, ms: seq<Model<V>>, op: Op<V>)
    requires |exts| == |ms| && Lockstep(ms) && !IsRowOp(op)
    ensures StepAll(exts, ms, op).Some? ==> Lockstep(StepAll(exts, ms, op).value)
    ensures StepAll(exts, ms, op).None? ==> AllRefuse(exts, ms, op)
  {
    if StepAll(exts, ms, op).Some? {
      LockstepStep(exts, ms, OnAll(op));
    } else {
      var k :| 0 <= k < |ms| && Step(exts[k], ms[k], op).None?;
      forall n | 0 <= n < |ms| ensures Step(exts[n], ms[n], op).None? {
        StepsAlike(exts[k], exts[n], ms[k], ms[n], op);
      }
    }
  }
}
