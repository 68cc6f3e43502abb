/** What an undo table means: the current rows, the next id, and a full copy of both
    for every undo session. */
module UndoModel {
  import opened Basics
  import opened Options
  import opened OrderedIndex

  datatype Snapshot<V> = Snapshot(rows: map<nat, V>, nextId: nat)

  /** `saved` is oldest first. */
  datatype Model<V> = Model(current: Snapshot<V>, revision: int, saved: seq<Snapshot<V>>)


  /** The extractors of a table; the first one is the primary key. */
  type Extractors<!V> = seq<Extractor<V>>

  ghost predicate IdFirst<V(!new)>(exts: Extractors<V>) {
    |exts| >= 1 && forall id: nat, v: V :: exts[0](id, v) == id
  }

  /** No row but `id` itself has one of the keys the row (id, v) would have. */
  ghost predicate KeysFree<V>(exts: Extractors<V>, rows: map<nat, V>, id: nat, v: V) {
    forall n, other :: 1 <= n < |exts| && other in rows && other != id ==> exts[n](other, rows[other]) != exts[n](id, v)
  }

  /** No two rows agree on any key. */
  ghost predicate KeysDistinct<V>(exts: Extractors<V>, rows: map<nat, V>) {
    forall n, a, b :: 1 <= n < |exts| && a in rows && b in rows && a != b ==> exts[n](a, rows[a]) != exts[n](b, rows[b])
  }

  function Created<V>(m: Model<V>, v: V): Model<V> {
    m.(current := Snapshot(m.current.rows[m.current.nextId := v], m.current.nextId + 1))
  }

  function Modified<V>(m: Model<V>, id: nat, v: V): Model<V> {
    m.(current := m.current.(rows := m.current.rows[id := v]))
  }

  function Removed<V>(m: Model<V>, id: nat): Model<V> {
    m.(current := m.current.(rows := m.current.rows - {id}))
  }

  function SessionAdded<V>(m: Model<V>): Model<V> {
    m.(revision := m.revision + 1, saved := m.saved + [m.current])
  }

  /** Undo goes back to the newest copy. */
  function Undone<V>(m: Model<V>): Model<V> {
    if m.saved == [] then m
    else Model(m.saved[|m.saved| - 1], m.revision - 1, m.saved[..|m.saved| - 1])
  }

  /** Squash forgets the newest copy. */
  function Squashed<V>(m: Model<V>): Model<V> {
    if m.saved == [] then m
    else m.(revision := m.revision - 1, saved := m.saved[..|m.saved| - 1])
  }

  function Min(a: int, b: int): int { if a <= b then a else b }

  /** How many sessions a commit leaves. */
  function KeptByCommit<V>(m: Model<V>, revision: int): nat {
    Min(|m.saved|, m.revision - Min(revision, m.revision))
  }

  /** Commit forgets the oldest copies. */
  function Committed<V>(m: Model<V>, revision: int): Model<V> {
    m.(saved := m.saved[|m.saved| - KeptByCommit(m, revision)..])
  }

  predicate MaySetRevision<V>(m: Model<V>, revision: nat) {
    m.saved == [] && revision < INT64 && revision >= m.revision
  }

  // ----- runs -----

  datatype Op<V> =
    | Emplace(v: V)
    | Modify(id: nat, v: V)
    | Remove(id: nat)
    | AddSession
    | Undo
    | Squash
    | Commit(revision: int)
    | SetRevision(to: nat)

  /** One call; None when one of its checks fails, which ends the run. */
  ghost function Step<V>(exts: Extractors<V>, m: Model<V>, op: Op<V>): Option<Model<V>> {
    match op
    case Emplace(v) =>
      if KeysFree(exts, m.current.rows, m.current.nextId, v) then Some(Created(m, v)) else None
    case Modify(id, v) =>
      if id in m.current.rows && KeysFree(exts, m.current.rows, id, v) then Some(Modified(m, id, v)) else None
    case Remove(id) => if id in m.current.rows then Some(Removed(m, id)) else None
    case AddSession => Some(SessionAdded(m))
    case Undo => Some(Undone(m))
    case Squash => Some(Squashed(m))
    case Commit(revision) => Some(Committed(m, revision))
    case SetRevision(to) => if MaySetRevision(m, to) then Some(m.(revision := to)) else None
  }

  ghost function Run<V>(exts: Extractors<V>, m: Model<V>, ops: seq<Op<V>>): Option<Model<V>>
    decreases |ops|
  {
    if ops == [] then Some(m)
    else
      var r := Step(exts, m, ops[0]);
      if r.None? then None else Run(exts, r.value, ops[1..])
  }

  /** How many of the newest sessions were started since some point, after one more call. */
  function DepthAfter<V>(d: int, op: Op<V>): int {
    match op
    case AddSession => d + 1
    case Undo => d - 1
    case Squash => d - 1
    case _ => d
  }

  /** The run ends with just the one session, started `d` sessions ago, on top;
      that session is never popped and never committed away in between. */
  ghost predicate Brackets<V>(exts: Extractors<V>, m: Model<V>, d: int, ops: seq<Op<V>>)
    decreases |ops|
  {
    && 1 <= d <= |m.saved|
    && if ops == [] then d == 1
       else
         var r := Step(exts, m, ops[0]);
         r.Some? && Brackets(exts, r.value, DepthAfter(d, ops[0]), ops[1..])
  }

  lemma {:induction false} BracketKeepsSnapshot<V>(exts: Extractors<V>, m: Model<V>, d: int, ops: seq<Op<V>>)
    requires Brackets(exts, m, d, ops)
    ensures Run(exts, m, ops).Some?
    ensures var f := Run(exts, m, ops).value;
            f.saved != [] && f.saved[|f.saved| - 1] == m.saved[|m.saved| - d] && f.revision == m.revision + 1 - d
    decreases |ops|
  {
    if ops != [] {
      var r := Step(exts, m, ops[0]).value;
      BracketKeepsSnapshot(exts, r, DepthAfter(d, ops[0]), ops[1..]);
    }
  }

  lemma {:induction false} RunThen<V>(exts: Extractors<V>, m: Model<V>, ops: seq<Op<V>>, last: Op<V>)
    requires Run(exts, m, ops).Some?
    ensures Run(exts, m, ops + [last]) == Step(exts, Run(exts, m, ops).value, last)
    decreases |ops|
  {
    if ops == [] {
      assert ops + [last] == [last];
      assert [last][1..] == [];
    } else {
      assert (ops + [last])[1..] == ops[1..] + [last];
      RunThen(exts, Step(exts, m, ops[0]).value, ops[1..], last);
    }
  }

  /** Whatever happens between starting a session and undoing it -- edits, nested
      sessions undone or squashed, commits of older sessions -- the undo brings back
      the rows, the ids, the next id and the revision of the moment the session was started. */
  lemma UndoRestores<V>(exts: Extractors<V>, m: Model<V>, ops: seq<Op<V>>)
    requires Brackets(exts, SessionAdded(m), 1, ops)
    ensures Run(exts, m, [AddSession] + ops + [Undo]).Some?
    ensures var f := Run(exts, m, [AddSession] + ops + [Undo]).value;
            f.current == m.current && f.revision == m.revision
  {
    var s := SessionAdded(m);
    BracketKeepsSnapshot(exts, s, 1, ops);
    RunThen(exts, s, ops, Undo);
    var all := [AddSession] + ops + [Undo];
    assert all[1..] == ops + [Undo];
    assert Step(exts, m, all[0]) == Some(s);
  }
}
