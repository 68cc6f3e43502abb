/** What sessions, commits and edits come to: laws about whole runs. */
module UndoLaws {
  import opened Options
  import opened UndoModel

  // ----- a squashed session leaves no trace -----

  /** `w` is `m` with one more session, the one started `d` sessions ago. */
  ghost predicate OneMore<V>(m: Model<V>, w: Model<V>, d: int) {
    && 1 <= d <= |w.saved| == |m.saved| + 1 && w.current == m.current && w.revision == m.revision + 1
    && w.saved[..|w.saved| - d] == m.saved[..|w.saved| - d] && w.saved[|w.saved| - d + 1..] == m.saved[|w.saved| - d..]
  }

  lemma OneMoreStep<V>(exts: Extractors<V>, m: Model<V>, w: Model<V>, d: int, op: Op<V>)
    requires OneMore(m, w, d) && Step(exts, w, op).Some?
    requires 1 <= DepthAfter(d, op) <= |Step(exts, w, op).value.saved|
    ensures Step(exts, m, op).Some? && OneMore(Step(exts, m, op).value, Step(exts, w, op).value, DepthAfter(d, op))
  {
    hide KeysFree, OneMore, SessionAdded, Undone, Squashed, Committed;
    SameNow(m, w, d);
    match op
    case AddSession => OneMoreAdded(m, w, d);
    case Undo => NewestDropped(m, w, d);
    case Squash => NewestDropped(m, w, d);
    case Commit(revision) => OneMoreCommitted(m, w, d, revision);
    case Emplace(v) => OneMoreEdited(m, w, d, Created(m, v).current);
    case Modify(id, v) => OneMoreEdited(m, w, d, Modified(m, id, v).current);
    case Remove(id) => OneMoreEdited(m, w, d, Removed(m, id).current);
    case SetRevision(to) =>
  }

  lemma SameNow<V>(m: Model<V>, w: Model<V>, d: int)
    requires OneMore(m, w, d)
    ensures m.current == w.current && w.saved != []
  {
  }

  lemma OneMoreEdited<V>(m: Model<V>, w: Model<V>, d: int, c: Snapshot<V>)
    requires OneMore(m, w, d)
    ensures OneMore(m.(current := c), w.(current := c), d)
  {
  }

  lemma OneMoreAdded<V>(m: Model<V>, w: Model<V>, d: int)
    requires OneMore(m, w, d)
    ensures OneMore(SessionAdded(m), SessionAdded(w), d + 1)
  {
    var k := |w.saved| - d;
    var w', m' := w.saved + [w.current], m.saved + [m.current];
    assert w'[..k] == w.saved[..k] && w'[k + 1..] == w.saved[k + 1..] + [w.current];
    assert m'[..k] == m.saved[..k] && m'[k..] == m.saved[k..] + [m.current];
  }

  lemma OneMoreCommitted<V>(m: Model<V>, w: Model<V>, d: int, revision: int)
    requires OneMore(m, w, d) && d <= |Committed(w, revision).saved|
    ensures OneMore(Committed(m, revision), Committed(w, revision), d)
  {
    var k, j := |w.saved| - d, |w.saved| - KeptByCommit(w, revision);
    assert KeptByCommit(m, revision) + 1 == KeptByCommit(w, revision);
    CutBelow(w.saved, j, k, k + 1);
    CutBelow(m.saved, j, k, k);
  }

  lemma CutBelow<T>(s: seq<T>, j: nat, k: nat, i: nat)
    requires j <= k <= i <= |s|
    ensures s[j..][..k - j] == s[..k][j..] && s[j..][i - j..] == s[i..]
  {
  }

  lemma NewestDropped<V>(m: Model<V>, w: Model<V>, d: int)
    requires OneMore(m, w, d) && d >= 2
    ensures OneMore(Undone(m), Undone(w), d - 1) && OneMore(Squashed(m), Squashed(w), d - 1)
  {
    var n, k := |w.saved|, |w.saved| - d;
    assert w.saved[k + 1..][d - 2] == w.saved[n - 1] && m.saved[k..][d - 2] == m.saved[n - 2];
    CutAbove(w.saved, n - 1, k, k + 1);
    CutAbove(m.saved, n - 2, k, k);
  }

  lemma CutAbove<T>(s: seq<T>, n: nat, k: nat, i: nat)
    requires k <= i <= n <= |s|
    ensures s[..n][..k] == s[..k] && s[..n][i..] == s[i..][..n - i]
  {
  }

  lemma {:induction false} OneMoreRun<V>(exts: Extractors<V>, m: Model<V>, w: Model<V>, d: int, ops: seq<Op<V>>)
    requires OneMore(m, w, d) && Brackets(exts, w, d, ops)
    ensures Run(exts, m, ops).Some? && Run(exts, w, ops).Some? && OneMore(Run(exts, m, ops).value, Run(exts, w, ops).value, 1)
    decreases |ops|
  {
    if ops != [] {
      OneMoreStep(exts, m, w, d, ops[0]);
      OneMoreRun(exts, Step(exts, m, ops[0]).value, Step(exts, w, ops[0]).value, DepthAfter(d, ops[0]), ops[1..]);
    }
  }

  /** A session that ends squashed might as well not have been started: whatever happens in
      it, the rows, the ids, the next id, the revision and the saved copies are those of the
      same calls without it. */
  lemma SquashErases<V>(exts: Extractors<V>, m: Model<V>, ops: seq<Op<V>>)
    requires Brackets(exts, SessionAdded(m), 1, ops)
    ensures Run(exts, m, ops).Some? && Run(exts, m, [AddSession] + ops + [Squash]) == Run(exts, m, ops)
  {
    var w := SessionAdded(m);
    OneMoreRun(exts, m, w, 1, ops);
    RunThen(exts, w, ops, Squash);
    var all := [AddSession] + ops + [Squash];
    assert all[1..] == ops + [Squash];
    assert Step(exts, m, all[0]) == Some(w);
    var r, f := Run(exts, m, ops).value, Run(exts, w, ops).value;
    assert f.saved[..|f.saved| - 1] == r.saved;
  }

  // ----- commits and undos -----

  function Undos<V>(n: nat): seq<Op<V>> { seq(n, i => Undo) }

  lemma {:induction false} UndosRun<V>(exts: Extractors<V>, m: Model<V>, n: nat)
    requires n <= |m.saved|
    ensures Run(exts, m, Undos(n)).Some?
    ensures var r := Run(exts, m, Undos(n)).value;
            if n == 0 then r == m else r == Model(m.saved[|m.saved| - n], m.revision - n, m.saved[..|m.saved| - n])
    decreases n
  {
    if n > 0 {
      assert Undos<V>(n)[1..] == Undos<V>(n - 1);
      UndosRun(exts, Undone(m), n - 1);
      assert m.saved[..|m.saved| - 1][..|m.saved| - n] == m.saved[..|m.saved| - n];
    }
  }

  /** A commit changes no row, and undoing everything after it goes back no further than to
      the revision committed, or to the oldest one there was, whichever is later: to the
      copy that was saved at it. */
  lemma CommitBounds<V>(exts: Extractors<V>, m: Model<V>, rev: int)
    ensures Run(exts, m, [Op<V>.Commit(rev)]).Some?
    ensures var c := Run(exts, m, [Op<V>.Commit(rev)]).value;
            && c.current == m.current && c.revision == m.revision && |c.saved| <= |m.saved|
            && c.saved == m.saved[|m.saved| - |c.saved|..]
            && var oldest, committed := m.revision - |m.saved|, if rev < m.revision then rev else m.revision;
               m.revision - |c.saved| == if oldest < committed then committed else oldest
  {
    assert [Op<V>.Commit(rev)][1..] == [];
  }

  /** A revision is set only without sessions, to one that fits in 63 bits and is not lower. */
  lemma RevisionSet<V>(exts: Extractors<V>, m: Model<V>, to: nat)
    ensures var r := Run(exts, m, [Op<V>.SetRevision(to)]);
            if |m.saved| == 0 && to < 0x8000_0000_0000_0000 && to >= m.revision then r == Some(m.(revision := to)) else r == None
  {
    assert [Op<V>.SetRevision(to)][1..] == [];
  }

  /** Without a session there is nothing to undo or to squash. */
  lemma NoSession<V>(exts: Extractors<V>, m: Model<V>)
    requires m.saved == []
    ensures Run(exts, m, [Op<V>.Undo]) == Some(m) && Run(exts, m, [Op<V>.Squash]) == Some(m)
  {
    assert [Op<V>.Undo][1..] == [] && [Op<V>.Squash][1..] == [];
  }

  /** Some other row has one of the keys past the first that `v` would have under `id`. */
  ghost predicate Clashes<V>(exts: Extractors<V>, rows: map<nat, V>, id: nat, v: V) {
    exists n, other :: 1 <= n < |exts| && other in rows && other != id && exts[n](other, rows[other]) == exts[n](id, v)
  }

  /** What is refused: a new row whose keys clash, a change of a row that is not there or whose keys
      would clash. */
  lemma EditsRefused<V>(exts: Extractors<V>, m: Model<V>, id: nat, v: V)
    ensures Run(exts, m, [Op<V>.Emplace(v)]).None? <==> Clashes(exts, m.current.rows, m.current.nextId, v)
    ensures Run(exts, m, [Op<V>.Modify(id, v)]).None? <==> id !in m.current.rows || Clashes(exts, m.current.rows, id, v)
  {
    assert [Op<V>.Emplace(v)][1..] == [] && [Op<V>.Modify(id, v)][1..] == [];
  }

  /** Looking rows up after an edit: the others are as before. */
  lemma EditsRead<V>(exts: Extractors<V>, m: Model<V>, id: nat, v: V, other: nat)
    ensures var r := Run(exts, m, [Op<V>.Emplace(v)]);
            r.Some? ==>
              && r.value.current.nextId == m.current.nextId + 1 && Reads(r.value, m.current.nextId, v)
              && (other != m.current.nextId ==> Alike(r.value, m, other)) && SameSessions(r.value, m)
    ensures var r := Run(exts, m, [Op<V>.Modify(id, v)]);
            r.Some? ==>
              && r.value.current.nextId == m.current.nextId && id in m.current.rows && Reads(r.value, id, v)
              && (other != id ==> Alike(r.value, m, other)) && SameSessions(r.value, m)
    ensures var r := Run(exts, m, [Op<V>.Remove(id)]);
            && (r.Some? <==> id in m.current.rows)
            && (r.Some? ==>
                  && r.value.current.nextId == m.current.nextId && id !in r.value.current.rows
                  && (other != id ==> Alike(r.value, m, other)) && SameSessions(r.value, m))
  {
    assert [Op<V>.Emplace(v)][1..] == [] && [Op<V>.Modify(id, v)][1..] == [] && [Op<V>.Remove(id)][1..] == [];
  }

  ghost predicate Reads<V>(m: Model<V>, id: nat, v: V) { id in m.current.rows && m.current.rows[id] == v }

  ghost predicate Alike<V>(a: Model<V>, b: Model<V>, id: nat) {
    (id in a.current.rows <==> id in b.current.rows) && (id in a.current.rows ==> a.current.rows[id] == b.current.rows[id])
  }

  ghost predicate SameSessions<V>(a: Model<V>, b: Model<V>) { a.revision == b.revision && a.saved == b.saved }
}
