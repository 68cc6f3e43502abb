/** What a block does to the greeting table: filter_block and the actions it dispatches to. */
module Greetings {
  import opened OrderedIndex
  import opened Options
  import opened UndoModel
  import opened UndoMeaning
  import opened TableIndices
  import opened UndoTable
  import opened BlockLogs

  datatype Greeting = Greeting(account: Name, message: string)

  /** The names "hi", "clearall", "eosio.null" and "chain.events". */
  const HI: Name := 7746191359077253120
  const CLEARALL: Name := 4923678602614013952
  const EOSIO_NULL: Name := 6138663588472832000
  const CHAIN_EVENTS: Name := 4849507640563528576

  /** The account a chain follows and the binary decoders it relies on: a decoder
      that cannot read its input aborts the run. */
  datatype Config = Config(account: Name, parseHi: Bytes -> Option<Greeting>, parseEvents: Bytes -> bool)

  type Rows = Snapshot<Greeting>

  // ----- the meaning -----

  /** A greeting replaces the account's former one and gets a new id. */
  function Hi(s: Rows, g: Greeting): Rows {
    Snapshot((map id | id in s.rows && s.rows[id].account != g.account :: s.rows[id])[s.nextId := g], s.nextId + 1)
  }

  function ClearAll(s: Rows): Rows {
    s.(rows := map[])
  }

  function ApplyAction(cfg: Config, s: Rows, a: Action): Option<Rows> {
    if a.firstReceiver == cfg.account then
      if a.name == HI then
        var g := cfg.parseHi(a.hexData);
        if g.None? then None else Some(Hi(s, g.value))
      else if a.name == CLEARALL then Some(ClearAll(s))
      else Some(s)
    else if a.firstReceiver == EOSIO_NULL && a.name == CHAIN_EVENTS && a.creatorAction.Some? && a.creatorAction.value.receiver == cfg.account then
      if cfg.parseEvents(a.hexData) then Some(s) else None
    else Some(s)
  }

  function ApplyActions(cfg: Config, s: Rows, actions: seq<Action>): Option<Rows> {
    if actions == [] then Some(s)
    else
      var r := ApplyActions(cfg, s, actions[..|actions| - 1]);
      if r.None? then None else ApplyAction(cfg, r.value, actions[|actions| - 1])
  }

  function ApplyTransactions(cfg: Config, s: Rows, transactions: seq<Transaction>): Option<Rows> {
    if transactions == [] then Some(s)
    else
      var r := ApplyTransactions(cfg, s, transactions[..|transactions| - 1]);
      if r.None? then None else ApplyActions(cfg, r.value, transactions[|transactions| - 1].actions)
  }

  /** The database after block 1 to the last block of `chain`, from scratch. */
  function Replay(cfg: Config, chain: seq<BlockWithId>): Option<Rows> {
    if chain == [] then Some(Snapshot(map[], 0))
    else
      var r := Replay(cfg, chain[..|chain| - 1]);
      if r.None? then None else ApplyTransactions(cfg, r.value, chain[|chain| - 1].block.eosioBlock.transactions)
  }

  lemma {:induction false} ActionsStopAt(cfg: Config, s: Rows, actions: seq<Action>, i: nat)
    requires i <= |actions| && ApplyActions(cfg, s, actions[..i]).None?
    ensures ApplyActions(cfg, s, actions).None?
    decreases |actions| - i
  {
    if i < |actions| {
      assert actions[..i + 1][..i] == actions[..i];
      ActionsStopAt(cfg, s, actions, i + 1);
    } else {
      assert actions[..i] == actions;
    }
  }

  lemma {:induction false} TransactionsStopAt(cfg: Config, s: Rows, ts: seq<Transaction>, i: nat)
    requires i <= |ts| && ApplyTransactions(cfg, s, ts[..i]).None?
    ensures ApplyTransactions(cfg, s, ts).None?
    decreases |ts| - i
  {
    if i < |ts| {
      assert ts[..i + 1][..i] == ts[..i];
      TransactionsStopAt(cfg, s, ts, i + 1);
    } else {
      assert ts[..i] == ts;
    }
  }

  // ----- the code -----

  function ById(): Extractor<Greeting> { (id: nat, g: Greeting) => id }
  function ByPk(): Extractor<Greeting> { (id: nat, g: Greeting) => g.account }

  type GreetingTable = UndoIndex<Greeting>

  ghost predicate Usable(t: GreetingTable)
    reads t
  {
    t.Valid() && t.exts == [ById(), ByPk()]
  }

  /** add_or_replace by account. */
  method DoHi(t: GreetingTable, g: Greeting)
    requires Usable(t)
    modifies t
    ensures Usable(t) && t.Abs() == old(t.Abs()).(current := Hi(old(t.Abs()).current, g))
  {
    hide ValidAt, KeysFree;
    ghost var s := t.Abs().current;
    AccountsDistinct(t);
    var found := t.FindBy(1, g.account);
    ghost var rest := map id | id in s.rows && s.rows[id].account != g.account :: s.rows[id];
    if found.Some? {
      ghost var id := t.nodes[found.value].id;
      t.Remove(found.value);
      assert t.Abs().current.rows == rest;
    } else {
      NoAccount(t.exts, s.rows, g.account);
      assert t.Abs().current.rows == rest;
    }
    FreeForHi(t.exts, rest, t.nextId, g);
    var ok, p := t.Emplace(g);
  }

  lemma AccountsDistinct(t: GreetingTable)
    requires Usable(t)
    ensures var rows := t.Abs().current.rows;
            forall a, b :: a in rows && b in rows && a != b ==> rows[a].account != rows[b].account
  {
    RowsDistinct(t.exts, t.indices, t.Rep(), t.shadow);
    var rows := t.Abs().current.rows;
    assert KeysDistinct(t.exts, rows);
    forall a, b | a in rows && b in rows && a != b
      ensures rows[a].account != rows[b].account
    {
      assert t.exts[1](a, rows[a]) != t.exts[1](b, rows[b]);
    }
  }

  lemma NoAccount(exts: Extractors<Greeting>, rows: map<nat, Greeting>, account: Name)
    requires exts == [ById(), ByPk()] && !HasKey(exts, rows, 1, account)
    ensures forall id :: id in rows ==> rows[id].account != account
  {
    forall id | id in rows
      ensures rows[id].account != account
    {
      assert exts[1](id, rows[id]) == rows[id].account;
    }
  }

  /** With the former greeting gone the new one is always accepted. */
  lemma FreeForHi(exts: Extractors<Greeting>, rows: map<nat, Greeting>, id: nat, g: Greeting)
    requires exts == [ById(), ByPk()] && forall other :: other in rows ==> rows[other].account != g.account
    ensures KeysFree(exts, rows, id, g)
  {
  }

  /** The iterator at the start of an index: a row's node, or None for the end. */
  function First(s: seq<Ptr>): Option<Ptr> {
    if s == [] then None else Some(s[0])
  }

  /** An iterator moved on by one. */
  function Next(s: seq<Ptr>, p: Ptr): Option<Ptr>
    requires p in s
  {
    if IndexOf(s, p) + 1 < |s| then Some(s[IndexOf(s, p) + 1]) else None
  }

  /** An iterator moved past the first row before that is removed is at the first row left. */
  lemma NextStaysValid(s: seq<Ptr>)
    requires s != []
    ensures Next(s, s[0]) == First(Erase(s, s[0])) && Erase(s, s[0]) == s[1..]
  {
    assert IndexOf(s, s[0]) == 0;
  }

  /** Removes every row, in the order of the ids, by an iterator taken before each removal. */
  method DoClearAll(t: GreetingTable)
    requires Usable(t)
    modifies t
    ensures Usable(t) && t.Abs() == old(t.Abs()).(current := ClearAll(old(t.Abs()).current))
    ensures t.Abs().current.rows == map[] && t.Abs().current.nextId == old(t.Abs().current.nextId)
  {
    hide ValidAt;
    ghost var m := t.Abs();
    FirstRow(t);
    var it := First(t.indices[0]);
    while it.Some?
      invariant Usable(t) && |t.indices| == 2 && it == First(t.indices[0])
      invariant t.Abs() == m.(current := m.current.(rows := t.Abs().current.rows))
      invariant t.indices[0] == [] <==> t.Abs().current.rows == map[]
      invariant it.Some? ==> it.value in LiveSet(t.nodes) && t.nodes[it.value].id in t.Abs().current.rows
      decreases |t.Abs().current.rows|
    {
      var next := Next(t.indices[0], it.value);
      NextStaysValid(t.indices[0]);
      t.Remove(it.value);
      it := next;
      FirstRow(t);
    }
  }

  lemma FirstRow(t: GreetingTable)
    requires Usable(t)
    ensures |t.indices| == 2
    ensures t.indices[0] == [] <==> t.Abs().current.rows == map[]
    ensures t.indices[0] != [] ==> t.indices[0][0] in LiveSet(t.nodes) && t.nodes[t.indices[0][0]].id in t.Abs().current.rows
  {
    var c, g := t.Rep(), t.shadow;
    LiveRows(c, g);
    assert Exact(c.nodes, t.exts[0], t.indices[0], LiveSet(c.nodes));
    if t.indices[0] != [] {
      assert t.indices[0][0] in t.indices[0];
    }
    forall id | id in g.rows
      ensures t.indices[0] != []
    {
      assert g.home[id] in t.indices[0];
    }
  }

  method DoAction(cfg: Config, t: GreetingTable, a: Action) returns (ok: bool)
    requires Usable(t)
    modifies t
    ensures Usable(t) && (ok <==> ApplyAction(cfg, old(t.Abs()).current, a).Some?)
    ensures ok ==> t.Abs() == old(t.Abs()).(current := ApplyAction(cfg, old(t.Abs()).current, a).value)
  {
    hide ValidAt;
    if a.firstReceiver == cfg.account {
      if a.name == HI {
        var g := cfg.parseHi(a.hexData);
        if g.None? {
          return false;
        }
        DoHi(t, g.value);
      } else if a.name == CLEARALL {
        DoClearAll(t);
      }
    } else if a.firstReceiver == EOSIO_NULL && a.name == CHAIN_EVENTS && a.creatorAction.Some? && a.creatorAction.value.receiver == cfg.account {
      return cfg.parseEvents(a.hexData);
    }
    ok := true;
  }

  /** Runs all the actions of a block; false when a decoder aborts. */
  method FilterBlock(cfg: Config, t: GreetingTable, b: EosioBlock) returns (ok: bool)
    requires Usable(t)
    modifies t
    ensures Usable(t) && (ok <==> ApplyTransactions(cfg, old(t.Abs()).current, b.transactions).Some?)
    ensures ok ==> t.Abs() == old(t.Abs()).(current := ApplyTransactions(cfg, old(t.Abs()).current, b.transactions).value)
  {
    hide ValidAt, ApplyActions;
    ghost var m, ts := t.Abs(), b.transactions;
    for i := 0 to |b.transactions|
      invariant Usable(t) && ApplyTransactions(cfg, m.current, ts[..i]).Some?
      invariant t.Abs() == m.(current := ApplyTransactions(cfg, m.current, ts[..i]).value)
    {
      assert ts[..i + 1][..i] == ts[..i];
      ok := RunTransaction(cfg, t, b.transactions[i]);
      if !ok {
        TransactionsStopAt(cfg, m.current, ts, i + 1);
        return false;
      }
    }
    assert ts[..|ts|] == ts;
    ok := true;
  }

  /** Runs the actions of a transaction. */
  method RunTransaction(cfg: Config, t: GreetingTable, trx: Transaction) returns (ok: bool)
    requires Usable(t)
    modifies t
    ensures Usable(t) && (ok <==> ApplyActions(cfg, old(t.Abs()).current, trx.actions).Some?)
    ensures ok ==> t.Abs() == old(t.Abs()).(current := ApplyActions(cfg, old(t.Abs()).current, trx.actions).value)
  {
    hide ValidAt, ApplyAction;
    ghost var m, actions := t.Abs(), trx.actions;
    for j := 0 to |trx.actions|
      invariant Usable(t) && ApplyActions(cfg, m.current, actions[..j]).Some?
      invariant t.Abs() == m.(current := ApplyActions(cfg, m.current, actions[..j]).value)
    {
      assert actions[..j + 1][..j] == actions[..j];
      ok := DoAction(cfg, t, trx.actions[j]);
      if !ok {
        ActionsStopAt(cfg, m.current, actions, j + 1);
        return false;
      }
    }
    assert actions[..|actions|] == actions;
    ok := true;
  }
}
