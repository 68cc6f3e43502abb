/** What the table of a replayed chain holds, told from the actions of the chain alone. */
module GreetingHistory {
  import opened Basics
  import opened Options
  import opened UndoModel
  import opened BlockLogs
  import opened Greetings

  // ----- names -----

  function NameDigit(c: char): nat {
    if 'a' <= c <= 'z' then c as int - 'a' as int + 6
    else if '1' <= c <= '5' then c as int - '1' as int + 1
    else 0
  }

  /** string_to_name, for names of at most twelve characters: five bits each from the top. */
  function NameOf(s: string): nat
    requires |s| <= 12
  {
    NameFrom(s, 0)
  }

  function NameFrom(s: string, i: nat): nat
    requires i <= |s| <= 12
    decreases |s| - i
  {
    if i == |s| then 0 else NameDigit(s[i]) * Power(2, 64 - 5 * (i + 1)) + NameFrom(s, i + 1)
  }

  lemma NameStep(s: string, i: nat)
    requires i <= |s| <= 12
    ensures NameFrom(s, i) == if i == |s| then 0 else NameDigit(s[i]) * Power(2, 59 - 5 * i) + NameFrom(s, i + 1)
  {
  }

  lemma Five(n: nat)
    ensures Power(2, n + 5) == 32 * Power(2, n)
  {
    assert Power(2, n + 5) == 2 * Power(2, n + 4) == 4 * Power(2, n + 3) == 8 * Power(2, n + 2) == 16 * Power(2, n + 1);
  }

  lemma Powers()
    ensures Power(2, 4) == 0x10 && Power(2, 9) == 0x200 && Power(2, 14) == 0x4000 && Power(2, 19) == 0x8_0000
    ensures Power(2, 24) == 0x100_0000 && Power(2, 29) == 0x2000_0000 && Power(2, 34) == 0x4_0000_0000
    ensures Power(2, 39) == 0x80_0000_0000 && Power(2, 44) == 0x1000_0000_0000 && Power(2, 49) == 0x2_0000_0000_0000
    ensures Power(2, 54) == 0x40_0000_0000_0000 && Power(2, 59) == 0x800_0000_0000_0000
  {
    assert Power(2, 4) == 2 * Power(2, 3) == 4 * Power(2, 2) == 8 * Power(2, 1) == 16;
    hide Power;
    Five(4);
    Five(9);
    Five(14);
    Five(19);
    Five(24);
    Five(29);
    Five(34);
    Five(39);
    Five(44);
    Five(49);
    Five(54);
  }

  lemma HiIs()
    ensures HI == NameOf("hi")
  {
    hide Power, NameFrom;
    Powers();
    var s := "hi";
    NameStep(s, 0);
    NameStep(s, 1);
    NameStep(s, 2);
  }

  lemma ClearAllIs()
    ensures CLEARALL == NameOf("clearall")
  {
    hide Power, NameFrom;
    Powers();
    var s := "clearall";
    NameStep(s, 0);
    NameStep(s, 1);
    NameStep(s, 2);
    NameStep(s, 3);
    NameStep(s, 4);
    NameStep(s, 5);
    NameStep(s, 6);
    NameStep(s, 7);
    NameStep(s, 8);
  }

  lemma EosioNullIs()
    ensures EOSIO_NULL == NameOf("eosio.null")
  {
    hide Power, NameFrom;
    Powers();
    var s := "eosio.null";
    NameStep(s, 0);
    NameStep(s, 1);
    NameStep(s, 2);
    NameStep(s, 3);
    NameStep(s, 4);
    NameStep(s, 5);
    NameStep(s, 6);
    NameStep(s, 7);
    NameStep(s, 8);
    NameStep(s, 9);
    NameStep(s, 10);
  }

  lemma ChainEventsIs()
    ensures CHAIN_EVENTS == NameOf("chain.events")
  {
    hide Power, NameFrom;
    Powers();
    var s := "chain.events";
    NameStep(s, 0);
    NameStep(s, 1);
    NameStep(s, 2);
    NameStep(s, 3);
    NameStep(s, 4);
    NameStep(s, 5);
    NameStep(s, 6);
    NameStep(s, 7);
    NameStep(s, 8);
    NameStep(s, 9);
    NameStep(s, 10);
    NameStep(s, 11);
    NameStep(s, 12);
  }

  /** The numbers the dispatch compares with are those of the names. */
  lemma NamesAre()
    ensures HI == NameOf("hi") && CLEARALL == NameOf("clearall")
    ensures EOSIO_NULL == NameOf("eosio.null") && CHAIN_EVENTS == NameOf("chain.events")
  {
    HiIs();
    ClearAllIs();
    EosioNullIs();
    ChainEventsIs();
  }

  // ----- the history of a chain -----

  function ActionsOf(ts: seq<Transaction>): seq<Action> {
    if ts == [] then [] else ActionsOf(ts[..|ts| - 1]) + ts[|ts| - 1].actions
  }

  /** All actions of the chain's blocks, in order. */
  function History(chain: seq<BlockWithId>): seq<Action> {
    if chain == [] then [] else History(chain[..|chain| - 1]) + ActionsOf(chain[|chain| - 1].block.eosioBlock.transactions)
  }

  /** The greeting an action says. */
  function Said(cfg: Config, a: Action): Option<Greeting> {
    if a.firstReceiver == cfg.account && a.name == NameOf("hi") then cfg.parseHi(a.hexData) else None
  }

  predicate Clears(cfg: Config, a: Action) {
    a.firstReceiver == cfg.account && a.name == NameOf("clearall")
  }

  /** An action whose data is looked at and cannot be decoded. */
  predicate Unreadable(cfg: Config, a: Action) {
    if a.firstReceiver == cfg.account then a.name == NameOf("hi") && cfg.parseHi(a.hexData).None?
    else
      && a.firstReceiver == NameOf("eosio.null") && a.name == NameOf("chain.events")
      && a.creatorAction.Some? && a.creatorAction.value.receiver == cfg.account && !cfg.parseEvents(a.hexData)
  }

  /** How many of the actions say hi. */
  function HiCount(cfg: Config, acts: seq<Action>): nat {
    if acts == [] then 0
    else HiCount(cfg, acts[..|acts| - 1]) + if Said(cfg, acts[|acts| - 1]).Some? then 1 else 0
  }

  /** Action `k` is the last hi of its account, and nothing was cleared since.  It says `g`, and
      `id` hi actions are before it. */
  ghost predicate Lasting(cfg: Config, acts: seq<Action>, k: nat, id: nat, g: Greeting) {
    && k < |acts| && Said(cfg, acts[k]) == Some(g) && HiCount(cfg, acts[..k]) == id
    && forall j :: k < j < |acts| ==>
         !Clears(cfg, acts[j]) && (Said(cfg, acts[j]).Some? ==> Said(cfg, acts[j]).value.account != g.account)
  }

  /** The rows are the lasting greetings, each under the number of hi actions before it; the next
      id is the number of all of them. */
  ghost predicate Tells(cfg: Config, acts: seq<Action>, r: Rows) {
    && r.nextId == HiCount(cfg, acts)
    && (forall k: nat, id, g :: Lasting(cfg, acts, k, id, g) ==> id in r.rows && r.rows[id] == g)
    && (forall id :: id in r.rows ==> exists k: nat :: Lasting(cfg, acts, k, id, r.rows[id]))
  }

  // ----- one action after another -----

  lemma {:induction false} CountBelow(cfg: Config, acts: seq<Action>, k: nat)
    requires k < |acts| && Said(cfg, acts[k]).Some?
    ensures HiCount(cfg, acts[..k]) < HiCount(cfg, acts)
    decreases |acts|
  {
    var n := |acts| - 1;
    if k < n {
      CountBelow(cfg, acts[..n], k);
      assert acts[..n][..k] == acts[..k];
    }
  }

  lemma LastingBelow(cfg: Config, acts: seq<Action>, k: nat, id: nat, g: Greeting)
    requires Lasting(cfg, acts, k, id, g)
    ensures k < |acts| && id < HiCount(cfg, acts)
  {
    CountBelow(cfg, acts, k);
  }

  lemma LastingEarlier(cfg: Config, acts: seq<Action>, a: Action, k: nat, id: nat, g: Greeting)
    requires k < |acts|
    ensures Lasting(cfg, acts + [a], k, id, g) <==>
              Lasting(cfg, acts, k, id, g) && !Clears(cfg, a) && (Said(cfg, a).Some? ==> Said(cfg, a).value.account != g.account)
  {
    var all := acts + [a];
    assert all[..k] == acts[..k];
    assert forall j :: 0 <= j < |acts| ==> all[j] == acts[j];
    assert all[|acts|] == a;
  }

  lemma LastingNewest(cfg: Config, acts: seq<Action>, a: Action, id: nat, g: Greeting)
    ensures Lasting(cfg, acts + [a], |acts|, id, g) <==> Said(cfg, a) == Some(g) && id == HiCount(cfg, acts)
    ensures HiCount(cfg, acts + [a]) == HiCount(cfg, acts) + if Said(cfg, a).Some? then 1 else 0
  {
    assert (acts + [a])[..|acts|] == acts;
  }

  /** An action that says hi is not one that clears. */
  lemma NotBoth(cfg: Config, a: Action)
    ensures Said(cfg, a).Some? ==> !Clears(cfg, a)
  {
    NamesAre();
  }

  lemma TellsNext(cfg: Config, acts: seq<Action>, r: Rows, a: Action)
    requires Tells(cfg, acts, r)
    ensures ApplyAction(cfg, r, a).None? <==> Unreadable(cfg, a)
    ensures ApplyAction(cfg, r, a).Some? ==> Tells(cfg, acts + [a], ApplyAction(cfg, r, a).value)
  {
    NamesAre();
    hide NameOf, HiCount, Lasting;
    var o := ApplyAction(cfg, r, a);
    if o.Some? {
      NextRows(cfg, r, a);
      var r' := o.value;
      LastingNewest(cfg, acts, a, 0, Greeting(0, ""));
      forall k: nat, id, g | Lasting(cfg, acts + [a], k, id, g)
        ensures id in r'.rows && r'.rows[id] == g
      {
        StaysInRows(cfg, acts, r, a, k, id, g);
      }
      forall id | id in r'.rows
        ensures exists k: nat :: Lasting(cfg, acts + [a], k, id, r'.rows[id])
      {
        var k := RowIsLasting(cfg, acts, r, a, id);
      }
    }
  }

  lemma StaysInRows(cfg: Config, acts: seq<Action>, r: Rows, a: Action, k: nat, id: nat, g: Greeting)
    requires Tells(cfg, acts, r) && ApplyAction(cfg, r, a).Some? && Lasting(cfg, acts + [a], k, id, g)
    ensures var r' := ApplyAction(cfg, r, a).value; id in r'.rows && r'.rows[id] == g
  {
    LastingBelow(cfg, acts + [a], k, id, g);
    hide NameOf, HiCount, Lasting;
    NextRows(cfg, r, a);
    hide ApplyAction;
    LastingNewest(cfg, acts, a, id, g);
    if k < |acts| {
      LastingEarlier(cfg, acts, a, k, id, g);
      LastingBelow(cfg, acts, k, id, g);
    }
  }

  /** The rows an action leaves, without naming what it calls. */
  lemma NextRows(cfg: Config, r: Rows, a: Action)
    requires ApplyAction(cfg, r, a).Some?
    ensures var r', g := ApplyAction(cfg, r, a).value, Said(cfg, a);
            && r'.nextId == r.nextId + (if g.Some? then 1 else 0)
            && (g.Some? ==> r.nextId in r'.rows && r'.rows[r.nextId] == g.value)
            && (forall id :: id in r'.rows && (g.Some? ==> id != r.nextId) ==> id in r.rows && r'.rows[id] == r.rows[id])
            && (forall id :: id in r.rows && (g.Some? ==> id != r.nextId) ==>
                  (id in r'.rows <==> !Clears(cfg, a) && (g.Some? ==> r.rows[id].account != g.value.account)))
  {
    NamesAre();
    hide NameOf;
    NotBoth(cfg, a);
  }

  lemma RowIsLasting(cfg: Config, acts: seq<Action>, r: Rows, a: Action, id: nat) returns (k: nat)
    requires Tells(cfg, acts, r) && ApplyAction(cfg, r, a).Some? && id in ApplyAction(cfg, r, a).value.rows
    ensures Lasting(cfg, acts + [a], k, id, ApplyAction(cfg, r, a).value.rows[id])
  {
    hide NameOf, HiCount, Lasting;
    NextRows(cfg, r, a);
    var g := ApplyAction(cfg, r, a).value.rows[id];
    hide ApplyAction;
    NotBoth(cfg, a);
    if Said(cfg, a).Some? && id == r.nextId {
      k := |acts|;
      LastingNewest(cfg, acts, a, id, g);
    } else {
      k :| Lasting(cfg, acts, k, id, r.rows[id]);
      LastingBelow(cfg, acts, k, id, g);
      LastingEarlier(cfg, acts, a, k, id, g);
    }
  }

  ghost predicate AnyUnreadable(cfg: Config, acts: seq<Action>) {
    exists k :: 0 <= k < |acts| && Unreadable(cfg, acts[k])
  }

  lemma UnreadableNext(cfg: Config, acts: seq<Action>, a: Action)
    ensures AnyUnreadable(cfg, acts + [a]) <==> AnyUnreadable(cfg, acts) || Unreadable(cfg, a)
  {
    if AnyUnreadable(cfg, acts) { var k :| 0 <= k < |acts| && Unreadable(cfg, acts[k]); assert (acts + [a])[k] == acts[k]; }
    if Unreadable(cfg, a) { assert (acts + [a])[|acts|] == a; }
  }

  lemma NothingTells(cfg: Config)
    ensures Tells(cfg, [], Snapshot(map[], 0)) && !AnyUnreadable(cfg, [])
  {
  }

  lemma {:induction false} ActionsTell(cfg: Config, acts: seq<Action>)
    ensures ApplyActions(cfg, Snapshot(map[], 0), acts).None? <==> AnyUnreadable(cfg, acts)
    ensures ApplyActions(cfg, Snapshot(map[], 0), acts).Some? ==> Tells(cfg, acts, ApplyActions(cfg, Snapshot(map[], 0), acts).value)
    decreases |acts|
  {
    hide Tells, AnyUnreadable, ApplyAction;
    if acts == [] {
      NothingTells(cfg);
    } else {
      var n := |acts| - 1;
      ActionsTell(cfg, acts[..n]);
      assert acts == acts[..n] + [acts[n]];
      UnreadableNext(cfg, acts[..n], acts[n]);
      var r := ApplyActions(cfg, Snapshot(map[], 0), acts[..n]);
      if r.Some? { TellsNext(cfg, acts[..n], r.value, acts[n]); }
    }
  }

  // ----- transactions and blocks -----

  lemma {:induction false} ActionsConcat(cfg: Config, s: Rows, a: seq<Action>, b: seq<Action>)
    ensures var r := ApplyActions(cfg, s, a);
            ApplyActions(cfg, s, a + b) == if r.None? then None else ApplyActions(cfg, r.value, b)
    decreases |b|
  {
    if b == [] {
      assert a + b == a;
    } else {
      var n := |b| - 1;
      assert (a + b)[..|a| + n] == a + b[..n];
      ActionsConcat(cfg, s, a, b[..n]);
    }
  }

  lemma {:induction false} TransactionsAre(cfg: Config, s: Rows, ts: seq<Transaction>)
    ensures ApplyTransactions(cfg, s, ts) == ApplyActions(cfg, s, ActionsOf(ts))
    decreases |ts|
  {
    if ts != [] {
      TransactionsAre(cfg, s, ts[..|ts| - 1]);
      ActionsConcat(cfg, s, ActionsOf(ts[..|ts| - 1]), ts[|ts| - 1].actions);
    }
  }

  lemma {:induction false} ReplayIsHistory(cfg: Config, chain: seq<BlockWithId>)
    ensures Replay(cfg, chain) == ApplyActions(cfg, Snapshot(map[], 0), History(chain))
    decreases |chain|
  {
    hide ApplyAction;
    if chain != [] {
      var n, s0: Rows := |chain| - 1, Snapshot(map[], 0);
      ReplayIsHistory(cfg, chain[..n]);
      var acts := ActionsOf(chain[n].block.eosioBlock.transactions);
      ActionsConcat(cfg, s0, History(chain[..n]), acts);
      var r := Replay(cfg, chain[..n]);
      if r.Some? { TransactionsAre(cfg, r.value, chain[n].block.eosioBlock.transactions); }
    }
  }

  /** A chain aborts exactly when one of its actions is unreadable.  Otherwise an account has a row
      exactly when it said hi after everything was last cleared; the row has the message of its
      last hi, and as its id the number of hi actions before that. */
  lemma ReplayTells(cfg: Config, chain: seq<BlockWithId>)
    ensures Replay(cfg, chain).None? <==> AnyUnreadable(cfg, History(chain))
    ensures Replay(cfg, chain).Some? ==> Tells(cfg, History(chain), Replay(cfg, chain).value)
  {
    ReplayIsHistory(cfg, chain);
    ActionsTell(cfg, History(chain));
  }
}
