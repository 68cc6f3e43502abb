/** The micro chain: a block log and a database that is always the replay of the
    surviving blocks. */
module MicroChains {
  import opened Basics
  import opened Options
  import opened UndoModel
  import opened UndoMeaning
  import opened UndoTable
  import opened BlockLogs
  import opened Greetings
  import GreetingHistory

  // ----- the database follows the chain -----

  /** `chain` is every surviving block from block 1; the log is the end of it that has
      not been trimmed. */
  ghost predicate OnChain(chain: seq<BlockWithId>, l: Log) {
    && LogValid(l) && LogValid(Log(chain, l.irreversible)) && (chain != [] ==> chain[0].Num() == 1)
    && |l.blocks| <= |chain| && l.blocks == chain[|chain| - |l.blocks|..]
    && l.irreversible <= |chain| && (chain != [] ==> l.blocks != [])
  }

  /** The database is the replay of the chain, with one undo session per reversible
      block, each saved copy being the replay up to that block. */
  ghost predicate Follows(cfg: Config, chain: seq<BlockWithId>, irreversible: nat, m: Model<Greeting>) {
    && irreversible <= |chain| == m.revision && |m.saved| == |chain| - irreversible
    && Replay(cfg, chain) == Some(m.current)
    && forall k :: 0 <= k < |m.saved| ==> Replay(cfg, chain[..irreversible + k]) == Some(m.saved[k])
  }

  ghost predicate Consistent(cfg: Config, chain: seq<BlockWithId>, l: Log, m: Model<Greeting>) {
    OnChain(chain, l) && Follows(cfg, chain, l.irreversible, m)
  }

  /** The model after `n` undos. */
  function Rolled(m: Model<Greeting>, n: nat): Model<Greeting>
    requires n <= |m.saved|
  {
    if n == 0 then m else Model(m.saved[|m.saved| - n], m.revision - n, m.saved[..|m.saved| - n])
  }

  lemma RolledNext(m: Model<Greeting>, n: nat)
    requires n < |m.saved|
    ensures Undone(Rolled(m, n)) == Rolled(m, n + 1)
  {
    if n > 0 { assert m.saved[..|m.saved| - n][..|m.saved| - n - 1] == m.saved[..|m.saved| - n - 1]; }
  }

  lemma ChainNumbers(chain: seq<BlockWithId>, l: Log)
    requires OnChain(chain, l)
    ensures forall i :: 0 <= i < |chain| ==> chain[i].Num() == i + 1
    ensures forall i :: 0 <= i < |l.blocks| ==> l.blocks[i].Num() == |chain| - |l.blocks| + i + 1
  {
  }

  // taking blocks off

  lemma RollBackChain(chain: seq<BlockWithId>, l: Log, n: nat)
    requires OnChain(chain, l) && n <= |l.blocks| && n <= |chain| - l.irreversible && (n == |l.blocks| ==> n == |chain|)
    ensures OnChain(chain[..|chain| - n], l.(blocks := l.blocks[..|l.blocks| - n]))
  {
    ChainNumbers(chain, l);
    var c', s' := chain[..|chain| - n], l.blocks[..|l.blocks| - n];
    PrefixLinked(chain, |chain| - n);
    PrefixLinked(l.blocks, |l.blocks| - n);
    hide Linked;
    assert s' == c'[|c'| - |s'|..];
  }

  lemma RollBackData(cfg: Config, chain: seq<BlockWithId>, irreversible: nat, m: Model<Greeting>, n: nat)
    requires Follows(cfg, chain, irreversible, m) && n <= |chain| - irreversible
    ensures n <= |m.saved| && Follows(cfg, chain[..|chain| - n], irreversible, Rolled(m, n))
  {
    hide Replay;
    var c', m' := chain[..|chain| - n], Rolled(m, n);
    forall k | 0 <= k < |m'.saved|
      ensures Replay(cfg, c'[..irreversible + k]) == Some(m'.saved[k])
    {
      assert c'[..irreversible + k] == chain[..irreversible + k];
    }
    if n == 0 {
      assert c' == chain;
    } else {
      assert c' == chain[..irreversible + (|m.saved| - n)];
    }
  }

  /** Taking `n` reversible blocks off and undoing `n` times keeps them together. */
  lemma RollBack(cfg: Config, chain: seq<BlockWithId>, l: Log, m: Model<Greeting>, n: nat)
    requires Consistent(cfg, chain, l, m) && n <= |l.blocks| && n <= |chain| - l.irreversible
    requires n == |l.blocks| ==> n == |chain|
    ensures n <= |m.saved|
    ensures Consistent(cfg, chain[..|chain| - n], l.(blocks := l.blocks[..|l.blocks| - n]), Rolled(m, n))
  {
    hide OnChain, Replay;
    RollBackChain(chain, l, n);
    RollBackData(cfg, chain, l.irreversible, m, n);
  }

  // finality

  /** How many sessions a commit at `to` leaves. */
  lemma CommitKeeps(m: Model<Greeting>, to: nat)
    requires |m.saved| <= m.revision && m.revision - |m.saved| <= to
    ensures KeptByCommit(m, to) == if to >= m.revision then 0 else m.revision - to
  {
  }

  lemma CommitData(cfg: Config, chain: seq<BlockWithId>, irreversible: nat, m: Model<Greeting>, to: nat)
    requires Follows(cfg, chain, irreversible, m) && irreversible <= to <= |chain|
    ensures Follows(cfg, chain, to, Committed(m, to))
  {
    hide Replay;
    CommitKeeps(m, to);
    var m' := Committed(m, to);
    forall k | 0 <= k < |m'.saved|
      ensures Replay(cfg, chain[..to + k]) == Some(m'.saved[k])
    {
      assert m'.saved[k] == m.saved[to - irreversible + k];
    }
  }

  /** Finality moving up and the commit that follows keep them together. */
  lemma RaiseAndCommit(cfg: Config, chain: seq<BlockWithId>, l: Log, m: Model<Greeting>, to: uint32)
    requires Consistent(cfg, chain, l, m) && LogValid(l.(irreversible := to)) && l.irreversible <= to <= |chain|
    ensures Consistent(cfg, chain, l.(irreversible := to), Committed(m, to))
  {
    CommitData(cfg, chain, l.irreversible, m, to);
    hide Follows;
    ChainNumbers(chain, l);
  }

  // a new block

  /** The model once the new block's actions ran: in a session of its own if the block
      is reversible, else with the revision set to its number. */
  function Extended(m: Model<Greeting>, to: nat, num: nat, rows: Rows): Model<Greeting> {
    var m1 := Committed(m, to);
    if num > to then SessionAdded(m1).(current := rows) else m1.(current := rows, revision := num)
  }

  lemma ReplayOneMore(cfg: Config, chain: seq<BlockWithId>, b: BlockWithId)
    requires Replay(cfg, chain).Some?
    ensures Replay(cfg, chain + [b]) == ApplyTransactions(cfg, Replay(cfg, chain).value, b.block.eosioBlock.transactions)
  {
    hide ApplyTransactions;
    assert (chain + [b])[..|chain|] == chain;
  }

  lemma ExtendData(cfg: Config, chain: seq<BlockWithId>, irreversible: nat, m: Model<Greeting>, b: BlockWithId, to: uint32, rows: Rows)
    requires Follows(cfg, chain, irreversible, m) && irreversible <= to <= |chain| + 1
    requires ApplyTransactions(cfg, m.current, b.block.eosioBlock.transactions) == Some(rows)
    ensures Follows(cfg, chain + [b], to, Extended(m, to, |chain| + 1, rows))
    ensures to == |chain| + 1 ==> Committed(m, to).saved == []
  {
    hide Replay, ApplyTransactions;
    var c', m' := chain + [b], Extended(m, to, |chain| + 1, rows);
    ReplayOneMore(cfg, chain, b);
    CommitKeeps(m, to);
    forall k | 0 <= k < |m'.saved|
      ensures Replay(cfg, c'[..to + k]) == Some(m'.saved[k])
    {
      assert c'[..to + k] == chain[..to + k];
      if k == |m'.saved| - 1 {
        assert chain[..to + k] == chain;
      } else {
        assert m'.saved[k] == m.saved[to - irreversible + k];
      }
    }
  }

  lemma ExtendChain(chain: seq<BlockWithId>, l: Log, b: BlockWithId, to: uint32)
    requires OnChain(chain, l) && LogValid(Log(l.blocks + [b], to))
    requires b.Num() == |chain| + 1 && to <= b.Num()
    ensures OnChain(chain + [b], Log(l.blocks + [b], to))
  {
    ChainNumbers(chain, l);
    var c', s := chain + [b], l.blocks + [b];
    assert s == c'[|c'| - |s|..];
    forall i | 0 < i < |c'|
      ensures NamesPrevious(c', i)
    {
      if i == |chain| {
        assert NamesPrevious(s, |l.blocks|) && s[|l.blocks| - 1] == chain[|chain| - 1];
      } else {
        assert NamesPrevious(chain, i);
      }
    }
  }

  lemma Extend(cfg: Config, chain: seq<BlockWithId>, l: Log, m: Model<Greeting>, b: BlockWithId, to: uint32, rows: Rows)
    requires Consistent(cfg, chain, l, m) && LogValid(Log(l.blocks + [b], to))
    requires b.Num() == |chain| + 1 && l.irreversible <= to <= b.Num()
    requires ApplyTransactions(cfg, m.current, b.block.eosioBlock.transactions) == Some(rows)
    ensures Consistent(cfg, chain + [b], Log(l.blocks + [b], to), Extended(m, to, b.Num(), rows))
    ensures b.Num() <= to ==> MaySetRevision(Committed(m, to), b.Num())
  {
    hide OnChain, Replay, ApplyTransactions;
    ExtendChain(chain, l, b, to);
    ExtendData(cfg, chain, l.irreversible, m, b, to, rows);
  }

  // trimming

  /** Trimming leaves the chain and the database alone. */
  lemma TrimKeeps(chain: seq<BlockWithId>, l: Log)
    requires OnChain(chain, l)
    ensures OnChain(chain, Trimmed(l))
  {
    hide LogValid, Trimmed;
    TrimmedIsValid(l);
    TrimmedShape(l);
    var s := Trimmed(l).blocks;
    assert s == chain[|chain| - |s|..];
  }

  lemma OnlyChain(chain: seq<BlockWithId>, l: Log)
    requires OnChain(chain, l)
    ensures l.irreversible <= |chain| && Trimmed(l).irreversible == l.irreversible
  {
  }

  // ----- the object -----

  class MicroChain {
    const cfg: Config
    const hash: Block -> Id
    const log: BlockLog
    const greetings: GreetingTable
    ghost var chain: seq<BlockWithId>

    ghost predicate Valid()
      reads this, log, greetings
    {
      Usable(greetings) && Consistent(cfg, chain, log.Contents(), greetings.Abs())
    }

    /** No block at or below the irreversible one has been replaced. */
    twostate predicate Final()
      reads this, log, greetings
    {
      && old(log.irreversible) <= log.irreversible
      && old(log.irreversible) <= |old(chain)| && old(log.irreversible) <= |chain|
      && chain[..old(log.irreversible)] == old(chain)[..old(log.irreversible)]
    }

    constructor (cfg: Config, hash: Block -> Id)
      ensures Valid() && chain == [] && log.Contents() == Log([], 0) && this.cfg == cfg && this.hash == hash
      ensures fresh(log) && fresh(greetings)
    {
      this.cfg, this.hash := cfg, hash;
      log := new BlockLog();
      greetings := new UndoIndex([ById(), ByPk()]);
      chain := [];
    }

    /** forked_n_blocks: undoes once per block taken off. */
    method ForkedBlocks(n: nat)
      requires Usable(greetings) && n <= |greetings.Abs().saved|
      modifies greetings
      ensures Usable(greetings) && greetings.Abs() == Rolled(old(greetings.Abs()), n)
    {
      hide ValidAt;
      ghost var m := greetings.Abs();
      var k := n;
      while k > 0
        invariant 0 <= k <= n && Usable(greetings) && greetings.Abs() == Rolled(m, n - k)
      {
        RolledNext(m, n - k);
        greetings.Undo();
        k := k - 1;
      }
    }

    /** The block log and the database take a block together.  `ran` is false when a
        decoder aborts, which ends the run. */
    method AddBlockWithId(b: BlockWithId, eosioIrreversible: uint32) returns (added: bool, ran: bool)
      requires Valid()
      modifies this, log, greetings
      ensures added <==> Checked(old(log.Contents()), b) == Appended
      ensures !added ==> ran && log.Contents() == old(log.Contents()) && chain == old(chain) && greetings.Abs() == old(greetings.Abs())
      ensures added ==>
                var l := Added(old(log.Contents()), b);
                log.Contents() == Raised(l, BlockBeforeEosioNum(l.blocks, Plus1(eosioIrreversible)))
      ensures added ==> 1 <= b.Num() <= |old(chain)| + 1 && chain == old(chain)[..b.Num() - 1] + [b]
      ensures ran <==> !added || Replay(cfg, chain).Some?
      ensures ran ==> Valid() && Final()
    {
      hide ValidAt, Consistent, LogValid, Replay, Checked, BlockBeforeEosioNum, Usable, Forked, LowerBoundByNum;
      ghost var l0, m0 := log.Contents(), greetings.Abs();
      var status, forked := log.AddBlock(b);
      IrreversibleInChain(cfg, chain, l0, m0);
      if status != Appended {
        return false, true;
      }
      added := true;
      AddFacts(cfg, chain, l0, m0, b);
      ForkedBlocks(forked);
      ghost var l1 := l0.(blocks := l0.blocks[..|l0.blocks| - forked]);
      ghost var l2 := log.Contents();
      ghost var chain0 := chain[..b.Num() - 1];
      var before := BlockBeforeEosioNum(log.blocks, Plus1(eosioIrreversible));
      RaiseFacts(l2, Plus1(eosioIrreversible), b);
      log.Raise(before);
      ran := RunBlock(b, chain0, l1);
      chain := chain0 + [b];
      FinalFacts(old(chain), chain, b.Num(), l0.irreversible);
    }

    /** Commits, then runs the new last block of the log, in a session if it is reversible. */
    method RunBlock(b: BlockWithId, ghost chain0: seq<BlockWithId>, ghost l: Log) returns (ran: bool)
      requires Usable(greetings) && Consistent(cfg, chain0, l, greetings.Abs())
      requires b.Num() == |chain0| + 1 && log.blocks == l.blocks + [b]
      requires l.irreversible <= log.irreversible <= b.Num() && LogValid(log.Contents())
      modifies greetings
      ensures Usable(greetings) && (ran <==> Replay(cfg, chain0 + [b]).Some?)
      ensures ran ==> Consistent(cfg, chain0 + [b], log.Contents(), greetings.Abs())
    {
      hide ValidAt, Consistent, LogValid, Replay, ApplyTransactions, Usable;
      ghost var m := greetings.Abs();
      ReplayNext(cfg, chain0, l, m, b);
      TableOk(greetings);
      greetings.Commit(log.irreversible);
      var needUndo := b.Num() > log.irreversible;
      if needUndo {
        var r := greetings.AddSession();
      }
      UsableAgain(greetings);
      ran := FilterBlock(cfg, greetings, b.block.eosioBlock);
      if ran {
        Extend(cfg, chain0, l, m, b, log.irreversible, greetings.Abs().current);
        if !needUndo {
          TableOk(greetings);
          var done := greetings.SetRevision(b.Num());
          UsableAgain(greetings);
        }
      }
    }

    /** A block without id gets its hash. */
    method AddBlock(block: Block, eosioIrreversible: uint32) returns (added: bool, ran: bool)
      requires Valid()
      modifies this, log, greetings
      ensures added <==> Checked(old(log.Contents()), BlockWithId(hash(block), block)) == Appended
      ensures !added ==> ran && log.Contents() == old(log.Contents()) && chain == old(chain) && greetings.Abs() == old(greetings.Abs())
      ensures added ==>
                var l := Added(old(log.Contents()), BlockWithId(hash(block), block));
                log.Contents() == Raised(l, BlockBeforeEosioNum(l.blocks, Plus1(eosioIrreversible)))
      ensures added ==> 1 <= block.num <= |old(chain)| + 1 && chain == old(chain)[..block.num - 1] + [BlockWithId(hash(block), block)]
      ensures ran <==> !added || Replay(cfg, chain).Some?
      ensures ran ==> Valid() && Final()
    {
      hide Consistent, Usable, Replay, Checked, Added, Raised, BlockBeforeEosioNum;
      added, ran := AddBlockWithId(BlockWithId(hash(block), block), eosioIrreversible);
    }

    /** A block of the outer chain goes after the last block with a smaller eosio number. */
    method AddEosioBlock(e: EosioBlock, eosioIrreversible: uint32) returns (added: bool, ran: bool)
      requires Valid()
      modifies this, log, greetings
      ensures var b := Made(hash, old(log.Contents()), e);
              && (added <==> Checked(old(log.Contents()), b) == Appended)
              && (added ==> var l := Added(old(log.Contents()), b);
                            log.Contents() == Raised(l, BlockBeforeEosioNum(l.blocks, Plus1(eosioIrreversible))))
              && (added ==> 1 <= b.Num() <= |old(chain)| + 1 && chain == old(chain)[..b.Num() - 1] + [b])
      ensures ran <==> !added || Replay(cfg, chain).Some?
      ensures !added ==> ran && log.Contents() == old(log.Contents()) && chain == old(chain) && greetings.Abs() == old(greetings.Abs())
      ensures ran ==> Valid() && Final()
    {
      var prev := BlockBeforeEosioNum(log.blocks, e.num);
      var block: Block;
      if prev.Some? {
        block := Block(Plus1(prev.value.Num()), prev.value.id, e);
      } else {
        block := Block(1, 0, e);
      }
      added, ran := AddBlock(block, eosioIrreversible);
    }

    method SetIrreversible(irreversible: uint32) returns (r: uint32)
      requires Valid()
      modifies log, greetings
      ensures Valid() && Final() && chain == old(chain) && r == log.irreversible
      ensures log.Contents() == Raised(old(log.Contents()), BlockBeforeNum(old(log.blocks), Plus1(irreversible)))
    {
      hide ValidAt, Consistent, Committed, Raised, BlockBeforeNum;
      ghost var l := log.Contents();
      var before := BlockBeforeNum(log.blocks, Plus1(irreversible));
      FinalityFacts(cfg, chain, l, greetings.Abs(), Plus1(irreversible));
      log.Raise(before);
      greetings.Commit(log.irreversible);
      r := log.irreversible;
    }

    method TrimBlocks()
      requires Valid()
      modifies log
      ensures Valid() && Final() && log.Contents() == Trimmed(old(log.Contents()))
    {
      hide ValidAt, OnChain, LogValid, Follows, Trimmed;
      OnlyChain(chain, log.Contents());
      TrimKeeps(chain, log.Contents());
      log.Trim();
    }

    method UndoBlockNum(num: uint32)
      requires Valid()
      modifies this, log, greetings
      ensures Valid() && Final() && log.Contents() == UndoneLog(old(log.Contents()), num)
      ensures UndoneCount(old(log.Contents()), num) <= |old(chain)|
      ensures chain == old(chain)[..|old(chain)| - UndoneCount(old(log.Contents()), num)]
    {
      hide ValidAt, Consistent, LogValid, Replay, UndoneCount, Usable;
      ghost var l, m := log.Contents(), greetings.Abs();
      UndoFacts(cfg, chain, l, m, num);
      var n := log.Undo(num);
      ForkedBlocks(n);
      chain := chain[..|chain| - n];
      assert chain[..l.irreversible] == old(chain)[..l.irreversible];
    }

    method UndoEosioNum(eosioNum: uint32)
      requires Valid()
      modifies this, log, greetings
      ensures Valid() && Final()
      ensures var b := BlockByEosioNum(old(log.blocks), eosioNum);
              && (b.Some? ==> UndoneCount(old(log.Contents()), b.value.Num()) <= |old(chain)|)
              && log.Contents() == (if b.Some? then UndoneLog(old(log.Contents()), b.value.Num()) else old(log.Contents()))
              && chain == old(chain)[..|old(chain)| - (if b.Some? then UndoneCount(old(log.Contents()), b.value.Num()) else 0)]
    {
      hide ValidAt, Consistent, Usable, BlockByEosioNum, UndoneCount;
      IrreversibleInChain(cfg, chain, log.Contents(), greetings.Abs());
      UndoBound(log.Contents(), cfg, chain, greetings.Abs());
      var b := BlockByEosioNum(log.blocks, eosioNum);
      if b.Some? {
        UndoBlockNum(b.value.Num());
      }
    }
  }

  datatype Call =
    | CallAddBlock(b: BlockWithId, eosioIrreversible: uint32)
    | CallAddEosioBlock(e: EosioBlock, eosioIrreversible: uint32)
    | CallSetIrreversible(irreversible: uint32)
    | CallTrim
    | CallUndoBlockNum(num: uint32)
    | CallUndoEosioNum(eosioNum: uint32)

  /** Any run of calls that does not abort ends with the database equal to the replay of
      the surviving chain, and never replaces a block that was irreversible. */
  method RunCalls(m: MicroChain, calls: seq<Call>) returns (ran: bool)
    requires m.Valid()
    modifies m, m.log, m.greetings
    ensures ran ==> m.Valid() && m.Final()
    ensures ran ==> Replay(m.cfg, m.chain) == Some(m.greetings.Abs().current)
    ensures ran ==> GreetingHistory.Tells(m.cfg, GreetingHistory.History(m.chain), m.greetings.Abs().current)
  {
    hide ValidAt, OnChain, Replay;
    for i := 0 to |calls|
      invariant m.Valid() && m.Final()
    {
      label before:
      ran := RunCall(m, calls[i]);
      if !ran { return; }
      StillFinal(old(m.chain), old@before(m.chain), m.chain, old(m.log.irreversible), old@before(m.log.irreversible));
    }
    ran := true;
    GreetingHistory.ReplayTells(m.cfg, m.chain);
  }

  method RunCall(m: MicroChain, call: Call) returns (ran: bool)
    requires m.Valid()
    modifies m, m.log, m.greetings
    ensures ran ==> m.Valid() && m.Final()
  {
    hide ValidAt, Consistent, Replay, Usable;
    ran := true;
    match call
    case CallAddBlock(b, e) =>
      var added;
      added, ran := m.AddBlockWithId(b, e);
    case CallAddEosioBlock(b, e) =>
      var added;
      added, ran := m.AddEosioBlock(b, e);
    case CallSetIrreversible(n) =>
      var r := m.SetIrreversible(n);
    case CallTrim =>
      m.TrimBlocks();
    case CallUndoBlockNum(n) =>
      m.UndoBlockNum(n);
    case CallUndoEosioNum(n) =>
      m.UndoEosioNum(n);
  }

  /** Finality is transitive. */
  lemma StillFinal(a: seq<BlockWithId>, b: seq<BlockWithId>, c: seq<BlockWithId>, i: nat, j: nat)
    requires i <= j && i <= |a| && i <= |b| && j <= |b| && j <= |c| && b[..i] == a[..i] && c[..j] == b[..j]
    ensures c[..i] == a[..i]
  {
    assert c[..j][..i] == c[..i] && b[..j][..i] == b[..i];
  }

  /** The block the eosio entry points make. */
  function Made(hash: Block -> Id, l: Log, e: EosioBlock): BlockWithId {
    var prev := BlockBeforeEosioNum(l.blocks, e.num);
    var block := if prev.Some? then Block(Plus1(prev.value.Num()), prev.value.id, e) else Block(1, 0, e);
    BlockWithId(hash(block), block)
  }

  /** It holds the outer block, names the last block with a smaller eosio number, and has the
      number after it; without one it is block 1. */
  lemma MadeBlock(hash: Block -> Id, l: Log, e: EosioBlock)
    ensures var b, i := Made(hash, l, e), LowerBoundByEosioNum(l.blocks, e.num);
            && b.id == hash(b.block) && b.block.eosioBlock == e && b.EosioNum() == e.num
            && (i == 0 ==> b.Num() == 1 && b.block.previous == 0)
            && (i > 0 ==> b.Num() == (l.blocks[i - 1].Num() + 1) % UINT32 && b.block.previous == l.blocks[i - 1].id)
  {
  }

  // ----- facts the methods use -----

  lemma FinalityFacts(cfg: Config, chain: seq<BlockWithId>, l: Log, m: Model<Greeting>, num: uint32)
    requires Consistent(cfg, chain, l, m)
    ensures var r := Raised(l, BlockBeforeNum(l.blocks, num));
            && l.irreversible <= r.irreversible && l.irreversible <= |chain| && r.blocks == l.blocks
            && Consistent(cfg, chain, r, Committed(m, r.irreversible))
  {
    var before := BlockBeforeNum(l.blocks, num);
    hide Follows, Committed, BlockBeforeNum;
    BeforeIsIn(l.blocks, num);
    RaisedIsValid(l, before);
    LogEnd(cfg, chain, l, m);
    RaiseAndCommit(cfg, chain, l, m, Raised(l, before).irreversible);
  }

  lemma BeforeIsIn(s: seq<BlockWithId>, num: uint32)
    ensures BlockBeforeNum(s, num).Some? ==> BlockBeforeNum(s, num).value in s
  {
  }

  lemma AddFacts(cfg: Config, chain: seq<BlockWithId>, l: Log, m: Model<Greeting>, b: BlockWithId)
    requires Consistent(cfg, chain, l, m) && Checked(l, b) == Appended
    ensures var n := Forked(l, b);
            var l1 := l.(blocks := l.blocks[..|l.blocks| - n]);
            && n <= |l.blocks| && n <= |m.saved| && b.Num() == |chain| - n + 1 && b.Num() > l.irreversible
            && Added(l, b) == l1.(blocks := l1.blocks + [b]) && LogValid(Added(l, b))
            && Consistent(cfg, chain[..b.Num() - 1], l1, Rolled(m, n))
  {
    hide Consistent, Checked, Forked, Added, LogValid;
    AddBounds(cfg, chain, l, m, b);
    RollBack(cfg, chain, l, m, Forked(l, b));
  }

  lemma AddBounds(cfg: Config, chain: seq<BlockWithId>, l: Log, m: Model<Greeting>, b: BlockWithId)
    requires Consistent(cfg, chain, l, m) && Checked(l, b) == Appended
    ensures var n := Forked(l, b);
            && n <= |l.blocks| && n <= |chain| - l.irreversible && (n == |l.blocks| ==> n == |chain|)
            && b.Num() == |chain| - n + 1 && b.Num() > l.irreversible
            && Added(l, b) == l.(blocks := l.blocks[..|l.blocks| - n] + [b]) && LogValid(Added(l, b))
  {
    hide Follows, OnChain;
    AddNumbers(chain, l, b);
  }

  lemma AddNumbers(chain: seq<BlockWithId>, l: Log, b: BlockWithId)
    requires OnChain(chain, l) && Checked(l, b) == Appended
    ensures var n := Forked(l, b);
            && n <= |l.blocks| && n <= |chain| - l.irreversible && (n == |l.blocks| ==> n == |chain|)
            && b.Num() == |chain| - n + 1 && b.Num() > l.irreversible
            && Added(l, b) == l.(blocks := l.blocks[..|l.blocks| - n] + [b]) && LogValid(Added(l, b))
  {
    AddedIsValid(l, b);
    ChainNumbers(chain, l);
  }

  lemma IrreversibleInChain(cfg: Config, chain: seq<BlockWithId>, l: Log, m: Model<Greeting>)
    requires Consistent(cfg, chain, l, m)
    ensures l.irreversible <= |chain|
  {
  }

  lemma TableOk(t: GreetingTable)
    requires Usable(t)
    ensures t.Valid() && t.exts == [ById(), ByPk()]
  {
  }

  lemma UsableAgain(t: GreetingTable)
    requires t.Valid() && t.exts == [ById(), ByPk()]
    ensures Usable(t)
  {
  }

  lemma ReplayNext(cfg: Config, chain: seq<BlockWithId>, l: Log, m: Model<Greeting>, b: BlockWithId)
    requires Consistent(cfg, chain, l, m)
    ensures Replay(cfg, chain + [b]) == ApplyTransactions(cfg, m.current, b.block.eosioBlock.transactions)
  {
    assert (chain + [b])[..|chain|] == chain;
  }

  lemma FinalFacts(before: seq<BlockWithId>, after: seq<BlockWithId>, num: nat, irreversible: nat)
    requires irreversible < num <= |before| + 1 && |after| == num && after[..num - 1] == before[..num - 1]
    ensures irreversible <= |before| && irreversible <= |after| && after[..irreversible] == before[..irreversible]
  {
    assert after[..irreversible] == after[..num - 1][..irreversible];
  }

  lemma BeforeIsInLog(s: seq<BlockWithId>, num: uint32)
    ensures BlockBeforeEosioNum(s, num).Some? ==> BlockBeforeEosioNum(s, num).value in s
  {
  }

  lemma RaiseFacts(l: Log, num: uint32, last: BlockWithId)
    requires LogValid(l) && l.blocks != [] && l.blocks[|l.blocks| - 1] == last
    ensures var r := Raised(l, BlockBeforeEosioNum(l.blocks, num));
            LogValid(r) && l.irreversible <= r.irreversible <= last.Num()
  {
    BeforeIsInLog(l.blocks, num);
    RaisedIsValid(l, BlockBeforeEosioNum(l.blocks, num));
  }

  lemma LogEnd(cfg: Config, chain: seq<BlockWithId>, l: Log, m: Model<Greeting>)
    requires Consistent(cfg, chain, l, m)
    ensures l.blocks != [] ==> l.blocks[|l.blocks| - 1].Num() == |chain|
    ensures l.blocks == [] ==> chain == []
  {
    ChainNumbers(chain, l);
  }

  lemma UndoBound(l: Log, cfg: Config, chain: seq<BlockWithId>, m: Model<Greeting>)
    requires Consistent(cfg, chain, l, m)
    ensures forall num: uint32 :: UndoneCount(l, num) <= |chain|
  {
  }

  lemma UndoFacts(cfg: Config, chain: seq<BlockWithId>, l: Log, m: Model<Greeting>, num: uint32)
    requires Consistent(cfg, chain, l, m)
    ensures var n := UndoneCount(l, num);
            && n <= |l.blocks| && n <= |chain| - l.irreversible && n <= |m.saved| && l.irreversible <= |chain|
            && Consistent(cfg, chain[..|chain| - n], UndoneLog(l, num), Rolled(m, n))
  {
    hide OnChain, Follows, UndoneCount, Replay, Rolled;
    UndoNumbers(chain, l, num);
    RollBack(cfg, chain, l, m, UndoneCount(l, num));
  }

  lemma UndoNumbers(chain: seq<BlockWithId>, l: Log, num: uint32)
    requires OnChain(chain, l)
    ensures var n := UndoneCount(l, num);
            n <= |l.blocks| && n <= |chain| - l.irreversible && (n == |l.blocks| ==> n == |chain|) && l.irreversible <= |chain|
  {
    UndoneIsValid(l, num);
    ChainNumbers(chain, l);
  }
}
