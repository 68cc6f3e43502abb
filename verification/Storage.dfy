/** The two instances the server keeps: one with every block, one trimmed after every
    push, fed the same inputs.  Trimming cannot be observed. */
module Storages {
  import opened Basics
  import opened Options
  import opened UndoModel
  import opened UndoMeaning
  import opened BlockLogs
  import opened Greetings
  import opened MicroChains

  // ----- eosio numbers stay sorted -----

  lemma SortedPrefix(s: seq<BlockWithId>, n: nat)
    requires EosioSorted(s) && n <= |s|
    ensures EosioSorted(s[..n])
  {
  }

  /** A block made by an eosio entry point goes right after the last smaller one, so
      accepting it keeps the eosio numbers strictly increasing. */
  lemma MadeKeepsSorted(hash: Block -> Id, chain: seq<BlockWithId>, irreversible: uint32, e: EosioBlock)
    requires OnChain(chain, Log(chain, irreversible)) && EosioSorted(chain)
    requires Checked(Log(chain, irreversible), Made(hash, Log(chain, irreversible), e)) == Appended
    ensures EosioSorted(Added(Log(chain, irreversible), Made(hash, Log(chain, irreversible), e)).blocks)
  {
    var l := Log(chain, irreversible);
    var b := Made(hash, l, e);
    var i := LowerBoundByEosioNum(chain, e.num);
    ChainNumbers(chain, l);
    MadeNumber(hash, chain, irreversible, e);
    EosioLowerBoundIsSearch(chain, e.num);
    assert Added(l, b).blocks == chain[..i] + [b];
    assert b.EosioNum() == e.num;
    hide Made, Checked, LowerBoundByEosioNum, OnChain;
  }

  /** On the full log the new block's number is one more than the position of its predecessor. */
  lemma MadeNumber(hash: Block -> Id, chain: seq<BlockWithId>, irreversible: uint32, e: EosioBlock)
    requires OnChain(chain, Log(chain, irreversible))
    ensures var i := LowerBoundByEosioNum(chain, e.num);
            var b := Made(hash, Log(chain, irreversible), e);
            && b.Num() == (i + 1) % UINT32
            && (b.Num() > 0 ==> b.Num() == i + 1 && LowerBoundByNum(chain, b.Num()) == i)
  {
    hide OnChain, LowerBoundByEosioNum;
    ChainNumbers(chain, Log(chain, irreversible));
  }

  // ----- the trimmed log answers as the full one -----

  /** `l` is the log of `chain` without its first `cut` blocks, all irreversible. */
  ghost predicate Cut(chain: seq<BlockWithId>, l: Log, cut: nat) {
    && OnChain(chain, l) && OnChain(chain, Log(chain, l.irreversible)) && EosioSorted(chain)
    && cut + |l.blocks| == |chain| && l.blocks == chain[cut..] && (cut > 0 ==> cut + 1 <= l.irreversible)
  }

  lemma CutOf(chain: seq<BlockWithId>, l: Log)
    requires OnChain(chain, l) && EosioSorted(chain)
    ensures Cut(chain, l, |chain| - |l.blocks|)
  {
    ChainNumbers(chain, l);
    assert chain[|chain| - |chain|..] == chain;
  }

  /** There is one position that separates. */
  lemma OneSeparator(s: seq<BlockWithId>, num: uint32, i: nat, j: nat)
    requires i <= |s| && j <= |s| && Separates(s, num, i) && Separates(s, num, j)
    ensures i == j
  {
    forall k | 0 <= k < |s|
      ensures k < i <==> s[k].EosioNum() < num
      ensures k < j <==> s[k].EosioNum() < num
    {
    }
    if i < |s| { assert num <= s[i].EosioNum(); }
    if j < |s| { assert num <= s[j].EosioNum(); }
  }

  /** Searching the cut log by eosio number. */
  lemma CutEosioSearch(chain: seq<BlockWithId>, l: Log, cut: nat, num: uint32)
    requires Cut(chain, l, cut)
    ensures var i, j := LowerBoundByEosioNum(chain, num), LowerBoundByEosioNum(l.blocks, num);
            j == if i < cut then 0 else i - cut
  {
    EosioLowerBoundIsSearch(chain, num);
    assert EosioSorted(l.blocks);
    EosioLowerBoundIsSearch(l.blocks, num);
    var i := LowerBoundByEosioNum(chain, num);
    assert Separates(l.blocks, num, if i < cut then 0 else i - cut);
    OneSeparator(l.blocks, num, LowerBoundByEosioNum(l.blocks, num), if i < cut then 0 else i - cut);
  }

  /** Searching the cut log by number. */
  lemma CutNumSearch(chain: seq<BlockWithId>, l: Log, cut: nat, num: uint32)
    requires Cut(chain, l, cut)
    ensures var i, j := LowerBoundByNum(chain, num), LowerBoundByNum(l.blocks, num);
            j == if i < cut then 0 else i - cut
  {
    ChainNumbers(chain, l);
  }

  /** The check looks only at the two blocks around the position. */
  lemma CheckIsLocal(k: Log, l: Log, b: BlockWithId)
    requires var i, j := LowerBoundByNum(k.blocks, b.Num()), LowerBoundByNum(l.blocks, b.Num());
             && k.irreversible == l.irreversible && i > 0 && j > 0 && k.blocks[i - 1] == l.blocks[j - 1]
             && (i < |k.blocks| <==> j < |l.blocks|) && (i < |k.blocks| ==> k.blocks[i] == l.blocks[j])
    ensures Checked(k, b) == Checked(l, b)
  {
  }

  /** A block that goes above the cut is checked the same in both logs. */
  lemma SameCheck(chain: seq<BlockWithId>, l: Log, cut: nat, b: BlockWithId)
    requires Cut(chain, l, cut) && LowerBoundByNum(chain, b.Num()) > cut
    ensures var full := Log(chain, l.irreversible);
            && Checked(full, b) == Checked(l, b)
            && Added(l, b).blocks == Added(full, b).blocks[cut..] && |Added(full, b).blocks| > cut
  {
    CutNumSearch(chain, l, cut, b.Num());
    var i := LowerBoundByNum(chain, b.Num());
    assert cut + |l.blocks| == |chain| && l.blocks == chain[cut..];
    hide Cut, LowerBoundByNum;
    CheckIsLocal(Log(chain, l.irreversible), l, b);
    hide Checked;
    CutPrefix(chain, l.blocks, cut, i);
  }

  lemma CutPrefix(chain: seq<BlockWithId>, s: seq<BlockWithId>, cut: nat, i: nat)
    requires cut <= i <= |chain| && s == chain[cut..]
    ensures s[..i - cut] == chain[..i][cut..] && forall b :: s[..i - cut] + [b] == (chain[..i] + [b])[cut..]
  {
  }

  lemma SameAbove(hash: Block -> Id, chain: seq<BlockWithId>, l: Log, cut: nat, e: EosioBlock)
    requires Cut(chain, l, cut) && LowerBoundByEosioNum(chain, e.num) > cut
    ensures var full := Log(chain, l.irreversible);
            var b := Made(hash, full, e);
            && Made(hash, l, e) == b
            && (b.Num() > 0 ==> LowerBoundByNum(chain, b.Num()) > cut)
            && (b.Num() == 0 ==> Checked(full, b) != Appended && Checked(l, b) != Appended)
  {
    hide LowerBoundByNum, Checked, OnChain, EosioSorted;
    CutEosioSearch(chain, l, cut, e.num);
    MadeNumber(hash, chain, l.irreversible, e);
    assert l.blocks == chain[cut..] && cut + |l.blocks| == |chain|;
    NoBlockZero(Log(chain, l.irreversible), Made(hash, l, e));
    NoBlockZero(l, Made(hash, l, e));
    hide Cut;
    var i := LowerBoundByEosioNum(chain, e.num);
    assert l.blocks[i - cut - 1] == chain[i - 1];
  }

  lemma NoBlockZero(l: Log, b: BlockWithId)
    ensures b.Num() == 0 ==> Checked(l, b) != Appended
  {
  }

  /** Both logs accept the same inner-chain blocks, and then make the same block. */
  lemma SameAnswer(hash: Block -> Id, chain: seq<BlockWithId>, l: Log, cut: nat, e: EosioBlock)
    requires Cut(chain, l, cut)
    ensures var full := Log(chain, l.irreversible);
            var f, t := Made(hash, full, e), Made(hash, l, e);
            && (Checked(full, f) == Appended <==> Checked(l, t) == Appended)
            && (Checked(full, f) == Appended ==>
                  f == t && Added(l, t).blocks == Added(full, f).blocks[cut..] && |Added(full, f).blocks| > cut)
  {
    var full := Log(chain, l.irreversible);
    if cut == 0 {
      assert chain[0..] == chain;
      assert l == full;
      assert Added(full, Made(hash, full, e)).blocks[0..] == Added(full, Made(hash, full, e)).blocks;
    } else if LowerBoundByEosioNum(chain, e.num) > cut {
      SameAbove(hash, chain, l, cut, e);
      hide Checked, Made, Cut;
      var b := Made(hash, full, e);
      if b.Num() > 0 { SameCheck(chain, l, cut, b); }
    } else {
      RefusedBelow(hash, chain, l, cut, e);
    }
  }

  /** Below the cut every block is irreversible: neither log accepts a replacement. */
  lemma RefusedBelow(hash: Block -> Id, chain: seq<BlockWithId>, l: Log, cut: nat, e: EosioBlock)
    requires Cut(chain, l, cut) && cut > 0 && LowerBoundByEosioNum(chain, e.num) <= cut
    ensures var full := Log(chain, l.irreversible);
            Checked(full, Made(hash, full, e)) != Appended && Checked(l, Made(hash, l, e)) != Appended
  {
    hide Checked;
    var full := Log(chain, l.irreversible);
    CutEosioSearch(chain, l, cut, e.num);
    MadeNumber(hash, chain, l.irreversible, e);
    ChainNumbers(chain, l);
    hide LowerBoundByNum;
    var b := Made(hash, full, e);
    NoBlockZero(full, b);
    if b.Num() > 0 { FinalRefused(full, b, LowerBoundByEosioNum(chain, e.num)); }
    FirstRefused(l, Made(hash, l, e));
  }

  lemma FinalRefused(l: Log, b: BlockWithId, i: nat)
    requires i == LowerBoundByNum(l.blocks, b.Num()) && i < |l.blocks| && l.blocks[i].Num() <= l.irreversible
    ensures Checked(l, b) != Appended
  {
  }

  lemma FirstRefused(l: Log, b: BlockWithId)
    requires l.blocks != [] && b.Num() == 1 <= l.blocks[0].Num() <= l.irreversible
    ensures Checked(l, b) != Appended
  {
  }

  function NumOf(b: Option<BlockWithId>): nat {
    if b.Some? then b.value.Num() else 0
  }

  lemma RaisedNumber(l: Log, b: Option<BlockWithId>)
    ensures Raised(l, b).irreversible == if NumOf(b) > l.irreversible then NumOf(b) else l.irreversible
    ensures Raised(l, b).blocks == l.blocks
  {
  }

  lemma BeforeNumber(chain: seq<BlockWithId>, l: Log, cut: nat, num: uint32)
    requires Cut(chain, l, cut)
    ensures var f, t := NumOf(BlockBeforeEosioNum(chain, num)), NumOf(BlockBeforeEosioNum(l.blocks, num));
            if f > cut then t == f else t == 0 && (f > 0 ==> f <= l.irreversible)
  {
    CutEosioSearch(chain, l, cut, num);
    ChainNumbers(chain, l);
  }

  /** Finality rises to the same number in both. */
  lemma SameRaise(full: Log, l: Log, cut: nat, num: uint32)
    requires Cut(full.blocks, l, cut) && full.irreversible == l.irreversible
    ensures Raised(full, BlockBeforeEosioNum(full.blocks, num)).irreversible == Raised(l, BlockBeforeEosioNum(l.blocks, num)).irreversible
    ensures Raised(full, BlockBeforeEosioNum(full.blocks, num)).blocks == full.blocks
  {
    BeforeNumber(full.blocks, l, cut, num);
    RaisedNumber(full, BlockBeforeEosioNum(full.blocks, num));
    RaisedNumber(l, BlockBeforeEosioNum(l.blocks, num));
    hide Cut, Raised, BlockBeforeEosioNum, NumOf;
  }

  /** Both logs take the same blocks off. */
  lemma SameUndo(chain: seq<BlockWithId>, l: Log, cut: nat, eosioNum: uint32)
    requires Cut(chain, l, cut)
    ensures var full := Log(chain, l.irreversible);
            var f, t := BlockByEosioNum(chain, eosioNum), BlockByEosioNum(l.blocks, eosioNum);
            (if f.Some? then UndoneCount(full, f.value.Num()) else 0) == (if t.Some? then UndoneCount(l, t.value.Num()) else 0)
  {
    hide UndoneCount, LowerBoundByNum, LowerBoundByEosioNum;
    CutEosioSearch(chain, l, cut, eosioNum);
    ChainNumbers(chain, l);
    EosioLowerBoundIsSearch(chain, eosioNum);
    var i := LowerBoundByEosioNum(chain, eosioNum);
    assert l.blocks == chain[cut..] && (cut > 0 ==> cut + 1 <= l.irreversible) && cut + |l.blocks| == |chain|;
    if i < |chain| {
      SameCount(chain, l, cut, chain[i].Num());
      if i < cut {
        NoneFinalUndone(Log(chain, l.irreversible), chain[i].Num());
        if l.blocks != [] { NoneFinalUndone(l, l.blocks[0].Num()); }
      } else {
        assert l.blocks[i - cut] == chain[i];
      }
    }
  }

  lemma NoneFinalUndone(l: Log, num: uint32)
    ensures num <= l.irreversible ==> UndoneCount(l, num) == 0
  {
  }

  lemma SameCount(chain: seq<BlockWithId>, l: Log, cut: nat, num: uint32)
    requires Cut(chain, l, cut)
    ensures UndoneCount(Log(chain, l.irreversible), num) == UndoneCount(l, num)
  {
    CutNumSearch(chain, l, cut, num);
    ChainNumbers(chain, l);
    hide OnChain, LowerBoundByNum, EosioSorted;
  }

  /** Adding a block both accept keeps the one a cut of the other. */
  lemma AddedCut(hash: Block -> Id, chain: seq<BlockWithId>, l: Log, cut: nat, e: EosioBlock)
    requires Cut(chain, l, cut) && Checked(l, Made(hash, l, e)) == Appended
    ensures var full := Log(chain, l.irreversible);
            var b := Made(hash, l, e);
            && Made(hash, full, e) == b && Checked(full, b) == Appended
            && Added(full, b).irreversible == l.irreversible == Added(l, b).irreversible
            && Cut(Added(full, b).blocks, Added(l, b), cut) && EosioSorted(Added(full, b).blocks)
            && 1 <= b.Num() <= |chain| + 1 && Added(full, b).blocks == chain[..b.Num() - 1] + [b]
  {
    hide Made, Checked, EosioSorted, OnChain;
    SameAnswer(hash, chain, l, cut, e);
    var full := Log(chain, l.irreversible);
    var b := Made(hash, l, e);
    FullOnChain(chain, l);
    MadeKeepsSorted(hash, chain, l.irreversible, e);
    assert OnChain(chain, l) && (cut > 0 ==> cut + 1 <= l.irreversible);
    hide Cut;
    BothAdded(chain, l, b, cut);
    CutArithmetic(full, l, b, cut);
    CutAgain(Added(full, b).blocks, Added(l, b), cut);
  }

  lemma CutAgain(chain: seq<BlockWithId>, l: Log, cut: nat)
    requires OnChain(chain, l) && OnChain(chain, Log(chain, l.irreversible)) && EosioSorted(chain)
    requires cut + |l.blocks| == |chain| && l.blocks == chain[cut..] && (cut > 0 ==> cut + 1 <= l.irreversible)
    ensures Cut(chain, l, cut)
  {
  }

  lemma BothAdded(chain: seq<BlockWithId>, l: Log, b: BlockWithId, cut: nat)
    requires OnChain(chain, l) && Checked(l, b) == Appended && Checked(Log(chain, l.irreversible), b) == Appended
    ensures var full := Log(chain, l.irreversible);
            && 1 <= b.Num() <= |chain| + 1 && Added(full, b).blocks == chain[..b.Num() - 1] + [b]
            && OnChain(Added(full, b).blocks, Added(l, b)) && OnChain(Added(full, b).blocks, Added(full, b))
  {
    var full := Log(chain, l.irreversible);
    FullOnChain(chain, l);
    AddedOnChain(chain, l, b);
    AddedOnChain(chain, full, b);
    AddNumbers(chain, full, b);
    hide OnChain, Checked, LogValid;
    AddedBlocks(full, b, b.Num() - 1);
  }

  lemma AddedBlocks(l: Log, b: BlockWithId, k: nat)
    requires k <= |l.blocks| && Forked(l, b) == |l.blocks| - k
    ensures Added(l, b).blocks == l.blocks[..k] + [b] && Added(l, b).irreversible == l.irreversible
  {
  }

  lemma CutArithmetic(full: Log, l: Log, b: BlockWithId, cut: nat)
    requires cut < |Added(full, b).blocks| && Added(l, b).blocks == Added(full, b).blocks[cut..]
    ensures cut + |Added(l, b).blocks| == |Added(full, b).blocks|
    ensures Added(l, b).irreversible == l.irreversible
  {
  }

  lemma FullOnChain(chain: seq<BlockWithId>, l: Log)
    requires OnChain(chain, l)
    ensures OnChain(chain, Log(chain, l.irreversible))
  {
    assert chain[|chain| - |chain|..] == chain;
  }

  lemma AddedOnChain(chain: seq<BlockWithId>, l: Log, b: BlockWithId)
    requires OnChain(chain, l) && Checked(l, b) == Appended
    ensures 1 <= b.Num() <= |chain| + 1 && OnChain(chain[..b.Num() - 1] + [b], Added(l, b))
  {
    AddNumbers(chain, l, b);
    hide Checked;
    var n := Forked(l, b);
    RollBackChain(chain, l, n);
    hide OnChain, Forked;
    ExtendChain(chain[..|chain| - n], l.(blocks := l.blocks[..|l.blocks| - n]), b, l.irreversible);
  }

  // ----- the object -----

  /** The server's storage: the block log of `blocksWasm` is never trimmed, that of
      `stateWasm` is trimmed after every push. */
  class Storage {
    const blocksWasm: MicroChain
    const stateWasm: MicroChain
    var head: nat

    ghost predicate Valid()
      reads this, blocksWasm, stateWasm, blocksWasm.log, stateWasm.log, blocksWasm.greetings, stateWasm.greetings
    {
      && {blocksWasm, blocksWasm.log, blocksWasm.greetings} !! {stateWasm, stateWasm.log, stateWasm.greetings}
      && blocksWasm.cfg == stateWasm.cfg && blocksWasm.hash == stateWasm.hash
      && blocksWasm.Valid() && stateWasm.Valid() && EosioSorted(blocksWasm.chain)
      && blocksWasm.log.blocks == blocksWasm.chain == stateWasm.chain
      && blocksWasm.log.irreversible == stateWasm.log.irreversible
    }

    constructor (cfg: Config, hash: Block -> Id)
      ensures Valid() && head == 0 && blocksWasm.cfg == cfg && blocksWasm.hash == hash
    {
      hide ValidAt, Consistent, Usable;
      blocksWasm := new MicroChain(cfg, hash);
      stateWasm := new MicroChain(cfg, hash);
      head := 0;
      new;
      assert blocksWasm.log.blocks == [];
    }

    /** Pushes a block of the outer chain, as text or from the history service.  Both
        instances answer the same and hold the same chain, finality and database. */
    method PushBlock(e: EosioBlock, eosioIrreversible: uint32) returns (added: bool, ran: bool)
      requires Valid()
      modifies this, blocksWasm, stateWasm, blocksWasm.log, stateWasm.log, blocksWasm.greetings, stateWasm.greetings
      ensures added <==> Checked(old(blocksWasm.log.Contents()), Made(blocksWasm.hash, old(blocksWasm.log.Contents()), e)) == Appended
      ensures added <==> Checked(old(stateWasm.log.Contents()), Made(stateWasm.hash, old(stateWasm.log.Contents()), e)) == Appended
      ensures ran <==> !added || Replay(blocksWasm.cfg, blocksWasm.chain).Some?
      ensures ran ==> Valid() && head == |blocksWasm.chain| && blocksWasm.Final()
      ensures ran ==> stateWasm.greetings.Abs() == blocksWasm.greetings.Abs()
      ensures ran && !added ==> blocksWasm.log.Contents() == old(blocksWasm.log.Contents())
      ensures ran && added ==>
                var l := Added(old(blocksWasm.log.Contents()), Made(blocksWasm.hash, old(blocksWasm.log.Contents()), e));
                blocksWasm.log.Contents() == Raised(l, BlockBeforeEosioNum(l.blocks, Plus1(eosioIrreversible)))
      ensures added ==>
                var b := Made(blocksWasm.hash, old(blocksWasm.log.Contents()), e);
                1 <= b.Num() <= |old(blocksWasm.chain)| + 1 && blocksWasm.chain == old(blocksWasm.chain)[..b.Num() - 1] + [b]
    {
      hide ValidAt, Consistent, Usable, Cut, Made, Checked, EosioSorted, Replay, Added, Raised, BlockBeforeEosioNum, LowerBoundByNum, LowerBoundByEosioNum, OnChain, Follows, LogValid;
      ghost var l := stateWasm.log.Contents();
      ghost var chain, hash := blocksWasm.chain, blocksWasm.hash;
      ghost var cut := TwinFacts(this);
      SameAnswer(hash, chain, l, cut, e);
      if Checked(l, Made(hash, l, e)) == Appended {
        AddedCut(hash, chain, l, cut, e);
        SameRaise(Added(Log(chain, l.irreversible), Made(hash, l, e)), Added(l, Made(hash, l, e)), cut, Plus1(eosioIrreversible));
      }
      added, ran := blocksWasm.AddEosioBlock(e, eosioIrreversible);
      if !ran {
        return;
      }
      var added2, ran2 := stateWasm.AddEosioBlock(e, eosioIrreversible);
      assert added2 == added && ran2;
      TrimState();
    }

    /** After a push the state's instance is trimmed. */
    method TrimState()
      requires Valid()
      modifies this`head, stateWasm.log
      ensures Valid() && head == |blocksWasm.chain| && stateWasm.greetings.Abs() == blocksWasm.greetings.Abs()
    {
      hide ValidAt, Consistent, Usable, EosioSorted, OnChain, Follows, LogValid, LowerBoundByNum;
      stateWasm.TrimBlocks();
      SameDatabase(this);
      HeadIsLength(this);
      head := if blocksWasm.log.blocks == [] then 0 else blocksWasm.log.blocks[|blocksWasm.log.blocks| - 1].Num();
    }

    method UndoEosioNum(eosioNum: uint32)
      requires Valid()
      modifies this, blocksWasm, stateWasm, blocksWasm.log, stateWasm.log, blocksWasm.greetings, stateWasm.greetings
      ensures Valid() && head == |blocksWasm.chain| && blocksWasm.Final()
      ensures stateWasm.greetings.Abs() == blocksWasm.greetings.Abs()
      ensures |blocksWasm.chain| <= |old(blocksWasm.chain)| && blocksWasm.chain == old(blocksWasm.chain)[..|blocksWasm.chain|]
    {
      hide ValidAt, Consistent, Usable, Cut, EosioSorted, Replay, UndoneCount, BlockByEosioNum;
      ghost var chain, l := blocksWasm.chain, stateWasm.log.Contents();
      ghost var cut := TwinFacts(this);
      SameUndo(chain, l, cut, eosioNum);
      blocksWasm.UndoEosioNum(eosioNum);
      stateWasm.UndoEosioNum(eosioNum);
      SortedPrefix(chain, |blocksWasm.chain|);
      SameDatabase(this);
      HeadIsLength(this);
      head := if blocksWasm.log.blocks == [] then 0 else blocksWasm.log.blocks[|blocksWasm.log.blocks| - 1].Num();
    }
  }

  lemma TwinFacts(s: Storage) returns (cut: nat)
    requires s.Valid()
    ensures Cut(s.blocksWasm.chain, s.stateWasm.log.Contents(), cut) && EosioSorted(s.blocksWasm.chain)
  {
    cut := |s.blocksWasm.chain| - |s.stateWasm.log.blocks|;
    CutOf(s.blocksWasm.chain, s.stateWasm.log.Contents());
  }

  lemma HeadIsLength(s: Storage)
    requires s.Valid()
    ensures var b := s.blocksWasm.log.blocks;
            |s.blocksWasm.chain| == if b == [] then 0 else b[|b| - 1].Num()
  {
    var m := s.blocksWasm;
    LogEnd(m.cfg, m.chain, m.log.Contents(), m.greetings.Abs());
  }

  /** Two databases that follow the same chain are the same. */
  lemma SameDatabase(s: Storage)
    requires s.Valid()
    ensures s.stateWasm.greetings.Abs() == s.blocksWasm.greetings.Abs()
  {
    var a, b := s.stateWasm, s.blocksWasm;
    FollowersAgree(a.cfg, a.chain, a.log.irreversible, a.greetings.Abs(), b.greetings.Abs());
  }

  lemma FollowersAgree(cfg: Config, chain: seq<BlockWithId>, irreversible: nat, m: Model<Greeting>, o: Model<Greeting>)
    requires Follows(cfg, chain, irreversible, m) && Follows(cfg, chain, irreversible, o)
    ensures m == o
  {
    forall k | 0 <= k < |m.saved|
      ensures m.saved[k] == o.saved[k]
    {
      assert Replay(cfg, chain[..irreversible + k]) == Some(m.saved[k]);
    }
  }
}
