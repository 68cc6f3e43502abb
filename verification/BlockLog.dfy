/** The log of hash-linked blocks: forkable above the irreversible block, trimmable below it. */
module BlockLogs {
  import opened Basics
  import opened Options
  import ByteStrings

  type Id = nat
  type Name = nat
  type Bytes = ByteStrings.Bytes

  datatype CreatorAction = CreatorAction(sequence: nat, receiver: Name)
  datatype Action = Action(sequence: nat, firstReceiver: Name, receiver: Name, name: Name, creatorAction: Option<CreatorAction>, hexData: Bytes)
  datatype Transaction = Transaction(id: Id, actions: seq<Action>)
  datatype EosioBlock = EosioBlock(num: uint32, id: Id, previous: Id, timestamp: int, transactions: seq<Transaction>)
  datatype Block = Block(num: uint32, previous: Id, eosioBlock: EosioBlock)
  datatype BlockWithId = BlockWithId(id: Id, block: Block) {
    function Num(): uint32 { block.num }
    function EosioNum(): uint32 { block.eosioBlock.num }
  }

  datatype Status = Appended | Duplicate | Unlinkable

  /** The contents of a block_log. */
  datatype Log = Log(blocks: seq<BlockWithId>, irreversible: uint32)

  // ----- lookups -----

  /** lower_bound_by_num: constant time, from the number of the first block. */
  function LowerBoundByNum(s: seq<BlockWithId>, num: uint32): (i: nat)
    ensures i <= |s|
  {
    if s == [] then 0
    else if num <= s[0].Num() then 0
    else if num - s[0].Num() < |s| then num - s[0].Num()
    else |s|
  }

  /** std::lower_bound over the eosio numbers, by halving `len`. */
  function Halving(s: seq<BlockWithId>, num: uint32, first: nat, len: nat): (i: nat)
    requires first + len <= |s|
    ensures first <= i <= first + len
    decreases len
  {
    if len == 0 then first
    else
      var half := len / 2;
      if s[first + half].EosioNum() < num then Halving(s, num, first + half + 1, len - (half + 1))
      else Halving(s, num, first, half)
  }

  function LowerBoundByEosioNum(s: seq<BlockWithId>, num: uint32): (i: nat)
    ensures i <= |s|
  {
    Halving(s, num, 0, |s|)
  }

  function BlockByNum(s: seq<BlockWithId>, num: uint32): Option<BlockWithId> {
    var i := LowerBoundByNum(s, num);
    if i < |s| && s[i].Num() == num then Some(s[i]) else None
  }

  function BlockByEosioNum(s: seq<BlockWithId>, num: uint32): Option<BlockWithId> {
    var i := LowerBoundByEosioNum(s, num);
    if i < |s| && s[i].EosioNum() == num then Some(s[i]) else None
  }

  function BlockBeforeNum(s: seq<BlockWithId>, num: uint32): Option<BlockWithId> {
    var i := LowerBoundByNum(s, num);
    if i != 0 then Some(s[i - 1]) else None
  }

  function BlockBeforeEosioNum(s: seq<BlockWithId>, num: uint32): Option<BlockWithId> {
    var i := LowerBoundByEosioNum(s, num);
    if i != 0 then Some(s[i - 1]) else None
  }

  function Plus1(x: uint32): uint32 { (x + 1) % UINT32 }

  // ----- changes -----

  function Checked(l: Log, b: BlockWithId): Status {
    var i := LowerBoundByNum(l.blocks, b.Num());
    if i < |l.blocks| && b.id == l.blocks[i].id then Duplicate
    else if i == 0 && b.Num() != 1 then Unlinkable
    else if i != 0 && (b.block.previous != l.blocks[i - 1].id || b.Num() != Plus1(l.blocks[i - 1].Num())) then Unlinkable
    else if i < |l.blocks| && l.blocks[i].Num() <= l.irreversible then Unlinkable
    else Appended
  }

  /** How many blocks an accepted block replaces. */
  function Forked(l: Log, b: BlockWithId): nat {
    |l.blocks| - LowerBoundByNum(l.blocks, b.Num())
  }

  function Added(l: Log, b: BlockWithId): Log {
    l.(blocks := l.blocks[..LowerBoundByNum(l.blocks, b.Num())] + [b])
  }

  /** How many blocks an undo takes off. */
  function UndoneCount(l: Log, num: uint32): (n: nat)
    ensures n <= |l.blocks|
  {
    if num <= l.irreversible then 0
    else
      var i := LowerBoundByNum(l.blocks, num);
      if i == |l.blocks| || l.blocks[i].Num() != num then 0 else |l.blocks| - i
  }

  function UndoneLog(l: Log, num: uint32): Log {
    l.(blocks := l.blocks[..|l.blocks| - UndoneCount(l, num)])
  }

  function Trimmed(l: Log): Log {
    l.(blocks := l.blocks[LowerBoundByNum(l.blocks, l.irreversible)..])
  }

  /** Finality moves up to a block, never down. */
  function Raised(l: Log, b: Option<BlockWithId>): Log {
    if b.Some? && b.value.Num() > l.irreversible then l.(irreversible := b.value.Num()) else l
  }

  // ----- the invariant -----

  ghost predicate NamesPrevious(s: seq<BlockWithId>, i: nat)
    requires 0 < i < |s|
  {
    s[i].block.previous == s[i - 1].id
  }

  /** Numbers run on from the first and every block names the one before it. */
  ghost predicate Linked(s: seq<BlockWithId>) {
    && (forall i :: 0 <= i < |s| ==> s[i].Num() == s[0].Num() + i)
    && (forall i :: 0 < i < |s| ==> NamesPrevious(s, i))
  }

  /** The irreversible block, once there is one, is in the log; before that the log
      reaches down to block 1. */
  ghost predicate LogValid(l: Log) {
    && Linked(l.blocks)
    && (l.irreversible > 0 ==> l.blocks != [] && l.blocks[0].Num() <= l.irreversible <= l.blocks[|l.blocks| - 1].Num())
    && (l.blocks != [] ==> l.blocks[0].Num() >= 1)
    && (l.irreversible == 0 && l.blocks != [] ==> l.blocks[0].Num() == 1)
  }

  /** The constant-time lookup is the first block whose number is not below `num`. */
  lemma LowerBoundIsSearch(s: seq<BlockWithId>, num: uint32)
    requires Linked(s)
    ensures var i := LowerBoundByNum(s, num);
            && (forall j :: 0 <= j < i ==> s[j].Num() < num)
            && (forall j :: i <= j < |s| ==> num <= s[j].Num())
  {
  }

  /** Looking a number up finds the block with that number, if there is one. */
  lemma FindsByNum(s: seq<BlockWithId>, num: uint32)
    requires Linked(s)
    ensures BlockByNum(s, num).Some? <==> exists j :: 0 <= j < |s| && s[j].Num() == num
    ensures BlockByNum(s, num).Some? ==> BlockByNum(s, num).value.Num() == num && BlockByNum(s, num).value in s
  {
    LowerBoundIsSearch(s, num);
    if exists j :: 0 <= j < |s| && s[j].Num() == num {
      var j :| 0 <= j < |s| && s[j].Num() == num;
      assert j == LowerBoundByNum(s, num);
    }
  }

  /** Eosio numbers strictly increase. */
  ghost predicate EosioSorted(s: seq<BlockWithId>) {
    forall i, j :: 0 <= i < j < |s| ==> s[i].EosioNum() < s[j].EosioNum()
  }

  /** Position `i` separates the eosio numbers below `num` from the others. */
  ghost predicate Separates(s: seq<BlockWithId>, num: uint32, i: nat) {
    && (forall j :: 0 <= j < i && j < |s| ==> s[j].EosioNum() < num)
    && (forall j :: i <= j < |s| ==> num <= s[j].EosioNum())
  }

  lemma NeighboursSeparate(s: seq<BlockWithId>, num: uint32, i: nat)
    requires EosioSorted(s) && i <= |s|
    requires i > 0 ==> s[i - 1].EosioNum() < num
    requires i < |s| ==> num <= s[i].EosioNum()
    ensures Separates(s, num, i)
  {
    forall j | 0 <= j < i - 1 ensures s[j].EosioNum() < num { assert s[j].EosioNum() < s[i - 1].EosioNum(); }
    forall j | i < j < |s| ensures num <= s[j].EosioNum() { assert s[i].EosioNum() < s[j].EosioNum(); }
  }

  /** The blocks just outside the searched range are on the right side of `num`. */
  ghost predicate Bracketed(s: seq<BlockWithId>, num: uint32, first: nat, len: nat) {
    && first + len <= |s|
    && (first > 0 ==> s[first - 1].EosioNum() < num)
    && (first + len < |s| ==> num <= s[first + len].EosioNum())
  }

  /** One step halves the range and keeps the answer. */
  lemma HalvingStep(s: seq<BlockWithId>, num: uint32, first: nat, len: nat) returns (first': nat, len': nat)
    requires Bracketed(s, num, first, len) && len > 0
    ensures len' < len && Bracketed(s, num, first', len')
    ensures Halving(s, num, first, len) == Halving(s, num, first', len')
  {
    InRange(s, num, first, len);
    var half := len / 2;
    HalvingUnfolds(s, num, first, len);
    BracketHalves(s, num, first, len, half);
    hide Halving, Bracketed;
    if s[first + half].EosioNum() < num {
      first', len' := first + half + 1, len - (half + 1);
    } else {
      first', len' := first, half;
    }
  }

  lemma HalvingUnfolds(s: seq<BlockWithId>, num: uint32, first: nat, len: nat)
    requires 0 < len && first + len <= |s|
    ensures var half := len / 2;
            Halving(s, num, first, len) ==
              if s[first + half].EosioNum() < num then Halving(s, num, first + half + 1, len - (half + 1)) else Halving(s, num, first, half)
  {
  }

  lemma BracketHalves(s: seq<BlockWithId>, num: uint32, first: nat, len: nat, half: nat)
    requires Bracketed(s, num, first, len) && half < len
    ensures if s[first + half].EosioNum() < num then Bracketed(s, num, first + half + 1, len - (half + 1))
            else Bracketed(s, num, first, half)
  {
  }

  lemma InRange(s: seq<BlockWithId>, num: uint32, first: nat, len: nat)
    requires Bracketed(s, num, first, len)
    ensures first + len <= |s|
  {
  }

  lemma {:induction false} HalvingIsSearch(s: seq<BlockWithId>, num: uint32, first: nat, len: nat)
    requires EosioSorted(s) && Bracketed(s, num, first, len)
    ensures first + len <= |s| && Separates(s, num, Halving(s, num, first, len))
    decreases len
  {
    InRange(s, num, first, len);
    if len == 0 {
      NeighboursSeparate(s, num, first);
    } else {
      hide Bracketed, Halving, Separates, EosioSorted;
      var first', len' := HalvingStep(s, num, first, len);
      HalvingIsSearch(s, num, first', len');
    }
  }

  lemma EosioLowerBoundIsSearch(s: seq<BlockWithId>, num: uint32)
    requires EosioSorted(s)
    ensures Separates(s, num, LowerBoundByEosioNum(s, num))
  {
    HalvingIsSearch(s, num, 0, |s|);
  }

  lemma PrefixLinked(s: seq<BlockWithId>, n: nat)
    requires Linked(s) && n <= |s|
    ensures Linked(s[..n])
  {
    forall i | 0 < i < n
      ensures NamesPrevious(s[..n], i)
    {
      assert NamesPrevious(s, i);
    }
  }

  lemma SuffixLinked(s: seq<BlockWithId>, n: nat)
    requires Linked(s) && n <= |s|
    ensures Linked(s[n..])
  {
    forall i | 0 < i < |s| - n
      ensures NamesPrevious(s[n..], i)
    {
      assert NamesPrevious(s, n + i);
    }
  }

  /** An accepted block extends the log or replaces blocks above the irreversible one. */
  lemma AddedIsValid(l: Log, b: BlockWithId)
    requires LogValid(l) && Checked(l, b) == Appended
    ensures LogValid(Added(l, b))
    ensures l.blocks != [] ==> b.Num() == l.blocks[0].Num() + LowerBoundByNum(l.blocks, b.Num())
    ensures l.blocks == [] ==> b.Num() == 1
    ensures b.Num() > l.irreversible
    ensures LowerBoundByNum(l.blocks, b.Num()) == 0 ==> l.irreversible == 0
  {
    var i := LowerBoundByNum(l.blocks, b.Num());
    var s := Added(l, b).blocks;
    forall j | 0 < j < |s|
      ensures NamesPrevious(s, j)
    {
      assert s[j - 1] == l.blocks[j - 1];
      if j < i { assert NamesPrevious(l.blocks, j); }
    }
  }

  lemma UndoneIsValid(l: Log, num: uint32)
    requires LogValid(l)
    ensures LogValid(UndoneLog(l, num))
    ensures UndoneCount(l, num) > 0 ==> l.blocks[|l.blocks| - UndoneCount(l, num)].Num() == num > l.irreversible
  {
    PrefixLinked(l.blocks, |l.blocks| - UndoneCount(l, num));
  }

  /** Trimming keeps the irreversible block and everything after it. */
  lemma TrimmedShape(l: Log)
    requires LogValid(l)
    ensures Trimmed(l).irreversible == l.irreversible && |Trimmed(l).blocks| <= |l.blocks|
    ensures l.blocks != [] ==> Trimmed(l).blocks != []
  {
    TrimmedIsValid(l);
    hide LowerBoundByNum, Linked;
  }

  lemma TrimmedIsValid(l: Log)
    requires LogValid(l)
    ensures LogValid(Trimmed(l))
    ensures Trimmed(l).blocks == l.blocks[|l.blocks| - |Trimmed(l).blocks|..]
    ensures l.irreversible > 0 ==> Trimmed(l).blocks[0].Num() == l.irreversible
    ensures l.irreversible == 0 ==> Trimmed(l) == l
  {
    SuffixLinked(l.blocks, LowerBoundByNum(l.blocks, l.irreversible));
    if l.irreversible == 0 { assert l.blocks[0..] == l.blocks; }
  }

  lemma RaisedIsValid(l: Log, b: Option<BlockWithId>)
    requires LogValid(l) && (b.Some? ==> b.value in l.blocks)
    ensures LogValid(Raised(l, b)) && Raised(l, b).irreversible >= l.irreversible
    ensures l.blocks != [] ==> Raised(l, b).irreversible <= l.blocks[|l.blocks| - 1].Num()
  {
  }

  // ----- exactly what each change does -----

  /** A block is accepted exactly when the log of the blocks with lower numbers and this one is
      valid, its number is not final, and it is not the block already there. */
  lemma AcceptedExactly(l: Log, b: BlockWithId)
    requires LogValid(l)
    ensures var i := LowerBoundByNum(l.blocks, b.Num());
            && (Checked(l, b) == Appended <==>
                  b.Num() > l.irreversible && LogValid(Log(l.blocks[..i] + [b], l.irreversible)) && (i < |l.blocks| ==> l.blocks[i].id != b.id))
            && (Checked(l, b) == Duplicate <==> i < |l.blocks| && l.blocks[i].id == b.id)
            && Added(l, b) == Log(l.blocks[..i] + [b], l.irreversible) && Forked(l, b) == |l.blocks| - i
  {
    var i := LowerBoundByNum(l.blocks, b.Num());
    if Checked(l, b) == Appended {
      AddedIsValid(l, b);
    }
    var s := l.blocks[..i] + [b];
    if LogValid(Log(s, l.irreversible)) && i > 0 {
      assert NamesPrevious(s, i) && s[i - 1] == l.blocks[i - 1] && s[i] == b;
    }
  }

  /** An undo takes off the block with the number and all after it, if that block is there and not
      final; otherwise nothing. */
  lemma UndoneExactly(l: Log, num: uint32, j: nat)
    requires LogValid(l)
    ensures num > l.irreversible && j < |l.blocks| && l.blocks[j].Num() == num ==>
              UndoneLog(l, num) == Log(l.blocks[..j], l.irreversible) && UndoneCount(l, num) == |l.blocks| - j
    ensures num <= l.irreversible || (forall k :: 0 <= k < |l.blocks| ==> l.blocks[k].Num() != num) ==>
              UndoneLog(l, num) == l && UndoneCount(l, num) == 0
  {
    if j < |l.blocks| && l.blocks[j].Num() == num { assert j == LowerBoundByNum(l.blocks, num); }
    assert l.blocks[..|l.blocks|] == l.blocks;
  }

  /** Finality told by number rises to that number, or to the head where that is lower; it stays
      where it is for a number below it or below the log, and for the one whose successor is zero. */
  lemma RaisedByNum(l: Log, n: uint32)
    requires LogValid(l)
    ensures var r := Raised(l, BlockBeforeNum(l.blocks, Plus1(n)));
            && r.blocks == l.blocks
            && r.irreversible ==
                 if l.blocks == [] || n < l.blocks[0].Num() || n == UINT32 - 1 then l.irreversible
                 else
                   var m := if n < l.blocks[|l.blocks| - 1].Num() then n else l.blocks[|l.blocks| - 1].Num();
                   if m > l.irreversible then m else l.irreversible
  {
    if l.blocks != [] && n >= l.blocks[0].Num() && n < UINT32 - 1 {
      var i := LowerBoundByNum(l.blocks, n + 1);
      assert l.blocks[i - 1].Num() == l.blocks[0].Num() + (i - 1);
      assert l.blocks[|l.blocks| - 1].Num() == l.blocks[0].Num() + (|l.blocks| - 1);
    }
  }

  /** Finality told by eosio number rises to the last block whose eosio number is not above it. */
  lemma RaisedByEosioNum(l: Log, n: uint32, i: nat)
    requires LogValid(l) && EosioSorted(l.blocks) && n < UINT32 - 1 && i <= |l.blocks|
    requires (i > 0 ==> l.blocks[i - 1].EosioNum() <= n) && (i < |l.blocks| ==> l.blocks[i].EosioNum() > n)
    ensures var r := Raised(l, BlockBeforeEosioNum(l.blocks, Plus1(n)));
            && r.blocks == l.blocks
            && r.irreversible == if i > 0 && l.blocks[i - 1].Num() > l.irreversible then l.blocks[i - 1].Num() else l.irreversible
  {
    EosioLowerBoundIsSearch(l.blocks, n + 1);
    var j := LowerBoundByEosioNum(l.blocks, n + 1);
    assert i == j;
  }

  /** Looking an eosio number up finds the block that has it. */
  lemma FindsByEosioNum(s: seq<BlockWithId>, num: uint32)
    requires EosioSorted(s)
    ensures BlockByEosioNum(s, num).Some? <==> exists j :: 0 <= j < |s| && s[j].EosioNum() == num
    ensures BlockByEosioNum(s, num).Some? ==> BlockByEosioNum(s, num).value.EosioNum() == num && BlockByEosioNum(s, num).value in s
  {
    EosioLowerBoundIsSearch(s, num);
    var i := LowerBoundByEosioNum(s, num);
    if exists j :: 0 <= j < |s| && s[j].EosioNum() == num {
      var j :| 0 <= j < |s| && s[j].EosioNum() == num;
      assert i <= j;
      assert s[i].EosioNum() >= num;
    }
  }

  // ----- the object -----

  class BlockLog {
    var blocks: seq<BlockWithId>
    var irreversible: uint32

    ghost function Contents(): Log
      reads this
    {
      Log(blocks, irreversible)
    }

    constructor ()
      ensures Contents() == Log([], 0) && LogValid(Contents())
    {
      blocks, irreversible := [], 0;
    }

    /** Checks a block, and if it links replaces everything from its number on by it. */
    method AddBlock(b: BlockWithId) returns (status: Status, forked: nat)
      modifies this`blocks
      ensures status == Checked(old(Contents()), b)
      ensures status == Appended ==> forked == Forked(old(Contents()), b) && Contents() == Added(old(Contents()), b)
      ensures status != Appended ==> forked == 0 && Contents() == old(Contents())
    {
      var i := LowerBoundByNum(blocks, b.Num());
      forked := 0;
      if i < |blocks| && b.id == blocks[i].id {
        return Duplicate, 0;
      }
      if i == 0 && b.Num() != 1 {
        return Unlinkable, 0;
      }
      if i != 0 {
        if b.block.previous != blocks[i - 1].id || b.Num() != Plus1(blocks[i - 1].Num()) {
          return Unlinkable, 0;
        }
      }
      if i < |blocks| && blocks[i].Num() <= irreversible {
        return Unlinkable, 0;
      }
      forked := |blocks| - i;
      blocks := blocks[..i];
      blocks := blocks + [b];
      status := Appended;
    }

    /** Takes off the block with a number above the irreversible one and all after it. */
    method Undo(num: uint32) returns (removed: nat)
      modifies this`blocks
      ensures removed == UndoneCount(old(Contents()), num) && Contents() == UndoneLog(old(Contents()), num)
    {
      if num <= irreversible {
        return 0;
      }
      var i := LowerBoundByNum(blocks, num);
      if i == |blocks| || blocks[i].Num() != num {
        return 0;
      }
      removed := |blocks| - i;
      blocks := blocks[..i];
    }

    /** Keeps only one irreversible block. */
    method Trim()
      modifies this`blocks
      ensures Contents() == Trimmed(old(Contents()))
    {
      blocks := blocks[LowerBoundByNum(blocks, irreversible)..];
    }

    method Raise(b: Option<BlockWithId>)
      modifies this`irreversible
      ensures Contents() == Raised(old(Contents()), b)
    {
      if b.Some? && b.value.Num() > irreversible {
        irreversible := b.value.Num();
      }
    }
  }
}
