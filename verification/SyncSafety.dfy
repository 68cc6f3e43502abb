/** The sync protocol as a state machine, and its safety and convergence. */
module SyncSafety {
  import opened Basics
  import opened Options
  import opened UndoModel
  import opened BlockLogs
  import opened SyncProtocol

  // ----- hashed, linked blocks -----

  /** Distinct blocks have distinct ids. */
  ghost predicate Injective(hash: Block -> Id) {
    forall a, b :: hash(a) == hash(b) ==> a == b
  }

  ghost predicate Hashed(hash: Block -> Id, s: seq<BlockWithId>) {
    forall i :: 0 <= i < |s| ==> s[i].id == hash(s[i].block) && s[i].EosioNum() >= 1
  }

  /** Equal ids mean equal ancestry. */
  lemma {:induction false} EqualAncestry(hash: Block -> Id, s: seq<BlockWithId>, i: nat, t: seq<BlockWithId>, j: nat, d: nat)
    requires Injective(hash) && Linked(s) && Linked(t) && Hashed(hash, s) && Hashed(hash, t)
    requires d <= i < |s| && d <= j < |t| && s[i].id == t[j].id
    ensures s[i - d] == t[j - d]
    decreases d
  {
    if d > 0 {
      EqualAncestry(hash, s, i, t, j, d - 1);
      assert NamesPrevious(s, i - d + 1) && NamesPrevious(t, j - d + 1);
      assert s[i - d].id == t[j - d].id;
    }
  }

  // ----- the parts of the invariant -----

  /** The server's log is whole: it starts with block 1. */
  ghost predicate ServerOk(hash: Block -> Id, s: Log) {
    && LogValid(s) && Hashed(hash, s.blocks) && |s.blocks| < UINT32 - 1
    && (s.blocks != [] ==> s.blocks[0].Num() == 1)
  }

  ghost predicate ClientOk(hash: Block -> Id, l: Log) {
    LogValid(l) && Hashed(hash, l.blocks) && LastNum(l.blocks) < UINT32 - 1
  }

  ghost predicate Holds(l: Log, num: nat) {
    l.blocks != [] && Linked(l.blocks) && l.blocks[0].Num() <= num <= LastNum(l.blocks)
  }

  /** The block with number `num`. */
  ghost function At(l: Log, num: nat): BlockWithId
    requires Holds(l, num)
  {
    l.blocks[num - l.blocks[0].Num()]
  }

  /** What the client takes for irreversible is irreversible on the server. */
  ghost predicate SettledOnServer(s: Log, l: Log) {
    && l.irreversible <= s.irreversible
    && (l.irreversible > 0 ==> Holds(l, l.irreversible) && Holds(s, l.irreversible) && At(l, l.irreversible) == At(s, l.irreversible))
  }

  ghost predicate Consecutive(s: seq<BlockInfo>) {
    forall i :: 0 <= i < |s| ==> s[i].num == s[0].num + i
  }

  /** The mirror covers the reversible blocks, and agrees with the log on every block
      both hold. */
  ghost predicate Mirrors(st: ClientStatus, l: Log) {
    && Linked(l.blocks) && Consecutive(st.blocks) && st.irreversible == l.irreversible
    && MirrorHead(st.blocks) == LastNum(l.blocks)
    && (st.blocks != [] ==> 1 <= st.blocks[0].num && (st.irreversible == 0 ==> st.blocks[0].num == 1) && (st.irreversible > 0 ==> st.blocks[0].num <= st.irreversible))
    && (forall i :: 0 <= i < |st.blocks| && Holds(l, st.blocks[i].num) ==> st.blocks[i].id == At(l, st.blocks[i].num).id)
  }

  /** The mirrored blocks up to the irreversible one are on the server's chain. */
  ghost predicate MirrorSettled(st: ClientStatus, s: Log) {
    forall i :: 0 <= i < |st.blocks| && st.blocks[i].num <= st.irreversible ==>
      Holds(s, st.blocks[i].num) && st.blocks[i].id == At(s, st.blocks[i].num).id
  }

  // ----- the state machine -----

  /** Both ends and the two channels between them. */
  datatype System = System(server: Log, status: Option<ClientStatus>, toClient: seq<Message>, toServer: seq<ClientStatus>, client: Log)

  /** The server's log changed: blocks were added, replaced or undone above the
      irreversible one, which may have moved up. */
  ghost predicate ServerChanged(hash: Block -> Id, s: Log, s': Log) {
    && ServerOk(hash, s') && s.irreversible <= s'.irreversible && s.irreversible <= |s.blocks| && s.irreversible <= |s'.blocks|
    && s'.blocks[..s.irreversible] == s.blocks[..s.irreversible]
  }

  ghost predicate Step(hash: Block -> Id, y: System, y': System) {
    || (ServerChanged(hash, y.server, y'.server) && y' == y.(server := y'.server))
    || (y.status.Some? && var u := Update(y.server, y.status.value);
        u.Some? && y' == y.(status := u.value.status, toClient := y.toClient + u.value.messages))
    || (y.toServer != [] && var u := Update(y.server, y.toServer[0]);
        u.Some? && y' == y.(status := u.value.status, toClient := y.toClient + u.value.messages, toServer := y.toServer[1..]))
    || (y.toClient != [] && exists maxBlocks: nat ::
        y' == y.(client := Process(y.client, y.toClient[0]), toClient := y.toClient[1..],
                 toServer := y.toServer + if y.toClient[0].SendStatus? then [StatusOf(y.client, maxBlocks)] else []))
  }

  /** A connection has just been opened: the client sends its status. */
  ghost predicate Init(hash: Block -> Id, y: System) {
    && Injective(hash) && ServerOk(hash, y.server) && ClientOk(hash, y.client) && SettledOnServer(y.server, y.client)
    && y.status == None && y.toClient == [] && |y.toServer| == 1
    && y.toServer[0] == StatusOf(y.client, y.toServer[0].maxBlocksToSend)
  }

  /** Every block among the messages is accepted, and the log is in order all the way. */
  ghost predicate Sound(hash: Block -> Id, l: Log, ms: seq<Message>)
    decreases |ms|
  {
    && ClientOk(hash, l)
    && (ms != [] ==> (ms[0].BlockMessage? ==> Checked(l, ms[0].b) == Appended) && Sound(hash, Process(l, ms[0]), ms[1..]))
  }

  lemma {:induction false} SoundConcat(hash: Block -> Id, l: Log, a: seq<Message>, b: seq<Message>)
    ensures Sound(hash, l, a + b) <==> Sound(hash, l, a) && Sound(hash, Deliver(l, a), b)
    ensures Sound(hash, l, a) ==> ClientOk(hash, Deliver(l, a))
    decreases |a|
  {
    if a == [] {
      assert a + b == b;
    } else {
      assert (a + b)[1..] == a[1..] + b;
      SoundConcat(hash, Process(l, a[0]), a[1..], b);
    }
  }

  /** SendStatus is at most the last message. */
  ghost predicate AsksLast(ms: seq<Message>) {
    forall i :: 0 <= i < |ms| - 1 ==> ms[i] != SendStatus
  }

  ghost predicate Asks(ms: seq<Message>) {
    ms != [] && ms[|ms| - 1] == SendStatus
  }

  /** The invariant.  With everything in flight delivered the client's log is the one
      mirrored, no block is rejected on the way, and what it takes for irreversible is. */
  ghost predicate Inv(hash: Block -> Id, y: System) {
    var d := Deliver(y.client, y.toClient);
    && Injective(hash) && ServerOk(hash, y.server) && Sound(hash, y.client, y.toClient)
    && AsksLast(y.toClient) && SettledOnServer(y.server, d)
    && (if y.status.Some? then
          !Asks(y.toClient) && y.toServer == [] && Mirrors(y.status.value, d) && MirrorSettled(y.status.value, y.server)
        else if y.toServer != [] then
          y.toClient == [] && |y.toServer| == 1 && y.toServer[0] == StatusOf(y.client, y.toServer[0].maxBlocksToSend)
        else Asks(y.toClient))
  }

  // ----- during an update -----

  /** Everything an update relies on. */
  ghost predicate Ready(hash: Block -> Id, s: Log, d: Log) {
    Injective(hash) && ServerOk(hash, s) && ClientOk(hash, d) && SettledOnServer(s, d)
  }

  /** The mirror agrees with the log on every block both hold. */
  ghost predicate Agrees(st: ClientStatus, l: Log) {
    && Linked(l.blocks) && Consecutive(st.blocks) && st.irreversible == l.irreversible
    && (st.blocks != [] ==> 1 <= st.blocks[0].num && (st.irreversible == 0 ==> st.blocks[0].num == 1) && (st.irreversible > 0 ==> st.blocks[0].num <= st.irreversible))
    && (forall i :: 0 <= i < |st.blocks| && Holds(l, st.blocks[i].num) ==> st.blocks[i].id == At(l, st.blocks[i].num).id)
  }

  /** The mirror's last block is on both chains; the client may hold more blocks, the
      first of which is not the server's. */
  ghost predicate Ahead(s: Log, st: ClientStatus, d: Log) {
    var h := MirrorHead(st.blocks);
    && Agrees(st, d) && MirrorSettled(st, s)
    && d.irreversible <= h <= LastNum(d.blocks)
    && (h > 0 ==> Holds(d, h) && Holds(s, h) && At(d, h).id == At(s, h).id)
    && (Holds(d, h + 1) && Holds(s, h + 1) ==> At(d, h + 1).id != At(s, h + 1).id)
  }

  /** Two chains that share a block share everything below it. */
  lemma SharedBelow(hash: Block -> Id, s: Log, d: Log, h: nat, k: nat)
    requires Injective(hash) && Hashed(hash, s.blocks) && Hashed(hash, d.blocks)
    requires Holds(s, h) && Holds(d, h) && At(s, h).id == At(d, h).id
    requires k <= h && Holds(s, k) && Holds(d, k)
    ensures At(s, k) == At(d, k)
  {
    EqualAncestry(hash, s.blocks, h - s.blocks[0].Num(), d.blocks, h - d.blocks[0].Num(), h - k);
  }

  /** A log holds exactly the numbers from its first to its last block. */
  lemma HoldsWhole(hash: Block -> Id, s: Log, num: nat)
    requires ServerOk(hash, s)
    ensures Holds(s, num) <==> 1 <= num <= LastNum(s.blocks)
    ensures LastNum(s.blocks) == |s.blocks|
  {
  }

  lemma HoldsReversible(hash: Block -> Id, d: Log, num: nat)
    requires ClientOk(hash, d) && d.irreversible <= num <= LastNum(d.blocks) && num > 0
    ensures Holds(d, num)
  {
  }

  lemma FoundByNum(l: Log, num: uint32)
    requires Linked(l.blocks)
    ensures BlockByNum(l.blocks, num) == if Holds(l, num) then Some(At(l, num)) else None
  {
    FindsByNum(l.blocks, num);
  }

  // popping

  lemma Trusted(hash: Block -> Id, s: Log, st: ClientStatus, b: BlockInfo)
    requires ServerOk(hash, s) && b.num >= 1
    ensures IsStale(s, b) == Some(!(Holds(s, b.num) && b.id == At(s, b.num).id))
  {
    HoldsWhole(hash, s, b.num);
    FoundByNum(s, b.num);
  }

  ghost predicate Popping(s: Log, st: ClientStatus, d: Log) {
    var h := MirrorHead(st.blocks);
    && Agrees(st, d) && MirrorSettled(st, s) && d.irreversible <= h <= LastNum(d.blocks)
    && (Holds(d, h + 1) && Holds(s, h + 1) ==> At(d, h + 1).id != At(s, h + 1).id)
  }

  lemma PopOne(hash: Block -> Id, s: Log, st: ClientStatus, d: Log)
    requires Ready(hash, s, d) && Popping(s, st, d) && st.blocks != []
    requires var b := st.blocks[|st.blocks| - 1]; !(Holds(s, b.num) && b.id == At(s, b.num).id)
    ensures Popping(s, st.(blocks := st.blocks[..|st.blocks| - 1]), d)
  {
    hide ClientOk, ServerOk, SettledOnServer, Injective, Linked;
    var n := |st.blocks| - 1;
    var st' := st.(blocks := st.blocks[..n]);
    var h := st.blocks[n].num;
    PopNumbers(s, st, d);
    HoldsReversible(hash, d, h);
    AgreesPrefix(st, d, n);
    assert MirrorSettled(st', s);
    assert st.blocks[n].id == At(d, h).id;
    hide Agrees, MirrorSettled, Ready, At, Holds;
  }

  lemma AgreesPrefix(st: ClientStatus, d: Log, n: nat)
    requires Agrees(st, d) && n <= |st.blocks|
    ensures Agrees(st.(blocks := st.blocks[..n]), d)
  {
  }

  lemma PopNumbers(s: Log, st: ClientStatus, d: Log)
    requires Popping(s, st, d) && st.blocks != []
    requires var b := st.blocks[|st.blocks| - 1]; !(Holds(s, b.num) && b.id == At(s, b.num).id)
    ensures var n := |st.blocks| - 1;
            st.blocks[n].num > d.irreversible && MirrorHead(st.blocks[..n]) == st.blocks[n].num - 1
  {
    var n := |st.blocks| - 1;
    assert st.blocks[n].num == st.blocks[0].num + n;
    if n > 0 { assert st.blocks[n - 1].num == st.blocks[0].num + (n - 1); }
  }

  /** Popping always succeeds, and stops at a block on both chains. */
  lemma {:induction false} PopWorks(hash: Block -> Id, s: Log, st: ClientStatus, d: Log)
    requires Ready(hash, s, d) && Popping(s, st, d)
    ensures PopStale(s, st.blocks).Some?
    ensures var kept := PopStale(s, st.blocks).value;
            |kept| <= |st.blocks| && Ahead(s, st.(blocks := kept), d) && (|kept| == |st.blocks| ==> kept == st.blocks)
    decreases |st.blocks|
  {
    hide ClientOk, ServerOk, SettledOnServer, Injective, Agrees, MirrorSettled, Holds, At, IsStale;
    assert st.(blocks := st.blocks) == st;
    if st.blocks == [] {
      PoppedAll(s, st, d);
    } else {
      var b := st.blocks[|st.blocks| - 1];
      LastPositive(st, d);
      Trusted(hash, s, st, b);
      if Holds(s, b.num) && b.id == At(s, b.num).id {
        PoppedEnough(hash, s, st, d);
      } else {
        PopOne(hash, s, st, d);
        PopWorks(hash, s, st.(blocks := st.blocks[..|st.blocks| - 1]), d);
      }
    }
  }

  lemma LastPositive(st: ClientStatus, d: Log)
    requires Agrees(st, d) && st.blocks != []
    ensures st.blocks[|st.blocks| - 1].num >= 1
  {
    assert st.blocks[|st.blocks| - 1].num == st.blocks[0].num + (|st.blocks| - 1);
  }

  lemma PoppedAll(s: Log, st: ClientStatus, d: Log)
    requires Popping(s, st, d) && st.blocks == []
    ensures Ahead(s, st, d)
  {
  }

  lemma PoppedEnough(hash: Block -> Id, s: Log, st: ClientStatus, d: Log)
    requires Ready(hash, s, d) && Popping(s, st, d) && st.blocks != []
    requires var b := st.blocks[|st.blocks| - 1]; Holds(s, b.num) && b.id == At(s, b.num).id
    ensures Ahead(s, st, d)
  {
    hide ServerOk, SettledOnServer, Injective, Linked;
    LastPositive(st, d);
    HoldsReversible(hash, d, st.blocks[|st.blocks| - 1].num);
    hide ClientOk;
  }

  lemma MirrorsStartsPopping(hash: Block -> Id, s: Log, st: ClientStatus, d: Log)
    requires Ready(hash, s, d) && Mirrors(st, d) && MirrorSettled(st, s)
    ensures Popping(s, st, d)
  {
  }

  // sending

  lemma IrreversibleIs(l: Log)
    requires LogValid(l)
    ensures IrreversibleOf(l) == l.irreversible
  {
    FoundByNum(l, l.irreversible);
  }

  /** With eosio numbers from 1 on, nothing comes before eosio number 1. */
  lemma {:induction false} HalvingAtStart(s: seq<BlockWithId>, len: nat)
    requires len <= |s| && forall i :: 0 <= i < |s| ==> s[i].EosioNum() >= 1
    ensures Halving(s, 1, 0, len) == 0
    decreases len
  {
    if len > 0 { HalvingAtStart(s, len / 2); }
  }

  lemma NothingBeforeOne(hash: Block -> Id, s: seq<BlockWithId>)
    requires Hashed(hash, s)
    ensures BlockBeforeEosioNum(s, Plus1(0)).None?
  {
    HalvingAtStart(s, |s|);
  }

  /** The log `d` with `b` in place of everything from its number on. */
  ghost predicate Replaced(d: Log, b: BlockWithId, d': Log) {
    && d'.irreversible == d.irreversible && Holds(d', b.Num()) && At(d', b.Num()) == b && LastNum(d'.blocks) == b.Num()
    && (forall k: nat :: k < b.Num() ==> (Holds(d', k) <==> Holds(d, k)))
    && (forall k: nat :: k < b.Num() && Holds(d, k) ==> At(d', k) == At(d, k))
  }

  /** The block that is sent. */
  ghost predicate NextBlock(s: Log, h: nat, d: Log, b: BlockWithId) {
    && b.Num() == h + 1 && d.irreversible <= h <= LastNum(d.blocks)
    && (h > 0 ==> Holds(d, h) && b.block.previous == At(d, h).id)
    && (Holds(d, h + 1) ==> At(d, h + 1).id != b.id)
  }

  lemma BlockIsNext(hash: Block -> Id, s: Log, st: ClientStatus, d: Log)
    requires ServerOk(hash, s) && Ahead(s, st, d) && MirrorHead(st.blocks) + 1 <= LastNum(s.blocks)
    ensures var h := MirrorHead(st.blocks);
            && Holds(s, h + 1) && BlockByNum(s.blocks, h + 1) == Some(At(s, h + 1)) && NextBlock(s, h, d, At(s, h + 1))
            && At(s, h + 1).id == hash(At(s, h + 1).block) && At(s, h + 1).EosioNum() >= 1
  {
    var h := MirrorHead(st.blocks);
    HoldsWhole(hash, s, h + 1);
    FoundByNum(s, h + 1);
    if h > 0 { assert NamesPrevious(s.blocks, h); }
  }

  /** The client accepts it. */
  lemma NextIsAccepted(hash: Block -> Id, s: Log, h: nat, d: Log, b: BlockWithId)
    requires ClientOk(hash, d) && NextBlock(s, h, d, b)
    ensures Checked(d, b) == Appended
    ensures LowerBoundByNum(d.blocks, b.Num()) == if d.blocks == [] then 0 else h + 1 - d.blocks[0].Num()
    ensures d.blocks != [] ==> d.blocks[0].Num() <= h + 1
  {
  }

  lemma NextReplaces(hash: Block -> Id, s: Log, h: nat, d: Log, b: BlockWithId)
    requires ClientOk(hash, d) && NextBlock(s, h, d, b) && b.id == hash(b.block) && b.EosioNum() >= 1 && b.Num() < UINT32 - 1
    ensures Checked(d, b) == Appended
    ensures Process(d, BlockMessage(b)) == Added(d, b) && Replaced(d, b, Added(d, b)) && ClientOk(hash, Added(d, b))
  {
    hide NextBlock, Checked, Hashed, BlockBeforeEosioNum;
    NextIsAccepted(hash, s, h, d, b);
    AddedIsValid(d, b);
    var d' := Added(d, b);
    HashedAfterAdd(hash, d, b);
    NothingBeforeOne(hash, d'.blocks);
    var i := LowerBoundByNum(d.blocks, b.Num());
    assert d'.blocks == d.blocks[..i] + [b];
  }

  lemma HashedAfterAdd(hash: Block -> Id, d: Log, b: BlockWithId)
    requires Hashed(hash, d.blocks) && b.id == hash(b.block) && b.EosioNum() >= 1
    ensures Hashed(hash, Added(d, b).blocks)
  {
  }

  /** The log `d` cut off below its new irreversible block `n`. */
  ghost predicate CutAt(d: Log, n: nat, d': Log) {
    && d'.irreversible == n && LastNum(d'.blocks) == LastNum(d.blocks)
    && (forall k: nat :: Holds(d', k) <==> Holds(d, k) && k >= n)
    && (forall k: nat :: Holds(d', k) ==> At(d', k) == At(d, k))
  }

  lemma RaiseTo(d: Log, n: uint32)
    requires LogValid(d) && LastNum(d.blocks) < UINT32 - 1 && Holds(d, n) && n > d.irreversible
    ensures Raised(d, BlockBeforeNum(d.blocks, Plus1(n))) == d.(irreversible := n)
  {
    var i := n - d.blocks[0].Num();
    assert LowerBoundByNum(d.blocks, n + 1) == i + 1;
  }

  lemma TrimAt(hash: Block -> Id, d: Log)
    requires ClientOk(hash, d) && d.irreversible > 0
    ensures Holds(d, d.irreversible)
    ensures ClientOk(hash, Trimmed(d)) && CutAt(d, d.irreversible, Trimmed(d))
  {
    TrimmedIsValid(d);
    var i := d.irreversible - d.blocks[0].Num();
    assert LowerBoundByNum(d.blocks, d.irreversible) == i;
    assert Trimmed(d).blocks == d.blocks[i..];
    hide LowerBoundByNum;
  }

  lemma SettleWorks(hash: Block -> Id, d: Log, n: uint32)
    requires ClientOk(hash, d) && Holds(d, n) && n > d.irreversible
    ensures ClientOk(hash, Process(d, SetIrreversible(n))) && CutAt(d, n, Process(d, SetIrreversible(n)))
  {
    hide Trimmed, Raised;
    RaiseTo(d, n);
    var d1 := d.(irreversible := n);
    RaisedOk(hash, d, n);
    TrimAt(hash, d1);
    hide ClientOk;
  }

  lemma RaisedOk(hash: Block -> Id, d: Log, n: uint32)
    requires ClientOk(hash, d) && Holds(d, n) && n > d.irreversible
    ensures ClientOk(hash, d.(irreversible := n))
  {
  }

  /** After a block is sent the client is exactly where the mirror is. */
  ghost predicate InStep(hash: Block -> Id, s: Log, st: ClientStatus, d: Log) {
    Ready(hash, s, d) && Ahead(s, st, d) && LastNum(d.blocks) == MirrorHead(st.blocks)
  }

  lemma MirrorAfterBlock(st: ClientStatus, s: Log, d: Log, b: BlockWithId, d': Log)
    requires Agrees(st, d) && MirrorSettled(st, s) && b.Num() == MirrorHead(st.blocks) + 1
    requires Replaced(d, b, d') && d.irreversible <= MirrorHead(st.blocks)
    ensures var st' := st.(blocks := st.blocks + [InfoOf(b)]);
            Agrees(st', d') && MirrorSettled(st', s) && MirrorHead(st'.blocks) == b.Num()
  {
    var st' := st.(blocks := st.blocks + [InfoOf(b)]);
    if st.blocks != [] {
      assert st.blocks[|st.blocks| - 1].num == st.blocks[0].num + (|st.blocks| - 1);
    }
    forall i | 0 <= i < |st'.blocks| && Holds(d', st'.blocks[i].num)
      ensures st'.blocks[i].id == At(d', st'.blocks[i].num).id
    {
      if i < |st.blocks| {
        assert st.blocks[i].num == st.blocks[0].num + i;
        assert st.blocks[i].num < b.Num();
      }
    }
    forall i | 0 <= i < |st'.blocks| && st'.blocks[i].num <= st'.irreversible
      ensures Holds(s, st'.blocks[i].num) && st'.blocks[i].id == At(s, st'.blocks[i].num).id
    {
      assert i < |st.blocks|;
    }
  }

  lemma SettledAfterBlock(s: Log, d: Log, b: BlockWithId, d': Log)
    requires SettledOnServer(s, d) && Replaced(d, b, d') && d.irreversible < b.Num()
    ensures SettledOnServer(s, d')
  {
  }

  /** The mirrored ids up to the head are the server's. */
  lemma MirrorIsServers(hash: Block -> Id, s: Log, st: ClientStatus, d: Log, i: nat)
    requires InStep(hash, s, st, d) && i < |st.blocks|
    ensures Holds(s, st.blocks[i].num) && st.blocks[i].id == At(s, st.blocks[i].num).id
  {
    var h, k := MirrorHead(st.blocks), st.blocks[i].num;
    assert k == st.blocks[0].num + i && h == st.blocks[0].num + (|st.blocks| - 1);
    HoldsWhole(hash, s, h);
    HoldsWhole(hash, s, k);
    if k > st.irreversible {
      HoldsReversible(hash, d, k);
      SharedBelow(hash, s, d, h, k);
    }
  }

  lemma AfterSettle(hash: Block -> Id, s: Log, st: ClientStatus, d: Log, n: uint32, d': Log)
    requires InStep(hash, s, st, d) && d.irreversible < n <= s.irreversible && n <= MirrorHead(st.blocks)
    requires ClientOk(hash, d') && CutAt(d, n, d')
    ensures InStep(hash, s, st.(irreversible := n), d')
  {
    var st', h := st.(irreversible := n), MirrorHead(st.blocks);
    HoldsReversible(hash, d, n);
    HoldsReversible(hash, d, h);
    HoldsWhole(hash, s, n);
    HoldsWhole(hash, s, h);
    SharedBelow(hash, s, d, h, n);
    forall i | 0 <= i < |st.blocks|
      ensures Holds(s, st.blocks[i].num) && st.blocks[i].id == At(s, st.blocks[i].num).id
    {
      MirrorIsServers(hash, s, st, d, i);
    }
    AgreesAfterCut(st, d, n, d');
    hide ClientOk, ServerOk, Agrees, Injective;
  }

  lemma AgreesAfterCut(st: ClientStatus, d: Log, n: uint32, d': Log)
    requires Agrees(st, d) && CutAt(d, n, d') && Linked(d'.blocks) && n > d.irreversible
    ensures Agrees(st.(irreversible := n), d')
  {
  }

  /** The mirror once block `b` is on it. */
  function WithBlock(st: ClientStatus, b: BlockWithId): ClientStatus
    requires st.maxBlocksToSend > 0
  {
    st.(maxBlocksToSend := st.maxBlocksToSend - 1, blocks := st.blocks + [InfoOf(b)])
  }

  /** The block alone. */
  lemma SendBlock(hash: Block -> Id, s: Log, st: ClientStatus, d: Log)
    requires Ready(hash, s, d) && Ahead(s, st, d) && MirrorHead(st.blocks) + 1 <= LastNum(s.blocks) && st.maxBlocksToSend > 0
    ensures var h := MirrorHead(st.blocks);
            && Holds(s, h + 1) && BlockByNum(s.blocks, h + 1) == Some(At(s, h + 1)) && At(s, h + 1).Num() == h + 1
            && var b := At(s, h + 1);
               && Checked(d, b) == Appended
               && InStep(hash, s, WithBlock(st, b), Process(d, BlockMessage(b)))
               && MirrorHead(WithBlock(st, b).blocks) == h + 1
               && Process(d, BlockMessage(b)).irreversible == st.irreversible
  {
    hide Checked, Process, Injective, Linked, LogValid, Hashed, SettledOnServer;
    var h := MirrorHead(st.blocks);
    BlockIsNext(hash, s, st, d);
    var b := At(s, h + 1);
    HoldsWhole(hash, s, h + 1);
    hide At, Holds;
    NextReplaces(hash, s, h, d, b);
    MirrorAfterBlock(st, s, d, b, Added(d, b));
    SettledAfterBlock(s, d, b, Added(d, b));
    assert WithBlock(st, b).blocks == st.(blocks := st.blocks + [InfoOf(b)]).blocks;
    AgreesOnBlocks(st.(blocks := st.blocks + [InfoOf(b)]), WithBlock(st, b), s, Added(d, b));
    SentInStep(hash, s, WithBlock(st, b), Added(d, b), b);
  }

  lemma AgreesOnBlocks(st: ClientStatus, st': ClientStatus, s: Log, d: Log)
    requires Agrees(st, d) && MirrorSettled(st, s) && st'.blocks == st.blocks && st'.irreversible == st.irreversible
    ensures Agrees(st', d) && MirrorSettled(st', s)
  {
  }

  /** Finality after the block. */
  lemma SendSettled(hash: Block -> Id, s: Log, st: ClientStatus, d: Log, n: uint32)
    requires InStep(hash, s, st, d) && n == Settled(s, MirrorHead(st.blocks)) && n > st.irreversible && st.irreversible == d.irreversible
    ensures InStep(hash, s, st.(irreversible := n), Process(d, SetIrreversible(n)))
  {
    IrreversibleIs(s);
    HoldsReversible(hash, d, n);
    hide At, Holds, Process, Injective, Linked, LogValid, Hashed, SettledOnServer, Agrees, MirrorSettled;
    SettleWorks(hash, d, n);
    AfterSettle(hash, s, st, d, n, Process(d, SetIrreversible(n)));
  }

  /** Sending one block: the client accepts it, and everything still holds. */
  lemma SendOne(hash: Block -> Id, s: Log, st: ClientStatus, d: Log)
    requires Ready(hash, s, d) && Ahead(s, st, d) && MirrorHead(st.blocks) + 1 <= LastNum(s.blocks) && st.maxBlocksToSend > 0
    ensures var h := MirrorHead(st.blocks);
            && Holds(s, h + 1) && BlockByNum(s.blocks, h + 1) == Some(At(s, h + 1))
            && var (st', ms) := AfterSend(s, st, At(s, h + 1));
               && Sound(hash, d, ms) && InStep(hash, s, st', Deliver(d, ms))
               && SendsBlock(ms) && KnowsFinality(s, Deliver(d, ms))
  {
    hide InStep, Ready, Ahead, Checked, Process, At, Holds, Settled, ClientOk, KnowsFinality;
    ReadyIsOk(hash, s, d);
    SendBlock(hash, s, st, d);
    var h := MirrorHead(st.blocks);
    var b := At(s, h + 1);
    var n := Settled(s, h + 1);
    InStepIsReady(hash, s, WithBlock(st, b), Process(d, BlockMessage(b)));
    ReadyIsOk(hash, s, Process(d, BlockMessage(b)));
    if n > st.irreversible {
      SendSettled(hash, s, WithBlock(st, b), Process(d, BlockMessage(b)), n);
      var d2 := Process(Process(d, BlockMessage(b)), SetIrreversible(n));
      InStepIsReady(hash, s, WithBlock(st, b).(irreversible := n), d2);
      ReadyIsOk(hash, s, d2);
      DeliverTwo(hash, d, BlockMessage(b), SetIrreversible(n));
      FinalityTold(hash, s, WithBlock(st, b).(irreversible := n), d2);
      assert [BlockMessage(b), SetIrreversible(n)][0].BlockMessage?;
    } else {
      DeliverOne(hash, d, BlockMessage(b));
      FinalityTold(hash, s, WithBlock(st, b), Process(d, BlockMessage(b)));
      assert [BlockMessage(b)][0].BlockMessage?;
    }
  }

  /** The client's irreversible number is the server's, or its own head where that is lower. */
  ghost predicate KnowsFinality(s: Log, d: Log) {
    d.irreversible == if s.irreversible < LastNum(d.blocks) then s.irreversible else LastNum(d.blocks)
  }

  ghost predicate SendsBlock(ms: seq<Message>) {
    exists i :: 0 <= i < |ms| && ms[i].BlockMessage?
  }

  ghost predicate TellsHead(ms: seq<Message>) {
    exists i :: 0 <= i < |ms| && ms[i].SetHead?
  }

  lemma TellsEither(a: seq<Message>, b: seq<Message>)
    ensures TellsHead(a + b) <==> TellsHead(a) || TellsHead(b)
  {
    if TellsHead(a) { var i :| 0 <= i < |a| && a[i].SetHead?; assert (a + b)[i] == a[i]; }
    if TellsHead(b) { var i :| 0 <= i < |b| && b[i].SetHead?; assert (a + b)[|a| + i] == b[i]; }
  }

  /** Finality is told only when it has risen above `irreversible` and what was told before. */
  ghost predicate Rises(ms: seq<Message>, irreversible: nat)
    decreases |ms|
  {
    ms == [] ||
    if ms[0].SetIrreversible? then ms[0].irreversible > irreversible && Rises(ms[1..], ms[0].irreversible)
    else Rises(ms[1..], irreversible)
  }

  lemma {:induction false} RisesOn(a: seq<Message>, b: seq<Message>, from: nat, l: nat)
    requires Rises(a, from) && Rises(b, l) && l == LastTold(a, from)
    ensures Rises(a + b, from)
    decreases |a|
  {
    if a == [] {
      assert a + b == b;
    } else {
      assert (a + b)[1..] == a[1..] + b;
      RisesOn(a[1..], b, if a[0].SetIrreversible? then a[0].irreversible else from, l);
    }
  }

  lemma {:induction false} ToldOn(a: seq<Message>, b: seq<Message>, from: nat)
    ensures LastTold(a + b, from) == LastTold(b, LastTold(a, from))
    decreases |a|
  {
    if a == [] {
      assert a + b == b;
    } else {
      assert (a + b)[1..] == a[1..] + b;
      ToldOn(a[1..], b, if a[0].SetIrreversible? then a[0].irreversible else from);
    }
  }

  ghost function LastTold(ms: seq<Message>, from: nat): nat
    decreases |ms|
  {
    if ms == [] then from else LastTold(ms[1..], if ms[0].SetIrreversible? then ms[0].irreversible else from)
  }

  lemma OneSent(b: BlockWithId, n: uint32, from: nat)
    ensures Rises([BlockMessage(b)], from) && LastTold([BlockMessage(b)], from) == from && !TellsHead([BlockMessage(b)])
    ensures var ms := [BlockMessage(b), SetIrreversible(n)];
            (n > from ==> Rises(ms, from)) && LastTold(ms, from) == n && !TellsHead(ms)
  {
    assert [BlockMessage(b)][1..] == [];
    var ms := [BlockMessage(b), SetIrreversible(n)];
    assert ms[1..] == [SetIrreversible(n)] && ms[1..][1..] == [];
    assert LastTold(ms, from) == LastTold(ms[1..], from) == LastTold([], n);
    assert forall i :: 0 <= i < |ms| ==> !ms[i].SetHead?;
  }

  lemma NoneRise(n: nat)
    ensures Rises([], n) && LastTold([], n) == n && !TellsHead([])
    ensures Rises([SendStatus], n) && !TellsHead([SendStatus])
    ensures forall h :: Rises([SetHead(h)], n) && TellsHead([SetHead(h)])
  {
    assert [SendStatus][1..] == [];
    forall h ensures Rises([SetHead(h)], n) && TellsHead([SetHead(h)]) {
      assert [SetHead(h)][1..] == [];
      assert [SetHead(h)][0].SetHead?;
    }
  }

  lemma SendsEither(a: seq<Message>, b: seq<Message>)
    ensures SendsBlock(a + b) <==> SendsBlock(a) || SendsBlock(b)
  {
    if SendsBlock(a) { var i :| 0 <= i < |a| && a[i].BlockMessage?; assert (a + b)[i] == a[i]; }
    if SendsBlock(b) { var i :| 0 <= i < |b| && b[i].BlockMessage?; assert (a + b)[|a| + i] == b[i]; }
  }

  lemma FinalityTold(hash: Block -> Id, s: Log, st: ClientStatus, d: Log)
    requires InStep(hash, s, st, d) && Settled(s, MirrorHead(st.blocks)) <= st.irreversible
    ensures KnowsFinality(s, d)
  {
    IrreversibleIs(s);
  }

  lemma SentInStep(hash: Block -> Id, s: Log, st: ClientStatus, d: Log, b: BlockWithId)
    requires Injective(hash) && ServerOk(hash, s) && ClientOk(hash, d) && SettledOnServer(s, d)
    requires Agrees(st, d) && MirrorSettled(st, s) && MirrorHead(st.blocks) == b.Num() == LastNum(d.blocks)
    requires Holds(d, b.Num()) && At(d, b.Num()) == b && Holds(s, b.Num()) && At(s, b.Num()) == b && d.irreversible <= b.Num()
    ensures InStep(hash, s, st, d)
  {
  }

  lemma DeliverOne(hash: Block -> Id, d: Log, m: Message)
    ensures Deliver(d, [m]) == Process(d, m)
    ensures Sound(hash, d, [m]) <==> ClientOk(hash, d) && (m.BlockMessage? ==> Checked(d, m.b) == Appended) && ClientOk(hash, Process(d, m))
  {
    assert [m][1..] == [];
  }

  lemma DeliverTwo(hash: Block -> Id, d: Log, m: Message, o: Message)
    requires o.SetIrreversible?
    ensures Deliver(d, [m, o]) == Process(Process(d, m), o)
    ensures Sound(hash, d, [m, o]) <==>
      && ClientOk(hash, d) && (m.BlockMessage? ==> Checked(d, m.b) == Appended)
      && ClientOk(hash, Process(d, m)) && ClientOk(hash, Process(Process(d, m), o))
  {
    assert [m, o][1..] == [o];
    DeliverOne(hash, Process(d, m), o);
  }

  ghost predicate NoAsk(ms: seq<Message>) {
    forall i :: 0 <= i < |ms| ==> ms[i] != SendStatus
  }

  /** Sending as many blocks as asked for. */
  lemma {:induction false} SendAll(hash: Block -> Id, s: Log, st: ClientStatus, d: Log)
    requires Ready(hash, s, d) && Ahead(s, st, d)
    ensures SendBlocks(s, st).Some?
    ensures var r := SendBlocks(s, st).value;
            && Sound(hash, d, r.messages) && NoAsk(r.messages)
            && (if r.any then InStep(hash, s, r.status, Deliver(d, r.messages)) else r.status == st && r.messages == [])
            && (r.status.maxBlocksToSend > 0 ==> MirrorHead(r.status.blocks) + 1 > LastNum(s.blocks))
            && (r.any <==> SendsBlock(r.messages)) && (r.any ==> KnowsFinality(s, Deliver(d, r.messages)))
            && !TellsHead(r.messages) && Rises(r.messages, st.irreversible) && LastTold(r.messages, st.irreversible) == r.status.irreversible
    decreases st.maxBlocksToSend
  {
    hide InStep, Ready, Ahead, Checked, Process, At, Holds, Settled, BlockByNum, ClientOk, KnowsFinality, TellsHead, Rises, LastTold;
    ReadyIsOk(hash, s, d);
    NoneRise(st.irreversible);
    if st.maxBlocksToSend > 0 && MirrorHead(st.blocks) + 1 <= LastNum(s.blocks) {
      SendOne(hash, s, st, d);
      var b := BlockByNum(s.blocks, MirrorHead(st.blocks) + 1).value;
      var (st1, ms) := AfterSend(s, st, b);
      var d1 := Deliver(d, ms);
      InStepIsReady(hash, s, st1, d1);
      SendAll(hash, s, st1, d1);
      var rest := SendBlocks(s, st1).value;
      DeliverConcat(d, ms, rest.messages);
      SoundConcat(hash, d, ms, rest.messages);
      if !rest.any { assert ms + rest.messages == ms; }
      SendsEither(ms, rest.messages);
      TellsEither(ms, rest.messages);
      OneSent(b, Settled(s, MirrorHead(st.blocks) + 1), st.irreversible);
      RisesOn(ms, rest.messages, st.irreversible, st1.irreversible);
      ToldOn(ms, rest.messages, st.irreversible);
      NoAskConcat(ms, rest.messages);
    }
  }

  /** The mirror grows by as many blocks as are sent. */
  lemma {:induction false} SendCounts(s: Log, st: ClientStatus)
    requires SendBlocks(s, st).Some?
    ensures var st' := SendBlocks(s, st).value.status;
            && st'.maxBlocksToSend <= st.maxBlocksToSend
            && MirrorHead(st'.blocks) == MirrorHead(st.blocks) + (st.maxBlocksToSend - st'.maxBlocksToSend)
    decreases st.maxBlocksToSend
  {
    hide BlockByNum, Settled;
    if st.maxBlocksToSend > 0 && MirrorHead(st.blocks) + 1 <= LastNum(s.blocks) {
      var b := BlockByNum(s.blocks, MirrorHead(st.blocks) + 1).value;
      SendCounts(s, AfterSend(s, st, b).0);
    }
  }

  lemma ReadyIsOk(hash: Block -> Id, s: Log, d: Log)
    requires Ready(hash, s, d)
    ensures ClientOk(hash, d)
  {
  }

  lemma InStepIsReady(hash: Block -> Id, s: Log, st: ClientStatus, d: Log)
    requires InStep(hash, s, st, d)
    ensures Ready(hash, s, d) && Ahead(s, st, d)
  {
  }

  lemma NoAskConcat(a: seq<Message>, b: seq<Message>)
    requires NoAsk(a) && NoAsk(b)
    ensures NoAsk(a + b)
  {
  }

  // telling the head

  lemma TruncateWorks(hash: Block -> Id, d: Log, h: uint32)
    requires ClientOk(hash, d) && d.irreversible <= h <= LastNum(d.blocks) && (h > 0 ==> Holds(d, h))
    ensures var d' := Process(d, SetHead(h));
            && ClientOk(hash, d') && d'.irreversible == d.irreversible && LastNum(d'.blocks) == h
            && (forall k: nat :: Holds(d', k) <==> Holds(d, k) && k <= h)
            && (forall k: nat :: Holds(d', k) ==> At(d', k) == At(d, k))
  {
    hide UndoneCount, LogValid, Holds;
    ReadyLog(hash, d);
    UndoneIsValid(d, Plus1(h));
    TruncatedTo(d, h);
    CutHolds(hash, d, Process(d, SetHead(h)), if d.blocks == [] then 0 else h + 1 - d.blocks[0].Num(), h);
  }

  lemma ReadyLog(hash: Block -> Id, d: Log)
    requires ClientOk(hash, d)
    ensures LogValid(d) && LastNum(d.blocks) < UINT32 - 1
  {
  }

  /** A log whose first blocks are kept holds these. */
  lemma CutHolds(hash: Block -> Id, d: Log, d': Log, n: nat, h: uint32)
    requires ClientOk(hash, d) && LogValid(d') && d'.irreversible == d.irreversible && n <= |d.blocks| && d'.blocks == d.blocks[..n]
    requires if d.blocks == [] then h == 0 else n == h + 1 - d.blocks[0].Num()
    requires h > 0 ==> Holds(d, h)
    ensures ClientOk(hash, d') && LastNum(d'.blocks) == h
    ensures forall k: nat :: Holds(d', k) <==> Holds(d, k) && k <= h
    ensures forall k: nat :: Holds(d', k) ==> At(d', k) == At(d, k)
  {
    assert forall i :: 0 <= i < n ==> d'.blocks[i] == d.blocks[i];
    assert n > 0 ==> d'.blocks[n - 1].Num() == h;
  }

  lemma TruncatedTo(d: Log, h: uint32)
    requires LogValid(d) && d.irreversible <= h <= LastNum(d.blocks) < UINT32 - 1 && (h > 0 ==> Holds(d, h))
    ensures UndoneLog(d, Plus1(h)).blocks == if d.blocks == [] then [] else d.blocks[..h + 1 - d.blocks[0].Num()]
    ensures d.blocks != [] ==> 0 <= h + 1 - d.blocks[0].Num() <= |d.blocks|
  {
    if h == LastNum(d.blocks) {
      assert d.blocks[..|d.blocks|] == d.blocks;
    }
  }

  lemma HeadTold(hash: Block -> Id, s: Log, st: ClientStatus, d: Log)
    requires Ready(hash, s, d) && Ahead(s, st, d)
    ensures InStep(hash, s, st, Process(d, SetHead(MirrorHead(st.blocks))))
  {
    var h := MirrorHead(st.blocks);
    TruncateWorks(hash, d, h);
    var d' := Process(d, SetHead(h));
    hide Process, Injective, ServerOk;
    assert Linked(d'.blocks);
    hide ClientOk;
    AgreesAfterTruncate(st, d, h, d');
    hide Agrees, MirrorSettled;
  }

  lemma AgreesAfterTruncate(st: ClientStatus, d: Log, h: uint32, d': Log)
    requires Agrees(st, d) && d'.irreversible == d.irreversible && Linked(d'.blocks)
    requires forall k: nat :: Holds(d', k) <==> Holds(d, k) && k <= h
    requires forall k: nat :: Holds(d', k) ==> At(d', k) == At(d, k)
    ensures Agrees(st, d')
  {
  }

  // ----- one update -----

  lemma InStepMirrors(hash: Block -> Id, s: Log, st: ClientStatus, d: Log)
    requires InStep(hash, s, st, d)
    ensures Mirrors(st, d) && MirrorSettled(st, s) && Ready(hash, s, d)
  {
  }

  /** The mirrored chain is the server's, up to the server's head. */
  ghost predicate Converged(s: Log, st: ClientStatus) {
    && MirrorHead(st.blocks) == LastNum(s.blocks)
    && forall i :: 0 <= i < |st.blocks| ==> Holds(s, st.blocks[i].num) && st.blocks[i].id == At(s, st.blocks[i].num).id
  }

  lemma InStepConverges(hash: Block -> Id, s: Log, st: ClientStatus, d: Log)
    requires InStep(hash, s, st, d) && MirrorHead(st.blocks) + 1 > LastNum(s.blocks)
    ensures Converged(s, st)
  {
    forall i | 0 <= i < |st.blocks|
      ensures Holds(s, st.blocks[i].num) && st.blocks[i].id == At(s, st.blocks[i].num).id
    {
      MirrorIsServers(hash, s, st, d, i);
    }
  }

  /** The update of a mirror that agrees with the delivered client log: it never throws,
      no block it sends is rejected, the new mirror agrees again, and unless a new status
      is asked for the mirror has caught up with the server. */
  lemma UpdateSafe(hash: Block -> Id, s: Log, st: ClientStatus, d: Log)
    requires Ready(hash, s, d) && Mirrors(st, d) && MirrorSettled(st, s)
    ensures Update(s, st).Some?
    ensures var u := Update(s, st).value;
            var d' := Deliver(d, u.messages);
            && Sound(hash, d, u.messages) && Ready(hash, s, d') && AsksLast(u.messages)
            && (if u.status.None? then Asks(u.messages)
                else NoAsk(u.messages) && Mirrors(u.status.value, d') && MirrorSettled(u.status.value, s) && Converged(s, u.status.value))
    ensures var ms := Update(s, st).value.messages;
            var d' := Deliver(d, ms);
            && (SendsBlock(ms) ==> d'.irreversible == Min(s.irreversible, LastNum(d'.blocks)))
            && (!SendsBlock(ms) ==> d'.irreversible == d.irreversible)
            && (KnowsFinality(s, d) ==> KnowsFinality(s, d'))
            && Rises(ms, d.irreversible) && (TellsHead(ms) <==> !SendsBlock(ms) && HeadIsStale(s, st))
  {
    hide Ready, Mirrors, MirrorSettled, InStep, Process, Update, Converged, Deliver, Sound, SendsBlock, TellsHead, Rises, HeadIsStale;
    var st', all := UpdateParts(hash, s, st, d);
    UpdateTells(hash, s, st, d);
    SendsEither(all, [SendStatus]);
    NoBlockAsked();
    var d' := Deliver(d, all);
    InStepMirrors(hash, s, st', d');
    if st'.maxBlocksToSend == 0 {
      DeliverConcat(d, all, [SendStatus]);
      SoundConcat(hash, d, all, [SendStatus]);
      DeliverOne(hash, d', SendStatus);
      ReadyIsOk(hash, s, d');
      SendStatusChangesNothing(d');
    } else {
      InStepConverges(hash, s, st', d');
    }
  }

  /** The mirror and the messages of an update, before it asks for a new status. */
  lemma UpdateParts(hash: Block -> Id, s: Log, st: ClientStatus, d: Log) returns (st': ClientStatus, all: seq<Message>)
    requires Ready(hash, s, d) && Mirrors(st, d) && MirrorSettled(st, s)
    ensures Update(s, st) == Some(if st'.maxBlocksToSend == 0 then Updated(None, all + [SendStatus]) else Updated(Some(st'), all))
    ensures InStep(hash, s, st', Deliver(d, all)) && Sound(hash, d, all) && NoAsk(all)
    ensures st'.maxBlocksToSend > 0 ==> MirrorHead(st'.blocks) + 1 > LastNum(s.blocks)
    ensures PopStale(s, st.blocks).Some? && st'.maxBlocksToSend <= st.maxBlocksToSend
    ensures MirrorHead(st'.blocks) == MirrorHead(PopStale(s, st.blocks).value) + (st.maxBlocksToSend - st'.maxBlocksToSend)
    ensures Informs(s, d, all)
  {
    hide Ready, Mirrors, MirrorSettled, Ahead, InStep, Popping, Process, PopStale, SendBlocks, Deliver, Sound, NoAsk, KnowsFinality, SendsBlock;
    MirrorsStartsPopping(hash, s, st, d);
    PopWorks(hash, s, st, d);
    var kept := PopStale(s, st.blocks).value;
    var st1 := st.(blocks := kept);
    SendAll(hash, s, st1, d);
    SendCounts(s, st1);
    var r := SendBlocks(s, st1).value;
    var tell := if |kept| < |st.blocks| && !r.any then [SetHead(MirrorHead(r.status.blocks))] else [];
    InStepAfterTell(hash, s, st, st1, d, r, tell);
    DeliverConcat(d, r.messages, tell);
    SoundConcat(hash, d, r.messages, tell);
    SendsEither(r.messages, tell);
    st', all := r.status, r.messages + tell;
    if r.any { assert all == r.messages; }
  }

  /** What an update tells besides blocks: finality when it has risen, and the head exactly
      when the client's last block is not the server's and no block is sent. */
  lemma UpdateTells(hash: Block -> Id, s: Log, st: ClientStatus, d: Log)
    requires Ready(hash, s, d) && Mirrors(st, d) && MirrorSettled(st, s)
    ensures Update(s, st).Some?
    ensures var ms := Update(s, st).value.messages;
            Rises(ms, d.irreversible) && (TellsHead(ms) <==> !SendsBlock(ms) && HeadIsStale(s, st))
  {
    hide Ready, Mirrors, MirrorSettled, Ahead, InStep, Popping, Process, PopStale, SendBlocks, Deliver, Sound, NoAsk, KnowsFinality, SendsBlock;
    hide TellsHead, Rises, LastTold, HeadIsStale;
    MirrorIrreversible(st, d);
    PoppedIff(hash, s, st, d);
    MirrorsStartsPopping(hash, s, st, d);
    PopWorks(hash, s, st, d);
    var kept := PopStale(s, st.blocks).value;
    var st1 := st.(blocks := kept);
    SendAll(hash, s, st1, d);
    var r := SendBlocks(s, st1).value;
    var tell := if |kept| < |st.blocks| && !r.any then [SetHead(MirrorHead(r.status.blocks))] else [];
    var ask := if r.status.maxBlocksToSend == 0 then [SendStatus] else [];
    Told(r.messages, tell, ask, d.irreversible);
    if ask == [] { assert r.messages + tell + ask == r.messages + tell; }
  }

  lemma Told(ms: seq<Message>, tell: seq<Message>, ask: seq<Message>, from: nat)
    requires Rises(ms, from) && !TellsHead(ms) && (ask == [] || ask == [SendStatus])
    requires tell == [] || (|tell| == 1 && tell[0].SetHead?)
    ensures Rises(ms + tell + ask, from) && (TellsHead(ms + tell + ask) <==> tell != []) && (SendsBlock(ms + tell + ask) <==> SendsBlock(ms))
  {
    hide Rises, LastTold;
    var l := LastTold(ms, from);
    NoneRise(l);
    if tell != [] { assert tell == [SetHead(tell[0].head)]; }
    RisesOn(ms, tell, from, l);
    NoneRise(LastTold(ms + tell, from));
    RisesOn(ms + tell, ask, from, LastTold(ms + tell, from));
    TellsEither(ms, tell);
    TellsEither(ms + tell, ask);
    SendsEither(ms, tell);
    SendsEither(ms + tell, ask);
    NoBlockAsked();
  }

  lemma MirrorIrreversible(st: ClientStatus, d: Log)
    requires Mirrors(st, d)
    ensures st.irreversible == d.irreversible
  {
  }

  /** The client's last block, as mirrored, is not on the server's chain. */
  ghost predicate HeadIsStale(s: Log, st: ClientStatus) {
    st.blocks != [] && var b := st.blocks[|st.blocks| - 1]; !(Holds(s, b.num) && b.id == At(s, b.num).id)
  }

  lemma {:induction false} PopsNoMore(s: Log, blocks: seq<BlockInfo>)
    ensures PopStale(s, blocks).Some? ==> |PopStale(s, blocks).value| <= |blocks|
    decreases |blocks|
  {
    if blocks != [] { PopsNoMore(s, blocks[..|blocks| - 1]); }
  }

  lemma PoppedIff(hash: Block -> Id, s: Log, st: ClientStatus, d: Log)
    requires Ready(hash, s, d) && Mirrors(st, d)
    ensures PopStale(s, st.blocks).Some? ==> (|PopStale(s, st.blocks).value| < |st.blocks| <==> HeadIsStale(s, st))
  {
    if st.blocks != [] {
      var b := st.blocks[|st.blocks| - 1];
      assert b.num == st.blocks[0].num + (|st.blocks| - 1);
      Trusted(hash, s, st, b);
      PopsNoMore(s, st.blocks[..|st.blocks| - 1]);
    }
  }

  /** Messages with a block leave the client knowing finality; without one they leave its finality
      as it was, and what it knew stays so. */
  ghost predicate Informs(s: Log, d: Log, ms: seq<Message>) {
    var d' := Deliver(d, ms);
    && (SendsBlock(ms) ==> KnowsFinality(s, d')) && (!SendsBlock(ms) ==> d'.irreversible == d.irreversible)
    && (KnowsFinality(s, d) ==> KnowsFinality(s, d'))
  }

  lemma NoBlockAsked()
    ensures !SendsBlock([SendStatus])
  {
  }

  lemma SendStatusChangesNothing(d: Log)
    ensures Process(d, SendStatus) == d
  {
  }

  lemma InStepAfterTell(hash: Block -> Id, s: Log, st: ClientStatus, st1: ClientStatus, d: Log, r: Sent, tell: seq<Message>)
    requires Ready(hash, s, d) && Mirrors(st, d) && MirrorSettled(st, s) && Ahead(s, st1, d)
    requires st1 == st.(blocks := st1.blocks) && |st1.blocks| <= |st.blocks| && (|st1.blocks| == |st.blocks| ==> st1.blocks == st.blocks)
    requires Sound(hash, d, r.messages) && NoAsk(r.messages)
    requires if r.any then InStep(hash, s, r.status, Deliver(d, r.messages)) else r.status == st1 && r.messages == []
    requires tell == if |st1.blocks| < |st.blocks| && !r.any then [SetHead(MirrorHead(r.status.blocks))] else []
    ensures InStep(hash, s, r.status, Deliver(Deliver(d, r.messages), tell))
    ensures Sound(hash, Deliver(d, r.messages), tell) && NoAsk(r.messages + tell)
    ensures !SendsBlock(tell) && (r.any ==> tell == [])
    ensures !r.any ==>
              var d' := Deliver(Deliver(d, r.messages), tell);
              d'.irreversible == d.irreversible && (KnowsFinality(s, d) ==> KnowsFinality(s, d'))
  {
    hide Process, Checked, ClientOk, Agrees, SettledOnServer, MirrorSettled, LogValid;
    SoundConcat(hash, d, r.messages, []);
    if !r.any {
      if |st1.blocks| < |st.blocks| {
        HeadTold(hash, s, st1, d);
        InStepIsReady(hash, s, st1, Process(d, SetHead(MirrorHead(st1.blocks))));
        ReadyIsOk(hash, s, Process(d, SetHead(MirrorHead(st1.blocks))));
        DeliverOne(hash, d, SetHead(MirrorHead(st1.blocks)));
        KnowsAfterHead(hash, s, st1, d);
      } else {
        assert st1 == st;
      }
    }
  }

  lemma KnowsAfterHead(hash: Block -> Id, s: Log, st: ClientStatus, d: Log)
    requires Ready(hash, s, d) && Ahead(s, st, d)
    ensures var d' := Process(d, SetHead(MirrorHead(st.blocks)));
            d'.irreversible == d.irreversible && (KnowsFinality(s, d) ==> KnowsFinality(s, d'))
  {
    TruncateWorks(hash, d, MirrorHead(st.blocks));
    hide Process;
  }

  // ----- runs -----

  lemma InitHolds(hash: Block -> Id, y: System)
    requires Init(hash, y)
    ensures Inv(hash, y)
  {
  }

  /** The status a client sends lists the blocks it holds from the irreversible one on. */
  lemma StatusBlocks(l: Log, maxBlocks: nat) returns (first: nat)
    requires LogValid(l)
    ensures StatusOf(l, maxBlocks).irreversible == l.irreversible
    ensures first <= |l.blocks| && |StatusOf(l, maxBlocks).blocks| == |l.blocks| - first
    ensures forall k :: 0 <= k < |l.blocks| - first ==> StatusOf(l, maxBlocks).blocks[k] == InfoOf(l.blocks[first + k])
    ensures if l.irreversible == 0 then first == 0 else first < |l.blocks| && l.blocks[first].Num() == l.irreversible
  {
    first := LowerBoundByNum(l.blocks, l.irreversible);
    StatusStart(l);
    hide LogValid, LowerBoundByNum;
  }

  lemma StatusStart(l: Log)
    requires LogValid(l)
    ensures IrreversibleOf(l) == l.irreversible
    ensures var first := LowerBoundByNum(l.blocks, l.irreversible);
            if l.irreversible == 0 then first == 0 else first < |l.blocks| && l.blocks[first].Num() == l.irreversible
  {
    IrreversibleIs(l);
    LowerBoundIsSearch(l.blocks, l.irreversible);
    FindsByNum(l.blocks, l.irreversible);
    hide LowerBoundByNum;
  }

  /** A fresh status mirrors the client. */
  lemma StatusMirrors(hash: Block -> Id, s: Log, l: Log, maxBlocks: nat)
    requires Ready(hash, s, l)
    ensures Mirrors(StatusOf(l, maxBlocks), l) && MirrorSettled(StatusOf(l, maxBlocks), s)
  {
    hide Injective, Hashed, StatusOf, ServerOk;
    var first := StatusBlocks(l, maxBlocks);
    StatusNumbers(l, StatusOf(l, maxBlocks), first);
    var st := StatusOf(l, maxBlocks);
    if st.blocks != [] {
      forall i | 0 <= i < |st.blocks| && st.blocks[i].num <= st.irreversible
        ensures Holds(s, st.blocks[i].num) && st.blocks[i].id == At(s, st.blocks[i].num).id
      {
        assert i == 0 && l.irreversible > 0;
      }
    }
  }

  lemma StatusNumbers(l: Log, st: ClientStatus, first: nat)
    requires LogValid(l) && st.irreversible == l.irreversible && first <= |l.blocks| && |st.blocks| == |l.blocks| - first
    requires forall k :: 0 <= k < |st.blocks| ==> st.blocks[k] == InfoOf(l.blocks[first + k])
    requires if l.irreversible == 0 then first == 0 else first < |l.blocks| && l.blocks[first].Num() == l.irreversible
    ensures Mirrors(st, l)
    ensures forall k :: 0 <= k < |st.blocks| ==> st.blocks[k].num == l.blocks[first].Num() + k
  {
  }

  /** A server change keeps what was irreversible. */
  lemma ChangeKeeps(hash: Block -> Id, s: Log, s': Log, num: nat)
    requires ServerOk(hash, s) && ServerChanged(hash, s, s') && Holds(s, num) && num <= s.irreversible
    ensures Holds(s', num) && At(s', num) == At(s, num)
  {
    HoldsWhole(hash, s, num);
    HoldsWhole(hash, s', num);
    assert s'.blocks[..s.irreversible][num - 1] == s.blocks[..s.irreversible][num - 1];
  }

  lemma ServerStep(hash: Block -> Id, y: System, y': System)
    requires Inv(hash, y) && ServerChanged(hash, y.server, y'.server) && y' == y.(server := y'.server)
    ensures Inv(hash, y')
  {
    var d := Deliver(y.client, y.toClient);
    if d.irreversible > 0 { ChangeKeeps(hash, y.server, y'.server, d.irreversible); }
    if y.status.Some? {
      var st := y.status.value;
      forall i | 0 <= i < |st.blocks| && st.blocks[i].num <= st.irreversible
        ensures Holds(y'.server, st.blocks[i].num) && st.blocks[i].id == At(y'.server, st.blocks[i].num).id
      {
        ChangeKeeps(hash, y.server, y'.server, st.blocks[i].num);
      }
    }
  }

  lemma AsksLastConcat(a: seq<Message>, b: seq<Message>)
    requires AsksLast(a) && !Asks(a) && AsksLast(b)
    ensures AsksLast(a + b) && (Asks(b) ==> Asks(a + b)) && (NoAsk(b) ==> !Asks(a + b))
  {
  }

  lemma UpdateStep(hash: Block -> Id, y: System, st: ClientStatus, y': System)
    requires Injective(hash) && ServerOk(hash, y.server) && Sound(hash, y.client, y.toClient)
    requires AsksLast(y.toClient) && !Asks(y.toClient) && SettledOnServer(y.server, Deliver(y.client, y.toClient))
    requires Mirrors(st, Deliver(y.client, y.toClient)) && MirrorSettled(st, y.server)
    requires Update(y.server, st).Some?
    requires var u := Update(y.server, st).value;
             y' == y.(status := u.status, toClient := y.toClient + u.messages, toServer := [])
    ensures Inv(hash, y')
    ensures y'.status.Some? ==> Converged(y'.server, y'.status.value)
  {
    hide Injective, ServerOk, SettledOnServer, Mirrors, MirrorSettled, Update, Converged, ClientOk, Process, Sound, Deliver;
    var d := Deliver(y.client, y.toClient);
    SoundConcat(hash, y.client, y.toClient, []);
    assert y.toClient + [] == y.toClient;
    UpdateSafe(hash, y.server, st, d);
    var u := Update(y.server, st).value;
    DeliverConcat(y.client, y.toClient, u.messages);
    SoundConcat(hash, y.client, y.toClient, u.messages);
    AsksLastConcat(y.toClient, u.messages);
  }

  lemma DeliverStep(hash: Block -> Id, y: System, y': System, maxBlocks: nat)
    requires Inv(hash, y) && y.toClient != []
    requires y' == y.(client := Process(y.client, y.toClient[0]), toClient := y.toClient[1..],
                      toServer := y.toServer + if y.toClient[0].SendStatus? then [StatusOf(y.client, maxBlocks)] else [])
    ensures Inv(hash, y')
  {
    hide Injective, ServerOk, SettledOnServer, Mirrors, MirrorSettled, ClientOk, Checked, StatusOf;
    assert Deliver(y'.client, y'.toClient) == Deliver(y.client, y.toClient);
    assert AsksLast(y.toClient[1..]);
    if y.toClient[0].SendStatus? {
      assert |y.toClient| == 1;
      SendStatusChangesNothing(y.client);
      assert StatusOf(y.client, maxBlocks).maxBlocksToSend == maxBlocks by { StatusMax(y.client, maxBlocks); }
    }
  }

  lemma StatusMax(l: Log, maxBlocks: nat)
    ensures StatusOf(l, maxBlocks).maxBlocksToSend == maxBlocks
  {
  }

  /** Every step keeps the invariant. */
  lemma StepKeeps(hash: Block -> Id, y: System, y': System)
    requires Inv(hash, y) && Step(hash, y, y')
    ensures Inv(hash, y')
  {
    if ServerChanged(hash, y.server, y'.server) && y' == y.(server := y'.server) {
      ServerStep(hash, y, y');
    } else if y.status.Some? && Update(y.server, y.status.value).Some? &&
        (var u := Update(y.server, y.status.value).value; y' == y.(status := u.status, toClient := y.toClient + u.messages)) {
      UpdateStep(hash, y, y.status.value, y');
    } else if y.toServer != [] && Update(y.server, y.toServer[0]).Some? &&
        (var u := Update(y.server, y.toServer[0]).value;
         y' == y.(status := u.status, toClient := y.toClient + u.messages, toServer := y.toServer[1..])) {
      ReceiveStep(hash, y, y');
    } else {
      var maxBlocks: nat :| y' == y.(client := Process(y.client, y.toClient[0]), toClient := y.toClient[1..],
                                     toServer := y.toServer + if y.toClient[0].SendStatus? then [StatusOf(y.client, maxBlocks)] else []);
      DeliverStep(hash, y, y', maxBlocks);
    }
  }

  lemma ReceiveStep(hash: Block -> Id, y: System, y': System)
    requires Inv(hash, y) && y.toServer != [] && Update(y.server, y.toServer[0]).Some?
    requires var u := Update(y.server, y.toServer[0]).value;
             y' == y.(status := u.status, toClient := y.toClient + u.messages, toServer := y.toServer[1..])
    ensures Inv(hash, y')
    ensures y'.status.Some? ==> Converged(y'.server, y'.status.value)
  {
    hide Injective, ServerOk, SettledOnServer, Mirrors, MirrorSettled, ClientOk, StatusOf, Update, Process, Converged;
    assert Deliver(y.client, y.toClient) == y.client;
    StatusMirrors(hash, y.server, y.client, y.toServer[0].maxBlocksToSend);
    assert y.toServer[1..] == [];
    UpdateStep(hash, y, y.toServer[0], y');
  }

  /** A run: each state follows from the one before. */
  ghost predicate IsRun(hash: Block -> Id, run: seq<System>) {
    && run != [] && Init(hash, run[0])
    && forall i :: 0 < i < |run| ==> Step(hash, run[i - 1], run[i])
  }

  lemma {:induction false} RunKeeps(hash: Block -> Id, run: seq<System>, n: nat)
    requires IsRun(hash, run) && n < |run|
    ensures Inv(hash, run[n])
  {
    hide Inv, Step, Init;
    if n == 0 {
      InitHolds(hash, run[0]);
    } else {
      RunKeeps(hash, run, n - 1);
      StepKeeps(hash, run[n - 1], run[n]);
    }
  }

  /** In every reachable state: all blocks in flight will be accepted, the log they leave
      agrees with a live mirror, what the client takes for irreversible is irreversible on
      the server, and the next update cannot throw. */
  lemma SyncIsSafe(hash: Block -> Id, run: seq<System>, n: nat)
    requires IsRun(hash, run) && n < |run|
    ensures var y := run[n];
            var d := Deliver(y.client, y.toClient);
            && Sound(hash, y.client, y.toClient) && SettledOnServer(y.server, d)
            && (y.status.Some? ==> Mirrors(y.status.value, d) && Update(y.server, y.status.value).Some?)
            && (y.toServer != [] ==> Update(y.server, y.toServer[0]).Some?)
  {
    RunKeeps(hash, run, n);
    var y := run[n];
    var d := Deliver(y.client, y.toClient);
    assert Inv(hash, y);
    hide IsRun, Sound, Mirrors, MirrorSettled, ServerOk, Update, StatusOf, SettledOnServer, Process, ClientOk, Injective;
    SoundConcat(hash, y.client, y.toClient, []);
    assert y.toClient + [] == y.toClient;
    if y.status.Some? {
      UpdateSafe(hash, y.server, y.status.value, d);
    }
    if y.toServer != [] {
      StatusMirrors(hash, y.server, y.client, y.toServer[0].maxBlocksToSend);
      UpdateSafe(hash, y.server, y.toServer[0], y.client);
    }
  }

  /** When the server has just updated and everything it sent has arrived, every block
      the client holds is the server's, up to the server's head. */
  lemma ClientCatchesUp(hash: Block -> Id, s: Log, st: ClientStatus, l: Log)
    requires Ready(hash, s, l) && Mirrors(st, l) && Converged(s, st)
    ensures LastNum(l.blocks) == LastNum(s.blocks)
    ensures forall k: nat :: Holds(l, k) ==> Holds(s, k) && At(l, k) == At(s, k)
  {
    var h := LastNum(s.blocks);
    if h > 0 && l.blocks != [] {
      var i := |st.blocks| - 1;
      assert Holds(l, h);
      assert st.blocks[i].num == h;
      forall k: nat | Holds(l, k)
        ensures Holds(s, k) && At(l, k) == At(s, k)
      {
        HoldsWhole(hash, s, k);
        SharedBelow(hash, s, l, h, k);
      }
    }
  }

  // ----- progress -----

  ghost predicate OnServer(s: Log, d: Log) {
    var h := LastNum(d.blocks);
    h > 0 ==> Holds(d, h) && Holds(s, h) && At(d, h).id == At(s, h).id
  }

  /** How far the client is behind the server. */
  ghost function Behind(s: Log, d: Log): int {
    if OnServer(s, d) then LastNum(s.blocks) - LastNum(d.blocks) else LastNum(s.blocks) + 1
  }

  lemma NothingStale(hash: Block -> Id, s: Log, st: ClientStatus, d: Log)
    requires Ready(hash, s, d) && Mirrors(st, d) && OnServer(s, d)
    ensures PopStale(s, st.blocks) == Some(st.blocks)
  {
    if st.blocks != [] {
      var b := st.blocks[|st.blocks| - 1];
      assert b.num == st.blocks[0].num + (|st.blocks| - 1);
      Trusted(hash, s, st, b);
      assert b.num == LastNum(d.blocks);
    }
  }

  lemma InStepIsOnServer(hash: Block -> Id, s: Log, st: ClientStatus, d: Log)
    requires InStep(hash, s, st, d)
    ensures OnServer(s, d) && LastNum(d.blocks) == MirrorHead(st.blocks) <= LastNum(s.blocks)
  {
  }

  /** An update brings the client closer to the server unless it is already there. */
  lemma UpdateProgress(hash: Block -> Id, s: Log, st: ClientStatus, d: Log)
    requires Ready(hash, s, d) && Mirrors(st, d) && MirrorSettled(st, s) && st.maxBlocksToSend > 0
    ensures Update(s, st).Some?
    ensures var u := Update(s, st).value;
            0 <= Behind(s, Deliver(d, u.messages)) <= Behind(s, d)
            && (u.status.None? ==> Behind(s, Deliver(d, u.messages)) < Behind(s, d))
  {
    var st', all := UpdateParts(hash, s, st, d);
    if OnServer(s, d) { NothingStale(hash, s, st, d); }
    assert MirrorHead(st.blocks) == LastNum(d.blocks);
    hide Ready, Mirrors, MirrorSettled, Ahead, InStep, Process, PopStale, Update, Deliver, OnServer;
    InStepIsOnServer(hash, s, st', Deliver(d, all));
    DeliverConcat(d, all, [SendStatus]);
    DeliverOne(hash, Deliver(d, all), SendStatus);
    SendStatusChangesNothing(Deliver(d, all));
  }
}
