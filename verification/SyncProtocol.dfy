/** The messages between the server and a browser, and what each side does with them. */
module SyncProtocol {
  import opened Basics
  import opened Options
  import opened UndoModel
  import opened BlockLogs

  datatype BlockInfo = BlockInfo(num: uint32, id: Id)

  /** What a client tells about its log.  On the server it becomes the mirror of that log. */
  datatype ClientStatus = ClientStatus(maxBlocksToSend: nat, irreversible: uint32, blocks: seq<BlockInfo>)

  datatype Message =
    | BlockMessage(b: BlockWithId)
    | SetHead(head: uint32)
    | SetIrreversible(irreversible: uint32)
    | SendStatus

  function InfoOf(b: BlockWithId): BlockInfo { BlockInfo(b.Num(), b.id) }

  function InfosOf(s: seq<BlockWithId>): (r: seq<BlockInfo>)
    ensures |r| == |s| && forall i :: 0 <= i < |s| ==> r[i] == InfoOf(s[i])
  {
    seq(|s|, i requires 0 <= i < |s| => InfoOf(s[i]))
  }

  function LastNum(s: seq<BlockWithId>): uint32 {
    if s == [] then 0 else s[|s| - 1].Num()
  }

  /** The number of the irreversible block, as a query returns it. */
  function IrreversibleOf(l: Log): uint32 {
    var b := BlockByNum(l.blocks, l.irreversible);
    if b.Some? then b.value.Num() else 0
  }

  // ----- the client -----

  /** The status a client sends: its irreversible number and all blocks from there on. */
  function StatusOf(l: Log, maxBlocks: nat): ClientStatus {
    var i := IrreversibleOf(l);
    ClientStatus(maxBlocks, i, InfosOf(l.blocks[LowerBoundByNum(l.blocks, i)..]))
  }

  /** What a message does to the client's log. */
  function Process(l: Log, m: Message): Log {
    match m
    case BlockMessage(b) =>
      if Checked(l, b) == Appended then Raised(Added(l, b), BlockBeforeEosioNum(Added(l, b).blocks, Plus1(0))) else l
    case SetHead(head) => UndoneLog(l, Plus1(head))
    case SetIrreversible(irreversible) => Trimmed(Raised(l, BlockBeforeNum(l.blocks, Plus1(irreversible))))
    case SendStatus => l
  }

  /** Told of finality, a client has it for as many blocks as it holds, never less than before,
      and keeps nothing below it. */
  lemma TrimsTo(l: Log, n: uint32)
    requires LogValid(l) && l.blocks != [] && l.blocks[0].Num() <= n < UINT32 - 1
    ensures var d, last := Process(l, SetIrreversible(n)), l.blocks[|l.blocks| - 1].Num();
            && d.irreversible == (if n < l.irreversible then l.irreversible else if n < last then n else last)
            && |d.blocks| <= |l.blocks| && d.blocks == l.blocks[|l.blocks| - |d.blocks|..]
            && d.blocks != [] && d.blocks[0].Num() == d.irreversible
  {
    RaisedByNum(l, n);
    RaisedIsValid(l, BlockBeforeNum(l.blocks, Plus1(n)));
    TrimmedIsValid(Raised(l, BlockBeforeNum(l.blocks, Plus1(n))));
  }

  /** Told of a head, it goes back to that number, but not below finality. */
  lemma CutsTo(l: Log, n: uint32)
    requires LogValid(l) && n < UINT32 - 1
    ensures var d := Process(l, SetHead(n));
            && d.irreversible == l.irreversible && |d.blocks| <= |l.blocks| && d.blocks == l.blocks[..|d.blocks|]
            && LastNum(d.blocks) == (if l.irreversible <= n < LastNum(l.blocks) then n else LastNum(l.blocks))
  {
    hide UndoneLog, UndoneCount, LowerBoundByNum, LogValid;
    LogShape(l);
    if l.irreversible <= n < LastNum(l.blocks) {
      var j := n + 1 - l.blocks[0].Num();
      UndoneExactly(l, n + 1, j);
      assert LastNum(l.blocks[..j]) == n;
    } else {
      UndoneExactly(l, n + 1, 0);
      assert l.blocks[..|l.blocks|] == l.blocks;
    }
  }

  lemma LogShape(l: Log)
    requires LogValid(l)
    ensures forall i :: 0 <= i < |l.blocks| ==> l.blocks[i].Num() == l.blocks[0].Num() + i
    ensures l.blocks != [] ==> 1 <= l.blocks[0].Num() && (l.irreversible == 0 ==> l.blocks[0].Num() == 1)
    ensures l.irreversible > 0 ==> l.blocks != [] && l.blocks[0].Num() <= l.irreversible <= LastNum(l.blocks)
  {
  }

  /** A block that links up ends the log, whatever was there from its number on goes. */
  lemma TakesBlock(l: Log, b: BlockWithId)
    requires LogValid(l)
    ensures var d, i := Process(l, BlockMessage(b)), LowerBoundByNum(l.blocks, b.Num());
            d.blocks == if Checked(l, b) == Appended then l.blocks[..i] + [b] else l.blocks
    ensures var d := Process(l, BlockMessage(b));
            (forall c :: c in l.blocks + [b] ==> c.EosioNum() > 0) && EosioSorted(d.blocks) ==> d.irreversible == l.irreversible
  {
    AcceptedExactly(l, b);
    var d := Process(l, BlockMessage(b));
    if Checked(l, b) == Appended && EosioSorted(d.blocks) && (forall c :: c in l.blocks + [b] ==> c.EosioNum() > 0) {
      RaisedByEosioNum(Added(l, b), 0, 0);
    }
  }

  function Deliver(l: Log, ms: seq<Message>): Log
    decreases |ms|
  {
    if ms == [] then l else Deliver(Process(l, ms[0]), ms[1..])
  }

  lemma {:induction false} DeliverConcat(l: Log, a: seq<Message>, b: seq<Message>)
    ensures Deliver(l, a + b) == Deliver(Deliver(l, a), b)
    decreases |a|
  {
    if a == [] {
      assert a + b == b;
    } else {
      assert (a + b)[1..] == a[1..] + b;
      DeliverConcat(Process(l, a[0]), a[1..], b);
    }
  }

  // ----- the server -----

  function MirrorHead(s: seq<BlockInfo>): uint32 {
    if s == [] then 0 else s[|s| - 1].num
  }

  /** Whether the last mirrored block must go; None when looking it up throws. */
  function IsStale(server: Log, b: BlockInfo): Option<bool> {
    if b.num > LastNum(server.blocks) then Some(true)
    else
      var known := BlockByNum(server.blocks, b.num);
      if known.None? then None else Some(b.id != known.value.id)
  }

  /** The mirror without the blocks at its end that are not on the server's chain. */
  function PopStale(server: Log, s: seq<BlockInfo>): Option<seq<BlockInfo>> {
    if s == [] then Some(s)
    else
      var stale := IsStale(server, s[|s| - 1]);
      if stale.None? then None
      else if stale.value then PopStale(server, s[..|s| - 1])
      else Some(s)
  }

  datatype Sent = Sent(status: ClientStatus, messages: seq<Message>, any: bool)

  /** The irreversible number a client at block `head` should have. */
  function Settled(server: Log, head: uint32): uint32 {
    Min(IrreversibleOf(server), head)
  }

  /** The mirror and the messages after one block is sent. */
  function AfterSend(server: Log, st: ClientStatus, b: BlockWithId): (r: (ClientStatus, seq<Message>))
    requires st.maxBlocksToSend > 0 && MirrorHead(st.blocks) + 1 < UINT32
    ensures r.0.maxBlocksToSend == st.maxBlocksToSend - 1
  {
    var num := MirrorHead(st.blocks) + 1;
    var st1 := st.(maxBlocksToSend := st.maxBlocksToSend - 1, blocks := st.blocks + [BlockInfo(num, b.id)]);
    if Settled(server, num) > st.irreversible then
      (st1.(irreversible := Settled(server, num)), [BlockMessage(b), SetIrreversible(Settled(server, num))])
    else
      (st1, [BlockMessage(b)])
  }

  /** Sends the blocks after the mirror's head, as many as the client asked for. */
  function SendBlocks(server: Log, st: ClientStatus): Option<Sent>
    decreases st.maxBlocksToSend
  {
    if st.maxBlocksToSend == 0 || MirrorHead(st.blocks) + 1 > LastNum(server.blocks) then Some(Sent(st, [], false))
    else
      var b := BlockByNum(server.blocks, MirrorHead(st.blocks) + 1);
      if b.None? then None
      else
        var (st1, ms) := AfterSend(server, st, b.value);
        var r := SendBlocks(server, st1);
        if r.None? then None else Some(Sent(r.value.status, ms + r.value.messages, true))
  }

  /** What is left of the mirror (None once a new status is asked for) and what is sent. */
  datatype Updated = Updated(status: Option<ClientStatus>, messages: seq<Message>)

  /** One run of the server's update; None when it throws and the connection closes. */
  function Update(server: Log, st: ClientStatus): Option<Updated> {
    var kept := PopStale(server, st.blocks);
    if kept.None? then None
    else
      var r := SendBlocks(server, st.(blocks := kept.value));
      if r.None? then None
      else
        var tell := if |kept.value| < |st.blocks| && !r.value.any then [SetHead(MirrorHead(r.value.status.blocks))] else [];
        if r.value.status.maxBlocksToSend == 0 then Some(Updated(None, r.value.messages + tell + [SendStatus]))
        else Some(Updated(Some(r.value.status), r.value.messages + tell))
  }
}
