/** The client's end of a connection: it applies the messages to its micro chain in order. */
module SyncClient {
  import opened UndoMeaning
  import opened BlockLogs
  import opened Greetings
  import opened MicroChains
  import opened SyncProtocol

  /** The statuses sent back while the messages are processed. */
  function Answers(l: Log, ms: seq<Message>, maxBlocks: nat): seq<ClientStatus>
    decreases |ms|
  {
    if ms == [] then []
    else (if ms[0].SendStatus? then [StatusOf(l, maxBlocks)] else []) + Answers(Process(l, ms[0]), ms[1..], maxBlocks)
  }

  /** Every block of the new chain was there before or came in a message. */
  ghost predicate FromMessages(before: seq<BlockWithId>, after: seq<BlockWithId>, ms: seq<Message>) {
    forall b :: b in after ==> b in before || BlockMessage(b) in ms
  }

  lemma {:induction false} AnswersOne(l: Log, m: Message, maxBlocks: nat)
    ensures Answers(l, [m], maxBlocks) == if m.SendStatus? then [StatusOf(l, maxBlocks)] else []
    ensures Deliver(l, [m]) == Process(l, m)
  {
    assert [m][1..] == [];
  }

  lemma OneMessage(l: Log, ms: seq<Message>, maxBlocks: nat)
    requires ms != []
    ensures Deliver(l, ms) == Deliver(Process(l, ms[0]), ms[1..])
    ensures Answers(l, ms, maxBlocks) ==
            (if ms[0].SendStatus? then [StatusOf(l, maxBlocks)] else []) + Answers(Process(l, ms[0]), ms[1..], maxBlocks)
  {
  }

  lemma NoMessage(l: Log, maxBlocks: nat)
    ensures Deliver(l, []) == l && Answers(l, [], maxBlocks) == []
  {
  }

  class SubchainClient {
    const subchain: MicroChain
    const slowmo: bool
    var messageQueue: seq<Message>
    /** What has been written to the socket. */
    var sent: seq<ClientStatus>
    /** Set once a decoder aborts: the instance is not used again. */
    var corrupt: bool

    constructor (subchain: MicroChain, slowmo: bool)
      ensures this.subchain == subchain && this.slowmo == slowmo && messageQueue == [] && sent == [] && !corrupt
    {
      this.subchain, this.slowmo, messageQueue, sent, corrupt := subchain, slowmo, [], [], false;
    }

    function MaxBlocks(): nat { if slowmo then 1 else 1000 }

    /** Tells the server the irreversible number and every block from there on. */
    method SendStatus()
      modifies this`sent
      ensures sent == old(sent) + [StatusOf(subchain.log.Contents(), MaxBlocks())]
      ensures sent[|sent| - 1].maxBlocksToSend == if slowmo then 1 else 1000
    {
      var irreversible := IrreversibleOf(Log(subchain.log.blocks, subchain.log.irreversible));
      var blocks := InfosOf(subchain.log.blocks[LowerBoundByNum(subchain.log.blocks, irreversible)..]);
      sent := sent + [ClientStatus(MaxBlocks(), irreversible, blocks)];
    }

    /** A message has arrived. */
    method OnMessage(m: Message)
      requires subchain.Valid() && !corrupt && messageQueue == []
      modifies this, subchain, subchain.log, subchain.greetings
      ensures !corrupt ==> subchain.Valid() && subchain.Final() && messageQueue == []
      ensures !corrupt ==> subchain.log.Contents() == Process(old(subchain.log.Contents()), m)
      ensures !corrupt ==> sent == old(sent) + if m.SendStatus? then [StatusOf(old(subchain.log.Contents()), MaxBlocks())] else []
      ensures !corrupt ==> FromMessages(old(subchain.chain), subchain.chain, [m])
    {
      hide Consistent, Usable, Process, StatusOf;
      AnswersOne(subchain.log.Contents(), m, MaxBlocks());
      messageQueue := messageQueue + [m];
      ProcessQueue();
    }

    /** Drains the queue. */
    method ProcessQueue()
      requires subchain.Valid() && !corrupt
      modifies this, subchain, subchain.log, subchain.greetings
      ensures !corrupt ==> subchain.Valid() && subchain.Final() && messageQueue == []
      ensures !corrupt ==> subchain.log.Contents() == Deliver(old(subchain.log.Contents()), old(messageQueue))
      ensures !corrupt ==> sent == old(sent) + Answers(old(subchain.log.Contents()), old(messageQueue), MaxBlocks())
      ensures !corrupt ==> FromMessages(old(subchain.chain), subchain.chain, old(messageQueue))
    {
      hide ValidAt, Consistent, Usable, Replay, Process, StatusOf, Deliver, Answers;
      IrreversibleInChain(subchain.cfg, subchain.chain, subchain.log.Contents(), subchain.greetings.Abs());
      while messageQueue != []
        invariant !corrupt && subchain.Valid() && subchain.Final()
        invariant Deliver(subchain.log.Contents(), messageQueue) == Deliver(old(subchain.log.Contents()), old(messageQueue))
        invariant sent + Answers(subchain.log.Contents(), messageQueue, MaxBlocks()) ==
                  old(sent) + Answers(old(subchain.log.Contents()), old(messageQueue), MaxBlocks())
        invariant FromMessages(old(subchain.chain), subchain.chain, old(messageQueue))
        invariant forall m :: m in messageQueue ==> m in old(messageQueue)
        decreases |messageQueue|
      {
        label before:
        var data := messageQueue[0];
        OneMessage(subchain.log.Contents(), messageQueue, MaxBlocks());
        messageQueue := messageQueue[1..];
        Take(data);
        if corrupt { return; }
        StillFinal(old(subchain.chain), old@before(subchain.chain), subchain.chain, old(subchain.log.irreversible), old@before(subchain.log.irreversible));
      }
      NoMessage(subchain.log.Contents(), MaxBlocks());
    }

    /** What one message does. */
    method Take(m: Message)
      requires subchain.Valid() && !corrupt
      modifies this`sent, this`corrupt, subchain, subchain.log, subchain.greetings
      ensures !corrupt ==> subchain.Valid() && subchain.Final()
      ensures !corrupt ==> subchain.log.Contents() == Process(old(subchain.log.Contents()), m)
      ensures !corrupt ==> sent == old(sent) + if m.SendStatus? then [StatusOf(old(subchain.log.Contents()), MaxBlocks())] else []
      ensures !corrupt ==> FromMessages(old(subchain.chain), subchain.chain, [m])
    {
      hide ValidAt, Consistent, Usable, Replay, StatusOf, Checked, BlockBeforeEosioNum, BlockBeforeNum, UndoneCount;
      IrreversibleInChain(subchain.cfg, subchain.chain, subchain.log.Contents(), subchain.greetings.Abs());
      match m
      case BlockMessage(b) =>
        var added, ran := subchain.AddBlockWithId(b, 0);
        corrupt := !ran;
      case SendStatus =>
        SendStatus();
      case SetHead(head) =>
        subchain.UndoBlockNum(Plus1(head));
      case SetIrreversible(irreversible) =>
        var r := subchain.SetIrreversible(irreversible);
        subchain.TrimBlocks();
    }
  }
}
