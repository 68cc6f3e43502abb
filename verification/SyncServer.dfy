/** The server's end of a connection: it mirrors the client's log and sends what the
    client lacks. */
module SyncServer {
  import opened Options
  import opened UndoModel
  import opened UndoMeaning
  import opened Greetings
  import opened MicroChains
  import opened BlockLogs
  import opened Storages
  import opened SyncProtocol

  class ConnectionState {
    const storage: Storage
    /** Whether the socket is still there. */
    var open: bool
    var status: Option<ClientStatus>
    /** What has been written to the socket. */
    var sent: seq<Message>

    constructor (storage: Storage)
      ensures this.storage == storage && open && status == None && sent == []
    {
      this.storage, open, status, sent := storage, true, None, [];
    }

    /** A status has arrived. */
    method OnMessage(st: ClientStatus)
      requires storage.Valid() && storage.head == |storage.blocksWasm.chain|
      modifies this
      ensures !old(open) ==> !open && sent == old(sent)
      ensures old(open) ==>
                var u := SyncProtocol.Update(storage.blocksWasm.log.Contents(), st);
                if u.Some? then open && status == u.value.status && sent == old(sent) + u.value.messages else !open
    {
      if !open {
        return;
      }
      status := Some(st);
      Update();
    }

    /** Pops what the client holds and the server does not, sends what the client lacks,
        and tells finality as it goes.  A lookup that throws closes the socket. */
    method Update()
      requires storage.Valid() && storage.head == |storage.blocksWasm.chain|
      modifies this
      ensures !old(open) || old(status).None? ==> open == old(open) && status == old(status) && sent == old(sent)
      ensures old(open) && old(status).Some? ==>
                var u := SyncProtocol.Update(storage.blocksWasm.log.Contents(), old(status).value);
                if u.Some? then open && status == u.value.status && sent == old(sent) + u.value.messages else !open
    {
      hide ValidAt, Consistent, Usable, EosioSorted, PopStale, SendBlocks;
      if !open || status.None? {
        return;
      }
      var needHeadUpdate := PopBlocks();
      if !open {
        return;
      }
      var any := SendMissing();
      if !open {
        return;
      }
      if any {
        needHeadUpdate := false;
      }
      if needHeadUpdate {
        sent := sent + [SetHead(MirrorHead(status.value.blocks))];
      }
      if status.value.maxBlocksToSend == 0 {
        sent := sent + [SendStatus];
        status := None;
      }
    }

    /** The first loop: takes blocks off the mirror until the last one is the server's. */
    method PopBlocks() returns (needHeadUpdate: bool)
      requires storage.Valid() && storage.head == |storage.blocksWasm.chain| && open && status.Some?
      modifies this`open, this`status
      ensures var kept := PopStale(storage.blocksWasm.log.Contents(), old(status).value.blocks);
              && (open <==> kept.Some?)
              && (open ==> status == Some(old(status).value.(blocks := kept.value))
                           && needHeadUpdate == (|kept.value| < |old(status).value.blocks|))
    {
      hide ValidAt, Consistent, Usable, EosioSorted, PopStale, BlockByNum;
      ghost var server, st0 := storage.blocksWasm.log.Contents(), status.value;
      HeadIsLength(storage);
      needHeadUpdate := false;
      while status.value.blocks != []
        invariant open && status.Some? && status.value == st0.(blocks := status.value.blocks)
        invariant |status.value.blocks| <= |st0.blocks| && needHeadUpdate == (|status.value.blocks| < |st0.blocks|)
        invariant PopStale(server, st0.blocks) == PopStale(server, status.value.blocks)
        decreases |status.value.blocks|
      {
        var b := status.value.blocks[|status.value.blocks| - 1];
        PopUnfolds(server, status.value.blocks);
        if b.num <= storage.head && BlockByNum(storage.blocksWasm.log.blocks, b.num).None? {
          open := false;
          return;
        }
        if b.num > storage.head || b.id != BlockByNum(storage.blocksWasm.log.blocks, b.num).value.id {
          status := Some(status.value.(blocks := status.value.blocks[..|status.value.blocks| - 1]));
          needHeadUpdate := true;
        } else {
          return;
        }
      }
      PopNothing(server);
    }

    /** The second loop: sends blocks up to the server's head or the client's limit. */
    method SendMissing() returns (any: bool)
      requires storage.Valid() && storage.head == |storage.blocksWasm.chain| && open && status.Some?
      modifies this
      ensures var r := SendBlocks(storage.blocksWasm.log.Contents(), old(status).value);
              && (open <==> r.Some?)
              && (open ==> status == Some(r.value.status) && sent == old(sent) + r.value.messages && any == r.value.any)
    {
      hide ValidAt, Consistent, Usable, EosioSorted, SendBlocks, BlockByNum, IrreversibleOf;
      ghost var server, st0, done := storage.blocksWasm.log.Contents(), status.value, [];
      HeadIsLength(storage);
      any := false;
      NothingDone(SendBlocks(server, st0));
      while status.value.maxBlocksToSend > 0
        invariant open && status.Some? && sent == old(sent) + done
        invariant Continues(SendBlocks(server, st0), done, any, SendBlocks(server, status.value))
        decreases status.value.maxBlocksToSend
      {
        SendUnfolds(server, status.value);
        var needBlock := MirrorHead(status.value.blocks) + 1;
        if needBlock > storage.head {
          return;
        }
        var block := BlockByNum(storage.blocksWasm.log.blocks, needBlock);
        if block.None? {
          open := false;
          return;
        }
        ghost var next := AfterSend(server, status.value, block.value);
        OneMore(SendBlocks(server, st0), done, any, SendBlocks(server, status.value), next.1, SendBlocks(server, next.0));
        sent := sent + [BlockMessage(block.value)];
        status := Some(status.value.(maxBlocksToSend := status.value.maxBlocksToSend - 1));
        status := Some(status.value.(blocks := status.value.blocks + [BlockInfo(needBlock, block.value.id)]));
        any := true;
        var irreversible := Min(IrreversibleOf(Log(storage.blocksWasm.log.blocks, storage.blocksWasm.log.irreversible)), MirrorHead(status.value.blocks));
        if irreversible > status.value.irreversible {
          sent := sent + [SetIrreversible(irreversible)];
          status := Some(status.value.(irreversible := irreversible));
        }
        done := done + next.1;
      }
      SendNothing(server, status.value);
    }
  }

  lemma SendNothing(server: Log, st: ClientStatus)
    requires st.maxBlocksToSend == 0
    ensures SendBlocks(server, st) == Some(Sent(st, [], false))
  {
  }

  lemma OneMore(whole: Option<Sent>, done: seq<Message>, any: bool, rest: Option<Sent>, ms: seq<Message>, later: Option<Sent>)
    requires Continues(whole, done, any, rest)
    requires rest == if later.None? then None else Some(Sent(later.value.status, ms + later.value.messages, true))
    ensures Continues(whole, done + ms, true, later)
  {
    if later.Some? { assert done + (ms + later.value.messages) == done + ms + later.value.messages; }
  }

  lemma PopUnfolds(server: Log, s: seq<BlockInfo>)
    requires s != []
    ensures var b := s[|s| - 1];
            PopStale(server, s) ==
              if b.num > LastNum(server.blocks) then PopStale(server, s[..|s| - 1])
              else if BlockByNum(server.blocks, b.num).None? then None
              else if b.id != BlockByNum(server.blocks, b.num).value.id then PopStale(server, s[..|s| - 1])
              else Some(s)
  {
  }

  lemma PopNothing(server: Log)
    ensures PopStale(server, []) == Some([])
  {
  }

  /** Sending from the start comes to the same as what is done, followed by the rest. */
  ghost predicate Continues(whole: Option<Sent>, done: seq<Message>, any: bool, rest: Option<Sent>) {
    if rest.None? then whole.None?
    else whole == Some(Sent(rest.value.status, done + rest.value.messages, any || rest.value.any))
  }

  lemma NothingDone(whole: Option<Sent>)
    ensures Continues(whole, [], false, whole)
  {
    if whole.Some? { assert [] + whole.value.messages == whole.value.messages; }
  }

  lemma SendUnfolds(server: Log, st: ClientStatus)
    requires st.maxBlocksToSend > 0
    ensures SendBlocks(server, st) ==
              if MirrorHead(st.blocks) + 1 > LastNum(server.blocks) then Some(Sent(st, [], false))
              else
                var b := BlockByNum(server.blocks, MirrorHead(st.blocks) + 1);
                if b.None? then None
                else
                  var (st1, ms) := AfterSend(server, st, b.value);
                  var r := SendBlocks(server, st1);
                  if r.None? then None else Some(Sent(r.value.status, ms + r.value.messages, true))
  {
  }
}
