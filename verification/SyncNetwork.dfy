/** One connection end to end: the server's storage and connection, two channels that
    keep order, and a client, in any interleaving. */
module SyncNetwork {
  import opened Basics
  import opened Options
  import opened UndoMeaning
  import opened BlockLogs
  import opened Greetings
  import opened MicroChains
  import opened Storages
  import opened SyncProtocol
  import opened SyncSafety
  import opened SyncServer
  import opened SyncClient

  // ----- what the objects do is what the protocol's steps say -----

  /** A pushed block changes the server's log the way the protocol allows. */
  lemma PushChanges(hash: Block -> Id, s: Log, s': Log, b: BlockWithId)
    requires ServerOk(hash, s) && LogValid(s') && |s.blocks| < UINT32 - 2
    requires 1 <= b.Num() <= |s.blocks| + 1 && s'.blocks == s.blocks[..b.Num() - 1] + [b]
    requires b.id == hash(b.block) && b.EosioNum() >= 1
    requires s.irreversible <= s'.irreversible && s.irreversible <= |s.blocks| && s.irreversible <= |s'.blocks|
    requires s'.blocks[..s.irreversible] == s.blocks[..s.irreversible]
    ensures ServerChanged(hash, s, s') && |s'.blocks| <= |s.blocks| + 1
  {
  }

  lemma UndoChanges(hash: Block -> Id, s: Log, s': Log)
    requires ServerOk(hash, s) && LogValid(s') && |s'.blocks| <= |s.blocks| && s'.blocks == s.blocks[..|s'.blocks|]
    requires s.irreversible <= s'.irreversible && s.irreversible <= |s.blocks| && s.irreversible <= |s'.blocks|
    requires s'.blocks[..s.irreversible] == s.blocks[..s.irreversible]
    ensures ServerChanged(hash, s, s')
  {
  }

  /** A processed block was hashed if the log it leaves is. */
  lemma ReceivedIsHashed(hash: Block -> Id, m: Message, before: seq<BlockWithId>, after: seq<BlockWithId>)
    requires Hashed(hash, before) && FromMessages(before, after, [m])
    requires m.BlockMessage? ==> m.b.id == hash(m.b.block) && m.b.EosioNum() >= 1
    ensures Hashed(hash, after)
  {
    forall i | 0 <= i < |after|
      ensures after[i].id == hash(after[i].block) && after[i].EosioNum() >= 1
    {
      assert after[i] in before || BlockMessage(after[i]) in [m];
    }
  }

  lemma MessageIsHashed(hash: Block -> Id, l: Log, ms: seq<Message>)
    requires Sound(hash, l, ms) && ms != []
    ensures ms[0].BlockMessage? ==> ms[0].b.id == hash(ms[0].b.block) && ms[0].b.EosioNum() >= 1
  {
    if ms[0].BlockMessage? {
      var b := ms[0].b;
      var a := Added(l, b);
      assert Process(l, ms[0]).blocks == a.blocks && a.blocks[|a.blocks| - 1] == b;
    }
  }

  // ----- equal heads mean equal chains and equal databases -----

  lemma SameChain(hash: Block -> Id, a: seq<BlockWithId>, b: seq<BlockWithId>)
    requires Injective(hash) && Linked(a) && Linked(b) && Hashed(hash, a) && Hashed(hash, b)
    requires |a| == |b| && (a != [] ==> a[|a| - 1].id == b[|b| - 1].id)
    ensures a == b
  {
    forall i | 0 <= i < |a|
      ensures a[i] == b[i]
    {
      EqualAncestry(hash, a, |a| - 1, b, |b| - 1, |a| - 1 - i);
    }
  }

  /** The last block of a chain is the last block of its log, trimmed or not. */
  lemma HeadOf(chain: seq<BlockWithId>, l: Log)
    requires OnChain(chain, l)
    ensures Linked(chain) && |chain| == LastNum(l.blocks)
    ensures chain != [] ==> Holds(l, |chain|) && At(l, |chain|) == chain[|chain| - 1]
  {
    ChainNumbers(chain, l);
  }

  /** Everything sent has arrived and the mirror has caught up: client and server have
      the same chain, although the client's log has been trimmed. */
  lemma CaughtUp(hash: Block -> Id, chainS: seq<BlockWithId>, s: Log, st: ClientStatus, chainC: seq<BlockWithId>, l: Log)
    requires Ready(hash, s, l) && Mirrors(st, l) && Converged(s, st)
    requires OnChain(chainS, s) && OnChain(chainC, l) && Hashed(hash, chainS) && Hashed(hash, chainC)
    ensures chainS == chainC
  {
    ClientCatchesUp(hash, s, st, l);
    HeadOf(chainS, s);
    HeadOf(chainC, l);
    hide Mirrors, Converged, OnChain, Linked, Hashed, Holds, At, LogValid;
    assert Injective(hash);
    SameChain(hash, chainS, chainC);
  }

  // ----- the run -----

  lemma MadeIs(hash: Block -> Id, l: Log, e: EosioBlock)
    ensures var b := Made(hash, l, e); b.id == hash(b.block) && b.EosioNum() == e.num
  {
    MadeBlock(hash, l, e);
  }

  /** A server, a client and what is in flight between them. */
  class Network {
    const storage: Storage
    const conn: ConnectionState
    const client: SubchainClient
    var toClient: seq<Message>
    var toServer: seq<ClientStatus>
    /** Whether the server has updated since its log last changed. */
    ghost var updated: bool

    ghost function ServerObjects(): set<object> {
      {storage, storage.blocksWasm, storage.stateWasm, storage.blocksWasm.log, storage.stateWasm.log,
       storage.blocksWasm.greetings, storage.stateWasm.greetings}
    }

    ghost function ClientObjects(): set<object> {
      {client, client.subchain, client.subchain.log, client.subchain.greetings}
    }

    ghost function State(): System
      reads this, conn, storage.blocksWasm.log, client.subchain.log
    {
      System(storage.blocksWasm.log.Contents(), conn.status, toClient, toServer, client.subchain.log.Contents())
    }

    /** How far the client will be behind the server once everything in flight arrives. */
    ghost function Distance(): int
      reads this, conn, storage.blocksWasm.log, client.subchain.log
    {
      Behind(State().server, Deliver(State().client, toClient))
    }

    /** Whether the client will know finality once everything in flight arrives. */
    ghost predicate Informed()
      reads this, conn, storage.blocksWasm.log, client.subchain.log
    {
      KnowsFinality(State().server, Deliver(State().client, toClient))
    }

    ghost predicate Separate()
    {
      conn.storage == storage && {this} !! {conn} !! ServerObjects() !! ClientObjects()
    }

    ghost predicate Valid()
      reads this, conn, ServerObjects(), ClientObjects()
    {
      var hash := storage.blocksWasm.hash;
      && Separate() && storage.Valid() && storage.head == |storage.blocksWasm.chain|
      && client.subchain.Valid() && !client.corrupt && client.messageQueue == [] && conn.open
      && storage.blocksWasm.cfg == client.subchain.cfg
      && Hashed(hash, storage.blocksWasm.chain) && Hashed(hash, client.subchain.chain)
      && Inv(hash, State()) && (forall i :: 0 <= i < |toServer| ==> toServer[i].maxBlocksToSend > 0)
      && (updated && conn.status.Some? ==> Converged(storage.blocksWasm.log.Contents(), conn.status.value))
    }

    /** The client has just connected, and sends its status. */
    constructor (storage: Storage, client: SubchainClient)
      requires storage.Valid() && storage.head == |storage.blocksWasm.chain| && client.subchain.Valid()
      requires !client.corrupt && client.messageQueue == []
      requires {storage, storage.blocksWasm, storage.stateWasm, storage.blocksWasm.log, storage.stateWasm.log,
                storage.blocksWasm.greetings, storage.stateWasm.greetings} !!
               {client, client.subchain, client.subchain.log, client.subchain.greetings}
      requires storage.blocksWasm.cfg == client.subchain.cfg
      requires Injective(storage.blocksWasm.hash)
      requires Hashed(storage.blocksWasm.hash, storage.blocksWasm.chain) && Hashed(storage.blocksWasm.hash, client.subchain.chain)
      requires ServerOk(storage.blocksWasm.hash, storage.blocksWasm.log.Contents())
      requires ClientOk(storage.blocksWasm.hash, client.subchain.log.Contents())
      requires SettledOnServer(storage.blocksWasm.log.Contents(), client.subchain.log.Contents())
      modifies client`sent
      ensures Valid() && fresh(conn) && this.storage == storage && this.client == client
    {
      hide ValidAt, Consistent, Usable, EosioSorted, Inv, Hashed, Converged, StatusOf, ServerOk, ClientOk, SettledOnServer, Injective;
      this.storage, this.client := storage, client;
      conn := new ConnectionState(storage);
      toClient, toServer, updated := [], [], false;
      new;
      client.SendStatus();
      toServer := [client.sent[|client.sent| - 1]];
      Opened(storage.blocksWasm.hash, State(), client.MaxBlocks());
      StatusMax(client.subchain.log.Contents(), client.MaxBlocks());
    }

    /** The server's history receiver delivers a block of the outer chain. */
    method ServerPushes(e: EosioBlock, eosioIrreversible: uint32) returns (ran: bool)
      requires Valid() && e.num >= 1 && |storage.blocksWasm.chain| < UINT32 - 2
      modifies this`updated, ServerObjects()
      ensures ran ==> Valid()
      ensures ran ==> |storage.blocksWasm.chain| <= |old(storage.blocksWasm.chain)| + 1
      ensures ran ==>
                var b := Made(storage.blocksWasm.hash, old(storage.blocksWasm.log.Contents()), e);
                if Checked(old(storage.blocksWasm.log.Contents()), b) == Appended then
                  1 <= b.Num() <= |old(storage.blocksWasm.chain)| + 1 && storage.blocksWasm.chain == old(storage.blocksWasm.chain)[..b.Num() - 1] + [b]
                else storage.blocksWasm.chain == old(storage.blocksWasm.chain)
      ensures ran ==>
                var l := old(storage.blocksWasm.log.Contents());
                var b := Made(storage.blocksWasm.hash, l, e);
                if Checked(l, b) == Appended then
                  storage.blocksWasm.log.Contents() == Raised(Added(l, b), BlockBeforeEosioNum(Added(l, b).blocks, Plus1(eosioIrreversible)))
                else storage.blocksWasm.log.Contents() == l
    {
      hide ValidAt, Consistent, Usable, EosioSorted, Inv, Hashed, Converged, Checked, BlockBeforeEosioNum, Made, Replay, Deliver, Behind;
      MadeIs(storage.blocksWasm.hash, storage.blocksWasm.log.Contents(), e);
      ghost var y := State();
      ghost var hash := storage.blocksWasm.hash;
      var added;
      added, ran := storage.PushBlock(e, eosioIrreversible);
      if ran && added {
        updated := false;
        ServerLogIs(storage);
        PushStep(hash, y, State(), Made(hash, y.server, e));
        HashedPush(hash, old(storage.blocksWasm.chain), Made(hash, y.server, e));
      }
    }

    method ServerUndoes(eosioNum: uint32)
      requires Valid()
      modifies this`updated, ServerObjects()
      ensures Valid() && |storage.blocksWasm.chain| <= |old(storage.blocksWasm.chain)|
      ensures storage.blocksWasm.chain == old(storage.blocksWasm.chain)[..|storage.blocksWasm.chain|]
    {
      hide ValidAt, Consistent, Usable, EosioSorted, Inv, Hashed, Converged;
      ghost var y := State();
      ghost var hash := storage.blocksWasm.hash;
      storage.UndoEosioNum(eosioNum);
      updated := false;
      ServerLogIs(storage);
      UndoStep(hash, y, State());
      HashedPrefix(hash, old(storage.blocksWasm.chain), |storage.blocksWasm.chain|);
    }

    /** The server's log has changed, and its connection is told. */
    method ServerUpdates()
      requires Valid()
      modifies this, conn
      ensures Valid() && (updated || conn.status.None?)
      ensures |old(conn.sent)| <= |conn.sent| && conn.sent[..|old(conn.sent)|] == old(conn.sent)
      ensures old(Informed()) || SendsBlock(conn.sent[|old(conn.sent)|..]) ==> Informed()
    {
      hide ValidAt, Consistent, Usable, EosioSorted, Inv, Hashed, Converged, SyncProtocol.Update, StatusOf, SendsBlock, KnowsFinality;
      ghost var y := State();
      var already := |conn.sent|;
      if conn.status.None? {
        NothingSent(conn.sent);
        return;
      }
      UpdateCannotThrow(storage.blocksWasm.hash, y);
      UpdateInforms(storage.blocksWasm.hash, y);
      conn.Update();
      toClient := toClient + conn.sent[already..];
      updated := true;
      UpdateIsStep(storage.blocksWasm.hash, y, y.status.value, State());
    }

    /** The client's status reaches the server. */
    method ServerReceives()
      requires Valid() && toServer != []
      modifies this, conn
      ensures Valid() && updated && toServer == [] && old(conn.status).None?
      ensures Distance() <= old(Distance()) && (conn.status.None? ==> Distance() < old(Distance()))
      ensures |old(conn.sent)| <= |conn.sent| && conn.sent[..|old(conn.sent)|] == old(conn.sent)
      ensures old(Informed()) || SendsBlock(conn.sent[|old(conn.sent)|..]) ==> Informed()
    {
      hide ValidAt, Consistent, Usable, EosioSorted, Inv, Hashed, Converged, SyncProtocol.Update, Behind, SendsBlock, KnowsFinality;
      ghost var y := State();
      var already := |conn.sent|;
      ReceiveCannotThrow(storage.blocksWasm.hash, y);
      ReceiveProgress(storage.blocksWasm.hash, y);
      ReceiveInforms(storage.blocksWasm.hash, y);
      assert y.toClient + SyncProtocol.Update(y.server, y.toServer[0]).value.messages == SyncProtocol.Update(y.server, y.toServer[0]).value.messages;
      conn.OnMessage(toServer[0]);
      toServer := toServer[1..];
      toClient := toClient + conn.sent[already..];
      updated := true;
      ReceiveIsStep(storage.blocksWasm.hash, y, State());
    }

    /** The first message in flight reaches the client.  `ran` is false when a decoder
        aborts on the client. */
    method ClientReceives() returns (ran: bool)
      requires Valid() && toClient != []
      modifies this`toClient, this`toServer, ClientObjects()
      ensures ran ==> Valid() && Distance() == old(Distance()) && Informed() == old(Informed())
      ensures ran ==> toClient == old(toClient)[1..]
      ensures ran ==> |toServer| <= |old(toServer)| + 1
    {
      hide ValidAt, Consistent, Usable, EosioSorted, Inv, Hashed, Converged, StatusOf, Process;
      ghost var y := State();
      ghost var hash := storage.blocksWasm.hash;
      var m := toClient[0];
      var already := |client.sent|;
      NextIsHashed(hash, y);
      StatusMax(y.client, client.MaxBlocks());
      client.OnMessage(m);
      ran := !client.corrupt;
      if ran {
        toClient := toClient[1..];
        toServer := toServer + client.sent[already..];
        ClientIsStep(hash, y, State(), client.MaxBlocks());
        ReceivedIsHashed(hash, m, old(client.subchain.chain), client.subchain.chain);
      }
    }
  }

  /** Left alone, the two sides finish talking, and then the client has the server's
      chain and the server's data, row for row with the same ids.  If the server sent a block on
      the way the client knows finality too. */
  method SettleDown(net: Network) returns (ran: bool)
    requires net.Valid()
    modifies net, net.conn, net.ClientObjects()
    ensures ran ==> net.Valid() && net.toClient == [] && net.toServer == []
    ensures ran ==> net.client.subchain.chain == net.storage.blocksWasm.chain
    ensures ran ==> net.client.subchain.greetings.Abs().current == net.storage.blocksWasm.greetings.Abs().current
    ensures |old(net.conn.sent)| <= |net.conn.sent| && net.conn.sent[..|old(net.conn.sent)|] == old(net.conn.sent)
    ensures ran && SendsBlock(net.conn.sent[|old(net.conn.sent)|..]) ==>
              net.client.subchain.log.irreversible == net.storage.blocksWasm.log.irreversible
  {
    hide Network.Valid, Network.Distance, Network.Informed, Consistent, Usable, Inv, ValidAt, SendsBlock;
    ghost var sent0 := net.conn.sent;
    NothingSent(sent0);
    if net.conn.status.Some? {
      net.ServerUpdates();
    }
    while net.toClient != [] || net.toServer != []
      invariant net.Valid() && (net.updated || net.conn.status.None?)
      invariant |sent0| <= |net.conn.sent| && net.conn.sent[..|sent0|] == sent0
      invariant SendsBlock(net.conn.sent[|sent0|..]) ==> net.Informed()
      decreases net.Distance(), net.conn.status.None?, 2 * |net.toClient| + |net.toServer|
    {
      DistanceIsNat(net);
      if net.toServer != [] {
        ghost var sent := net.conn.sent;
        net.ServerReceives();
        assert net.conn.sent[|sent0|..] == sent[|sent0|..] + net.conn.sent[|sent|..];
        SendsEither(sent[|sent0|..], net.conn.sent[|sent|..]);
      } else {
        var going := net.ClientReceives();
        if !going {
          return false;
        }
      }
    }
    ran := true;
    SameData(net);
    if net.Informed() { SameFinality(net); }
  }

  lemma DistanceIsNat(net: Network)
    requires net.Valid()
    ensures net.Distance() >= 0
  {
  }

  lemma SameData(net: Network)
    requires net.Valid() && net.toClient == [] && net.toServer == [] && (net.updated || net.conn.status.None?)
    ensures net.client.subchain.chain == net.storage.blocksWasm.chain
    ensures net.client.subchain.greetings.Abs().current == net.storage.blocksWasm.greetings.Abs().current
  {
    hide ValidAt, Usable, EosioSorted, Inv, Hashed, Converged, Replay, OnChain;
    var a, b := net.storage.blocksWasm, net.client.subchain;
    Quiet(a.hash, net.State());
    CaughtUp(a.hash, a.chain, a.log.Contents(), net.conn.status.value, b.chain, b.log.Contents());
  }

  lemma SameFinality(net: Network)
    requires net.Valid() && net.toClient == [] && net.toServer == [] && (net.updated || net.conn.status.None?)
    requires net.Informed()
    ensures net.client.subchain.log.irreversible == net.storage.blocksWasm.log.irreversible
  {
    hide ValidAt, Usable, EosioSorted, Inv, Hashed, Converged, Replay, OnChain;
    var a, b := net.storage.blocksWasm, net.client.subchain;
    Quiet(a.hash, net.State());
    KnowsAtHead(a.hash, a.log.Contents(), net.conn.status.value, b.log.Contents());
  }

  lemma KnowsAtHead(hash: Block -> Id, s: Log, st: ClientStatus, l: Log)
    requires Ready(hash, s, l) && Mirrors(st, l) && Converged(s, st) && KnowsFinality(s, l)
    ensures l.irreversible == s.irreversible
  {
    ClientCatchesUp(hash, s, st, l);
    hide Mirrors, Converged;
  }

  lemma NothingSent(sent: seq<Message>)
    ensures sent[|sent|..] == [] && !SendsBlock([])
  {
  }

  /** Nothing in flight: the client's own log is the one mirrored. */
  lemma Quiet(hash: Block -> Id, y: System)
    requires Inv(hash, y) && y.toClient == [] && y.toServer == []
    ensures y.status.Some? && Ready(hash, y.server, y.client) && Mirrors(y.status.value, y.client)
  {
  }

  // ----- facts the methods use -----

  /** The server's answer to a status. */
  lemma ReceiveProgress(hash: Block -> Id, y: System)
    requires Inv(hash, y) && y.toServer != [] && y.toServer[0].maxBlocksToSend > 0
    ensures y.status.None? && y.toClient == [] && |y.toServer| == 1 && Deliver(y.client, y.toClient) == y.client && Update(y.server, y.toServer[0]).Some?
    ensures var u := Update(y.server, y.toServer[0]).value;
            && Behind(y.server, Deliver(y.client, u.messages)) <= Behind(y.server, y.client)
            && (u.status.None? ==> Behind(y.server, Deliver(y.client, u.messages)) < Behind(y.server, y.client))
  {
    hide Mirrors, MirrorSettled, ServerOk, Update, StatusOf, SettledOnServer, Process, ClientOk, Injective, Behind;
    StatusMirrors(hash, y.server, y.client, y.toServer[0].maxBlocksToSend);
    UpdateProgress(hash, y.server, y.toServer[0], y.client);
  }

  lemma Opened(hash: Block -> Id, y: System, maxBlocks: nat)
    requires Injective(hash) && ServerOk(hash, y.server) && ClientOk(hash, y.client) && SettledOnServer(y.server, y.client)
    requires y.status == None && y.toClient == [] && y.toServer == [StatusOf(y.client, maxBlocks)]
    ensures Inv(hash, y)
  {
    StatusMax(y.client, maxBlocks);
    hide StatusOf;
    InitHolds(hash, y);
  }

  lemma ServerLogIs(s: Storage)
    requires s.Valid()
    ensures LogValid(s.blocksWasm.log.Contents()) && s.blocksWasm.log.blocks == s.blocksWasm.chain
  {
  }

  lemma PushStep(hash: Block -> Id, y: System, y': System, b: BlockWithId)
    requires Inv(hash, y) && y' == y.(server := y'.server) && LogValid(y'.server) && |y.server.blocks| < UINT32 - 2
    requires b.id == hash(b.block) && b.EosioNum() >= 1
    requires 1 <= b.Num() <= |y.server.blocks| + 1 && y'.server.blocks == y.server.blocks[..b.Num() - 1] + [b]
    requires y.server.irreversible <= y'.server.irreversible && y.server.irreversible <= |y.server.blocks| && y.server.irreversible <= |y'.server.blocks|
    requires y'.server.blocks[..y.server.irreversible] == y.server.blocks[..y.server.irreversible]
    ensures Inv(hash, y')
  {
    assert ServerOk(hash, y.server);
    hide Inv, LogValid;
    PushChanges(hash, y.server, y'.server, b);
    hide ServerOk;
    ServerStep(hash, y, y');
  }

  lemma UndoStep(hash: Block -> Id, y: System, y': System)
    requires Inv(hash, y) && y' == y.(server := y'.server) && LogValid(y'.server)
    requires |y'.server.blocks| <= |y.server.blocks| && y'.server.blocks == y.server.blocks[..|y'.server.blocks|]
    requires y.server.irreversible <= y'.server.irreversible && y.server.irreversible <= |y.server.blocks| && y.server.irreversible <= |y'.server.blocks|
    requires y'.server.blocks[..y.server.irreversible] == y.server.blocks[..y.server.irreversible]
    ensures Inv(hash, y')
  {
    assert ServerOk(hash, y.server);
    hide Inv, LogValid;
    UndoChanges(hash, y.server, y'.server);
    hide ServerOk;
    ServerStep(hash, y, y');
  }

  lemma HashedPush(hash: Block -> Id, chain: seq<BlockWithId>, b: BlockWithId)
    requires Hashed(hash, chain) && 1 <= b.Num() <= |chain| + 1 && b.id == hash(b.block) && b.EosioNum() >= 1
    ensures Hashed(hash, chain[..b.Num() - 1] + [b])
  {
  }

  lemma HashedPrefix(hash: Block -> Id, chain: seq<BlockWithId>, n: nat)
    requires Hashed(hash, chain) && n <= |chain|
    ensures Hashed(hash, chain[..n])
  {
  }

  /** Whatever the server has to do with a live mirror, it can. */
  lemma UpdateCannotThrow(hash: Block -> Id, y: System)
    requires Inv(hash, y) && y.status.Some?
    ensures Update(y.server, y.status.value).Some?
  {
    hide Sound, Mirrors, MirrorSettled, ServerOk, Update, SettledOnServer, Process, ClientOk, Injective;
    SoundConcat(hash, y.client, y.toClient, []);
    assert y.toClient + [] == y.toClient;
    UpdateSafe(hash, y.server, y.status.value, Deliver(y.client, y.toClient));
  }

  lemma ReceiveCannotThrow(hash: Block -> Id, y: System)
    requires Inv(hash, y) && y.toServer != []
    ensures Update(y.server, y.toServer[0]).Some?
  {
    hide Mirrors, MirrorSettled, ServerOk, Update, StatusOf, SettledOnServer, Process, ClientOk, Injective;
    StatusMirrors(hash, y.server, y.client, y.toServer[0].maxBlocksToSend);
    UpdateSafe(hash, y.server, y.toServer[0], y.client);
  }

  lemma UpdateInforms(hash: Block -> Id, y: System)
    requires Inv(hash, y) && y.status.Some? && Update(y.server, y.status.value).Some?
    ensures var ms := Update(y.server, y.status.value).value.messages;
            KnowsFinality(y.server, Deliver(y.client, y.toClient)) || SendsBlock(ms) ==> KnowsFinality(y.server, Deliver(y.client, y.toClient + ms))
  {
    hide Sound, Mirrors, MirrorSettled, ServerOk, Update, SettledOnServer, Process, ClientOk, Injective, SendsBlock;
    SoundConcat(hash, y.client, y.toClient, []);
    assert y.toClient + [] == y.toClient;
    UpdateSafe(hash, y.server, y.status.value, Deliver(y.client, y.toClient));
    DeliverConcat(y.client, y.toClient, Update(y.server, y.status.value).value.messages);
  }

  lemma ReceiveInforms(hash: Block -> Id, y: System)
    requires Inv(hash, y) && y.toServer != [] && Update(y.server, y.toServer[0]).Some?
    ensures var ms := Update(y.server, y.toServer[0]).value.messages;
            KnowsFinality(y.server, y.client) || SendsBlock(ms) ==> KnowsFinality(y.server, Deliver(y.client, ms))
  {
    hide Mirrors, MirrorSettled, ServerOk, Update, StatusOf, SettledOnServer, Process, ClientOk, Injective, SendsBlock;
    StatusMirrors(hash, y.server, y.client, y.toServer[0].maxBlocksToSend);
    UpdateSafe(hash, y.server, y.toServer[0], y.client);
  }

  lemma UpdateIsStep(hash: Block -> Id, y: System, st: ClientStatus, y': System)
    requires Inv(hash, y) && y.status == Some(st) && Update(y.server, st).Some?
    requires var u := Update(y.server, st).value; y' == y.(status := u.status, toClient := y.toClient + u.messages)
    ensures Inv(hash, y') && (y'.status.Some? ==> Converged(y'.server, y'.status.value))
  {
    hide Mirrors, MirrorSettled, ServerOk, Update, StatusOf, SettledOnServer, Process, ClientOk, Injective, Sound, Converged;
    UpdateStep(hash, y, st, y');
  }

  lemma ReceiveIsStep(hash: Block -> Id, y: System, y': System)
    requires Inv(hash, y) && y.toServer != [] && Update(y.server, y.toServer[0]).Some?
    requires var u := Update(y.server, y.toServer[0]).value;
             y' == y.(status := u.status, toClient := y.toClient + u.messages, toServer := y.toServer[1..])
    ensures Inv(hash, y') && (y'.status.Some? ==> Converged(y'.server, y'.status.value))
  {
    hide Inv, Update, Converged;
    ReceiveStep(hash, y, y');
  }

  lemma NextIsHashed(hash: Block -> Id, y: System)
    requires Inv(hash, y) && y.toClient != []
    ensures var m := y.toClient[0]; m.BlockMessage? ==> m.b.id == hash(m.b.block) && m.b.EosioNum() >= 1
  {
    MessageIsHashed(hash, y.client, y.toClient);
  }

  lemma ClientIsStep(hash: Block -> Id, y: System, y': System, maxBlocks: nat)
    requires Inv(hash, y) && y.toClient != []
    requires y' == y.(client := Process(y.client, y.toClient[0]), toClient := y.toClient[1..],
                      toServer := y.toServer + if y.toClient[0].SendStatus? then [StatusOf(y.client, maxBlocks)] else [])
    ensures Inv(hash, y')
  {
    hide Inv, Process, StatusOf;
    DeliverStep(hash, y, y', maxBlocks);
  }
}
