# The micro-chain toolkit in Dafny

A model of the parts of this repository that keep state in step or carry bytes across a
boundary, with proofs of what they are for. `dafny verify dfyconfig.toml` checks all of it.

**The undo table** (`OrderedIndex`, `TableIndices`, `UndoModel`, `UndoInvariant`,
`UndoRestore`, `UndoCompress`, `UndoMeaning`, `UndoPhases`, `UndoSquash`, `UndoRefusal`,
`UndoIndex`, `UndoLaws`, `UndoLoss`). A table with several indices whose edits can be taken back. It keeps no copies: two lists
shared by all sessions, a time on every node and every session, and saved ends of the lists.
The class `UndoIndex` has these fields and loops; the proofs show that each method, and
every run of them, means what it would mean on one full copy of the table per session.
Nodes live at addresses that are used again after a node is freed. `Database` puts several
tables under one database and its sessions.

**The micro chain** (`BlockLog`, `Greetings`, `GreetingHistory`, `MicroChain`, `Storage`). A log of hash-linked
blocks that can fork, become final and be trimmed, in step with the database. After any run
of calls the database is the replay of the surviving chain, and `GreetingHistory` says what
that is in terms of the chain's actions alone. The server keeps two instances,
one of them trimmed after every push; nobody can tell them apart.

**The synchronisation of browsers** (`SyncProtocol`, `SyncSafety`, `SyncServer`,
`SyncClient`, `SyncNetwork`). The server mirrors each client's log and sends what is missing
over a channel that keeps the order. The steps are proved safe as a state machine, the
methods of both sides are proved to be those steps, and a network of those
objects, left alone, settles with the same chain and the same rows on both sides.

**Codecs.** `ByteStrings` (variable-length numbers), `KeyEncoding` and `KeyWriter` (keys
that sort like their values), `AbiSpec`, `AbiFormat`, `AbiLaws`, `AbiNames`, `AbiTree`, `AbiTokens`, `JsonTokens`,
`AbiDecode`, `AbiReader`, `AbiCheck` (the two ABI encoders and the decoder, each a machine
with its own stack), `Cursors`, `SortedSearch`, `Pagination` and `BlockQuery` (cursor
paging), `Radix`, `Base58`, `Decimal`, `Ripemd160`, `KeyTypes` and
`KeyStrings`, `LineProgram` (line programs of DWARF version 4), `Grisu` (digits of floating point numbers), `Calendar` and
`TimeText`.

`Basics` holds the widths of integers, powers and sequences that several modules use.

Functions ending a run are modelled by an outcome: `ok`, `ran` or an `Option`. A failed
`eosio::check` aborts a contract, so except for `modify` nothing is said about what would
follow it.

Where the code does not do what it might be expected to do:

- Rounding in Grisu2 can take the last digit down to zero. `Grisu.GenerateDigits` says
  exactly when, in terms of the bounds, and `Grisu.LastDigitCanBeZero` gives bounds of the
  shape of a double for it.
- A `modify` that is refused puts the row back without the time it had. Its comment promises
  basic exception safety, but a caller that catches the failed check and changes the row
  again in the same session has no backup of it: undo brings the saved value back exactly
  when the row still has it (`UndoRefusal.UndoAfterRefusal`). `UndoLoss.ValueLost` is a run
  from an empty table that loses a value.
- The two ABI encoders never differ on a struct with distinct field names
  (`AbiLaws.SameBytes`), and they do differ on every struct with a repeated name whose
  shadowed field can vary (`AbiNames.ShadowedFieldsDiffer`). Nothing rejects repeated names.
- Decoding and encoding again gives the same bytes if and only if every leaf of the value
  reads back to the same bytes (`AbiCheck.DecodeIsStable`). A `time_point` leaf does so exactly
  when it is a whole number of milliseconds (`AbiCheck.WholeMillisAreLeaves`);
  `AbiCheck.MicrosecondIsLost` has a text that does not.
- The base 58 map has an entry for the NUL that ends its literal (`Base58.NulIsTaken`), so
  text comes back if and only if it is over the 58 characters (`Base58.AcceptedComesBack`).
- Bytes after a key are not looked at, sizes need not be in the fewest bytes, and old private
  keys are read without looking at their checksum. `KeyStrings.TextComesBack` says exactly
  which texts of keys come back, and `KeyStrings.ChecksumUnseen` is about the old ones.
- The server tells a client of finality only while it sends blocks
  (packages/box/src/handlers/subchain.ts lines 79-99), so one that already has every block
  keeps the finality it has (`SyncSafety.UpdateSafe`).
- Adding a table to a database does not look at its revision (`Databases.Database.AddIndex`).
- Points in time before 1970 and after 2106 do not come back from their text, because reading
  keeps 32 bits of seconds (`TimeText.TimePointsComeBack`).
- The product of the day count and 86400 (chain_conversions.hpp lines 351-355) is an int
  product that fits up to 19 January 2038 (`TimeText.ProductFitsUntil2038`) and overflows
  after it, which C++ leaves open; the model takes the 32 bits that the sum is stored in.

## Model

| member | source | states |
|---|---|---|
| UndoModel.UndoRestores | libraries/clchain/include/chainbase/undo_index.hpp:735-791 | For every run inside a session — edits, nested sessions pushed, undone or squashed, commits of older sessions — the undo brings back the rows, the ids, the next id and the revision of the moment the session was started. |
| UndoModel.BracketKeepsSnapshot | libraries/clchain/include/chainbase/undo_index.hpp:648-662 | As long as a session is not popped or committed away, no call changes the copy it was started with. |
| UndoTable.RunAll | libraries/clchain/include/chainbase/undo_index.hpp:405-1087 | Every run of calls on the table, with or without compressing, does to the rows, ids, next id, revision and sessions what it does to full copies, and a check fails exactly when it fails there. |
| UndoTable.UndoIndex.Emplace | libraries/clchain/include/chainbase/undo_index.hpp:416-437 | The new row gets the next id; it is refused, with the table unchanged, exactly when one of its other keys is taken. |
| UndoTable.UndoIndex.Modify | libraries/clchain/include/chainbase/undo_index.hpp:443-479 | Succeeds exactly when no other row has one of the new keys; then only that row changes and a table whose sessions could be undone stays so. Refused, it gives a row it had just backed up its value back, but not its time, which breaks the invariant behind undoing; any other row it removes. |
| UndoTable.UndoIndex.PutBack | libraries/clchain/include/chainbase/undo_index.hpp:450-465 | Putting the backup back after a refusal never fails, wherever the refused indices had left the row. |
| UndoRefusal.UndoAfterRefusal | libraries/clchain/include/chainbase/undo_index.hpp:443-479 | Take the state after such a refusal, give the row a value in place, and let the first two loops of an undo do what they are proved to do: the row then has that value, which is the one saved at the session's start exactly when it is the one the row had. |
| UndoRefusal.RevertedIsNotValid | libraries/clchain/include/chainbase/undo_index.hpp:450-465 | No reading of the two lists makes that state meet the invariant behind undoing. |
| UndoLoss.ChangeAfterRefusal | libraries/clchain/include/chainbase/undo_index.hpp:443-479 | Run by the real methods: a refused modify of an unsaved row, then one that is not refused, then the loops of an undo; the row keeps the new value, and has its saved one exactly if that is the same. |
| UndoLoss.ClashInSession | libraries/clchain/include/chainbase/undo_index.hpp:443-479 | From an empty table: two rows, a session and a clash of keys end in a table that does not meet the invariant behind undoing. |
| UndoLoss.ValueLost | libraries/clchain/include/chainbase/undo_index.hpp:443-479 | The same run with one more modify: the first row, which had 1 when the session started, keeps 3. |
| UndoTable.UndoIndex.Remove | libraries/clchain/include/chainbase/undo_index.hpp:518-526 | Exactly that row goes; every session can still be undone. |
| UndoTable.UndoIndex.AddSession | libraries/clchain/include/chainbase/undo_index.hpp:856-865 | A new session saves the present table; the revision goes up by one, and no row has a backup in it yet. |
| UndoTable.UndoIndex.Undo | libraries/clchain/include/chainbase/undo_index.hpp:735-791 | The table becomes the newest saved copy, all older copies stay, the revision goes down by one; without a session nothing happens. |
| UndoTable.UndoIndex.Rewind | libraries/clchain/include/chainbase/undo_index.hpp:735-772 | The first two loops take the new rows out and put every backup of the session back, also in a table with a stale time. |
| UndoTable.UndoIndex.Squash | libraries/clchain/include/chainbase/undo_index.hpp:794-817 | The newest saved copy is forgotten and nothing else changes. |
| UndoTable.UndoIndex.SquashFast | libraries/clchain/include/chainbase/undo_index.hpp:796-808 | The form that does not compress means the same. |
| UndoTable.UndoIndex.Commit | libraries/clchain/include/chainbase/undo_index.hpp:648-662 | Exactly min(sessions, revision - min(rev, revision)) newest saved copies stay, and the present rows do not change, although one element too many is left on each list. |
| UndoTable.UndoIndex.CompressLastUndoSession | libraries/clchain/include/chainbase/undo_index.hpp:819-852 | Compressing changes no row, no saved copy and no session end, so no present or later undo can tell. |
| UndoTable.UndoIndex.CompressImpl | libraries/clchain/include/chainbase/undo_index.hpp:828-852 | The walk over both lists keeps every session up to the compressed one intact. What it leaves above the two ends is one backup per node, older than the session's start and of a live row, and removed nodes with ids the session had. |
| UndoTable.UndoIndex.SetRevision | libraries/clchain/include/chainbase/undo_index.hpp:626-638 | Accepted exactly without sessions, for a revision that fits and does not go down. |
| UndoTable.UndoIndex.Find | libraries/clchain/include/chainbase/undo_index.hpp:540-553 | Finds exactly the live row with an id. |
| UndoTable.UndoIndex.FindBy | libraries/clchain/include/chainbase/undo_index.hpp:233-236 | Finds exactly the live row with a key of a secondary index. |
| UndoRestore.RestoredRows | libraries/clchain/include/chainbase/undo_index.hpp:735-791 | After the three loops of an undo every live row has the value saved at session start, and every row saved then is live. |
| UndoRestore.AfterUndo | libraries/clchain/include/chainbase/undo_index.hpp:735-791 | All older sessions of the stack are unharmed by the undo of the newest. |
| UndoPhases.SavedKeysDistinct | libraries/clchain/include/chainbase/undo_index.hpp:748-772 | While backups are put back rows may share a key, but once all are back they come from one saved copy and have distinct keys. |
| UndoPhases.TransientEnds | libraries/clchain/include/chainbase/undo_index.hpp:748-772 | Then every index, which was kept sorted with equal keys allowed, is strictly sorted and holds exactly the live rows. |
| UndoPhases.ReinsertOne | libraries/clchain/include/chainbase/undo_index.hpp:774-788 | Putting a removed row back into the indices cannot fail. |
| UndoInvariant.AfterModifyInPlace | libraries/clchain/include/chainbase/undo_index.hpp:951-975 | A row changed again in the same session needs no second backup. |
| UndoInvariant.AfterBackup | libraries/clchain/include/chainbase/undo_index.hpp:951-975 | The first change of a row in a session pushes one backup, after which every session still finds its copy. |
| UndoInvariant.AfterShelve | libraries/clchain/include/chainbase/undo_index.hpp:1072-1087 | An older row that is removed is kept for the sessions that need it. |
| UndoInvariant.AfterDispose | libraries/clchain/include/chainbase/undo_index.hpp:1072-1087 | A row made in the newest session can be freed at once: no session needs it. |
| UndoSquash.BackupIsAllocated | libraries/clchain/include/chainbase/undo_index.hpp:748-772 | A backup older than the session's start, which is one that will be dereferenced, points at a node that is still allocated. |
| UndoCompress.FewerSessions | libraries/clchain/include/chainbase/undo_index.hpp:794-817 | Dropping the newest saved copies leaves the others valid. |
| TableIndices.InsertFromWorks | libraries/clchain/include/chainbase/undo_index.hpp:867-885 | Inserting into several indices succeeds exactly when no key is taken; otherwise every index is as before. |
| TableIndices.RepositionUniqueFromWorks | libraries/clchain/include/chainbase/undo_index.hpp:887-929 | Moving a changed row in several indices succeeds exactly when no other row has one of its new keys; refused, it leaves only that row out of place. |
| OrderedIndex.InsertUniqueSorted | libraries/clchain/include/chainbase/undo_index.hpp:867-885 | Inserting a unique key succeeds exactly when it is new and keeps the index strictly sorted. |
| OrderedIndex.RepositionEqualSorted | libraries/clchain/include/chainbase/undo_index.hpp:887-929 | Repositioning the one changed row sorts the index again, equal keys allowed. |
| OrderedIndex.RepositionUniqueSorted | libraries/clchain/include/chainbase/undo_index.hpp:887-929 | The unique form succeeds exactly when no other row has the key, and never changes the members. |
| Databases.DbUndoRestores | libraries/clchain/include/chainbase/chainbase.hpp:198-272 | An undone database session leaves every table as it was at its start, whatever was done to any table in between. |
| Databases.EachTableAlone | libraries/clchain/include/chainbase/chainbase.hpp:266-302 | Each table ends as after the calls it saw alone. |
| Databases.LockstepKept | libraries/clchain/include/chainbase/chainbase.hpp:252-302 | Tables at one revision with equally many sessions stay so in every run. |
| Databases.EachTable | libraries/clchain/include/chainbase/chainbase.hpp:266-302 | A loop over the tables does to each what the call means for it, and stops exactly when one refuses. |
| Databases.Database.OnEach | libraries/clchain/include/chainbase/chainbase.hpp:266-302 | Undo, squash, commit and set_revision of the database. |
| Databases.Database.AddIndex | libraries/clchain/include/chainbase/chainbase.hpp:304-322 | Refused exactly for a type that is in use; nothing checks the revision, so lockstep lasts exactly when the new table matches. |
| Databases.Database.StartUndoSession | libraries/clchain/include/chainbase/chainbase.hpp:234-250 | An enabled session saves every table; one that is not enabled saves and changes nothing. |
| Databases.Database.Revision | libraries/clchain/include/chainbase/chainbase.hpp:252-257 | In lockstep the revision of the database is that of every table; without tables it is -1. |
| Databases.Database.UndoAll | libraries/clchain/include/chainbase/chainbase.hpp:290-296 | Every table goes back to its oldest saved copy and to that revision, and no session is left. |
| Databases.Session.Undo | libraries/clchain/include/chainbase/chainbase.hpp:198-232 | Every pending table is undone once; a session already pushed, squashed or undone does nothing when it ends. |
| Databases.Session.Push | libraries/clchain/include/chainbase/chainbase.hpp:206-211 | Keeps the changes; ending the session later does nothing to any table. |
| Databases.Session.Squash | libraries/clchain/include/chainbase/chainbase.hpp:213-218 | Every pending table forgets its newest copy. |
| BlockLogs.LowerBoundIsSearch | libraries/clchain/include/clchain/subchain.hpp:88-98 | The constant-time lookup finds what a linear search finds. |
| BlockLogs.FindsByNum | libraries/clchain/include/clchain/subchain.hpp:114-120 | A number is found exactly when a block of the log has it. |
| BlockLogs.EosioLowerBoundIsSearch | libraries/clchain/include/clchain/subchain.hpp:122-144 | With increasing eosio numbers the binary search separates smaller from not smaller ones. |
| BlockLogs.AddedIsValid | libraries/clchain/include/clchain/subchain.hpp:146-163 | An accepted block is above the irreversible one and leaves the log contiguous and hash-linked. |
| BlockLogs.UndoneIsValid | libraries/clchain/include/clchain/subchain.hpp:165-175 | Undo takes off the block with the number and all after it, and only reversible ones. |
| BlockLogs.TrimmedIsValid | libraries/clchain/include/clchain/subchain.hpp:177-182 | Trimming keeps an end of the log that starts at the irreversible block. |
| BlockLogs.RaisedIsValid | contracts/starter/src/starter-micro-chain.cpp:367-368 | The irreversible number never goes down and its block is in the log. |
| BlockLogs.BlockLog.AddBlock | libraries/clchain/include/clchain/subchain.hpp:146-163 | The log changes exactly when the block is accepted, and then loses as many blocks as are reported. |
| BlockLogs.BlockLog.Undo | libraries/clchain/include/clchain/subchain.hpp:165-175 | The log loses exactly the reported number of blocks. |
| Greetings.DoHi | contracts/starter/src/starter-micro-chain.cpp:73-81 | The account's greeting is replaced by a row with a new id; replacing never fails. |
| Greetings.DoClearAll | contracts/starter/src/starter-micro-chain.cpp:181-195 | Every row goes and the next id stays; the iterator that is moved on before a removal is at the first row left after it. |
| Greetings.FilterBlock | contracts/starter/src/starter-micro-chain.cpp:255-283 | Running a block's actions on the table is the fold of its actions over the rows, or aborts exactly when that does. |
| Greetings.RunTransaction | contracts/starter/src/starter-micro-chain.cpp:255-283 | The actions of a transaction are carried out in order, and it aborts exactly when the fold of them does. |
| MicroChains.RunCalls | contracts/starter/src/starter-micro-chain.cpp:353-542 | After every run of calls that does not abort, the database — rows, ids and next id — is the replay of the surviving chain from block 1, and no block that was irreversible has been replaced. The rows are those the history of the chain's actions tells. |
| MicroChains.MicroChain.AddBlockWithId | contracts/starter/src/starter-micro-chain.cpp:361-377 | Accepted exactly when the log accepts it; then the chain is cut before its number and extended, and the database is the replay of the new chain, with one session per reversible block; set_revision never fails. |
| MicroChains.MicroChain.AddEosioBlock | contracts/starter/src/starter-micro-chain.cpp:391-406 | A block of the outer chain goes right after the last one with a smaller number. |
| MicroChains.MicroChain.RunBlock | contracts/starter/src/starter-micro-chain.cpp:367-376 | Commit, session and replay of one block keep chain and database together. |
| MicroChains.MicroChain.ForkedBlocks | contracts/starter/src/starter-micro-chain.cpp:353-359 | Undoing once per block goes back that many saved copies. |
| MicroChains.MicroChain.SetIrreversible | contracts/starter/src/starter-micro-chain.cpp:520-526 | Finality rises to the last block not above the number, never down; chain and data stay. |
| MicroChains.MicroChain.TrimBlocks | contracts/starter/src/starter-micro-chain.cpp:528-531 | The log loses blocks, the chain and the database nothing. |
| MicroChains.MicroChain.UndoBlockNum | contracts/starter/src/starter-micro-chain.cpp:533-536 | Takes the blocks from the number on off the chain and their changes out of the database. |
| MicroChains.MicroChain.UndoEosioNum | contracts/starter/src/starter-micro-chain.cpp:538-542 | The same for the number of an outer block, if it is in the log. |
| MicroChains.RollBack | contracts/starter/src/starter-micro-chain.cpp:353-359 | Taking n reversible blocks off and undoing n times keeps revision, undo depth and data in step. |
| MicroChains.RaiseAndCommit | contracts/starter/src/starter-micro-chain.cpp:520-526 | After finality rises the commit leaves exactly one session per reversible block. |
| Storages.Storage.PushBlock | packages/box/src/subchain-storage.ts:95-107 | The untrimmed and the trimmed instance give the same answer, the one the log check of either gives, and hold the same chain, finality and database; finality rises as the pushed number says. |
| Storages.Storage.UndoEosioNum | packages/box/src/subchain-storage.ts:87-93 | So they do after an undo. |
| Storages.SameAnswer | libraries/clchain/include/clchain/subchain.hpp:146-163 | A log without its oldest irreversible blocks accepts the same outer blocks and makes the same inner block of them. |
| Storages.SameRaise | contracts/starter/src/starter-micro-chain.cpp:367-368 | Finality rises to the same number in both. |
| Storages.SameUndo | libraries/clchain/include/clchain/subchain.hpp:165-175 | The same blocks are taken off both. |
| Storages.MadeKeepsSorted | contracts/starter/src/starter-micro-chain.cpp:391-406 | Blocks made by the eosio entry points have strictly increasing eosio numbers. |
| SyncSafety.SyncIsSafe | packages/box/src/handlers/subchain.ts:60-110 | In every reachable state each block in flight will be accepted, the log the messages leave agrees with a live mirror, what the client takes for irreversible is so on the server, and the next update does not throw. |
| SyncSafety.StepKeeps | packages/box/src/handlers/subchain.ts:60-110 | Every step of server, client and channel keeps the invariant behind that. |
| SyncSafety.UpdateSafe | packages/box/src/handlers/subchain.ts:60-110 | An update never throws, sends no block that is rejected, leaves a mirror that agrees, asks for a status at most once and last, and with the status still live the mirror has the server's ids up to its head. If it sends a block, the client's finality ends as the server's, or at the last block it holds if that is lower; if it sends none, finality stays. |
| SyncSafety.UpdateProgress | packages/box/src/handlers/subchain.ts:69-99 | An update never leaves the client further behind, and one that runs out of blocks to send brings it closer. |
| SyncSafety.ClientCatchesUp | packages/box/src/handlers/subchain.ts:100-108 | Once everything sent by such an update has arrived the client has the server's head and the server's block at every number it holds. |
| SyncSafety.EqualAncestry | contracts/starter/src/starter-micro-chain.cpp:379-389 | Equal ids mean equal blocks all the way down. |
| SyncSafety.StatusMirrors | packages/subchain-client/src/SubchainClient.ts:69-86 | A status is a mirror of the client's log from the irreversible block on. |
| SyncServer.ConnectionState.Update | packages/box/src/handlers/subchain.ts:60-116 | The two loops do what the update means for the messages and the mirror; the connection closes exactly when a lookup throws. |
| SyncServer.ConnectionState.PopBlocks | packages/box/src/handlers/subchain.ts:69-78 | The first loop takes off exactly the blocks at the end of the mirror that are not the server's. |
| SyncServer.ConnectionState.SendMissing | packages/box/src/handlers/subchain.ts:79-99 | The second loop sends the blocks after the mirror's head with finality as it goes. |
| SyncClient.SubchainClient.SendStatus | packages/subchain-client/src/SubchainClient.ts:69-86 | Sends the irreversible number and the blocks from there on, and asks for 1000 blocks, or for one in slow motion. |
| SyncClient.SubchainClient.ProcessQueue | packages/subchain-client/src/SubchainClient.ts:91-120 | Draining the queue delivers its messages to the log in order and answers each request for a status with that of the moment. |
| SyncNetwork.SettleDown | packages/box/src/handlers/subchain.ts:60-110 | Left alone, with any number of status rounds, the two sides stop talking, and then the client has the server's chain and rows, ids included; if a block was sent on the way it has the server's finality too. |
| SyncNetwork.CaughtUp | libraries/clchain/include/clchain/subchain.hpp:177-182 | The client's whole chain is then the server's, although its log has been trimmed. |
| SyncNetwork.Network.ServerUpdates | packages/box/src/handlers/subchain.ts:60-110 | An update of the real objects is a step of the protocol. |
| SyncNetwork.Network.ClientReceives | packages/subchain-client/src/SubchainClient.ts:91-120 | So is the arrival of a message. |
| SyncNetwork.Network.ServerPushes | packages/box/src/subchain-storage.ts:95-124 | A push cuts the server's chain before the block's place and puts the block there, or changes nothing, and is a step of the protocol. |
| SyncNetwork.Network.ServerUndoes | packages/box/src/subchain-storage.ts:87-93 | An undo cuts the server's chain before the block found, and is a step of the protocol. |
| SyncNetwork.PushChanges | packages/box/src/subchain-storage.ts:95-124 | A pushed block changes the server's log the way the protocol allows. |
| SyncNetwork.UndoChanges | packages/box/src/subchain-storage.ts:87-93 | So does an undo. |
| ByteStrings.WriteVarUInt32 | libraries/abieos/include/eosio/to_bin.hpp:36-47 | The loop writes seven bits a byte and refuses exactly what does not fit in 32 bits. |
| ByteStrings.ReadVarUInt32 | libraries/abieos/include/eosio/from_bin.hpp:21-35 | The loop reads the number there is, or fails exactly when there is none. |
| ByteStrings.ReadBack | libraries/abieos/include/eosio/from_bin.hpp:21-35 | What was written reads back, whatever follows it. |
| ByteStrings.ShortestIsWritten | libraries/abieos/include/eosio/to_bin.hpp:36-47 | A number in the fewest bytes is what writing some number gives. |
| ByteStrings.LittleReadsBack | libraries/abieos/include/eosio/to_bin.hpp:205-216 | Fixed-width numbers read back. |
| AbiLaws.SameBytes | libraries/abieos/src/abieos.hpp:703-1069 | Whenever the value-tree and the token encoder take a value they give the same bytes; and each takes what the other takes when extensions come last and sizes fit, or the members are in order. |
| AbiLaws.EncodersAgree | libraries/abieos/src/abieos.hpp:703-1069 | The same for every part of a value, by recursion over all types. |
| AbiLaws.RepeatedNamesDiffer | libraries/abieos/src/abi.cpp:113-143 | With a repeated field name, which resolving a struct does not exclude, both accept a value and give different bytes. |
| AbiNames.ShadowedFieldsDiffer | libraries/abieos/src/abieos.hpp:742-789 | For every struct with a repeated name and every value both encoders take: give the member that is shadowed another value with other bytes, and both still take it, the value-tree encoder's bytes stay, the token encoder's change, so on one of the two they differ. |
| AbiNames.SameIffDistinct | libraries/abieos/src/abi.cpp:113-143 | Where the other structs have distinct names and a shadowed field of this one can vary, the encoders never differ on it if and only if its names are distinct. |
| AbiLaws.PartsInOrder | libraries/abieos/src/abieos.hpp:920-926 | Recorded array sizes are in the order of their positions. |
| AbiTree.JsonToBin | libraries/abieos/src/abieos.hpp:703-714 | The stack machine over value trees accepts what the structural recursion accepts, with the same bytes. |
| AbiTree.JvalueToBin.ContinueObject | libraries/abieos/src/abieos.hpp:742-789 | One step of an object takes the next field, or ends it. |
| AbiTokens.JsonToBin | libraries/abieos/src/abieos.hpp:893-927 | The stack machine over tokens accepts exactly what the recursion accepts and needs at most 128 entries, an exact number of the value's tokens, and splicing the recorded sizes gives the recursion's bytes. |
| AbiTokens.Assemble | libraries/abieos/src/abieos.hpp:918-926 | Copying the stretches between the sizes puts every size where its array starts. |
| AbiTokens.JsonToBinState.ContinueObject | libraries/abieos/src/abieos.hpp:929-986 | One step of an object takes the next key, or ends it with only extensions missing. |
| AbiTokens.JsonToBinState.ContinueArray | libraries/abieos/src/abieos.hpp:988-1019 | One step of an array counts and encodes an element, or records the size. |
| AbiDecode.RoundTrip | libraries/abieos/src/abieos.hpp:1076-1241 | Decoding what was encoded, followed by anything unless an extension was left out, gives a value in order and leaves what followed; its encoding has as many bytes, the same ones if and only if every leaf reads back to the same. |
| AbiReader.BinToTokens | libraries/abieos/src/abieos.hpp:1076-1241 | The stack machine reads what the recursion reads and writes the tokens of the value. |
| AbiCheck.DecodeIsStable | libraries/abieos/src/abieos.hpp:1076-1241 | Decoding an encoder's output takes every byte, and encoding the result gives as many: the same bytes if and only if every leaf of the value reads back to the same. |
| AbiCheck.RoundOf | libraries/abieos/src/test.cpp:279-299 | The round of encoding both ways, comparing, decoding and encoding again: the encoders never differ, the last encoding differs exactly when some leaf does not read back to the same bytes, and the token encoder gives up only on a value that needs too deep a stack. |
| AbiCheck.StringsAreLeaves | libraries/abieos/include/eosio/to_bin.hpp:70-75 | A string leaf always reads back. |
| AbiCheck.WholeMillisAreLeaves | libraries/abieos/include/eosio/time.hpp:102-149 | A time point leaf reads back exactly when it is a whole number of milliseconds. |
| AbiCheck.TimePointsRead | libraries/abieos/include/eosio/time.hpp:102-149 | Every time point leaf reads back to eight bytes, those of its whole milliseconds. |
| AbiCheck.StringsAndTimePoints | libraries/abieos/include/eosio/to_bin.hpp:70-75 | With strings and time points for leaves, those of every value read back, to as many bytes. |
| AbiCheck.MicrosecondIsLost | libraries/abieos/include/eosio/time.hpp:102-149 | "1970-01-01T00:00:00.000001" is encoded as one and then zeros, and decoded and encoded again as zeros. |
| KeyEncoding.KeyOrder | libraries/abieos/include/eosio/to_key.hpp:19-354 | For every type of integers, floats, strings, vectors, optionals, tuples and variants: one key is below another bytewise exactly when its value is below, equal exactly when the values are equivalent, and none is a proper prefix of another. |
| KeyEncoding.KeysAgree | libraries/abieos/include/eosio/to_key.hpp:45-209 | Keys compare the way the values do and differ before either ends. |
| KeyWriter.ToKey | libraries/abieos/include/eosio/to_key.hpp:19-354 | The writers append exactly that key to the stream. |
| KeyWriter.VarStep | libraries/abieos/include/eosio/to_key.hpp:178-209 | Each byte of a variable-length number comes from the number as the order-preserving layout says. |
| KeyWriter.ToKeyVarUInt32 | libraries/abieos/include/eosio/to_key.hpp:178-209 | The switch over widths writes the order-preserving form. |
| Pagination.MakeConnection | libraries/clchain/include/clchain/graphql_connection.hpp:65-160 | One call returns the slice of the filtered range that the arguments ask for; there is a page before, or after, exactly when the range has keys there, and the cursors are those of the first and the last edge. |
| Pagination.WalkForward | libraries/clchain/include/clchain/graphql_connection.hpp:65-160 | Following endCursor with first:n until there is no next page visits every key of the range once, in order, and ends. |
| Pagination.WalkBackward | libraries/clchain/include/clchain/graphql_connection.hpp:65-160 | So does following startCursor with last:n. |
| Pagination.RangePositions | libraries/clchain/include/clchain/graphql_connection.hpp:105-118 | The range starts at the higher of the lower bounds and ends at the lower of the upper ones, clamped to each other. |
| Pagination.FilterIsSlice | libraries/clchain/include/clchain/graphql_connection.hpp:105-118 | The keys within bounds are a stretch of the sorted keys. |
| Cursors.CursorReadsBack | libraries/clchain/include/clchain/graphql_connection.hpp:94-103 | A cursor that was handed out reads back as its key. |
| BlockQuery.LookupsAreBounds | libraries/clchain/include/clchain/subchain.hpp:88-112 | The lookups the block list is paged with are the bounds paging needs. |
| BlockQuery.StatusQuery | packages/subchain-client/src/SubchainClient.ts:69-81 | The query of a client's status returns all blocks from the irreversible one on. |
| Base58.Base58ToBinary | libraries/abieos/src/crypto.cpp:39-63 | The carry loops compute the positional value; accepted exactly when every character has a digit. |
| Base58.BinaryToBase58 | libraries/abieos/src/crypto.cpp:65-92 | The carry loops compute the base 58 digits. |
| Base58.BytesComeBack | libraries/abieos/src/crypto.cpp:39-92 | Decoding encoded bytes gives them back, leading zeros included. |
| Base58.TextComesBack | libraries/abieos/src/crypto.cpp:39-92 | Encoding decoded text gives it back, for every text over the alphabet. |
| Base58.AcceptedComesBack | libraries/abieos/src/crypto.cpp:27-92 | An accepted text comes back if and only if it has only characters of the alphabet. |
| Base58.NulIsTaken | libraries/abieos/src/crypto.cpp:27-35 | The map also takes the NUL at the end of the alphabet literal, and decodes it like "21". |
| Base58.NulComesBackOtherwise | libraries/abieos/src/crypto.cpp:27-92 | The text of a single NUL is accepted and comes back as "21". |
| Decimal.DecimalToBinary | libraries/abieos/include/eosio/abieos_numeric.hpp:64-82 | Accepts exactly digits whose value fits, and computes it. |
| Decimal.BinaryToDecimal | libraries/abieos/include/eosio/abieos_numeric.hpp:84-105 | Prints the value without leading zeros. |
| Decimal.PrintAndRead | libraries/abieos/include/eosio/abieos_numeric.hpp:64-105 | Printing and reading leaves every number unchanged. |
| Decimal.PrintedReadsBack | libraries/abieos/include/eosio/abieos_numeric.hpp:64-105 | A printed number is digits of a value that fits. |
| Decimal.Negate | libraries/abieos/include/eosio/abieos_numeric.hpp:52-62 | Two's complement negation of a number of any width. |
| KeyStrings.KeyComesBack | libraries/abieos/src/crypto.cpp:132-242 | Every public key, private key and signature of every type comes back from its text, for every hash; it has a text unless a size in it needs more than 32 bits. |
| KeyStrings.StringToKey | libraries/abieos/src/crypto.cpp:106-119 | Accepts exactly text whose checksum is that of its data and suffix, and whose data holds a key of the type. |
| KeyStrings.KeyToString | libraries/abieos/src/crypto.cpp:121-151 | The text is the prefix of kind and type, then the base 58 of the packed key and its checksum; KeyStrings.TextStarts says what these are. |
| KeyStrings.KeyFromString | libraries/abieos/src/crypto.cpp:153-242 | The prefix chooses the type, and whether there is a checksum. |
| KeyStrings.TextComesBack | libraries/abieos/src/crypto.cpp:106-242 | A text that reads comes back from its key if and only if it has the new prefix, no NUL in its base 58, and data that holds nothing but the key with sizes in the fewest bytes. |
| KeyStrings.ChecksumUnseen | libraries/abieos/src/crypto.cpp:203-211 | An old private key reads whatever its version byte and its four checksum bytes are, and whatever follows its 32 bytes. |
| KeyStrings.OldPublicKeyReads | libraries/abieos/src/crypto.cpp:153-159 | The old text of a public key reads as the K1 key of its data. |
| KeyTypes.DataComesBack | libraries/abieos/include/eosio/from_bin.hpp:363-376 | Writing what was read gives the data back if and only if nothing follows and every size is in the fewest bytes. |
| KeyTypes.PartsRead | libraries/abieos/include/eosio/from_bin.hpp:248-316 | The parts of a key read back, whatever follows them. |
| Radix.MulAddIs | libraries/abieos/src/crypto.cpp:46-58 | The digit loop computes the number times a factor plus a carry, for any base. |
| Radix.ConvertedBack | libraries/abieos/src/crypto.cpp:39-92 | Changing the base and back gives the digits back, zeros in front included. |
| Ripemd160.HashChunks | libraries/abieos/include/eosio/abieos_ripemd160.hpp:350-446 | Fed in any chunks, the digest is the fold of the compression over the message padded once. |
| Ripemd160.SameBytesSameState | libraries/abieos/include/eosio/abieos_ripemd160.hpp:350-395 | The whole state depends only on the bytes fed, not on the chunks. |
| Ripemd160.State.Update | libraries/abieos/include/eosio/abieos_ripemd160.hpp:350-395 | Filling and mixing in keeps what has been fed, and the buffer zero past its end. |
| Ripemd160.State.DigestOf | libraries/abieos/include/eosio/abieos_ripemd160.hpp:402-446 | The digest of what was fed; the state does not change. |
| Ripemd160.PaddedBlocks | libraries/abieos/include/eosio/abieos_ripemd160.hpp:402-446 | Finishing in one block or two is the padding of sections 3.1 and 3.2 of RFC 1320. |
| Ripemd160.PaddedIsWhole | libraries/abieos/include/eosio/abieos_ripemd160.hpp:402-446 | Padding fills the last block. |
| LineProgram.WriteLineProgram | libraries/debug_eos_vm/dwarf.cpp:631-705 | Run by the machine of section 6.2 of DWARF version 4, the bytes make one row per mapped location, in order, and end a sequence exactly where the next location starts lower, and at the end; with machine code in the order of the wasm code addresses never go down inside a sequence. |
| LineProgram.OneRowEach | libraries/debug_eos_vm/dwarf.cpp:631-705 | Apart from the ends of sequences there is one row per mapped location, in order, with its address, file and line. |
| LineProgram.RowsClimb | libraries/debug_eos_vm/dwarf.cpp:631-705 | When no location ends before it starts, addresses never go down inside a sequence. |
| LineProgram.RangesAscend | libraries/debug_eos_vm/dwarf.cpp:608-629 | With machine code in the order of the wasm code no location ends before it starts. |
| LineProgram.MappedAscend | libraries/debug_eos_vm/dwarf.cpp:608-629 | So it is for every mapped location of the program. |
| LineProgram.MappedAre | libraries/debug_eos_vm/dwarf.cpp:646-660 | The locations written are those that have a range, in order, each with its range, its line, and its file counted from 1. |
| LineProgram.RangeCovers | libraries/debug_eos_vm/dwarf.cpp:608-629 | A location's range runs from its first instruction to the first one after it; it has one exactly when there are both. |
| LineProgram.RunIsExec | libraries/debug_eos_vm/dwarf.cpp:631-705 | Decoding and running the bytes is executing the instructions that were written. |
| LineProgram.WriteSignedLeb | libraries/abieos/include/eosio/to_bin.hpp:50-62 | The loop writes the signed number of section 7.6. |
| LineProgram.SignedLebReads | libraries/abieos/include/eosio/to_bin.hpp:50-62 | It reads back, whatever follows it. |
| Grisu.GenerateDigits | libraries/abieos/include/eosio/fpconv.c:144-208 | Both loops end, every product fits in 64 bits, the digits' value lies between the bounds and is as close to the number as any of that many places, with a place less there is none, and the last digit is zero exactly when LastIsZero holds. |
| Grisu.RoundDigit | libraries/abieos/include/eosio/fpconv.c:129-142 | Lowering the last digit comes as close to the number as units allow without passing the lower bound or zero. |
| Grisu.IntegerDigits | libraries/abieos/include/eosio/fpconv.c:156-180 | The first loop stops at the most units of ten that fit between the bounds, and rounds to a digit from 1 to 9. |
| Grisu.FractionDigits | libraries/abieos/include/eosio/fpconv.c:182-208 | The second loop stops at the fewest places with a number between the bounds. |
| Grisu.ZeroOnce | libraries/abieos/include/eosio/fpconv.c:182-208 | The places at which the last digit can become zero are the ones the loop stops at. |
| Grisu.LastDigitCanBeZero | libraries/abieos/include/eosio/fpconv.c:129-142 | The condition is met by bounds of a double's shape: one = 2^60, lower = 2^63 + 2^46, w = lower + 576, upper = lower + 1153. |
| Calendar.DaysComeBack | libraries/abieos/include/eosio/chain_conversions.hpp:62-87 | Every day number an int can hold, with room for the offset, comes back from its date, which is one of the calendar. |
| Calendar.DatesComeBack | libraries/abieos/include/eosio/chain_conversions.hpp:62-87 | Every date of the Gregorian calendar comes back from its day number. |
| Calendar.DaysCountUp | libraries/abieos/include/eosio/chain_conversions.hpp:76-87 | Day numbers count the days of the Gregorian calendar from the first of January 1970. |
| TimeText.MicrosecondsToStr | libraries/abieos/include/eosio/chain_conversions.hpp:273-309 | For every 64-bit count, read as signed, the text has four, two, two, two, two, two and three digits of the date and the time. |
| TimeText.StringToUtcSeconds | libraries/abieos/include/eosio/chain_conversions.hpp:311-363 | Accepts exactly texts of the shape, with the end asked for, and gives their second in 32 bits. |
| TimeText.StringToUtcMicroseconds | libraries/abieos/include/eosio/chain_conversions.hpp:370-391 | Takes up to six digits of a fraction at their worth. |
| TimeText.TimePointFromString | libraries/abieos/include/eosio/time.hpp:102-114 | Takes a text that ends there or with a Z. |
| TimeText.TimePointsComeBack | libraries/abieos/include/eosio/time.hpp:102-149 | For every signed 64-bit count: the printed time point comes back to the millisecond if and only if its seconds are not negative and fit in 32 bits. |
| TimeText.SecondCountsComeBack | libraries/abieos/include/eosio/time.hpp:243-258 | Every 32-bit second count comes back from its text. |
| TimeText.SlotsComeBack | libraries/abieos/include/eosio/time.hpp:295-316 | Every 32-bit block slot comes back from its time point and from the text of it. |
| TimeText.SlotBegun | libraries/abieos/include/eosio/time.hpp:309-316 | A time point goes to the last slot that has begun. |
| TimeText.ProductFitsUntil2038 | libraries/abieos/include/eosio/chain_conversions.hpp:351-355 | The int product of the days and 86400 fits exactly up to the 19th of January 2038. |
| UndoLaws.SquashErases | libraries/clchain/include/chainbase/undo_index.hpp:794-817 | A session that ends squashed might as well not have been started: whatever happens in it, the same calls without it leave the same rows, ids, revision and sessions. |
| UndoLaws.CommitBounds | libraries/clchain/include/chainbase/undo_index.hpp:648-662 | A commit changes no row, and undoing what is left goes back to the copy saved at the revision committed, or to the oldest one if that is later. |
| UndoLaws.RevisionSet | libraries/clchain/include/chainbase/undo_index.hpp:626-638 | A revision is set exactly without sessions, to one that fits in 63 bits and is not lower. |
| UndoLaws.EditsRead | libraries/clchain/include/chainbase/undo_index.hpp:416-526 | What looking a row up finds after an edit: the edited row is the new one, every other row and every session is as before. |
| UndoLaws.UndosRun | libraries/clchain/include/chainbase/undo_index.hpp:735-791 | n undos lead to the n-th newest copy. |
| Databases.AllUndoneIs | libraries/clchain/include/chainbase/chainbase.hpp:290-296 | Undoing all is one undo per session. |
| GreetingHistory.ReplayTells | contracts/starter/src/starter-micro-chain.cpp:181-283 | A chain aborts exactly when an action in it is unreadable. Otherwise an account has a row exactly when it said hi after everything was last cleared, with the message of its last hi and as its id the number of hi actions before that. |
| GreetingHistory.NamesAre | libraries/abieos/include/eosio/chain_conversions.hpp:102-120 | The dispatch compares with the numbers of the names hi, clearall, eosio.null and chain.events. |
| MicroChains.MadeBlock | contracts/starter/src/starter-micro-chain.cpp:391-406 | A made block holds the outer block, names the last one with a smaller number and counts one up from it; without one it is block 1. |
| BlockLogs.AcceptedExactly | libraries/clchain/include/clchain/subchain.hpp:146-163 | A new block is accepted exactly when it is above finality and the log cut before its number and ended by it is contiguous and linked. |
| BlockLogs.UndoneExactly | libraries/clchain/include/clchain/subchain.hpp:165-175 | Undo takes blocks off exactly for the number of a reversible block in the log. |
| BlockLogs.RaisedByNum | contracts/starter/src/starter-micro-chain.cpp:520-526 | Finality told by number rises to that number or to the head, whichever is lower, and never falls; the largest 32-bit number does nothing. |
| BlockLogs.RaisedByEosioNum | contracts/starter/src/starter-micro-chain.cpp:361-377 | Finality told by eosio number rises to the last block that is not above it. |
| BlockLogs.FindsByEosioNum | libraries/clchain/include/clchain/subchain.hpp:139-144 | An eosio number is found exactly when a block of the log has it. |
| SyncSafety.UpdateTells | packages/box/src/handlers/subchain.ts:60-110 | Finality is told only when it has risen, and the head exactly when the client's last block is not the server's and no block is sent. |
| SyncProtocol.TrimsTo | packages/subchain-client/src/SubchainClient.ts:91-120 | Told of finality a client has it for as many blocks as it holds, never less than before, and keeps nothing below it. |
| SyncProtocol.CutsTo | packages/subchain-client/src/SubchainClient.ts:91-120 | Told of a head it goes back to that number, but not below finality. |
| SyncProtocol.TakesBlock | packages/subchain-client/src/SubchainClient.ts:91-120 | A block that links up ends the client's log, whatever was there from its number on goes, and finality stays. |
| ByteStrings.VarUIntMeans | libraries/abieos/include/eosio/to_bin.hpp:36-47 | A written number is its bits in sevens, the high bit on all bytes but the last, none of them superfluous. |
| ByteStrings.NumberRead | libraries/abieos/include/eosio/from_bin.hpp:21-35 | A number reads exactly when one of the first five bytes has no high bit, and is the sevens up to there in 32 bits. |
| ByteStrings.UnsignedExamples | libraries/abieos/include/eosio/to_bin.hpp:36-47 | The examples of unsigned numbers in section 7.6 of DWARF version 4. |
| ByteStrings.LittleMeans | libraries/abieos/include/eosio/to_bin.hpp:205-216 | Byte i of a fixed-width number counts the i-th power of 256. |
| AbiFormat.WrappedFormat | libraries/abieos/src/abieos.hpp:703-740 | A builtin is its leaf, an optional is 0, or 1 and the value, an extension is its value. |
| AbiFormat.VariantFormat | libraries/abieos/src/abieos.hpp:826-868 | A variant is the number of the first alternative of the name, then the value. |
| AbiFormat.NoVariant | libraries/abieos/src/abieos.hpp:826-868 | Nothing but a pair of a known name and a value is taken for a variant. |
| AbiFormat.ArrayFormat | libraries/abieos/src/abieos.hpp:791-824 | An array is the number of its items and the items one after another, and is taken exactly when each item is. |
| AbiFormat.StructFormat | libraries/abieos/src/abieos.hpp:742-789 | A struct is its fields one after another, looked up by name, and is taken exactly when all are there, but for extensions at the end where these may be missing. |
| AbiFormat.OptionalDecodes | libraries/abieos/src/abieos.hpp:1101-1113 | Any first byte but zero stands for a value of an optional. |
| AbiFormat.TokenExample | libraries/abieos/src/abieos.hpp:893-927 | The tokens of a value by example. |
| UndoLaws.EditsRefused | libraries/clchain/include/chainbase/undo_index.hpp:416-479 | A new row is refused exactly when a row has one of the other keys it would have; a change exactly when the row is not there or another row has one. |
| UndoLaws.NoSession | libraries/clchain/include/chainbase/undo_index.hpp:735-817 | Without a session there is nothing to undo or to squash. |
| AbiFormat.VariantDecodes | libraries/abieos/src/abieos.hpp:1206-1241 | The number of an alternative reads as its name, then comes its value; a number past the last is refused. |
| AbiFormat.ArrayDecodes | libraries/abieos/src/abieos.hpp:1169-1204 | A number of items reads as the first item and then that of one item less. |
| AbiFormat.StructDecodes | libraries/abieos/src/abieos.hpp:1124-1167 | A struct reads as its first field under its name and then the other fields; at the end of the data an extension may be missing, where that is allowed. |
| AbiFormat.NoRoom | libraries/abieos/src/abieos.hpp:1076-1241 | Each object, array and variant takes a place on the stack, and is refused when there is none. |
| AbiFormat.MembersInOrder | libraries/abieos/src/abieos.hpp:929-986 | The token encoder takes the members of a struct only in the order of its fields, with only an extension missing after the last. |
| AbiCheck.TooFewBytes | libraries/abieos/include/eosio/from_bin.hpp:248-316 | A string or a time point with too few bytes is refused. |
| AbiCheck.StringExample | libraries/abieos/include/eosio/to_bin.hpp:70-75 | A string is its length and its characters, by example. |
| KeyEncoding.OrderOf | libraries/abieos/include/eosio/to_key.hpp:19-354 | What below and equivalent mean for each type of one value. |
| KeyEncoding.FirstDifference | libraries/abieos/include/eosio/to_key.hpp:108-136 | The first place where two ranges differ decides, and a range that ends there is lower. |
| KeyEncoding.FirstField | libraries/abieos/include/eosio/to_key.hpp:45-60 | The first field where two tuples differ decides. |
| KeyEncoding.FloatExamples | libraries/abieos/include/eosio/to_key.hpp:308-345 | The order and the keys of some floats of four bytes, both zeros among them. |
| KeyEncoding.BigEndianMeans | libraries/abieos/include/eosio/to_key.hpp:19-354 | Bytes of fixed width in a key have the high ones first. |
| KeyEncoding.KeyExamples | libraries/abieos/include/eosio/to_key.hpp:19-354 | Some keys of integers, booleans and strings in full. |
| KeyEncoding.NumberExamples | libraries/abieos/include/eosio/to_key.hpp:178-209 | The least variable-length number of each length in full. |
| KeyEncoding.MarkedKeys | libraries/abieos/include/eosio/to_key.hpp:71-136 | The keys of optionals and ranges from the key of what they hold: booleans, one-byte integers and all others are marked in three different ways. |
| Pagination.RangeMeans | libraries/clchain/include/clchain/graphql_connection.hpp:105-135 | A key is in range exactly if it is beyond the low bounds and below the high ones, gt and lt without the bound; and between the cursors exactly if it is after one and before the other. Both lists are increasing. |
| Pagination.EdgesMean | libraries/clchain/include/clchain/graphql_connection.hpp:120-160 | Of the keys between the cursors the first ones that are asked for are kept, and of these the last ones. |
| Cursors.CursorChars | libraries/clchain/include/clchain/graphql_connection.hpp:94-103 | A cursor is the bytes of the key from the lowest, each as two capital hex digits. |
| Cursors.CursorExample | libraries/clchain/include/clchain/graphql_connection.hpp:94-103 | One in full; small letters are read too, and bytes past the key are not looked at. |
| Cursors.CursorTakes | libraries/clchain/include/clchain/graphql_connection.hpp:94-103 | A cursor that is not pairs of hex digits is ignored, and one with fewer bytes than a key aborts. |
| Base58.Alphabet | libraries/abieos/src/crypto.cpp:25-35 | The alphabet is the digits and letters in the order of their codes without 0, O, I and l. |
| Decimal.TextMeans | libraries/abieos/include/eosio/abieos_numeric.hpp:84-105 | The last character is the last decimal digit, in front of it is the text of the rest. |
| Decimal.ValueOfText | libraries/abieos/include/eosio/abieos_numeric.hpp:64-82 | What is a digit, and the value of a text by example, zeros in front allowed. |
| Radix.ValueMeans | libraries/abieos/src/crypto.cpp:39-63 | Each digit counts as often as the base to the number of digits after it. |
| KeyStrings.TextStarts | libraries/abieos/src/crypto.cpp:121-242 | A key's text starts with one of PUB_K1_, PUB_R1_, PUB_WA_, PVT_K1_, PVT_R1_, SIG_K1_, SIG_R1_ and SIG_WA_, as its kind and type say, and its base 58 holds the packed key and four bytes of the hash of it and the two characters of the type. |
| KeyStrings.OtherStarts | libraries/abieos/src/crypto.cpp:153-242 | No other start reads as a key, but for EOS of public keys and the old private keys. |
| KeyTypes.KeyBytes | libraries/abieos/include/eosio/crypto.hpp:27-120 | The lengths of the parts of every key and the order in which they are packed. |
| Ripemd160.PaddingMeans | libraries/abieos/include/eosio/abieos_ripemd160.hpp:402-446 | After the message come the byte 128, zeros, and the length in bits with the low byte first, in the fewest blocks. |
| Ripemd160.BlocksMean | libraries/abieos/include/eosio/abieos_ripemd160.hpp:350-395 | Whole blocks are mixed in one after the other, the first one first. |
| LineProgram.StartsAtLineOne | libraries/debug_eos_vm/dwarf.cpp:631-705 | The machine starts, and starts again after each sequence, at address 0, file 1 and line 1 (section 6.2.2 of DWARF version 4). |
| LineProgram.StandardOpcodes | libraries/debug_eos_vm/dwarf.cpp:631-705 | What the bytes of the opcodes mean (sections 6.2.5.2 and 6.2.5.3). |
| LineProgram.SignedExamples | libraries/abieos/include/eosio/to_bin.hpp:50-62 | The examples of signed numbers in section 7.6. |
| Calendar.KnownDays | libraries/abieos/include/eosio/chain_conversions.hpp:76-87 | The day numbers of three dates. |
| Calendar.LeapDays | libraries/abieos/include/eosio/chain_conversions.hpp:76-87 | 1900 and 2100 have no 29th of February, 2000 has. |
| Calendar.MonthLengths | libraries/abieos/include/eosio/chain_conversions.hpp:62-87 | How many days each month of the calendar has. |
| TimeText.SlotsStart | libraries/abieos/include/eosio/time.hpp:295-316 | Slot 0 is 2000-01-01T00:00:00.000, and each slot is half a second. |
| TimeText.DigitsAre | libraries/abieos/include/eosio/chain_conversions.hpp:273-309 | A text of 23 characters whose digits are those of the date, the hour, the minute, the second and the thousandth of a point in time is its text. |
| TimeText.LastOfFebruary | libraries/abieos/include/eosio/chain_conversions.hpp:273-309 | A text in full, each field with another value. |
| TimeText.ShapedExactly | libraries/abieos/include/eosio/chain_conversions.hpp:311-347 | Which 19 characters are digits and which are marks, each way round. |
| TimeText.SecondsMean | libraries/abieos/include/eosio/chain_conversions.hpp:349-356 | What the digits of the six fields count for. |
| TimeText.SecondCountAccepts | libraries/abieos/include/eosio/time.hpp:243-258 | A second count may have a point and any number of digits. |
| TimeText.TimePointAccepts | libraries/abieos/include/eosio/time.hpp:102-114 | A time point may have a point and up to six digits, and a Z at the end. |
| TimeText.MicrosMean | libraries/abieos/include/eosio/chain_conversions.hpp:370-391 | The digits after the point are worth what their place says. |

## Left out

- Going on after a failed check, other than that of `modify`; a modifier that throws or leaves the id changed.
- `uint64_t` wrap-around of ids, times and revisions, and 32-bit wrap-around of block numbers in a chain of four billion blocks: the synchronisation takes the server's log to be shorter than 2^32 - 2 blocks.
- Tree balancing, offset pointers, intrusive hooks and the allocator; an index is a sorted sequence of node addresses, lookups in it are linear or binary searches for the same position.
- `removed_nodes_tracker`, `undo_stack_revision_range` and the iterators of `last_undo_session` (its compression is `UndoTable.UndoIndex.CompressLastUndoSession`).
- Databases.Database: tables of one database share the type of their rows here; the index map is the list of type ids.
- Decoders of actions and events are parameters of `Greetings.Config`; each may abort, as the real ones do.
- Hashes of blocks are an injective function where the synchronisation needs it, any function elsewhere; blocks the server makes have eosio numbers from 1 on, as in the chain it follows.
- `addBlock` does not check the id it is given; the synchronisation covers blocks that came from the server.
- `pushJsonBlock` (packages/subchain-client/src/Subchain.ts lines 137-152) inverts the answer of `addEosioBlockJson`; `Storages.Storage.PushBlock` gives the answer itself.
- Websockets, reconnecting, timers, slow motion delays, callbacks that are not the connection's update, saving state to files, the queries beyond heads and blocks, and React.
- Key encoding: floats are bit patterns and NaN has no place in the order; left out are `varint32` (disabled in the source), enumerations, and the size pass of `convert_to_key`.
- JSON text: the ABI codec starts from token sequences and value trees. Leaf types other than strings and time points are parameters; what is said of decoding and encoding again is about values whose leaves read back to as many bytes, whatever follows them.
- AbiCheck.DecodeIsStable: for values at most 128 deep, which is what the stacks of the decoder hold, and whose leaves read back to as many bytes.
- UndoLoss.ChangeAfterRefusal: the third loop of the undo, which puts removed rows back, is not run on the state after a refusal, where a lost value can have a removed row's key.
- AbiLaws.SameBytes: that the value-tree encoder takes what the token encoder takes is stated for types whose extensions come last; a struct with an extension in the middle is not of the ABI's making.
- Resolving type names into the type graph (libraries/abieos/src/abi.cpp); the codec starts from a resolved graph.
- The GraphQL lexer and executor; `Pagination` starts from the arguments.
- Pagination.MakeConnection: keys are numbers of a fixed width, which is what block numbers and names are.
- The compression function of RIPEMD-160, its byte order and the magic number; negative lengths.
- Keys of a variant without a value; sizes of memory that a text could ask for.
- The header of the line program, the size pass, parsing of debug sections, the forest of scopes and ELF output.
- The choice of the cached power of ten, the product of two floating point parts and the boundaries of a double, so the digits are those of the scaled bounds; the buffer of 18 characters; `emit_digits`.
- Names, assets and symbols of chain_conversions.hpp; `write_decimal` of eosiolib.
