# ECOS, modelled and proved in Dafny

ECOS is a distributed object store. This project models five parts of it and proves what they
promise. `dafny verify dfyconfig.toml` checks all of it.

**Data path** (`ChunkPool`, `BlockStore`, `WriterState`, `Writer`, `WriterGroup`, `Reader`,
`Multipart`, `DataPath`). A writer cuts the bytes it gets into chunks borrowed from a bounded pool, groups the
chunks into blocks, uploads the blocks concurrently and commits the list of blocks. A reader splits
each read into one segment per block and copies the segments concurrently. `WriterState` holds the
whole state as one value, with one function per atomic step and the invariant that each step keeps;
the class `EcosWriter` does the same steps on its fields and is proved equal to them. Upload
goroutines and the other clients that share pool and servers take any number of steps, in any order,
at every turn of the writer's loops: before each copy, before each acquired chunk, before each
released chunk and before each received completion (`Yield`). `WriterGroup` is the state machine of
several writers on one pool, with the lock of `AcquireMultiple`: each step of one writer is a foreign
step in the views of the others, and its runs start with new writers on an idle pool. The multipart
writer has the same shape.

**Raft driver** (`MetaStore`, `MetaStorage`, `Membership`, `RaftNode`, `RaftDriver`, `RaftReturns`,
`RaftVoters`). The raft loop, the applier and the proposers of one replica are processes that take
atomic steps in any order, with crashes. `RaftReturns` says when proposers return, `RaftVoters` what
the published log makes of the configuration.
The raft library enters only by its contract: committed entries form one log, batches are contiguous
segments of it, and its memory storage refuses stale snapshots and compactions. Indices are uint64
and wrap.

**Reconfiguration** (`Reconfiguration`). The control pass of a leader, whose proposals may be
rejected and which may crash at any point.

**Pipeline codec** (`Varint`, `PipelineCodec`, `PipelineWire`, `PipelineMessage`). The generated
marshalling code, against a functional description of the Protocol Buffers wire format ("Base 128
Varints" and "Packed Repeated Fields" in the Protocol Buffers encoding guide). `PipelineWire` writes
messages as sequences of fields with their tags, including fields that a Pipeline does not have.

**Naming, routing, listing and ranges** (`Strings`, `Decimal`, `ObjectPath`, `Routing`, `Listing`,
`HttpRange`). Object ids as strings, with `path.Clean` and `path.Join` written out; the hash ring is
any function into 1..n. The Range header follows section 2.1 of RFC 7233.

## Properties that do not hold everywhere

Each of these has the exact condition, or a concrete case, as a lemma.

- A failed upload does not keep `Close` from committing. What is committed can be read back if and
  only if no upload failed (`Writer.EcosWriter.Close`). That the servers do not have the block of a
  failed upload is an assumption of the model: an upload whose last answer is lost counts as one that
  stored nothing.
- `CloseMultiPart` never returns if and only if a part is listed twice or its reader had failed
  (`Multipart.MultipartWriter.CloseMultiPart`). It commits all parts, not only the listed ones.
- After EOF the read cursor stands at the start of the last block (`Reader.EcosReader.Read`).
- Seek panics exactly on objects without blocks (`Reader.EcosReader.SeekStart`), so that a suffix range
  of an empty object ends in a panic (`DataPath.ServeRange`).
- Recovering a snapshot gives the snapshot's state if and only if the store has no key of its own
  (`MetaStore.RecoverExact`). A follower that applied a PUT and missed the DELETE keeps the object
  (`RaftDriver.MissedDeletionStays`).
- A snapshot cut during the replay after a restart can be ahead of its index
  (`RaftDriver.ReplayedSnapshotIsAhead`); it still has, for every key, the value of some prefix from
  its index on (`RaftDriver.SnapshotConsistency`). It is exactly the fold of the entries up to its
  index if appliedIndex was never higher before, received snapshots are not ahead of their index
  and no key is stale (`RaftDriver.SnapshotIsFold`).
- A snapshot taken after a batch without data can miss operations that were published before it
  (`RaftDriver.UnawaitedSnapshotMissesData`).
- A crash between saving a received snapshot and loading it loses its contents
  (`RaftDriver.CrashBeforeLoadLosesData`).
- This, the unawaited snapshot and the missed deletion are the only ways in which a key can fall
  behind. `RaftDriver` keeps the set of keys that may be stale. Snapshots and stores are right in all
  other keys, in every run (`RaftDriver.SnapshotConsistency`, `RaftDriver.ReturnedIsApplied`). No key
  is stale in a run whose recoveries meet no foreign key, whose snapshots, own and received, miss no
  entry, and whose restarts come after the load of a saved snapshot (`RaftDriver.NothingStale`).
- A returning proposer finds one committed prefix with its operation in all keys that are not stale,
  also during a replay, if no received snapshot is ahead of its index (`RaftDriver.ReturnFindsPrefix`).
  For the operation's own key nothing of this matters: if received snapshots are behind in no key, a
  read after the return gives what the operation put or deleted, or what a committed entry after it
  did (`RaftDriver.ReadYourWrites`).
- A proposer whose entry is brought by an installed snapshot is never triggered
  (`RaftReturns.InstallLeavesProposer`, `RaftReturns.PassedOverNeverReturns`). When the applier is idle,
  a waiting proposer has been triggered if and only if its entry is published and no load of a snapshot
  has passed over it (`RaftReturns.ReturnIff`).
- A sender replaces the configuration of a snapshot by its own, so that the receiver can have a voter
  of an entry above appliedIndex (`RaftVoters.SentConfIsAhead`). The voters are exactly what the log up
  to appliedIndex says if received snapshots carry the configuration of their index
  (`RaftVoters.VotersAreLog`), and in every run as soon as no committed membership entry is left above
  appliedIndex (`RaftVoters.VotersSettle`).
- The panics of the snapshot trigger are out of reach if snapCount is at least the number of
  catch-up entries (`RaftDriver.NeverPanics`), and within reach of every smaller snapCount
  (`RaftDriver.PanicsIfSnapCountSmaller`).
- A Pipeline comes back from its encoding if and only if its unrecognized bytes are a sequence of
  unknown fields (`PipelineCodec.CodecRoundTrip`).
- The object id gives bucket, slot and key back if and only if the cleaned key is not empty, not "."
  and does not start with ".." (`Routing.SplitInvertsGen`).
- The server accepts the client's placement group on every ring if and only if both use the same
  number of groups; the client's metadata are made with the constant 10
  (`Routing.RoutingAgreement`).
- A listing is exact on every cluster if and only if the bucket has at most nine slots or the cleaned
  prefix is not empty, for prefixes from which no ".." leads out. If one does, what is sent is the same
  for all slots, and the listing is exact if and only if the prefix does not begin with a slash and the
  third part of what is sent is not the number of a slot, so that nothing is listed
  (`Listing.ListingExactIff`). With such prefixes every object of every other bucket and volume can be
  listed (`Listing.ListingEscapes`).
- The ranges of an accepted Range header lie within the object if and only if no suffix range has a
  negative number, as "bytes=--5" has (`HttpRange.RangesInside`, `HttpRange.NegativeSuffixAccepted`).
- A Range header of the grammar is refused if and only if all its specs start past the end, or one runs
  backwards within the object, or a number that has to be read is 2^63 or more
  (`HttpRange.GrammarRefused`). "bytes=0-9223372036854775808" is refused, although it selects the whole
  object (`HttpRange.LargeLastRefused`). A spec that runs backwards past the end is passed over, although
  the standard calls it invalid. Otherwise the header is refused if and only if the standard calls it
  unsatisfiable and no suffix has length 0 (`HttpRange.RefusedAgainstStandard`): "bytes=-0" is accepted
  (`HttpRange.ZeroSuffixAccepted`) and, its range being at the end of the object, then answered with a
  server error (`DataPath.ServeRange`).

## Model

| member | source | states |
|---|---|---|
| DataPath.RoundTrip | client/io/ecos_writer.go:161-250 | for every way of cutting the bytes into writes, every order of uploads and every sequence of read buffer sizes, the bytes read up to and including the first EOF are exactly the bytes written; EOF comes exactly when the buffers have room for all of them; this is the outcome if the servers accept the uploads, the writer is alone on an idle pool and a block has a chunk and fits into the pool; otherwise it may be that an upload failed and the metadata cannot be read, a block holds no chunk, or other writers hold too many chunks |
| DataPath.RangeRoundTrip | client/io/ecos_reader.go:317-351 | after any reads of a stored object, any non-empty range within it gives exactly that range of the bytes written; success under the same conditions, and the same other outcomes |
| DataPath.StoreObject | client/io/ecos_writer.go:161-250 | the committed metadata describe the bytes of all slices, or an upload failed and they cannot be read, or a block holds no chunk, or other writers hold so many chunks that one block does not fit; no upload fails if the servers accept them, nobody else holds chunks if the writer is alone on an idle pool, and with both a pool for one block is enough to store the object |
| DataPath.ServeRange | gateway/router/object.go:192-256 | ranges within the object are answered with exactly these bytes, one alone or several as parts in order; unsatisfiable headers are refused; a first range at the end is a server error, and a range of an object without blocks a panic |
| Writer.EcosWriter.constructor | client/io/ecos_io.go:84-111 | a new writer is open, has written nothing, and holds the writer's invariant on whatever pool and store it shares |
| Writer.EcosWriter.Write | client/io/ecos_writer.go:161-192 | appends all of p, or reports a block size without room for a chunk, or waits while the other writers hold so many chunks that one block no longer fits; the bytes taken so far are kept in every case |
| Writer.EcosWriter.Close | client/io/ecos_writer.go:232-250 | returns when all uploads have ended; what is committed reads as exactly what was written iff no upload failed, and none has if the servers accept all; all blocks but the last are full; every chunk is back in the pool or with another writer |
| Writer.EcosWriter.CopyIn | client/io/ecos_writer.go:176-181 | the next bytes of p go to the end of what was written, at least one of them, and a full chunk is committed |
| Writer.EcosWriter.GetCurChunk | client/io/ecos_writer.go:117-139 | leaves a current chunk with room in it, or the error of AcquireMultiple; nothing written is lost |
| Writer.EcosWriter.UseReserve | client/io/ecos_writer.go:131-138 | the first reserved chunk becomes the current one, and it is empty |
| Writer.EcosWriter.CommitCurChunk | client/io/ecos_writer.go:144-154 | the current chunk ends up in the current block, the written bytes stay the same, and a block with all its chunks is committed with BlockSize bytes |
| Writer.EcosWriter.AppendCurChunk | client/io/ecos_writer.go:144-149 | opens a block if there is none and appends the chunk to it without changing the written bytes |
| Writer.EcosWriter.CommitCurBlock | client/io/ecos_writer.go:102-114 | gives the whole reserve back and hands the block to its goroutine; its content is fixed as the bytes not yet in a block |
| Writer.EcosWriter.GiveBackReserve | client/io/ecos_writer.go:102-106 | the whole reserve goes back while uploads and other writers go on releasing, and the written bytes stay the same |
| Writer.EcosWriter.ReleaseReserved | client/io/ecos_writer.go:103-105 | the first reserved chunk goes back, and the channel has room for it |
| Writer.EcosWriter.CloseBlock | client/io/block.go:195-232 | the block gets an id nobody has and the size of exactly its content |
| Writer.EcosWriter.UploadBlock | client/io/block.go:107-168 | the bytes sent are the block's content in order, their count equals the recorded size, and the servers have them iff the upload is accepted |
| Writer.EcosWriter.ReleaseChunk | client/io/ecos_writer.go:575-583 | a chunk of an ended upload returns to the pool empty, and the channel has room for it |
| Writer.EcosWriter.AcquireMultiple | utils/common/pool.go:51-69 | the writer owns no other chunk while it waits; it waits for good only if other writers hold all chunks that it has not acquired itself |
| Writer.EcosWriter.AcquireOne | utils/common/pool.go:33-48 | one more empty chunk belongs to the request and to nobody else |
| Writer.EcosWriter.Drain | client/io/ecos_writer.go:588-606 | every upload reaches its send in finitely many steps of its own, whatever the others do in between |
| Writer.EcosWriter.Yield | client/io/ecos_writer.go:588-606 | any steps of uploads and other clients keep the invariant and leave alone everything that this writer relies on |
| Writer.EcosWriter.OtherWriter | utils/common/pool.go:33-74 | whatever another writer does with its own chunks keeps the invariant of this one |
| Writer.EcosWriter.OtherUpload | client/io/block.go:195-214 | ids and blocks of other clients keep the invariant of this writer |
| Writer.EcosWriter.AwaitUploads | client/io/ecos_writer.go:239-242 | as many completions as there are blocks are received, each block exactly once |
| Writer.EcosWriter.GenMeta | client/io/ecos_writer.go:213-218 | the metadata list the blocks in the order in which they were committed |
| WriterState.WaitingMeansOthersHold | utils/common/pool.go:33-48 | when a request waits and the writer's uploads are through, every chunk there is belongs to another writer or to the request |
| WriterState.ReleasedChunk | client/io/ecos_writer.go:575-583 | a chunk about to be released is in its block and not in the pool, which has room for it |
| WriterState.ReserveFits | client/io/ecos_writer.go:102-106 | idle chunks and reserve are all different and fit into the channel together |
| WriterState.AcquireKeeps | utils/common/pool.go:33-48 | an Acquire by anybody keeps every chunk in exactly one place and never creates more than maxCount |
| WriterState.MetaReadable | client/io/ecos_writer.go:194-219 | once all completions are received the listed blocks can be fetched iff none failed, and are then the committed contents |
| WriterState.ChunksReturned | client/io/ecos_writer.go:575-583 | after all receptions every chunk is in the pool or with another writer |
| WriterState.CommittedFull | client/io/ecos_writer.go:150-152 | a block committed because it is full has exactly BlockSize / ChunkSize * ChunkSize bytes |
| WriterState.MeanwhileWritten | client/io/ecos_writer.go:588-606 | steps of others leave the written bytes alone |
| WriterGroup.NotAllWait | utils/common/pool.go:51-69 | in every run of any number of writers on one pool, if the one inside AcquireMultiple waits for a chunk and the pool may hold the chunks of its block, then some writer holds chunks of an earlier AcquireMultiple or has an upload with steps to do; if none is, the next Acquire can be taken; so not all writers wait for good |
| WriterGroup.WriterGoesOn | client/io/ecos_writer.go:102-192 | in every run an open writer can take a step, unless it waits for the lock of AcquireMultiple or for a chunk |
| WriterGroup.UploadMoves | client/io/ecos_writer.go:588-606 | an upload with steps to do can take the next one, whatever the other writers do |
| WriterGroup.RunShares | client/io/ecos_writer.go:102-192 | in every state of every run each writer has its invariant, all see the same pool and servers, what is foreign to one belongs to another, no block id is used twice, and only the one with the lock has acquired chunks that are not its reserve |
| WriterGroup.OneOwner | utils/common/pool.go:33-74 | in no run is a chunk with two writers, or with a writer and in the pool |
| WriterGroup.StepShares | client/io/ecos_writer.go:102-192 | every step of every writer keeps the views of all writers together: acquiring, filling, committing, giving back the reserve, uploading, releasing, receiving |
| WriterGroup.InitialShares | client/io/ecos_io.go:84-111 | new writers on an idle pool share it |
| ChunkPool.Chunk.Fill | client/io/ecos_writer.go:176-177 | the copy puts as much of p as fits behind the content of the chunk |
| ChunkPool.Pool.Acquire | utils/common/pool.go:33-48 | hands out an empty chunk that is no longer in the pool; chunks are created only below maxCount |
| ChunkPool.Pool.Release | utils/common/pool.go:72-74 | never waits |
| Reader.EcosReader.CalcBlocks | client/io/ecos_reader.go:276-315 | the segments tile the buffer and the object range from the cursor on, without gap or overlap; EOF iff the request is at least what remains; otherwise the cursor moves by exactly the request |
| Reader.EcosReader.Read | client/io/ecos_reader.go:194-232 | the buffer holds exactly the next bytes of the object, its rest is untouched, and the counted bytes are the copied ones, for every interleaving of fetches, copies and cache deletions |
| Reader.EcosReader.GetBlock | client/io/ecos_reader.go:57-75 | the cache never changes what a block reads as |
| Reader.EcosReader.RunGoroutines | client/io/ecos_reader.go:206-225 | all interleavings of the goroutines end with the same buffer and the same count |
| Reader.EcosReader.CopiesCommute | client/io/ecos_reader.go:215 | copying one segment leaves the bytes of the others alone |
| Reader.ChainedCovers | client/io/ecos_reader.go:276-315 | every byte of the buffer below the count belongs to a segment |
| Reader.ChainedOnce | client/io/ecos_reader.go:276-315 | and to no other one |
| Reader.BlockInObject | client/io/ecos_reader.go:276-315 | block i is the part of the object that starts at the sum of the sizes before it |
| Reader.EcosReader.SeekStart | client/io/ecos_reader.go:317-351 | from any cursor, the cursor stands for exactly the offset, or EOF is reported iff the offset is not below the size; without blocks it panics |
| Reader.EcosReader.ReadRun | client/io/ecos_reader.go:194-232 | any sequence of buffer sizes delivers the object from the cursor on, up to the first EOF |
| Reader.EcosReader.ReadRange | gateway/router/object.go:208-217 | seeking and copying a length gives exactly that part of the object |
| Multipart.MultipartWriter.AddPartID | client/io/ecos_writer.go:361-373 | part numbers stay strictly ascending, the new one is added, and the answer says whether it is new |
| Multipart.MultipartWriter.WritePart | client/io/ecos_writer.go:376-440 | the part now holds what was read, the other parts are as before, part numbers stay equal to the keys of blocks, whenever superseded versions are deleted; all error cases |
| Multipart.ReadChunks | client/io/ecos_writer.go:413-430 | the part is the concatenation of what the reader returned, and the block size is its length |
| Multipart.MultipartWriter.GenPartialMeta | client/io/ecos_writer.go:303-325 | lists the current version of every part in part order, with the sum of the sizes |
| Multipart.MultipartWriter.FinishUpload | client/io/ecos_writer.go:588-606 | a running upload ends finished, with exactly its bytes on the servers, iff they accept it, and failed with nothing stored otherwise |
| Multipart.MultipartWriter.Vacate | client/io/ecos_writer.go:376-412 | the replaced version is gone from the servers and from the map, or nothing has changed |
| Multipart.MultipartWriter.CloseMultiPart | client/io/ecos_writer.go:458-491 | waits until the current upload of each listed part has ended, ignoring superseded ones, and finished if the servers accept all uploads; hangs iff a part is listed twice or has no upload; what it commits can be read iff the current version of every part is uploaded, and then is the parts in ascending order |
| Multipart.MultipartWriter.CheckParts | client/io/ecos_writer.go:467-475 | the first unknown entry decides between the two errors |
| Multipart.MultipartWriter.AwaitParts | client/io/ecos_writer.go:476-484 | the receiving loop ends iff nothing listed is stuck |
| Multipart.PartsReadable | client/io/ecos_writer.go:303-325 | the metadata can be read iff all current versions are uploaded, and then describe the parts in order |
| Multipart.StoreParts | client/io/ecos_writer.go:376-491 | for every sequence of part writes closed with the list of all parts, the close returns and commits the last version of each part in ascending order; if the servers accept the uploads, this is what can be read |
| MetaStore.ReplayAfterRestart | edge-node/alaya/alaya_raft.go:159-178 | applying entries again that the persisted store already has, and then the rest, gives the state of the whole prefix |
| MetaStore.CatchUpBySnapshot | edge-node/alaya/rocksdb_meta_storage.go:132-173 | a snapshot recovered into an empty store, followed by the later entries, gives the state of the whole log |
| MetaStore.RecoverExact | edge-node/alaya/rocksdb_meta_storage.go:158-173 | recovery gives the snapshot's state iff the store has no key of its own |
| MetaStorage.RocksDBMetaStorage.RecordMeta | edge-node/alaya/rocksdb_meta_storage.go:70-80 | is the effect of a PUT entry |
| MetaStorage.RocksDBMetaStorage.Delete | edge-node/alaya/rocksdb_meta_storage.go:123-130 | is the effect of a DELETE entry |
| MetaStorage.RocksDBMetaStorage.List | edge-node/alaya/rocksdb_meta_storage.go:101-121 | lists the stored metadata under the prefix, each once, and nothing else |
| MetaStorage.RocksDBMetaStorage.CreateSnapshot | edge-node/alaya/rocksdb_meta_storage.go:132-156 | captures every pair of the store once |
| MetaStorage.RocksDBMetaStorage.RecoverFromSnapshot | edge-node/alaya/rocksdb_meta_storage.go:158-173 | the old store overridden by the captured one |
| RaftNode.EntriesToApplyExact | edge-node/raft-node/raft_node.go:115-127 | in spite of the wrapping subtraction exactly the entries above appliedIndex remain; fatal iff the batch leaves a gap |
| RaftNode.TriggerNeverPanics | edge-node/raft-node/raft_node.go:322-360 | with snapCount at least the catch-up entries, neither storage call is refused, and the compaction index is above the old offset and at most appliedIndex; a snapshot is taken iff more than snapCount entries were applied since the last, and exactly the catch-up entries are kept |
| RaftNode.RaftNode.SelectEntries | edge-node/raft-node/raft_node.go:115-127 | computes the selection that EntriesToApplyExact is about |
| RaftNode.RaftNode.PublishEntries | edge-node/raft-node/raft_node.go:131-179 | hands over the data entries in order and moves appliedIndex to the last entry; a node is then a voter iff the last entry about it adds it, or there is none and it was a voter before |
| Membership.ApplyConfsIs | edge-node/raft-node/raft_node.go:145-152 | applying membership changes one by one is the same as looking at the last one about each node |
| RaftNode.RaftNode.MaybeTriggerSnapshot | edge-node/raft-node/raft_node.go:322-360 | the decision and the storage that TriggerNeverPanics is about |
| RaftDriver.RunInv | edge-node/raft-node/raft_node.go:362-447 | every reachable state of every interleaving keeps the index bounds, the publishing order, and the relation of store, applier and snapshot to the log in all keys that are not stale |
| RaftDriver.PublishedExactlyOnce | edge-node/raft-node/raft_node.go:115-179 | since the last install or restart exactly the entries above it were published, once each and in log order, membership changes included, the applier was handed their data, and no batch is fatal |
| RaftDriver.AppliedNeverDecreases | edge-node/raft-node/raft_node.go:175-178 | appliedIndex, which is set to the index of the last selected entry, moves back only by a restart |
| RaftDriver.NeverPanics | edge-node/raft-node/raft_node.go:320-360 | with snapCount at least the catch-up entries no run reaches a panic, and offset <= snapshotIndex <= appliedIndex outside an install |
| RaftDriver.PanicsIfSnapCountSmaller | edge-node/raft-node/raft_node.go:320-360 | for every smaller snapCount there is a run that panics |
| RaftDriver.SnapshotConsistency | edge-node/raft-node/raft_node.go:322-360 | in every run, a snapshot after a batch with data adds no stale key, has for every other key the value of some prefix between appliedIndex and what the store has ever reached |
| RaftDriver.SnapshotIsFold | edge-node/raft-node/raft_node.go:322-360 | in every run without stale keys and without received snapshots that are ahead, a snapshot after a batch with data is exactly the fold of all entries up to appliedIndex, if appliedIndex was never higher before |
| RaftDriver.NothingStale | edge-node/alaya/alaya_raft.go:141-190 | no key is stale as long as no recovery meets a foreign key, no snapshot is cut before its entries are applied and no restart comes before the load of a saved snapshot |
| RaftDriver.UnawaitedSnapshotMissesData | edge-node/raft-node/raft_node.go:164-178 | a run in which the snapshot after a batch without data lacks a published operation |
| RaftDriver.ReplayedSnapshotIsAhead | edge-node/raft-node/raft_node.go:322-360 | a run in which a snapshot cut during the replay after a restart already has an operation above its index |
| RaftDriver.CrashBeforeLoadLosesData | edge-node/raft-node/raft_node.go:302-318 | a run in which a restart never loads a snapshot that was saved |
| RaftDriver.MissedDeletionStays | edge-node/alaya/rocksdb_meta_storage.go:158-173 | a run in which a follower that missed a deletion still has the object after loading a snapshot |
| RaftDriver.DriverMoves | edge-node/raft-node/raft_node.go:362-447 | the loop goes on, or the applier that it waits for does; a batch is accepted from any start that leaves no gap |
| RaftReturns.AppliedMeansTriggered | edge-node/alaya/alaya_raft.go:159-190 | in every run, when the applier is idle, the proposer of every entry published since the last install or restart that still waits can return |
| RaftReturns.ProposalReturns | edge-node/alaya/alaya_raft.go:412-432 | a registered proposer can return once its entry is published and the applier idle, unless it has returned, the node was restarted or an install passed over the entry |
| RaftReturns.ReturnIff | edge-node/alaya/alaya_raft.go:159-190 | for an idle applier, a waiting proposer can return iff its entry is published and no load has passed over it |
| RaftReturns.ReturnsOnce | edge-node/alaya/alaya_raft.go:412-432 | in no run does a proposal return twice |
| RaftReturns.PassedOverNeverReturns | edge-node/alaya/alaya_raft.go:141-158 | a proposer whose entry a load has passed over never returns |
| RaftReturns.InstallLeavesProposer | edge-node/alaya/alaya_raft.go:141-158 | a run in which a snapshot brings the operation of a waiting proposer |
| RaftVoters.VotersAreLog | edge-node/raft-node/raft_node.go:131-179 | in every run, restarts included, whose received snapshots carry the configuration of their index, a node is a voter iff the last entry about it up to appliedIndex adds it; the same for the snapshot file |
| RaftVoters.VotersSettle | edge-node/raft-node/raft_node.go:145-152 | in every run the same holds as soon as no committed membership entry lies above appliedIndex |
| RaftVoters.RunVoters | edge-node/raft-node/raft_node.go:302-318 | in every run each node is a voter or not as some committed prefix from appliedIndex on says |
| RaftVoters.PublishedVoters | edge-node/raft-node/raft_node.go:131-179 | a published batch changes the voters as its last entry about each node says |
| RaftVoters.SentConfIsAhead | edge-node/alaya/alaya_raft.go:382-386 | a run in which a received snapshot makes a node a voter whose entry is above appliedIndex |
| RaftDriver.ReturnedIsApplied | edge-node/alaya/alaya_raft.go:412-432 | in every run, when a proposal returns, its operation is in the log once, below the store's position, and every key of the local store that is not stale has the value of a committed prefix that includes it |
| RaftDriver.ReturnFindsPrefix | edge-node/alaya/alaya_raft.go:412-432 | if received snapshots are not ahead of their index, the store is then one committed prefix that includes the operation in all keys that are not stale, also after restarts and during replays |
| RaftDriver.ReadYourWrites | edge-node/alaya/alaya_raft.go:412-432 | in every run whose received snapshots are behind in no key, the operation's own key then has the value of a committed prefix that includes the operation; if no later committed entry touches the key, a PUT is there with its metadata and a DELETE is gone |
| Reconfiguration.CalDiff | edge-node/alaya/alaya_raft.go:505-521 | both differences, without duplicates |
| Reconfiguration.Group.Propose | edge-node/alaya/alaya_raft.go:267-316 | an applied change moves the voters by one node, as its membership entry says, a rejected one or a crash leaves them |
| Reconfiguration.ReadsMore | edge-node/alaya/alaya_raft.go:229-255 | each voter set of a history is what the membership entries before it make of the first one |
| Reconfiguration.Group.RemoveNode | edge-node/alaya/alaya_raft.go:332-341 | the node is proposed for removal until it is no voter, and nobody else leaves |
| Reconfiguration.Group.ProposeNewNodes | edge-node/alaya/alaya_raft.go:286-297 | voters only grow towards the union with the listed nodes, and reach it if no crash comes first |
| Reconfiguration.Group.ProposeRemoveNodes | edge-node/alaya/alaya_raft.go:318-354 | voters only shrink by listed nodes; the leader is in every set but possibly the last |
| Reconfiguration.Group.ControlPass | edge-node/alaya/alaya_raft.go:229-255 | every voter set on the way lies between old voters and target, consecutive ones differ by at most one node, the leader leaves last, and a pass that is not cut short ends at the target |
| Reconfiguration.Group.RunPasses | edge-node/alaya/alaya_raft.go:229-255 | for any passes by any leaders, each cut short anywhere, the configurations stay one node apart and are never empty |
| Reconfiguration.MajoritiesMeet | edge-node/alaya/alaya_raft.go:229-255 | majorities of configurations one node apart share a node (section 4.1 of Ongaro's dissertation) |
| Reconfiguration.BetweenIsSafe | edge-node/alaya/alaya_raft.go:229-255 | no configuration on the way is smaller than both ends, and the nodes common to both ends are always kept |
| Varint.RoundTrip | edge-node/pipeline/pipeline.pb.go:209-219 | reading an encoded uint64 gives it back and uses exactly its bytes, whatever follows |
| Varint.EncodeDigits | edge-node/pipeline/pipeline.pb.go:209-219 | byte i of an encoding has bits 7i to 7i + 6, and its top bit says whether another byte follows |
| Varint.EncodeShortest | edge-node/pipeline/pipeline.pb.go:209-219 | no shorter encoding has room for the number |
| Varint.ScanCases | edge-node/pipeline/pipeline.pb.go:260-273 | overflow iff ten bytes ask for another one, unexpected end iff fewer bytes and all of them do, otherwise the varint up to the first byte that does not |
| Varint.SovIsEncodedSize | edge-node/pipeline/pipeline.pb.go:248-250 | the bit-length formula equals the number of bytes the encoder emits, at most ten, for every uint64 |
| Varint.OrShift | edge-node/pipeline/pipeline.pb.go:260-273 | or-ing a shifted group into the accumulator is addition modulo its width, also where the group does not fit |
| Varint.OrTopBit | edge-node/pipeline/pipeline.pb.go:209-219 | or-ing the top bit into the low seven bits is addition |
| Varint.ReadVarint | edge-node/pipeline/pipeline.pb.go:260-273 | the reading loop never leaves the input and yields value, end or error of the described varint, also for 32-bit accumulators |
| PipelineMessage.EncodeVarint | edge-node/pipeline/pipeline.pb.go:209-219 | the encoding ends just before the offset and nothing else changes |
| PipelineMessage.Pipeline.Size | edge-node/pipeline/pipeline.pb.go:220-246 | equals the length of the encoding |
| PipelineMessage.Pipeline.PackElements | edge-node/pipeline/pipeline.pb.go:184-194 | ten bytes per element are enough, and the used part is the packed elements |
| PipelineMessage.Pipeline.PutRaftId | edge-node/pipeline/pipeline.pb.go:183-200 | tag, length and packed elements stand just before the index, the rest is untouched |
| PipelineMessage.Pipeline.MarshalToSizedBuffer | edge-node/pipeline/pipeline.pb.go:164-207 | filling backwards leaves the fields that are not zero under their tags and in their order, then the unrecognized bytes, at the end of the buffer, and the front untouched |
| PipelineMessage.Pipeline.Marshal | edge-node/pipeline/pipeline.pb.go:149-157 | the buffer of Size bytes holds exactly that |
| PipelineMessage.Pipeline.Unmarshal | edge-node/pipeline/pipeline.pb.go:254-437 | terminates on every input, never indexes outside it, and merges fields or fails exactly as the format describes; every sequence of fields leaves in each singular field of the object the last value under its tag, in RaftId all elements in order, and in the unrecognized bytes all other fields verbatim |
| PipelineWire.DecodeItems | edge-node/pipeline/pipeline.pb.go:254-437 | the same for the described format |
| PipelineWire.UnknownKept | edge-node/pipeline/pipeline.pb.go:416-430 | for every number above 4, any varint, any 8 bytes, any 4 bytes, a length with as many bytes, and a group around any such fields are each one field of exactly that length, which is kept verbatim |
| PipelineWire.SkipRendered | edge-node/pipeline/pipeline.pb.go:438-515 | skipping ends exactly at the end of such a field, within any number of open groups |
| PipelineWire.EncodedIsWire | edge-node/pipeline/pipeline.pb.go:164-207 | an encoding is the fields that are not zero, in the order of their numbers, and the unrecognized bytes |
| PipelineWire.BadTag | edge-node/pipeline/pipeline.pb.go:277-301 | which tags are refused and with which error, whatever follows |
| PipelineWire.DecodeCut | edge-node/pipeline/pipeline.pb.go:254-437 | input that ends within a field, of any kind and after any others, is an unexpected end |
| PipelineMessage.SkipPipeline | edge-node/pipeline/pipeline.pb.go:438-515 | terminates on every input and finds the end of a field or group, or the right error |
| PipelineCodec.CodecRoundTrip | edge-node/pipeline/pipeline.pb.go:149-437 | decoding the encoding gives the message back iff its unrecognized bytes are unknown fields, in particular if there are none |
| PipelineCodec.ReencodingIsStable | edge-node/pipeline/pipeline.pb.go:149-437 | what was decoded from any input survives encoding and decoding |
| PipelineCodec.PackedEqualsUnpacked | edge-node/pipeline/pipeline.pb.go:302-377 | between any fields, field 2 decodes to the same list packed or as separate pairs |
| PipelineCodec.DecodeConcat | edge-node/pipeline/pipeline.pb.go:254-437 | concatenated encodings decode as merged messages |
| PipelineCodec.FieldLocal | edge-node/pipeline/pipeline.pb.go:254-437 | a field is decoded from its own bytes only |
| PipelineCodec.DecodeKeepsUnknown | edge-node/pipeline/pipeline.pb.go:416-430 | decoding collects unknown fields and nothing else as unrecognized bytes |
| ObjectPath.CleanIdempotent | edge-node/object/object.go:27-30 | cleaning a cleaned path changes nothing, for every string |
| ObjectPath.CleanSamePlace | edge-node/object/object.go:27-30 | a cleaned path stands for the same place in every directory, and has no empty element, ".", or ".." after a name |
| Routing.LeadingSlash | edge-node/object/object.go:20-30 | a leading slash makes no difference to the cleaned key iff the key is good or has one already |
| Routing.TrimIsTrimPrefix | edge-node/object/object.go:78-85 | the two ways of cleaning a key that the id and the slot use are the same |
| Routing.ObjectIdIs | edge-node/object/object.go:78-85 | the id of any key is bucket, slot and key elements, from which leading ".." of the key remove |
| Routing.SplitInvertsGen | edge-node/object/object.go:32-48 | SplitID inverts GenObjectId exactly for the good keys |
| Routing.ServerGroup | edge-node/alaya/alaya.go:82-99 | from the id the server computes the group that the client computes from bucket and key, and the id is clean already |
| Routing.RoutingAgreement | edge-node/alaya/alaya.go:113-124 | the server accepts the client's metadata on every ring iff both use the same number of groups |
| Routing.EmptyKeyRejected | edge-node/alaya/alaya.go:82-124 | a key that cleans to nothing is always rejected |
| Routing.IdsDetermine | edge-node/object/object.go:78-85 | different objects have different ids |
| Routing.SlotsOnRing | edge-node/object/object.go:12-16 | two slots have the same placement group on every ring iff they are slots of the same bucket with the same character, or there is one group |
| Routing.KeysOnRing | edge-node/object/object.go:20-25 | two keys have the same slot on every ring iff they have the same cleaned form, or there is one slot |
| Routing.ObjectsOnRing | edge-node/object/object.go:69-76 | two objects of a bucket have the same placement group on every ring iff their keys, cleaned twice as the program does, are the same, or there is one slot or one group |
| Routing.HashedGoodKey | edge-node/object/object.go:69-76 | for good keys the second cleaning changes nothing, so that this is the cleaned key |
| Routing.BucketsOnRing | edge-node/object/object.go:69-76 | objects of different buckets have the same placement group on every ring iff there is one group |
| Listing.ObjectIdText | edge-node/object/object.go:78-85 | the id that a client generates is volume, bucket, slot and cleaned key with slashes between |
| Listing.PrefixMatches | client/client.go:167-169 | for every prefix, which ids start with what is sent for a slot: those of the slot under the prefix, or without a prefix those whose slot number starts with the same digits; ".." that lead out of the prefix remove slot, bucket and volume |
| Listing.List | shared/alaya/meta_storage.go:95-106 | every id of the storage under the prefix once |
| Listing.ListMeta | edge-node/alaya/alaya.go:270-296 | every id of the node under the prefix once |
| Listing.ListObjectsByEdge | client/client.go:145-185 | an object is in the result exactly as often as it is in the answers of the slots |
| Listing.ListingExact | client/client.go:145-185 | with at most nine slots or a prefix, from which no ".." leads out, every stored object of the bucket under the cleaned prefix is listed once, and nothing else |
| Listing.ListingRepeats | client/client.go:145-185 | otherwise there is a cluster on which an object is listed twice |
| Listing.ListingExactIff | client/client.go:145-185 | the exact condition for a listing to be right on every cluster, for every prefix |
| Listing.RootedInexact | client/client.go:145-185 | with a prefix that begins with a slash and from which ".." leads out, a listing loses an object or has one too many |
| Listing.RelativeInexact | client/client.go:145-185 | without the slash it lists an object that does not have the prefix, if what is sent can start an id |
| Listing.ListingEscapes | client/client.go:145-185 | every object of every other bucket and volume is listed for some prefix |
| HttpRange.ParseRange | gateway/router/utils_object.go:97-163 | the loop, which stops at the first bad element, computes the result that RangesInside and GrammarRefused are about |
| HttpRange.TrimIs | gateway/router/utils_object.go:108-116 | exactly the blanks, tabs and line ends at both ends are removed |
| HttpRange.NegativeSuffixAccepted | gateway/router/utils_object.go:117-129 | a suffix with a negative number gives a range that starts past the end and has a negative length |
| HttpRange.RangesInside | gateway/router/utils_object.go:97-163 | the returned ranges lie in [0,size] iff no element is a suffix with a negative number, for every accepted header |
| HttpRange.GrammarParsed | gateway/router/utils_object.go:97-163 | for every list in the grammar of section 2.1 of RFC 7233, with empty elements, white space and numbers of any size and in any order: an element that runs backwards within the object or has a number too large to be read is bad, one that starts past the end gives nothing, and every other spec gives exactly the byte positions that the standard selects |
| HttpRange.GrammarRefused | gateway/router/utils_object.go:97-163 | such a header is refused iff it has a number too large to be read or a spec that runs backwards within the object, or specs that all start past the end |
| HttpRange.RefusedAgainstStandard | gateway/router/utils_object.go:97-163 | without such bad elements it is refused iff it is unsatisfiable by section 2.1 of RFC 7233 and has no suffix of length 0 |
| HttpRange.ZeroSuffixAccepted | gateway/router/utils_object.go:115-127 | "bytes=-0", which selects nothing, gives an empty range at the end of the object |
| HttpRange.LargeLastRefused | gateway/router/utils_object.go:146-149 | the range from 0 to 2^63 is refused for every object, although the standard selects all of it |
| HttpRange.ElementMeans | gateway/router/utils_object.go:108-157 | the same for one element |
| Decimal.ParseSigned | gateway/router/utils_object.go:120-133 | signed numbers are read, down to -2^63 and up to 2^63 - 1 |
| Decimal.ParseItoa | edge-node/object/object.go:43-47 | a number written in decimal parses to itself, up to the limit of int64 |

## Left out

- Elections and log matching of raft, the write-ahead log, snapshot files, RocksDB, placement by gocrush and the hash ring: libraries, taken by contract or as parameters.
- Block ids made from hashes: no code sets a block's hash type, which therefore stays off, so that ids are always fresh.
- Object and block hashes, timestamps, terms, metrics and logging.
- Writer.EcosWriter.UploadBlock: not the choice of nodes and the retries; an upload is accepted or not, and one that is not accepted stores nothing.
- A block that cannot be fetched: the reader's goroutine then never reports, and Read does not return; readers here have readable metadata.
- Seek from the current position or the end, and negative offsets.
- Sizes beyond the range of Go's int in writer and reader.
- Abort and AbortMultiPart, which the program does not finish.
- The restart of a listing, a read or a commit after a change of the cluster term.
- Metadata storages in memory apart from listing: their snapshots are stubs.
- Calling Close on a multipart writer, or WritePart on an ordinary one.
- DataPath.ServeRange: not for suffix ranges with so large a negative number that the start wraps around.
- WriterGroup.NotAllWait: a writer that holds chunks may rest for ever between two calls of Write; that it goes on is up to its caller.
- Loading a snapshot is one step of the raft driver, while the program puts the pairs one at a time: a crash or a read in the middle of it is not a run.
- Reconfiguration.Group.RunPasses: for targets with at least one node.
- PipelineMessage.Pipeline.Marshal: for encodings shorter than 2^63 bytes, as every Go slice is.
