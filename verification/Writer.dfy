/**
 * EcosWriter: cuts the written bytes into chunks borrowed from the pool, groups the chunks
 * into blocks and uploads the blocks concurrently. Upload goroutines and the other writers
 * that share the pool run in Yield, any number of steps in any order.
 */
module Writer {
  import opened Basics
  import opened ChunkPool
  import opened BlockStore
  import opened WriterState

  datatype WriteError = NoError | IllegalStatus | ZeroSize | Blocked | RepeatedClose | MetaRejected

  /** Metadata and stored blocks give back the bytes w, unless an upload failed. */
  ghost predicate Delivered(meta: ObjectMeta, s: State, w: seq<byte>) {
    && meta.objSize == |w| && |meta.blocks| == |s.content|
    && (Readable(meta.blocks, s.data) <==> NoneFailed(s)) && (s.reliable ==> NoneFailed(s))
    && (Readable(meta.blocks, s.data) ==> Flatten(Fetch(meta.blocks, s.data)) == w)
    && (forall i :: 0 <= i < |meta.blocks| - 1 ==> meta.blocks[i].blockSize == s.perBlock * s.chunkSize)
    && (meta.blocks != [] ==> meta.blocks[|meta.blocks| - 1].blockSize <= s.perBlock * s.chunkSize)
  }

  lemma MetaDelivers(s: State, meta: ObjectMeta, w: seq<byte>)
    requires Inv(s) && s.received == s.blocks.Keys && Lists(meta.blocks, s)
    requires Flatten(s.content) == w && meta.objSize == |w| && EvenBlocks(s.content, s.perBlock * s.chunkSize)
    ensures Delivered(meta, s, w)
  {
    MetaReadable(s, meta.blocks);
    hide Inv;
  }

  class EcosWriter {
    const pool: Pool
    const store: Store
    const perBlock: nat                  // BlockSize / ChunkSize
    const reliable: bool                 // the servers accept every upload of this writer

    var status: Status
    var curChunk: Option<ChunkId>
    var reserveChunks: seq<ChunkId>
    var acquiring: seq<ChunkId>          // what a running AcquireMultiple has so far
    var committing: bool                 // commitCurBlock is giving the reserve back
    var curBlock: Option<Block>
    var blocks: map<nat, Block>
    var blockCount: nat
    var writeSize: nat
    var received: set<nat>               // blocks whose completion Close has received

    var others: set<ChunkId>             // chunks in the hands of other writers
    ghost var owner: map<ChunkId, Place>
    ghost var content: seq<seq<byte>>

    ghost function View(): State
      reads this, pool, store
    {
      State(pool.chunkSize, pool.maxCount, perBlock, reliable, pool.resources, pool.curCount, pool.mem,
            store.data, store.nextId, status, curChunk, reserveChunks, acquiring, committing, curBlock, blocks,
            blockCount, received, others, owner, content)
    }

    /** The state between calls: no full chunk or block is left uncommitted. */
    ghost predicate Valid()
      reads this, pool, store
    {
      && Inv(View()) && Full(View()) && Open()
      && acquiring == [] && writeSize == |Taken()| && (status == READING ==> received == {})
    }

    ghost predicate Open()
      reads this, pool
    {
      && !committing
      && (curChunk.Some? ==> curChunk.value in pool.mem && pool.mem[curChunk.value].freeSize > 0)
      && (curBlock.Some? ==> |curBlock.value.chunks| < perBlock)
    }

    /** What has been written so far. */
    ghost function Taken(): seq<byte>
      requires Inv(View())
      reads this, pool, store
    {
      Written(View())
    }

    constructor (pool: Pool, store: Store, perBlock: nat, reliable: bool)
      requires pool.Valid() && store.Valid() && pool.chunkSize > 0
      ensures Valid() && this.pool == pool && this.store == store && this.perBlock == perBlock && this.reliable == reliable
      ensures status == READING && Taken() == [] && blockCount == 0
      ensures New(View())
      ensures (forall c :: c in pool.mem ==> c in pool.resources) ==> others == {}
    {
      this.pool, this.store, this.perBlock, this.reliable := pool, store, perBlock, reliable;
      status, curChunk, reserveChunks, acquiring, committing := READING, None, [], [], false;
      curBlock, blocks, blockCount, writeSize, received := None, map[], 0, 0, {};
      others := set c | c in pool.mem && c !in pool.resources;
      owner := map c | c in pool.mem :: if c in pool.resources then InPool else Foreign;
      content := [];
      new;
      NewKeeps(View());
    }

    lemma PoolValid()
      requires Inv(View())
      ensures pool.Valid()
    {
    }

    lemma MemValid(c: ChunkId)
      requires Inv(View()) && c in pool.mem
      ensures pool.mem[c].Valid(pool.chunkSize)
    {
    }

    lemma StoreValid()
      requires Inv(View())
      ensures store.Valid()
    {
    }

    /** Adds up the sizes of the chunks. */
    method ChunksSize(chunks: seq<ChunkId>) returns (size: nat)
      requires forall c :: c in chunks ==> c in pool.mem && pool.mem[c].freeSize <= |pool.mem[c].data|
      ensures size == |Bytes(pool.mem, chunks)|
    {
      size := 0;
      for k := 0 to |chunks|
        invariant size == |Bytes(pool.mem, chunks[..k])|
      {
        assert chunks[..k + 1][..k] == chunks[..k];
        size := size + |pool.mem[chunks[k]].data| - pool.mem[chunks[k]].freeSize;
      }
      assert chunks[..|chunks|] == chunks;
    }

    /** Sends the used part of each chunk, and counts the bytes. */
    method SendChunks(chunks: seq<ChunkId>) returns (sent: seq<byte>, byteCount: nat)
      requires forall c :: c in chunks ==> c in pool.mem && pool.mem[c].freeSize <= |pool.mem[c].data|
      ensures sent == Bytes(pool.mem, chunks) && byteCount == |sent|
    {
      sent, byteCount := [], 0;
      for k := 0 to |chunks|
        invariant sent == Bytes(pool.mem, chunks[..k]) && byteCount == |sent|
      {
        assert chunks[..k + 1][..k] == chunks[..k];
        var chunk := pool.mem[chunks[k]];
        sent := sent + chunk.data[..|chunk.data| - chunk.freeSize];
        byteCount := byteCount + |chunk.data| - chunk.freeSize;
      }
      assert chunks[..|chunks|] == chunks;
    }

    // -- The upload goroutine of block i -----------------------------------------------------------

    /** Block.Close with updateBlockInfo. */
    method CloseBlock(i: nat)
      requires Inv(View()) && Committing(View(), i) && blocks[i].status == READING
      modifies this`blocks, store`nextId
      ensures Inv(View()) && 1 <= i <= |content| && View() == WriterState.CloseBlock(old(View()), i, |content[i - 1]|)
    {
      hide Inv;
      ChunksOf(View(), i);
      StoreValid();
      var size := ChunksSize(blocks[i].chunks);
      var id := store.NewId();
      blocks := blocks[i := blocks[i].(status := UPLOADING, info := BlockInfo(id, size))];
      CloseBlockKeeps(old(View()), i, size);
    }

    /** Block.Upload by a stream: the chunks are sent one by one and their bytes counted. */
    method UploadBlock(i: nat, accepted: bool)
      requires reliable ==> accepted
      requires Inv(View()) && Committing(View(), i) && blocks[i].status == UPLOADING
      modifies this`blocks, store`data
      ensures Inv(View()) && 1 <= i <= |content|
      ensures View() == WriterState.UploadBlock(old(View()), i, content[i - 1], accepted)
    {
      hide Inv;
      ChunksOf(View(), i);
      StoreValid();
      var sent, byteCount := SendChunks(blocks[i].chunks);
      if byteCount != blocks[i].info.blockSize || !accepted {
        blocks := blocks[i := blocks[i].(status := FAILED)];
      } else {
        store.Put(blocks[i].info.blockId, sent);
        blocks := blocks[i := blocks[i].(status := FINISHED)];
      }
      UploadBlockKeeps(old(View()), i, accepted);
    }

    /** delFunc gives one chunk back, emptied; the channel always has room for it. */
    method ReleaseChunk(i: nat)
      requires Inv(View()) && Releasing(View(), i)
      modifies this`blocks, this`owner, pool
      ensures Inv(View()) && |old(pool.resources)| < pool.maxCount
      ensures old(blocks[i].chunks[blocks[i].released] in pool.mem) && View() == WriterState.ReleaseChunk(old(View()), i)
    {
      hide Inv;
      ReleaseChunkKeeps(View(), i);
      NotInPool(View(), i);
      var c := blocks[i].chunks[blocks[i].released];
      PoolValid();
      pool.mem := pool.mem[c := pool.mem[c].(freeSize := pool.chunkSize)];
      pool.Release(c);
      owner := owner[c := InPool];
      blocks := blocks[i := blocks[i].(released := blocks[i].released + 1)];
    }

    /** The next step of the goroutine of block i, whichever it is. */
    method UploadStep(i: nat, accepted: bool)
      requires reliable ==> accepted
      requires Inv(View()) && Committing(View(), i) && Left(View(), i) > 0
      modifies this`blocks, this`owner, pool, store
      ensures Inv(View()) && Meanwhile(old(View()), View()) && Left(View(), i) < Left(old(View()), i)
    {
      hide Inv, Meanwhile;
      if blocks[i].status == READING {
        CloseBlock(i);
        CloseBlockMeanwhile(old(View()), i, |content[i - 1]|);
      } else if blocks[i].status == UPLOADING {
        UploadBlock(i, accepted);
        UploadBlockMeanwhile(old(View()), i, content[i - 1], accepted);
      } else {
        ReleaseChunk(i);
        ReleaseChunkMeanwhile(old(View()), i);
      }
    }

    // -- Other writers and the scheduler -----------------------------------------------------------

    /** Another writer of the factory acquires, fills or gives back a chunk. */
    method OtherWriter(locked: bool)
      requires Inv(View())
      modifies this`owner, this`others, pool
      ensures Inv(View()) && Meanwhile(old(View()), View())
      ensures locked ==> others <= old(others)
    {
      hide Inv, Meanwhile;
      PoolValid();
      if * {
        if locked || pool.WouldBlock() {
          MeanwhileRefl(View());
        } else {
          var c := pool.Acquire();
          others, owner := others + {c}, owner[c := Foreign];
          if old(pool.curCount) < pool.maxCount {
            owner := old(owner)[old(pool.curCount) := InPool][c := Foreign];
          }
          AcquireView(old(View()), View(), c, true);
          AcquireKeeps(old(View()), true);
          ForeignAcquireMeanwhile(old(View()));
        }
      } else if others == {} {
        MeanwhileRefl(View());
      } else {
        var c :| c in others;
        ForeignOwner(View(), c);
        if * {
          var bytes, free := pool.mem[c].data, pool.mem[c].freeSize;
          if * {
            bytes := *;
            free := *;
            if !Chunk(bytes, free).Valid(pool.chunkSize) {
              bytes, free := pool.mem[c].data, pool.mem[c].freeSize;
            }
          }
          var chunk := Chunk(bytes, free);
          MemValid(c);
          pool.mem := pool.mem[c := chunk];
          ForeignWriteKeeps(old(View()), c, chunk);
          ForeignWriteMeanwhile(old(View()), c, chunk);
        } else {
          ForeignReleaseKeeps(View(), c);
          pool.mem := pool.mem[c := pool.mem[c].(freeSize := pool.chunkSize)];
          pool.Release(c);
          others, owner := others - {c}, owner[c := InPool];
          ForeignReleaseMeanwhile(old(View()), c);
        }
      }
    }

    /** Another client takes a block id, or stores a block under an id of its own. */
    method OtherUpload()
      requires Inv(View())
      modifies store
      ensures Inv(View()) && Meanwhile(old(View()), View())
    {
      hide Inv, Meanwhile;
      StoreValid();
      var id: BlockId, bytes: seq<byte> := *, *;
      if exists i :: i in blocks && blocks[i].status != READING && blocks[i].info.blockId == id {
        MeanwhileRefl(View());
        return;
      }
      ForeignPutMeanwhile(View(), id, bytes);
      if id < store.nextId {
        ForeignPutKeeps(View(), id, bytes);
        store.Put(id, bytes);
      } else {
        ForeignIdKeeps(View());
        var taken := store.NewId();
      }
    }

    /** Any number of steps of upload goroutines and other writers, in any order. */
    method Yield(locked: bool)
      requires Inv(View())
      modifies this`blocks, this`owner, this`others, pool, store
      ensures Inv(View()) && Meanwhile(old(View()), View())
      ensures locked ==> others <= old(others)
    {
      hide Inv, Meanwhile;
      MeanwhileRefl(View());
      var steps :| steps >= 0;
      for k := 0 to steps
        invariant Inv(View()) && Meanwhile(old(View()), View())
        invariant locked ==> others <= old(others)
      {
        ghost var before := View();
        if * {
          OtherWriter(locked);
        } else if * {
          OtherUpload();
        } else {
          var i: nat := *;
          if i in blocks && i !in received && blocks[i].StepsLeft() > 0 {
            var accepted: bool := *;
            UploadStep(i, accepted || reliable);
          } else {
            MeanwhileRefl(View());
          }
        }
        MeanwhileTrans(old(View()), before, View());
      }
    }

    /** All uploads run until they reach their send, interleaved with everything else. */
    method Drain(locked: bool)
      requires Inv(View())
      modifies this`blocks, this`owner, this`others, pool, store
      ensures Inv(View()) && Meanwhile(old(View()), View())
      ensures locked ==> others <= old(others)
      ensures forall i: nat :: i in blocks && i !in received ==> Left(View(), i) == 0
    {
      hide Inv, Meanwhile;
      MeanwhileRefl(View());
      var n := |blocks|;
      for i := 0 to n
        invariant Inv(View()) && Meanwhile(old(View()), View())
        invariant locked ==> others <= old(others)
        invariant received == old(received)
        invariant forall j: nat :: 1 <= j <= i && j !in received ==> Left(View(), j) == 0
      {
        while i + 1 in blocks && i + 1 !in received && blocks[i + 1].StepsLeft() > 0
          invariant Inv(View()) && Meanwhile(old(View()), View())
          invariant locked ==> others <= old(others)
          invariant received == old(received)
          invariant forall j: nat :: 1 <= j <= i && j !in received ==> Left(View(), j) == 0
          decreases Left(View(), i + 1)
        {
          ghost var before := View();
          var accepted: bool := *;
          UploadStep(i + 1, accepted || reliable);
          MeanwhileTrans(old(View()), before, View());
          MeanwhileLeft(before, View());
          ghost var middle := View();
          Yield(locked);
          MeanwhileTrans(old(View()), middle, View());
          MeanwhileLeft(middle, View());
        }
      }
      BlocksCount(View());
      MeanwhileKeys(old(View()), View());
    }

    // -- Taking chunks -------------------------------------------------------------------------------

    /** One Acquire of AcquireMultiple, which does not have to wait. */
    method AcquireOne()
      requires Inv(View()) && Held(View()) == 0 && !pool.WouldBlock()
      modifies this`acquiring, this`owner, pool
      ensures Inv(View()) && View() == WriterState.Acquire(old(View()), false)
    {
      PoolValid();
      hide Inv;
      var c := pool.Acquire();
      acquiring := acquiring + [c];
      owner := (if old(pool.curCount) < pool.maxCount then owner[old(pool.curCount) := InPool] else owner)[c := Acquired];
      AcquireView(old(View()), View(), c, false);
      AcquireKeeps(old(View()), false);
    }

    /** Others run; afterwards an Acquire would wait only if all its chances lie with other writers. */
    method WaitForChunk() returns (blocked: bool)
      requires Inv(View()) && Full(View()) && Held(View()) == 0 && curBlock.None?
      modifies this`blocks, this`owner, this`others, pool, store
      ensures Kept(old(View()), View()) && others <= old(others)
      ensures blocked == pool.WouldBlock()
      ensures blocked ==> |others| + |acquiring| == pool.maxCount
    {
      hide Inv, Full, Meanwhile, Written;
      Yield(true);
      if pool.WouldBlock() {
        ghost var before := View();
        Drain(true);
        MeanwhileTrans(old(View()), before, View());
      }
      MeanwhileKept(old(View()), View());
      blocked := pool.WouldBlock();
      if blocked {
        WaitingForOthers(View());
      }
    }

    /**
     * AcquireMultiple under the pool's lock. The writer holds no other chunk meanwhile. It
     * can only wait for good while other writers hold more than maxCount - count chunks.
     */
    method AcquireMultiple(count: nat) returns (err: WriteError)
      requires Inv(View()) && Full(View()) && status == READING && acquiring == [] && Held(View()) == 0 && curBlock.None?
      modifies this`acquiring, this`blocks, this`owner, this`others, pool, store
      ensures Inv(View()) && Full(View()) && Held(View()) == 0 && Taken() == old(Taken())
      ensures content == old(content) && received == old(received) && others <= old(others)
      ensures err == if count == 0 then ZeroSize else if |acquiring| == count then NoError else Blocked
      ensures |acquiring| <= count
      ensures err == Blocked ==> |others| + |acquiring| == pool.maxCount
    {
      hide Inv, Full, Written;
      if count == 0 { return ZeroSize; }
      for k := 0 to count
        invariant Inv(View()) && Full(View()) && status == READING && Held(View()) == 0 && curBlock.None? && |acquiring| == k
        invariant Taken() == old(Taken())
        invariant content == old(content) && received == old(received) && others <= old(others)
      {
        var blocked := WaitForChunk();
        if blocked { return Blocked; }
        ghost var ready := View();
        AcquireOne();
        AcquireAll(ready);
      }
      return NoError;
    }

    /** The first reserved chunk becomes the current one. */
    method UseReserve()
      requires Inv(View()) && Full(View()) && reserveChunks != [] && curChunk.None?
      modifies this`curChunk, this`reserveChunks, this`owner
      ensures Inv(View()) && Full(View()) && Taken() == old(Taken())
      ensures View() == TakeReserve(old(View()))
      ensures curChunk.value in pool.mem && pool.mem[curChunk.value].freeSize == pool.chunkSize > 0
    {
      hide Inv, Full, Written;
      TakeReserveAll(View());
      ReservedEmpty(View());
      curChunk := Some(reserveChunks[0]);
      owner := owner[reserveChunks[0] := Current];
      reserveChunks := if |reserveChunks| > 1 then reserveChunks[1..] else [];
      assert View() == TakeReserve(old(View()));
    }

    /** Ensures that there is a current chunk with room in it. */
    method GetCurChunk() returns (err: WriteError)
      requires Inv(View()) && Full(View()) && Open() && status == READING && acquiring == []
      modifies this`curChunk, this`reserveChunks, this`acquiring, this`blocks, this`owner, this`others, pool, store
      ensures Inv(View()) && Full(View()) && Open() && Taken() == old(Taken()) && others <= old(others)
      ensures err == NoError || err == ZeroSize || err == Blocked
      ensures err == NoError ==> curChunk.Some? && acquiring == []
      ensures err == ZeroSize ==> perBlock == 0 && acquiring == []
      ensures err == Blocked ==> |acquiring| < perBlock && |others| + |acquiring| == pool.maxCount
    {
      hide Inv, Full, Written;
      err := NoError;
      if curChunk.None? {
        if |reserveChunks| == 0 {
          EmptyHanded(View());
          err := AcquireMultiple(perBlock);
          if err != NoError { return; }
          ghost var got := View();
          reserveChunks, acquiring := acquiring, [];
          owner := map c | c in owner :: if owner[c] == Acquired then Reserved else owner[c];
          assert View() == Reserve(got);
          ReserveAll(got);
        }
        UseReserve();
      }
    }

    // -- Committing ------------------------------------------------------------------------------------

    /** Releases the first reserved chunk; the channel has room for it. */
    method ReleaseReserved()
      requires Inv(View()) && committing && reserveChunks != []
      modifies this`reserveChunks, this`owner, pool`resources
      ensures Inv(View()) && Taken() == old(Taken()) && |old(pool.resources)| < pool.maxCount
      ensures View() == WriterState.ReleaseReserved(old(View()))
    {
      hide Inv, Written;
      PoolValid();
      ReleaseReservedKeeps(View());
      var c := reserveChunks[0];
      pool.Release(c);
      owner := owner[c := InPool];
      reserveChunks := reserveChunks[1..];
    }

    /** Releases the whole reserve, while others run. */
    method GiveBackReserve(alone: bool)
      requires Inv(View()) && committing
      modifies this`reserveChunks, this`blocks, this`owner, this`others, pool, store
      ensures Inv(View()) && Taken() == old(Taken()) && reserveChunks == [] && (alone ==> others <= old(others))
    {
      hide Inv, Taken, Meanwhile;
      while reserveChunks != []
        invariant Inv(View()) && Taken() == old(Taken()) && (alone ==> others <= old(others))
        decreases |reserveChunks|
      {
        YieldKeeping(alone);
        ReleaseReserved();
      }
    }

    method YieldKeeping(alone: bool)
      requires Inv(View())
      modifies this`blocks, this`owner, this`others, pool, store
      ensures Inv(View()) && Taken() == old(Taken()) && (alone ==> others <= old(others))
    {
      hide Inv, Written, Meanwhile;
      Yield(alone);
      MeanwhileWritten(old(View()), View());
    }

    /** Gives the reserve back and hands the current block, if any, to an upload goroutine. */
    method CommitCurBlock(alone: bool)
      requires Inv(View()) && curChunk.None? && !committing
      modifies this`committing, this`reserveChunks, this`curBlock, this`blocks, this`owner, this`others, this`content, pool, store
      ensures Inv(View()) && Taken() == old(Taken()) && (alone ==> others <= old(others))
      ensures reserveChunks == [] && curBlock.None? && !committing
      ensures content == old(content) + (if old(curBlock).Some? then [Tail(old(View()))] else [])
    {
      hide Inv, Written;
      SetCommitting(View());
      committing := true;
      GiveBackReserve(alone);
      ghost var s := View();
      SameTail(old(View()), s);
      CommitBlock(s);
      if curBlock.Some? {
        blocks := blocks[blockCount := curBlock.value];
        content := content + [Bytes(pool.mem, curBlock.value.chunks)];
        curBlock := None;
      }
      assert View() == HandOver(s);
      EndCommitting(View());
      committing := false;
    }

    /** Moves the current chunk into the current block. */
    method AppendCurChunk()
      requires Inv(View()) && status == READING && !committing && curChunk.Some? && (curBlock.Some? ==> |curBlock.value.chunks| < perBlock)
      modifies this`curChunk, this`curBlock, this`blockCount, this`owner
      ensures Inv(View()) && Taken() == old(Taken()) && View() == AppendChunk(old(View()))
      ensures curBlock.Some? && |curBlock.value.chunks| <= perBlock
      ensures old(Full(View()) && CurrentFull(View())) ==> Full(View())
    {
      hide Inv, Written, Full;
      ghost var s := View();
      if curBlock.None? {
        blockCount := blockCount + 1;
        curBlock := Some(NEW_BLOCK);
      }
      curBlock := Some(curBlock.value.(chunks := curBlock.value.chunks + [curChunk.value]));
      owner := owner[curChunk.value := InBlock(blockCount)];
      curChunk := None;
      assert View() == AppendChunk(s);
      AppendAll(s);
    }

    /** Moves the current chunk into the current block, which is committed when it has all its chunks. */
    method CommitCurChunk(alone: bool)
      requires Inv(View()) && status == READING && !committing && (curBlock.Some? ==> |curBlock.value.chunks| < perBlock)
      modifies this`curChunk, this`committing, this`reserveChunks, this`curBlock, this`blockCount, this`blocks, this`owner, this`others, this`content, pool, store
      ensures Inv(View()) && Taken() == old(Taken()) && (alone ==> others <= old(others))
      ensures curChunk.None? && Open()
      ensures old(Full(View()) && CurrentFull(View())) ==> Full(View())
      ensures content == old(content) || (curBlock.None? && OneMore(old(content), content, perBlock * pool.chunkSize))
    {
      hide Inv, Written, Full;
      if curChunk.None? { return; }
      AppendCurChunk();
      if |curBlock.value.chunks| == perBlock {
        ghost var t := View();
        TailAtMost(t);
        CommitCurBlock(alone);
        CommittedFull(t, View());
      }
    }

    // -- Write and Close -----------------------------------------------------------------------------

    /** Between the turns of the loop of Write. */
    ghost predicate Ready()
      reads this, pool, store
    {
      Inv(View()) && Full(View()) && Open() && status == READING && acquiring == [] && received == {}
    }

    /** Copies what fits into the current chunk, and commits the chunk when it is full. */
    method CopyIn(p: seq<byte>, alone: bool) returns (n: nat)
      requires Ready() && curChunk.Some? && p != []
      modifies this`curChunk, this`committing, this`reserveChunks, this`curBlock, this`blockCount, this`blocks, this`owner, this`others, this`content, pool, store
      ensures alone ==> others <= old(others)
      ensures Ready() && 0 < n <= |p| && Taken() == old(Taken()) + p[..n]
    {
      hide Inv, Full, Written;
      ghost var s := View();
      var c := curChunk.value;
      MemValid(c);
      FillChunkWritten(s, p);
      var (chunk, k) := pool.mem[c].Fill(p);
      pool.mem := pool.mem[c := chunk];
      n := k;
      assert View() == FillChunk(s, chunk);
      FillFull(s, chunk);
      if chunk.freeSize == 0 {
        CommitCurChunk(alone);
      }
    }

    /** What a call that did not get its chunks leaves behind. */
    ghost predicate Starved(err: WriteError)
      reads this, pool, store
    {
      && Inv(View()) && Full(View()) && Open() && status == READING && received == {}
      && (err == ZeroSize || err == Blocked)
      && (err == ZeroSize ==> perBlock == 0 && acquiring == [])
      && (err == Blocked ==> |others| + perBlock > pool.maxCount)
    }

    /** One turn of the loop of Write. */
    method WriteSome(p: seq<byte>, alone: bool) returns (n: nat, err: WriteError)
      requires Ready() && p != []
      modifies this, pool, store
      ensures writeSize == old(writeSize) && (alone ==> others <= old(others))
      ensures if err == NoError then Ready() && 0 < n <= |p| && Taken() == old(Taken()) + p[..n]
              else Starved(err) && n == 0 && Taken() == old(Taken())
    {
      hide Inv, Full, Written, Meanwhile;
      n := 0;
      Yield(alone);
      MeanwhileKept(old(View()), View());
      err := GetCurChunk();
      if err == NoError {
        n := CopyIn(p, alone);
      }
    }

    method WriteAll(p: seq<byte>, alone: bool) returns (n: nat, err: WriteError)
      requires Ready()
      modifies this, pool, store
      ensures writeSize == old(writeSize) && (alone ==> others <= old(others))
      ensures n <= |p| && (if err == NoError then Ready() && n == |p| else Starved(err) && n < |p|)
      ensures Taken() == old(Taken()) + p[..n]
    {
      hide Inv, Full, Open, Taken;
      ghost var w := Taken();
      n, err := 0, NoError;
      while n < |p|
        invariant n <= |p| && Ready() && Taken() == w + p[..n]
        invariant err == NoError && writeSize == old(writeSize) && (alone ==> others <= old(others))
      {
        var k;
        k, err := WriteSome(p[n..], alone);
        if err != NoError { return; }
        assert w + p[..n] + p[n..][..k] == w + p[..n + k];
        n := n + k;
      }
    }

    /**
     * Appends p. All of it is written unless the bucket's blocks have no room for a chunk, or
     * the call waits for chunks that other writers hold. `alone` says that no other writer
     * acquires chunks during the call.
     */
    method Write(p: seq<byte>, alone: bool) returns (n: nat, err: WriteError)
      requires Valid()
      modifies this, pool, store
      ensures old(status) != READING ==> n == 0 && err == IllegalStatus && View() == old(View()) && Valid()
      ensures old(status) == READING ==> status == READING && (err == NoError || err == ZeroSize || err == Blocked)
      ensures alone ==> others <= old(others)
      ensures err == NoError ==> Valid() && n == |p| && Taken() == old(Taken()) + p
      ensures err == ZeroSize ==> Valid() && n == 0 && perBlock == 0 && Taken() == old(Taken())
      ensures err == Blocked ==> Inv(View()) && n < |p| && Taken() == old(Taken()) + p[..n]
                                 && |others| + perBlock > pool.maxCount
      ensures alone && old(others) == {} && 0 < perBlock <= pool.maxCount && old(status) == READING ==> err == NoError
    {
      if status != READING { return 0, IllegalStatus; }
      hide Inv, Full, Open, Written;
      n, err := WriteAll(p, alone);
      if err != NoError {
        NoWriteWithoutRoom(View());
      } else {
        assert p[..n] == p;
        writeSize := writeSize + n;
      }
    }

    /** commitCurChunk and commitCurBlock: nothing stays open, and there is at most one more block. */
    method CommitAll()
      requires Ready()
      modifies this`curChunk, this`committing, this`reserveChunks, this`curBlock, this`blockCount, this`blocks, this`owner, this`others, this`content, pool, store
      ensures Inv(View()) && NothingOpen(View()) && Taken() == old(Taken())
      ensures content == old(content) || OneMore(old(content), content, perBlock * pool.chunkSize)
    {
      hide Inv, Written, Full;
      CommitCurChunk(false);
      if curBlock.Some? {
        TailAtMost(View());
      }
      CommitCurBlock(false);
    }

    /** What is left is committed, and the writer takes no more. */
    method CommitRest()
      requires Ready()
      modifies this`status, this`curChunk, this`committing, this`reserveChunks, this`curBlock, this`blockCount, this`blocks, this`owner, this`others, this`content, pool, store
      ensures Inv(View()) && NothingOpen(View()) && status == UPLOADING
      ensures Flatten(content) == old(Taken()) && EvenBlocks(content, perBlock * pool.chunkSize)
    {
      hide Inv, Written, EvenBlocks, OneMore;
      CommitAll();
      CommitEven(old(View()), View());
      NothingOpenWritten(View());
      SetStatus(View(), UPLOADING);
      status := UPLOADING;
    }

    /** Close takes one completion from the channel, whichever comes first. */
    method ReceiveOne()
      requires Inv(View()) && |received| < |content|
      modifies this`blocks, this`owner, this`others, this`received, pool, store
      ensures Inv(View()) && |received| == old(|received|) + 1
    {
      hide Inv, Meanwhile;
      Yield(false);
      MeanwhileLeft(old(View()), View());
      var i: nat := *;
      if !(i in blocks && i !in received && blocks[i].StepsLeft() == 0) {
        ghost var before := View();
        Drain(false);
        MeanwhileLeft(before, View());
        SomeLeft(View());
        i :| i in blocks && i !in received;
        assert Left(View(), i) == 0;
      }
      ThroughMeansAtSend(View(), i);
      ReceiveKeeps(View(), i);
      received := received + {i};
    }

    /** All uploads are awaited, failed or not. */
    method AwaitUploads()
      requires Inv(View()) && NothingOpen(View()) && received == {}
      modifies this`blocks, this`owner, this`others, this`received, pool, store
      ensures Inv(View()) && received == blocks.Keys
    {
      OpenBlockCounted(View());
      hide Inv;
      for k := 0 to blockCount
        invariant Inv(View()) && |received| == k
      {
        ReceiveOne();
      }
      AllReceived(View());
    }

    /** genMeta collects the block infos by block number. */
    method GenMeta() returns (meta: ObjectMeta)
      requires Inv(View())
      ensures meta.objSize == writeSize && Lists(meta.blocks, View())
    {
      BlocksCount(View());
      hide Inv;
      var infos := [];
      for i := 1 to |blocks| + 1
        invariant |infos| == i - 1 && forall j: nat :: 1 <= j < i ==> infos[j - 1] == blocks[j].info
      {
        infos := infos + [blocks[i].info];
      }
      meta := ObjectMeta(writeSize, infos);
    }

    /** The part of Close after the uploads. */
    method CommitMeta(accepted: bool, ghost w: seq<byte>) returns (meta: ObjectMeta)
      requires Inv(View()) && NothingOpen(View()) && received == blocks.Keys && status == UPLOADING && writeSize == |w|
      requires Flatten(content) == w && EvenBlocks(content, perBlock * pool.chunkSize)
      modifies this`status
      ensures Inv(View()) && status == (if accepted then FINISHED else UPLOADING)
      ensures Delivered(meta, View(), w) && forall c :: c in pool.mem ==> c in pool.resources || c in others
    {
      hide Inv, EvenBlocks, Delivered;
      meta := GenMeta();
      if accepted {
        SetStatus(View(), FINISHED);
        status := FINISHED;
      }
      MetaDelivers(View(), meta, w);
      AllReturned(View());
    }

    /** Close on an open writer. */
    method Finish(accepted: bool) returns (meta: ObjectMeta)
      requires Ready() && writeSize == |Taken()|
      modifies this, pool, store
      ensures Inv(View()) && status == (if accepted then FINISHED else UPLOADING)
      ensures Delivered(meta, View(), old(Taken())) && forall c :: c in pool.mem ==> c in pool.resources || c in others
    {
      hide Inv, Full, Open, Taken, EvenBlocks, Delivered;
      ghost var w := Taken();
      CommitRest();
      AwaitUploads();
      meta := CommitMeta(accepted, w);
    }

    /**
     * Close returns when all uploads have ended. The committed metadata give back exactly what
     * was written if and only if no upload failed: a failed upload does not keep Close from
     * committing. All chunks of the writer are back in the pool.
     */
    method Close(accepted: bool) returns (meta: ObjectMeta, err: WriteError)
      requires Valid()
      modifies this, pool, store
      ensures err == if old(status) != READING then RepeatedClose else if accepted then NoError else MetaRejected
      ensures old(status) != READING ==> View() == old(View())
      ensures old(status) == READING ==>
                && Inv(View()) && status == (if accepted then FINISHED else UPLOADING)
                && Delivered(meta, View(), old(Taken()))
                && forall c :: c in pool.mem ==> c in pool.resources || c in others
    {
      hide Inv, Full, Open, Taken, Delivered;
      if status != READING { return ObjectMeta(0, []), RepeatedClose; }
      meta := Finish(accepted);
      err := if accepted then NoError else MetaRejected;
    }
  }
}
