/**
 * The data path on the writing side as one state: the chunk pool, the block servers, one
 * writer with its upload goroutines, and the chunks that other writers of the factory hold.
 * Each function is one atomic step of the program.
 */
module WriterState {
  import opened Basics
  import opened ChunkPool
  import opened BlockStore

  datatype Status = READING | UPLOADING | FAILED | FINISHED

  datatype Block = Block(
    chunks: seq<ChunkId>,
    released: nat,             // how many chunks delFunc has given back
    status: Status,
    info: BlockInfo
  )
  {
    function Unreleased(): seq<ChunkId> {
      if released <= |chunks| then chunks[released..] else []
    }

    function StepsLeft(): nat {
      |Unreleased()| + (match status case READING => 2 case UPLOADING => 1 case _ => 0)
    }
  }

  const NEW_BLOCK := Block([], 0, READING, BlockInfo(0, 0))

  /** Who holds a chunk. */
  datatype Place = InPool | Foreign | Acquired | Reserved | Current | InBlock(number: nat)

  datatype State = State(
    chunkSize: nat,
    maxCount: nat,
    perBlock: nat,                   // BlockSize / ChunkSize
    reliable: bool,                  // the servers accept every upload of this writer
    resources: seq<ChunkId>,         // the pool
    curCount: nat,
    mem: Memory,
    data: Blocks,                    // the block servers
    nextId: BlockId,
    status: Status,                  // the writer
    curChunk: Option<ChunkId>,
    reserve: seq<ChunkId>,
    acquiring: seq<ChunkId>,         // what AcquireMultiple has so far
    committing: bool,                // commitCurBlock is giving the reserve back
    curBlock: Option<Block>,
    blocks: map<nat, Block>,
    blockCount: nat,
    received: set<nat>,              // blocks whose completion Close has received
    others: set<ChunkId>,            // history: chunks that other writers hold,
    owner: map<ChunkId, Place>,      // who holds each chunk,
    content: seq<seq<byte>>          // and the bytes of each committed block
  )

  /** The chunks that block number i still holds. */
  function Holding(s: State, i: nat): seq<ChunkId> {
    if i in s.blocks then s.blocks[i].Unreleased()
    else if s.curBlock.Some? && i == s.blockCount then s.curBlock.value.chunks
    else []
  }

  // -- Invariants --------------------------------------------------------------------------------

  ghost predicate PoolOk(s: State) {
    && s.curCount <= s.maxCount
    && (forall c: nat :: c in s.mem <==> c < s.curCount)
    && (forall c :: c in s.mem ==> s.mem[c].Valid(s.chunkSize))
    && (forall c :: c in s.resources ==> c in s.mem && s.mem[c].freeSize == s.chunkSize)
  }

  ghost predicate Listed(s: State, list: seq<ChunkId>, place: Place) {
    Distinct(list) && forall c :: c in list ==> c in s.owner && s.owner[c] == place
  }

  ghost predicate Located(s: State, c: ChunkId)
    requires c in s.owner
  {
    match s.owner[c]
    case InPool => c in s.resources
    case Foreign => c in s.others
    case Acquired => c in s.acquiring
    case Reserved => c in s.reserve
    case Current => s.curChunk == Some(c)
    case InBlock(i) => c in Holding(s, i)
  }

  /** Every chunk the pool created is in exactly one place. */
  ghost predicate Owned(s: State) {
    && (forall c: nat :: c in s.owner <==> c < s.curCount)
    && (forall c :: c in s.owner ==> Located(s, c))
    && Listed(s, s.resources, InPool)
    && (forall c :: c in s.others ==> c in s.owner && s.owner[c] == Foreign)
    && Listed(s, s.acquiring, Acquired)
    && Listed(s, s.reserve, Reserved)
    && (s.curChunk.Some? ==> s.curChunk.value in s.owner && s.owner[s.curChunk.value] == Current)
    && (forall i: nat :: Listed(s, Holding(s, i), InBlock(i)))
  }

  ghost predicate HoldsBytes(s: State, cs: seq<ChunkId>, bytes: seq<byte>) {
    && (forall c :: c in cs ==> c in s.mem && s.mem[c].freeSize <= |s.mem[c].data|)
    && Bytes(s.mem, cs) == bytes
  }

  /** Block number i was committed with the bytes content[i - 1]. */
  ghost predicate Committed(s: State, i: nat)
    requires 1 <= i <= |s.content|
  {
    && i in s.blocks
    && var b, bytes := s.blocks[i], s.content[i - 1];
    && b.released <= |b.chunks| && b.chunks != []
    && (b.status == READING || b.status == UPLOADING ==> b.released == 0 && HoldsBytes(s, b.chunks, bytes))
    && (b.status != READING ==> b.info.blockSize == |bytes| && b.info.blockId < s.nextId)
    && (b.status == UPLOADING || b.status == FAILED ==> b.info.blockId !in s.data)
    && (b.status == FINISHED ==> b.info.blockId in s.data && s.data[b.info.blockId] == bytes)
    && (i in s.received ==> (b.status == FINISHED || b.status == FAILED) && b.released == |b.chunks|)
    && (s.reliable ==> b.status != FAILED)
  }

  ghost predicate IdsDiffer(s: State, i: nat, j: nat) {
    (i in s.blocks && j in s.blocks && s.blocks[i].status != READING && s.blocks[j].status != READING) ==>
      s.blocks[i].info.blockId != s.blocks[j].info.blockId
  }

  ghost predicate Uploads(s: State) {
    && (forall id :: id in s.data ==> id < s.nextId)
    && s.blockCount == |s.content| + (if s.curBlock.Some? then 1 else 0)
    && (forall i: nat :: i in s.blocks <==> 1 <= i <= |s.content|)
    && (forall i: nat :: 1 <= i <= |s.content| ==> Committed(s, i))
    && (forall i: nat, j: nat :: 1 <= i < j <= |s.content| ==> IdsDiffer(s, i, j))
    && (forall i :: i in s.received ==> 1 <= i <= |s.content|)
  }

  /** Acquired and reserved chunks are empty. */
  ghost predicate Filling(s: State) {
    && (forall c :: c in s.acquiring || c in s.reserve ==> c in s.mem && s.mem[c].freeSize == s.chunkSize)
    && (s.curChunk.Some? ==> s.curChunk.value in s.mem)
    && (s.curBlock.Some? ==>
          && s.curBlock.value.status == READING && s.curBlock.value.released == 0
          && 0 < |s.curBlock.value.chunks| <= s.perBlock
          && (forall c :: c in s.curBlock.value.chunks ==> c in s.mem))
  }

  function Held(s: State): nat {
    |s.reserve| + (if s.curChunk.Some? then 1 else 0) + (if s.curBlock.Some? then |s.curBlock.value.chunks| else 0)
  }

  /** Reserve, current chunk and current block together are what one AcquireMultiple brought. */
  ghost predicate Conserved(s: State) {
    s.status == READING && !s.committing ==> Held(s) == 0 || (Held(s) == s.perBlock && s.acquiring == [])
  }

  ghost predicate Inv(s: State) {
    s.chunkSize > 0 && PoolOk(s) && Owned(s) && Uploads(s) && Filling(s) && Conserved(s)
  }

  /** A writer that has not begun: every chunk of the pool is idle or with another writer. */
  ghost predicate New(s: State) {
    && s.chunkSize > 0 && PoolOk(s) && Distinct(s.resources) && (forall id :: id in s.data ==> id < s.nextId)
    && s.status == READING && s.curChunk.None? && s.reserve == [] && s.acquiring == [] && !s.committing
    && s.curBlock.None? && s.blocks == map[] && s.blockCount == 0 && s.received == {} && s.content == []
    && s.others == (set c | c in s.mem && c !in s.resources)
    && s.owner == (map c | c in s.mem :: if c in s.resources then InPool else Foreign)
  }

  lemma NewKeeps(s: State)
    requires New(s)
    ensures Inv(s) && Full(s) && Written(s) == []
  {
  }

  // -- Steps of the upload goroutine of block i ----------------------------------------------------

  predicate Committing(s: State, i: nat) {
    i in s.blocks && i !in s.received
  }

  /** Block.Close: a fresh id and the size of the content. */
  function CloseBlock(s: State, i: nat, size: nat): State
    requires Committing(s, i)
  {
    s.(nextId := s.nextId + 1,
       blocks := s.blocks[i := s.blocks[i].(status := UPLOADING, info := BlockInfo(s.nextId, size))])
  }

  /** Block.Upload: the servers have the bytes, or the upload failed. */
  function UploadBlock(s: State, i: nat, bytes: seq<byte>, ok: bool): State
    requires Committing(s, i)
  {
    if ok then
      s.(data := s.data[s.blocks[i].info.blockId := bytes],
         blocks := s.blocks[i := s.blocks[i].(status := FINISHED)])
    else
      s.(blocks := s.blocks[i := s.blocks[i].(status := FAILED)])
  }

  /** delFunc, one chunk. */
  function ReleaseChunk(s: State, i: nat): State
    requires Committing(s, i) && s.blocks[i].released < |s.blocks[i].chunks|
    requires s.blocks[i].chunks[s.blocks[i].released] in s.mem
  {
    var c := s.blocks[i].chunks[s.blocks[i].released];
    s.(mem := s.mem[c := s.mem[c].(freeSize := s.chunkSize)],
       resources := s.resources + [c],
       owner := s.owner[c := InPool],
       blocks := s.blocks[i := s.blocks[i].(released := s.blocks[i].released + 1)])
  }

  lemma CloseBlockUploads(s: State, i: nat, size: nat)
    requires Uploads(s) && Committing(s, i) && s.blocks[i].status == READING && size == |s.content[i - 1]|
    ensures Uploads(CloseBlock(s, i, size))
  {
    var t := CloseBlock(s, i, size);
    forall j: nat | 1 <= j <= |t.content| ensures Committed(t, j) {
      assert Committed(s, j);
    }
    forall j: nat, k: nat | 1 <= j < k <= |t.content| ensures IdsDiffer(t, j, k) {
      assert IdsDiffer(s, j, k) && Committed(s, j) && Committed(s, k);
    }
  }

  lemma CloseBlockKeeps(s: State, i: nat, size: nat)
    requires Inv(s) && Committing(s, i) && s.blocks[i].status == READING && size == |s.content[i - 1]|
    ensures Inv(CloseBlock(s, i, size))
  {
    hide Owned, Uploads, Filling, PoolOk;
    CloseBlockUploads(s, i, size);
    OwnedSameHolding(s, CloseBlock(s, i, size));
    StatusFrame(s, CloseBlock(s, i, size));
  }

  lemma UploadBlockCommitted(s: State, i: nat, ok: bool, j: nat)
    requires s.reliable ==> ok
    requires Uploads(s) && Committing(s, i) && s.blocks[i].status == UPLOADING && 1 <= j <= |s.content|
    ensures Committed(UploadBlock(s, i, s.content[i - 1], ok), j)
  {
    hide Bytes;
    assert Committed(s, i) && Committed(s, j);
    if j != i {
      assert IdsDiffer(s, Min(i, j), Max(i, j));
      hide Uploads;
      OtherCommitted(s, i, ok, j);
    }
  }

  /** An upload leaves the other blocks alone, because their ids are different. */
  lemma OtherCommitted(s: State, i: nat, ok: bool, j: nat)
    requires 1 <= i <= |s.content| && 1 <= j <= |s.content| && i != j && Committed(s, j) && Committing(s, i)
    requires s.blocks[i].status != READING && (IdsDiffer(s, i, j) || IdsDiffer(s, j, i))
    ensures Committed(UploadBlock(s, i, s.content[i - 1], ok), j)
  {
    hide Bytes;
  }

  lemma UploadBlockUploads(s: State, i: nat, ok: bool)
    requires s.reliable ==> ok
    requires Uploads(s) && Committing(s, i) && s.blocks[i].status == UPLOADING
    ensures Uploads(UploadBlock(s, i, s.content[i - 1], ok))
  {
    hide Committed;
    var t := UploadBlock(s, i, s.content[i - 1], ok);
    CommittedId(s, i);
    forall j: nat | 1 <= j <= |t.content| ensures Committed(t, j) {
      UploadBlockCommitted(s, i, ok, j);
    }
    forall j: nat, k: nat | 1 <= j < k <= |t.content| ensures IdsDiffer(t, j, k) {
      assert IdsDiffer(s, j, k);
    }
  }

  lemma UploadBlockKeeps(s: State, i: nat, ok: bool)
    requires s.reliable ==> ok
    requires Inv(s) && Committing(s, i) && s.blocks[i].status == UPLOADING
    ensures 1 <= i <= |s.content| && Inv(UploadBlock(s, i, s.content[i - 1], ok))
  {
    hide Owned, Uploads, Filling, PoolOk;
    BlockNumber(s, i);
    UploadBlockUploads(s, i, ok);
    OwnedSameHolding(s, UploadBlock(s, i, s.content[i - 1], ok));
    StatusFrame(s, UploadBlock(s, i, s.content[i - 1], ok));
  }

  /** The pool and what is being filled do not depend on the committed blocks. */
  lemma StatusFrame(s: State, t: State)
    requires PoolOk(s) && Filling(s) && t == s.(data := t.data, nextId := t.nextId, blocks := t.blocks)
    ensures PoolOk(t) && Filling(t)
  {
  }

  lemma CommittedId(s: State, i: nat)
    requires Uploads(s) && i in s.blocks && s.blocks[i].status != READING
    ensures s.blocks[i].info.blockId < s.nextId
  {
    assert Committed(s, i);
  }

  /** Steps that move no chunk keep the ownership. */
  lemma OwnedSameHolding(s: State, t: State)
    requires Owned(s) && s.curCount == t.curCount && s.owner == t.owner && s.resources == t.resources
    requires s.others == t.others && s.acquiring == t.acquiring && s.reserve == t.reserve && s.curChunk == t.curChunk
    requires forall i: nat :: Holding(t, i) == Holding(s, i)
    ensures Owned(t)
  {
    forall c | c in t.owner ensures Located(t, c) {
      assert Located(s, c);
    }
    forall i: nat ensures Listed(t, Holding(t, i), InBlock(i)) {
      assert Listed(s, Holding(s, i), InBlock(i));
    }
  }

  // -- Releasing a chunk of a finished block -------------------------------------------------------

  predicate Releasing(s: State, i: nat) {
    && Committing(s, i) && (s.blocks[i].status == FINISHED || s.blocks[i].status == FAILED)
    && s.blocks[i].released < |s.blocks[i].chunks|
  }

  lemma ReleasedChunk(s: State, i: nat)
    requires PoolOk(s) && Owned(s) && Releasing(s, i)
    ensures var c := s.blocks[i].chunks[s.blocks[i].released];
            && c in s.mem && c in s.owner && s.owner[c] == InBlock(i) && Holding(s, i)[0] == c
            && c !in s.resources && |s.resources| < s.maxCount
  {
    var c := s.blocks[i].chunks[s.blocks[i].released];
    assert Holding(s, i)[0] == c && c in Holding(s, i);
    assert Listed(s, Holding(s, i), InBlock(i));
    assert Listed(s, s.resources, InPool);
    Pigeonhole(s.resources, s.curCount, c);
  }

  lemma NotInPool(s: State, i: nat)
    requires Inv(s) && Releasing(s, i)
    ensures s.blocks[i].chunks[s.blocks[i].released] !in s.resources
  {
    ReleasedChunk(s, i);
  }

  lemma ReleaseChunkOwned(s: State, i: nat)
    requires PoolOk(s) && Owned(s) && Releasing(s, i)
    requires s.blocks[i].chunks[s.blocks[i].released] in s.mem
    ensures Owned(ReleaseChunk(s, i))
  {
    ReleasedChunk(s, i);
    var t := ReleaseChunk(s, i);
    assert Holding(t, i) == Holding(s, i)[1..];
    assert Listed(s, Holding(s, i), InBlock(i));
    forall d | d in t.owner ensures Located(t, d) {
      assert Located(s, d);
      ReleaseChunkLocated(s, i, d);
    }
    hide Located;
    forall j: nat ensures Listed(t, Holding(t, j), InBlock(j)) {
      assert Listed(s, Holding(s, j), InBlock(j));
    }
  }

  lemma ReleaseChunkLocated(s: State, i: nat, d: ChunkId)
    requires Releasing(s, i) && s.blocks[i].chunks[s.blocks[i].released] in s.mem && d in s.owner && Located(s, d)
    ensures Located(ReleaseChunk(s, i), d)
  {
    var c, t := s.blocks[i].chunks[s.blocks[i].released], ReleaseChunk(s, i);
    assert Holding(s, i)[0] == c && Holding(t, i) == Holding(s, i)[1..];
    if d != c && s.owner[d] == InBlock(i) {
      var k :| 0 <= k < |Holding(s, i)| && Holding(s, i)[k] == d;
      assert Holding(t, i)[k - 1] == d;
    }
  }

  /** A committed block whose chunks were not touched stays as it is. */
  lemma CommittedFrame(s: State, t: State, j: nat)
    requires 1 <= j <= |s.content| && Committed(s, j)
    requires j <= |t.content| && t.content[j - 1] == s.content[j - 1]
    requires j in t.blocks && t.blocks[j] == s.blocks[j] && (j in t.received ==> j in s.received)
    requires t.data == s.data && t.nextId == s.nextId && t.reliable == s.reliable
    requires s.blocks[j].status == READING || s.blocks[j].status == UPLOADING ==>
               forall c :: c in s.blocks[j].chunks ==> c in t.mem && t.mem[c] == s.mem[c]
    ensures Committed(t, j)
  {
    if s.blocks[j].status == READING || s.blocks[j].status == UPLOADING {
      BytesFrame(s.mem, t.mem, s.blocks[j].chunks);
    }
  }

  /** Steps that leave the blocks alone and change no chunk of an unfinished one. */
  lemma UploadsFrame(s: State, t: State)
    requires Owned(s) && Uploads(s)
    requires t.blocks == s.blocks && t.content == s.content && t.received == s.received && t.data == s.data
    requires t.nextId == s.nextId && t.curBlock == s.curBlock && t.blockCount == s.blockCount && t.reliable == s.reliable
    requires forall c :: c in s.owner && s.owner[c].InBlock? && c in s.mem ==> c in t.mem && t.mem[c] == s.mem[c]
    ensures Uploads(t)
  {
    forall j: nat | 1 <= j <= |t.content| ensures Committed(t, j) {
      assert Committed(s, j);
      UnreleasedOwned(s, j);
      CommittedFrame(s, t, j);
    }
    forall j: nat, k: nat | 1 <= j < k <= |t.content| ensures IdsDiffer(t, j, k) {
      assert IdsDiffer(s, j, k);
    }
  }

  lemma UnreleasedOwned(s: State, j: nat)
    requires Owned(s) && j in s.blocks
    ensures s.blocks[j].released == 0 ==>
              forall c :: c in s.blocks[j].chunks ==> c in s.owner && s.owner[c] == InBlock(j)
  {
    assert Listed(s, Holding(s, j), InBlock(j));
    assert s.blocks[j].chunks[0..] == s.blocks[j].chunks;
  }

  lemma ReleaseChunkUploads(s: State, i: nat)
    requires PoolOk(s) && Owned(s) && Uploads(s) && Releasing(s, i)
    requires s.blocks[i].chunks[s.blocks[i].released] in s.mem
    ensures Uploads(ReleaseChunk(s, i))
  {
    var t := ReleaseChunk(s, i);
    ReleasedChunk(s, i);
    forall j: nat | 1 <= j <= |t.content| ensures Committed(t, j) {
      assert Committed(s, j);
      if j != i {
        UnreleasedOwned(s, j);
        CommittedFrame(s, t, j);
      }
    }
    forall j: nat, k: nat | 1 <= j < k <= |t.content| ensures IdsDiffer(t, j, k) {
      assert IdsDiffer(s, j, k);
    }
  }

  lemma ReleaseChunkKeeps(s: State, i: nat)
    requires Inv(s) && Releasing(s, i)
    ensures s.blocks[i].chunks[s.blocks[i].released] in s.mem && |s.resources| < s.maxCount
    ensures Inv(ReleaseChunk(s, i))
  {
    hide Owned, Uploads, Filling, PoolOk;
    ReleasedChunk(s, i);
    ReleaseChunkOwned(s, i);
    ReleaseChunkUploads(s, i);
    ReleaseChunkPool(s, i);
    FillingFrame(s, ReleaseChunk(s, i));
  }

  lemma ReleaseChunkPool(s: State, i: nat)
    requires PoolOk(s) && Releasing(s, i) && s.blocks[i].chunks[s.blocks[i].released] in s.mem
    ensures PoolOk(ReleaseChunk(s, i))
  {
  }

  /** Steps that leave the writer's own fields and chunks alone. */
  lemma FillingFrame(s: State, t: State)
    requires Owned(s) && Filling(s) && t.chunkSize == s.chunkSize && t.perBlock == s.perBlock
    requires t.acquiring == s.acquiring && t.reserve == s.reserve && t.curChunk == s.curChunk && t.curBlock == s.curBlock
    requires forall c :: c in s.mem ==> c in t.mem
    requires forall c :: c in s.mem && c in s.owner && (s.owner[c].Acquired? || s.owner[c].Reserved?) ==> t.mem[c] == s.mem[c]
    ensures Filling(t)
  {
  }

  // -- Taking chunks from the pool -----------------------------------------------------------------

  predicate WouldBlock(s: State) {
    s.resources == [] && s.curCount >= s.maxCount
  }

  /** The first half of Acquire: a new chunk while the limit allows. */
  function Grow(s: State): State {
    if s.curCount < s.maxCount then
      s.(mem := s.mem[s.curCount := EmptyChunk(s.chunkSize)],
         resources := s.resources + [s.curCount],
         owner := s.owner[s.curCount := InPool],
         curCount := s.curCount + 1)
    else s
  }

  /** The second half, for this writer or for another one. */
  function Take(s: State, foreign: bool): State
    requires s.resources != []
  {
    var c := s.resources[0];
    if foreign then
      s.(resources := s.resources[1..], others := s.others + {c}, owner := s.owner[c := Foreign])
    else
      s.(resources := s.resources[1..], acquiring := s.acquiring + [c], owner := s.owner[c := Acquired])
  }

  function Acquire(s: State, foreign: bool): State
    requires !WouldBlock(s)
  {
    Take(Grow(s), foreign)
  }

  lemma GrowLocated(s: State, c: ChunkId)
    requires Owned(s) && s.curCount < s.maxCount && c in Grow(s).owner
    ensures Located(Grow(s), c)
  {
    var t := Grow(s);
    if c == s.curCount {
      assert t.resources[|s.resources|] == c;
    } else {
      assert Located(s, c);
      assert forall i: nat :: Holding(t, i) == Holding(s, i);
      hide Holding, EmptyChunk;
    }
  }

  lemma GrowOwned(s: State)
    requires Owned(s)
    ensures Owned(Grow(s))
  {
    if s.curCount < s.maxCount {
      var t, n := Grow(s), s.curCount;
      assert n !in s.owner && n !in s.resources;
      assert forall i: nat :: Holding(t, i) == Holding(s, i);
      hide Holding, EmptyChunk, Located;
      forall c | c in t.owner ensures Located(t, c) {
        GrowLocated(s, c);
      }
      forall i: nat ensures Listed(t, Holding(t, i), InBlock(i)) {
        assert Listed(s, Holding(s, i), InBlock(i));
      }
    }
  }

  lemma GrowPool(s: State)
    requires PoolOk(s)
    ensures PoolOk(Grow(s)) && forall c :: c in s.mem ==> c in Grow(s).mem && Grow(s).mem[c] == s.mem[c]
  {
  }

  lemma GrowKeeps(s: State)
    requires Inv(s)
    ensures Inv(Grow(s))
  {
    hide Owned, Uploads, Filling, PoolOk;
    GrowOwned(s);
    GrowPool(s);
    UploadsFrame(s, Grow(s));
    FillingFrame(s, Grow(s));
  }

  lemma TakeOwned(s: State, foreign: bool)
    requires Owned(s) && s.resources != []
    ensures Owned(Take(s, foreign))
  {
    var t, c := Take(s, foreign), s.resources[0];
    assert c in s.resources;
    forall d | d in t.owner ensures Located(t, d) {
      assert Located(s, d);
      if d != c && s.owner[d] == InPool {
        var k :| 0 <= k < |s.resources| && s.resources[k] == d;
        assert t.resources[k - 1] == d;
      }
    }
    forall i: nat ensures Listed(t, Holding(t, i), InBlock(i)) {
      assert Listed(s, Holding(s, i), InBlock(i));
    }
  }

  lemma TakeKeeps(s: State, foreign: bool)
    requires Inv(s) && s.resources != [] && (foreign || Held(s) == 0)
    ensures Inv(Take(s, foreign))
  {
    hide Owned, Uploads, Filling, PoolOk;
    TakeOwned(s, foreign);
    UploadsFrame(s, Take(s, foreign));
    TakePool(s, foreign);
  }

  lemma TakePool(s: State, foreign: bool)
    requires PoolOk(s) && Filling(s) && s.resources != []
    ensures PoolOk(Take(s, foreign)) && Filling(Take(s, foreign))
  {
    var t, c := Take(s, foreign), s.resources[0];
    assert c in s.resources;
    assert forall d :: d in t.resources ==> d in s.resources;
    assert forall d :: d in t.acquiring ==> d in s.acquiring || d == c;
  }

  lemma AcquireKeeps(s: State, foreign: bool)
    requires Inv(s) && !WouldBlock(s) && (foreign || Held(s) == 0)
    ensures Inv(Acquire(s, foreign))
  {
    hide Inv;
    GrowKeeps(s);
    TakeKeeps(Grow(s), foreign);
  }

  // -- Other writers ---------------------------------------------------------------------------------

  function ForeignWrite(s: State, c: ChunkId, chunk: Chunk): State {
    s.(mem := s.mem[c := chunk])
  }

  function ForeignRelease(s: State, c: ChunkId): State
    requires c in s.mem
  {
    s.(mem := s.mem[c := s.mem[c].(freeSize := s.chunkSize)], resources := s.resources + [c],
       others := s.others - {c}, owner := s.owner[c := InPool])
  }

  lemma OthersOwner(s: State, c: ChunkId)
    requires PoolOk(s) && Owned(s) && c in s.others
    ensures c in s.owner && s.owner[c] == Foreign && c in s.mem && c !in s.resources && |s.resources| < s.maxCount
  {
    Pigeonhole(s.resources, s.curCount, c);
  }

  lemma ForeignOwner(s: State, c: ChunkId)
    requires Inv(s) && c in s.others
    ensures c in s.owner && s.owner[c] == Foreign && c in s.mem && c !in s.resources && |s.resources| < s.maxCount
  {
    OthersOwner(s, c);
  }

  lemma ForeignWriteKeeps(s: State, c: ChunkId, chunk: Chunk)
    requires Inv(s) && c in s.others && chunk.Valid(s.chunkSize)
    ensures Inv(ForeignWrite(s, c, chunk))
  {
    hide Owned, Uploads, Filling;
    OthersOwner(s, c);
    var t := ForeignWrite(s, c, chunk);
    assert forall i: nat :: Holding(t, i) == Holding(s, i);
    OwnedSameHolding(s, t);
    UploadsFrame(s, t);
    FillingFrame(s, t);
  }

  lemma ForeignReleaseOwned(s: State, c: ChunkId)
    requires PoolOk(s) && Owned(s) && c in s.others && c in s.mem
    ensures Owned(ForeignRelease(s, c))
  {
    var t := ForeignRelease(s, c);
    forall d | d in t.owner ensures Located(t, d) {
      assert Located(s, d);
    }
    forall i: nat ensures Listed(t, Holding(t, i), InBlock(i)) {
      assert Listed(s, Holding(s, i), InBlock(i));
    }
  }

  lemma ForeignReleaseKeeps(s: State, c: ChunkId)
    requires Inv(s) && c in s.others
    ensures c in s.mem && |s.resources| < s.maxCount && Inv(ForeignRelease(s, c))
  {
    hide Owned, Uploads, Filling;
    OthersOwner(s, c);
    var t := ForeignRelease(s, c);
    ForeignReleaseOwned(s, c);
    UploadsFrame(s, t);
    FillingFrame(s, t);
  }

  /** The block has an id of this writer. */
  predicate MyId(s: State, id: BlockId) {
    exists i :: i in s.blocks && s.blocks[i].status != READING && s.blocks[i].info.blockId == id
  }

  /** Another writer takes an id. */
  function ForeignId(s: State): State {
    s.(nextId := s.nextId + 1)
  }

  /** Another writer stores a block under an id of its own. */
  function ForeignPut(s: State, id: BlockId, bytes: seq<byte>): State {
    s.(data := s.data[id := bytes])
  }

  lemma ForeignPutCommitted(s: State, id: BlockId, bytes: seq<byte>, j: nat)
    requires Uploads(s) && id < s.nextId && !MyId(s, id) && 1 <= j <= |s.content|
    ensures Committed(ForeignPut(s, id, bytes), j)
  {
    hide Bytes;
    assert Committed(s, j);
    assert s.blocks[j].status != READING ==> s.blocks[j].info.blockId != id;
  }

  lemma ForeignPutKeeps(s: State, id: BlockId, bytes: seq<byte>)
    requires Inv(s) && id < s.nextId && !MyId(s, id)
    ensures Inv(ForeignPut(s, id, bytes))
  {
    hide Owned, Filling, PoolOk, MyId, Committed, IdsDiffer;
    var t := ForeignPut(s, id, bytes);
    forall j: nat | 1 <= j <= |t.content| ensures Committed(t, j) {
      ForeignPutCommitted(s, id, bytes, j);
    }
    forall j: nat, k: nat | 1 <= j < k <= |t.content| ensures IdsDiffer(t, j, k) {
      assert IdsDiffer(s, j, k);
      DifferFrame(s, t, j, k);
    }
    hide Uploads;
    OwnedSameHolding(s, t);
    StatusFrame(s, t);
  }

  lemma DifferFrame(s: State, t: State, j: nat, k: nat)
    requires IdsDiffer(s, j, k) && t.blocks == s.blocks
    ensures IdsDiffer(t, j, k)
  {
  }

  lemma ForeignIdKeeps(s: State)
    requires Inv(s)
    ensures Inv(ForeignId(s))
  {
    hide Owned, Filling, PoolOk, IdsDiffer, Bytes;
    var t := ForeignId(s);
    forall j: nat | 1 <= j <= |t.content| ensures Committed(t, j) {
      assert Committed(s, j);
    }
    forall j: nat, k: nat | 1 <= j < k <= |t.content| ensures IdsDiffer(t, j, k) {
      assert IdsDiffer(s, j, k);
      DifferFrame(s, t, j, k);
    }
    hide Uploads;
    OwnedSameHolding(s, t);
    StatusFrame(s, t);
  }

  // -- The writer's own steps --------------------------------------------------------------------

  /** getCurChunk: what AcquireMultiple returned becomes the reserve. */
  function Reserve(s: State): State {
    s.(reserve := s.acquiring, acquiring := [],
       owner := map c | c in s.owner :: if s.owner[c] == Acquired then Reserved else s.owner[c])
  }

  /** getCurChunk: the first reserved chunk becomes the current one. */
  function TakeReserve(s: State): State
    requires s.reserve != []
  {
    s.(curChunk := Some(s.reserve[0]), reserve := s.reserve[1..], owner := s.owner[s.reserve[0] := Current])
  }

  /** The copy of Write into the current chunk. */
  function FillChunk(s: State, chunk: Chunk): State
    requires s.curChunk.Some?
  {
    s.(mem := s.mem[s.curChunk.value := chunk])
  }

  /** commitCurBlock, first: the reserve goes back to the pool, one chunk at a time. */
  function ReleaseReserved(s: State): State
    requires s.reserve != []
  {
    s.(resources := s.resources + [s.reserve[0]], reserve := s.reserve[1..], owner := s.owner[s.reserve[0] := InPool])
  }

  /** commitCurBlock, second: the current block, if any, is handed to its goroutine. */
  ghost function HandOver(s: State): State
    requires PoolOk(s) && Filling(s)
  {
    if s.curBlock.None? then s
    else s.(blocks := s.blocks[s.blockCount := s.curBlock.value], curBlock := None,
            content := s.content + [Bytes(s.mem, s.curBlock.value.chunks)])
  }

  /** commitCurChunk up to the call of commitCurBlock: the current chunk joins the current block. */
  function AppendChunk(s: State): State
    requires s.curChunk.Some?
  {
    var count := if s.curBlock.None? then s.blockCount + 1 else s.blockCount;
    var block := if s.curBlock.None? then NEW_BLOCK else s.curBlock.value;
    s.(curBlock := Some(block.(chunks := block.chunks + [s.curChunk.value])), blockCount := count,
       curChunk := None, owner := s.owner[s.curChunk.value := InBlock(count)])
  }

  lemma ReserveOwned(s: State)
    requires Owned(s) && s.reserve == []
    ensures Owned(Reserve(s))
  {
    var t := Reserve(s);
    forall c | c in t.owner ensures Located(t, c) {
      assert Located(s, c);
    }
    forall i: nat ensures Listed(t, Holding(t, i), InBlock(i)) {
      assert Listed(s, Holding(s, i), InBlock(i));
    }
  }

  lemma ReserveKeeps(s: State)
    requires Inv(s) && Held(s) == 0 && |s.acquiring| == s.perBlock
    ensures Inv(Reserve(s))
  {
    hide Owned, Uploads;
    ReserveOwned(s);
    UploadsFrame(s, Reserve(s));
  }

  lemma TakeReserveOwned(s: State)
    requires Owned(s) && s.reserve != [] && s.curChunk.None?
    ensures Owned(TakeReserve(s)) && s.reserve[0] in s.owner && s.owner[s.reserve[0]] == Reserved
  {
    var t, c := TakeReserve(s), s.reserve[0];
    assert c in s.reserve;
    forall d | d in t.owner ensures Located(t, d) {
      assert Located(s, d);
      if d != c && s.owner[d] == Reserved {
        var k :| 0 <= k < |s.reserve| && s.reserve[k] == d;
        assert t.reserve[k - 1] == d;
      }
    }
    forall i: nat ensures Listed(t, Holding(t, i), InBlock(i)) {
      assert Listed(s, Holding(s, i), InBlock(i));
    }
  }

  lemma TakeReserveKeeps(s: State)
    requires Inv(s) && s.reserve != [] && s.curChunk.None?
    ensures Inv(TakeReserve(s))
  {
    hide Owned, Uploads;
    TakeReserveOwned(s);
    UploadsFrame(s, TakeReserve(s));
    assert s.reserve[0] in s.reserve;
  }

  lemma CurrentOwner(s: State)
    requires Owned(s) && s.curChunk.Some?
    ensures var c := s.curChunk.value;
            c in s.owner && s.owner[c] == Current && c !in s.resources && c !in s.acquiring && c !in s.reserve
  {
  }

  lemma FillChunkKeeps(s: State, chunk: Chunk)
    requires Inv(s) && s.curChunk.Some? && chunk.Valid(s.chunkSize)
    ensures Inv(FillChunk(s, chunk))
  {
    hide Owned, Uploads, Filling;
    CurrentOwner(s);
    var t := FillChunk(s, chunk);
    assert forall i: nat :: Holding(t, i) == Holding(s, i);
    OwnedSameHolding(s, t);
    UploadsFrame(s, t);
    assert s.curChunk.value in s.mem by { CurrentInMem(s); }
    FillingFrame(s, t);
  }

  lemma CurrentInMem(s: State)
    requires Filling(s) && s.curChunk.Some?
    ensures s.curChunk.value in s.mem
  {
  }

  lemma AppendChunkOwned(s: State)
    requires Owned(s) && Uploads(s) && s.curChunk.Some?
    ensures Owned(AppendChunk(s))
  {
    var t, c := AppendChunk(s), s.curChunk.value;
    var n := t.blockCount;
    assert n !in s.blocks;
    assert Holding(t, n) == Holding(s, n) + [c];
    assert Listed(s, Holding(s, n), InBlock(n));
    forall d | d in t.owner ensures Located(t, d) {
      assert Located(s, d);
    }
    forall i: nat ensures Listed(t, Holding(t, i), InBlock(i)) {
      assert Listed(s, Holding(s, i), InBlock(i));
    }
  }

  lemma AppendChunkUploads(s: State)
    requires Owned(s) && Uploads(s) && s.curChunk.Some?
    ensures Uploads(AppendChunk(s))
  {
    var t := AppendChunk(s);
    forall j: nat | 1 <= j <= |t.content| ensures Committed(t, j) {
      assert Committed(s, j);
      CommittedFrame(s, t, j);
    }
    forall j: nat, k: nat | 1 <= j < k <= |t.content| ensures IdsDiffer(t, j, k) {
      assert IdsDiffer(s, j, k);
    }
  }

  lemma AppendChunkKeeps(s: State)
    requires Inv(s) && s.status == READING && !s.committing && s.curChunk.Some?
    ensures Inv(AppendChunk(s))
  {
    hide Owned, Uploads;
    AppendChunkOwned(s);
    AppendChunkUploads(s);
  }

  /** The reserve fits into the channel. */
  lemma ReserveFits(s: State)
    requires PoolOk(s) && Owned(s)
    ensures Distinct(s.resources + s.reserve) && |s.resources + s.reserve| <= s.maxCount
  {
    DistinctConcat(s.resources, s.reserve);
    var all := s.resources + s.reserve;
    DistinctSize(all);
    BelowSize(s.curCount);
    assert ToSet(all) <= Below(s.curCount);
    SubsetSize(ToSet(all), Below(s.curCount));
  }

  lemma ReleaseReservedOwned(s: State)
    requires PoolOk(s) && Owned(s) && s.reserve != []
    ensures Owned(ReleaseReserved(s))
  {
    var t, c := ReleaseReserved(s), s.reserve[0];
    assert c in s.reserve;
    ReserveFits(s);
    assert t.resources == (s.resources + s.reserve)[..|s.resources| + 1];
    forall d | d in t.owner ensures Located(t, d) {
      assert Located(s, d);
      if d != c && s.owner[d] == Reserved {
        var k :| 0 <= k < |s.reserve| && s.reserve[k] == d;
        assert t.reserve[k - 1] == d;
      }
    }
    forall i: nat ensures Listed(t, Holding(t, i), InBlock(i)) {
      assert Listed(s, Holding(s, i), InBlock(i));
    }
  }

  /** A reserved chunk is empty, and the channel has room for it. */
  lemma ReleaseReservedKeeps(s: State)
    requires Inv(s) && s.reserve != [] && s.committing
    ensures var c := s.reserve[0]; c in s.mem && c !in s.resources && s.mem[c].freeSize == s.chunkSize && |s.resources| < s.maxCount
    ensures Inv(ReleaseReserved(s)) && Written(ReleaseReserved(s)) == Written(s)
  {
    hide Uploads;
    assert s.reserve[0] in s.reserve;
    ReserveFits(s);
    ReleaseReservedOwned(s);
    UploadsFrame(s, ReleaseReserved(s));
    hide Owned;
  }

  lemma SetCommitting(s: State)
    requires Inv(s)
    ensures Inv(s.(committing := true)) && Written(s.(committing := true)) == Written(s)
  {
    CommittingFrame(s, true);
  }

  /** commitCurBlock ends with nothing held. */
  lemma EndCommitting(s: State)
    requires Inv(s) && Held(s) == 0
    ensures Inv(s.(committing := false)) && Written(s.(committing := false)) == Written(s)
  {
    CommittingFrame(s, false);
  }

  lemma CommittingFrame(s: State, committing: bool)
    requires PoolOk(s) && Owned(s) && Uploads(s) && Filling(s)
    ensures var t := s.(committing := committing); PoolOk(t) && Owned(t) && Uploads(t) && Filling(t)
  {
    var t := s.(committing := committing);
    assert forall i: nat :: Holding(t, i) == Holding(s, i);
    OwnedSameHolding(s, t);
    UploadsFrame(s, t);
  }

  lemma HandOverUploads(s: State)
    requires PoolOk(s) && Uploads(s) && Filling(s)
    ensures Uploads(HandOver(s))
  {
    var t := HandOver(s);
    forall j: nat | 1 <= j <= |t.content| ensures Committed(t, j) {
      if j <= |s.content| {
        assert Committed(s, j);
        if s.curBlock.Some? { HandOverCommitted(s, j); }
      } else {
        HandedOver(s);
      }
    }
    hide Committed, PoolOk, Bytes;
    forall j: nat, k: nat | 1 <= j < k <= |t.content| ensures IdsDiffer(t, j, k) {
      assert k <= |s.content| ==> IdsDiffer(s, j, k);
    }
  }

  lemma HandOverCommitted(s: State, j: nat)
    requires PoolOk(s) && Filling(s) && 1 <= j <= |s.content| && Committed(s, j) && s.curBlock.Some? && s.blockCount > |s.content|
    ensures Committed(HandOver(s), j)
  {
    hide PoolOk, Filling, Bytes;
    CommittedFrame(s, HandOver(s), j);
  }

  /** The block that is handed over holds the bytes recorded for it. */
  lemma HandedOver(s: State)
    requires PoolOk(s) && Filling(s) && s.curBlock.Some? && s.blockCount == |s.content| + 1 && s.blockCount !in s.received
    ensures Committed(HandOver(s), s.blockCount)
  {
    hide Bytes;
  }

  lemma HandOverHolding(s: State)
    requires PoolOk(s) && Uploads(s) && Filling(s)
    ensures forall i: nat :: Holding(HandOver(s), i) == Holding(s, i)
  {
  }

  lemma HandOverKeeps(s: State)
    requires s.chunkSize > 0 && PoolOk(s) && Owned(s) && Uploads(s) && Filling(s)
    requires s.reserve == [] && s.curChunk.None?
    ensures Inv(HandOver(s)) && Written(HandOver(s)) == Written(s)
  {
    hide Owned, Uploads;
    HandOverUploads(s);
    HandOverHolding(s);
    OwnedSameHolding(s, HandOver(s));
    if s.curBlock.Some? {
      var b := Bytes(s.mem, s.curBlock.value.chunks);
      FlattenConcat(s.content, [b]);
      assert Flatten([b]) == b + Flatten([]);
    }
  }

  /** Close receives the completion of block i. */
  function Receive(s: State, i: nat): State {
    s.(received := s.received + {i})
  }

  predicate AtSend(s: State, i: nat) {
    Committing(s, i) && (s.blocks[i].status == FINISHED || s.blocks[i].status == FAILED)
    && s.blocks[i].released >= |s.blocks[i].chunks|
  }

  lemma ReceiveKeeps(s: State, i: nat)
    requires Inv(s) && AtSend(s, i)
    ensures Inv(Receive(s, i))
  {
    hide Filling, PoolOk;
    var t := Receive(s, i);
    assert forall k: nat :: Holding(t, k) == Holding(s, k);
    OwnedSameHolding(s, t);
    forall j: nat | 1 <= j <= |t.content| ensures Committed(t, j) {
      assert Committed(s, j);
    }
    forall j: nat, k: nat | 1 <= j < k <= |t.content| ensures IdsDiffer(t, j, k) {
      assert IdsDiffer(s, j, k);
    }
    hide Owned;
    FillingSame(s, t);
  }

  lemma FillingSame(s: State, t: State)
    requires Filling(s) && PoolOk(s) && t == s.(received := t.received)
    ensures Filling(t) && PoolOk(t)
  {
  }

  // -- What has been written -------------------------------------------------------------------------

  /** The bytes written and not yet in a committed block. */
  ghost function Tail(s: State): seq<byte>
    requires PoolOk(s) && Filling(s)
  {
    (if s.curBlock.Some? then Bytes(s.mem, s.curBlock.value.chunks) else [])
    + (if s.curChunk.Some? then s.mem[s.curChunk.value].Content() else [])
  }

  ghost function Written(s: State): seq<byte>
    requires PoolOk(s) && Filling(s)
  {
    Flatten(s.content) + Tail(s)
  }

  /** Steps of others and of the uploads leave the written bytes alone. */
  lemma WrittenFrame(s: State, t: State)
    requires Inv(s) && Inv(t)
    requires t.content == s.content && t.curBlock == s.curBlock && t.curChunk == s.curChunk
    requires forall c :: c in s.mem && c in s.owner && (s.owner[c].Current? || s.owner[c] == InBlock(|s.content| + 1)) ==>
               c in t.mem && t.mem[c] == s.mem[c]
    ensures Written(t) == Written(s)
  {
    if s.curBlock.Some? {
      var cs := s.curBlock.value.chunks;
      assert Holding(s, s.blockCount) == cs && Listed(s, Holding(s, s.blockCount), InBlock(s.blockCount));
      BytesFrame(s.mem, t.mem, cs);
    }
  }

  lemma TakeReserveWritten(s: State)
    requires Inv(s) && s.reserve != [] && s.curChunk.None?
    ensures Inv(TakeReserve(s)) && Written(TakeReserve(s)) == Written(s)
  {
    TakeReserveKeeps(s);
    assert s.reserve[0] in s.reserve;
    assert s.mem[s.reserve[0]].Content() == [];
  }

  lemma BlockUntouched(s: State, chunk: Chunk)
    requires Inv(s) && s.curChunk.Some? && s.curBlock.Some?
    ensures var mem := FillChunk(s, chunk).mem;
            && (forall c :: c in s.curBlock.value.chunks ==> c in s.mem && c in mem && mem[c] == s.mem[c])
            && Bytes(mem, s.curBlock.value.chunks) == Bytes(s.mem, s.curBlock.value.chunks)
  {
    var cs := s.curBlock.value.chunks;
    assert Holding(s, s.blockCount) == cs && Listed(s, Holding(s, s.blockCount), InBlock(s.blockCount));
    BytesFrame(s.mem, FillChunk(s, chunk).mem, cs);
  }

  lemma FillChunkWritten(s: State, p: seq<byte>)
    requires Inv(s) && s.curChunk.Some? && s.curChunk.value in s.mem
    requires s.mem[s.curChunk.value].freeSize <= |s.mem[s.curChunk.value].data|
    ensures var f := s.mem[s.curChunk.value].Fill(p);
            Inv(FillChunk(s, f.0)) && Written(FillChunk(s, f.0)) == Written(s) + p[..f.1]
  {
    var c := s.curChunk.value;
    var f := s.mem[c].Fill(p);
    FillChunkKeeps(s, f.0);
    var t := FillChunk(s, f.0);
    if s.curBlock.Some? {
      BlockUntouched(s, f.0);
    }
    hide Owned, Uploads, Conserved, Bytes, Flatten;
    var front := Flatten(s.content) + (if s.curBlock.Some? then Bytes(s.mem, s.curBlock.value.chunks) else []);
    assert Written(s) == front + s.mem[c].Content();
    assert Written(t) == front + (s.mem[c].Content() + p[..f.1]);
  }

  lemma AppendChunkWritten(s: State)
    requires Inv(s) && s.status == READING && !s.committing && s.curChunk.Some?
    ensures Inv(AppendChunk(s)) && Written(AppendChunk(s)) == Written(s)
  {
    hide Owned, Uploads;
    AppendChunkKeeps(s);
    var t := AppendChunk(s);
    var cs := t.curBlock.value.chunks;
    assert cs[..|cs| - 1] == if s.curBlock.Some? then s.curBlock.value.chunks else [];
    assert Bytes(s.mem, []) == [];
    assert Tail(t) == Bytes(s.mem, cs) + [] == Tail(s);
  }

  // -- What others may do in the meantime --------------------------------------------------------------

  /** How many steps the goroutine of block i has left before its send. */
  function Left(s: State, i: nat): nat {
    if i in s.blocks then s.blocks[i].StepsLeft() else 0
  }

  predicate Mine(s: State, c: ChunkId) {
    c in s.owner && (s.owner[c] == Acquired || s.owner[c] == Reserved || s.owner[c] == Current
                     || s.owner[c] == InBlock(|s.content| + 1))
  }

  /** From s to t only upload goroutines and other writers have moved. */
  ghost predicate Meanwhile(s: State, t: State) {
    && t.chunkSize == s.chunkSize && t.maxCount == s.maxCount && t.perBlock == s.perBlock
    && t.status == s.status && t.curChunk == s.curChunk && t.reserve == s.reserve && t.acquiring == s.acquiring
    && t.committing == s.committing
    && t.curBlock == s.curBlock && t.blockCount == s.blockCount && t.received == s.received && t.content == s.content
    && (forall c :: Mine(s, c) && c in s.mem ==> Mine(t, c) && c in t.mem && t.mem[c] == s.mem[c])
    && (forall i: nat :: Left(t, i) <= Left(s, i))
    && t.blocks.Keys == s.blocks.Keys
  }

  lemma MeanwhileRefl(s: State)
    ensures Meanwhile(s, s)
  {
  }

  lemma MeanwhileTrans(s: State, t: State, u: State)
    requires Meanwhile(s, t) && Meanwhile(t, u)
    ensures Meanwhile(s, u)
  {
    forall i: nat ensures Left(u, i) <= Left(s, i) {
      assert Left(u, i) <= Left(t, i) <= Left(s, i);
    }
  }

  lemma MeanwhileWritten(s: State, t: State)
    requires Inv(s) && Inv(t) && Meanwhile(s, t)
    ensures Written(t) == Written(s)
  {
    hide Uploads;
    assert forall c :: c in s.mem && c in s.owner && (s.owner[c].Current? || s.owner[c] == InBlock(|s.content| + 1)) ==> Mine(s, c);
    WrittenFrame(s, t);
  }

  lemma CloseBlockMeanwhile(s: State, i: nat, size: nat)
    requires Committing(s, i) && s.blocks[i].status == READING
    ensures Meanwhile(s, CloseBlock(s, i, size)) && Left(CloseBlock(s, i, size), i) < Left(s, i)
  {
  }

  lemma UploadBlockMeanwhile(s: State, i: nat, bytes: seq<byte>, ok: bool)
    requires Committing(s, i) && s.blocks[i].status == UPLOADING
    ensures Meanwhile(s, UploadBlock(s, i, bytes, ok)) && Left(UploadBlock(s, i, bytes, ok), i) < Left(s, i)
  {
  }

  lemma ReleaseChunkMeanwhile(s: State, i: nat)
    requires Inv(s) && Releasing(s, i) && s.blocks[i].chunks[s.blocks[i].released] in s.mem
    ensures Meanwhile(s, ReleaseChunk(s, i)) && Left(ReleaseChunk(s, i), i) < Left(s, i)
  {
    hide Owned, Uploads, Filling, PoolOk;
    ReleasedChunk(s, i);
    BlockNumber(s, i);
  }

  lemma BlockNumber(s: State, i: nat)
    requires Uploads(s) && i in s.blocks
    ensures 1 <= i <= |s.content|
  {
  }

  lemma GrowMeanwhile(s: State)
    requires Inv(s)
    ensures Meanwhile(s, Grow(s))
  {
    hide Inv, EmptyChunk;
    if s.curCount < s.maxCount {
      NewChunkUnknown(s);
      var t := Grow(s);
      assert t.blocks == s.blocks && t.content == s.content;
      forall c | Mine(s, c) && c in s.mem ensures Mine(t, c) && c in t.mem && t.mem[c] == s.mem[c] {
      }
    }
  }

  lemma NewChunkUnknown(s: State)
    requires Inv(s)
    ensures s.curCount !in s.owner && s.curCount !in s.mem
  {
  }

  lemma NotOwnedYet(s: State)
    requires Owned(s)
    ensures s.curCount !in s.owner
  {
  }

  lemma TakeMeanwhile(s: State)
    requires Owned(s) && s.resources != []
    ensures Meanwhile(s, Take(s, true))
  {
    assert s.resources[0] in s.resources;
    assert s.owner[s.resources[0]] == InPool;
    hide Owned;
  }

  lemma ForeignAcquireMeanwhile(s: State)
    requires Inv(s) && !WouldBlock(s)
    ensures Meanwhile(s, Acquire(s, true))
  {
    hide Meanwhile, Owned, Uploads, Filling, PoolOk;
    GrowOwned(s);
    GrowMeanwhile(s);
    TakeMeanwhile(Grow(s));
    MeanwhileTrans(s, Grow(s), Acquire(s, true));
  }

  lemma ForeignPutMeanwhile(s: State, id: BlockId, bytes: seq<byte>)
    ensures Meanwhile(s, ForeignPut(s, id, bytes)) && Meanwhile(s, ForeignId(s))
  {
  }

  lemma ForeignWriteMeanwhile(s: State, c: ChunkId, chunk: Chunk)
    requires Inv(s) && c in s.others
    ensures Meanwhile(s, ForeignWrite(s, c, chunk))
  {
    hide Owned, Uploads, Filling, PoolOk;
    OthersOwner(s, c);
  }

  lemma ForeignReleaseMeanwhile(s: State, c: ChunkId)
    requires Inv(s) && c in s.others && c in s.mem
    ensures Meanwhile(s, ForeignRelease(s, c))
  {
    hide Owned, Uploads, Filling, PoolOk;
    OthersOwner(s, c);
  }

  // -- Sizes and waiting ---------------------------------------------------------------------------

  /** While the writer is open only full chunks enter a block and only full groups are committed. */
  ghost predicate Full(s: State) {
    s.status == READING ==>
      && (s.curBlock.Some? ==>
            forall c :: c in s.curBlock.value.chunks ==> c in s.mem && s.mem[c].freeSize == 0 && |s.mem[c].data| == s.chunkSize)
      && forall i :: 0 <= i < |s.content| ==> |s.content[i]| == s.perBlock * s.chunkSize
  }

  lemma {:induction false} BytesLength(mem: Memory, cs: seq<ChunkId>, size: nat)
    requires forall c :: c in cs ==> c in mem && mem[c].freeSize == 0 && |mem[c].data| == size
    ensures |Bytes(mem, cs)| == |cs| * size
  {
    if cs != [] {
      BytesLength(mem, cs[..|cs| - 1], size);
      assert |cs| * size == (|cs| - 1) * size + size;
    }
  }

  lemma MeanwhileFull(s: State, t: State)
    requires Inv(s) && Meanwhile(s, t) && Full(s)
    ensures Full(t)
  {
    if s.status == READING && s.curBlock.Some? {
      forall c | c in s.curBlock.value.chunks ensures c in t.mem && t.mem[c] == s.mem[c] {
        assert c in Holding(s, s.blockCount) && Listed(s, Holding(s, s.blockCount), InBlock(s.blockCount));
        assert Mine(s, c);
      }
    }
  }

  /** The writer waits in AcquireMultiple and all its uploads have come to their send. */
  ghost predicate Waiting(s: State) {
    && WouldBlock(s) && Held(s) == 0 && s.curBlock.None?
    && forall i: nat :: i in s.blocks ==> s.blocks[i].Unreleased() == []
  }

  /** Then every chunk there is belongs to another writer or to the request itself. */
  lemma WaitingMeansOthersHold(s: State)
    requires PoolOk(s) && Owned(s) && Waiting(s)
    ensures |s.others| + |s.acquiring| == s.maxCount
  {
    BelowSize(s.curCount);
    DistinctSize(s.acquiring);
    assert s.others !! ToSet(s.acquiring);
    forall c: nat ensures c in Below(s.curCount) <==> c in s.others + ToSet(s.acquiring) {
      if c in s.owner {
        assert Located(s, c);
      }
    }
    assert Below(s.curCount) == s.others + ToSet(s.acquiring);
  }

  /** The state after the pool's Acquire returned c, written out field by field. */
  lemma AcquireView(s: State, t: State, c: ChunkId, foreign: bool)
    requires !WouldBlock(s) && s.curCount <= s.maxCount
    requires t.curCount == s.curCount + (if s.curCount < s.maxCount then 1 else 0)
    requires [c] + t.resources == s.resources + (if s.curCount < s.maxCount then [s.curCount] else [])
    requires t.mem == Grow(s).mem
    requires t.owner == (if s.curCount < s.maxCount then s.owner[s.curCount := InPool] else s.owner)[c := if foreign then Foreign else Acquired]
    requires if foreign then t.others == s.others + {c} && t.acquiring == s.acquiring
             else t.acquiring == s.acquiring + [c] && t.others == s.others
    requires t == s.(resources := t.resources, curCount := t.curCount, mem := t.mem, owner := t.owner,
                     others := t.others, acquiring := t.acquiring)
    ensures t == Acquire(s, foreign)
  {
    var g := Grow(s);
    assert ([c] + t.resources)[0] == c && ([c] + t.resources)[1..] == t.resources;
    assert g.resources == [c] + t.resources;
  }

  lemma MeanwhileLeft(s: State, t: State)
    requires Meanwhile(s, t)
    ensures t.received == s.received && forall i: nat :: Left(t, i) <= Left(s, i)
  {
  }

  lemma MeanwhileKeys(s: State, t: State)
    requires Meanwhile(s, t)
    ensures t.blocks.Keys == s.blocks.Keys && |t.blocks| == |s.blocks|
  {
    assert |t.blocks.Keys| == |t.blocks| && |s.blocks.Keys| == |s.blocks|;
  }

  /** Blocks are numbered 1 to len(blocks). */
  lemma BlocksCount(s: State)
    requires Inv(s)
    ensures |s.blocks| == |s.content| && forall i: nat :: i in s.blocks <==> 1 <= i <= |s.blocks|
  {
    hide Owned, Filling, PoolOk, Committed, IdsDiffer;
    var n := |s.content|;
    BelowSize(n + 1);
    hide Below;
    assert s.blocks.Keys == Below(n + 1) - {0};
    assert |s.blocks.Keys| == |s.blocks|;
  }

  /** What the writer may rely on after others have moved. */
  ghost predicate Kept(s: State, t: State)
    requires PoolOk(s) && Filling(s)
  {
    && Inv(t) && Full(t) && Written(t) == Written(s) && Held(t) == Held(s)
    && t.status == s.status && t.acquiring == s.acquiring && t.curBlock == s.curBlock && t.curChunk == s.curChunk
    && t.reserve == s.reserve && t.content == s.content && t.received == s.received && t.blockCount == s.blockCount
    && (s.curChunk.Some? ==> s.curChunk.value in t.mem && s.curChunk.value in s.mem
                             && t.mem[s.curChunk.value] == s.mem[s.curChunk.value])
  }

  lemma MeanwhileKept(s: State, t: State)
    requires Inv(s) && Full(s) && Inv(t) && Meanwhile(s, t)
    ensures Kept(s, t)
  {
    MeanwhileFull(s, t);
    MeanwhileWritten(s, t);
    if s.curChunk.Some? {
      assert Mine(s, s.curChunk.value);
    }
    hide Inv, Full, Written;
  }

  lemma AcquireAll(s: State)
    requires Inv(s) && Full(s) && !WouldBlock(s) && Held(s) == 0
    ensures var t := Acquire(s, false);
            && Inv(t) && Full(t) && Written(t) == Written(s) && Held(t) == 0 && |t.acquiring| == |s.acquiring| + 1
            && t.status == s.status && t.curBlock == s.curBlock && t.content == s.content && t.received == s.received
  {
    AcquireKeeps(s, false);
    AcquireFrame(s, false);
    hide Inv, Acquire;
    AcquireWritten(s, Acquire(s, false));
  }

  lemma AcquireFrame(s: State, foreign: bool)
    requires PoolOk(s) && !WouldBlock(s)
    ensures var t := Acquire(s, foreign);
            && t.status == s.status && t.curBlock == s.curBlock && t.content == s.content && t.received == s.received
            && t.curChunk == s.curChunk && t.reserve == s.reserve && t.perBlock == s.perBlock && t.chunkSize == s.chunkSize
            && |t.acquiring| == |s.acquiring| + (if foreign then 0 else 1)
            && forall c :: c in s.mem ==> c in t.mem && t.mem[c] == s.mem[c]
  {
    GrowPool(s);
    hide EmptyChunk, PoolOk;
  }

  lemma AcquireWritten(s: State, t: State)
    requires Inv(s) && Inv(t) && Full(s) && s.curChunk.None? && s.curBlock.None?
    requires t.curChunk.None? && t.curBlock.None? && t.content == s.content && t.status == s.status
    requires t.perBlock == s.perBlock && t.chunkSize == s.chunkSize
    ensures Full(t) && Written(t) == Written(s)
  {
  }

  /** A writer that has to wait although its own uploads are through waits for other writers. */
  lemma WaitingForOthers(s: State)
    requires Inv(s) && WouldBlock(s) && Held(s) == 0 && s.curBlock.None?
    requires forall i: nat :: i in s.blocks && i !in s.received ==> Left(s, i) == 0
    ensures |s.others| + |s.acquiring| == s.maxCount
  {
    forall i: nat | i in s.blocks ensures s.blocks[i].Unreleased() == [] {
      assert Committed(s, i);
      if i !in s.received { assert Left(s, i) == 0; }
    }
    WaitingMeansOthersHold(s);
  }

  /** Without a current chunk and a reserve there is no current block either. */
  lemma EmptyHanded(s: State)
    requires Inv(s) && s.status == READING && !s.committing && s.curChunk.None? && s.reserve == []
    requires s.curBlock.Some? ==> |s.curBlock.value.chunks| < s.perBlock
    ensures Held(s) == 0 && s.curBlock.None?
  {
  }

  lemma ReserveAll(s: State)
    requires Inv(s) && Full(s) && Held(s) == 0 && |s.acquiring| == s.perBlock > 0
    ensures var t := Reserve(s); Inv(t) && Full(t) && Written(t) == Written(s)
  {
    ReserveKeeps(s);
    hide Owned, Uploads;
  }

  lemma TakeReserveAll(s: State)
    requires Inv(s) && Full(s) && s.reserve != [] && s.curChunk.None?
    ensures var t := TakeReserve(s); Inv(t) && Full(t) && Written(t) == Written(s)
  {
    TakeReserveWritten(s);
    hide Inv, Written;
  }

  lemma ReservedEmpty(s: State)
    requires Inv(s) && s.reserve != []
    ensures s.reserve[0] in s.mem && s.mem[s.reserve[0]].freeSize == s.chunkSize > 0
  {
    assert s.reserve[0] in s.reserve;
  }

  /** The last step of commitCurBlock: the block is handed over with the bytes not yet in a block. */
  lemma CommitBlock(s: State)
    requires Inv(s) && s.curChunk.None? && s.reserve == []
    ensures PoolOk(s) && Filling(s)
    ensures (s.curBlock.Some? ==> forall c :: c in s.curBlock.value.chunks ==> c in s.mem && s.mem[c].freeSize <= |s.mem[c].data|)
    ensures Inv(HandOver(s)) && Written(HandOver(s)) == Written(s) && Held(HandOver(s)) == 0
    ensures HandOver(s).content == s.content + (if s.curBlock.Some? then [Tail(s)] else [])
  {
    HandOverKeeps(s);
    if s.curBlock.Some? {
      assert Tail(s) == Bytes(s.mem, s.curBlock.value.chunks);
    }
    hide Owned, Uploads;
  }

  /** What is not yet in a block is determined by what was written. */
  lemma SameTail(s: State, t: State)
    requires Inv(s) && Inv(t) && s.content == t.content && Written(s) == Written(t)
    ensures Tail(s) == Tail(t)
  {
    var front := Flatten(s.content);
    assert Tail(s) == (front + Tail(s))[|front|..] == (front + Tail(t))[|front|..] == Tail(t);
  }

  ghost predicate CurrentFull(s: State) {
    s.curChunk.Some? ==> s.curChunk.value in s.mem && s.mem[s.curChunk.value].freeSize == 0
  }

  lemma AppendAll(s: State)
    requires Inv(s) && s.status == READING && !s.committing && s.curChunk.Some?
    requires s.curBlock.Some? ==> |s.curBlock.value.chunks| < s.perBlock
    ensures var t := AppendChunk(s);
            && Inv(t) && Written(t) == Written(s) && |t.curBlock.value.chunks| <= s.perBlock
            && (Full(s) && CurrentFull(s) ==> Full(t))
  {
    AppendChunkWritten(s);
    hide Owned, Uploads;
  }

  /** A block committed with all its chunks full has BlockSize / ChunkSize * ChunkSize bytes. */
  lemma CommittedFull(s: State, t: State)
    requires Inv(s) && s.status == READING && s.curChunk.None? && s.curBlock.Some? && |s.curBlock.value.chunks| == s.perBlock
    requires t.status == s.status && t.perBlock == s.perBlock && t.chunkSize == s.chunkSize && t.curBlock.None?
    requires t.content == s.content + [Tail(s)]
    ensures Full(s) ==> Full(t)
  {
    if Full(s) {
      BytesLength(s.mem, s.curBlock.value.chunks, s.chunkSize);
      assert Tail(s) == Bytes(s.mem, s.curBlock.value.chunks);
    }
  }

  lemma FillFull(s: State, chunk: Chunk)
    requires Inv(s) && Full(s) && s.curChunk.Some?
    ensures Full(FillChunk(s, chunk))
  {
    if s.curBlock.Some? {
      assert Listed(s, Holding(s, s.blockCount), InBlock(s.blockCount));
    }
  }

  /** A writer whose blocks hold no chunk has written nothing. */
  lemma NoWriteWithoutRoom(s: State)
    requires Inv(s) && Full(s) && s.status == READING && !s.committing
    ensures s.perBlock == 0 ==> Written(s) == []
  {
    if s.perBlock == 0 {
      assert s.curBlock.None? && s.curChunk.None?;
      AllEmpty(s.content);
    }
  }

  lemma {:induction false} AllEmpty(parts: seq<seq<byte>>)
    requires forall i :: 0 <= i < |parts| ==> |parts[i]| == 0
    ensures Flatten(parts) == []
  {
    if parts != [] {
      assert parts[0] == [];
      AllEmpty(parts[1..]);
    }
  }

  // -- Closing -----------------------------------------------------------------------------------------

  /** All blocks but the last have the given size, and the last is not larger. */
  ghost predicate EvenBlocks(content: seq<seq<byte>>, size: nat) {
    && (forall i :: 0 <= i < |content| - 1 ==> |content[i]| == size)
    && (content != [] ==> |content[|content| - 1]| <= size)
  }

  ghost predicate OneMore(content: seq<seq<byte>>, more: seq<seq<byte>>, size: nat) {
    |more| == |content| + 1 && content <= more && |more[|content|]| <= size
  }

  lemma CommitEven(s: State, t: State)
    requires Full(s) && s.status == READING && t.perBlock == s.perBlock && t.chunkSize == s.chunkSize
    requires t.content == s.content || OneMore(s.content, t.content, s.perBlock * s.chunkSize)
    ensures EvenBlocks(t.content, s.perBlock * s.chunkSize)
  {
    assert forall i :: 0 <= i < |s.content| ==> t.content[i] == s.content[i];
  }

  lemma {:induction false} BytesAtMost(mem: Memory, cs: seq<ChunkId>, size: nat)
    requires forall c :: c in cs ==> c in mem && mem[c].freeSize <= |mem[c].data| <= size
    ensures |Bytes(mem, cs)| <= |cs| * size
  {
    if cs != [] {
      var c := cs[|cs| - 1];
      assert c in cs;
      BytesAtMost(mem, cs[..|cs| - 1], size);
      assert |cs| * size == (|cs| - 1) * size + size;
    }
  }

  lemma TailAtMost(s: State)
    requires Inv(s) && s.curChunk.None?
    ensures |Tail(s)| <= s.perBlock * s.chunkSize
  {
    if s.curBlock.Some? {
      var cs := s.curBlock.value.chunks;
      BytesAtMost(s.mem, cs, s.chunkSize);
      TimesMonotone(|cs|, s.perBlock, s.chunkSize);
    }
  }

  lemma TimesMonotone(a: nat, b: nat, c: nat)
    requires a <= b
    ensures a * c <= b * c
  {
    assert b * c == a * c + (b - a) * c;
  }

  /** The writer has nothing left to commit. */
  ghost predicate NothingOpen(s: State) {
    s.curChunk.None? && s.reserve == [] && s.curBlock.None? && s.acquiring == []
  }

  lemma SetStatus(s: State, status: Status)
    requires Inv(s) && status != READING
    ensures Inv(s.(status := status))
  {
    var t := s.(status := status);
    assert forall i: nat :: Holding(t, i) == Holding(s, i);
    OwnedSameHolding(s, t);
    UploadsFrame(s, t);
    hide Owned, Uploads;
  }

  /** Fewer receptions than blocks: some block has not been received. */
  lemma SomeLeft(s: State)
    requires Inv(s) && |s.received| < |s.content|
    ensures exists i: nat :: i in s.blocks && i !in s.received
  {
    if forall i: nat :: i in s.blocks ==> i in s.received {
      assert s.blocks.Keys <= s.received;
      SubsetSize(s.blocks.Keys, s.received);
      BlocksCount(s);
    }
  }

  lemma ThroughMeansAtSend(s: State, i: nat)
    requires Inv(s) && Committing(s, i) && s.blocks[i].StepsLeft() == 0
    ensures AtSend(s, i)
  {
    assert Committed(s, i);
  }

  lemma AllReceived(s: State)
    requires Inv(s) && |s.received| >= |s.content|
    ensures s.received == s.blocks.Keys
  {
    BlocksCount(s);
    if i: nat :| i in s.blocks && i !in s.received {
      SubsetSize(s.received, s.blocks.Keys - {i});
    }
  }

  ghost predicate NoneFailed(s: State) {
    forall i: nat :: i in s.blocks ==> s.blocks[i].status == FINISHED
  }

  /** The metadata lists the blocks in the order in which they were committed. */
  ghost predicate Lists(infos: seq<BlockInfo>, s: State) {
    |infos| == |s.content| && forall i: nat :: 1 <= i <= |infos| ==> i in s.blocks && infos[i - 1] == s.blocks[i].info
  }

  /**
   * Once all completions are received, what the metadata list can be read back if and only if
   * no upload failed, and is then what was written.
   */
  lemma MetaReadable(s: State, infos: seq<BlockInfo>)
    requires Inv(s) && s.received == s.blocks.Keys && Lists(infos, s)
    ensures Readable(infos, s.data) <==> NoneFailed(s)
    ensures s.reliable ==> NoneFailed(s)
    ensures Readable(infos, s.data) ==> Fetch(infos, s.data) == s.content
    ensures forall i :: 0 <= i < |infos| ==> infos[i].blockSize == |s.content[i]|
  {
    hide Owned, Filling, PoolOk, Bytes;
    forall i: nat | i in s.blocks ensures Committed(s, i) {}
    forall i | 0 <= i < |infos|
      ensures infos[i].blockSize == |s.content[i]|
      ensures infos[i].blockId in s.data <==> s.blocks[i + 1].status == FINISHED
      ensures infos[i].blockId in s.data ==> s.data[infos[i].blockId] == s.content[i]
    {
      assert Committed(s, i + 1);
    }
    forall i: nat | Readable(infos, s.data) && i in s.blocks ensures s.blocks[i].status == FINISHED {
      assert infos[i - 1].blockId in s.data;
    }
  }

  /** And every chunk is back in the pool or with another writer. */
  lemma ChunksReturned(s: State, c: ChunkId)
    requires Inv(s) && s.received == s.blocks.Keys && NothingOpen(s) && c in s.owner
    ensures c in s.resources || c in s.others
  {
    assert Located(s, c);
    if s.owner[c].InBlock? && s.owner[c].number in s.blocks {
      assert Committed(s, s.owner[c].number);
    }
  }

  lemma AllReturned(s: State)
    requires Inv(s) && s.received == s.blocks.Keys && NothingOpen(s)
    ensures forall c :: c in s.mem ==> c in s.resources || c in s.others
  {
    forall c | c in s.mem ensures c in s.resources || c in s.others {
      ChunksReturned(s, c);
    }
  }

  lemma NothingOpenWritten(s: State)
    requires Inv(s) && NothingOpen(s)
    ensures Written(s) == Flatten(s.content)
  {
  }

  lemma OpenBlockCounted(s: State)
    requires Inv(s) && NothingOpen(s)
    ensures s.blockCount == |s.content|
  {
  }

  /** The chunks of a block that is being uploaded hold its content. */
  lemma ChunksOf(s: State, i: nat)
    requires Inv(s) && Committing(s, i) && (s.blocks[i].status == READING || s.blocks[i].status == UPLOADING)
    ensures 1 <= i <= |s.content| && HoldsBytes(s, s.blocks[i].chunks, s.content[i - 1])
    ensures s.blocks[i].status == UPLOADING ==> s.blocks[i].info.blockSize == |s.content[i - 1]| && s.blocks[i].info.blockId < s.nextId
  {
    assert Committed(s, i);
  }
}
