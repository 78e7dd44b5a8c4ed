/**
 * The bounded pool of chunk buffers that all writers of a factory share. A chunk is a
 * reference: it is named by an id, and its buffer lives in the pool's memory, so that the
 * same chunk can be reached from the pool, from a writer and from a block.
 */
module ChunkPool {
  import opened Basics

  type ChunkId = nat

  /** localChunk: a fixed-size buffer whose last freeSize bytes are unused. */
  datatype Chunk = Chunk(data: seq<byte>, freeSize: nat)
  {
    predicate Valid(size: nat) {
      |data| == size && freeSize <= size
    }

    function Content(): seq<byte>
      requires freeSize <= |data|
    {
      data[..|data| - freeSize]
    }

    /** copy(chunk.data[size-freeSize:], p) followed by chunk.freeSize -= n */
    function Fill(p: seq<byte>): (r: (Chunk, nat))
      requires freeSize <= |data|
      ensures r.1 == Min(freeSize, |p|)
      ensures r.0.Valid(|data|) && r.0.freeSize == freeSize - r.1
      ensures r.0.Content() == Content() + p[..r.1]
    {
      var n, at := Min(freeSize, |p|), |data| - freeSize;
      var data' := data[..at] + p[..n] + data[at + n..];
      assert data'[..at + n] == data[..at] + p[..n];
      (Chunk(data', freeSize - n), n)
    }
  }

  /** newLocalChunk */
  function EmptyChunk(size: nat): Chunk {
    Chunk(seq(size, _ => 0), size)
  }

  type Memory = map<ChunkId, Chunk>

  /** The bytes of a list of chunks, in order. */
  ghost function Bytes(mem: Memory, cs: seq<ChunkId>): seq<byte>
    requires forall c :: c in cs ==> c in mem && mem[c].freeSize <= |mem[c].data|
  {
    if cs == [] then []
    else Bytes(mem, cs[..|cs| - 1]) + mem[cs[|cs| - 1]].Content()
  }

  lemma {:induction false} BytesFrame(mem: Memory, mem': Memory, cs: seq<ChunkId>)
    requires forall c :: c in cs ==> c in mem && mem[c].freeSize <= |mem[c].data|
    requires forall c :: c in cs ==> c in mem' && mem'[c] == mem[c]
    ensures Bytes(mem', cs) == Bytes(mem, cs)
  {
    if cs != [] {
      BytesFrame(mem, mem', cs[..|cs| - 1]);
    }
  }

  /** A list of different ids below n, one of which is missing, is shorter than n. */
  lemma Pigeonhole(s: seq<nat>, n: nat, missing: nat)
    requires Distinct(s) && (forall c :: c in s ==> c < n) && missing < n && missing !in s
    ensures |s| < n
  {
    BelowSize(n);
    DistinctSize(s);
    assert ToSet(s) + {missing} <= Below(n) && missing !in ToSet(s);
    SubsetSize(ToSet(s) + {missing}, Below(n));
  }

  class Pool {
    const chunkSize: nat
    const maxCount: nat
    var resources: seq<ChunkId>
    var curCount: nat
    var mem: Memory

    /** At most maxCount chunks exist, and the idle ones are different, and empty. */
    ghost predicate Valid()
      reads this
    {
      && curCount <= maxCount
      && (forall c: nat :: c in mem <==> c < curCount)
      && (forall c :: c in mem ==> mem[c].Valid(chunkSize))
      && Distinct(resources)
      && (forall c :: c in resources ==> c < curCount && mem[c].freeSize == chunkSize)
    }

    constructor (chunkSize: nat, maxCount: nat)
      ensures Valid() && resources == [] && curCount == 0
      ensures this.chunkSize == chunkSize && this.maxCount == maxCount
    {
      this.chunkSize, this.maxCount := chunkSize, maxCount;
      resources, curCount, mem := [], 0, map[];
    }

    /** Acquire would wait for a Release: nothing is idle and nothing more may be created. */
    predicate WouldBlock()
      reads this
    {
      resources == [] && curCount >= maxCount
    }

    /** Creates a chunk while the limit allows, then takes the one that is idle longest. */
    method Acquire() returns (c: ChunkId)
      requires Valid() && !WouldBlock()
      modifies this
      ensures Valid()
      ensures c in mem && c !in resources && mem[c].freeSize == chunkSize
      ensures mem == if old(curCount) < maxCount then old(mem)[old(curCount) := EmptyChunk(chunkSize)] else old(mem)
      ensures curCount == old(curCount) + (if old(curCount) < maxCount then 1 else 0)
      ensures [c] + resources == old(resources) + (if old(curCount) < maxCount then [old(curCount)] else [])
    {
      if curCount < maxCount {
        Pigeonhole(resources, maxCount, curCount);
      }
      if curCount < maxCount && |resources| < maxCount {
        mem := mem[curCount := EmptyChunk(chunkSize)];
        resources := resources + [curCount];
        curCount := curCount + 1;
      }
      assert Valid();
      ghost var queue := resources;
      c := resources[0];
      resources := resources[1..];
      assert forall i :: 0 <= i < |resources| ==> resources[i] == queue[i + 1];
      assert c in queue && forall d :: d in resources ==> d in queue;
    }

    /** Puts a chunk back; the channel has room for it. */
    method Release(c: ChunkId)
      requires Valid() && c in mem && c !in resources && mem[c].freeSize == chunkSize
      modifies this`resources
      ensures Valid() && |old(resources)| < maxCount
      ensures resources == old(resources) + [c]
    {
      Pigeonhole(resources, curCount, c);
      resources := resources + [c];
    }
  }
}
