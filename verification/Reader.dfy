/**
 * EcosReader: a cursor over the object's blocks. Each Read is split into one segment per block;
 * the segments are fetched and copied by goroutines that run in any order.
 */
module Reader {
  import opened Basics
  import opened BlockStore

  // -- Blocks in the object ------------------------------------------------------------

  lemma {:induction false} StartMonotone(infos: seq<BlockInfo>, i: nat, j: nat)
    requires i <= j <= |infos|
    ensures Start(infos, i) <= Start(infos, j)
  {
    if i < j {
      StartMonotone(infos, i, j - 1);
    }
  }

  lemma FlattenAt(parts: seq<seq<byte>>, i: nat)
    requires i < |parts|
    ensures Flatten(parts) == Flatten(parts[..i]) + (parts[i] + Flatten(parts[i + 1..]))
  {
    assert parts == parts[..i] + parts[i..];
    FlattenConcat(parts[..i], parts[i..]);
    assert parts[i..][1..] == parts[i + 1..];
  }

  /** Block i is the part of the object from Start(i) on. */
  lemma BlockInObject(infos: seq<BlockInfo>, data: Blocks, i: nat)
    requires Readable(infos, data) && i < |infos|
    ensures Start(infos, i) + infos[i].blockSize <= |Object(infos, data)|
    ensures Object(infos, data)[Start(infos, i)..][..infos[i].blockSize] == data[infos[i].blockId]
  {
    var parts := Fetch(infos, data);
    FrontLength(infos, data, i);
    FlattenAt(parts, i);
    hide Flatten, Start;
    assert Object(infos, data)[Start(infos, i)..] == parts[i] + Flatten(parts[i + 1..]);
  }

  // -- Segments --------------------------------------------------------------------------------

  datatype Segment = Segment(blockIndex: nat, blockStart: nat, blockEnd: nat, bufferStart: nat, bufferEnd: nat)

  /** The segment moves bytes of its block to where they belong in a buffer that starts at pos. */
  ghost predicate InPlace(infos: seq<BlockInfo>, g: Segment, pos: nat) {
    && g.blockIndex < |infos| && g.blockStart <= g.blockEnd <= infos[g.blockIndex].blockSize
    && g.bufferEnd - g.bufferStart == g.blockEnd - g.blockStart
    && Start(infos, g.blockIndex) + g.blockStart == pos + g.bufferStart
  }

  /** The segments follow each other without gap or overlap, from 0 to count. */
  ghost predicate Chained(segments: seq<Segment>, count: nat) {
    && (forall k :: 0 <= k < |segments| ==> segments[k].bufferStart <= segments[k].bufferEnd)
    && (forall k :: 0 < k < |segments| ==> segments[k - 1].bufferEnd == segments[k].bufferStart)
    && (if segments == [] then count == 0
        else segments[0].bufferStart == 0 && segments[|segments| - 1].bufferEnd == count)
  }

  ghost predicate Tiles(infos: seq<BlockInfo>, segments: seq<Segment>, pos: nat, count: nat) {
    Chained(segments, count) && forall k :: 0 <= k < |segments| ==> InPlace(infos, segments[k], pos)
  }

  lemma TilesSnoc(infos: seq<BlockInfo>, segments: seq<Segment>, g: Segment, pos: nat, count: nat)
    requires Tiles(infos, segments, pos, count) && InPlace(infos, g, pos) && g.bufferStart == count
    ensures Tiles(infos, segments + [g], pos, g.bufferEnd)
  {
  }

  lemma {:induction false} ChainedOrder(segments: seq<Segment>, count: nat, i: nat, j: nat)
    requires Chained(segments, count) && i < j < |segments|
    ensures segments[i].bufferEnd <= segments[j].bufferStart
  {
    if i < j - 1 {
      ChainedOrder(segments, count, i, j - 1);
    }
  }

  lemma ChainedBounds(segments: seq<Segment>, count: nat, i: nat)
    requires Chained(segments, count) && i < |segments|
    ensures segments[i].bufferStart <= segments[i].bufferEnd <= count
  {
    if i < |segments| - 1 {
      ChainedOrder(segments, count, i, |segments| - 1);
    }
  }

  /** Every byte of the buffer below count belongs to a segment. */
  lemma {:induction false} ChainedCovers(segments: seq<Segment>, count: nat, at: nat) returns (k: nat)
    requires Chained(segments, count) && at < count
    ensures k < |segments| && segments[k].bufferStart <= at < segments[k].bufferEnd
  {
    var last := |segments| - 1;
    if segments[last].bufferStart <= at {
      k := last;
    } else {
      assert segments[..last] != [];
      k := ChainedCovers(segments[..last], segments[last].bufferStart, at);
    }
  }

  /** And only to that one, so that the copies commute. */
  lemma ChainedOnce(segments: seq<Segment>, count: nat, i: nat, j: nat, at: nat)
    requires Chained(segments, count) && i < |segments| && j < |segments|
    requires segments[i].bufferStart <= at < segments[i].bufferEnd
    requires segments[j].bufferStart <= at < segments[j].bufferEnd
    ensures i == j
  {
    if i < j {
      ChainedOrder(segments, count, i, j);
    } else if j < i {
      ChainedOrder(segments, count, j, i);
    }
  }

  /** What the goroutine of a segment does next. */
  datatype Phase = Fetching | Copying(block: seq<byte>) | Finished {
    function StepsLeft(): nat {
      match this case Fetching => 2 case Copying(_) => 1 case Finished => 0
    }
  }

  function StepsLeft(phases: seq<Phase>): nat {
    if phases == [] then 0 else StepsLeft(phases[..|phases| - 1]) + phases[|phases| - 1].StepsLeft()
  }

  lemma {:induction false} OneStepLess(phases: seq<Phase>, k: nat, next: Phase)
    requires k < |phases| && next.StepsLeft() < phases[k].StepsLeft()
    ensures StepsLeft(phases[k := next]) < StepsLeft(phases)
  {
    var last := |phases| - 1;
    if k < last {
      OneStepLess(phases[..last], k, next);
      assert phases[k := next][..last] == phases[..last][k := next];
    } else {
      assert phases[k := next][..last] == phases[..last];
    }
  }

  /** How many bytes the finished goroutines have counted. */
  ghost function Counted(segments: seq<Segment>, phases: seq<Phase>): int
    requires |segments| == |phases|
  {
    if segments == [] then 0
    else
      var last := |segments| - 1;
      Counted(segments[..last], phases[..last])
      + (if phases[last].Finished? then segments[last].bufferEnd - segments[last].bufferStart else 0)
  }

  lemma {:induction false} CountedStep(segments: seq<Segment>, phases: seq<Phase>, k: nat, next: Phase)
    requires |segments| == |phases| && k < |phases| && !phases[k].Finished?
    ensures Counted(segments, phases[k := next])
         == Counted(segments, phases) + (if next.Finished? then segments[k].bufferEnd - segments[k].bufferStart else 0)
  {
    var last := |segments| - 1;
    if k < last {
      CountedStep(segments[..last], phases[..last], k, next);
      assert phases[k := next][..last] == phases[..last][k := next];
    } else {
      assert phases[k := next][..last] == phases[..last];
    }
  }

  lemma {:induction false} CountedNone(segments: seq<Segment>, phases: seq<Phase>)
    requires |segments| == |phases| && forall k :: 0 <= k < |phases| ==> !phases[k].Finished?
    ensures Counted(segments, phases) == 0
  {
    if segments != [] {
      CountedNone(segments[..|segments| - 1], phases[..|segments| - 1]);
    }
  }

  lemma {:induction false} CountedAll(segments: seq<Segment>, phases: seq<Phase>, count: nat)
    requires |segments| == |phases| && Chained(segments, count) && forall k :: 0 <= k < |phases| ==> phases[k].Finished?
    ensures Counted(segments, phases) == count
  {
    if segments != [] {
      var last := |segments| - 1;
      CountedAll(segments[..last], phases[..last], segments[last].bufferStart);
    }
  }

  function Sum(sizes: seq<nat>): nat {
    if sizes == [] then 0 else Sum(sizes[..|sizes| - 1]) + sizes[|sizes| - 1]
  }

  lemma {:induction false} SumPrefix(sizes: seq<nat>, k: nat)
    requires k <= |sizes|
    ensures Sum(sizes[..k]) <= Sum(sizes)
  {
    if k < |sizes| {
      SumPrefix(sizes[..|sizes| - 1], k);
      assert sizes[..|sizes| - 1][..k] == sizes[..k];
    } else {
      assert sizes[..k] == sizes;
    }
  }

  datatype SeekError = NoError | EndOfObject | OutOfRange | IndexPanic

  /** Where the cursor is left by EOF. */
  function LastStart(infos: seq<BlockInfo>): nat {
    if infos == [] then 0 else Start(infos, |infos| - 1)
  }

  lemma SliceBefore(p: seq<byte>, q: seq<byte>, e: nat, l: nat, r: nat)
    requires l <= r <= e <= |p| == |q| && q[..e] == p[..e]
    ensures q[l..r] == p[l..r]
  {
    assert q[..e][l..r] == q[l..r] && p[..e][l..r] == p[l..r];
  }

  lemma SliceAfter(p: seq<byte>, q: seq<byte>, e: nat, l: nat, r: nat)
    requires e <= l <= r <= |p| == |q| && q[e..] == p[e..]
    ensures q[l..r] == p[l..r]
  {
    assert q[e..][l - e..r - e] == q[l..r] && p[e..][l - e..r - e] == p[l..r];
  }

  // -- The reader ----------------------------------------------------------------------------------

  class EcosReader {
    const store: Store
    const blocks: seq<BlockInfo>            // of the object's metadata
    const objSize: nat
    var curBlockIndex: nat
    var curBlockOffset: nat
    var cachedBlocks: map<BlockId, seq<byte>>
    var toDelete: set<BlockId>              // deletions from the cache that goroutines still have to do

    ghost predicate CursorOk()
      reads this
    {
      if blocks == [] then curBlockIndex == 0 && curBlockOffset == 0
      else curBlockIndex < |blocks| && curBlockOffset <= blocks[curBlockIndex].blockSize
    }

    ghost predicate Valid()
      reads this, store
    {
      && CursorOk() && Readable(blocks, store.data) && objSize == |Data()|
      && forall id :: id in cachedBlocks ==> id in store.data && cachedBlocks[id] == store.data[id]
    }

    ghost function Data(): seq<byte>
      requires Readable(blocks, store.data)
      reads this, store
    {
      Object(blocks, store.data)
    }

    /** The position in the object for which the cursor stands. */
    ghost function Pos(): nat
      requires CursorOk()
      reads this
    {
      Start(blocks, curBlockIndex) + curBlockOffset
    }

    constructor (store: Store, blocks: seq<BlockInfo>, objSize: nat)
      requires Readable(blocks, store.data) && objSize == |Object(blocks, store.data)|
      ensures Valid() && Pos() == 0 && this.store == store && this.blocks == blocks
    {
      this.store, this.blocks, this.objSize := store, blocks, objSize;
      curBlockIndex, curBlockOffset, cachedBlocks, toDelete := 0, 0, map[], {};
    }

    lemma PosInside()
      requires CursorOk()
      ensures Pos() <= Start(blocks, |blocks|)
    {
      if blocks != [] {
        StartMonotone(blocks, curBlockIndex + 1, |blocks|);
      }
    }

    /**
     * The segments for the next bytes, at most want of them. After EOF the cursor is left at
     * the start of the last block.
     */
    method CalcBlocks(want: nat) returns (segments: seq<Segment>, eof: bool)
      requires CursorOk()
      modifies this`curBlockIndex, this`curBlockOffset
      ensures CursorOk() && old(Pos()) <= Start(blocks, |blocks|)
      ensures eof <==> want >= Start(blocks, |blocks|) - old(Pos())
      ensures Tiles(blocks, segments, old(Pos()), if eof then Start(blocks, |blocks|) - old(Pos()) else want)
      ensures !eof ==> Pos() == old(Pos()) + want
      ensures eof && blocks != [] ==> Pos() == Start(blocks, |blocks| - 1)
    {
      PosInside();
      ghost var pos := Pos();
      segments := [];
      assert Tiles(blocks, segments, pos, 0);
      var blockOffset: nat, bufferOffset: nat, pending: nat := curBlockOffset, 0, want;
      var finish, i := false, curBlockIndex;
      hide Tiles;
      while i < |blocks| && !finish
        invariant i <= |blocks| && bufferOffset <= want && pending == want - bufferOffset
        invariant CursorOk() && Tiles(blocks, segments, pos, bufferOffset)
        invariant !finish ==> Start(blocks, i) + blockOffset == pos + bufferOffset
        invariant !finish && i < |blocks| ==> blockOffset <= blocks[i].blockSize
        invariant !finish && i == |blocks| ==> blockOffset == 0 && (blocks != [] ==> curBlockIndex == |blocks| - 1 && curBlockOffset == 0)
        invariant finish ==> bufferOffset == want && Pos() == pos + want && pos + want < Start(blocks, |blocks|)
      {
        var size := blocks[i].blockSize;
        assert Start(blocks, i + 1) == Start(blocks, i) + size;
        if blockOffset + pending >= size {
          var g := Segment(i, blockOffset, size, bufferOffset, bufferOffset + size - blockOffset);
          TilesSnoc(blocks, segments, g, pos, bufferOffset);
          segments := segments + [g];
          bufferOffset := bufferOffset + size - blockOffset;
          blockOffset := 0;
        } else {
          var g := Segment(i, blockOffset, blockOffset + pending, bufferOffset, bufferOffset + pending);
          TilesSnoc(blocks, segments, g, pos, bufferOffset);
          segments := segments + [g];
          bufferOffset := bufferOffset + pending;
          blockOffset := blockOffset + pending;
          finish := true;
          StartMonotone(blocks, i + 1, |blocks|);
        }
        curBlockIndex := i;
        curBlockOffset := blockOffset;
        pending := want - bufferOffset;
        i := i + 1;
      }
      eof := !finish;
    }

    /** Goroutines of earlier segments get to their deletions. */
    method RunDeletes()
      modifies this`cachedBlocks, this`toDelete
      ensures forall id :: id in cachedBlocks ==> id in old(cachedBlocks) && cachedBlocks[id] == old(cachedBlocks)[id]
    {
      var ids: set<BlockId> := *;
      if ids <= toDelete {
        cachedBlocks, toDelete := cachedBlocks - ids, toDelete - ids;
      }
    }

    method GetBlock(info: BlockInfo) returns (block: seq<byte>)
      requires Valid() && info in blocks
      modifies this`cachedBlocks, this`toDelete
      ensures Valid() && block == store.data[info.blockId]
    {
      RunDeletes();
      if info.blockId in cachedBlocks {
        return cachedBlocks[info.blockId];
      }
      block := store.data[info.blockId];
      cachedBlocks := cachedBlocks[info.blockId := block];
    }

    /** The goroutine's copy. */
    method CopySegment(p: array<byte>, g: Segment, block: seq<byte>)
      requires g.bufferStart <= g.bufferEnd <= p.Length && g.blockStart <= g.blockEnd <= |block|
      requires g.bufferEnd - g.bufferStart == g.blockEnd - g.blockStart
      modifies p
      ensures p[..] == old(p[..g.bufferStart]) + block[g.blockStart..g.blockEnd] + old(p[g.bufferEnd..])
    {
      forall j | g.bufferStart <= j < g.bufferEnd {
        p[j] := block[g.blockStart + j - g.bufferStart];
      }
    }

    /** The buffer holds what segment g has to bring. */
    ghost predicate Copied(p: seq<byte>, g: Segment, obj: seq<byte>, pos: nat) {
      g.bufferStart <= g.bufferEnd <= |p| && pos + g.bufferEnd <= |obj|
      && p[g.bufferStart..g.bufferEnd] == obj[pos + g.bufferStart..pos + g.bufferEnd]
    }

    lemma SegmentBytes(g: Segment, pos: nat)
      requires Readable(blocks, store.data) && InPlace(blocks, g, pos)
      ensures pos + g.bufferEnd <= |Data()| && g.blockEnd <= |store.data[blocks[g.blockIndex].blockId]|
      ensures g.bufferStart <= g.bufferEnd
      ensures store.data[blocks[g.blockIndex].blockId][g.blockStart..g.blockEnd]
           == Data()[pos + g.bufferStart..pos + g.bufferEnd]
    {
      BlockInObject(blocks, store.data, g.blockIndex);
      hide Object, Start;
      var size, at := blocks[g.blockIndex].blockSize, Start(blocks, g.blockIndex);
      SliceInSlice(Data(), at, size, g.blockStart, g.blockEnd);
    }

    lemma AllCopied(p: seq<byte>, segments: seq<Segment>, pos: nat, count: nat)
      requires Readable(blocks, store.data) && Tiles(blocks, segments, pos, count)
      requires count <= |p| && pos + count <= |Data()|
      requires forall k :: 0 <= k < |segments| ==> Copied(p, segments[k], Data(), pos)
      ensures p[..count] == Data()[pos..pos + count]
    {
      forall at | 0 <= at < count ensures p[at] == Data()[pos + at] {
        var k := ChainedCovers(segments, count, at);
        var g := segments[k];
        assert Copied(p, g, Data(), pos);
        assert p[g.bufferStart..g.bufferEnd][at - g.bufferStart] == Data()[pos + g.bufferStart..pos + g.bufferEnd][at - g.bufferStart];
      }
    }

    /** Copying segment k leaves the bytes of the other segments alone. */
    lemma CopiesCommute(p: seq<byte>, q: seq<byte>, segments: seq<Segment>, k: nat, j: nat, pos: nat, count: nat)
      requires Readable(blocks, store.data) && Chained(segments, count) && count <= |p| == |q| && k < |segments| && j < |segments| && j != k
      requires segments[k].bufferStart <= segments[k].bufferEnd <= |p|
      requires q[..segments[k].bufferStart] == p[..segments[k].bufferStart] && q[segments[k].bufferEnd..] == p[segments[k].bufferEnd..]
      requires Copied(p, segments[j], Data(), pos)
      ensures Copied(q, segments[j], Data(), pos)
    {
      var l, r := segments[j].bufferStart, segments[j].bufferEnd;
      hide Object;
      if j < k {
        ChainedOrder(segments, count, j, k);
        SliceBefore(p, q, segments[k].bufferStart, l, r);
      } else {
        ChainedOrder(segments, count, k, j);
        SliceAfter(p, q, segments[k].bufferEnd, l, r);
      }
    }

    lemma CopyKeeps(p: seq<byte>, q: seq<byte>, segments: seq<Segment>, k: nat, phases: seq<Phase>, block: seq<byte>, pos: nat, count: nat)
      requires Readable(blocks, store.data) && Tiles(blocks, segments, pos, count) && count <= |p| && k < |segments| == |phases|
      requires block == store.data[blocks[segments[k].blockIndex].blockId]
      requires var g := segments[k];
               && g.bufferStart <= g.bufferEnd <= |p| && g.blockStart <= g.blockEnd <= |block|
               && g.bufferEnd - g.bufferStart == g.blockEnd - g.blockStart
               && q == p[..g.bufferStart] + block[g.blockStart..g.blockEnd] + p[g.bufferEnd..]
      requires forall j :: 0 <= j < |phases| && phases[j].Finished? ==> Copied(p, segments[j], Data(), pos)
      ensures forall j :: 0 <= j < |phases| && (phases[j].Finished? || j == k) ==> Copied(q, segments[j], Data(), pos)
      ensures q[count..] == p[count..]
    {
      var g := segments[k];
      SegmentBytes(g, pos);
      ChainedBounds(segments, count, k);
      hide Object, Start, Tiles;
      assert q[g.bufferStart..g.bufferEnd] == block[g.blockStart..g.blockEnd];
      assert q[..g.bufferStart] == p[..g.bufferStart];
      assert q[g.bufferEnd..] == p[g.bufferEnd..];
      assert q[count..] == q[g.bufferEnd..][count - g.bufferEnd..];
      forall j | 0 <= j < |phases| && phases[j].Finished? && j != k ensures Copied(q, segments[j], Data(), pos) {
        CopiesCommute(p, q, segments, k, j, pos, count);
      }
    }

    /** The goroutines of one Read: those about to copy have their block, the finished have copied it. */
    ghost predicate Running(p: array<byte>, segments: seq<Segment>, phases: seq<Phase>, pos: nat, count: nat)
      reads this, store, p
    {
      && Valid() && Tiles(blocks, segments, pos, count) && count <= p.Length && pos + count <= |Data()|
      && |phases| == |segments|
      && (forall k :: 0 <= k < |phases| && phases[k].Copying? ==> phases[k].block == store.data[blocks[segments[k].blockIndex].blockId])
      && (forall k :: 0 <= k < |phases| && phases[k].Finished? ==> Copied(p[..], segments[k], Data(), pos))
    }

    /** The goroutine of segment k fetches its block. */
    method FetchStep(p: array<byte>, segments: seq<Segment>, k: nat, phases: seq<Phase>, ghost pos: nat, ghost count: nat)
        returns (block: seq<byte>)
      requires Running(p, segments, phases, pos, count) && k < |segments|
      modifies this`cachedBlocks, this`toDelete
      ensures Running(p, segments, phases[k := Copying(block)], pos, count)
    {
      var info := blocks[segments[k].blockIndex];
      hide Tiles, Copied, Object;
      block := GetBlock(info);
    }

    /** It copies what it fetched; a block that has been read to its end leaves the cache, some time later. */
    method CopyStep(p: array<byte>, segments: seq<Segment>, k: nat, phases: seq<Phase>, ghost pos: nat, ghost count: nat)
      requires Running(p, segments, phases, pos, count) && k < |segments| && phases[k].Copying?
      modifies this`toDelete, p
      ensures Running(p, segments, phases[k := Finished], pos, count) && p[count..] == old(p[count..])
    {
      var g, block := segments[k], phases[k].block;
      ChainedBounds(segments, count, k);
      SegmentBytes(g, pos);
      hide Object, Start, Tiles, Copied;
      CopySegment(p, g, block);
      if g.blockEnd == |block| {
        toDelete := toDelete + {blocks[g.blockIndex].blockId};
      }
      CopyKeeps(old(p[..]), p[..], segments, k, phases, block, pos, count);
      assert old(p[..])[count..] == old(p[count..]);
      assert p[..][count..] == p[count..];
    }

    lemma AllFinished(p: array<byte>, segments: seq<Segment>, phases: seq<Phase>, pos: nat, count: nat)
      requires Running(p, segments, phases, pos, count) && forall k :: 0 <= k < |phases| ==> phases[k].Finished?
      ensures Valid() && Counted(segments, phases) == count && count <= p.Length && pos + count <= |Data()|
      ensures p[..count] == Data()[pos..pos + count]
    {
      CountedAll(segments, phases, count);
      AllCopied(p[..], segments, pos, count);
      assert p[..][..count] == p[..count];
    }

    lemma Launched(p: array<byte>, segments: seq<Segment>, phases: seq<Phase>, pos: nat, count: nat)
      requires Valid() && Tiles(blocks, segments, pos, count) && count <= p.Length && pos + count <= |Data()|
      requires |phases| == |segments| && forall k :: 0 <= k < |phases| ==> phases[k] == Fetching
      ensures Running(p, segments, phases, pos, count) && Counted(segments, phases) == 0
    {
      CountedNone(segments, phases);
    }

    /** One step of the goroutine of segment k. */
    method GoroutineStep(p: array<byte>, segments: seq<Segment>, k: nat, phases: seq<Phase>, sum: int, ghost pos: nat, ghost count: nat)
        returns (phases': seq<Phase>, sum': int)
      requires |phases| == |segments| && Running(p, segments, phases, pos, count) && k < |phases| && !phases[k].Finished?
      requires sum == Counted(segments, phases)
      modifies this`cachedBlocks, this`toDelete, p
      ensures |phases'| == |segments| && Running(p, segments, phases', pos, count) && p[count..] == old(p[count..])
      ensures sum' == Counted(segments, phases') && StepsLeft(phases') < StepsLeft(phases)
    {
      hide Tiles, Copied, Valid, Counted, Running, StepsLeft;
      sum' := sum;
      if phases[k].Fetching? {
        var block := FetchStep(p, segments, k, phases, pos, count);
        phases' := phases[k := Copying(block)];
      } else {
        CopyStep(p, segments, k, phases, pos, count);
        sum' := sum + (segments[k].bufferEnd - segments[k].bufferStart);
        phases' := phases[k := Finished];
      }
      CountedStep(segments, phases, k, phases'[k]);
      OneStepLess(phases, k, phases'[k]);
    }

    /** All goroutines of one Read, interleaved in any order. */
    method RunGoroutines(p: array<byte>, segments: seq<Segment>, ghost pos: nat, ghost count: nat) returns (n: nat)
      requires Valid() && Tiles(blocks, segments, pos, count) && count <= p.Length && pos + count <= |Data()|
      modifies this`cachedBlocks, this`toDelete, p
      ensures Valid() && n == count
      ensures p[..n] == Data()[pos..pos + n] && p[n..] == old(p[n..])
    {
      hide Tiles, Copied, Valid, Counted, Running, StepsLeft, Object;
      var phases, sum := seq(|segments|, _ => Fetching), 0;
      Launched(p, segments, phases, pos, count);
      while exists k: nat :: k < |phases| && !phases[k].Finished?
        invariant |phases| == |segments| && Running(p, segments, phases, pos, count) && p[count..] == old(p[count..])
        invariant sum == Counted(segments, phases)
        decreases StepsLeft(phases)
      {
        var k: nat :| k < |phases| && !phases[k].Finished?;
        phases, sum := GoroutineStep(p, segments, k, phases, sum, pos, count);
      }
      AllFinished(p, segments, phases, pos, count);
      n := sum;
    }

    /**
     * Reads the next bytes of the object into p. EOF comes with the last bytes, exactly when the
     * request is at least what remains; the cursor then stands at the last block again.
     */
    method Read(p: array<byte>) returns (n: nat, eof: bool)
      requires Valid()
      modifies this, p
      ensures Valid() && old(Pos()) <= objSize
      ensures eof <==> p.Length >= objSize - old(Pos())
      ensures n == if eof then objSize - old(Pos()) else p.Length
      ensures p[..n] == Data()[old(Pos())..old(Pos()) + n] && p[n..] == old(p[n..])
      ensures Pos() == if eof then LastStart(blocks) else old(Pos()) + n
    {
      ghost var pos := Pos();
      ObjectLength(blocks, store.data);
      hide Tiles, Object;
      var segments;
      segments, eof := CalcBlocks(p.Length);
      n := RunGoroutines(p, segments, pos, if eof then objSize - pos else p.Length);
    }

    /** Seek with io.SeekStart. The loop over the blocks up to the cursor panics without blocks. */
    method SeekStart(offset: nat) returns (newOffset: nat, err: SeekError)
      requires Valid()
      modifies this`curBlockIndex, this`curBlockOffset
      ensures Valid() && newOffset == offset
      ensures err == if blocks == [] then IndexPanic else if offset >= objSize then EndOfObject else NoError
      ensures err == NoError ==> Pos() == offset
    {
      if |blocks| == 0 { return offset, IndexPanic; }
      ObjectLength(blocks, store.data);
      hide Object;
      var curOffset := 0;
      for i := 0 to curBlockIndex + 1
        invariant curOffset == Start(blocks, i)
      {
        curOffset := curOffset + blocks[i].blockSize;
      }
      newOffset := offset;
      curBlockIndex, curBlockOffset := 0, 0;
      var _, eof := CalcBlocks(offset);
      if eof {
        return newOffset, EndOfObject;
      }
      err := if newOffset > objSize then OutOfRange else NoError;
    }

    /** Reads into a buffer of its own. */
    method ReadSome(size: nat) returns (bytes: seq<byte>, eof: bool)
      requires Valid()
      modifies this
      ensures Valid() && old(Pos()) <= objSize
      ensures eof <==> old(Pos()) + size >= objSize
      ensures bytes == Data()[old(Pos())..if eof then objSize else old(Pos()) + size]
      ensures !eof ==> Pos() == old(Pos()) + size
    {
      hide Object;
      var p := new byte[size];
      var n;
      n, eof := Read(p);
      bytes := p[..n];
    }

    /** Reads with buffers of the given sizes, up to and including the first EOF. */
    method ReadRun(sizes: seq<nat>) returns (out: seq<byte>, eof: bool)
      requires Valid()
      modifies this
      ensures Valid() && old(Pos()) <= objSize
      ensures eof <==> sizes != [] && Sum(sizes) >= objSize - old(Pos())
      ensures out == Data()[old(Pos())..old(Pos()) + (if eof then objSize - old(Pos()) else Sum(sizes))]
    {
      ObjectLength(blocks, store.data);
      PosInside();
      ghost var pos := Pos();
      out, eof := [], false;
      for k := 0 to |sizes|
        invariant Valid() && !eof && pos + Sum(sizes[..k]) <= objSize && Pos() == pos + Sum(sizes[..k])
        invariant out == Data()[pos..Pos()]
        invariant k > 0 ==> Pos() < objSize
      {
        hide Object;
        assert sizes[..k + 1][..k] == sizes[..k];
        SumPrefix(sizes, k + 1);
        ghost var at, data := Pos(), Data();
        var bytes;
        bytes, eof := ReadSome(sizes[k]);
        SliceJoin(data, pos, at, at + |bytes|);
        out := out + bytes;
        if eof { return; }
      }
      assert sizes[..|sizes|] == sizes;
    }

    /** io.CopyN with a buffer of bufferSize bytes. */
    method CopyN(length: nat, bufferSize: nat) returns (out: seq<byte>)
      requires Valid() && bufferSize > 0
      modifies this
      ensures Valid() && old(Pos()) <= objSize
      ensures out == Data()[old(Pos())..Min(old(Pos()) + length, objSize)]
    {
      ObjectLength(blocks, store.data);
      PosInside();
      ghost var pos := Pos();
      out := [];
      var left := length;
      while left > 0
        invariant Valid() && pos <= Pos() <= objSize && 0 <= left <= length && Pos() == pos + length - left
        invariant out == Data()[pos..Pos()]
      {
        hide Object;
        ghost var at, data := Pos(), Data();
        var bytes, eof := ReadSome(Min(left, bufferSize));
        SliceJoin(data, pos, at, at + |bytes|);
        out := out + bytes;
        if eof { return; }
        left := left - |bytes|;
      }
    }

    /** The answer to a request for a single range. */
    method ReadRange(start: nat, length: nat, bufferSize: nat) returns (out: seq<byte>, err: SeekError)
      requires Valid() && bufferSize > 0
      modifies this
      ensures Valid()
      ensures err == if blocks == [] then IndexPanic else if start >= objSize then EndOfObject else NoError
      ensures err == NoError ==> out == Data()[start..Min(start + length, objSize)]
    {
      var newOffset;
      newOffset, err := SeekStart(start);
      out := [];
      if err == NoError {
        out := CopyN(length, bufferSize);
      }
    }
  }
}
