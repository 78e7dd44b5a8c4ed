/**
 * The data path end to end: an object is written slice by slice and closed, and read back through
 * the metadata that Close committed.
 */
module DataPath {
  import opened Basics
  import opened ChunkPool
  import opened BlockStore
  import opened WriterState
  import opened Writer
  import opened Reader
  import HttpRange

  datatype Outcome =
    | Stored
    | UploadFailed               // Close has committed metadata that cannot be read
    | NoRoom                     // a block holds no chunk
    | Waiting                    // Write waits for chunks that other writers hold

  /** All chunks of the pool are idle. */
  ghost predicate Idle(pool: Pool)
    reads pool
  {
    forall c :: c in pool.mem ==> c in pool.resources
  }

  ghost predicate Open(w: EcosWriter)
    reads w, w.pool, w.store
  {
    w.Valid() && w.status == READING
  }

  /** Why a write did not go through. */
  ghost predicate Refused(w: EcosWriter, outcome: Outcome)
    reads w, w.pool
  {
    (outcome == NoRoom && w.perBlock == 0) || (outcome == Waiting && |w.others| + w.perBlock > w.pool.maxCount)
  }

  method WriteSlice(w: EcosWriter, slice: seq<byte>, alone: bool) returns (outcome: Outcome)
    requires Open(w)
    modifies w, w.pool, w.store
    ensures if outcome == Stored then Open(w) && w.Taken() == old(w.Taken()) + slice else Refused(w, outcome)
    ensures alone && old(w.others) == {} ==> w.others == {}
  {
    hide Inv, Full, Written;
    var n, err := w.Write(slice, alone);
    outcome := if err == WriteError.NoError then Stored else if err == ZeroSize then NoRoom else Waiting;
  }

  method WriteSlices(w: EcosWriter, slices: seq<seq<byte>>, alone: bool) returns (outcome: Outcome)
    requires Open(w)
    modifies w, w.pool, w.store
    ensures if outcome == Stored then Open(w) && w.Taken() == old(w.Taken()) + Flatten(slices) else Refused(w, outcome)
    ensures alone && old(w.others) == {} ==> w.others == {}
  {
    hide Inv, Full, EcosWriter.Taken;
    outcome := Stored;
    for k := 0 to |slices|
      invariant Open(w) && w.Taken() == old(w.Taken()) + Flatten(slices[..k]) && outcome == Stored
      invariant alone && old(w.others) == {} ==> w.others == {}
    {
      outcome := WriteSlice(w, slices[k], alone);
      if outcome != Stored { return; }
      FlattenSnoc(slices, k);
    }
    assert slices[..|slices|] == slices;
  }

  /** What the outcome of storing bytes says; others are the chunks in the hands of other writers. */
  ghost predicate Outcomes(outcome: Outcome, meta: ObjectMeta, data: Blocks, bytes: seq<byte>, perBlock: nat, maxCount: nat, others: set<ChunkId>) {
    match outcome
    case Stored => Describes(meta, data, bytes)
    case UploadFailed => !Readable(meta.blocks, data)
    case NoRoom => perBlock == 0
    case Waiting => |others| + perBlock > maxCount
  }

  method CloseObject(w: EcosWriter) returns (meta: ObjectMeta, outcome: Outcome)
    requires Open(w)
    modifies w, w.pool, w.store
    ensures if outcome == Stored then Describes(meta, w.store.data, old(w.Taken()))
            else outcome == UploadFailed && !w.reliable && !Readable(meta.blocks, w.store.data)
  {
    hide Inv, Full, Written;
    var err;
    meta, err := w.Close(true);
    outcome := if exists i :: i in w.blocks && w.blocks[i].status != FINISHED then UploadFailed else Stored;
  }

  /** The other writers hold nothing and the servers accept everything: the bytes are stored. */
  ghost predicate Succeeds(outcome: Outcome, perBlock: nat, maxCount: nat) {
    0 < perBlock <= maxCount ==> outcome == Stored
  }

  /**
   * Writes the slices and closes. A writer that shares its pool with nobody never waits for good
   * if the pool may hold the chunks of one block; if the servers accept its uploads, it succeeds.
   */
  method StoreObject(pool: Pool, store: BlockStore.Store, perBlock: nat, slices: seq<seq<byte>>, alone: bool, reliable: bool)
      returns (meta: ObjectMeta, outcome: Outcome, ghost others: set<ChunkId>)
    requires pool.Valid() && store.Valid() && pool.chunkSize > 0
    modifies pool, store
    ensures Outcomes(outcome, meta, store.data, Flatten(slices), perBlock, pool.maxCount, others)
    ensures reliable ==> outcome != UploadFailed
    ensures alone && old(Idle(pool)) ==> others == {}
    ensures alone && old(Idle(pool)) && reliable ==> Succeeds(outcome, perBlock, pool.maxCount)
  {
    var w := new EcosWriter(pool, store, perBlock, reliable);
    hide Inv, Full, Written;
    assert w.Taken() == [];
    meta := ObjectMeta(0, []);
    outcome := WriteSlices(w, slices, alone);
    others := w.others;
    if outcome == Stored {
      meta, outcome := CloseObject(w);
    }
  }

  /** Every way of cutting the bytes into writes and the reads into buffers gives the bytes back. */
  method RoundTrip(pool: Pool, store: BlockStore.Store, perBlock: nat, slices: seq<seq<byte>>, alone: bool, reliable: bool,
                   sizes: seq<nat>)
      returns (out: seq<byte>, eof: bool, meta: ObjectMeta, outcome: Outcome, ghost others: set<ChunkId>)
    requires pool.Valid() && store.Valid() && pool.chunkSize > 0
    modifies pool, store
    ensures Outcomes(outcome, meta, store.data, Flatten(slices), perBlock, pool.maxCount, others)
    ensures reliable ==> outcome != UploadFailed
    ensures alone && old(Idle(pool)) ==> others == {}
    ensures alone && old(Idle(pool)) && reliable ==> Succeeds(outcome, perBlock, pool.maxCount)
    ensures outcome == Stored ==> (eof <==> sizes != [] && Sum(sizes) >= |Flatten(slices)|)
    ensures outcome == Stored && eof ==> out == Flatten(slices)
    ensures outcome == Stored && !eof ==> Sum(sizes) <= |Flatten(slices)| && out == Flatten(slices)[..Sum(sizes)]
  {
    meta, outcome, others := StoreObject(pool, store, perBlock, slices, alone, reliable);
    out, eof := [], false;
    if outcome == Stored {
      var r := new EcosReader(store, meta.blocks, meta.objSize);
      hide Object, Readable;
      out, eof := r.ReadRun(sizes);
    }
  }

  /** And every range of the object, from any cursor state, gives that range of the bytes. */
  method RangeRoundTrip(pool: Pool, store: BlockStore.Store, perBlock: nat, slices: seq<seq<byte>>, alone: bool, reliable: bool,
                        sizes: seq<nat>, start: nat, length: nat, bufferSize: nat)
      returns (out: seq<byte>, err: SeekError, meta: ObjectMeta, outcome: Outcome, ghost others: set<ChunkId>)
    requires pool.Valid() && store.Valid() && pool.chunkSize > 0 && bufferSize > 0
    modifies pool, store
    ensures Outcomes(outcome, meta, store.data, Flatten(slices), perBlock, pool.maxCount, others)
    ensures reliable ==> outcome != UploadFailed
    ensures alone && old(Idle(pool)) ==> others == {}
    ensures alone && old(Idle(pool)) && reliable ==> Succeeds(outcome, perBlock, pool.maxCount)
    ensures outcome == Stored && start + length <= |Flatten(slices)| && length > 0 ==>
              err == SeekError.NoError && out == Flatten(slices)[start..start + length]
  {
    meta, outcome, others := StoreObject(pool, store, perBlock, slices, alone, reliable);
    out, err := [], SeekError.NoError;
    if outcome == Stored {
      var r := new EcosReader(store, meta.blocks, meta.objSize);
      assert meta.blocks == [] ==> Object(meta.blocks, store.data) == [];
      hide Object, Readable;
      var before, eof := r.ReadRun(sizes);
      out, err := r.ReadRange(start, length, bufferSize);
    }
  }

  datatype Response =
    | Partial(body: seq<byte>)
    | Multipart(bodies: seq<seq<byte>>)
    | NotSatisfiable
    | ServerError
    | Panic
    | Unmodelled                // a suffix range so large that its start wraps around

  /** What a range within the integers reads as. */
  ghost function Slice(data: seq<byte>, r: HttpRange.Range): seq<byte>
    requires |data| < TWO_63
  {
    if HttpRange.Inside(r, |data|) then data[r.start..r.start + r.length] else []
  }

  /** One part of an answer: the second Seek and the copy, whose EOF is passed over. */
  method CopyRange(r: EcosReader, range: HttpRange.Range, bufferSize: nat) returns (body: seq<byte>)
    requires r.Valid() && r.blocks != [] && r.objSize < TWO_63 && bufferSize > 0
    requires HttpRange.Inside(range, r.objSize) || (range.start > r.objSize && range.length < 0)
    modifies r
    ensures r.Valid() && body == Slice(r.Data(), range)
  {
    hide Object, Readable;
    var newOffset, err := r.SeekStart(range.start);
    body := [];
    if range.length > 0 {
      body := r.CopyN(range.length, bufferSize);
    }
  }

  method CopyRanges(r: EcosReader, ranges: seq<HttpRange.Range>, bufferSize: nat) returns (bodies: seq<seq<byte>>)
    requires r.Valid() && r.blocks != [] && r.objSize < TWO_63 && bufferSize > 0
    requires forall k :: 0 <= k < |ranges| ==>
               HttpRange.Inside(ranges[k], r.objSize) || (ranges[k].start > r.objSize && ranges[k].length < 0)
    modifies r
    ensures r.Valid() && |bodies| == |ranges| && forall k :: 0 <= k < |ranges| ==> bodies[k] == Slice(r.Data(), ranges[k])
  {
    hide Object, Readable;
    bodies := [];
    ghost var data := r.Data();
    for k := 0 to |ranges|
      invariant r.Valid() && r.Data() == data && |bodies| == k
      invariant forall j :: 0 <= j < k ==> bodies[j] == Slice(data, ranges[j])
    {
      var ignored, err := r.SeekStart(ranges[0].start);
      var body := CopyRange(r, ranges[k], bufferSize);
      bodies := bodies + [body];
    }
  }

  /** What the answer to ranges within the integers is. */
  ghost predicate Answers(response: Response, ranges: seq<HttpRange.Range>, blocks: seq<BlockInfo>, data: seq<byte>)
    requires ranges != [] && |data| < TWO_63
  {
    if blocks == [] then response == Panic
    else if ranges[0].start >= |data| then response == ServerError
    else if |ranges| == 1 then response == Partial(Slice(data, ranges[0]))
    else response.Multipart? && |response.bodies| == |ranges|
         && forall k :: 0 <= k < |ranges| ==> response.bodies[k] == Slice(data, ranges[k])
  }

  method Answer(r: EcosReader, ranges: seq<HttpRange.Range>, bufferSize: nat) returns (response: Response)
    requires r.Valid() && r.objSize < TWO_63 && bufferSize > 0 && ranges != []
    requires forall k :: 0 <= k < |ranges| ==>
               HttpRange.Inside(ranges[k], r.objSize) || (ranges[k].start > r.objSize && ranges[k].length < 0)
    modifies r
    ensures r.Valid() && Answers(response, ranges, r.blocks, r.Data())
  {
    hide Object, Readable;
    var newOffset, err := r.SeekStart(ranges[0].start);
    if err == IndexPanic { return Panic; }
    if err != SeekError.NoError { return ServerError; }
    if |ranges| == 1 {
      var body := r.CopyN(ranges[0].length, bufferSize);
      return Partial(body);
    }
    var bodies := CopyRanges(r, ranges, bufferSize);
    response := Multipart(bodies);
  }

  lemma Shapes(header: string, size: int64, ranges: seq<HttpRange.Range>)
    requires size >= 0 && HttpRange.Parse(header, size) == HttpRange.Ranges(ranges)
    requires forall k :: 0 <= k < |ranges| ==> ranges[k].start >= 0
    ensures forall k :: 0 <= k < |ranges| ==>
              HttpRange.Inside(ranges[k], size) || (ranges[k].start > size && ranges[k].length < 0)
  {
    hide HttpRange.Parse, HttpRange.Inside;
    forall k | 0 <= k < |ranges|
      ensures HttpRange.Inside(ranges[k], size) || (ranges[k].start > size && ranges[k].length < 0)
    {
      HttpRange.RangeShape(header, size, ranges[k]);
    }
  }

  /**
   * The answer to a request with a Range header. Ranges that lie within the object are answered
   * with exactly these bytes, one range alone or several as parts in order, unless the first one
   * starts at the end. A range of an object without blocks makes Seek panic.
   */
  method ServeRange(r: EcosReader, header: string, bufferSize: nat) returns (response: Response)
    requires r.Valid() && r.objSize < TWO_63 && bufferSize > 0 && header != ""
    modifies r
    ensures r.Valid()
    ensures match HttpRange.Parse(header, r.objSize)
            case InvalidRange => response == NotSatisfiable
            case Ranges(ranges) =>
              if ranges == [] then response == NotSatisfiable
              else if exists k :: 0 <= k < |ranges| && ranges[k].start < 0 then response == Unmodelled
              else Answers(response, ranges, r.blocks, r.Data())
  {
    hide HttpRange.Parse, HttpRange.Inside, Object, Readable, Answers;
    var parsed := HttpRange.ParseRange(header, r.objSize);
    if parsed.InvalidRange? || |parsed.ranges| == 0 {
      return NotSatisfiable;
    }
    if exists k :: 0 <= k < |parsed.ranges| && parsed.ranges[k].start < 0 {
      return Unmodelled;
    }
    Shapes(header, r.objSize, parsed.ranges);
    response := Answer(r, parsed.ranges, bufferSize);
  }
}
