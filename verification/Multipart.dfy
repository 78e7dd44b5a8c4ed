/**
 * Multipart uploads: parts are written in any order and may be written again; each version of a
 * part is uploaded by a goroutine of its own, and CloseMultiPart waits for the listed parts.
 */
module Multipart {
  import opened Basics
  import opened BlockStore

  datatype Status = READING | UPLOADING | FAILED | FINISHED

  datatype PartError = NoError | RepeatedClose | InvalidArgument | InvalidPart | AbortFailed | ReadFailed | Hung | MetaRejected

  /** One version of a part. Its block id, in the program set when the upload starts, is fixed on creation. */
  datatype Part = Part(partId: int, bytes: seq<byte>, status: Status, info: BlockInfo) {
    predicate Ended() {
      status == FINISHED || status == FAILED
    }
  }

  type Version = nat

  datatype State = State(
    reliable: bool,                // the servers accept every upload of this writer
    partIDs: seq<int>,
    blocks: map<int, Version>,     // the current version of each part
    heap: seq<Part>,               // all versions, in the order of their creation
    inFlight: set<Version>,        // versions whose goroutine has not handed in its block
    data: Blocks,
    nextId: BlockId
  )

  // -- Invariant -------------------------------------------------------------------------------

  ghost predicate Ascending(ids: seq<int>) {
    forall i, j :: 0 <= i < j < |ids| ==> ids[i] < ids[j]
  }

  ghost predicate Current(s: State, v: Version) {
    v < |s.heap| && s.heap[v].partId in s.blocks && s.blocks[s.heap[v].partId] == v
  }

  ghost predicate PartOk(s: State, v: Version)
    requires v < |s.heap|
  {
    var p := s.heap[v];
    && p.info.blockId < s.nextId
    && (p.status != FINISHED ==> p.info.blockId !in s.data)
    && (p.status == READING ==> v !in s.inFlight && p.info.blockSize == 0)
    && (p.status == UPLOADING ==> v in s.inFlight)
    && (p.status != READING ==> p.info.blockSize == |p.bytes|)
    && (s.reliable ==> p.status != FAILED)
    && (p.status == FINISHED && Current(s, v) ==> p.info.blockId in s.data && s.data[p.info.blockId] == p.bytes)
  }

  /** Part numbers are ascending and are exactly the keys of blocks. */
  ghost predicate Indexed(s: State) {
    && Ascending(s.partIDs) && (forall id :: id in s.partIDs <==> id in s.blocks)
    && (forall id :: id in s.blocks ==> 1 <= id <= 10000 && s.blocks[id] < |s.heap| && s.heap[s.blocks[id]].partId == id)
  }

  ghost predicate Inv(s: State) {
    && Indexed(s)
    && (forall v: nat :: v < |s.heap| ==> PartOk(s, v))
    && (forall u: nat, v: nat :: u < v < |s.heap| ==> s.heap[u].info.blockId < s.heap[v].info.blockId)
    && (forall v :: v in s.inFlight ==> v < |s.heap|)
    && (forall id :: id in s.data ==> id < s.nextId)
  }

  /** The current versions hold the given bytes. */
  ghost predicate Holds(s: State, parts: map<int, seq<byte>>) {
    forall id :: (id in parts <==> id in s.blocks)
                 && (id in parts ==> s.blocks[id] < |s.heap| && s.heap[s.blocks[id]].bytes == parts[id])
  }

  // -- Steps -----------------------------------------------------------------------------------

  /** The upload of version v ends. */
  function End(s: State, v: Version, ok: bool): State
    requires v < |s.heap|
  {
    var p := s.heap[v];
    s.(heap := s.heap[v := p.(status := if ok then FINISHED else FAILED)],
       data := if ok then s.data[p.info.blockId := p.bytes] else s.data)
  }

  /** The block of version v is received from the channel. */
  function Receive(s: State, v: Version): State {
    s.(inFlight := s.inFlight - {v})
  }

  /** The current version of a part is deleted from the servers and from the map. */
  function Drop(s: State, id: int): State
    requires id in s.blocks && s.blocks[id] < |s.heap|
  {
    s.(data := s.data - {s.heap[s.blocks[id]].info.blockId}, blocks := s.blocks - {id})
  }

  /** A new version becomes the current one. */
  function Create(s: State, id: int): State {
    s.(blocks := s.blocks[id := |s.heap|],
       heap := s.heap + [Part(id, [], READING, BlockInfo(s.nextId, 0))], nextId := s.nextId + 1)
  }

  /** The newest version gets its bytes; without a read error it is handed to its goroutine. */
  function Fill(s: State, bytes: seq<byte>, ok: bool): State
    requires s.heap != []
  {
    var v := |s.heap| - 1;
    var p := s.heap[v];
    if ok then
      s.(heap := s.heap[v := p.(bytes := bytes, status := UPLOADING, info := p.info.(blockSize := |bytes|))],
         inFlight := s.inFlight + {v})
    else
      s.(heap := s.heap[v := p.(bytes := bytes)])
  }

  lemma IdsDiffer(s: State, u: Version, v: Version)
    requires Inv(s) && u < |s.heap| && v < |s.heap| && u != v
    ensures s.heap[u].info.blockId != s.heap[v].info.blockId
  {
    assert u < v ==> s.heap[u].info.blockId < s.heap[v].info.blockId;
    assert v < u ==> s.heap[v].info.blockId < s.heap[u].info.blockId;
  }

  lemma EndKeeps(s: State, v: Version, ok: bool, parts: map<int, seq<byte>>)
    requires Inv(s) && v < |s.heap| && s.heap[v].status == UPLOADING && Holds(s, parts) && (s.reliable ==> ok)
    ensures Inv(End(s, v, ok)) && Holds(End(s, v, ok), parts)
  {
    var t := End(s, v, ok);
    assert PartOk(s, v);
    forall u: nat | u < |t.heap| ensures PartOk(t, u) {
      assert PartOk(s, u);
      if u != v { IdsDiffer(s, u, v); }
    }
  }

  /** The deletion of a superseded version by abortBlock. */
  function Purge(s: State, v: Version): State
    requires v < |s.heap|
  {
    s.(data := s.data - {s.heap[v].info.blockId})
  }

  lemma PurgeKeeps(s: State, v: Version)
    requires Inv(s) && v < |s.heap| && !Current(s, v)
    ensures Inv(Purge(s, v))
  {
    var t := Purge(s, v);
    forall u: nat | u < |t.heap| ensures PartOk(t, u) {
      assert PartOk(s, u);
      if u != v { IdsDiffer(s, u, v); }
    }
  }

  lemma ReceiveKeeps(s: State, v: Version)
    requires Inv(s) && v < |s.heap| && s.heap[v].Ended()
    ensures Inv(Receive(s, v))
  {
    var t := Receive(s, v);
    forall u: nat | u < |t.heap| ensures PartOk(t, u) {
      assert PartOk(s, u);
    }
  }

  /** The part numbered id is no longer current; its number is still listed. */
  ghost predicate InvWithout(s: State, id: int) {
    && Ascending(s.partIDs) && id !in s.blocks
    && (forall i :: i in s.blocks ==> i in s.partIDs && 1 <= i <= 10000 && s.blocks[i] < |s.heap| && s.heap[s.blocks[i]].partId == i)
    && (forall i :: i in s.partIDs ==> i in s.blocks || i == id)
    && (forall v: nat :: v < |s.heap| ==> PartOk(s, v))
    && (forall u: nat, v: nat :: u < v < |s.heap| ==> s.heap[u].info.blockId < s.heap[v].info.blockId)
    && (forall v :: v in s.inFlight ==> v < |s.heap|)
    && (forall i :: i in s.data ==> i < s.nextId)
  }

  lemma DropKeeps(s: State, id: int, parts: map<int, seq<byte>>)
    requires Inv(s) && id in s.blocks && Holds(s, parts)
    ensures s.blocks[id] < |s.heap| && InvWithout(Drop(s, id), id) && Holds(Drop(s, id), parts - {id})
  {
    var t, w := Drop(s, id), s.blocks[id];
    forall u: nat | u < |t.heap| ensures PartOk(t, u) {
      assert PartOk(s, u);
      if u != w { IdsDiffer(s, u, w); }
    }
  }

  lemma AddKeeps(s: State, id: int, ids: seq<int>, parts: map<int, seq<byte>>)
    requires Inv(s) && id !in s.blocks && Ascending(ids) && forall i :: i in ids <==> i in s.partIDs || i == id
    requires Holds(s, parts)
    ensures InvWithout(s.(partIDs := ids), id) && Holds(s.(partIDs := ids), parts) && parts == parts - {id}
  {
    assert id !in parts;
    forall u: nat | u < |s.heap| ensures PartOk(s.(partIDs := ids), u) {
      assert PartOk(s, u);
    }
  }

  lemma ListedAreCurrent(s: State, id: int)
    requires Inv(s)
    ensures Ascending(s.partIDs) && (id in s.partIDs <==> id in s.blocks)
  {
  }

  /** The new version is current and empty. */
  lemma CreateKeeps(s: State, id: int, parts: map<int, seq<byte>>)
    requires InvWithout(s, id) && id in s.partIDs && 1 <= id <= 10000 && Holds(s, parts)
    ensures Inv(Create(s, id)) && Holds(Create(s, id), parts[id := []])
  {
    var t := Create(s, id);
    forall u: nat | u < |t.heap| ensures PartOk(t, u) {
      if u < |s.heap| { assert PartOk(s, u); }
    }
    forall u: nat, v: nat | u < v < |t.heap| ensures t.heap[u].info.blockId < t.heap[v].info.blockId {
      assert PartOk(s, u);
    }
  }

  lemma FillOk(s: State, bytes: seq<byte>, ok: bool, u: Version)
    requires s.heap != [] && s.heap[|s.heap| - 1].status == READING && u < |s.heap| && PartOk(s, u)
    ensures PartOk(Fill(s, bytes, ok), u)
  {
  }

  lemma FillKeeps(s: State, bytes: seq<byte>, ok: bool, parts: map<int, seq<byte>>)
    requires Inv(s) && s.heap != [] && s.heap[|s.heap| - 1].status == READING && Current(s, |s.heap| - 1) && Holds(s, parts)
    ensures Inv(Fill(s, bytes, ok))
    ensures Holds(Fill(s, bytes, ok), parts[s.heap[|s.heap| - 1].partId := bytes])
  {
    var t, v := Fill(s, bytes, ok), |s.heap| - 1;
    forall u: nat | u < |t.heap| ensures PartOk(t, u) {
      FillOk(s, bytes, ok, u);
    }
    hide PartOk;
    forall u: nat, w: nat | u < w < |t.heap| ensures t.heap[u].info.blockId < t.heap[w].info.blockId {
      assert s.heap[u].info.blockId < s.heap[w].info.blockId;
    }
    forall id | id in s.blocks && id != s.heap[v].partId ensures s.blocks[id] != v {
      assert s.heap[s.blocks[id]].partId == id;
    }
  }

  /** From s to t only upload goroutines have moved. */
  ghost predicate Later(s: State, t: State) {
    && t.partIDs == s.partIDs && t.blocks == s.blocks && t.inFlight == s.inFlight && |t.heap| == |s.heap|
    && forall v: nat :: v < |s.heap| ==> Moved(s.heap[v], t.heap[v])
  }

  ghost predicate Moved(p: Part, q: Part) {
    q == p.(status := q.status) && (q.status == p.status || (p.status == UPLOADING && q.Ended()))
  }

  /** The last WritePart of part id has started an upload. */
  predicate Started(s: State, id: int) {
    id in s.blocks && s.blocks[id] < |s.heap| && s.heap[s.blocks[id]].status != READING
  }

  /** No current version has been received yet. */
  ghost predicate AllAhead(s: State) {
    forall id :: Started(s, id) ==> s.blocks[id] in s.inFlight
  }

  /** From s to t part id has got a new version, with an upload or not; the others are as before. */
  ghost predicate Rewritten(s: State, t: State, id: int, started: bool) {
    (forall i :: i != id ==> Started(t, i) == Started(s, i)) && Started(t, id) == started
  }

  lemma NewVersionRewrites(s: State, t: State, id: int, started: bool)
    requires Inv(s) && |t.heap| == |s.heap| + 1 && t.heap[..|s.heap|] == s.heap && t.blocks == s.blocks[id := |s.heap|]
    requires Started(t, id) == started && t.inFlight == if started then s.inFlight + {|s.heap|} else s.inFlight
    ensures Rewritten(s, t, id, started) && (AllAhead(s) ==> AllAhead(t))
  {
    assert forall i: nat :: i < |s.heap| ==> t.heap[i] == s.heap[i];
  }

  lemma LaterTrans(s: State, t: State, u: State)
    requires Later(s, t) && Later(t, u)
    ensures Later(s, u)
  {
    forall v: nat | v < |s.heap| ensures Moved(s.heap[v], u.heap[v]) {
      assert Moved(s.heap[v], t.heap[v]) && Moved(t.heap[v], u.heap[v]);
    }
  }

  lemma LaterStarted(s: State, t: State)
    requires Later(s, t)
    ensures (forall i :: Started(t, i) == Started(s, i)) && (AllAhead(s) ==> AllAhead(t))
  {
    forall i ensures Started(t, i) == Started(s, i) {
      assert i in s.blocks && s.blocks[i] < |s.heap| ==> Moved(s.heap[s.blocks[i]], t.heap[s.blocks[i]]);
    }
  }

  /** The loop over the reader: the part is what its reads return, the block size their total. */
  method ReadChunks(chunks: seq<seq<byte>>) returns (bytes: seq<byte>, blockSize: nat)
    ensures bytes == Flatten(chunks) && blockSize == |bytes|
  {
    bytes, blockSize := [], 0;
    for k := 0 to |chunks|
      invariant bytes == Flatten(chunks[..k]) && blockSize == |bytes|
    {
      FlattenSnoc(chunks, k);
      bytes, blockSize := bytes + chunks[k], blockSize + |chunks[k]|;
    }
    assert chunks[..|chunks|] == chunks;
  }

  // -- The metadata ------------------------------------------------------------------------------

  /** The blocks are those of the current versions, by part number. */
  ghost predicate Lists(infos: seq<BlockInfo>, s: State) {
    && |infos| == |s.partIDs|
    && forall k :: 0 <= k < |infos| ==>
         s.partIDs[k] in s.blocks && s.blocks[s.partIDs[k]] < |s.heap| && infos[k] == s.heap[s.blocks[s.partIDs[k]]].info
  }

  ghost function InOrder(ids: seq<int>, parts: map<int, seq<byte>>): seq<seq<byte>>
    requires forall k :: 0 <= k < |ids| ==> ids[k] in parts
  {
    seq(|ids|, k requires 0 <= k < |ids| => parts[ids[k]])
  }

  ghost predicate AllFinished(s: State) {
    forall id :: id in s.blocks && s.blocks[id] < |s.heap| ==> s.heap[s.blocks[id]].status == FINISHED
  }

  /**
   * The metadata can be read back if and only if the current version of every part is uploaded,
   * and then they describe the parts in ascending order.
   */
  lemma PartsReadable(s: State, parts: map<int, seq<byte>>, meta: ObjectMeta)
    requires Inv(s) && Holds(s, parts) && Lists(meta.blocks, s) && meta.objSize == Start(meta.blocks, |meta.blocks|)
    ensures forall k :: 0 <= k < |s.partIDs| ==> s.partIDs[k] in parts
    ensures Readable(meta.blocks, s.data) <==> AllFinished(s)
    ensures AllFinished(s) ==> Describes(meta, s.data, Flatten(InOrder(s.partIDs, parts)))
  {
    var infos := meta.blocks;
    forall k | 0 <= k < |infos|
      ensures s.heap[s.blocks[s.partIDs[k]]].status == FINISHED <==> infos[k].blockId in s.data
      ensures infos[k].blockId in s.data ==> s.data[infos[k].blockId] == parts[s.partIDs[k]] && infos[k].blockSize == |parts[s.partIDs[k]]|
    {
      var id := s.partIDs[k];
      assert id in s.partIDs && PartOk(s, s.blocks[id]) && Current(s, s.blocks[id]);
    }
    if Readable(infos, s.data) {
      forall id | id in s.blocks ensures s.heap[s.blocks[id]].status == FINISHED {
        var k :| 0 <= k < |s.partIDs| && s.partIDs[k] == id;
        assert infos[k].blockId in s.data;
      }
    }
    if AllFinished(s) {
      ReadableParts(s, parts, infos);
    }
  }

  lemma ReadableParts(s: State, parts: map<int, seq<byte>>, infos: seq<BlockInfo>)
    requires |infos| == |s.partIDs| && forall k :: 0 <= k < |s.partIDs| ==> s.partIDs[k] in parts
    requires forall k :: 0 <= k < |infos| ==> infos[k].blockId in s.data && s.data[infos[k].blockId] == parts[s.partIDs[k]]
                                              && infos[k].blockSize == |parts[s.partIDs[k]]|
    ensures Readable(infos, s.data) && Object(infos, s.data) == Flatten(InOrder(s.partIDs, parts))
    ensures |Object(infos, s.data)| == Start(infos, |infos|)
  {
    assert Fetch(infos, s.data) == InOrder(s.partIDs, parts);
    ObjectLength(infos, s.data);
  }

  // -- Waiting for the listed parts -----------------------------------------------------------------

  /**
   * `left` are the listed parts whose current upload has not been received, `pending` is what the
   * loop of CloseMultiPart still counts: one for each of them and one for each repeated entry.
   */
  ghost predicate Awaiting(s: State, list: seq<int>, left: set<int>, pending: nat) {
    && (forall id :: id in list ==> id in s.blocks && s.blocks[id] < |s.heap|)
    && left <= ToSet(list) && pending == |left| + (|list| - |ToSet(list)|)
    && (forall id :: id in list && id !in left ==> s.heap[s.blocks[id]].Ended())
    && (forall id :: id in left && Started(s, id) ==> s.blocks[id] in s.inFlight)
  }

  lemma StartAwaiting(s: State, list: seq<int>)
    requires Inv(s) && AllAhead(s) && forall id :: id in list ==> id in s.blocks
    ensures Awaiting(s, list, ToSet(list), |list|)
  {
    DistinctSize(list);
  }

  /** A completion counts if it is that of the current version of a part still waited for. */
  predicate Counts(s: State, left: set<int>, v: Version) {
    v < |s.heap| && s.heap[v].partId in left && s.heap[v].partId in s.blocks && s.blocks[s.heap[v].partId] == v
  }

  lemma ReadyToReceive(s: State, list: seq<int>, left: set<int>, pending: nat, v: Version)
    requires Inv(s) && Awaiting(s, list, left, pending) && v in s.inFlight && v < |s.heap| && s.heap[v].status != UPLOADING
    ensures s.heap[v].Ended() && forall id :: id in left ==> id in s.blocks
  {
    assert PartOk(s, v);
  }

  lemma ReceiveAwaiting(s: State, list: seq<int>, left: set<int>, pending: nat, v: Version)
    requires Inv(s) && Awaiting(s, list, left, pending) && v < |s.heap| && s.heap[v].Ended() && v in s.inFlight
    ensures Counts(s, left, v) ==> pending > 0 && Awaiting(Receive(s, v), list, left - {s.heap[v].partId}, pending - 1)
    ensures !Counts(s, left, v) ==> Awaiting(Receive(s, v), list, left, pending)
  {
    DistinctSize(list);
  }

  lemma LaterAwaiting(s: State, t: State, list: seq<int>, left: set<int>, pending: nat)
    requires Awaiting(s, list, left, pending) && Later(s, t)
    ensures Awaiting(t, list, left, pending)
  {
    forall id | id in list ensures Moved(s.heap[s.blocks[id]], t.heap[t.blocks[id]]) {
    }
  }

  /** What keeps CloseMultiPart from returning: a part listed twice, or one without an upload. */
  ghost predicate Stuck(s: State, list: seq<int>) {
    !Distinct(list) || exists id :: id in list && !Started(s, id)
  }

  lemma SameStuck(s: State, t: State, list: seq<int>)
    requires forall id :: Started(t, id) == Started(s, id)
    ensures Stuck(t, list) == Stuck(s, list)
  {
    hide Started, Distinct;
  }

  /** The count reaches zero only if nothing is stuck. */
  lemma ZeroMeansAllEnded(s: State, list: seq<int>, left: set<int>)
    requires Awaiting(s, list, left, 0)
    ensures !Stuck(s, list) && forall id :: id in list ==> s.heap[s.blocks[id]].Ended()
  {
    DistinctSize(list);
  }

  /** With no upload left to receive the count stays above zero only if something is stuck. */
  lemma NothingComingMeansStuck(s: State, list: seq<int>, left: set<int>, pending: nat)
    requires Awaiting(s, list, left, pending) && pending > 0 && s.inFlight == {}
    ensures Stuck(s, list)
  {
    if left != {} {
      var id := Pick(left);
      assert id in ToSet(list) && !Started(s, id);
    } else {
      DistinctSize(list);
    }
  }

  /** If the servers accept all uploads, those that have ended are finished. */
  lemma AcceptedFinish(s: State, list: seq<int>)
    requires Inv(s) && forall id :: id in list ==> id in s.blocks && s.blocks[id] < |s.heap| && s.heap[s.blocks[id]].Ended()
    ensures s.reliable ==> forall id :: id in list ==> s.heap[s.blocks[id]].status == FINISHED
  {
    forall id | s.reliable && id in list ensures s.heap[s.blocks[id]].status == FINISHED {
      assert PartOk(s, s.blocks[id]);
    }
  }

  ghost predicate FirstUnknown(list: seq<int>, k: nat, known: set<int>) {
    k < |list| && list[k] !in known && forall j :: 0 <= j < k ==> list[j] in known
  }

  lemma StartSnoc(infos: seq<BlockInfo>, info: BlockInfo)
    ensures Start(infos + [info], |infos| + 1) == Start(infos, |infos|) + info.blockSize
  {
    StartPrefix(infos, info, |infos|);
  }

  lemma {:induction false} StartPrefix(infos: seq<BlockInfo>, info: BlockInfo, i: nat)
    requires i <= |infos|
    ensures Start(infos + [info], i) == Start(infos, i)
  {
    if i > 0 {
      StartPrefix(infos, info, i - 1);
    }
  }

  lemma ReceivedHolds(s: State, parts: map<int, seq<byte>>, v: Version)
    requires Holds(s, parts)
    ensures Holds(Receive(s, v), parts) && forall id :: Started(Receive(s, v), id) == Started(s, id)
  {
  }

  // -- The writer ------------------------------------------------------------------------------

  class MultipartWriter {
    const store: Store
    const reliable: bool                       // the servers accept every upload of this writer
    var status: Status
    var partIDs: seq<int>
    var blocks: map<int, Version>
    var heap: seq<Part>
    var inFlight: set<Version>
    ghost var parts: map<int, seq<byte>>       // what the last WritePart of each part has read

    ghost function View(): State
      reads this, store
    {
      State(reliable, partIDs, blocks, heap, inFlight, store.data, store.nextId)
    }

    ghost predicate Valid()
      reads this, store
    {
      && Inv(View()) && Holds(View(), parts)
      && (status == READING ==> AllAhead(View()))
    }

    constructor (store: Store, reliable: bool)
      requires store.Valid()
      ensures Valid() && status == READING && parts == map[] && this.store == store && this.reliable == reliable
    {
      this.reliable := reliable;
      this.store, status, partIDs, blocks, heap, inFlight, parts := store, READING, [], map[], [], {}, map[];
    }

    /** Inserts a part number in its place. */
    method AddPartID(id: int) returns (isNew: bool)
      requires Ascending(partIDs)
      modifies this`partIDs
      ensures Ascending(partIDs) && forall i :: i in partIDs <==> i in old(partIDs) || i == id
      ensures (isNew <==> id !in old(partIDs)) && (!isNew ==> partIDs == old(partIDs))
    {
      for i := 0 to |partIDs|
        invariant partIDs == old(partIDs) && forall k :: 0 <= k < i ==> partIDs[k] < id
      {
        if id == partIDs[i] { return false; }
        if id < partIDs[i] {
          partIDs := partIDs[..i] + [id] + partIDs[i..];
          return true;
        }
      }
      partIDs := partIDs + [id];
      return true;
    }

    /** Uploads end in any order, with or without success, and superseded versions are deleted once more. */
    method Yield()
      requires Inv(View()) && Holds(View(), parts)
      modifies this`heap, store`data
      ensures Inv(View()) && Holds(View(), parts) && Later(old(View()), View())
    {
      var steps :| steps >= 0;
      for k := 0 to steps
        invariant Inv(View()) && Holds(View(), parts) && Later(old(View()), View())
      {
        var v: nat, ok: bool := *, *;
        if v < |heap| {
          ghost var s := View();
          var superseded := heap[v].partId !in blocks || blocks[heap[v].partId] != v;
          if * {
            FinishUpload(v, ok || reliable);
          } else if superseded {
            StoreValid(v);
            PurgeKeeps(s, v);
            store.Delete(heap[v].info.blockId);
          }
          LaterTrans(old(View()), s, View());
        }
      }
    }

    /** The upload of version v, if it is running, ends: with its bytes on the servers iff they accept them. */
    method FinishUpload(v: Version, ok: bool)
      requires Inv(View()) && Holds(View(), parts) && v < |heap| && (reliable ==> ok)
      modifies this`heap, store`data
      ensures Inv(View()) && Holds(View(), parts) && Later(old(View()), View())
      ensures heap[v].status != UPLOADING
      ensures old(heap[v].status) == UPLOADING ==>
                && heap == old(heap)[v := old(heap[v]).(status := if ok then FINISHED else FAILED)]
                && store.data == if ok then old(store.data)[heap[v].info.blockId := heap[v].bytes] else old(store.data)
      ensures old(heap[v].status) != UPLOADING ==> heap == old(heap) && store.data == old(store.data)
    {
      if heap[v].status == UPLOADING {
        ghost var s := View();
        if ok {
          StoreValid(v);
          store.Put(heap[v].info.blockId, heap[v].bytes);
        }
        heap := heap[v := heap[v].(status := if ok then FINISHED else FAILED)];
        EndKeeps(s, v, ok, parts);
      }
    }

    lemma StoreValid(v: Version)
      requires Inv(View()) && v < |heap|
      ensures store.Valid() && heap[v].info.blockId < store.nextId
    {
      assert PartOk(View(), v);
    }

    /** Makes room for a new version; an old one is deleted from the servers first. */
    method Vacate(id: int, abortOk: bool) returns (ok: bool)
      requires Inv(View()) && Holds(View(), parts)
      modifies this`partIDs, this`blocks, this`parts, store`data
      ensures ok <==> id !in old(blocks) || abortOk
      ensures !ok ==> View() == old(View()) && parts == old(parts)
      ensures ok ==> InvWithout(View(), id) && id in partIDs && Holds(View(), parts) && parts == old(parts) - {id}
      ensures blocks == if ok then old(blocks) - {id} else old(blocks)
      ensures ok && id in old(blocks) ==> old(blocks)[id] < |heap| && heap[old(blocks)[id]].info.blockId !in store.data
    {
      hide Inv, InvWithout, Holds, Ascending;
      ghost var s := View();
      ListedAreCurrent(s, id);
      var isNew := AddPartID(id);
      if isNew {
        AddKeeps(s, id, partIDs, parts);
        assert blocks == blocks - {id};
        return true;
      }
      if !abortOk { return false; }
      DropKeeps(s, id, parts);
      StoreValid(blocks[id]);
      store.Delete(heap[blocks[id]].info.blockId);
      blocks, parts := blocks - {id}, parts - {id};
      assert View() == Drop(s, id);
      ok := true;
    }

    method NewVersion(id: int)
      requires InvWithout(View(), id) && id in partIDs && 1 <= id <= 10000 && Holds(View(), parts)
      modifies this`blocks, this`heap, this`parts, store`nextId
      ensures Inv(View()) && Holds(View(), parts) && parts == old(parts)[id := []]
      ensures blocks == old(blocks)[id := |old(heap)|] && |heap| == |old(heap)| + 1 && heap[..|old(heap)|] == old(heap)
      ensures heap[|old(heap)|].status == READING && heap[|old(heap)|].partId == id
    {
      ghost var s := View();
      CreateKeeps(s, id, parts);
      assert store.Valid();
      hide Inv, InvWithout, Holds;
      var block := store.NewId();
      blocks, heap := blocks[id := |heap|], heap + [Part(id, [], READING, BlockInfo(block, 0))];
      parts := parts[id := []];
      assert View() == Create(s, id);
    }

    /** Reads the part into the newest version and starts its upload. */
    method ReadPart(id: int, chunks: seq<seq<byte>>, readOk: bool)
      requires Inv(View()) && Holds(View(), parts) && heap != [] && id in blocks && blocks[id] == |heap| - 1
      requires heap[|heap| - 1].status == READING
      modifies this`heap, this`inFlight, this`parts
      ensures Inv(View()) && Holds(View(), parts) && parts == old(parts)[id := Flatten(chunks)]
      ensures |heap| == |old(heap)| && heap[..|heap| - 1] == old(heap[..|heap| - 1]) && Started(View(), id) == readOk
      ensures inFlight == if readOk then old(inFlight) + {|heap| - 1} else old(inFlight)
    {
      var bytes, blockSize := ReadChunks(chunks);
      ghost var s := View();
      FillKeeps(s, bytes, readOk, parts);
      hide Inv, Holds;
      var v := |heap| - 1;
      parts := parts[id := bytes];
      if readOk {
        heap := heap[v := heap[v].(bytes := bytes, status := UPLOADING, info := heap[v].info.(blockSize := blockSize))];
        inFlight := inFlight + {v};
      } else {
        heap := heap[v := heap[v].(bytes := bytes)];
      }
      assert View() == Fill(s, bytes, readOk);
    }

    /** WritePart after its checks. */
    method Rewrite(id: int, chunks: seq<seq<byte>>, abortOk: bool, readOk: bool) returns (ok: bool)
      requires Inv(View()) && Holds(View(), parts) && 1 <= id <= 10000 && AllAhead(View())
      modifies this`partIDs, this`blocks, this`heap, this`inFlight, this`parts, store
      ensures Inv(View()) && Holds(View(), parts) && AllAhead(View())
      ensures ok <==> id !in old(blocks) || abortOk
      ensures if ok then parts == old(parts)[id := Flatten(chunks)] && Rewritten(old(View()), View(), id, readOk)
              else parts == old(parts) && View() == old(View())
    {
      hide Inv, InvWithout, Holds, AllAhead, Rewritten;
      ok := Vacate(id, abortOk);
      if ok {
        NewVersion(id);
        ReadPart(id, chunks, readOk);
        NewVersionRewrites(old(View()), View(), id, readOk);
      }
    }

    /**
     * Writes a part, replacing an earlier version of it. A part whose reader failed is listed but
     * has no upload.
     */
    method WritePart(id: int, chunks: seq<seq<byte>>, abortOk: bool, readOk: bool) returns (err: PartError)
      requires Valid()
      modifies this, store
      ensures Valid() && status == old(status)
      ensures err == if old(status) != READING then RepeatedClose
                     else if id < 1 || id > 10000 then InvalidArgument
                     else if id in old(blocks) && !abortOk then AbortFailed
                     else if readOk then NoError else ReadFailed
      ensures if err == NoError || err == ReadFailed
              then parts == old(parts)[id := Flatten(chunks)] && Rewritten(old(View()), View(), id, readOk)
              else parts == old(parts) && forall i :: Started(View(), i) == Started(old(View()), i)
    {
      if status != READING { return RepeatedClose; }
      if id < 1 || id > 10000 { return InvalidArgument; }
      hide Inv, Holds, AllAhead;
      Yield();
      LaterStarted(old(View()), View());
      var ok := Rewrite(id, chunks, abortOk, readOk);
      err := if !ok then AbortFailed else if readOk then NoError else ReadFailed;
    }

    /** Collects the blocks of all parts in part order, whether they are listed or not. */
    method GenPartialMeta() returns (meta: ObjectMeta)
      requires Inv(View())
      ensures Lists(meta.blocks, View()) && meta.objSize == Start(meta.blocks, |meta.blocks|)
    {
      var infos, objSize := [], 0;
      assert forall j :: 0 <= j < |partIDs| ==> partIDs[j] in partIDs;
      for k := 0 to |partIDs|
        invariant |infos| == k && objSize == Start(infos, k)
        invariant forall j :: 0 <= j < k ==> infos[j] == heap[blocks[partIDs[j]]].info
      {
        var info := heap[blocks[partIDs[k]]].info;
        StartSnoc(infos, info);
        infos, objSize := infos + [info], objSize + info.blockSize;
      }
      meta := ObjectMeta(objSize, infos);
    }

    /** The first entry that is not a known part decides the error. */
    method CheckParts(list: seq<int>) returns (err: PartError)
      requires Inv(View())
      ensures err == NoError <==> forall id :: id in list ==> id in blocks
      ensures err != NoError ==> exists k :: 0 <= k < |list| && FirstUnknown(list, k, blocks.Keys)
                                             && err == if 1 <= list[k] <= 10000 then InvalidPart else InvalidArgument
    {
      for k := 0 to |list|
        invariant forall j :: 0 <= j < k ==> list[j] in blocks
      {
        if list[k] < 1 || list[k] > 10000 {
          assert FirstUnknown(list, k, blocks.Keys) && list[k] in list;
          return InvalidArgument;
        }
        if list[k] !in blocks {
          assert FirstUnknown(list, k, blocks.Keys) && list[k] in list;
          return InvalidPart;
        }
      }
      return NoError;
    }

    /** Uploads go on until one of those that have not been received has ended. */
    method AwaitCompletion(ghost list: seq<int>, ghost left: set<int>, ghost pending: nat) returns (v: Version)
      requires Inv(View()) && Holds(View(), parts) && inFlight != {} && Awaiting(View(), list, left, pending)
      modifies this`heap, store`data
      ensures Inv(View()) && Holds(View(), parts) && Awaiting(View(), list, left, pending)
      ensures v in inFlight && v < |heap| && heap[v].Ended() && forall id :: id in left ==> id in blocks
      ensures forall id :: Started(View(), id) == Started(old(View()), id)
    {
      hide Holds, Awaiting, Later, Started;
      Yield();
      LaterStarted(old(View()), View());
      LaterAwaiting(old(View()), View(), list, left, pending);
      ghost var s := View();
      v :| v in inFlight;
      var ok: bool := *;
      FinishUpload(v, ok || reliable);
      LaterStarted(s, View());
      LaterAwaiting(s, View(), list, left, pending);
      ReadyToReceive(View(), list, left, pending, v);
    }

    /** One turn of the receiving loop; returns whether the completion counts. */
    method ReceiveOne(list: seq<int>, left: set<int>, ghost pending: nat) returns (v: Version, counts: bool)
      requires Inv(View()) && Holds(View(), parts) && inFlight != {} && Awaiting(View(), list, left, pending)
      modifies this`heap, this`inFlight, store`data
      ensures Inv(View()) && Holds(View(), parts) && |inFlight| == old(|inFlight|) - 1
      ensures counts ==> pending > 0 && v < |heap| && heap[v].partId in left
                         && Awaiting(View(), list, left - {heap[v].partId}, pending - 1)
      ensures !counts ==> Awaiting(View(), list, left, pending)
      ensures forall id :: Started(View(), id) == Started(old(View()), id)
    {
      hide Inv, Holds, Awaiting, Started;
      v := AwaitCompletion(list, left, pending);
      ghost var t := View();
      counts := heap[v].partId in left && blocks[heap[v].partId] == v;
      ReceiveAwaiting(t, list, left, pending, v);
      ReceiveKeeps(t, v);
      ReceivedHolds(t, parts, v);
      inFlight := inFlight - {v};
    }

    /** The receiving loop. It ends unless something listed is stuck. */
    method AwaitParts(list: seq<int>) returns (hung: bool)
      requires Inv(View()) && Holds(View(), parts) && AllAhead(View()) && forall id :: id in list ==> id in blocks
      modifies this`heap, this`inFlight, store`data
      ensures Inv(View()) && Holds(View(), parts)
      ensures hung <==> Stuck(old(View()), list)
      ensures !hung ==> forall id :: id in list ==> heap[blocks[id]].Ended()
    {
      hide Inv, Holds, Awaiting, AllAhead, Stuck, Started;
      var left, pending := ToSet(list), |list|;
      StartAwaiting(View(), list);
      while pending > 0
        invariant Inv(View()) && Holds(View(), parts) && pending >= 0 && Awaiting(View(), list, left, pending)
        invariant forall id :: Started(View(), id) == Started(old(View()), id)
        decreases |inFlight|
      {
        if inFlight == {} {
          NothingComingMeansStuck(View(), list, left, pending);
          SameStuck(old(View()), View(), list);
          return true;
        }
        var v, counts := ReceiveOne(list, left, pending);
        if counts {
          pending, left := pending - 1, left - {heap[v].partId};
        }
      }
      ZeroMeansAllEnded(View(), list, left);
      SameStuck(old(View()), View(), list);
      hung := false;
    }

    /**
     * CloseMultiPart waits for the current uploads of the listed parts, and for ever if a part is
     * listed twice or has no upload. It then commits all parts, listed or not.
     */
    method CloseMultiPart(list: seq<int>, accepted: bool) returns (meta: ObjectMeta, err: PartError)
      requires Valid()
      modifies this`status, this`heap, this`inFlight, store`data
      ensures Valid()
      ensures err != AbortFailed && err != ReadFailed && (err == RepeatedClose <==> old(status) != READING)
      ensures err == InvalidPart || err == InvalidArgument <==> old(status) == READING && exists id :: id in list && id !in blocks
      ensures err == Hung <==> old(status) == READING && (forall id :: id in list ==> id in blocks) && Stuck(old(View()), list)
      ensures err == NoError || err == MetaRejected ==>
                && status == (if accepted then FINISHED else UPLOADING) && (err == NoError <==> accepted)
                && (forall id :: id in list ==> heap[blocks[id]].Ended())
                && (reliable ==> forall id :: id in list ==> heap[blocks[id]].status == FINISHED)
                && Lists(meta.blocks, View()) && meta.objSize == Start(meta.blocks, |meta.blocks|)
                && (Readable(meta.blocks, store.data) <==> AllFinished(View()))
                && (AllFinished(View()) ==> Describes(meta, store.data, Flatten(InOrder(partIDs, parts))))
    {
      meta := ObjectMeta(0, []);
      if status != READING { return meta, RepeatedClose; }
      status := UPLOADING;
      err := CheckParts(list);
      if err != NoError { return; }
      hide Holds, Stuck;
      var hung := AwaitParts(list);
      if hung { return meta, Hung; }
      AcceptedFinish(View(), list);
      meta := GenPartialMeta();
      PartsReadable(View(), parts, meta);
      err := if accepted then NoError else MetaRejected;
      if accepted { status := FINISHED; }
    }
  }

  // -- A whole upload --------------------------------------------------------------------------

  /** What each part was last written with. */
  ghost function LastVersions(calls: seq<(int, seq<seq<byte>>)>): map<int, seq<byte>> {
    if calls == [] then map[]
    else
      var last := calls[|calls| - 1];
      LastVersions(calls[..|calls| - 1])[last.0 := Flatten(last.1)]
  }

  lemma AscendingDistinct(ids: seq<int>)
    requires Ascending(ids)
    ensures Distinct(ids)
  {
  }

  lemma AllStartedNotStuck(s: State)
    requires Inv(s) && forall id :: id in s.blocks ==> Started(s, id)
    ensures !Stuck(s, s.partIDs) && forall id :: id in s.partIDs ==> id in s.blocks
  {
    AscendingDistinct(s.partIDs);
  }

  lemma HoldsKeys(s: State, parts: map<int, seq<byte>>)
    requires Inv(s) && Holds(s, parts)
    ensures Ascending(s.partIDs) && forall id :: id in s.partIDs <==> id in parts
  {
  }

  lemma AllListed(s: State)
    requires Inv(s) && forall id :: id in s.partIDs ==> id in s.blocks && s.blocks[id] < |s.heap| && s.heap[s.blocks[id]].status == FINISHED
    ensures AllFinished(s)
  {
  }

  method WriteParts(w: MultipartWriter, calls: seq<(int, seq<seq<byte>>)>)
    requires w.Valid() && w.status == READING && w.parts == map[]
    requires forall k :: 0 <= k < |calls| ==> 1 <= calls[k].0 <= 10000
    modifies w, w.store
    ensures w.Valid() && w.status == READING && w.parts == LastVersions(calls)
    ensures forall id :: id in w.parts ==> Started(w.View(), id)
  {
    for k := 0 to |calls|
      invariant w.Valid() && w.status == READING && w.parts == LastVersions(calls[..k])
      invariant forall id :: id in w.parts ==> Started(w.View(), id)
    {
      hide Inv, Holds, AllAhead, Started;
      assert calls[..k + 1][..k] == calls[..k];
      ghost var parts, s := w.parts, w.View();
      var err := w.WritePart(calls[k].0, calls[k].1, true, true);
    }
    assert calls[..|calls|] == calls;
  }

  /**
   * Parts written in any order, any number of times, and closed with the list of all parts: the
   * close returns, and what it commits reads as the last versions in ascending part order unless
   * the upload of one of them failed, which cannot be if the servers accept all uploads.
   */
  method StoreParts(store: Store, calls: seq<(int, seq<seq<byte>>)>, reliable: bool) returns (meta: ObjectMeta, ids: seq<int>, err: PartError)
    requires store.Valid() && forall k :: 0 <= k < |calls| ==> 1 <= calls[k].0 <= 10000
    modifies store
    ensures err == NoError && Ascending(ids)
    ensures (forall id :: id in ids <==> id in LastVersions(calls)) && forall k :: 0 <= k < |ids| ==> ids[k] in LastVersions(calls)
    ensures Readable(meta.blocks, store.data) ==> Describes(meta, store.data, Flatten(InOrder(ids, LastVersions(calls))))
    ensures reliable ==> Describes(meta, store.data, Flatten(InOrder(ids, LastVersions(calls))))
  {
    var w := new MultipartWriter(store, reliable);
    WriteParts(w, calls);
    ids := w.partIDs;
    HoldsKeys(w.View(), w.parts);
    AllStartedNotStuck(w.View());
    hide Inv, Holds, AllAhead, Started, Stuck, Lists, AllFinished, Readable, Describes, LastVersions;
    meta, err := w.CloseMultiPart(ids, true);
    if reliable {
      AllListed(w.View());
    }
    assert forall k :: 0 <= k < |ids| ==> ids[k] in ids;
  }
}
