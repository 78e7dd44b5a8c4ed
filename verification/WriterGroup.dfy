/**
 * Several writers of one factory on one pool and the same servers. Each has its own view of the
 * shared state; a step of one writer appears in the views of the others as a foreign step.
 */
module WriterGroup {
  import opened Basics
  import opened ChunkPool
  import opened BlockStore
  import opened WriterState

  predicate Owns(s: State, c: ChunkId) {
    c in s.owner && s.owner[c] != InPool && s.owner[c] != Foreign
  }

  /** The views agree on the pool and on the servers. */
  ghost predicate SameWorld(s: State, t: State) {
    && s.chunkSize == t.chunkSize && s.maxCount == t.maxCount && s.resources == t.resources
    && s.curCount == t.curCount && s.mem == t.mem && s.data == t.data && s.nextId == t.nextId
  }

  /** What t owns is foreign to s, and no block id is used by both. */
  ghost predicate Apart(s: State, t: State) {
    && (forall c :: Owns(t, c) ==> c in s.others)
    && (forall id :: MyId(s, id) ==> !MyId(t, id))
  }

  ghost predicate OwnedByOther(ws: seq<State>, i: nat, c: ChunkId) {
    exists j :: 0 <= j < |ws| && j != i && Owns(ws[j], c)
  }

  /** What is foreign to a writer belongs to another one, and to no third. */
  ghost predicate Sharing(ws: seq<State>) {
    && (forall i :: 0 <= i < |ws| ==> Inv(ws[i]))
    && (forall i, j :: 0 <= i < |ws| && 0 <= j < |ws| ==> SameWorld(ws[i], ws[j]))
    && (forall i, j :: 0 <= i < |ws| && 0 <= j < |ws| && i != j ==> Apart(ws[i], ws[j]))
    && (forall i: nat, c :: i < |ws| && c in ws[i].others ==> OwnedByOther(ws, i, c))
  }

  lemma ForeignNotOwned(s: State, c: ChunkId)
    requires Inv(s) && c in s.others
    ensures !Owns(s, c)
  {
    ForeignOwner(s, c);
    hide Inv;
  }

  // -- Steps of a writer -----------------------------------------------------------------------------

  datatype Action =
    | Lock                       // enters AcquireMultiple
    | AcquireOne
    | Unlock                     // leaves it; the acquired chunks become the reserve
    | UseReserve
    | Fill(p: seq<byte>)
    | Append
    | StartCommit
    | GiveBack
    | Commit
    | Finish
    | Close(b: nat)              // Block.Close in the goroutine of block b
    | Upload(b: nat, ok: bool)
    | Release(b: nat)
    | Receive(b: nat)

  ghost predicate CanDo(s: State, a: Action) {
    match a
    case Lock => s.status == READING && !s.committing && Held(s) == 0 && s.acquiring == [] && s.perBlock > 0
    case AcquireOne => Held(s) == 0 && |s.acquiring| < s.perBlock && !WouldBlock(s)
    case Unlock => Held(s) == 0 && |s.acquiring| == s.perBlock
    case UseReserve => s.reserve != [] && s.curChunk.None? && !s.committing
    case Fill(p) => s.curChunk.Some? && s.curChunk.value in s.mem && s.mem[s.curChunk.value].Valid(s.chunkSize)
    case Append => s.status == READING && !s.committing && s.curChunk.Some?
    case StartCommit => s.curChunk.None? && !s.committing
    case GiveBack => s.committing && s.reserve != []
    case Commit => s.committing && s.reserve == [] && s.curChunk.None? && PoolOk(s) && Filling(s)
    case Finish => s.status == READING && !s.committing && NothingOpen(s)
    case Close(b) => Committing(s, b) && s.blocks[b].status == READING && 1 <= b <= |s.content|
    case Upload(b, ok) =>
      Committing(s, b) && s.blocks[b].status == UPLOADING && 1 <= b <= |s.content| && (s.reliable ==> ok)
    case Release(b) => Releasing(s, b) && s.blocks[b].chunks[s.blocks[b].released] in s.mem
    case Receive(b) => AtSend(s, b)
  }

  ghost function Own(s: State, a: Action): State
    requires CanDo(s, a)
  {
    match a
    case Lock => s
    case AcquireOne => Acquire(s, false)
    case Unlock => Reserve(s)
    case UseReserve => TakeReserve(s)
    case Fill(p) => FillChunk(s, s.mem[s.curChunk.value].Fill(p).0)
    case Append => AppendChunk(s)
    case StartCommit => s.(committing := true)
    case GiveBack => ReleaseReserved(s)
    case Commit => HandOver(s).(committing := false)
    case Finish => s.(status := UPLOADING)
    case Close(b) => CloseBlock(s, b, |s.content[b - 1]|)
    case Upload(b, ok) => UploadBlock(s, b, s.content[b - 1], ok)
    case Release(b) => ReleaseChunk(s, b)
    case Receive(b) => WriterState.Receive(s, b)
  }

  /** What the step of s looks like in the view t of another writer. */
  ghost function Seen(s: State, a: Action, t: State): State
    requires CanDo(s, a) && SameWorld(s, t)
  {
    match a
    case AcquireOne => Acquire(t, true)
    case Fill(p) => ForeignWrite(t, s.curChunk.value, s.mem[s.curChunk.value].Fill(p).0)
    case GiveBack => if s.reserve[0] in t.mem then ForeignRelease(t, s.reserve[0]) else t
    case Close(_) => ForeignId(t)
    case Upload(b, ok) => if ok then ForeignPut(t, s.blocks[b].info.blockId, s.content[b - 1]) else t
    case Release(b) => ForeignRelease(t, s.blocks[b].chunks[s.blocks[b].released])
    case _ => t
  }

  /** The chunk that the next Acquire takes. */
  function NextChunk(s: State): ChunkId
    requires !WouldBlock(s)
  {
    Grow(s).resources[0]
  }

  ghost function Gain(s: State, a: Action): set<ChunkId>
    requires CanDo(s, a)
  {
    if a.AcquireOne? then {NextChunk(s)} else {}
  }

  ghost function Loss(s: State, a: Action): set<ChunkId>
    requires CanDo(s, a)
  {
    match a
    case GiveBack => {s.reserve[0]}
    case Release(b) => {s.blocks[b].chunks[s.blocks[b].released]}
    case _ => {}
  }

  /** The chunks that a step touches belong to the writer. */
  ghost function Uses(s: State, a: Action): set<ChunkId>
    requires CanDo(s, a)
  {
    if a.Fill? then {s.curChunk.value} else Loss(s, a)
  }

  lemma UsesOwn(s: State, a: Action, c: ChunkId)
    requires Inv(s) && CanDo(s, a) && c in Uses(s, a)
    ensures Owns(s, c) && c in s.mem
  {
    hide Uploads, Filling, Conserved, HandOver;
    match a {
      case Fill(_) =>
        CurrentOwner(s);
      case GiveBack =>
        assert c in s.reserve && Listed(s, s.reserve, Reserved);
      case Release(b) =>
        ReleasedChunk(s, b);
    }
  }

  // -- The invariants of the views are kept ------------------------------------------------------------

  lemma OwnKeeps(s: State, a: Action)
    requires Inv(s) && CanDo(s, a)
    ensures Inv(Own(s, a))
  {
    hide Inv, Acquire, Reserve, TakeReserve, FillChunk, AppendChunk, ReleaseReserved, HandOver, CloseBlock, UploadBlock, ReleaseChunk;
    match a {
      case Lock =>
      case AcquireOne => AcquireKeeps(s, false);
      case Unlock => ReserveKeeps(s);
      case UseReserve => TakeReserveKeeps(s);
      case Fill(p) => FillChunkWritten(s, p);
      case Append => AppendChunkKeeps(s);
      case StartCommit => SetCommitting(s);
      case GiveBack => ReleaseReservedKeeps(s);
      case Commit =>
        CommitBlock(s);
        EndCommitting(HandOver(s));
      case Finish => SetStatus(s, UPLOADING);
      case Close(b) => CloseBlockKeeps(s, b, |s.content[b - 1]|);
      case Upload(b, ok) => UploadBlockKeeps(s, b, ok);
      case Release(b) => ReleaseChunkKeeps(s, b);
      case Receive(b) => ReceiveKeeps(s, b);
    }
  }

  lemma UploadedId(s: State, b: nat)
    requires Inv(s) && b in s.blocks && s.blocks[b].status == UPLOADING
    ensures s.blocks[b].info.blockId < s.nextId && MyId(s, s.blocks[b].info.blockId)
  {
    hide Owned, Filling, PoolOk;
    CommittedId(s, b);
  }

  lemma SeenKeeps(s: State, a: Action, t: State)
    requires Inv(s) && Inv(t) && CanDo(s, a) && SameWorld(s, t) && Apart(s, t) && Apart(t, s)
    ensures Inv(Seen(s, a, t))
  {
    hide Inv, Acquire, ForeignWrite, ForeignRelease, ForeignId, ForeignPut, HandOver, MyId;
    match a {
      case AcquireOne => AcquireKeeps(t, true);
      case Fill(p) =>
        UsesOwn(s, a, s.curChunk.value);
        ForeignWriteKeeps(t, s.curChunk.value, s.mem[s.curChunk.value].Fill(p).0);
      case GiveBack =>
        UsesOwn(s, a, s.reserve[0]);
        ForeignReleaseKeeps(t, s.reserve[0]);
      case Close(_) => ForeignIdKeeps(t);
      case Upload(b, ok) =>
        UploadedId(s, b);
        ForeignPutKeeps(t, s.blocks[b].info.blockId, s.content[b - 1]);
      case Release(b) =>
        UsesOwn(s, a, s.blocks[b].chunks[s.blocks[b].released]);
        ForeignReleaseKeeps(t, s.blocks[b].chunks[s.blocks[b].released]);
      case _ =>
    }
  }

  // -- The views stay the same world ---------------------------------------------------------------------

  lemma GrowSameWorld(s: State, t: State)
    requires SameWorld(s, t)
    ensures SameWorld(Grow(s), Grow(t))
  {
    hide EmptyChunk;
  }

  lemma AcquireSameWorld(s: State, t: State, f: bool, f': bool)
    requires SameWorld(s, t) && !WouldBlock(s)
    ensures !WouldBlock(t) && SameWorld(Acquire(s, f), Acquire(t, f')) && NextChunk(s) == NextChunk(t)
  {
    GrowSameWorld(s, t);
    hide EmptyChunk, Grow;
  }

  /** A reserved chunk is empty already. */
  lemma GiveBackSameWorld(s: State, t: State)
    requires Inv(s) && SameWorld(s, t) && s.reserve != [] && s.reserve[0] in t.mem
    ensures SameWorld(ReleaseReserved(s), ForeignRelease(t, s.reserve[0]))
  {
    ReservedEmpty(s);
    hide Inv;
    var c := s.reserve[0];
    assert s.mem[c].(freeSize := s.chunkSize) == s.mem[c];
    assert t.mem[c := t.mem[c].(freeSize := t.chunkSize)] == t.mem;
  }

  lemma SeenSameWorld(s: State, a: Action, t: State)
    requires Inv(s) && CanDo(s, a) && SameWorld(s, t)
    ensures SameWorld(Own(s, a), Seen(s, a, t))
  {
    hide Inv, Acquire, Held, WouldBlock, Releasing, AtSend, EmptyChunk, PoolOk, Filling, NothingOpen;
    match a {
      case AcquireOne => AcquireSameWorld(s, t, false, true);
      case GiveBack =>
        UsesOwn(s, a, s.reserve[0]);
        GiveBackSameWorld(s, t);
      case _ =>
    }
  }

  lemma WorldTrans(s: State, t: State, u: State)
    requires SameWorld(s, t) && SameWorld(s, u)
    ensures SameWorld(t, u) && SameWorld(t, s)
  {
  }

  // -- Who owns what afterwards --------------------------------------------------------------------------

  lemma NextChunkIdle(s: State)
    requires Inv(s) && !WouldBlock(s)
    ensures !Owns(s, NextChunk(s)) && s.curCount !in s.owner
  {
    hide Uploads, Filling, PoolOk;
    NotOwnedYet(s);
    if s.resources != [] {
      assert s.resources[0] in s.resources && Listed(s, s.resources, InPool);
    }
  }

  /** Acquire moves one chunk. */
  lemma AcquireOwns(s: State, foreign: bool, d: ChunkId)
    requires Inv(s) && !WouldBlock(s)
    ensures var t := Acquire(s, foreign);
            && (Owns(t, d) <==> Owns(s, d) || (!foreign && d == NextChunk(s)))
            && t.others == (if foreign then s.others + {NextChunk(s)} else s.others)
            && t.blocks == s.blocks
  {
    NextChunkIdle(s);
    GrowOwns(s, d);
    hide Inv, EmptyChunk, Grow;
  }

  lemma GrowOwns(s: State, d: ChunkId)
    requires s.curCount !in s.owner
    ensures (Owns(Grow(s), d) <==> Owns(s, d)) && Grow(s).others == s.others && Grow(s).blocks == s.blocks
    ensures !WouldBlock(s) ==> (!Owns(s, NextChunk(s)) <==> !Owns(Grow(s), NextChunk(s)))
  {
    hide EmptyChunk;
  }

  lemma ReservedOwns(s: State, d: ChunkId)
    requires Inv(s) && s.reserve != []
    ensures Owns(TakeReserve(s), d) <==> Owns(s, d)
  {
    hide Uploads, Filling, PoolOk, Conserved;
    assert s.reserve[0] in s.reserve && Listed(s, s.reserve, Reserved);
  }

  lemma AppendOwns(s: State, d: ChunkId)
    requires Inv(s) && s.curChunk.Some?
    ensures Owns(AppendChunk(s), d) <==> Owns(s, d)
  {
    hide Uploads, Filling, PoolOk, Conserved;
    CurrentOwner(s);
  }

  lemma OwnOwns(s: State, a: Action, d: ChunkId)
    requires Inv(s) && CanDo(s, a)
    ensures Owns(Own(s, a), d) <==> (Owns(s, d) && d !in Loss(s, a)) || d in Gain(s, a)
    ensures Own(s, a).others == s.others
  {
    hide Inv, Acquire, NextChunk, Held, WouldBlock, Releasing, AtSend, PoolOk, Filling, NothingOpen;
    match a {
      case AcquireOne => AcquireOwns(s, false, d);
      case UseReserve => ReservedOwns(s, d);
      case Append => AppendOwns(s, d);
      case _ =>
    }
  }

  lemma ReleaseSeenOwns(s: State, b: nat, t: State, d: ChunkId)
    requires Inv(s) && Inv(t) && CanDo(s, Release(b)) && SameWorld(s, t) && Apart(t, s)
    ensures var c := s.blocks[b].chunks[s.blocks[b].released];
            (Owns(ForeignRelease(t, c), d) <==> Owns(t, d)) && ForeignRelease(t, c).others == t.others - {c}
  {
    hide Inv;
    var c := s.blocks[b].chunks[s.blocks[b].released];
    UsesOwn(s, Release(b), c);
    ForeignNotOwned(t, c);
  }

  lemma SeenOwns(s: State, a: Action, t: State, d: ChunkId)
    requires Inv(s) && Inv(t) && CanDo(s, a) && SameWorld(s, t) && Apart(t, s)
    ensures Owns(Seen(s, a, t), d) <==> Owns(t, d)
    ensures Seen(s, a, t).others == t.others - Loss(s, a) + Gain(s, a)
  {
    hide Inv, Acquire, NextChunk, Held, WouldBlock, Releasing, AtSend, PoolOk, Filling, NothingOpen;
    match a {
      case AcquireOne =>
        AcquireSameWorld(s, t, false, true);
        AcquireOwns(t, true, d);
      case GiveBack =>
        UsesOwn(s, a, s.reserve[0]);
        ForeignNotOwned(t, s.reserve[0]);
      case Release(b) =>
        ReleaseSeenOwns(s, b, t, d);
      case _ =>
    }
  }

  // -- Whose block ids -------------------------------------------------------------------------------------

  lemma NextIdUnused(s: State)
    requires Inv(s)
    ensures !MyId(s, s.nextId)
  {
    hide Owned, Filling, PoolOk;
    forall i | i in s.blocks && s.blocks[i].status != READING ensures s.blocks[i].info.blockId < s.nextId {
      CommittedId(s, i);
    }
  }

  /** Steps that change no id. */
  lemma SameIds(s: State, t: State, id: BlockId)
    requires forall i :: i in t.blocks && t.blocks[i].status != READING ==>
               i in s.blocks && s.blocks[i].status != READING && s.blocks[i].info == t.blocks[i].info
    ensures MyId(t, id) ==> MyId(s, id)
  {
  }

  lemma OwnIds(s: State, a: Action, id: BlockId)
    requires Inv(s) && CanDo(s, a) && MyId(Own(s, a), id)
    ensures MyId(s, id) || (a.Close? && id == s.nextId)
  {
    hide Inv, PoolOk, Filling, Held, WouldBlock, Releasing, NothingOpen, Acquire;
    match a {
      case Close(b) =>
        var i :| i in Own(s, a).blocks && Own(s, a).blocks[i].status != READING && Own(s, a).blocks[i].info.blockId == id;
      case AcquireOne =>
        AcquireOwns(s, false, 0);
        SameIds(s, Own(s, a), id);
      case Commit =>
        if s.curBlock.Some? { OpenIsReading(s); }
        SameIds(s, Own(s, a), id);
      case Upload(b, ok) => UploadIds(s, b, ok, id);
      case Release(b) => ReleaseIds(s, b, id);
      case _ =>
        assert Own(s, a).blocks == s.blocks;
    }
  }

  lemma UploadIds(s: State, b: nat, ok: bool, id: BlockId)
    requires CanDo(s, Upload(b, ok)) && MyId(Own(s, Upload(b, ok)), id)
    ensures MyId(s, id)
  {
  }

  lemma ReleaseIds(s: State, b: nat, id: BlockId)
    requires CanDo(s, Release(b)) && MyId(Own(s, Release(b)), id)
    ensures MyId(s, id)
  {
  }

  lemma OpenIsReading(s: State)
    requires Filling(s) && s.curBlock.Some?
    ensures s.curBlock.value.status == READING
  {
  }

  lemma SeenIds(s: State, a: Action, t: State, id: BlockId)
    requires CanDo(s, a) && SameWorld(s, t)
    ensures MyId(Seen(s, a, t), id) <==> MyId(t, id)
  {
    hide Held, WouldBlock, Releasing, NothingOpen, PoolOk, Filling;
    assert Seen(s, a, t).blocks == t.blocks;
  }

  // -- One step of the group ---------------------------------------------------------------------------------

  /** The writers of a pool, and which of them is in AcquireMultiple. */
  datatype Group = Group(ws: seq<State>, lock: Option<nat>)

  ghost predicate Enabled(g: Group, i: nat, a: Action) {
    && i < |g.ws| && CanDo(g.ws[i], a)
    && (forall k :: 0 <= k < |g.ws| ==> SameWorld(g.ws[i], g.ws[k]))
    && (a.Lock? ==> g.lock == None)
    && (a.AcquireOne? || a.Unlock? ==> g.lock == Some(i))
  }

  ghost function Step(g: Group, i: nat, a: Action): Group
    requires Enabled(g, i, a)
  {
    Group(seq(|g.ws|, k requires 0 <= k < |g.ws| => if k == i then Own(g.ws[i], a) else Seen(g.ws[i], a, g.ws[k])),
          if a.Lock? then Some(i) else if a.Unlock? then None else g.lock)
  }

  /** Between the writer that moves and another one. */
  lemma StepApart(s: State, a: Action, t: State)
    requires Inv(s) && Inv(t) && CanDo(s, a) && SameWorld(s, t) && Apart(s, t) && Apart(t, s)
    ensures Apart(Own(s, a), Seen(s, a, t)) && Apart(Seen(s, a, t), Own(s, a))
  {
    hide Inv, CanDo, Own, Seen, Owns, MyId, Loss, Gain;
    var s', t' := Own(s, a), Seen(s, a, t);
    forall c
      ensures Owns(t', c) ==> c in s'.others
      ensures Owns(s', c) ==> c in t'.others
    {
      OwnOwns(s, a, c);
      SeenOwns(s, a, t, c);
    }
    NextIdUnused(t);
    forall id
      ensures MyId(s', id) ==> !MyId(t', id)
    {
      SeenIds(s, a, t, id);
      if MyId(s', id) {
        OwnIds(s, a, id);
      }
    }
  }

  /** Between two others. */
  lemma StepApartOthers(s: State, a: Action, t: State, u: State)
    requires Inv(s) && Inv(t) && Inv(u) && CanDo(s, a) && SameWorld(s, t) && SameWorld(s, u)
    requires Apart(t, u) && Apart(t, s) && Apart(u, s)
    ensures Apart(Seen(s, a, t), Seen(s, a, u))
  {
    hide Inv, CanDo, Own, Seen, Owns, MyId, Gain;
    var t', u' := Seen(s, a, t), Seen(s, a, u);
    forall c ensures Owns(u', c) ==> c in t'.others {
      SeenOwns(s, a, t, c);
      SeenOwns(s, a, u, c);
      if Owns(u', c) && c in Loss(s, a) {
        LostNotOwned(s, a, u, c);
      }
    }
    forall id ensures MyId(t', id) ==> !MyId(u', id) {
      SeenIds(s, a, t, id);
      SeenIds(s, a, u, id);
    }
  }

  lemma LostNotOwned(s: State, a: Action, u: State, c: ChunkId)
    requires Inv(s) && Inv(u) && CanDo(s, a) && Apart(u, s) && c in Loss(s, a)
    ensures !Owns(u, c) && Owns(s, c)
  {
    hide Inv, CanDo, Owns, MyId;
    assert c in Uses(s, a);
    UsesOwn(s, a, c);
    ForeignNotOwned(u, c);
  }

  lemma StepViews(g: Group, i: nat, a: Action)
    requires Sharing(g.ws) && Enabled(g, i, a)
    ensures var ts := Step(g, i, a).ws;
            && (forall k :: 0 <= k < |ts| ==> Inv(ts[k]))
            && (forall j, k :: 0 <= j < |ts| && 0 <= k < |ts| ==> SameWorld(ts[j], ts[k]))
  {
    hide Inv, CanDo, Own, Seen, Apart, SameWorld;
    var ts := Step(g, i, a).ws;
    forall k | 0 <= k < |ts| ensures Inv(ts[k]) && SameWorld(Own(g.ws[i], a), ts[k]) {
      SeenSameWorld(g.ws[i], a, g.ws[k]);
      if k == i {
        OwnKeeps(g.ws[i], a);
        WorldRefl(ts[i]);
      } else {
        SeenKeeps(g.ws[i], a, g.ws[k]);
      }
    }
    forall j, k | 0 <= j < |ts| && 0 <= k < |ts| ensures SameWorld(ts[j], ts[k]) {
      WorldTrans(Own(g.ws[i], a), ts[j], ts[k]);
    }
  }

  lemma WorldRefl(s: State)
    ensures SameWorld(s, s)
  {
  }

  lemma StepAllApart(g: Group, i: nat, a: Action)
    requires Sharing(g.ws) && Enabled(g, i, a)
    ensures var ts := Step(g, i, a).ws;
            forall j, k :: 0 <= j < |ts| && 0 <= k < |ts| && j != k ==> Apart(ts[j], ts[k])
  {
    hide Inv, CanDo, Own, Seen, Apart, SameWorld;
    var ws, ts := g.ws, Step(g, i, a).ws;
    forall j, k | 0 <= j < |ts| && 0 <= k < |ts| && j != k ensures Apart(ts[j], ts[k]) {
      if j == i {
        StepApart(ws[i], a, ws[k]);
      } else if k == i {
        StepApart(ws[i], a, ws[j]);
      } else {
        StepApartOthers(ws[i], a, ws[j], ws[k]);
      }
    }
  }

  /** What is foreign after the step has an owner after it. */
  lemma StepOwned(g: Group, i: nat, a: Action, k: nat, c: ChunkId)
    requires Sharing(g.ws) && Enabled(g, i, a) && k < |g.ws| && c in Step(g, i, a).ws[k].others
    ensures OwnedByOther(Step(g, i, a).ws, k, c)
  {
    hide Inv, CanDo, Own, Seen, Owns, MyId, SameWorld, Gain, Loss;
    var ws, ts := g.ws, Step(g, i, a).ws;
    OwnOwns(ws[i], a, c);
    if k != i {
      SeenOwns(ws[i], a, ws[k], c);
    }
    if c in ws[k].others && (k == i || c !in Loss(ws[i], a)) {
      assert OwnedByOther(ws, k, c);
      var j :| 0 <= j < |ws| && j != k && Owns(ws[j], c);
      if j != i {
        SeenOwns(ws[i], a, ws[j], c);
      }
      assert Owns(ts[j], c);
    } else {
      assert Owns(ts[i], c);
    }
  }

  /** Every step of every writer keeps the views together. */
  lemma StepShares(g: Group, i: nat, a: Action)
    requires Sharing(g.ws) && Enabled(g, i, a)
    ensures Sharing(Step(g, i, a).ws)
  {
    hide Inv, CanDo, Own, Seen, Apart, SameWorld, OwnedByOther, Enabled;
    StepViews(g, i, a);
    StepAllApart(g, i, a);
    forall k: nat, c | k < |g.ws| && c in Step(g, i, a).ws[k].others ensures OwnedByOther(Step(g, i, a).ws, k, c) {
      StepOwned(g, i, a, k, c);
    }
  }

  // -- Runs of the group -----------------------------------------------------------------------------------

  /**
   * Only the writer that has the lock has acquired chunks that are not yet its reserve, and not
   * more than it needs; a writer that commits has no current chunk.
   */
  ghost predicate LockOk(g: Group) {
    && (forall i :: 0 <= i < |g.ws| && g.lock != Some(i) ==> g.ws[i].acquiring == [])
    && (forall i :: 0 <= i < |g.ws| ==> Orderly(g.ws[i]))
  }

  ghost predicate Orderly(s: State) {
    |s.acquiring| <= s.perBlock && (s.committing ==> s.curChunk.None?)
  }

  lemma OwnOrderly(s: State, a: Action)
    requires CanDo(s, a) && Orderly(s)
    ensures Orderly(Own(s, a))
  {
    hide Releasing, AtSend, PoolOk, Filling, EmptyChunk;
  }

  lemma StepLock(g: Group, i: nat, a: Action)
    requires LockOk(g) && Enabled(g, i, a)
    ensures LockOk(Step(g, i, a))
  {
    hide Held, Releasing, AtSend, PoolOk, Filling;
    var h := Step(g, i, a);
    forall k | 0 <= k < |h.ws| && h.lock != Some(k) ensures h.ws[k].acquiring == [] {
    }
    forall k | 0 <= k < |h.ws| ensures Orderly(h.ws[k]) {
      assert Orderly(g.ws[k]);
      if k == i { OwnOrderly(g.ws[i], a); }
    }
  }

  /** New writers, none of which has begun, on a pool of which every chunk is idle. */
  ghost predicate Initial(g: Group) {
    && g.lock == None
    && (forall i :: 0 <= i < |g.ws| ==> New(g.ws[i]) && IdlePool(g.ws[i]))
    && (forall i, j :: 0 <= i < |g.ws| && 0 <= j < |g.ws| ==> SameWorld(g.ws[i], g.ws[j]))
  }

  ghost predicate IdlePool(s: State) {
    forall c :: c in s.mem ==> c in s.resources
  }

  lemma InitialShares(g: Group)
    requires Initial(g)
    ensures Sharing(g.ws) && LockOk(g)
  {
    hide SameWorld;
    forall i | 0 <= i < |g.ws| ensures Inv(g.ws[i]) && Untouched(g.ws[i]) {
      NewKeeps(g.ws[i]);
      NewOwnsNothing(g.ws[i]);
    }
    hide Inv, New, IdlePool;
    assert forall i, j :: 0 <= i < |g.ws| && 0 <= j < |g.ws| && i != j ==> Apart(g.ws[i], g.ws[j]);
  }

  ghost predicate Untouched(s: State) {
    s.others == {} && s.acquiring == [] && (forall c :: !Owns(s, c)) && forall id :: !MyId(s, id)
  }

  lemma NewOwnsNothing(s: State)
    requires New(s) && IdlePool(s)
    ensures Untouched(s)
  {
  }

  ghost predicate Next(g: Group, h: Group) {
    exists i: nat, a :: Enabled(g, i, a) && h == Step(g, i, a)
  }

  ghost predicate Run(trace: seq<Group>) {
    && |trace| > 0 && Initial(trace[0])
    && forall k :: 0 <= k < |trace| - 1 ==> Next(trace[k], trace[k + 1])
  }

  /** In every state of every run the views are together and the lock is respected. */
  lemma {:induction false} RunShares(trace: seq<Group>, k: nat)
    requires Run(trace) && k < |trace|
    ensures Sharing(trace[k].ws) && LockOk(trace[k])
  {
    hide Sharing, LockOk, Enabled, Step, Initial;
    if k == 0 {
      InitialShares(trace[0]);
    } else {
      RunShares(trace, k - 1);
      assert Next(trace[k - 1], trace[k]);
      var i: nat, a :| Enabled(trace[k - 1], i, a) && trace[k] == Step(trace[k - 1], i, a);
      StepShares(trace[k - 1], i, a);
      StepLock(trace[k - 1], i, a);
    }
  }

  /** In no run is a chunk with two writers, or with one of them and in the pool. */
  lemma OneOwner(trace: seq<Group>, k: nat, i: nat, j: nat, c: ChunkId)
    requires Run(trace) && k < |trace| && i < |trace[k].ws| && j < |trace[k].ws| && i != j && Owns(trace[k].ws[i], c)
    ensures !Owns(trace[k].ws[j], c) && c !in trace[k].ws[j].resources
  {
    hide Run, Owns, Inv, SameWorld;
    RunShares(trace, k);
    assert Apart(trace[k].ws[j], trace[k].ws[i]);
    ForeignNotOwned(trace[k].ws[j], c);
    ForeignOwner(trace[k].ws[j], c);
  }

  // -- Waiting ---------------------------------------------------------------------------------------------

  /** An upload has steps to do, or the writer holds chunks of a finished AcquireMultiple. */
  ghost predicate Busy(s: State) {
    Held(s) > 0 || exists i: nat :: Committing(s, i) && Left(s, i) > 0
  }

  /** A writer that is not busy owns nothing but what it has acquired so far. */
  lemma NotBusyOwns(s: State, c: ChunkId)
    requires Inv(s) && !Busy(s) && Owns(s, c)
    ensures c in s.acquiring
  {
    forall i: nat ensures Holding(s, i) == [] {
      if i in s.blocks { ThroughHoldsNothing(s, i); }
    }
    hide Holding;
    assert Located(s, c);
  }

  lemma ThroughHoldsNothing(s: State, i: nat)
    requires Inv(s) && i in s.blocks && (i in s.received || Left(s, i) == 0)
    ensures s.blocks[i].Unreleased() == []
  {
    assert Committed(s, i);
  }

  /**
   * In no run do all writers wait for good. If the one in AcquireMultiple has to wait for a chunk,
   * and the pool may hold the chunks of its block, some writer is busy; so if none is, the next
   * Acquire returns.
   */
  lemma NotAllWait(trace: seq<Group>, k: nat, holder: nat)
    requires Run(trace) && k < |trace| && trace[k].lock == Some(holder) && holder < |trace[k].ws|
    requires var s := trace[k].ws[holder]; |s.acquiring| < s.perBlock <= s.maxCount
    ensures WouldBlock(trace[k].ws[holder]) ==> exists i :: 0 <= i < |trace[k].ws| && Busy(trace[k].ws[i])
    ensures (forall i :: 0 <= i < |trace[k].ws| ==> !Busy(trace[k].ws[i])) ==> Enabled(trace[k], holder, AcquireOne)
  {
    RunShares(trace, k);
    var ws := trace[k].ws;
    var s := ws[holder];
    if WouldBlock(s) && forall i :: 0 <= i < |ws| ==> !Busy(ws[i]) {
      forall c ensures c !in s.others {
        if c in s.others {
          assert OwnedByOther(ws, holder, c);
          var j :| 0 <= j < |ws| && j != holder && Owns(ws[j], c);
          NotBusyOwns(ws[j], c);
        }
      }
      assert s.others == {};
      WaitingForOthers(s);
    }
  }

  /** In every run an open writer can go on, unless it waits for the lock or for a chunk. */
  lemma WriterGoesOn(trace: seq<Group>, k: nat, i: nat, p: seq<byte>) returns (a: Action)
    requires Run(trace) && k < |trace| && i < |trace[k].ws| && trace[k].ws[i].status == READING && trace[k].ws[i].perBlock > 0
    ensures Enabled(trace[k], i, a)
         || (a == Lock && trace[k].lock.Some?) || (a == AcquireOne && WouldBlock(trace[k].ws[i]))
  {
    hide Run, CanDo, Inv, SameWorld;
    RunShares(trace, k);
    a := WriterMoves(trace[k].ws[i], p);
  }

  lemma WriterMoves(s: State, p: seq<byte>) returns (a: Action)
    requires Inv(s) && s.status == READING && s.perBlock > 0 && Orderly(s)
    ensures CanDo(s, a) || (a == AcquireOne && WouldBlock(s))
    ensures s.committing ==> a == if s.reserve != [] then GiveBack else Commit
    ensures !s.committing && s.curChunk.Some? ==> a == Fill(p) && CanDo(s, Append)
    ensures !s.committing && s.curChunk.None? ==>
              if s.reserve != [] then a == UseReserve && CanDo(s, StartCommit)
              else if s.curBlock.Some? then a == StartCommit
              else a == if s.acquiring == [] then Lock else if |s.acquiring| < s.perBlock then AcquireOne else Unlock
    ensures a == AcquireOne || a == Unlock ==> s.acquiring != []
  {
    hide Owned, Uploads;
    if s.committing {
      a := if s.reserve != [] then GiveBack else Commit;
    } else if s.curChunk.Some? {
      a := Fill(p);
    } else if s.reserve != [] {
      a := UseReserve;
    } else if s.curBlock.Some? {
      a := StartCommit;
    } else if s.acquiring == [] {
      a := Lock;
    } else if |s.acquiring| < s.perBlock {
      a := AcquireOne;
    } else {
      a := Unlock;
    }
  }

  /** An upload that has steps left can take the next one. */
  lemma UploadMoves(s: State, i: nat) returns (a: Action)
    requires Inv(s) && Committing(s, i) && Left(s, i) > 0
    ensures (a == Close(i) || (a.Upload? && a.b == i) || a == Release(i)) && CanDo(s, a)
  {
    BlockNumber(s, i);
    if s.blocks[i].status == READING {
      a := Close(i);
    } else if s.blocks[i].status == UPLOADING {
      a := Upload(i, true);
    } else {
      a := Release(i);
      ReleaseChunkKeeps(s, i);
    }
  }
}
