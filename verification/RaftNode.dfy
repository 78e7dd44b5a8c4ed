/**
 * The raft driver's bookkeeping: which committed entries are published, when a snapshot
 * is taken and how far the log is compacted. Indices are uint64 and wrap.
 */
module RaftNode {
  import opened Basics
  import opened MetaStore
  import opened Membership

  function Add64(a: uint64, b: uint64): uint64 { (a + b) % TWO_64 }

  function Sub64(a: uint64, b: uint64): uint64 { (a - b) % TWO_64 }

  /** entriesToApply; None is the fatal exit. */
  function EntriesToApply<T>(applied: uint64, first: uint64, ents: seq<T>): Option<seq<T>> {
    if ents == [] then Some([])
    else if first > Add64(applied, 1) then None
    else
      var skip := Add64(Sub64(applied, first), 1);
      Some(if skip < |ents| then ents[skip..] else [])
  }

  /** What of a log is above index a, up to index b. */
  function Segment<T>(log: seq<T>, a: nat, b: nat): seq<T> {
    if a <= b <= |log| then log[a..b] else []
  }

  /**
   * For a batch that holds entries lo..hi of a log: it is fatal exactly when it leaves a
   * gap; otherwise exactly the entries above `applied` remain, in spite of the wrapping
   * subtraction.
   */
  lemma EntriesToApplyExact<T>(log: seq<T>, applied: uint64, lo: nat, hi: nat)
    requires 1 <= lo <= hi + 1 && hi <= |log| < TWO_64 - 1 && applied < TWO_64 - 1
    ensures EntriesToApply(applied, lo, log[lo - 1..hi])
         == if lo <= hi && lo > applied + 1 then None else Some(Segment(log, Max(applied, lo - 1), hi))
  {
    var ents := log[lo - 1..hi];
    if lo <= hi && lo <= applied + 1 {
      var skip := Add64(Sub64(applied, lo), 1);
      assert skip == applied - lo + 1 by {
        if applied >= lo {
          assert Sub64(applied, lo) == applied - lo;
        } else {
          assert Sub64(applied, lo) == TWO_64 - 1;
        }
      }
      if skip < |ents| {
        assert ents[skip..] == log[applied..hi];
      } else if applied == hi {
        assert log[applied..hi] == [];
      }
    } else if lo == hi + 1 {
      assert ents == [] && (Max(applied, lo - 1) == hi ==> log[hi..hi] == []);
    }
  }

  // -- raft.MemoryStorage, as its callers see it -----------------------------------------------

  /** `offset` is the index of the dummy entry, `last` the last index, `snapshot` the snapshot's. */
  datatype MemoryStorage = MemoryStorage(offset: nat, last: nat, snapshot: nat)

  datatype Result = Done(ms: MemoryStorage) | Refused

  function CreateSnapshot(ms: MemoryStorage, i: nat): Result {
    if i <= ms.snapshot || i > ms.last then Refused else Done(ms.(snapshot := i))
  }

  function Compact(ms: MemoryStorage, i: nat): Result {
    if i <= ms.offset || i > ms.last then Refused else Done(ms.(offset := i))
  }

  /** The snapshot of a Ready replaces the whole log. */
  function ApplySnapshot(ms: MemoryStorage, i: nat): MemoryStorage {
    if i <= ms.snapshot then ms else MemoryStorage(i, i, i)
  }

  datatype Config = Config(snapCount: uint64, catchUp: uint64)

  datatype Outcome = Quiet | Took(ms: MemoryStorage, compacted: nat) | Panic

  /** The decision of maybeTriggerSnapshot and its effect on the storage. */
  function Trigger(c: Config, applied: uint64, snapIndex: uint64, ms: MemoryStorage): Outcome {
    if Sub64(applied, snapIndex) <= c.snapCount then Quiet else
    match CreateSnapshot(ms, applied)
    case Refused => Panic
    case Done(ms') =>
      var compactIndex := if applied > c.catchUp then applied - c.catchUp else 1;
      match Compact(ms', compactIndex)
      case Refused => Panic
      case Done(ms'') => Took(ms'', compactIndex)
  }

  /** Neither call of maybeTriggerSnapshot is refused when snapCount >= catchUp. */
  lemma TriggerNeverPanics(c: Config, applied: uint64, snapIndex: uint64, ms: MemoryStorage)
    requires c.snapCount >= c.catchUp
    requires ms.offset <= ms.snapshot == snapIndex <= applied <= ms.last
    ensures !Trigger(c, applied, snapIndex, ms).Panic?
    ensures var t := Trigger(c, applied, snapIndex, ms);
            t.Took? ==> (ms.offset < t.compacted <= applied && t.ms.snapshot == applied > snapIndex
                         && t.ms.offset == t.compacted && t.ms.last == ms.last
                         && t.compacted == if applied > c.catchUp then applied - c.catchUp else 1)
    ensures Trigger(c, applied, snapIndex, ms).Quiet? <==> applied - snapIndex <= c.snapCount
  {
  }

  // -- The driver ------------------------------------------------------------------------------

  class RaftNode {
    var appliedIndex: uint64
    var snapshotIndex: uint64
    var voters: set<nat>
    var storage: MemoryStorage
    const config: Config

    constructor (config: Config, storage: MemoryStorage, voters: set<nat>)
      requires storage.snapshot < TWO_64
      ensures appliedIndex == snapshotIndex == storage.snapshot
      ensures this.config == config && this.storage == storage && this.voters == voters
    {
      this.config, this.storage, this.voters := config, storage, voters;
      snapshotIndex, appliedIndex := storage.snapshot, storage.snapshot;
    }

    method SelectEntries(first: uint64, ents: seq<Entry>) returns (nents: seq<Entry>, fatal: bool)
      ensures (if fatal then None else Some(nents)) == EntriesToApply(appliedIndex, first, ents)
    {
      if |ents| == 0 { return ents, false; }
      if first > Add64(appliedIndex, 1) { return [], true; }
      var skip := Add64(Sub64(appliedIndex, first), 1);
      nents, fatal := [], false;
      if skip < |ents| {
        nents := ents[skip..];
      }
    }

    /** Collects the data to hand over, applies membership changes, then moves appliedIndex. */
    method PublishEntries(first: uint64, ents: seq<Entry>) returns (data: seq<Entry>)
      requires first + |ents| < TWO_64
      modifies this
      ensures data == Data(ents)
      ensures voters == ApplyConfs(old(voters), ents)
      ensures forall node :: node in voters <==> VoterAfter(old(voters), ents, node)
      ensures appliedIndex == if ents == [] then old(appliedIndex) else first + |ents| - 1
      ensures snapshotIndex == old(snapshotIndex) && storage == old(storage)
    {
      data := [];
      hide VoterAfter;
      forall node ensures node in ApplyConfs(voters, ents) <==> VoterAfter(voters, ents, node) {
        ApplyConfsIs(voters, ents, node);
      }
      if |ents| == 0 { return; }
      for i := 0 to |ents|
        invariant data == Data(ents[..i])
        invariant voters == ApplyConfs(old(voters), ents[..i])
        invariant appliedIndex == old(appliedIndex)
        invariant snapshotIndex == old(snapshotIndex) && storage == old(storage)
      {
        DataConcat(ents[..i], [ents[i]]);
        assert ents[..i] + [ents[i]] == ents[..i + 1] && ents[..i + 1][..i] == ents[..i];
        assert Data([ents[i]]) == if ents[i].IsData() then [ents[i]] + Data([]) else Data([]);
        match ents[i] {
          case Empty =>
          case ConfChange(add, node) =>
            voters := if add then voters + {node} else voters - {node};
          case _ => data := data + [ents[i]];
        }
      }
      assert ents[..|ents|] == ents;
      appliedIndex := first + |ents| - 1;
    }

    method PublishSnapshot(index: uint64, conf: set<nat>) returns (fatal: bool)
      modifies this
      ensures fatal <==> index <= old(appliedIndex)
      ensures if fatal then appliedIndex == old(appliedIndex) && snapshotIndex == old(snapshotIndex) && voters == old(voters)
              else appliedIndex == snapshotIndex == index && voters == conf
      ensures storage == old(storage)
    {
      if index <= appliedIndex { return true; }
      voters := conf;
      snapshotIndex := index;
      appliedIndex := index;
      fatal := false;
    }

    method MaybeTriggerSnapshot() returns (took: bool, panicked: bool)
      modifies this
      ensures appliedIndex == old(appliedIndex) && voters == old(voters)
      ensures match Trigger(config, old(appliedIndex), old(snapshotIndex), old(storage))
              case Quiet => !took && !panicked && storage == old(storage) && snapshotIndex == old(snapshotIndex)
              case Panic => !took && panicked
              case Took(ms, _) => took && !panicked && storage == ms && snapshotIndex == appliedIndex
    {
      took, panicked := false, false;
      if Sub64(appliedIndex, snapshotIndex) <= config.snapCount { return; }
      var created := CreateSnapshot(storage, appliedIndex);
      if created.Refused? { return false, true; }
      storage := created.ms;
      var compactIndex := 1;
      if appliedIndex > config.catchUp {
        compactIndex := appliedIndex - config.catchUp;
      }
      var compacted := Compact(storage, compactIndex);
      if compacted.Refused? { return false, true; }
      storage := compacted.ms;
      snapshotIndex := appliedIndex;
      took := true;
    }
  }
}
