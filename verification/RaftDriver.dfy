/**
 * The raft loop, the applier and the proposers of one placement group replica as
 * processes that take atomic steps in any order, with crashes. The raft library enters
 * only by its contract: committed entries form one fixed log, batches are contiguous
 * segments of it that leave no gap, and received snapshots are sound.
 */
module RaftDriver {
  import opened Basics
  import opened Membership
  import opened MetaStore
  import opened RaftNode

  /** The log the group will have committed by the end of the run, and the driver's constants. */
  datatype Group = Group(log: seq<Entry>, config: Config)

  ghost predicate ValidGroup(g: Group) {
    && |g.log| < TWO_64 - 1
    && forall i, j :: 0 <= i < j < |g.log| && g.log[i].IsData() && g.log[j].IsData()
                      ==> g.log[i].op != g.log[j].op
  }

  /**
   * A snapshot of index `index`; `asOf` is the high-water mark of the store it was taken from,
   * `stale` are the keys in which it may be behind, and `conf` is the configuration that it carries.
   */
  datatype Snapshot = Snapshot(index: nat, data: Store, asOf: nat, stale: set<string>, conf: set<nat> := {})

  /** A committed entry with its index, as raft delivers it. */
  datatype Indexed = Indexed(index: nat, entry: Entry)

  function Numbered(log: seq<Entry>): (r: seq<Indexed>)
    ensures |r| == |log| && forall i :: 0 <= i < |log| ==> r[i] == Indexed(i + 1, log[i])
  {
    seq(|log|, i requires 0 <= i < |log| => Indexed(i + 1, log[i]))
  }

  function Entries(es: seq<Indexed>): (r: seq<Entry>)
    ensures |r| == |es| && forall i :: 0 <= i < |es| ==> r[i] == es[i].entry
  {
    seq(|es|, i requires 0 <= i < |es| => es[i].entry)
  }

  /** readCommit: waiting for a commit, working through one, or loading the newest snapshot. */
  datatype Applier = Idle | Applying(todo: seq<Entry>) | Loading
  {
    predicate Pending() {
      Loading? || (Applying? && todo != [])
    }
  }

  /** Where the Ready arm of serveChannels is. */
  datatype Loop =
    | Select
    | Install(lo: nat, hi: nat, last: nat)
    | Publish(lo: nat, hi: nat)
    | MayTrigger(awaits: bool)
    | Panicked

  datatype State = State(
    committed: nat,            // how much of the log is committed so far
    loop: Loop,
    applied: nat,
    snapIndex: nat,
    ms: MemoryStorage,
    saved: Snapshot,           // the newest snapshot file
    applier: Applier,
    store: Store,              // persistent
    voters: set<nat>,          // ConfState
    waiting: set<nat>,         // operation ids with a registered proposer
    woken: set<nat>,           // those whose proposer was triggered
    // history
    base: nat,                 // index of the last install or restart
    published: seq<Indexed>,   // entries published since
    fed: seq<Entry>,           // data handed to the applier since
    apos: nat,                 // log position the store has reached
    high: nat,                 // highest position the store has ever reached
    stale: set<string>         // keys in which the store may be behind
  )

  const INIT := State(0, Select, 0, 0, MemoryStorage(0, 0, 0), Snapshot(0, map[], 0, {}), Idle, map[], {},
                      {}, {}, 0, [], [], 0, 0, {})

  datatype Action =
    | Commit(upTo: nat)
    | Register(op: nat)
    | Ready(lo: nat, hi: nat, last: nat)
    | ReadySnapshot(snap: Snapshot, lo: nat, hi: nat, last: nat)
    | SendNil
    | PublishEntries
    | ApplyOne
    | ApplyDone
    | Load
    | MaybeSnapshot
    | Return(op: nat)
    | Crash(last: nat)

  /** What a snapshot, a peer's or one's own, is known to be. */
  ghost predicate Sound(g: Group, snap: Snapshot, committed: nat)
    requires committed <= |g.log|
  {
    snap.index <= snap.asOf <= committed && Fresh(snap.data, g.log, snap.index, snap.asOf, snap.stale)
  }

  /** The configuration of a snapshot: senders put in their own, which may be ahead of its index. */
  ghost predicate ConfSound(g: Group, snap: Snapshot, committed: nat)
    requires committed <= |g.log|
  {
    snap.index <= committed && ConfFresh(snap.conf, g.log, snap.index, committed)
  }

  /** entriesToApply on the batch at hand; None is the fatal exit. */
  function Selection(g: Group, s: State): Option<seq<Indexed>> {
    if s.loop.Publish? && 1 <= s.loop.lo <= s.loop.hi + 1 && s.loop.hi <= |g.log| < TWO_64 - 1 && s.applied < TWO_64
    then
      var batch := Numbered(g.log)[s.loop.lo - 1..s.loop.hi];
      EntriesToApply(s.applied, if batch == [] then 0 else batch[0].index, batch)
    else None
  }

  function Selected(g: Group, s: State): seq<Indexed> {
    if Selection(g, s).Some? then Selection(g, s).value else []
  }

  /** The index of the last entry of a batch. */
  function LastIndex(ents: seq<Indexed>, applied: nat): nat {
    if ents == [] then applied else ents[|ents| - 1].index
  }

  function TriggerOf(g: Group, s: State): Outcome {
    if s.applied < TWO_64 && s.snapIndex < TWO_64 then Trigger(g.config, s.applied, s.snapIndex, s.ms) else Quiet
  }

  ghost predicate Enabled(g: Group, s: State, a: Action) {
    match a
    case Commit(n) => s.committed <= n <= |g.log|
    case Register(op) =>
      && op !in s.waiting
      && forall i :: 0 <= i < s.committed <= |g.log| && g.log[i].IsData() ==> g.log[i].op != op
    case Ready(lo, hi, last) =>
      && s.loop.Select?
      && 1 <= lo <= hi + 1 && lo <= s.applied + 1 && hi <= s.committed
      && hi <= last && s.applied <= last
    case ReadySnapshot(snap, lo, hi, last) =>
      && s.loop.Select?
      && snap.index > s.applied && s.committed <= |g.log| && Sound(g, snap, s.committed) && ConfSound(g, snap, s.committed)
      && 1 <= lo <= hi + 1 && lo <= snap.index + 1 && hi <= s.committed
      && hi <= last && snap.index <= last
    case SendNil => s.loop.Install? && s.applier.Idle?
    case PublishEntries => s.loop.Publish? && (Data(Entries(Selected(g, s))) != [] ==> s.applier.Idle?)
    case ApplyOne => s.applier.Applying? && s.applier.todo != []
    case ApplyDone => s.applier == Applying([])
    case Load => s.applier.Loading?
    case MaybeSnapshot =>
      s.loop.MayTrigger? && (s.loop.awaits && !TriggerOf(g, s).Quiet? ==> s.applier.Idle?)
    case Return(op) => op in s.woken
    case Crash(last) => last >= s.saved.index
  }

  /** Where the store stands after the next data entry. */
  function NextPos(g: Group, s: State): nat {
    s.apos + DataPos(Segment(g.log, s.apos, s.applied)) + 1
  }

  /** The keys touched by entries up to index i that the store has not applied. */
  function Missing(g: Group, s: State, i: nat): set<string> {
    Touched(Segment(g.log, s.apos, i))
  }

  ghost function Step(g: Group, s: State, a: Action): State
    requires Enabled(g, s, a)
  {
    match a
    case Commit(n) => s.(committed := n)
    case Register(op) => s.(waiting := s.waiting + {op})
    case Ready(lo, hi, last) => s.(ms := s.ms.(last := last), loop := Publish(lo, hi))
    case ReadySnapshot(snap, lo, hi, last) =>
      s.(saved := snap, ms := ApplySnapshot(s.ms, snap.index), loop := Install(lo, hi, last))
    case SendNil =>
      s.(applier := Loading, snapIndex := s.saved.index, applied := s.saved.index, voters := s.saved.conf,
         ms := s.ms.(last := s.loop.last), loop := Publish(s.loop.lo, s.loop.hi),
         base := s.saved.index, published := [], fed := [])
    case PublishEntries =>
      var ents := Selected(g, s);
      var data := Data(Entries(ents));
      s.(applied := LastIndex(ents, s.applied),
         published := s.published + ents,
         voters := ApplyConfs(s.voters, Entries(ents)),
         fed := s.fed + data,
         applier := if data == [] then s.applier else Applying(data),
         loop := MayTrigger(data != []))
    case ApplyOne =>
      var e := s.applier.todo[0];
      s.(store := Apply(s.store, e),
         applier := Applying(s.applier.todo[1..]),
         woken := if e.IsData() && e.op in s.waiting then s.woken + {e.op} else s.woken,
         apos := NextPos(g, s), high := Max(s.high, NextPos(g, s)),
         stale := s.stale - Touched([e]))
    case ApplyDone => s.(applier := Idle)
    case Load =>
      s.(store := Overlay(s.store, s.saved.data), applier := Idle,
         apos := s.saved.index, high := s.saved.asOf,
         stale := s.saved.stale + (s.store.Keys - s.saved.data.Keys))
    case MaybeSnapshot =>
      (match TriggerOf(g, s)
       case Quiet => s.(loop := Select)
       case Panic => s.(loop := Panicked)
       case Took(ms, _) =>
         s.(ms := ms, snapIndex := s.applied, loop := Select,
            saved := Snapshot(s.applied, s.store, Max(s.applied, s.high), s.stale + Missing(g, s, s.applied), s.voters)))
    case Return(op) => s.(waiting := s.waiting - {op}, woken := s.woken - {op})
    case Crash(last) =>
      var i := s.saved.index;
      s.(loop := Select, applier := Idle, applied := i, snapIndex := i, voters := s.saved.conf, ms := MemoryStorage(i, last, i),
         waiting := {}, woken := {}, base := i, published := [], fed := [],
         apos := i, high := Max(s.high, i), stale := s.stale + Missing(g, s, i))
  }

  ghost predicate Next(g: Group, s: State, t: State) {
    exists a :: Enabled(g, s, a) && t == Step(g, s, a)
  }

  ghost predicate Run(g: Group, trace: seq<State>) {
    && |trace| > 0 && trace[0] == INIT
    && forall i :: 0 <= i < |trace| - 1 ==> Next(g, trace[i], trace[i + 1])
  }

  // -- Invariants --------------------------------------------------------------------------------

  /** Storage offset <= snapshot index <= applied index <= last index. */
  ghost predicate Bounds(g: Group, s: State) {
    && s.committed <= |g.log| && s.saved.index == s.ms.snapshot <= s.committed
    && s.ms.offset <= s.ms.snapshot
    && s.snapIndex <= s.applied <= s.committed
    && (s.loop.Install? ==>
          && s.applied < s.ms.snapshot == s.ms.offset && 1 <= s.loop.lo <= s.loop.hi + 1
          && s.loop.lo <= s.ms.snapshot + 1 && s.loop.hi <= s.committed
          && s.loop.hi <= s.loop.last && s.ms.snapshot <= s.loop.last)
    && (!s.loop.Install? && !s.loop.Panicked? ==> s.snapIndex == s.ms.snapshot && s.applied <= s.ms.last)
    && (s.loop.Publish? ==>
          1 <= s.loop.lo <= s.loop.hi + 1 && s.loop.lo <= s.applied + 1
          && s.loop.hi <= s.committed && s.loop.hi <= s.ms.last)
  }

  /** Each index above the last install or restart was published once, in log order. */
  ghost predicate InOrder(g: Group, s: State) {
    && s.base <= s.applied <= |g.log|
    && s.published == Numbered(g.log)[s.base..s.applied]
    && s.fed == Data(g.log[s.base..s.applied])
  }

  /** What the store, the applier and the newest snapshot have to do with the log. */
  ghost predicate InStep(g: Group, s: State) {
    && s.apos <= s.high <= s.committed <= |g.log|
    && (if s.loop.Install? then s.apos <= Max(s.applied, s.saved.index) else s.apos <= s.applied)
    && Fresh(s.store, g.log, s.apos, s.high, s.stale)
    && Sound(g, s.saved, s.committed)
    && (match s.applier
        case Idle => Data(Segment(g.log, s.apos, s.applied)) == []
        case Applying(todo) => s.apos <= s.applied && todo == Data(Segment(g.log, s.apos, s.applied))
        case Loading =>
          && s.apos <= s.saved.index && (s.loop.Install? || s.saved.index <= s.applied)
          && Data(Segment(g.log, s.saved.index, s.applied)) == [])
    && (forall op :: op in s.woken ==> Performed(g, s.apos, op))
  }

  /** The operation with this id is among the first n entries. */
  ghost predicate Performed(g: Group, n: nat, op: nat) {
    exists j :: 0 <= j < n <= |g.log| && g.log[j].IsData() && g.log[j].op == op
  }

  ghost predicate Inv(g: Group, s: State) {
    Bounds(g, s) && InOrder(g, s) && InStep(g, s)
  }

  /** The batch leaves no gap, and what is selected is what lies above appliedIndex. */
  lemma SelectedExact(g: Group, s: State)
    requires ValidGroup(g) && s.loop.Publish? && s.applied <= |g.log|
    requires 1 <= s.loop.lo <= s.loop.hi + 1 && s.loop.lo <= s.applied + 1 && s.loop.hi <= |g.log|
    ensures Selection(g, s) == Some(Segment(Numbered(g.log), s.applied, s.loop.hi))
    ensures Entries(Selected(g, s)) == Segment(g.log, s.applied, s.loop.hi)
    ensures LastIndex(Selected(g, s), s.applied) == Max(s.applied, s.loop.hi)
  {
    EntriesToApplyExact(Numbered(g.log), s.applied, s.loop.lo, s.loop.hi);
  }

  lemma BoundsKept(g: Group, s: State, a: Action)
    requires ValidGroup(g) && Bounds(g, s) && Enabled(g, s, a)
    ensures Bounds(g, Step(g, s, a))
  {
    hide EntriesToApply;
    if a.PublishEntries? {
      SelectedExact(g, s);
    }
  }

  lemma PublishInOrder(g: Group, s: State)
    requires ValidGroup(g) && Bounds(g, s) && InOrder(g, s) && Enabled(g, s, PublishEntries)
    ensures InOrder(g, Step(g, s, PublishEntries))
  {
    hide EntriesToApply, Data, Selection, Selected, Numbered, Entries, LastIndex, Segment;
    SelectedExact(g, s);
    var t, ents := Step(g, s, PublishEntries), Selected(g, s);
    SegmentJoin(Numbered(g.log), s.base, s.applied, s.loop.hi);
    SegmentJoin(g.log, s.base, s.applied, s.loop.hi);
    assert ents == Segment(Numbered(g.log), s.applied, s.loop.hi) by { SelectedValue(g, s); }
    DataConcat(g.log[s.base..s.applied], Entries(ents));
  }

  lemma SelectedValue(g: Group, s: State)
    requires Selection(g, s).Some?
    ensures Selected(g, s) == Selection(g, s).value
  {
  }

  lemma SegmentJoin<T>(log: seq<T>, a: nat, b: nat, c: nat)
    requires a <= b <= |log| && c <= |log|
    ensures log[a..b] + Segment(log, b, c) == log[a..Max(b, c)]
  {
  }

  lemma InOrderKept(g: Group, s: State, a: Action)
    requires ValidGroup(g) && Bounds(g, s) && InOrder(g, s) && Enabled(g, s, a)
    ensures InOrder(g, Step(g, s, a))
  {
    hide EntriesToApply;
    var t := Step(g, s, a);
    if a.PublishEntries? {
      PublishInOrder(g, s);
    } else if a.SendNil? || a.Crash? {
      assert g.log[t.base..t.applied] == [] && Numbered(g.log)[t.base..t.applied] == [];
    }
  }

  // -- The store keeps step with the log --------------------------------------------------------

  lemma SegmentConcat(log: seq<Entry>, a: nat, b: nat, c: nat)
    requires a <= b <= c <= |log|
    ensures Data(Segment(log, a, c)) == Data(Segment(log, a, b)) + Data(Segment(log, b, c))
  {
    DataConcat(log[a..b], log[b..c]);
    assert log[a..b] + log[b..c] == log[a..c];
  }

  lemma PublishInStep(g: Group, s: State)
    requires ValidGroup(g) && Bounds(g, s) && InStep(g, s) && Enabled(g, s, PublishEntries)
    ensures InStep(g, Step(g, s, PublishEntries))
  {
    hide EntriesToApply, Fresh;
    SelectedExact(g, s);
    var t := Step(g, s, PublishEntries);
    if s.applied <= s.loop.hi {
      SegmentConcat(g.log, s.apos, s.applied, t.applied);
      if s.applier.Loading? {
        SegmentConcat(g.log, s.saved.index, s.applied, t.applied);
      }
    }
  }

  /** The next data entry moves the store to just after it. */
  lemma ApplyNextData(g: Group, s: State)
    requires s.apos <= s.high <= |g.log| && s.apos <= s.applied <= |g.log| && Fresh(s.store, g.log, s.apos, s.high, s.stale)
    requires Data(Segment(g.log, s.apos, s.applied)) != []
    ensures var e := Data(Segment(g.log, s.apos, s.applied))[0];
            && NextPos(g, s) <= s.applied && g.log[NextPos(g, s) - 1] == e && e.IsData()
            && Fresh(Apply(s.store, e), g.log, NextPos(g, s), Max(s.high, NextPos(g, s)), s.stale - Touched([e]))
            && Data(Segment(g.log, NextPos(g, s), s.applied)) == Data(Segment(g.log, s.apos, s.applied))[1..]
  {
    hide Fresh;
    var seg := Segment(g.log, s.apos, s.applied);
    FirstData(seg);
    var i := s.apos + DataPos(seg);
    assert seg[DataPos(seg)] == g.log[i] && seg[DataPos(seg) + 1..] == g.log[i + 1..s.applied];
    assert forall j :: 0 <= j < i - s.apos ==> g.log[s.apos..i][j] == seg[j];
    NoDataTouchesNothing(g.log[s.apos..i]);
    FreshSkip(s.store, g.log, s.apos, s.high, i, s.stale);
    assert s.stale + {} == s.stale;
    FreshApply(s.store, g.log, i, Max(i, s.high), s.stale);
  }

  lemma ApplyOneInStep(g: Group, s: State)
    requires ValidGroup(g) && Bounds(g, s) && InStep(g, s) && Enabled(g, s, ApplyOne)
    ensures InStep(g, Step(g, s, ApplyOne))
  {
    hide Fresh, Data, Segment, NextPos, EntriesToApply;
    ApplyNextData(g, s);
    var t := Step(g, s, ApplyOne);
    assert t.apos > s.apos by { NextPosAdvances(g, s); }
    forall op | op in t.woken ensures Performed(g, t.apos, op) {
      if op in s.woken {
        assert Performed(g, s.apos, op);
      } else {
        assert g.log[t.apos - 1].op == op;
      }
    }
  }

  lemma NextPosAdvances(g: Group, s: State)
    ensures NextPos(g, s) > s.apos
  {
  }

  lemma LoadInStep(g: Group, s: State)
    requires ValidGroup(g) && Bounds(g, s) && InStep(g, s) && Enabled(g, s, Load)
    ensures InStep(g, Step(g, s, Load))
  {
    FreshOverlay(s.store, s.saved.data, g.log, s.saved.index, s.saved.asOf, s.saved.stale);
    var t := Step(g, s, Load);
    forall op | op in t.woken ensures Performed(g, t.apos, op) {
      assert Performed(g, s.apos, op);
    }
  }

  /** A store with nothing pending misses nothing. */
  lemma SettledMissesNothing(g: Group, s: State)
    requires ValidGroup(g) && Bounds(g, s) && InStep(g, s) && !s.loop.Install? && !s.applier.Pending()
    ensures Missing(g, s, s.applied) == {}
  {
    var seg := Segment(g.log, s.apos, s.applied);
    NoData(seg);
    NoDataTouchesNothing(seg);
  }

  lemma SnapshotInStep(g: Group, s: State)
    requires ValidGroup(g) && Bounds(g, s) && InStep(g, s) && Enabled(g, s, MaybeSnapshot)
    ensures InStep(g, Step(g, s, MaybeSnapshot))
  {
    hide Fresh, Touched;
    if TriggerOf(g, s).Took? {
      FreshSkip(s.store, g.log, s.apos, s.high, s.applied, s.stale);
      assert Segment(g.log, s.applied, s.applied) == [];
    }
  }

  lemma CrashInStep(g: Group, s: State, last: nat)
    requires ValidGroup(g) && Bounds(g, s) && InStep(g, s) && Enabled(g, s, Crash(last))
    ensures InStep(g, Step(g, s, Crash(last)))
  {
    var i := s.saved.index;
    if i <= s.apos {
      NoDataTouchesNothing(Segment(g.log, s.apos, i));
      FreshWiden(s.store, g.log, s.apos, s.high, i, s.high, s.stale);
      assert s.stale + {} == s.stale;
    } else {
      FreshSkip(s.store, g.log, s.apos, s.high, i, s.stale);
    }
    assert Segment(g.log, i, i) == [];
  }

  lemma InStepKept(g: Group, s: State, a: Action)
    requires ValidGroup(g) && Bounds(g, s) && InStep(g, s) && Enabled(g, s, a)
    ensures InStep(g, Step(g, s, a))
  {
    hide Fresh, EntriesToApply;
    match a {
      case PublishEntries => PublishInStep(g, s);
      case ApplyOne => ApplyOneInStep(g, s);
      case Load => LoadInStep(g, s);
      case MaybeSnapshot => SnapshotInStep(g, s);
      case Crash(last) => CrashInStep(g, s, last);
      case SendNil => assert Segment(g.log, s.saved.index, s.saved.index) == [];
      case _ =>
    }
  }

  lemma InvKept(g: Group, s: State, a: Action)
    requires ValidGroup(g) && Inv(g, s) && Enabled(g, s, a)
    ensures Inv(g, Step(g, s, a))
  {
    hide Bounds, InOrder, InStep, Enabled;
    BoundsKept(g, s, a);
    InOrderKept(g, s, a);
    InStepKept(g, s, a);
  }

  lemma InitInv(g: Group)
    requires ValidGroup(g)
    ensures Inv(g, INIT)
  {
    assert Prefix(g.log, 0) == map[];
    PrefixIsFresh(g.log, 0, 0);
    assert g.log[0..0] == [];
  }

  /** Every state of every run satisfies the invariants. */
  lemma {:induction false} RunInv(g: Group, trace: seq<State>, k: nat)
    requires ValidGroup(g) && Run(g, trace) && k < |trace|
    ensures Inv(g, trace[k])
  {
    if k == 0 {
      InitInv(g);
    } else {
      RunInv(g, trace, k - 1);
      assert Next(g, trace[k - 1], trace[k]);
      var a :| Enabled(g, trace[k - 1], a) && trace[k] == Step(g, trace[k - 1], a);
      InvKept(g, trace[k - 1], a);
    }
  }

  // -- Main results ------------------------------------------------------------------------------

  /**
   * Exactly once and in order: since the last install or restart, exactly the entries above
   * it were published, once each and in log order, membership changes and empty entries
   * included, and the applier was handed their data. No batch is ever fatal.
   */
  lemma PublishedExactlyOnce(g: Group, trace: seq<State>, k: nat)
    requires ValidGroup(g) && Run(g, trace) && k < |trace|
    ensures var s := trace[k];
            && s.base <= s.applied <= |g.log|
            && s.published == Numbered(g.log)[s.base..s.applied]
            && s.fed == Data(g.log[s.base..s.applied])
            && (s.loop.Publish? ==> Selection(g, s).Some?)
  {
    hide EntriesToApply;
    RunInv(g, trace, k);
    if trace[k].loop.Publish? {
      SelectedExact(g, trace[k]);
    }
  }

  /** appliedIndex moves back only by a restart. */
  lemma AppliedNeverDecreases(g: Group, trace: seq<State>, k: nat, a: Action)
    requires ValidGroup(g) && Run(g, trace) && k + 1 < |trace|
    requires Enabled(g, trace[k], a) && trace[k + 1] == Step(g, trace[k], a) && !a.Crash?
    ensures trace[k].applied <= trace[k + 1].applied
  {
    hide EntriesToApply, Fresh, Data, InOrder, InStep;
    RunInv(g, trace, k);
    if a.PublishEntries? {
      SelectedExact(g, trace[k]);
    }
  }

  lemma PanicsOnlyInTrigger(g: Group, s: State, a: Action)
    requires Enabled(g, s, a) && Step(g, s, a).loop.Panicked? && !s.loop.Panicked?
    ensures a.MaybeSnapshot? && TriggerOf(g, s).Panic?
  {
    hide EntriesToApply, Data, Fresh, TriggerOf;
  }

  /** Neither CreateSnapshot nor Compact is ever refused when snapCount >= catchUp. */
  lemma {:induction false} NeverPanics(g: Group, trace: seq<State>, k: nat)
    requires ValidGroup(g) && Run(g, trace) && k < |trace| && g.config.snapCount >= g.config.catchUp
    ensures !trace[k].loop.Panicked?
    ensures trace[k].ms.offset <= trace[k].snapIndex <= trace[k].applied || trace[k].loop.Install?
  {
    hide Enabled, Step, InStep, InOrder;
    RunInv(g, trace, k);
    if k > 0 {
      NeverPanics(g, trace, k - 1);
      RunInv(g, trace, k - 1);
      var s := trace[k - 1];
      assert Next(g, s, trace[k]);
      var a :| Enabled(g, s, a) && trace[k] == Step(g, s, a);
      if trace[k].loop.Panicked? {
        PanicsOnlyInTrigger(g, s, a);
        assert !s.loop.Install? by { TriggerNotInstalling(g, s); }
        TriggerNeverPanics(g.config, s.applied, s.snapIndex, s.ms);
      }
    }
  }

  ghost predicate ApplierMoves(g: Group, s: State) {
    Enabled(g, s, ApplyOne) || Enabled(g, s, ApplyDone) || Enabled(g, s, Load)
  }

  /** The driver never comes to a stop: the loop goes on, or the applier that it waits for does. */
  lemma DriverMoves(g: Group, s: State, lo: nat, n: nat)
    ensures s.loop.Install? ==> Enabled(g, s, SendNil) || ApplierMoves(g, s)
    ensures s.loop.Publish? ==> Enabled(g, s, PublishEntries) || ApplierMoves(g, s)
    ensures s.loop.MayTrigger? ==> Enabled(g, s, MaybeSnapshot) || ApplierMoves(g, s)
    ensures !s.applier.Idle? ==> ApplierMoves(g, s)
    ensures s.loop.Select? && 1 <= lo <= s.applied + 1 && s.applied < n <= s.committed ==> Enabled(g, s, Ready(lo, n, n))
  {
    hide EntriesToApply, Selection, Data;
    if s.applier.Applying? {
      assert s.applier.todo == [] ==> s.applier == Applying([]);
    }
  }

  lemma TriggerNotInstalling(g: Group, s: State)
    requires Enabled(g, s, MaybeSnapshot)
    ensures !s.loop.Install?
  {
  }

  /** Extending a run by one step. */
  lemma Extend(g: Group, trace: seq<State>, a: Action) returns (t: State, trace': seq<State>)
    requires Run(g, trace) && Enabled(g, trace[|trace| - 1], a)
    ensures t == Step(g, trace[|trace| - 1], a)
    ensures Run(g, trace') && trace' == trace + [t] && trace'[|trace'| - 1] == t
  {
    hide Step, Enabled;
    t := Step(g, trace[|trace| - 1], a);
    trace' := trace + [t];
    forall i | 0 <= i < |trace'| - 1 ensures Next(g, trace'[i], trace'[i + 1]) {
      if i < |trace| - 1 {
        assert Next(g, trace[i], trace[i + 1]);
      }
    }
  }

  /** Extending a run by a batch. */
  lemma ExtendPublish(g: Group, trace: seq<State>) returns (t: State, trace': seq<State>)
    requires ValidGroup(g) && Run(g, trace)
    requires var s := trace[|trace| - 1];
             && s.loop.Publish? && 1 <= s.loop.lo <= s.applied + 1 <= s.loop.hi + 1 && s.loop.hi <= |g.log|
             && (Data(g.log[s.applied..s.loop.hi]) != [] ==> s.applier.Idle?)
    ensures Run(g, trace') && trace'[|trace'| - 1] == t
    ensures var s := trace[|trace| - 1];
            var data := Data(g.log[s.applied..s.loop.hi]);
            t == s.(applied := s.loop.hi, published := t.published, voters := t.voters, fed := t.fed,
                    applier := if data == [] then s.applier else Applying(data), loop := MayTrigger(data != []))
  {
    hide Next, Data, Selection;
    SelectedExact(g, trace[|trace| - 1]);
    t, trace' := Extend(g, trace, PublishEntries);
  }

  /** And only then: a shorter snapCount lets an install be followed by a refused compaction. */
  lemma PanicsIfSnapCountSmaller(c: Config) returns (g: Group, trace: seq<State>)
    requires c.snapCount < c.catchUp < TWO_63
    ensures ValidGroup(g) && g.config == c && Run(g, trace) && trace[|trace| - 1].loop.Panicked?
  {
    hide EntriesToApply, Run, Selection;
    var n := c.catchUp + c.snapCount + 1;
    g := Group(seq(n, _ => Empty), c);
    NoOperations(g.log, c.catchUp);
    NoChanges(g.log, c.catchUp, n);
    PrefixIsFresh(g.log, c.catchUp, c.catchUp);
    var s;
    trace := [INIT];
    assert Run(g, trace) by { SingleRun(g); }
    s, trace := Extend(g, trace, Commit(n));
    s, trace := Extend(g, trace, ReadySnapshot(Snapshot(c.catchUp, map[], c.catchUp, {}), c.catchUp + 1, n, n));
    s, trace := Extend(g, trace, SendNil);
    NoData(g.log[c.catchUp..n]);
    s, trace := ExtendPublish(g, trace);
    s, trace := Extend(g, trace, MaybeSnapshot);
  }

  lemma SingleRun(g: Group)
    ensures Run(g, [INIT])
  {
  }

  lemma {:induction false} NoOperations(log: seq<Entry>, n: nat)
    requires n <= |log| && forall i :: 0 <= i < n ==> log[i] == Empty
    ensures Prefix(log, n) == map[]
  {
    if n > 0 {
      NoOperations(log, n - 1);
    }
  }

  /**
   * Snapshot consistency, in every run: a snapshot cut after a batch with data adds no stale key,
   * every other key has the value of some prefix between appliedIndex and the store's high-water
   * mark, and a store without stale keys that is not behind a restart gives exactly the fold of
   * all entries up to appliedIndex.
   */
  lemma SnapshotConsistency(g: Group, trace: seq<State>, k: nat)
    requires ValidGroup(g) && Run(g, trace) && k < |trace|
    requires trace[k].loop == MayTrigger(true) && Enabled(g, trace[k], MaybeSnapshot)
    requires TriggerOf(g, trace[k]).Took?
    ensures var s := trace[k];
            var snap := Step(g, s, MaybeSnapshot).saved;
            && snap.index == s.applied <= |g.log| && s.high <= |g.log| && snap.stale == s.stale
            && Fresh(snap.data, g.log, s.applied, Max(s.applied, s.high), s.stale)
            && (s.stale == {} && s.high <= s.applied ==> snap.data == Prefix(g.log, s.applied))
  {
    var s := trace[k];
    RunInv(g, trace, k);
    SettledMissesNothing(g, s);
    SnapshotInStep(g, s);
    if s.stale == {} && s.high <= s.applied {
      FreshIsExact(s.store, g.log, s.applied);
    }
  }

  /** The step can leave no key behind, in the store or in the snapshot file. */
  ghost predicate Harmless(g: Group, s: State, a: Action) {
    match a
    case Load => s.store.Keys <= s.saved.data.Keys
    case Crash(_) => Missing(g, s, s.saved.index) == {}
    case MaybeSnapshot => TriggerOf(g, s).Took? ==> Missing(g, s, s.applied) == {}
    case ReadySnapshot(snap, _, _, _) => snap.stale == {}
    case _ => true
  }

  ghost predicate HarmlessNext(g: Group, s: State, t: State) {
    exists a :: Enabled(g, s, a) && t == Step(g, s, a) && Harmless(g, s, a)
  }

  /** Keys become stale only by the loads, restarts and snapshots that Harmless shuts out. */
  lemma {:induction false} NothingStale(g: Group, trace: seq<State>, k: nat)
    requires ValidGroup(g) && Run(g, trace) && k < |trace|
    requires forall i :: 0 <= i < k ==> HarmlessNext(g, trace[i], trace[i + 1])
    ensures trace[k].stale == {} && trace[k].saved.stale == {}
  {
    if k > 0 {
      NothingStale(g, trace, k - 1);
      assert HarmlessNext(g, trace[k - 1], trace[k]);
      hide EntriesToApply, Data, Touched;
    }
  }

  /** No snapshot is received that is ahead of its index. */
  ghost predicate Punctual(a: Action) {
    a.ReadySnapshot? ==> a.snap.asOf == a.snap.index
  }

  ghost predicate PunctualNext(g: Group, s: State, t: State) {
    exists a :: Enabled(g, s, a) && t == Step(g, s, a) && Punctual(a)
  }

  /** The store has never been further than h, appliedIndex, or a snapshot on its way. */
  ghost predicate NotAhead(s: State, h: nat) {
    && s.high <= Max(h, if s.loop.Install? then Max(s.applied, s.saved.index) else s.applied)
    && (s.loop.Install? || s.applier.Loading? ==> s.saved.asOf <= Max(h, s.saved.index))
  }

  lemma NotAheadKept(g: Group, s: State, a: Action, h: nat)
    requires ValidGroup(g) && Inv(g, s) && Enabled(g, s, a) && Punctual(a) && NotAhead(s, h) && s.applied <= h
    ensures NotAhead(Step(g, s, a), h)
  {
    hide EntriesToApply, Data, Fresh, Segment, NextPos, InOrder, Missing;
    match a {
      case PublishEntries => SelectedExact(g, s);
      case ApplyOne => ApplyNextData(g, s);
      case _ =>
    }
  }

  /** What the store has applied is bounded by the highest appliedIndex of the run, restarts included. */
  lemma {:induction false} StaysNotAhead(g: Group, trace: seq<State>, k: nat, h: nat)
    requires ValidGroup(g) && Run(g, trace) && k < |trace|
    requires forall j :: 0 <= j < k ==> PunctualNext(g, trace[j], trace[j + 1]) && trace[j].applied <= h
    ensures NotAhead(trace[k], h)
  {
    if k > 0 {
      StaysNotAhead(g, trace, k - 1, h);
      hide Enabled, Step, Inv, NotAhead;
      assert PunctualNext(g, trace[k - 1], trace[k]);
      var a :| Enabled(g, trace[k - 1], a) && trace[k] == Step(g, trace[k - 1], a) && Punctual(a);
      RunInv(g, trace, k - 1);
      NotAheadKept(g, trace[k - 1], a, h);
    }
  }

  /**
   * An awaited snapshot is the fold of all entries up to its index if appliedIndex was never
   * higher, as it was before a restart whose replay is not over, and no key is stale.
   */
  lemma SnapshotIsFold(g: Group, trace: seq<State>, k: nat)
    requires ValidGroup(g) && Run(g, trace) && k < |trace|
    requires trace[k].loop == MayTrigger(true) && Enabled(g, trace[k], MaybeSnapshot)
    requires TriggerOf(g, trace[k]).Took?
    requires forall j :: 0 <= j < k ==> HarmlessNext(g, trace[j], trace[j + 1]) && PunctualNext(g, trace[j], trace[j + 1])
    requires forall j :: 0 <= j < k ==> trace[j].applied <= trace[k].applied
    ensures var snap := Step(g, trace[k], MaybeSnapshot).saved;
            && snap.index == trace[k].applied <= |g.log|
            && snap.data == Prefix(g.log, snap.index)
  {
    hide Run, HarmlessNext, PunctualNext, Enabled, Step, TriggerOf, Fresh;
    SnapshotConsistency(g, trace, k);
    NothingStale(g, trace, k);
    StaysNotAhead(g, trace, k, trace[k].applied);
  }

  /**
   * A batch without data is not awaited: its snapshot can miss an operation that was
   * published before it.
   */
  lemma UnawaitedSnapshotMissesData(c: Config, meta: ObjectMeta) returns (g: Group, trace: seq<State>)
    requires c.catchUp <= c.snapCount < TWO_63 && c.snapCount > 0
    ensures ValidGroup(g) && g.config == c && Run(g, trace)
    ensures var s := trace[|trace| - 1];
            s.saved.index == |g.log| && s.saved.data != Prefix(g.log, s.saved.index)
  {
    hide EntriesToApply;
    hide Next, Step, Enabled;
    var n := c.snapCount + 2;
    g := Group([Put(7, meta)] + seq(n - 1, _ => Empty), c);
    var s, first;
    s, first := PublishFirst(g, meta);
    trace := PublishRest(g, meta, s, first);
    assert Prefix(g.log, 0) == map[] && meta.objId in Prefix(g.log, 1);
    UntouchedPrefix(g.log, 1, n, meta.objId);
  }

  /** The first batch holds one operation, which the applier has not begun to apply. */
  lemma PublishFirst(g: Group, meta: ObjectMeta) returns (s: State, trace: seq<State>)
    requires ValidGroup(g) && |g.log| > 1 && g.log[0] == Put(7, meta) && g.config.snapCount > 0
    ensures Run(g, trace) && trace[|trace| - 1] == s && s.store == map[] && s.applier == Applying([Put(7, meta)])
    ensures s.loop.Select? && s.applied == 1 && s.snapIndex == 0 && s.committed == |g.log|
    ensures s.ms == MemoryStorage(0, |g.log|, 0)
  {
    hide EntriesToApply, Run, Selection;
    var n := |g.log|;
    trace := [INIT];
    assert Run(g, trace) by { SingleRun(g); }
    s, trace := Extend(g, trace, Commit(n));
    s, trace := Extend(g, trace, Ready(1, 1, n));
    assert g.log[0..1] == [g.log[0]];
    OneData(g.log[0]);
    s, trace := ExtendPublish(g, trace);
    s, trace := Extend(g, trace, MaybeSnapshot);
  }

  /** The second batch holds no operation and is long enough to cut a snapshot. */
  lemma PublishRest(g: Group, meta: ObjectMeta, s: State, first: seq<State>) returns (trace: seq<State>)
    requires ValidGroup(g) && |g.log| == g.config.snapCount + 2 && g.config.snapCount >= g.config.catchUp
    requires forall i :: 1 <= i < |g.log| ==> g.log[i] == Empty
    requires Run(g, first) && first[|first| - 1] == s && s.store == map[]
    requires s.loop.Select? && s.applied == 1 && s.snapIndex == 0 && s.committed == |g.log|
    requires s.ms == MemoryStorage(0, |g.log|, 0)
    ensures Run(g, trace) && trace[|trace| - 1].saved.index == |g.log| && trace[|trace| - 1].saved.data == map[]
  {
    hide EntriesToApply, Run, Selection;
    var n, t := |g.log|, s;
    t, trace := Extend(g, first, Ready(2, n, n));
    NoData(g.log[1..n]);
    t, trace := ExtendPublish(g, trace);
    t, trace := Extend(g, trace, MaybeSnapshot);
  }

  /** A first operation, snapCount empty entries and a last operation. */
  function TwoOperations(c: Config, first: ObjectMeta, last: ObjectMeta): Group {
    Group([Put(7, first)] + seq(c.snapCount, _ => Empty) + [Put(8, last)], c)
  }

  lemma TwoOperationsData(c: Config, first: ObjectMeta, last: ObjectMeta)
    ensures var log := TwoOperations(c, first, last).log;
            Data(log[..|log| - 1]) == [Put(7, first)] && Data(log) == [Put(7, first), Put(8, last)]
  {
    var log, front, empty := TwoOperations(c, first, last).log, [Put(7, first)], seq(c.snapCount, _ => Empty);
    NoData(empty);
    DataConcat(front, empty);
    DataConcat(front + empty, [Put(8, last)]);
    assert log[..|log| - 1] == front + empty && log == front + empty + [Put(8, last)];
    assert Data(front) == front + Data([]) && Data([Put(8, last)]) == [Put(8, last)] + Data([]);
  }

  /** Both operations are applied, and then the replica restarts without a snapshot. */
  lemma ApplyAndCrash(c: Config, first: ObjectMeta, last: ObjectMeta) returns (s: State, trace: seq<State>)
    requires c.snapCount < TWO_63
    ensures var g := TwoOperations(c, first, last);
            && Run(g, trace) && trace[|trace| - 1] == s && s.applier.Idle? && last.objId in s.store
            && s.loop.Select? && s.applied == s.snapIndex == 0 && s.committed == |g.log| && s.ms == MemoryStorage(0, |g.log|, 0)
  {
    hide EntriesToApply, Run, Data, NextPos, Selection, Missing;
    var g := TwoOperations(c, first, last);
    var n := |g.log|;
    TwoOperationsData(c, first, last);
    trace := [INIT];
    assert Run(g, trace) by { SingleRun(g); }
    s, trace := Extend(g, trace, Commit(n));
    s, trace := Extend(g, trace, Ready(1, n, n));
    assert g.log[0..n] == g.log;
    s, trace := ExtendPublish(g, trace);
    s, trace := Extend(g, trace, ApplyOne);
    s, trace := Extend(g, trace, ApplyOne);
    s, trace := Extend(g, trace, Crash(n));
  }

  /** The first operation is replayed, and the batch is long enough to cut a snapshot. */
  lemma ReplayAndCut(c: Config, first: ObjectMeta, last: ObjectMeta, r: State, before: seq<State>) returns (trace: seq<State>)
    requires c.catchUp <= c.snapCount < TWO_63 && first.objId != last.objId
    requires var g := TwoOperations(c, first, last);
             && Run(g, before) && before[|before| - 1] == r && r.applier.Idle? && last.objId in r.store
             && r.loop.Select? && r.applied == r.snapIndex == 0 && r.committed == |g.log| && r.ms == MemoryStorage(0, |g.log|, 0)
    ensures var g := TwoOperations(c, first, last);
            Run(g, trace) && trace[|trace| - 1].saved.index == |g.log| - 1 && last.objId in trace[|trace| - 1].saved.data
  {
    hide EntriesToApply, Run, Data, NextPos, Selection, Missing;
    var g := TwoOperations(c, first, last);
    var k, s := |g.log| - 1, r;
    TwoOperationsData(c, first, last);
    s, trace := Extend(g, before, Ready(1, k, |g.log|));
    assert g.log[0..k] == g.log[..k];
    s, trace := ExtendPublish(g, trace);
    trace := ApplyAndCut(g, s, trace, Put(7, first), last.objId);
  }

  /** The applier performs one operation, which does not touch the key, and a snapshot is cut. */
  lemma ApplyAndCut(g: Group, s: State, before: seq<State>, e: Entry, key: string) returns (trace: seq<State>)
    requires Run(g, before) && before[|before| - 1] == s && s.applier == Applying([e]) && !e.Touches(key) && key in s.store
    requires s.loop.MayTrigger? && s.snapIndex == 0 && g.config.catchUp <= g.config.snapCount < s.applied < TWO_64
    requires s.ms.offset == s.ms.snapshot == 0 && s.applied <= s.ms.last
    ensures Run(g, trace) && trace[|trace| - 1].saved.index == s.applied && key in trace[|trace| - 1].saved.data
  {
    hide Run, Data, NextPos;
    var t;
    t, trace := Extend(g, before, ApplyOne);
    t, trace := Extend(g, trace, ApplyDone);
    t, trace := Extend(g, trace, MaybeSnapshot);
  }

  /**
   * During a replay the store is ahead of appliedIndex: a snapshot cut then, although awaited,
   * already has an operation above its index.
   */
  lemma ReplayedSnapshotIsAhead(c: Config, first: ObjectMeta, last: ObjectMeta) returns (g: Group, trace: seq<State>)
    requires c.catchUp <= c.snapCount < TWO_63 && first.objId != last.objId
    ensures ValidGroup(g) && g.config == c && Run(g, trace)
    ensures var s := trace[|trace| - 1];
            s.saved.index < |g.log| && s.saved.data != Prefix(g.log, s.saved.index)
  {
    hide Run, Next, Step, Enabled;
    g := TwoOperations(c, first, last);
    var s, before := ApplyAndCrash(c, first, last);
    trace := ReplayAndCut(c, first, last, s, before);
    NotYetPut(g.log, |g.log| - 1, last.objId);
  }

  lemma {:induction false} NotYetPut(log: seq<Entry>, n: nat, key: string)
    requires n <= |log| && forall i :: 0 <= i < n ==> !log[i].Touches(key)
    ensures key !in Prefix(log, n)
  {
    if n > 0 {
      NotYetPut(log, n - 1, key);
    }
  }

  /** A follower that applied a PUT and missed the DELETE keeps the object when it catches up by snapshot. */
  lemma MissedDeletionStays(c: Config, meta: ObjectMeta) returns (g: Group, trace: seq<State>)
    requires c.snapCount > 0
    ensures ValidGroup(g) && g.config == c && Run(g, trace)
    ensures var s := trace[|trace| - 1];
            && s.applied == |g.log| && s.applier.Idle? && meta.objId in s.store && meta.objId !in Prefix(g.log, s.applied)
            && s.stale == {meta.objId}
  {
    hide EntriesToApply, Run, Data, Selection, NextPos;
    g := Group([Put(7, meta), Entry.Delete(8, meta)], c);
    assert Prefix(g.log, 0) == map[] && Prefix(g.log, 1) == map[meta.objId := meta];
    assert Prefix(g.log, 2) == map[];
    PrefixIsFresh(g.log, 2, 2);
    var s;
    s, trace := PublishFirst(g, meta);
    s, trace := Extend(g, trace, ApplyOne);
    s, trace := Extend(g, trace, ApplyDone);
    NoChanges(g.log, 2, 2);
    trace := InstallOver(g, s, trace, Snapshot(2, map[], 2, {}));
  }

  lemma OneData(e: Entry)
    requires e.IsData()
    ensures Data([e]) == [e]
  {
    assert Data([e]) == [e] + Data([]);
  }

  /** A snapshot of the whole log is received and loaded. */
  lemma InstallOver(g: Group, s: State, before: seq<State>, snap: Snapshot) returns (trace: seq<State>)
    requires Run(g, before) && before[|before| - 1] == s && s.loop.Select? && s.applier.Idle?
    requires s.committed == snap.index == |g.log| > s.applied && Sound(g, snap, s.committed) && ConfSound(g, snap, s.committed)
    ensures Run(g, trace)
    ensures var t := trace[|trace| - 1];
            && t.applied == |g.log| && t.applier.Idle? && t.store == Overlay(s.store, snap.data)
            && t.stale == snap.stale + (s.store.Keys - snap.data.Keys)
  {
    hide EntriesToApply, Run, Data, Selection, NextPos, Fresh, ConfFresh;
    var n, t := |g.log|, s;
    t, trace := Extend(g, before, ReadySnapshot(snap, n + 1, n, n));
    t, trace := Extend(g, trace, SendNil);
    t, trace := Extend(g, trace, Load);
  }

  /** A crash between saving a received snapshot and loading it loses the snapshot's contents. */
  lemma CrashBeforeLoadLosesData(c: Config, meta: ObjectMeta) returns (g: Group, trace: seq<State>)
    ensures ValidGroup(g) && g.config == c && Run(g, trace)
    ensures var s := trace[|trace| - 1];
            s.applied == |g.log| && s.applier.Idle? && s.loop.Select? && s.store != Prefix(g.log, s.applied)
  {
    hide EntriesToApply;
    g := Group([Put(7, meta)], c);
    var snap := Snapshot(1, Prefix(g.log, 1), 1, {});
    PrefixIsFresh(g.log, 1, 1);
    NoChanges(g.log, 1, 1);
    var s;
    trace := [INIT];
    s, trace := Extend(g, trace, Commit(1));
    s, trace := Extend(g, trace, ReadySnapshot(snap, 2, 1, 1));
    s, trace := Extend(g, trace, SendNil);
    s, trace := Extend(g, trace, Crash(1));
    assert Prefix(g.log, 0) == map[] && meta.objId in Prefix(g.log, 1);
  }

  // -- Reading one's own writes ------------------------------------------------------------------

  /**
   * A woken proposer finds the store at its high-water mark: the operation of a waiting proposer
   * is either passed already or beyond everything the store has ever applied.
   */
  ghost predicate CaughtUp(g: Group, s: State) {
    && s.woken <= s.waiting
    && (s.woken != {} ==> s.high == s.apos)
    && (s.loop.Install? || (s.applier.Loading? && s.woken != {}) ==> s.saved.asOf == s.saved.index)
    && (s.applier.Loading? ==> s.saved.asOf <= Max(s.saved.index, s.high))
    && (forall j :: 0 <= j < |g.log| && Awaited(g, s, j) ==> j < s.apos || s.high <= j)
  }

  /** The proposer of entry j waits and was not triggered yet. */
  ghost predicate Awaited(g: Group, s: State, j: nat)
    requires j < |g.log|
  {
    g.log[j].IsData() && g.log[j].op in s.waiting - s.woken
  }

  lemma ApplyOneCaughtUp(g: Group, s: State)
    requires ValidGroup(g) && Inv(g, s) && CaughtUp(g, s) && Enabled(g, s, ApplyOne)
    ensures CaughtUp(g, Step(g, s, ApplyOne))
  {
    hide Fresh, Data, Segment, NextPos, EntriesToApply, InOrder;
    ApplyNextData(g, s);
    NextPosAdvances(g, s);
    var t, e := Step(g, s, ApplyOne), s.applier.todo[0];
    if e.op in s.waiting && e.op !in s.woken {
      assert Awaited(g, s, t.apos - 1);
    }
    forall j | 0 <= j < |g.log| && Awaited(g, t, j) ensures j < t.apos || t.high <= j {
      assert Awaited(g, s, j);
    }
  }

  lemma CaughtUpKept(g: Group, s: State, a: Action)
    requires ValidGroup(g) && Inv(g, s) && CaughtUp(g, s) && Enabled(g, s, a) && Punctual(a)
    ensures CaughtUp(g, Step(g, s, a))
  {
    hide EntriesToApply, Data, Fresh, Segment, NextPos, InOrder, Missing;
    var t := Step(g, s, a);
    if a.ApplyOne? {
      ApplyOneCaughtUp(g, s);
    } else {
      forall j | 0 <= j < |g.log| && Awaited(g, t, j) ensures j < t.apos || t.high <= j {
        if !a.Register? || g.log[j].op != a.op {
          assert Awaited(g, s, j);
        }
      }
    }
  }

  lemma {:induction false} RunCaughtUp(g: Group, trace: seq<State>, k: nat)
    requires ValidGroup(g) && Run(g, trace) && k < |trace|
    requires forall i :: 0 <= i < k ==> PunctualNext(g, trace[i], trace[i + 1])
    ensures CaughtUp(g, trace[k])
  {
    if k > 0 {
      RunCaughtUp(g, trace, k - 1);
      assert PunctualNext(g, trace[k - 1], trace[k]);
      var a :| Enabled(g, trace[k - 1], a) && trace[k] == Step(g, trace[k - 1], a) && Punctual(a);
      RunInv(g, trace, k - 1);
      CaughtUpKept(g, trace[k - 1], a);
    }
  }

  /** The key of entry j has the value that some committed prefix with this entry gives it. */
  ghost predicate SeenAt(g: Group, s: State, j: nat)
    requires j < |g.log| && (g.log[j].Put? || g.log[j].Delete?)
  {
    exists q :: j < q <= s.committed <= |g.log| && AgreeOn(s.store, Prefix(g.log, q), g.log[j].meta.objId)
  }

  ghost predicate Seen(g: Group, s: State) {
    forall j :: 0 <= j < |g.log| && (g.log[j].Put? || g.log[j].Delete?) && g.log[j].op in s.woken ==> SeenAt(g, s, j)
  }

  /** What is loaded is complete, or is the store itself. */
  ghost predicate Loadable(s: State) {
    && (s.loop.Install? ==> s.saved.stale == {})
    && (s.applier.Loading? ==> s.saved.stale == {} || s.saved.data == s.store)
  }

  /** A received snapshot is behind in no key. */
  ghost predicate Intact(a: Action) {
    a.ReadySnapshot? ==> a.snap.stale == {}
  }

  ghost predicate IntactNext(g: Group, s: State, t: State) {
    exists a :: Enabled(g, s, a) && t == Step(g, s, a) && Intact(a)
  }

  lemma ApplyOneSeen(g: Group, s: State, j: nat)
    requires ValidGroup(g) && Inv(g, s) && Seen(g, s) && Enabled(g, s, ApplyOne)
    requires j < |g.log| && (g.log[j].Put? || g.log[j].Delete?) && g.log[j].op in Step(g, s, ApplyOne).woken
    ensures SeenAt(g, Step(g, s, ApplyOne), j)
  {
    hide Fresh, Data, Segment, NextPos, EntriesToApply, InOrder;
    ApplyOneInStep(g, s);
    var t, e, key := Step(g, s, ApplyOne), s.applier.todo[0], g.log[j].meta.objId;
    assert g.log[t.apos - 1] == e by { ApplyNextData(g, s); }
    assert Performed(g, t.apos, g.log[j].op);
    assert j < t.apos;
    if e.Touches(key) {
      assert AgreeOn(t.store, Prefix(g.log, t.apos), key);
    } else {
      assert j != t.apos - 1;
      assert SeenAt(g, s, j);
      var q :| j < q <= s.committed <= |g.log| && AgreeOn(s.store, Prefix(g.log, q), key);
      assert AgreeOn(t.store, Prefix(g.log, q), key);
    }
  }

  lemma LoadSeen(g: Group, s: State, j: nat)
    requires ValidGroup(g) && Inv(g, s) && Seen(g, s) && Loadable(s) && Enabled(g, s, Load)
    requires j < |g.log| && (g.log[j].Put? || g.log[j].Delete?) && g.log[j].op in s.woken
    ensures SeenAt(g, Step(g, s, Load), j)
  {
    hide Data, Segment, EntriesToApply, InOrder;
    var t, key, data := Step(g, s, Load), g.log[j].meta.objId, s.saved.data;
    assert SeenAt(g, s, j);
    var q :| j < q <= s.committed <= |g.log| && AgreeOn(s.store, Prefix(g.log, q), key);
    if key !in data || data == s.store {
      assert AgreeOn(t.store, Prefix(g.log, q), key);
    } else {
      assert FreshAt(data, g.log, s.saved.index, s.saved.asOf, key);
      var p :| s.saved.index <= p <= s.saved.asOf && AgreeOn(data, Prefix(g.log, p), key);
      assert Performed(g, s.apos, g.log[j].op);
      assert j < p && AgreeOn(t.store, Prefix(g.log, p), key);
    }
  }

  /** Steps that leave the store alone and trigger nobody. */
  lemma OtherSeen(g: Group, s: State, t: State)
    requires Seen(g, s) && t.store == s.store && t.woken <= s.woken && s.committed <= t.committed <= |g.log|
    ensures Seen(g, t)
  {
    forall j | 0 <= j < |g.log| && (g.log[j].Put? || g.log[j].Delete?) && g.log[j].op in t.woken
      ensures SeenAt(g, t, j)
    {
      assert SeenAt(g, s, j);
    }
  }

  lemma SeenKept(g: Group, s: State, a: Action)
    requires ValidGroup(g) && Inv(g, s) && Seen(g, s) && Loadable(s) && Enabled(g, s, a) && Intact(a)
    ensures Seen(g, Step(g, s, a)) && Loadable(Step(g, s, a))
  {
    hide EntriesToApply, Data, Fresh, Segment, NextPos, InOrder, Missing;
    var t := Step(g, s, a);
    if a.ApplyOne? || a.Load? {
      forall j | 0 <= j < |g.log| && (g.log[j].Put? || g.log[j].Delete?) && g.log[j].op in t.woken
        ensures SeenAt(g, t, j)
      {
        if a.ApplyOne? { ApplyOneSeen(g, s, j); } else { LoadSeen(g, s, j); }
      }
    } else if !a.Crash? {
      OtherSeen(g, s, t);
    }
  }

  lemma {:induction false} RunSeen(g: Group, trace: seq<State>, k: nat)
    requires ValidGroup(g) && Run(g, trace) && k < |trace|
    requires forall i :: 0 <= i < k ==> IntactNext(g, trace[i], trace[i + 1])
    ensures Seen(g, trace[k]) && Loadable(trace[k])
  {
    if k > 0 {
      RunSeen(g, trace, k - 1);
      assert IntactNext(g, trace[k - 1], trace[k]);
      var a :| Enabled(g, trace[k - 1], a) && trace[k] == Step(g, trace[k - 1], a) && Intact(a);
      RunInv(g, trace, k - 1);
      SeenKept(g, trace[k - 1], a);
    }
  }

  /**
   * When a proposer returns, its operation is the one with its id in the log, it lies below the
   * store's position, and every key that is not stale holds the value of a committed prefix
   * that includes the operation: in every run.
   */
  lemma ReturnedIsApplied(g: Group, trace: seq<State>, k: nat, op: nat) returns (j: nat)
    requires ValidGroup(g) && Run(g, trace) && k < |trace|
    requires Enabled(g, trace[k], Return(op))
    ensures j < |g.log| && g.log[j].IsData() && g.log[j].op == op
    ensures forall i :: 0 <= i < |g.log| && g.log[i].IsData() && g.log[i].op == op ==> i == j
    ensures var s := trace[k];
            && j < s.apos <= s.high <= s.committed <= |g.log|
            && Fresh(s.store, g.log, s.apos, s.high, s.stale)
  {
    RunInv(g, trace, k);
    var s := trace[k];
    assert Performed(g, s.apos, op);
    j :| 0 <= j < s.apos && g.log[j].IsData() && g.log[j].op == op;
  }

  /**
   * The store that a returning proposer finds is one committed prefix that includes its operation,
   * in all keys that are not stale, also after restarts and during replays; received snapshots
   * must not be ahead of their index.
   */
  lemma ReturnFindsPrefix(g: Group, trace: seq<State>, k: nat, op: nat) returns (j: nat)
    requires ValidGroup(g) && Run(g, trace) && k < |trace|
    requires Enabled(g, trace[k], Return(op))
    requires forall i :: 0 <= i < k ==> PunctualNext(g, trace[i], trace[i + 1])
    ensures j < |g.log| && g.log[j].IsData() && g.log[j].op == op
    ensures var s := trace[k];
            && j < s.apos <= s.committed <= |g.log|
            && (forall key :: key !in s.stale ==> AgreeOn(s.store, Prefix(g.log, s.apos), key))
            && (s.stale == {} ==> s.store == Prefix(g.log, s.apos))
  {
    j := ReturnedIsApplied(g, trace, k, op);
    RunCaughtUp(g, trace, k);
    var s := trace[k];
    forall key | key !in s.stale ensures AgreeOn(s.store, Prefix(g.log, s.apos), key) {
      assert FreshAt(s.store, g.log, s.apos, s.high, key);
    }
    if s.stale == {} {
      SameStore(s.store, Prefix(g.log, s.apos));
    }
  }

  /**
   * Read your writes: a read after the return sees the operation, or a committed entry after it
   * that put or deleted the same object. Missed deletions, own snapshots of any kind, restarts and
   * replays do not matter; received snapshots must be behind in no key.
   */
  lemma ReadYourWrites(g: Group, trace: seq<State>, k: nat, op: nat) returns (j: nat)
    requires ValidGroup(g) && Run(g, trace) && k < |trace|
    requires Enabled(g, trace[k], Return(op))
    requires forall i :: 0 <= i < k ==> IntactNext(g, trace[i], trace[i + 1])
    ensures j < trace[k].committed <= |g.log| && g.log[j].IsData() && g.log[j].op == op
    ensures g.log[j].Put? || g.log[j].Delete? ==> SeenAt(g, trace[k], j)
    ensures g.log[j].Put? || g.log[j].Delete? ==>
              var key := g.log[j].meta.objId;
              Untouched(g.log, j + 1, trace[k].committed, key)
              ==> if g.log[j].Put? then key in trace[k].store && trace[k].store[key] == g.log[j].meta
                  else key !in trace[k].store
  {
    j := ReturnedIsApplied(g, trace, k, op);
    RunSeen(g, trace, k);
    var s := trace[k];
    if g.log[j].Put? || g.log[j].Delete? {
      var key := g.log[j].meta.objId;
      assert SeenAt(g, s, j);
      if Untouched(g.log, j + 1, s.committed, key) {
        var q :| j < q <= s.committed && AgreeOn(s.store, Prefix(g.log, q), key);
        UntouchedPrefix(g.log, j + 1, q, key);
      }
    }
  }
}
