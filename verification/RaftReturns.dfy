/** When proposers return: which of them the applier triggers, and which it never does. */
module RaftReturns {
  import opened Basics
  import opened Membership
  import opened MetaStore
  import opened RaftDriver
  import opened RaftNode

  /** Entry j is the operation with this id. */
  ghost predicate OperationAt(g: Group, j: nat, op: nat) {
    j < |g.log| && g.log[j].IsData() && g.log[j].op == op
  }

  /**
   * An operation whose proposer waits and was not triggered lies ahead of the store, below the
   * last install, or in what is being installed; a triggered one lies below appliedIndex.
   */
  ghost predicate Placed(g: Group, s: State) {
    && (forall j: nat, op :: OperationAt(g, j, op) && op in s.waiting && op !in s.woken ==>
          s.apos <= j || j < s.base || (s.loop.Install? && s.applied <= j))
    && (forall j: nat, op :: OperationAt(g, j, op) && op in s.woken ==> j < s.applied)
    && (s.applier.Loading? ==> Data(Segment(g.log, s.base, s.applied)) == [])
    && s.base <= s.applied && s.woken <= s.waiting
  }

  lemma ApplyOnePlaced(g: Group, s: State)
    requires ValidGroup(g) && Inv(g, s) && Placed(g, s) && Enabled(g, s, ApplyOne)
    ensures Placed(g, Step(g, s, ApplyOne))
  {
    var t, e := Step(g, s, ApplyOne), s.applier.todo[0];
    ApplySkipsNoData(g, s);
    hide Fresh, Data, Segment, NextPos, EntriesToApply, InOrder, DataPos;
    forall j: nat, op | OperationAt(g, j, op) && op in t.waiting && op !in t.woken
      ensures t.apos <= j || j < t.base || (t.loop.Install? && t.applied <= j)
    {
      assert j != t.apos - 1;
    }
    forall j: nat, op | OperationAt(g, j, op) && op in t.woken ensures j < t.applied {
      if op !in s.woken {
        assert OperationAt(g, t.apos - 1, op);
      }
    }
  }

  /** The applied entry is the next data entry: nothing with data is passed over. */
  lemma ApplySkipsNoData(g: Group, s: State)
    requires ValidGroup(g) && Inv(g, s) && Enabled(g, s, ApplyOne)
    ensures s.apos < NextPos(g, s) <= s.applied <= |g.log| && g.log[NextPos(g, s) - 1] == s.applier.todo[0]
    ensures forall j :: s.apos <= j < NextPos(g, s) - 1 ==> !g.log[j].IsData()
  {
    hide Fresh, EntriesToApply, InOrder, Data, DataPos;
    var seg := Segment(g.log, s.apos, s.applied);
    FirstData(seg);
    SegmentIs(g.log, s.apos, s.applied, DataPos(seg));
    forall j | s.apos <= j < NextPos(g, s) - 1 ensures !g.log[j].IsData() {
      SegmentIs(g.log, s.apos, s.applied, j - s.apos);
    }
  }

  lemma SegmentIs(log: seq<Entry>, a: nat, b: nat, i: nat)
    requires a <= b <= |log| && i < b - a
    ensures |Segment(log, a, b)| == b - a && Segment(log, a, b)[i] == log[a + i]
  {
  }

  lemma NoDataBelow(g: Group, a: nat, b: nat, j: nat)
    requires Data(Segment(g.log, a, b)) == [] && a <= j < b <= |g.log|
    ensures !g.log[j].IsData()
  {
    var seg := Segment(g.log, a, b);
    NoData(seg);
    assert seg[j - a] == g.log[j];
  }

  lemma LoadPlaced(g: Group, s: State)
    requires ValidGroup(g) && Inv(g, s) && Placed(g, s) && Enabled(g, s, Load)
    ensures Placed(g, Step(g, s, Load))
  {
    hide Fresh, Data, Segment, EntriesToApply, InOrder;
    var t := Step(g, s, Load);
    forall j: nat, op | OperationAt(g, j, op) && op in t.waiting && op !in t.woken
      ensures t.apos <= j || j < t.base || (t.loop.Install? && t.applied <= j)
    {
      if s.base <= j < s.applied {
        NoDataBelow(g, s.base, s.applied, j);
      }
    }
  }

  lemma PublishPlaced(g: Group, s: State)
    requires ValidGroup(g) && Inv(g, s) && Placed(g, s) && Enabled(g, s, PublishEntries)
    ensures Placed(g, Step(g, s, PublishEntries))
  {
    hide Fresh, EntriesToApply, InOrder, Data;
    SelectedExact(g, s);
    var t := Step(g, s, PublishEntries);
    if s.applied <= s.loop.hi {
      SegmentConcat(g.log, s.base, s.applied, t.applied);
    }
  }

  lemma PlacedKept(g: Group, s: State, a: Action)
    requires ValidGroup(g) && Inv(g, s) && Placed(g, s) && Enabled(g, s, a)
    ensures Placed(g, Step(g, s, a))
  {
    hide EntriesToApply, Data, Fresh, NextPos, InOrder, Missing;
    match a {
      case ApplyOne => ApplyOnePlaced(g, s);
      case Load => LoadPlaced(g, s);
      case PublishEntries => PublishPlaced(g, s);
      case SendNil =>
        assert Segment(g.log, s.saved.index, s.saved.index) == [];
        assert Data([]) == [] by { NoData([]); }
      case Register(op) =>
        RegisterPlaced(g, s, op);
      case _ =>
    }
  }

  lemma RegisterPlaced(g: Group, s: State, op: nat)
    requires Inv(g, s) && Placed(g, s) && Enabled(g, s, Register(op))
    ensures Placed(g, Step(g, s, Register(op)))
  {
    hide EntriesToApply, Data, Fresh, InOrder;
    var t := Step(g, s, Register(op));
    forall j: nat, o | OperationAt(g, j, o) && o in t.waiting && o !in t.woken
      ensures t.apos <= j || j < t.base || (t.loop.Install? && t.applied <= j)
    {
      if o == op {
        assert s.committed <= j;
      }
    }
  }

  lemma {:induction false} RunPlaced(g: Group, trace: seq<State>, k: nat)
    requires ValidGroup(g) && Run(g, trace) && k < |trace|
    ensures Placed(g, trace[k])
  {
    if k > 0 {
      RunPlaced(g, trace, k - 1);
      RunInv(g, trace, k - 1);
      hide Placed, Enabled, Step, Inv;
      assert Next(g, trace[k - 1], trace[k]);
      var a :| Enabled(g, trace[k - 1], a) && trace[k] == Step(g, trace[k - 1], a);
      PlacedKept(g, trace[k - 1], a);
    }
  }

  /** In every run an idle applier has triggered the proposer of every entry published since the last install or restart. */
  lemma AppliedMeansTriggered(g: Group, trace: seq<State>, k: nat, op: nat, j: nat)
    requires ValidGroup(g) && Run(g, trace) && k < |trace|
    requires trace[k].applier.Idle? && op in trace[k].waiting
    requires OperationAt(g, j, op) && trace[k].base <= j < trace[k].applied
    ensures Enabled(g, trace[k], Return(op))
  {
    RunPlaced(g, trace, k);
    RunInv(g, trace, k);
    hide Run, Data, Segment, Fresh, EntriesToApply, InOrder;
    var s := trace[k];
    if s.apos <= j {
      NoDataBelow(g, s.apos, s.applied, j);
    }
  }

  // -- From the registration on ------------------------------------------------------------------------

  /** A step that is neither the return of this proposer nor a restart. */
  ghost predicate Undisturbed(g: Group, s: State, t: State, op: nat) {
    exists a :: Enabled(g, s, a) && t == Step(g, s, a) && a != Return(op) && !a.Crash?
  }

  lemma {:induction false} StaysWaiting(g: Group, trace: seq<State>, i: nat, k: nat, op: nat)
    requires Run(g, trace) && i <= k < |trace| && op in trace[i].waiting
    requires forall m :: i <= m < k ==> Undisturbed(g, trace[m], trace[m + 1], op)
    ensures op in trace[k].waiting
    decreases k
  {
    if i < k {
      StaysWaiting(g, trace, i, k - 1, op);
      assert Undisturbed(g, trace[k - 1], trace[k], op);
      hide EntriesToApply, Data, Touched, Selection;
    }
  }

  /**
   * A registered proposer returns: once its entry is published and the applier idle, unless an
   * install has passed over the entry or the node was restarted.
   */
  lemma ProposalReturns(g: Group, trace: seq<State>, i: nat, k: nat, op: nat, j: nat)
    requires ValidGroup(g) && Run(g, trace) && i < k < |trace|
    requires Enabled(g, trace[i], Register(op)) && trace[i + 1] == Step(g, trace[i], Register(op))
    requires forall m :: i < m < k ==> Undisturbed(g, trace[m], trace[m + 1], op)
    requires OperationAt(g, j, op) && trace[k].applier.Idle? && trace[k].base <= j < trace[k].applied
    ensures Enabled(g, trace[k], Return(op))
  {
    assert op in trace[i + 1].waiting;
    hide Run, Enabled, Step, Undisturbed;
    StaysWaiting(g, trace, i + 1, k, op);
    AppliedMeansTriggered(g, trace, k, op, j);
  }

  lemma {:induction false} StaysReturned(g: Group, trace: seq<State>, i: nat, k: nat, op: nat, j: nat)
    requires ValidGroup(g) && Run(g, trace) && i <= k < |trace| && OperationAt(g, j, op)
    requires op !in trace[i].waiting && j < trace[i].committed <= |g.log|
    ensures op !in trace[k].waiting && j < trace[k].committed <= |g.log|
    decreases k
  {
    hide Inv, Enabled, Step;
    if i < k {
      StaysReturned(g, trace, i, k - 1, op, j);
      assert Next(g, trace[k - 1], trace[k]);
      var a :| Enabled(g, trace[k - 1], a) && trace[k] == Step(g, trace[k - 1], a);
      NotRegisteredAgain(g, trace[k - 1], a, op, j);
    }
  }

  lemma NotRegisteredAgain(g: Group, s: State, a: Action, op: nat, j: nat)
    requires Enabled(g, s, a) && OperationAt(g, j, op) && op !in s.waiting && j < s.committed <= |g.log|
    ensures op !in Step(g, s, a).waiting && s.committed <= Step(g, s, a).committed <= |g.log|
  {
    hide EntriesToApply, Data, Selection, Touched;
  }

  /** A proposer returns once. */
  lemma ReturnsOnce(g: Group, trace: seq<State>, i: nat, k: nat, op: nat)
    requires ValidGroup(g) && Run(g, trace) && i < k < |trace|
    requires Enabled(g, trace[i], Return(op)) && trace[i + 1] == Step(g, trace[i], Return(op))
    ensures !Enabled(g, trace[k], Return(op))
  {
    RunInv(g, trace, i);
    RunInv(g, trace, i + 1);
    RunPlaced(g, trace, k);
    assert Performed(g, trace[i].apos, op);
    var j :| 0 <= j < trace[i].apos && g.log[j].IsData() && g.log[j].op == op;
    assert OperationAt(g, j, op);
    StaysReturned(g, trace, i + 1, k, op, j);
  }

  // -- Entries that an install passes over -----------------------------------------------------------------

  /** Step m loads a snapshot that includes entry j, which the store had not applied. */
  ghost predicate PassedAt(trace: seq<State>, m: nat, j: nat)
    requires m + 1 < |trace|
  {
    trace[m].applier.Loading? && trace[m + 1].applier.Idle? && trace[m].apos <= j < trace[m + 1].apos
  }

  ghost predicate Passed(trace: seq<State>, k: nat, j: nat)
    requires k < |trace|
  {
    exists m: nat :: m < k && PassedAt(trace, m, j)
  }

  /** What has become of the operations of waiting proposers. */
  ghost predicate Accounted(g: Group, trace: seq<State>, k: nat)
    requires k < |trace|
  {
    var s := trace[k];
    forall j: nat, op :: OperationAt(g, j, op) && op in s.waiting ==>
      && (Passed(trace, k, j) ==> op !in s.woken && j < s.apos)
      && (!Passed(trace, k, j) ==> (op in s.woken <==> j < s.apos))
  }

  /** The step takes the store past entry j. */
  ghost predicate Crosses(s: State, t: State, j: nat) {
    s.apos <= j < t.apos
  }

  /** What one step does to one operation whose proposer waits afterwards. */
  lemma StepAccounts(g: Group, s: State, a: Action, j: nat, op: nat)
    requires ValidGroup(g) && Inv(g, s) && Enabled(g, s, a) && OperationAt(g, j, op)
    requires op in Step(g, s, a).waiting
    ensures var t := Step(g, s, a);
            && (a.Load? <==> s.applier.Loading? && t.applier.Idle?)
            && (if op in s.waiting then
                  if a.Load? then t.woken == s.woken && s.apos <= t.apos
                  else s.apos <= t.apos && (op in t.woken <==> op in s.woken || Crosses(s, t, j))
                else s.committed <= j && op !in t.woken && t.apos == s.apos)
  {
    hide EntriesToApply, Data, Fresh, InOrder, Missing, Segment, NextPos;
    match a {
      case ApplyOne =>
        ApplySkipsNoData(g, s);
      case Register(_) =>
        if op !in s.waiting {
          assert s.committed <= j;
          assert op in s.woken ==> Performed(g, s.apos, op);
        }
      case _ =>
    }
  }

  lemma AccountedKept(g: Group, trace: seq<State>, k: nat, a: Action)
    requires ValidGroup(g) && k + 1 < |trace| && Inv(g, trace[k]) && Accounted(g, trace, k)
    requires Enabled(g, trace[k], a) && trace[k + 1] == Step(g, trace[k], a)
    requires forall j: nat :: Passed(trace, k, j) ==> j < trace[k].committed
    ensures Accounted(g, trace, k + 1)
  {
    hide Inv, Enabled, Step;
    var s, t := trace[k], trace[k + 1];
    forall j: nat, op | OperationAt(g, j, op) && op in t.waiting
      ensures Passed(trace, k + 1, j) ==> op !in t.woken && j < t.apos
      ensures !Passed(trace, k + 1, j) ==> (op in t.woken <==> j < t.apos)
    {
      StepAccounts(g, s, a, j, op);
      PassedStep(trace, k, j);
      ReachedCommitted(g, s);
    }
  }

  lemma PassedStep(trace: seq<State>, k: nat, j: nat)
    requires k + 1 < |trace|
    ensures Passed(trace, k + 1, j) <==> Passed(trace, k, j) || PassedAt(trace, k, j)
  {
    if Passed(trace, k + 1, j) && !PassedAt(trace, k, j) {
      var m: nat :| m < k + 1 && PassedAt(trace, m, j);
      assert m < k;
    }
  }

  lemma ReachedCommitted(g: Group, s: State)
    requires Inv(g, s)
    ensures s.apos <= s.committed
  {
    hide Fresh, Data;
  }

  lemma {:induction false} RunAccounted(g: Group, trace: seq<State>, k: nat)
    requires ValidGroup(g) && Run(g, trace) && k < |trace|
    ensures Accounted(g, trace, k) && forall j: nat :: Passed(trace, k, j) ==> j < trace[k].committed
  {
    hide Inv, Enabled, Step, Accounted, Passed, PassedAt;
    if k == 0 {
      InitAccounted(g, trace);
    } else {
      RunAccounted(g, trace, k - 1);
      RunInv(g, trace, k - 1);
      RunInv(g, trace, k);
      assert Next(g, trace[k - 1], trace[k]);
      var a :| Enabled(g, trace[k - 1], a) && trace[k] == Step(g, trace[k - 1], a);
      hide Run, Next;
      AccountedKept(g, trace, k - 1, a);
      CommittedGrows(g, trace[k - 1], a);
      forall j: nat | Passed(trace, k, j) ensures j < trace[k].committed {
        PassedStep(trace, k - 1, j);
        PassedCommitted(g, trace, k - 1, j);
      }
    }
  }

  lemma InitAccounted(g: Group, trace: seq<State>)
    requires |trace| > 0 && trace[0] == INIT
    ensures Accounted(g, trace, 0) && forall j: nat :: !Passed(trace, 0, j)
  {
  }

  lemma PassedCommitted(g: Group, trace: seq<State>, k: nat, j: nat)
    requires k + 1 < |trace| && Inv(g, trace[k + 1])
    ensures PassedAt(trace, k, j) ==> j < trace[k + 1].committed
  {
    ReachedCommitted(g, trace[k + 1]);
    hide Inv;
  }

  lemma CommittedGrows(g: Group, s: State, a: Action)
    requires Enabled(g, s, a)
    ensures s.committed <= Step(g, s, a).committed
  {
    hide EntriesToApply, Data, Selection, Touched;
  }

  /**
   * Exactly when a waiting proposer has been triggered, for an idle applier: its entry is
   * published and no load of a snapshot has passed over it.
   */
  lemma ReturnIff(g: Group, trace: seq<State>, k: nat, op: nat, j: nat)
    requires ValidGroup(g) && Run(g, trace) && k < |trace|
    requires OperationAt(g, j, op) && op in trace[k].waiting && trace[k].applier.Idle?
    ensures Enabled(g, trace[k], Return(op)) <==> j < trace[k].applied && !Passed(trace, k, j)
  {
    RunAccounted(g, trace, k);
    RunPlaced(g, trace, k);
    RunInv(g, trace, k);
    hide Run, Data, Segment, Fresh, EntriesToApply, InOrder, Passed;
    var s := trace[k];
    if s.apos <= j < s.applied {
      NoDataBelow(g, s.apos, s.applied, j);
    }
  }

  /** A proposer whose entry was passed over does not return, in any later state. */
  lemma PassedOverNeverReturns(g: Group, trace: seq<State>, m: nat, k: nat, op: nat, j: nat)
    requires ValidGroup(g) && Run(g, trace) && m < k < |trace| && OperationAt(g, j, op) && PassedAt(trace, m, j)
    ensures !Enabled(g, trace[k], Return(op))
  {
    RunAccounted(g, trace, k);
    RunPlaced(g, trace, k);
    hide Run;
    assert Passed(trace, k, j);
  }

  /** There are such runs: the snapshot that brings the operation leaves its proposer waiting. */
  lemma InstallLeavesProposer(c: Config, meta: ObjectMeta, op: nat) returns (g: Group, trace: seq<State>)
    ensures ValidGroup(g) && g.config == c && OperationAt(g, 0, op) && Run(g, trace)
    ensures var k := |trace| - 1;
            && k > 0 && PassedAt(trace, k - 1, 0) && op in trace[k].waiting
            && trace[k].store == Prefix(g.log, 1) && trace[k].applied == 1
  {
    hide EntriesToApply, Run, ConfFresh, Selection, Data;
    g := Group([Put(op, meta)], c);
    var snap := Snapshot(1, Prefix(g.log, 1), 1, {});
    PrefixIsFresh(g.log, 1, 1);
    NoChanges(g.log, 1, 1);
    var s;
    trace := [INIT];
    assert Run(g, trace) by { SingleRun(g); }
    s, trace := Extend(g, trace, Register(op));
    s, trace := Extend(g, trace, Commit(1));
    s, trace := Extend(g, trace, ReadySnapshot(snap, 2, 1, 1));
    s, trace := Extend(g, trace, SendNil);
    var before := trace;
    s, trace := Extend(g, trace, Load);
    assert Overlay(map[], snap.data) == snap.data;
  }
}
