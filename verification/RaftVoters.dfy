/** The configuration of the raft driver in every run: what the published log says about the voters. */
module RaftVoters {
  import opened Basics
  import opened Membership
  import opened MetaStore
  import opened RaftDriver
  import opened RaftNode

  // -- In every run ----------------------------------------------------------------------------------

  /** Voters and snapshot file say about each node what some prefix from their index on says. */
  ghost predicate VotersOk(g: Group, s: State) {
    && s.committed <= |g.log| && s.applied <= s.committed && s.saved.index <= s.committed
    && ConfFresh(s.voters, g.log, s.applied, s.committed)
    && ConfFresh(s.saved.conf, g.log, s.saved.index, s.committed)
  }

  /** The batch moves voters and appliedIndex together. */
  lemma PublishVoters(g: Group, s: State)
    requires ValidGroup(g) && Inv(g, s) && Enabled(g, s, PublishEntries)
    ensures var t := Step(g, s, PublishEntries);
            && s.applied <= t.applied <= s.committed <= |g.log|
            && t.voters == ApplyConfs(s.voters, g.log[s.applied..t.applied])
  {
    hide EntriesToApply, Data, InOrder, InStep, ApplyConfs, Selected, Entries, LastIndex;
    SelectedExact(g, s);
    if s.applied > s.loop.hi {
      assert g.log[s.applied..s.applied] == [];
    }
  }

  lemma VotersKept(g: Group, s: State, a: Action)
    requires ValidGroup(g) && Inv(g, s) && VotersOk(g, s) && Enabled(g, s, a)
    ensures VotersOk(g, Step(g, s, a))
  {
    hide EntriesToApply, Data, Fresh, Segment, NextPos, Missing, InOrder, ConfFresh, ApplyConfs;
    match a {
      case Commit(n) =>
        ConfFreshWiden(s.voters, g.log, s.applied, s.committed, n);
        ConfFreshWiden(s.saved.conf, g.log, s.saved.index, s.committed, n);
      case PublishEntries =>
        PublishVoters(g, s);
        ConfFreshApplyAll(s.voters, g.log, s.applied, Step(g, s, a).applied, s.committed);
      case _ =>
    }
  }

  lemma InitVoters(g: Group)
    ensures VotersOk(g, INIT)
  {
    assert g.log[..0] == [];
    ConfIsFresh({}, g.log, 0, 0);
  }

  lemma {:induction false} RunVoters(g: Group, trace: seq<State>, k: nat)
    requires ValidGroup(g) && Run(g, trace) && k < |trace|
    ensures VotersOk(g, trace[k])
  {
    hide VotersOk, Enabled, Step, Inv;
    if k == 0 {
      InitVoters(g);
    } else {
      RunVoters(g, trace, k - 1);
      RunInv(g, trace, k - 1);
      assert Next(g, trace[k - 1], trace[k]);
      var a :| Enabled(g, trace[k - 1], a) && trace[k] == Step(g, trace[k - 1], a);
      VotersKept(g, trace[k - 1], a);
    }
  }

  /**
   * In every run the voters are exactly what the entries up to appliedIndex say, as soon as no
   * committed membership entry is left above it.
   */
  lemma VotersSettle(g: Group, trace: seq<State>, k: nat)
    requires ValidGroup(g) && Run(g, trace) && k < |trace|
    requires var s := trace[k]; forall i :: s.applied <= i < s.committed && i < |g.log| ==> !g.log[i].ConfChange?
    ensures trace[k].applied <= |g.log| && IsConf(trace[k].voters, g.log, trace[k].applied)
  {
    RunVoters(g, trace, k);
    hide Run;
    var s := trace[k];
    forall node ensures node in s.voters <==> Member(g.log, s.applied, node) {
      assert MemberBetween(g.log, s.applied, s.committed, node, node in s.voters);
      var q :| s.applied <= q <= s.committed && (node in s.voters <==> Member(g.log, q, node));
      MemberStays(g.log, s.applied, q, node);
    }
  }

  lemma {:induction false} MemberStays(log: seq<Entry>, a: nat, b: nat, node: nat)
    requires a <= b <= |log| && forall i :: a <= i < b ==> !log[i].ConfChange?
    ensures Member(log, a, node) <==> Member(log, b, node)
    decreases b
  {
    hide Member;
    if a < b {
      MemberStays(log, a, b - 1, node);
      MemberStep(log, b - 1, node);
    }
  }

  // -- With snapshots that carry the configuration of their index -----------------------------------

  /** A received snapshot has the configuration of its index. */
  ghost predicate InForce(g: Group, a: Action) {
    a.ReadySnapshot? ==> a.snap.index <= |g.log| && IsConf(a.snap.conf, g.log, a.snap.index)
  }

  ghost predicate InForceNext(g: Group, s: State, t: State) {
    exists a :: Enabled(g, s, a) && t == Step(g, s, a) && InForce(g, a)
  }

  ghost predicate VotersExact(g: Group, s: State) {
    && s.applied <= |g.log| && s.saved.index <= |g.log|
    && IsConf(s.voters, g.log, s.applied) && IsConf(s.saved.conf, g.log, s.saved.index)
  }

  lemma ExactKept(g: Group, s: State, a: Action)
    requires ValidGroup(g) && Inv(g, s) && VotersExact(g, s) && Enabled(g, s, a) && InForce(g, a)
    ensures VotersExact(g, Step(g, s, a))
  {
    hide EntriesToApply, Data, Fresh, Segment, NextPos, Missing, InOrder, IsConf, ApplyConfs;
    if a.PublishEntries? {
      PublishVoters(g, s);
      ConfApplyAll(s.voters, g.log, s.applied, Step(g, s, a).applied);
    }
  }

  lemma InitExact(g: Group)
    ensures VotersExact(g, INIT)
  {
    assert g.log[..0] == [];
  }

  /**
   * In every run whose received snapshots carry the configuration of their index, a node is a
   * voter if and only if the last entry about it up to appliedIndex adds it; restarts included.
   */
  lemma {:induction false} VotersAreLog(g: Group, trace: seq<State>, k: nat)
    requires ValidGroup(g) && Run(g, trace) && k < |trace|
    requires forall i :: 0 <= i < k ==> InForceNext(g, trace[i], trace[i + 1])
    ensures VotersExact(g, trace[k])
  {
    hide VotersExact, Enabled, Step, Inv, InForce;
    if k == 0 {
      InitExact(g);
    } else {
      VotersAreLog(g, trace, k - 1);
      RunInv(g, trace, k - 1);
      assert InForceNext(g, trace[k - 1], trace[k]);
      var a :| Enabled(g, trace[k - 1], a) && trace[k] == Step(g, trace[k - 1], a) && InForce(g, a);
      ExactKept(g, trace[k - 1], a);
    }
  }

  /** The voters that a publishing step reads from its batch. */
  lemma PublishedVoters(g: Group, s: State, node: nat)
    requires ValidGroup(g) && Inv(g, s) && Enabled(g, s, PublishEntries)
    ensures var t := Step(g, s, PublishEntries);
            && s.applied <= t.applied <= |g.log|
            && (node in t.voters <==> VoterAfter(s.voters, g.log[s.applied..t.applied], node))
  {
    hide Inv, Enabled, Step, VoterAfter, ApplyConfs;
    PublishVoters(g, s);
    ApplyConfsIs(s.voters, g.log[s.applied..Step(g, s, PublishEntries).applied], node);
  }

  /** A sender puts its own configuration into a snapshot: the receiver has a voter of a later entry. */
  lemma SentConfIsAhead(c: Config, node: nat) returns (g: Group, trace: seq<State>)
    ensures ValidGroup(g) && g.config == c && Run(g, trace)
    ensures var s := trace[|trace| - 1]; s.applied <= |g.log| && node in s.voters && !Member(g.log, s.applied, node)
  {
    hide EntriesToApply, Run, ConfFresh;
    g := Group([Empty, ConfChange(true, node)], c);
    var snap := Snapshot(1, map[], 1, {}, {node});
    assert Prefix(g.log, 0) == map[] && Prefix(g.log, 1) == map[];
    PrefixIsFresh(g.log, 1, 1);
    assert ConfFresh(snap.conf, g.log, 1, 2) by { AheadIsFresh(g.log, node); }
    var s;
    trace := [INIT];
    assert Run(g, trace) by { SingleRun(g); }
    s, trace := Extend(g, trace, Commit(2));
    s, trace := Extend(g, trace, ReadySnapshot(snap, 2, 1, 1));
    s, trace := Extend(g, trace, SendNil);
  }

  lemma AheadIsFresh(log: seq<Entry>, node: nat)
    requires log == [Empty, ConfChange(true, node)]
    ensures ConfFresh({node}, log, 1, 2)
  {
    var voters := {node};
    assert log[..0] == [];
    forall n ensures MemberBetween(log, 1, 2, n, n in voters) {
      MemberStep(log, 1, n);
      MemberStep(log, 0, n);
      assert n in voters <==> Member(log, 2, n);
    }
  }
}
