/**
 * Membership of the group as the raft log changes it: what a sequence of entries says about a
 * node, and configurations that are ahead of the log position they belong to.
 */
module Membership {
  import opened Basics
  import opened MetaStore

  /** The entry adds or removes the node. */
  predicate About(e: Entry, node: nat) {
    e.ConfChange? && e.node == node
  }

  predicate Unchanged(es: seq<Entry>, a: nat, node: nat) {
    forall k :: a <= k < |es| ==> !About(es[k], node)
  }

  /**
   * After the entries the node is a voter: the last entry about it adds it, or there is none
   * and it was a voter before.
   */
  ghost predicate VoterAfter(before: set<nat>, es: seq<Entry>, node: nat) {
    || (exists k :: 0 <= k < |es| && es[k] == ConfChange(true, node) && Unchanged(es, k + 1, node))
    || (node in before && Unchanged(es, 0, node))
  }

  lemma VoterAfterLast(before: set<nat>, es: seq<Entry>, e: Entry, node: nat)
    ensures VoterAfter(before, es + [e], node) <==> if About(e, node) then e.add else VoterAfter(before, es, node)
  {
    var all := es + [e];
    assert all[|es|] == e;
    if About(e, node) {
      if e.add {
        assert all[|es|] == ConfChange(true, node) && Unchanged(all, |es| + 1, node);
      }
    } else {
      if k :| 0 <= k < |es| && es[k] == ConfChange(true, node) && Unchanged(es, k + 1, node) {
        assert all[k] == ConfChange(true, node) && Unchanged(all, k + 1, node);
      }
      if k :| 0 <= k < |all| && all[k] == ConfChange(true, node) && Unchanged(all, k + 1, node) {
        assert es[k] == ConfChange(true, node);
        assert forall m :: k < m < |es| ==> all[m] == es[m];
        assert Unchanged(es, k + 1, node);
      }
      if Unchanged(all, 0, node) {
        assert forall m :: 0 <= m < |es| ==> all[m] == es[m];
      }
    }
  }

  lemma VoterAfterNone(before: set<nat>, node: nat)
    ensures VoterAfter(before, [], node) <==> node in before
  {
  }

  /** The first n entries of the log make the node a voter. */
  ghost predicate Member(log: seq<Entry>, n: nat, node: nat)
    requires n <= |log|
  {
    VoterAfter({}, log[..n], node)
  }

  lemma MemberStep(log: seq<Entry>, n: nat, node: nat)
    requires n < |log|
    ensures Member(log, n + 1, node) <==> if About(log[n], node) then log[n].add else Member(log, n, node)
  {
    assert log[..n + 1] == log[..n] + [log[n]];
    VoterAfterLast({}, log[..n], log[n], node);
  }

  /** The configuration that the first n entries define. */
  ghost predicate IsConf(voters: set<nat>, log: seq<Entry>, n: nat)
    requires n <= |log|
  {
    forall node :: node in voters <==> Member(log, n, node)
  }

  // -- Applying changes ------------------------------------------------------------------------

  function ApplyConf(voters: set<nat>, e: Entry): set<nat> {
    match e
    case ConfChange(true, node) => voters + {node}
    case ConfChange(false, node) => voters - {node}
    case _ => voters
  }

  function ApplyConfs(voters: set<nat>, es: seq<Entry>): set<nat> {
    if es == [] then voters else ApplyConf(ApplyConfs(voters, es[..|es| - 1]), es[|es| - 1])
  }

  lemma {:induction false} ApplyConfsIs(voters: set<nat>, es: seq<Entry>, node: nat)
    ensures node in ApplyConfs(voters, es) <==> VoterAfter(voters, es, node)
  {
    hide VoterAfter;
    if es == [] {
      VoterAfterNone(voters, node);
    } else {
      var front, e := es[..|es| - 1], es[|es| - 1];
      ApplyConfsIs(voters, front, node);
      assert front + [e] == es;
      VoterAfterLast(voters, front, e, node);
    }
  }

  // -- Configurations that are ahead --------------------------------------------------------------

  /** Every node is a voter or not as some prefix between `pos` and `high` says. */
  ghost predicate ConfFresh(voters: set<nat>, log: seq<Entry>, pos: nat, high: nat)
    requires pos <= high <= |log|
  {
    forall node :: MemberBetween(log, pos, high, node, node in voters)
  }

  ghost predicate MemberBetween(log: seq<Entry>, pos: nat, high: nat, node: nat, voter: bool)
    requires pos <= high <= |log|
  {
    exists q :: pos <= q <= high && (voter <==> Member(log, q, node))
  }

  lemma ConfFreshWiden(voters: set<nat>, log: seq<Entry>, pos: nat, high: nat, high': nat)
    requires pos <= high <= high' <= |log| && ConfFresh(voters, log, pos, high)
    ensures ConfFresh(voters, log, pos, high')
  {
    forall node ensures MemberBetween(log, pos, high', node, node in voters) {
      assert MemberBetween(log, pos, high, node, node in voters);
    }
  }

  lemma ConfIsFresh(voters: set<nat>, log: seq<Entry>, pos: nat, high: nat)
    requires pos <= high <= |log| && IsConf(voters, log, pos)
    ensures ConfFresh(voters, log, pos, high)
  {
    forall node ensures MemberBetween(log, pos, high, node, node in voters) {
      assert node in voters <==> Member(log, pos, node);
    }
  }

  /** Applying the next entry moves the window by one. */
  lemma ConfFreshApply(voters: set<nat>, log: seq<Entry>, pos: nat, high: nat)
    requires pos < high <= |log| && ConfFresh(voters, log, pos, high)
    ensures ConfFresh(ApplyConf(voters, log[pos]), log, pos + 1, high)
  {
    hide Member;
    var voters' := ApplyConf(voters, log[pos]);
    forall node ensures MemberBetween(log, pos + 1, high, node, node in voters') {
      MemberStep(log, pos, node);
      if About(log[pos], node) {
        assert node in voters' <==> Member(log, pos + 1, node);
      } else {
        assert MemberBetween(log, pos, high, node, node in voters);
        var q :| pos <= q <= high && (node in voters <==> Member(log, q, node));
        var q' := if q == pos then pos + 1 else q;
        assert node in voters' <==> Member(log, q', node);
      }
    }
  }

  lemma {:induction false} ConfFreshApplyAll(voters: set<nat>, log: seq<Entry>, pos: nat, end: nat, high: nat)
    requires pos <= end <= high <= |log| && ConfFresh(voters, log, pos, high)
    ensures ConfFresh(ApplyConfs(voters, log[pos..end]), log, end, high)
    decreases end
  {
    hide ConfFresh, ApplyConf;
    var es := log[pos..end];
    if pos == end {
      assert es == [];
    } else {
      assert es[..|es| - 1] == log[pos..end - 1] && es[|es| - 1] == log[end - 1];
      ConfFreshApplyAll(voters, log, pos, end - 1, high);
      ConfFreshApply(ApplyConfs(voters, log[pos..end - 1]), log, end - 1, high);
    }
  }

  /** Exactly what the log says, if it was so before. */
  lemma ConfApplyAll(voters: set<nat>, log: seq<Entry>, pos: nat, end: nat)
    requires pos <= end <= |log| && IsConf(voters, log, pos)
    ensures IsConf(ApplyConfs(voters, log[pos..end]), log, end)
  {
    hide IsConf, ConfFresh;
    ConfIsFresh(voters, log, pos, end);
    ConfFreshApplyAll(voters, log, pos, end, end);
    ConfFreshIsExact(ApplyConfs(voters, log[pos..end]), log, end);
  }

  /** A log without membership entries has no voters. */
  lemma NoChanges(log: seq<Entry>, pos: nat, high: nat)
    requires pos <= high <= |log| && forall i :: 0 <= i < |log| ==> !log[i].ConfChange?
    ensures ConfFresh({}, log, pos, high)
  {
    ConfIsFresh({}, log, pos, high);
  }

  lemma ConfFreshIsExact(voters: set<nat>, log: seq<Entry>, pos: nat)
    requires pos <= |log| && ConfFresh(voters, log, pos, pos)
    ensures IsConf(voters, log, pos)
  {
    hide Member;
    forall node ensures node in voters <==> Member(log, pos, node) {
      assert MemberBetween(log, pos, pos, node, node in voters);
    }
  }
}
