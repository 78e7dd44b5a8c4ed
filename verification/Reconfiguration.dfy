/**
 * Placement group reconfiguration: the leader's control pass turns the difference between
 * the target pipeline and the voters into membership changes of one node each.
 */
module Reconfiguration {
  import opened Basics
  import opened Membership
  import opened MetaStore

  type NodeId = uint64

  // -- calDiff -----------------------------------------------------------------------------------

  /** The elements of a set in the unspecified order in which the source iterates over it. */
  method Iterate(s: set<NodeId>) returns (r: seq<NodeId>)
    ensures Distinct(r) && ToSet(r) == s
  {
    r := [];
    var todo := s;
    while todo != {}
      invariant todo <= s && Distinct(r) && ToSet(r) == s - todo
      decreases |todo|
    {
      var x :| x in todo;
      assert x !in ToSet(r);
      assert ToSet(r + [x]) == ToSet(r) + {x};
      r := r + [x];
      todo := todo - {x};
    }
  }

  method CollectSet(a: seq<NodeId>) returns (s: set<NodeId>)
    ensures s == ToSet(a)
  {
    s := {};
    for i := 0 to |a|
      invariant s == ToSet(a[..i])
    {
      s := s + {a[i]};
      assert a[..i + 1] == a[..i] + [a[i]];
    }
    assert a[..|a|] == a;
  }

  method CalDiff(a: seq<NodeId>, b: seq<NodeId>) returns (da: seq<NodeId>, db: seq<NodeId>)
    ensures Distinct(da) && ToSet(da) == ToSet(a) - ToSet(b)
    ensures Distinct(db) && ToSet(db) == ToSet(b) - ToSet(a)
  {
    var setA := CollectSet(a);
    var setB := CollectSet(b);
    da := Iterate(setA - setB);
    db := Iterate(setB - setA);
  }

  // -- Membership histories ------------------------------------------------------------------------

  /** Consecutive voter sets differ by at most one node. */
  ghost predicate SingleSteps(h: seq<set<NodeId>>) {
    forall i :: 0 <= i < |h| - 1 ==> OneApart(h[i], h[i + 1])
  }

  ghost predicate OneApart(v: set<NodeId>, w: set<NodeId>) {
    v == w || (exists x :: x !in v && w == v + {x}) || (exists x :: x in v && w == v - {x})
  }

  lemma ChangeIsOneApart(v: set<NodeId>, id: NodeId)
    ensures OneApart(v, v + {id}) && OneApart(v, v - {id})
  {
    assert id in v ==> v + {id} == v;
    assert id !in v ==> v - {id} == v;
  }

  predicate IsMajority(q: set<NodeId>, v: set<NodeId>) {
    q <= v && 2 * |q| > |v|
  }

  lemma UnionSize(a: set<NodeId>, b: set<NodeId>)
    requires a !! b
    ensures |a + b| == |a| + |b|
  {
  }

  /** Section 4.1 of Ongaro's dissertation: majorities of neighbouring configurations meet. */
  lemma MajoritiesMeet(v: set<NodeId>, w: set<NodeId>, q: set<NodeId>, r: set<NodeId>)
    requires OneApart(v, w) && IsMajority(q, v) && IsMajority(r, w)
    ensures q * r != {}
  {
    if q * r == {} {
      assert forall x :: x in q && x in r ==> x in q * r;
      UnionSize(q, r);
      if v == w {
        SubsetSize(q + r, v);
      } else if x :| x !in v && w == v + {x} {
        assert |w| == |v| + 1;
        SubsetSize(q + r, w);
      } else {
        var x :| x in v && w == v - {x};
        assert |w| == |v| - 1;
        SubsetSize(q + r, v);
      }
    }
  }

  /** S lies between the old and the new voters: it keeps all of one side and adds nobody else. */
  ghost predicate Between(S: set<NodeId>, old': set<NodeId>, new': set<NodeId>) {
    (old' <= S || new' <= S) && S <= old' + new'
  }

  lemma BetweenIsSafe(S: set<NodeId>, v: set<NodeId>, t: set<NodeId>)
    requires Between(S, v, t)
    ensures v * t <= S && |S| >= Min(|v|, |t|)
  {
    if v <= S {
      SubsetSize(v, S);
    } else {
      SubsetSize(t, S);
    }
  }

  // -- The history is what the log says ---------------------------------------------------------------

  /** Each voter set is what the membership entries before it make of the first one. */
  ghost predicate Reads(h: seq<set<NodeId>>, changes: seq<Entry>) {
    |h| == |changes| + 1 && forall i: nat :: i < |h| ==> ReadsAt(h, changes, i)
  }

  ghost predicate ReadsAt(h: seq<set<NodeId>>, changes: seq<Entry>, i: nat)
    requires i < |h| == |changes| + 1
  {
    forall node: NodeId :: node in h[i] <==> VoterAfter(h[0], changes[..i], node)
  }

  lemma OneChange(voters: set<NodeId>, add: bool, id: NodeId, after: set<NodeId>)
    requires after == if add then voters + {id} else voters - {id}
    ensures forall node: NodeId :: node in after <==> VoterAfter(voters, [ConfChange(add, id)], node)
  {
    hide VoterAfter;
    var e := ConfChange(add, id);
    assert [] + [e] == [e];
    forall node: NodeId ensures node in after <==> VoterAfter(voters, [e], node) {
      VoterAfterLast(voters, [], e, node);
      VoterAfterNone(voters, node);
    }
  }

  lemma ReadsMore(h: seq<set<NodeId>>, changes: seq<Entry>, e: Entry, after: set<NodeId>)
    requires Reads(h, changes) && e.ConfChange?
    requires var last := h[|h| - 1]; forall node: NodeId :: node in after <==> VoterAfter(last, [e], node)
    ensures Reads(h + [after], changes + [e])
  {
    hide VoterAfter;
    var h', changes' := h + [after], changes + [e];
    var last := |h| - 1;
    forall i: nat | i < |h'| ensures ReadsAt(h', changes', i) {
      if i < |h| {
        assert ReadsAt(h, changes, i);
        assert changes'[..i] == changes[..i];
      } else {
        assert ReadsAt(h, changes, last);
        assert changes[..last] == changes && changes'[..i] == changes + [e];
        forall node: NodeId ensures node in after <==> VoterAfter(h[0], changes', node) {
          VoterAfterLast(h[0], changes, e, node);
          VoterAfterLast(h[last], [], e, node);
          VoterAfterNone(h[last], node);
          assert [] + [e] == [e];
        }
      }
    }
  }

  // -- The control pass ------------------------------------------------------------------------------

  datatype Proposal = Applied | Rejected | Crashed

  /** The raft group as the leader's control loop sees it. */
  class Group {
    var voters: set<NodeId>
    var fate: seq<bool>    // which of the coming proposals raft accepts; the leader crashes after them
    ghost var history: seq<set<NodeId>>    // all voter sets so far
    ghost var changes: seq<Entry>          // the membership entries that led to them

    ghost predicate Valid()
      reads this
    {
      && |history| > 0 && history[|history| - 1] == voters && SingleSteps(history)
      && Reads(history, changes)
    }

    constructor (voters: set<NodeId>, fate: seq<bool>)
      ensures Valid() && this.voters == voters && this.fate == fate && history == [voters]
    {
      this.voters, this.fate, history, changes := voters, fate, [voters], [];
    }

    /** Propose a change of one node and wait until it is applied, as addNode and removeNode do. */
    method Propose(add: bool, id: NodeId) returns (r: Proposal)
      requires Valid()
      modifies this
      ensures Valid()
      ensures r == if old(fate) == [] then Crashed else if old(fate)[0] then Applied else Rejected
      ensures fate == if old(fate) == [] then [] else old(fate)[1..]
      ensures if r == Applied then voters == (if add then old(voters) + {id} else old(voters) - {id})
              else voters == old(voters)
      ensures history == if r == Applied then old(history) + [voters] else old(history)
      ensures changes == if r == Applied then old(changes) + [ConfChange(add, id)] else old(changes)
      ensures r == Applied ==> forall node: NodeId :: node in voters <==> VoterAfter(old(voters), [ConfChange(add, id)], node)
    {
      if fate == [] { return Crashed; }
      r := if fate[0] then Applied else Rejected;
      fate := fate[1..];
      if r == Applied {
        ghost var before := voters;
        voters := if add then voters + {id} else voters - {id};
        hide OneApart;
        ChangeIsOneApart(before, id);
        hide VoterAfter;
        OneChange(before, add, id, voters);
        ReadsMore(history, changes, ConfChange(add, id), voters);
        history, changes := history + [voters], changes + [ConfChange(add, id)];
      }
    }

    /** Adds the missing nodes one by one, each until it is a voter. */
    method ProposeNewNodes(ids: seq<NodeId>) returns (done: bool)
      requires Valid()
      modifies this
      ensures Valid() && Extends(old(history), history, old(voters), old(voters) + ToSet(ids))
      ensures old(voters) <= voters <= old(voters) + ToSet(ids)
      ensures done ==> voters == old(voters) + ToSet(ids)
      ensures AllAccepted(old(fate)) && |old(fate)| >= |ids| ==>
                done && AllAccepted(fate) && |fate| >= |old(fate)| - |ids|
    {
      hide SingleSteps, Reads;
      ghost var enough := AllAccepted(old(fate)) && |old(fate)| >= |ids|;
      for k := 0 to |ids|
        invariant Valid() && Extends(old(history), history, old(voters), old(voters) + ToSet(ids))
        invariant old(voters) <= voters <= old(voters) + ToSet(ids)
        invariant forall i :: 0 <= i < k ==> ids[i] in voters
        invariant enough ==> AllAccepted(fate) && |fate| >= |old(fate)| - k
      {
        while ids[k] !in voters
          invariant Valid() && Extends(old(history), history, old(voters), old(voters) + ToSet(ids))
          invariant old(voters) <= voters <= old(voters) + ToSet(ids)
          invariant forall i :: 0 <= i < k ==> ids[i] in voters
          invariant enough ==> AllAccepted(fate) && |fate| >= |old(fate)| - k - (if ids[k] in voters then 1 else 0)
          decreases |fate|
        {
          var r := Propose(true, ids[k]);
          if r == Crashed { return false; }
        }
      }
      done := true;
    }

    /** Removes a node, trying again until it is no voter. */
    method RemoveNode(id: NodeId) returns (done: bool)
      requires Valid()
      modifies this
      ensures Valid() && Extends(old(history), history, old(voters) - {id}, old(voters))
      ensures old(voters) - {id} <= voters <= old(voters) && (done ==> id !in voters)
      ensures AllAccepted(old(fate)) && |old(fate)| >= 1 ==> done && AllAccepted(fate) && |fate| >= |old(fate)| - 1
    {
      hide SingleSteps, Reads;
      var r := Propose(false, id);
      if r == Crashed { return false; }
      while id in voters
        invariant Valid() && Extends(old(history), history, old(voters) - {id}, old(voters))
        invariant old(voters) - {id} <= voters <= old(voters)
        invariant AllAccepted(old(fate)) ==> id !in voters && AllAccepted(fate) && |fate| >= |old(fate)| - 1
        decreases |fate|
      {
        r := Propose(false, id);
        if r == Crashed { return false; }
      }
      done := true;
    }

    /** Removes the listed nodes one by one, each until it is no voter; the leader itself last. */
    method ProposeRemoveNodes(self: NodeId, ids: seq<NodeId>) returns (done: bool)
      requires Valid() && self in voters && Distinct(ids)
      modifies this
      ensures Valid() && Extends(old(history), history, old(voters) - ToSet(ids), old(voters))
      ensures forall i :: |old(history)| <= i < |history| - 1 ==> self in history[i]
      ensures self !in voters ==> done && self in ids
      ensures done ==> voters == old(voters) - ToSet(ids)
      ensures AllAccepted(old(fate)) && |old(fate)| >= |ids| ==> done
    {
      hide SingleSteps, Reads;
      ghost var enough := AllAccepted(old(fate)) && |old(fate)| >= |ids|;
      var removeSelf := false;
      for k := 0 to |ids|
        invariant Valid() && Extends(old(history), history, old(voters) - ToSet(ids) + {self}, old(voters))
        invariant old(voters) - ToSet(ids) + {self} <= voters <= old(voters)
        invariant forall i :: 0 <= i < k ==> ids[i] == self || ids[i] !in voters
        invariant removeSelf <==> self in ids[..k]
        invariant enough ==> AllAccepted(fate) && |fate| >= |old(fate)| - k + (if removeSelf then 1 else 0)
      {
        if ids[k] == self {
          removeSelf := true;
          continue;
        }
        ghost var before, h := voters, history;
        var removed := RemoveNode(ids[k]);
        ExtendsMore(old(history), h, history, before - {ids[k]}, before, old(voters) - ToSet(ids) + {self}, old(voters));
        if !removed { return false; }
      }
      assert ids[..|ids|] == ids;
      done := true;
      if removeSelf {
        var r := Propose(false, self);
        done := r == Applied;
      }
    }

    /**
     * One pass of controlLoop by the leader `self` towards the target pipeline: every voter
     * set on the way lies between the old voters and the target, the leader leaves last, and
     * a pass that is not cut short makes the voters equal the target.
     */
    method ControlPass(self: NodeId, target: seq<NodeId>) returns (done: bool)
      requires Valid() && self in voters
      modifies this
      ensures Valid() && old(history) <= history
      ensures forall i :: |old(history)| <= i < |history| ==> Between(history[i], old(voters), ToSet(target))
      ensures forall i :: |old(history)| <= i < |history| - 1 ==> self in history[i]
      ensures self !in voters ==> self !in target && done
      ensures done ==> voters == ToSet(target)
      ensures AllAccepted(old(fate)) ==>
                |old(fate)| >= |ToSet(target) - old(voters)| + |old(voters) - ToSet(target)| ==> done
    {
      var current := Iterate(voters);
      var needAdd, needRemove := CalDiff(target, current);
      DistinctSize(needAdd);
      DistinctSize(needRemove);
      done := ProposeNewNodes(needAdd);
      if !done { return; }
      ghost var middle := history;
      assert voters == old(voters) + ToSet(target);
      done := ProposeRemoveNodes(self, needRemove);
      assert forall i :: |old(history)| <= i < |middle| ==> history[i] == middle[i];
    }

    /**
     * Any number of passes, by any voters as leaders, towards any targets, each cut short
     * anywhere: the configurations stay one node apart and are never empty.
     */
    method RunPasses(targets: seq<seq<NodeId>>, fates: seq<seq<bool>>)
      requires Valid() && voters != {} && |targets| == |fates|
      requires forall k :: 0 <= k < |targets| ==> targets[k] != []
      modifies this
      ensures Valid() && old(history) <= history
      ensures forall i :: |old(history)| <= i < |history| ==> history[i] != {}
    {
      for k := 0 to |targets|
        invariant Valid() && voters != {} && old(history) <= history
        invariant forall i :: |old(history)| <= i < |history| ==> history[i] != {}
      {
        fate := fates[k];
        var self :| self in voters;
        ghost var before, v := history, voters;
        var _ := ControlPass(self, targets[k]);
        assert targets[k][0] in ToSet(targets[k]);
        forall i | |before| <= i < |history| ensures history[i] != {} {
          BetweenIsSafe(history[i], v, ToSet(targets[k]));
        }
      }
    }
  }

  ghost predicate AllAccepted(fate: seq<bool>) {
    forall i :: 0 <= i < |fate| ==> fate[i]
  }

  lemma ExtendsMore(h0: seq<set<NodeId>>, h1: seq<set<NodeId>>, h2: seq<set<NodeId>>,
                    low: set<NodeId>, up: set<NodeId>, low': set<NodeId>, up': set<NodeId>)
    requires Extends(h0, h1, low', up') && Extends(h1, h2, low, up) && low' <= low && up <= up'
    ensures Extends(h0, h2, low', up')
  {
  }

  /** h continues h0, and every later set lies between low and up. */
  ghost predicate Extends(h0: seq<set<NodeId>>, h: seq<set<NodeId>>, low: set<NodeId>, up: set<NodeId>) {
    h0 <= h && forall i :: |h0| <= i < |h| ==> low <= h[i] <= up
  }
}
