/**
 * Object metadata as the raft log changes it: the meaning of a log prefix, what
 * re-applying entries does to a store, and the storage that is snapshotted.
 */
module MetaStore {
  import opened Basics

  datatype ObjectMeta = ObjectMeta(objId: string, body: seq<byte>)

  type Store = map<string, ObjectMeta>

  /** A committed raft entry. `Put`, `Delete` and `Unsupported` carry a MetaOperate. */
  datatype Entry =
    | Put(op: nat, meta: ObjectMeta)
    | Delete(op: nat, meta: ObjectMeta)
    | Unsupported(op: nat)
    | Empty
    | ConfChange(add: bool, node: nat)
  {
    predicate IsData() {
      Put? || Delete? || Unsupported?
    }

    predicate Touches(key: string) {
      (Put? || Delete?) && meta.objId == key
    }
  }

  function Apply(m: Store, e: Entry): Store {
    match e
    case Put(_, meta) => m[meta.objId := meta]
    case Delete(_, meta) => m - {meta.objId}
    case _ => m
  }

  function ApplyAll(m: Store, es: seq<Entry>): Store {
    if es == [] then m else Apply(ApplyAll(m, es[..|es| - 1]), es[|es| - 1])
  }

  /** The state that the first n entries of the log define. */
  function Prefix(log: seq<Entry>, n: nat): Store
    requires n <= |log|
  {
    if n == 0 then map[] else Apply(Prefix(log, n - 1), log[n - 1])
  }

  /** m and m' say the same about a key. */
  predicate AgreeOn(m: Store, m': Store, key: string) {
    (key in m <==> key in m') && (key in m ==> m[key] == m'[key])
  }

  lemma SameStore(m: Store, m': Store)
    requires forall key :: AgreeOn(m, m', key)
    ensures m == m'
  {
    forall key
      ensures key in m <==> key in m'
      ensures key in m ==> m[key] == m'[key]
    {
      assert AgreeOn(m, m', key);
    }
  }

  predicate Untouched(log: seq<Entry>, a: nat, b: nat, key: string)
    requires b <= |log|
  {
    forall i :: a <= i < b ==> !log[i].Touches(key)
  }

  lemma {:induction false} UntouchedPrefix(log: seq<Entry>, a: nat, b: nat, key: string)
    requires a <= b <= |log| && Untouched(log, a, b, key)
    ensures AgreeOn(Prefix(log, a), Prefix(log, b), key)
    decreases b
  {
    if a < b {
      UntouchedPrefix(log, a, b - 1, key);
    }
  }

  // -- Stores that are catching up -------------------------------------------------------------

  /**
   * Every key that is not stale holds the value that some log prefix between `pos` and `high`
   * gives it. A store that applied the log in order is fresh at (pos, pos); a persisted store
   * that had applied `high` entries and is replayed from `pos` is fresh at (pos, high).
   */
  ghost predicate Fresh(m: Store, log: seq<Entry>, pos: nat, high: nat, stale: set<string> := {})
    requires pos <= high <= |log|
  {
    forall key :: key !in stale ==> FreshAt(m, log, pos, high, key)
  }

  ghost predicate FreshAt(m: Store, log: seq<Entry>, pos: nat, high: nat, key: string)
    requires pos <= high <= |log|
  {
    exists q :: pos <= q <= high && AgreeOn(m, Prefix(log, q), key)
  }

  /** Once the replay has reached the high-water mark, nothing of the past is left. */
  lemma FreshIsExact(m: Store, log: seq<Entry>, pos: nat)
    requires pos <= |log| && Fresh(m, log, pos, pos)
    ensures m == Prefix(log, pos)
  {
    forall key ensures AgreeOn(m, Prefix(log, pos), key) {
      assert FreshAt(m, log, pos, pos, key);
    }
    SameStore(m, Prefix(log, pos));
  }

  lemma PrefixIsFresh(log: seq<Entry>, pos: nat, high: nat)
    requires pos <= high <= |log|
    ensures Fresh(Prefix(log, high), log, pos, high)
  {
    forall key ensures FreshAt(Prefix(log, high), log, pos, high, key) {
      assert AgreeOn(Prefix(log, high), Prefix(log, high), key);
    }
  }

  /** Widening the window, as a restart does when it moves `pos` back. */
  lemma FreshWiden(m: Store, log: seq<Entry>, pos: nat, high: nat, pos': nat, high': nat, stale: set<string>)
    requires pos' <= pos <= high <= high' <= |log| && Fresh(m, log, pos, high, stale)
    ensures Fresh(m, log, pos', high', stale)
  {
    forall key | key !in stale ensures FreshAt(m, log, pos', high', key) {
      assert FreshAt(m, log, pos, high, key);
    }
  }

  /** The keys that a segment puts or deletes. */
  function Touched(es: seq<Entry>): set<string> {
    set i | 0 <= i < |es| && (es[i].Put? || es[i].Delete?) :: es[i].meta.objId
  }

  lemma TouchedIs(log: seq<Entry>, a: nat, b: nat, key: string)
    requires a <= b <= |log|
    ensures key !in Touched(log[a..b]) <==> Untouched(log, a, b, key)
  {
    var es := log[a..b];
    if key !in Touched(es) {
      forall i | a <= i < b ensures !log[i].Touches(key) {
        assert es[i - a] == log[i];
      }
    }
  }

  /** Passing over entries without applying them leaves the keys that they touch stale. */
  lemma FreshSkip(m: Store, log: seq<Entry>, pos: nat, high: nat, pos': nat, stale: set<string>)
    requires pos <= pos' <= |log| && pos <= high <= |log| && Fresh(m, log, pos, high, stale)
    ensures Fresh(m, log, pos', Max(pos', high), stale + Touched(log[pos..pos']))
  {
    forall key | key !in stale && key !in Touched(log[pos..pos']) ensures FreshAt(m, log, pos', Max(pos', high), key) {
      assert FreshAt(m, log, pos, high, key);
      TouchedIs(log, pos, pos', key);
      var q :| pos <= q <= high && AgreeOn(m, Prefix(log, q), key);
      if q < pos' {
        UntouchedPrefix(log, q, pos', key);
        assert AgreeOn(m, Prefix(log, pos'), key);
      }
    }
  }

  lemma NoDataTouchesNothing(es: seq<Entry>)
    requires forall i :: 0 <= i < |es| ==> !es[i].IsData()
    ensures Touched(es) == {}
  {
  }

  /** Applying the next entry moves the window forward by one, and its key is no longer stale. */
  lemma FreshApply(m: Store, log: seq<Entry>, pos: nat, high: nat, stale: set<string>)
    requires pos < |log| && pos <= high <= |log| && Fresh(m, log, pos, high, stale)
    ensures Fresh(Apply(m, log[pos]), log, pos + 1, Max(pos + 1, high), stale - Touched([log[pos]]))
  {
    var m', high' := Apply(m, log[pos]), Max(pos + 1, high);
    var pos' := pos + 1;
    forall key | key !in stale - Touched([log[pos]]) ensures FreshAt(m', log, pos', high', key) {
      if log[pos].Touches(key) {
        assert AgreeOn(m', Prefix(log, pos + 1), key);
      } else {
        assert key !in stale by { OnlyTouched(log[pos], key); }
        assert FreshAt(m, log, pos, high, key);
        var q :| pos <= q <= high && AgreeOn(m, Prefix(log, q), key);
        assert AgreeOn(m', Prefix(log, q), key);
        if q == pos {
          UntouchedPrefix(log, pos, pos + 1, key);
          assert AgreeOn(m', Prefix(log, pos + 1), key);
        }
      }
    }
  }

  lemma OnlyTouched(e: Entry, key: string)
    ensures key in Touched([e]) <==> e.Touches(key)
  {
    if e.Touches(key) {
      assert [e][0] == e;
    }
  }

  lemma {:induction false} FreshApplyAll(m: Store, log: seq<Entry>, pos: nat, high: nat, end: nat)
    requires pos <= end <= |log| && pos <= high <= |log| && Fresh(m, log, pos, high)
    ensures Fresh(ApplyAll(m, log[pos..end]), log, end, Max(end, high))
    decreases end
  {
    var es := log[pos..end];
    if pos == end {
      assert es == [];
    } else {
      assert es[..|es| - 1] == log[pos..end - 1] && es[|es| - 1] == log[end - 1];
      FreshApplyAll(m, log, pos, high, end - 1);
      FreshApply(ApplyAll(m, log[pos..end - 1]), log, end - 1, Max(end - 1, high), {});
    }
  }

  /**
   * Replay after restart: a persisted store that has applied n entries, to which the
   * entries after the k-th up to the m-th are applied again, is the state of prefix m.
   */
  lemma ReplayAfterRestart(log: seq<Entry>, k: nat, n: nat, m: nat)
    requires k <= n <= m <= |log|
    ensures ApplyAll(Prefix(log, n), log[k..m]) == Prefix(log, m)
  {
    PrefixIsFresh(log, k, n);
    FreshApplyAll(Prefix(log, n), log, k, n, m);
    FreshIsExact(ApplyAll(Prefix(log, n), log[k..m]), log, m);
  }

  // -- Installing a snapshot -------------------------------------------------------------------

  /** What RecoverFromSnapshot leaves: keys are only put, never deleted. */
  function Overlay(m: Store, data: Store): Store {
    m + data
  }

  /** Recovery gives the snapshot's state exactly when the store holds no key of its own. */
  lemma RecoverExact(m: Store, data: Store)
    ensures Overlay(m, data) == data <==> m.Keys <= data.Keys
  {
    assert Overlay(m, data).Keys == m.Keys + data.Keys;
    if m.Keys <= data.Keys {
      assert forall key :: key in Overlay(m, data) ==> Overlay(m, data)[key] == data[key];
    }
  }

  /** Recovery leaves stale what is stale in the snapshot, and the keys that only the store has. */
  lemma FreshOverlay(m: Store, data: Store, log: seq<Entry>, pos: nat, high: nat, stale: set<string>)
    requires pos <= high <= |log| && Fresh(data, log, pos, high, stale)
    ensures Fresh(Overlay(m, data), log, pos, high, stale + (m.Keys - data.Keys))
  {
    forall key | key !in stale && key !in m.Keys - data.Keys ensures FreshAt(Overlay(m, data), log, pos, high, key) {
      assert FreshAt(data, log, pos, high, key);
      var q :| pos <= q <= high && AgreeOn(data, Prefix(log, q), key);
      assert AgreeOn(Overlay(m, data), Prefix(log, q), key);
    }
  }

  /** Catching up: snapshot at n into an empty store, then the rest of the log, is the whole log. */
  lemma CatchUpBySnapshot(log: seq<Entry>, n: nat, m: nat)
    requires n <= m <= |log|
    ensures ApplyAll(Overlay(map[], Prefix(log, n)), log[n..m]) == Prefix(log, m)
  {
    assert Overlay(map[], Prefix(log, n)) == Prefix(log, n);
    ReplayAfterRestart(log, n, n, m);
  }

  // -- Data entries of a segment ---------------------------------------------------------------

  /** The entries of a segment that are handed to the applier. */
  function Data(es: seq<Entry>): seq<Entry> {
    if es == [] then []
    else if es[0].IsData() then [es[0]] + Data(es[1..])
    else Data(es[1..])
  }

  lemma {:induction false} DataConcat(a: seq<Entry>, b: seq<Entry>)
    ensures Data(a + b) == Data(a) + Data(b)
  {
    if a == [] {
      assert a + b == b;
    } else {
      DataConcat(a[1..], b);
      assert (a + b)[1..] == a[1..] + b;
    }
  }

  lemma {:induction false} NoData(es: seq<Entry>)
    ensures Data(es) == [] <==> forall i :: 0 <= i < |es| ==> !es[i].IsData()
  {
    if es != [] {
      NoData(es[1..]);
      if Data(es[1..]) == [] && !es[0].IsData() {
        forall i | 0 <= i < |es| ensures !es[i].IsData() {
          if i > 0 { assert es[i] == es[1..][i - 1]; }
        }
      }
      if forall i :: 0 <= i < |es| ==> !es[i].IsData() {
        forall i | 0 <= i < |es[1..]| ensures !es[1..][i].IsData() {
          assert es[1..][i] == es[i + 1];
        }
      }
    }
  }

  /** How many entries precede the first data entry of a segment. */
  function DataPos(es: seq<Entry>): nat {
    if es == [] || es[0].IsData() then 0 else 1 + DataPos(es[1..])
  }

  lemma {:induction false} FirstData(es: seq<Entry>)
    requires Data(es) != []
    ensures var i := DataPos(es);
            && i < |es| && es[i] == Data(es)[0] && es[i].IsData()
            && (forall j :: 0 <= j < i ==> !es[j].IsData())
            && Data(es[i + 1..]) == Data(es)[1..]
  {
    var i := DataPos(es);
    if !es[0].IsData() {
      FirstData(es[1..]);
      assert es[1..][i - 1 + 1..] == es[i + 1..] && es[1..][i - 1] == es[i];
      forall j | 0 <= j < i ensures !es[j].IsData() {
        if j > 0 { assert es[j] == es[1..][j - 1]; }
      }
    }
  }
}
