/** Types and integer conversions shared by the other modules. */
module Basics {

  datatype Option<+T> = None | Some(value: T)

  const TWO_31: int := 0x8000_0000
  const TWO_32: int := 0x1_0000_0000
  const TWO_63: int := 0x8000_0000_0000_0000
  const TWO_64: int := 0x1_0000_0000_0000_0000

  type byte = b: nat | b < 256
  type uint64 = x: nat | x < TWO_64
  type int32 = x: int | -TWO_31 <= x < TWO_31
  type int64 = x: int | -TWO_63 <= x < TWO_63

  /** The two's complement reading of the low 64 bits. */
  function ToInt64(x: int): int64 {
    var r := x % TWO_64;
    if r < TWO_63 then r else r - TWO_64
  }

  /** The two's complement reading of the low 32 bits. */
  function ToInt32(x: int): int32 {
    var r := x % TWO_32;
    if r < TWO_31 then r else r - TWO_32
  }

  function Min(a: int, b: int): int {
    if a <= b then a else b
  }

  function Max(a: int, b: int): int {
    if a <= b then b else a
  }

  /** The numbers 0 to n - 1. */
  function Below(n: nat): set<nat> {
    if n == 0 then {} else Below(n - 1) + {n - 1}
  }

  lemma {:induction false} BelowSize(n: nat)
    ensures |Below(n)| == n && forall c: nat :: c in Below(n) <==> c < n
  {
    if n > 0 {
      BelowSize(n - 1);
    }
  }

  ghost predicate Distinct<T>(s: seq<T>) {
    forall i, j :: 0 <= i < j < |s| ==> s[i] != s[j]
  }

  function ToSet<T>(s: seq<T>): set<T> {
    set x | x in s
  }

  lemma DistinctLast<T>(s: seq<T>)
    requires s != []
    ensures var front, x := s[..|s| - 1], s[|s| - 1]; Distinct(s) <==> Distinct(front) && x !in front
  {
    var front, x := s[..|s| - 1], s[|s| - 1];
    if x in front {
      var k :| 0 <= k < |front| && front[k] == x;
      assert s[k] == s[|s| - 1];
    }
    assert forall i :: 0 <= i < |front| ==> s[i] == front[i] && front[i] in front;
  }

  lemma DistinctConcat<T>(a: seq<T>, b: seq<T>)
    requires Distinct(a) && Distinct(b) && forall x :: x in a ==> x !in b
    ensures Distinct(a + b)
  {
    var s := a + b;
    forall i, j | 0 <= i < j < |s| ensures s[i] != s[j] {
      if i < |a| <= j {
        assert s[i] in a && s[j] in b;
      }
    }
  }

  /** A list has as many different elements as places exactly when no element occurs twice. */
  lemma {:induction false} DistinctSize<T>(s: seq<T>)
    ensures |ToSet(s)| <= |s| && (Distinct(s) <==> |ToSet(s)| == |s|)
  {
    if s != [] {
      var front, x := s[..|s| - 1], s[|s| - 1];
      DistinctSize(front);
      DistinctLast(s);
      hide Distinct;
      assert ToSet(s) == ToSet(front) + {x};
      assert x in front ==> ToSet(s) == ToSet(front);
    }
  }

  lemma Pick<T>(s: set<T>) returns (x: T)
    requires s != {}
    ensures x in s
  {
    x :| x in s;
  }

  lemma SubsetSize<T>(a: set<T>, b: set<T>)
    requires a <= b
    ensures |a| <= |b|
  {
    assert a + (b - a) == b;
  }

  lemma SliceJoin<T>(s: seq<T>, a: nat, b: nat, c: nat)
    requires a <= b <= c <= |s|
    ensures s[a..b] + s[b..c] == s[a..c]
  {
  }

  lemma SliceInSlice<T>(s: seq<T>, at: nat, size: nat, a: nat, b: nat)
    requires at + size <= |s| && a <= b <= size
    ensures s[at..][..size][a..b] == s[at + a..at + b]
  {
  }

  /** Concatenation of a list of byte strings, in order. */
  function Flatten<T>(parts: seq<seq<T>>): seq<T> {
    if parts == [] then [] else parts[0] + Flatten(parts[1..])
  }

  lemma {:induction false} FlattenConcat<T>(a: seq<seq<T>>, b: seq<seq<T>>)
    ensures Flatten(a + b) == Flatten(a) + Flatten(b)
  {
    if a == [] {
      assert a + b == b;
    } else {
      FlattenConcat(a[1..], b);
      assert (a + b)[1..] == a[1..] + b && (a + b)[0] == a[0];
    }
  }

  lemma FlattenSnoc<T>(parts: seq<seq<T>>, k: nat)
    requires k < |parts|
    ensures Flatten(parts[..k + 1]) == Flatten(parts[..k]) + parts[k]
  {
    assert parts[..k + 1] == parts[..k] + [parts[k]];
    FlattenConcat(parts[..k], [parts[k]]);
    assert Flatten([parts[k]]) == parts[k] + Flatten([]);
  }
}
