/**
 * Listing a bucket: the client asks, slot by slot, the first node of the slot's placement group
 * for all ids that start with the slot's prefix.
 */
module Listing {
  import opened Basics
  import opened Decimal
  import opened Strings
  import opened ObjectPath
  import opened Routing

  /** An object id in its parts. */
  datatype Name = Name(volume: string, bucket: string, slot: nat, key: string)

  function Text(n: Name): string {
    n.volume + "/" + (n.bucket + "/" + (Itoa(n.slot) + "/" + n.key))
  }

  predicate Proper(n: Name) {
    Plain(n.volume) && Plain(n.bucket) && n.slot >= 1 && GoodKey(n.key) && CleanObjectKey(n.key) == n.key
  }

  lemma JoinFour(a: string, b: string, c: string, rest: seq<string>)
    requires rest != []
    ensures Join([a, b, c] + rest) == (a + "/") + ((b + "/") + ((c + "/") + Join(rest)))
  {
    var all := [a, b, c] + rest;
    assert all[1..] == [b, c] + rest && ([b, c] + rest)[1..] == [c] + rest && ([c] + rest)[1..] == rest;
    assert Join([c] + rest) == c + "/" + Join(rest);
  }

  /** The id that a client generates for a good key. */
  lemma ObjectIdText(ring: Ring, b: Bucket, key: string)
    requires RingOk(ring) && ValidBucket(b) && GoodKey(key)
    ensures var n := Name(b.volume, b.name, CalculateSlot(ring, key, b.slots), CleanObjectKey(key));
            Proper(n) && GenObjectId(ring, b, key) == Text(n)
  {
    hide GenObjectId, Elements, CleanObjectKey;
    ObjectIdIs(ring, b, key);
    GoodKeyParts(ring, b, key);
    GoodKeyClean(key);
    GoodKeyLength(key);
    JoinFour(b.volume, b.name, Itoa(CalculateSlot(ring, key, b.slots)), Elements(key));
  }

  // -- Prefixes --------------------------------------------------------------------------------------

  lemma FirstSlash(a: string, x: string, k: nat)
    requires NoSlash(a) && k <= |a|
    ensures (a + "/" + x)[k] == '/' <==> k == |a|
  {
    assert k < |a| ==> (a + "/" + x)[k] == a[k];
  }

  /** Up to a slash, prefixes are compared element by element. */
  lemma PrefixElement(a: string, x: string, b: string, y: string)
    requires NoSlash(a) && NoSlash(b)
    ensures b + "/" + y <= a + "/" + x <==> a == b && y <= x
  {
    var s, p := a + "/" + x, b + "/" + y;
    if p <= s {
      FirstSlash(a, x, Min(|a|, |b|));
      FirstSlash(b, y, Min(|a|, |b|));
      assert a == s[..|a|] == p[..|b|] == b;
      assert y == p[|b| + 1..] && x == s[|a| + 1..];
    }
  }

  lemma NoSlashUpTo(b: string, s: string, k: nat)
    requires b <= s && NoSlash(b) && k < |s| && s[k] == '/'
    ensures |b| <= k
  {
  }

  lemma PrefixLast(a: string, x: string, b: string)
    requires NoSlash(a) && NoSlash(b)
    ensures b <= a + "/" + x <==> b <= a
  {
    var s := a + "/" + x;
    if b <= s {
      NoSlashUpTo(b, s, |a|);
      assert b == s[..|b|] == a[..|b|];
    }
  }

  /** Comparing the parts of a path with what follows the first slash of another. */
  lemma ElementMatch(q: seq<string>, a: string, x: string)
    requires Segments(q) && NoSlash(a)
    ensures Join(q) <= a + "/" + x <==>
            if q == [] then true else if |q| == 1 then q[0] <= a else q[0] == a && Join(q[1..]) <= x
  {
    if |q| == 1 {
      PrefixLast(a, x, q[0]);
    } else if q != [] {
      PrefixElement(a, x, q[0], Join(q[1..]));
    }
  }

  /** The cleaned prefix by itself; ".." at its start lead out of it, also if it begins with a slash. */
  function Relative(prefix: string): seq<string> {
    Normal([], Split(prefix), false)
  }

  /** No ".." of the prefix leads out of it. */
  predicate GoodPrefix(prefix: string) {
    Dots(Relative(prefix)) == 0
  }

  lemma RelativeIs(prefix: string)
    ensures Cleaned(Relative(prefix), false) && AllPlain(Relative(prefix)[Dots(Relative(prefix))..])
    ensures Elements(prefix) == if Rooted(prefix) then Relative(prefix)[Dots(Relative(prefix))..] else Relative(prefix)
    ensures GoodPrefix(prefix) ==> AllPlain(Elements(prefix)) && Elements(prefix) == Relative(prefix)
  {
    NormalCleans([], Split(prefix), false);
    DotsOfCleaned(Relative(prefix));
    SunkNormal([], [], Split(prefix));
    assert Sunk([], []) == [];
    hide Normal;
    if GoodPrefix(prefix) {
      assert Relative(prefix)[0..] == Relative(prefix);
    }
  }

  /** What the client sends for slot i and the server cleans. */
  function ListPrefix(b: Bucket, i: nat, prefix: string): string {
    CleanObjectKey(JoinPath([BucketID(b), Itoa(i), prefix]))
  }

  /** Its parts: ".." that lead out of the prefix remove slot, bucket and volume. */
  function Sent(b: Bucket, i: nat, prefix: string): seq<string> {
    Sunk([b.volume, b.name, Itoa(i)], Relative(prefix))
  }

  lemma ListPrefixIs(b: Bucket, i: nat, prefix: string)
    requires ValidBucket(b)
    ensures AllPlain(Sent(b, i, prefix)) && ListPrefix(b, i, prefix) == Join(Sent(b, i, prefix))
  {
    hide Join, JoinPath, BucketID, CleanObjectKey, Itoa;
    var base := [b.volume, b.name, Itoa(i)];
    PlainNumber(i);
    UnderBucket(b, Itoa(i), prefix);
    assert base == Sunk(base, []);
    SunkNormal(base, [], Split(prefix));
  }

  /** Without leading ".." nothing is removed. */
  lemma SentGood(b: Bucket, i: nat, prefix: string)
    requires GoodPrefix(prefix)
    ensures Sent(b, i, prefix) == [b.volume, b.name, Itoa(i)] + Elements(prefix)
  {
    RelativeIs(prefix);
    var base := [b.volume, b.name, Itoa(i)];
    assert base[..3] == base;
  }

  /** With leading ".." it is the same for every slot. */
  lemma SentBad(b: Bucket, i: nat, prefix: string)
    requires !GoodPrefix(prefix)
    ensures var m := Dots(Relative(prefix));
            Sent(b, i, prefix) == (if m >= 3 then [] else [b.volume, b.name][..3 - m]) + Relative(prefix)[m..]
  {
    var base, m := [b.volume, b.name, Itoa(i)], Dots(Relative(prefix));
    assert m < 3 ==> base[..3 - m] == [b.volume, b.name][..3 - m];
  }

  /** The parts stand for the start of the object's id. */
  predicate Matches(q: seq<string>, n: Name) {
    if |q| == 0 then true
    else if |q| == 1 then q[0] <= n.volume
    else if |q| == 2 then q[0] == n.volume && q[1] <= n.bucket
    else q[0] == n.volume && q[1] == n.bucket
         && if |q| == 3 then q[2] <= Itoa(n.slot) else q[2] == Itoa(n.slot) && Join(q[3..]) <= n.key
  }

  lemma PartsMatch(q: seq<string>, n: Name)
    requires Segments(q) && Proper(n)
    ensures Join(q) <= Text(n) <==> Matches(q, n)
  {
    hide Proper, Itoa, Join;
    ProperPlain(n);
    PlainNumber(n.slot);
    var slot := Itoa(n.slot);
    ElementMatch(q, n.volume, n.bucket + "/" + (slot + "/" + n.key));
    if |q| >= 2 {
      ElementMatch(q[1..], n.bucket, slot + "/" + n.key);
    }
    if |q| >= 3 {
      ElementMatch(q[2..], slot, n.key);
      assert q[1..][1..] == q[2..] && q[2..][1..] == q[3..];
    }
  }

  /** Which ids start with what is sent for slot i, for every prefix. */
  lemma PrefixMatches(b: Bucket, i: nat, prefix: string, n: Name)
    requires ValidBucket(b) && Proper(n)
    ensures ListPrefix(b, i, prefix) <= Text(n) <==> Matches(Sent(b, i, prefix), n)
    ensures GoodPrefix(prefix) ==>
              (ListPrefix(b, i, prefix) <= Text(n) <==>
               n.volume == b.volume && n.bucket == b.name
               && if Elements(prefix) == [] then Itoa(i) <= Itoa(n.slot) else n.slot == i && Join(Elements(prefix)) <= n.key)
  {
    hide Proper, GoodPrefix, ListPrefix, Sent, Itoa, Elements, Text;
    ListPrefixIs(b, i, prefix);
    PartsMatch(Sent(b, i, prefix), n);
    if GoodPrefix(prefix) {
      SentGood(b, i, prefix);
      var q := [b.volume, b.name, Itoa(i)] + Elements(prefix);
      assert q[3..] == Elements(prefix);
      if Itoa(i) == Itoa(n.slot) {
        ItoaInjective(n.slot, i);
      }
    }
  }

  lemma ProperPlain(n: Name)
    requires Proper(n)
    ensures Plain(n.volume) && Plain(n.bucket)
  {
  }

  // -- The cluster -----------------------------------------------------------------------------------

  type Node = map<int, set<Name>>              // its storages, by placement group

  /** Every node with its storages, and the first node of each placement group. */
  datatype Cluster = Cluster(pgNum: int, primary: map<int, nat>, nodes: map<nat, Node>)

  function PgOf(ring: Ring, c: Cluster, n: Name): int {
    GenSlotPgID(ring, GenBucketID(n.volume, n.bucket), n.slot, c.pgNum)
  }

  ghost predicate HeldBy(node: Node, n: Name) {
    exists pg :: pg in node && n in node[pg]
  }

  ghost predicate Stored(c: Cluster, n: Name) {
    exists k :: k in c.nodes && HeldBy(c.nodes[k], n)
  }

  /** Objects are stored in the storages of their own placement group, and at least on its first node. */
  ghost predicate ClusterOk(ring: Ring, c: Cluster) {
    && c.pgNum >= 1
    && (forall pg :: 1 <= pg <= c.pgNum ==> pg in c.primary && c.primary[pg] in c.nodes)
    && (forall k, pg, n :: k in c.nodes && pg in c.nodes[k] && n in c.nodes[k][pg] ==> Proper(n) && PgOf(ring, c, n) == pg)
    && (forall n :: Stored(c, n) && PgOf(ring, c, n) in c.primary && c.primary[PgOf(ring, c, n)] in c.nodes ==>
          HeldBy(c.nodes[c.primary[PgOf(ring, c, n)]], n))
  }

  /** The slots of the bucket's objects are within its slot number. */
  ghost predicate SlotsOk(c: Cluster, b: Bucket) {
    forall n :: Stored(c, n) && n.volume == b.volume && n.bucket == b.name ==> n.slot <= b.slots
  }

  /** The node that the client asks for slot i. */
  function NodeOf(ring: Ring, c: Cluster, b: Bucket, i: nat): Option<Node> {
    var pg := GenSlotPgID(ring, BucketID(b), i, c.pgNum);
    if pg in c.primary && c.primary[pg] in c.nodes then Some(c.nodes[c.primary[pg]]) else None
  }

  // -- The listing ---------------------------------------------------------------------------------

  /** Object n is in the answer for slot i. */
  ghost predicate Hit(ring: Ring, c: Cluster, b: Bucket, prefix: string, i: nat, n: Name) {
    var node := NodeOf(ring, c, b, i);
    node.Some? && HeldBy(node.value, n) && ListPrefix(b, i, prefix) <= Text(n)
  }

  /** How often object n is in the answers for slots 1 to k. */
  ghost function Times(ring: Ring, c: Cluster, b: Bucket, prefix: string, k: nat, n: Name): nat {
    if k == 0 then 0 else Times(ring, c, b, prefix, k - 1, n) + (if Hit(ring, c, b, prefix, k, n) then 1 else 0)
  }

  /** MetaStorage.List, in the unspecified order of the storage. */
  method List(storage: set<Name>, prefix: string) returns (metas: seq<Name>)
    ensures Distinct(metas) && forall n :: n in metas <==> n in storage && prefix <= Text(n)
  {
    metas := [];
    var todo := storage;
    while todo != {}
      invariant todo <= storage && Distinct(metas)
      invariant forall n :: n in metas <==> n in storage && n !in todo && prefix <= Text(n)
    {
      var n :| n in todo;
      todo := todo - {n};
      if |Text(n)| >= |prefix| && Text(n)[..|prefix|] == prefix {
        metas := metas + [n];
      }
    }
  }

  /** ListMeta asks all storages of the node. */
  method ListMeta(node: Node, prefix: string) returns (metas: seq<Name>)
    requires forall p, q :: p in node && q in node && p != q ==> node[p] !! node[q]
    ensures Distinct(metas) && forall n :: n in metas <==> HeldBy(node, n) && prefix <= Text(n)
  {
    metas := [];
    var todo := node.Keys;
    while todo != {}
      invariant todo <= node.Keys && Distinct(metas)
      invariant forall n :: n in metas <==> prefix <= Text(n) && exists pg :: pg in node && pg !in todo && n in node[pg]
    {
      ghost var some := Pick(todo);
      var pg :| pg in todo;
      var more := List(node[pg], prefix);
      DistinctConcat(metas, more);
      metas, todo := metas + more, todo - {pg};
    }
  }

  lemma NodeStoragesDisjoint(ring: Ring, c: Cluster, k: nat)
    requires ClusterOk(ring, c) && k in c.nodes
    ensures forall p, q :: p in c.nodes[k] && q in c.nodes[k] && p != q ==> c.nodes[k][p] !! c.nodes[k][q]
  {
    forall p, q, n | p in c.nodes[k] && q in c.nodes[k] && p != q && n in c.nodes[k][p] ensures n !in c.nodes[k][q] {
      assert PgOf(ring, c, n) == p;
    }
  }

  lemma {:induction false} DistinctCount(s: seq<Name>, n: Name)
    requires Distinct(s)
    ensures multiset(s)[n] == if n in s then 1 else 0
  {
    if s != [] {
      var front := s[..|s| - 1];
      DistinctCount(front, n);
      assert s == front + [s[|s| - 1]];
    }
  }

  /** listObjectsByEdge: an object is in the result as often as it is in the answers. */
  method ListObjectsByEdge(ring: Ring, c: Cluster, b: Bucket, prefix: string) returns (result: seq<Name>)
    requires RingOk(ring) && ClusterOk(ring, c) && ValidBucket(b)
    ensures forall n :: multiset(result)[n] == Times(ring, c, b, prefix, b.slots, n)
  {
    result := [];
    for i := 1 to b.slots + 1
      invariant forall n :: multiset(result)[n] == Times(ring, c, b, prefix, i - 1, n)
    {
      var pg := GenSlotPgID(ring, BucketID(b), i, c.pgNum);
      NodeStoragesDisjoint(ring, c, c.primary[pg]);
      hide ClusterOk, ListPrefix;
      var metas := ListMeta(c.nodes[c.primary[pg]], ListPrefix(b, i, prefix));
      forall n ensures multiset(result + metas)[n] == Times(ring, c, b, prefix, i, n) {
        DistinctCount(metas, n);
      }
      result := result + metas;
    }
  }

  // -- Exactness -------------------------------------------------------------------------------------

  /** The stored objects of the bucket whose key starts with the cleaned prefix. */
  ghost predicate Wanted(c: Cluster, b: Bucket, prefix: string, n: Name) {
    Stored(c, n) && n.volume == b.volume && n.bucket == b.name && Join(Elements(prefix)) <= n.key
  }

  /** The condition: no slot number starts with another one, or the prefix goes beyond the slot. */
  predicate Unambiguous(b: Bucket, prefix: string) {
    b.slots <= 9 || Elements(prefix) != []
  }

  lemma StoredProper(ring: Ring, c: Cluster, n: Name)
    requires ClusterOk(ring, c) && Stored(c, n)
    ensures Proper(n) && 1 <= n.slot
  {
  }

  lemma NodeOfIs(ring: Ring, c: Cluster, b: Bucket, i: nat)
    requires RingOk(ring) && ClusterOk(ring, c)
    ensures var pg := GenSlotPgID(ring, BucketID(b), i, c.pgNum);
            pg in c.primary && c.primary[pg] in c.nodes && NodeOf(ring, c, b, i) == Some(c.nodes[c.primary[pg]])
  {
  }

  lemma OneDigit(i: nat, j: nat)
    requires i <= 9 && j <= 9
    ensures Itoa(i) <= Itoa(j) <==> i == j
  {
    if Itoa(i) <= Itoa(j) {
      assert Itoa(i) == Itoa(j);
      ItoaInjective(i, j);
    }
  }

  /** An object is in the answer for its own slot if it is wanted, and in no other answer. */
  lemma HitExact(ring: Ring, c: Cluster, b: Bucket, prefix: string, i: nat, n: Name)
    requires RingOk(ring) && ClusterOk(ring, c) && ValidBucket(b) && SlotsOk(c, b) && GoodPrefix(prefix)
    requires Unambiguous(b, prefix) && 1 <= i <= b.slots
    ensures Hit(ring, c, b, prefix, i, n) <==> Wanted(c, b, prefix, n) && n.slot == i
  {
    hide GoodPrefix, ListPrefix, Itoa, Elements, GenSlotPgID, GenBucketID;
    NodeOfIs(ring, c, b, i);
    if Stored(c, n) {
      StoredProper(ring, c, n);
      PrefixMatches(b, i, prefix, n);
      if Elements(prefix) == [] && n.volume == b.volume && n.bucket == b.name {
        OneDigit(i, n.slot);
        assert Join(Elements(prefix)) == "";
      }
    }
    hide Proper, ClusterOk, SlotsOk;
    assert Hit(ring, c, b, prefix, i, n) ==> Stored(c, n);
    if Wanted(c, b, prefix, n) && n.slot == i {
      PrimaryHolds(ring, c, n);
    }
  }

  lemma PrimaryHolds(ring: Ring, c: Cluster, n: Name)
    requires RingOk(ring) && ClusterOk(ring, c) && Stored(c, n)
    ensures var pg := PgOf(ring, c, n); pg in c.primary && c.primary[pg] in c.nodes && HeldBy(c.nodes[c.primary[pg]], n)
  {
  }

  lemma {:induction false} TimesExact(ring: Ring, c: Cluster, b: Bucket, prefix: string, k: nat, n: Name)
    requires RingOk(ring) && ClusterOk(ring, c) && ValidBucket(b) && SlotsOk(c, b) && GoodPrefix(prefix)
    requires Unambiguous(b, prefix) && k <= b.slots
    ensures Times(ring, c, b, prefix, k, n) == if Wanted(c, b, prefix, n) && 1 <= n.slot <= k then 1 else 0
  {
    hide Hit, Wanted, ClusterOk, SlotsOk, GoodPrefix, Unambiguous;
    if k > 0 {
      TimesExact(ring, c, b, prefix, k - 1, n);
      HitExact(ring, c, b, prefix, k, n);
    }
  }

  /** The listing has every wanted object once and nothing else. */
  lemma ListingExact(ring: Ring, c: Cluster, b: Bucket, prefix: string, n: Name)
    requires RingOk(ring) && ClusterOk(ring, c) && ValidBucket(b) && SlotsOk(c, b) && GoodPrefix(prefix)
    requires Unambiguous(b, prefix)
    ensures Times(ring, c, b, prefix, b.slots, n) == if Wanted(c, b, prefix, n) then 1 else 0
  {
    TimesExact(ring, c, b, prefix, b.slots, n);
    hide Proper, GoodPrefix;
    if Wanted(c, b, prefix, n) {
      StoredProper(ring, c, n);
    }
  }

  lemma {:induction false} TimesGrows(ring: Ring, c: Cluster, b: Bucket, prefix: string, m: nat, k: nat, n: Name)
    requires m <= k
    ensures Times(ring, c, b, prefix, m, n) <= Times(ring, c, b, prefix, k, n)
  {
    if m < k {
      TimesGrows(ring, c, b, prefix, m, k - 1, n);
    }
  }

  /** A cluster of one node with one object. */
  function OneObject(n: Name): Cluster {
    Cluster(1, map[1 := 0], map[0 := map[1 := {n}]])
  }

  lemma OneObjectOk(ring: Ring, n: Name)
    requires RingOk(ring) && Proper(n)
    ensures ClusterOk(ring, OneObject(n)) && forall m :: Stored(OneObject(n), m) ==> m == n
  {
    hide Proper;
    var c := OneObject(n);
    assert forall id, slot :: GenSlotPgID(ring, id, slot, 1) == 1;
    assert 1 in c.nodes[0] && n in c.nodes[0][1] && HeldBy(c.nodes[0], n);
  }

  lemma OneObjectHit(ring: Ring, b: Bucket, prefix: string, i: nat, n: Name)
    requires RingOk(ring) && ValidBucket(b) && Proper(n)
    ensures Hit(ring, OneObject(n), b, prefix, i, n) <==> Matches(Sent(b, i, prefix), n)
  {
    hide Proper, ListPrefix, Sent, Matches, Itoa;
    PrefixMatches(b, i, prefix, n);
    var c := OneObject(n);
    assert GenSlotPgID(ring, BucketID(b), i, 1) == 1;
    assert 1 in c.nodes[0] && n in c.nodes[0][1] && HeldBy(c.nodes[0], n);
  }

  lemma KeyName(b: Bucket, slot: nat)
    requires ValidBucket(b) && slot >= 1
    ensures Proper(Name(b.volume, b.name, slot, "k"))
  {
    PlainPath(["k"]);
    assert Join(["k"]) == "k";
  }

  /** With ten slots and no prefix an object of slot 10 also answers for slot 1. */
  lemma ListingRepeats(ring: Ring, b: Bucket, prefix: string) returns (c: Cluster, n: Name)
    requires RingOk(ring) && ValidBucket(b) && GoodPrefix(prefix) && !Unambiguous(b, prefix)
    ensures ClusterOk(ring, c) && SlotsOk(c, b) && Times(ring, c, b, prefix, b.slots, n) >= 2
  {
    hide Hit, ClusterOk, GoodPrefix, Proper, Stored, Elements, Sent;
    n := Name(b.volume, b.name, 10, "k");
    c := OneObject(n);
    KeyName(b, 10);
    OneObjectOk(ring, n);
    assert Itoa(10) == "10" && Itoa(1) == "1";
    SentGood(b, 1, prefix);
    SentGood(b, 10, prefix);
    OneObjectHit(ring, b, prefix, 1, n);
    OneObjectHit(ring, b, prefix, 10, n);
    TimesGrows(ring, c, b, prefix, 1, 9, n);
    TimesGrows(ring, c, b, prefix, 10, b.slots, n);
  }

  // -- Prefixes from which ".." leads out ------------------------------------------------------------

  /** Some id that a client can generate starts with the parts; those of the bucket have its slots. */
  predicate Reachable(b: Bucket, q: seq<string>) {
    |q| <= 2 || (Numeral(q[2]) && (q[0] == b.volume && q[1] == b.name ==> Value(q[2]) <= b.slots))
  }

  /** Such an object. */
  function Reached(b: Bucket, q: seq<string>): Name
    requires Reachable(b, q)
  {
    if q == [] then Name(b.volume, b.name, 1, "k")
    else if |q| == 1 then Name(q[0], b.name, 1, "k")
    else if |q| == 2 then Name(q[0], q[1], 1, "k")
    else Name(q[0], q[1], Value(q[2]), if |q| == 3 then "k" else Join(q[3..]))
  }

  lemma ReachedIs(ring: Ring, b: Bucket, q: seq<string>)
    requires RingOk(ring) && ValidBucket(b) && AllPlain(q) && Reachable(b, q)
    ensures var n := Reached(b, q);
            && Proper(n) && Matches(q, n) && (n.volume == b.volume && n.bucket == b.name ==> n.slot <= b.slots)
            && ClusterOk(ring, OneObject(n)) && SlotsOk(OneObject(n), b) && Stored(OneObject(n), n)
  {
    var n := Reached(b, q);
    KeyOk();
    if |q| > 3 {
      PlainPath(q[3..]);
      NotDots(q[3..]);
    }
    if |q| >= 3 {
      NumeralIs(q[2]);
    }
    assert Proper(n) && Matches(q, n);
    hide Proper, Matches, ClusterOk, Value, GoodKey, CleanObjectKey, Join;
    OneObjectOk(ring, n);
    OneObjectStored(n);
    hide Stored;
  }

  lemma KeyOk()
    ensures GoodKey("k") && CleanObjectKey("k") == "k" && Join(["k"]) == "k"
  {
    PlainPath(["k"]);
    assert Join(["k"]) == "k";
  }

  lemma NotDots(parts: seq<string>)
    requires parts != [] && AllPlain(parts) && Elements(Join(parts)) == parts
    ensures GoodKey(Join(parts))
  {
    assert Plain(parts[0]);
  }

  lemma Unreachable(b: Bucket, q: seq<string>, n: Name)
    requires AllPlain(q) && !Reachable(b, q) && n.slot >= 1 && (n.volume == b.volume && n.bucket == b.name ==> n.slot <= b.slots)
    ensures !Matches(q, n)
  {
    assert Plain(q[2]);
    ItoaNumeral(n.slot);
    ItoaDigits(n.slot);
    if q[2] <= Itoa(n.slot) {
      NumeralPrefix(q[2], Itoa(n.slot));
    }
    hide Value, Itoa;
  }

  lemma PrefixMember(p: string, s: string, c: char)
    requires p <= s && c in p
    ensures c in s
  {
    var i :| 0 <= i < |p| && p[i] == c;
    assert s[i] == c;
  }

  /** A path that starts with "../" is not the start of a plain one. */
  lemma DotsNotPrefix(v: seq<string>, e: seq<string>)
    requires |v| >= 2 && Segments(v) && v[0] == ".." && e != [] && AllPlain(e)
    ensures !(Join(v) <= Join(e))
  {
    assert Plain(e[0]);
    if |e| == 1 {
      assert Join(v)[2] == '/';
      if Join(v) <= e[0] {
        PrefixMember(Join(v), e[0], '/');
      }
    } else {
      ElementMatch(v, e[0], Join(e[1..]));
      assert Join(e) == e[0] + "/" + Join(e[1..]);
    }
  }

  /** What a relative prefix reaches is not what it stands for. */
  lemma ReachedUnwanted(b: Bucket, prefix: string)
    requires !GoodPrefix(prefix) && !Rooted(prefix) && ValidBucket(b) && Reachable(b, Sent(b, 1, prefix))
    ensures !(Join(Elements(prefix)) <= Reached(b, Sent(b, 1, prefix)).key)
  {
    var v, q := Relative(prefix), Sent(b, 1, prefix);
    hide Relative, Sent, Elements, Join, Reached, Reachable;
    RelativeIs(prefix);
    ListPrefixIs(b, 1, prefix);
    DotsLead(v);
    ReachedKey(b, q);
    if |v| == 1 {
      TwoDots(v);
      SentBad(b, 1, prefix);
      assert |q| == 2;
    } else if |q| > 3 {
      DotsNotPrefix(v, q[3..]);
    } else {
      DotsNotPrefix(v, ["k"]);
    }
  }

  lemma ReachedKey(b: Bucket, q: seq<string>)
    requires Reachable(b, q)
    ensures Reached(b, q).key == Join(if |q| <= 3 then ["k"] else q[3..]) && AllPlain(["k"]) && Join(["k"]) == "k"
  {
    assert Join(["k"]) == "k";
  }

  lemma DotsLead(v: seq<string>)
    requires Dots(v) > 0
    ensures v != [] && v[0] == ".."
  {
  }

  lemma TwoDots(v: seq<string>)
    requires |v| == 1 && Dots(v) > 0
    ensures Dots(v) == 1 && v[1..] == [] && Join(v) == ".."
  {
  }

  /** Nothing is listed if what is sent reaches nothing. */
  lemma RelativeExact(ring: Ring, c: Cluster, b: Bucket, prefix: string, k: nat, n: Name)
    requires RingOk(ring) && ValidBucket(b) && ClusterOk(ring, c) && SlotsOk(c, b)
    requires !GoodPrefix(prefix) && !Reachable(b, Sent(b, 1, prefix))
    ensures Times(ring, c, b, prefix, k, n) == 0
  {
    hide ClusterOk, SlotsOk, Sent, ListPrefix, GoodPrefix, Reachable, Matches;
    if k > 0 {
      RelativeExact(ring, c, b, prefix, k - 1, n);
      assert Sent(b, k, prefix) == Sent(b, 1, prefix) by { SentBad(b, k, prefix); SentBad(b, 1, prefix); }
      ListPrefixIs(b, 1, prefix);
      if Stored(c, n) {
        StoredProper(ring, c, n);
        InBucket(c, b, n);
        Unreachable(b, Sent(b, 1, prefix), n);
        PrefixMatches(b, k, prefix, n);
      }
      assert Hit(ring, c, b, prefix, k, n) ==> Stored(c, n) by { hide Proper; }
    }
  }

  lemma InBucket(c: Cluster, b: Bucket, n: Name)
    requires SlotsOk(c, b) && Stored(c, n)
    ensures n.volume == b.volume && n.bucket == b.name ==> n.slot <= b.slots
  {
  }

  /** Nothing with a relative prefix is wanted, apart from the names that start with two dots. */
  lemma RelativeUnwanted(ring: Ring, c: Cluster, b: Bucket, prefix: string, n: Name)
    requires ClusterOk(ring, c) && ValidBucket(b) && !GoodPrefix(prefix) && !Rooted(prefix) && !Reachable(b, Sent(b, 1, prefix))
    ensures !Wanted(c, b, prefix, n)
  {
    var v := Relative(prefix);
    RelativeIs(prefix);
    SentBad(b, 1, prefix);
    hide Relative, ClusterOk, Elements;
    assert |v| >= 2;
    if Stored(c, n) {
      StoredProper(ring, c, n);
      hide Stored;
      GoodKeyClean(n.key);
      GoodKeyLength(n.key);
      DotsNotPrefix(v, Elements(n.key));
    }
  }

  /** An object that a prefix with a slash in front stands for. */
  function Meant(b: Bucket, prefix: string): Name {
    Name(b.volume, b.name, 1, if Elements(prefix) == [] then "k" else Join(Elements(prefix)))
  }

  /** And one that is listed if that is, for which the prefix does not stand. */
  function Beside(b: Bucket, q: seq<string>): Name {
    if |q| <= 2 then Name(b.volume, b.name + "x", 1, "k")
    else Name(b.volume, b.name, 1, if |q| == 3 then "k" else Join(q[3..]))
  }

  lemma MeantIs(b: Bucket, prefix: string)
    requires ValidBucket(b) && Rooted(prefix)
    ensures Proper(Meant(b, prefix)) && Join(Elements(prefix)) <= Meant(b, prefix).key
  {
    var e := Elements(prefix);
    ElementsCleaned(prefix);
    KeyOk();
    hide Elements;
    if e != [] {
      PlainPath(e);
      NotDots(e);
    }
  }

  lemma BesideIs(b: Bucket, q: seq<string>)
    requires ValidBucket(b) && AllPlain(q)
    ensures Proper(Beside(b, q)) && Beside(b, q).slot <= b.slots
  {
    KeyOk();
    assert '/' !in b.name + "x";
    assert (b.name + "x")[|b.name|] == 'x' && '.' in "." && '.' in "..";
    if |q| > 3 {
      PlainPath(q[3..]);
      NotDots(q[3..]);
    }
  }

  lemma {:induction false} JoinLonger(parts: seq<string>, j: nat)
    requires AllPlain(parts) && j < |parts|
    ensures |Join(parts[j..])| >= 1 && (j > 0 ==> |Join(parts[j..])| < |Join(parts)|)
  {
    assert Plain(parts[j]);
    if j > 0 {
      JoinLonger(parts, j - 1);
      assert parts[j - 1..][1..] == parts[j..];
      assert Plain(parts[j - 1]);
      assert parts[0..] == parts;
    }
  }

  /** A slash in front: the listing loses an object, or has one too many. */
  lemma BesideUnwanted(b: Bucket, prefix: string)
    requires ValidBucket(b) && Rooted(prefix) && !GoodPrefix(prefix)
    requires Matches(Sent(b, 1, prefix), Meant(b, prefix))
    ensures var q, n := Sent(b, 1, prefix), Beside(b, Sent(b, 1, prefix));
            Matches(q, n) && (n.bucket != b.name || !(Join(Elements(prefix)) <= n.key))
  {
    var q, e := Sent(b, 1, prefix), Elements(prefix);
    hide Elements, Sent, Itoa, Join;
    ListPrefixIs(b, 1, prefix);
    var j := SentRooted(b, prefix);
    if |q| == 3 {
      ThreeParts(q, j);
    } else if |q| > 3 {
      assert q[j..][3 - j..] == q[3..];
      JoinLonger(q[j..], 3 - j);
    }
  }

  /** What is sent ends with all elements of a prefix that begins with a slash. */
  lemma SentRooted(b: Bucket, prefix: string) returns (j: nat)
    requires Rooted(prefix) && !GoodPrefix(prefix)
    ensures j <= 2 && j <= |Sent(b, 1, prefix)| && Sent(b, 1, prefix)[j..] == Elements(prefix)
  {
    RelativeIs(prefix);
    SentBad(b, 1, prefix);
    hide Elements, Sent, Relative;
    var m := Dots(Relative(prefix));
    j := if m >= 3 then 0 else 3 - m;
    var front := if m >= 3 then [] else [b.volume, b.name][..3 - m];
    assert (front + Elements(prefix))[|front|..] == Elements(prefix);
  }

  lemma ThreeParts(q: seq<string>, j: nat)
    requires |q| == 3 && AllPlain(q) && j <= 2 && q[2] <= Itoa(1)
    ensures !(Join(q[j..]) <= "k")
  {
    assert Itoa(1) == "1" && Plain(q[2]);
    assert q[2] == "1";
    if j == 2 {
      assert q[j..] == [q[2]];
    } else {
      assert Plain(q[j]);
      assert |Join(q[j..])| > |q[j]| >= 1;
    }
  }

  lemma RootedInexact(ring: Ring, b: Bucket, prefix: string) returns (c: Cluster, n: Name)
    requires RingOk(ring) && ValidBucket(b) && Rooted(prefix) && !GoodPrefix(prefix)
    ensures ClusterOk(ring, c) && SlotsOk(c, b)
    ensures Times(ring, c, b, prefix, b.slots, n) != if Wanted(c, b, prefix, n) then 1 else 0
  {
    var q := Sent(b, 1, prefix);
    ListPrefixIs(b, 1, prefix);
    MeantIs(b, prefix);
    n := Meant(b, prefix);
    hide Proper, ClusterOk, Sent, Elements, Matches, Hit;
    if Matches(q, n) {
      BesideUnwanted(b, prefix);
      BesideIs(b, q);
      n := Beside(b, q);
      c := OneObject(n);
      OneObjectOk(ring, n);
      OneObjectHit(ring, b, prefix, 1, n);
      TimesGrows(ring, c, b, prefix, 1, b.slots, n);
    } else {
      c := OneObject(n);
      OneObjectOk(ring, n);
      OneObjectMissed(ring, b, prefix, b.slots, n);
      OneObjectStored(n);
    }
  }

  lemma OneObjectStored(n: Name)
    ensures Stored(OneObject(n), n)
  {
    var c := OneObject(n);
    assert 1 in c.nodes[0] && n in c.nodes[0][1] && HeldBy(c.nodes[0], n);
  }

  lemma {:induction false} OneObjectMissed(ring: Ring, b: Bucket, prefix: string, k: nat, n: Name)
    requires RingOk(ring) && ValidBucket(b) && Proper(n) && !GoodPrefix(prefix) && !Matches(Sent(b, 1, prefix), n)
    ensures Times(ring, OneObject(n), b, prefix, k, n) == 0
  {
    hide Proper, Hit, Sent, Matches, GoodPrefix;
    if k > 0 {
      OneObjectMissed(ring, b, prefix, k - 1, n);
      assert Sent(b, k, prefix) == Sent(b, 1, prefix) by { SentBad(b, k, prefix); SentBad(b, 1, prefix); }
      OneObjectHit(ring, b, prefix, k, n);
    }
  }

  lemma RelativeInexact(ring: Ring, b: Bucket, prefix: string) returns (c: Cluster, n: Name)
    requires RingOk(ring) && ValidBucket(b) && !Rooted(prefix) && !GoodPrefix(prefix) && Reachable(b, Sent(b, 1, prefix))
    ensures ClusterOk(ring, c) && SlotsOk(c, b) && !Wanted(c, b, prefix, n) && Times(ring, c, b, prefix, b.slots, n) >= 1
  {
    hide Proper, ClusterOk, SlotsOk, Sent, Elements, Matches, Hit, Reached, Reachable, Stored;
    ListPrefixIs(b, 1, prefix);
    ReachedIs(ring, b, Sent(b, 1, prefix));
    ReachedUnwanted(b, prefix);
    n := Reached(b, Sent(b, 1, prefix));
    c := OneObject(n);
    OneObjectHit(ring, b, prefix, 1, n);
    TimesGrows(ring, c, b, prefix, 1, b.slots, n);
  }

  /** From every bucket every object of every other bucket and volume can be listed. */
  lemma ListingEscapes(ring: Ring, b: Bucket, n: Name) returns (prefix: string)
    requires RingOk(ring) && ValidBucket(b) && Proper(n) && (n.volume != b.volume || n.bucket != b.name)
    ensures prefix == Join(["..", "..", "..", n.volume, n.bucket])
    ensures var c := OneObject(n);
            && ClusterOk(ring, c) && SlotsOk(c, b) && Stored(c, n) && !Wanted(c, b, prefix, n)
            && Times(ring, c, b, prefix, b.slots, n) >= 1
  {
    var parts := ["..", "..", "..", n.volume, n.bucket];
    prefix := Join(parts);
    ProperPlain(n);
    hide Proper, ClusterOk, Hit, Sent, Itoa, Elements, Join, Relative;
    ThreeUp(prefix, parts);
    ThreeDots(parts);
    SentBad(b, 1, prefix);
    assert parts[3..] == [n.volume, n.bucket] == Sent(b, 1, prefix);
    OneObjectOk(ring, n);
    OneObjectStored(n);
    OneObjectHit(ring, b, prefix, 1, n);
    TimesGrows(ring, OneObject(n), b, prefix, 1, b.slots, n);
  }

  lemma ThreeUp(prefix: string, parts: seq<string>)
    requires parts != [] && prefix == Join(parts) && Segments(parts) && Cleaned(parts, false)
    ensures Relative(prefix) == parts
  {
    SplitJoin(parts);
    NormalOfCleaned([], parts, false);
    assert [] + parts == parts;
  }

  lemma ThreeDots(parts: seq<string>)
    requires |parts| == 5 && parts[0] == parts[1] == parts[2] == ".." && parts[3] != ".."
    ensures Dots(parts) == 3
  {
    var p1 := parts[1..];
    var p2 := p1[1..];
    var p3 := p2[1..];
    assert p1[0] == ".." && p2[0] == ".." && p3[0] == parts[3];
    assert Dots(p3) == 0 && Dots(p2) == 1 && Dots(p1) == 2;
  }

  // -- The condition -----------------------------------------------------------------------------------

  /**
   * When a listing is exact: no slot number starts with another one or the prefix goes beyond
   * the slot; or ".." leads out of a prefix without a slash in front, to a place where the third
   * part is not the number of a slot.
   */
  predicate ExactCondition(b: Bucket, prefix: string) {
    if GoodPrefix(prefix) then Unambiguous(b, prefix) else !Rooted(prefix) && !Reachable(b, Sent(b, 1, prefix))
  }

  /** The listing is exact on every cluster if and only if the condition holds, for every prefix. */
  lemma ListingExactIff(ring: Ring, b: Bucket, prefix: string)
    requires RingOk(ring) && ValidBucket(b)
    ensures ExactCondition(b, prefix) <==>
            forall c, n :: ClusterOk(ring, c) && SlotsOk(c, b) ==>
              Times(ring, c, b, prefix, b.slots, n) == if Wanted(c, b, prefix, n) then 1 else 0
  {
    hide ClusterOk, SlotsOk, GoodPrefix, Wanted, Times, Unambiguous, Reachable, Sent;
    if ExactCondition(b, prefix) {
      forall c, n | ClusterOk(ring, c) && SlotsOk(c, b)
        ensures Times(ring, c, b, prefix, b.slots, n) == if Wanted(c, b, prefix, n) then 1 else 0
      {
        if GoodPrefix(prefix) {
          ListingExact(ring, c, b, prefix, n);
        } else {
          RelativeExact(ring, c, b, prefix, b.slots, n);
          RelativeUnwanted(ring, c, b, prefix, n);
        }
      }
    } else if GoodPrefix(prefix) {
      var c, n := ListingRepeats(ring, b, prefix);
    } else if Rooted(prefix) {
      var c, n := RootedInexact(ring, b, prefix);
    } else {
      var c, n := RelativeInexact(ring, b, prefix);
    }
  }
}
