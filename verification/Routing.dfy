/**
 * Object ids, slots and placement groups, as the client computes them from a bucket and a key and
 * as the server recomputes them from the object id. The hash ring is any function into 1..n.
 */
module Routing {
  import opened Basics
  import opened Decimal
  import opened Strings
  import opened ObjectPath

  type Ring = (int, string) -> int

  ghost predicate RingOk(ring: Ring) {
    forall n, s :: n >= 1 ==> 1 <= ring(n, s) <= n
  }

  datatype Bucket = Bucket(volume: string, name: string, slots: int)

  predicate ValidBucket(b: Bucket) {
    Plain(b.volume) && Plain(b.name) && 1 <= b.slots < TWO_31
  }

  // -- The functions of package object -----------------------------------------------------------

  function TrimPrefix(s: string): string {
    if Rooted(s) then s[1..] else s
  }

  /** strings.Trim(s, "/"). */
  function TrimSlashes(s: string): string {
    if s == "" then s
    else if s[0] == '/' then TrimSlashes(s[1..])
    else if s[|s| - 1] == '/' then TrimSlashes(s[..|s| - 1])
    else s
  }

  function CleanObjectKey(key: string): string {
    TrimPrefix(Clean(key))
  }

  /** string(slot), which is the character with that code and not the number in decimal. */
  function RuneString(slot: int): string {
    if IsRune(slot) then [slot as char] else ['\U{FFFD}']
  }

  predicate IsRune(n: int) {
    0 <= n < 0xD800 || 0xE000 <= n < 0x11_0000
  }

  function CalculateSlot(ring: Ring, key: string, slotNum: int): int {
    ring(slotNum, CleanObjectKey(key))
  }

  function GenBucketID(volume: string, name: string): string {
    JoinPath(["/", volume, name])
  }

  function BucketID(b: Bucket): string {
    GenBucketID(b.volume, b.name)
  }

  function GenSlotPgID(ring: Ring, bucketID: string, slot: int, pgNum: int): int {
    ring(pgNum, bucketID + "/" + RuneString(slot))
  }

  function GenObjPgID(ring: Ring, b: Bucket, key: string, pgNum: int): int {
    GenSlotPgID(ring, BucketID(b), CalculateSlot(ring, CleanObjectKey(key), b.slots), pgNum)
  }

  /** FormatInt, also for the numbers that no slot has. */
  function FormatInt(n: int): string {
    if n >= 0 then Itoa(n) else "-" + Itoa(-n)
  }

  function GenObjectId(ring: Ring, b: Bucket, key: string): string {
    var k := TrimSlashes(Clean(key));
    var slot := CalculateSlot(ring, k, b.slots);
    CleanObjectKey(JoinPath([BucketID(b), FormatInt(slot), k]))
  }

  datatype SplitResult = Names(volume: string, bucketID: string, key: string, slot: int32) | SplitError

  /** strings.SplitN(s, "/", n): the last part is what remains. */
  function SplitN(s: string, n: nat): seq<string>
    requires n > 0
  {
    var parts := Split(s);
    if |parts| <= n then parts else parts[..n - 1] + [Join(parts[n - 1..])]
  }

  function SplitID(objectID: string): SplitResult {
    var split := SplitN(CleanObjectKey(objectID), 4);
    if |split| != 4 then SplitError
    else
      var slot := ParseInt(split[2]);
      if slot.None? then SplitError
      else Names(split[0], GenBucketID(split[0], split[1]), TrimPrefix(split[3]), ToInt32(slot.value))
  }

  /** calculateObjectPGID: 0 stands for an id that cannot be split or an unknown bucket. */
  function CalculateObjectPGID(ring: Ring, infos: map<string, Bucket>, objectID: string, pgNum: int): int {
    match SplitID(objectID)
    case SplitError => 0
    case Names(_, bucketID, key, _) => if bucketID in infos then GenObjPgID(ring, infos[bucketID], key, pgNum) else 0
  }

  /** checkObject accepts the metadata and gives the id under which they are recorded. */
  function CheckObject(ring: Ring, infos: map<string, Bucket>, objID: string, pgID: int, pgNum: int): Option<string> {
    var id := CleanObjectKey(objID);
    if CalculateObjectPGID(ring, infos, id, pgNum) == pgID then Some(id) else None
  }

  // -- Cleaned keys --------------------------------------------------------------------------------

  /** The cleaned key is not empty, not "." and does not start with "..". */
  predicate GoodKey(key: string) {
    var e := Elements(key);
    e != [] && e[0] != ".."
  }

  lemma {:induction false} DotsFirst(parts: seq<string>, rooted: bool, i: nat)
    requires Cleaned(parts, rooted) && i < |parts| && parts[i] == ".."
    ensures parts[0] == ".."
  {
    if i > 0 {
      DotsFirst(parts, rooted, i - 1);
    }
  }

  lemma GoodKeyPlain(key: string)
    requires GoodKey(key)
    ensures AllPlain(Elements(key))
  {
    ElementsCleaned(key);
    var e := Elements(key);
    forall i | 0 <= i < |e| ensures Plain(e[i]) {
      if e[i] == ".." {
        DotsFirst(e, Rooted(key), i);
      }
    }
  }

  lemma CleanObjectKeyIs(key: string)
    ensures CleanObjectKey(key) == if Elements(key) == [] && !Rooted(key) then "." else Join(Elements(key))
  {
    var e := Elements(key);
    ElementsCleaned(key);
    if Rooted(key) {
      assert Clean(key)[1..] == Join(e);
    } else if e != [] {
      JoinFirst(e);
    }
  }

  /** A path made of plain elements is cleaned already. */
  lemma PlainPath(parts: seq<string>)
    requires parts != [] && AllPlain(parts)
    ensures !Rooted(Join(parts)) && Elements(Join(parts)) == parts && Split(Join(parts)) == parts
    ensures CleanObjectKey(Join(parts)) == Join(parts) && TrimPrefix(Join(parts)) == Join(parts)
  {
    ElementsOfRender(parts, false);
    CleanObjectKeyIs(Join(parts));
    SplitJoin(parts);
  }

  lemma GoodKeyClean(key: string)
    requires GoodKey(key)
    ensures CleanObjectKey(key) == Join(Elements(key)) && AllPlain(Elements(key)) && GoodKey(CleanObjectKey(key))
    ensures CleanObjectKey(CleanObjectKey(key)) == CleanObjectKey(key)
  {
    GoodKeyPlain(key);
    CleanObjectKeyIs(key);
    PlainPath(Elements(key));
  }

  /** A leading slash makes no difference exactly for good keys and for keys that have one. */
  lemma LeadingSlash(key: string)
    ensures CleanObjectKey("/" + key) == CleanObjectKey(key) <==> GoodKey(key) || Rooted(key)
  {
    var k, e := "/" + key, Elements(key);
    SplitFirst("", key);
    assert k == "" + "/" + key && ([""] + Split(key))[1..] == Split(key);
    ElementsCleaned(k);
    CleanObjectKeyIs(key);
    CleanObjectKeyIs(k);
    if GoodKey(key) {
      GoodKeyPlain(key);
      RootedNormal(Split(key), Rooted(key));
    } else if !Rooted(key) && e != [] {
      ElementsCleaned(key);
      DotsDiffer(e, Elements(k));
    }
  }

  lemma DotsDiffer(dots: seq<string>, plain: seq<string>)
    requires dots != [] && Segments(dots) && dots[0] == ".." && AllPlain(plain)
    ensures Join(dots) != Join(plain)
  {
    SplitJoin(dots);
    if plain != [] {
      SplitJoin(plain);
    }
  }

  /** A path whose elements are plain is read the same from the root. */
  lemma RootedNormal(parts: seq<string>, rooted: bool)
    requires Segments(parts) && AllPlain(Normal([], parts, rooted)) && Normal([], parts, rooted) != []
    ensures Normal([], parts, true) == Normal([], parts, rooted)
  {
    if !rooted {
      NoDotsLeft([], parts);
    }
  }

  /** ".." that does not find an element stays for good in a path that is not rooted. */
  lemma {:induction false} NoDotsLeft(stack: seq<string>, parts: seq<string>)
    requires AllPlain(stack) && AllPlain(Normal(stack, parts, false)) && Segments(parts)
    ensures Normal(stack, parts, true) == Normal(stack, parts, false)
    decreases parts
  {
    if parts != [] {
      var next := Push(stack, parts[0], false);
      if AllPlain(next) {
        NoDotsLeft(next, parts[1..]);
      } else {
        assert next == [".."];
        DotsStay(next, parts[1..]);
      }
    }
  }

  lemma {:induction false} DotsStay(stack: seq<string>, parts: seq<string>)
    requires stack != [] && stack[0] == ".."
    ensures Normal(stack, parts, false) != [] && Normal(stack, parts, false)[0] == ".."
    decreases parts
  {
    if parts != [] {
      DotsStay(Push(stack, parts[0], false), parts[1..]);
    }
  }

  // -- Object ids ------------------------------------------------------------------------------------

  /** What follows a slash is added to the elements before it. */
  lemma ElementsAppend(p: string, t: string)
    requires Rooted(p)
    ensures Rooted(p + "/" + t) && Elements(p + "/" + t) == Normal(Elements(p), Split(t), true)
  {
    SplitConcat(p, t);
    NormalConcat([], Split(p), Split(t), true);
  }

  lemma ElementsAppendName(p: string, name: string)
    requires Rooted(p) && Plain(name)
    ensures Rooted(p + "/" + name) && Elements(p + "/" + name) == Elements(p) + [name]
  {
    ElementsAppend(p, name);
    SplitSegment(name);
    NormalPlain(Elements(p), [name], true);
  }

  lemma BucketIDIs(b: Bucket)
    requires ValidBucket(b)
    ensures BucketID(b) == "/" + Join([b.volume, b.name])
    ensures Rooted(BucketID(b)) && Elements(BucketID(b)) == [b.volume, b.name]
  {
    var v, n := b.volume, b.name;
    JoinThree("/", v, n);
    ElementsOfRender([], true);
    assert Render([], true) == "/";
    ElementsAppendName("/", v);
    ElementsAppendName("/" + "/" + v, n);
    assert [] + [v] + [n] == [v, n];
    ElementsOfRender([v, n], true);
  }

  lemma JoinThree(a: string, b: string, c: string)
    ensures Join([a, b, c]) == a + "/" + b + "/" + c
  {
    assert [a, b, c][1..] == [b, c] && [b, c][1..] == [c];
    assert Join([b, c]) == b + "/" + c;
  }

  lemma PlainNumber(n: nat)
    ensures Plain(Itoa(n))
  {
    ItoaDigits(n);
    assert forall c :: c in Itoa(n) ==> IsDigit(c);
    assert '.' in "." && '.' in "..";
  }

  lemma {:induction false} TrimPlain(s: string)
    requires s == "" || (s[0] != '/' && s[|s| - 1] != '/')
    ensures TrimSlashes(s) == s
  {
  }

  /** Trimming slashes on both sides and dropping the leading one are the same on a cleaned path. */
  lemma TrimIsTrimPrefix(key: string)
    ensures TrimSlashes(Clean(key)) == CleanObjectKey(key)
  {
    ElementsCleaned(key);
    CleanObjectKeyIs(key);
    var e := Elements(key);
    if e != [] {
      JoinFirst(e);
      LastChar(e);
      TrimPlain(Join(e));
    }
    if Rooted(key) {
      assert Clean(key)[1..] == Join(e);
    }
  }

  lemma {:induction false} LastChar(parts: seq<string>)
    requires parts != [] && forall i :: 0 <= i < |parts| ==> parts[i] != "" && NoSlash(parts[i])
    ensures Join(parts) != "" && Join(parts)[|Join(parts)| - 1] != '/'
  {
    if |parts| > 1 {
      LastChar(parts[1..]);
    }
  }

  /** The elements of the object id; ".." at the start of the key removes what stands before it. */
  function IdParts(ring: Ring, b: Bucket, key: string): seq<string> {
    var k := CleanObjectKey(key);
    Normal([b.volume, b.name, FormatInt(CalculateSlot(ring, k, b.slots))], Split(k), true)
  }

  lemma ObjectIdIs(ring: Ring, b: Bucket, key: string)
    requires RingOk(ring) && ValidBucket(b)
    ensures GenObjectId(ring, b, key) == Join(IdParts(ring, b, key)) && AllPlain(IdParts(ring, b, key))
  {
    var k := CleanObjectKey(key);
    var slot := CalculateSlot(ring, k, b.slots);
    TrimIsTrimPrefix(key);
    hide Clean, CleanObjectKey, Itoa, BucketID, JoinPath, Join, TrimSlashes;
    PlainNumber(slot);
    UnderBucket(b, Itoa(slot), k);
  }

  /** A path of the bucket is bucket, name and what follows, from which leading ".." remove. */
  lemma UnderBucket(b: Bucket, name: string, rest: string)
    requires ValidBucket(b) && Plain(name)
    ensures var parts := Normal([b.volume, b.name, name], Split(rest), true);
            CleanObjectKey(JoinPath([BucketID(b), name, rest])) == Join(parts) && AllPlain(parts)
  {
    var id := BucketID(b);
    BucketIDIs(b);
    hide BucketID, Join, Normal;
    JoinThree(id, name, rest);
    ElementsAppendName(id, name);
    ElementsAppend(id + "/" + name, rest);
    assert [b.volume, b.name] + [name] == [b.volume, b.name, name];
    NormalCleans([b.volume, b.name, name], Split(rest), true);
    RootedClean(Join([id, name, rest]));
  }

  lemma RootedClean(p: string)
    requires Rooted(p)
    ensures CleanObjectKey(Clean(p)) == Join(Elements(p))
  {
    CleanIdempotent(p);
    hide Elements, Join;
    assert Clean(p)[1..] == Join(Elements(p));
  }

  /** Splitting an id made of plain elements. */
  lemma SplitIDIs(parts: seq<string>)
    requires AllPlain(parts)
    ensures |parts| < 4 || ParseInt(parts[2]).None? ==> SplitID(Join(parts)) == SplitError
    ensures |parts| >= 4 && ParseInt(parts[2]).Some? ==>
              SplitID(Join(parts)) == Names(parts[0], GenBucketID(parts[0], parts[1]), Join(parts[3..]), ToInt32(ParseInt(parts[2]).value))
  {
    if parts == [] {
      SplitSegment("");
      SplitSegment(".");
      assert CleanObjectKey("") == ".";
    } else {
      PlainPath(parts);
      if |parts| >= 4 {
        PlainPath(parts[3..]);
        assert |parts| == 4 ==> Join(parts[3..]) == parts[3];
      }
    }
  }

  lemma GoodKeyParts(ring: Ring, b: Bucket, key: string)
    requires RingOk(ring) && ValidBucket(b) && GoodKey(key)
    ensures IdParts(ring, b, key) == [b.volume, b.name, Itoa(CalculateSlot(ring, key, b.slots))] + Elements(key)
  {
    GoodKeyClean(key);
    PlainPath(Elements(key));
    NormalPlain([b.volume, b.name, Itoa(CalculateSlot(ring, key, b.slots))], Elements(key), true);
  }

  predicate SplitInverts(ring: Ring, b: Bucket, key: string)
    requires ValidBucket(b)
  {
    var slot := CalculateSlot(ring, key, b.slots);
    && -TWO_31 <= slot < TWO_31
    && SplitID(GenObjectId(ring, b, key)) == Names(b.volume, BucketID(b), CleanObjectKey(key), slot)
  }

  lemma GoodKeySplits(ring: Ring, b: Bucket, key: string)
    requires RingOk(ring) && ValidBucket(b) && GoodKey(key)
    ensures SplitInverts(ring, b, key)
  {
    hide SplitID, GenObjectId, GenBucketID, Join, IdParts, Elements, CleanObjectKey, ParseInt, Itoa, GoodKey;
    var parts, slot := IdParts(ring, b, key), CalculateSlot(ring, key, b.slots);
    ObjectIdIs(ring, b, key);
    SplitIDIs(parts);
    GoodKeyParts(ring, b, key);
    GoodKeyClean(key);
    GoodKeyLength(key);
    ParseItoa(slot);
    assert parts[3..] == Elements(key) && parts[2] == Itoa(slot);
  }

  lemma GoodKeyLength(key: string)
    requires GoodKey(key)
    ensures |Elements(key)| >= 1
  {
  }

  lemma BadKeyParts(ring: Ring, b: Bucket, key: string)
    requires RingOk(ring) && ValidBucket(b) && !GoodKey(key)
    ensures |IdParts(ring, b, key)| >= 4 ==> Join(IdParts(ring, b, key)[3..]) != CleanObjectKey(key)
  {
    var e := Elements(key);
    if e == [] {
      EmptyKeyParts(ring, b, key);
    } else if |IdParts(ring, b, key)| >= 4 {
      ObjectIdIs(ring, b, key);
      CleanObjectKeyIs(key);
      ElementsCleaned(key);
      DotsDiffer(e, IdParts(ring, b, key)[3..]);
    }
  }

  /** SplitID inverts GenObjectId exactly for the good keys. */
  lemma SplitInvertsGen(ring: Ring, b: Bucket, key: string)
    requires RingOk(ring) && ValidBucket(b)
    ensures SplitInverts(ring, b, key) <==> GoodKey(key)
  {
    if GoodKey(key) {
      GoodKeySplits(ring, b, key);
    } else {
      ObjectIdIs(ring, b, key);
      SplitIDIs(IdParts(ring, b, key));
      BadKeyParts(ring, b, key);
      hide SplitID, GenObjectId, GenBucketID, Join, IdParts, Elements, CleanObjectKey, ParseInt;
    }
  }

  lemma EmptyKeyParts(ring: Ring, b: Bucket, key: string)
    requires Elements(key) == []
    ensures |IdParts(ring, b, key)| == 3
  {
    CleanObjectKeyIs(key);
    SplitSegment("");
    SplitSegment(".");
  }

  // -- Agreement of client and server ------------------------------------------------------------

  /** The group that the server computes from the object id. */
  lemma ServerGroup(ring: Ring, infos: map<string, Bucket>, b: Bucket, key: string, pgNum: int)
    requires RingOk(ring) && ValidBucket(b) && GoodKey(key) && BucketID(b) in infos && infos[BucketID(b)] == b
    ensures var id := GenObjectId(ring, b, key);
            CleanObjectKey(id) == id && CalculateObjectPGID(ring, infos, id, pgNum) == GenObjPgID(ring, b, key, pgNum)
  {
    ObjectIdIs(ring, b, key);
    GoodKeyParts(ring, b, key);
    PlainPath(IdParts(ring, b, key));
    SplitInvertsGen(ring, b, key);
    GoodKeyClean(key);
    hide GenObjectId, SplitID, CleanObjectKey, IdParts, GenSlotPgID;
  }

  /**
   * For every good key the server accepts the client's metadata under the id that the client sent,
   * on every ring, if and only if both use the same number of placement groups.
   */
  lemma RoutingAgreement(infos: map<string, Bucket>, b: Bucket, key: string, clientPgNum: int, serverPgNum: int)
    requires ValidBucket(b) && GoodKey(key) && BucketID(b) in infos && infos[BucketID(b)] == b
    requires clientPgNum >= 1 && serverPgNum >= 1
    ensures (forall ring :: RingOk(ring) ==> Accepted(ring, infos, b, key, clientPgNum, serverPgNum)) <==> clientPgNum == serverPgNum
  {
    forall ring | RingOk(ring)
      ensures Accepted(ring, infos, b, key, clientPgNum, serverPgNum)
         <==> GenObjPgID(ring, b, key, clientPgNum) == GenObjPgID(ring, b, key, serverPgNum)
    {
      ServerGroup(ring, infos, b, key, serverPgNum);
    }
    var last: Ring := (n: int, s: string) => n;
    assert RingOk(last);
    assert GenObjPgID(last, b, key, clientPgNum) == clientPgNum && GenObjPgID(last, b, key, serverPgNum) == serverPgNum;
  }

  ghost predicate Accepted(ring: Ring, infos: map<string, Bucket>, b: Bucket, key: string, clientPgNum: int, serverPgNum: int) {
    var id := GenObjectId(ring, b, key);
    CheckObject(ring, infos, id, GenObjPgID(ring, b, key, clientPgNum), serverPgNum) == Some(id)
  }

  // -- What slots and placement groups depend on ---------------------------------------------------

  /** A ring of two places: s is at the second one, and everything else at the first. */
  function Second(s: string): Ring {
    (n: int, t: string) => if n >= 2 && t == s then 2 else 1
  }

  /** The same with two strings at the second place. */
  function Seconds(s: string, s': string): Ring {
    (n: int, t: string) => if n >= 2 && (t == s || t == s') then 2 else 1
  }

  /** What is hashed for a slot tells bucket and character apart. */
  lemma HashedDiffer(id: string, i: int, id': string, j: int)
    ensures id + "/" + RuneString(i) == id' + "/" + RuneString(j) <==> id == id' && RuneString(i) == RuneString(j)
  {
    var s, t := id + "/" + RuneString(i), id' + "/" + RuneString(j);
    assert s[..|s| - 2] == id && t[..|t| - 2] == id' && s[|s| - 1..] == RuneString(i) && t[|t| - 1..] == RuneString(j);
  }

  /** Two numbers are the same character, or neither is one. */
  predicate SameRune(i: int, j: int) {
    (if IsRune(i) then i else 0xFFFD) == (if IsRune(j) then j else 0xFFFD)
  }

  /**
   * Two slots have the same placement group on every ring exactly if they are slots of the same
   * bucket with the same character, or there is only one group.
   */
  lemma SlotsOnRing(id: string, i: int, id': string, j: int, pgNum: int)
    requires pgNum >= 1
    ensures (forall ring :: RingOk(ring) ==> GenSlotPgID(ring, id, i, pgNum) == GenSlotPgID(ring, id', j, pgNum))
       <==> pgNum == 1 || (id == id' && SameRune(i, j))
    ensures 0 <= i < 0xD800 ==> forall ring: Ring :: GenSlotPgID(ring, id, i, pgNum) == ring(pgNum, id + "/" + [i as char])
  {
    HashedDiffer(id, i, id', j);
    if pgNum >= 2 && !(id == id' && SameRune(i, j)) {
      var ring := Second(id' + "/" + RuneString(j));
      assert RingOk(ring);
      assert GenSlotPgID(ring, id', j, pgNum) == 2 && GenSlotPgID(ring, id, i, pgNum) == 1;
    }
  }

  /** Two keys are in the same slot on every ring exactly if they are the same key, or there is only one slot. */
  lemma KeysOnRing(key: string, key': string, slotNum: int)
    requires slotNum >= 1
    ensures (forall ring :: RingOk(ring) ==> CalculateSlot(ring, key, slotNum) == CalculateSlot(ring, key', slotNum))
       <==> slotNum == 1 || CleanObjectKey(key) == CleanObjectKey(key')
  {
    if slotNum >= 2 && CleanObjectKey(key) != CleanObjectKey(key') {
      var ring := Second(CleanObjectKey(key'));
      assert RingOk(ring);
      assert CalculateSlot(ring, key', slotNum) == 2 && CalculateSlot(ring, key, slotNum) == 1;
    }
  }

  lemma CleanedNotRooted(key: string)
    ensures !Rooted(CleanObjectKey(key))
  {
    CleanObjectKeyIs(key);
    ElementsCleaned(key);
    if Elements(key) != [] {
      JoinFirst(Elements(key));
    }
  }

  /** The string that the slot of an object is computed from. */
  function HashedKey(key: string): string {
    CleanObjectKey(CleanObjectKey(key))
  }

  /**
   * Two objects of a bucket are in the same placement group on every ring exactly if their keys
   * are the same after both cleanings, or there is only one slot or group.
   */
  lemma ObjectsOnRing(b: Bucket, key: string, key': string, pgNum: int)
    requires ValidBucket(b) && pgNum >= 1
    ensures (forall ring :: RingOk(ring) ==> GenObjPgID(ring, b, key, pgNum) == GenObjPgID(ring, b, key', pgNum))
       <==> pgNum == 1 || b.slots == 1 || HashedKey(key) == HashedKey(key')
  {
    if pgNum >= 2 && b.slots >= 2 && HashedKey(key) != HashedKey(key') {
      hide GenObjPgID, HashedKey;
      var ring := ObjectsApart(b, key, key', pgNum);
    } else {
      hide GenObjPgID, HashedKey;
      forall ring | RingOk(ring) ensures GenObjPgID(ring, b, key, pgNum) == GenObjPgID(ring, b, key', pgNum) {
        ObjectsTogether(ring, b, key, key', pgNum);
      }
    }
  }

  lemma ObjectsTogether(ring: Ring, b: Bucket, key: string, key': string, pgNum: int)
    requires RingOk(ring) && (pgNum == 1 || b.slots == 1 || HashedKey(key) == HashedKey(key'))
    ensures GenObjPgID(ring, b, key, pgNum) == GenObjPgID(ring, b, key', pgNum)
  {
    hide GenObjPgID, HashedKey, RingOk, BucketID, RuneString;
    var slot, slot' := ring(b.slots, HashedKey(key)), ring(b.slots, HashedKey(key'));
    GroupOf(ring, b, key, pgNum, slot);
    GroupOf(ring, b, key', pgNum, slot');
    if pgNum == 1 {
      OnePlace(ring, BucketID(b) + "/" + RuneString(slot));
      OnePlace(ring, BucketID(b) + "/" + RuneString(slot'));
    } else if b.slots == 1 {
      OnePlace(ring, HashedKey(key));
      OnePlace(ring, HashedKey(key'));
    }
  }

  lemma OnePlace(ring: Ring, s: string)
    requires RingOk(ring)
    ensures ring(1, s) == 1
  {
  }

  lemma ObjectsApart(b: Bucket, key: string, key': string, pgNum: int) returns (ring: Ring)
    requires ValidBucket(b) && pgNum >= 2 && b.slots >= 2 && HashedKey(key) != HashedKey(key')
    ensures RingOk(ring) && GenObjPgID(ring, b, key, pgNum) == 1 && GenObjPgID(ring, b, key', pgNum) == 2
  {
    var id := BucketID(b);
    var first, second := id + "/" + RuneString(1), id + "/" + RuneString(2);
    ring := Seconds(HashedKey(key'), second);
    BucketStringsRooted(b, 1);
    BucketStringsRooted(b, 2);
    CleanedNotRooted(CleanObjectKey(key));
    CleanedNotRooted(CleanObjectKey(key'));
    HashedDiffer(id, 1, id, 2);
    var hashed, hashed' := HashedKey(key), HashedKey(key');
    assert !Rooted(hashed) && !Rooted(hashed');
    assert RuneString(1) != RuneString(2);
    hide CleanObjectKey, HashedKey, BucketID, RuneString, GenObjPgID;
    assert ring(b.slots, hashed) == 1 && ring(b.slots, hashed') == 2;
    GroupOf(ring, b, key, pgNum, 1);
    GroupOf(ring, b, key', pgNum, 2);
  }

  lemma BucketStringsRooted(b: Bucket, slot: int)
    requires ValidBucket(b)
    ensures Rooted(BucketID(b) + "/" + RuneString(slot))
  {
    BucketIDIs(b);
  }

  lemma GroupOf(ring: Ring, b: Bucket, key: string, pgNum: int, slot: int)
    requires ring(b.slots, HashedKey(key)) == slot
    ensures GenObjPgID(ring, b, key, pgNum) == ring(pgNum, BucketID(b) + "/" + RuneString(slot))
  {
    hide CleanObjectKey, BucketID, RuneString;
  }

  lemma BucketIDsDiffer(b: Bucket, b': Bucket)
    requires ValidBucket(b) && ValidBucket(b') && (b.volume != b'.volume || b.name != b'.name)
    ensures BucketID(b) != BucketID(b')
  {
    BucketIDIs(b);
    BucketIDIs(b');
    hide BucketID, Elements;
    assert [b.volume, b.name] != [b'.volume, b'.name] by {
      assert [b.volume, b.name][0] == b.volume && [b.volume, b.name][1] == b.name;
    }
  }

  /** Objects of different buckets are in the same group on every ring only if there is only one group. */
  lemma BucketsOnRing(b: Bucket, key: string, b': Bucket, key': string, pgNum: int)
    requires ValidBucket(b) && ValidBucket(b') && pgNum >= 1 && (b.volume != b'.volume || b.name != b'.name)
    ensures (forall ring :: RingOk(ring) ==> GenObjPgID(ring, b, key, pgNum) == GenObjPgID(ring, b', key', pgNum))
       <==> pgNum == 1
  {
    if pgNum >= 2 {
      var second := BucketID(b') + "/" + RuneString(1);
      BucketIDsDiffer(b, b');
      BucketStringsRooted(b', 1);
      CleanedNotRooted(CleanObjectKey(key));
      CleanedNotRooted(CleanObjectKey(key'));
      HashedDiffer(BucketID(b), 1, BucketID(b'), 1);
      hide CleanObjectKey, BucketID, RuneString;
      var ring := Second(second);
      assert RingOk(ring);
      GroupOf(ring, b, key, pgNum, 1);
      GroupOf(ring, b', key', pgNum, 1);
    }
  }

  /** The cleaned key of a good key is hashed as it is. */
  lemma HashedGoodKey(key: string)
    requires GoodKey(key)
    ensures HashedKey(key) == CleanObjectKey(key) == Join(Elements(key))
  {
    GoodKeyClean(key);
  }

  /** A key that cleans to nothing is rejected by every server. */
  lemma EmptyKeyRejected(ring: Ring, infos: map<string, Bucket>, b: Bucket, key: string, clientPgNum: int, serverPgNum: int)
    requires RingOk(ring) && ValidBucket(b) && Elements(key) == [] && clientPgNum >= 1
    ensures CheckObject(ring, infos, GenObjectId(ring, b, key), GenObjPgID(ring, b, key, clientPgNum), serverPgNum) == None
  {
    var parts := IdParts(ring, b, key);
    ObjectIdIs(ring, b, key);
    EmptyKeyParts(ring, b, key);
    PlainPath(parts);
    SplitIDIs(parts);
    hide GenObjectId, SplitID, CleanObjectKey, IdParts;
  }

  /** Different objects have different ids. */
  lemma IdsDetermine(ring: Ring, b: Bucket, key: string, b': Bucket, key': string)
    requires RingOk(ring) && ValidBucket(b) && ValidBucket(b') && GoodKey(key) && GoodKey(key')
    requires GenObjectId(ring, b, key) == GenObjectId(ring, b', key')
    ensures b.volume == b'.volume && b.name == b'.name && CleanObjectKey(key) == CleanObjectKey(key')
  {
    GoodKeySplits(ring, b, key);
    GoodKeySplits(ring, b', key');
    BucketIDIs(b);
    BucketIDIs(b');
    hide GenObjectId, SplitID, CleanObjectKey, Elements;
    assert Elements(BucketID(b))[1] == Elements(BucketID(b'))[1];
  }
}
