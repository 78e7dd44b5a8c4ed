/**
 * Messages as sequences of fields on the wire, with the tags written out: what the decoder makes
 * of them, field by field, and which bytes it keeps because it does not know the field.
 */
module PipelineWire {
  import opened Basics
  import opened Varint
  import opened PipelineCodec

  // -- Fields that Pipeline does not have ------------------------------------------------------------

  /** A field of any wire type. The end tag of a group may have any number: it is not compared. */
  datatype Unknown =
    | AnyVarint(number: nat, bytes: seq<byte>)
    | Fixed64(number: nat, bytes: seq<byte>)
    | Delimited(number: nat, bytes: seq<byte>)
    | Group(number: nat, inner: Unknowns, end: nat)
    | Fixed32(number: nat, bytes: seq<byte>)

  datatype Unknowns = NoMore | More(first: Unknown, rest: Unknowns)

  /** Any varint: up to ten bytes, all but the last with the top bit set, not only the shortest form. */
  predicate IsVarint(bytes: seq<byte>) {
    && 1 <= |bytes| <= 10 && bytes[|bytes| - 1] < 128
    && forall i :: 0 <= i < |bytes| - 1 ==> bytes[i] >= 128
  }

  predicate WellFormed(u: Unknown) {
    && u.number < TWO_31
    && match u
       case AnyVarint(_, bytes) => IsVarint(bytes)
       case Fixed64(_, bytes) => |bytes| == 8
       case Delimited(_, _) => true
       case Group(_, inner, end) => AllWellFormed(inner) && end < TWO_31
       case Fixed32(_, bytes) => |bytes| == 4
  }

  predicate AllWellFormed(us: Unknowns) {
    match us
    case NoMore => true
    case More(u, rest) => WellFormed(u) && AllWellFormed(rest)
  }

  function Tag(number: nat, wireType: nat): (s: seq<byte>)
    ensures |s| > 0
  {
    Encode(8 * number + wireType)
  }

  function WireType(u: Unknown): nat {
    match u
    case AnyVarint(_, _) => 0
    case Fixed64(_, _) => 1
    case Delimited(_, _) => 2
    case Group(_, _, _) => 3
    case Fixed32(_, _) => 5
  }

  /** What follows the tag. */
  function Payload(u: Unknown): seq<byte>
    decreases u, 0
  {
    match u
    case AnyVarint(_, bytes) => bytes
    case Fixed64(_, bytes) => bytes
    case Delimited(_, bytes) => Encode(|bytes|) + bytes
    case Group(_, inner, end) => RenderAll(inner) + Tag(end, 4)
    case Fixed32(_, bytes) => bytes
  }

  function Render(u: Unknown): (s: seq<byte>)
    ensures |s| > 0
    decreases u, 1
  {
    Tag(u.number, WireType(u)) + Payload(u)
  }

  function RenderAll(us: Unknowns): seq<byte> {
    match us
    case NoMore => []
    case More(u, rest) => Render(u) + RenderAll(rest)
  }

  lemma ScanAny(bytes: seq<byte>, rest: seq<byte>)
    requires IsVarint(bytes)
    ensures ScanVarint(bytes + rest).Read? && ScanVarint(bytes + rest).size == |bytes|
  {
    var s := bytes + rest;
    assert s[|bytes| - 1] < 128;
    assert Run(s) == |bytes| - 1;
  }

  /** What skipPipeline does after a field that ended at index i. */
  function After(s: seq<byte>, i: nat, depth: nat): Skipped {
    if depth == 0 then Skipped(i) else Skip(s, i, depth)
  }

  /** The tag at index |before|. */
  lemma SkipTagIs(before: seq<byte>, number: nat, wireType: nat, rest: seq<byte>)
    requires number < TWO_31 && wireType < 8
    ensures var s, i := before + (Tag(number, wireType) + rest), |before|;
            && ScanVarint(s[i..]) == Read(8 * number + wireType, |Tag(number, wireType)|)
            && s[i + |Tag(number, wireType)|..] == rest && (8 * number + wireType) % 8 == wireType
  {
    hide ScanVarint, Encode;
    var tag := Tag(number, wireType);
    var s := before + (tag + rest);
    assert s[|before|..] == tag + rest;
    RoundTrip(8 * number + wireType, rest);
  }

  lemma SkipSimple(before: seq<byte>, u: Unknown, rest: seq<byte>, depth: nat)
    requires WellFormed(u) && !u.Group? && |before| + |Render(u)| < TWO_63
    ensures var s := before + (Render(u) + rest); SkipOne(s, |before|, depth) == Inside(|before| + |Render(u)|, depth)
  {
    hide ScanVarint, Encode, Tag, SkipOne;
    var tag, more := Tag(u.number, WireType(u)), Payload(u) + rest;
    assert Render(u) + rest == tag + more;
    SkipTagIs(before, u.number, WireType(u), more);
    SkipPayload(before + (tag + more), |before|, u, rest, depth);
  }

  /** The value after a tag that was read. */
  lemma SkipPayload(s: seq<byte>, i: nat, u: Unknown, rest: seq<byte>, depth: nat)
    requires WellFormed(u) && !u.Group? && i < |s| && |Payload(u)| < TWO_63
    requires var scan := ScanVarint(s[i..]);
             scan.Read? && scan.value % 8 == WireType(u) && s[i + scan.size..] == Payload(u) + rest
    ensures SkipOne(s, i, depth) == Inside(i + ScanVarint(s[i..]).size + |Payload(u)|, depth)
  {
    hide ScanVarint, Encode;
    if u.AnyVarint? {
      ScanAny(u.bytes, rest);
    } else if u.Delimited? {
      var more := u.bytes + rest;
      assert Payload(u) + rest == Encode(|u.bytes|) + more;
      RoundTrip(|u.bytes|, more);
      SmallInt64(|u.bytes|);
      hide ToInt64;
    }
  }

  lemma SmallInt64(n: nat)
    requires n < TWO_63
    ensures ToInt64(n) == n
  {
  }

  lemma SkipGroupTag(before: seq<byte>, number: nat, wireType: nat, rest: seq<byte>, depth: nat)
    requires number < TWO_31 && (wireType == 3 || (wireType == 4 && depth > 0))
    ensures var s := before + (Tag(number, wireType) + rest);
            SkipOne(s, |before|, depth) == Inside(|before| + |Tag(number, wireType)|, if wireType == 3 then depth + 1 else depth - 1)
  {
    hide ScanVarint, Tag;
    SkipTagIs(before, number, wireType, rest);
  }

  /** From one field to what follows it. */
  lemma SkipStep(s: seq<byte>, i: nat, depth: nat, next: nat, depth': nat)
    requires i < |s| && SkipOne(s, i, depth) == Inside(next, depth') && next < TWO_63
    ensures Skip(s, i, depth) == After(s, next, depth')
  {
    hide SkipOne;
  }

  /** A field is skipped to exactly its end. */
  lemma {:induction false} SkipRendered(before: seq<byte>, u: Unknown, rest: seq<byte>, depth: nat)
    requires WellFormed(u) && |before| + |Render(u)| < TWO_63
    ensures var s := before + (Render(u) + rest); Skip(s, |before|, depth) == After(s, |before| + |Render(u)|, depth)
    decreases u
  {
    hide Skip, SkipOne, Tag, After;
    var s, i := before + (Render(u) + rest), |before|;
    if !u.Group? {
      SkipSimple(before, u, rest, depth);
      SkipStep(s, i, depth, i + |Render(u)|, depth);
    } else {
      var start, inner, end := Tag(u.number, 3), RenderAll(u.inner), Tag(u.end, 4);
      assert Render(u) + rest == start + (inner + (end + rest));
      SkipGroupTag(before, u.number, 3, inner + (end + rest), depth);
      SkipStep(s, i, depth, i + |start|, depth + 1);
      assert s == (before + start) + (inner + (end + rest));
      SkipAll(before + start, u.inner, end + rest, depth + 1);
      assert s == (before + start + inner) + (end + rest);
      SkipGroupTag(before + start + inner, u.end, 4, rest, depth + 1);
      SkipStep(s, i + |start| + |inner|, depth + 1, i + |Render(u)|, depth);
      assert After(s, i + |start|, depth + 1) == Skip(s, i + |start|, depth + 1) by { AfterOpen(s, i + |start|, depth + 1); }
    }
  }

  lemma AfterOpen(s: seq<byte>, i: nat, depth: nat)
    requires depth > 0
    ensures After(s, i, depth) == Skip(s, i, depth)
  {
  }

  lemma {:induction false} SkipAll(before: seq<byte>, us: Unknowns, rest: seq<byte>, depth: nat)
    requires AllWellFormed(us) && |before| + |RenderAll(us)| < TWO_63 && depth > 0
    ensures var s := before + (RenderAll(us) + rest); Skip(s, |before|, depth) == Skip(s, |before| + |RenderAll(us)|, depth)
    decreases us
  {
    hide Skip, Render;
    match us {
      case NoMore =>
      case More(u, more) =>
        var s := before + (RenderAll(us) + rest);
        assert s == before + (Render(u) + (RenderAll(more) + rest));
        SkipRendered(before, u, RenderAll(more) + rest, depth);
        assert s == (before + Render(u)) + (RenderAll(more) + rest);
        SkipAll(before + Render(u), more, rest, depth);
    }
  }

  lemma FirstTag(u: Unknown, rest: seq<byte>)
    requires WellFormed(u)
    ensures var scan := ScanVarint(Render(u) + rest);
            scan.Read? && FieldNumber(scan.value) == u.number && scan.value % 8 != 4
  {
    hide ScanVarint, Encode;
    var tag, more := Tag(u.number, WireType(u)), Payload(u) + rest;
    assert Render(u) + rest == tag + more;
    RoundTrip(8 * u.number + WireType(u), more);
    NumberOfTag(u.number, WireType(u));
  }

  lemma NumberOfTag(number: nat, wireType: nat)
    requires number < TWO_31 && wireType < 8
    ensures FieldNumber(8 * number + wireType) == number && (8 * number + wireType) % 8 == wireType
  {
  }

  /** With a number above 4 it is one field that the decoder keeps verbatim, whatever follows. */
  lemma UnknownKept(u: Unknown, rest: seq<byte>, base: nat, p: PipelineValue)
    requires WellFormed(u) && u.number > 4 && base + |Render(u)| < TWO_63
    ensures UnknownSize(Render(u) + rest) == |Render(u)|
    ensures DecodeField(Render(u) + rest, base, p) == Parsed(p.(unrecognized := p.unrecognized + Render(u)), |Render(u)|)
  {
    hide ScanVarint, Skip, Render, DecodeRaftId, DecodeSingular, FieldNumber;
    var s := Render(u) + rest;
    FirstTag(u, rest);
    assert [] + s == s;
    SkipRendered([], u, rest, 0);
    assert s[..|Render(u)|] == Render(u);
  }

  // -- Messages -----------------------------------------------------------------------------------------

  /** A field of a message. Field 2 may be packed or not. */
  datatype Item =
    | PgId(v: uint64)
    | RaftIds(vs: seq<uint64>)
    | RaftId(v: uint64)
    | SyncType(v: uint64)
    | ClusterTerm(v: uint64)
    | Other(u: Unknown)

  function Bytes(item: Item): seq<byte> {
    match item
    case PgId(v) => [0x08] + Encode(v)
    case RaftId(v) => [0x10] + Encode(v)
    case RaftIds(vs) => [0x12] + (Encode(|Pack(vs)|) + Pack(vs))
    case SyncType(v) => [0x18] + Encode(v)
    case ClusterTerm(v) => [0x20] + Encode(v)
    case Other(u) => Render(u)
  }

  function Wire(items: seq<Item>): seq<byte> {
    if items == [] then [] else Bytes(items[0]) + Wire(items[1..])
  }

  predicate IsItem(item: Item) {
    item.Other? ==> WellFormed(item.u) && item.u.number > 4
  }

  /** The value that the item gives to field 1, 3 or 4. */
  function Singular(item: Item, number: nat): Option<uint64> {
    match item
    case PgId(v) => if number == 1 then Some(v) else None
    case SyncType(v) => if number == 3 then Some(v) else None
    case ClusterTerm(v) => if number == 4 then Some(v) else None
    case _ => None
  }

  /** The last value that a message gives to the field. */
  function LastValue(items: seq<Item>, number: nat): Option<uint64> {
    if items == [] then None
    else
      var last := Singular(items[|items| - 1], number);
      if last.Some? then last else LastValue(items[..|items| - 1], number)
  }

  function Listed(item: Item): seq<uint64> {
    match item
    case RaftId(v) => [v]
    case RaftIds(vs) => vs
    case _ => []
  }

  /** All elements of field 2, in order. */
  function AllListed(items: seq<Item>): seq<uint64> {
    if items == [] then [] else Listed(items[0]) + AllListed(items[1..])
  }

  /** All fields that are not known, in order. */
  function AllOther(items: seq<Item>): seq<byte> {
    if items == [] then [] else (if items[0].Other? then Render(items[0].u) else []) + AllOther(items[1..])
  }

  function Latest<T>(last: Option<T>, before: T): T {
    if last.Some? then last.value else before
  }

  function LatestInt32(last: Option<uint64>, before: int32): int32 {
    if last.Some? then ToInt32(last.value) else before
  }

  /** The message that the items make of p: the last value of a singular field, all of a repeated one. */
  function Merged(items: seq<Item>, p: PipelineValue): PipelineValue {
    PipelineValue(Latest(LastValue(items, 1), p.pgId), p.raftId + AllListed(items),
                  LatestInt32(LastValue(items, 3), p.syncType), Latest(LastValue(items, 4), p.clusterTerm),
                  p.unrecognized + AllOther(items))
  }

  lemma {:induction false} LastOfMore(item: Item, items: seq<Item>, number: nat)
    ensures LastValue([item] + items, number)
         == if LastValue(items, number).Some? then LastValue(items, number) else Singular(item, number)
  {
    var all := [item] + items;
    if items == [] {
      assert all[..0] == [];
    } else {
      assert all[..|all| - 1] == [item] + items[..|items| - 1] && all[|all| - 1] == items[|items| - 1];
      LastOfMore(item, items[..|items| - 1], number);
    }
  }

  lemma MergedMore(item: Item, items: seq<Item>, p: PipelineValue)
    ensures Merged([item] + items, p) == Merged(items, Merged([item], p))
  {
    hide LastValue, AllListed, AllOther;
    LastOfMore(item, items, 1);
    LastOfMore(item, items, 3);
    LastOfMore(item, items, 4);
    OnlyOne(item, 1);
    OnlyOne(item, 3);
    OnlyOne(item, 4);
    ListsOfMore(item, items);
    Associative(p.raftId, Listed(item), AllListed(items));
    Associative(p.unrecognized, AllOther([item]), AllOther(items));
  }

  lemma OnlyOne(item: Item, number: nat)
    ensures LastValue([item], number) == Singular(item, number)
  {
    assert [item][..0] == [];
  }

  lemma ListsOfMore(item: Item, items: seq<Item>)
    ensures AllListed([item]) == Listed(item) && AllListed([item] + items) == Listed(item) + AllListed(items)
    ensures AllOther([item]) == (if item.Other? then Render(item.u) else [])
    ensures AllOther([item] + items) == AllOther([item]) + AllOther(items)
  {
    hide Render;
    assert ([item] + items)[1..] == items && [item][1..] == [];
    assert Listed(item) + [] == Listed(item);
    var other := if item.Other? then Render(item.u) else [];
    assert other + [] == other;
  }

  lemma Associative<T>(a: seq<T>, b: seq<T>, c: seq<T>)
    ensures a + (b + c) == (a + b) + c
  {
  }

  lemma MergedOne(item: Item, p: PipelineValue)
    ensures Merged([item], p) == match item
                                 case PgId(v) => p.(pgId := v)
                                 case RaftId(v) => p.(raftId := p.raftId + [v])
                                 case RaftIds(vs) => p.(raftId := p.raftId + vs)
                                 case SyncType(v) => p.(syncType := ToInt32(v))
                                 case ClusterTerm(v) => p.(clusterTerm := v)
                                 case Other(u) => p.(unrecognized := p.unrecognized + Render(u))
  {
    hide LastValue, AllListed, AllOther, Render;
    OnlyOne(item, 1);
    OnlyOne(item, 3);
    OnlyOne(item, 4);
    ListsOfMore(item, []);
    assert p.raftId + [] == p.raftId && p.unrecognized + [] == p.unrecognized;
  }

  lemma ItemParsed(item: Item, rest: seq<byte>, base: nat, p: PipelineValue)
    requires IsItem(item) && base + |Bytes(item)| < TWO_63
    ensures Bytes(item) != [] && DecodeField(Bytes(item) + rest, base, p) == Parsed(Merged([item], p), |Bytes(item)|)
  {
    hide DecodeField, Encode, Pack, Render, Merged;
    MergedOne(item, p);
    match item {
      case PgId(v) => SingularParsed(0x08, v, rest, base, p);
      case SyncType(v) => SingularParsed(0x18, v, rest, base, p);
      case ClusterTerm(v) => SingularParsed(0x20, v, rest, base, p);
      case RaftId(v) => UnpackedFieldParsed(v, rest, base, p);
      case RaftIds(vs) =>
        ListParsed(vs, rest, base, p);
        assert Bytes(item) == [0x12] + Encode(|Pack(vs)|) + Pack(vs);
      case Other(u) => UnknownKept(u, rest, base, p);
    }
  }

  /** Every sequence of fields is decoded to the last value of each singular field and all of the others. */
  lemma {:induction false} DecodeItems(items: seq<Item>, base: nat, p: PipelineValue)
    requires base + |Wire(items)| < TWO_63 && forall i :: 0 <= i < |items| ==> IsItem(items[i])
    ensures Decode(Wire(items), base, p) == Decoded(Merged(items, p), NoError)
    decreases |items|
  {
    hide DecodeField, Bytes, Merged, IsItem;
    if items == [] {
      MergedNone(p);
    } else {
      var item, more := items[0], items[1..];
      ItemParsed(item, Wire(more), base, p);
      assert Wire(items)[|Bytes(item)|..] == Wire(more);
      DecodeItems(more, base + |Bytes(item)|, Merged([item], p));
      MergedMore(item, more, p);
      assert [item] + more == items;
    }
  }

  lemma MergedNone(p: PipelineValue)
    ensures Merged([], p) == p
  {
  }

  // -- What the encoder writes --------------------------------------------------------------------------

  /** The fields that are not zero, in the order of their numbers. */
  function Present(pgId: uint64, raftId: seq<uint64>, syncType: int32, clusterTerm: uint64): seq<Item> {
    (if pgId == 0 then [] else [PgId(pgId)])
    + ((if raftId == [] then [] else [RaftIds(raftId)])
    + ((if syncType == 0 then [] else [SyncType(SignExtend(syncType))])
    + (if clusterTerm == 0 then [] else [ClusterTerm(clusterTerm)])))
  }

  lemma WireFirst(present: bool, item: Item, items: seq<Item>)
    ensures Wire((if present then [item] else []) + items) == (if present then Bytes(item) else []) + Wire(items)
  {
    if present {
      assert ([item] + items)[1..] == items;
    } else {
      assert [] + items == items;
    }
  }

  lemma EncodedIsWire(p: PipelineValue)
    ensures EncodePipeline(p) == Wire(Present(p.pgId, p.raftId, p.syncType, p.clusterTerm)) + p.unrecognized
  {
    hide Wire, Encode, Pack, Bytes, VarintField, PackedField;
    var sync := SignExtend(p.syncType);
    var i4 := if p.clusterTerm == 0 then [] else [ClusterTerm(p.clusterTerm)];
    var i3 := (if p.syncType == 0 then [] else [SyncType(sync)]) + i4;
    var i2 := (if p.raftId == [] then [] else [RaftIds(p.raftId)]) + i3;
    assert i4 + [] == i4;
    WireFirst(p.clusterTerm != 0, ClusterTerm(p.clusterTerm), []);
    WireFirst(p.syncType != 0, SyncType(sync), i4);
    WireFirst(p.raftId != [], RaftIds(p.raftId), i3);
    WireFirst(p.pgId != 0, PgId(p.pgId), i2);
    WireNone();
    FieldsAreItems(p.pgId, p.raftId, sync, p.clusterTerm);
    var f4 := VarintField(0x20, p.clusterTerm);
    var f3, f2, f1 := VarintField(0x18, sync), PackedField(p.raftId), VarintField(0x08, p.pgId);
    assert Wire(i4) == f4 + [] == f4;
    FourAndRest(f1, f2, f3, f4, p.unrecognized);
  }

  lemma FourAndRest(a: seq<byte>, b: seq<byte>, c: seq<byte>, d: seq<byte>, rest: seq<byte>)
    ensures a + (b + (c + (d + rest))) == a + (b + (c + d)) + rest
  {
  }

  lemma FieldsAreItems(pgId: uint64, raftId: seq<uint64>, sync: uint64, clusterTerm: uint64)
    ensures VarintField(0x08, pgId) == (if pgId != 0 then Bytes(PgId(pgId)) else [])
    ensures PackedField(raftId) == (if raftId != [] then Bytes(RaftIds(raftId)) else [])
    ensures VarintField(0x18, sync) == (if sync != 0 then Bytes(SyncType(sync)) else [])
    ensures VarintField(0x20, clusterTerm) == (if clusterTerm != 0 then Bytes(ClusterTerm(clusterTerm)) else [])
  {
    hide Encode, Pack;
    var length := Encode(|Pack(raftId)|);
    assert [0x12] + length + Pack(raftId) == [0x12] + (length + Pack(raftId));
  }

  lemma WireNone()
    ensures Wire([]) == []
  {
  }

  // -- Tags that are refused ----------------------------------------------------------------------------

  /** The errors of a tag of one byte, whatever follows; nothing is changed. */
  lemma BadTag(tag: byte, rest: seq<byte>, base: nat, p: PipelineValue)
    requires tag < 128
    ensures var number, wireType := tag / 8, tag % 8;
            var d := Decode([tag] + rest, base, p);
            && (wireType == 4 ==> d == Decoded(p, EndGroup))
            && (wireType != 4 && number == 0 ==> d == Decoded(p, IllegalTag))
            && (wireType != 4 && wireType != 0 && (number == 1 || number == 3 || number == 4) ==> d == Decoded(p, WrongWireType))
            && (wireType != 4 && wireType != 0 && wireType != 2 && number == 2 ==> d == Decoded(p, WrongWireType))
            && (wireType >= 6 && number > 4 ==> d == Decoded(p, IllegalWireType))
  {
    hide ScanVarint;
    var s := [tag] + rest;
    ScanTag(tag, rest);
    assert s[0..] == s;
  }

  // -- Input that ends within a field -----------------------------------------------------------------

  /** A varint without its last byte, or with nothing of it. */
  lemma ScanCut(bytes: seq<byte>, k: nat)
    requires IsVarint(bytes) && k < |bytes|
    ensures ScanVarint(bytes[..k]).Truncated?
  {
    assert Run(bytes[..k]) == k;
  }

  lemma EncodeIsVarint(v: uint64)
    ensures IsVarint(Encode(v))
  {
    RunEncode(v, []);
    SovIsEncodedSize(v);
    assert Encode(v) + [] == Encode(v);
  }

  lemma CutTag(before: seq<byte>, number: nat, wireType: nat, k: nat, depth: nat)
    requires number < TWO_31 && wireType < 8 && k < |Tag(number, wireType)|
    ensures Skip(before + Tag(number, wireType)[..k], |before|, depth) == SkipError(UnexpectedEOF)
  {
    var s := before + Tag(number, wireType)[..k];
    if k > 0 {
      EncodeIsVarint(8 * number + wireType);
      ScanCut(Tag(number, wireType), k);
      hide ScanVarint, Tag;
      assert s[|before|..] == Tag(number, wireType)[..k];
    }
  }

  /** What is left of a field that is cut off: the end of input, or a length that goes beyond it. */
  ghost predicate CutOff(s: seq<byte>, r: Skipped, depth: nat, end: nat) {
    r == SkipError(UnexpectedEOF) || (depth == 0 && r.Skipped? && |s| < r.next <= end)
  }

  lemma CutBeyond(s: seq<byte>, i: nat, depth: nat, next: nat)
    requires i < |s| < next < TWO_63 && SkipOne(s, i, depth) == Inside(next, depth)
    ensures CutOff(s, Skip(s, i, depth), depth, next)
  {
    hide SkipOne;
  }

  lemma CutSimple(before: seq<byte>, u: Unknown, k: nat, depth: nat)
    requires WellFormed(u) && !u.Group? && k < |Render(u)| && |before| + |Render(u)| < TWO_63
    ensures var s := before + Render(u)[..k]; CutOff(s, Skip(s, |before|, depth), depth, |before| + |Render(u)|)
  {
    hide ScanVarint, Skip, SkipOne, Tag;
    var wireType := WireType(u);
    var tag, value := Tag(u.number, wireType), Payload(u);
    assert Render(u) == tag + value;
    if k < |tag| {
      assert Render(u)[..k] == tag[..k];
      CutTag(before, u.number, wireType, k, depth);
    } else {
      var m := k - |tag|;
      var s := before + Render(u)[..k];
      assert Render(u)[..k] == tag + value[..m];
      CutValue(before, u, m, depth);
    }
  }

  lemma CutValue(before: seq<byte>, u: Unknown, m: nat, depth: nat)
    requires WellFormed(u) && !u.Group? && m < |Payload(u)| && |before| + |Tag(u.number, WireType(u))| + |Payload(u)| < TWO_63
    ensures var tag := Tag(u.number, WireType(u));
            var s := before + (tag + Payload(u)[..m]);
            CutOff(s, Skip(s, |before|, depth), depth, |before| + |tag| + |Payload(u)|)
  {
    hide ScanVarint, Tag, Encode, Skip;
    var tag, cut := Tag(u.number, WireType(u)), Payload(u)[..m];
    var s, i := before + (tag + cut), |before|;
    SkipTagIs(before, u.number, WireType(u), cut);
    match u {
      case AnyVarint(_, bytes) =>
        ScanCut(bytes, m);
        SkipFails(s, i, depth);
      case Fixed64(_, bytes) => CutBeyond(s, i, depth, i + |tag| + 8);
      case Fixed32(_, bytes) => CutBeyond(s, i, depth, i + |tag| + 4);
      case Delimited(_, bytes) =>
        var length := Encode(|bytes|);
        if m < |length| {
          assert cut == length[..m];
          EncodeIsVarint(|bytes|);
          ScanCut(length, m);
          SkipFails(s, i, depth);
        } else {
          assert cut == length + bytes[..m - |length|];
          RoundTrip(|bytes|, bytes[..m - |length|]);
          CutBeyond(s, i, depth, i + |tag| + |length| + |bytes|);
        }
    }
  }

  lemma SkipFails(s: seq<byte>, i: nat, depth: nat)
    requires i < |s| && SkipOne(s, i, depth) == OneError(UnexpectedEOF)
    ensures Skip(s, i, depth) == SkipError(UnexpectedEOF)
  {
    hide SkipOne;
  }

  lemma {:induction false} CutRendered(before: seq<byte>, u: Unknown, k: nat, depth: nat)
    requires WellFormed(u) && k < |Render(u)| && |before| + |Render(u)| < TWO_63
    ensures var s := before + Render(u)[..k]; CutOff(s, Skip(s, |before|, depth), depth, |before| + |Render(u)|)
    decreases u
  {
    hide Skip, SkipOne, Tag;
    if !u.Group? {
      CutSimple(before, u, k, depth);
    } else {
      var start, inner, end := Tag(u.number, 3), RenderAll(u.inner), Tag(u.end, 4);
      assert Render(u) == start + (inner + end);
      var s := before + Render(u)[..k];
      if k < |start| {
        assert Render(u)[..k] == start[..k];
        CutTag(before, u.number, 3, k, depth);
      } else {
        var m := k - |start|;
        var rest := (inner + end)[..m];
        assert Render(u)[..k] == start + rest;
        SkipGroupTag(before, u.number, 3, rest, depth);
        SkipStep(s, |before|, depth, |before| + |start|, depth + 1);
        AfterOpen(s, |before| + |start|, depth + 1);
        assert s == (before + start) + rest;
        if m < |inner| {
          assert rest == inner[..m];
          CutAll(before + start, u.inner, m, depth + 1);
        } else {
          assert rest == inner + end[..m - |inner|];
          SkipAll(before + start, u.inner, end[..m - |inner|], depth + 1);
          assert s == (before + start + inner) + end[..m - |inner|];
          CutTag(before + start + inner, u.end, 4, m - |inner|, depth + 1);
        }
      }
    }
  }

  lemma {:induction false} CutAll(before: seq<byte>, us: Unknowns, k: nat, depth: nat)
    requires AllWellFormed(us) && k < |RenderAll(us)| && |before| + |RenderAll(us)| < TWO_63 && depth > 0
    ensures Skip(before + RenderAll(us)[..k], |before|, depth) == SkipError(UnexpectedEOF)
    decreases us
  {
    hide Skip, Render;
    var u, more := us.first, us.rest;
    if k < |Render(u)| {
      assert RenderAll(us)[..k] == Render(u)[..k];
      CutRendered(before, u, k, depth);
    } else {
      var m := k - |Render(u)|;
      var s := before + RenderAll(us)[..k];
      assert RenderAll(us)[..k] == Render(u) + RenderAll(more)[..m];
      SkipRendered(before, u, RenderAll(more)[..m], depth);
      AfterOpen(s, |before| + |Render(u)|, depth);
      assert s == (before + Render(u)) + RenderAll(more)[..m];
      CutAll(before + Render(u), more, m, depth);
    }
  }

  lemma CutUnknown(u: Unknown, k: nat, base: nat, p: PipelineValue)
    requires WellFormed(u) && u.number > 4 && 0 < k < |Render(u)| && base + |Render(u)| < TWO_63
    ensures DecodeField(Render(u)[..k], base, p) == Failed(p, UnexpectedEOF)
  {
    hide ScanVarint, Skip, Render, DecodeRaftId, DecodeSingular, FieldNumber;
    var s := Render(u)[..k];
    assert [] + s == s;
    CutRendered([], u, k, 0);
    CutFirstTag(u, k);
  }

  lemma CutFirstTag(u: Unknown, k: nat)
    requires WellFormed(u) && 0 < k < |Render(u)|
    ensures var scan := ScanVarint(Render(u)[..k]);
            scan.Truncated? || (scan.Read? && FieldNumber(scan.value) == u.number && scan.value % 8 != 4)
  {
    hide ScanVarint, Encode;
    var tag := Tag(u.number, WireType(u));
    if k < |tag| {
      assert Render(u)[..k] == tag[..k];
      EncodeIsVarint(8 * u.number + WireType(u));
      ScanCut(tag, k);
    } else {
      assert Render(u)[..k] == tag + Payload(u)[..k - |tag|];
      RoundTrip(8 * u.number + WireType(u), Payload(u)[..k - |tag|]);
      NumberOfTag(u.number, WireType(u));
    }
  }

  lemma CutVarint(tag: byte, v: uint64, k: nat, base: nat, p: PipelineValue)
    requires tag == 0x08 || tag == 0x10 || tag == 0x18 || tag == 0x20
    requires 0 < k < 1 + |Encode(v)|
    ensures var f := DecodeField(([tag] + Encode(v))[..k], base, p); f.Failed? && f.err == UnexpectedEOF
  {
    hide ScanVarint, Encode;
    var s, cut := ([tag] + Encode(v))[..k], Encode(v)[..k - 1];
    assert s == [tag] + cut && s[1..] == cut;
    ScanTag(tag, cut);
    EncodeIsVarint(v);
    ScanCut(Encode(v), k - 1);
  }

  lemma CutList(vs: seq<uint64>, k: nat, base: nat, p: PipelineValue)
    requires 0 < k < |Bytes(RaftIds(vs))| && base + |Bytes(RaftIds(vs))| < TWO_63
    ensures DecodeField(Bytes(RaftIds(vs))[..k], base, p) == Failed(p, UnexpectedEOF)
  {
    hide ScanVarint, Encode, Pack, DecodeElements, DecodeSingular, DecodeUnknown;
    var body := Pack(vs);
    var length, s := Encode(|body|), Bytes(RaftIds(vs))[..k];
    var cut := (length + body)[..k - 1];
    assert s == [0x12] + cut && s[1..] == cut;
    ScanTag(0x12, cut);
    if k - 1 < |length| {
      assert cut == length[..k - 1];
      EncodeIsVarint(|body|);
      ScanCut(length, k - 1);
    } else {
      assert cut == length + body[..k - 1 - |length|];
      RoundTrip(|body|, body[..k - 1 - |length|]);
    }
  }

  lemma CutItem(item: Item, k: nat, base: nat, p: PipelineValue)
    requires IsItem(item) && 0 < k < |Bytes(item)| && base + |Bytes(item)| < TWO_63
    ensures var f := DecodeField(Bytes(item)[..k], base, p); f.Failed? && f.err == UnexpectedEOF
  {
    hide DecodeField, Encode, Pack, Render;
    match item {
      case PgId(v) => CutVarint(0x08, v, k, base, p);
      case RaftId(v) => CutVarint(0x10, v, k, base, p);
      case SyncType(v) => CutVarint(0x18, v, k, base, p);
      case ClusterTerm(v) => CutVarint(0x20, v, k, base, p);
      case RaftIds(vs) => CutList(vs, k, base, p);
      case Other(u) => CutUnknown(u, k, base, p);
    }
  }

  /** Input that ends within a field, after any whole ones, is an unexpected end. */
  lemma DecodeCut(items: seq<Item>, item: Item, k: nat, p: PipelineValue)
    requires (forall i :: 0 <= i < |items| ==> IsItem(items[i])) && IsItem(item) && 0 < k < |Bytes(item)|
    requires |Wire(items)| + |Bytes(item)| < TWO_63
    ensures Decode(Wire(items) + Bytes(item)[..k], 0, p).err == UnexpectedEOF
  {
    hide DecodeField, Bytes, Wire, Merged, IsItem;
    DecodeItems(items, 0, p);
    DecodeConcat(Wire(items), Bytes(item)[..k], 0, p);
    CutItem(item, k, |Wire(items)|, Merged(items, p));
  }
}
