/**
 * The wire codec of Pipeline. EncodePipeline and Decode give the meaning of the
 * bytes; the Pipeline class holds the generated code, which fills its buffer from
 * the end and decodes with index loops.
 */
module PipelineCodec {
  import opened Basics
  import opened Varint

  datatype PipelineValue = PipelineValue(
    pgId: uint64,
    raftId: seq<uint64>,
    syncType: int32,
    clusterTerm: uint64,
    unrecognized: seq<byte>
  )

  const EMPTY := PipelineValue(0, [], 0, 0, [])

  // -- Encoding ----------------------------------------------------------------------------

  /** uint64(x) for an int32: sign extension. */
  function SignExtend(x: int32): uint64 {
    if x < 0 then x + TWO_64 else x
  }

  /** A singular field: absent when zero, otherwise its tag and its varint. */
  function VarintField(tag: byte, v: uint64): seq<byte> {
    if v == 0 then [] else [tag] + Encode(v)
  }

  function Pack(vs: seq<uint64>): seq<byte> {
    if vs == [] then [] else Encode(vs[0]) + Pack(vs[1..])
  }

  function PackedField(vs: seq<uint64>): seq<byte> {
    if vs == [] then [] else [0x12] + Encode(|Pack(vs)|) + Pack(vs)
  }

  /** Field 2 written as separate tag/value pairs. */
  function UnpackedField(vs: seq<uint64>): seq<byte> {
    if vs == [] then [] else [0x10] + Encode(vs[0]) + UnpackedField(vs[1..])
  }

  function EncodePipeline(p: PipelineValue): seq<byte> {
    VarintField(0x08, p.pgId) + (PackedField(p.raftId) + (VarintField(0x18, SignExtend(p.syncType)) +
      (VarintField(0x20, p.clusterTerm) + p.unrecognized)))
  }

  // -- Decoding ----------------------------------------------------------------------------

  datatype Skipped = Skipped(next: nat) | SkipError(err: Error)

  /** skipPipeline: the end of the field (or group) that starts at i, `depth` groups being open. */
  function Skip(s: seq<byte>, i: nat, depth: nat): (r: Skipped)
    ensures if r.Skipped? then r.next > i else r.err != NoError
    decreases |s| - i
  {
    if i >= |s| then SkipError(UnexpectedEOF) else
    match SkipOne(s, i, depth)
    case Inside(next, depth') =>
      if next >= TWO_63 then SkipError(InvalidLength)
      else if depth' == 0 then Skipped(next)
      else Skip(s, next, depth')
    case OneError(err) => SkipError(err)
  }

  datatype One = Inside(next: nat, depth: nat) | OneError(err: Error)

  /** One tag of skipPipeline and the value that belongs to it, indices not yet wrapped. */
  function SkipOne(s: seq<byte>, i: nat, depth: nat): (r: One)
    requires i < |s|
    ensures if r.Inside? then r.next > i else r.err != NoError
  {
    match ScanVarint(s[i..])
    case Read(wire, n) => (
      var j := i + n;
      match wire % 8
      case 0 =>
        var v := ScanVarint(s[j..]);
        if v.Read? then Inside(j + v.size, depth) else OneError(v.Failure())
      case 1 => Inside(j + 8, depth)
      case 2 =>
        var v := ScanVarint(s[j..]);
        if !v.Read? then OneError(v.Failure())
        else if ToInt64(v.value) < 0 then OneError(InvalidLength)
        else Inside(j + v.size + ToInt64(v.value), depth)
      case 3 => Inside(j, depth + 1)
      case 4 => if depth == 0 then OneError(UnexpectedEndOfGroup) else Inside(j, depth - 1)
      case 5 => Inside(j + 4, depth)
      case _ => OneError(IllegalWireType)
    )
    case failed => OneError(failed.Failure())
  }

  datatype Elements = Elements(vs: seq<uint64>, used: nat, err: Error)

  /** The elements of a packed field of k bytes; the last one may end past the k-th byte. */
  function DecodeElements(s: seq<byte>, k: int): (r: Elements)
    ensures r.err == NoError ==> k <= r.used <= |s|
    decreases |s|
  {
    if k <= 0 then Elements([], 0, NoError) else
    var v := ScanVarint(s);
    if !v.Read? then Elements([], 0, v.Failure()) else
    var rest := DecodeElements(s[v.size..], k - v.size);
    Elements([v.value % TWO_64] + rest.vs, v.size + rest.used, rest.err)
  }

  datatype Field = Parsed(p: PipelineValue, size: nat) | Failed(p: PipelineValue, err: Error)

  /** The tag of the field at the front of s: its number and its wire type. */
  function FieldNumber(wire: nat): int32 {
    ToInt32(wire % TWO_64 / 8)
  }

  /**
   * The size of the field at the front of s if it is one that Unmarshal keeps
   * verbatim in XXX_unrecognized, otherwise 0.
   */
  function UnknownSize(s: seq<byte>): (n: nat)
    ensures n <= |s|
  {
    match ScanVarint(s)
    case Read(wire, _) =>
      if wire % 8 == 4 || FieldNumber(wire) <= 4 then 0 else
      (match Skip(s, 0, 0)
       case Skipped(n) => if n <= |s| then n else 0
       case SkipError(_) => 0)
    case _ => 0
  }

  /** One turn of the loop of Unmarshal: `s` is the input from index `base` on. */
  function DecodeField(s: seq<byte>, base: nat, p: PipelineValue): (f: Field)
    requires s != []
    ensures if f.Parsed? then 0 < f.size <= |s| else f.err != NoError
  {
    match ScanVarint(s)
    case Read(wire, n) =>
      if wire % 8 == 4 then Failed(p, EndGroup)
      else if FieldNumber(wire) <= 0 then Failed(p, IllegalTag)
      else if FieldNumber(wire) == 2 then DecodeRaftId(s, n, wire % 8, base, p)
      else if FieldNumber(wire) > 4 then DecodeUnknown(s, base, p)
      else if wire % 8 != 0 then Failed(p, WrongWireType)
      else DecodeSingular(s, n, FieldNumber(wire), p)
    case failed => Failed(p, failed.Failure())
  }

  function DecodeSingular(s: seq<byte>, n: nat, number: int, p: PipelineValue): (f: Field)
    requires 0 < n <= |s|
    ensures if f.Parsed? then 0 < f.size <= |s| else f.err != NoError
  {
    var v := ScanVarint(s[n..]);
    var q := if number == 1 then p.(pgId := v.Accumulated() % TWO_64)
             else if number == 3 then p.(syncType := ToInt32(v.Accumulated()))
             else p.(clusterTerm := v.Accumulated() % TWO_64);
    if v.Read? then Parsed(q, n + v.size) else Failed(q, v.Failure())
  }

  function DecodeRaftId(s: seq<byte>, n: nat, wireType: nat, base: nat, p: PipelineValue): (f: Field)
    requires 0 < n <= |s|
    ensures if f.Parsed? then 0 < f.size <= |s| else f.err != NoError
  {
    var v := ScanVarint(s[n..]);
    if wireType != 0 && wireType != 2 then Failed(p, WrongWireType)
    else if !v.Read? then Failed(p, v.Failure())
    else if wireType == 0 then Parsed(p.(raftId := p.raftId + [v.value % TWO_64]), n + v.size)
    else
      var start, k := n + v.size, ToInt64(v.value);
      if k < 0 || base + start + k >= TWO_63 then Failed(p, InvalidLength)
      else if start + k > |s| then Failed(p, UnexpectedEOF)
      else
        var elements := DecodeElements(s[start..], k);
        var q := p.(raftId := p.raftId + elements.vs);
        if elements.err == NoError then Parsed(q, start + elements.used) else Failed(q, elements.err)
  }

  function DecodeUnknown(s: seq<byte>, base: nat, p: PipelineValue): (f: Field)
    ensures if f.Parsed? then 0 < f.size <= |s| else f.err != NoError
  {
    match Skip(s, 0, 0)
    case Skipped(n) =>
      if base + n >= TWO_63 then Failed(p, InvalidLength)
      else if n > |s| then Failed(p, UnexpectedEOF)
      else Parsed(p.(unrecognized := p.unrecognized + s[..n]), n)
    case SkipError(err) => Failed(p, err)
  }

  datatype Decoded = Decoded(p: PipelineValue, err: Error)

  /** Unmarshal into p: the fields are merged into it one after the other. */
  function Decode(s: seq<byte>, base: nat, p: PipelineValue): Decoded
    decreases |s|
  {
    if s == [] then Decoded(p, NoError) else
    match DecodeField(s, base, p)
    case Parsed(q, n) => Decode(s[n..], base + n, q)
    case Failed(q, err) => Decoded(q, err)
  }

  /** A sequence of fields that Unmarshal does not know, nothing else. */
  predicate UnknownFields(u: seq<byte>)
    decreases |u|
  {
    u == [] || (UnknownSize(u) > 0 && UnknownFields(u[UnknownSize(u)..]))
  }

  // -- Decoding reads a field from its own bytes only ------------------------------------------

  lemma {:induction false} SkipLocal(s: seq<byte>, t: seq<byte>, i: nat, depth: nat)
    requires Skip(s, i, depth).Skipped? && Agree(s, t, Skip(s, i, depth).next)
    ensures Skip(t, i, depth) == Skip(s, i, depth)
    decreases |s| - i
  {
    SkipOneLocal(s, t, i, depth, Skip(s, i, depth).next);
    var one := SkipOne(s, i, depth);
    if one.depth != 0 {
      SkipLocal(s, t, one.next, one.depth);
    }
  }

  lemma SkipOneLocal(s: seq<byte>, t: seq<byte>, i: nat, depth: nat, n: nat)
    requires i < |s| && SkipOne(s, i, depth).Inside? && SkipOne(s, i, depth).next <= n && Agree(s, t, n)
    ensures SkipOne(t, i, depth) == SkipOne(s, i, depth)
  {
    hide ScanVarint, Groups, Run;
    AgreeTail(s, t, i, n);
    ScanLocal(s[i..], t[i..]);
    var tag := ScanVarint(s[i..]);
    if tag.value % 8 == 0 || tag.value % 8 == 2 {
      AgreeTail(s, t, i + tag.size, n);
      ScanLocal(s[i + tag.size..], t[i + tag.size..]);
    }
  }

  lemma {:induction false} ElementsLocal(s: seq<byte>, t: seq<byte>, k: int)
    requires DecodeElements(s, k).err == NoError && Agree(s, t, DecodeElements(s, k).used)
    ensures DecodeElements(t, k) == DecodeElements(s, k)
    decreases |s|
  {
    hide ScanVarint, Groups, Run;
    if k > 0 {
      var v := ScanVarint(s);
      ScanLocal(s, t);
      AgreeTail(s, t, v.size, DecodeElements(s, k).used);
      ElementsLocal(s[v.size..], t[v.size..], k - v.size);
    }
  }

  /** A parsed field stays parsed, the same way, whatever replaces the bytes after it. */
  lemma FieldLocal(s: seq<byte>, t: seq<byte>, base: nat, base': nat, p: PipelineValue)
    requires s != [] && t != [] && DecodeField(s, base, p).Parsed?
    requires var n := DecodeField(s, base, p).size; Agree(s, t, n) && base' + n < TWO_63
    ensures DecodeField(t, base', p) == DecodeField(s, base, p)
  {
    hide ScanVarint, Groups, Run, Skip, DecodeElements;
    var n, tag := DecodeField(s, base, p).size, ScanVarint(s);
    if FieldNumber(tag.value) > 4 {
      SkipLocal(s, t, 0, 0);
      SkipStartsAfterTag(s);
      ScanLocal(s, t);
      assert s[..n] == t[..n];
    } else {
      ScanLocal(s, t);
      KnownFieldLocal(s, t, base, base', p);
    }
  }

  lemma KnownFieldLocal(s: seq<byte>, t: seq<byte>, base: nat, base': nat, p: PipelineValue)
    requires s != [] && t != [] && DecodeField(s, base, p).Parsed? && ScanVarint(t) == ScanVarint(s)
    requires FieldNumber(ScanVarint(s).Accumulated()) <= 4
    requires var n := DecodeField(s, base, p).size; Agree(s, t, n) && base' + n < TWO_63
    ensures DecodeField(t, base', p) == DecodeField(s, base, p)
  {
    hide ScanVarint, Groups, Run, Skip, DecodeElements;
    var n, tag := DecodeField(s, base, p).size, ScanVarint(s);
    AgreeTail(s, t, tag.size, n);
    ScanLocal(s[tag.size..], t[tag.size..]);
    if FieldNumber(tag.value) == 2 && tag.value % 8 == 2 {
      var length := ScanVarint(s[tag.size..]);
      AgreeTail(s, t, tag.size + length.size, n);
      ElementsLocal(s[tag.size + length.size..], t[tag.size + length.size..], ToInt64(length.value));
    }
  }

  lemma SkipStartsAfterTag(s: seq<byte>)
    requires Skip(s, 0, 0).Skipped?
    ensures ScanVarint(s).Read? && Skip(s, 0, 0).next >= ScanVarint(s).size
  {
    assert s[0..] == s;
    SkipAdvances(s, 0, 0);
  }

  lemma {:induction false} SkipAdvances(s: seq<byte>, i: nat, depth: nat)
    requires Skip(s, i, depth).Skipped?
    ensures SkipOne(s, i, depth).Inside? && Skip(s, i, depth).next >= SkipOne(s, i, depth).next
  {
  }

  /** Concatenating encodings merges messages. */
  lemma {:induction false} DecodeConcat(s: seq<byte>, t: seq<byte>, base: nat, p: PipelineValue)
    requires base + |s| < TWO_63 && Decode(s, base, p).err == NoError
    ensures Decode(s + t, base, p) == Decode(t, base + |s|, Decode(s, base, p).p)
    decreases |s|
  {
    hide DecodeField;
    if s == [] {
      assert s + t == t;
    } else {
      var f := DecodeField(s, base, p);
      FieldLocal(s, s + t, base, base, p);
      assert (s + t)[f.size..] == s[f.size..] + t;
      DecodeConcat(s[f.size..], t, base + f.size, f.p);
    }
  }

  // -- What is encoded is decoded ----------------------------------------------------------

  lemma ScanTag(tag: byte, rest: seq<byte>)
    requires tag < 128
    ensures ScanVarint([tag] + rest) == Read(tag, 1)
  {
    var s := [tag] + rest;
    assert s[..1] == [tag] && Groups([tag]) == tag + 128 * Groups([]);
  }

  function SetField(number: nat, v: uint64, p: PipelineValue): PipelineValue {
    if v == 0 then p
    else if number == 1 then p.(pgId := v)
    else if number == 3 then p.(syncType := ToInt32(v))
    else p.(clusterTerm := v)
  }

  lemma SingularParsed(tag: byte, v: uint64, rest: seq<byte>, base: nat, p: PipelineValue)
    requires tag == 0x08 || tag == 0x18 || tag == 0x20
    ensures var q := if tag == 0x08 then p.(pgId := v)
                     else if tag == 0x18 then p.(syncType := ToInt32(v)) else p.(clusterTerm := v);
            DecodeField([tag] + Encode(v) + rest, base, p) == Parsed(q, 1 + |Encode(v)|)
  {
    hide ScanVarint, Encode, DecodeRaftId, DecodeUnknown, FieldNumber, DecodeSingular;
    var s, more := [tag] + Encode(v) + rest, Encode(v) + rest;
    assert s == [tag] + more && s[1..] == more;
    ScanTag(tag, more);
    SingularTag(tag);
    SingularRead(s, tag / 8, v, rest, p);
  }

  lemma SingularTag(tag: byte)
    requires tag == 0x08 || tag == 0x18 || tag == 0x20
    ensures FieldNumber(tag) == tag / 8 && tag % 8 == 0
  {
  }

  lemma SingularRead(s: seq<byte>, number: int, v: uint64, rest: seq<byte>, p: PipelineValue)
    requires s != [] && s[1..] == Encode(v) + rest && (number == 1 || number == 3 || number == 4)
    ensures var q := if number == 1 then p.(pgId := v)
                     else if number == 3 then p.(syncType := ToInt32(v)) else p.(clusterTerm := v);
            DecodeSingular(s, 1, number, p) == Parsed(q, 1 + |Encode(v)|)
  {
    hide ScanVarint, Encode, ToInt32;
    RoundTrip(v, rest);
  }

  lemma VarintFieldParsed(number: nat, v: uint64, rest: seq<byte>, base: nat, p: PipelineValue)
    requires v != 0 && (number == 1 || number == 3 || number == 4)
    ensures var f := VarintField(8 * number, v);
            DecodeField(f + rest, base, p) == Parsed(SetField(number, v, p), |f|)
  {
    hide DecodeField, Encode, ToInt32;
    SingularParsed(8 * number, v, rest, base, p);
  }

  lemma DecodeVarintField(number: nat, v: uint64, rest: seq<byte>, base: nat, p: PipelineValue)
    requires number == 1 || number == 3 || number == 4
    ensures var f := VarintField(8 * number, v);
            Decode(f + rest, base, p) == Decode(rest, base + |f|, SetField(number, v, p))
  {
    hide DecodeField, Encode, SetField;
    var f := VarintField(8 * number, v);
    if v == 0 {
      assert f + rest == rest;
      assert SetField(number, v, p) == p by { SetZero(number, p); }
    } else {
      VarintFieldParsed(number, v, rest, base, p);
      assert (f + rest)[|f|..] == rest;
    }
  }

  lemma SetZero(number: nat, p: PipelineValue)
    ensures SetField(number, 0, p) == p
  {
  }

  lemma {:induction false} DecodePack(vs: seq<uint64>, rest: seq<byte>)
    ensures DecodeElements(Pack(vs) + rest, |Pack(vs)|) == Elements(vs, |Pack(vs)|, NoError)
  {
    hide ScanVarint, Encode, DecodeElements;
    if vs == [] {
      ElementsEnd(Pack(vs) + rest, 0);
    } else {
      var tail := Pack(vs[1..]);
      DecodePack(vs[1..], rest);
      assert Pack(vs) + rest == Encode(vs[0]) + (tail + rest);
      ElementsFirst(vs[0], tail + rest, |Pack(vs)|);
      assert [vs[0]] + vs[1..] == vs;
    }
  }

  lemma ElementsStep(s: seq<byte>, k: int)
    requires k > 0
    ensures var v := ScanVarint(s);
            DecodeElements(s, k) ==
              if v.Read? then
                var rest := DecodeElements(s[v.size..], k - v.size);
                Elements([v.value % TWO_64] + rest.vs, v.size + rest.used, rest.err)
              else Elements([], 0, v.Failure())
  {
    hide ScanVarint;
  }

  lemma ElementsEnd(s: seq<byte>, k: int)
    requires k <= 0
    ensures DecodeElements(s, k) == Elements([], 0, NoError)
  {
  }

  /** An encoded element at the front is the first one decoded. */
  lemma ElementsFirst(v: uint64, s: seq<byte>, k: int)
    requires k > 0
    ensures var rest := DecodeElements(s, k - |Encode(v)|);
            DecodeElements(Encode(v) + s, k) == Elements([v] + rest.vs, |Encode(v)| + rest.used, rest.err)
  {
    hide ScanVarint, Encode, DecodeElements;
    RoundTrip(v, s);
    ElementsStep(Encode(v) + s, k);
    assert (Encode(v) + s)[|Encode(v)|..] == s;
  }

  /** A packed list, which may be empty. */
  lemma ListParsed(vs: seq<uint64>, rest: seq<byte>, base: nat, p: PipelineValue)
    requires base + 1 + |Encode(|Pack(vs)|)| + |Pack(vs)| < TWO_63
    ensures var f := [0x12] + Encode(|Pack(vs)|) + Pack(vs);
            DecodeField(f + rest, base, p) == Parsed(p.(raftId := p.raftId + vs), |f|)
  {
    hide ScanVarint, Encode, Pack, DecodeElements, DecodeSingular, DecodeUnknown;
    var body := Pack(vs);
    var length, s := Encode(|body|), [0x12] + Encode(|body|) + body + rest;
    var more := body + rest;
    assert s == [0x12] + (length + more) && s[1..] == length + more;
    ScanTag(0x12, length + more);
    RoundTrip(|body|, more);
    assert s[1 + |length|..] == more;
    DecodePack(vs, rest);
  }

  /** The packed form appends the listed values to the field. */
  lemma DecodePackedField(vs: seq<uint64>, rest: seq<byte>, base: nat, p: PipelineValue)
    requires base + |PackedField(vs)| < TWO_63
    ensures Decode(PackedField(vs) + rest, base, p)
         == Decode(rest, base + |PackedField(vs)|, p.(raftId := p.raftId + vs))
  {
    hide DecodeField;
    var f := PackedField(vs);
    if vs == [] {
      assert f + rest == rest && p.raftId + vs == p.raftId;
    } else {
      ListParsed(vs, rest, base, p);
      assert (f + rest)[|f|..] == rest;
    }
  }

  lemma UnpackedFieldParsed(v: uint64, rest: seq<byte>, base: nat, p: PipelineValue)
    ensures DecodeField([0x10] + Encode(v) + rest, base, p)
         == Parsed(p.(raftId := p.raftId + [v]), 1 + |Encode(v)|)
  {
    hide ScanVarint, Encode, DecodeSingular, DecodeUnknown;
    var s := [0x10] + Encode(v) + rest;
    assert s == [0x10] + (Encode(v) + rest);
    ScanTag(0x10, Encode(v) + rest);
    assert s[1..] == Encode(v) + rest;
    RoundTrip(v, rest);
  }

  /** So do separate tag/value pairs. */
  lemma {:induction false} DecodeUnpackedField(vs: seq<uint64>, rest: seq<byte>, base: nat, p: PipelineValue)
    ensures Decode(UnpackedField(vs) + rest, base, p)
         == Decode(rest, base + |UnpackedField(vs)|, p.(raftId := p.raftId + vs))
    decreases |vs|
  {
    hide DecodeField, Encode, Decode;
    if vs == [] {
      assert UnpackedField(vs) + rest == rest && p.raftId + vs == p.raftId;
    } else {
      var f, tail := [0x10] + Encode(vs[0]), UnpackedField(vs[1..]);
      assert UnpackedField(vs) + rest == f + (tail + rest) && |UnpackedField(vs)| == |f| + |tail|;
      DecodeOneUnpacked(vs[0], tail + rest, base, p);
      DecodeUnpackedField(vs[1..], rest, base + |f|, p.(raftId := p.raftId + [vs[0]]));
      assert p.raftId + [vs[0]] + vs[1..] == p.raftId + vs;
    }
  }

  lemma DecodeOneUnpacked(v: uint64, rest: seq<byte>, base: nat, p: PipelineValue)
    ensures var f := [0x10] + Encode(v);
            Decode(f + rest, base, p) == Decode(rest, base + |f|, p.(raftId := p.raftId + [v]))
  {
    hide DecodeField, Encode;
    var f := [0x10] + Encode(v);
    UnpackedFieldParsed(v, rest, base, p);
    assert (f + rest)[|f|..] == rest;
  }

  /** Where in the input a sequence of fields stands makes no difference. */
  lemma {:induction false} DecodeAnywhere(s: seq<byte>, base: nat, base': nat, p: PipelineValue)
    requires Decode(s, base, p).err == NoError && base' + |s| < TWO_63
    ensures Decode(s, base', p) == Decode(s, base, p)
    decreases |s|
  {
    hide DecodeField;
    if s != [] {
      var f := DecodeField(s, base, p);
      FieldLocal(s, s, base, base', p);
      DecodeAnywhere(s[f.size..], base + f.size, base' + f.size, f.p);
    }
  }

  /** Field 2 decodes to the same list in either form, after and before any other fields. */
  lemma PackedEqualsUnpacked(vs: seq<uint64>, before: seq<byte>, rest: seq<byte>, p: PipelineValue)
    requires |before| + |PackedField(vs)| + |rest| < TWO_63 && |before| + |UnpackedField(vs)| + |rest| < TWO_63
    requires Decode(before, 0, p).err == NoError
    requires var q := Decode(before, 0, p).p;
             Decode(rest, 0, q.(raftId := q.raftId + vs)).err == NoError
    ensures Decode(before + (PackedField(vs) + rest), 0, p) == Decode(before + (UnpackedField(vs) + rest), 0, p)
    ensures var q := Decode(before, 0, p).p;
            Decode(before + (PackedField(vs) + rest), 0, p) == Decode(rest, 0, q.(raftId := q.raftId + vs))
  {
    hide DecodeField, PackedField, UnpackedField;
    var q := Decode(before, 0, p).p;
    var merged := q.(raftId := q.raftId + vs);
    DecodeConcat(before, PackedField(vs) + rest, 0, p);
    DecodeConcat(before, UnpackedField(vs) + rest, 0, p);
    DecodePackedField(vs, rest, |before|, q);
    DecodeUnpackedField(vs, rest, |before|, q);
    DecodeAnywhere(rest, 0, |before| + |PackedField(vs)|, merged);
    DecodeAnywhere(rest, 0, |before| + |UnpackedField(vs)|, merged);
  }

  // -- Unknown fields are carried verbatim ---------------------------------------------------

  lemma UnknownFieldParsed(u: seq<byte>, base: nat, p: PipelineValue)
    requires UnknownSize(u) > 0 && base + |u| < TWO_63
    ensures var n := UnknownSize(u);
            DecodeField(u, base, p) == Parsed(p.(unrecognized := p.unrecognized + u[..n]), n)
  {
  }

  lemma {:induction false} DecodeUnknownFields(u: seq<byte>, base: nat, p: PipelineValue)
    requires UnknownFields(u) && base + |u| < TWO_63
    ensures Decode(u, base, p) == Decoded(p.(unrecognized := p.unrecognized + u), NoError)
    decreases |u|
  {
    hide DecodeField, UnknownSize;
    if u == [] {
      assert p.unrecognized + u == p.unrecognized;
    } else {
      var n := UnknownSize(u);
      UnknownFieldParsed(u, base, p);
      DecodeUnknownFields(u[n..], base + n, p.(unrecognized := p.unrecognized + u[..n]));
      assert p.unrecognized + u[..n] + u[n..] == p.unrecognized + u;
    }
  }

  lemma UnknownSizeLocal(u: seq<byte>, t: seq<byte>)
    requires UnknownSize(u) > 0 && Agree(u, t, UnknownSize(u))
    ensures UnknownSize(t) == UnknownSize(u)
  {
    hide ScanVarint;
    SkipStartsAfterTag(u);
    ScanLocal(u, t);
    SkipLocal(u, t, 0, 0);
  }

  lemma {:induction false} UnknownFieldsConcat(u: seq<byte>, t: seq<byte>)
    requires UnknownFields(u) && UnknownFields(t)
    ensures UnknownFields(u + t)
    decreases |u|
  {
    hide UnknownSize;
    if u == [] {
      assert u + t == t;
    } else {
      var n := UnknownSize(u);
      UnknownSizeLocal(u, u + t);
      UnknownFieldsConcat(u[n..], t);
      assert (u + t)[n..] == u[n..] + t;
    }
  }

  lemma FieldKeepsUnknown(s: seq<byte>, base: nat, p: PipelineValue)
    requires s != [] && UnknownFields(p.unrecognized) && DecodeField(s, base, p).Parsed?
    ensures UnknownFields(DecodeField(s, base, p).p.unrecognized)
  {
    hide ScanVarint, Skip;
    var q := DecodeField(s, base, p).p;
    if q.unrecognized != p.unrecognized {
      var n := UnknownSize(s);
      assert q.unrecognized == p.unrecognized + s[..n];
      UnknownSizeLocal(s, s[..n]);
      assert UnknownFields(s[..n]) by {
        assert s[..n][n..] == [];
      }
      UnknownFieldsConcat(p.unrecognized, s[..n]);
    }
  }

  /** Whatever Unmarshal keeps as unrecognized is a sequence of unknown fields. */
  lemma {:induction false} DecodeKeepsUnknown(s: seq<byte>, base: nat, p: PipelineValue)
    requires UnknownFields(p.unrecognized) && Decode(s, base, p).err == NoError
    ensures UnknownFields(Decode(s, base, p).p.unrecognized)
    decreases |s|
  {
    hide DecodeField, UnknownFields;
    if s != [] {
      var f := DecodeField(s, base, p);
      FieldKeepsUnknown(s, base, p);
      DecodeKeepsUnknown(s[f.size..], base + f.size, f.p);
    }
  }

  // -- Main results ------------------------------------------------------------------------

  lemma SignExtendInverse(x: int32)
    ensures ToInt32(SignExtend(x)) == x
    ensures SignExtend(x) == 0 <==> x == 0
  {
  }

  /** Every field of an encoded pipeline is read back; the unrecognized bytes come last. */
  lemma DecodeEncoded(p: PipelineValue)
    requires |EncodePipeline(p)| < TWO_63
    ensures Decode(EncodePipeline(p), 0, EMPTY)
         == Decode(p.unrecognized, |EncodePipeline(p)| - |p.unrecognized|, p.(unrecognized := []))
  {
    hide Decode;
    var f1, f2 := VarintField(0x08, p.pgId), PackedField(p.raftId);
    var f3, f4 := VarintField(0x18, SignExtend(p.syncType)), VarintField(0x20, p.clusterTerm);
    var u := p.unrecognized;
    SignExtendInverse(p.syncType);
    DecodeVarintField(1, p.pgId, f2 + (f3 + (f4 + u)), 0, EMPTY);
    var p1 := EMPTY.(pgId := p.pgId);
    DecodePackedField(p.raftId, f3 + (f4 + u), |f1|, p1);
    assert [] + p.raftId == p.raftId;
    var p2 := p1.(raftId := p.raftId);
    DecodeVarintField(3, SignExtend(p.syncType), f4 + u, |f1| + |f2|, p2);
    DecodeVarintField(4, p.clusterTerm, u, |f1| + |f2| + |f3|, p2.(syncType := p.syncType));
  }

  lemma NoUnknownFields()
    ensures UnknownFields([])
  {
  }

  lemma EncodedIncludesUnknown(p: PipelineValue)
    ensures |EncodePipeline(p)| >= |p.unrecognized|
  {
  }

  /** Unmarshal inverts Marshal exactly on the pipelines whose unrecognized bytes are unknown fields. */
  lemma CodecRoundTrip(p: PipelineValue)
    requires |EncodePipeline(p)| < TWO_63
    ensures Decode(EncodePipeline(p), 0, EMPTY) == Decoded(p, NoError) <==> UnknownFields(p.unrecognized)
  {
    hide Decode, EncodePipeline, UnknownFields;
    DecodeEncoded(p);
    NoUnknownFields();
    assert |EncodePipeline(p)| >= |p.unrecognized| by { EncodedIncludesUnknown(p); }
    if UnknownFields(p.unrecognized) {
      DecodeUnknownFields(p.unrecognized, |EncodePipeline(p)| - |p.unrecognized|, p.(unrecognized := []));
      assert [] + p.unrecognized == p.unrecognized;
    }
    if Decode(EncodePipeline(p), 0, EMPTY) == Decoded(p, NoError) {
      DecodeKeepsUnknown(EncodePipeline(p), 0, EMPTY);
    }
  }

  /** Re-encoding what was decoded from any bytes, then decoding again, changes nothing. */
  lemma ReencodingIsStable(d: seq<byte>)
    requires Decode(d, 0, EMPTY).err == NoError
    requires |EncodePipeline(Decode(d, 0, EMPTY).p)| < TWO_63
    ensures Decode(EncodePipeline(Decode(d, 0, EMPTY).p), 0, EMPTY) == Decode(d, 0, EMPTY)
  {
    DecodeKeepsUnknown(d, 0, EMPTY);
    CodecRoundTrip(Decode(d, 0, EMPTY).p);
  }
}
