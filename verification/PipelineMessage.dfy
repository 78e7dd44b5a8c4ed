/** The generated methods of Pipeline, proved against the wire format of PipelineCodec. */
module PipelineMessage {
  import opened Basics
  import opened Varint
  import opened PipelineCodec
  import opened PipelineWire

  /** encodeVarintPipeline: writes v so that it ends just before `offset`. */
  method EncodeVarint(d: array<byte>, offset: nat, v: uint64) returns (base: nat)
    requires Sov(v) <= offset <= d.Length
    modifies d
    ensures base == offset - |Encode(v)|
    ensures d[base..offset] == Encode(v)
    ensures d[..base] == old(d[..base]) && d[offset..] == old(d[offset..])
  {
    hide Encode, Sov;
    SovIsEncodedSize(v);
    base := offset - Sov(v);
    var o, w := base, v;
    while w >= 128
      invariant base <= o && o + |Encode(w)| == offset
      invariant d[base..o] + Encode(w) == Encode(v)
      invariant d[..base] == old(d[..base]) && d[offset..] == old(d[offset..])
      decreases w
    {
      EncodeStep(w);
      ghost var done := d[base..o];
      OrTopBit(w);
      hide Or;
      d[o] := Or(w % 128, 128);
      w := w / 128;
      o := o + 1;
      assert d[base..o] == done + [d[o - 1]];
      assert d[base..o] + Encode(w) == done + ([d[o - 1]] + Encode(w));
    }
    EncodeStep(w);
    d[o] := w;
    assert d[base..offset] == d[base..o] + [w];
  }

  lemma EncodeStep(v: nat)
    ensures Encode(v) == if v < 128 then [v] else [v % 128 + 128] + Encode(v / 128)
  {
  }

  /** One turn of the loop of skipPipeline: a tag and the value that belongs to it. */
  method SkipTag(d: seq<byte>, i: nat, depth: nat) returns (next: nat, depth': nat, err: Error)
    requires i < |d|
    ensures (if err == NoError then Inside(next, depth') else OneError(err)) == SkipOne(d, i, depth)
  {
    hide ScanVarint;
    depth' := depth;
    var wire;
    wire, next, err := ReadVarint(d, i, true);
    if err != NoError { return; }
    ghost var tag := ScanVarint(d[i..]);
    assert wire % 8 == tag.value % 8;
    match wire % 8 {
      case 0 =>
        var _, after, e := ReadVarint(d, next, true);
        next, err := after, e;
      case 1 => next := next + 8;
      case 2 =>
        var length, after, e := ReadVarint(d, next, true);
        if e != NoError {
          err := e;
        } else if ToInt64(length) < 0 {
          err := InvalidLength;
        } else {
          next := after + ToInt64(length);
        }
      case 3 => depth' := depth + 1;
      case 4 =>
        if depth == 0 {
          err := UnexpectedEndOfGroup;
        } else {
          depth' := depth - 1;
        }
      case 5 => next := next + 4;
      case _ => err := IllegalWireType;
    }
  }

  /** skipPipeline */
  method SkipPipeline(d: seq<byte>) returns (n: nat, err: Error)
    requires |d| < TWO_63
    ensures (if err == NoError then Skipped(n) else SkipError(err)) == Skip(d, 0, 0)
  {
    var i, depth: nat := 0, 0;
    while i < |d|
      invariant i < TWO_63 && Skip(d, 0, 0) == Skip(d, i, depth)
      decreases |d| - i
    {
      var next, depth', e := SkipTag(d, i, depth);
      if e != NoError { return 0, e; }
      if next >= TWO_63 { return 0, InvalidLength; }  // the int index has wrapped below zero
      if depth' == 0 { return next, NoError; }
      i, depth := next, depth';
    }
    return 0, UnexpectedEOF;
  }

  class Pipeline {
    var pgId: uint64
    var raftId: seq<uint64>
    var syncType: int32
    var clusterTerm: uint64
    var unrecognized: seq<byte>

    function View(): PipelineValue
      reads this
    {
      PipelineValue(pgId, raftId, syncType, clusterTerm, unrecognized)
    }

    constructor ()
      ensures View() == EMPTY
      ensures pgId == 0 && raftId == [] && syncType == 0 && clusterTerm == 0 && unrecognized == []
    {
      pgId, raftId, syncType, clusterTerm, unrecognized := 0, [], 0, 0, [];
    }

    /** Fewer than 2^63 bytes, as every Go slice. */
    method Size() returns (n: nat)
      requires |EncodePipeline(View())| < TWO_63
      ensures n == |EncodePipeline(View())|
    {
      n := 0;
      if pgId != 0 {
        SovIsEncodedSize(pgId);
        n := n + 1 + Sov(pgId);
      }
      if |raftId| > 0 {
        var l := PackedSize();
        SovIsEncodedSize(l);
        n := n + 1 + Sov(l) + l;
      }
      if syncType != 0 {
        SovIsEncodedSize(SignExtend(syncType));
        n := n + 1 + Sov(SignExtend(syncType));
      }
      if clusterTerm != 0 {
        SovIsEncodedSize(clusterTerm);
        n := n + 1 + Sov(clusterTerm);
      }
      n := n + |unrecognized|;
    }

    method PackedSize() returns (l: nat)
      ensures l == |Pack(raftId)|
    {
      l := 0;
      for i := 0 to |raftId|
        invariant l == |Pack(raftId[..i])|
      {
        PackSnoc(raftId[..i], raftId[i]);
        assert raftId[..i] + [raftId[i]] == raftId[..i + 1];
        SovIsEncodedSize(raftId[i]);
        l := l + Sov(raftId[i]);
      }
      assert raftId[..|raftId|] == raftId;
    }

    /** The packed elements, written forward into a scratch buffer of ten bytes per element. */
    method PackElements() returns (scratch: array<byte>, used: nat)
      ensures fresh(scratch) && used <= scratch.Length
      ensures scratch[..used] == Pack(raftId)
    {
      scratch := new byte[|raftId| * 10];
      used := 0;
      for i := 0 to |raftId|
        invariant used <= 10 * i && scratch[..used] == Pack(raftId[..i])
      {
        used := AppendVarint(scratch, used, raftId[i]);
        PackSnoc(raftId[..i], raftId[i]);
        assert raftId[..i] + [raftId[i]] == raftId[..i + 1];
      }
      assert raftId[..|raftId|] == raftId;
    }

    /** The fields that are not zero, by number, and then the unrecognized bytes. */
    method Marshal() returns (d: array<byte>)
      requires |EncodePipeline(View())| < TWO_63
      ensures fresh(d) && d[..] == EncodePipeline(View())
      ensures d[..] == Wire(Present(pgId, raftId, syncType, clusterTerm)) + unrecognized
    {
      EncodedIsWire(View());
      hide Wire, Present;
      var size := Size();
      d := new byte[size];
      var n := MarshalToSizedBuffer(d);
      assert d[d.Length - n..] == d[..];
    }

    /** Fills the tail of d with the encoding and leaves what is before it alone. */
    method MarshalToSizedBuffer(d: array<byte>) returns (n: nat)
      requires |EncodePipeline(View())| < TWO_63 && |EncodePipeline(View())| <= d.Length
      modifies d
      ensures n == |EncodePipeline(View())|
      ensures d[d.Length - n..] == EncodePipeline(View())
      ensures d[d.Length - n..] == Wire(Present(pgId, raftId, syncType, clusterTerm)) + unrecognized
      ensures d[..d.Length - n] == old(d[..d.Length - n])
    {
      EncodedIsWire(View());
      hide VarintField, PackedField, Filled, Wire, Present;
      ghost var before := d[..];
      var i := d.Length - |unrecognized|;
      CopyAt(d, i, unrecognized);
      FilledFirst(before, d[..], i, unrecognized);
      i := PutTail(d, i, 0x20, clusterTerm, before, unrecognized);
      ghost var tail := VarintField(0x20, clusterTerm) + unrecognized;
      i := PutTail(d, i, 0x18, SignExtend(syncType), before, tail);
      tail := VarintField(0x18, SignExtend(syncType)) + tail;
      ghost var mid, at := d[..], i;
      i := PutRaftId(d, i);
      FilledMore(before, mid, d[..], at, i, PackedField(raftId), tail);
      i := PutTail(d, i, 0x08, pgId, before, PackedField(raftId) + tail);
      FilledTail(before, d[..], i, EncodePipeline(View()));
      n := d.Length - i;
    }

    /** Field 2, packed, just before index i. */
    method PutRaftId(d: array<byte>, i: nat) returns (j: nat)
      requires |PackedField(raftId)| <= i <= d.Length && |PackedField(raftId)| < TWO_63
      modifies d
      ensures j == i - |PackedField(raftId)|
      ensures d[j..] == PackedField(raftId) + old(d[i..])
      ensures d[..j] == old(d[..j])
    {
      hide Encode, Pack, PackedField;
      PackedIs(raftId, d[i..]);
      j := i;
      if |raftId| > 0 {
        var scratch, used := PackElements();
        j := PutBytes(d, i, scratch[..used]);
        ghost var mid := d[..j];
        j := PutTagged(d, j, 0x12, used);
        assert d[..j] == mid[..j];
      }
    }

    /**
     * Merges the fields of d into this message, up to the first error. Of a singular field the
     * last value counts, a repeated one is appended to, and unknown fields are kept.
     */
    method Unmarshal(d: seq<byte>) returns (err: Error)
      requires |d| < TWO_63
      modifies this
      ensures Decoded(View(), err) == Decode(d, 0, old(View()))
      ensures forall items ::
                d == Wire(items) && (forall i :: 0 <= i < |items| ==> IsItem(items[i])) ==>
                  && err == NoError
                  && pgId == Latest(LastValue(items, 1), old(pgId))
                  && raftId == old(raftId) + AllListed(items)
                  && syncType == LatestInt32(LastValue(items, 3), old(syncType))
                  && clusterTerm == Latest(LastValue(items, 4), old(clusterTerm))
                  && unrecognized == old(unrecognized) + AllOther(items)
    {
      err := UnmarshalFields(d);
      forall items | d == Wire(items) && forall i :: 0 <= i < |items| ==> IsItem(items[i])
        ensures Decode(d, 0, old(View())) == Decoded(Merged(items, old(View())), NoError)
      {
        DecodeItems(items, 0, old(View()));
      }
      hide Decode, Wire, IsItem;
    }

    /** The loop of Unmarshal. */
    method UnmarshalFields(d: seq<byte>) returns (err: Error)
      requires |d| < TWO_63
      modifies this
      ensures Decoded(View(), err) == Decode(d, 0, old(View()))
    {
      hide DecodeField;
      var i := 0;
      while i < |d|
        invariant i <= |d| && Decode(d, 0, old(View())) == Decode(d[i..], i, View())
        decreases |d| - i
      {
        ghost var here := i;
        i, err := UnmarshalField(d, i);
        if err != NoError { return; }
        assert d[here..][i - here..] == d[i..];
      }
      return NoError;
    }

    /** One turn of the loop of Unmarshal, from index i. */
    method UnmarshalField(d: seq<byte>, i: nat) returns (next: nat, err: Error)
      requires i < |d| < TWO_63
      modifies this
      ensures next >= i
      ensures (if err == NoError then Parsed(View(), next - i) else Failed(View(), err))
           == DecodeField(d[i..], i, old(View()))
    {
      hide ScanVarint, DecodeSingular, DecodeRaftId, DecodeUnknown, FieldNumber;
      var wire;
      wire, next, err := ReadVarint(d, i, true);
      if err != NoError { return i, err; }
      ghost var tag := ScanVarint(d[i..]);
      TagOfWrapped(tag.value);
      var fieldNum, wireType := FieldNumber(wire), wire % 8;
      if wireType == 4 { return next, EndGroup; }
      if fieldNum <= 0 { return next, IllegalTag; }
      match fieldNum {
        case 2 => next, err := UnmarshalRaftId(d, i, next, wireType);
        case 1 =>
          if wireType != 0 { return next, WrongWireType; }
          next, err := UnmarshalSingular(d, i, next, 1);
        case 3 =>
          if wireType != 0 { return next, WrongWireType; }
          next, err := UnmarshalSingular(d, i, next, 3);
        case 4 =>
          if wireType != 0 { return next, WrongWireType; }
          next, err := UnmarshalSingular(d, i, next, 4);
        case _ => next, err := UnmarshalUnknown(d, i);
      }
    }

    method UnmarshalSingular(d: seq<byte>, i: nat, at: nat, number: int) returns (next: nat, err: Error)
      requires i < at <= |d| && (number == 1 || number == 3 || number == 4)
      modifies this
      ensures next >= i
      ensures (if err == NoError then Parsed(View(), next - i) else Failed(View(), err))
           == DecodeSingular(d[i..], at - i, number, old(View()))
    {
      hide ScanVarint;
      assert d[i..][at - i..] == d[at..];
      var v;
      v, next, err := ReadVarint(d, at, number != 3);
      if number == 1 {
        pgId := v;
      } else if number == 3 {
        syncType := ToInt32(v);
      } else {
        clusterTerm := v;
      }
      if err != NoError { next := i; }
    }

    method UnmarshalRaftId(d: seq<byte>, i: nat, at: nat, wireType: nat) returns (next: nat, err: Error)
      requires i < at <= |d| < TWO_63
      modifies this
      ensures next >= i
      ensures (if err == NoError then Parsed(View(), next - i) else Failed(View(), err))
           == DecodeRaftId(d[i..], at - i, wireType, i, old(View()))
    {
      hide ScanVarint, DecodeElements;
      if wireType != 0 && wireType != 2 { return i, WrongWireType; }
      assert d[i..][at - i..] == d[at..];
      var v;
      v, next, err := ReadVarint(d, at, true);
      if err != NoError { return i, err; }
      if wireType == 0 {
        raftId := raftId + [v];
        return;
      }
      var packedLen := ToInt64(v);
      if packedLen < 0 { return i, InvalidLength; }
      var postIndex := next + packedLen;
      if ToInt64(postIndex) < 0 { return i, InvalidLength; }
      if postIndex > |d| { return i, UnexpectedEOF; }
      assert d[i..][next - i..] == d[next..];
      next, err := UnmarshalElements(d, next, postIndex);
    }

    method UnmarshalElements(d: seq<byte>, start: nat, postIndex: nat) returns (next: nat, err: Error)
      requires start <= postIndex <= |d|
      modifies this
      ensures next >= start
      ensures var e := DecodeElements(d[start..], postIndex - start);
              && err == e.err && (err == NoError ==> next == start + e.used)
              && View() == old(View()).(raftId := old(raftId) + e.vs)
    {
      hide ScanVarint, DecodeElements;
      next := start;
      ghost var all := DecodeElements(d[start..], postIndex - start);
      ghost var got: seq<uint64>, rest := [], all;
      while next < postIndex
        invariant start <= next <= |d|
        invariant View() == old(View()).(raftId := old(raftId) + got)
        invariant rest == DecodeElements(d[next..], postIndex - next)
        invariant all.vs == got + rest.vs && all.used == next - start + rest.used && all.err == rest.err
        decreases |d| - next
      {
        ghost var here := next;
        ElementsStep(d[here..], postIndex - here);
        var v;
        v, next, err := ReadVarint(d, next, true);
        if err != NoError { return start, err; }
        raftId := raftId + [v];
        assert d[here..][next - here..] == d[next..];
        got, rest := got + [v], DecodeElements(d[next..], postIndex - next);
      }
      ElementsEnd(d[next..], postIndex - next);
      err := NoError;
    }

    method UnmarshalUnknown(d: seq<byte>, i: nat) returns (next: nat, err: Error)
      requires i < |d| < TWO_63
      modifies this
      ensures next >= i
      ensures (if err == NoError then Parsed(View(), next - i) else Failed(View(), err))
           == DecodeUnknown(d[i..], i, old(View()))
    {
      hide Skip;
      var skippy;
      skippy, err := SkipPipeline(d[i..]);
      if err != NoError { return i, err; }
      if i + skippy >= TWO_63 { return i, InvalidLength; }  // the int sum has wrapped below zero
      if i + skippy > |d| { return i, UnexpectedEOF; }
      unrecognized := unrecognized + d[i..i + skippy];
      assert d[i..][..skippy] == d[i..i + skippy];
      next := i + skippy;
    }
  }

  lemma TagOfWrapped(wire: nat)
    ensures FieldNumber(wire % TWO_64) == FieldNumber(wire) && wire % TWO_64 % 8 == wire % 8
  {
    hide ToInt32;
    var q, r := wire / TWO_64, wire % TWO_64;
    assert wire == r + 8 * (q * 0x2000_0000_0000_0000);
    RemainderOf8(r, q * 0x2000_0000_0000_0000);
  }

  lemma RemainderOf8(r: nat, k: nat)
    ensures (r + 8 * k) % 8 == r % 8
  {
  }

  lemma {:induction false} PackSnoc(vs: seq<uint64>, v: uint64)
    ensures Pack(vs + [v]) == Pack(vs) + Encode(v)
  {
    hide Encode;
    if vs == [] {
      assert Pack([v]) == Encode(v) + Pack([]);
    } else {
      PackSnoc(vs[1..], v);
      assert (vs + [v])[1..] == vs[1..] + [v];
      assert Encode(vs[0]) + (Pack(vs[1..]) + Encode(v)) == Pack(vs) + Encode(v);
    }
  }

  method AppendVarint(d: array<byte>, start: nat, v: uint64) returns (end: nat)
    requires start + 10 <= d.Length
    modifies d
    ensures end == start + |Encode(v)| <= start + 10
    ensures d[..end] == old(d[..start]) + Encode(v)
  {
    hide Encode, Sov;
    SovIsEncodedSize(v);
    end := start;
    var w := v;
    while w >= 128
      invariant start <= end && end + |Encode(w)| == start + |Encode(v)|
      invariant d[..end] + Encode(w) == old(d[..start]) + Encode(v)
      decreases w
    {
      ghost var done := d[..end];
      EncodeStep(w);
      OrTopBit(w);
      hide Or;
      d[end] := Or(w % 128, 128);
      w := w / 128;
      end := end + 1;
      assert d[..end] == done + [d[end - 1]];
      assert d[..end] + Encode(w) == done + ([d[end - 1]] + Encode(w));
    }
    EncodeStep(w);
    d[end] := w;
    end := end + 1;
    assert d[..end] == d[..end - 1] + [w];
  }

  /** copy(d[at:], s) */
  method CopyAt(d: array<byte>, at: nat, s: seq<byte>)
    requires at + |s| <= d.Length
    modifies d
    ensures d[at..at + |s|] == s
    ensures d[..at] == old(d[..at]) && d[at + |s|..] == old(d[at + |s|..])
  {
    for k := 0 to |s|
      invariant d[at..at + k] == s[..k]
      invariant d[..at] == old(d[..at]) && d[at + |s|..] == old(d[at + |s|..])
    {
      d[at + k] := s[k];
    }
  }

  lemma PackedIs(vs: seq<uint64>, rest: seq<byte>)
    ensures vs == [] ==> PackedField(vs) + rest == rest && |PackedField(vs)| == 0
    ensures vs != [] ==> PackedField(vs) + rest == [0x12] + Encode(|Pack(vs)|) + (Pack(vs) + rest)
                         && |PackedField(vs)| == 1 + |Encode(|Pack(vs)|)| + |Pack(vs)|
  {
  }

  /** Bytes just before index i. */
  method PutBytes(d: array<byte>, i: nat, s: seq<byte>) returns (j: nat)
    requires |s| <= i <= d.Length
    modifies d
    ensures j == i - |s| && d[j..] == s + old(d[i..]) && d[..j] == old(d[..j])
  {
    j := i - |s|;
    CopyAt(d, j, s);
    assert d[j..] == d[j..i] + d[i..];
  }

  /** A tag and a varint just before index i. */
  method PutTagged(d: array<byte>, i: nat, tag: byte, v: uint64) returns (j: nat)
    requires 1 + |Encode(v)| <= i <= d.Length
    modifies d
    ensures j == i - 1 - |Encode(v)|
    ensures d[j..] == [tag] + Encode(v) + old(d[i..])
    ensures d[..j] == old(d[..j])
  {
    SovIsEncodedSize(v);
    j := EncodeVarint(d, i, v);
    ghost var after := d[j..];
    assert after == d[j..i] + d[i..];
    j := j - 1;
    d[j] := tag;
    assert d[j..] == [tag] + after;
  }

  /** d ends with tail, from index i on, and is as before below it. */
  ghost predicate Filled(before: seq<byte>, d: seq<byte>, i: nat, tail: seq<byte>) {
    |d| == |before| && i <= |d| && d[i..] == tail && d[..i] == before[..i]
  }

  lemma FilledFirst(before: seq<byte>, d: seq<byte>, i: nat, s: seq<byte>)
    requires |d| == |before| == i + |s| && d[i..i + |s|] == s && d[..i] == before[..i]
    ensures Filled(before, d, i, s)
  {
    assert d[i..i + |s|] == d[i..];
  }

  lemma FilledMore(before: seq<byte>, mid: seq<byte>, d: seq<byte>, i: nat, j: nat, field: seq<byte>, tail: seq<byte>)
    requires Filled(before, mid, i, tail) && |d| == |mid| && j <= i <= |d|
    requires d[j..] == field + mid[i..] && d[..j] == mid[..j]
    ensures Filled(before, d, j, field + tail)
  {
    assert mid[..j] == mid[..i][..j] == before[..i][..j] == before[..j];
  }

  lemma FilledTail(before: seq<byte>, d: seq<byte>, i: nat, tail: seq<byte>)
    requires Filled(before, d, i, tail)
    ensures |d| == |before| && i <= |d| && d[i..] == tail && d[..i] == before[..i]
  {
  }

  /** The same, for a buffer that is being filled from its end. */
  method PutTail(d: array<byte>, i: nat, tag: byte, v: uint64, ghost before: seq<byte>, ghost tail: seq<byte>) returns (j: nat)
    requires |VarintField(tag, v)| <= i <= d.Length && Filled(before, d[..], i, tail)
    modifies d
    ensures j == i - |VarintField(tag, v)| && Filled(before, d[..], j, VarintField(tag, v) + tail)
  {
    hide VarintField, Filled;
    ghost var mid := d[..];
    j := PutVarintField(d, i, tag, v);
    assert mid[i..] == old(d[i..]) && mid[..j] == old(d[..j]);
    assert d[..][j..] == d[j..] && d[..][..j] == d[..j];
    FilledMore(before, mid, d[..], i, j, VarintField(tag, v), tail);
  }

  /** A singular field just before index i; nothing when it is zero. */
  method PutVarintField(d: array<byte>, i: nat, tag: byte, v: uint64) returns (j: nat)
    requires |VarintField(tag, v)| <= i <= d.Length
    modifies d
    ensures j == i - |VarintField(tag, v)|
    ensures d[j..] == VarintField(tag, v) + old(d[i..])
    ensures d[..j] == old(d[..j])
  {
    hide Encode;
    j := i;
    if v != 0 {
      j := PutTagged(d, i, tag, v);
    }
  }
}
