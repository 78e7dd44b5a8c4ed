/** parseRange: the Range header of section 2.1 of RFC 7233. */
module HttpRange {
  import opened Basics
  import opened Decimal
  import opened Strings

  datatype Range = Range(start: int64, length: int64)

  datatype Result = Ranges(ranges: seq<Range>) | InvalidRange

  const UNIT := "bytes="

  // -- The parser --------------------------------------------------------------------------------

  predicate IsSpace(c: char) {
    c == ' ' || c == '\t' || c == '\n' || c == '\r'
  }

  /** textproto.TrimString. */
  function Trim(s: string): string {
    if s == "" then s
    else if IsSpace(s[0]) then Trim(s[1..])
    else if IsSpace(s[|s| - 1]) then Trim(s[..|s| - 1])
    else s
  }

  /** Blanks, tabs and line ends are taken off both ends, and nothing else. */
  lemma {:induction false} TrimIs(s: string) returns (before: nat, after: nat)
    ensures before <= after <= |s| && Trim(s) == s[before..after]
    ensures forall i :: 0 <= i < before || after <= i < |s| ==> s[i] == ' ' || s[i] == '\t' || s[i] == '\n' || s[i] == '\r'
    ensures before < after ==> !IsSpace(s[before]) && !IsSpace(s[after - 1])
    decreases |s|
  {
    before, after := 0, |s|;
    if s == "" {
      assert s[0..0] == s;
    } else if IsSpace(s[0]) {
      var rest := s[1..];
      before, after := TrimIs(rest);
      assert forall i :: 0 < i < |s| ==> s[i] == rest[i - 1];
      assert rest[before..after] == s[before + 1..after + 1];
      before, after := before + 1, after + 1;
    } else if IsSpace(s[|s| - 1]) {
      var front := s[..|s| - 1];
      before, after := TrimIs(front);
      assert forall i :: 0 <= i < |front| ==> s[i] == front[i];
      assert front[before..after] == s[before..after];
    } else {
      assert s[0..|s|] == s;
    }
  }

  /** The part before the first '-' and the part after it. */
  function Cut(s: string): (r: Option<(string, string)>)
    ensures r.None? <==> '-' !in s
    ensures r.Some? ==> '-' !in r.value.0 && s == r.value.0 + "-" + r.value.1
  {
    if s == "" then None
    else if s[0] == '-' then Some(("", s[1..]))
    else
      match Cut(s[1..])
      case None => None
      case Some(p) => Some(([s[0]] + p.0, p.1))
  }

  /** What one element of the header stands for. */
  datatype Element = Skip | Bad | NoOverlap | Found(r: Range)

  function ParseSuffix(end: string, size: int64): Element {
    match ParseInt(end)
    case None => Bad
    case Some(n) =>
      var start := ToInt64(size - (if n > size then size else n));
      Found(Range(start, ToInt64(size - start)))
  }

  function ParseFirst(start: string, end: string, size: int64): Element {
    match ParseInt(start)
    case None => Bad
    case Some(first) =>
      if first < 0 then Bad
      else if first >= size then NoOverlap
      else if end == "" then Found(Range(first, size - first))
      else
        match ParseInt(end)
        case None => Bad
        case Some(last) =>
          if first > last then Bad else Found(Range(first, (if last >= size then size - 1 else last) - first + 1))
  }

  function ParseElement(piece: string, size: int64): Element {
    var ra := Trim(piece);
    if ra == "" then Skip
    else
      match Cut(ra)
      case None => Bad
      case Some(p) =>
        if Trim(p.0) == "" then ParseSuffix(Trim(p.1), size) else ParseFirst(Trim(p.0), Trim(p.1), size)
  }

  function Elements(pieces: seq<string>, size: int64): (r: seq<Element>)
    ensures |r| == |pieces| && forall i :: 0 <= i < |r| ==> r[i] == ParseElement(pieces[i], size)
  {
    if pieces == [] then [] else Elements(pieces[..|pieces| - 1], size) + [ParseElement(pieces[|pieces| - 1], size)]
  }

  /** The ranges among the elements, in order. */
  function Collect(es: seq<Element>): seq<Range> {
    if es == [] then []
    else
      var last := es[|es| - 1];
      Collect(es[..|es| - 1]) + (if last.Found? then [last.r] else [])
  }

  predicate HasPrefix(s: string, p: string) {
    p <= s
  }

  /** The whole header: any bad element spoils it, and so does having only ranges past the end. */
  function Parse(s: string, size: int64): Result {
    if s == "" then Ranges([])
    else if !HasPrefix(s, UNIT) then InvalidRange
    else Outcome(Elements(Split(s[|UNIT|..], ','), size))
  }

  function Outcome(es: seq<Element>): Result {
    if Bad in es || (NoOverlap in es && Collect(es) == []) then InvalidRange else Ranges(Collect(es))
  }

  lemma TakeOne(es: seq<Element>, k: nat)
    requires k < |es|
    ensures Collect(es[..k + 1]) == Collect(es[..k]) + (if es[k].Found? then [es[k].r] else [])
    ensures forall e :: e in es[..k + 1] <==> e in es[..k] || e == es[k]
  {
    assert es[..k + 1] == es[..k] + [es[k]] && es[..k + 1][..k] == es[..k];
  }

  /** parseRange, which stops at the first bad element. */
  method ParseRange(s: string, size: int64) returns (r: Result)
    ensures r == Parse(s, size)
  {
    if s == "" { return Ranges([]); }
    if !HasPrefix(s, UNIT) { return InvalidRange; }
    var pieces := Split(s[|UNIT|..], ',');
    ghost var es := Elements(pieces, size);
    var ranges, noOverlap := [], false;
    for k := 0 to |pieces|
      invariant ranges == Collect(es[..k]) && Bad !in es[..k] && (noOverlap <==> NoOverlap in es[..k])
    {
      hide ParseElement, Elements, Collect, Split;
      TakeOne(es, k);
      var e := ParseElement(pieces[k], size);
      match e {
        case Skip =>
        case Bad =>
          assert es[k] in es;
          return InvalidRange;
        case NoOverlap => noOverlap := true;
        case Found(range) => ranges := ranges + [range];
      }
    }
    assert es[..|pieces|] == es;
    if noOverlap && |ranges| == 0 { return InvalidRange; }
    return Ranges(ranges);
  }

  // -- Bounds --------------------------------------------------------------------------------------

  predicate Inside(r: Range, size: int64) {
    0 <= r.start && 0 <= r.length && r.start + r.length <= size
  }

  /** A suffix range with a negative number, such as "--5". */
  predicate NegativeSuffix(piece: string) {
    var cut := Cut(Trim(piece));
    && cut.Some? && Trim(cut.value.0) == ""
    && var n := ParseInt(Trim(cut.value.1));
    n.Some? && n.value < 0
  }

  lemma FirstInside(start: string, end: string, size: int64)
    requires size >= 0
    ensures var e := ParseFirst(start, end, size); e.Found? ==> Inside(e.r, size)
  {
    hide ParseInt;
  }

  /** A negative number takes the start past the end, or wraps around to a negative one. */
  lemma SuffixInside(end: string, size: int64)
    requires size >= 0 && ParseInt(end).Some?
    ensures var e := ParseSuffix(end, size); e.Found? && (Inside(e.r, size) <==> ParseInt(end).value >= 0)
  {
    hide ParseInt;
  }

  lemma ElementInside(piece: string, size: int64)
    requires size >= 0
    ensures var e := ParseElement(piece, size); e.Found? ==> (Inside(e.r, size) <==> !NegativeSuffix(piece))
    ensures NegativeSuffix(piece) ==> ParseElement(piece, size).Found?
  {
    hide Trim, Cut, ParseInt, ParseFirst, ParseSuffix, Inside;
    var ra := Trim(piece);
    if ra != "" && Cut(ra).Some? {
      var p := Cut(ra).value;
      FirstInside(Trim(p.0), Trim(p.1), size);
      if ParseInt(Trim(p.1)).Some? {
        SuffixInside(Trim(p.1), size);
      } else {
        BadSuffix(Trim(p.1), size);
      }
    }
  }

  lemma BadSuffix(end: string, size: int64)
    requires ParseInt(end).None?
    ensures ParseSuffix(end, size) == Bad
  {
  }

  lemma {:induction false} CollectIs(es: seq<Element>, r: Range)
    ensures r in Collect(es) <==> Found(r) in es
  {
    if es != [] {
      var last := |es| - 1;
      CollectIs(es[..last], r);
      assert es == es[..last] + [es[last]];
    }
  }

  /** All ranges of a valid header lie within the object iff no element is a negative suffix. */
  lemma RangesInside(s: string, size: int64)
    requires size >= 0 && HasPrefix(s, UNIT) && Parse(s, size).Ranges?
    ensures (forall r :: r in Parse(s, size).ranges ==> Inside(r, size))
       <==> (forall piece :: piece in Split(s[|UNIT|..], ',') ==> !NegativeSuffix(piece))
  {
    var pieces := Split(s[|UNIT|..], ',');
    var es := Elements(pieces, size);
    hide ParseElement, NegativeSuffix, Split, Inside;
    forall r ensures r in Parse(s, size).ranges <==> Found(r) in es {
      CollectIs(es, r);
    }
    forall k | 0 <= k < |pieces|
      ensures es[k].Found? ==> (Inside(es[k].r, size) <==> !NegativeSuffix(pieces[k]))
      ensures NegativeSuffix(pieces[k]) ==> es[k].Found? && es[k].r in Parse(s, size).ranges
    {
      ElementInside(pieces[k], size);
      if NegativeSuffix(pieces[k]) {
        assert Found(es[k].r) == es[k] && es[k] in es;
      }
    }
  }

  /** A range that starts within the integers lies inside, or starts past the end with a negative length. */
  lemma RangeShape(s: string, size: int64, r: Range)
    requires size >= 0 && Parse(s, size).Ranges? && r in Parse(s, size).ranges && r.start >= 0
    ensures Inside(r, size) || (r.start > size && r.length < 0)
  {
    hide Split, ParseElement;
    if HasPrefix(s, UNIT) && s != "" {
      var pieces := Split(s[|UNIT|..], ',');
      var es := Elements(pieces, size);
      CollectIs(es, r);
      var k :| 0 <= k < |es| && es[k] == Found(r);
      ElementShape(pieces[k], size);
    }
  }

  lemma ElementShape(piece: string, size: int64)
    requires size >= 0 && ParseElement(piece, size).Found? && ParseElement(piece, size).r.start >= 0
    ensures var r := ParseElement(piece, size).r; Inside(r, size) || (r.start > size && r.length < 0)
  {
    hide Trim, Cut, ParseInt;
  }

  // -- The grammar ---------------------------------------------------------------------------------

  /** A byte-range-spec, or a suffix-byte-range-spec if first is empty; numbers are 1*DIGIT. */
  datatype Spec = Spec(first: string, last: string)

  /** An element of the list: a spec or nothing, with optional white space around it. */
  datatype Item = Item(before: string, spec: Option<Spec>, after: string)

  ghost predicate IsSpec(spec: Spec) {
    AllDigits(spec.first) && AllDigits(spec.last) && (spec.first != "" || spec.last != "")
  }

  ghost predicate Blank(s: string) {
    forall i :: 0 <= i < |s| ==> IsSpace(s[i])
  }

  ghost predicate IsItem(item: Item) {
    Blank(item.before) && Blank(item.after) && (item.spec.Some? ==> IsSpec(item.spec.value))
  }

  function Body(spec: Option<Spec>): string {
    match spec
    case None => ""
    case Some(p) => p.first + "-" + p.last
  }

  function RenderItem(item: Item): string {
    item.before + Body(item.spec) + item.after
  }

  function RenderItems(items: seq<Item>): (pieces: seq<string>)
    ensures |pieces| == |items| && forall i :: 0 <= i < |items| ==> pieces[i] == RenderItem(items[i])
  {
    seq(|items|, i requires 0 <= i < |items| => RenderItem(items[i]))
  }

  function Header(items: seq<Item>): string {
    UNIT + Join(RenderItems(items), ',')
  }

  /** The byte positions that a spec selects from a representation of the given size. */
  ghost predicate Selects(spec: Spec, size: int64, p: int)
    requires IsSpec(spec)
  {
    && 0 <= p < size
    && if spec.first == "" then size - Value(spec.last) <= p
       else Value(spec.first) <= p && (spec.last != "" ==> p <= Value(spec.last))
  }

  /** A number that the parser has to read does not fit into an int64. */
  ghost predicate TooLarge(spec: Spec, size: int64)
    requires IsSpec(spec)
  {
    if spec.first == "" then Value(spec.last) >= TWO_63
    else Value(spec.first) >= TWO_63 || (Value(spec.first) < size && spec.last != "" && Value(spec.last) >= TWO_63)
  }

  /** The last position is before the first, which is not past the end. */
  ghost predicate Backwards(spec: Spec, size: int64)
    requires IsSpec(spec)
  {
    spec.first != "" && spec.last != "" && Value(spec.last) < Value(spec.first) < size
  }

  /** What the standard says about the element, unless a number is too large for the parser. */
  ghost predicate Means(e: Element, item: Item, size: int64)
    requires IsItem(item)
  {
    if item.spec.None? then e == Skip
    else if TooLarge(item.spec.value, size) || Backwards(item.spec.value, size) then e == Bad
    else if item.spec.value.first != "" && Value(item.spec.value.first) >= size then e == NoOverlap
    else e.Found? && Inside(e.r, size) && forall p :: e.r.start <= p < e.r.start + e.r.length <==> Selects(item.spec.value, size, p)
  }

  lemma {:induction false} TrimBefore(blank: string, s: string)
    requires Blank(blank)
    ensures Trim(blank + s) == Trim(s)
  {
    if blank == "" {
      assert blank + s == s;
    } else {
      TrimBefore(blank[1..], s);
      assert (blank + s)[1..] == blank[1..] + s;
    }
  }

  lemma {:induction false} TrimAfter(s: string, blank: string)
    requires Blank(blank) && (s == "" || !IsSpace(s[0]))
    ensures Trim(s + blank) == Trim(s)
  {
    if blank == "" {
      assert s + blank == s;
    } else if s == "" {
      assert s + blank == blank + "";
      TrimBefore(blank, "");
    } else {
      TrimAfter(s, blank[..|blank| - 1]);
      assert (s + blank)[..|s + blank| - 1] == s + blank[..|blank| - 1];
    }
  }

  lemma TrimItem(item: Item)
    requires IsItem(item)
    ensures Trim(RenderItem(item)) == Body(item.spec)
  {
    var body := Body(item.spec);
    assert RenderItem(item) == item.before + (body + item.after);
    TrimBefore(item.before, body + item.after);
    TrimAfter(body, item.after);
    if item.spec.Some? {
      var p := item.spec.value;
      assert body[0] == (if p.first != "" then p.first[0] else '-');
      assert body[|body| - 1] == (if p.last != "" then p.last[|p.last| - 1] else '-');
    }
  }

  lemma {:induction false} CutSpec(first: string, last: string)
    requires AllDigits(first)
    ensures Cut(first + "-" + last) == Some((first, last))
  {
    var s := first + "-" + last;
    if first != "" {
      CutSpec(first[1..], last);
      assert s[1..] == first[1..] + "-" + last && s[0] == first[0] && [first[0]] + first[1..] == first;
    } else {
      assert s[0] == '-' && s[1..] == last;
    }
  }

  lemma TrimDigits(s: string)
    requires AllDigits(s)
    ensures Trim(s) == s
  {
  }

  lemma ParseDigits(s: string)
    requires AllDigits(s) && s != ""
    ensures ParseInt(s) == if Value(s) < TWO_63 then Some(Value(s)) else None
  {
    assert IsDigit(s[0]);
  }

  lemma SuffixMeans(item: Item, size: int64)
    requires IsItem(item) && item.spec.Some? && item.spec.value.first == "" && size >= 0
    ensures Means(ParseSuffix(item.spec.value.last, size), item, size)
  {
    ParseDigits(item.spec.value.last);
    hide ParseInt, Value;
  }

  lemma FirstMeans(item: Item, size: int64)
    requires IsItem(item) && item.spec.Some? && item.spec.value.first != "" && size >= 0
    ensures Means(ParseFirst(item.spec.value.first, item.spec.value.last, size), item, size)
  {
    ParseDigits(item.spec.value.first);
    if item.spec.value.last != "" {
      ParseDigits(item.spec.value.last);
    }
    hide ParseInt, Value;
  }

  lemma ElementMeans(item: Item, size: int64)
    requires IsItem(item) && size >= 0
    ensures Means(ParseElement(RenderItem(item), size), item, size)
  {
    TrimItem(item);
    if item.spec.Some? {
      var p := item.spec.value;
      CutSpec(p.first, p.last);
      TrimDigits(p.first);
      TrimDigits(p.last);
      hide Trim, Cut, ParseSuffix, ParseFirst, RenderItem, Means;
      if p.first == "" {
        SuffixMeans(item, size);
      } else {
        FirstMeans(item, size);
      }
    }
  }

  /** No element of the rendered list contains a comma. */
  lemma NoComma(items: seq<Item>)
    requires forall i :: 0 <= i < |items| ==> IsItem(items[i])
    ensures Segments(RenderItems(items), ',')
  {
    forall i | 0 <= i < |items| ensures ',' !in RenderItem(items[i]) {
      assert IsItem(items[i]);
    }
  }

  /**
   * Every header of the grammar: an element with a number that is too large, or that runs
   * backwards, is bad; one that starts past the end gives nothing; and every other spec gives the
   * range of the bytes that the standard selects, in order. A suffix of length 0, which the
   * standard calls unsatisfiable, gives an empty range.
   */
  lemma GrammarParsed(items: seq<Item>, size: int64)
    requires size >= 0 && items != [] && forall i :: 0 <= i < |items| ==> IsItem(items[i])
    ensures var es := Elements(RenderItems(items), size);
            && Parse(Header(items), size) == Outcome(es)
            && forall i :: 0 <= i < |items| ==> Means(es[i], items[i], size)
  {
    var pieces := RenderItems(items);
    NoComma(items);
    SplitJoin(pieces, ',');
    assert Header(items)[|UNIT|..] == Join(pieces, ',');
    hide Join, Split, ParseElement, RenderItem, IsItem, Outcome, Means;
    forall i | 0 <= i < |items| ensures Means(Elements(pieces, size)[i], items[i], size) {
      ElementMeans(items[i], size);
    }
  }

  /** An element that spoils the header. */
  ghost predicate BadItem(item: Item, size: int64)
    requires IsItem(item)
  {
    item.spec.Some? && (TooLarge(item.spec.value, size) || Backwards(item.spec.value, size))
  }

  ghost predicate PastEnd(item: Item, size: int64)
    requires IsItem(item)
  {
    item.spec.Some? && item.spec.value.first != "" && Value(item.spec.value.first) >= size
  }

  lemma MeansCases(e: Element, item: Item, size: int64)
    requires IsItem(item) && Means(e, item, size)
    ensures e == Bad <==> BadItem(item, size)
    ensures e == NoOverlap <==> PastEnd(item, size) && !BadItem(item, size)
    ensures e.Found? <==> item.spec.Some? && !PastEnd(item, size) && !BadItem(item, size)
    ensures PastEnd(item, size) ==> item.spec.Some?
  {
  }

  lemma CollectEmpty(es: seq<Element>)
    ensures Collect(es) == [] <==> forall i :: 0 <= i < |es| ==> !es[i].Found?
  {
    forall i | 0 <= i < |es| && es[i].Found? ensures es[i].r in Collect(es) {
      CollectIs(es, es[i].r);
      assert es[i] in es && es[i] == Found(es[i].r);
    }
    if Collect(es) != [] {
      var r := Collect(es)[0];
      CollectIs(es, r);
    }
  }

  /** The elements mean what the items say. */
  ghost predicate MeansAll(es: seq<Element>, items: seq<Item>, size: int64) {
    && |es| == |items| && (forall i :: 0 <= i < |items| ==> IsItem(items[i]))
    && forall i :: 0 <= i < |items| ==> Means(es[i], items[i], size)
  }

  lemma SomeBad(es: seq<Element>, items: seq<Item>, size: int64)
    requires MeansAll(es, items, size)
    ensures Bad in es <==> exists i :: 0 <= i < |items| && BadItem(items[i], size)
  {
    hide IsItem, Means, BadItem, PastEnd;
    forall i | 0 <= i < |items| ensures es[i] == Bad <==> BadItem(items[i], size) {
      MeansCases(es[i], items[i], size);
    }
  }

  lemma NothingFound(es: seq<Element>, items: seq<Item>, size: int64)
    requires MeansAll(es, items, size) && Bad !in es
    ensures NoOverlap in es && Collect(es) == [] <==> AllPastEnd(items, size)
  {
    CollectEmpty(es);
    hide IsItem, Means, BadItem, PastEnd, Collect;
    forall i | 0 <= i < |items|
      ensures es[i] == NoOverlap <==> PastEnd(items[i], size)
      ensures es[i].Found? <==> items[i].spec.Some? && !PastEnd(items[i], size)
    {
      assert es[i] in es;
      MeansCases(es[i], items[i], size);
    }
  }

  /** No spec is left that would give a range, and at least one was there. */
  ghost predicate AllPastEnd(items: seq<Item>, size: int64)
    requires forall i :: 0 <= i < |items| ==> IsItem(items[i])
  {
    && (exists i :: 0 <= i < |items| && PastEnd(items[i], size))
    && (forall i :: 0 <= i < |items| && items[i].spec.Some? ==> PastEnd(items[i], size))
  }

  /**
   * A header of the grammar is refused if and only if it has a number that is too large or a spec
   * that runs backwards within the object, or it has specs and all of them start past the end.
   */
  lemma GrammarRefused(items: seq<Item>, size: int64)
    requires size >= 0 && items != [] && forall i :: 0 <= i < |items| ==> IsItem(items[i])
    ensures Parse(Header(items), size) == InvalidRange <==>
            (AllPastEnd(items, size) || exists i :: 0 <= i < |items| && BadItem(items[i], size))
  {
    var es := Elements(RenderItems(items), size);
    GrammarParsed(items, size);
    hide ParseElement, RenderItem, IsItem, Means, BadItem, PastEnd, Parse, Elements, AllPastEnd, Collect;
    assert MeansAll(es, items, size);
    hide MeansAll;
    SomeBad(es, items, size);
    if Bad !in es {
      NothingFound(es, items, size);
    }
  }

  /** A suffix range of length 0. */
  ghost predicate ZeroSuffix(item: Item)
    requires IsItem(item)
  {
    item.spec.Some? && item.spec.value.first == "" && Value(item.spec.value.last) == 0
  }

  /** Satisfiable by the standard: a first position below the size, or a suffix that is not 0. */
  ghost predicate Satisfiable(item: Item, size: int64)
    requires IsItem(item)
  {
    item.spec.Some? && if item.spec.value.first == "" then !ZeroSuffix(item) else !PastEnd(item, size)
  }

  /**
   * Apart from bad elements, what is refused is what the standard calls unsatisfiable, except
   * that a suffix of length 0 keeps the header from being refused.
   */
  lemma RefusedAgainstStandard(items: seq<Item>, size: int64)
    requires size >= 0 && items != [] && forall i :: 0 <= i < |items| ==> IsItem(items[i])
    requires exists i :: 0 <= i < |items| && items[i].spec.Some?
    requires forall i :: 0 <= i < |items| ==> !BadItem(items[i], size)
    ensures Parse(Header(items), size) == InvalidRange <==>
            (forall i :: 0 <= i < |items| ==> !Satisfiable(items[i], size) && !ZeroSuffix(items[i]))
  {
    GrammarRefused(items, size);
    hide Parse, Header, IsItem, BadItem, Value;
  }

  /** "bytes=-0" selects nothing and is accepted: its range starts at the end of the object. */
  lemma ZeroSuffixAccepted(size: int64)
    requires size >= 0
    ensures var item := Item("", Some(Spec("", "0")), "");
            && Header([item]) == "bytes=-0" && IsItem(item) && !Satisfiable(item, size)
            && (forall p :: !Selects(item.spec.value, size, p))
            && Parse(Header([item]), size) == Ranges([Range(size, 0)])
  {
    var item := Item("", Some(Spec("", "0")), "");
    ZeroItem(item, size);
    hide ParseElement, Parse, Value, RenderItem, IsItem, Outcome;
    OneItem(item, size);
    OneFound(Range(size, 0));
  }

  /** A header with one element. */
  lemma OneItem(item: Item, size: int64)
    requires size >= 0 && IsItem(item)
    ensures Header([item]) == UNIT + RenderItem(item)
    ensures Parse(Header([item]), size) == Outcome([ParseElement(RenderItem(item), size)])
  {
    hide ParseElement, Parse, RenderItem, IsItem, Outcome, Means;
    assert RenderItems([item]) == [RenderItem(item)];
    GrammarParsed([item], size);
    assert Elements(RenderItems([item]), size) == [ParseElement(RenderItem(item), size)];
  }

  lemma OneFound(r: Range)
    ensures Outcome([Found(r)]) == Ranges([r])
  {
    assert Collect([Found(r)][..0]) == [];
  }

  /** "bytes=--5", which is not in the grammar, is accepted with a range that starts past the end. */
  lemma NegativeSuffixAccepted(size: int64, n: nat)
    requires size >= 0 && 0 < n && size + n < TWO_63
    ensures Parse(UNIT + "--" + Itoa(n), size) == Ranges([Range(size + n, 0 - n)])
    ensures !Inside(Range(size + n, 0 - n), size)
  {
    var piece, s := "--" + Itoa(n), UNIT + "--" + Itoa(n);
    hide Split, ParseElement, Itoa, Value, Outcome, Elements;
    ItoaDigits(n);
    assert s == UNIT + piece;
    SplitSegment(piece, ',');
    NegativeElement(Itoa(n), size, n);
    OnePiece(piece, size);
    OneFound(Range(size + n, 0 - n));
  }

  /** A header with one piece. */
  lemma OnePiece(piece: string, size: int64)
    requires Split(piece, ',') == [piece]
    ensures Parse(UNIT + piece, size) == Outcome([ParseElement(piece, size)])
  {
    hide Split, ParseElement, Outcome;
    var s := UNIT + piece;
    assert s[|UNIT|..] == piece && HasPrefix(s, UNIT) && s != "";
    assert Elements([piece], size) == [ParseElement(piece, size)];
  }

  lemma NegativeElement(digits: string, size: int64, n: nat)
    requires size >= 0 && 0 < n && size + n < TWO_63 && digits == Itoa(n) && AllDigits(digits) && digits != ""
    ensures ParseElement("--" + digits, size) == Found(Range(size + n, 0 - n))
  {
    var piece, number := "--" + digits, "-" + digits;
    hide Trim, Cut, ParseInt, ParseSuffix, ParseFirst, Itoa, Value;
    assert piece == "" + "-" + number;
    assert Cut(piece) == Some(("", number)) by { CutSpec("", number); }
    NotBlankEnds(piece);
    NotBlankEnds(number);
    assert Trim("") == "" by { TrimDigits(""); }
    NegativeStart(number, size, n);
  }

  lemma NegativeStart(number: string, size: int64, n: nat)
    requires size >= 0 && 0 < n && size + n < TWO_63 && number == "-" + Itoa(n)
    ensures ParseSuffix(number, size) == Found(Range(size + n, 0 - n))
  {
    ParseSigned(n);
    hide ParseInt, Itoa;
  }

  lemma NotBlankEnds(s: string)
    requires s != "" && !IsSpace(s[0]) && !IsSpace(s[|s| - 1])
    ensures Trim(s) == s
  {
  }

  lemma ZeroItem(item: Item, size: int64)
    requires size >= 0 && item == Item("", Some(Spec("", "0")), "")
    ensures IsItem(item) && Value("0") == 0 && RenderItem(item) == "-0"
    ensures ParseElement(RenderItem(item), size) == Found(Range(size, 0))
  {
    assert Value("0") == 0 by {
      assert Itoa(0) == "0";
      ItoaDigits(0);
    }
    assert Body(item.spec) == "-0" && RenderItem(item) == "-0";
    TrimItem(item);
    CutSpec("", "0");
    assert "" + "-" + "0" == "-0";
    TrimDigits("0");
    TrimDigits("");
    ParseDigits("0");
    hide Trim, Cut, ParseInt, Value, RenderItem, Body;
  }

  /** The whole object, with a last position of 2^63, is refused although the standard selects it. */
  lemma LargeLastRefused(size: int64)
    requires size > 0
    ensures var item := Item("", Some(Spec("0", Itoa(TWO_63))), "");
            && IsItem(item) && (forall p :: 0 <= p < size ==> Selects(item.spec.value, size, p))
            && Parse(Header([item]), size) == InvalidRange
  {
    var spec := Spec("0", Itoa(TWO_63));
    var item := Item("", Some(spec), "");
    ItoaDigits(TWO_63);
    ItoaDigits(0);
    assert Itoa(0) == "0";
    assert BadItem([item][0], size);
    GrammarRefused([item], size);
  }
}
