/** Slash separated paths: path.Clean and path.Join. */
module ObjectPath {
  import opened Strings

  predicate NoSlash(s: string) {
    '/' !in s
  }

  // -- path.Clean --------------------------------------------------------------------------------

  /** One element is added to the cleaned elements before it. */
  function Push(stack: seq<string>, part: string, rooted: bool): seq<string> {
    if part == "" || part == "." then stack
    else if part != ".." then stack + [part]
    else if stack != [] && stack[|stack| - 1] != ".." then stack[..|stack| - 1]
    else if rooted then stack
    else stack + [".."]
  }

  function Normal(stack: seq<string>, parts: seq<string>, rooted: bool): seq<string>
    decreases parts
  {
    if parts == [] then stack else Normal(Push(stack, parts[0], rooted), parts[1..], rooted)
  }

  predicate Rooted(p: string) {
    p != "" && p[0] == '/'
  }

  /** The elements of the cleaned path. */
  function Elements(p: string): seq<string> {
    Normal([], Split(p), Rooted(p))
  }

  function Render(parts: seq<string>, rooted: bool): string {
    if rooted then "/" + Join(parts) else if parts == [] then "." else Join(parts)
  }

  function Clean(p: string): string {
    Render(Elements(p), Rooted(p))
  }

  /** path.Join: leading empty elements are skipped. */
  function JoinPath(elems: seq<string>): string {
    if elems == [] then ""
    else if elems[0] == "" then JoinPath(elems[1..])
    else Clean(Join(elems))
  }

  predicate Plain(s: string) {
    s != "" && s != "." && s != ".." && NoSlash(s)
  }

  ghost predicate AllPlain(parts: seq<string>) {
    forall i :: 0 <= i < |parts| ==> Plain(parts[i])
  }

  /** Cleaned elements: plain names, after leading ".." in a path that is not rooted. */
  ghost predicate Cleaned(parts: seq<string>, rooted: bool) {
    && (forall i :: 0 <= i < |parts| ==> Plain(parts[i]) || parts[i] == "..")
    && (rooted ==> AllPlain(parts))
    && (forall i :: 0 < i < |parts| && parts[i] == ".." ==> parts[i - 1] == "..")
  }

  lemma {:induction false} NormalConcat(stack: seq<string>, a: seq<string>, b: seq<string>, rooted: bool)
    ensures Normal(stack, a + b, rooted) == Normal(Normal(stack, a, rooted), b, rooted)
    decreases a
  {
    if a == [] {
      assert a + b == b;
    } else {
      assert (a + b)[1..] == a[1..] + b;
      NormalConcat(Push(stack, a[0], rooted), a[1..], b, rooted);
    }
  }

  lemma {:induction false} NormalPlain(stack: seq<string>, parts: seq<string>, rooted: bool)
    requires AllPlain(parts)
    ensures Normal(stack, parts, rooted) == stack + parts
    decreases parts
  {
    if parts != [] {
      NormalPlain(stack + [parts[0]], parts[1..], rooted);
      assert stack + parts == stack + [parts[0]] + parts[1..];
    }
  }

  lemma {:induction false} NormalCleans(stack: seq<string>, parts: seq<string>, rooted: bool)
    requires Cleaned(stack, rooted) && Segments(parts)
    ensures Cleaned(Normal(stack, parts, rooted), rooted)
    decreases parts
  {
    if parts != [] {
      NormalCleans(Push(stack, parts[0], rooted), parts[1..], rooted);
    }
  }

  lemma {:induction false} NormalOfCleaned(stack: seq<string>, parts: seq<string>, rooted: bool)
    requires Cleaned(stack + parts, rooted)
    ensures Normal(stack, parts, rooted) == stack + parts
    decreases parts
  {
    if parts != [] {
      var all := stack + parts;
      assert all[|stack|] == parts[0];
      if parts[0] == ".." {
        assert !rooted;
        assert |stack| > 0 ==> all[|stack| - 1] == "..";
      }
      assert stack + [parts[0]] + parts[1..] == all;
      NormalOfCleaned(stack + [parts[0]], parts[1..], rooted);
    }
  }

  lemma ElementsCleaned(p: string)
    ensures Cleaned(Elements(p), Rooted(p))
  {
    NormalCleans([], Split(p), Rooted(p));
  }

  /** Rendering cleaned elements and splitting again gives them back. */
  lemma ElementsOfRender(parts: seq<string>, rooted: bool)
    requires Cleaned(parts, rooted)
    ensures Rooted(Render(parts, rooted)) == rooted && Elements(Render(parts, rooted)) == parts
  {
    var p := Render(parts, rooted);
    if parts == [] {
      SplitFirst("", "");
      SplitSegment(".");
      assert p == if rooted then "" + "/" + "" else ".";
      assert Normal([], ["", ""], true) == Normal([], [""], true) by { assert ["", ""][1..] == [""]; }
    } else {
      SplitJoin(parts);
      JoinFirst(parts);
      NormalOfCleaned([], parts, rooted);
      if rooted {
        SplitFirst("", Join(parts));
        assert p == "" + "/" + Join(parts);
        assert ([""] + parts)[1..] == parts;
      }
    }
  }

  lemma JoinFirst(parts: seq<string>)
    requires parts != [] && parts[0] != ""
    ensures Join(parts) != "" && Join(parts)[0] == parts[0][0]
  {
  }

  /** Clean is idempotent, and two paths have the same cleaned form iff they have the same elements. */
  lemma CleanIdempotent(p: string)
    ensures Clean(Clean(p)) == Clean(p) && Elements(Clean(p)) == Elements(p) && Rooted(Clean(p)) == Rooted(p)
  {
    ElementsCleaned(p);
    ElementsOfRender(Elements(p), Rooted(p));
  }

  // -- ".." that leads out of a relative path --------------------------------------------------

  /** How many ".." stand at the start. */
  function Dots(parts: seq<string>): (m: nat)
    ensures m <= |parts|
  {
    if parts != [] && parts[0] == ".." then 1 + Dots(parts[1..]) else 0
  }

  /** A cleaned relative path as seen from a directory: each leading ".." removes an element of it. */
  function Sunk(base: seq<string>, parts: seq<string>): seq<string> {
    (if Dots(parts) <= |base| then base[..|base| - Dots(parts)] else []) + parts[Dots(parts)..]
  }

  lemma {:induction false} DotsOfCleaned(parts: seq<string>)
    requires Cleaned(parts, false)
    ensures AllPlain(parts[Dots(parts)..]) && (forall i :: 0 <= i < Dots(parts) ==> parts[i] == "..")
    ensures Dots(parts) == 0 <==> AllPlain(parts)
  {
    if parts != [] && parts[0] == ".." {
      var rest := parts[1..];
      assert forall i :: 0 < i < |rest| ==> rest[i] == parts[i + 1] && rest[i - 1] == parts[i];
      DotsOfCleaned(rest);
      assert rest[Dots(rest)..] == parts[Dots(parts)..];
      assert forall i :: 0 < i < Dots(parts) ==> parts[i] == rest[i - 1];
    } else {
      AfterPlain(parts);
    }
  }

  lemma {:induction false} AfterPlain(parts: seq<string>)
    requires Cleaned(parts, false) && (parts != [] ==> parts[0] != "..")
    ensures AllPlain(parts)
  {
    if |parts| > 1 {
      assert parts[1] != "..";
      var rest := parts[1..];
      assert forall i :: 0 < i < |rest| ==> rest[i] == parts[i + 1] && rest[i - 1] == parts[i];
      AfterPlain(rest);
      forall i | 0 <= i < |parts| ensures Plain(parts[i]) {
        if i > 0 { assert rest[i - 1] == parts[i]; }
      }
    }
  }

  lemma {:induction false} DotsAppend(parts: seq<string>, p: string)
    ensures Dots(parts + [p]) == if Dots(parts) == |parts| && p == ".." then |parts| + 1 else Dots(parts)
  {
    if parts != [] && parts[0] == ".." {
      assert (parts + [p])[1..] == parts[1..] + [p];
      DotsAppend(parts[1..], p);
    } else if parts == [] {
      assert (parts + [p])[1..] == [];
    }
  }

  lemma DotsDropLast(parts: seq<string>)
    requires parts != [] && parts[|parts| - 1] != ".."
    ensures Dots(parts[..|parts| - 1]) == Dots(parts) < |parts|
  {
    var front, p := parts[..|parts| - 1], parts[|parts| - 1];
    assert front + [p] == parts;
    DotsAppend(front, p);
  }

  /** ".." after a name removes it. */
  lemma SunkDropLast(base: seq<string>, parts: seq<string>)
    requires parts != [] && parts[|parts| - 1] != ".."
    ensures var s := Sunk(base, parts);
            s != [] && s[|s| - 1] == parts[|parts| - 1] && s[..|s| - 1] == Sunk(base, parts[..|parts| - 1])
  {
    DotsDropLast(parts);
    hide Dots;
    var m := Dots(parts);
    assert parts[..|parts| - 1][m..] == parts[m..][..|parts[m..]| - 1];
  }

  /** ".." after nothing but ".." removes one more element of the directory. */
  lemma SunkDotsOnly(base: seq<string>, parts: seq<string>)
    requires Dots(parts) == |parts|
    ensures Sunk(base, parts) == if |parts| <= |base| then base[..|base| - |parts|] else []
    ensures Sunk(base, parts + [".."]) == if |parts| < |base| then base[..|base| - |parts| - 1] else []
  {
    hide Dots, Sunk;
    DotsAppend(parts, "..");
    SunkAllDots(base, parts);
    SunkAllDots(base, parts + [".."]);
  }

  lemma SunkAllDots(base: seq<string>, parts: seq<string>)
    requires Dots(parts) == |parts|
    ensures Sunk(base, parts) == if |parts| <= |base| then base[..|base| - |parts|] else []
  {
    hide Dots;
    assert parts[|parts|..] == [];
  }

  lemma SunkAppend(base: seq<string>, parts: seq<string>, p: string)
    requires p != ".."
    ensures Sunk(base, parts + [p]) == Sunk(base, parts) + [p]
  {
    DotsAppend(parts, p);
    hide Dots;
    assert (parts + [p])[Dots(parts)..] == parts[Dots(parts)..] + [p];
  }

  lemma LastOfRest(parts: seq<string>, m: nat)
    requires m < |parts| && AllPlain(parts[m..])
    ensures parts[|parts| - 1] != ".."
  {
    var rest := parts[m..];
    assert rest[|rest| - 1] == parts[|parts| - 1];
  }

  lemma OnlyDots(parts: seq<string>)
    requires Cleaned(parts, false) && (parts != [] ==> parts[|parts| - 1] == "..")
    ensures Dots(parts) == |parts|
  {
    DotsOfCleaned(parts);
    hide Dots;
    if Dots(parts) < |parts| {
      LastOfRest(parts, Dots(parts));
    }
  }

  lemma SunkPush(base: seq<string>, parts: seq<string>, p: string)
    requires AllPlain(base) && Cleaned(parts, false)
    ensures Push(Sunk(base, parts), p, true) == Sunk(base, Push(parts, p, false))
  {
    hide Sunk, Cleaned, Dots;
    if p == ".." && parts != [] && parts[|parts| - 1] != ".." {
      SunkDropLast(base, parts);
    } else if p == ".." {
      OnlyDots(parts);
      SunkDotsOnly(base, parts);
      var s := Sunk(base, parts);
      assert s != [] ==> s[|s| - 1] == base[|s| - 1] && Plain(base[|s| - 1]);
    } else if p != "" && p != "." {
      SunkAppend(base, parts, p);
    }
  }

  /** Cleaning a path behind a directory. */
  lemma {:induction false} SunkNormal(base: seq<string>, parts: seq<string>, more: seq<string>)
    requires AllPlain(base) && Cleaned(parts, false) && Segments(more)
    ensures Normal(Sunk(base, parts), more, true) == Sunk(base, Normal(parts, more, false))
    decreases more
  {
    hide Sunk, Cleaned, Push;
    if more != [] {
      SunkPush(base, parts, more[0]);
      PushCleans(parts, more[0]);
      SunkNormal(base, Push(parts, more[0], false), more[1..]);
    }
  }

  lemma PushCleans(parts: seq<string>, p: string)
    requires Cleaned(parts, false) && NoSlash(p)
    ensures Cleaned(Push(parts, p, false), false)
  {
  }

  // -- What a path stands for ------------------------------------------------------------------------

  /** Going from a directory along a path: a name goes down, ".." up, and the root is its own parent. */
  function Walk(dir: seq<string>, parts: seq<string>): seq<string>
    decreases parts
  {
    if parts == [] then dir
    else if parts[0] == "" || parts[0] == "." then Walk(dir, parts[1..])
    else if parts[0] != ".." then Walk(dir + [parts[0]], parts[1..])
    else Walk(if dir == [] then [] else dir[..|dir| - 1], parts[1..])
  }

  /** The place that a path stands for in a directory. */
  function Resolve(dir: seq<string>, p: string): seq<string> {
    Walk(if Rooted(p) then [] else dir, Split(p))
  }

  lemma {:induction false} WalkIsNormal(dir: seq<string>, parts: seq<string>)
    requires AllPlain(dir) && Segments(parts)
    ensures Walk(dir, parts) == Normal(dir, parts, true)
    decreases parts
  {
    if parts != [] {
      WalkIsNormal(Push(dir, parts[0], true), parts[1..]);
    }
  }

  /** Cleaning changes the path and not the place, in every directory; nothing is left to be cleaned. */
  lemma CleanSamePlace(dir: seq<string>, p: string)
    requires AllPlain(dir)
    ensures Resolve(dir, Clean(p)) == Resolve(dir, p)
    ensures Cleaned(Elements(Clean(p)), Rooted(p)) && Clean(p) == Render(Elements(Clean(p)), Rooted(p))
  {
    hide Normal, Walk;
    var base := if Rooted(p) then [] else dir;
    CleanIdempotent(p);
    ElementsCleaned(p);
    WalkIsNormal(base, Split(p));
    WalkIsNormal(base, Split(Clean(p)));
    if !Rooted(p) {
      SunkNormal(dir, [], Split(p));
      SunkNormal(dir, [], Split(Clean(p)));
      assert Sunk(dir, []) == dir;
    }
  }
}
