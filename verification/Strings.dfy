/** Split and Join of package strings, for one separating character. */
module Strings {

  /** strings.Split. */
  function Split(s: string, sep: char := '/'): (parts: seq<string>)
    ensures parts != [] && Segments(parts, sep)
  {
    if s == "" then [""]
    else
      var rest := Split(s[1..], sep);
      if s[0] == sep then [""] + rest else [[s[0]] + rest[0]] + rest[1..]
  }

  /** strings.Join. */
  function Join(parts: seq<string>, sep: char := '/'): string {
    if parts == [] then "" else if |parts| == 1 then parts[0] else parts[0] + [sep] + Join(parts[1..], sep)
  }

  ghost predicate Segments(parts: seq<string>, sep: char := '/') {
    forall i :: 0 <= i < |parts| ==> sep !in parts[i]
  }

  lemma {:induction false} JoinSplit(s: string, sep: char := '/')
    ensures Join(Split(s, sep), sep) == s
  {
    if s != "" {
      JoinSplit(s[1..], sep);
      var rest := Split(s[1..], sep);
      if s[0] == sep {
        assert ([""] + rest)[1..] == rest;
      } else if |rest| > 1 {
        assert Split(s, sep)[1..] == rest[1..];
      }
      assert s == [s[0]] + s[1..];
    }
  }

  lemma {:induction false} SplitSegment(s: string, sep: char := '/')
    requires sep !in s
    ensures Split(s, sep) == [s]
  {
    if s != "" {
      SplitSegment(s[1..], sep);
      assert s == [s[0]] + s[1..];
    }
  }

  /** Splitting after a separator, whatever follows. */
  lemma {:induction false} SplitFirst(s: string, rest: string, sep: char := '/')
    requires sep !in s
    ensures Split(s + [sep] + rest, sep) == [s] + Split(rest, sep)
  {
    var all := s + [sep] + rest;
    if s == "" {
      assert all == [sep] + rest && all[1..] == rest;
    } else {
      SplitFirst(s[1..], rest, sep);
      assert all[1..] == s[1..] + [sep] + rest && s == [s[0]] + s[1..];
      assert Split(all, sep)[1..] == Split(rest, sep);
    }
  }

  lemma {:induction false} SplitJoin(parts: seq<string>, sep: char := '/')
    requires parts != [] && Segments(parts, sep)
    ensures Split(Join(parts, sep), sep) == parts
  {
    if |parts| == 1 {
      SplitSegment(parts[0], sep);
    } else {
      SplitJoin(parts[1..], sep);
      SplitFirst(parts[0], Join(parts[1..], sep), sep);
    }
  }

  lemma {:induction false} JoinConcat(a: seq<string>, b: seq<string>, sep: char := '/')
    requires a != [] && b != []
    ensures Join(a + b, sep) == Join(a, sep) + [sep] + Join(b, sep)
  {
    if |a| == 1 {
      assert (a + b)[1..] == b;
    } else {
      JoinConcat(a[1..], b, sep);
      assert (a + b)[1..] == a[1..] + b;
    }
  }

  lemma SplitConcat(s: string, t: string, sep: char := '/')
    ensures Split(s + [sep] + t, sep) == Split(s, sep) + Split(t, sep)
  {
    JoinSplit(s, sep);
    JoinSplit(t, sep);
    JoinConcat(Split(s, sep), Split(t, sep), sep);
    SplitJoin(Split(s, sep) + Split(t, sep), sep);
  }
}
