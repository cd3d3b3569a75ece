/** The .NET string operations the date code relies on: `String.Replace`,
    `String.Split(char)` and `String.Join`. */
module Strings {

  /** `s.Replace(pat, rep)`: every occurrence of `pat`, found scanning left to right
      without overlap, becomes `rep`. */
  function Replace(s: string, pat: string, rep: string): (r: string)
    requires |pat| > 0
    ensures |rep| == |pat| ==> |r| == |s|
    ensures |rep| <= |pat| ==> |r| <= |s|
    decreases |s|
  {
    if |s| < |pat| then s
    else if s[..|pat|] == pat then rep + Replace(s[|pat|..], pat, rep)
    else [s[0]] + Replace(s[1..], pat, rep)
  }

  /** A string in which the pattern cannot start is left as it is. */
  lemma {:induction false} ReplaceAbsent(s: string, pat: string, rep: string)
    requires |pat| > 0 && pat[0] !in s
    ensures Replace(s, pat, rep) == s
    decreases |s|
  {
    if |s| >= |pat| {
      assert s[..|pat|][0] == s[0];
      assert forall x | x in s[1..] :: x in s;
      ReplaceAbsent(s[1..], pat, rep);
    }
  }

  /** A prefix in which the pattern cannot start passes through unchanged. */
  lemma {:induction false} ReplaceAfter(a: string, b: string, pat: string, rep: string)
    requires |pat| > 0 && pat[0] !in a
    ensures Replace(a + b, pat, rep) == a + Replace(b, pat, rep)
    decreases |a|
  {
    if |a| > 0 {
      var s := a + b;
      if |s| < |pat| {
        assert Replace(s, pat, rep) == s;
        assert Replace(b, pat, rep) == b;
      } else {
        assert s[0] == a[0];
        assert s[..|pat|] != pat by {
          assert s[..|pat|][0] == a[0];
        }
        assert Replace(s, pat, rep) == [s[0]] + Replace(s[1..], pat, rep);
        assert s[1..] == a[1..] + b;
        assert pat[0] !in a[1..] by {
          assert forall x | x in a[1..] :: x in a;
        }
        ReplaceAfter(a[1..], b, pat, rep);
        calc {
          Replace(s, pat, rep);
          [a[0]] + Replace(a[1..] + b, pat, rep);
          [a[0]] + (a[1..] + Replace(b, pat, rep));
          ([a[0]] + a[1..]) + Replace(b, pat, rep);
          { assert [a[0]] + a[1..] == a; }
          a + Replace(b, pat, rep);
        }
      }
    } else {
      assert a + b == b;
    }
  }

  /** An occurrence at the front is replaced, and the scan resumes after it. */
  lemma ReplaceAtStart(b: string, pat: string, rep: string)
    requires |pat| > 0
    ensures Replace(pat + b, pat, rep) == rep + Replace(b, pat, rep)
  {
    assert (pat + b)[..|pat|] == pat;
    assert (pat + b)[|pat|..] == b;
  }

  /** One occurrence of the pattern, with no other place the pattern could start,
      is replaced and nothing else changes. */
  lemma ReplaceToken(a: string, pat: string, b: string, rep: string)
    requires |pat| > 0 && pat[0] !in a && pat[0] !in b
    ensures Replace(a + pat + b, pat, rep) == a + rep + b
  {
    assert a + pat + b == a + (pat + b);
    ReplaceAfter(a, pat + b, pat, rep);
    ReplaceAtStart(b, pat, rep);
    ReplaceAbsent(b, pat, rep);
  }

  /** `s` with every `c` taken out; the other characters keep their order. */
  function Without(s: string, c: char): (r: string)
    ensures multiset(r) == multiset(s)[c := 0]
    ensures |r| <= |s|
    decreases |s|
  {
    if |s| == 0 then ""
    else
      assert s == [s[0]] + s[1..];
      (if s[0] == c then "" else [s[0]]) + Without(s[1..], c)
  }

  /** `s.Replace(c, "")` is `s` without `c`: every `c` deleted, every other
      character kept, in order. */
  lemma {:induction false} ReplaceDeletes(s: string, c: char)
    ensures Replace(s, [c], "") == Without(s, c)
    ensures c !in Replace(s, [c], "")
    ensures forall x | x in s && x != c :: x in Replace(s, [c], "")
    ensures forall x | x in Replace(s, [c], "") :: x in s
    decreases |s|
  {
    if |s| > 0 {
      ReplaceDeletes(s[1..], c);
      assert s[..1] == [s[0]];
      assert multiset(Without(s, c)) == multiset(s)[c := 0];
    }
  }

  /** `s.Split(sep)`: the pieces of `s` between occurrences of `sep`, empty pieces kept. */
  function Split(s: string, sep: char): (parts: seq<string>)
    ensures |parts| >= 1
    ensures forall i | 0 <= i < |parts| :: sep !in parts[i]
    decreases |s|
  {
    if |s| == 0 then [""]
    else
      var rest := Split(s[1..], sep);
      if s[0] == sep then [""] + rest
      else [[s[0]] + rest[0]] + rest[1..]
  }

  /** The total length of the parts. */
  function TotalLength(parts: seq<string>): nat
    decreases |parts|
  {
    if |parts| == 0 then 0 else |parts[0]| + TotalLength(parts[1..])
  }

  /** `String.Join(sep, parts)`: the parts in order, one separator between each
      two. */
  function Join(sep: string, parts: seq<string>): (r: string)
    ensures |parts| > 0 ==> |r| == TotalLength(parts) + |sep| * (|parts| - 1)
    ensures |parts| > 0 ==> r[..|parts[0]|] == parts[0]
    decreases |parts|
  {
    if |parts| == 0 then ""
    else if |parts| == 1 then parts[0]
    else parts[0] + sep + Join(sep, parts[1..])
  }

  /** Joining the pieces with the separator gives back the original string. */
  lemma {:induction false} JoinSplit(s: string, sep: char)
    ensures Join([sep], Split(s, sep)) == s
    decreases |s|
  {
    if |s| > 0 {
      var rest := Split(s[1..], sep);
      JoinSplit(s[1..], sep);
      if s[0] == sep {
        assert ([""] + rest)[1..] == rest;
      } else {
        var parts := [[s[0]] + rest[0]] + rest[1..];
        if |rest| > 1 {
          assert parts[1..] == rest[1..];
        }
      }
      assert s == [s[0]] + s[1..];
    }
  }

  /** A piece free of the separator, followed by it, splits off as the first piece. */
  lemma {:induction false} SplitAfter(a: string, b: string, sep: char)
    requires sep !in a
    ensures Split(a + [sep] + b, sep) == [a] + Split(b, sep)
    decreases |a|
  {
    var s := a + [sep] + b;
    if |a| == 0 {
      assert s[1..] == b;
    } else {
      assert s[1..] == a[1..] + [sep] + b;
      assert forall x | x in a[1..] :: x in a;
      SplitAfter(a[1..], b, sep);
      assert a == [a[0]] + a[1..];
    }
  }

  /** A string free of the separator is a single piece. */
  lemma {:induction false} SplitNone(a: string, sep: char)
    requires sep !in a
    ensures Split(a, sep) == [a]
    decreases |a|
  {
    if |a| > 0 {
      assert forall x | x in a[1..] :: x in a;
      SplitNone(a[1..], sep);
      assert a == [a[0]] + a[1..];
    }
  }

  /** Splitting pieces joined by a separator they do not contain gives the pieces back. */
  lemma {:induction false} SplitJoin(parts: seq<string>, sep: char)
    requires |parts| >= 1
    requires forall i | 0 <= i < |parts| :: sep !in parts[i]
    ensures Split(Join([sep], parts), sep) == parts
    decreases |parts|
  {
    if |parts| == 1 {
      SplitNone(parts[0], sep);
    } else {
      SplitJoin(parts[1..], sep);
      SplitAfter(parts[0], Join([sep], parts[1..]), sep);
      assert parts == [parts[0]] + parts[1..];
    }
  }
}
