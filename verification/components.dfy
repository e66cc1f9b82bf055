/**
 Splitting a string on a one-character separator, as Foundation's
 `componentsSeparatedByString` does: the result always has at least one
 component, consecutive or leading/trailing separators give empty components,
 and gluing the components back with the separator gives the input again.
 */
module Components {

  /** The separator file names are split on. */
  const Dot: char := '.'

  /** Number of occurrences of `c` in `s`. */
  function Count(s: string, c: char): (n: nat)
  {
    if |s| == 0 then 0 else Count(s[1..], c) + (if s[0] == c then 1 else 0)
  }

  /** Occurrences in a concatenation add up, and there are none in a string
      that does not hold `c`. */
  lemma {:induction false} CountConcat(a: string, b: string, c: char)
    ensures Count(a + b, c) == Count(a, c) + Count(b, c)
    ensures c !in a ==> Count(a, c) == 0
    decreases |a|
  {
    if |a| > 0 {
      assert (a + b)[0] == a[0];
      assert (a + b)[1..] == a[1..] + b;
      CountConcat(a[1..], b, c);
    } else {
      assert a + b == b;
    }
  }

  /** The components glued back together with `sep` between consecutive ones. */
  function Join(parts: seq<string>, sep: char): (s: string)
    requires |parts| >= 1
    decreases |parts|
  {
    if |parts| == 1 then parts[0] else parts[0] + [sep] + Join(parts[1..], sep)
  }

  /** No component contains the separator. */
  ghost predicate SepFree(parts: seq<string>, sep: char) {
    forall i :: 0 <= i < |parts| ==> sep !in parts[i]
  }

  /** `s.componentsSeparatedByString([sep])`: one more component than there are
      separators, none of them containing the separator, and together they
      spell out `s`. */
  function Split(s: string, sep: char): (parts: seq<string>)
    ensures |parts| == Count(s, sep) + 1
    ensures SepFree(parts, sep)
    ensures Join(parts, sep) == s
    decreases |s|
  {
    if |s| == 0 then [""]
    else
      var rest := Split(s[1..], sep);
      assert s == [s[0]] + s[1..];
      if s[0] == sep then
        JoinCons([], rest, sep);
        [""] + rest
      else
        JoinCons([s[0]], rest, sep);
        [[s[0]] + rest[0]] + rest[1..]
  }

  /** Prepending `c` to the first component prepends it to the joined string;
      an empty `c` makes it a component of its own. Either way no component
      gains a separator when `c` holds none. */
  lemma JoinCons(c: string, rest: seq<string>, sep: char)
    requires |rest| >= 1
    ensures |c| == 0 ==> Join([c] + rest, sep) == [sep] + Join(rest, sep)
    ensures Join([c + rest[0]] + rest[1..], sep) == c + Join(rest, sep)
    ensures SepFree(rest, sep) ==> SepFree([c] + rest, sep) == (sep !in c)
    ensures SepFree(rest, sep) ==> SepFree([c + rest[0]] + rest[1..], sep) == (sep !in c)
  {
    var parts := [c + rest[0]] + rest[1..];
    assert ([c] + rest)[1..] == rest;
    if |rest| > 1 {
      assert parts[1..] == rest[1..];
    }
  }

  /** The first component is a prefix of the joined string, followed by the
      separator when there is more than one component. */
  lemma JoinFirst(parts: seq<string>, sep: char)
    requires |parts| >= 1
    ensures parts[0] <= Join(parts, sep)
    ensures |parts| > 1 ==> |parts[0]| < |Join(parts, sep)| && Join(parts, sep)[|parts[0]|] == sep
  {
  }

  /** The last component is a suffix of the joined string, preceded by the
      separator when there is more than one component. */
  lemma {:induction false} JoinLast(parts: seq<string>, sep: char)
    requires |parts| >= 1
    ensures var j, e := Join(parts, sep), parts[|parts| - 1];
            && |e| <= |j|
            && j[|j| - |e|..] == e
            && (|parts| > 1 ==> |e| < |j| && j[|j| - |e| - 1] == sep)
    decreases |parts|
  {
    if |parts| > 1 {
      var tail := parts[1..];
      JoinLast(tail, sep);
      var j, jt, e := Join(parts, sep), Join(tail, sep), parts[|parts| - 1];
      assert tail[|tail| - 1] == e;
      assert j == parts[0] + [sep] + jt;
      assert j[|j| - |jt|..] == jt;
      assert j[|j| - |e|..] == jt[|jt| - |e|..];
      if |tail| == 1 {
        assert jt == e;
        assert j[|j| - |e| - 1] == sep;
      } else {
        assert j[|j| - |e| - 1] == jt[|jt| - |e| - 1];
      }
    }
  }

  /** Joining separator-free components is injective: the components can be
      read back from the joined string. */
  lemma {:induction false} JoinInjective(p: seq<string>, q: seq<string>, sep: char)
    requires |p| >= 1 && |q| >= 1
    requires SepFree(p, sep) && SepFree(q, sep)
    requires Join(p, sep) == Join(q, sep)
    ensures p == q
    decreases |p|
  {
    var j := Join(p, sep);
    JoinFirst(p, sep);
    JoinFirst(q, sep);
    if |p| == 1 && |q| == 1 {
    } else if |p| == 1 || |q| == 1 {
      assert false;
    } else {
      if |p[0]| != |q[0]| {
        assert false;
      }
      assert p[0] == j[..|p[0]|] == q[0];
      assert Join(p[1..], sep) == j[|p[0]| + 1..] == Join(q[1..], sep);
      JoinInjective(p[1..], q[1..], sep);
      assert p == [p[0]] + p[1..];
      assert q == [q[0]] + q[1..];
    }
  }

  /** Splitting undoes joining, for separator-free components. */
  lemma SplitJoin(parts: seq<string>, sep: char)
    requires |parts| >= 1
    requires SepFree(parts, sep)
    ensures Split(Join(parts, sep), sep) == parts
  {
    JoinInjective(Split(Join(parts, sep), sep), parts, sep);
  }
}
