/** Substring search and splitting on characters, the string operations the
    flow tracker relies on (`str::contains` and the parsers of the renderings). */
module Strings {
  import opened Wrappers

  predicate StartsWith(s: string, prefix: string) {
    |prefix| <= |s| && s[..|prefix|] == prefix
  }

  /** Rust's `s.contains(p)`: `p` occurs in `s` at some position. */
  predicate Contains(s: string, p: string)
    decreases |s|
  {
    StartsWith(s, p) || (0 < |s| && Contains(s[1..], p))
  }

  /** Splits `s` at the first occurrence of `c`, dropping that occurrence. */
  function SplitFirst(s: string, c: char): (r: Option<(string, string)>)
    ensures r.None? <==> c !in s
    ensures r.Some? ==> s == r.value.0 + [c] + r.value.1 && c !in r.value.0
  {
    if |s| == 0 then None
    else if s[0] == c then Some(([], s[1..]))
    else match SplitFirst(s[1..], c)
      case None => None
      case Some(p) => Some(([s[0]] + p.0, p.1))
  }

  /** Splitting at `c` recovers the two sides when the left side has no `c`. */
  lemma {:induction false} SplitFirstOfJoin(x: string, c: char, y: string)
    requires c !in x
    ensures SplitFirst(x + [c] + y, c) == Some((x, y))
  {
    if |x| == 0 {
      assert x + [c] + y == [c] + y;
      assert ([c] + y)[1..] == y;
    } else {
      assert (x + [c] + y)[1..] == x[1..] + [c] + y;
      SplitFirstOfJoin(x[1..], c, y);
      assert [x[0]] + x[1..] == x;
    }
  }

  /** An occurrence in `b` is an occurrence in `a + b`. */
  lemma {:induction false} ContainsInSuffix(a: string, b: string, p: string)
    requires Contains(b, p)
    ensures Contains(a + b, p)
    decreases |a|
  {
    if |a| > 0 {
      assert (a + b)[1..] == a[1..] + b;
      ContainsInSuffix(a[1..], b, p);
    } else {
      assert a + b == b;
    }
  }

  /** An occurrence in `a` is an occurrence in `a + b`. */
  lemma {:induction false} ContainsInPrefix(a: string, b: string, p: string)
    requires Contains(a, p)
    ensures Contains(a + b, p)
    decreases |a|
  {
    if StartsWith(a, p) {
      assert (a + b)[..|p|] == a[..|p|];
    } else {
      assert (a + b)[1..] == a[1..] + b;
      ContainsInPrefix(a[1..], b, p);
    }
  }

  /** No occurrence fits in a string shorter than the pattern. */
  lemma {:induction false} ShortNeverContains(s: string, p: string)
    requires |s| < |p|
    ensures !Contains(s, p)
    decreases |s|
  {
    if 0 < |s| {
      ShortNeverContains(s[1..], p);
    }
  }

  /** Every character of a string's prefix occurs in that prefix. */
  lemma PrefixCharOccurs(s: string, p: string, i: nat)
    requires StartsWith(s, p) && i < |p|
    ensures s[i] in p
  {
    assert p[i] == s[i];
  }

  /** An occurrence of `p` in `a + [c] + b`, where `p` does not mention `c`,
      lies wholly inside `a` or wholly inside `b`. */
  lemma {:induction false} ContainsAcrossSeparator(a: string, c: char, b: string, p: string)
    requires c !in p
    requires Contains(a + [c] + b, p)
    ensures Contains(a, p) || Contains(b, p)
    decreases |a|
  {
    var s := a + [c] + b;
    if StartsWith(s, p) {
      if |p| <= |a| {
        assert a[..|p|] == s[..|p|];
      } else {
        PrefixCharOccurs(s, p, |a|);
        assert false;
      }
    } else if |a| == 0 {
      assert s[1..] == b;
    } else {
      assert s[1..] == a[1..] + [c] + b;
      ContainsAcrossSeparator(a[1..], c, b, p);
    }
  }

  /** A one-character pattern occurs only where that character does. */
  lemma {:induction false} ContainsChar(s: string, c: char)
    requires Contains(s, [c])
    ensures c in s
    decreases |s|
  {
    if StartsWith(s, [c]) {
      assert s[0] == s[..1][0];
    } else {
      ContainsChar(s[1..], c);
    }
  }
}
