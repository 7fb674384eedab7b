/**
 * The JavaScript string primitives the formatter is written with, on
 * `seq<char>`: `indexOf`, `substring`, a global literal `replace`, and `||`
 * between two strings.
 */
module JsString {

  /** `s.indexOf(c, from)`: the first index at or after `from` that holds `c`, or -1. */
  function IndexOfFrom(s: string, c: char, from: nat): (r: int)
    ensures r == -1 || (from <= r < |s| && s[r] == c)
    decreases |s| - from
  {
    if from >= |s| then -1
    else if s[from] == c then from
    else IndexOfFrom(s, c, from + 1)
  }

  /**
   * The index found is the first one: -1 exactly when no index at or after
   * `from` holds `c`, and otherwise none between `from` and the result does.
   * (Kept out of the function's own contract: quantifiers there make every
   * unfolding of a caller expensive.)
   */
  lemma {:induction false} IndexOfFromIsFirst(s: string, c: char, from: nat)
    ensures IndexOfFrom(s, c, from) == -1 <==> forall j :: from <= j < |s| ==> s[j] != c
    ensures IndexOfFrom(s, c, from) != -1 ==> forall j :: from <= j < IndexOfFrom(s, c, from) ==> s[j] != c
    decreases |s| - from
  {
    if from < |s| && s[from] != c {
      IndexOfFromIsFirst(s, c, from + 1);
    }
  }

  /** `s.indexOf(c)`: the index of the first `c` in `s`, or -1 when there is none. */
  function IndexOf(s: string, c: char): (r: int)
    ensures r == -1 || (0 <= r < |s| && s[r] == c)
  {
    IndexOfFrom(s, c, 0)
  }

  lemma IndexOfIsFirst(s: string, c: char)
    ensures IndexOf(s, c) == -1 <==> c !in s
    ensures IndexOf(s, c) != -1 ==> c !in s[..IndexOf(s, c)]
  {
    IndexOfFromIsFirst(s, c, 0);
  }

  /** A `c` at index `k` with none before it is what `indexOf` finds. */
  lemma IndexOfAt(s: string, c: char, k: nat)
    requires k < |s| && s[k] == c && c !in s[..k]
    ensures IndexOf(s, c) == k
  {
    IndexOfFromIsFirst(s, c, 0);
    assert s[k] in s;
  }

  /** The same for a search that starts at `from`. */
  lemma IndexOfFromAt(s: string, c: char, from: nat, k: nat)
    requires from <= k < |s| && s[k] == c
    requires forall j :: from <= j < k ==> s[j] != c
    ensures IndexOfFrom(s, c, from) == k
  {
    IndexOfFromIsFirst(s, c, from);
  }

  function Clamp(x: int, len: nat): (r: nat)
    ensures r <= len
  {
    if x < 0 then 0 else if x > len then len else x
  }

  /**
   * `s.substring(a, b)`: both bounds are clamped to the string, and the
   * smaller one is taken as the start, so the arguments may come in either order.
   */
  function Substring(s: string, a: int, b: int): (r: string)
    ensures 0 <= a <= b <= |s| ==> r == s[a..b]
    ensures 0 <= b <= a <= |s| ==> r == s[b..a]
    ensures |r| <= |s|
  {
    var lo, hi := Clamp(a, |s|), Clamp(b, |s|);
    if lo <= hi then s[lo..hi] else s[hi..lo]
  }

  /** `pat` occurs in `s` starting at index `j`. */
  predicate MatchAt(s: string, pat: string, j: int)
  {
    0 <= j <= |s| - |pat| && s[j..j + |pat|] == pat
  }

  /** `pat` occurs in `s` at some position. */
  ghost predicate Occurs(s: string, pat: string)
  {
    exists j :: MatchAt(s, pat, j)
  }

  /**
   * `s.replace(/pat/g, rep)` for a literal pattern: every leftmost,
   * non-overlapping occurrence of `pat`, scanning left to right, becomes `rep`.
   */
  function ReplaceAll(s: string, pat: string, rep: string): (r: string)
    requires pat != ""
    ensures |rep| <= |pat| ==> |r| <= |s|
    decreases |s|
  {
    if |s| < |pat| then s
    else if s[..|pat|] == pat then rep + ReplaceAll(s[|pat|..], pat, rep)
    else [s[0]] + ReplaceAll(s[1..], pat, rep)
  }

  /** A string in which the pattern does not occur comes back unchanged. */
  lemma {:induction false} ReplaceAllAbsent(s: string, pat: string, rep: string)
    requires pat != "" && !Occurs(s, pat)
    ensures ReplaceAll(s, pat, rep) == s
    decreases |s|
  {
    if |s| >= |pat| {
      assert !MatchAt(s, pat, 0);
      forall j | MatchAt(s[1..], pat, j) ensures MatchAt(s, pat, j + 1) {
        assert s[1..][j..j + |pat|] == s[j + 1..j + 1 + |pat|];
      }
      ReplaceAllAbsent(s[1..], pat, rep);
    }
  }

  /** `pat` starts `[c] + s` exactly when `c` is its first character and the rest starts `s`. */
  lemma MatchAtCons(c: char, s: string, pat: string)
    requires pat != ""
    ensures MatchAt([c] + s, pat, 0) <==> c == pat[0] && MatchAt(s, pat[1..], 0)
  {
    var t := [c] + s;
    if |t| >= |pat| {
      assert t[..|pat|] == [c] + s[..|pat| - 1];
      assert pat == [pat[0]] + pat[1..];
    }
  }

  /** An occurrence in the tail of `s` is an occurrence in `s`, one index later. */
  lemma MatchAtTail(s: string, pat: string, j: int)
    requires s != []
    ensures MatchAt(s[1..], pat, j) ==> MatchAt(s, pat, j + 1)
  {
    if 0 <= j <= |s| - 1 - |pat| {
      assert s[1..][j..j + |pat|] == s[j + 1..j + 1 + |pat|];
    }
  }

  /** One step of the replace where no occurrence starts at the first character. */
  lemma ReplaceAllStep(c: char, b: string, pat: string, rep: string)
    requires pat != "" && !MatchAt([c] + b, pat, 0)
    ensures ReplaceAll([c] + b, pat, rep) == [c] + ReplaceAll(b, pat, rep)
  {
    var s := [c] + b;
    assert s[0] == c && s[1..] == b;
    if |s| < |pat| {
      assert ReplaceAll(b, pat, rep) == b;
    }
  }

  /** A prefix where no occurrence of the pattern starts is copied, and the replace goes on after it. */
  lemma {:induction false} ReplaceAllUnmatched(a: string, b: string, pat: string, rep: string)
    requires pat != "" && forall j :: 0 <= j < |a| ==> !MatchAt(a + b, pat, j)
    ensures ReplaceAll(a + b, pat, rep) == a + ReplaceAll(b, pat, rep)
    decreases |a|
  {
    if a != [] {
      var t := a[1..] + b;
      calc {
        ReplaceAll(a + b, pat, rep);
      == { assert a + b == [a[0]] + t; ReplaceAllStep(a[0], t, pat, rep); }
        [a[0]] + ReplaceAll(t, pat, rep);
      == { forall j | 0 <= j < |a| - 1 ensures !MatchAt(t, pat, j) {
             assert (a + b)[1..] == t;
             MatchAtTail(a + b, pat, j);
           }
           ReplaceAllUnmatched(a[1..], b, pat, rep); }
        [a[0]] + (a[1..] + ReplaceAll(b, pat, rep));
      == { assert [a[0]] + a[1..] == a; }
        a + ReplaceAll(b, pat, rep);
      }
    } else {
      assert a + b == b;
    }
  }

  /** In particular a prefix that holds no first character of the pattern is copied. */
  lemma ReplaceAllSkip(a: string, b: string, pat: string, rep: string)
    requires pat != "" && pat[0] !in a
    ensures ReplaceAll(a + b, pat, rep) == a + ReplaceAll(b, pat, rep)
  {
    forall j | 0 <= j < |a| ensures !MatchAt(a + b, pat, j) {
      if j <= |a + b| - |pat| {
        assert (a + b)[j..j + |pat|][0] == a[j];
      }
    }
    ReplaceAllUnmatched(a, b, pat, rep);
  }

  /**
   * The replace is global: the first occurrence becomes the replacement,
   * and the rest of the string is replaced in the same way.
   */
  lemma ReplaceAllSplit(a: string, b: string, pat: string, rep: string)
    requires pat != "" && forall j :: 0 <= j < |a| ==> !MatchAt(a + pat + b, pat, j)
    ensures ReplaceAll(a + pat + b, pat, rep) == a + rep + ReplaceAll(b, pat, rep)
  {
    assert a + pat + b == a + (pat + b);
    ReplaceAllUnmatched(a, pat + b, pat, rep);
    var t := pat + b;
    assert t[..|pat|] == pat && t[|pat|..] == b;
  }

  /**
   * The replace keeps a prefix that holds no first character of the
   * replacement: if the result starts with `p`, so did the input.
   */
  lemma {:induction false} ReplaceAllKeepsPrefix(x: string, pat: string, rep: string, p: string)
    requires pat != "" && rep != "" && rep[0] !in p
    ensures MatchAt(ReplaceAll(x, pat, rep), p, 0) ==> MatchAt(x, p, 0)
    decreases |p|
  {
    if p != [] && x != [] {
      var r := ReplaceAll(x, pat, rep);
      assert p[0] in p;
      if MatchAt(x, pat, 0) {
        assert x[..|pat|] == pat;
        assert r == rep + ReplaceAll(x[|pat|..], pat, rep);
        MatchAtCons(rep[0], rep[1..] + ReplaceAll(x[|pat|..], pat, rep), p);
        assert r == [rep[0]] + (rep[1..] + ReplaceAll(x[|pat|..], pat, rep));
      } else {
        assert x == [x[0]] + x[1..];
        ReplaceAllStep(x[0], x[1..], pat, rep);
        assert p == [p[0]] + p[1..];
        ReplaceAllKeepsPrefix(x[1..], pat, rep, p[1..]);
        MatchAtCons(x[0], ReplaceAll(x[1..], pat, rep), p);
        MatchAtCons(x[0], x[1..], p);
      }
    }
  }

  /**
   * A piece that does not start with the pattern and holds its first
   * character nowhere else is copied, and the replace goes on after it.
   */
  lemma ReplaceAllMismatch(e: string, b: string, pat: string, rep: string)
    requires pat != "" && |e| >= |pat| && e[..|pat|] != pat && pat[0] !in e[1..]
    ensures ReplaceAll(e + b, pat, rep) == e + ReplaceAll(b, pat, rep)
  {
    var s := e + b;
    assert s[..|pat|] == e[..|pat|];
    assert s == [e[0]] + (e[1..] + b);
    ReplaceAllStep(e[0], e[1..] + b, pat, rep);
    ReplaceAllSkip(e[1..], b, pat, rep);
    assert [e[0]] + (e[1..] + ReplaceAll(b, pat, rep)) == e + ReplaceAll(b, pat, rep);
  }

  /** JavaScript `a || b` on two strings: the empty string is falsy. */
  function Or(a: string, b: string): string
  {
    if a != "" then a else b
  }
}
