/**
 * String operations of Python's `str` that the query pipeline relies on:
 * `strip()`, `sep.join(xs)`, `s.split(sep)` and substring search.
 */
module Strings {
  import opened Wrappers

  /** The whitespace set `strip()` removes in this model: space, \t, \n, \r, \x0b, \x0c. */
  predicate IsSpace(c: char) {
    c == ' ' || c == '\t' || c == '\n' || c == '\r' || c as int == 11 || c as int == 12
  }

  predicate AllSpace(s: string) {
    forall k :: 0 <= k < |s| ==> IsSpace(s[k])
  }

  /** `s.lstrip()`: what is left after the leading whitespace. */
  function TrimStart(s: string): (r: string)
    ensures |r| <= |s| && r == s[|s| - |r|..]
    ensures AllSpace(s[..|s| - |r|])
    ensures r != [] ==> !IsSpace(r[0])
    decreases |s|
  {
    if s != [] && IsSpace(s[0]) then TrimStart(s[1..]) else s
  }

  /** `s.rstrip()`: what is left before the trailing whitespace. */
  function TrimEnd(s: string): (r: string)
    ensures |r| <= |s| && r == s[..|r|]
    ensures AllSpace(s[|r|..])
    ensures r != [] ==> !IsSpace(r[|r| - 1])
    decreases |s|
  {
    if s != [] && IsSpace(s[|s| - 1]) then TrimEnd(s[..|s| - 1]) else s
  }

  /**
   * `s.strip()`: the result is a contiguous piece of `s` with only whitespace
   * around it, it neither starts nor ends with whitespace, and it is empty
   * exactly when `s` is all whitespace.
   */
  function Strip(s: string): (r: string)
    ensures exists i :: 0 <= i <= |s| - |r| && r == s[i..i + |r|]
                        && AllSpace(s[..i]) && AllSpace(s[i + |r|..])
    ensures r != [] ==> !IsSpace(r[0]) && !IsSpace(r[|r| - 1])
    ensures r == [] <==> AllSpace(s)
  {
    var t := TrimStart(s);
    var r := TrimEnd(t);
    StripPieces(s, t, r);
    r
  }

  lemma StripPieces(s: string, t: string, r: string)
    requires |t| <= |s| && t == s[|s| - |t|..] && AllSpace(s[..|s| - |t|])
    requires t != [] ==> !IsSpace(t[0])
    requires |r| <= |t| && r == t[..|r|] && AllSpace(t[|r|..])
    ensures var i := |s| - |t|; r == s[i..i + |r|] && AllSpace(s[i + |r|..])
    ensures r == [] <==> AllSpace(s)
  {
    var i := |s| - |t|;
    assert s[i + |r|..] == t[|r|..];
    if r != [] {
      assert s[i] == r[0];
    }
  }

  /** `pat` occurs in `s` starting at index `i`. */
  predicate OccursAt(pat: string, s: string, i: int) {
    0 <= i && i + |pat| <= |s| && s[i..i + |pat|] == pat
  }

  /** An occurrence in `s[1..]` is an occurrence in `s`, one place further right. */
  lemma OccursInTail(pat: string, s: string, k: int)
    requires |s| >= 1 && k >= 0
    ensures OccursAt(pat, s[1..], k) <==> OccursAt(pat, s, k + 1)
  {
    if k + |pat| <= |s| - 1 {
      assert s[1..][k..k + |pat|] == s[k + 1..k + 1 + |pat|];
    }
  }

  /** An occurrence in `b` is an occurrence in `a + b`, `|a|` places further right. */
  lemma OccursAfter(pat: string, a: string, b: string, k: int)
    requires k >= 0
    ensures OccursAt(pat, b, k) <==> OccursAt(pat, a + b, |a| + k)
  {
    if k + |pat| <= |b| {
      assert (a + b)[|a| + k..|a| + k + |pat|] == b[k..k + |pat|];
    }
  }

  /** `s.find(pat, from)`, with `None` for Python's -1: the leftmost occurrence at or after `from`. */
  function FindFrom(pat: string, s: string, from: nat): (r: Option<nat>)
    ensures r.Some? ==> from <= r.value && OccursAt(pat, s, r.value)
    ensures r.Some? ==> forall k :: from <= k < r.value ==> !OccursAt(pat, s, k)
    ensures r.None? ==> forall k :: from <= k ==> !OccursAt(pat, s, k)
    decreases |s| - from
  {
    if from + |pat| > |s| then None
    else if s[from..from + |pat|] == pat then Some(from)
    else FindFrom(pat, s, from + 1)
  }

  /** A text that starts and ends with non-whitespace is its own `strip()`. */
  lemma StripUnchanged(q: string)
    requires q != [] && !IsSpace(q[0]) && !IsSpace(q[|q| - 1])
    ensures Strip(q) == q
  {
  }

  /** `sep.join(xs)`. */
  function Join(sep: string, xs: seq<string>): string
    decreases |xs|
  {
    if |xs| == 0 then ""
    else if |xs| == 1 then xs[0]
    else xs[0] + sep + Join(sep, xs[1..])
  }

  /**
   * `s.split(sep)` for a nonempty separator: the pieces between the
   * occurrences of `sep` found left to right. Never empty: `"".split(sep) == [""]`.
   */
  function Split(s: string, sep: string): (r: seq<string>)
    requires sep != []
    ensures |r| >= 1
    decreases |s|
  {
    if |s| < |sep| then [s]
    else if s[..|sep|] == sep then [""] + Split(s[|sep|..], sep)
    else
      var rest := Split(s[1..], sep);
      [[s[0]] + rest[0]] + rest[1..]
  }

  /** A join begins with its first piece. */
  lemma JoinStartsWithFirst(sep: string, xs: seq<string>)
    requires |xs| >= 1
    ensures |Join(sep, xs)| >= |xs[0]| && Join(sep, xs)[..|xs[0]|] == xs[0]
  {
  }

  /** Putting a character in front of the first piece puts it in front of the join. */
  lemma JoinPrepend(sep: string, c: char, xs: seq<string>)
    requires |xs| >= 1
    ensures Join(sep, [[c] + xs[0]] + xs[1..]) == [c] + Join(sep, xs)
  {
    var ys := [[c] + xs[0]] + xs[1..];
    if |xs| > 1 {
      assert ys[1..] == xs[1..];
    }
  }

  /**
   * Splitting and joining back with the same separator gives the text back,
   * and no piece contains the separator: the pieces are exactly the text
   * between consecutive occurrences.
   */
  lemma {:induction false} SplitSpec(s: string, sep: string)
    requires sep != []
    ensures Join(sep, Split(s, sep)) == s
    ensures forall i, k :: 0 <= i < |Split(s, sep)| ==> !OccursAt(sep, Split(s, sep)[i], k)
    decreases |s|
  {
    var r := Split(s, sep);
    if |s| < |sep| {
      forall i, k | 0 <= i < |r| ensures !OccursAt(sep, r[i], k) {
      }
    } else if s[..|sep|] == sep {
      var rest := Split(s[|sep|..], sep);
      SplitSpec(s[|sep|..], sep);
      assert r[1..] == rest;
      assert s == sep + s[|sep|..];
      forall i, k | 0 <= i < |r| ensures !OccursAt(sep, r[i], k) {
        if i > 0 {
          assert r[i] == rest[i - 1];
        }
      }
    } else {
      var rest := Split(s[1..], sep);
      SplitSpec(s[1..], sep);
      JoinPrepend(sep, s[0], rest);
      assert [s[0]] + s[1..] == s;
      JoinStartsWithFirst(sep, rest);
      SplitHeadFree(s, sep, rest[0]);
      forall i, k | 0 <= i < |r| ensures !OccursAt(sep, r[i], k) {
        if i > 0 {
          assert r[i] == rest[i];
        }
      }
    }
  }

  /**
   * The first piece when `s` does not start with `sep`: its first character,
   * then a prefix of `s[1..]` free of `sep`. No occurrence starts at 0, since
   * `s` does not start with `sep`, nor later, since the rest is free of it.
   */
  lemma SplitHeadFree(s: string, sep: string, piece: string)
    requires sep != [] && |s| >= |sep| && s[..|sep|] != sep
    requires |s| - 1 >= |piece| && s[1..][..|piece|] == piece
    requires forall k :: !OccursAt(sep, piece, k)
    ensures forall k :: !OccursAt(sep, [s[0]] + piece, k)
  {
    var head := [s[0]] + piece;
    forall k ensures !OccursAt(sep, head, k) {
      if k == 0 && |sep| <= |head| {
        assert head[..|sep|] == s[..|sep|];
      } else if k > 0 {
        OccursInTail(sep, head, k - 1);
        assert head[1..] == piece;
      }
    }
  }

  lemma {:induction false} SplitNoSep(s: string, sep: char)
    requires sep !in s
    ensures Split(s, [sep]) == [s]
    decreases |s|
  {
    if s != [] {
      assert s[..1][0] == s[0];
      SplitNoSep(s[1..], sep);
      assert [s[0]] + s[1..] == s;
    }
  }

  lemma {:induction false} SplitAfterSep(a: string, b: string, sep: char)
    requires sep !in a
    ensures Split(a + [sep] + b, [sep]) == [a] + Split(b, [sep])
    decreases |a|
  {
    var s := a + [sep] + b;
    if a == [] {
      assert s == [sep] + b;
      assert s[..1] == [sep];
      assert s[1..] == b;
    } else {
      assert s[..1][0] == a[0];
      SplitAfterSep(a[1..], b, sep);
      assert s[1..] == a[1..] + [sep] + b;
      assert [a[0]] + a[1..] == a;
    }
  }

  /**
   * Joining pieces that do not contain `sep` and splitting on `sep` gives the
   * pieces back: the joined text has exactly one piece per element.
   */
  lemma {:induction false} SplitJoin(xs: seq<string>, sep: char)
    requires |xs| >= 1
    requires forall i :: 0 <= i < |xs| ==> sep !in xs[i]
    ensures Split(Join([sep], xs), [sep]) == xs
    decreases |xs|
  {
    if |xs| == 1 {
      SplitNoSep(xs[0], sep);
    } else {
      SplitJoin(xs[1..], sep);
      SplitAfterSep(xs[0], Join([sep], xs[1..]), sep);
      assert [xs[0]] + xs[1..] == xs;
    }
  }

  /** A character that occurs neither in the separator nor in any piece does not occur in the join. */
  lemma {:induction false} JoinAvoids(sep: string, xs: seq<string>, c: char)
    requires c !in sep
    requires forall i :: 0 <= i < |xs| ==> c !in xs[i]
    ensures c !in Join(sep, xs)
    decreases |xs|
  {
    if |xs| > 1 {
      JoinAvoids(sep, xs[1..], c);
    }
  }
}
