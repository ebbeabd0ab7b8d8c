/**
 * The one syntax repair applied to the extracted query: when the query,
 * lower-cased, starts with "select count(*)", every "COUNT()" is replaced by
 * "COUNT(*)" (Python's `str.replace`, case-sensitive). Otherwise the query is
 * left as it is, so "SELECT COUNT() FROM T" is not repaired.
 */
module SqlRepair {
  import opened Strings

  const Guard: string := "select count(*)"
  const Target: string := "COUNT()"
  const Replacement: string := "COUNT(*)"

  /** `str.lower()` on one character; only A to Z lower-case into the letters of `Guard`. */
  function LowerChar(c: char): char {
    if 'A' <= c <= 'Z' then (c as int + 32) as char else c
  }

  function Lower(s: string): (r: string)
    ensures |r| == |s|
  {
    seq(|s|, i requires 0 <= i < |s| => LowerChar(s[i]))
  }

  /** `q.lower().startswith("select count(*)")`. */
  predicate Guarded(q: string) {
    |q| >= |Guard| && Lower(q)[..|Guard|] == Guard
  }

  /** `s.replace(pat, rep)`: occurrences replaced left to right, never overlapping. */
  function ReplaceAll(s: string, pat: string, rep: string): string
    requires pat != []
    decreases |s|
  {
    if |s| < |pat| then s
    else if s[..|pat|] == pat then rep + ReplaceAll(s[|pat|..], pat, rep)
    else [s[0]] + ReplaceAll(s[1..], pat, rep)
  }

  ghost predicate NoOccurrence(pat: string, s: string) {
    forall k :: !OccursAt(pat, s, k)
  }

  /**
   * `s.replace(pat, rep) == rep.join(s.split(pat))`: the text between the
   * occurrences of `pat` is kept as it is, and each occurrence becomes `rep`.
   */
  lemma {:induction false} ReplaceIsJoinOfSplit(s: string, pat: string, rep: string)
    requires pat != []
    ensures ReplaceAll(s, pat, rep) == Join(rep, Split(s, pat))
    decreases |s|
  {
    if |s| >= |pat| {
      if s[..|pat|] == pat {
        ReplaceIsJoinOfSplit(s[|pat|..], pat, rep);
        var rest := Split(s[|pat|..], pat);
        assert ([""] + rest)[1..] == rest;
      } else {
        ReplaceIsJoinOfSplit(s[1..], pat, rep);
        JoinPrepend(rep, s[0], Split(s[1..], pat));
      }
    }
  }

  /** Replacing a pattern that does not occur changes nothing. */
  lemma {:induction false} ReplaceAbsent(s: string, pat: string, rep: string)
    requires pat != [] && NoOccurrence(pat, s)
    ensures ReplaceAll(s, pat, rep) == s
    decreases |s|
  {
    if |s| >= |pat| {
      assert !OccursAt(pat, s, 0);
      forall k | k >= 0 ensures !OccursAt(pat, s[1..], k) {
        OccursInTail(pat, s, k);
      }
      ReplaceAbsent(s[1..], pat, rep);
      assert [s[0]] + s[1..] == s;
    }
  }

  /** Up to the first occurrence, the text is copied unchanged. */
  lemma {:induction false} ReplaceKeepsPrefix(s: string, pat: string, rep: string, j: nat)
    requires pat != [] && j <= |s|
    requires forall k :: 0 <= k < j ==> !OccursAt(pat, s, k)
    ensures |ReplaceAll(s, pat, rep)| >= j && ReplaceAll(s, pat, rep)[..j] == s[..j]
    decreases j
  {
    if j > 0 && |s| >= |pat| {
      assert !OccursAt(pat, s, 0);
      forall k | 0 <= k < j - 1 ensures !OccursAt(pat, s[1..], k) {
        OccursInTail(pat, s, k);
      }
      ReplaceKeepsPrefix(s[1..], pat, rep, j - 1);
      var rest := ReplaceAll(s[1..], pat, rep);
      assert ReplaceAll(s, pat, rep)[..j] == [s[0]] + rest[..j - 1];
      assert s[..j] == [s[0]] + s[1..][..j - 1];
    }
  }

  /** A replacement at least as long as the pattern never shortens the text. */
  lemma {:induction false} ReplaceGrows(s: string, pat: string, rep: string)
    requires pat != [] && |rep| >= |pat|
    ensures |ReplaceAll(s, pat, rep)| >= |s|
    decreases |s|
  {
    if |s| >= |pat| {
      if s[..|pat|] == pat {
        ReplaceGrows(s[|pat|..], pat, rep);
      } else {
        ReplaceGrows(s[1..], pat, rep);
      }
    }
  }

  /**
   * Reading the repaired text back: a prefix of it without a 'C' was copied
   * from the input, since both the target and its replacement start with 'C'.
   */
  lemma {:induction false} CopiedUntilC(t: string, j: nat)
    requires j <= |ReplaceAll(t, Target, Replacement)|
    requires forall m :: 0 <= m < j ==> ReplaceAll(t, Target, Replacement)[m] != 'C'
    ensures j <= |t| && t[..j] == ReplaceAll(t, Target, Replacement)[..j]
    decreases |t|
  {
    var r := ReplaceAll(t, Target, Replacement);
    if j > 0 && |t| >= |Target| {
      assert r[0] != Replacement[0];
      if t[..|Target|] != Target {
        var rest := ReplaceAll(t[1..], Target, Replacement);
        assert r == [t[0]] + rest;
        assert forall m :: 0 <= m < j - 1 ==> rest[m] == r[m + 1];
        CopiedUntilC(t[1..], j - 1);
        assert r[..j] == [t[0]] + rest[..j - 1];
        assert t[..j] == [t[0]] + t[1..][..j - 1];
      }
    }
  }

  /** After the replacement no "COUNT()" is left. */
  lemma {:induction false} NoTargetAfterReplace(s: string)
    ensures NoOccurrence(Target, ReplaceAll(s, Target, Replacement))
    decreases |s|
  {
    var r := ReplaceAll(s, Target, Replacement);
    if |s| >= |Target| {
      if s[..|Target|] == Target {
        var rest := ReplaceAll(s[|Target|..], Target, Replacement);
        NoTargetAfterReplace(s[|Target|..]);
        forall k ensures !OccursAt(Target, r, k) {
          if k == 0 {
            assert r[6] != Target[6];
          } else if 0 < k < |Replacement| {
            assert r[k] != Target[0];
          } else if k >= |Replacement| {
            OccursAfter(Target, Replacement, rest, k - |Replacement|);
          }
        }
      } else {
        var rest := ReplaceAll(s[1..], Target, Replacement);
        NoTargetAfterReplace(s[1..]);
        assert r == [s[0]] + rest;
        forall k ensures !OccursAt(Target, r, k) {
          if k == 0 && |r| >= |Target| && s[0] == 'C' {
            if forall m :: 0 <= m < 6 ==> rest[m] != 'C' {
              CopiedUntilC(s[1..], 6);
              assert r[..|Target|] == s[..|Target|];
            } else {
              var m :| 0 <= m < 6 && rest[m] == 'C';
              assert r[m + 1] != Target[m + 1];
            }
          } else if k == 0 && |r| >= |Target| {
            assert r[0] != Target[0];
          } else if k > 0 {
            OccursAfter(Target, [s[0]], rest, k - 1);
          }
        }
      }
    }
  }

  /**
   * "COUNT()" ends in ')', so in a text with a single ')' it can only end
   * there, and it does not when the character six places before is not 'C'.
   */
  lemma NoTargetAroundParen(before: string, after: string)
    requires ')' !in before && ')' !in after
    requires |before| >= 6 ==> before[|before| - 6] != 'C'
    ensures NoOccurrence(Target, before + ")" + after)
  {
    var s := before + ")" + after;
    forall k ensures !OccursAt(Target, s, k) {
      if 0 <= k && k + |Target| <= |s| {
        if k + 6 < |before| {
          assert s[k..k + |Target|][6] == before[k + 6];
        } else if k + 6 > |before| {
          assert s[k..k + |Target|][6] == after[k + 6 - |before| - 1];
        } else {
          assert s[k..k + |Target|][0] == before[|before| - 6];
        }
      }
    }
  }

  /** No "COUNT()" starts inside a prefix that lower-cases to "select count(*)". */
  lemma NoTargetInGuard(q: string)
    requires Guarded(q)
    ensures forall k :: 0 <= k < |Guard| ==> !OccursAt(Target, q, k)
  {
    forall k | 0 <= k < |Guard|
      ensures !OccursAt(Target, q, k)
    {
      // a character of q at which "COUNT()" and "select count(*)" disagree
      var m := if k == 4 then 1 else if k == 7 then 6 else 0;
      assert Lower(q)[k + m] == Guard[k + m];
      assert q[k + m] != Target[m];
    }
  }

  /**
   * The repair as written. When the guard holds, the query is cut at every
   * "COUNT()" and put back together with "COUNT(*)" in each cut, so the text
   * between the occurrences is kept, none is left and the first 15
   * characters are kept; otherwise the query comes back unchanged. The query
   * never gets shorter.
   */
  function RepairCount(q: string): (r: string)
    ensures !Guarded(q) ==> r == q
    ensures Guarded(q) ==> r == Join(Replacement, Split(q, Target))
    ensures Guarded(q) ==> NoOccurrence(Target, r)
    ensures Guarded(q) ==> |r| >= |Guard| && r[..|Guard|] == q[..|Guard|]
    ensures |r| >= |q|
  {
    if Guarded(q) then
      NoTargetAfterReplace(q);
      NoTargetInGuard(q);
      ReplaceKeepsPrefix(q, Target, Replacement, |Guard|);
      ReplaceGrows(q, Target, Replacement);
      ReplaceIsJoinOfSplit(q, Target, Replacement);
      ReplaceAll(q, Target, Replacement)
    else q
  }

  /** The repair is idempotent: a repaired query is its own repair. */
  lemma RepairIdempotent(q: string)
    ensures RepairCount(RepairCount(q)) == RepairCount(q)
  {
    var r := RepairCount(q);
    if Guarded(q) {
      assert Lower(r)[..|Guard|] == Lower(q)[..|Guard|];
      ReplaceAbsent(r, Target, Replacement);
    }
  }

  /** The guard as written leaves an upper-case `SELECT COUNT()` query unrepaired. */
  lemma UpperCaseCountNotRepaired()
    ensures RepairCount("SELECT COUNT() FROM T") == "SELECT COUNT() FROM T"
  {
    var q := "SELECT COUNT() FROM T";
    assert q[13] == ')';
    assert Lower(q)[..|Guard|][13] != Guard[13];
  }
}
