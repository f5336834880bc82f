/**
 The two .NET string operations the harvest helper relies on, with ordinal
 (character by character) comparison: `String.StartsWith(string)` and
 `String.Replace(string, string)`.

 `Replace` is specified twice: operationally by `ReplaceAll`, a left-to-right
 scan that replaces the leftmost non-overlapping occurrences, and
 declaratively by `Join` over a leftmost split (`ReplaceAllIsJoin`,
 `LeftmostSplitExists`).
 */
module Strings {

  /** `s.StartsWith(prefix)` under ordinal comparison; every string starts with "". */
  predicate StartsWith(s: string, prefix: string) {
    |prefix| <= |s| && s[..|prefix|] == prefix
  }

  /** `pat` occurs in `s` at index `j`. */
  predicate OccursAt(s: string, pat: string, j: nat) {
    j + |pat| <= |s| && s[j..j + |pat|] == pat
  }

  /** `s.Contains(pat)` under ordinal comparison. */
  predicate Contains(s: string, pat: string) {
    exists j: nat | j <= |s| :: OccursAt(s, pat, j)
  }

  /** No occurrence of `pat` in `s` starts before index `n`. */
  predicate NoOccurrenceBefore(s: string, pat: string, n: nat) {
    forall j: nat :: j < n ==> !OccursAt(s, pat, j)
  }

  /**
   `s.Replace(pat, rep)`: scanning from the left, every occurrence of `pat`
   that does not overlap one already replaced is replaced by `rep`. .NET
   rejects an empty `pat` with an exception.
   */
  function ReplaceAll(s: string, pat: string, rep: string): (r: string)
    requires pat != ""
    ensures |rep| <= |pat| ==> |r| <= |s|
    decreases |s|
  {
    if |s| < |pat| then s
    else if s[..|pat|] == pat then rep + ReplaceAll(s[|pat|..], pat, rep)
    else [s[0]] + ReplaceAll(s[1..], pat, rep)
  }

  /** `String.Join(sep, parts)`. */
  function Join(parts: seq<string>, sep: string): string {
    if |parts| == 0 then ""
    else if |parts| == 1 then parts[0]
    else parts[0] + sep + Join(parts[1..], sep)
  }

  /**
   `parts` cut a string at the occurrences of `pat` that a left-to-right scan
   finds: no occurrence starts inside a part before its separator, and the
   last part holds none at all.
   */
  predicate LeftmostSplit(parts: seq<string>, pat: string) {
    && |parts| > 0
    && (forall i | 0 <= i < |parts| - 1 :: NoOccurrenceBefore(parts[i] + pat, pat, |parts[i]|))
    && !Contains(parts[|parts| - 1], pat)
  }

  lemma StartsWithIsConcatenation(s: string, prefix: string)
    ensures StartsWith(s, prefix) <==> exists rest :: s == prefix + rest
  {
    if StartsWith(s, prefix) {
      assert s == prefix + s[|prefix|..];
    }
    if exists rest :: s == prefix + rest {
      var rest :| s == prefix + rest;
      assert s[..|prefix|] == prefix;
    }
  }

  lemma OccursAtShift(s: string, pat: string, j: nat)
    requires |s| > 0
    ensures OccursAt(s[1..], pat, j) <==> OccursAt(s, pat, j + 1)
  {
  }

  lemma OccursAtInPrefix(u: string, v: string, pat: string, j: nat)
    requires j + |pat| <= |u|
    ensures OccursAt(u + v, pat, j) <==> OccursAt(u, pat, j)
  {
  }

  /** When `pat` is not at the front, `s` holds it exactly when its tail does. */
  lemma ContainsStep(s: string, pat: string)
    requires |s| > 0 && !OccursAt(s, pat, 0)
    ensures Contains(s, pat) <==> Contains(s[1..], pat)
  {
    if Contains(s, pat) {
      var j: nat :| OccursAt(s, pat, j);
      OccursAtShift(s, pat, j - 1);
    }
    if Contains(s[1..], pat) {
      var j: nat :| OccursAt(s[1..], pat, j);
      OccursAtShift(s, pat, j);
    }
  }

  /** Replacing in a string that does not contain the pattern changes nothing. */
  lemma {:induction false} ReplaceAllWithoutOccurrence(s: string, pat: string, rep: string)
    requires pat != "" && !Contains(s, pat)
    ensures ReplaceAll(s, pat, rep) == s
  {
    if |s| >= |pat| {
      assert !OccursAt(s, pat, 0);
      ContainsStep(s, pat);
      ReplaceAllWithoutOccurrence(s[1..], pat, rep);
      assert [s[0]] + s[1..] == s;
    }
  }

  /** Removing a pattern shortens the string exactly when the pattern occurs in it. */
  lemma {:induction false} RemoveAllShortens(s: string, pat: string)
    requires pat != ""
    ensures |ReplaceAll(s, pat, "")| < |s| <==> Contains(s, pat)
  {
    if |s| < |pat| {
      assert !Contains(s, pat);
    } else if s[..|pat|] == pat {
      assert OccursAt(s, pat, 0);
    } else {
      assert !OccursAt(s, pat, 0);
      ContainsStep(s, pat);
      RemoveAllShortens(s[1..], pat);
    }
  }

  /** A front part in which no occurrence starts is copied unchanged. */
  lemma {:induction false} ReplaceAllSkipsClean(a: string, t: string, pat: string, rep: string)
    requires pat != "" && NoOccurrenceBefore(a + t, pat, |a|)
    ensures ReplaceAll(a + t, pat, rep) == a + ReplaceAll(t, pat, rep)
  {
    if a == [] {
      assert a + t == t;
    } else {
      var s := a + t;
      assert !OccursAt(s, pat, 0);
      if |s| >= |pat| {
        assert s[1..] == a[1..] + t;
        forall j: nat | j < |a[1..]|
          ensures !OccursAt(a[1..] + t, pat, j)
        {
          assert !OccursAt(s, pat, j + 1);
          OccursAtShift(s, pat, j);
        }
        assert s[0..|pat|] == s[..|pat|];
        ReplaceAllSkipsClean(a[1..], t, pat, rep);
        assert a + ReplaceAll(t, pat, rep) == [s[0]] + (a[1..] + ReplaceAll(t, pat, rep));
      }
    }
  }

  /** An occurrence at the front is replaced and the scan resumes after it. */
  lemma ReplaceAllAtFront(pat: string, t: string, rep: string)
    requires pat != ""
    ensures ReplaceAll(pat + t, pat, rep) == rep + ReplaceAll(t, pat, rep)
  {
  }

  /**
   The scan agrees with the declarative reading of `Replace`: a string cut at
   its leftmost occurrences of `pat` is rejoined with `rep`.
   */
  lemma {:induction false} ReplaceAllIsJoin(parts: seq<string>, pat: string, rep: string)
    requires pat != "" && LeftmostSplit(parts, pat)
    ensures ReplaceAll(Join(parts, pat), pat, rep) == Join(parts, rep)
  {
    if |parts| == 1 {
      ReplaceAllWithoutOccurrence(parts[0], pat, rep);
    } else {
      var p, rest := parts[0], parts[1..];
      var tail := pat + Join(rest, pat);
      assert Join(parts, pat) == p + tail;
      forall j: nat | j < |p|
        ensures !OccursAt(p + tail, pat, j)
      {
        assert !OccursAt(p + pat, pat, j);
        if j + |pat| <= |p + pat| {
          assert p + tail == (p + pat) + Join(rest, pat);
          OccursAtInPrefix(p + pat, Join(rest, pat), pat, j);
        }
      }
      ReplaceAllSkipsClean(p, tail, pat, rep);
      ReplaceAllAtFront(pat, Join(rest, pat), rep);
      assert LeftmostSplit(rest, pat) by {
        forall i | 0 <= i < |rest| - 1
          ensures NoOccurrenceBefore(rest[i] + pat, pat, |rest[i]|)
        {
          assert rest[i] == parts[i + 1];
        }
      }
      ReplaceAllIsJoin(rest, pat, rep);
    }
  }

  /** Every string can be cut at the occurrences a left-to-right scan finds. */
  lemma {:induction false} LeftmostSplitExists(s: string, pat: string) returns (parts: seq<string>)
    requires pat != ""
    ensures LeftmostSplit(parts, pat) && Join(parts, pat) == s
    decreases |s|
  {
    if |s| < |pat| {
      parts := [s];
    } else if s[..|pat|] == pat {
      var more := LeftmostSplitExists(s[|pat|..], pat);
      parts := [""] + more;
      assert parts[1..] == more;
      assert s == "" + pat + s[|pat|..];
      assert LeftmostSplit(parts, pat) by {
        forall i | 0 <= i < |parts| - 1
          ensures NoOccurrenceBefore(parts[i] + pat, pat, |parts[i]|)
        {
          if i > 0 {
            assert parts[i] == more[i - 1];
          }
        }
      }
    } else {
      assert !OccursAt(s, pat, 0);
      var more := LeftmostSplitExists(s[1..], pat);
      var first := [s[0]] + more[0];
      parts := [first] + more[1..];
      if |more| == 1 {
        assert first == s;
        ContainsStep(s, pat);
      } else {
        assert Join(more, pat) == more[0] + pat + Join(more[1..], pat);
        assert Join(parts, pat) == first + pat + Join(more[1..], pat);
        assert s == [s[0]] + s[1..];
        forall j: nat | j < |first|
          ensures !OccursAt(first + pat, pat, j)
        {
          if j == 0 {
            assert (first + pat)[..|pat|] == s[..|pat|];
          } else {
            assert (first + pat)[1..] == more[0] + pat;
            OccursAtShift(first + pat, pat, j - 1);
          }
        }
        assert LeftmostSplit(parts, pat) by {
          forall i | 0 <= i < |parts| - 1
            ensures NoOccurrenceBefore(parts[i] + pat, pat, |parts[i]|)
          {
            if i > 0 {
              assert parts[i] == more[i];
            }
          }
        }
      }
    }
  }
}
