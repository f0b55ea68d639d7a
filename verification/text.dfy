/** Ordinal string primitives of the .NET base library that the model needs:
    substring containment and first/last index of a character. Strings are
    `seq<char>`, a sequence of Unicode scalar values rather than the UTF-16
    code units of .NET. A position can therefore differ from the .NET index
    when a character outside the Basic Multilingual Plane (one UTF-16
    surrogate pair) comes before it. The characters searched for (`.`, `<`,
    `>`, space) are ASCII and never part of a surrogate pair, so the
    substrings the model cuts out are the same under either view; positions
    are only used to cut substrings and never appear in a result. */
module Text {

  /** `pat` occurs in `s` starting at position `i`. */
  ghost predicate OccursAt(s: string, pat: string, i: int)
  {
    0 <= i && i + |pat| <= |s| && s[i..i + |pat|] == pat
  }

  /** `pat` is a substring of `s` (the declarative reading of containment). */
  ghost predicate Occurs(s: string, pat: string)
  {
    exists i :: OccursAt(s, pat, i)
  }

  /** An occurrence in `s[1..]` is an occurrence in `s`, one position later. */
  lemma OccursAtShift(s: string, pat: string, i: nat)
    requires |s| > 0
    ensures OccursAt(s[1..], pat, i) <==> OccursAt(s, pat, i + 1)
  {
  }

  /** String.Contains(string) with ordinal comparison, as a scan over the
      start positions. */
  predicate Contains(s: string, pat: string)
    decreases |s|
  {
    if |s| < |pat| then false
    else if s[..|pat|] == pat then true
    else Contains(s[1..], pat)
  }

  /** The scan answers true exactly when `pat` occurs somewhere in `s` (the
      empty pattern occurs in every string). */
  lemma {:induction false} ContainsIffOccurs(s: string, pat: string)
    ensures Contains(s, pat) <==> Occurs(s, pat)
    decreases |s|
  {
    if |s| < |pat| {
      assert forall i :: !OccursAt(s, pat, i);
    } else if s[..|pat|] == pat {
      assert OccursAt(s, pat, 0);
    } else {
      ContainsIffOccurs(s[1..], pat);
      if Contains(s[1..], pat) {
        var i :| OccursAt(s[1..], pat, i);
        assert i >= 0;
        OccursAtShift(s, pat, i);
      }
      if Occurs(s, pat) {
        var i :| OccursAt(s, pat, i);
        assert i != 0;
        OccursAtShift(s, pat, i - 1);
      }
    }
  }

  /** String.IndexOf(char, startIndex): the first position at or after `from`
      holding `c`, or -1 when there is none. */
  function IndexOfFrom(s: string, c: char, from: nat): (r: int)
    requires from <= |s|
    ensures r == -1 || from <= r < |s|
    decreases |s| - from
  {
    if from == |s| then -1
    else if s[from] == c then from
    else IndexOfFrom(s, c, from + 1)
  }

  /** The search answers -1 exactly when no position from `from` on holds
      `c`; otherwise it answers the first such position. */
  lemma {:induction false} IndexOfFromSpec(s: string, c: char, from: nat)
    requires from <= |s|
    ensures var r := IndexOfFrom(s, c, from);
            r == -1 <==> forall k :: from <= k < |s| ==> s[k] != c
    ensures var r := IndexOfFrom(s, c, from);
            r != -1 ==> from <= r < |s| && s[r] == c && forall k :: from <= k < r ==> s[k] != c
    decreases |s| - from
  {
    if from < |s| && s[from] != c {
      IndexOfFromSpec(s, c, from + 1);
    }
  }

  /** String.LastIndexOf(char): the last position holding `c`, or -1 when
      `c` does not occur. */
  function LastIndexOf(s: string, c: char): (r: int)
    ensures -1 <= r < |s|
    decreases |s|
  {
    if |s| == 0 then -1
    else if s[|s| - 1] == c then |s| - 1
    else LastIndexOf(s[..|s| - 1], c)
  }

  /** The search answers -1 exactly when `c` does not occur; otherwise it
      answers the last position holding `c`. */
  lemma {:induction false} LastIndexOfSpec(s: string, c: char)
    ensures var r := LastIndexOf(s, c);
            r == -1 <==> c !in s
    ensures var r := LastIndexOf(s, c);
            r != -1 ==> 0 <= r < |s| && s[r] == c && forall k :: r < k < |s| ==> s[k] != c
    decreases |s|
  {
    if |s| > 0 && s[|s| - 1] != c {
      var init := s[..|s| - 1];
      LastIndexOfSpec(init, c);
      assert s == init + [s[|s| - 1]];
    }
  }
}
