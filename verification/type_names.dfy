/** Name normalisation of the entity analysis: the simple class name of a
    qualified name, and the unwrapping of a generic argument list. */
module TypeNames {
  import opened Text

  /** `suffix` is a tail of `s`. */
  ghost predicate IsSuffix(suffix: string, s: string)
  {
    |suffix| <= |s| && s[|s| - |suffix|..] == suffix
  }

  /** GetClassName: the text after the last dot when there is a dot that is
      not the final character; otherwise the whole name. */
  function GetClassName(typeName: string): (r: string)
    ensures |r| <= |typeName| && r == typeName[|typeName| - |r|..]
    ensures r != typeName ==> |r| > 0 && '.' !in r
  {
    var lastDot := LastIndexOf(typeName, '.');
    LastIndexOfSpec(typeName, '.');
    if lastDot != -1 && lastDot < |typeName| - 1 then
      typeName[lastDot + 1..]
    else
      typeName
  }

  /** The simple name is a tail of the qualified name. It is the whole name
      exactly when there is no dot or the name ends in a dot; otherwise it is
      the non-empty, dot-free text that follows a dot. */
  lemma GetClassNameSpec(typeName: string)
    ensures IsSuffix(GetClassName(typeName), typeName)
    ensures GetClassName(typeName) == typeName <==> '.' !in typeName || typeName[|typeName| - 1] == '.'
    ensures var r := GetClassName(typeName);
            r != typeName ==> |r| > 0 && '.' !in r && typeName[|typeName| - |r| - 1] == '.'
  {
    LastIndexOfSpec(typeName, '.');
  }

  /** Applying GetClassName to its own result changes nothing. */
  lemma GetClassNameIdempotent(typeName: string)
    ensures GetClassName(GetClassName(typeName)) == GetClassName(typeName)
  {
    var r := GetClassName(typeName);
    GetClassNameSpec(typeName);
    GetClassNameSpec(r);
  }

  /** The pattern `\<([^>]*)\>` matches `s[i..j + 1]`: a `<` at `i`, the
      first `>` after it at `j`, and any characters other than `>` between. */
  ghost predicate GenericMatch(s: string, i: int, j: int)
  {
    0 <= i < j < |s| && s[i] == '<' && s[j] == '>'
    && forall k :: i < k < j ==> s[k] != '>'
  }

  /** Some match of the pattern starts at `i`. */
  ghost predicate MatchStartsAt(s: string, i: int)
  {
    exists j :: GenericMatch(s, i, j)
  }

  /** The match a regular-expression search reports: the one that starts
      leftmost. */
  ghost predicate LeftmostMatch(s: string, i: int, j: int)
  {
    GenericMatch(s, i, j) && forall k :: 0 <= k < i ==> !MatchStartsAt(s, k)
  }

  ghost predicate HasGenericMatch(s: string)
  {
    exists i, j :: GenericMatch(s, i, j)
  }

  /** ExtractGenericType: the first capture group of the leftmost match of
      `\<([^>]*)\>`, or the input unchanged when nothing matches. Written as a
      character scan: the first `<`, then the first `>` after it. */
  function ExtractGenericType(s: string): (r: string)
    ensures |r| <= |s|
    ensures r != s ==> '<' in s && '>' in s && '>' !in r && |r| < |s|
  {
    var open := IndexOfFrom(s, '<', 0);
    IndexOfFromSpec(s, '<', 0);
    if open == -1 then s
    else
      var close := IndexOfFrom(s, '>', open + 1);
      IndexOfFromSpec(s, '>', open + 1);
      if close == -1 then s else s[open + 1..close]
  }

  /** The scan agrees with the regular expression: with no match the input
      comes back unchanged; with a match the result is the text inside the
      leftmost match, which holds no `>` and is shorter than the input. */
  lemma ExtractGenericTypeSpec(s: string)
    ensures !HasGenericMatch(s) ==> ExtractGenericType(s) == s
    ensures HasGenericMatch(s) ==>
      exists i, j :: LeftmostMatch(s, i, j) && ExtractGenericType(s) == s[i + 1..j]
    ensures HasGenericMatch(s) ==> '>' !in ExtractGenericType(s) && |ExtractGenericType(s)| < |s|
  {
    var open := IndexOfFrom(s, '<', 0);
    IndexOfFromSpec(s, '<', 0);
    if open == -1 {
      assert !HasGenericMatch(s);
    } else {
      var close := IndexOfFrom(s, '>', open + 1);
      IndexOfFromSpec(s, '>', open + 1);
      if close == -1 {
        assert !HasGenericMatch(s);
      } else {
        assert LeftmostMatch(s, open, close);
      }
    }
  }

  /** A string has at most one leftmost match. */
  lemma LeftmostMatchUnique(s: string, i: int, j: int, i': int, j': int)
    requires LeftmostMatch(s, i, j) && LeftmostMatch(s, i', j')
    ensures i == i' && j == j'
  {
    assert !(i < i') by {
      if i < i' { assert MatchStartsAt(s, i); }
    }
    assert !(i' < i) by {
      if i' < i { assert MatchStartsAt(s, i'); }
    }
  }

  /** When the pattern matches, ExtractGenericType returns exactly the text
      between the `<` of the leftmost match and the first `>` after it. */
  lemma ExtractGenericTypeOfMatch(s: string, i: int, j: int)
    requires LeftmostMatch(s, i, j)
    ensures ExtractGenericType(s) == s[i + 1..j]
  {
    var r := ExtractGenericType(s);
    assert HasGenericMatch(s);
    ExtractGenericTypeSpec(s);
    var i', j' :| LeftmostMatch(s, i', j') && r == s[i' + 1..j'];
    LeftmostMatchUnique(s, i, j, i', j');
  }

  /** Normalising a normalised name changes nothing: a matched result holds
      no `>`, so the pattern cannot match it again. */
  lemma ExtractGenericTypeIdempotent(s: string)
    ensures ExtractGenericType(ExtractGenericType(s)) == ExtractGenericType(s)
  {
    var r := ExtractGenericType(s);
    ExtractGenericTypeSpec(s);
    if HasGenericMatch(s) {
      assert !HasGenericMatch(r);
      ExtractGenericTypeSpec(r);
    }
  }

  /** Nested generics are not unwrapped level by level: the first `>`
      closes the match, so the result keeps the inner `<`. */
  lemma ExtractGenericTypeNested()
    ensures ExtractGenericType("A<B<C>>") == "B<C"
  {
    var s := "A<B<C>>";
    assert s[0] == 'A' && s[1] == '<' && s[2] == 'B' && s[3] == '<' && s[4] == 'C' && s[5] == '>';
    assert GenericMatch(s, 1, 5);
    assert !MatchStartsAt(s, 0);
    ExtractGenericTypeOfMatch(s, 1, 5);
    assert s[2..5] == "B<C";
  }

  /** A compiler-generated backing field name `<P>k__BackingField` yields
      the property name `P`. */
  lemma ExtractGenericTypeBackingField(property: string)
    requires '>' !in property
    ensures ExtractGenericType("<" + property + ">k__BackingField") == property
  {
    var s := "<" + property + ">k__BackingField";
    var j := |property| + 1;
    assert s[0] == '<' && s[j] == '>';
    assert forall k :: 0 < k < j ==> s[k] == property[k - 1];
    assert GenericMatch(s, 0, j);
    ExtractGenericTypeOfMatch(s, 0, j);
    assert s[1..j] == property;
  }

  /** A name without `<` is left as it is. */
  lemma ExtractGenericTypeOfPlainName(s: string)
    requires '<' !in s
    ensures ExtractGenericType(s) == s
  {
    IndexOfFromSpec(s, '<', 0);
  }

  /** The class name of a namespace-qualified name is the part after the
      namespace. */
  lemma GetClassNameOfQualified(namespace: string, name: string)
    requires |name| > 0 && '.' !in name
    ensures GetClassName(namespace + "." + name) == name
  {
    var s := namespace + "." + name;
    LastIndexOfSpec(s, '.');
    assert s[|namespace|] == '.';
    assert forall k :: |namespace| < k < |s| ==> s[k] == name[k - |namespace| - 1];
    assert s[|namespace| + 1..] == name;
  }
}
