/** The substring test `strcontains` of `xbps-locate`, which walks the
    haystack and the needle as NUL-terminated C strings, optionally folding
    case through `LOWERWHEN`. */
module Locate {
  import opened Common

  /** The character a `const char *` sees at offset `i`: NUL past the end. */
  function CharAt(s: string, i: nat): (c: char)
    ensures '\0' !in s ==> (c == '\0' <==> i >= |s|)
  {
    if i < |s| then s[i] else '\0'
  }

  /** `LOWERWHEN(ignorecase, chr)`. */
  function LowerWhen(ignoreCase: bool, c: char): (r: char)
    ensures !ignoreCase ==> r == c
    ensures r == '\0' <==> c == '\0'
  {
    if !ignoreCase then c else ToLower(c)
  }

  /** The needle fits in the haystack at `i` and every character agrees after
      `LowerWhen`. */
  ghost predicate AgreesAt(h: string, n: string, i: nat, ignoreCase: bool)
  {
    i + |n| <= |h| && forall j :: 0 <= j < |n| ==> LowerWhen(ignoreCase, h[i + j]) == LowerWhen(ignoreCase, n[j])
  }

  /** An attempt at `i` succeeds: the first characters are equal as they are
      (the guard compares them without `LOWERWHEN`) and the rest agree. */
  ghost predicate MatchesAt(h: string, n: string, i: nat, ignoreCase: bool)
  {
    0 < |n| && i < |h| && h[i] == n[0] && AgreesAt(h, n, i, ignoreCase)
  }

  /** The needle occurs verbatim at `i`. */
  ghost predicate OccursAt(h: string, n: string, i: nat)
  {
    i + |n| <= |h| && h[i..i + |n|] == n
  }

  /** What `strcontains` answers. */
  ghost function Contains(h: string, n: string, ignoreCase: bool): (r: bool)
    ensures r ==> 0 < |n| <= |h|
  {
    exists i :: MatchesAt(h, n, i, ignoreCase)
  }

  /** The `do … while` of one attempt: compares needle and haystack from
      offset `i` until the needle's NUL (success) or a mismatch. */
  method CompareAt(h: string, n: string, i: nat, ignoreCase: bool) returns (matched: bool)
    requires '\0' !in h && '\0' !in n
    requires 0 < |n| && i < |h|
    ensures matched <==> AgreesAt(h, n, i, ignoreCase)
  {
    var a := i;
    var b := 0;
    var same := true;
    while same
      invariant 0 <= b <= |n| && a == i + b
      invariant same ==> i + b <= |h|
      invariant same ==> forall j :: 0 <= j < b ==> LowerWhen(ignoreCase, h[i + j]) == LowerWhen(ignoreCase, n[j])
      invariant !same ==> !AgreesAt(h, n, i, ignoreCase)
      decreases |n| - b, same
    {
      if CharAt(n, b) == '\0' {
        return true;
      }
      same := LowerWhen(ignoreCase, CharAt(h, a)) == LowerWhen(ignoreCase, CharAt(n, b));
      a := a + 1;
      b := b + 1;
    }
    return false;
  }

  /** `strcontains(haystack, needle, ignorecase)`. */
  method StrContains(haystack: string, needle: string, ignoreCase: bool) returns (found: bool)
    requires '\0' !in haystack && '\0' !in needle
    ensures found <==> Contains(haystack, needle, ignoreCase)
  {
    var i := 0;
    while CharAt(haystack, i) != '\0'
      invariant 0 <= i <= |haystack|
      invariant forall p :: 0 <= p < i ==> !MatchesAt(haystack, needle, p, ignoreCase)
      decreases |haystack| - i
    {
      if CharAt(haystack, i) != CharAt(needle, 0) {
        i := i + 1;
        continue;
      }
      found := CompareAt(haystack, needle, i, ignoreCase);
      if found {
        assert MatchesAt(haystack, needle, i, ignoreCase);
        return;
      }
      i := i + 1;
    }
    return false;
  }

  /** Case-sensitive mode is exactly the substring relation. */
  lemma CaseSensitiveIsSubstring(h: string, n: string)
    ensures Contains(h, n, false) <==> 0 < |n| && exists i :: OccursAt(h, n, i)
  {
    if Contains(h, n, false) {
      var i: nat :| MatchesAt(h, n, i, false);
      assert h[i..i + |n|] == n;
      assert OccursAt(h, n, i);
    }
    if 0 < |n| && exists i :: OccursAt(h, n, i) {
      var i: nat :| OccursAt(h, n, i);
      forall j | 0 <= j < |n|
        ensures h[i + j] == n[j]
      {
        assert h[i..i + |n|][j] == n[j];
      }
      assert MatchesAt(h, n, i, false);
    }
  }

  /** A case-sensitive hit is also a case-insensitive hit. */
  lemma SensitiveImpliesInsensitive(h: string, n: string)
    requires Contains(h, n, false)
    ensures Contains(h, n, true)
  {
    var i: nat :| MatchesAt(h, n, i, false);
    assert MatchesAt(h, n, i, true);
  }

  /** Agreement after `LowerWhen(true, _)` is equality of the folded slices. */
  lemma AgreesIsFoldedSlice(h: string, n: string, i: nat)
    requires i + |n| <= |h|
    ensures AgreesAt(h, n, i, true) <==> FoldCase(h[i..i + |n|]) == FoldCase(n)
  {
    if AgreesAt(h, n, i, true) {
      forall j | 0 <= j < |n|
        ensures FoldCase(h[i..i + |n|])[j] == FoldCase(n)[j]
      {
        assert h[i..i + |n|][j] == h[i + j];
      }
    }
    if FoldCase(h[i..i + |n|]) == FoldCase(n) {
      forall j | 0 <= j < |n|
        ensures LowerWhen(true, h[i + j]) == LowerWhen(true, n[j])
      {
        assert FoldCase(h[i..i + |n|])[j] == FoldCase(n)[j];
        assert h[i..i + |n|][j] == h[i + j];
      }
    }
  }

  /** Ignore-case mode: some position holds the needle's first character
      exactly, and the folded slice there equals the folded needle. */
  lemma IgnoreCaseCharacterization(h: string, n: string)
    ensures Contains(h, n, true) <==>
      0 < |n| && exists i: nat :: FoldedAt(h, n, i) && i < |h| && h[i] == n[0]
  {
    if Contains(h, n, true) {
      var i: nat :| MatchesAt(h, n, i, true);
      AgreesIsFoldedSlice(h, n, i);
      assert FoldedAt(h, n, i);
    }
    if 0 < |n| && exists i: nat :: FoldedAt(h, n, i) && i < |h| && h[i] == n[0] {
      var i: nat :| FoldedAt(h, n, i) && i < |h| && h[i] == n[0];
      AgreesIsFoldedSlice(h, n, i);
      assert MatchesAt(h, n, i, true);
    }
  }

  /** With `ignorecase` set, "ABC" does not contain "abc", although the two
      are equal once folded: the first characters are compared as they are. */
  lemma FirstCharacterKeepsCase()
    ensures FoldCase("ABC") == FoldCase("abc")
    ensures !Contains("ABC", "abc", true)
  {
    assert FoldCase("ABC") == "abc";
    assert FoldCase("abc") == "abc";
  }

  /** The evidently intended ignore-case search: the needle agrees with the
      haystack at some position after `LowerWhen`, first character included. */
  ghost function ContainsFolded(h: string, n: string, ignoreCase: bool): (r: bool)
    ensures r ==> 0 < |n| <= |h|
  {
    0 < |n| && exists i :: AgreesAt(h, n, i, ignoreCase)
  }

  /** `strcontains` with the first-character guard passed through
      `LOWERWHEN` as well. */
  method StrContainsFolded(haystack: string, needle: string, ignoreCase: bool) returns (found: bool)
    requires '\0' !in haystack && '\0' !in needle
    ensures found <==> ContainsFolded(haystack, needle, ignoreCase)
  {
    var i := 0;
    while CharAt(haystack, i) != '\0'
      invariant 0 <= i <= |haystack|
      invariant 0 < |needle| ==> forall p :: 0 <= p < i ==> !AgreesAt(haystack, needle, p, ignoreCase)
      decreases |haystack| - i
    {
      if LowerWhen(ignoreCase, CharAt(haystack, i)) != LowerWhen(ignoreCase, CharAt(needle, 0)) {
        i := i + 1;
        continue;
      }
      found := CompareAt(haystack, needle, i, ignoreCase);
      if found {
        return;
      }
      i := i + 1;
    }
    return false;
  }

  /** The corrected search with `ignorecase` is case-insensitive substring
      search; without it, it answers as `strcontains` does. */
  lemma FoldedIsCaseInsensitiveSubstring(h: string, n: string)
    ensures ContainsFolded(h, n, true) <==> 0 < |n| && exists i :: FoldedAt(h, n, i)
    ensures ContainsFolded(h, n, false) == Contains(h, n, false)
  {
    if ContainsFolded(h, n, true) {
      var i: nat :| AgreesAt(h, n, i, true);
      AgreesIsFoldedSlice(h, n, i);
      assert FoldedAt(h, n, i);
    }
    if 0 < |n| && exists i :: FoldedAt(h, n, i) {
      var i: nat :| FoldedAt(h, n, i);
      AgreesIsFoldedSlice(h, n, i);
      assert AgreesAt(h, n, i, true);
    }
    if ContainsFolded(h, n, false) {
      var i: nat :| AgreesAt(h, n, i, false);
      assert MatchesAt(h, n, i, false);
    }
  }
}
