/** Ordinal, case-insensitive substring search: the `String.IndexOf(text,
    StringComparison.OrdinalIgnoreCase) >= 0` test the catalog filter uses.
    Characters are compared after upper-casing; only the ASCII letters are
    folded. */
module TextMatch {

  /** Upper-case image of a character (ASCII letters only). */
  function ToUpper(c: char): (u: char)
    ensures 'a' <= c <= 'z' ==> 'A' <= u <= 'Z' && u as int == c as int - 32
    ensures !('a' <= c <= 'z') ==> u == c
  {
    if 'a' <= c <= 'z' then (c as int - 32) as char else c
  }

  /** Upper-case image of a whole string. */
  function UpperAll(s: string): (r: string)
    ensures |r| == |s|
    ensures forall k | 0 <= k < |s| :: r[k] == ToUpper(s[k])
  {
    seq(|s|, k requires 0 <= k < |s| => ToUpper(s[k]))
  }

  /** `needle` occurs in `hay` at offset `i`, ignoring case. */
  predicate MatchesAt(hay: string, needle: string, i: int)
    requires 0 <= i && i + |needle| <= |hay|
  {
    forall k | 0 <= k < |needle| :: ToUpper(hay[i + k]) == ToUpper(needle[k])
  }

  /** `needle` occurs somewhere in `hay`, ignoring case. */
  predicate ContainsIgnoreCase(hay: string, needle: string) {
    exists i | 0 <= i && i + |needle| <= |hay| :: MatchesAt(hay, needle, i)
  }

  /** `IndexOf` with ordinal ignore-case comparison: the first offset at which
      `needle` occurs in `hay`, or -1 when it occurs nowhere. */
  method IndexOfIgnoreCase(hay: string, needle: string) returns (idx: int)
    ensures -1 <= idx
    ensures idx >= 0 ==> idx + |needle| <= |hay|
    ensures idx >= 0 ==> MatchesAt(hay, needle, idx)
    ensures idx >= 0 ==> forall j | 0 <= j < idx :: !MatchesAt(hay, needle, j)
    ensures idx == -1 <==> !ContainsIgnoreCase(hay, needle)
  {
    if |needle| > |hay| {
      return -1;
    }
    var i := 0;
    while i + |needle| <= |hay|
      invariant 0 <= i <= |hay| - |needle| + 1
      invariant forall j | 0 <= j < i :: !MatchesAt(hay, needle, j)
      decreases |hay| - i
    {
      var k := 0;
      while k < |needle| && ToUpper(hay[i + k]) == ToUpper(needle[k])
        invariant 0 <= k <= |needle|
        invariant forall l | 0 <= l < k :: ToUpper(hay[i + l]) == ToUpper(needle[l])
        decreases |needle| - k
      {
        k := k + 1;
      }
      if k == |needle| {
        return i;
      }
      i := i + 1;
    }
    return -1;
  }

  /** The empty search text is found in every string. */
  lemma EmptyNeedleMatches(hay: string)
    ensures ContainsIgnoreCase(hay, "")
  {
    assert MatchesAt(hay, "", 0);
  }

  /** An exact occurrence is in particular a case-insensitive one. */
  lemma ExactOccurrenceMatches(hay: string, needle: string, i: int)
    requires 0 <= i && i + |needle| <= |hay|
    requires hay[i..i + |needle|] == needle
    ensures ContainsIgnoreCase(hay, needle)
  {
    forall k | 0 <= k < |needle|
      ensures ToUpper(hay[i + k]) == ToUpper(needle[k])
    {
      assert hay[i + k] == hay[i..i + |needle|][k];
    }
    assert MatchesAt(hay, needle, i);
  }

  /** Case is irrelevant on both sides of the test. */
  lemma CaseInsensitive(hay: string, needle: string)
    ensures ContainsIgnoreCase(hay, needle) <==> ContainsIgnoreCase(UpperAll(hay), UpperAll(needle))
  {
    var H, N := UpperAll(hay), UpperAll(needle);
    forall i | 0 <= i && i + |needle| <= |hay|
      ensures MatchesAt(hay, needle, i) <==> MatchesAt(H, N, i)
    {
      forall k | 0 <= k < |needle|
        ensures ToUpper(hay[i + k]) == ToUpper(needle[k]) <==> ToUpper(H[i + k]) == ToUpper(N[k])
      {
        UpperIdempotent(hay[i + k]);
        UpperIdempotent(needle[k]);
      }
    }
    if ContainsIgnoreCase(hay, needle) {
      var i :| 0 <= i && i + |needle| <= |hay| && MatchesAt(hay, needle, i);
      assert MatchesAt(H, N, i);
    }
    if ContainsIgnoreCase(H, N) {
      var i :| 0 <= i && i + |N| <= |H| && MatchesAt(H, N, i);
      assert MatchesAt(hay, needle, i);
    }
  }

  lemma UpperIdempotent(c: char)
    ensures ToUpper(ToUpper(c)) == ToUpper(c)
  {
  }
}
