/**
 * The JavaScript string primitives the image search relies on:
 * `indexOf`, `includes`, `endsWith` and `replace` with a string pattern.
 * JavaScript strings are sequences of UTF-16 code units; Dafny's `char` is a
 * Unicode scalar value instead. For the ASCII patterns searched for here
 * (`http://`, `.jpg`, `.png`, `~orig.`, `~large.`) the results agree.
 */
module JsString {
  import opened Wrappers

  /** `pat` occurs in `s` starting at position `i`. */
  predicate MatchAt(s: string, pat: string, i: nat)
  {
    i + |pat| <= |s| && s[i..i + |pat|] == pat
  }

  /** `i` is the position of the first occurrence of `pat` in `s`. */
  ghost predicate FirstMatch(s: string, pat: string, i: nat)
  {
    MatchAt(s, pat, i) && forall j: nat :: j < i ==> !MatchAt(s, pat, j)
  }

  /** The first occurrence of `pat` at or after `from` (`s.indexOf(pat, from)` for `from <= |s|`), with -1 written as `None`. */
  function IndexOfFrom(s: string, pat: string, from: nat): (r: Option<nat>)
    ensures r.Some? ==> from <= r.value && MatchAt(s, pat, r.value)
    ensures r.Some? ==> forall j: nat :: from <= j < r.value ==> !MatchAt(s, pat, j)
    ensures r.None? ==> forall j: nat :: from <= j ==> !MatchAt(s, pat, j)
    decreases |s| - from
  {
    if |s| < from + |pat| then None
    else if s[from..from + |pat|] == pat then Some(from)
    else IndexOfFrom(s, pat, from + 1)
  }

  /** `s.indexOf(pat)`: the first occurrence, if there is one. */
  function IndexOf(s: string, pat: string): (r: Option<nat>)
    ensures r.Some? ==> FirstMatch(s, pat, r.value)
    ensures r.None? ==> forall j: nat :: !MatchAt(s, pat, j)
  {
    IndexOfFrom(s, pat, 0)
  }

  /** `s.includes(pat)`. */
  function Includes(s: string, pat: string): (r: bool)
    ensures r <==> exists i: nat :: MatchAt(s, pat, i)
  {
    IndexOf(s, pat).Some?
  }

  /** `s.endsWith(suffix)`. */
  predicate EndsWith(s: string, suffix: string)
  {
    |suffix| <= |s| && s[|s| - |suffix|..] == suffix
  }

  /**
   * `s.replace(pat, rep)` with a string pattern and a replacement free of `$`
   * patterns: only the first occurrence of `pat`, wherever it is, is replaced.
   */
  function ReplaceFirst(s: string, pat: string, rep: string): (r: string)
    ensures !Includes(s, pat) ==> r == s
    ensures forall i: nat :: FirstMatch(s, pat, i) ==> r == s[..i] + rep + s[i + |pat|..]
  {
    match IndexOf(s, pat)
    case None => s
    case Some(i) => s[..i] + rep + s[i + |pat|..]
  }

  /** Replacing changes the string exactly when the pattern occurs, if the lengths differ. */
  lemma ReplaceFirstUnchangedIff(s: string, pat: string, rep: string)
    requires |rep| != |pat|
    ensures ReplaceFirst(s, pat, rep) == s <==> !Includes(s, pat)
  {
    match IndexOf(s, pat)
    case None =>
    case Some(i) =>
      assert |ReplaceFirst(s, pat, rep)| == |s| - |pat| + |rep|;
  }

  /** When `s` begins with `pat`, the replacement happens at the front. */
  lemma ReplaceFirstAtStart(s: string, pat: string, rep: string)
    requires MatchAt(s, pat, 0)
    ensures ReplaceFirst(s, pat, rep) == rep + s[|pat|..]
  {
    var found := IndexOf(s, pat);
    assert found == Some(0);
    assert ReplaceFirst(s, pat, rep) == s[..0] + rep + s[|pat|..];
    assert s[..0] + rep == rep;
  }

  /** Every character of a suffix of `s` is a character of that suffix. */
  lemma EndsWithChars(s: string, suffix: string)
    requires EndsWith(s, suffix)
    ensures forall p :: |s| - |suffix| <= p < |s| ==> s[p] in suffix
  {
    forall p | |s| - |suffix| <= p < |s| ensures s[p] in suffix {
      assert s[|s| - |suffix|..][p - (|s| - |suffix|)] == s[p];
    }
  }

  /** A suffix of the tail of a concatenation is a suffix of the whole. */
  lemma EndsWithAppend(a: string, b: string, suffix: string)
    requires EndsWith(b, suffix)
    ensures EndsWith(a + b, suffix)
  {
    assert (a + b)[|a + b| - |suffix|..] == b[|b| - |suffix|..];
  }

  /**
   * A suffix that does not contain the pattern's last character survives the
   * replacement: the first occurrence must end before the suffix starts.
   */
  lemma ReplaceFirstKeepsSuffix(s: string, pat: string, rep: string, suffix: string)
    requires |pat| > 0 && pat[|pat| - 1] !in suffix
    requires EndsWith(s, suffix)
    ensures EndsWith(ReplaceFirst(s, pat, rep), suffix)
  {
    match IndexOf(s, pat)
    case None =>
    case Some(i) =>
      var start, last := |s| - |suffix|, i + |pat| - 1;
      assert s[last] == pat[|pat| - 1] by {
        assert s[i..i + |pat|][|pat| - 1] == s[last];
      }
      EndsWithChars(s, suffix);
      assert last < start;
      var tail := s[i + |pat|..];
      assert EndsWith(tail, suffix) by {
        assert tail[|tail| - |suffix|..] == s[start..];
      }
      assert ReplaceFirst(s, pat, rep) == (s[..i] + rep) + tail;
      EndsWithAppend(s[..i] + rep, tail, suffix);
  }
}
