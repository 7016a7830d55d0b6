/**
 * The final clean-up of the rendered SQL: three regular-expression replacements
 * and a trim, applied in order.
 *
 *   1. `[ \t]+`  becomes " "   (CollapseBlanks)
 *   2. `\s+\n`   becomes "\n"  (TrimLineEnds)
 *   3. `\n\s+`   becomes "\n"  (TrimLineStarts)
 *   4. String.Trim()           (Chars.Trim)
 *
 * Each replacement is a left-to-right scan: where a match starts, its replacement
 * is emitted and the scan resumes after the match; elsewhere one character is
 * copied. In step 2 the greedy `\s+` first takes the whole white-space run and
 * then gives characters back until a `\n` follows, so a match that starts at a
 * white-space character ends at the LAST `\n` of that run (after at least one
 * white-space character); there is no match when the run has no `\n` after its
 * first character. In step 3 the `\s+` after the `\n` takes the whole run.
 */
module Normalizer {
  import opened Wrappers
  import opened Chars

  // ---------------------------------------------------------------------------
  // The four steps
  // ---------------------------------------------------------------------------

  /** Step 1: every run of spaces and tabs becomes one space. */
  function CollapseBlanks(s: string): (r: string)
    ensures |r| <= |s|
    decreases |s|
  {
    if s == [] then []
    else if IsBlankChar(s[0]) then
      var n := Run(s, IsBlankChar);
      " " + CollapseBlanks(s[n..])
    else [s[0]] + CollapseBlanks(s[1..])
  }

  /** The last position in `[lo, hi)` where `s` holds a line feed, if any. */
  function LastNewline(s: string, lo: nat, hi: nat): (r: Option<nat>)
    requires lo <= hi <= |s|
    ensures r.Some? ==> lo <= r.value < hi && s[r.value] == '\n'
    ensures r.Some? ==> forall k :: r.value < k < hi ==> s[k] != '\n'
    ensures r.None? ==> forall k :: lo <= k < hi ==> s[k] != '\n'
    decreases hi - lo
  {
    if hi == lo then None
    else if s[hi - 1] == '\n' then Some(hi - 1)
    else LastNewline(s, lo, hi - 1)
  }

  /** Where `\s+\n` matches at the start of `s`: the position of the `\n` that ends the match. */
  function LineEndMatch(s: string): (r: Option<nat>)
    ensures r.Some? ==> 0 < r.value < Run(s, IsWhite) && s[r.value] == '\n'
    ensures r.Some? ==> forall k :: r.value < k < Run(s, IsWhite) ==> s[k] != '\n'
    ensures r.None? ==> forall k :: 0 < k < Run(s, IsWhite) ==> s[k] != '\n'
  {
    var w := Run(s, IsWhite);
    if w > 1 then LastNewline(s, 1, w) else None
  }

  /** Step 2: white space that ends a line is removed, together with blank lines before the line feed. */
  function TrimLineEnds(s: string): (r: string)
    ensures |r| <= |s|
    decreases |s|
  {
    if s == [] then []
    else match LineEndMatch(s)
      case Some(k) => "\n" + TrimLineEnds(s[k + 1..])
      case None => [s[0]] + TrimLineEnds(s[1..])
  }

  /** Step 3: white space that starts a line is removed, together with the blank lines it spans. */
  function TrimLineStarts(s: string): (r: string)
    ensures |r| <= |s|
    decreases |s|
  {
    if s == [] then []
    else if s[0] == '\n' && |s| > 1 && IsWhite(s[1]) then
      "\n" + TrimLineStarts(s[1 + RunFrom(s, 1, IsWhite)..])
    else [s[0]] + TrimLineStarts(s[1..])
  }

  /** The whole clean-up. */
  function Normalize(s: string): (r: string)
    ensures |r| <= |s|
  {
    Trim(TrimLineStarts(TrimLineEnds(CollapseBlanks(s))))
  }

  // ---------------------------------------------------------------------------
  // The shape of normalized text
  // ---------------------------------------------------------------------------

  predicate NoTab(s: string)
  {
    '\t' !in s
  }

  predicate NoDoubleSpace(s: string)
  {
    forall i :: 0 < i < |s| ==> !(s[i] == ' ' && s[i - 1] == ' ')
  }

  predicate NoWhiteBeforeNewline(s: string)
  {
    forall i :: 0 < i < |s| ==> s[i] == '\n' ==> !IsWhite(s[i - 1])
  }

  predicate NoWhiteAfterNewline(s: string)
  {
    forall i :: 0 < i < |s| ==> s[i - 1] == '\n' ==> !IsWhite(s[i])
  }

  predicate NoOuterWhite(s: string)
  {
    s == [] || (!IsWhite(s[0]) && !IsWhite(s[|s| - 1]))
  }

  /** What the clean-up guarantees about its output. */
  predicate Normalized(s: string)
  {
    NoTab(s) && NoDoubleSpace(s) && NoWhiteBeforeNewline(s) && NoWhiteAfterNewline(s) && NoOuterWhite(s)
  }

  /** The characters of `s` that are not white space, in order. */
  function Ink(s: string): (r: string)
    ensures |r| <= |s|
    ensures forall i :: 0 <= i < |r| ==> !IsWhite(r[i])
  {
    if s == [] then [] else (if IsWhite(s[0]) then [] else [s[0]]) + Ink(s[1..])
  }
}
