/**
 * Character classes and the small string operations of the .NET base library that
 * the template engine relies on: Char.IsWhiteSpace (which is also the class `\s`
 * of .NET regular expressions), ASCII case folding, String.Trim, String.Trim(char),
 * String.StartsWith and String.Split(' ', RemoveEmptyEntries).
 */
module Chars {
  import opened Wrappers

  /** Char.IsWhiteSpace: the Unicode separators plus U+0009..U+000D and U+0085. */
  predicate IsWhite(c: char)
  {
    c == ' ' || ('\t' <= c <= '\r') || c == '\U{85}' || c == '\U{A0}' || c == '\U{1680}'
    || ('\U{2000}' <= c <= '\U{200A}') || c == '\U{2028}' || c == '\U{2029}'
    || c == '\U{202F}' || c == '\U{205F}' || c == '\U{3000}'
  }

  /** String.IsNullOrWhiteSpace on a non-null string. */
  predicate Blank(s: string)
  {
    forall i :: 0 <= i < |s| ==> IsWhite(s[i])
  }

  /** The characters of the regular-expression class `[ \t]`. */
  predicate IsBlankChar(c: char)
  {
    c == ' ' || c == '\t'
  }

  /** The class `\w`, restricted to ASCII letters, digits and the underscore. */
  predicate IsWordChar(c: char)
  {
    ('a' <= c <= 'z') || ('A' <= c <= 'Z') || ('0' <= c <= '9') || c == '_'
  }

  predicate IsDigit(c: char)
  {
    '0' <= c <= '9'
  }

  /**
   * ASCII case folding, as used for the case-insensitive keywords and operators:
   * the result is never an upper-case letter, it is a lower-case letter exactly
   * when the input is a letter of either case, and only upper-case letters change.
   */
  function Lower(c: char): (r: char)
    ensures !('A' <= r <= 'Z')
    ensures ('a' <= r <= 'z') <==> ('a' <= c <= 'z' || 'A' <= c <= 'Z')
    ensures r != c ==> 'A' <= c <= 'Z' && r as int == c as int + 32
  {
    if 'A' <= c <= 'Z' then (c as int + 32) as char else c
  }

  /** Two characters agree ignoring case exactly when they are equal or are the two cases of one letter. */
  lemma LowerMatches(x: char, y: char)
    ensures Lower(x) == Lower(y) <==>
      x == y || ('A' <= x <= 'Z' && y as int == x as int + 32) || ('A' <= y <= 'Z' && x as int == y as int + 32)
  {
  }

  /** Folding is idempotent: a folded character folds to itself. */
  lemma LowerIdempotent(c: char)
    ensures Lower(Lower(c)) == Lower(c)
  {
  }

  function LowerAll(s: string): (r: string)
    ensures |r| == |s|
    ensures forall i :: 0 <= i < |s| ==> r[i] == Lower(s[i])
  {
    seq(|s|, i requires 0 <= i < |s| => Lower(s[i]))
  }

  /** `s` holds `pat` at position `i`, ignoring ASCII case. */
  predicate StartsAt(s: string, i: nat, pat: string)
  {
    i + |pat| <= |s| && forall k :: 0 <= k < |pat| ==> Lower(s[i + k]) == Lower(pat[k])
  }

  /** The first position at or after `from` where `s` holds `pat` (ignoring case), if any. */
  function IndexOfCI(s: string, from: nat, pat: string): (r: Option<nat>)
    ensures r.Some? ==> from <= r.value && StartsAt(s, r.value, pat)
    decreases |s| - from
  {
    if |s| < from + |pat| then None
    else if StartsAt(s, from, pat) then Some(from)
    else IndexOfCI(s, from + 1, pat)
  }

  /** IndexOfCI finds the first occurrence, and no occurrence when it finds none. */
  lemma {:induction false} IndexOfCIFirst(s: string, from: nat, pat: string)
    ensures IndexOfCI(s, from, pat).Some? ==> forall j :: from <= j < IndexOfCI(s, from, pat).value ==> !StartsAt(s, j, pat)
    ensures IndexOfCI(s, from, pat).None? ==> forall j :: from <= j ==> !StartsAt(s, j, pat)
    decreases |s| - from
  {
    if |s| >= from + |pat| && !StartsAt(s, from, pat) {
      IndexOfCIFirst(s, from + 1, pat);
    }
  }

  /** The length of the longest prefix of `s` whose characters satisfy `p`. */
  function Run(s: string, p: char -> bool): (n: nat)
    ensures n <= |s|
    ensures forall i :: 0 <= i < n ==> p(s[i])
    ensures n < |s| ==> !p(s[n])
  {
    if s == [] || !p(s[0]) then 0 else 1 + Run(s[1..], p)
  }

  /** The length of the longest run of characters satisfying `p` that starts at `i`. */
  function RunFrom(s: string, i: nat, p: char -> bool): (n: nat)
    requires i <= |s|
    ensures i + n <= |s|
    ensures i + n < |s| ==> !p(s[i + n])
    decreases |s| - i
  {
    if i == |s| || !p(s[i]) then 0 else 1 + RunFrom(s, i + 1, p)
  }

  /** Every character of the run satisfies `p` (kept out of RunFrom's contract, which stays cheap to use). */
  lemma {:induction false} RunFromHolds(s: string, i: nat, p: char -> bool)
    requires i <= |s|
    ensures forall k :: i <= k < i + RunFrom(s, i, p) ==> p(s[k])
    decreases |s| - i
  {
    if i < |s| && p(s[i]) {
      RunFromHolds(s, i + 1, p);
    }
  }

  /** String.TrimStart(): drop the leading white space. */
  function TrimStart(s: string): (r: string)
    ensures |r| <= |s| && r == s[|s| - |r|..]
    ensures r == [] || !IsWhite(r[0])
    ensures Blank(s[..|s| - |r|])
  {
    s[Run(s, IsWhite)..]
  }

  /** String.TrimEnd(): drop the trailing white space. */
  function TrimEnd(s: string): (r: string)
    ensures |r| <= |s| && r == s[..|r|]
    ensures r == [] || !IsWhite(r[|r| - 1])
    ensures Blank(s[|r|..])
  {
    if s == [] || !IsWhite(s[|s| - 1]) then s
    else
      var r := TrimEnd(s[..|s| - 1]);
      assert s[|r|..] == s[..|s| - 1][|r|..] + [s[|s| - 1]];
      r
  }

  /** String.Trim(): drop the leading and the trailing white space. */
  function Trim(s: string): (r: string)
    ensures r == [] || (!IsWhite(r[0]) && !IsWhite(r[|r| - 1]))
    ensures Run(s, IsWhite) + |r| <= |s| && r == s[Run(s, IsWhite)..Run(s, IsWhite) + |r|]
    ensures Blank(s[..Run(s, IsWhite)]) && Blank(s[Run(s, IsWhite) + |r|..])
  {
    var t := TrimStart(s);
    var r := TrimEnd(t);
    assert s[Run(s, IsWhite) + |r|..] == t[|r|..];
    r
  }

  /** The number of leading occurrences of `c` in `s`. */
  function RunOf(s: string, c: char): (n: nat)
    ensures n <= |s|
    ensures forall i :: 0 <= i < n ==> s[i] == c
    ensures n < |s| ==> s[n] != c
  {
    if s == [] || s[0] != c then 0 else 1 + RunOf(s[1..], c)
  }

  /** Every character of `s` is `c`. */
  predicate AllOf(s: string, c: char)
  {
    forall i :: 0 <= i < |s| ==> s[i] == c
  }

  /** String.TrimEnd(c): drop every trailing occurrence of `c`. */
  function TrimCharEnd(s: string, c: char): (r: string)
    ensures |r| <= |s| && r == s[..|r|]
    ensures r == [] || r[|r| - 1] != c
    ensures AllOf(s[|r|..], c)
  {
    if s == [] || s[|s| - 1] != c then s
    else
      var r := TrimCharEnd(s[..|s| - 1], c);
      assert s[|r|..] == s[..|s| - 1][|r|..] + [c];
      r
  }

  /** String.Trim(c): drop every leading and trailing occurrence of `c`. */
  function TrimChar(s: string, c: char): (r: string)
    ensures r == [] || (r[0] != c && r[|r| - 1] != c)
    ensures RunOf(s, c) + |r| <= |s| && r == s[RunOf(s, c)..RunOf(s, c) + |r|]
    ensures AllOf(s[..RunOf(s, c)], c) && AllOf(s[RunOf(s, c) + |r|..], c)
  {
    var t := s[RunOf(s, c)..];
    var r := TrimCharEnd(t, c);
    assert s[RunOf(s, c) + |r|..] == t[|r|..];
    r
  }

  predicate IsSpace(c: char) { c == ' ' }

  predicate NotSpace(c: char) { c != ' ' }

  /**
   * String.Split(' ', StringSplitOptions.RemoveEmptyEntries): the maximal runs of
   * characters other than the space character, in order. Only U+0020 separates.
   */
  function SplitSpace(s: string): (r: seq<string>)
    ensures forall k :: 0 <= k < |r| ==> r[k] != [] && ' ' !in r[k]
    decreases |s|
  {
    var a := Run(s, IsSpace);
    if a == |s| then []
    else
      var t := s[a..];
      var n := Run(t, NotSpace);
      [t[..n]] + SplitSpace(t[n..])
  }

  /** The tokens written back with one space between each pair. */
  function JoinSpace(ts: seq<string>): string
  {
    if ts == [] then []
    else if |ts| == 1 then ts[0]
    else ts[0] + " " + JoinSpace(ts[1..])
  }

  /** A token as SplitSpace produces it. */
  predicate IsToken(t: string)
  {
    t != [] && ' ' !in t
  }

  lemma {:induction false} RunPrefix(t: string, x: string, p: char -> bool)
    requires forall i :: 0 <= i < |t| ==> p(t[i])
    requires x == [] || !p(x[0])
    ensures Run(t + x, p) == |t|
    decreases |t|
  {
    if t != [] {
      assert (t + x)[1..] == t[1..] + x;
      RunPrefix(t[1..], x, p);
    } else {
      assert t + x == x;
    }
  }

  lemma {:induction false} SplitLeadingSpace(x: string)
    ensures SplitSpace(" " + x) == SplitSpace(x)
  {
    var s := " " + x;
    var b := Run(x, IsSpace);
    assert s[1..] == x;
    assert Run(s, IsSpace) == 1 + b;
    assert s[1 + b..] == x[b..];
  }

  lemma SplitToken(t: string, rest: string)
    requires IsToken(t)
    requires rest == [] || rest[0] == ' '
    ensures SplitSpace(t + rest) == [t] + SplitSpace(rest)
  {
    var s := t + rest;
    assert Run(s, IsSpace) == 0;
    assert s[0..] == s;
    RunPrefix(t, rest, NotSpace);
    assert s[..|t|] == t;
    assert s[|t|..] == rest;
  }

  /** A token alone splits into itself. */
  lemma SplitTokenAlone(t: string)
    requires IsToken(t)
    ensures SplitSpace(t) == [t]
  {
    SplitToken(t, []);
    assert t + [] == t;
  }

  /** Text made of spaces only. */
  predicate AllSpaces(u: string)
  {
    forall i :: 0 <= i < |u| ==> u[i] == ' '
  }

  /** Leading spaces are ignored by the split. */
  lemma {:induction false} SplitLeadingSpaces(u: string, y: string)
    requires AllSpaces(u)
    ensures SplitSpace(u + y) == SplitSpace(y)
    decreases |u|
  {
    if u != [] {
      assert u + y == " " + (u[1..] + y);
      SplitLeadingSpace(u[1..] + y);
      SplitLeadingSpaces(u[1..], y);
    } else {
      assert u + y == y;
    }
  }

  /**
   * Splitting text joined by a space gives the parts of each side, in order: the
   * split ignores how many spaces separate two tokens and any spaces at either end.
   */
  lemma {:induction false} SplitSpaceConcat(x: string, y: string)
    ensures SplitSpace(x + " " + y) == SplitSpace(x) + SplitSpace(y)
    decreases |x|
  {
    if Run(x, IsSpace) == |x| {
      ConcatSpaces(x, y);
    } else {
      var u, tok, rest := FirstToken(x);
      SplitSpaceConcat(rest, y);
      ConcatToken(x, y, u, tok, rest);
    }
  }

  /** SplitSpaceConcat when the left side is spaces only. */
  lemma ConcatSpaces(x: string, y: string)
    requires Run(x, IsSpace) == |x|
    ensures SplitSpace(x + " " + y) == SplitSpace(x) + SplitSpace(y)
  {
    assert AllSpaces(x);
    assert x + " " + y == x + (" " + y);
    SplitLeadingSpaces(x, " " + y);
    SplitLeadingSpace(y);
    assert SplitSpace(x) == [];
  }

  /** SplitSpaceConcat when the left side starts with a token, from the case of the rest. */
  lemma ConcatToken(x: string, y: string, u: string, tok: string, rest: string)
    requires x == u + (tok + rest) && AllSpaces(u) && IsToken(tok) && (rest == [] || rest[0] == ' ')
    requires SplitSpace(rest + " " + y) == SplitSpace(rest) + SplitSpace(y)
    ensures SplitSpace(x + " " + y) == SplitSpace(x) + SplitSpace(y)
  {
    var z := rest + " " + y;
    Regroup(u, tok, rest, y);
    SplitLeadingSpaces(u, tok + z);
    SplitToken(tok, z);
    SplitLeadingSpaces(u, tok + rest);
    SplitToken(tok, rest);
    TokensAssoc([tok], SplitSpace(rest), SplitSpace(y));
  }

  lemma TokensAssoc(a: seq<string>, b: seq<string>, c: seq<string>)
    ensures a + (b + c) == (a + b) + c
  {
  }

  lemma Regroup(u: string, tok: string, rest: string, y: string)
    ensures (u + (tok + rest)) + " " + y == u + (tok + (rest + " " + y))
  {
  }

  /** Text that is not all spaces is leading spaces, a token, and a rest that starts with a space. */
  lemma FirstToken(x: string) returns (u: string, tok: string, rest: string)
    requires Run(x, IsSpace) < |x|
    ensures x == u + (tok + rest) && AllSpaces(u) && IsToken(tok)
    ensures rest == [] || rest[0] == ' '
    ensures |rest| < |x|
  {
    var a := Run(x, IsSpace);
    var t := x[a..];
    var n := Run(t, NotSpace);
    u, tok, rest := x[..a], t[..n], t[n..];
    assert t == tok + rest;
    assert x == u + t;
  }

  /** Splitting a token joined in front of tokens that split back gives them all back. */
  lemma SplitJoinStep(t: string, tail: seq<string>)
    requires IsToken(t) && tail != [] && SplitSpace(JoinSpace(tail)) == tail
    ensures SplitSpace(JoinSpace([t] + tail)) == [t] + tail
  {
    var ts := [t] + tail;
    assert ts[0] == t && ts[1..] == tail;
    var j := JoinSpace(tail);
    var rest := " " + j;
    assert JoinSpace(ts) == t + " " + j;
    assert t + " " + j == t + rest;
    SplitToken(t, rest);
    SplitLeadingSpace(j);
  }

  /** Splitting text joined from tokens gives the tokens back. */
  lemma {:induction false} SplitJoin(ts: seq<string>)
    requires forall k :: 0 <= k < |ts| ==> IsToken(ts[k])
    ensures SplitSpace(JoinSpace(ts)) == ts
    decreases |ts|
  {
    if |ts| == 1 {
      SplitToken(ts[0], []);
      assert ts[0] + [] == ts[0];
    } else if |ts| > 1 {
      var tail := ts[1..];
      assert forall k :: 0 <= k < |tail| ==> IsToken(tail[k]) by {
        forall k | 0 <= k < |tail| ensures IsToken(tail[k]) { assert tail[k] == ts[k + 1]; }
      }
      SplitJoin(tail);
      SplitJoinStep(ts[0], tail);
      HeadTail(ts);
    }
  }

  /** A non-empty sequence is its head in front of its tail. */
  lemma HeadTail(ts: seq<string>)
    requires ts != []
    ensures ts == [ts[0]] + ts[1..]
  {
  }
}
