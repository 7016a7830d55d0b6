/**
 * The converse of the shape lemmas of DirectiveLaws: whatever the scanners
 * return is a directive. Matches states declaratively when a pattern matches
 * at a position with given captures, and MatchPieces returns exactly those;
 * IfMatchAt does the same for IfBlockRegex.
 */
module MatchLaws {
  import opened Wrappers
  import opened Chars
  import opened Values
  import opened Expressions
  import opened Directives
  import opened DirectiveLaws

  // ---------------------------------------------------------------------------
  // Patterns
  // ---------------------------------------------------------------------------

  /**
   * The pattern `p` matches `s` from `i` to `e` with the captures `gs`: a literal
   * is there ignoring case, a white-space run is there and is taken whole, a key
   * is a longest run of word characters, and a lazy group is the text up to the
   * first occurrence of its tag.
   */
  predicate Matches(s: string, i: nat, p: Pattern, gs: seq<string>, e: nat)
    requires i <= |s|
    decreases p
  {
    match p
    case Done => gs == [] && e == i
    case Then(Text(t), next) => StartsAt(s, i, t) && Matches(s, i + |t|, next, gs, e)
    case Then(Blanks, next) =>
      i < |s| && IsWhite(s[i]) && Matches(s, i + RunFrom(s, i, IsWhite), next, gs, e)
    case Then(Key, next) =>
      && gs != [] && Word(gs[0]) && i + |gs[0]| <= |s| && s[i..i + |gs[0]|] == gs[0]
      && (i + |gs[0]| < |s| ==> !IsWordChar(s[i + |gs[0]|]))
      && Matches(s, i + |gs[0]|, next, gs[1..], e)
    case Then(Upto(t), next) =>
      && gs != [] && i + |gs[0]| <= |s| && s[i..i + |gs[0]|] == gs[0]
      && StartsAt(s, i + |gs[0]|, t)
      && (forall j :: i <= j < i + |gs[0]| ==> !StartsAt(s, j, t))
      && Matches(s, i + |gs[0]| + |t|, next, gs[1..], e)
  }

  /** MatchPieces returns a match exactly when the pattern matches with those captures. */
  lemma MatchPiecesExactly(s: string, i: nat, p: Pattern, gs: seq<string>, e: nat)
    requires i <= |s|
    ensures Returns(MatchPieces(s, i, p), gs, e) <==> Matches(s, i, p, gs, e)
  {
    PiecesSound(s, i, p, gs, e);
    PiecesComplete(s, i, p, gs, e);
  }

  /** What MatchPieces returns is a match of the pattern. */
  lemma {:induction false} PiecesSound(s: string, i: nat, p: Pattern, gs: seq<string>, e: nat)
    requires i <= |s|
    ensures Returns(MatchPieces(s, i, p), gs, e) ==> Matches(s, i, p, gs, e)
    decreases p, 1
  {
    match p
    case Done =>
    case Then(Text(t), next) => TextSound(s, i, t, next, gs, e);
    case Then(Blanks, next) => BlanksSound(s, i, next, gs, e);
    case Then(Key, next) => KeySound(s, i, next, gs, e);
    case Then(Upto(t), next) => UptoSound(s, i, t, next, gs, e);
  }

  /** Every match of the pattern is what MatchPieces returns. */
  lemma {:induction false} PiecesComplete(s: string, i: nat, p: Pattern, gs: seq<string>, e: nat)
    requires i <= |s|
    ensures Matches(s, i, p, gs, e) ==> Returns(MatchPieces(s, i, p), gs, e)
    decreases p, 1
  {
    match p
    case Done =>
    case Then(Text(t), next) => TextComplete(s, i, t, next, gs, e);
    case Then(Blanks, next) => BlanksComplete(s, i, next, gs, e);
    case Then(Key, next) => KeyComplete(s, i, next, gs, e);
    case Then(Upto(t), next) => UptoComplete(s, i, t, next, gs, e);
  }

  lemma {:induction false} TextSound(s: string, i: nat, t: string, next: Pattern, gs: seq<string>, e: nat)
    requires i <= |s|
    ensures Returns(MatchPieces(s, i, Then(Text(t), next)), gs, e) ==> Matches(s, i, Then(Text(t), next), gs, e)
    decreases Then(Text(t), next), 0
  {
    if StartsAt(s, i, t) {
      PiecesSound(s, i + |t|, next, gs, e);
    }
  }

  lemma {:induction false} TextComplete(s: string, i: nat, t: string, next: Pattern, gs: seq<string>, e: nat)
    requires i <= |s|
    ensures Matches(s, i, Then(Text(t), next), gs, e) ==> Returns(MatchPieces(s, i, Then(Text(t), next)), gs, e)
    decreases Then(Text(t), next), 0
  {
    if StartsAt(s, i, t) {
      PiecesComplete(s, i + |t|, next, gs, e);
    }
  }

  lemma {:induction false} BlanksSound(s: string, i: nat, next: Pattern, gs: seq<string>, e: nat)
    requires i <= |s|
    ensures Returns(MatchPieces(s, i, Then(Blanks, next)), gs, e) ==> Matches(s, i, Then(Blanks, next), gs, e)
    decreases Then(Blanks, next), 0
  {
    if RunFrom(s, i, IsWhite) > 0 {
      PiecesSound(s, i + RunFrom(s, i, IsWhite), next, gs, e);
    }
  }

  lemma {:induction false} BlanksComplete(s: string, i: nat, next: Pattern, gs: seq<string>, e: nat)
    requires i <= |s|
    ensures Matches(s, i, Then(Blanks, next), gs, e) ==> Returns(MatchPieces(s, i, Then(Blanks, next)), gs, e)
    decreases Then(Blanks, next), 0
  {
    if i < |s| && IsWhite(s[i]) {
      PiecesComplete(s, i + RunFrom(s, i, IsWhite), next, gs, e);
    }
  }

  lemma {:induction false} KeySound(s: string, i: nat, next: Pattern, gs: seq<string>, e: nat)
    requires i <= |s|
    ensures Returns(MatchPieces(s, i, Then(Key, next)), gs, e) ==> Matches(s, i, Then(Key, next), gs, e)
    decreases Then(Key, next), 0
  {
    if Returns(MatchPieces(s, i, Then(Key, next)), gs, e) {
      var n := KeyFound(s, i, next, gs, e);
      PiecesSound(s, i + n, next, gs[1..], e);
      KeyFwd(s, i, n, next, gs, e);
    }
  }

  lemma {:induction false} KeyComplete(s: string, i: nat, next: Pattern, gs: seq<string>, e: nat)
    requires i <= |s|
    ensures Matches(s, i, Then(Key, next), gs, e) ==> Returns(MatchPieces(s, i, Then(Key, next)), gs, e)
    decreases Then(Key, next), 0
  {
    if gs != [] && Matches(s, i, Then(Key, next), gs, e) {
      var n := KeyMatched(s, i, next, gs, e);
      PiecesComplete(s, i + n, next, gs[1..], e);
      KeyBwd(s, i, n, next, gs, e);
    }
  }

  lemma {:induction false} UptoSound(s: string, i: nat, t: string, next: Pattern, gs: seq<string>, e: nat)
    requires i <= |s|
    ensures Returns(MatchPieces(s, i, Then(Upto(t), next)), gs, e) ==> Matches(s, i, Then(Upto(t), next), gs, e)
    decreases Then(Upto(t), next), 0
  {
    if Returns(MatchPieces(s, i, Then(Upto(t), next)), gs, e) {
      var f := UptoFound(s, i, t, next, gs, e);
      PiecesSound(s, f + |t|, next, gs[1..], e);
      UptoFwd(s, i, f, t, next, gs, e);
    }
  }

  lemma {:induction false} UptoComplete(s: string, i: nat, t: string, next: Pattern, gs: seq<string>, e: nat)
    requires i <= |s|
    ensures Matches(s, i, Then(Upto(t), next), gs, e) ==> Returns(MatchPieces(s, i, Then(Upto(t), next)), gs, e)
    decreases Then(Upto(t), next), 0
  {
    if gs != [] && Matches(s, i, Then(Upto(t), next), gs, e) {
      var f := UptoMatched(s, i, t, next, gs, e);
      PiecesComplete(s, f + |t|, next, gs[1..], e);
      UptoBwd(s, i, f, t, next, gs, e);
    }
  }

  /** `r` is the match with captures `gs` that ends at `e`. */
  predicate Returns(r: Option<(seq<string>, nat)>, gs: seq<string>, e: nat)
  {
    r.Some? && r.value.0 == gs && r.value.1 == e
  }

  /** A capture in front of a match is the match with one more group. */
  lemma CaptureIs(g: string, r: Option<(seq<string>, nat)>, gs: seq<string>, e: nat)
    ensures Returns(Capture(g, r), gs, e) <==> gs != [] && gs[0] == g && Returns(r, gs[1..], e)
  {
    if gs != [] && gs[0] == g && Returns(r, gs[1..], e) {
      assert [g] + gs[1..] == gs;
    }
  }

  /** A key is the longest word run at `i` exactly when it has the shape Matches asks for. */
  lemma KeyRun(s: string, i: nat, g: string)
    requires i <= |s|
    ensures (g == s[i..i + RunFrom(s, i, IsWordChar)] && RunFrom(s, i, IsWordChar) > 0)
        <==> (Word(g) && i + |g| <= |s| && s[i..i + |g|] == g && (i + |g| < |s| ==> !IsWordChar(s[i + |g|])))
  {
    var n := RunFrom(s, i, IsWordChar);
    RunFromHolds(s, i, IsWordChar);
    if Word(g) && i + |g| <= |s| && s[i..i + |g|] == g && (i + |g| < |s| ==> !IsWordChar(s[i + |g|])) {
      assert forall k :: i <= k < i + |g| ==> IsWordChar(s[k]) by {
        forall k | i <= k < i + |g| ensures IsWordChar(s[k]) { assert s[k] == g[k - i]; }
      }
      RunFromIs(s, i, |g|, IsWordChar);
    }
  }

  lemma MatchesKey(s: string, i: nat, next: Pattern, gs: seq<string>, e: nat)
    requires i <= |s| && gs != []
    ensures Matches(s, i, Then(Key, next), gs, e)
        <==> (Word(gs[0]) && i + |gs[0]| <= |s| && s[i..i + |gs[0]|] == gs[0]
              && (i + |gs[0]| < |s| ==> !IsWordChar(s[i + |gs[0]|]))
              && Matches(s, i + |gs[0]|, next, gs[1..], e))
  {
  }

  /** A matched key is the word run at `i`, with the rest of the match after it. */
  lemma KeyFound(s: string, i: nat, next: Pattern, gs: seq<string>, e: nat) returns (n: nat)
    requires i <= |s| && Returns(MatchPieces(s, i, Then(Key, next)), gs, e)
    ensures n == RunFrom(s, i, IsWordChar) && n > 0 && gs != [] && gs[0] == s[i..i + n]
    ensures Returns(MatchPieces(s, i + n, next), gs[1..], e)
  {
    KeyNone(s, i, next);
    n := RunFrom(s, i, IsWordChar);
    KeyCaptured(s, i, i + n, next, gs, e);
  }

  /** A key that returns past the word run ending at `j` captures that run first. */
  lemma KeyCaptured(s: string, i: nat, j: nat, next: Pattern, gs: seq<string>, e: nat)
    requires i < j <= |s| && i + RunFrom(s, i, IsWordChar) == j
    requires Returns(MatchPieces(s, i, Then(Key, next)), gs, e)
    ensures gs != [] && gs[0] == s[i..j] && Returns(MatchPieces(s, j, next), gs[1..], e)
  {
    KeyStep(s, i, j, next);
    CaptureIs(s[i..j], MatchPieces(s, j, next), gs, e);
  }

  /** A key fails where no word character is. */
  lemma KeyNone(s: string, i: nat, next: Pattern)
    requires i <= |s|
    ensures RunFrom(s, i, IsWordChar) == 0 ==> MatchPieces(s, i, Then(Key, next)) == None
  {
  }

  lemma KeyFwd(s: string, i: nat, n: nat, next: Pattern, gs: seq<string>, e: nat)
    requires i <= |s| && n == RunFrom(s, i, IsWordChar) && n > 0 && gs != [] && gs[0] == s[i..i + n]
    requires Matches(s, i + n, next, gs[1..], e)
    ensures Matches(s, i, Then(Key, next), gs, e)
  {
    KeyRun(s, i, gs[0]);
    MatchesKey(s, i, next, gs, e);
  }

  /** A key that Matches accepts is the word run at `i`. */
  lemma KeyMatched(s: string, i: nat, next: Pattern, gs: seq<string>, e: nat) returns (n: nat)
    requires i <= |s| && gs != [] && Matches(s, i, Then(Key, next), gs, e)
    ensures n == RunFrom(s, i, IsWordChar) && n > 0 && gs[0] == s[i..i + n]
    ensures Matches(s, i + n, next, gs[1..], e)
  {
    MatchesKey(s, i, next, gs, e);
    KeyRun(s, i, gs[0]);
    n := |gs[0]|;
  }

  lemma KeyBwd(s: string, i: nat, n: nat, next: Pattern, gs: seq<string>, e: nat)
    requires i <= |s| && n == RunFrom(s, i, IsWordChar) && n > 0 && gs != [] && gs[0] == s[i..i + n]
    requires Returns(MatchPieces(s, i + n, next), gs[1..], e)
    ensures Returns(MatchPieces(s, i, Then(Key, next)), gs, e)
  {
    KeyStep(s, i, i + n, next);
    CaptureIs(s[i..i + n], MatchPieces(s, i + n, next), gs, e);
  }

  /** The first occurrence of `t` from `i` is at `f` exactly when it is there and nowhere before. */
  lemma FirstIs(s: string, i: nat, t: string, f: nat)
    requires i <= f
    ensures IndexOfCI(s, i, t) == Some(f) <==> StartsAt(s, f, t) && forall j :: i <= j < f ==> !StartsAt(s, j, t)
  {
    IndexOfCIFirst(s, i, t);
    if StartsAt(s, f, t) && forall j :: i <= j < f ==> !StartsAt(s, j, t) {
      IndexOfIs(s, i, f, t);
    }
  }

  lemma MatchesUpto(s: string, i: nat, t: string, next: Pattern, gs: seq<string>, e: nat)
    requires i <= |s| && gs != []
    ensures Matches(s, i, Then(Upto(t), next), gs, e)
        <==> (i + |gs[0]| <= |s| && s[i..i + |gs[0]|] == gs[0] && StartsAt(s, i + |gs[0]|, t)
              && (forall j :: i <= j < i + |gs[0]| ==> !StartsAt(s, j, t))
              && Matches(s, i + |gs[0]| + |t|, next, gs[1..], e))
  {
  }

  /** Where a matched lazy group ends: at the first tag, with the rest of the match after it. */
  lemma UptoFound(s: string, i: nat, t: string, next: Pattern, gs: seq<string>, e: nat) returns (f: nat)
    requires i <= |s|
    requires Returns(MatchPieces(s, i, Then(Upto(t), next)), gs, e)
    ensures IndexOfCI(s, i, t) == Some(f)
    ensures gs != [] && gs[0] == s[i..f] && Returns(MatchPieces(s, f + |t|, next), gs[1..], e)
  {
    UptoNone(s, i, t, next);
    f := IndexOfCI(s, i, t).value;
    UptoStep(s, i, f, t, next);
    CaptureIs(s[i..f], MatchPieces(s, f + |t|, next), gs, e);
  }

  /** A lazy group fails where its tag is nowhere after `i`. */
  lemma UptoNone(s: string, i: nat, t: string, next: Pattern)
    requires i <= |s|
    ensures IndexOfCI(s, i, t).None? ==> MatchPieces(s, i, Then(Upto(t), next)) == None
  {
  }

  lemma UptoFwd(s: string, i: nat, f: nat, t: string, next: Pattern, gs: seq<string>, e: nat)
    requires i <= |s| && gs != [] && IndexOfCI(s, i, t) == Some(f) && gs[0] == s[i..f]
    requires Matches(s, f + |t|, next, gs[1..], e)
    ensures Matches(s, i, Then(Upto(t), next), gs, e)
  {
    FirstFacts(s, i, t, f);
    UptoMatches(s, i, f, t, next, gs, e);
  }

  /** The found occurrence is there, and none comes before it. */
  lemma FirstFacts(s: string, i: nat, t: string, f: nat)
    requires IndexOfCI(s, i, t) == Some(f)
    ensures i <= f && f + |t| <= |s| && StartsAt(s, f, t) && forall j :: i <= j < f ==> !StartsAt(s, j, t)
  {
    IndexOfCIFirst(s, i, t);
  }

  /** A lazy group that runs to the first tag at `f`, with the rest matching after the tag. */
  lemma UptoMatches(s: string, i: nat, f: nat, t: string, next: Pattern, gs: seq<string>, e: nat)
    requires i <= f && f + |t| <= |s| && gs != [] && gs[0] == s[i..f] && StartsAt(s, f, t)
    requires forall j :: i <= j < f ==> !StartsAt(s, j, t)
    requires Matches(s, f + |t|, next, gs[1..], e)
    ensures Matches(s, i, Then(Upto(t), next), gs, e)
  {
    assert i + |gs[0]| == f;
  }

  /** A lazy group that Matches accepts ends at the first tag. */
  lemma UptoMatched(s: string, i: nat, t: string, next: Pattern, gs: seq<string>, e: nat) returns (f: nat)
    requires i <= |s| && gs != [] && Matches(s, i, Then(Upto(t), next), gs, e)
    ensures IndexOfCI(s, i, t) == Some(f) && gs[0] == s[i..f]
    ensures Matches(s, f + |t|, next, gs[1..], e)
  {
    MatchesUpto(s, i, t, next, gs, e);
    f := i + |gs[0]|;
    FirstIs(s, i, t, f);
  }

  lemma UptoBwd(s: string, i: nat, f: nat, t: string, next: Pattern, gs: seq<string>, e: nat)
    requires i <= |s| && gs != [] && IndexOfCI(s, i, t) == Some(f) && gs[0] == s[i..f]
    requires Returns(MatchPieces(s, f + |t|, next), gs[1..], e)
    ensures Returns(MatchPieces(s, i, Then(Upto(t), next)), gs, e)
  {
    UptoStep(s, i, f, t, next);
    CaptureIs(s[i..f], MatchPieces(s, f + |t|, next), gs, e);
  }

  // ---------------------------------------------------------------------------
  // Between-spans
  // ---------------------------------------------------------------------------

  /** MatchBetween returns a span exactly when BetweenPattern matches with its three groups. */
  lemma MatchBetweenExactly(s: string, m: BetweenSpan)
    ensures MatchBetween(s) == Some(m) <==> Matches(s, 0, BetweenPattern, [m.first, m.second, m.body], m.len)
  {
    MatchPiecesExactly(s, 0, BetweenPattern, [m.first, m.second, m.body], m.len);
    match MatchPieces(s, 0, BetweenPattern)
    case None =>
    case Some((gs, e)) =>
      assert |gs| == Groups(BetweenPattern) == 3;
      if MatchBetween(s) == Some(m) {
        assert gs == [m.first, m.second, m.body];
      }
  }

  /**
   * A between-span is a between-directive: `{{#between` ignoring case, white
   * space, a word, white space, a word, `}}`, then a body free of `{{/between}}`
   * and the `{{/between}}` that ends the span.
   */
  lemma MatchBetweenSound(s: string, m: BetweenSpan)
    requires MatchBetween(s) == Some(m)
    ensures StartsAt(s, 0, BetweenOpen) && IsWhite(s[|BetweenOpen|])
    ensures Word(m.first) && Word(m.second) && !Occurs(m.body, EndBetween)
    ensures var f := m.len - |EndBetween|;
      |m.body| + |EndBetween| <= m.len <= |s| && s[f - |m.body|..f] == m.body && StartsAt(s, f, EndBetween)
  {
    MatchBetweenExactly(s, m);
    MatchesBetweenSound(s, m.first, m.second, m.body, m.len);
  }

  lemma MatchesBetweenSound(s: string, a: string, b: string, body: string, len: nat)
    requires Matches(s, 0, BetweenPattern, [a, b, body], len)
    ensures StartsAt(s, 0, BetweenOpen) && IsWhite(s[|BetweenOpen|])
    ensures Word(a) && Word(b) && !Occurs(body, EndBetween)
    ensures var f := len - |EndBetween|;
      |body| + |EndBetween| <= len <= |s| && s[f - |body|..f] == body && StartsAt(s, f, EndBetween)
  {
    var gs := [a, b, body];
    OpenSound(s, gs, len);
    var c := KeysSound(s, |BetweenOpen|, gs, len);
    ThirdGroup(a, b, body);
    BetweenTailSound(s, c, body, len);
  }

  lemma ThirdGroup(a: string, b: string, c: string)
    ensures [a, b, c][1..][1..] == [c] && [a, b, c][0] == a && [a, b, c][1..][0] == b
  {
  }

  /** The opener `{{#between`, then the keys. */
  lemma OpenSound(s: string, gs: seq<string>, e: nat)
    requires Matches(s, 0, BetweenPattern, gs, e)
    ensures StartsAt(s, 0, BetweenOpen) && Matches(s, |BetweenOpen|, BetweenKeys, gs, e)
  {
    assert BetweenPattern == Then(Text(BetweenOpen), BetweenKeys);
  }

  /** The two blank-led keys: each is a word, and the tail follows them. */
  lemma KeysSound(s: string, i: nat, gs: seq<string>, e: nat) returns (c: nat)
    requires i <= |s| && Matches(s, i, BetweenKeys, gs, e)
    ensures |gs| >= 2 && Word(gs[0]) && Word(gs[1..][0]) && i < |s| && IsWhite(s[i])
    ensures c <= |s| && Matches(s, c, BetweenTail, gs[1..][1..], e)
  {
    var a := BlankKeySound(s, i, Then(Blanks, Then(Key, BetweenTail)), gs, e);
    c := BlankKeySound(s, a, BetweenTail, gs[1..], e);
  }

  /** White space and then a key: the key is a word, and the rest follows it. */
  lemma BlankKeySound(s: string, i: nat, next: Pattern, gs: seq<string>, e: nat) returns (c: nat)
    requires i <= |s| && Matches(s, i, Then(Blanks, Then(Key, next)), gs, e)
    ensures gs != [] && Word(gs[0]) && i < |s| && IsWhite(s[i])
    ensures c <= |s| && Matches(s, c, next, gs[1..], e)
  {
    var a := BlanksRun(s, i, Then(Key, next), gs, e);
    MatchesKey(s, a, next, gs, e);
    c := a + |gs[0]|;
  }

  /** A white-space piece: there is white space, and the rest matches after the whole run. */
  lemma BlanksRun(s: string, i: nat, next: Pattern, gs: seq<string>, e: nat) returns (j: nat)
    requires i <= |s| && Matches(s, i, Then(Blanks, next), gs, e)
    ensures i < |s| && IsWhite(s[i]) && j == i + RunFrom(s, i, IsWhite) && j <= |s| && Matches(s, j, next, gs, e)
  {
    j := i + RunFrom(s, i, IsWhite);
  }

  /** The tail `}}([\s\S]*?)\{\{/between\}\}` matched from `c`. */
  lemma BetweenTailSound(s: string, c: nat, body: string, len: nat)
    requires c <= |s| && Matches(s, c, BetweenTail, [body], len)
    ensures var f := len - |EndBetween|;
      |body| + |EndBetween| <= len <= |s| && s[f - |body|..f] == body && StartsAt(s, f, EndBetween)
    ensures !Occurs(body, EndBetween)
  {
    var d := c + |CloseBraces|;
    assert Matches(s, d, Then(Upto(EndBetween), Done), [body], len);
    MatchesUpto(s, d, EndBetween, Done, [body], len);
    var f := d + |body|;
    assert len == f + |EndBetween|;
    if Occurs(body, EndBetween) {
      var j :| 0 <= j <= |body| && StartsAt(body, j, EndBetween);
      SliceStartsAt(s, d, f, j, EndBetween);
      assert false;
    }
  }

  /** An occurrence inside a slice is an occurrence in the text. */
  lemma SliceStartsAt(s: string, d: nat, f: nat, j: nat, pat: string)
    requires d <= f <= |s| && StartsAt(s[d..f], j, pat)
    ensures StartsAt(s, d + j, pat) && d + j + |pat| <= f
  {
    forall k | 0 <= k < |pat| ensures Lower(s[d + j + k]) == Lower(pat[k]) {
      assert s[d..f][j + k] == s[d + j + k];
    }
  }

  // ---------------------------------------------------------------------------
  // If-spans
  // ---------------------------------------------------------------------------

  /** No occurrence of `pat` starts in `[b, e)`. */
  predicate NoneBetween(s: string, b: nat, e: nat, pat: string)
  {
    forall j :: b <= j < e ==> !StartsAt(s, j, pat)
  }

  /**
   * The body of `m` starts at `b` and runs to the first `{{#else}}` or `{{/if}}`;
   * with `{{/if}}` there, the else-body is empty and the span ends after it; with
   * `{{#else}}` there, the else-body runs to the first `{{/if}}` after it, which
   * ends the span.
   */
  predicate BodiesMatchAt(s: string, b: nat, m: IfSpan)
  {
    var e := b + |m.body|;
    && e <= |s| && s[b..e] == m.body
    && NoneBetween(s, b, e, ElseTag) && NoneBetween(s, b, e, EndIf)
    && ((StartsAt(s, e, EndIf) && m.elseBody == [] && m.len == e + |EndIf|)
        || (StartsAt(s, e, ElseTag) && ElseBodyAt(s, e + |ElseTag|, m)))
  }

  /** The else-body of `m` starts at `h` and runs to the first `{{/if}}`, which ends the span. */
  predicate ElseBodyAt(s: string, h: nat, m: IfSpan)
  {
    var g := h + |m.elseBody|;
    && g <= |s| && s[h..g] == m.elseBody && StartsAt(s, g, EndIf)
    && NoneBetween(s, h, g, EndIf)
    && m.len == g + |EndIf|
  }

  /**
   * `m` is the match of IfBlockRegex at the start of `s`: `{{#if` ignoring case
   * and a run of white space, then the rest as ExprBodiesAt says.
   */
  predicate IfMatchAt(s: string, m: IfSpan)
  {
    && StartsAt(s, 0, IfOpen) && |IfOpen| < |s| && IsWhite(s[|IfOpen|])
    && ExprBodiesAt(s, |IfOpen| + RunFrom(s, |IfOpen|, IsWhite), m)
  }

  /**
   * From `q`: the expression of `m`, free of line feeds, up to the first `}}`;
   * then the bodies as BodiesMatchAt says.
   */
  predicate ExprBodiesAt(s: string, q: nat, m: IfSpan)
  {
    var c := q + |m.expr|;
    && c + |CloseBraces| <= |s| && s[q..c] == m.expr && '\n' !in m.expr
    && StartsAt(s, c, CloseBraces) && NoneBetween(s, q, c, CloseBraces)
    && BodiesMatchAt(s, c + |CloseBraces|, m)
  }

  /** MatchIf returns a span exactly when it is the match IfMatchAt describes. */
  lemma MatchIfExactly(s: string, m: IfSpan)
    ensures MatchIf(s) == Some(m) <==> IfMatchAt(s, m)
  {
    if StartsAt(s, 0, IfOpen) && |IfOpen| < |s| && IsWhite(s[|IfOpen|]) {
      var q := |IfOpen| + RunFrom(s, |IfOpen|, IsWhite);
      assert MatchIf(s) == IfExpr(s, q);
      IfExprExactly(s, q, m);
    }
  }

  /** IfExpr returns a span exactly when it is the match ExprBodiesAt describes. */
  lemma IfExprExactly(s: string, q: nat, m: IfSpan)
    requires q <= |s|
    ensures IfExpr(s, q) == Some(m) <==> ExprBodiesAt(s, q, m)
  {
    if IfExpr(s, q) == Some(m) {
      IfExprSound(s, q, m);
    }
    if ExprBodiesAt(s, q, m) {
      IfExprComplete(s, q, m);
    }
  }

  lemma IfExprSound(s: string, q: nat, m: IfSpan)
    requires q <= |s| && IfExpr(s, q) == Some(m)
    ensures ExprBodiesAt(s, q, m)
  {
    match IndexOfCI(s, q, CloseBraces)
    case Some(c) =>
      FirstNone(s, q, CloseBraces, c);
      IfSpanAtSome(s, q, c, m);
      BodiesSound(s, c + |CloseBraces|, m);
      ExprBodiesFrom(s, q, c, m);
  }

  /** A span IfSpanAt returns: its expression up to `c`, and bodies from after the `}}`. */
  lemma IfSpanAtSome(s: string, q: nat, c: nat, m: IfSpan)
    requires q <= c && c + |CloseBraces| <= |s| && IfSpanAt(s, q, Some(c)) == Some(m)
    ensures m.expr == s[q..c] && '\n' !in m.expr
    ensures BodiesAre(MatchIfBodies(s, c + |CloseBraces|), m.body, m.elseBody, m.len)
  {
  }

  /** ExprBodiesAt once its `}}` and its bodies are located. */
  lemma ExprBodiesFrom(s: string, q: nat, c: nat, m: IfSpan)
    requires q <= c && c + |CloseBraces| <= |s| && StartsAt(s, c, CloseBraces) && NoneBetween(s, q, c, CloseBraces)
    requires m.expr == s[q..c] && '\n' !in m.expr && BodiesMatchAt(s, c + |CloseBraces|, m)
    ensures ExprBodiesAt(s, q, m)
  {
  }

  lemma IfExprComplete(s: string, q: nat, m: IfSpan)
    requires q <= |s| && ExprBodiesAt(s, q, m)
    ensures IfExpr(s, q) == Some(m)
  {
    var c := ExprParts(s, q, m);
    FirstFrom(s, q, CloseBraces, c);
    BodiesComplete(s, c + |CloseBraces|, m);
    IfExprBuild(s, q, c, m);
  }

  /** IfExpr once the first `}}` is found at `c` and the bodies after it are located. */
  lemma IfExprBuild(s: string, q: nat, c: nat, m: IfSpan)
    requires q <= c && c + |CloseBraces| <= |s| && m.expr == s[q..c] && '\n' !in m.expr
    requires IndexOfCI(s, q, CloseBraces) == Some(c)
    requires BodiesAre(MatchIfBodies(s, c + |CloseBraces|), m.body, m.elseBody, m.len)
    ensures IfExpr(s, q) == Some(m)
  {
    IfSpanAtBuild(s, q, c, m);
  }

  /** ExprBodiesAt taken apart, with `c` where the expression ends. */
  lemma ExprParts(s: string, q: nat, m: IfSpan) returns (c: nat)
    requires ExprBodiesAt(s, q, m)
    ensures c == q + |m.expr| && c + |CloseBraces| <= |s| && m.expr == s[q..c] && '\n' !in m.expr
    ensures StartsAt(s, c, CloseBraces) && NoneBetween(s, q, c, CloseBraces)
    ensures BodiesMatchAt(s, c + |CloseBraces|, m)
  {
    c := q + |m.expr|;
  }

  /** An occurrence with none before it is the one IndexOfCI finds. */
  lemma FirstFrom(s: string, i: nat, t: string, f: nat)
    requires i <= f && StartsAt(s, f, t) && NoneBetween(s, i, f, t)
    ensures IndexOfCI(s, i, t) == Some(f)
  {
    IndexOfIs(s, i, f, t);
  }

  /** IfSpanAt once the `}}` at `c` and the bodies after it are located. */
  lemma IfSpanAtBuild(s: string, q: nat, c: nat, m: IfSpan)
    requires q <= c && c + |CloseBraces| <= |s| && m.expr == s[q..c] && '\n' !in m.expr
    requires BodiesAre(MatchIfBodies(s, c + |CloseBraces|), m.body, m.elseBody, m.len)
    ensures IfSpanAt(s, q, Some(c)) == Some(m)
  {
  }

  /** MatchIfBodies returns the bodies and the end of `m` exactly when BodiesMatchAt holds. */
  lemma BodiesExactly(s: string, b: nat, m: IfSpan)
    requires b <= |s|
    ensures BodiesAre(MatchIfBodies(s, b), m.body, m.elseBody, m.len) <==> BodiesMatchAt(s, b, m)
  {
    if BodiesAre(MatchIfBodies(s, b), m.body, m.elseBody, m.len) {
      BodiesSound(s, b, m);
    }
    if BodiesMatchAt(s, b, m) {
      BodiesComplete(s, b, m);
    }
  }

  /** `{{#else}}` and `{{/if}}` never start at the same place. */
  lemma TagsDiffer(s: string, j: nat)
    ensures !(StartsAt(s, j, ElseTag) && StartsAt(s, j, EndIf))
  {
    if StartsAt(s, j, ElseTag) {
      assert Lower(s[j + 2]) == Lower(ElseTag[2]) == '#';
      assert Lower(s[j + 2]) != Lower(EndIf[2]);
    }
  }

  lemma BodiesSound(s: string, b: nat, m: IfSpan)
    requires b <= |s| && BodiesAre(MatchIfBodies(s, b), m.body, m.elseBody, m.len)
    ensures BodiesMatchAt(s, b, m)
  {
    var o, fo := IndexOfCI(s, b, ElseTag), IndexOfCI(s, b, EndIf);
    if o.Some? && fo.Some? && o.value < fo.value {
      BodiesSoundElseCase(s, b, m);
    } else {
      BodiesSoundPlainCase(s, b, m);
    }
  }

  /** BodiesSound when `{{#else}}` comes before the first `{{/if}}`. */
  lemma BodiesSoundElseCase(s: string, b: nat, m: IfSpan)
    requires b <= |s| && BodiesAre(MatchIfBodies(s, b), m.body, m.elseBody, m.len)
    requires IndexOfCI(s, b, ElseTag).Some? && IndexOfCI(s, b, EndIf).Some?
    requires IndexOfCI(s, b, ElseTag).value < IndexOfCI(s, b, EndIf).value
    ensures BodiesMatchAt(s, b, m)
  {
    var e, f := IndexOfCI(s, b, ElseTag).value, IndexOfCI(s, b, EndIf).value;
    ElseBodies(s, b, e, f);
    var g := IndexOfCI(s, e + |ElseTag|, EndIf).value;
    BodiesSoundElse(s, b, e, f, g, m);
  }

  /** MatchIfBodies, component by component, when `{{#else}}` at `e` comes before the first `{{/if}}`. */
  lemma ElseBodies(s: string, b: nat, e: nat, f: nat)
    requires b <= |s| && IndexOfCI(s, b, ElseTag) == Some(e) && IndexOfCI(s, b, EndIf) == Some(f) && e < f
    ensures MatchIfBodies(s, b).Some? ==> IndexOfCI(s, e + |ElseTag|, EndIf).Some?
    ensures MatchIfBodies(s, b).Some? ==>
      var g := IndexOfCI(s, e + |ElseTag|, EndIf).value;
      && MatchIfBodies(s, b).value.0 == s[b..e]
      && MatchIfBodies(s, b).value.1 == s[e + |ElseTag|..g]
      && MatchIfBodies(s, b).value.2 == g + |EndIf|
  {
  }

  /** BodiesSound when no `{{#else}}` comes before the first `{{/if}}`. */
  lemma BodiesSoundPlainCase(s: string, b: nat, m: IfSpan)
    requires b <= |s| && BodiesAre(MatchIfBodies(s, b), m.body, m.elseBody, m.len)
    requires var o, fo := IndexOfCI(s, b, ElseTag), IndexOfCI(s, b, EndIf);
      !(o.Some? && fo.Some? && o.value < fo.value)
    ensures BodiesMatchAt(s, b, m)
  {
    var f := IndexOfCI(s, b, EndIf).value;
    BodiesSoundPlain(s, b, f, IndexOfCI(s, b, ElseTag), m);
  }

  /** A body ended by `{{#else}}`, and an else-body ended by the first `{{/if}}` after it. */
  lemma BodiesSoundElse(s: string, b: nat, e: nat, f: nat, g: nat, m: IfSpan)
    requires IndexOfCI(s, b, ElseTag) == Some(e) && IndexOfCI(s, b, EndIf) == Some(f) && e < f
    requires IndexOfCI(s, e + |ElseTag|, EndIf) == Some(g)
    requires m.body == s[b..e] && m.elseBody == s[e + |ElseTag|..g] && m.len == g + |EndIf|
    ensures BodiesMatchAt(s, b, m)
  {
    FirstNone(s, b, ElseTag, e);
    FirstNone(s, b, EndIf, f);
    NoneBefore(s, b, e, f, EndIf);
    FirstNone(s, e + |ElseTag|, EndIf, g);
    BodiesElseAt(s, b, e, g, m);
  }

  /** The bodies of `m` when `{{#else}}` is at `e` and the `{{/if}}` after it at `g`. */
  lemma BodiesElseAt(s: string, b: nat, e: nat, g: nat, m: IfSpan)
    requires b <= e && e + |ElseTag| <= g && g + |EndIf| <= |s|
    requires StartsAt(s, e, ElseTag) && NoneBetween(s, b, e, ElseTag) && NoneBetween(s, b, e, EndIf)
    requires StartsAt(s, g, EndIf) && NoneBetween(s, e + |ElseTag|, g, EndIf)
    requires m.body == s[b..e] && m.elseBody == s[e + |ElseTag|..g] && m.len == g + |EndIf|
    ensures BodiesMatchAt(s, b, m)
  {
    assert ElseBodyAt(s, e + |ElseTag|, m);
  }

  /** The found occurrence is there, and none comes before it. */
  lemma FirstNone(s: string, i: nat, t: string, f: nat)
    requires IndexOfCI(s, i, t) == Some(f)
    ensures i <= f && f + |t| <= |s| && StartsAt(s, f, t) && NoneBetween(s, i, f, t)
  {
    IndexOfCIFirst(s, i, t);
  }

  /** A shorter range holds no occurrence when the longer one holds none. */
  lemma NoneBefore(s: string, b: nat, e: nat, f: nat, t: string)
    requires e <= f && NoneBetween(s, b, f, t)
    ensures NoneBetween(s, b, e, t)
  {
  }

  /** A body ended by `{{/if}}`, with no `{{#else}}` before it. */
  lemma BodiesSoundPlain(s: string, b: nat, f: nat, o: Option<nat>, m: IfSpan)
    requires IndexOfCI(s, b, EndIf) == Some(f) && o == IndexOfCI(s, b, ElseTag) && !(o.Some? && o.value < f)
    requires m.body == s[b..f] && m.elseBody == [] && m.len == f + |EndIf|
    ensures BodiesMatchAt(s, b, m)
  {
    FirstNone(s, b, EndIf, f);
    NoElseUpTo(s, b, f, o);
    BodiesPlainAt(s, b, f, m);
  }

  /** No `{{#else}}` starts before the first one found, or anywhere when none is found. */
  lemma NoElseUpTo(s: string, b: nat, f: nat, o: Option<nat>)
    requires o == IndexOfCI(s, b, ElseTag) && !(o.Some? && o.value < f)
    ensures NoneBetween(s, b, f, ElseTag)
  {
    IndexOfCIFirst(s, b, ElseTag);
  }

  /** The bodies of `m` when the first tag after `b` is the `{{/if}}` at `f`. */
  lemma BodiesPlainAt(s: string, b: nat, f: nat, m: IfSpan)
    requires b <= f && f + |EndIf| <= |s| && StartsAt(s, f, EndIf)
    requires NoneBetween(s, b, f, ElseTag) && NoneBetween(s, b, f, EndIf)
    requires m.body == s[b..f] && m.elseBody == [] && m.len == f + |EndIf|
    ensures BodiesMatchAt(s, b, m)
  {
  }

  lemma BodiesComplete(s: string, b: nat, m: IfSpan)
    requires b <= |s| && BodiesMatchAt(s, b, m)
    ensures BodiesAre(MatchIfBodies(s, b), m.body, m.elseBody, m.len)
  {
    var e := b + |m.body|;
    TagsDiffer(s, e);
    if StartsAt(s, e, ElseTag) {
      var h := e + |ElseTag|;
      BodiesCompleteElse(s, b, e, h, h + |m.elseBody|, m);
    } else {
      BodiesCompletePlain(s, b, e, m);
    }
  }

  lemma BodiesCompletePlain(s: string, b: nat, e: nat, m: IfSpan)
    requires b <= e <= |s| && s[b..e] == m.body
    requires NoneBetween(s, b, e, ElseTag) && NoneBetween(s, b, e, EndIf)
    requires StartsAt(s, e, EndIf) && !StartsAt(s, e, ElseTag) && m.elseBody == [] && m.len == e + |EndIf|
    ensures BodiesAre(MatchIfBodies(s, b), m.body, m.elseBody, m.len)
  {
    FirstIs(s, b, EndIf, e);
    NoElseBefore(s, b, e);
  }

  /** No `{{#else}}` is found before `e` when none starts in `[b, e]`. */
  lemma NoElseBefore(s: string, b: nat, e: nat)
    requires b <= e && !StartsAt(s, e, ElseTag)
    requires NoneBetween(s, b, e, ElseTag) && NoneBetween(s, b, e, EndIf)
    ensures !(IndexOfCI(s, b, ElseTag).Some? && IndexOfCI(s, b, ElseTag).value <= e)
  {
  }

  lemma BodiesCompleteElse(s: string, b: nat, e: nat, h: nat, g: nat, m: IfSpan)
    requires b <= e && h == e + |ElseTag| && h <= g <= |s| && s[b..e] == m.body && s[h..g] == m.elseBody
    requires NoneBetween(s, b, e, ElseTag) && NoneBetween(s, b, e, EndIf)
    requires StartsAt(s, e, ElseTag) && !StartsAt(s, e, EndIf)
    requires StartsAt(s, g, EndIf) && NoneBetween(s, h, g, EndIf) && m.len == g + |EndIf|
    ensures BodiesAre(MatchIfBodies(s, b), m.body, m.elseBody, m.len)
  {
    FirstIs(s, b, ElseTag, e);
    FirstIs(s, h, EndIf, g);
    EndIfBeyond(s, b, e, g);
    IfBodiesAt(s, b, e, h, g, m.body, m.elseBody);
  }

  /** The first `{{/if}}` from `b` lies beyond `e` when none is in `[b, e]` and one is at `g`. */
  lemma EndIfBeyond(s: string, b: nat, e: nat, g: nat)
    requires b <= e < g && StartsAt(s, g, EndIf) && !StartsAt(s, e, EndIf)
    requires forall j :: b <= j < e ==> !StartsAt(s, j, EndIf)
    ensures IndexOfCI(s, b, EndIf).Some? && e < IndexOfCI(s, b, EndIf).value
  {
    IndexOfCIFirst(s, b, EndIf);
  }

  // ---------------------------------------------------------------------------
  // Neither pass lengthens the text
  // ---------------------------------------------------------------------------

  /** Both bodies of an if-span lie inside it. */
  lemma IfBodiesInside(s: string, m: IfSpan)
    requires IfMatchAt(s, m)
    ensures |m.body| < m.len && |m.elseBody| < m.len
  {
    var q := |IfOpen| + RunFrom(s, |IfOpen|, IsWhite);
    var b := q + |m.expr| + |CloseBraces|;
    assert BodiesMatchAt(s, b, m);
    var e := b + |m.body|;
    if StartsAt(s, e, ElseTag) && ElseBodyAt(s, e + |ElseTag|, m) {
      assert m.len == e + |ElseTag| + |m.elseBody| + |EndIf|;
    }
  }

  /** The if-pass, when it succeeds, returns text no longer than its input. */
  lemma {:induction false} IfPassShrinks(s: string, values: ValueMap, host: Host)
    ensures IfPass(s, values, host).Ok? ==> |IfPass(s, values, host).value| <= |s|
    decreases |s|
  {
    if s != [] {
      match MatchIf(s)
      case Some(m) =>
        MatchIfExactly(s, m);
        IfBodiesInside(s, m);
        IfPassSpan(s, m, values, host);
        IfPassShrinks(s[m.len..], values, host);
      case None =>
        IfPassCopy(s, values, host);
        IfPassShrinks(s[1..], values, host);
    }
  }

  /** The between-pass returns text no longer than its input. */
  lemma {:induction false} BetweenPassShrinks(s: string, values: ValueMap)
    ensures |BetweenPass(s, values)| <= |s|
    decreases |s|
  {
    if s != [] {
      match MatchBetween(s)
      case Some(m) =>
        MatchBetweenSound(s, m);
        BetweenPassShrinks(s[m.len..], values);
      case None =>
        BetweenPassShrinks(s[1..], values);
    }
  }
}
