/**
 * What the clean-up guarantees: its output has no tab, no double space, no white
 * space next to a line feed and none at either end; it keeps every character that
 * is not white space, in order; and it leaves normalized text as it is, so that
 * applying it twice is the same as applying it once.
 */
module NormalizerLaws {
  import opened Wrappers
  import opened Chars
  import opened Normalizer

  // ---------------------------------------------------------------------------
  // The shape predicates on a character followed by text, and on a suffix
  // ---------------------------------------------------------------------------

  lemma ConsNoTab(c: char, y: string)
    ensures NoTab([c] + y) <==> c != '\t' && NoTab(y)
  {
    assert forall x :: x in [c] + y <==> x == c || x in y;
  }

  lemma ConsNoDoubleSpace(c: char, y: string)
    ensures NoDoubleSpace([c] + y) <==> NoDoubleSpace(y) && (y != [] ==> !(c == ' ' && y[0] == ' '))
  {
    var r := [c] + y;
    if NoDoubleSpace(y) && (y != [] ==> !(c == ' ' && y[0] == ' ')) {
      forall i | 0 < i < |r| ensures !(r[i] == ' ' && r[i - 1] == ' ') {
        assert r[0] == c && r[i] == y[i - 1];
        if i > 1 { assert r[i - 1] == y[i - 2]; }
      }
    }
    if NoDoubleSpace(r) {
      forall i | 0 < i < |y| ensures !(y[i] == ' ' && y[i - 1] == ' ') {
        assert r[i + 1] == y[i] && r[i] == y[i - 1];
      }
      if y != [] { assert r[1] == y[0] && r[0] == c; }
    }
  }

  lemma ConsNoWhiteBeforeNewline(c: char, y: string)
    ensures NoWhiteBeforeNewline([c] + y) <==> NoWhiteBeforeNewline(y) && (y != [] ==> !(IsWhite(c) && y[0] == '\n'))
  {
    var r := [c] + y;
    if NoWhiteBeforeNewline(y) && (y != [] ==> !(IsWhite(c) && y[0] == '\n')) {
      forall i | 0 < i < |r| ensures r[i] == '\n' ==> !IsWhite(r[i - 1]) {
        assert r[0] == c && r[i] == y[i - 1];
        if i > 1 { assert r[i - 1] == y[i - 2]; }
      }
    }
    if NoWhiteBeforeNewline(r) {
      forall i | 0 < i < |y| ensures y[i] == '\n' ==> !IsWhite(y[i - 1]) {
        assert r[i + 1] == y[i] && r[i] == y[i - 1];
      }
      if y != [] { assert r[1] == y[0] && r[0] == c; }
    }
  }

  lemma ConsNoWhiteAfterNewline(c: char, y: string)
    ensures NoWhiteAfterNewline([c] + y) <==> NoWhiteAfterNewline(y) && (y != [] ==> !(c == '\n' && IsWhite(y[0])))
  {
    var r := [c] + y;
    if NoWhiteAfterNewline(y) && (y != [] ==> !(c == '\n' && IsWhite(y[0]))) {
      forall i | 0 < i < |r| ensures r[i - 1] == '\n' ==> !IsWhite(r[i]) {
        assert r[0] == c && r[i] == y[i - 1];
        if i > 1 { assert r[i - 1] == y[i - 2]; }
      }
    }
    if NoWhiteAfterNewline(r) {
      forall i | 0 < i < |y| ensures y[i - 1] == '\n' ==> !IsWhite(y[i]) {
        assert r[i + 1] == y[i] && r[i] == y[i - 1];
      }
      if y != [] { assert r[1] == y[0] && r[0] == c; }
    }
  }

  /** The four pair properties of a character followed by text. */
  lemma ConsShape(c: char, y: string)
    ensures NoTab([c] + y) <==> c != '\t' && NoTab(y)
    ensures NoDoubleSpace([c] + y) <==> NoDoubleSpace(y) && (y != [] ==> !(c == ' ' && y[0] == ' '))
    ensures NoWhiteBeforeNewline([c] + y) <==> NoWhiteBeforeNewline(y) && (y != [] ==> !(IsWhite(c) && y[0] == '\n'))
    ensures NoWhiteAfterNewline([c] + y) <==> NoWhiteAfterNewline(y) && (y != [] ==> !(c == '\n' && IsWhite(y[0])))
  {
    ConsNoTab(c, y);
    ConsNoDoubleSpace(c, y);
    ConsNoWhiteBeforeNewline(c, y);
    ConsNoWhiteAfterNewline(c, y);
  }

  /** Every shape predicate except NoOuterWhite carries over to a slice. */
  lemma SliceShape(s: string, i: nat, j: nat)
    requires i <= j <= |s|
    ensures NoTab(s) ==> NoTab(s[i..j])
    ensures NoDoubleSpace(s) ==> NoDoubleSpace(s[i..j])
    ensures NoWhiteBeforeNewline(s) ==> NoWhiteBeforeNewline(s[i..j])
    ensures NoWhiteAfterNewline(s) ==> NoWhiteAfterNewline(s[i..j])
  {
    var t := s[i..j];
    assert forall k :: 0 <= k < |t| ==> t[k] == s[i + k];
    if NoTab(s) {
      forall k | 0 <= k < |t| ensures t[k] != '\t' { assert t[k] == s[i + k]; }
    }
  }

  /** The same for a slice given by its start and its contents. */
  lemma SliceKeepsShape(s: string, a: nat, r: string)
    requires a + |r| <= |s| && r == s[a..a + |r|]
    ensures NoTab(s) ==> NoTab(r)
    ensures NoDoubleSpace(s) ==> NoDoubleSpace(r)
    ensures NoWhiteBeforeNewline(s) ==> NoWhiteBeforeNewline(r)
    ensures NoWhiteAfterNewline(s) ==> NoWhiteAfterNewline(r)
  {
    SliceShape(s, a, a + |r|);
  }

  /** The ink of text put together is the ink of its parts put together. */
  lemma {:induction false} InkAppend(a: string, b: string)
    ensures Ink(a + b) == Ink(a) + Ink(b)
    decreases |a|
  {
    if a == [] {
      assert a + b == b;
    } else {
      assert (a + b)[1..] == a[1..] + b;
      InkAppend(a[1..], b);
    }
  }

  /** White space has no ink. */
  lemma {:induction false} InkBlank(s: string)
    requires Blank(s)
    ensures Ink(s) == []
    decreases |s|
  {
    if s != [] {
      InkBlank(s[1..]);
    }
  }

  /** The ink of `s` is that of its first `n` characters followed by that of the rest. */
  lemma InkSplit(s: string, n: nat)
    requires n <= |s|
    ensures Ink(s) == Ink(s[..n]) + Ink(s[n..])
  {
    assert s == s[..n] + s[n..];
    InkAppend(s[..n], s[n..]);
  }

  // ---------------------------------------------------------------------------
  // Step 1: `[ \t]+` becomes " "
  // ---------------------------------------------------------------------------

  lemma CollapseFirst(s: string)
    requires s != []
    ensures CollapseBlanks(s) != [] && CollapseBlanks(s)[0] == if IsBlankChar(s[0]) then ' ' else s[0]
  {
  }

  /** After step 1 there is no tab and no double space. */
  lemma {:induction false} CollapseShape(s: string)
    ensures NoTab(CollapseBlanks(s)) && NoDoubleSpace(CollapseBlanks(s))
    decreases |s|
  {
    if s != [] {
      if IsBlankChar(s[0]) {
        var n := Run(s, IsBlankChar);
        var t := s[n..];
        CollapseShape(t);
        if t != [] { CollapseFirst(t); }
        ConsShape(' ', CollapseBlanks(t));
      } else {
        CollapseShape(s[1..]);
        ConsShape(s[0], CollapseBlanks(s[1..]));
      }
    }
  }

  /** Step 1 keeps the ink. */
  lemma {:induction false} CollapseInk(s: string)
    ensures Ink(CollapseBlanks(s)) == Ink(s)
    decreases |s|
  {
    if s != [] {
      if IsBlankChar(s[0]) {
        var n := Run(s, IsBlankChar);
        CollapseInk(s[n..]);
        InkAppend(" ", CollapseBlanks(s[n..]));
        InkSplit(s, n);
        InkBlank(s[..n]);
        assert Ink(" ") == [];
      } else {
        CollapseInk(s[1..]);
        InkAppend([s[0]], CollapseBlanks(s[1..]));
      }
    }
  }

  /** Text with no tab and no double space is left as it is by step 1. */
  lemma {:induction false} CollapseFixed(t: string)
    requires NoTab(t) && NoDoubleSpace(t)
    ensures CollapseBlanks(t) == t
    decreases |t|
  {
    if t != [] {
      SliceShape(t, 1, |t|);
      CollapseFixed(t[1..]);
      if IsBlankChar(t[0]) {
        assert t[0] == ' ';
        assert |t| > 1 ==> t[1] != ' ' && t[1] != '\t';
        assert Run(t, IsBlankChar) == 1;
      }
      assert [t[0]] + t[1..] == t;
    }
  }

  // ---------------------------------------------------------------------------
  // Step 2: `\s+\n` becomes "\n"
  // ---------------------------------------------------------------------------

  lemma LineEndsFirst(s: string)
    requires s != []
    ensures TrimLineEnds(s) != []
    ensures TrimLineEnds(s)[0] == if LineEndMatch(s).Some? then '\n' else s[0]
  {
  }

  /** A range with no line feed has no last line feed. */
  lemma {:induction false} LastNewlineNone(s: string, lo: nat, hi: nat)
    requires lo <= hi <= |s|
    requires forall k :: lo <= k < hi ==> s[k] != '\n'
    ensures LastNewline(s, lo, hi).None?
    decreases hi - lo
  {
    if hi > lo {
      LastNewlineNone(s, lo, hi - 1);
    }
  }

  /** A run of exactly `n` characters satisfying `p` has length `n`. */
  lemma {:induction false} RunIs(s: string, p: char -> bool, n: nat)
    requires n <= |s|
    requires forall i :: 0 <= i < n ==> p(s[i])
    requires n < |s| ==> !p(s[n])
    ensures Run(s, p) == n
    decreases n
  {
    if n > 0 {
      assert forall i :: 0 <= i < n - 1 ==> s[1..][i] == s[i + 1];
      RunIs(s[1..], p, n - 1);
    }
  }

  /** Where nothing matches at a white-space character, nothing matches at the next one either and it is no line feed. */
  lemma NoMatchAfterWhite(s: string)
    requires |s| > 1 && IsWhite(s[0]) && LineEndMatch(s).None?
    ensures s[1] != '\n' && LineEndMatch(s[1..]).None?
  {
    var w := Run(s, IsWhite);
    var t := s[1..];
    var v := Run(t, IsWhite);
    assert w == 1 + v;
    assert forall k :: 1 <= k < w ==> s[k] != '\n';
    if v > 1 {
      assert forall k :: 1 <= k < v ==> t[k] == s[k + 1];
      LastNewlineNone(t, 1, v);
    }
  }

  /** After a match, the text that follows neither starts with a line feed nor matches. */
  lemma AfterLineEnd(s: string, k: nat)
    requires LineEndMatch(s) == Some(k)
    ensures k + 1 < |s| ==> s[k + 1] != '\n' && LineEndMatch(s[k + 1..]).None?
  {
    var w := Run(s, IsWhite);
    assert LastNewline(s, 1, w) == Some(k);
    assert forall j :: k < j < w ==> s[j] != '\n';
    if k + 1 < |s| {
      var rest := s[k + 1..];
      var m := w - (k + 1);
      assert forall i :: 0 <= i < |rest| ==> rest[i] == s[k + 1 + i];
      RunIs(rest, IsWhite, m);
      if m > 1 {
        LastNewlineNone(rest, 1, m);
      }
    }
  }

  /** Where no white space comes before a line feed, step 2 finds no match. */
  lemma NoLineEndMatch(t: string)
    requires NoWhiteBeforeNewline(t)
    ensures LineEndMatch(t).None?
  {
    var w := Run(t, IsWhite);
    if w > 1 {
      forall k | 1 <= k < w ensures t[k] != '\n' {
        assert IsWhite(t[k - 1]);
      }
      LastNewlineNone(t, 1, w);
    }
  }

  /** After step 2 no white space comes before a line feed. */
  lemma {:induction false} LineEndsBefore(s: string)
    ensures NoWhiteBeforeNewline(TrimLineEnds(s))
    decreases |s|
  {
    if s != [] {
      match LineEndMatch(s)
      case Some(k) =>
        var rest := s[k + 1..];
        LineEndsBefore(rest);
        AfterLineEnd(s, k);
        if rest != [] { LineEndsFirst(rest); }
        ConsNoWhiteBeforeNewline('\n', TrimLineEnds(rest));
      case None =>
        var rest := s[1..];
        LineEndsBefore(rest);
        if rest != [] {
          LineEndsFirst(rest);
          if IsWhite(s[0]) { NoMatchAfterWhite(s); }
        }
        ConsNoWhiteBeforeNewline(s[0], TrimLineEnds(rest));
    }
  }

  /** Step 2 writes only characters of its input and line feeds. */
  lemma {:induction false} LineEndsChars(s: string)
    ensures forall x :: x in TrimLineEnds(s) ==> x in s || x == '\n'
    decreases |s|
  {
    if s != [] {
      match LineEndMatch(s)
      case Some(k) =>
        var rest := s[k + 1..];
        LineEndsChars(rest);
        assert forall x :: x in rest ==> x in s;
      case None =>
        var rest := s[1..];
        LineEndsChars(rest);
        assert forall x :: x in rest ==> x in s;
    }
  }

  /** Step 2 makes no double space. */
  lemma {:induction false} LineEndsSpace(s: string)
    requires NoDoubleSpace(s)
    ensures NoDoubleSpace(TrimLineEnds(s))
    decreases |s|
  {
    if s != [] {
      match LineEndMatch(s)
      case Some(k) =>
        var rest := s[k + 1..];
        SliceShape(s, k + 1, |s|);
        LineEndsSpace(rest);
        ConsNoDoubleSpace('\n', TrimLineEnds(rest));
      case None =>
        var rest := s[1..];
        SliceShape(s, 1, |s|);
        LineEndsSpace(rest);
        if rest != [] {
          LineEndsFirst(rest);
          assert !(s[1] == ' ' && s[0] == ' ');
        }
        ConsNoDoubleSpace(s[0], TrimLineEnds(rest));
    }
  }

  /** After step 2 no white space comes before a line feed; no tab and no double space appears. */
  lemma LineEndsShape(s: string)
    ensures NoWhiteBeforeNewline(TrimLineEnds(s))
    ensures NoTab(s) ==> NoTab(TrimLineEnds(s))
    ensures NoDoubleSpace(s) ==> NoDoubleSpace(TrimLineEnds(s))
  {
    LineEndsBefore(s);
    LineEndsChars(s);
    if NoDoubleSpace(s) { LineEndsSpace(s); }
  }

  /** Step 2 keeps the ink. */
  lemma {:induction false} LineEndsInk(s: string)
    ensures Ink(TrimLineEnds(s)) == Ink(s)
    decreases |s|
  {
    if s != [] {
      match LineEndMatch(s)
      case Some(k) =>
        LineEndsInk(s[k + 1..]);
        InkAppend("\n", TrimLineEnds(s[k + 1..]));
        assert Ink("\n") == [];
        InkSplit(s, k + 1);
        assert Blank(s[..k + 1]);
        InkBlank(s[..k + 1]);
      case None =>
        LineEndsInk(s[1..]);
        InkAppend([s[0]], TrimLineEnds(s[1..]));
    }
  }

  /** Text with no white space before a line feed is left as it is by step 2. */
  lemma {:induction false} LineEndsFixed(t: string)
    requires NoWhiteBeforeNewline(t)
    ensures TrimLineEnds(t) == t
    decreases |t|
  {
    if t != [] {
      NoLineEndMatch(t);
      SliceShape(t, 1, |t|);
      LineEndsFixed(t[1..]);
      assert [t[0]] + t[1..] == t;
    }
  }

  // ---------------------------------------------------------------------------
  // Step 3: `\n\s+` becomes "\n"
  // ---------------------------------------------------------------------------

  lemma LineStartsFirst(s: string)
    requires s != []
    ensures TrimLineStarts(s) != [] && TrimLineStarts(s)[0] == s[0]
  {
  }

  /** After step 3 no white space follows a line feed. */
  lemma {:induction false} LineStartsAfter(s: string)
    ensures NoWhiteAfterNewline(TrimLineStarts(s))
    decreases |s|
  {
    if s != [] {
      if s[0] == '\n' && |s| > 1 && IsWhite(s[1]) {
        var rest := s[1 + RunFrom(s, 1, IsWhite)..];
        LineStartsAfter(rest);
        if rest != [] { LineStartsFirst(rest); }
        ConsNoWhiteAfterNewline('\n', TrimLineStarts(rest));
      } else {
        var rest := s[1..];
        LineStartsAfter(rest);
        if rest != [] { LineStartsFirst(rest); }
        ConsNoWhiteAfterNewline(s[0], TrimLineStarts(rest));
      }
    }
  }

  /** Step 3 writes only characters of its input. */
  lemma {:induction false} LineStartsChars(s: string)
    ensures forall x :: x in TrimLineStarts(s) ==> x in s
    decreases |s|
  {
    if s != [] {
      if s[0] == '\n' && |s| > 1 && IsWhite(s[1]) {
        var rest := s[1 + RunFrom(s, 1, IsWhite)..];
        LineStartsChars(rest);
        assert forall x :: x in rest ==> x in s;
      } else {
        var rest := s[1..];
        LineStartsChars(rest);
        assert forall x :: x in rest ==> x in s;
      }
    }
  }

  /** Step 3 makes no double space. */
  lemma {:induction false} LineStartsSpace(s: string)
    requires NoDoubleSpace(s)
    ensures NoDoubleSpace(TrimLineStarts(s))
    decreases |s|
  {
    if s != [] {
      if s[0] == '\n' && |s| > 1 && IsWhite(s[1]) {
        var n := 1 + RunFrom(s, 1, IsWhite);
        SliceShape(s, n, |s|);
        LineStartsSpace(s[n..]);
        ConsNoDoubleSpace('\n', TrimLineStarts(s[n..]));
      } else {
        var rest := s[1..];
        SliceShape(s, 1, |s|);
        LineStartsSpace(rest);
        if rest != [] {
          LineStartsFirst(rest);
          assert !(s[1] == ' ' && s[0] == ' ');
        }
        ConsNoDoubleSpace(s[0], TrimLineStarts(rest));
      }
    }
  }

  /** Step 3 puts no white space before a line feed. */
  lemma {:induction false} LineStartsBefore(s: string)
    requires NoWhiteBeforeNewline(s)
    ensures NoWhiteBeforeNewline(TrimLineStarts(s))
    decreases |s|
  {
    if s != [] {
      if s[0] == '\n' && |s| > 1 && IsWhite(s[1]) {
        var n := 1 + RunFrom(s, 1, IsWhite);
        var rest := s[n..];
        SliceShape(s, n, |s|);
        LineStartsBefore(rest);
        if rest != [] { LineStartsFirst(rest); }
        ConsNoWhiteBeforeNewline('\n', TrimLineStarts(rest));
      } else {
        var rest := s[1..];
        SliceShape(s, 1, |s|);
        LineStartsBefore(rest);
        if rest != [] {
          LineStartsFirst(rest);
          assert s[1] == '\n' ==> !IsWhite(s[0]);
        }
        ConsNoWhiteBeforeNewline(s[0], TrimLineStarts(rest));
      }
    }
  }

  /** After step 3 no white space follows a line feed; step 3 adds none of the other faults. */
  lemma LineStartsShape(s: string)
    ensures NoWhiteAfterNewline(TrimLineStarts(s))
    ensures NoTab(s) ==> NoTab(TrimLineStarts(s))
    ensures NoDoubleSpace(s) ==> NoDoubleSpace(TrimLineStarts(s))
    ensures NoWhiteBeforeNewline(s) ==> NoWhiteBeforeNewline(TrimLineStarts(s))
  {
    LineStartsAfter(s);
    LineStartsChars(s);
    if NoDoubleSpace(s) { LineStartsSpace(s); }
    if NoWhiteBeforeNewline(s) { LineStartsBefore(s); }
  }

  /** Step 3 keeps the ink. */
  lemma {:induction false} LineStartsInk(s: string)
    ensures Ink(TrimLineStarts(s)) == Ink(s)
    decreases |s|
  {
    if s != [] {
      if s[0] == '\n' && |s| > 1 && IsWhite(s[1]) {
        var n := 1 + RunFrom(s, 1, IsWhite);
        LineStartsInk(s[n..]);
        InkAppend("\n", TrimLineStarts(s[n..]));
        assert Ink("\n") == [];
        InkSplit(s, n);
        RunFromHolds(s, 1, IsWhite);
        assert Blank(s[..n]);
        InkBlank(s[..n]);
      } else {
        LineStartsInk(s[1..]);
        InkAppend([s[0]], TrimLineStarts(s[1..]));
      }
    }
  }

  /** Text with no white space after a line feed is left as it is by step 3. */
  lemma {:induction false} LineStartsFixed(t: string)
    requires NoWhiteAfterNewline(t)
    ensures TrimLineStarts(t) == t
    decreases |t|
  {
    if t != [] {
      if |t| > 1 {
        assert t[0] == '\n' ==> !IsWhite(t[1]);
      }
      SliceShape(t, 1, |t|);
      LineStartsFixed(t[1..]);
      assert [t[0]] + t[1..] == t;
    }
  }

  // ---------------------------------------------------------------------------
  // Step 4: String.Trim()
  // ---------------------------------------------------------------------------

  /** What trimming keeps is a slice of its input. */
  lemma TrimSlice(s: string) returns (a: nat)
    ensures a + |Trim(s)| <= |s| && Trim(s) == s[a..a + |Trim(s)|]
  {
    a := Run(s, IsWhite);
  }

  /** Trimming leaves no white space at either end and adds no fault. */
  lemma TrimShape(s: string)
    ensures NoOuterWhite(Trim(s))
    ensures NoTab(s) ==> NoTab(Trim(s))
    ensures NoDoubleSpace(s) ==> NoDoubleSpace(Trim(s))
    ensures NoWhiteBeforeNewline(s) ==> NoWhiteBeforeNewline(Trim(s))
    ensures NoWhiteAfterNewline(s) ==> NoWhiteAfterNewline(Trim(s))
  {
    var a := TrimSlice(s);
    SliceKeepsShape(s, a, Trim(s));
  }

  /** Trimming keeps the ink. */
  lemma TrimInk(s: string)
    ensures Ink(Trim(s)) == Ink(s)
  {
    var a := Run(s, IsWhite);
    var r := Trim(s);
    var t := s[a..];
    assert t[..|r|] == r;
    assert t[|r|..] == s[a + |r|..];
    InkSplit(s, a);
    InkSplit(t, |r|);
    InkBlank(s[..a]);
    InkBlank(s[a + |r|..]);
  }

  /** Text with no white space at either end is left as it is by trimming. */
  lemma TrimFixed(t: string)
    requires NoOuterWhite(t)
    ensures Trim(t) == t
  {
    var r := Trim(t);
    if t != [] {
      assert Run(t, IsWhite) == 0;
      var tail := t[|r|..];
      assert Blank(tail);
      assert |r| == |t|;
    }
  }

  // ---------------------------------------------------------------------------
  // The whole clean-up
  // ---------------------------------------------------------------------------

  /** The output of the clean-up is normalized. */
  lemma NormalizeNormalizes(s: string)
    ensures Normalized(Normalize(s))
  {
    var a := CollapseBlanks(s);
    var b := TrimLineEnds(a);
    var c := TrimLineStarts(b);
    CollapseShape(s);
    LineEndsShape(a);
    LineStartsShape(b);
    TrimShape(c);
  }

  /** The clean-up keeps every character that is not white space, in order. */
  lemma NormalizeInk(s: string)
    ensures Ink(Normalize(s)) == Ink(s)
  {
    var a := CollapseBlanks(s);
    var b := TrimLineEnds(a);
    var c := TrimLineStarts(b);
    CollapseInk(s);
    LineEndsInk(a);
    LineStartsInk(b);
    TrimInk(c);
  }

  /** Normalized text is left as it is. */
  lemma NormalizeFixed(t: string)
    requires Normalized(t)
    ensures Normalize(t) == t
  {
    CollapseFixed(t);
    LineEndsFixed(t);
    LineStartsFixed(t);
    TrimFixed(t);
  }

  /** Cleaning up twice is cleaning up once. */
  lemma NormalizeIdempotent(s: string)
    ensures Normalize(Normalize(s)) == Normalize(s)
  {
    NormalizeNormalizes(s);
    NormalizeFixed(Normalize(s));
  }

  /** Text has no ink exactly when it is all white space. */
  lemma {:induction false} InkEmpty(s: string)
    ensures Ink(s) == [] <==> Blank(s)
    decreases |s|
  {
    if s != [] {
      InkEmpty(s[1..]);
      assert Blank(s) <==> IsWhite(s[0]) && Blank(s[1..]);
    }
  }

  /** The clean-up yields the empty text exactly when the input is all white space. */
  lemma NormalizeEmpty(s: string)
    ensures Normalize(s) == [] <==> Blank(s)
  {
    var r := Normalize(s);
    NormalizeInk(s);
    NormalizeNormalizes(s);
    InkEmpty(s);
    InkEmpty(r);
    if r != [] {
      assert !IsWhite(r[0]);
    }
  }
}
