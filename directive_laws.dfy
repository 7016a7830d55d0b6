/**
 * What the directive passes promise: text outside a directive span is copied
 * unchanged, a span is replaced by the body its condition selects, a directive
 * never matches without its closing tag, and replaced text is not scanned again
 * by the same pass.
 */
module DirectiveLaws {
  import opened Wrappers
  import opened Chars
  import opened Values
  import opened Expressions
  import opened Directives

  // ---------------------------------------------------------------------------
  // Searching for tags
  // ---------------------------------------------------------------------------

  /** `pat` occurs somewhere in `s`, ignoring case. */
  predicate Occurs(s: string, pat: string)
  {
    exists j | 0 <= j <= |s| :: StartsAt(s, j, pat)
  }

  /** A tag that begins with `{{` and has no further `{`, as every directive tag does. */
  predicate TagShape(pat: string)
  {
    |pat| >= 3 && pat[0] == '{' && pat[1] == '{' && forall k :: 2 <= k < |pat| ==> pat[k] != '{'
  }

  lemma TagShapes()
    ensures TagShape(ElseTag) && TagShape(EndIf) && TagShape(EndBetween)
  {
  }

  lemma StartsAtShift(x: string, y: string, j: nat, pat: string)
    ensures StartsAt(x + y, |x| + j, pat) <==> StartsAt(y, j, pat)
  {
    if StartsAt(y, j, pat) {
      forall k | 0 <= k < |pat| ensures Lower((x + y)[|x| + j + k]) == Lower(pat[k]) {
        assert (x + y)[|x| + j + k] == y[j + k];
      }
    }
    if StartsAt(x + y, |x| + j, pat) {
      forall k | 0 <= k < |pat| ensures Lower(y[j + k]) == Lower(pat[k]) {
        assert (x + y)[|x| + j + k] == y[j + k];
      }
    }
  }

  lemma StartsAtWithin(y: string, z: string, j: nat, pat: string)
    requires j + |pat| <= |y|
    ensures StartsAt(y + z, j, pat) <==> StartsAt(y, j, pat)
  {
    assert forall i :: 0 <= i < |y| ==> (y + z)[i] == y[i];
  }

  /** Only `{` has `{` as its lower-case form. */
  lemma LowerBraces()
    ensures forall c :: Lower(c) == '{' ==> c == '{'
    ensures forall c :: Lower(c) == '}' ==> c == '}'
  {
  }

  /**
   * A tag shaped like a directive tag cannot begin inside `y` and run into a
   * following `{{`: the second `{` would have to match a character of the tag
   * that is not `{`.
   */
  lemma NoStraddle(s: string, x0: nat, j: nat, pat: string)
    requires TagShape(pat)
    requires x0 + 1 < |s| && s[x0] == '{' && s[x0 + 1] == '{'
    requires j < x0 < j + |pat|
    ensures !StartsAt(s, j, pat)
  {
    LowerBraces();
    var k := x0 - j;
    if k >= 2 {
      assert pat[k] != '{' && s[j + k] == '{';
    } else {
      assert pat[2] != '{' && s[j + 2] == '{';
    }
  }

  /** Positions inside `y` of `x + y + z` hold `pat` only as `y` does, or across into `z`. */
  lemma InsideMiddle(x: string, y: string, z: string, j: nat, pat: string)
    requires TagShape(pat) && !Occurs(y, pat)
    requires |z| >= 2 && z[0] == '{' && z[1] == '{'
    requires |x| <= j < |x| + |y|
    ensures !StartsAt(x + y + z, j, pat)
  {
    var s := x + y + z;
    if j + |pat| <= |x| + |y| {
      assert s == x + (y + z);
      StartsAtShift(x, y + z, j - |x|, pat);
      StartsAtWithin(y, z, j - |x|, pat);
      assert !StartsAt(y, j - |x|, pat);
    } else {
      assert s[|x| + |y|] == z[0] && s[|x| + |y| + 1] == z[1];
      NoStraddle(s, |x| + |y|, j, pat);
    }
  }

  /** The first occurrence from `from` is the one at `v` when none comes before it. */
  lemma {:induction false} IndexOfIs(s: string, from: nat, v: nat, pat: string)
    requires from <= v && StartsAt(s, v, pat)
    requires forall j :: from <= j < v ==> !StartsAt(s, j, pat)
    ensures IndexOfCI(s, from, pat) == Some(v)
    decreases v - from
  {
    if from < v {
      assert !StartsAt(s, from, pat);
      IndexOfIs(s, from + 1, v, pat);
    }
  }

  /** In `x + y + z`, where `y` holds no `pat` and `z` starts with `{{`, no `pat` starts inside `y`. */
  lemma NoTagInside(x: string, y: string, z: string, pat: string)
    requires TagShape(pat) && !Occurs(y, pat)
    requires |z| >= 2 && z[0] == '{' && z[1] == '{'
    ensures forall j :: |x| <= j < |x| + |y| ==> !StartsAt(x + y + z, j, pat)
  {
    forall j | |x| <= j < |x| + |y| ensures !StartsAt(x + y + z, j, pat) {
      InsideMiddle(x, y, z, j, pat);
    }
  }

  lemma BracesOfTag(z: string, pat: string)
    requires TagShape(pat) && StartsAt(z, 0, pat)
    ensures |z| >= 2 && z[0] == '{' && z[1] == '{'
  {
    LowerBraces();
    assert Lower(z[0]) == Lower(pat[0]) && Lower(z[1]) == Lower(pat[1]);
  }

  /**
   * In `x + y + z`, where `y` holds no `pat` and `z` starts with `pat`, the first
   * `pat` at or after the start of `y` is the one at the start of `z`.
   */
  lemma FirstTag(x: string, y: string, z: string, pat: string, s: string, i: nat)
    requires TagShape(pat) && !Occurs(y, pat)
    requires StartsAt(z, 0, pat)
    requires s == x + y + z && i == |x|
    ensures IndexOfCI(s, i, pat).Some? && IndexOfCI(s, i, pat).value == i + |y|
  {
    BracesOfTag(z, pat);
    NoTagInside(x, y, z, pat);
    StartsAtShift(x + y, z, 0, pat);
    IndexOfIs(s, i, i + |y|, pat);
  }

  /**
   * In `x + y + z`, where `y` holds no `pat` and `z` starts with `{{` but not with
   * `pat`, no `pat` starts from the start of `y` up to the start of `z`.
   */
  lemma NoTagUpTo(x: string, y: string, z: string, pat: string)
    requires TagShape(pat) && !Occurs(y, pat)
    requires |z| >= 2 && z[0] == '{' && z[1] == '{' && !StartsAt(z, 0, pat)
    ensures forall j :: |x| <= j <= |x| + |y| ==> !StartsAt(x + y + z, j, pat)
  {
    NoTagInside(x, y, z, pat);
    StartsAtShift(x + y, z, 0, pat);
  }

  // ---------------------------------------------------------------------------
  // The if-pass
  // ---------------------------------------------------------------------------

  /** The successful outcome with `p` put in front; an error stays the same error. */
  function Prefixed(p: string, r: Result<string, EvalError>): (q: Result<string, EvalError>)
    ensures q.Ok? == r.Ok? && (r.Ok? ==> q.value == p + r.value)
    ensures r.Err? ==> q == r
  {
    if r.Ok? then Ok(p + r.value) else r
  }

  lemma PrefixedTwice(a: string, b: string, r: Result<string, EvalError>)
    ensures Prefixed(a, Prefixed(b, r)) == Prefixed(a + b, r)
  {
    if r.Ok? {
      assert a + (b + r.value) == (a + b) + r.value;
    }
  }

  /** No directive starts at a character other than `{`. */
  lemma NoMatchWithoutBrace(s: string)
    requires s != [] && s[0] != '{'
    ensures MatchIf(s) == None && MatchBetween(s) == None
  {
    LowerBraces();
    assert IfOpen[0] == '{' && BetweenOpen[0] == '{';
  }

  /** The if-pass where no span starts: copy one character. */
  lemma IfPassCopy(s: string, values: ValueMap, host: Host)
    requires s != [] && MatchIf(s) == None
    ensures IfPass(s, values, host) == Prefixed([s[0]], IfPass(s[1..], values, host))
  {
  }

  /** No if-span starts inside `p` when `t` follows it. */
  predicate NoIfSpanIn(p: string, t: string)
  {
    forall i :: 0 <= i < |p| ==> MatchIf((p + t)[i..]).None?
  }

  /** No between-span starts inside `p` when `t` follows it. */
  predicate NoBetweenSpanIn(p: string, t: string)
  {
    forall i :: 0 <= i < |p| ==> MatchBetween((p + t)[i..]).None?
  }

  /** No span of either kind starts in text without `{`. */
  lemma BraceFreeNoSpan(p: string, t: string)
    requires '{' !in p
    ensures NoIfSpanIn(p, t) && NoBetweenSpanIn(p, t)
  {
    forall i | 0 <= i < |p| ensures MatchIf((p + t)[i..]).None? && MatchBetween((p + t)[i..]).None? {
      var u := (p + t)[i..];
      assert u[0] == p[i];
      NoMatchWithoutBrace(u);
    }
  }

  /** Past the first character of `p`, no span starts in the rest of `p` either. */
  lemma SpanFreeTail(p: string, t: string)
    requires p != []
    ensures (p + t)[1..] == p[1..] + t && (p + t)[0] == p[0]
    ensures forall i :: 0 <= i < |p| - 1 ==> (p[1..] + t)[i..] == (p + t)[i + 1..]
  {
    forall i | 0 <= i < |p| - 1 ensures (p[1..] + t)[i..] == (p + t)[i + 1..] {
      assert |(p[1..] + t)[i..]| == |(p + t)[i + 1..]|;
    }
  }

  /** Text in which no if-span starts is copied unchanged by the if-pass. */
  lemma {:induction false} IfPassFrame(p: string, t: string, values: ValueMap, host: Host)
    requires NoIfSpanIn(p, t)
    ensures IfPass(p + t, values, host) == Prefixed(p, IfPass(t, values, host))
    decreases |p|
  {
    if p == [] {
      assert p + t == t;
      var r := IfPass(t, values, host);
      if r.Ok? { assert p + r.value == r.value; }
    } else {
      IfSpanFreeTail(p, t);
      IfPassCopy(p + t, values, host);
      IfPassFrame(p[1..], t, values, host);
      PrefixedTwice([p[0]], p[1..], IfPass(t, values, host));
      FirstRest(p);
    }
  }

  /** No if-span starts at the front of `p + t`, nor anywhere in the rest of `p`. */
  lemma IfSpanFreeTail(p: string, t: string)
    requires p != [] && NoIfSpanIn(p, t)
    ensures MatchIf(p + t) == None && NoIfSpanIn(p[1..], t)
    ensures (p + t)[1..] == p[1..] + t && (p + t)[0] == p[0]
  {
    SpanFreeTail(p, t);
    assert (p + t)[0..] == p + t;
  }

  /** A non-empty text is its first character followed by the rest. */
  lemma FirstRest(p: string)
    requires p != []
    ensures [p[0]] + p[1..] == p
  {
  }

  lemma OccursInTail(s: string, pat: string)
    requires s != [] && !Occurs(s, pat)
    ensures !Occurs(s[1..], pat)
  {
    forall j | StartsAt(s[1..], j, pat) ensures false {
      assert s == [s[0]] + s[1..];
      StartsAtShift([s[0]], s[1..], j, pat);
    }
  }

  /**
   * A template with no `{{#if` opener, or with no `{{/if}}` closer, comes out of
   * the if-pass unchanged: an opener without its closer stays literal.
   */
  lemma {:induction false} IfPassIdentity(s: string, values: ValueMap, host: Host)
    requires !Occurs(s, IfOpen) || !Occurs(s, EndIf)
    ensures IfPass(s, values, host) == Ok(s)
    decreases |s|
  {
    if s != [] {
      if !Occurs(s, IfOpen) {
        assert !StartsAt(s, 0, IfOpen);
        OccursInTail(s, IfOpen);
      } else {
        OccursInTail(s, EndIf);
      }
      assert MatchIf(s) == None;
      IfPassCopy(s, values, host);
      IfPassIdentity(s[1..], values, host);
      assert [s[0]] + s[1..] == s;
    }
  }

  // ---------------------------------------------------------------------------
  // If-spans
  // ---------------------------------------------------------------------------

  /** An expression as it can stand in a directive: one line, no `}`, no leading white space. */
  predicate ExprText(e: string)
  {
    '\n' !in e && '}' !in e && (e == [] || !IsWhite(e[0]))
  }

  /** A body in which neither `{{#else}}` nor `{{/if}}` occurs. */
  predicate NoIfTags(body: string)
  {
    !Occurs(body, ElseTag) && !Occurs(body, EndIf)
  }

  /** The directive `{{#if e}}body{{/if}}`. */
  function IfDirective(e: string, body: string): string
  {
    "{{#if " + e + "}}" + body + EndIf
  }

  /** The directive `{{#if e}}body{{#else}}els{{/if}}`. */
  function IfElseDirective(e: string, body: string, els: string): string
  {
    "{{#if " + e + "}}" + body + ElseTag + els + EndIf
  }

  /** The if-pass where a span starts: the selected body, then the rest of the text. */
  lemma IfPassSpan(s: string, m: IfSpan, values: ValueMap, host: Host)
    requires s != [] && IfSpanIs(MatchIf(s), m.expr, m.body, m.elseBody, m.len)
    ensures var cond := Evaluate(Trim(m.expr), values, host);
      && (cond.Err? ==> IfPass(s, values, host) == Err(cond.error))
      && (cond.Ok? ==>
            IfPass(s, values, host)
            == Prefixed(if cond.value then m.body else m.elseBody, IfPass(s[m.len..], values, host)))
  {
  }

  /** `o` is the if-span with these groups and this length. */
  predicate IfSpanIs(o: Option<IfSpan>, expr: string, body: string, els: string, len: nat)
  {
    o.Some? && o.value.expr == expr && o.value.body == body && o.value.elseBody == els && o.value.len == len
  }

  /** `o` holds these bodies and this span length. */
  predicate BodiesAre(o: Option<(string, string, nat)>, body: string, els: string, len: nat)
  {
    o.Some? && o.value.0 == body && o.value.1 == els && o.value.2 == len
  }

  /** MatchIf once its opener, its expression and its bodies are located. */
  lemma MatchIfAt(s: string, c: nat, body: string, els: string, len: nat)
    requires StartsAt(s, 0, IfOpen) && |s| > 6 && IsWhite(s[5]) && !IsWhite(s[6])
    requires IndexOfCI(s, 6, CloseBraces).Some? && IndexOfCI(s, 6, CloseBraces).value == c
    requires '\n' !in s[6..c]
    requires c + 2 <= |s| && BodiesAre(MatchIfBodies(s, c + 2), body, els, len)
    ensures IfSpanIs(MatchIf(s), s[6..c], body, els, len)
  {
    assert RunFrom(s, 6, IsWhite) == 0;
    assert |IfOpen| + RunFrom(s, |IfOpen|, IsWhite) == 6;
    assert MatchIf(s) == IfExpr(s, |IfOpen| + RunFrom(s, |IfOpen|, IsWhite));
    IfExprAt(s, c, body, els, len);
  }

  /** IfExpr once the `}}` that ends the expression is located. */
  lemma IfExprAt(s: string, c: nat, body: string, els: string, len: nat)
    requires |s| > 6 && IndexOfCI(s, 6, CloseBraces).Some? && IndexOfCI(s, 6, CloseBraces).value == c
    requires '\n' !in s[6..c]
    requires c + 2 <= |s| && BodiesAre(MatchIfBodies(s, c + 2), body, els, len)
    ensures IfSpanIs(IfExpr(s, 6), s[6..c], body, els, len)
  {
    assert IfExpr(s, 6) == IfSpanAt(s, 6, IndexOfCI(s, 6, CloseBraces));
  }

  /** The expression of a directive runs to the first `}}`. */
  lemma ExprEnd(s: string, e: string)
    requires ExprText(e) && 8 + |e| <= |s| && s[6..6 + |e|] == e
    requires s[6 + |e|] == '}' && s[7 + |e|] == '}'
    ensures IndexOfCI(s, 6, CloseBraces).Some? && IndexOfCI(s, 6, CloseBraces).value == 6 + |e|
  {
    LowerBraces();
    forall j | 6 <= j < 6 + |e| ensures !StartsAt(s, j, CloseBraces) {
      assert s[j] == e[j - 6] && Lower('}') == '}';
      assert CloseBraces[0] == '}';
    }
    IndexOfIs(s, 6, 6 + |e|, CloseBraces);
  }

  /** The characters of the opening `{{#if e}}`. */
  lemma IfHeadChars(e: string, rest: string, s: string)
    requires s == "{{#if " + e + "}}" + rest
    ensures StartsAt(s, 0, IfOpen) && 8 + |e| <= |s|
    ensures s[5] == ' ' && s[6] == if e == [] then '}' else e[0]
    ensures s[6..6 + |e|] == e && s[6 + |e|] == '}' && s[7 + |e|] == '}'
  {
    assert s == "{{#if " + (e + "}}" + rest);
    StartsAtWithin("{{#if ", e + "}}" + rest, 0, IfOpen);
  }

  /** The opening of an if-directive: its expression runs to the first `}}` and its bodies start after it. */
  lemma MatchIfHead(e: string, rest: string, s: string, body: string, els: string, len: nat)
    requires ExprText(e) && s == "{{#if " + e + "}}" + rest
    requires 8 + |e| <= |s| && BodiesAre(MatchIfBodies(s, 8 + |e|), body, els, len)
    ensures IfSpanIs(MatchIf(s), e, body, els, len)
  {
    IfHeadChars(e, rest, s);
    assert IsWhite(s[5]) && !IsWhite(s[6]);
    ExprEnd(s, e);
    MatchIfAt(s, 6 + |e|, body, els, len);
  }

  /** Bodies followed by `{{/if}}` with no `{{#else}}` before it: the else-body is empty. */
  lemma IfBodiesPlain(x: string, body: string, r: string)
    requires NoIfTags(body)
    ensures BodiesAre(MatchIfBodies(x + (body + (EndIf + r)), |x|), body, [], |x| + |body| + |EndIf|)
  {
    var s := x + (body + (EndIf + r));
    PlainEndIf(x, body, r);
    PlainNoElse(x, body, r);
    assert s[|x|..|x| + |body|] == body;
    IfBodiesPlainAt(s, |x|, |x| + |body|, body);
  }

  /** The first `{{/if}}` after the body is the one that follows it. */
  lemma PlainEndIf(x: string, body: string, r: string)
    requires NoIfTags(body)
    ensures var s := x + (body + (EndIf + r));
      IndexOfCI(s, |x|, EndIf).Some? && IndexOfCI(s, |x|, EndIf).value == |x| + |body|
  {
    var t := EndIf + r;
    var s := x + body + t;
    assert s == x + (body + t);
    TagShapes();
    FirstTag(x, body, t, EndIf, s, |x|);
  }

  /** No `{{#else}}` is found up to the `{{/if}}` that follows the body. */
  lemma PlainNoElse(x: string, body: string, r: string)
    requires NoIfTags(body)
    ensures var s := x + (body + (EndIf + r));
      !(IndexOfCI(s, |x|, ElseTag).Some? && IndexOfCI(s, |x|, ElseTag).value <= |x| + |body|)
  {
    var t := EndIf + r;
    var s := x + body + t;
    assert s == x + (body + t);
    TagShapes();
    assert t[2] == '/' && ElseTag[2] == '#' && Lower('/') != Lower('#');
    NoTagUpTo(x, body, t, ElseTag);
    NotFoundUpTo(s, |x|, |x| + |body|, ElseTag);
  }

  /** IndexOfCI finds nothing up to `f` when nothing starts there. */
  lemma NotFoundUpTo(s: string, b: nat, f: nat, pat: string)
    requires forall j :: b <= j <= f ==> !StartsAt(s, j, pat)
    ensures !(IndexOfCI(s, b, pat).Some? && IndexOfCI(s, b, pat).value <= f)
  {
  }

  /** MatchIfBodies once `{{/if}}` is found at `f` with no `{{#else}}` before it. */
  lemma IfBodiesPlainAt(s: string, b: nat, f: nat, body: string)
    requires b <= f <= |s| && s[b..f] == body && IndexOfCI(s, b, EndIf).Some? && IndexOfCI(s, b, EndIf).value == f
    requires !(IndexOfCI(s, b, ElseTag).Some? && IndexOfCI(s, b, ElseTag).value <= f)
    ensures BodiesAre(MatchIfBodies(s, b), body, [], f + |EndIf|)
  {
  }

  /** MatchIfBodies once `{{#else}}` is found before `{{/if}}`. */
  lemma IfBodiesAt(s: string, b: nat, e: nat, k: nat, g: nat, body: string, els: string)
    requires b <= e && k == e + |ElseTag| && k <= g <= |s|
    requires s[b..e] == body && s[k..g] == els
    requires IndexOfCI(s, b, ElseTag).Some? && IndexOfCI(s, b, ElseTag).value == e
    requires IndexOfCI(s, b, EndIf).Some? && e < IndexOfCI(s, b, EndIf).value
    requires IndexOfCI(s, k, EndIf).Some? && IndexOfCI(s, k, EndIf).value == g
    ensures BodiesAre(MatchIfBodies(s, b), body, els, g + |EndIf|)
  {
  }

  /** Text that starts with `{{#else}}` starts with `{{` but not with `{{/if}}`. */
  lemma ElseIsNotEndIf(w: string)
    ensures var z := ElseTag + w; |z| >= 2 && z[0] == '{' && z[1] == '{' && !StartsAt(z, 0, EndIf)
  {
    var z := ElseTag + w;
    assert z[2] == '#' && EndIf[2] == '/' && Lower('/') != Lower('#');
  }

  /** With `{{#else}}` first, the search for it from the start of the body lands on it. */
  lemma ElseTagFirst(x: string, body: string, els: string, r: string, s: string, b: nat)
    requires NoIfTags(body) && s == x + (body + (ElseTag + els + EndIf + r)) && b == |x|
    ensures IndexOfCI(s, b, ElseTag).Some? && IndexOfCI(s, b, ElseTag).value == b + |body|
  {
    var t := ElseTag + els + EndIf + r;
    TagShapes();
    Regroup3(x, body, t);
    FirstTag(x, body, t, ElseTag, s, b);
  }

  /** The search for `{{/if}}` from the start of the else-body lands after it. */
  lemma ElseEndFirst(x: string, body: string, els: string, r: string, s: string, k: nat)
    requires !Occurs(els, EndIf) && s == x + (body + (ElseTag + els + EndIf + r))
    requires k == |x| + |body| + |ElseTag|
    ensures IndexOfCI(s, k, EndIf).Some? && IndexOfCI(s, k, EndIf).value == k + |els|
  {
    TagShapes();
    RegroupSix(x, body, ElseTag, els, EndIf, r);
    FirstTag(x + body + ElseTag, els, EndIf + r, EndIf, s, k);
  }

  /** The search for `{{/if}}` from the start of the body lands after the `{{#else}}`. */
  lemma EndIfAfterElse(x: string, body: string, els: string, r: string, s: string, b: nat)
    requires NoIfTags(body) && s == x + (body + (ElseTag + els + EndIf + r)) && b == |x|
    ensures IndexOfCI(s, b, EndIf).Some? && b + |body| < IndexOfCI(s, b, EndIf).value
  {
    var t := ElseTag + els + EndIf + r;
    TagShapes();
    Regroup3(x, body, t);
    Regroup(ElseTag, els, EndIf, r);
    ElseIsNotEndIf(els + EndIf + r);
    NoTagUpTo(x, body, t, EndIf);
    RegroupSix(x, body, ElseTag, els, EndIf, r);
    StartsAtShift(x + body + ElseTag + els, EndIf + r, 0, EndIf);
    IndexOfCIFirst(s, b, EndIf);
  }

  /** The body and the else-body as slices of the text. */
  lemma ElseSlices(x: string, body: string, els: string, r: string, s: string, b: nat, k: nat)
    requires s == x + (body + (ElseTag + els + EndIf + r)) && b == |x| && k == |x| + |body| + |ElseTag|
    ensures k + |els| <= |s| && s[b..b + |body|] == body && s[k..k + |els|] == els
  {
    var t := ElseTag + els + EndIf + r;
    assert s[|x|..|x| + |body|] == body by { Regroup3(x, body, t); }
    assert s[k..k + |els|] == els by { RegroupSix(x, body, ElseTag, els, EndIf, r); }
  }

  /** Bodies with `{{#else}}` first: the body runs to it and the else-body to the next `{{/if}}`. */
  lemma IfBodiesElse(x: string, body: string, els: string, r: string, s: string, b: nat, len: nat)
    requires NoIfTags(body) && !Occurs(els, EndIf)
    requires s == x + (body + (ElseTag + els + EndIf + r)) && b == |x|
    requires len == b + |body| + |ElseTag| + |els| + |EndIf|
    ensures BodiesAre(MatchIfBodies(s, b), body, els, len)
  {
    var e := b + |body|;
    var k := e + |ElseTag|;
    var g := k + |els|;
    ElseTagFirst(x, body, els, r, s, b);
    ElseEndFirst(x, body, els, r, s, k);
    EndIfAfterElse(x, body, els, r, s, b);
    ElseSlices(x, body, els, r, s, b, k);
    IfBodiesAt(s, b, e, k, g, body, els);
  }

  lemma Regroup3(a: string, b: string, c: string)
    ensures a + (b + c) == a + b + c
  {
  }

  lemma Regroup(a: string, b: string, c: string, d: string)
    ensures a + b + c + d == a + (b + (c + d))
    ensures a + b + c + d == a + (b + c + d)
  {
  }

  lemma RegroupSix(a: string, b: string, c: string, d: string, e: string, f: string)
    ensures a + b + c + d + e + f == a + (b + (c + d + e + f))
    ensures a + (b + (c + d + e + f)) == (a + b + c) + d + (e + f)
    ensures a + (b + (c + d + e + f)) == (a + b + c + d) + (e + f)
  {
  }

  /** `{{#if e}}body{{/if}}` matches as a whole, with an empty else-body. */
  lemma MatchIfDirective(e: string, body: string, r: string)
    requires ExprText(e) && NoIfTags(body)
    ensures IfSpanIs(MatchIf(IfDirective(e, body) + r), e, body, [], |IfDirective(e, body)|)
  {
    var h := "{{#if " + e + "}}";
    IfBodiesPlain(h, body, r);
    MatchIfHead(e, body + (EndIf + r), h + (body + (EndIf + r)), body, [], |h| + |body| + |EndIf|);
    Regroup(h, body, EndIf, r);
  }

  /** `{{#if e}}body{{#else}}els{{/if}}` matches as a whole. */
  lemma MatchIfElseDirective(e: string, body: string, els: string, r: string)
    requires ExprText(e) && NoIfTags(body) && !Occurs(els, EndIf)
    ensures IfSpanIs(MatchIf(IfElseDirective(e, body, els) + r), e, body, els, |IfElseDirective(e, body, els)|)
  {
    var h := "{{#if " + e + "}}";
    var t := ElseTag + els + EndIf + r;
    IfBodiesElse(h, body, els, r, h + (body + t), |h|, |h| + |body| + |ElseTag| + |els| + |EndIf|);
    MatchIfHead(e, body + t, h + (body + t), body, els, |h| + |body| + |ElseTag| + |els| + |EndIf|);
    RegroupSix(h, body, ElseTag, els, EndIf, r);
  }

  /**
   * An if-span without else, after text in which no if-span starts, is replaced by its body when
   * its expression is true and by nothing when it is false; the text before it is
   * kept and the text after it goes on through the pass. An error in the
   * expression aborts the pass.
   */
  lemma IfSpanReplaced(p: string, e: string, body: string, r: string, values: ValueMap, host: Host)
    requires NoIfSpanIn(p, IfDirective(e, body) + r) && ExprText(e) && NoIfTags(body)
    ensures var out, cond := IfPass(p + IfDirective(e, body) + r, values, host), Evaluate(Trim(e), values, host);
      && (cond.Err? ==> out == Err(cond.error))
      && (cond.Ok? ==> out == Prefixed(p + (if cond.value then body else []), IfPass(r, values, host)))
  {
    var d := IfDirective(e, body);
    assert p + d + r == p + (d + r);
    IfPassFrame(p, d + r, values, host);
    MatchIfDirective(e, body, r);
    IfPassSpan(d + r, IfSpan(e, body, [], |d|), values, host);
    assert (d + r)[|d|..] == r;
    var cond := Evaluate(Trim(e), values, host);
    if cond.Ok? {
      PrefixedTwice(p, if cond.value then body else [], IfPass(r, values, host));
    }
  }

  /**
   * An if-span with else, after text in which no if-span starts, is replaced by its body when its
   * expression is true and by its else-body when it is false.
   */
  lemma IfElseSpanReplaced(p: string, e: string, body: string, els: string, r: string, values: ValueMap, host: Host)
    requires NoIfSpanIn(p, IfElseDirective(e, body, els) + r) && ExprText(e) && NoIfTags(body) && !Occurs(els, EndIf)
    ensures var out, cond := IfPass(p + IfElseDirective(e, body, els) + r, values, host), Evaluate(Trim(e), values, host);
      && (cond.Err? ==> out == Err(cond.error))
      && (cond.Ok? ==> out == Prefixed(p + (if cond.value then body else els), IfPass(r, values, host)))
  {
    var d := IfElseDirective(e, body, els);
    assert p + d + r == p + (d + r);
    IfPassFrame(p, d + r, values, host);
    MatchIfElseDirective(e, body, els, r);
    IfPassSpan(d + r, IfSpan(e, body, els, |d|), values, host);
    assert (d + r)[|d|..] == r;
    var cond := Evaluate(Trim(e), values, host);
    if cond.Ok? {
      PrefixedTwice(p, if cond.value then body else els, IfPass(r, values, host));
    }
  }

  // ---------------------------------------------------------------------------
  // The between-pass
  // ---------------------------------------------------------------------------

  /** The between-pass where no span starts: copy one character. */
  lemma BetweenPassCopy(s: string, values: ValueMap)
    requires s != [] && MatchBetween(s) == None
    ensures BetweenPass(s, values) == [s[0]] + BetweenPass(s[1..], values)
  {
  }

  /** Text in which no between-span starts is copied unchanged by the between-pass. */
  lemma {:induction false} BetweenPassFrame(p: string, t: string, values: ValueMap)
    requires NoBetweenSpanIn(p, t)
    ensures BetweenPass(p + t, values) == p + BetweenPass(t, values)
    decreases |p|
  {
    if p == [] {
      assert p + t == t;
    } else {
      BetweenSpanFreeTail(p, t);
      BetweenPassCopy(p + t, values);
      BetweenPassFrame(p[1..], t, values);
      Regroup3([p[0]], p[1..], BetweenPass(t, values));
      FirstRest(p);
    }
  }

  /** No between-span starts at the front of `p + t`, nor anywhere in the rest of `p`. */
  lemma BetweenSpanFreeTail(p: string, t: string)
    requires p != [] && NoBetweenSpanIn(p, t)
    ensures MatchBetween(p + t) == None && NoBetweenSpanIn(p[1..], t)
    ensures (p + t)[1..] == p[1..] + t && (p + t)[0] == p[0]
  {
    SpanFreeTail(p, t);
    assert (p + t)[0..] == p + t;
  }

  /**
   * A template with no `{{#between` opener, or with no `{{/between}}` closer, comes
   * out of the between-pass unchanged.
   */
  lemma {:induction false} BetweenPassIdentity(s: string, values: ValueMap)
    requires !Occurs(s, BetweenOpen) || !Occurs(s, EndBetween)
    ensures BetweenPass(s, values) == s
    decreases |s|
  {
    if s != [] {
      if !Occurs(s, BetweenOpen) {
        assert !StartsAt(s, 0, BetweenOpen);
        OccursInTail(s, BetweenOpen);
      } else {
        OccursInTail(s, EndBetween);
      }
      assert MatchBetween(s) == None;
      BetweenPassCopy(s, values);
      BetweenPassIdentity(s[1..], values);
      assert [s[0]] + s[1..] == s;
    }
  }

  /** A key as it can stand in a between-directive: one or more word characters. */
  predicate Word(w: string)
  {
    w != [] && forall i :: 0 <= i < |w| ==> IsWordChar(w[i])
  }

  /** The directive `{{#between a b}}body{{/between}}`. */
  function BetweenDirective(a: string, b: string, body: string): string
  {
    "{{#between " + a + " " + b + "}}" + body + EndBetween
  }

  /** `o` is the between-span with these groups and this length. */
  predicate BetweenSpanIs(o: Option<BetweenSpan>, first: string, second: string, body: string, len: nat)
  {
    o.Some? && o.value.first == first && o.value.second == second && o.value.body == body && o.value.len == len
  }

  /** A run of exactly `n` characters satisfying `p` from `i`. */
  lemma {:induction false} RunFromIs(s: string, i: nat, n: nat, p: char -> bool)
    requires i + n <= |s|
    requires forall k :: i <= k < i + n ==> p(s[k])
    requires i + n < |s| ==> !p(s[i + n])
    ensures RunFrom(s, i, p) == n
    decreases n
  {
    if n > 0 {
      RunFromIs(s, i + 1, n - 1, p);
    }
  }

  /** The between-pass where a span starts: its body or nothing, then the rest of the text. */
  lemma BetweenPassSpan(s: string, m: BetweenSpan, values: ValueMap)
    requires s != [] && BetweenSpanIs(MatchBetween(s), m.first, m.second, m.body, m.len)
    ensures BetweenPass(s, values)
         == (if HasBetween(values, m.first, m.second) then m.body else []) + BetweenPass(s[m.len..], values)
  {
  }

  /** A literal piece that matches moves past the literal. */
  lemma TextStep(s: string, i: nat, t: string, next: Pattern)
    requires i <= |s| && StartsAt(s, i, t)
    ensures MatchPieces(s, i, Then(Text(t), next)) == MatchPieces(s, i + |t|, next)
  {
  }

  /** A white-space piece whose run ends at `j` moves there. */
  lemma BlanksStep(s: string, i: nat, j: nat, next: Pattern)
    requires i < j <= |s| && i + RunFrom(s, i, IsWhite) == j
    ensures MatchPieces(s, i, Then(Blanks, next)) == MatchPieces(s, j, next)
  {
    assert MatchPieces(s, i, Then(Blanks, next)) == MatchPieces(s, i + RunFrom(s, i, IsWhite), next);
  }

  /** A word piece whose run ends at `j` captures `s[i..j]` and moves there. */
  lemma KeyStep(s: string, i: nat, j: nat, next: Pattern)
    requires i < j <= |s| && i + RunFrom(s, i, IsWordChar) == j
    ensures MatchPieces(s, i, Then(Key, next)) == Capture(s[i..j], MatchPieces(s, j, next))
  {
    var n := RunFrom(s, i, IsWordChar);
    assert MatchPieces(s, i, Then(Key, next)) == Capture(s[i..i + n], MatchPieces(s, i + n, next));
  }

  /** A lazy piece whose tag is first found at `f` captures `s[i..f]` and moves past the tag. */
  lemma UptoStep(s: string, i: nat, f: nat, t: string, next: Pattern)
    requires i <= |s| && IndexOfCI(s, i, t).Some? && IndexOfCI(s, i, t).value == f
    ensures f + |t| <= |s|
    ensures MatchPieces(s, i, Then(Upto(t), next)) == Capture(s[i..f], MatchPieces(s, f + |t|, next))
  {
  }

  /**
   * The text holds `{{#between a b}}body{{/between}}` at its start, stated by
   * slices so that the lemmas below never see the concatenation.
   */
  predicate BetweenShape(s: string, a: string, b: string, body: string)
  {
    && 26 + |a| + |b| + |body| <= |s|
    && s[..11] == "{{#between " && s[11..11 + |a|] == a && s[11 + |a|] == ' '
    && s[12 + |a|..12 + |a| + |b|] == b && s[12 + |a| + |b|] == '}' && s[13 + |a| + |b|] == '}'
    && s[14 + |a| + |b|..14 + |a| + |b| + |body|] == body
    && s[14 + |a| + |b| + |body|..26 + |a| + |b| + |body|] == EndBetween
  }

  /** The opener `{{#between` of a text of that shape. */
  lemma ShapeOpen(s: string, a: string, b: string, body: string)
    requires BetweenShape(s, a, b, body)
    ensures StartsAt(s, 0, BetweenOpen)
  {
    forall k | 0 <= k < |BetweenOpen| ensures Lower(s[k]) == Lower(BetweenOpen[k]) {
      assert s[k] == s[..11][k];
    }
  }

  /** One space and then a key: the two runs MatchBetween measures. */
  lemma SpaceThenWord(s: string, i: nat, j: nat, w: string)
    requires Word(w) && j == i + 1 && j + |w| < |s| && s[i] == ' '
    requires forall k :: 0 <= k < |w| ==> s[j + k] == w[k]
    requires !IsWordChar(s[j + |w|])
    ensures i + RunFrom(s, i, IsWhite) == j && j + RunFrom(s, j, IsWordChar) == j + |w|
  {
    assert s[j] == w[0];
    RunFromIs(s, j, 0, IsWhite);
    RunFromIs(s, i, 1, IsWhite);
    forall k | j <= k < j + |w| ensures IsWordChar(s[k]) {
      assert s[k] == w[k - j];
    }
    RunFromIs(s, j, |w|, IsWordChar);
  }

  /** The space and the first key of a text of that shape. */
  lemma ShapeFirst(s: string, a: string, b: string, body: string)
    requires Word(a) && BetweenShape(s, a, b, body)
    ensures 10 + RunFrom(s, 10, IsWhite) == 11 && 11 + RunFrom(s, 11, IsWordChar) == 11 + |a|
  {
    assert s[10] == s[..11][10];
    forall k | 0 <= k < |a| ensures s[11 + k] == a[k] {
      assert s[11 + k] == s[11..11 + |a|][k];
    }
    SpaceThenWord(s, 10, 11, a);
  }

  /** The space and the second key of a text of that shape. */
  lemma ShapeSecond(s: string, a: string, b: string, body: string)
    requires Word(b) && BetweenShape(s, a, b, body)
    ensures 11 + |a| + RunFrom(s, 11 + |a|, IsWhite) == 12 + |a|
    ensures 12 + |a| + RunFrom(s, 12 + |a|, IsWordChar) == 12 + |a| + |b|
  {
    forall k | 0 <= k < |b| ensures s[12 + |a| + k] == b[k] {
      assert s[12 + |a| + k] == s[12 + |a|..12 + |a| + |b|][k];
    }
    SpaceThenWord(s, 11 + |a|, 12 + |a|, b);
  }

  /** The `}}` that closes the opening of a text of that shape. */
  lemma ShapeClose(s: string, a: string, b: string, body: string)
    requires BetweenShape(s, a, b, body)
    ensures StartsAt(s, 12 + |a| + |b|, CloseBraces)
  {
    assert Lower('}') == '}';
  }

  /** The body of a text of that shape runs to the `{{/between}}` after it. */
  lemma ShapeBody(s: string, a: string, b: string, body: string, i: nat, f: nat)
    requires !Occurs(body, EndBetween) && BetweenShape(s, a, b, body)
    requires i == 14 + |a| + |b| && f == i + |body|
    ensures IndexOfCI(s, i, EndBetween).Some? && IndexOfCI(s, i, EndBetween).value == f
  {
    var x, z := s[..i], s[f..];
    assert s == x + body + z by {
      assert s[i..f] == body;
      assert s == s[..i] + s[i..f] + s[f..];
    }
    assert StartsAt(z, 0, EndBetween) by {
      forall k | 0 <= k < |EndBetween| ensures z[k] == EndBetween[k] {
        assert z[k] == s[f + k] == s[f..26 + |a| + |b| + |body|][k];
      }
    }
    TagShapes();
    FirstTag(x, body, z, EndBetween, s, i);
  }

  /** MatchBetween on a text of that shape takes the whole directive. */
  lemma MatchBetweenShaped(s: string, a: string, b: string, body: string)
    requires Word(a) && Word(b) && !Occurs(body, EndBetween) && BetweenShape(s, a, b, body)
    ensures BetweenSpanIs(MatchBetween(s), a, b, body, 26 + |a| + |b| + |body|)
  {
    var d := 14 + |a| + |b|;
    ShapeFacts(s, a, b, body, d);
    PiecesMatch(s, a, b, body, 11 + |a|, 12 + |a|, 12 + |a| + |b|, d, d + |body|, 26 + |a| + |b| + |body|);
  }

  /** Where each piece of the pattern sits in a text of that shape. */
  lemma ShapeFacts(s: string, a: string, b: string, body: string, d: nat)
    requires Word(a) && Word(b) && !Occurs(body, EndBetween) && BetweenShape(s, a, b, body)
    requires d == 14 + |a| + |b|
    ensures d + |body| + |EndBetween| <= |s|
    ensures StartsAt(s, 0, BetweenOpen)
    ensures 10 + RunFrom(s, 10, IsWhite) == 11 && 11 + RunFrom(s, 11, IsWordChar) == 11 + |a|
    ensures 11 + |a| + RunFrom(s, 11 + |a|, IsWhite) == 12 + |a|
    ensures 12 + |a| + RunFrom(s, 12 + |a|, IsWordChar) == 12 + |a| + |b|
    ensures StartsAt(s, 12 + |a| + |b|, CloseBraces)
    ensures IndexOfCI(s, d, EndBetween).Some? && IndexOfCI(s, d, EndBetween).value == d + |body|
  {
    ShapeOpen(s, a, b, body);
    ShapeFirst(s, a, b, body);
    ShapeSecond(s, a, b, body);
    ShapeClose(s, a, b, body);
    ShapeBody(s, a, b, body, d, d + |body|);
  }

  /** The pattern matches once each piece has been located. */
  lemma PiecesMatch(s: string, a: string, b: string, body: string, m: nat, n: nat, c: nat, d: nat, f: nat, len: nat)
    requires 11 < m && n == m + 1 && n < c
    requires d == c + 2 && d <= f && f + |EndBetween| <= |s|
    requires StartsAt(s, 0, BetweenOpen)
    requires 10 + RunFrom(s, 10, IsWhite) == 11 && 11 + RunFrom(s, 11, IsWordChar) == m
    requires m + RunFrom(s, m, IsWhite) == n && n + RunFrom(s, n, IsWordChar) == c
    requires StartsAt(s, c, CloseBraces)
    requires IndexOfCI(s, d, EndBetween).Some? && IndexOfCI(s, d, EndBetween).value == f
    requires a == s[11..m] && b == s[n..c] && body == s[d..f] && len == f + |EndBetween|
    ensures BetweenSpanIs(MatchBetween(s), a, b, body, len)
  {
    PiecesTail(s, c, d, f);
    PiecesKeys(s, m, n, c);
    PiecesRun(s, m, n, c, d, f);
  }

  /** The pattern after the two keys: `}}`, then everything up to the first `{{/between}}`. */
  const BetweenTail: Pattern := Then(Text(CloseBraces), Then(Upto(EndBetween), Done))

  /** The pattern after `{{#between`: two blank-led keys, then the tail. */
  const BetweenKeys: Pattern := Then(Blanks, Then(Key, Then(Blanks, Then(Key, BetweenTail))))

  /** The tail matches when `}}` sits at `c` and `{{/between}}` is first found at `f`. */
  lemma PiecesTail(s: string, c: nat, d: nat, f: nat)
    requires d == c + |CloseBraces| && d <= |s| && StartsAt(s, c, CloseBraces)
    requires IndexOfCI(s, d, EndBetween).Some? && IndexOfCI(s, d, EndBetween).value == f
    ensures MatchPieces(s, c, BetweenTail).Some?
    ensures MatchPieces(s, c, BetweenTail).value.0 == [s[d..f]]
    ensures MatchPieces(s, c, BetweenTail).value.1 == f + |EndBetween|
  {
    TextThenUpto(s, c, d, f, CloseBraces, EndBetween);
  }

  /** A literal, then everything up to a tag. */
  lemma TextThenUpto(s: string, c: nat, d: nat, f: nat, t: string, u: string)
    requires d == c + |t| && d <= |s| && StartsAt(s, c, t)
    requires IndexOfCI(s, d, u).Some? && IndexOfCI(s, d, u).value == f
    ensures MatchPieces(s, c, Then(Text(t), Then(Upto(u), Done))).Some?
    ensures MatchPieces(s, c, Then(Text(t), Then(Upto(u), Done))).value.0 == [s[d..f]]
    ensures MatchPieces(s, c, Then(Text(t), Then(Upto(u), Done))).value.1 == f + |u|
  {
    TextStep(s, c, t, Then(Upto(u), Done));
    UptoLast(s, d, f, u);
  }

  /** A lazy piece that ends the pattern captures up to the tag and stops after it. */
  lemma UptoLast(s: string, i: nat, f: nat, t: string)
    requires i <= |s| && IndexOfCI(s, i, t).Some? && IndexOfCI(s, i, t).value == f
    ensures MatchPieces(s, i, Then(Upto(t), Done)).Some?
    ensures MatchPieces(s, i, Then(Upto(t), Done)).value.0 == [s[i..f]]
    ensures MatchPieces(s, i, Then(Upto(t), Done)).value.1 == f + |t|
  {
    UptoStep(s, i, f, t, Done);
    assert [s[i..f]] + [] == [s[i..f]];
  }

  /** The keys are the word runs after the single blanks at 10 and at `m`. */
  lemma PiecesKeys(s: string, m: nat, n: nat, c: nat)
    requires 11 < m && n == m + 1 && n < c <= |s|
    requires 10 + RunFrom(s, 10, IsWhite) == 11 && 11 + RunFrom(s, 11, IsWordChar) == m
    requires m + RunFrom(s, m, IsWhite) == n && n + RunFrom(s, n, IsWordChar) == c
    ensures MatchPieces(s, 10, BetweenKeys)
         == Capture(s[11..m], Capture(s[n..c], MatchPieces(s, c, BetweenTail)))
  {
    var k2 := Then(Key, BetweenTail);
    var b2 := Then(Blanks, k2);
    var k1 := Then(Key, b2);
    BlanksStep(s, 10, 11, k1);
    KeyStep(s, 11, m, b2);
    BlanksStep(s, m, n, k2);
    KeyStep(s, n, c, BetweenTail);
  }

  /** The whole pattern, from the two facts above. */
  lemma PiecesRun(s: string, m: nat, n: nat, c: nat, d: nat, f: nat)
    requires 11 < m < n < c <= d <= f && f + |EndBetween| <= |s| && StartsAt(s, 0, BetweenOpen)
    requires MatchPieces(s, c, BetweenTail).Some?
    requires MatchPieces(s, c, BetweenTail).value.0 == [s[d..f]]
    requires MatchPieces(s, c, BetweenTail).value.1 == f + |EndBetween|
    requires MatchPieces(s, 10, BetweenKeys)
          == Capture(s[11..m], Capture(s[n..c], MatchPieces(s, c, BetweenTail)))
    ensures BetweenSpanIs(MatchBetween(s), s[11..m], s[n..c], s[d..f], f + |EndBetween|)
  {
    assert BetweenPattern == Then(Text(BetweenOpen), BetweenKeys);
    TextStep(s, 0, BetweenOpen, BetweenKeys);
  }

  /** `{{#between a b}}body{{/between}}`, followed by anything, has that shape. */
  lemma DirectiveShape(a: string, b: string, body: string, r: string)
    ensures BetweenShape(BetweenDirective(a, b, body) + r, a, b, body)
  {
    var s := BetweenDirective(a, b, body) + r;
    var p1 := "{{#between " + a;
    var p2 := p1 + " " + b;
    var p3 := p2 + "}}";
    var p4 := p3 + body;
    var p5 := p4 + EndBetween;
    assert s == p5 + r;
    assert s[..11] == p1[..11];
    assert s[11..11 + |a|] == p1[11..];
    assert s[12 + |a|..12 + |a| + |b|] == p2[12 + |a|..];
    assert s[14 + |a| + |b|..14 + |a| + |b| + |body|] == p4[|p3|..];
    assert s[14 + |a| + |b| + |body|..26 + |a| + |b| + |body|] == p5[|p4|..];
  }

  /**
   * A between-span, after text in which no between-span starts, is replaced by its body when both keys
   * hold non-null values and by nothing otherwise; its body is not scanned again.
   */
  lemma BetweenSpanReplaced(p: string, a: string, b: string, body: string, r: string, values: ValueMap)
    requires NoBetweenSpanIn(p, BetweenDirective(a, b, body) + r) && Word(a) && Word(b) && !Occurs(body, EndBetween)
    ensures BetweenPass(p + BetweenDirective(a, b, body) + r, values)
         == p + (if HasBetween(values, a, b) then body else []) + BetweenPass(r, values)
  {
    var d := BetweenDirective(a, b, body);
    assert p + d + r == p + (d + r);
    BetweenPassFrame(p, d + r, values);
    DirectiveShape(a, b, body, r);
    MatchBetweenShaped(d + r, a, b, body);
    BetweenPassSpan(d + r, BetweenSpan(a, b, body, |d|), values);
    assert (d + r)[|d|..] == r;
    var kept := if HasBetween(values, a, b) then body else [];
    assert p + (kept + BetweenPass(r, values)) == p + kept + BetweenPass(r, values);
  }
}
