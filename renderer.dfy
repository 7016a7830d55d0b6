/**
 * FormatarSql.Render: the if-pass, then the between-pass, then the clean-up,
 * each rebinding the SQL text in turn. An error raised while an if-condition is
 * evaluated ends the call.
 */
module Renderer {
  import opened Wrappers
  import opened Chars
  import opened Values
  import opened Expressions
  import opened Directives
  import opened Normalizer
  import opened DirectiveLaws
  import opened NormalizerLaws
  import opened MatchLaws
  import opened ExpressionLaws

  /** What Render returns for a template and the values of a model. */
  function Rendered(template: string, values: ValueMap, host: Host): (r: Result<string, EvalError>)
    ensures r.Err? ==> IfPass(template, values, host) == Err(r.error)
    ensures r.Ok? ==> |r.value| <= |template|
  {
    IfPassShrinks(template, values, host);
    match IfPass(template, values, host)
    case Err(e) => Err(e)
    case Ok(sql) =>
      BetweenPassShrinks(sql, values);
      Ok(Normalize(BetweenPass(sql, values)))
  }

  /** Render: the three passes one after another over the same text. */
  method Render(template: string, values: ValueMap, host: Host) returns (r: Result<string, EvalError>)
    ensures r == Rendered(template, values, host)
    ensures r.Err? <==> IfPass(template, values, host).Err?
    ensures r.Err? ==> r.error == IfPass(template, values, host).error
    ensures r.Ok? ==> Normalized(r.value)
    ensures r.Ok? ==> r.value == Normalize(BetweenPass(IfPass(template, values, host).value, values))
  {
    var pass := IfPass(template, values, host);
    if pass.Err? {
      return Err(pass.error);
    }
    var sql := pass.value;
    sql := BetweenPass(sql, values);
    sql := NormalizeSql(sql);
    return Ok(sql);
  }

  /**
   * FormatarSql.Normalize: the three replacements and the trim, each rebinding the
   * text in turn. The result has the normalized shape and keeps every character
   * that is not white space, in order.
   */
  method NormalizeSql(sql: string) returns (r: string)
    ensures r == Normalize(sql)
    ensures Normalized(r)
    ensures Ink(r) == Ink(sql)
    ensures r == [] <==> Blank(sql)
  {
    r := CollapseBlanks(sql);
    r := TrimLineEnds(r);
    r := TrimLineStarts(r);
    r := Trim(r);
    NormalizeNormalizes(sql);
    NormalizeInk(sql);
    NormalizeEmpty(sql);
  }

  /** The output of a render keeps its shape when cleaned up again. */
  lemma RenderedIsNormalized(template: string, values: ValueMap, host: Host)
    ensures Rendered(template, values, host).Ok? ==> Normalized(Rendered(template, values, host).value)
    ensures Rendered(template, values, host).Ok? ==>
      Normalize(Rendered(template, values, host).value) == Rendered(template, values, host).value
  {
    var pass := IfPass(template, values, host);
    if pass.Ok? {
      var t := BetweenPass(pass.value, values);
      NormalizeNormalizes(t);
      NormalizeIdempotent(t);
    }
  }

  // ---------------------------------------------------------------------------
  // Text without directives
  // ---------------------------------------------------------------------------

  /** A pattern that starts with `{` occurs nowhere in text without `{`. */
  lemma BraceFree(x: string, pat: string)
    requires '{' !in x && pat != [] && pat[0] == '{'
    ensures !Occurs(x, pat)
  {
    LowerBraces();
    forall j | 0 <= j <= |x| ensures !StartsAt(x, j, pat) {
      if j < |x| {
        assert Lower(x[j]) != '{';
      }
    }
  }

  /** Both passes copy text without `{`. */
  lemma PassesCopy(x: string, values: ValueMap, host: Host)
    requires '{' !in x
    ensures IfPass(x, values, host) == Ok(x)
    ensures BetweenPass(x, values) == x
  {
    assert x + [] == x;
    BraceFreeNoSpan(x, []);
    IfPassFrame(x, [], values, host);
    BetweenPassFrame(x, [], values);
  }

  /**
   * A template in which neither directive can match, because it lacks the opener or
   * the closer of each, is only cleaned up.
   */
  lemma RenderWithoutDirectives(template: string, values: ValueMap, host: Host)
    requires !Occurs(template, IfOpen) || !Occurs(template, EndIf)
    requires !Occurs(template, BetweenOpen) || !Occurs(template, EndBetween)
    ensures Rendered(template, values, host) == Ok(Normalize(template))
  {
    IfPassIdentity(template, values, host);
    BetweenPassIdentity(template, values);
  }

  /** A template without `{` is only cleaned up. */
  lemma RenderPlain(template: string, values: ValueMap, host: Host)
    requires '{' !in template
    ensures Rendered(template, values, host) == Ok(Normalize(template))
  {
    PassesCopy(template, values, host);
  }

  // ---------------------------------------------------------------------------
  // One if-block
  // ---------------------------------------------------------------------------

  /**
   * A template holding one `{{#if e}}body{{/if}}` and no other `{`: the body is
   * kept exactly when the condition holds, and an error in the condition is the
   * error of the render.
   */
  lemma RenderIfBlock(p: string, e: string, body: string, r: string, values: ValueMap, host: Host)
    requires '{' !in p && '{' !in body && '{' !in r && ExprText(e)
    ensures var cond := Evaluate(Trim(e), values, host);
      && (cond.Err? ==> Rendered(p + IfDirective(e, body) + r, values, host) == Err(cond.error))
      && (cond.Ok? ==> Rendered(p + IfDirective(e, body) + r, values, host)
                       == Ok(Normalize(p + (if cond.value then body else []) + r)))
  {
    BraceFree(body, ElseTag);
    BraceFree(body, EndIf);
    BraceFreeNoSpan(p, IfDirective(e, body) + r);
    IfSpanReplaced(p, e, body, r, values, host);
    PassesCopy(r, values, host);
    var cond := Evaluate(Trim(e), values, host);
    if cond.Ok? {
      var kept := p + (if cond.value then body else []) + r;
      assert '{' !in kept;
      PassesCopy(kept, values, host);
    }
  }

  /** The same with an else-branch: exactly one of the two bodies is kept. */
  lemma RenderIfElseBlock(p: string, e: string, body: string, els: string, r: string, values: ValueMap, host: Host)
    requires '{' !in p && '{' !in body && '{' !in els && '{' !in r && ExprText(e)
    ensures var cond := Evaluate(Trim(e), values, host);
      && (cond.Err? ==> Rendered(p + IfElseDirective(e, body, els) + r, values, host) == Err(cond.error))
      && (cond.Ok? ==> Rendered(p + IfElseDirective(e, body, els) + r, values, host)
                       == Ok(Normalize(p + (if cond.value then body else els) + r)))
  {
    BraceFree(body, ElseTag);
    BraceFree(body, EndIf);
    BraceFree(els, EndIf);
    BraceFreeNoSpan(p, IfElseDirective(e, body, els) + r);
    IfElseSpanReplaced(p, e, body, els, r, values, host);
    PassesCopy(r, values, host);
    var cond := Evaluate(Trim(e), values, host);
    if cond.Ok? {
      var kept := p + (if cond.value then body else els) + r;
      assert '{' !in kept;
      PassesCopy(kept, values, host);
    }
  }

  // ---------------------------------------------------------------------------
  // One between-block
  // ---------------------------------------------------------------------------

  /** A word has no `{`. */
  lemma WordBraceFree(w: string)
    requires Word(w)
    ensures '{' !in w
  {
    assert forall i :: 0 <= i < |w| ==> IsWordChar(w[i]);
  }

  /**
   * A tag that starts with `{{` does not occur in text whose only `{` are two
   * pairs, when the two characters after each pair differ from the tag's next two.
   */
  lemma NoTagBetweenPairs(p: string, m: string, n: string, pat: string)
    requires '{' !in p && '{' !in m && '{' !in n && |m| >= 2 && |n| >= 2
    requires |pat| >= 4 && pat[0] == '{' && pat[1] == '{'
    requires Lower(m[0]) != Lower(pat[2]) || Lower(m[1]) != Lower(pat[3])
    requires Lower(n[0]) != Lower(pat[2]) || Lower(n[1]) != Lower(pat[3])
    ensures !Occurs(p + "{{" + m + "{{" + n, pat)
  {
    var s := p + "{{" + m + "{{" + n;
    var a := |p| + 2;
    var b := a + |m| + 2;
    assert forall j :: 0 <= j < |p| ==> s[j] == p[j];
    assert s[|p|] == '{' && s[|p| + 1] == '{';
    assert forall j :: a <= j < a + |m| ==> s[j] == m[j - a];
    assert s[b - 2] == '{' && s[b - 1] == '{';
    assert forall j :: b <= j < |s| ==> s[j] == n[j - b];
    LowerBraces();
    forall j | 0 <= j <= |s| ensures !StartsAt(s, j, pat) {
      if j + |pat| <= |s| {
        if j == |p| {
          assert s[j + 2] == m[0] && s[j + 3] == m[1];
        } else if j == |p| + 1 {
          assert Lower(s[j + 1]) != Lower(pat[1]);
        } else if j == b - 2 {
          assert s[j + 2] == n[0] && s[j + 3] == n[1];
        } else if j == b - 1 {
          assert Lower(s[j + 1]) != Lower(pat[1]);
        } else {
          assert Lower(s[j]) != Lower(pat[0]);
        }
      }
    }
  }

  /** The if-pass leaves a between-block alone. */
  lemma IfPassSkipsBetween(p: string, a: string, b: string, body: string, r: string, values: ValueMap, host: Host)
    requires '{' !in p && '{' !in body && '{' !in r && Word(a) && Word(b)
    ensures IfPass(p + BetweenDirective(a, b, body) + r, values, host) == Ok(p + BetweenDirective(a, b, body) + r)
  {
    var m := "#between " + a + " " + b + "}}" + body;
    var n := "/between}}" + r;
    BetweenPairs(p, a, b, body, r, m, n);
    NoTagBetweenPairs(p, m, n, IfOpen);
    IfPassIdentity(p + BetweenDirective(a, b, body) + r, values, host);
  }

  /** A between-block is two `{{` pairs, the first before `#between`, the second before `/between`. */
  lemma BetweenPairs(p: string, a: string, b: string, body: string, r: string, m: string, n: string)
    requires '{' !in body && '{' !in r && Word(a) && Word(b)
    requires m == "#between " + a + " " + b + "}}" + body && n == "/between}}" + r
    ensures p + BetweenDirective(a, b, body) + r == p + "{{" + m + "{{" + n
    ensures '{' !in m && '{' !in n
    ensures |m| >= 2 && m[0] == '#' && m[1] == 'b' && |n| >= 2 && n[0] == '/' && n[1] == 'b'
  {
    WordBraceFree(a);
    WordBraceFree(b);
    var o := "#between ";
    assert "{{#between " == "{{" + o;
    Assoc("{{", o, a);
    Assoc("{{", o + a, " ");
    Assoc("{{", o + a + " ", b);
    Assoc("{{", o + a + " " + b, "}}");
    Assoc("{{", o + a + " " + b + "}}", body);
    assert EndBetween == "{{" + "/between}}";
    Assoc("{{" + m, "{{", "/between}}");
    Assoc("{{" + m + "{{", "/between}}", r);
    assert BetweenDirective(a, b, body) + r == "{{" + m + "{{" + n;
    Assoc(p, BetweenDirective(a, b, body), r);
    Assoc(p, "{{" + m + "{{", n);
    Assoc(p, "{{" + m, "{{");
    Assoc(p, "{{", m);
  }

  /** Concatenation is associative. */
  lemma Assoc(x: string, y: string, z: string)
    ensures (x + y) + z == x + (y + z)
  {
  }

  /**
   * A template holding one `{{#between a b}}body{{/between}}` and no other `{`:
   * the body is kept exactly when both keys hold non-null values.
   */
  lemma RenderBetweenBlock(p: string, a: string, b: string, body: string, r: string, values: ValueMap, host: Host)
    requires '{' !in p && '{' !in body && '{' !in r && Word(a) && Word(b)
    ensures Rendered(p + BetweenDirective(a, b, body) + r, values, host)
         == Ok(Normalize(p + (if HasBetween(values, a, b) then body else []) + r))
  {
    IfPassSkipsBetween(p, a, b, body, r, values, host);
    BraceFree(body, EndBetween);
    BraceFreeNoSpan(p, BetweenDirective(a, b, body) + r);
    BetweenSpanReplaced(p, a, b, body, r, values);
    PassesCopy(r, values, host);
  }

  // ---------------------------------------------------------------------------
  // A between-block inside an if-block
  // ---------------------------------------------------------------------------

  /** A between-block, with text around it that has no `{`, holds neither `{{#else}}` nor `{{/if}}`. */
  lemma BetweenNoIfTags(q: string, a: string, b: string, bb: string, w: string)
    requires '{' !in q && '{' !in bb && '{' !in w && Word(a) && Word(b)
    ensures NoIfTags(q + BetweenDirective(a, b, bb) + w)
  {
    var m := "#between " + a + " " + b + "}}" + bb;
    var n := "/between}}" + w;
    BetweenPairs(q, a, b, bb, w, m, n);
    NoTagBetweenPairs(q, m, n, ElseTag);
    NoTagBetweenPairs(q, m, n, EndIf);
  }

  /**
   * The passes run in order: an if-block whose body holds a between-block keeps
   * the body, and the between-pass then decides the inner block; when the
   * condition fails the inner block goes with the body.
   */
  lemma RenderIfWithBetween(p: string, e: string, q: string, a: string, b: string, bb: string, w: string, r: string,
                            values: ValueMap, host: Host)
    requires '{' !in p && '{' !in q && '{' !in bb && '{' !in w && '{' !in r
    requires Word(a) && Word(b) && ExprText(e)
    ensures var t, cond := p + IfDirective(e, q + BetweenDirective(a, b, bb) + w) + r, Evaluate(Trim(e), values, host);
      && (cond.Err? ==> Rendered(t, values, host) == Err(cond.error))
      && (cond == Ok(true) ==>
            Rendered(t, values, host) == Ok(Normalize(p + q + (if HasBetween(values, a, b) then bb else []) + w + r)))
      && (cond == Ok(false) ==> Rendered(t, values, host) == Ok(Normalize(p + r)))
  {
    var t := p + IfDirective(e, q + BetweenDirective(a, b, bb) + w) + r;
    IfPassOverBetween(p, e, q, a, b, bb, w, r, values, host);
    var cond := Evaluate(Trim(e), values, host);
    if cond.Err? {
      RenderedFails(t, cond.error, values, host);
    } else if cond == Ok(true) {
      var sql := p + (q + BetweenDirective(a, b, bb) + w) + r;
      BetweenInKeptBody(p, q, a, b, bb, w, r, values);
      RenderedInOrder(t, sql, p + q + (if HasBetween(values, a, b) then bb else []) + w + r, values, host);
    } else if cond == Ok(false) {
      PassesCopy(p + r, values, host);
      RenderedInOrder(t, p + r, p + r, values, host);
    }
  }

  /** When the if-pass raises, the render raises the same error. */
  lemma RenderedFails(t: string, err: EvalError, values: ValueMap, host: Host)
    requires IfPass(t, values, host) == Err(err)
    ensures Rendered(t, values, host) == Err(err)
  {
  }

  /** When the if-pass yields `sql` and the between-pass turns it into `out`, the render is `out` cleaned up. */
  lemma RenderedInOrder(t: string, sql: string, out: string, values: ValueMap, host: Host)
    requires IfPass(t, values, host) == Ok(sql) && BetweenPass(sql, values) == out
    ensures Rendered(t, values, host) == Ok(Normalize(out))
  {
  }

  /** The if-pass over an if-block around a between-block: the whole body or nothing. */
  lemma IfPassOverBetween(p: string, e: string, q: string, a: string, b: string, bb: string, w: string, r: string,
                          values: ValueMap, host: Host)
    requires '{' !in p && '{' !in q && '{' !in bb && '{' !in w && '{' !in r
    requires Word(a) && Word(b) && ExprText(e)
    ensures var body, cond := q + BetweenDirective(a, b, bb) + w, Evaluate(Trim(e), values, host);
      && (cond.Err? ==> IfPass(p + IfDirective(e, body) + r, values, host) == Err(cond.error))
      && (cond == Ok(true) ==> IfPass(p + IfDirective(e, body) + r, values, host) == Ok(p + body + r))
      && (cond == Ok(false) ==> IfPass(p + IfDirective(e, body) + r, values, host) == Ok(p + r))
  {
    var body := q + BetweenDirective(a, b, bb) + w;
    BetweenNoIfTags(q, a, b, bb, w);
    BraceFreeNoSpan(p, IfDirective(e, body) + r);
    IfSpanReplaced(p, e, body, r, values, host);
    PassesCopy(r, values, host);
    EmptyMiddle(p, r);
  }

  /** Nothing between two pieces leaves their concatenation. */
  lemma EmptyMiddle(p: string, r: string)
    ensures p + [] + r == p + r
  {
  }

  /** The between-pass over a kept body that holds a between-block. */
  lemma BetweenInKeptBody(p: string, q: string, a: string, b: string, bb: string, w: string, r: string, values: ValueMap)
    requires '{' !in p && '{' !in q && '{' !in bb && '{' !in w && '{' !in r && Word(a) && Word(b)
    ensures BetweenPass(p + (q + BetweenDirective(a, b, bb) + w) + r, values)
         == p + q + (if HasBetween(values, a, b) then bb else []) + w + r
  {
    var d := BetweenDirective(a, b, bb);
    var kept := if HasBetween(values, a, b) then bb else [];
    Regroup(p, q, d, w, r);
    Regroup(p, q, kept, w, r);
    BraceFreeNoSpan(p + q, d + (w + r));
    BraceFree(bb, EndBetween);
    BetweenSpanReplaced(p + q, a, b, bb, w + r, values);
    assert (w + r) + [] == w + r;
    BraceFreeNoSpan(w + r, []);
    BetweenPassFrame(w + r, [], values);
  }

  /** Five pieces grouped two ways. */
  lemma Regroup(p: string, q: string, d: string, w: string, r: string)
    ensures p + (q + d + w) + r == (p + q) + d + (w + r)
    ensures p + q + d + w + r == (p + q) + d + (w + r)
  {
  }

  // ---------------------------------------------------------------------------
  // A worked example
  // ---------------------------------------------------------------------------

  /** The if-else template of the worked example, with nothing after it. */
  function StatusTemplate(): string
  {
    "SELECT * " + IfElseDirective("status == 'active'", "WHERE status='active'", "WHERE 1=1") + ""
  }

  /** The condition of the worked example, taken apart into its tokens. */
  lemma StatusTokens()
    ensures "status" + " == '" + "active" + "'" == "status == 'active'"
    ensures "status" + " " + "==" + " " + "'active'" == "status == 'active'"
    ensures PlainKey("status") && IsToken("==") && IsToken("'active'")
    ensures QuotableText("active") && NoOuterWhite("status == 'active'") && ExprText("status == 'active'")
  {
    var e := "status == 'active'";
    assert forall i :: 0 <= i < |e| ==> e[i] != '\n' && e[i] != '}';
  }

  /** The pieces of the worked example's template hold no `{`. */
  lemma StatusPieces()
    ensures '{' !in "SELECT * " && '{' !in "WHERE status='active'" && '{' !in "WHERE 1=1" && '{' !in ""
  {
  }

  /** The worked example's two outputs are its prefix followed by one of the bodies. */
  lemma StatusJoins()
    ensures "SELECT * " + "WHERE status='active'" + "" == "SELECT * WHERE status='active'"
    ensures "SELECT * " + "WHERE 1=1" + "" == "SELECT * WHERE 1=1"
  {
  }

  /** `status == 'active'` holds for the text `active`. */
  lemma ActiveCondition(host: Host)
    requires OrderedHost(host)
    ensures Evaluate(Trim("status == 'active'"), map["status" := Str("active")], host) == Ok(true)
  {
    StatusTokens();
    var values := map["status" := Str("active")];
    assert Lookup(values, "status") == Str("active");
    TrimmedTextEquality("status == 'active'", "status", "active", values, host);
  }

  /** A condition `k == 't'` with nothing around it holds when the property `k` is the text `t`. */
  lemma TrimmedTextEquality(e: string, k: string, t: string, values: ValueMap, host: Host)
    requires e == k + " == '" + t + "'" && NoOuterWhite(e)
    requires PlainKey(k) && Lookup(values, k) == Str(t) && OrderedHost(host) && QuotableText(t)
    ensures Evaluate(Trim(e), values, host) == Ok(true)
  {
    TrimFixed(e);
    TextEquality(k, t, values, host);
  }

  /** `status == 'active'` fails when there is no status. */
  lemma AbsentCondition(host: Host)
    ensures Evaluate(Trim("status == 'active'"), map[], host) == Ok(false)
  {
    StatusTokens();
    TrimFixed("status == 'active'");
    ComparisonWithNull("status", "==", "'active'", map[], host);
  }

  /** The kept branch of the worked example is already clean. */
  lemma ActiveOutput()
    ensures Normalized("SELECT * WHERE status='active'")
  {
    var s := "SELECT * WHERE status='active'";
    forall i | 0 < i < |s|
      ensures !(s[i] == ' ' && s[i - 1] == ' ') && (s[i] == '\n' ==> !IsWhite(s[i - 1]))
      ensures s[i - 1] == '\n' ==> !IsWhite(s[i])
    {
    }
  }

  /** The else-branch of the worked example is already clean. */
  lemma FallbackOutput()
    ensures Normalized("SELECT * WHERE 1=1")
  {
    var t := "SELECT * WHERE 1=1";
    forall i | 0 < i < |t|
      ensures !(t[i] == ' ' && t[i - 1] == ' ') && (t[i] == '\n' ==> !IsWhite(t[i - 1]))
      ensures t[i - 1] == '\n' ==> !IsWhite(t[i])
    {
    }
  }

  /**
   * The worked example: with status `active` the WHERE clause of the if-branch
   * is kept, and with no status the else-branch is.
   */
  lemma StatusExample(host: Host)
    requires OrderedHost(host)
    ensures Rendered(StatusTemplate(), map["status" := Str("active")], host) == Ok("SELECT * WHERE status='active'")
    ensures Rendered(StatusTemplate(), map[], host) == Ok("SELECT * WHERE 1=1")
  {
    var e, body, els := "status == 'active'", "WHERE status='active'", "WHERE 1=1";
    StatusTokens();
    StatusPieces();
    StatusJoins();
    ActiveCondition(host);
    AbsentCondition(host);
    RenderIfElseBlock("SELECT * ", e, body, els, "", map["status" := Str("active")], host);
    RenderIfElseBlock("SELECT * ", e, body, els, "", map[], host);
    ActiveOutput();
    FallbackOutput();
    NormalizeFixed("SELECT * WHERE status='active'");
    NormalizeFixed("SELECT * WHERE 1=1");
  }
}
