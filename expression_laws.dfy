/**
 * What the expression language promises, stated over the text of an expression.
 * Tokens are the space-free words of the expression (IsToken).
 */
module ExpressionLaws {
  import opened Wrappers
  import opened Chars
  import opened Values
  import opened Expressions

  // ---------------------------------------------------------------------------
  // Tokenising expressions of one, two and three tokens
  // ---------------------------------------------------------------------------

  lemma Split1(a: string)
    requires IsToken(a)
    ensures SplitSpace(a) == [a]
  {
    SplitJoin([a]);
  }

  lemma Split2(a: string, b: string)
    requires IsToken(a) && IsToken(b)
    ensures SplitSpace(a + " " + b) == [a, b]
  {
    assert [a, b][1..] == [b];
    assert JoinSpace([a, b]) == a + " " + b;
    SplitJoin([a, b]);
  }

  lemma Split3(a: string, b: string, c: string)
    requires IsToken(a) && IsToken(b) && IsToken(c)
    ensures SplitSpace(a + " " + b + " " + c) == [a, b, c]
  {
    assert [a, b, c][1..] == [b, c];
    assert [b, c][1..] == [c];
    assert JoinSpace([b, c]) == b + " " + c;
    assert JoinSpace([a, b, c]) == a + " " + b + " " + c;
    SplitJoin([a, b, c]);
  }

  /** A plain key: a token that is not negated with `!`. */
  predicate PlainKey(k: string)
  {
    IsToken(k) && k[0] != '!'
  }

  lemma EvalOne(k: string, values: ValueMap, host: Host)
    requires IsToken(k)
    ensures Evaluate(k, values, host) == Ok(Truthy(GetValue(k, values)))
  {
    Split1(k);
  }

  lemma EvalTwo(k: string, op: string, values: ValueMap, host: Host)
    requires IsToken(k) && IsToken(op)
    ensures Evaluate(k + " " + op, values, host) == Predicate(GetValue(k, values), op)
  {
    Split2(k, op);
  }

  lemma EvalThree(k: string, op: string, lit: string, values: ValueMap, host: Host)
    requires IsToken(k) && IsToken(op) && IsToken(lit)
    ensures Evaluate(k + " " + op + " " + lit, values, host)
         == Compare(GetValue(k, values), Parse(lit), op, host)
  {
    Split3(k, op, lit);
  }

  /** A word without upper-case ASCII letters is its own lower-case form. */
  lemma LowerFixed(w: string)
    requires forall i :: 0 <= i < |w| ==> !('A' <= w[i] <= 'Z')
    ensures LowerAll(w) == w
  {
  }

  /** The two-token form with each recognised operator written in lower case. */
  lemma Predicates(v: Value)
    ensures Predicate(v, "notnull") == Ok(v != Null)
    ensures Predicate(v, "isnull") == Ok(v == Null)
    ensures Predicate(v, "notempty") == Ok(v.Str? && !Blank(v.s))
    ensures Predicate(v, "empty") == Ok(v == Null || (v.Str? && Blank(v.s)))
    ensures Predicate(v, "any") == Ok(HasAny(v))
  {
    LowerFixed("notnull");
    LowerFixed("isnull");
    LowerFixed("notempty");
    LowerFixed("empty");
    LowerFixed("any");
  }

  // ---------------------------------------------------------------------------
  // Arity and operators
  // ---------------------------------------------------------------------------

  /** Four tokens or more, and an expression of spaces only, are malformed. */
  lemma MalformedExpression(ts: seq<string>, values: ValueMap, host: Host)
    requires forall k :: 0 <= k < |ts| ==> IsToken(ts[k])
    requires |ts| == 0 || |ts| > 3
    ensures Evaluate(JoinSpace(ts), values, host) == Err(InvalidExpression(JoinSpace(ts)))
  {
    SplitJoin(ts);
  }

  /**
   * In the two-token form the operator is matched ignoring case, and any word other
   * than notnull, isnull, notempty, empty and any is an invalid operator.
   */
  lemma TwoTokenOperator(k: string, op: string, values: ValueMap, host: Host)
    requires IsToken(k) && IsToken(op)
    ensures Evaluate(k + " " + op, values, host).Err?
        <==> LowerAll(op) !in {"notnull", "isnull", "notempty", "empty", "any"}
    ensures Evaluate(k + " " + op, values, host).Err? ==>
        Evaluate(k + " " + op, values, host).error == InvalidOperator(op)
  {
    EvalTwo(k, op, values, host);
  }

  // ---------------------------------------------------------------------------
  // One token: truthiness and negation
  // ---------------------------------------------------------------------------

  /**
   * A bare key is false when absent or null, is the boolean itself, is true for a
   * string exactly when it is not blank, for an int or long exactly when it is not
   * zero, and is true for any other value (a decimal zero, an empty collection).
   */
  lemma OneTokenTruthiness(k: string, values: ValueMap, host: Host)
    requires PlainKey(k)
    ensures var r, v := Evaluate(k, values, host), Lookup(values, k);
      && r.Ok?
      && (v == Null ==> !r.value)
      && (v.Bool? ==> r.value == v.b)
      && (v.Str? ==> (r.value <==> !Blank(v.s)))
      && (v.Int? ==> (r.value <==> v.i != 0))
      && (v.Long? ==> (r.value <==> v.l != 0))
      && (v.Dec? || v.Coll? ==> r.value)
  {
    EvalOne(k, values, host);
  }

  /** Whatever a bare key holds, it is true only if the key is not null. */
  lemma TruthyImpliesNotNull(k: string, values: ValueMap, host: Host)
    requires PlainKey(k)
    requires Evaluate(k, values, host) == Ok(true)
    ensures Evaluate(k + " notnull", values, host) == Ok(true)
  {
    EvalOne(k, values, host);
    assert k + " notnull" == k + " " + "notnull";
    EvalTwo(k, "notnull", values, host);
    Predicates(Lookup(values, k));
  }

  /** On a string value the bare key and `notempty` agree. */
  lemma TruthyStringIsNotEmpty(k: string, values: ValueMap, host: Host)
    requires PlainKey(k) && Lookup(values, k).Str?
    ensures Evaluate(k, values, host) == Evaluate(k + " notempty", values, host)
  {
    EvalOne(k, values, host);
    assert k + " notempty" == k + " " + "notempty";
    EvalTwo(k, "notempty", values, host);
    Predicates(Lookup(values, k));
  }

  /**
   * `!K` is true exactly when the value of K is not the boolean true: an absent
   * key, a value of another type and false all give true.
   */
  lemma NegatedKey(k: string, values: ValueMap, host: Host)
    requires IsToken(k)
    ensures Evaluate("!" + k, values, host) == Ok(Lookup(values, k) != Bool(true))
  {
    assert ("!" + k)[1..] == k;
    EvalOne("!" + k, values, host);
  }

  /** On a boolean value `!K` is the negation of `K`. */
  lemma NegationOfBoolean(k: string, b: bool, values: ValueMap, host: Host)
    requires PlainKey(k) && Lookup(values, k) == Bool(b)
    ensures Evaluate(k, values, host) == Ok(b)
    ensures Evaluate("!" + k, values, host) == Ok(!b)
  {
    EvalOne(k, values, host);
    NegatedKey(k, values, host);
  }

  /** On an absent key `K` is false and `!K` is true. */
  lemma NegationOfAbsent(k: string, values: ValueMap, host: Host)
    requires PlainKey(k) && k !in values
    ensures Evaluate(k, values, host) == Ok(false)
    ensures Evaluate("!" + k, values, host) == Ok(true)
  {
    EvalOne(k, values, host);
    NegatedKey(k, values, host);
  }

  /**
   * In the two-token form a `!K` left side is always a non-null boolean: it is
   * never null, never a string and never enumerable.
   */
  lemma NegatedKeyWithPredicate(k: string, values: ValueMap, host: Host)
    requires IsToken(k)
    ensures Evaluate("!" + k + " notnull", values, host) == Ok(true)
    ensures Evaluate("!" + k + " isnull", values, host) == Ok(false)
  {
    var nk := "!" + k;
    NegatedKeyIsBool(k, values);
    Predicates(GetValue(nk, values));
    assert nk + " notnull" == nk + " " + "notnull";
    assert nk + " isnull" == nk + " " + "isnull";
    EvalTwo(nk, "notnull", values, host);
    EvalTwo(nk, "isnull", values, host);
  }

  /** The same left side is never empty and never holds any element. */
  lemma NegatedKeyWithContents(k: string, values: ValueMap, host: Host)
    requires IsToken(k)
    ensures Evaluate("!" + k + " notempty", values, host) == Ok(false)
    ensures Evaluate("!" + k + " empty", values, host) == Ok(false)
    ensures Evaluate("!" + k + " any", values, host) == Ok(false)
  {
    var nk := "!" + k;
    NegatedKeyIsBool(k, values);
    Predicates(GetValue(nk, values));
    assert nk + " notempty" == nk + " " + "notempty";
    assert nk + " empty" == nk + " " + "empty";
    assert nk + " any" == nk + " " + "any";
    EvalTwo(nk, "notempty", values, host);
    EvalTwo(nk, "empty", values, host);
    EvalTwo(nk, "any", values, host);
  }

  /** `!K` names a boolean, whatever `K` holds. */
  lemma NegatedKeyIsBool(k: string, values: ValueMap)
    ensures GetValue("!" + k, values).Bool?
  {
    var nk := "!" + k;
    assert nk[1..] == k;
  }

  // ---------------------------------------------------------------------------
  // Two tokens: the presence predicates
  // ---------------------------------------------------------------------------

  /** `notnull` holds exactly when the value is present, and `isnull` is its complement. */
  lemma NullChecks(k: string, values: ValueMap, host: Host)
    requires PlainKey(k)
    ensures Evaluate(k + " notnull", values, host) == Ok(Lookup(values, k) != Null)
    ensures Evaluate(k + " isnull", values, host) == Ok(Lookup(values, k) == Null)
  {
    Predicates(Lookup(values, k));
    assert k + " notnull" == k + " " + "notnull";
    assert k + " isnull" == k + " " + "isnull";
    EvalTwo(k, "notnull", values, host);
    EvalTwo(k, "isnull", values, host);
  }

  /**
   * `empty` means absent or a blank string, `notempty` means a string that is not
   * blank; the two are never both true, and on a string exactly one holds.
   */
  lemma EmptinessChecks(k: string, values: ValueMap, host: Host)
    requires PlainKey(k)
    ensures var e, n, v := Evaluate(k + " empty", values, host), Evaluate(k + " notempty", values, host), Lookup(values, k);
      && e.Ok? && n.Ok?
      && (e.value <==> v == Null || (v.Str? && Blank(v.s)))
      && (n.value <==> v.Str? && !Blank(v.s))
      && !(e.value && n.value)
      && (v.Str? ==> e.value != n.value)
  {
    Predicates(Lookup(values, k));
    assert k + " empty" == k + " " + "empty";
    assert k + " notempty" == k + " " + "notempty";
    EvalTwo(k, "empty", values, host);
    EvalTwo(k, "notempty", values, host);
  }

  /**
   * `any` holds only for a non-null enumerable with an element; strings are
   * enumerable, so the empty string gives false.
   */
  lemma AnyCheck(k: string, values: ValueMap, host: Host)
    requires PlainKey(k)
    ensures var v := Lookup(values, k);
      Evaluate(k + " any", values, host) == Ok((v.Str? && v.s != []) || (v.Coll? && v.items != []))
    ensures Lookup(values, k) == Str("") ==> Evaluate(k + " any", values, host) == Ok(false)
  {
    Predicates(Lookup(values, k));
    assert k + " any" == k + " " + "any";
    EvalTwo(k, "any", values, host);
  }

  // ---------------------------------------------------------------------------
  // Three tokens: comparisons
  // ---------------------------------------------------------------------------

  /**
   * Against an absent left value or the literal `null` a comparison is false and
   * raises nothing, whatever the operator, even one that is not recognised.
   */
  lemma ComparisonWithNull(k: string, op: string, lit: string, values: ValueMap, host: Host)
    requires IsToken(k) && IsToken(op) && IsToken(lit)
    requires (k[0] != '!' && Lookup(values, k) == Null) || lit == "null"
    ensures Evaluate(k + " " + op + " " + lit, values, host) == Ok(false)
  {
    EvalThree(k, op, lit, values, host);
  }

  /** The outcome with its truth value inverted; an error stays the same error. */
  function Negated(r: Result<bool, EvalError>): (n: Result<bool, EvalError>)
    ensures n.Ok? == r.Ok? && (r.Ok? ==> n.value == !r.value)
    ensures r.Err? ==> n == r
  {
    if r.Ok? then Ok(!r.value) else r
  }

  /** The recognised comparison operators. */
  lemma Operators(c: int)
    ensures ApplyOperator("==", c) == Ok(c == 0) && ApplyOperator("!=", c) == Ok(c != 0)
    ensures ApplyOperator(">", c) == Ok(c > 0) && ApplyOperator("<=", c) == Ok(c <= 0)
    ensures ApplyOperator("<", c) == Ok(c < 0) && ApplyOperator(">=", c) == Ok(c >= 0)
  {
    assert "!=" != "==";
    assert "<=" != "==" && "<=" != "!=" && "<=" != ">" && "<=" != "<" && "<=" != ">=";
    assert ">=" != "==" && ">=" != "!=" && ">=" != ">" && ">=" != "<";
    assert "<" != "==" && "<" != "!=" && "<" != ">";
    assert ">" != "==" && ">" != "!=";
  }

  /** On two comparable values, `!=`, `<=` and `>=` invert `==`, `>` and `<`. */
  lemma CompareComplements(left: Value, right: Value, host: Host)
    requires Comparable(left) && Comparable(right)
    ensures Compare(left, right, "!=", host) == Negated(Compare(left, right, "==", host))
    ensures Compare(left, right, "<=", host) == Negated(Compare(left, right, ">", host))
    ensures Compare(left, right, ">=", host) == Negated(Compare(left, right, "<", host))
  {
    match Order(left, right, host)
    case None =>
    case Some(c) => Operators(c);
  }

  /** `neg` is the operator that negates `op`: `!=` for `==`, `<=` for `>`, `>=` for `<`. */
  predicate ComplementOperators(op: string, neg: string)
  {
    (op == "==" && neg == "!=") || (op == ">" && neg == "<=") || (op == "<" && neg == ">=")
  }

  /**
   * On a comparable left value and literal, `K != V`, `K <= V` and `K >= V` are the
   * negations of `K == V`, `K > V` and `K < V`; a conversion error is the same for both.
   */
  lemma ComparisonComplement(k: string, op: string, neg: string, lit: string, values: ValueMap, host: Host)
    requires IsToken(k) && IsToken(lit) && ComplementOperators(op, neg)
    requires Comparable(GetValue(k, values)) && Comparable(Parse(lit))
    ensures Evaluate(k + " " + neg + " " + lit, values, host)
         == Negated(Evaluate(k + " " + op + " " + lit, values, host))
  {
    EvalThree(k, op, lit, values, host);
    EvalThree(k, neg, lit, values, host);
    CompareComplements(GetValue(k, values), Parse(lit), host);
  }

  /**
   * An unrecognised three-token operator raises once it is reached: whenever both
   * sides are comparable and the literal converts to the left value's type.
   */
  lemma UnknownComparisonOperator(k: string, op: string, lit: string, values: ValueMap, host: Host)
    requires IsToken(k) && IsToken(op) && IsToken(lit) && op !in ComparisonOperators
    requires Comparable(GetValue(k, values)) && Comparable(Parse(lit))
    requires Order(GetValue(k, values), Parse(lit), host).Some?
    ensures Evaluate(k + " " + op + " " + lit, values, host) == Err(InvalidOperator(op))
  {
    EvalThree(k, op, lit, values, host);
  }

  /**
   * The conversion comes before the operator switch: a literal that cannot be
   * converted raises a conversion error whatever the operator, even an unknown one.
   */
  lemma ConversionBeforeOperator(k: string, op: string, lit: string, values: ValueMap, host: Host)
    requires IsToken(k) && IsToken(op) && IsToken(lit)
    requires Comparable(GetValue(k, values)) && Comparable(Parse(lit))
    requires Order(GetValue(k, values), Parse(lit), host).None?
    ensures Evaluate(k + " " + op + " " + lit, values, host) == Err(ConversionFailed)
  {
    EvalThree(k, op, lit, values, host);
  }

  // ---------------------------------------------------------------------------
  // The ordering of values
  // ---------------------------------------------------------------------------

  /** Two values of the same comparable kind. */
  predicate SameKind(x: Value, y: Value)
  {
    (x.Bool? && y.Bool?) || (x.Int? && y.Int?) || (x.Long? && y.Long?) || (x.Dec? && y.Dec?) || (x.Str? && y.Str?)
  }

  /**
   * With a well-behaved string ordering, two values of one kind always compare
   * without conversion, every value compares equal to itself, and swapping the
   * two sides flips the sign of the comparison.
   */
  lemma OrderLaws(x: Value, y: Value, host: Host)
    requires SameKind(x, y) && OrderedHost(host)
    ensures Order(x, x, host) == Some(0)
    ensures Order(x, y, host).Some? && Order(y, x, host).Some?
    ensures Order(x, y, host).value < 0 <==> Order(y, x, host).value > 0
    ensures Order(x, y, host).value == 0 <==> Order(y, x, host).value == 0
  {
  }

  /** The operator that tests the mirrored comparison: `>` for `<`, `>=` for `<=`, and so on. */
  function Mirror(op: string): (m: string)
    requires op in ComparisonOperators
    ensures m in ComparisonOperators
  {
    if op == ">" then "<" else if op == "<" then ">"
    else if op == ">=" then "<=" else if op == "<=" then ">=" else op
  }

  /**
   * Each operator tests only the sign of the comparison, and exactly one of `<`,
   * `==` and `>` holds.
   */
  lemma OperatorLaws(op: string, c: int, d: int)
    requires op in ComparisonOperators
    requires (c < 0 <==> d < 0) && (c == 0 <==> d == 0)
    ensures ApplyOperator(op, c) == ApplyOperator(op, d)
    ensures ApplyOperator("<", c).Ok? && ApplyOperator("==", c).Ok? && ApplyOperator(">", c).Ok?
    ensures [ApplyOperator("<", c).value, ApplyOperator("==", c).value, ApplyOperator(">", c).value]
            in {[true, false, false], [false, true, false], [false, false, true]}
  {
    Operators(c);
    Operators(d);
  }

  /**
   * `K op V` and `V op' K` agree when `op'` is the mirrored operator, on two values
   * of one kind under a well-behaved string ordering.
   */
  lemma CompareMirror(x: Value, y: Value, op: string, host: Host)
    requires SameKind(x, y) && OrderedHost(host) && op in ComparisonOperators
    ensures Compare(y, x, Mirror(op), host) == Compare(x, y, op, host)
  {
    OrderLaws(x, y, host);
    Operators(Order(x, y, host).value);
    Operators(Order(y, x, host).value);
  }

  /** Text that stays one token in quotes and loses nothing to the quote trim. */
  predicate QuotableText(t: string)
  {
    t != [] && ' ' !in t && t[0] != '\'' && t[|t| - 1] != '\''
  }

  /** A string property compared with the same text in quotes is equal, and not unequal. */
  lemma TextEquality(k: string, t: string, values: ValueMap, host: Host)
    requires PlainKey(k) && Lookup(values, k) == Str(t) && OrderedHost(host) && QuotableText(t)
    ensures Evaluate(k + " == '" + t + "'", values, host) == Ok(true)
    ensures Evaluate(k + " != '" + t + "'", values, host) == Ok(false)
  {
    var lit := QuotedToken(t);
    QuotedRegroup(k, t);
    EvalThree(k, "==", lit, values, host);
    EvalThree(k, "!=", lit, values, host);
    assert GetValue(k, values) == Str(t);
    SelfCompare(t, host);
  }

  lemma SelfCompare(t: string, host: Host)
    requires OrderedHost(host)
    ensures Compare(Str(t), Str(t), "==", host) == Ok(true)
    ensures Compare(Str(t), Str(t), "!=", host) == Ok(false)
  {
    assert Order(Str(t), Str(t), host) == Some(0);
  }

  /** `'t'` is one token, and it parses back to the text `t`. */
  lemma QuotedToken(t: string) returns (lit: string)
    requires t != [] && ' ' !in t && t[0] != '\'' && t[|t| - 1] != '\''
    ensures lit == "'" + t + "'" && IsToken(lit) && Parse(lit) == Str(t)
  {
    lit := "'" + t + "'";
    assert forall i :: 0 < i < |lit| - 1 ==> lit[i] == t[i - 1];
    ParseQuoted(t);
  }

  lemma QuotedRegroup(k: string, t: string)
    ensures k + " == '" + t + "'" == k + " " + "==" + " " + ("'" + t + "'")
    ensures k + " != '" + t + "'" == k + " " + "!=" + " " + ("'" + t + "'")
  {
  }

  // ---------------------------------------------------------------------------
  // Spacing
  // ---------------------------------------------------------------------------

  /** Two expressions with the same tokens, one to three of them, evaluate alike. */
  lemma SameTokensSameResult(e1: string, e2: string, values: ValueMap, host: Host)
    requires SplitSpace(e1) == SplitSpace(e2) && 1 <= |SplitSpace(e1)| <= 3
    ensures Evaluate(e1, values, host) == Evaluate(e2, values, host)
  {
  }

  /** A second space between two parts of an expression changes nothing. */
  lemma DoubleSpace(x: string, y: string, values: ValueMap, host: Host)
    requires 1 <= |SplitSpace(x)| + |SplitSpace(y)| <= 3
    ensures Evaluate(x + "  " + y, values, host) == Evaluate(x + " " + y, values, host)
  {
    DoubleSpaceTokens(x, y);
    SameTokensSameResult(x + "  " + y, x + " " + y, values, host);
  }

  lemma DoubleSpaceTokens(x: string, y: string)
    ensures SplitSpace(x + "  " + y) == SplitSpace(x + " " + y)
            == SplitSpace(x) + SplitSpace(y)
  {
    SpaceRegroup(x, y);
    SplitSpaceConcat(x, " " + y);
    SplitLeadingSpace(y);
    SplitSpaceConcat(x, y);
  }

  lemma SpaceRegroup(x: string, y: string)
    ensures x + "  " + y == x + " " + (" " + y)
  {
  }

  // ---------------------------------------------------------------------------
  // Literals
  // ---------------------------------------------------------------------------

  /** The decimal digits of a natural number, most significant first. */
  function ShowNat(n: nat): (s: string)
    ensures s != [] && AllDigits(s)
  {
    if n < 10 then [('0' as int + n) as char]
    else ShowNat(n / 10) + [('0' as int + n % 10) as char]
  }

  /** The invariant-culture text of an integer: a minus sign, then its digits. */
  function ShowInt(n: int): (s: string)
    ensures s != [] && (s[0] == '-' || IsDigit(s[0]))
  {
    if n < 0 then "-" + ShowNat(-n) else ShowNat(n)
  }

  lemma {:induction false} DigitsOfShowNat(n: nat)
    ensures DigitsValue(ShowNat(n)) == n
  {
    if n >= 10 {
      var s := ShowNat(n / 10);
      var t := s + [('0' as int + n % 10) as char];
      assert t[..|t| - 1] == s;
      DigitsOfShowNat(n / 10);
    }
  }

  /** Text that starts with a sign or a digit is neither `null` nor a boolean. */
  lemma NumericStart(t: string)
    requires t != [] && (t[0] == '-' || t[0] == '+' || IsDigit(t[0]))
    ensures t != "null" && ParseBool(t) == None
  {
    assert "null"[0] == 'n';
    assert LowerAll(t)[0] == t[0];
    assert "true"[0] == 't' && "false"[0] == 'f';
  }

  lemma ParseIntegerOfShowInt(n: int)
    ensures ParseInteger(ShowInt(n)) == Some(n)
  {
    var t := ShowInt(n);
    if n < 0 {
      assert t[0] == '-';
      assert t[1..] == ShowNat(-n);
      DigitsOfShowNat(-n);
    } else {
      DigitsOfShowNat(n);
    }
  }

  /** Every Int32 written in decimal parses back as that Int32. */
  lemma ParseIntRoundTrip(n: Int32)
    ensures Parse(ShowInt(n)) == Int(n)
  {
    var t := ShowInt(n);
    NumericStart(t);
    ParseIntegerOfShowInt(n);
    assert ParseInt32(t) == Some(n);
  }

  /** A single-quoted text parses as the text between the quotes. */
  lemma ParseQuoted(s: string)
    requires s != [] && s[0] != '\'' && s[|s| - 1] != '\''
    ensures Parse("'" + s + "'") == Str(s)
  {
    var t := "'" + s + "'";
    QuoteStartIsText(t);
    TrimQuotes(s, t);
  }

  /** A literal that starts with a quote is none of null, a boolean, an integer and a decimal. */
  lemma QuoteStartIsText(t: string)
    requires t != [] && t[0] == '\''
    ensures Parse(t) == Str(TrimChar(t, '\''))
  {
    assert LowerAll(t)[0] == '\'';
    assert ParseBool(t) == None;
    assert !AllDigits(t) by { assert !IsDigit(t[0]); }
    assert ParseInteger(t) == None;
    assert Run(t, IsDigit) == 0;
    assert ParseDecimal(t) == None;
  }

  /** Trimming the quotes off `'s'` gives `s` when `s` neither starts nor ends with a quote. */
  lemma TrimQuotes(s: string, t: string)
    requires s != [] && s[0] != '\'' && s[|s| - 1] != '\'' && t == "'" + s + "'"
    ensures TrimChar(t, '\'') == s
  {
    assert t[1] == s[0];
    assert RunOf(t, '\'') == 1 by {
      assert RunOf(t[1..], '\'') == 0;
    }
    assert t[1..] == s + "'";
    assert (s + "'")[..|s|] == s;
  }

  /** Booleans are recognised ignoring case. */
  lemma ParseBoolExample()
    ensures Parse("True") == Bool(true)
  {
    assert LowerAll("True") == "true";
  }

  /** A literal with a decimal point is a decimal. */
  lemma ParseDecimalExample()
    ensures Parse("2.5") == Dec(2.5)
  {
    var t := "2.5";
    NumericStart(t);
    assert !IsDigit(t[1]);
    assert ParseInteger(t) == None;
    assert t[1..] == ".5";
    assert Run(".5", IsDigit) == 0;
    assert Run(t, IsDigit) == 1;
    assert t[2..] == "5" && t[..1] == "2";
    assert DigitsValue("5") == 5 && DigitsValue("2") == 2;
    assert ParseDecimal(t) == Some(2.5);
  }

  // ---------------------------------------------------------------------------
  // Worked examples
  // ---------------------------------------------------------------------------

  /** The shown form of an int is one token that parses back to it. */
  lemma IntLiteral(n: Int32)
    ensures IsToken(ShowInt(n)) && Parse(ShowInt(n)) == Int(n)
  {
    var lit := ShowInt(n);
    assert IsToken(lit) by { assert forall i :: 0 <= i < |lit| ==> lit[i] == '-' || IsDigit(lit[i]); }
    ParseIntRoundTrip(n);
  }

  lemma IntGreater(k: string, m: Int32, n: Int32, values: ValueMap, host: Host)
    requires PlainKey(k) && Lookup(values, k) == Int(m)
    ensures Evaluate(k + " > " + ShowInt(n), values, host) == Ok(m > n)
  {
    var lit := ShowInt(n);
    IntLiteral(n);
    Operators(Sign((m - n) as real));
    assert k + " > " + lit == k + " " + ">" + " " + lit;
    EvalThree(k, ">", lit, values, host);
  }

  lemma IntEqual(k: string, m: Int32, n: Int32, values: ValueMap, host: Host)
    requires PlainKey(k) && Lookup(values, k) == Int(m)
    ensures Evaluate(k + " == " + ShowInt(n), values, host) == Ok(m == n)
  {
    var lit := ShowInt(n);
    IntLiteral(n);
    Operators(Sign((m - n) as real));
    assert k + " == " + lit == k + " " + "==" + " " + lit;
    EvalThree(k, "==", lit, values, host);
  }

  lemma IntLess(k: string, m: Int32, n: Int32, values: ValueMap, host: Host)
    requires PlainKey(k) && Lookup(values, k) == Int(m)
    ensures Evaluate(k + " < " + ShowInt(n), values, host) == Ok(m < n)
  {
    var lit := ShowInt(n);
    IntLiteral(n);
    Operators(Sign((m - n) as real));
    assert k + " < " + lit == k + " " + "<" + " " + lit;
    EvalThree(k, "<", lit, values, host);
  }

  /** An int value compared with an integer literal compares the two numbers. */
  lemma IntComparison(k: string, m: Int32, n: Int32, values: ValueMap, host: Host)
    requires PlainKey(k) && Lookup(values, k) == Int(m)
    ensures Evaluate(k + " > " + ShowInt(n), values, host) == Ok(m > n)
    ensures Evaluate(k + " == " + ShowInt(n), values, host) == Ok(m == n)
    ensures Evaluate(k + " < " + ShowInt(n), values, host) == Ok(m < n)
  {
    IntGreater(k, m, n, values, host);
    IntEqual(k, m, n, values, host);
    IntLess(k, m, n, values, host);
  }

  /** `age > 18` is true for 20 and false for 10. */
  lemma AgeExamples(host: Host)
    ensures Evaluate("age > 18", map["age" := Int(20)], host) == Ok(true)
    ensures Evaluate("age > 18", map["age" := Int(10)], host) == Ok(false)
  {
    assert ShowInt(18) == "18";
    assert "age" + " > " + ShowInt(18) == "age > 18";
    IntComparison("age", 20, 18, map["age" := Int(20)], host);
    IntComparison("age", 10, 18, map["age" := Int(10)], host);
  }

  /** `age > 18` is false, and raises nothing, when age is absent. */
  lemma AgeAbsentExample(host: Host)
    ensures Evaluate("age > 18", map[], host) == Ok(false)
  {
    assert "age > 18" == "age" + " " + ">" + " " + "18";
    ComparisonWithNull("age", ">", "18", map[], host);
  }

  /** Zero is false and five is true; `!flag` inverts a boolean flag. */
  lemma TruthExamples(host: Host)
    ensures Evaluate("n", map["n" := Int(0)], host) == Ok(false)
    ensures Evaluate("n", map["n" := Int(5)], host) == Ok(true)
    ensures Evaluate("!flag", map["flag" := Bool(false)], host) == Ok(true)
    ensures Evaluate("!flag", map["flag" := Bool(true)], host) == Ok(false)
  {
    EvalOne("n", map["n" := Int(0)], host);
    EvalOne("n", map["n" := Int(5)], host);
    assert "!flag" == "!" + "flag";
    NegatedKey("flag", map["flag" := Bool(false)], host);
    NegatedKey("flag", map["flag" := Bool(true)], host);
  }

  /**
   * Four tokens are malformed; the operator `~~` raises only when the left value
   * is present and comparable, and is simply false on an absent key.
   */
  lemma ErrorExamples(host: Host)
    ensures Evaluate("a b c d", map[], host) == Err(InvalidExpression("a b c d"))
    ensures Evaluate("a ~~ 1", map["a" := Int(3)], host) == Err(InvalidOperator("~~"))
    ensures Evaluate("a ~~ 1", map[], host) == Ok(false)
  {
    FourTokens(host);
    UnknownOperatorExample(host);
  }

  /** Four tokens are malformed. */
  lemma FourTokens(host: Host)
    ensures Evaluate("a b c d", map[], host) == Err(InvalidExpression("a b c d"))
  {
    assert ["a", "b", "c", "d"][1..] == ["b", "c", "d"];
    assert ["b", "c", "d"][1..] == ["c", "d"];
    assert ["c", "d"][1..] == ["d"];
    assert JoinSpace(["a", "b", "c", "d"]) == "a b c d";
    MalformedExpression(["a", "b", "c", "d"], map[], host);
  }

  /** `~~` raises on a present integer and is false on an absent key. */
  lemma UnknownOperatorExample(host: Host)
    ensures Evaluate("a ~~ 1", map["a" := Int(3)], host) == Err(InvalidOperator("~~"))
    ensures Evaluate("a ~~ 1", map[], host) == Ok(false)
  {
    assert "a ~~ 1" == "a" + " " + "~~" + " " + "1";
    ParseIntRoundTrip(1);
    assert ShowInt(1) == "1";
    UnknownComparisonOperator("a", "~~", "1", map["a" := Int(3)], host);
    ComparisonWithNull("a", "~~", "1", map[], host);
  }
}
