/**
 * The expression language of `{{#if EXPR}}`: FormatarSql.Evaluate and its helpers
 * GetValue, Truthy, HasAny, Parse and Compare. An expression is one to three tokens
 * separated by spaces: `KEY`, `KEY OP` or `KEY OP LITERAL`.
 */
module Expressions {
  import opened Wrappers
  import opened Chars
  import opened Values

  /** The InvalidOperationException cases, and a conversion that throws. */
  datatype EvalError =
    | InvalidExpression(expr: string)   // "Expressão inválida"
    | InvalidOperator(op: string)       // "Operador inválido"
    | ConversionFailed                  // Convert.ChangeType threw

  /**
   * GetValue: the value of `key`; a key written `!name` reads `name` and yields the
   * boolean "the value of name is not the boolean true".
   */
  function GetValue(key: string, values: ValueMap): (v: Value)
    ensures key != [] && key[0] == '!' ==> v.Bool? && (v.b <==> Lookup(values, key[1..]) != Bool(true))
    ensures !(key != [] && key[0] == '!') ==> v == Lookup(values, key)
  {
    if key != [] && key[0] == '!' then
      var value := Lookup(values, key[1..]);
      Bool(!(if value.Bool? then value.b else false))
    else Lookup(values, key)
  }

  /**
   * Truthy: the truth value of a bare one-token condition. The false values are
   * exactly null, the boolean false, a blank string and an int or long zero; a
   * decimal zero and an empty collection count as true.
   */
  function Truthy(v: Value): (r: bool)
    ensures !r <==> v == Null || v == Bool(false) || v == Int(0) || v == Long(0) || (v.Str? && Blank(v.s))
  {
    match v
    case Null => false
    case Bool(b) => b
    case Str(s) => !Blank(s)
    case Int(i) => i != 0
    case Long(l) => l != 0
    case _ => true
  }

  /**
   * HasAny: a non-null enumerable (a string counts) with at least one element.
   * Only strings and collections can hold, and of those only the empty ones fail.
   */
  function HasAny(v: Value): (r: bool)
    ensures r ==> v.Str? || v.Coll?
    ensures (v.Str? || v.Coll?) ==> (!r <==> v == Str([]) || v == Coll([]))
  {
    match v
    case Str(s) => s != []
    case Coll(xs) => xs != []
    case _ => false
  }

  /** The two-token form `KEY OP`, with OP matched ignoring case. */
  function Predicate(v: Value, op: string): (r: Result<bool, EvalError>)
    ensures r.Err? <==> LowerAll(op) !in {"notnull", "isnull", "notempty", "empty", "any"}
    ensures r.Err? ==> r.error == InvalidOperator(op)
  {
    var name := LowerAll(op);
    if name == "notnull" then Ok(v != Null)
    else if name == "isnull" then Ok(v == Null)
    else if name == "notempty" then Ok(v.Str? && !Blank(v.s))
    else if name == "empty" then Ok(v == Null || (v.Str? && Blank(v.s)))
    else if name == "any" then Ok(HasAny(v))
    else Err(InvalidOperator(op))
  }

  // ---------------------------------------------------------------------------
  // Literals (Parse)
  // ---------------------------------------------------------------------------

  predicate AllDigits(s: string)
  {
    forall i :: 0 <= i < |s| ==> IsDigit(s[i])
  }

  function DigitValue(c: char): nat
    requires IsDigit(c)
  {
    c as int - '0' as int
  }

  /** The number that a string of decimal digits denotes. */
  function DigitsValue(s: string): nat
    requires AllDigits(s)
  {
    if s == [] then 0 else DigitsValue(s[..|s| - 1]) * 10 + DigitValue(s[|s| - 1])
  }

  function Pow10(k: nat): (p: nat)
    ensures p > 0
  {
    if k == 0 then 1 else 10 * Pow10(k - 1)
  }

  /** bool.TryParse: "true" or "false", ignoring case. */
  function ParseBool(t: string): Option<bool>
  {
    var lower := LowerAll(t);
    if lower == "true" then Some(true) else if lower == "false" then Some(false) else None
  }

  /** An optional sign followed by one or more decimal digits. */
  function ParseInteger(t: string): Option<int>
  {
    if t != [] && (t[0] == '-' || t[0] == '+') then
      var d := t[1..];
      if d != [] && AllDigits(d) then Some(if t[0] == '-' then 0 - DigitsValue(d) as int else DigitsValue(d) as int)
      else None
    else if t != [] && AllDigits(t) then Some(DigitsValue(t) as int)
    else None
  }

  /** int.TryParse: an integer literal within the range of Int32. */
  function ParseInt32(t: string): Option<Int32>
  {
    match ParseInteger(t)
    case Some(n) => if -0x8000_0000 <= n < 0x8000_0000 then Some(n) else None
    case None => None
  }

  /** Unsigned digits with at most one decimal point and at least one digit. */
  function ParseUnsignedDecimal(b: string): Option<real>
  {
    var n := Run(b, IsDigit);
    if n == |b| then (if b == [] then None else Some(DigitsValue(b) as real))
    else if b[n] == '.' && AllDigits(b[n + 1..]) && (n > 0 || n + 1 < |b|) then
      var frac := b[n + 1..];
      Some(DigitsValue(b[..n]) as real + DigitsValue(frac) as real / Pow10(|frac|) as real)
    else None
  }

  /** decimal.TryParse, with '.' as the decimal separator. */
  function ParseDecimal(t: string): Option<real>
  {
    if t != [] && (t[0] == '-' || t[0] == '+') then
      match ParseUnsignedDecimal(t[1..])
      case Some(d) => Some(if t[0] == '-' then -d else d)
      case None => None
    else ParseUnsignedDecimal(t)
  }

  /**
   * Parse: the literal of a comparison, tried as `null`, then a boolean, then an
   * Int32, then a decimal; anything else is the text with its surrounding single
   * quotes removed.
   */
  function Parse(t: string): (r: Value)
    ensures r.Null? <==> t == "null"
    ensures !r.Long? && !r.Coll?
    ensures r.Str? ==> r.s == TrimChar(t, '\'')
  {
    if t == "null" then Null
    else match ParseBool(t)
      case Some(b) => Bool(b)
      case None =>
        match ParseInt32(t)
        case Some(i) => Int(i)
        case None =>
          match ParseDecimal(t)
          case Some(d) => Dec(d)
          case None => Str(TrimChar(t, '\''))
  }

  // ---------------------------------------------------------------------------
  // Comparison (Compare)
  // ---------------------------------------------------------------------------

  /** IComparable: the scalar kinds; collections are not comparable. */
  predicate Comparable(v: Value)
  {
    v.Bool? || v.Int? || v.Long? || v.Dec? || v.Str?
  }

  function Sign(x: real): int
  {
    if x < 0.0 then -1 else if x == 0.0 then 0 else 1
  }

  /**
   * The sign of `left.CompareTo(Convert.ChangeType(right, left.GetType()))`, or
   * None when the conversion throws. Same-kind comparisons and exact numeric
   * widenings of the literal are computed here; the rest is the host's.
   */
  function Order(left: Value, right: Value, host: Host): Option<int>
    requires Comparable(left) && Comparable(right)
  {
    match (left, right)
    case (Bool(a), Bool(b)) => Some(if a == b then 0 else if a then 1 else -1)
    case (Int(a), Int(b)) => Some(Sign((a - b) as real))
    case (Long(a), Long(b)) => Some(Sign((a - b) as real))
    case (Long(a), Int(b)) => Some(Sign((a - b) as real))
    case (Dec(a), Dec(b)) => Some(Sign(a - b))
    case (Dec(a), Int(b)) => Some(Sign(a - b as real))
    case (Dec(a), Long(b)) => Some(Sign(a - b as real))
    case (Str(a), Str(b)) => Some(host.collate(a, b))
    case _ => host.convertCompare(left, right)
  }

  /** The six comparison operators, written as Compare expects them (case-sensitive). */
  const ComparisonOperators: set<string> := {"==", "!=", ">", "<", ">=", "<="}

  /**
   * The comparison operator switch of Compare: an error exactly for a word that is
   * not one of the six operators, naming it.
   */
  function ApplyOperator(op: string, cmp: int): (r: Result<bool, EvalError>)
    ensures r.Err? <==> op !in ComparisonOperators
    ensures r.Err? ==> r.error == InvalidOperator(op)
  {
    if op == "==" then Ok(cmp == 0)
    else if op == "!=" then Ok(cmp != 0)
    else if op == ">" then Ok(cmp > 0)
    else if op == "<" then Ok(cmp < 0)
    else if op == ">=" then Ok(cmp >= 0)
    else if op == "<=" then Ok(cmp <= 0)
    else Err(InvalidOperator(op))
  }

  /** Compare: the three-token form `KEY OP LITERAL`. */
  function Compare(left: Value, right: Value, op: string, host: Host): (r: Result<bool, EvalError>)
    ensures left == Null || right == Null ==> r == Ok(false)
    ensures !Comparable(left) || !Comparable(right) ==> r == Ok(false)
  {
    if left == Null || right == Null then Ok(false)
    else if !Comparable(left) || !Comparable(right) then Ok(false)
    else match Order(left, right, host)
      case None => Err(ConversionFailed)
      case Some(cmp) => ApplyOperator(op, cmp)
  }

  /** Evaluate: split on the space character and dispatch on the number of tokens. */
  function Evaluate(expr: string, values: ValueMap, host: Host): (r: Result<bool, EvalError>)
    ensures |SplitSpace(expr)| == 0 || |SplitSpace(expr)| > 3 ==> r == Err(InvalidExpression(expr))
  {
    var parts := SplitSpace(expr);
    if |parts| == 1 then Ok(Truthy(GetValue(parts[0], values)))
    else if |parts| == 2 then Predicate(GetValue(parts[0], values), parts[1])
    else if |parts| == 3 then Compare(GetValue(parts[0], values), Parse(parts[2]), parts[1], host)
    else Err(InvalidExpression(expr))
  }
}
