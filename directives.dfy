/**
 * The two directive passes of FormatarSql.Render: IfBlockRegex.Replace and then
 * BetweenRegex.Replace. Each regular expression is modelled as the left-to-right
 * scanner that Regex.Replace amounts to: try a match at the current position; on
 * success emit the replacement and continue after the match, otherwise copy one
 * character and try at the next position. Keywords and tags match ignoring case.
 *
 * IfBlockRegex is `\{\{#if\s+(.*?)\}\}([\s\S]*?)(\{\{#else\}\}([\s\S]*?))?\{\{\/if\}\}`.
 * With its lazy groups and backtracking it matches at a position exactly when:
 * the text holds `{{#if` followed by at least one white-space character; the
 * expression (after the white space) runs to the first `}}`, with no line feed
 * before it; the body runs to the first `{{#else}}` or `{{/if}}` after that; and,
 * when `{{#else}}` comes first, the else-body runs to the first `{{/if}}` after it.
 * MatchIf computes that match.
 *
 * BetweenRegex is `\{\{#between\s+(\w+)\s+(\w+)\}\}([\s\S]*?)\{\{\/between\}\}`: no
 * backtracking can change where each group ends, and the body runs to the first
 * `{{/between}}`. MatchBetween computes that match by running BetweenPattern, the
 * expression written as a sequence of pieces, through MatchPieces.
 */
module Directives {
  import opened Wrappers
  import opened Chars
  import opened Values
  import opened Expressions

  const IfOpen := "{{#if"
  const ElseTag := "{{#else}}"
  const EndIf := "{{/if}}"
  const BetweenOpen := "{{#between"
  const EndBetween := "{{/between}}"
  const CloseBraces := "}}"

  /** One match of IfBlockRegex at the start of the text: its groups 1, 2 and 4 and its length. */
  datatype IfSpan = IfSpan(expr: string, body: string, elseBody: string, len: nat)

  /** One match of BetweenRegex at the start of the text: its three groups and its length. */
  datatype BetweenSpan = BetweenSpan(first: string, second: string, body: string, len: nat)

  /** The body, and the else-body when `{{#else}}` comes first, of an if-span whose body starts at `b`. */
  function MatchIfBodies(s: string, b: nat): (r: Option<(string, string, nat)>)
    requires b <= |s|
    ensures r.Some? ==> b <= r.value.2 <= |s|
  {
    var e := IndexOfCI(s, b, ElseTag);
    var f := IndexOfCI(s, b, EndIf);
    if f.None? then None
    else if e.Some? && e.value < f.value then
      match IndexOfCI(s, e.value + |ElseTag|, EndIf)
      case None => None
      case Some(g) => Some((s[b..e.value], s[e.value + |ElseTag|..g], g + |EndIf|))
    else Some((s[b..f.value], "", f.value + |EndIf|))
  }

  /** An if-span whose expression starts at `q` and whose first `}}` after it is at `c`, if any. */
  function IfSpanAt(s: string, q: nat, c: Option<nat>): (r: Option<IfSpan>)
    requires q <= |s| && (c.Some? ==> q <= c.value && c.value + |CloseBraces| <= |s|)
    ensures r.Some? ==> q < r.value.len <= |s|
    ensures r.Some? ==> '\n' !in r.value.expr
  {
    match c
    case None => None
    case Some(c) =>
      if '\n' in s[q..c] then None
      else
        match MatchIfBodies(s, c + |CloseBraces|)
        case None => None
        case Some((body, elseBody, len)) => Some(IfSpan(s[q..c], body, elseBody, len))
  }

  /** IfBlockRegex tried at the start of `s`. */
  function MatchIf(s: string): (r: Option<IfSpan>)
    ensures r.Some? ==> 0 < r.value.len <= |s|
    ensures r.Some? ==> '\n' !in r.value.expr
  {
    if !StartsAt(s, 0, IfOpen) || |s| <= |IfOpen| || !IsWhite(s[|IfOpen|]) then None
    else IfExpr(s, |IfOpen| + RunFrom(s, |IfOpen|, IsWhite))
  }

  /** The expression starting at `q` runs to the first `}}`. */
  function IfExpr(s: string, q: nat): (r: Option<IfSpan>)
    requires q <= |s|
    ensures r.Some? ==> q < r.value.len <= |s|
    ensures r.Some? ==> '\n' !in r.value.expr
  {
    IfSpanAt(s, q, IndexOfCI(s, q, CloseBraces))
  }

  /** The if-pass: every if-span replaced by its body or its else-body; the first error aborts. */
  function IfPass(s: string, values: ValueMap, host: Host): Result<string, EvalError>
    decreases |s|
  {
    if s == [] then Ok([])
    else match MatchIf(s)
      case Some(m) =>
        var cond :- Evaluate(Trim(m.expr), values, host);
        var rest :- IfPass(s[m.len..], values, host);
        Ok((if cond then m.body else m.elseBody) + rest)
      case None =>
        var rest :- IfPass(s[1..], values, host);
        Ok([s[0]] + rest)
  }

  /** One element of a pattern made of literals, white-space runs, word groups and lazy groups. */
  datatype Piece =
    | Text(lit: string)   // the literal, ignoring case
    | Blanks              // `\s+`
    | Key                 // `(\w+)`, captured
    | Upto(tag: string)   // `([\s\S]*?)` and then the literal `tag`: captured up to the first `tag`

  /** A pattern: its pieces one after another. */
  datatype Pattern = Done | Then(piece: Piece, next: Pattern)

  /** The number of groups a pattern captures. */
  function Groups(p: Pattern): nat
  {
    match p
    case Done => 0
    case Then(piece, next) => (if piece.Key? || piece.Upto? then 1 else 0) + Groups(next)
  }

  /** BetweenRegex as a pattern. */
  const BetweenPattern: Pattern :=
    Then(Text(BetweenOpen), Then(Blanks, Then(Key, Then(Blanks, Then(Key,
      Then(Text(CloseBraces), Then(Upto(EndBetween), Done)))))))

  /** A captured group in front of the groups of the rest of a match. */
  function Capture(g: string, r: Option<(seq<string>, nat)>): (q: Option<(seq<string>, nat)>)
    ensures q.Some? == r.Some? && (r.Some? ==> q.value == ([g] + r.value.0, r.value.1))
  {
    match r
    case None => None
    case Some((gs, e)) => Some(([g] + gs, e))
  }

  /**
   * The pattern tried at position `i` of `s`: the captured groups and the end of
   * the match. Runs take all they can, as no piece that follows a run can start
   * with a character of that run; a lazy group ends at the first occurrence of its tag.
   */
  function MatchPieces(s: string, i: nat, p: Pattern): (r: Option<(seq<string>, nat)>)
    requires i <= |s|
    ensures r.Some? ==> i <= r.value.1 <= |s| && |r.value.0| == Groups(p)
    ensures r.Some? && p.Then? && p.piece.Text? ==> i + |p.piece.lit| <= r.value.1
    decreases p
  {
    match p
    case Done => Some(([], i))
    case Then(Text(t), next) =>
      if StartsAt(s, i, t) then MatchPieces(s, i + |t|, next) else None
    case Then(Blanks, next) =>
      var n := RunFrom(s, i, IsWhite);
      if n == 0 then None else MatchPieces(s, i + n, next)
    case Then(Key, next) =>
      var n := RunFrom(s, i, IsWordChar);
      if n == 0 then None else Capture(s[i..i + n], MatchPieces(s, i + n, next))
    case Then(Upto(t), next) =>
      match IndexOfCI(s, i, t)
      case None => None
      case Some(f) => Capture(s[i..f], MatchPieces(s, f + |t|, next))
  }

  /** BetweenRegex tried at the start of `s`. */
  function MatchBetween(s: string): (r: Option<BetweenSpan>)
    ensures r.Some? ==> 0 < r.value.len <= |s|
  {
    match MatchPieces(s, 0, BetweenPattern)
    case None => None
    case Some((gs, e)) =>
      assert |gs| == Groups(BetweenPattern) == 3;
      Some(BetweenSpan(gs[0], gs[1], gs[2], e))
  }

  /** HasBetween: both keys hold non-null values. */
  function HasBetween(values: ValueMap, first: string, second: string): (r: bool)
    ensures r <==> first in values && second in values && values[first] != Null && values[second] != Null
  {
    Lookup(values, first) != Null && Lookup(values, second) != Null
  }

  /** The between-pass: every between-span replaced by its body or by nothing. */
  function BetweenPass(s: string, values: ValueMap): string
    decreases |s|
  {
    if s == [] then []
    else match MatchBetween(s)
      case Some(m) =>
        (if HasBetween(values, m.first, m.second) then m.body else []) + BetweenPass(s[m.len..], values)
      case None => [s[0]] + BetweenPass(s[1..], values)
  }
}
