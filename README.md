# FormatarSql in Dafny

A model of `FormatarSql`, the SQL template engine of ComraxFinance, with proofs of
what it does. A template is SQL text with two kinds of directive:

- `{{#if EXPR}}BODY{{/if}}` and `{{#if EXPR}}BODY{{#else}}ELSE{{/if}}`, kept or
  dropped by a one-to-three-token condition over the properties of a model object;
- `{{#between A B}}BODY{{/between}}`, kept when the properties `A` and `B` both hold
  non-null values.

`Render` resolves the if-directives, then the between-directives, then cleans up the
white space of the result.

The project is organised in modules, one file each:

| file | module | contents |
|---|---|---|
| `wrappers.dfy` | `Wrappers` | `Option` and `Result` |
| `chars.dfy` | `Chars` | character classes, ASCII case folding, case-insensitive search, `String.Trim`, the split on spaces |
| `values.dfy` | `Values` | the boxed property values, the value map, and the `Host` (runtime behaviour taken as a parameter) |
| `expressions.dfy` | `Expressions` | `Evaluate`, `GetValue`, `Truthy`, `HasAny`, `Parse`, `Compare` |
| `expression_laws.dfy` | `ExpressionLaws` | what an expression evaluates to, form by form |
| `directives.dfy` | `Directives` | the two regular expressions as scanners, the if-pass and the between-pass |
| `directive_laws.dfy` | `DirectiveLaws` | how a directive matches, and how each pass treats text around it |
| `match_laws.dfy` | `MatchLaws` | the converse: whatever the scanners return is a directive, and neither pass lengthens the text |
| `normalizer.dfy` | `Normalizer` | the four clean-up steps and the shape of their output |
| `normalizer_laws.dfy` | `NormalizerLaws` | each step's guarantees, idempotence, kept characters |
| `renderer.dfy` | `Renderer` | `Render` and `Normalize` as methods, and whole-template properties |

How the pieces are modelled:

- A property value is a `Value`: `Null`, `Bool`, `Int` (Int32), `Long` (Int64),
  `Dec` (a `real`), `Str`, or `Coll` (any enumerable other than a string).
- A missing key reads as `Null`, as `Dictionary.TryGetValue` leaves it.
- Each regular-expression replacement is a left-to-right scanner. Where a match
  starts, it emits the replacement and resumes after the match. Elsewhere it copies
  one character.
- Each match is stated as the rule the regular expression's lazy and greedy groups
  amount to, not as a regex engine:
  - the if-expression runs to the first `}}`, on one line;
  - the body runs to the first `{{#else}}` or `{{/if}}`;
  - the else-body runs to the first `{{/if}}` after the `{{#else}}`.
- The between regular expression is written as a list of pattern pieces (`Pattern`)
  run by `MatchPieces`.
- Exceptions are modelled as `Err` results. The first error ends the render.

Three behaviours of the code that are easy to misread:

- Expressions are split on the space character only, with empty entries removed
  (`FormatarSql.cs:88`), not on any white space.
- The `!K` negation reads through `GetValue`, so it applies in the two- and
  three-token forms as well. There it always gives a non-null boolean.
- An unknown comparison operator raises an error only when both sides are
  non-null, comparable and convertible. The null checks and the comparability check
  come first (`FormatarSql.cs:167-168`). So `a ~~ 1` is an error when `a` holds 3,
  but simply false when `a` is absent (`ExpressionLaws.ErrorExamples`).

## Model

| member | source | states |
|---|---|---|
| Values.Lookup | ComraxFinance/Ferramentas/FormatarSql.cs:80-81 | a key missing from the map reads as null |
| Chars.Lower | ComraxFinance/Ferramentas/FormatarSql.cs:97 | the folded character is never an upper-case ASCII letter, is a lower-case letter exactly when the input is a letter of either case, and differs from the input only for an upper-case letter, by 32 |
| Chars.LowerMatches | ComraxFinance/Ferramentas/FormatarSql.cs:17 | two characters are equal ignoring case exactly when they are equal or one is the upper-case form of the other |
| Chars.IndexOfCI | ComraxFinance/Ferramentas/FormatarSql.cs:17 | a position found is at or after the start and holds the pattern, ignoring case |
| Chars.IndexOfCIFirst | ComraxFinance/Ferramentas/FormatarSql.cs:17 | the position found is the first occurrence; when none is found the pattern occurs nowhere after the start |
| Chars.Trim | ComraxFinance/Ferramentas/FormatarSql.cs:52 | the result is the slice of the input between its leading and trailing white-space runs, and starts and ends with no white space |
| Chars.TrimChar | ComraxFinance/Ferramentas/FormatarSql.cs:162 | the result is the input without its leading and trailing runs of the character, and neither starts nor ends with it |
| Chars.SplitSpace | ComraxFinance/Ferramentas/FormatarSql.cs:88 | every part is non-empty and holds no space |
| Chars.SplitJoin | ComraxFinance/Ferramentas/FormatarSql.cs:88 | splitting tokens joined by single spaces gives the tokens back |
| Chars.SplitLeadingSpace | ComraxFinance/Ferramentas/FormatarSql.cs:88 | a leading space adds no part: empty entries are removed |
| Chars.SplitSpaceConcat | ComraxFinance/Ferramentas/FormatarSql.cs:88 | the parts of two texts joined by a space are the parts of the first followed by the parts of the second; with `SplitTokenAlone` this fixes the split of every text |
| Chars.SplitTokenAlone | ComraxFinance/Ferramentas/FormatarSql.cs:88 | a text that is non-empty and holds no space is its own single part |
| Expressions.GetValue | ComraxFinance/Ferramentas/FormatarSql.cs:120-130 | `!name` gives the boolean "name's value is not true"; any other key gives its value |
| Expressions.Predicate | ComraxFinance/Ferramentas/FormatarSql.cs:97-105 | an error exactly when the lower-cased operator is none of notnull, isnull, notempty, empty, any, and the error names the operator |
| Expressions.Parse | ComraxFinance/Ferramentas/FormatarSql.cs:155-163 | null exactly for `null`; never a long or a collection; a text result is the token without its surrounding quotes |
| Expressions.Compare | ComraxFinance/Ferramentas/FormatarSql.cs:165-168 | false, with no error, when either side is null or not comparable |
| Expressions.Evaluate | ComraxFinance/Ferramentas/FormatarSql.cs:86-118 | no token, or more than three, is an invalid-expression error |
| Expressions.Truthy | ComraxFinance/Ferramentas/FormatarSql.cs:132-143 | false exactly for null, the boolean false, a zero int or long, and a blank string |
| Expressions.HasAny | ComraxFinance/Ferramentas/FormatarSql.cs:145-153 | true only for a string or a collection, and on those false exactly when it is empty |
| Expressions.ApplyOperator | ComraxFinance/Ferramentas/FormatarSql.cs:173-181 | an error exactly for an operator outside the six, naming it |
| ExpressionLaws.EvalOne | ComraxFinance/Ferramentas/FormatarSql.cs:90-91 | one token gives the truth value of its value |
| ExpressionLaws.EvalTwo | ComraxFinance/Ferramentas/FormatarSql.cs:93-105 | two tokens apply the predicate named by the second to the value of the first |
| ExpressionLaws.EvalThree | ComraxFinance/Ferramentas/FormatarSql.cs:108-115 | three tokens compare the value of the first with the parsed third, by the second |
| ExpressionLaws.MalformedExpression | ComraxFinance/Ferramentas/FormatarSql.cs:117 | any list of zero or of four or more tokens is an invalid-expression error |
| ExpressionLaws.TwoTokenOperator | ComraxFinance/Ferramentas/FormatarSql.cs:97-104 | two tokens are an error exactly when the operator, lower-cased, is not recognised, and the error names it |
| ExpressionLaws.OneTokenTruthiness | ComraxFinance/Ferramentas/FormatarSql.cs:132-143 | a bare key: null false, bool itself, string non-blank, int and long non-zero, anything else true |
| ExpressionLaws.TruthyImpliesNotNull | ComraxFinance/Ferramentas/FormatarSql.cs:97-143 | a bare key that is true is not null |
| ExpressionLaws.TruthyStringIsNotEmpty | ComraxFinance/Ferramentas/FormatarSql.cs:97-143 | on a string value the bare key and `notempty` agree |
| ExpressionLaws.NegatedKey | ComraxFinance/Ferramentas/FormatarSql.cs:122-129 | `!K` is true exactly when K's value is not the boolean true |
| ExpressionLaws.NegationOfBoolean | ComraxFinance/Ferramentas/FormatarSql.cs:120-143 | on a boolean value `!K` is the negation of `K` |
| ExpressionLaws.NegationOfAbsent | ComraxFinance/Ferramentas/FormatarSql.cs:120-143 | on an absent key `K` is false and `!K` true |
| ExpressionLaws.NegatedKeyWithPredicate | ComraxFinance/Ferramentas/FormatarSql.cs:93-130 | a `!K` left side is never null: `notnull` true, `isnull` false |
| ExpressionLaws.NegatedKeyWithContents | ComraxFinance/Ferramentas/FormatarSql.cs:93-130 | a `!K` left side is a boolean: `notempty`, `empty` and `any` all false |
| ExpressionLaws.NullChecks | ComraxFinance/Ferramentas/FormatarSql.cs:99-100 | `notnull` holds exactly when the value is present and `isnull` is its complement |
| ExpressionLaws.EmptinessChecks | ComraxFinance/Ferramentas/FormatarSql.cs:101-102 | `empty` is absent-or-blank-string, `notempty` non-blank string, never both true |
| ExpressionLaws.AnyCheck | ComraxFinance/Ferramentas/FormatarSql.cs:145-153 | `any` holds exactly for a non-empty string or collection; the empty string gives false |
| ExpressionLaws.ComparisonWithNull | ComraxFinance/Ferramentas/FormatarSql.cs:155-168 | with an absent left key or a `null` literal the comparison is false, whatever the operator |
| ExpressionLaws.CompareComplements | ComraxFinance/Ferramentas/FormatarSql.cs:170-181 | on comparable values `!=`, `<=`, `>=` are the negations of `==`, `>`, `<`, errors included |
| ExpressionLaws.ComparisonComplement | ComraxFinance/Ferramentas/FormatarSql.cs:170-181 | on comparable sides `K != V`, `K <= V` and `K >= V` are the negations of `K == V`, `K > V` and `K < V`, a conversion error included |
| ExpressionLaws.UnknownComparisonOperator | ComraxFinance/Ferramentas/FormatarSql.cs:170-181 | on comparable sides whose conversion succeeds, an unknown operator is an invalid-operator error naming it |
| ExpressionLaws.ConversionBeforeOperator | ComraxFinance/Ferramentas/FormatarSql.cs:170-181 | a literal that does not convert raises the conversion error before the operator is looked at, even for an unknown operator |
| ExpressionLaws.OrderLaws | ComraxFinance/Ferramentas/FormatarSql.cs:171 | under a well-behaved string ordering two values of one kind always compare, each equals itself, and swapping the sides flips the sign |
| ExpressionLaws.OperatorLaws | ComraxFinance/Ferramentas/FormatarSql.cs:173-181 | each operator sees only the sign of the comparison, and exactly one of `<`, `==`, `>` holds |
| ExpressionLaws.CompareMirror | ComraxFinance/Ferramentas/FormatarSql.cs:165-181 | `K op V` and `V op' K` agree when `op'` is the mirrored operator, for values of one kind |
| ExpressionLaws.TextEquality | ComraxFinance/Ferramentas/FormatarSql.cs:155-181 | a string property compared with the same text in single quotes is `==` and not `!=` |
| ExpressionLaws.DoubleSpace | ComraxFinance/Ferramentas/FormatarSql.cs:88 | doubling a space inside an expression does not change its value |
| ExpressionLaws.SameTokensSameResult | ComraxFinance/Ferramentas/FormatarSql.cs:86-118 | expressions with the same one to three tokens evaluate alike |
| ExpressionLaws.ParseIntRoundTrip | ComraxFinance/Ferramentas/FormatarSql.cs:159 | every Int32 written in decimal parses back to that Int32 |
| ExpressionLaws.ParseQuoted | ComraxFinance/Ferramentas/FormatarSql.cs:162 | a single-quoted text parses as the text between the quotes |
| ExpressionLaws.ParseBoolExample | ComraxFinance/Ferramentas/FormatarSql.cs:158 | `True` parses as the boolean true |
| ExpressionLaws.ParseDecimalExample | ComraxFinance/Ferramentas/FormatarSql.cs:160 | `2.5` parses as the decimal 2.5 |
| ExpressionLaws.IntComparison | ComraxFinance/Ferramentas/FormatarSql.cs:165-181 | an int value compared with an integer literal by `>`, `==`, `<` compares the two numbers |
| ExpressionLaws.AgeExamples | ComraxFinance/Ferramentas/FormatarSql.cs:108-115 | `age > 18` is true for 20 and false for 10 |
| ExpressionLaws.AgeAbsentExample | ComraxFinance/Ferramentas/FormatarSql.cs:167 | `age > 18` with age absent is false and not an error |
| ExpressionLaws.TruthExamples | ComraxFinance/Ferramentas/FormatarSql.cs:122-143 | 0 is false, 5 true, `!flag` inverts a boolean flag |
| ExpressionLaws.ErrorExamples | ComraxFinance/Ferramentas/FormatarSql.cs:108-184 | `a b c d` is malformed; `a ~~ 1` is an operator error when `a` holds 3 and false when `a` is absent |
| MatchLaws.MatchIfExactly | ComraxFinance/Ferramentas/FormatarSql.cs:16-18 | the if expression matches at the start of a text with a given span exactly when the text is `{{#if`, white space, the expression up to the first `}}` on one line, the body up to the first `{{#else}}` or `{{/if}}`, and the else-body up to the first `{{/if}}` after the `{{#else}}` |
| MatchLaws.IfBodiesInside | ComraxFinance/Ferramentas/FormatarSql.cs:16-18 | both bodies of a matched if-span are shorter than the span |
| MatchLaws.MatchPiecesExactly | ComraxFinance/Ferramentas/FormatarSql.cs:20-22 | a pattern returns captures and an end exactly when the pieces match in turn: each literal ignoring case, each `\s+` a maximal white-space run, each `(\w+)` a maximal word run, and each lazy group the slice up to the first occurrence of its closing literal |
| MatchLaws.MatchBetweenExactly | ComraxFinance/Ferramentas/FormatarSql.cs:20-22 | the between expression matches at the start of a text with a given span exactly when its pattern matches with the span's three captures and length |
| MatchLaws.MatchBetweenSound | ComraxFinance/Ferramentas/FormatarSql.cs:20-22 | a between span starts with `{{#between` and white space, its keys are word runs, and its body is a slice ending right before `{{/between}}` and holding none |
| DirectiveLaws.NoMatchWithoutBrace | ComraxFinance/Ferramentas/FormatarSql.cs:16-22 | no directive matches at a character other than `{` |
| DirectiveLaws.MatchIfDirective | ComraxFinance/Ferramentas/FormatarSql.cs:17 | `{{#if e}}body{{/if}}`, whatever follows, matches as a whole with groups e, body and an empty else-body |
| DirectiveLaws.MatchIfElseDirective | ComraxFinance/Ferramentas/FormatarSql.cs:17 | `{{#if e}}body{{#else}}els{{/if}}` matches as a whole with groups e, body, els |
| MatchLaws.IfPassShrinks | ComraxFinance/Ferramentas/FormatarSql.cs:50-57 | a result of the if-pass is no longer than its input, because every span is replaced by one of its bodies |
| DirectiveLaws.IfPassFrame | ComraxFinance/Ferramentas/FormatarSql.cs:50 | text in front of the rest in which no if-span starts is copied unchanged |
| DirectiveLaws.IfPassIdentity | ComraxFinance/Ferramentas/FormatarSql.cs:50-57 | text without `{{#if`, or without `{{/if}}`, comes out of the if-pass unchanged |
| DirectiveLaws.BraceFreeNoSpan | ComraxFinance/Ferramentas/FormatarSql.cs:16-22 | text without `{` starts no span of either directive, whatever follows it |
| DirectiveLaws.IfSpanReplaced | ComraxFinance/Ferramentas/FormatarSql.cs:50-57 | one if-span after text in which no if-span starts is replaced by its body or nothing, and the rest follows |
| DirectiveLaws.IfElseSpanReplaced | ComraxFinance/Ferramentas/FormatarSql.cs:50-57 | one if-else-span is replaced by exactly one of its two bodies |
| DirectiveLaws.BetweenPassFrame | ComraxFinance/Ferramentas/FormatarSql.cs:59 | text in front of the rest in which no between-span starts is copied unchanged |
| DirectiveLaws.BetweenPassIdentity | ComraxFinance/Ferramentas/FormatarSql.cs:59-66 | text without `{{#between`, or without `{{/between}}`, comes out of the between-pass unchanged |
| MatchLaws.BetweenPassShrinks | ComraxFinance/Ferramentas/FormatarSql.cs:59-66 | the between-pass returns text no longer than its input |
| Directives.HasBetween | ComraxFinance/Ferramentas/FormatarSql.cs:75-84 | true exactly when both keys are present with non-null values |
| DirectiveLaws.MatchBetweenShaped | ComraxFinance/Ferramentas/FormatarSql.cs:21 | the between expression on `{{#between a b}}body{{/between}}` captures a, b and body and takes the whole directive |
| DirectiveLaws.BetweenSpanReplaced | ComraxFinance/Ferramentas/FormatarSql.cs:59-84 | one between-span after text in which no between-span starts is replaced by its body exactly when both keys hold non-null values |
| Normalizer.LineEndMatch | ComraxFinance/Ferramentas/FormatarSql.cs:189 | a match of `\s+\n` ends at the last line feed of the leading white-space run, after its first character, and there is one whenever such a line feed exists |
| Normalizer.CollapseBlanks | ComraxFinance/Ferramentas/FormatarSql.cs:188 | step 1 is never longer than its input |
| Normalizer.TrimLineEnds | ComraxFinance/Ferramentas/FormatarSql.cs:189 | step 2 is never longer than its input |
| Normalizer.TrimLineStarts | ComraxFinance/Ferramentas/FormatarSql.cs:190 | step 3 is never longer than its input |
| Normalizer.Normalize | ComraxFinance/Ferramentas/FormatarSql.cs:186-192 | the clean-up is never longer than its input |
| NormalizerLaws.CollapseShape | ComraxFinance/Ferramentas/FormatarSql.cs:188 | after step 1 there is no tab and no double space |
| NormalizerLaws.CollapseInk | ComraxFinance/Ferramentas/FormatarSql.cs:188 | step 1 keeps every character that is not white space, in order |
| NormalizerLaws.CollapseFixed | ComraxFinance/Ferramentas/FormatarSql.cs:188 | text with no tab and no double space is left as it is |
| NormalizerLaws.LineEndsShape | ComraxFinance/Ferramentas/FormatarSql.cs:189 | after step 2 no white space comes before a line feed, and no tab or double space is added |
| NormalizerLaws.LineEndsInk | ComraxFinance/Ferramentas/FormatarSql.cs:189 | step 2 keeps every character that is not white space, in order |
| NormalizerLaws.LineEndsFixed | ComraxFinance/Ferramentas/FormatarSql.cs:189 | text with no white space before a line feed is left as it is |
| NormalizerLaws.LineStartsShape | ComraxFinance/Ferramentas/FormatarSql.cs:190 | after step 3 no white space follows a line feed, and none of the earlier faults comes back |
| NormalizerLaws.LineStartsInk | ComraxFinance/Ferramentas/FormatarSql.cs:190 | step 3 keeps every character that is not white space, in order |
| NormalizerLaws.LineStartsFixed | ComraxFinance/Ferramentas/FormatarSql.cs:190 | text with no white space after a line feed is left as it is |
| NormalizerLaws.TrimShape | ComraxFinance/Ferramentas/FormatarSql.cs:191 | trimming leaves no white space at either end and adds no fault |
| NormalizerLaws.TrimFixed | ComraxFinance/Ferramentas/FormatarSql.cs:191 | text with no white space at either end is left as it is |
| NormalizerLaws.NormalizeNormalizes | ComraxFinance/Ferramentas/FormatarSql.cs:186-192 | the output has no tab, no double space, no white space next to a line feed, none at either end |
| NormalizerLaws.NormalizeInk | ComraxFinance/Ferramentas/FormatarSql.cs:186-192 | the clean-up keeps every character that is not white space, in order |
| NormalizerLaws.NormalizeFixed | ComraxFinance/Ferramentas/FormatarSql.cs:186-192 | normalized text is left as it is |
| NormalizerLaws.NormalizeIdempotent | ComraxFinance/Ferramentas/FormatarSql.cs:186-192 | cleaning up twice is cleaning up once |
| NormalizerLaws.NormalizeEmpty | ComraxFinance/Ferramentas/FormatarSql.cs:186-192 | the result is empty exactly when the input is all white space |
| Renderer.NormalizeSql | ComraxFinance/Ferramentas/FormatarSql.cs:186-192 | the four steps rebinding the text give the clean-up, of normalized shape, keeping the non-white characters |
| Renderer.Render | ComraxFinance/Ferramentas/FormatarSql.cs:44-73 | the if-pass, the between-pass and the clean-up in order; an error exactly when the if-pass fails, with its error; a result is normalized |
| Renderer.Rendered | ComraxFinance/Ferramentas/FormatarSql.cs:44-73 | an error only when the if-pass fails, with its error; a result never longer than the template |
| Renderer.RenderedIsNormalized | ComraxFinance/Ferramentas/FormatarSql.cs:68 | a rendered result is normalized and a fixed point of the clean-up |
| Renderer.RenderWithoutDirectives | ComraxFinance/Ferramentas/FormatarSql.cs:50-68 | a template lacking the opener or the closer of each directive is only cleaned up |
| Renderer.RenderPlain | ComraxFinance/Ferramentas/FormatarSql.cs:50-68 | a template without `{` is only cleaned up |
| Renderer.RenderIfBlock | ComraxFinance/Ferramentas/FormatarSql.cs:50-68 | one if-block: the body is kept exactly when the condition holds, and a condition error is the render's error |
| Renderer.RenderIfElseBlock | ComraxFinance/Ferramentas/FormatarSql.cs:50-68 | one if-else-block: exactly one of the two bodies is kept |
| Renderer.IfPassSkipsBetween | ComraxFinance/Ferramentas/FormatarSql.cs:50-57 | the if-pass leaves a between-block unchanged |
| Renderer.RenderBetweenBlock | ComraxFinance/Ferramentas/FormatarSql.cs:59-84 | one between-block: the body is kept exactly when both keys hold non-null values |
| Renderer.RenderIfWithBetween | ComraxFinance/Ferramentas/FormatarSql.cs:50-68 | an if-block whose body holds a between-block: a condition error is the render's error; when it holds the between-pass then decides the inner block; when it fails both go |
| Renderer.StatusExample | ComraxFinance/Ferramentas/FormatarSql.cs:44-73 | `SELECT * {{#if status == 'active'}}WHERE status='active'{{#else}}WHERE 1=1{{/if}}` renders as `SELECT * WHERE status='active'` when status is `active` and as `SELECT * WHERE 1=1` when it is absent |

## Left out

- `RenderFromFile` (lines 33-42) reads a file and raises `FileNotFoundException`. It is I/O, and the model starts from the template text.
- The constructor and the `_basePath` and `_logger` fields (lines 24-31) hold no state that rendering changes.
- The debug log after rendering (line 70) is a call into a logger and does not affect the result.
- The value map is built by reflection over the model's public properties (lines 46-48). Here it is a parameter of type `map<string, Value>`.
- `Value` uses `real` for `decimal`, so it has no range limit and no 28-digit precision.
- `Value` has no other CLR types, such as dates, enums, doubles or other integer widths.
- String ordering (`string.CompareTo`) is culture-sensitive. It is the parameter `Host.collate`. The laws about comparing texts (`OrderLaws`, `CompareMirror`, `TextEquality`, `StatusExample`) assume `OrderedHost`: a text compares equal to itself, swapping two texts flips the sign, and the order is transitive.
- A comparison across kinds converts with `Convert.ChangeType`, which can round or throw. It is the parameter `Host.convertCompare`, which yields an ordering or None for a conversion that throws.
- Same-kind comparisons and the exact widenings Int32 to Int64 and Int32 to decimal are modelled directly.
- `Expressions.Parse`: accepts only the plain forms: `true`/`false` in any case, an optionally signed run of digits within Int32, and an optionally signed decimal with `.` as the separator. The .NET parsers are more lenient, and the model gives a text value where they would not. The split is on U+0020 only, so a token can still hold a tab, a carriage return, a line feed, a vertical tab, a form feed or a Unicode space. `bool.TryParse` trims white space and null characters, and `int.TryParse` and `decimal.TryParse` accept leading and trailing white space: `\t5` is the int 5 in the source and the text `\t5` here. `decimal.TryParse` also accepts a trailing sign (`5-` is -5), thousands separators, the current culture's separators and trailing null characters. Exponents are rejected by both, since `decimal.TryParse` does not allow them by default.
- `Chars.IsWordChar`: `\w` is limited to ASCII letters, digits and the underscore. .NET also accepts other Unicode letters and digits.
- `Chars.Lower`: `RegexOptions.IgnoreCase` and `ToLower` are modelled as ASCII case folding only.
- The .NET regular-expression engine is not modelled. Each expression is replaced by the matching rule it amounts to, written in the comments of `directives.dfy` and `normalizer.dfy`. The rule was derived by hand from the lazy and greedy groups and backtracking.
- `RegexOptions.Compiled` affects only speed.
- Exceptions are `Err` values, not .NET exceptions. An `EvalError` records which exception was raised and the text it names.
- `ComraxFinance/WeatherForecast.cs` is not part of this model. It is unrelated to the template engine.
- The whole-template lemmas `RenderIfBlock`, `RenderIfElseBlock`, `RenderBetweenBlock` and `RenderIfWithBetween` are stated for text without `{` around and inside the blocks. The frame lemmas `IfPassFrame`, `BetweenPassFrame`, `IfSpanReplaced`, `IfElseSpanReplaced` and `BetweenSpanReplaced` also cover text with a `{` in which no span starts.
