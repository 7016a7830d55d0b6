/**
 * The value model: the flat map from property name to the boxed value a property
 * returns, as FormatarSql.Render builds it from the model object.
 */
module Values {
  import opened Wrappers

  /** System.Int32 and System.Int64. */
  type Int32 = x: int | -0x8000_0000 <= x < 0x8000_0000
  type Int64 = x: int | -0x8000_0000_0000_0000 <= x < 0x8000_0000_0000_0000

  /**
   * A boxed property value: null, bool, int, long, decimal, string, or an
   * enumerable collection (a list or an array).
   */
  datatype Value =
    | Null
    | Bool(b: bool)
    | Int(i: Int32)
    | Long(l: Int64)
    | Dec(d: real)
    | Str(s: string)
    | Coll(items: seq<Value>)

  /** The values of one render call, keyed by property name (case-sensitive). */
  type ValueMap = map<string, Value>

  /** Dictionary.TryGetValue: a missing key reads as null. */
  function Lookup(values: ValueMap, key: string): (v: Value)
    ensures key !in values ==> v == Null
  {
    if key in values then values[key] else Null
  }

  /**
   * What the .NET runtime decides and the engine does not: the culture-sensitive
   * ordering of strings (String.CompareTo), and comparing a left value with a
   * literal of another type after Convert.ChangeType has converted the literal to
   * the left value's type (None when that conversion throws).
   */
  datatype Host = Host(
    collate: (string, string) -> int,
    convertCompare: (Value, Value) -> Option<int>)

  /**
   * A host whose string ordering behaves as String.CompareTo does: every string
   * compares equal to itself, swapping the arguments flips the sign, and "not
   * after" is transitive. Equal ordering does not imply equal strings.
   */
  ghost predicate OrderedHost(h: Host)
  {
    && (forall a :: h.collate(a, a) == 0)
    && (forall a, b :: (h.collate(a, b) < 0 <==> h.collate(b, a) > 0) && (h.collate(a, b) == 0 <==> h.collate(b, a) == 0))
    && (forall a, b, c :: h.collate(a, b) <= 0 && h.collate(b, c) <= 0 ==> h.collate(a, c) <= 0)
  }
}
