/**
 * The values the configuration store holds, the failures its operations
 * report, and the process-wide context that owns every named storage.
 *
 * A stored value is one of the Java objects the store ever contains: Integer,
 * Long, Double, String, Boolean, null, an ArrayList of values or a HashMap
 * from keys to values. Equality of these datatype values is Java's `equals`
 * on the corresponding objects (an Integer never equals a Long; a Double is
 * compared by its bit pattern, as `Double.equals` does).
 */
module Values {
  import Text

  type int32 = x: int | -0x8000_0000 <= x < 0x8000_0000
  type int64 = x: int | -0x8000_0000_0000_0000 <= x < 0x8000_0000_0000_0000

  /** A java.lang.Double, kept opaque: only its bit pattern is observable. */
  datatype Double = Double(bits: bv64)

  datatype Value =
    | I(i: int32)                      // java.lang.Integer
    | L(l: int64)                      // java.lang.Long
    | D(d: Double)                     // java.lang.Double
    | S(s: string)                     // java.lang.String
    | B(b: bool)                       // java.lang.Boolean
    | Null                             // null
    | Lst(items: seq<Value>)           // java.util.ArrayList
    | Obj(fields: map<string, Value>)  // java.util.HashMap

  /**
   * What the locale's `NumberFormat.parse` made of a numeric text: a Long, a
   * Double, or a parse failure. The parser itself is outside the model.
   */
  datatype Number =
    | LongNumber(n: int64)
    | DoubleNumber(d: Double)
    | NotANumber

  /** One named storage: the HashMap registered under a name such as "TestData". */
  type StoreMap = map<string, Value>

  /** `HashMap.get`: the value under `k`, or null when there is none. */
  function Lookup(m: StoreMap, k: string): (v: Value)
    ensures k !in m ==> v.Null?
  {
    if k in m then m[k] else Null
  }

  /**
   * Why an operation stopped. `Log.error` marks the running step as failed, and
   * an exception ends the operation the same way; both are failures here.
   */
  datatype Error =
    | StorageMissing         // set through a storage that does not exist
    | KeyMissing             // set through a key that is absent or null
    | NameEmpty              // empty storage name for the snapshot file
    | IdentifierEmpty        // empty snapshot identifier
    | SnapshotFileMissing    // the snapshot file does not exist
    | FiltersEmpty           // a line filter called without filters
    | BlockKeywordMissing    // a block filter without begin or end keyword
    | TemplateUnclosed       // "${" without a closing "}"
    | UnsupportedType        // getType does not know the value's class
    | NumberUnparseable      // NumberFormat could not parse a numeric string
    | SyntaxError            // the JSON parser rejected a config document
    | FileMissing            // a config file that cannot be read
    | FuelExhausted          // the include or template recursion bound was reached
    | NullPointer            // NullPointerException
    | IndexOutOfBounds       // String, array or List index out of range
    | NumberFormat           // Integer.valueOf rejected an index
    | ClassCast              // a value is not of the type it is cast to
    | IllegalState           // Gson: a top-level entry that is not a JSON object

  datatype Result<+T> = Ok(value: T) | Err(error: Error)

  datatype Outcome = Pass | Fail(error: Error)

  /**
   * The process-wide scenario context: every named storage, by name. Config
   * ingestion, path writes and snapshot loads all update this one object.
   */
  class Context {
    var stores: map<string, StoreMap>

    constructor ()
      ensures stores == map[]
    {
      stores := map[];
    }
  }

  /** The integer an Integer or Long holds; narrowing is judged by it. */
  function IntegralValue(v: Value): int
    requires v.I? || v.L?
  {
    if v.I? then v.i else v.l
  }

  /**
   * `String.valueOf(v)` for the values `toString` is called on: a String is
   * itself, a Boolean is "true" or "false", an Integer or a Long is written in
   * decimal, and `null` throws. Doubles, lists and maps are written by `show`,
   * which is outside the model.
   */
  function Render(v: Value, show: Value -> string): (r: Result<string>)
    ensures r.Err? <==> v.Null?
    ensures v.S? ==> r == Ok(v.s)
  {
    match v
    case Null => Err(NullPointer)
    case S(s) => Ok(s)
    case B(b) => Ok(if b then "true" else "false")
    case I(i) => Ok(Text.IntToString(i))
    case L(l) => Ok(Text.IntToString(l))
    case _ => Ok(show(v))
  }
}
