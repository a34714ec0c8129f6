/**
 * The older step helpers of src/test/java/modules/core/StepUtil.java: a path
 * `get` over the named storages, a flat `set` into the "TestData" storage, and
 * the resolution of a step input that may be such a path.
 */
module StepUtil {
  import opened Values
  import opened Text
  import opened Paths
  import Storage
  import StepCore

  /**
   * `get(path)`: a path without '.' is the whole storage of that name (null
   * when absent); otherwise the walk over the elements after the storage name,
   * starting from that storage. Unlike Storage's `get`, there is no check for
   * numeric paths and none for an absent storage, whose walk starts from null.
   */
  function Get(stores: map<string, StoreMap>, path: string): (r: Result<Value>)
    ensures '.' !in path ==> r == Ok(StorageValue(stores, path))
  {
    if '.' !in path then Ok(StorageValue(stores, path))
    else
      var tmp := Split(path, '.');
      if tmp == [] then Err(IndexOutOfBounds)
      else
        match Elements(tmp)
        case Err(e) => Err(e)
        case Ok(elements) => Walk(StorageValue(stores, tmp[0]), elements)
  }

  /** A dotted path is the walk of its elements from the named storage, present or not. */
  lemma GetPath(stores: map<string, StoreMap>, name: string, elements: seq<string>)
    requires '.' !in name && |elements| >= 1 && elements[|elements| - 1] != ""
    requires forall i :: 0 <= i < |elements| ==> '.' !in elements[i]
    ensures Get(stores, PathOf(name, elements)) == Walk(StorageValue(stores, name), elements)
  {
    SplitPath(name, elements);
  }

  /**
   * For a path that is not numeric and whose storage exists, this `get` and
   * Storage's `get` read the same value.
   */
  lemma GetAgreesWithStorage(stores: map<string, StoreMap>, path: string)
    requires !IsNumber(path)
    requires '.' in path ==> Split(path, '.') != [] && Split(path, '.')[0] in stores
    ensures Get(stores, path) == Storage.Get(stores, path)
  {
  }

  /**
   * Through a storage that does not exist this `get` throws, where Storage's
   * answers null.
   */
  lemma GetMissingStorage(stores: map<string, StoreMap>, name: string, elements: seq<string>)
    requires '.' !in name && name !in stores && |elements| >= 1 && elements[|elements| - 1] != ""
    requires forall i :: 0 <= i < |elements| ==> '.' !in elements[i]
    requires ElementName(elements[0]).Ok?
    ensures Get(stores, PathOf(name, elements)) == Err(NullPointer)
  {
    GetPath(stores, name, elements);
  }

  /** `get("Name.key[i]")` on a list holding slot `i` is that slot. */
  lemma GetSlot(stores: map<string, StoreMap>, name: string, key: string, i: nat)
    requires name in stores && '.' !in name
    requires '.' !in key && '[' !in key && ']' !in key && i <= MaxInt32
    requires key in stores[name] && stores[name][key].Lst? && i < |stores[name][key].items|
    ensures Get(stores, PathOf(name, [Indexed(key, i)])) == Ok(stores[name][key].items[i])
  {
    DigitsHaveNoBrackets(NatToString(i));
    assert '.' !in Indexed(key, i);
    GetPath(stores, name, [Indexed(key, i)]);
    WalkIndexed(stores[name], key, i, []);
  }

  /**
   * `get("Name.key.next")` where `key` holds a value other than a map answers
   * null, whether `next` is a plain key or a bracketed element.
   */
  lemma GetThroughNonMap(stores: map<string, StoreMap>, name: string, key: string, next: string)
    requires name in stores && '.' !in name
    requires key != "" && '.' !in key && '[' !in key && next != "" && '.' !in next && ElementName(next).Ok?
    requires key in stores[name] && !stores[name][key].Null? && !stores[name][key].Obj?
    ensures Get(stores, PathOf(name, [key, next])) == Ok(Null)
  {
    GetPath(stores, name, [key, next]);
    WalkKey(stores[name], key, [next]);
    WalkStopsAtNonMap(stores[name][key], [next]);
  }

  /** `get("Name.key[i]")` where `key` holds a value other than a list answers null. */
  lemma GetNonList(stores: map<string, StoreMap>, name: string, key: string, i: nat)
    requires name in stores && '.' !in name
    requires '.' !in key && '[' !in key && ']' !in key && i <= MaxInt32
    requires key in stores[name] && !stores[name][key].Null? && !stores[name][key].Lst?
    ensures Get(stores, PathOf(name, [Indexed(key, i)])) == Ok(Null)
  {
    DigitsHaveNoBrackets(NatToString(i));
    assert '.' !in Indexed(key, i);
    GetPath(stores, name, [Indexed(key, i)]);
    IndexedName(key, i);
    WalkStopsAtNonList(stores[name], [Indexed(key, i)], key);
  }

  /**
   * `set(textKey, value)` on the stores: null has no class and throws; an
   * Integer is a type `getType` does not know; a missing "TestData" storage
   * throws on `put`; otherwise `value` is put under the literal `textKey`.
   */
  function SetFlat(stores: map<string, StoreMap>, textKey: string, value: Value)
    : (r: (map<string, StoreMap>, Outcome))
    ensures r.1.Fail? ==> r.0 == stores
    ensures r.1 == Pass <==> !value.Null? && !value.I? && "TestData" in stores
    ensures r.1 == Pass ==> r.0.Keys == stores.Keys && "TestData" in r.0 &&
                            r.0["TestData"].Keys == stores["TestData"].Keys + {textKey} &&
                            r.0["TestData"][textKey] == value
  {
    if value.Null? then (stores, Fail(NullPointer))
    else if value.I? then (stores, Fail(UnsupportedType))
    else if "TestData" !in stores then (stores, Fail(NullPointer))
    else (stores["TestData" := stores["TestData"][textKey := value]], Pass)
  }

  /** A flat write changes no other key of "TestData" and no other storage. */
  lemma SetFlatFrame(stores: map<string, StoreMap>, textKey: string, value: Value, name: string, key: string)
    requires name in stores
    requires name != "TestData" || key != textKey
    ensures var after := SetFlat(stores, textKey, value).0;
            name in after && Lookup(after[name], key) == Lookup(stores[name], key)
  {
  }

  /**
   * A flat write under a key without '.' or '[' is read back by `get` through
   * "TestData.key".
   */
  lemma SetFlatThenGet(stores: map<string, StoreMap>, textKey: string, value: Value)
    requires "TestData" in stores && !value.Null? && !value.I?
    requires textKey != "" && '.' !in textKey && '[' !in textKey
    ensures Get(SetFlat(stores, textKey, value).0, PathOf("TestData", [textKey])) == Ok(value)
  {
    var after := SetFlat(stores, textKey, value).0;
    GetPath(after, "TestData", [textKey]);
    WalkKey(after["TestData"], textKey, []);
  }

  /**
   * `checkIfInputIsVariable(input)`: an input with '.' is read as a path with
   * `get`; any other input is returned as the String itself.
   */
  function CheckIfInputIsVariable(stores: map<string, StoreMap>, input: string): (r: Result<Value>)
    ensures '.' !in input ==> r == Ok(S(input))
    ensures '.' in input ==> r == Get(stores, input)
  {
    if '.' in input then Get(stores, input) else Ok(S(input))
  }

  /**
   * On a path to a stored non-null value, this resolution and the one of
   * StepCore (which also converts booleans and numbers) agree: the stored
   * value wins in both.
   */
  lemma CheckAgreesWithStepCore(stores: map<string, StoreMap>, input: string, numberFormat: string -> Number)
    requires '.' in input && !IsNumber(input)
    requires Split(input, '.') != [] && Split(input, '.')[0] in stores
    requires Storage.Get(stores, input).Ok? && !Storage.Get(stores, input).value.Null?
    ensures CheckIfInputIsVariable(stores, input) == StepCore.CheckIfInputIsVariable(stores, input, numberFormat)
  {
    GetAgreesWithStorage(stores, input);
  }

  /**
   * `checkIfInputIsVariableAndReturnString(input)`: the same value, written
   * with `toString`; a path that reads as null throws.
   */
  function CheckIfInputIsVariableAndReturnString(stores: map<string, StoreMap>, input: string,
                                                 show: Value -> string): (r: Result<string>)
    ensures '.' !in input ==> r == Ok(input)
    ensures '.' in input && Get(stores, input) == Ok(Null) ==> r == Err(NullPointer)
    ensures '.' in input && Get(stores, input).Ok? && Get(stores, input).value.S? ==>
              r == Ok(Get(stores, input).value.s)
    ensures r.Ok? ==> CheckIfInputIsVariable(stores, input).Ok?
  {
    match CheckIfInputIsVariable(stores, input)
    case Err(e) => Err(e)
    case Ok(v) => Render(v, show)
  }

  /** The step helper object, over the shared scenario context. */
  class StepUtil {
    const ctx: Context

    constructor (ctx: Context)
      ensures this.ctx == ctx
    {
      this.ctx := ctx;
    }

    /** `set(textKey, value)`: the flat write, applied to the shared context. */
    method Set(textKey: string, value: Value) returns (ok: Outcome)
      modifies ctx
      ensures (ctx.stores, ok) == SetFlat(old(ctx.stores), textKey, value)
    {
      var testData := if "TestData" in ctx.stores then Some(ctx.stores["TestData"]) else None;
      if value.Null? {
        return Fail(NullPointer);
      }
      if value.I? {
        return Fail(UnsupportedType);
      }
      if testData.None? {
        return Fail(NullPointer);
      }
      ctx.stores := ctx.stores["TestData" := testData.value[textKey := value]];
      return Pass;
    }
  }
}
