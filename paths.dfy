/**
 * Path addressing shared by both `get` implementations
 * (src/test/java/libs/libCore/modules/Storage.java and
 * src/test/java/modules/core/StepUtil.java): a path such as
 * "TestData.orders[2].id" names a storage, then a chain of elements, each a key
 * optionally followed by a list index in brackets.
 */
module Paths {
  import opened Values
  import opened Text

  /** `ctx.Object.get(name, HashMap.class)`: the storage registered under `name`, or null. */
  function StorageValue(stores: map<string, StoreMap>, name: string): (v: Value)
    ensures v.Null? <==> name !in stores
    ensures name in stores ==> v == Obj(stores[name])
  {
    if name in stores then Obj(stores[name]) else Null
  }

  /**
   * `element.split("\\[")[0]`: the key before the first '['. An element made
   * only of '[' splits into no pieces at all, and reading the first one fails.
   */
  function ElementName(e: string): (r: Result<string>)
    ensures r.Ok? ==> '[' !in r.value
    ensures '[' !in e ==> r == Ok(e)
    ensures '[' in e && r.Ok? ==> r.value == e[..IndexOfChar(e, '[')]
    ensures r.Err? <==> e != "" && forall i :: 0 <= i < |e| ==> e[i] == '['
    ensures r.Err? ==> r.error == IndexOutOfBounds
  {
    var pieces := Split(e, '[');
    SplitEmpty(e, '[');
    if pieces == [] then Err(IndexOutOfBounds)
    else
      SplitHead(e, '[');
      Ok(pieces[0])
  }

  /**
   * `Integer.valueOf(e.substring(e.indexOf("[") + 1, e.indexOf("]")))`: the
   * text between the first '[' and the first ']'. A ']' missing or before the
   * '[' is a bad substring range; text that is not a 32-bit integer is a
   * NumberFormatException.
   */
  function BracketIndex(e: string): (r: Result<int>)
    ensures r.Ok? ==> MinInt32 <= r.value <= MaxInt32
    ensures r.Ok? ==> ']' in e
  {
    var open := IndexOfChar(e, '[');
    var close := IndexOfChar(e, ']');
    if close < open + 1 then Err(IndexOutOfBounds)
    else match ParseInt32(e[open + 1..close])
      case None => Err(NumberFormat)
      case Some(n) => Ok(n)
  }

  /** The element that addresses slot `i` of the list under `name`. */
  function Indexed(name: string, i: nat): string {
    name + "[" + NatToString(i) + "]"
  }

  lemma DigitsHaveNoBrackets(digits: string)
    requires AllDigits(digits)
    ensures '[' !in digits && ']' !in digits && '.' !in digits
  {
    forall k | 0 <= k < |digits| ensures digits[k] != '[' && digits[k] != ']' && digits[k] != '.' {
      assert IsDigit(digits[k]);
    }
  }

  /** An element written as `name[i]` is read back as the key `name` and the index `i`. */
  lemma IndexedRoundTrip(name: string, i: nat)
    requires '[' !in name && ']' !in name && i <= MaxInt32
    ensures ElementName(Indexed(name, i)) == Ok(name)
    ensures '[' in Indexed(name, i)
    ensures BracketIndex(Indexed(name, i)) == Ok(i)
  {
    IndexedName(name, i);
    IndexedIndex(name, i);
  }

  lemma IndexedName(name: string, i: nat)
    requires '[' !in name
    ensures ElementName(Indexed(name, i)) == Ok(name)
    ensures '[' in Indexed(name, i)
  {
    var digits := NatToString(i);
    DigitsHaveNoBrackets(digits);
    assert '[' !in digits + "]";
    assert Indexed(name, i) == Join([name, digits + "]"], '[');
    SplitJoin([name, digits + "]"], '[');
    assert Indexed(name, i)[|name|] == '[';
  }

  lemma IndexedIndex(name: string, i: nat)
    requires '[' !in name && ']' !in name && i <= MaxInt32
    ensures BracketIndex(Indexed(name, i)) == Ok(i)
  {
    var digits := NatToString(i);
    var e := Indexed(name, i);
    DigitsHaveNoBrackets(digits);
    assert e[|name|] == '[' && e[..|name|] == name;
    assert IndexOfChar(e, '[') == |name|;
    var close := |name| + 1 + |digits|;
    assert e[close] == ']' && e[..close] == name + "[" + digits;
    assert ']' !in name + "[" + digits;
    assert IndexOfChar(e, ']') == close;
    assert e[|name| + 1..close] == digits;
    ParseIndex(i);
  }

  /** `list.get(index)`. */
  function ListGet(items: seq<Value>, index: int): (r: Result<Value>)
    ensures r.Ok? <==> 0 <= index < |items|
    ensures r.Ok? ==> r.value == items[index]
  {
    if 0 <= index < |items| then Ok(items[index]) else Err(IndexOutOfBounds)
  }

  /**
   * The element loop of `get`, starting from `value`. A map is stepped into by
   * the element's key (an absent key gives null); a bracketed element then
   * indexes the list found there. Any other value ends the walk with null, and
   * so does a bracketed element whose value is not a list. A null value reached
   * with elements left throws, as `value.getClass()` does.
   */
  function Walk(value: Value, elements: seq<string>): (r: Result<Value>)
    decreases |elements|
  {
    if elements == [] then Ok(value)
    else
      var e := elements[0];
      match ElementName(e)
      case Err(err) => Err(err)
      case Ok(name) =>
        if value.Null? then Err(NullPointer)
        else if !value.Obj? then Ok(Null)
        else
          var child := Lookup(value.fields, name);
          if '[' !in e then Walk(child, elements[1..])
          else if child.Null? then Err(NullPointer)
          else if !child.Lst? then Ok(Null)
          else
            match BracketIndex(e)
            case Err(err) => Err(err)
            case Ok(i) =>
              match ListGet(child.items, i)
              case Err(err) => Err(err)
              case Ok(v) => Walk(v, elements[1..])
  }

  /**
   * A walk that reaches a value other than a map with elements left answers
   * null, whether the next element is a plain key or a bracketed one.
   */
  lemma WalkStopsAtNonMap(value: Value, elements: seq<string>)
    requires elements != [] && ElementName(elements[0]).Ok?
    requires !value.Null? && !value.Obj?
    ensures Walk(value, elements) == Ok(Null)
  {
  }

  /** A bracketed element whose value is present but not a list answers null. */
  lemma WalkStopsAtNonList(m: StoreMap, elements: seq<string>, name: string)
    requires elements != [] && '[' in elements[0] && ElementName(elements[0]) == Ok(name)
    requires name in m && !m[name].Null? && !m[name].Lst?
    ensures Walk(Obj(m), elements) == Ok(Null)
  {
  }

  /** `name[i]` on a list holding slot `i` continues from that slot. */
  lemma WalkIndexed(m: StoreMap, name: string, i: nat, rest: seq<string>)
    requires '[' !in name && ']' !in name && i <= MaxInt32
    requires name in m && m[name].Lst? && i < |m[name].items|
    ensures Walk(Obj(m), [Indexed(name, i)] + rest) == Walk(m[name].items[i], rest)
  {
    IndexedRoundTrip(name, i);
    assert ([Indexed(name, i)] + rest)[1..] == rest;
  }

  /** A plain key continues from the value under it, null when it is absent. */
  lemma WalkKey(m: StoreMap, key: string, rest: seq<string>)
    requires '[' !in key
    ensures Walk(Obj(m), [key] + rest) == Walk(Lookup(m, key), rest)
  {
    assert ([key] + rest)[1..] == rest;
  }

  /**
   * The path's elements: `get` re-joins the pieces after the storage name with
   * '.' and splits them again, which gives back exactly those pieces.
   */
  function Elements(pieces: seq<string>): (r: Result<seq<string>>)
    requires forall i :: 0 <= i < |pieces| ==> '.' !in pieces[i]
    requires |pieces| >= 1 ==> pieces[|pieces| - 1] != ""
    ensures |pieces| <= 1 ==> r == Err(IndexOutOfBounds)
    ensures |pieces| > 1 ==> r == Ok(pieces[1..])
  {
    if |pieces| <= 1 then Err(IndexOutOfBounds)
    else
      var rest := Join(pieces[1..], '.');
      SplitJoin(pieces[1..], '.');
      Ok(Split(rest, '.'))
  }

  /** The path that names storage `name` and then `elements`, joined with '.'. */
  function PathOf(name: string, elements: seq<string>): string {
    Join([name] + elements, '.')
  }

  /** Splitting such a path on '.' gives back the storage name and the elements. */
  lemma SplitPath(name: string, elements: seq<string>)
    requires '.' !in name && |elements| >= 1 && elements[|elements| - 1] != ""
    requires forall i :: 0 <= i < |elements| ==> '.' !in elements[i]
    ensures '.' in PathOf(name, elements)
    ensures Split(PathOf(name, elements), '.') == [name] + elements
    ensures Elements([name] + elements) == Ok(elements)
  {
    var pieces := [name] + elements;
    assert pieces[1..] == elements;
    assert forall i :: 0 <= i < |pieces| ==> '.' !in pieces[i] by {
      forall i | 0 <= i < |pieces| ensures '.' !in pieces[i] {
        if i > 0 {
          assert pieces[i] == elements[i - 1];
        }
      }
    }
    SplitJoin(pieces, '.');
    assert PathOf(name, elements)[|name|] == '.';
  }
}
