/**
 * The path-addressable store (src/test/java/libs/libCore/modules/Storage.java):
 * `get` reads a value by path, `set` writes through a path into the nested maps
 * and lists of a storage, and `writeToFile` / `readFromFile` keep one snapshot
 * line per identifier in a persistence file.
 *
 * Nested HashMaps and ArrayLists are values here; a write inside a storage
 * rebuilds the storage along the path instead of updating a shared object.
 */
module Storage {
  import opened Values
  import opened Text
  import opened Paths
  import opened Config

  // ---------------------------------------------------------------------------
  // get

  /**
   * `get(path)`: null for a numeric path; the whole storage for a path without
   * '.'; otherwise null when the storage is absent, and the walk over the
   * remaining elements when it is present.
   */
  function Get(stores: map<string, StoreMap>, path: string): (r: Result<Value>)
    ensures IsNumber(path) ==> r == Ok(Null)
    ensures !IsNumber(path) && '.' !in path ==> r == Ok(StorageValue(stores, path))
  {
    if IsNumber(path) then Ok(Null)
    else if '.' !in path then Ok(StorageValue(stores, path))
    else
      var tmp := Split(path, '.');
      if tmp == [] then Err(IndexOutOfBounds)
      else if tmp[0] !in stores then Ok(Null)
      else
        match Elements(tmp)
        case Err(e) => Err(e)
        case Ok(elements) => Walk(Obj(stores[tmp[0]]), elements)
  }

  /**
   * A dotted path whose storage exists is exactly the walk of its elements
   * from that storage.
   */
  lemma GetPath(stores: map<string, StoreMap>, name: string, elements: seq<string>)
    requires '.' !in name && |elements| >= 1 && elements[|elements| - 1] != ""
    requires forall i :: 0 <= i < |elements| ==> '.' !in elements[i]
    requires !IsNumber(PathOf(name, elements))
    ensures Get(stores, PathOf(name, elements)) ==
              if name in stores then Walk(Obj(stores[name]), elements) else Ok(Null)
  {
    SplitPath(name, elements);
  }

  /** A storage that does not exist reads as null through any dotted path. */
  lemma GetMissingStorage(stores: map<string, StoreMap>, path: string)
    requires !IsNumber(path) && '.' in path
    requires Split(path, '.') != [] && Split(path, '.')[0] !in stores
    ensures Get(stores, path) == Ok(Null)
  {
  }

  /** `get("Name.key")` is the value under `key`, null when the key is absent. */
  lemma GetField(stores: map<string, StoreMap>, name: string, key: string)
    requires name in stores && '.' !in name
    requires key != "" && '.' !in key && '[' !in key
    requires !IsNumber(PathOf(name, [key]))
    ensures Get(stores, PathOf(name, [key])) == Ok(Lookup(stores[name], key))
  {
    GetPath(stores, name, [key]);
    WalkKey(stores[name], key, []);
  }

  /** `get("Name.key[i]")` on a list holding slot `i` is that slot. */
  lemma GetSlot(stores: map<string, StoreMap>, name: string, key: string, i: nat)
    requires name in stores && '.' !in name
    requires '.' !in key && '[' !in key && ']' !in key && i <= MaxInt32
    requires key in stores[name] && stores[name][key].Lst? && i < |stores[name][key].items|
    requires !IsNumber(PathOf(name, [Indexed(key, i)]))
    ensures Get(stores, PathOf(name, [Indexed(key, i)])) == Ok(stores[name][key].items[i])
  {
    var seg := Indexed(key, i);
    DigitsHaveNoBrackets(NatToString(i));
    assert '.' !in seg;
    GetPath(stores, name, [seg]);
    assert [seg] == [seg] + [];
    WalkIndexed(stores[name], key, i, []);
  }

  /** Reading `name.key[i].field` gives that field of the map in slot `i`. */
  lemma GetSlotField(stores: map<string, StoreMap>, name: string, key: string, i: nat, field: string)
    requires name in stores && '.' !in name
    requires '.' !in key && '[' !in key && ']' !in key && i <= MaxInt32
    requires key in stores[name] && stores[name][key].Lst?
    requires i < |stores[name][key].items| && stores[name][key].items[i].Obj?
    requires field != "" && '.' !in field && '[' !in field
    requires field in stores[name][key].items[i].fields
    requires !IsNumber(PathOf(name, [Indexed(key, i), field]))
    ensures Get(stores, PathOf(name, [Indexed(key, i), field])) == Ok(stores[name][key].items[i].fields[field])
  {
    var seg := Indexed(key, i);
    var fields := stores[name][key].items[i].fields;
    DigitsHaveNoBrackets(NatToString(i));
    assert '.' !in seg;
    GetPath(stores, name, [seg, field]);
    assert [seg, field] == [seg] + [field];
    WalkIndexed(stores[name], key, i, [field]);
    assert [field] == [field] + [];
    WalkKey(fields, field, []);
    assert Walk(Obj(fields), [field]) == Ok(fields[field]);
  }

  /**
   * Reading through a key that is absent does not answer null: the walk asks
   * the missing value for its class and throws.
   */
  lemma GetThroughMissingKey(stores: map<string, StoreMap>, name: string, key: string, next: string)
    requires name in stores && '.' !in name
    requires key != "" && '.' !in key && '[' !in key && key !in stores[name]
    requires next != "" && '.' !in next && ElementName(next).Ok?
    requires !IsNumber(PathOf(name, [key, next]))
    ensures Get(stores, PathOf(name, [key, next])) == Err(NullPointer)
  {
    GetPath(stores, name, [key, next]);
    WalkKey(stores[name], key, [next]);
  }

  // ---------------------------------------------------------------------------
  // set and parseMap

  /** One step from a map to a map nested in it: through a key, or through a list slot under a key. */
  datatype Step = Field(key: string) | Slot(key: string, index: nat)

  /** The map reached from `m` by following `path`, if every step leads to a map. */
  function At(m: StoreMap, path: seq<Step>): Option<StoreMap>
    decreases |path|
  {
    if path == [] then Some(m)
    else match path[0]
      case Field(f) =>
        if f in m && m[f].Obj? then At(m[f].fields, path[1..]) else None
      case Slot(f, i) =>
        if f in m && m[f].Lst? && i < |m[f].items| && m[f].items[i].Obj?
        then At(m[f].items[i].fields, path[1..]) else None
  }

  /**
   * `m` with key `k` of the map at `path` set to `v`, which is what a `put` or
   * a list `set` on that nested map does to the storage holding it.
   */
  function PutAt(m: StoreMap, path: seq<Step>, k: string, v: Value): (r: StoreMap)
    requires At(m, path).Some?
    ensures At(r, path) == Some(At(m, path).value[k := v])
    ensures path == [] ==> forall f :: f != k ==> Lookup(r, f) == Lookup(m, f)
    ensures path != [] ==> r.Keys == m.Keys
    ensures path != [] ==> forall f :: f != path[0].key ==> Lookup(r, f) == Lookup(m, f)
    ensures path != [] && path[0].Slot? ==>
              var f, i := path[0].key, path[0].index;
              r[f].Lst? && |r[f].items| == |m[f].items| &&
              forall j :: 0 <= j < |m[f].items| && j != i ==> r[f].items[j] == m[f].items[j]
    decreases |path|
  {
    if path == [] then m[k := v]
    else match path[0]
      case Field(f) =>
        var r := m[f := Obj(PutAt(m[f].fields, path[1..], k, v))];
        assert At(r, path) == At(r[f].fields, path[1..]);
        r
      case Slot(f, i) =>
        var items := m[f].items;
        var r := m[f := Lst(items[i := Obj(PutAt(items[i].fields, path[1..], k, v))])];
        assert At(r, path) == At(r[f].items[i].fields, path[1..]);
        r
  }

  /** Following one more step into a nested map. */
  lemma {:induction false} AtStep(m: StoreMap, path: seq<Step>, s: Step)
    requires At(m, path).Some?
    ensures At(m, path + [s]) == At(At(m, path).value, [s])
    decreases |path|
  {
    if path == [] {
      assert path + [s] == [s];
    } else {
      assert (path + [s])[1..] == path[1..] + [s];
      match path[0]
      case Field(f) => AtStep(m[f].fields, path[1..], s);
      case Slot(f, i) => AtStep(m[f].items[i].fields, path[1..], s);
    }
  }

  /**
   * A write at `path` changes, in each map the path passes through, only the
   * key the path leaves it by, and in a list it passes through only the slot
   * it enters: every other key and every other slot keeps its value.
   */
  lemma {:induction false} PutAtFrameAlongPath(m: StoreMap, path: seq<Step>, k: string, v: Value, j: nat)
    requires At(m, path).Some? && j < |path|
    ensures At(m, path[..j]).Some? && At(PutAt(m, path, k, v), path[..j]).Some?
    ensures var before, after := At(m, path[..j]).value, At(PutAt(m, path, k, v), path[..j]).value;
            forall f :: f != path[j].key ==> Lookup(after, f) == Lookup(before, f)
    ensures var before, after := At(m, path[..j]).value, At(PutAt(m, path, k, v), path[..j]).value;
            path[j].Slot? ==>
              var g, i := path[j].key, path[j].index;
              g in before && before[g].Lst? && g in after && after[g].Lst? &&
              |after[g].items| == |before[g].items| &&
              forall x :: 0 <= x < |before[g].items| && x != i ==> after[g].items[x] == before[g].items[x]
    decreases |path|
  {
    var r := PutAt(m, path, k, v);
    if j == 0 {
      assert path[..0] == [];
    } else {
      assert path[..j][1..] == path[1..][..j - 1];
      assert path[1..][j - 1] == path[j];
      match path[0]
      case Field(g) =>
        PutAtFrameAlongPath(m[g].fields, path[1..], k, v, j - 1);
      case Slot(g, i) =>
        PutAtFrameAlongPath(m[g].items[i].fields, path[1..], k, v, j - 1);
    }
  }

  /**
   * One call of `parseMap` on the map at `path`, for the element `seg` whose key
   * `key` holds a non-null value:
   * - a map under `key` is not written: the walk moves to the value under the
   *   whole element text, which must be a map (or null, which leaves no map);
   * - a list under `key` is indexed by the bracket; a slot holding a map is
   *   moved into, any other slot is overwritten;
   * - any other value is replaced by `put`, and the walk stays where it is.
   */
  function ParseMap(root: StoreMap, path: seq<Step>, seg: string, key: string, value: Value)
    : (r: Result<(StoreMap, Option<seq<Step>>)>)
    requires At(root, path).Some? && key in At(root, path).value
    ensures r.Ok? && r.value.1.Some? ==> At(r.value.0, r.value.1.value).Some?
  {
    var here := At(root, path).value;
    var current := here[key];
    if current.Obj? then
      match Lookup(here, seg)
      case Obj(_) =>
        AtStep(root, path, Field(seg));
        Ok((root, Some(path + [Field(seg)])))
      case Null => Ok((root, None))
      case _ => Err(ClassCast)
    else if current.Lst? then
      match BracketIndex(seg)
      case Err(e) => Err(e)
      case Ok(i) =>
        if i < 0 || i >= |current.items| then Err(IndexOutOfBounds)
        else if current.items[i].Obj? then
          AtStep(root, path, Slot(key, i));
          Ok((root, Some(path + [Slot(key, i)])))
        else Ok((PutAt(root, path, key, Lst(current.items[i := value])), Some(path)))
    else Ok((PutAt(root, path, key, value), Some(path)))
  }

  /**
   * `parseMap` on a map under the key writes nothing: the walk moves into the
   * map under the whole element text, or to no map when that is null, and
   * fails on anything else.
   */
  lemma ParseMapIntoMap(root: StoreMap, path: seq<Step>, seg: string, key: string, value: Value)
    requires At(root, path).Some? && key in At(root, path).value && At(root, path).value[key].Obj?
    ensures var here, r := At(root, path).value, ParseMap(root, path, seg, key, value);
            (r.Ok? <==> Lookup(here, seg).Obj? || Lookup(here, seg).Null?) &&
            (r.Ok? ==> r.value.0 == root) &&
            (Lookup(here, seg).Obj? ==> r.value.1 == Some(path + [Field(seg)])) &&
            (Lookup(here, seg).Null? ==> r.value.1.None?)
  {
  }

  /**
   * `parseMap` on a list under the key: the bracketed slot must exist; a map
   * there is moved into, any other value is overwritten in place and the walk
   * stays put.
   */
  lemma ParseMapIntoList(root: StoreMap, path: seq<Step>, seg: string, key: string, value: Value)
    requires At(root, path).Some? && key in At(root, path).value && At(root, path).value[key].Lst?
    ensures var here, r := At(root, path).value, ParseMap(root, path, seg, key, value);
            r.Ok? <==> BracketIndex(seg).Ok? && 0 <= BracketIndex(seg).value < |here[key].items|
    ensures var here, r := At(root, path).value, ParseMap(root, path, seg, key, value);
            r.Ok? ==>
              var i := BracketIndex(seg).value;
              (here[key].items[i].Obj? ==> r.value == (root, Some(path + [Slot(key, i)]))) &&
              (!here[key].items[i].Obj? ==>
                 r.value.1 == Some(path) && At(r.value.0, path) == Some(here[key := Lst(here[key].items[i := value])]))
  {
  }

  /** `parseMap` on any other value under the key replaces it, and the walk stays put. */
  lemma ParseMapReplace(root: StoreMap, path: seq<Step>, seg: string, key: string, value: Value)
    requires At(root, path).Some? && key in At(root, path).value
    requires !At(root, path).value[key].Obj? && !At(root, path).value[key].Lst?
    ensures var here, r := At(root, path).value, ParseMap(root, path, seg, key, value);
            r.Ok? && r.value.1 == Some(path) && At(r.value.0, path) == Some(here[key := value])
  {
  }

  /**
   * The loop of `set` over the elements after the storage name, with the
   * storage as it stands and the map the loop is at (None once it has moved to
   * a null). Each element's name is taken first, as `split("\\[")[0]` is
   * evaluated before the map is touched; then a null map or an absent or null
   * key stops it. Writes made before a failure stay.
   */
  function SetElements(root: StoreMap, loc: Option<seq<Step>>, segs: seq<string>, value: Value)
    : (StoreMap, Outcome)
    requires loc.Some? ==> At(root, loc.value).Some?
    decreases |segs|
  {
    if segs == [] then (root, Pass)
    else
      match ElementName(segs[0])
      case Err(e) => (root, Fail(e))
      case Ok(key) =>
        if loc.None? then (root, Fail(NullPointer))
        else if Lookup(At(root, loc.value).value, key).Null? then (root, Fail(KeyMissing))
        else
          match ParseMap(root, loc.value, segs[0], key, value)
          case Err(e) => (root, Fail(e))
          case Ok(next) => SetElements(next.0, next.1, segs[1..], value)
  }

  /** `set(textKey, value)` on the stores: the storage named first, then the elements. */
  function SetPath(stores: map<string, StoreMap>, textKey: string, value: Value): (map<string, StoreMap>, Outcome) {
    var t := Split(textKey, '.');
    if t == [] then (stores, Fail(IndexOutOfBounds))
    else if t[0] !in stores then (stores, Fail(StorageMissing))
    else
      var (root, ok) := SetElements(stores[t[0]], Some([]), t[1..], value);
      (stores[t[0] := root], ok)
  }

  /** Writing through a storage that does not exist fails and changes nothing. */
  lemma SetMissingStorage(stores: map<string, StoreMap>, name: string, elements: seq<string>, value: Value)
    requires name !in stores && '.' !in name
    requires |elements| >= 1 && elements[|elements| - 1] != ""
    requires forall i :: 0 <= i < |elements| ==> '.' !in elements[i]
    ensures SetPath(stores, PathOf(name, elements), value) == (stores, Fail(StorageMissing))
  {
    SplitPath(name, elements);
  }

  /** `set("Name.key", v)`: an absent or null key is an error and nothing is written. */
  lemma SetKeyMissing(stores: map<string, StoreMap>, name: string, key: string, value: Value)
    requires name in stores && '.' !in name
    requires key != "" && '.' !in key && '[' !in key && Lookup(stores[name], key).Null?
    ensures SetPath(stores, PathOf(name, [key]), value) == (stores, Fail(KeyMissing))
  {
    SplitPath(name, [key]);
    assert stores[name := stores[name]] == stores;
  }

  /** `set("Name.key", v)` on a key holding a plain value replaces it with `put`. */
  lemma SetScalar(stores: map<string, StoreMap>, name: string, key: string, value: Value)
    requires name in stores && '.' !in name
    requires key != "" && '.' !in key && '[' !in key && key in stores[name]
    requires !stores[name][key].Null? && !stores[name][key].Obj? && !stores[name][key].Lst?
    ensures SetPath(stores, PathOf(name, [key]), value) ==
              (stores[name := stores[name][key := value]], Pass)
  {
    SplitPath(name, [key]);
    var root := stores[name];
    assert ([name] + [key])[1..] == [key];
    assert ParseMap(root, [], key, key, value) == Ok((root[key := value], Some([])));
    assert SetElements(root, Some([]), [key], value) == SetElements(root[key := value], Some([]), [], value);
  }

  /** `set("Name.key", v)` on a key holding a map moves into that map and writes nothing. */
  lemma SetMapNotWritten(stores: map<string, StoreMap>, name: string, key: string, value: Value)
    requires name in stores && '.' !in name
    requires key != "" && '.' !in key && '[' !in key && key in stores[name] && stores[name][key].Obj?
    ensures SetPath(stores, PathOf(name, [key]), value) == (stores, Pass)
  {
    SplitPath(name, [key]);
    var root := stores[name];
    assert ([name] + [key])[1..] == [key];
    AtStep(root, [], Field(key));
    assert At(root, []) == Some(root);
    assert [] + [Field(key)] == [Field(key)];
    assert ParseMap(root, [], key, key, value) == Ok((root, Some([Field(key)])));
    assert SetElements(root, Some([]), [key], value) == SetElements(root, Some([Field(key)]), [], value);
    assert stores[name := root] == stores;
  }

  /**
   * At any depth, an element whose key is absent or null in the map the walk
   * has reached stops `set` with an error; the storage keeps whatever was
   * written before.
   */
  lemma SetElementsKeyMissing(root: StoreMap, loc: seq<Step>, segs: seq<string>, value: Value)
    requires At(root, loc).Some? && segs != []
    requires ElementName(segs[0]).Ok? && Lookup(At(root, loc).value, ElementName(segs[0]).value).Null?
    ensures SetElements(root, Some(loc), segs, value) == (root, Fail(KeyMissing))
  {
  }

  /**
   * An element whose name cannot be taken fails with that error wherever the
   * loop stands, even after it has moved to a null map: the `split` comes
   * before any use of the map.
   */
  lemma SetElementsBadName(root: StoreMap, loc: Option<seq<Step>>, segs: seq<string>, value: Value)
    requires loc.Some? ==> At(root, loc.value).Some?
    requires segs != [] && ElementName(segs[0]).Err?
    ensures SetElements(root, loc, segs, value) == (root, Fail(ElementName(segs[0]).error))
  {
  }

  /**
   * `key[0]` on a map under `key` looks up the whole element, finds null and
   * moves the loop to a null map; a following element made only of '[' then
   * fails on its name, before the null map is used.
   */
  lemma SetNameBeforeNull(root: StoreMap, seg: string, key: string, last: string, value: Value)
    requires ElementName(seg) == Ok(key) && key in root && root[key].Obj? && Lookup(root, seg).Null?
    requires ElementName(last).Err?
    ensures SetElements(root, Some([]), [seg, last], value) == (root, Fail(ElementName(last).error))
  {
    assert At(root, []) == Some(root);
    ParseMapIntoMap(root, [], seg, key, value);
    assert [seg, last][1..] == [last];
    SetElementsBadName(root, None, [last], value);
  }

  /**
   * `set("Name.key.next", v)` where `key` holds a map without `next` (or with
   * null under it) is an error, and nothing is written.
   */
  lemma SetNestedKeyMissing(stores: map<string, StoreMap>, name: string, key: string, next: string, value: Value)
    requires name in stores && '.' !in name
    requires key != "" && '.' !in key && '[' !in key && key in stores[name] && stores[name][key].Obj?
    requires next != "" && '.' !in next && '[' !in next && Lookup(stores[name][key].fields, next).Null?
    ensures SetPath(stores, PathOf(name, [key, next]), value) == (stores, Fail(KeyMissing))
  {
    SetPathUnfold(stores, name, [key, next], value);
    var root := stores[name];
    SetEnterMap(root, key, [next], value);
    assert [key] + [next] == [key, next];
    SetElementsKeyMissing(root, [Field(key)], [next], value);
    assert stores[name := root] == stores;
  }

  /** An element naming a key that holds a map moves the loop into that map and writes nothing. */
  lemma SetEnterMap(root: StoreMap, key: string, rest: seq<string>, value: Value)
    requires '[' !in key && key in root && root[key].Obj?
    ensures At(root, [Field(key)]).Some?
    ensures SetElements(root, Some([]), [key] + rest, value) == SetElements(root, Some([Field(key)]), rest, value)
  {
    AtStep(root, [], Field(key));
    assert At(root, []) == Some(root);
    assert [] + [Field(key)] == [Field(key)];
    assert ParseMap(root, [], key, key, value) == Ok((root, Some([Field(key)])));
    assert ([key] + rest)[1..] == rest;
  }

  /**
   * `set("Name.key[i]", v)` on a list whose slot `i` is not a map overwrites
   * that slot: the list keeps its length and its other slots.
   */
  lemma SetListSlot(stores: map<string, StoreMap>, name: string, key: string, i: nat, value: Value)
    requires name in stores && '.' !in name
    requires '.' !in key && '[' !in key && ']' !in key && i <= MaxInt32
    requires key in stores[name] && stores[name][key].Lst?
    requires i < |stores[name][key].items| && !stores[name][key].items[i].Obj?
    ensures SetPath(stores, PathOf(name, [Indexed(key, i)]), value) ==
              (stores[name := stores[name][key := Lst(stores[name][key].items[i := value])]], Pass)
  {
    var root := stores[name];
    var seg := Indexed(key, i);
    DigitsHaveNoBrackets(NatToString(i));
    assert '.' !in seg;
    SetPathUnfold(stores, name, [seg], value);
    IndexedRoundTrip(key, i);
    assert At(root, []) == Some(root);
    ParseMapIntoList(root, [], seg, key, value);
    var written := root[key := Lst(root[key].items[i := value])];
    assert ParseMap(root, [], seg, key, value) == Ok((written, Some([])));
    assert [seg][1..] == [];
    assert SetElements(root, Some([]), [seg], value) == SetElements(written, Some([]), [], value);
  }

  /**
   * `set("Name.key[i].field", v)` on a list slot holding a map moves into that
   * map and writes `field` there.
   */
  lemma SetSlotField(stores: map<string, StoreMap>, name: string, key: string, i: nat, field: string, value: Value)
    requires name in stores && '.' !in name
    requires '.' !in key && '[' !in key && ']' !in key && i <= MaxInt32
    requires key in stores[name] && stores[name][key].Lst?
    requires i < |stores[name][key].items| && stores[name][key].items[i].Obj?
    requires field != "" && '.' !in field && '[' !in field
    requires field in stores[name][key].items[i].fields
    requires var prior := stores[name][key].items[i].fields[field]; !prior.Null? && !prior.Obj? && !prior.Lst?
    ensures At(stores[name], [Slot(key, i)]).Some?
    ensures SetPath(stores, PathOf(name, [Indexed(key, i), field]), value) ==
              (stores[name := PutAt(stores[name], [Slot(key, i)], field, value)], Pass)
  {
    var root := stores[name];
    var seg := Indexed(key, i);
    DigitsHaveNoBrackets(NatToString(i));
    assert '.' !in seg;
    SetPathUnfold(stores, name, [seg, field], value);
    SetEnterSlot(root, key, i, [field], value);
    assert [seg] + [field] == [seg, field];
    SetPutHere(root, [Slot(key, i)], field, value);
  }

  /** A write through an existing storage is the element loop on that storage. */
  lemma SetPathUnfold(stores: map<string, StoreMap>, name: string, elements: seq<string>, value: Value)
    requires name in stores && '.' !in name
    requires |elements| >= 1 && elements[|elements| - 1] != ""
    requires forall i :: 0 <= i < |elements| ==> '.' !in elements[i]
    ensures var r := SetElements(stores[name], Some([]), elements, value);
            SetPath(stores, PathOf(name, elements), value) == (stores[name := r.0], r.1)
  {
    SplitPath(name, elements);
    assert ([name] + elements)[1..] == elements;
  }

  lemma SetEnterSlot(root: StoreMap, key: string, i: nat, rest: seq<string>, value: Value)
    requires '[' !in key && ']' !in key && i <= MaxInt32
    requires key in root && root[key].Lst? && i < |root[key].items| && root[key].items[i].Obj?
    ensures At(root, [Slot(key, i)]).Some?
    ensures SetElements(root, Some([]), [Indexed(key, i)] + rest, value) ==
              SetElements(root, Some([Slot(key, i)]), rest, value)
  {
    var seg := Indexed(key, i);
    IndexedRoundTrip(key, i);
    AtStep(root, [], Slot(key, i));
    assert At(root, []) == Some(root);
    assert [] + [Slot(key, i)] == [Slot(key, i)];
    assert ParseMap(root, [], seg, key, value) == Ok((root, Some([Slot(key, i)])));
    assert ([seg] + rest)[1..] == rest;
  }

  lemma SetPutHere(root: StoreMap, loc: seq<Step>, field: string, value: Value)
    requires At(root, loc).Some? && field in At(root, loc).value && '[' !in field
    requires var prior := At(root, loc).value[field]; !prior.Null? && !prior.Obj? && !prior.Lst?
    ensures SetElements(root, Some(loc), [field], value) == (PutAt(root, loc, field, value), Pass)
  {
    assert ParseMap(root, loc, field, field, value) == Ok((PutAt(root, loc, field, value), Some(loc)));
    assert [field][1..] == [];
  }

  /** A write into the map in list slot `i` under `key` changes that map's `field` only. */
  lemma PutAtSlot(root: StoreMap, key: string, i: nat, field: string, value: Value)
    requires key in root && root[key].Lst? && i < |root[key].items| && root[key].items[i].Obj?
    ensures var written := PutAt(root, [Slot(key, i)], field, value);
            written[key].Lst? && i < |written[key].items| && written[key].items[i].Obj? &&
            written[key].items[i].fields == root[key].items[i].fields[field := value]
  {
    assert At(root, [Slot(key, i)]).Some?;
    assert At(PutAt(root, [Slot(key, i)], field, value), [Slot(key, i)]) ==
           Some(root[key].items[i].fields[field := value]);
  }

  /** After that write, reading the same path gives the value written. */
  lemma SetSlotFieldThenGet(stores: map<string, StoreMap>, name: string, key: string, i: nat, field: string, value: Value)
    requires name in stores && '.' !in name
    requires '.' !in key && '[' !in key && ']' !in key && i <= MaxInt32
    requires key in stores[name] && stores[name][key].Lst?
    requires i < |stores[name][key].items| && stores[name][key].items[i].Obj?
    requires field != "" && '.' !in field && '[' !in field
    requires field in stores[name][key].items[i].fields
    requires var prior := stores[name][key].items[i].fields[field]; !prior.Null? && !prior.Obj? && !prior.Lst?
    requires !IsNumber(PathOf(name, [Indexed(key, i), field]))
    ensures SetPath(stores, PathOf(name, [Indexed(key, i), field]), value).1 == Pass
    ensures Get(SetPath(stores, PathOf(name, [Indexed(key, i), field]), value).0,
                PathOf(name, [Indexed(key, i), field])) == Ok(value)
  {
    SetSlotField(stores, name, key, i, field, value);
    var root := stores[name];
    var loc := [Slot(key, i)];
    var written := PutAt(root, loc, field, value);
    var after := stores[name := written];
    PutAtSlot(root, key, i, field, value);
    GetSlotField(after, name, key, i, field);
  }

  // ---------------------------------------------------------------------------
  // Snapshot lines

  /** The line a snapshot is written as. */
  function Entry(identifier: string, content: string): string {
    identifier + "=" + content
  }

  /** The lines `writeToFile` and `readFromFile` treat as the snapshot of `identifier`. */
  predicate IsSnapshotOf(line: string, identifier: string) {
    StartsWith(line, identifier + "={")
  }

  /** Every snapshot line of `identifier` replaced by `entry`. */
  function Overwritten(lines: seq<string>, identifier: string, entry: string): seq<string> {
    seq(|lines|, i requires 0 <= i < |lines| => if IsSnapshotOf(lines[i], identifier) then entry else lines[i])
  }

  predicate HasSnapshot(lines: seq<string>, identifier: string) {
    exists i :: 0 <= i < |lines| && IsSnapshotOf(lines[i], identifier)
  }

  /**
   * The persistence file after a write (None: the file does not exist). An
   * existing empty file is written once and then appended to once more.
   */
  function WrittenFile(file: Option<seq<string>>, identifier: string, entry: string): seq<string> {
    match file
    case None => [entry]
    case Some(lines) =>
      if lines == [] then [entry, entry]
      else if HasSnapshot(lines, identifier) then Overwritten(lines, identifier, entry)
      else lines + [entry]
  }

  /**
   * A write leaves the lines of other snapshots where they were, replaces the
   * lines of this one without changing the line count, and appends exactly one
   * line when there was none.
   */
  lemma WrittenFileShape(lines: seq<string>, identifier: string, entry: string)
    requires lines != []
    ensures HasSnapshot(lines, identifier) ==> |WrittenFile(Some(lines), identifier, entry)| == |lines|
    ensures !HasSnapshot(lines, identifier) ==> WrittenFile(Some(lines), identifier, entry) == lines + [entry]
    ensures forall i :: 0 <= i < |lines| && !IsSnapshotOf(lines[i], identifier) ==>
              WrittenFile(Some(lines), identifier, entry)[i] == lines[i]
    ensures forall i :: 0 <= i < |lines| && IsSnapshotOf(lines[i], identifier) ==>
              WrittenFile(Some(lines), identifier, entry)[i] == entry
  {
  }

  /** The first snapshot line of `identifier`, if any. */
  function FindSnapshot(lines: seq<string>, identifier: string): (r: Option<string>)
    ensures r.None? <==> !HasSnapshot(lines, identifier)
    ensures r.Some? ==> r.value in lines && IsSnapshotOf(r.value, identifier)
    ensures r.Some? ==> exists i :: 0 <= i < |lines| && lines[i] == r.value &&
                          forall j :: 0 <= j < i ==> !IsSnapshotOf(lines[j], identifier)
    decreases |lines|
  {
    if lines == [] then None
    else if IsSnapshotOf(lines[0], identifier) then Some(lines[0])
    else
      var r := FindSnapshot(lines[1..], identifier);
      assert HasSnapshot(lines, identifier) ==> HasSnapshot(lines[1..], identifier) by {
        if HasSnapshot(lines, identifier) {
          var i :| 0 <= i < |lines| && IsSnapshotOf(lines[i], identifier);
          assert lines[1..][i - 1] == lines[i];
        }
      }
      assert HasSnapshot(lines[1..], identifier) ==> HasSnapshot(lines, identifier) by {
        if HasSnapshot(lines[1..], identifier) {
          var i :| 0 <= i < |lines[1..]| && IsSnapshotOf(lines[1..][i], identifier);
          assert lines[i + 1] == lines[1..][i];
        }
      }
      if r.Some? then
        var i :| 0 <= i < |lines[1..]| && lines[1..][i] == r.value &&
                 forall j :: 0 <= j < i ==> !IsSnapshotOf(lines[1..][j], identifier);
        assert lines[i + 1] == r.value;
        assert forall j :: 1 <= j < i + 1 ==> lines[j] == lines[1..][j - 1];
        r
      else r
  }

  /** The JSON text after `identifier=` on a snapshot line. */
  function Suffix(line: string, identifier: string): string
    requires IsSnapshotOf(line, identifier)
  {
    line[|identifier| + 1..]
  }

  /** The line written for `content` is recognised as the snapshot of `identifier` when the content is a JSON object. */
  lemma EntryIsSnapshot(identifier: string, content: string)
    requires StartsWith(content, "{")
    ensures IsSnapshotOf(Entry(identifier, content), identifier)
  {
    assert Entry(identifier, content)[..|identifier| + 2] == identifier + "=" + content[..1];
  }

  /** After a write, the file holds a snapshot line of `identifier`, and every such line is the one written. */
  lemma {:induction false} WrittenFileSnapshots(file: Option<seq<string>>, identifier: string, entry: string)
    requires IsSnapshotOf(entry, identifier)
    ensures HasSnapshot(WrittenFile(file, identifier, entry), identifier)
    ensures forall i :: (0 <= i < |WrittenFile(file, identifier, entry)| &&
              IsSnapshotOf(WrittenFile(file, identifier, entry)[i], identifier)) ==>
              WrittenFile(file, identifier, entry)[i] == entry
  {
    var written := WrittenFile(file, identifier, entry);
    assert written[|written| - 1] == entry || HasSnapshot(file.value, identifier);
    if file.Some? && file.value != [] && HasSnapshot(file.value, identifier) {
      var i :| 0 <= i < |file.value| && IsSnapshotOf(file.value[i], identifier);
      assert written[i] == entry;
    } else {
      assert written[|written| - 1] == entry;
    }
  }

  /**
   * Writing a snapshot and reading it back finds the line just written and
   * recovers the content, provided the content is a JSON object (it starts
   * with '{', which is what makes the line recognisable).
   */
  lemma SnapshotRoundTrip(file: Option<seq<string>>, identifier: string, content: string)
    requires StartsWith(content, "{")
    ensures FindSnapshot(WrittenFile(file, identifier, Entry(identifier, content)), identifier) ==
              Some(Entry(identifier, content))
    ensures Suffix(Entry(identifier, content), identifier) == content
  {
    EntryIsSnapshot(identifier, content);
    WrittenFileSnapshots(file, identifier, Entry(identifier, content));
    FirstSnapshotIsEntry(WrittenFile(file, identifier, Entry(identifier, content)), identifier, Entry(identifier, content));
  }

  lemma FirstSnapshotIsEntry(lines: seq<string>, identifier: string, entry: string)
    requires HasSnapshot(lines, identifier)
    requires forall i :: 0 <= i < |lines| && IsSnapshotOf(lines[i], identifier) ==> lines[i] == entry
    ensures FindSnapshot(lines, identifier) == Some(entry)
  {
  }

  /** Writing the same snapshot a second time leaves the file as the first write left it. */
  lemma WriteIdempotent(file: Option<seq<string>>, identifier: string, content: string)
    requires StartsWith(content, "{")
    ensures var entry := Entry(identifier, content);
            WrittenFile(Some(WrittenFile(file, identifier, entry)), identifier, entry) ==
            WrittenFile(file, identifier, entry)
  {
    var entry := Entry(identifier, content);
    EntryIsSnapshot(identifier, content);
    WrittenFileSnapshots(file, identifier, entry);
    var once := WrittenFile(file, identifier, entry);
    assert Overwritten(once, identifier, entry) == once;
  }

  /** The scan of `readFromFile` for the first line that starts with "<identifier>={". */
  method FirstSnapshot(lines: seq<string>, identifier: string) returns (content: Option<string>)
    ensures content == FindSnapshot(lines, identifier)
  {
    content := None;
    var i := 0;
    while i < |lines|
      invariant 0 <= i <= |lines|
      invariant FindSnapshot(lines, identifier) ==
                  if content.Some? then content else FindSnapshot(lines[i..], identifier)
      decreases |lines| - i
    {
      if StartsWith(lines[i], identifier + "={") {
        assert lines[i..][0] == lines[i];
        content := Some(lines[i]);
        break;
      }
      assert lines[i..][1..] == lines[i + 1..];
      i := i + 1;
    }
    if content.None? {
      assert lines[|lines|..] == [];
    }
  }

  /**
   * The document `readFromFile` hands to the config reader: the storage name,
   * " : ", and the JSON after `identifier=` on the first snapshot line.
   */
  function SnapshotDocument(lines: seq<string>, name: string, identifier: string): Option<string> {
    match FindSnapshot(lines, identifier)
    case None => None
    case Some(line) => Some(name + " : " + Suffix(line, identifier))
  }

  /**
   * The store of one scenario: the context holding the storages, the config
   * reader snapshots are loaded with, Gson's serialiser, and the persistence
   * file (None while it does not exist).
   */
  class Store {
    const ctx: Context
    const config: ConfigReader
    const toJson: StoreMap -> string
    var file: Option<seq<string>>

    predicate Valid() {
      config.ctx == ctx
    }

    constructor (ctx: Context, config: ConfigReader, toJson: StoreMap -> string, file: Option<seq<string>>)
      requires config.ctx == ctx
      ensures Valid()
      ensures this.ctx == ctx && this.config == config && this.toJson == toJson && this.file == file
    {
      this.ctx := ctx;
      this.config := config;
      this.toJson := toJson;
      this.file := file;
    }

    /**
     * `set(textKey, value)`: the storage named before the first '.' is looked
     * up, then each further element is checked and handed to `parseMap`.
     */
    method Set(textKey: string, value: Value) returns (ok: Outcome)
      modifies ctx
      ensures (ctx.stores, ok) == SetPath(old(ctx.stores), textKey, value)
    {
      var t := Split(textKey, '.');
      if t == [] {
        return Fail(IndexOutOfBounds);
      }
      var name := t[0];
      if name !in ctx.stores {
        return Fail(StorageMissing);
      }
      var root := ctx.stores[name];
      var loc: Option<seq<Step>> := Some([]);
      ghost var goal := SetElements(root, loc, t[1..], value);
      ok := Pass;
      for idx := 1 to |t|
        invariant loc.Some? ==> At(root, loc.value).Some?
        invariant SetElements(root, loc, t[idx..], value) == goal
        invariant ctx.stores == old(ctx.stores)
      {
        assert t[idx..][1..] == t[idx + 1..];
        var key := ElementName(t[idx]);
        if key.Err? {
          ok := Fail(key.error);
          break;
        }
        if loc.None? {
          ok := Fail(NullPointer);
          break;
        }
        if Lookup(At(root, loc.value).value, key.value).Null? {
          ok := Fail(KeyMissing);
          break;
        }
        var next := ParseMap(root, loc.value, t[idx], key.value, value);
        if next.Err? {
          ok := Fail(next.error);
          break;
        }
        root, loc := next.value.0, next.value.1;
      }
      ctx.stores := ctx.stores[name := root];
    }

    /**
     * `writeToFile(name, identifier)`: the storage serialised by Gson is written
     * as the line `identifier=<json>`, replacing every snapshot line of
     * `identifier`, or appended when there is none.
     */
    method WriteToFile(name: string, identifier: string) returns (ok: Outcome)
      modifies this
      ensures name == "" ==> ok == Fail(NameEmpty) && file == old(file)
      ensures name != "" && identifier == "" ==> ok == Fail(IdentifierEmpty) && file == old(file)
      ensures name != "" && identifier != "" ==> ok == Pass
      ensures name != "" && identifier != "" && name !in ctx.stores ==> file == old(file)
      ensures name != "" && identifier != "" && name in ctx.stores ==>
                file == Some(WrittenFile(old(file), identifier, Entry(identifier, toJson(ctx.stores[name]))))
    {
      if name == "" {
        return Fail(NameEmpty);
      }
      if identifier == "" {
        return Fail(IdentifierEmpty);
      }
      ok := Pass;
      if name !in ctx.stores {
        return;
      }
      var entry := Entry(identifier, toJson(ctx.stores[name]));
      if file.None? {
        file := Some([entry]);
        return;
      }
      var lines := file.value;
      if |lines| == 0 {
        file := Some([entry]);
      }
      var overwriteWasDone := false;
      for i := 0 to |lines|
        invariant file == if |old(file).value| == 0 then Some([entry]) else old(file)
        invariant |lines| == |old(file).value|
        invariant forall j :: 0 <= j < |lines| ==>
          lines[j] == if j < i && IsSnapshotOf(old(file).value[j], identifier) then entry else old(file).value[j]
        invariant overwriteWasDone <==> exists j :: 0 <= j < i && IsSnapshotOf(old(file).value[j], identifier)
      {
        if StartsWith(lines[i], identifier + "={") {
          lines := lines[i := entry];
          overwriteWasDone := true;
        }
      }
      ghost var written := WrittenFile(old(file), identifier, entry);
      if overwriteWasDone {
        assert HasSnapshot(old(file).value, identifier);
        assert lines == Overwritten(old(file).value, identifier, entry);
        file := Some(lines);
        assert file == Some(written);
      } else {
        assert !HasSnapshot(old(file).value, identifier);
        if |old(file).value| == 0 {
          assert written == [entry, entry] == [entry] + [entry];
        } else {
          assert written == old(file).value + [entry];
        }
        file := Some(file.value + [entry]);
        assert file == Some(written);
      }
    }

    /**
     * `readFromFile(name, identifier)`: the first snapshot line of `identifier`
     * is turned into the one-line document `name : <json>` and ingested by the
     * config reader, which registers or merges it under `name`.
     */
    method ReadFromFile(name: string, identifier: string, fuel: nat) returns (ok: Outcome)
      requires Valid()
      modifies ctx
      ensures name == "" ==> ok == Fail(NameEmpty) && ctx.stores == old(ctx.stores)
      ensures name != "" && identifier == "" ==> ok == Fail(IdentifierEmpty) && ctx.stores == old(ctx.stores)
      ensures name != "" && identifier != "" && file.None? ==>
                ok == Fail(SnapshotFileMissing) && ctx.stores == old(ctx.stores)
      ensures name != "" && identifier != "" && file.Some? && SnapshotDocument(file.value, name, identifier).None? ==>
                ok == Fail(NullPointer) && ctx.stores == old(ctx.stores)
      ensures old(ctx.stores).Keys <= ctx.stores.Keys
      ensures name != "" && identifier != "" && file.Some? && SnapshotDocument(file.value, name, identifier).Some? ==>
                var doc := [SnapshotDocument(file.value, name, identifier).value];
                (ok.Pass? ==> config.TopLevelNames(doc) <= ctx.stores.Keys) &&
                (!HasIncludeDirective(doc) && config.Document(doc).Some? && config.Document(doc).value.JObject? ==>
                  Registration(ctx.stores, ok) == RegisterAll(old(ctx.stores), config.Document(doc).value.members))
      ensures name != "" && identifier != "" && file.Some? && SnapshotDocument(file.value, name, identifier).Some? ==>
                Registration(ctx.stores, ok) ==
                  config.IngestLines(old(ctx.stores), [SnapshotDocument(file.value, name, identifier).value], fuel)
    {
      if name == "" {
        return Fail(NameEmpty);
      }
      if identifier == "" {
        return Fail(IdentifierEmpty);
      }
      if file.None? {
        return Fail(SnapshotFileMissing);
      }
      var content := FirstSnapshot(file.value, identifier);
      if content.None? {
        return Fail(NullPointer);
      }
      var doc := name + " : " + content.value[|identifier| + 1..];
      var included: bool;
      ghost var afterIncludes;
      ok, included, afterIncludes := config.CreateFromLines([doc], fuel);
    }
  }
}
