/**
 * Config ingestion (src/libs/libCore/modules/ConfigReader.java): a config
 * document, with its `#include` lines resolved first, is parsed into one map
 * per top-level key; each map is registered in the scenario context under its
 * key, or deep-merged into the map already registered there.
 *
 * Gson's text-to-tree parser and the locale-aware NumberFormat are outside the
 * model: the parser is the `parse` function a ConfigReader is built with, and
 * every numeric token arrives already classified by NumberFormat (a Long, a
 * Double, or a parse failure).
 */
module Config {
  import opened Values
  import opened Text

  /** Gson's JSON tree; an object's members keep their order and have distinct names. */
  datatype Json =
    | JNumber(number: Number)
    | JString(s: string)
    | JBool(b: bool)
    | JNull
    | JArray(items: seq<Json>)
    | JObject(members: seq<(string, Json)>)

  // ---------------------------------------------------------------------------
  // parseObject: JSON tree to nested maps and lists

  /**
   * A parsed Long becomes an Integer when `toIntExact` accepts it and stays a
   * Long otherwise: the number is never changed, only its width.
   */
  function Narrow(n: int64): (v: Value)
    ensures v.I? || v.L?
    ensures IntegralValue(v) == n
    ensures v.I? <==> MinInt32 <= n <= MaxInt32
  {
    if MinInt32 <= n <= MaxInt32 then I(n) else L(n)
  }

  /** A numeric token: narrowed, kept as a Double, or left out when it did not parse. */
  function ConvertNumber(p: Number): Option<Value> {
    match p
    case LongNumber(n) => Some(Narrow(n))
    case DoubleNumber(d) => Some(D(d))
    case NotANumber => None
  }

  /** The value `parseObject` puts for one member, or None when it puts nothing. */
  function ConvertMember(j: Json): Option<Value>
    decreases j
  {
    match j
    case JNumber(p) => ConvertNumber(p)
    case JString(s) => Some(S(s))
    case JBool(b) => Some(B(b))
    case JArray(items) => Some(Lst(ParseArray(j, |items|)))
    case JObject(members) => Some(Obj(ParseMembers(j, |members|)))
    case JNull => Some(Null)
  }

  /**
   * The value an array element contributes, or None when it is dropped: nested
   * arrays and JSON nulls are neither primitives nor objects and are skipped.
   */
  function ConvertElement(j: Json): Option<Value>
    decreases j
  {
    match j
    case JBool(b) => Some(B(b))
    case JString(s) => Some(S(s))
    case JNumber(p) => ConvertNumber(p)
    case JObject(members) => Some(Obj(ParseMembers(j, |members|)))
    case JArray(_) => None
    case JNull => None
  }

  /** The map built from the first `n` members of `obj`, each `put` in order. */
  function ParseMembers(obj: Json, n: nat): (m: StoreMap)
    requires obj.JObject? && n <= |obj.members|
    ensures forall k :: k in m ==> exists i :: 0 <= i < n && obj.members[i].0 == k
    decreases obj, n
  {
    if n == 0 then map[]
    else
      var m := ParseMembers(obj, n - 1);
      var name := obj.members[n - 1].0;
      match ConvertMember(obj.members[n - 1].1)
      case Some(v) => m[name := v]
      case None => m
  }

  /** The ArrayList built from the first `n` elements of `arr`. */
  function ParseArray(arr: Json, n: nat): (r: seq<Value>)
    requires arr.JArray? && n <= |arr.items|
    ensures |r| <= n
    ensures forall i :: 0 <= i < |r| ==> !r[i].Lst? && !r[i].Null?
    decreases arr, n
  {
    if n == 0 then []
    else
      var r := ParseArray(arr, n - 1);
      match ConvertElement(arr.items[n - 1])
      case Some(v) => r + [v]
      case None => r
  }

  /** `parseObject(object)`. */
  function ParseObject(obj: Json): StoreMap
    requires obj.JObject?
  {
    ParseMembers(obj, |obj.members|)
  }

  predicate DistinctNames(members: seq<(string, Json)>) {
    forall i, j :: 0 <= i < j < |members| ==> members[i].0 != members[j].0
  }

  /**
   * Each member of a JSON object is found in the parsed map under its own name
   * exactly when it converts to a value, and then holds that value: a number
   * that does not parse leaves its name out altogether.
   */
  lemma {:induction false} ParseMembersAt(obj: Json, n: nat, i: nat)
    requires obj.JObject? && n <= |obj.members| && DistinctNames(obj.members)
    requires i < n
    ensures obj.members[i].0 in ParseMembers(obj, n) <==> ConvertMember(obj.members[i].1).Some?
    ensures obj.members[i].0 in ParseMembers(obj, n) ==>
              ParseMembers(obj, n)[obj.members[i].0] == ConvertMember(obj.members[i].1).value
    decreases n
  {
    if i < n - 1 {
      ParseMembersAt(obj, n - 1, i);
    }
  }

  /** Integer narrowing as seen through a parsed object: an Integer when the Long fits, else the Long. */
  lemma ParseObjectNarrows(obj: Json, i: nat, n: int64)
    requires obj.JObject? && DistinctNames(obj.members)
    requires i < |obj.members| && obj.members[i].1 == JNumber(LongNumber(n))
    ensures obj.members[i].0 in ParseObject(obj)
    ensures ParseObject(obj)[obj.members[i].0] == (if MinInt32 <= n <= MaxInt32 then I(n) else L(n))
  {
    ParseMembersAt(obj, |obj.members|, i);
  }

  /**
   * When no element is dropped (no nested array, no JSON null, no number that
   * fails to parse), the list has one converted value per element, in order.
   */
  lemma {:induction false} ParseArrayKeepsAll(arr: Json, n: nat)
    requires arr.JArray? && n <= |arr.items|
    requires forall i :: 0 <= i < n ==> ConvertElement(arr.items[i]).Some?
    ensures |ParseArray(arr, n)| == n
    ensures forall i :: 0 <= i < n ==> ParseArray(arr, n)[i] == ConvertElement(arr.items[i]).value
    decreases n
  {
    if n > 0 {
      ParseArrayKeepsAll(arr, n - 1);
    }
  }

  // ---------------------------------------------------------------------------
  // deepMerge

  /**
   * The merged map: every key of `newMap` is merged into `original`, the keys
   * only `original` has keep their value.
   */
  function Merged(original: StoreMap, newMap: StoreMap): (r: StoreMap)
    ensures r.Keys == original.Keys + newMap.Keys
    decreases Obj(newMap), 0
  {
    map k | k in original.Keys + newMap.Keys ::
      if k in newMap then MergeValue(Lookup(original, k), newMap[k]) else original[k]
  }

  /** Two maps merge recursively, two lists by appending the missing elements; otherwise the new value wins. */
  function MergeValue(ov: Value, nv: Value): Value
    decreases nv, 1
  {
    if ov.Obj? && nv.Obj? then Obj(Merged(ov.fields, nv.fields))
    else if ov.Lst? && nv.Lst? then Lst(AppendNew(ov.items, nv.items))
    else nv
  }

  /** `original` with each element of `items` that it does not yet contain appended, in order. */
  function AppendNew(original: seq<Value>, items: seq<Value>): seq<Value>
    decreases |items|
  {
    if items == [] then original
    else
      var r := AppendNew(original, items[..|items| - 1]);
      var x := items[|items| - 1];
      if x in r then r else r + [x]
  }

  /**
   * The list merge keeps the original list as a prefix, ends up containing
   * every new element, adds nothing that was not in either list, and never
   * appends an element that is already there.
   */
  lemma {:induction false} AppendNewShape(original: seq<Value>, items: seq<Value>)
    ensures |original| <= |AppendNew(original, items)|
    ensures AppendNew(original, items)[..|original|] == original
    ensures forall x :: x in items ==> x in AppendNew(original, items)
    ensures forall x :: x in AppendNew(original, items) ==> x in original || x in items
    ensures forall j :: |original| <= j < |AppendNew(original, items)| ==>
              AppendNew(original, items)[j] !in AppendNew(original, items)[..j]
    decreases |items|
  {
    if items != [] {
      var init := items[..|items| - 1];
      AppendNewShape(original, init);
      forall x | x in items ensures x in AppendNew(original, items) {
        if x != items[|items| - 1] {
          assert x in init by {
            var k :| 0 <= k < |items| && items[k] == x;
            assert init[k] == x;
          }
        }
      }
    }
  }

  /** Appending elements that are all present already changes nothing. */
  lemma {:induction false} AppendNewPresent(original: seq<Value>, items: seq<Value>)
    requires forall x :: x in items ==> x in original
    ensures AppendNew(original, items) == original
    decreases |items|
  {
    if items != [] {
      AppendNewPresent(original, items[..|items| - 1]);
      assert items[|items| - 1] in items;
    }
  }

  /** Merging a map into itself gives it back unchanged. */
  lemma {:induction false} MergedSelf(m: StoreMap)
    ensures Merged(m, m) == m
    decreases Obj(m), 0
  {
    forall k | k in m ensures Merged(m, m)[k] == m[k] {
      MergeValueSelf(m[k]);
    }
  }

  lemma {:induction false} MergeValueSelf(v: Value)
    ensures MergeValue(v, v) == v
    decreases v, 1
  {
    match v
    case Obj(f) => MergedSelf(f);
    case Lst(xs) => AppendNewPresent(xs, xs);
    case _ =>
  }

  /**
   * deepMerge is idempotent: merging the same map a second time changes
   * nothing, so re-reading a config document leaves the store as it was.
   */
  lemma {:induction false} MergedIdempotent(original: StoreMap, newMap: StoreMap)
    ensures Merged(Merged(original, newMap), newMap) == Merged(original, newMap)
    decreases Obj(newMap), 0
  {
    var once := Merged(original, newMap);
    forall k | k in once ensures Merged(once, newMap)[k] == once[k] {
      if k in newMap {
        MergeValueIdempotent(Lookup(original, k), newMap[k]);
      }
    }
  }

  lemma {:induction false} MergeValueIdempotent(ov: Value, nv: Value)
    ensures MergeValue(MergeValue(ov, nv), nv) == MergeValue(ov, nv)
    decreases nv, 1
  {
    if ov.Obj? && nv.Obj? {
      MergedIdempotent(ov.fields, nv.fields);
    } else if ov.Lst? && nv.Lst? {
      AppendNewShape(ov.items, nv.items);
      AppendNewPresent(AppendNew(ov.items, nv.items), nv.items);
    } else {
      MergeValueSelf(nv);
    }
  }

  /** The list loop of `deepMerge`: each new element not yet contained is added. */
  method AppendMissing(original: seq<Value>, newItems: seq<Value>) returns (r: seq<Value>)
    ensures r == AppendNew(original, newItems)
  {
    r := original;
    for i := 0 to |newItems|
      invariant r == AppendNew(original, newItems[..i])
    {
      assert newItems[..i + 1][..i] == newItems[..i];
      if newItems[i] !in r {
        r := r + [newItems[i]];
      }
    }
    assert newItems[..|newItems|] == newItems;
  }

  /**
   * `deepMerge(original, newMap)`: the loop over the keys of `newMap`. A key
   * holding a map on both sides is merged recursively, a key holding a list on
   * both sides gets the missing elements appended, and any other key of
   * `newMap` overwrites; keys only `original` has are left alone.
   */
  method DeepMerge(original: StoreMap, newMap: StoreMap) returns (r: StoreMap)
    ensures r == Merged(original, newMap)
    ensures r.Keys == original.Keys + newMap.Keys
    ensures forall k :: k in original && k !in newMap ==> r[k] == original[k]
    ensures forall k :: k in newMap && Lookup(original, k).Obj? && newMap[k].Obj? ==>
              r[k] == Obj(Merged(original[k].fields, newMap[k].fields))
    ensures forall k :: k in newMap && Lookup(original, k).Lst? && newMap[k].Lst? ==>
              r[k] == Lst(AppendNew(original[k].items, newMap[k].items))
    ensures forall k :: (k in newMap && !(Lookup(original, k).Obj? && newMap[k].Obj?)
              && !(Lookup(original, k).Lst? && newMap[k].Lst?)) ==> r[k] == newMap[k]
    decreases Obj(newMap)
  {
    r := original;
    var pending := newMap.Keys;
    while pending != {}
      invariant pending <= newMap.Keys
      invariant r.Keys == original.Keys + (newMap.Keys - pending)
      invariant forall k :: k in r ==>
        r[k] == if k in newMap && k !in pending then MergeValue(Lookup(original, k), newMap[k]) else original[k]
      decreases pending
    {
      var k :| k in pending;
      var ov := Lookup(r, k);
      var nv := newMap[k];
      assert ov == Lookup(original, k);
      if ov.Obj? && nv.Obj? {
        var child := DeepMerge(ov.fields, nv.fields);
        r := r[k := Obj(child)];
      } else if ov.Lst? && nv.Lst? {
        var items := AppendMissing(ov.items, nv.items);
        r := r[k := Lst(items)];
      } else {
        r := r[k := nv];
      }
      pending := pending - {k};
    }
    assert r == Merged(original, newMap);
  }

  // ---------------------------------------------------------------------------
  // create: include lines, brace wrapping, register-or-merge

  /** The line with surrounding blanks trimmed and every '"' and '\'' removed. */
  function IncludeCandidate(line: string): string {
    Remove(Remove(Trim(line), '"'), '\'')
  }

  /** A line that names an included config file. */
  predicate IsIncludeLine(line: string) {
    var t := IncludeCandidate(line);
    StartsWith(t, "#include") && EndsWith(t, ".config")
  }

  /** "#include" and ".config" cannot overlap, so an include line has text after "#include". */
  lemma IncludeLineLength(line: string)
    requires IsIncludeLine(line)
    ensures |IncludeCandidate(line)| >= 9
  {
    var t := IncludeCandidate(line);
    assert t[..8][1] == 'i';
  }

  /** The included file's path: the text after "#include ", trimmed, under the project directory. */
  function IncludedPath(projectPath: string, line: string): (p: string)
    requires IsIncludeLine(line)
    ensures StartsWith(p, projectPath + "/")
  {
    var t := IncludeCandidate(line);
    IncludeLineLength(line);
    projectPath + "/" + Trim(t[9..])
  }

  /** The lines that are not include lines, in their original order. */
  function KeptLines(lines: seq<string>): (r: seq<string>)
    ensures |r| <= |lines|
  {
    if lines == [] then []
    else
      var init := KeptLines(lines[..|lines| - 1]);
      var last := lines[|lines| - 1];
      assert lines == lines[..|lines| - 1] + [last];
      if IsIncludeLine(last) then init else init + [last]
  }
  /**
   * Stripping works part by part and keeps the order: the kept lines of two
   * parts are the kept lines of the first followed by those of the second.
   */
  lemma {:induction false} KeptLinesAppend(a: seq<string>, b: seq<string>)
    ensures KeptLines(a + b) == KeptLines(a) + KeptLines(b)
    decreases |b|
  {
    if b == [] {
      assert a + b == a;
    } else {
      var init, last := b[..|b| - 1], b[|b| - 1];
      SnocParts(a, b);
      KeptLinesAppend(a, init);
      KeptLinesSnoc(a + init, last);
      KeptLinesSnoc(init, last);
    }
  }

  /** The kept lines are exactly the lines of the file that are not include lines. */
  lemma {:induction false} KeptLinesMember(lines: seq<string>)
    ensures forall x :: x in KeptLines(lines) <==> x in lines && !IsIncludeLine(x)
    decreases |lines|
  {
    if lines != [] {
      var init, last := lines[..|lines| - 1], lines[|lines| - 1];
      SnocParts([], lines);
      assert [] + lines == lines && [] + init == init;
      KeptLinesMember(init);
      KeptLinesSnoc(init, last);
    }
  }

  /** A non-empty sequence, alone or after a prefix, is its front followed by its last element. */
  lemma SnocParts(a: seq<string>, b: seq<string>)
    requires b != []
    ensures b == b[..|b| - 1] + [b[|b| - 1]]
    ensures a + b == (a + b[..|b| - 1]) + [b[|b| - 1]]
  {
  }

  /** One more line at the end is kept exactly when it is not an include line. */
  lemma KeptLinesSnoc(xs: seq<string>, x: string)
    ensures KeptLines(xs + [x]) == KeptLines(xs) + if IsIncludeLine(x) then [] else [x]
  {
    assert (xs + [x])[..|xs|] == xs;
  }



  /** One more line: an include line adds nothing to the kept text, any other line adds itself and a newline. */
  lemma KeptLinesStep(lines: seq<string>, i: nat)
    requires i < |lines|
    ensures IsIncludeLine(lines[i]) ==> Unlines(KeptLines(lines[..i + 1])) == Unlines(KeptLines(lines[..i]))
    ensures !IsIncludeLine(lines[i]) ==>
              Unlines(KeptLines(lines[..i + 1])) == Unlines(KeptLines(lines[..i])) + lines[i] + "\n"
  {
    var prefix := lines[..i + 1];
    assert prefix[..|prefix| - 1] == lines[..i];
    var init := KeptLines(lines[..i]);
    if !IsIncludeLine(lines[i]) {
      assert (init + [lines[i]])[..|init|] == init;
    }
  }

  /** The whole file contains "#include ", which is what switches include processing on. */
  predicate HasIncludeDirective(lines: seq<string>) {
    Contains(Unlines(lines), "#include ")
  }

  /** The text handed to the JSON parser, before brace wrapping. */
  function DocumentText(lines: seq<string>): string {
    if HasIncludeDirective(lines) then Trim(Unlines(KeptLines(lines))) else Unlines(lines)
  }

  /** A body that does not start with '{' is wrapped in braces. */
  function Wrap(text: string): (r: string)
    ensures StartsWith(r, "{")
    ensures StartsWith(text, "{") ==> r == text
    ensures !StartsWith(text, "{") ==> |r| == |text| + 2 && r[1..|text| + 1] == text && r[|r| - 1] == '}'
  {
    if StartsWith(text, "{") then text else "{" + text + "}"
  }

  /** The outcome of registering the top-level entries of one document. */
  datatype Registration = Registration(stores: map<string, StoreMap>, ok: Outcome)

  /** Register-or-merge of one parsed map under `name`. */
  function Register(stores: map<string, StoreMap>, name: string, parsed: StoreMap): (r: map<string, StoreMap>)
    ensures r.Keys == stores.Keys + {name}
  {
    if name in stores then stores[name := Merged(stores[name], parsed)] else stores[name := parsed]
  }

  /**
   * The top-level entries registered in order; an entry that is not a JSON
   * object stops the loop (Gson's `getAsJsonObject` throws), keeping the
   * entries registered before it.
   */
  function RegisterAll(stores: map<string, StoreMap>, entries: seq<(string, Json)>): Registration
    decreases |entries|
  {
    if entries == [] then Registration(stores, Pass)
    else if !entries[0].1.JObject? then Registration(stores, Fail(IllegalState))
    else RegisterAll(Register(stores, entries[0].0, ParseObject(entries[0].1)), entries[1..])
  }

  /**
   * Registration never removes a storage, leaves storages the document does not
   * name alone, and succeeds exactly when every top-level entry is an object,
   * in which case every top-level key names a storage afterwards.
   */
  lemma {:induction false} RegisterAllFrame(stores: map<string, StoreMap>, entries: seq<(string, Json)>)
    ensures stores.Keys <= RegisterAll(stores, entries).stores.Keys
    ensures forall k :: k in stores && (forall i :: 0 <= i < |entries| ==> entries[i].0 != k) ==>
              RegisterAll(stores, entries).stores[k] == stores[k]
    ensures RegisterAll(stores, entries).ok.Pass? <==> forall i :: 0 <= i < |entries| ==> entries[i].1.JObject?
    ensures RegisterAll(stores, entries).ok.Pass? ==>
              forall i :: 0 <= i < |entries| ==> entries[i].0 in RegisterAll(stores, entries).stores
    decreases |entries|
  {
    if entries != [] && entries[0].1.JObject? {
      var next := Register(stores, entries[0].0, ParseObject(entries[0].1));
      RegisterAllFrame(next, entries[1..]);
      forall k | k in stores && (forall i :: 0 <= i < |entries| ==> entries[i].0 != k)
        ensures RegisterAll(stores, entries).stores[k] == stores[k]
      {
        assert entries[0].0 != k;
        forall i | 0 <= i < |entries[1..]| ensures entries[1..][i].0 != k {
          assert entries[1..][i] == entries[i + 1];
        }
      }
      if RegisterAll(stores, entries).ok.Pass? {
        forall i | 0 <= i < |entries| ensures entries[i].1.JObject? {
          if i > 0 { assert entries[1..][i - 1] == entries[i]; }
        }
        forall i | 0 <= i < |entries| ensures entries[i].0 in RegisterAll(stores, entries).stores {
          if i > 0 { assert entries[1..][i - 1] == entries[i]; }
        }
      } else {
        var i :| 0 <= i < |entries[1..]| && !entries[1..][i].1.JObject?;
        assert entries[i + 1] == entries[1..][i];
      }
    }
  }

  /**
   * With distinct top-level names and every entry an object, each name ends up
   * holding its parsed map when the name was new, or the deep merge of the
   * old map with it when the name was registered already.
   */
  lemma {:induction false} RegisterAllAt(stores: map<string, StoreMap>, entries: seq<(string, Json)>, i: nat)
    requires DistinctNames(entries)
    requires forall j :: 0 <= j < |entries| ==> entries[j].1.JObject?
    requires i < |entries|
    ensures entries[i].0 in RegisterAll(stores, entries).stores
    ensures RegisterAll(stores, entries).stores[entries[i].0] ==
              Register(stores, entries[i].0, ParseObject(entries[i].1))[entries[i].0]
    decreases |entries|
  {
    var next := Register(stores, entries[0].0, ParseObject(entries[0].1));
    RegisterAllFrame(next, entries[1..]);
    if i == 0 {
      forall j | 0 <= j < |entries[1..]| ensures entries[1..][j].0 != entries[0].0 {
        assert entries[1..][j] == entries[j + 1];
      }
    } else {
      assert DistinctNames(entries[1..]) by {
        forall a, b | 0 <= a < b < |entries[1..]| ensures entries[1..][a].0 != entries[1..][b].0 {
          assert entries[1..][a] == entries[a + 1] && entries[1..][b] == entries[b + 1];
        }
      }
      assert entries[1..][i - 1] == entries[i];
      RegisterAllAt(next, entries[1..], i - 1);
      assert entries[0].0 != entries[i].0;
    }
  }

  /**
   * The config reader: the scenario context it fills, the files it can read
   * (each a list of lines), the project directory includes are resolved
   * against, and Gson's parser.
   */
  class ConfigReader {
    const ctx: Context
    const files: map<string, seq<string>>
    const projectPath: string
    const parse: string -> Option<Json>

    constructor (ctx: Context, files: map<string, seq<string>>, projectPath: string, parse: string -> Option<Json>)
      ensures this.ctx == ctx && this.files == files
      ensures this.projectPath == projectPath && this.parse == parse
    {
      this.ctx := ctx;
      this.files := files;
      this.projectPath := projectPath;
      this.parse := parse;
    }

    /** The JSON tree of a document given as lines. */
    function Document(lines: seq<string>): Option<Json> {
      parse(Wrap(DocumentText(lines)))
    }

    /** The top-level names of a document that parses to an object. */
    function TopLevelNames(lines: seq<string>): set<string> {
      match Document(lines)
      case Some(JObject(members)) => set i | 0 <= i < |members| :: members[i].0
      case _ => {}
    }

    /**
     * The storages and outcome `create(path)` leaves, starting from `stores`: a
     * file that cannot be read is an error that changes nothing; otherwise its
     * lines are ingested. Each level of include nesting spends one unit of `fuel`.
     */
    function Ingest(stores: map<string, StoreMap>, path: string, fuel: nat): Registration
      decreases fuel, 2
    {
      if path !in files then Registration(stores, Fail(FileMissing))
      else IngestLines(stores, files[path], fuel)
    }

    /**
     * The body of `create` on a file's lines: the includes first, then the
     * register-or-merge of the document's own top-level entries into the
     * storages the includes left. A failed include, or a document that does not
     * parse, stops it with the storages as they stand.
     */
    function IngestLines(stores: map<string, StoreMap>, lines: seq<string>, fuel: nat): Registration
      decreases fuel, 1
    {
      var included := IncludeAll(stores, lines, fuel);
      if included.ok.Fail? then included
      else
        match Document(lines)
        case None => Registration(included.stores, Fail(SyntaxError))
        case Some(root) =>
          if root.JObject? then RegisterAll(included.stores, root.members)
          else Registration(included.stores, Pass)
    }

    /** The include loop: nothing happens without the text "#include "; otherwise every line is visited. */
    function IncludeAll(stores: map<string, StoreMap>, lines: seq<string>, fuel: nat): Registration
      decreases fuel, 0, |lines| + 1
    {
      if !HasIncludeDirective(lines) then Registration(stores, Pass)
      else IncludesFrom(stores, lines, 0, fuel)
    }

    /**
     * The include loop from line `i` on: each include line, in order, is
     * ingested by a recursive `create` with one unit less of fuel, starting
     * from the storages the earlier includes left; the first failure stops it.
     */
    function IncludesFrom(stores: map<string, StoreMap>, lines: seq<string>, i: nat, fuel: nat): Registration
      requires i <= |lines|
      decreases fuel, 0, |lines| - i
    {
      if i == |lines| then Registration(stores, Pass)
      else if !IsIncludeLine(lines[i]) then IncludesFrom(stores, lines, i + 1, fuel)
      else if fuel == 0 then Registration(stores, Fail(FuelExhausted))
      else
        var r := Ingest(stores, IncludedPath(projectPath, lines[i]), fuel - 1);
        if r.ok.Fail? then r else IncludesFrom(r.stores, lines, i + 1, fuel)
    }

    /**
     * `create(path)`: read the file and ingest it. Storages only ever get
     * added; on success every top-level name of the document names a storage.
     */
    method Create(path: string, fuel: nat) returns (ok: Outcome)
      modifies ctx
      ensures old(ctx.stores).Keys <= ctx.stores.Keys
      ensures path !in files ==> ok == Fail(FileMissing) && ctx.stores == old(ctx.stores)
      ensures ok.Pass? ==> path in files && TopLevelNames(files[path]) <= ctx.stores.Keys
      ensures Registration(ctx.stores, ok) == Ingest(old(ctx.stores), path, fuel)
      decreases fuel, 2
    {
      if path !in files {
        return Fail(FileMissing);
      }
      var included: bool;
      ghost var afterIncludes;
      ok, included, afterIncludes := CreateFromLines(files[path], fuel);
    }

    /**
     * The body of `create` once the file is read. Include lines are processed
     * first, each by a recursive `create`; `included` says they all succeeded,
     * and `afterIncludes` is the store at that point, which keeps whatever they
     * registered whether or not this document then parses. The rest of the text,
     * wrapped in braces when needed, is parsed and its entries registered.
     */
    method CreateFromLines(lines: seq<string>, fuel: nat)
      returns (ok: Outcome, included: bool, ghost afterIncludes: map<string, StoreMap>)
      modifies ctx
      ensures old(ctx.stores).Keys <= ctx.stores.Keys
      ensures !included ==> ok.Fail?
      ensures included ==> old(ctx.stores).Keys <= afterIncludes.Keys
      ensures included && HasIncludeDirective(lines) ==> IncludesRegistered(lines, |lines|, afterIncludes.Keys)
      ensures included && Document(lines).None? ==> ok == Fail(SyntaxError) && ctx.stores == afterIncludes
      ensures included && Document(lines).Some? && Document(lines).value.JObject? ==>
                Registration(ctx.stores, ok) == RegisterAll(afterIncludes, Document(lines).value.members)
      ensures included && Document(lines).Some? && !Document(lines).value.JObject? ==>
                ok == Pass && ctx.stores == afterIncludes
      ensures !HasIncludeDirective(lines) ==> included && afterIncludes == old(ctx.stores)
      ensures ok.Pass? ==> TopLevelNames(lines) <= ctx.stores.Keys
      ensures Registration(ctx.stores, ok) == IngestLines(old(ctx.stores), lines, fuel)
      ensures afterIncludes == IncludeAll(old(ctx.stores), lines, fuel).stores
      ensures included <==> IncludeAll(old(ctx.stores), lines, fuel).ok.Pass?
      decreases fuel, 1
    {
      var text;
      ok, text := StripIncludes(lines, fuel);
      afterIncludes := ctx.stores;
      included := ok.Pass?;
      if !included {
        return;
      }
      text := Wrap(text);
      match parse(text)
      case None =>
        ok := Fail(SyntaxError);
      case Some(root) =>
        if root.JObject? {
          ok := RegisterEntries(root.members);
          RegisterAllFrame(afterIncludes, root.members);
          if ok.Pass? {
            forall name | name in TopLevelNames(lines) ensures name in ctx.stores {
              var i :| 0 <= i < |root.members| && root.members[i].0 == name;
            }
          }
        }
    }

    /**
     * Every include line among the first `n` lines names a readable file whose
     * top-level names are all among `keys`.
     */
    predicate IncludesRegistered(lines: seq<string>, n: nat, keys: set<string>)
      requires n <= |lines|
    {
      forall j :: 0 <= j < n && IsIncludeLine(lines[j]) ==>
        IncludedPath(projectPath, lines[j]) in files &&
        TopLevelNames(files[IncludedPath(projectPath, lines[j])]) <= keys
    }

    lemma IncludesRegisteredGrow(lines: seq<string>, n: nat, keys: set<string>, more: set<string>)
      requires n <= |lines| && keys <= more
      requires IncludesRegistered(lines, n, keys)
      ensures IncludesRegistered(lines, n, more)
    {
    }

    lemma IncludesRegisteredStep(lines: seq<string>, i: nat, keys: set<string>)
      requires i < |lines| && IncludesRegistered(lines, i, keys)
      requires IsIncludeLine(lines[i]) ==>
        IncludedPath(projectPath, lines[i]) in files &&
        TopLevelNames(files[IncludedPath(projectPath, lines[i])]) <= keys
      ensures IncludesRegistered(lines, i + 1, keys)
    {
    }

    /**
     * The include loop of `create`: include lines are ingested recursively, in
     * order, and removed; every other line is kept. The text returned is what
     * goes on to the parser.
     */
    method StripIncludes(lines: seq<string>, fuel: nat) returns (ok: Outcome, text: string)
      modifies ctx
      ensures old(ctx.stores).Keys <= ctx.stores.Keys
      ensures ok.Pass? ==> text == DocumentText(lines)
      ensures ok.Pass? && HasIncludeDirective(lines) ==> IncludesRegistered(lines, |lines|, ctx.stores.Keys)
      ensures !HasIncludeDirective(lines) ==> ok == Pass && ctx.stores == old(ctx.stores)
      ensures Registration(ctx.stores, ok) == IncludeAll(old(ctx.stores), lines, fuel)
      decreases fuel, 0, 1
    {
      text := Unlines(lines);
      ok := Pass;
      if !Contains(text, "#include ") {
        return;
      }
      var kept := "";
      for i := 0 to |lines|
        invariant ok == Pass
        invariant old(ctx.stores).Keys <= ctx.stores.Keys
        invariant kept == Unlines(KeptLines(lines[..i]))
        invariant IncludesRegistered(lines, i, ctx.stores.Keys)
        invariant IncludeAll(old(ctx.stores), lines, fuel) == IncludesFrom(ctx.stores, lines, i, fuel)
      {
        KeptLinesStep(lines, i);
        var line := lines[i];
        if IsIncludeLine(line) {
          ghost var before := ctx.stores.Keys;
          var r := IncludeOne(IncludedPath(projectPath, line), fuel);
          if r.Fail? {
            return r, text;
          }
          IncludesRegisteredGrow(lines, i, before, ctx.stores.Keys);
        } else {
          kept := kept + line + "\n";
        }
        IncludesRegisteredStep(lines, i, ctx.stores.Keys);
      }
      assert lines[..|lines|] == lines;
      text := Trim(kept);
    }

    /**
     * One include line of that loop, naming `path`: the file is read by a
     * recursive `create`, unless the include depth is used up.
     */
    method IncludeOne(path: string, fuel: nat) returns (ok: Outcome)
      modifies ctx
      ensures old(ctx.stores).Keys <= ctx.stores.Keys
      ensures ok.Pass? ==> fuel > 0 && path in files && TopLevelNames(files[path]) <= ctx.stores.Keys
      ensures fuel == 0 ==> ok == Fail(FuelExhausted) && ctx.stores == old(ctx.stores)
      ensures fuel > 0 ==> Registration(ctx.stores, ok) == Ingest(old(ctx.stores), path, fuel - 1)
      decreases fuel, 0, 0
    {
      if fuel == 0 {
        return Fail(FuelExhausted);
      }
      ok := Create(path, fuel - 1);
    }

    /** The registration loop of `create`: register-or-merge, entry by entry. */
    method RegisterEntries(entries: seq<(string, Json)>) returns (ok: Outcome)
      modifies ctx
      ensures Registration(ctx.stores, ok) == RegisterAll(old(ctx.stores), entries)
    {
      ok := Pass;
      for i := 0 to |entries|
        invariant RegisterAll(old(ctx.stores), entries) == RegisterAll(ctx.stores, entries[i..])
      {
        assert entries[i..][1..] == entries[i + 1..];
        var name := entries[i].0;
        var entry := entries[i].1;
        if !entry.JObject? {
          return Fail(IllegalState);
        }
        var result := ParseObject(entry);
        if name in ctx.stores {
          var merged := DeepMerge(ctx.stores[name], result);
          ctx.stores := ctx.stores[name := merged];
        } else {
          ctx.stores := ctx.stores[name := result];
        }
      }
    }
  }
}
