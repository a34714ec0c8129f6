# Configuration store and step helpers of a test-automation framework

This project models the data core of a Cucumber test-automation framework in
Dafny. The framework fills a process-wide store of named storages, each a map
from keys to nested maps, lists and scalars.

- **Config ingestion** (`config_reader.dfy`, module `Config`). A config document has its
  `#include` lines ingested first and removed. It is wrapped in braces and parsed to a JSON tree.
  Each top-level object is converted into a map. That map is registered under its key, or
  deep-merged into the map already registered there.
- **The store** (`storage.dfy`, module `Storage`, with path addressing in `paths.dfy`).
  - `get` reads a value by a path such as `TestData.orders[2].id`.
  - `set` writes through such a path.
  - `writeToFile` and `readFromFile` keep one `identifier=<json>` snapshot line per identifier in
    a persistence file and load a snapshot back through the config reader.
- **Step helpers** (`step_core.dfy`, `step_util.dfy`).
  - Three line filters: positive, negative and block.
  - `${…}` substitution in templates.
  - Resolution of a step input that may name a stored value.
  - The older `StepUtil` path `get`, flat `set` and input resolution.
- **Shared definitions.**
  - `values.dfy` holds the stored values, the failures and the shared context.
  - `text.dfy` models the Java string operations the code relies on: `split`, `trim`,
    `contains`, `indexOf`, `replace` and `NumberUtils.isNumber`.

State the source updates in place is modelled with classes:
- `Values.Context` holds the storages.
- `Config.ConfigReader.Create` changes them.
- `Storage.Store` holds the persistence file.
- `StepUtil.StepUtil.Set` changes the TestData storage.

The loops of the source are methods. Each is proved against a function that specifies its result.
The properties are lemmas about those functions. A `Log.error` call, which fails the running step,
is a failure result (`Err`/`Fail`), and so is a Java exception. The one exception is `parseObject`'s
`Log.error` for a number that does not parse. There the model continues as the code after the call
does: the key is left out and the other members are still converted (`Config.ConvertNumber`).

The model follows the code where its behaviour differs from what the method names and comments suggest:
- Reading through a key that is absent is a NullPointerException in `get`, not null (`Storage.GetThroughMissingKey`).
- A top-level config entry that is not an object stops ingestion: Gson's `getAsJsonObject` throws.
- Nested arrays and JSON nulls inside an array are dropped, not stored as null.
- Include processing is switched on only by the text `#include ` with a trailing blank. A line is
  then treated as an include when, trimmed and stripped of quotes, it starts with `#include` and
  ends with `.config`.
- `StepUtil`'s `get` on an absent storage throws (`StepUtil.GetMissingStorage`). `Storage`'s `get` answers null.

## Model

| member | source | states |
|---|---|---|
| Config.Narrow | src/libs/libCore/modules/ConfigReader.java:127-134 | a parsed Long becomes an Integer exactly when it lies in the 32-bit range, and the number itself is never changed |
| Config.ParseMembers | src/libs/libCore/modules/ConfigReader.java:115-200 | the parsed map has no key that is not the name of a member of the JSON object |
| Config.ParseArray | src/libs/libCore/modules/ConfigReader.java:151-189 | the parsed list is never longer than the JSON array and never holds a nested list or a null |
| Config.ParseMembersAt | src/libs/libCore/modules/ConfigReader.java:115-200 | a member's name is in the parsed map exactly when its value converts, and then maps to the converted value; so a number that fails to parse leaves its key out, and a JSON null member is stored as null |
| Config.ParseObjectNarrows | src/libs/libCore/modules/ConfigReader.java:123-134 | a Long member is stored as an Integer when it fits 32 bits and as the Long otherwise |
| Config.ParseArrayKeepsAll | src/libs/libCore/modules/ConfigReader.java:151-189 | when no element is dropped, the list has one converted element per array element, in order (numbers narrowed as for members) |
| Config.Merged | src/libs/libCore/modules/ConfigReader.java:213-232 | the merged map's keys are the original keys plus the new keys |
| Config.AppendNewShape | src/libs/libCore/modules/ConfigReader.java:219-226 | the list merge keeps the original list as a prefix, contains every new element, adds nothing from elsewhere and never appends an element already present |
| Config.AppendNewPresent | src/libs/libCore/modules/ConfigReader.java:219-226 | merging elements that are all present already leaves the list unchanged |
| Config.MergedSelf | src/libs/libCore/modules/ConfigReader.java:213-232 | merging a map into itself gives the same map |
| Config.MergeValueSelf | src/libs/libCore/modules/ConfigReader.java:215-228 | merging a value into itself gives the same value |
| Config.MergedIdempotent | src/libs/libCore/modules/ConfigReader.java:213-232 | merging the same new map a second time changes nothing |
| Config.MergeValueIdempotent | src/libs/libCore/modules/ConfigReader.java:215-228 | the per-key merge is idempotent for maps, lists and overwritten values alike |
| Config.AppendMissing | src/libs/libCore/modules/ConfigReader.java:219-226 | the list loop appends, in order, each new element not yet contained |
| Config.DeepMerge | src/libs/libCore/modules/ConfigReader.java:213-232 | the result has every key of either map; keys only the original has keep their value; two maps merge recursively, two lists by appending the missing elements, and otherwise the new value wins |
| Config.IncludeLineLength | src/libs/libCore/modules/ConfigReader.java:46-50 | an include line has text after `#include`, so taking the path after its ninth character is in range |
| Config.IncludedPath | src/libs/libCore/modules/ConfigReader.java:50-51 | the included file is looked up under the project directory |
| Config.KeptLines | src/libs/libCore/modules/ConfigReader.java:45-57 | the lines kept after include stripping are never more than the lines read |
| Config.KeptLinesMember | src/libs/libCore/modules/ConfigReader.java:45-57 | a line is kept exactly when it is a line of the file and not an include line |
| Config.KeptLinesAppend | src/libs/libCore/modules/ConfigReader.java:45-57 | stripping keeps the order: the kept lines of two parts are those of the first followed by those of the second |
| Config.KeptLinesSnoc | src/libs/libCore/modules/ConfigReader.java:49-56 | one more line at the end is kept, after the lines kept so far, exactly when it is not an include line |
| Config.KeptLinesStep | src/libs/libCore/modules/ConfigReader.java:45-57 | an include line adds nothing to the kept text; any other line adds itself and a line separator |
| Config.Wrap | src/libs/libCore/modules/ConfigReader.java:62-64 | the parsed text always starts with '{': a body that already does is kept, any other is put between '{' and '}' |
| Config.Register | src/libs/libCore/modules/ConfigReader.java:89-96 | registering an entry adds its name to the storages and removes none |
| Config.RegisterAllFrame | src/libs/libCore/modules/ConfigReader.java:76-97 | registration removes no storage and leaves storages the document does not name alone; it succeeds exactly when every top-level entry is an object, and then every top-level name names a storage |
| Config.RegisterAllAt | src/libs/libCore/modules/ConfigReader.java:86-96 | each top-level name ends up holding its parsed map when it was new, or the deep merge of the old map with it |
| Config.ConfigReader.Create | src/libs/libCore/modules/ConfigReader.java:32-102 | storages are only ever added; a missing file is an error that changes nothing; on success every top-level name of the document names a storage; the storages and outcome left are exactly those of `Ingest`: the includes, in order and recursively, then the register-or-merge of the document's entries |
| Config.ConfigReader.CreateFromLines | src/libs/libCore/modules/ConfigReader.java:42-97 | include lines are ingested first, leaving exactly the storages of `IncludeAll`; a document that does not parse is an error that keeps what the includes registered; otherwise the store is the register-or-merge of every top-level entry into the store left by the includes; the whole is exactly `IngestLines` |
| Config.ConfigReader.StripIncludes | src/libs/libCore/modules/ConfigReader.java:42-60 | without the text `#include ` nothing happens; otherwise every include line is ingested recursively, in order, each from the storages the earlier ones left, the first failure stops the loop, and the storages and outcome are exactly those of `IncludeAll`; the remaining lines, trimmed, go on to the parser |
| Config.ConfigReader.IncludeOne | src/libs/libCore/modules/ConfigReader.java:49-53 | with no include depth left the include fails and changes nothing; otherwise the storages and outcome are exactly those of ingesting the included file; storages are only added, and on success the file exists and each of its top-level names names a storage |
| Config.ConfigReader.RegisterEntries | src/libs/libCore/modules/ConfigReader.java:76-97 | the registration loop leaves exactly the storages and outcome of the register-or-merge of the entries in order |
| Paths.StorageValue | src/test/java/libs/libCore/modules/Storage.java:159-165 | the storage named is the whole map registered under that name, or null when there is none |
| Paths.ElementName | src/test/java/libs/libCore/modules/Storage.java:175 | an element's key is the text before the first '[' (the whole element when it has none) and holds no '['; taking it fails, as `split` giving no piece does, exactly when the element is non-empty and made only of '[' |
| Paths.BracketIndex | src/test/java/libs/libCore/modules/Storage.java:182 | an index read from an element lies in the 32-bit range and needs a closing ']' |
| Paths.IndexedRoundTrip | src/test/java/libs/libCore/modules/Storage.java:175-183 | an element written as `key[i]` is read back as the key `key` and the index `i` |
| Paths.ListGet | src/test/java/libs/libCore/modules/Storage.java:183 | a list read succeeds exactly for an index within the list and gives that slot |
| Paths.WalkStopsAtNonMap | src/test/java/libs/libCore/modules/Storage.java:188-190 | a walk that reaches a value other than a map, with elements left whose next key can be taken, answers null |
| Paths.WalkStopsAtNonList | src/test/java/libs/libCore/modules/Storage.java:180-186 | a bracketed element whose value is present but not a list answers null |
| Paths.WalkIndexed | src/test/java/libs/libCore/modules/Storage.java:180-183 | `key[i]` on a list holding slot `i` continues from that slot |
| Paths.WalkKey | src/test/java/libs/libCore/modules/Storage.java:177-178 | a plain key continues from the value under it, which is null when the key is absent |
| Paths.Elements | src/test/java/libs/libCore/modules/Storage.java:167-173 | re-joining the pieces after the storage name and splitting them again gives back exactly those pieces |
| Paths.SplitPath | src/test/java/libs/libCore/modules/Storage.java:164 | splitting a path built from a storage name and elements gives back the name and the elements |
| Storage.Get | src/test/java/libs/libCore/modules/Storage.java:151-197 | a numeric path reads as null, and a path without '.' reads as the whole storage of that name |
| Storage.GetPath | src/test/java/libs/libCore/modules/Storage.java:163-194 | a dotted path reads as null when its storage is absent, and as the walk of its elements from the storage otherwise |
| Storage.GetMissingStorage | src/test/java/libs/libCore/modules/Storage.java:165-166 | a dotted path through a storage that does not exist reads as null |
| Storage.GetField | src/test/java/libs/libCore/modules/Storage.java:174-178 | `Name.key` reads the value under `key`, null when it is absent |
| Storage.GetSlot | src/test/java/libs/libCore/modules/Storage.java:180-183 | `Name.key[i]` on a list holding slot `i` reads that slot |
| Storage.GetThroughMissingKey | src/test/java/libs/libCore/modules/Storage.java:174-181 | reading through an absent key throws a NullPointerException rather than answering null, whether the next element is a plain key or a bracketed one |
| Storage.PutAt | src/test/java/libs/libCore/modules/Storage.java:70-87 | a write into a nested map changes that map at that key and leaves the path to it in place; every other key of the storage, and every other slot of a list the path first steps into, keeps its value |
| Storage.PutAtFrameAlongPath | src/test/java/libs/libCore/modules/Storage.java:70-87 | at every depth along the path, each map passed through keeps every key other than the one the path leaves it by, and each list passed through keeps its length and every slot other than the one entered |
| Storage.ParseMap | src/test/java/libs/libCore/modules/Storage.java:70-87 | a step of `parseMap` that stays at or moves to a map leaves the walk at a map of the written storage |
| Storage.ParseMapIntoMap | src/test/java/libs/libCore/modules/Storage.java:71-73 | a map under the key is not written: the walk moves to the map under the whole element text, to no map when that is null, and fails on any other value |
| Storage.ParseMapIntoList | src/test/java/libs/libCore/modules/Storage.java:74-81 | a list under the key succeeds exactly when the bracket gives an index within the list; a map in that slot is moved into without writing; any other slot value is overwritten in place and the walk stays at the same map |
| Storage.ParseMapReplace | src/test/java/libs/libCore/modules/Storage.java:82-84 | any other value under the key is replaced by the value written and the walk stays at the same map |
| Storage.AtStep | src/test/java/libs/libCore/modules/Storage.java:72-78 | descending one step more reaches the map under that key or in that list slot |
| Storage.SetMissingStorage | src/test/java/libs/libCore/modules/Storage.java:44-46 | writing through a storage that does not exist is an error and changes nothing |
| Storage.SetKeyMissing | src/test/java/libs/libCore/modules/Storage.java:48-53 | writing through a key that is absent or null is an error and changes nothing |
| Storage.SetElementsKeyMissing | src/test/java/libs/libCore/modules/Storage.java:48-53 | at any depth of the element loop, an element whose key is absent or null stops it with an error and writes nothing more |
| Storage.SetElementsBadName | src/test/java/libs/libCore/modules/Storage.java:48-49 | an element whose name cannot be taken fails with that error wherever the loop stands, even on a null map, and writes nothing more |
| Storage.SetNameBeforeNull | src/test/java/libs/libCore/modules/Storage.java:48-51 | after `key[0]` on a map has moved the loop to a null map, an element made only of '[' fails on its name before the null map is used |
| Storage.SetNestedKeyMissing | src/test/java/libs/libCore/modules/Storage.java:48-56 | `Name.key.next` where `key` holds a map without `next` (or with `next` null) is an error and changes nothing |
| Storage.SetScalar | src/test/java/libs/libCore/modules/Storage.java:82-84 | a key holding a value that is not a map or a list is replaced with `put` |
| Storage.SetMapNotWritten | src/test/java/libs/libCore/modules/Storage.java:72-73 | a key holding a map is descended into and nothing is written |
| Storage.SetListSlot | src/test/java/libs/libCore/modules/Storage.java:74-81 | a list slot that is not a map is overwritten; the list keeps its length and its other slots |
| Storage.SetSlotField | src/test/java/libs/libCore/modules/Storage.java:48-87 | `Name.key[i].field` on a slot holding a map writes the field inside that map |
| Storage.GetSlotField | src/test/java/libs/libCore/modules/Storage.java:174-190 | `Name.key[i].field` on a slot holding a map reads that map's field |
| Storage.SetSlotFieldThenGet | src/test/java/libs/libCore/modules/Storage.java:48-87 | after that write, `get` on the same path reads the value written |
| Storage.Store.Set | src/test/java/libs/libCore/modules/Storage.java:36-58 | the loop over the path's elements leaves exactly the storages and the outcome of the path write; each element's name is taken before the map it stands at is used |
| Storage.WrittenFileShape | src/test/java/libs/libCore/modules/Storage.java:218-243 | a write keeps the other lines where they were and replaces this identifier's snapshot lines without changing the line count; with no such line it appends exactly one |
| Storage.FindSnapshot | src/test/java/libs/libCore/modules/Storage.java:261-266 | the line found is a line of the file starting with `identifier={` with no such line before it, and there is none exactly when no line does |
| Storage.FirstSnapshot | src/test/java/libs/libCore/modules/Storage.java:261-266 | the scan of the file's lines stops at, and returns, exactly the line `FindSnapshot` specifies |
| Storage.EntryIsSnapshot | src/test/java/libs/libCore/modules/Storage.java:215-234 | a line written for JSON object content is recognised as that identifier's snapshot |
| Storage.WrittenFileSnapshots | src/test/java/libs/libCore/modules/Storage.java:215-243 | after a write the file holds a snapshot line of the identifier, and every such line is the one written |
| Storage.SnapshotRoundTrip | src/test/java/libs/libCore/modules/Storage.java:216-268 | reading a snapshot back after writing it finds the line written and recovers exactly the content |
| Storage.WriteIdempotent | src/test/java/libs/libCore/modules/Storage.java:215-243 | writing the same snapshot twice leaves the file as one write left it |
| Storage.Store.WriteToFile | src/test/java/libs/libCore/modules/Storage.java:199-247 | an empty name or identifier is an error that leaves the file alone; an absent storage writes nothing; otherwise the file becomes the written file for the line `identifier=<json>` |
| Storage.Store.ReadFromFile | src/test/java/libs/libCore/modules/Storage.java:249-284 | an empty name or identifier, a missing file and a missing snapshot line are errors that change nothing; otherwise the document `name : <json>` is ingested by the config reader, leaving exactly the storages and outcome of `IngestLines` on that one line |
| StepCore.Matches | src/test/java/modules/core/StepCore.java:248-252 | a line is emitted at most once per filter and nothing else is emitted |
| StepCore.ApplyPositiveFilter | src/test/java/modules/core/StepCore.java:227-258 | an empty filter list is an error; otherwise the output is the trimmed text of each line emitted once per filter it contains |
| StepCore.MatchesMember | src/test/java/modules/core/StepCore.java:248-252 | a line is emitted for a line exactly when it contains one of the filters |
| StepCore.PositiveMember | src/test/java/modules/core/StepCore.java:247-253 | the positive filter emits exactly the input lines that contain at least one filter |
| StepCore.PositiveAppend | src/test/java/modules/core/StepCore.java:247-253 | the positive filter handles lines independently and in order |
| StepCore.MatchesCount | src/test/java/modules/core/StepCore.java:248-252 | a line is emitted once for each filter position it contains |
| StepCore.PositiveCount | src/test/java/modules/core/StepCore.java:247-253 | a line containing k filters appears k times in the output for each time it appears in the input |
| StepCore.ApplyNegativeFilter | src/test/java/modules/core/StepCore.java:261-296 | an empty filter list is an error; otherwise the output is the trimmed text of the lines that contain no filter, in order |
| StepCore.NegativeMember | src/test/java/modules/core/StepCore.java:281-291 | the negative filter keeps exactly the input lines that contain no filter |
| StepCore.NegativeAppend | src/test/java/modules/core/StepCore.java:281-291 | the negative filter handles lines independently and in order |
| StepCore.FiltersPartition | src/test/java/modules/core/StepCore.java:247-291 | with one filter, the positive and the negative filter together emit every input line exactly once |
| StepCore.BlockPass | src/test/java/modules/core/StepCore.java:324-335 | one filter's pass over all lines emits exactly the lines `BlockOut` specifies |
| StepCore.ApplyBlockFilter | src/test/java/modules/core/StepCore.java:298-342 | an empty filter list, or a filter missing its begin or end keyword, is an error; otherwise each filter makes one pass over all lines, in filter order, and the text is trimmed |
| StepCore.BlockEmitsKeywordLines | src/test/java/modules/core/StepCore.java:324-334 | every line that contains the end or the begin keyword is emitted |
| StepCore.BlockFromInput | src/test/java/modules/core/StepCore.java:324-335 | a pass emits only input lines, at most two per input line |
| StepCore.BlockOpenLine | src/test/java/modules/core/StepCore.java:332-334 | a line without keywords is emitted exactly when the block is open |
| StepCore.BlockWithoutBegin | src/test/java/modules/core/StepCore.java:324-335 | without a begin line the block never opens, and a pass emits exactly the lines containing the end keyword |
| StepCore.BooleanWord | src/test/java/modules/core/StepCore.java:88-92 | a boolean word is never numeric text |
| StepCore.TrueAndFalse | src/test/java/modules/core/StepCore.java:88-92 | "true" and "false" are the two Booleans |
| StepCore.Converted | src/test/java/modules/core/StepCore.java:87-106 | a converted input is never null, and only numeric text can fail to convert |
| StepCore.CheckIfInputIsVariable | src/test/java/modules/core/StepCore.java:82-114 | the result is never null; a failed storage lookup comes first, and a non-null value stored under the input wins over every conversion |
| StepCore.BooleanInput | src/test/java/modules/core/StepCore.java:88-92 | with nothing stored under it, a boolean word becomes that Boolean |
| StepCore.NumericInput | src/test/java/modules/core/StepCore.java:95-106 | numeric text becomes the number it parses to, or a failure |
| StepCore.PlainInput | src/test/java/modules/core/StepCore.java:82-83 | any other input with nothing stored under it is returned as the String itself |
| StepCore.VariableName | src/test/java/modules/core/StepCore.java:176-179 | a leading "ctx." is removed from the placeholder and nothing else is |
| StepCore.FindPlaceholder | src/test/java/modules/core/StepCore.java:167-175 | there is no placeholder exactly when the text has no "${"; a placeholder found occurs as "${" + text + "}" |
| StepCore.Resolve | src/test/java/modules/core/StepCore.java:180 | resolving fails exactly when the input resolution fails; a variable that is not found, and is neither a boolean word nor numeric, resolves to its own name |
| StepCore.ReplaceInTemplate | src/test/java/modules/core/StepCore.java:166-188 | a text without "${" is returned unchanged |
| StepCore.TemplateUnresolvedContext | src/test/java/modules/core/StepCore.java:177-187 | a first placeholder `ctx.name` that resolves to its own name stops the substitution and returns the input unchanged |
| StepCore.TemplateUnknownContext | src/test/java/modules/core/StepCore.java:177-187 | a first placeholder `ctx.name` whose variable is not stored, and is neither a boolean word nor numeric, leaves the input unchanged |
| StepCore.TemplateUnclosedError | src/test/java/modules/core/StepCore.java:167-173 | a "${" with no "}" after it is an error |
| StepCore.TemplateOnePlaceholder | src/test/java/modules/core/StepCore.java:166-188 | `pre${name}post` becomes `pre` + the resolved text + `post` |
| StepUtil.Get | src/test/java/modules/core/StepUtil.java:69-75 | a path without '.' reads as the whole storage of that name |
| StepUtil.GetPath | src/test/java/modules/core/StepUtil.java:77-108 | a dotted path is the walk of its elements from the named storage, present or not |
| StepUtil.GetAgreesWithStorage | src/test/java/modules/core/StepUtil.java:69-109 | for a non-numeric path whose storage exists, this `get` and the store's `get` read the same value |
| StepUtil.GetMissingStorage | src/test/java/modules/core/StepUtil.java:79-90 | walking from a storage that does not exist throws a NullPointerException, whether the first element is a plain key or a bracketed one |
| StepUtil.GetSlot | src/test/java/modules/core/StepUtil.java:93-96 | `Name.key[i]` on a list holding slot `i` reads that slot |
| StepUtil.GetThroughNonMap | src/test/java/modules/core/StepUtil.java:87-105 | reaching a value other than a map, with an element left whose key can be taken, answers null |
| StepUtil.GetNonList | src/test/java/modules/core/StepUtil.java:93-100 | a bracketed element whose value is not a list answers null |
| StepUtil.SetFlat | src/test/java/modules/core/StepUtil.java:23-55 | a null, an Integer (a type `getType` does not know) or a missing TestData storage is an error that changes nothing; otherwise the value is put under the literal key in TestData, adding only that key |
| StepUtil.SetFlatFrame | src/test/java/modules/core/StepUtil.java:25-30 | a flat write changes no other key of TestData and no other storage |
| StepUtil.SetFlatThenGet | src/test/java/modules/core/StepUtil.java:23-109 | a value written under a key without '.' or '[' is read back by `get` through `TestData.key` |
| StepUtil.StepUtil.Set | src/test/java/modules/core/StepUtil.java:23-32 | the method leaves the shared storages and the outcome of the flat write |
| StepUtil.CheckIfInputIsVariable | src/test/java/modules/core/StepUtil.java:122-130 | an input without '.' is returned as the String itself, any other input is read with `get` |
| StepUtil.CheckAgreesWithStepCore | src/test/java/modules/core/StepUtil.java:122-130 | on a path to a stored non-null value, this resolution and the one of StepCore agree |
| StepUtil.CheckIfInputIsVariableAndReturnString | src/test/java/modules/core/StepUtil.java:132-140 | an input without '.' is returned as it is; a path reading as null throws; a path to a String returns that String; a result implies the resolution succeeded |
| Values.Render | src/test/java/modules/core/StepUtil.java:139 | writing a value fails exactly for null, and a String is written as itself |

## Left out

- Gson is outside the model. Text-to-tree parsing is the `parse` function a `ConfigReader` is built with. Map-to-JSON serialisation is the `toJson` function of a `Store`.
- `NumberFormat.parse` under the default locale is the `numberFormat` parameter. Config numbers arrive already classified as Long, Double or unparseable.
- `toString` of a Double, a list or a map is the `show` parameter. Doubles are opaque bit patterns.
- `Text.IsNumber` accepts optionally signed decimal digits with at most one '.'. It does not model `NumberUtils.isNumber`'s hexadecimal, exponent and type-suffix forms.
- Files are lists of lines, and every line separator is "\n". `FileCore`, the temporary file of `readFromFile`, file removal and appending are folded into the file value they produce.
- `Log.debug` and `Log.info` are not modelled. Neither are `sleep`, report attachments, `searchForTemplate`, `evaluateTemplate`, `compareWithTemplate` (a regular-expression match), `print` and `printTestData`.
- Java null strings and null filter lists cannot be written. Only the empty-text and empty-list checks are modelled.
- Nested maps and lists are values, not shared objects.
  - `set` and `deepMerge` rebuild the storage instead of updating it in place.
  - Aliasing between the merged map and the parsed one is not captured.
  - Neither is HashMap iteration order: `DeepMerge` takes the keys in any order, which gives the same result.
- Config.ConfigReader.Create: include recursion is bounded by a `fuel` parameter. Running out is reported as `FuelExhausted`, where the source would recurse without bound on cyclic includes.
- StepCore.ReplaceInTemplate: each substitution restart spends one unit of `fuel`. A substituted value that itself contains a placeholder can make the source loop forever.
- StepCore.ReplaceInTemplate: its own contract covers only text without a placeholder. Unclosed placeholders, the "ctx." stop and one substitution are the separate lemmas `TemplateUnclosedError`, `TemplateUnresolvedContext` and `TemplateOnePlaceholder`.
- StepCore.ApplyBlockFilter: the source tests `begin == ""` by reference, so only an interned empty string counts. The model compares values.
- StepCore.BooleanWord: covers the six words of `BooleanUtils.toBooleanObject` that steps use: true/on/yes and false/off/no, in any case. It leaves out the single letters "y", "n", "t" and "f".
- StepCore.Converted: a number `NumberFormat` cannot parse is the failure `NumberUnparseable`. In the source, after the `Log.error`, `getType(null)` throws a NullPointerException on `value.getClass()`.
- Storage.Store.WriteToFile: an existing but empty file gets the snapshot line twice, once by the write and once by the append. The model keeps this behaviour in `WrittenFile`.
- Config.IncludedPath: `File.separator` is fixed to "/"; a platform whose separator is "\\" is not modelled.
- Config.ConvertNumber: the `Log.error` for a number `NumberFormat` cannot parse is not a failure here. The key is left out and ingestion goes on, as the `num != null` test after the call expects. A harness that fails the step on that log is outside the model.
