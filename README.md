# svg-sprite `import` task, modelled in Dafny

This project models the `import` task of the Apostrophe svg-sprite module
(`index.js:28-229`). It turns each configured sprite *map*
(`{ label, name, file }`) into persisted *sprite pieces*. It works in three
steps, run one map after another:

1. **`loadMap`** resolves `map.file`. A string containing `http`, in any
   letter case and anywhere in it, is fetched over HTTP, and the status code
   decides between "notfound", "error" and the body. Any other string is a
   path under the module's public folder. A path containing `*` is expanded
   with glob; any other path is looked up literally. On a local hit the
   descriptor is changed in place: `finalFile` is set, and after a glob hit
   `file` is rewritten too. On a local miss the data is `null` and the map
   is left unchanged.
2. **`parseMap`** starts from the parsed XML tree. It uses `findInObj` to
   find the first node owning a `symbol` property, and emits one record
   `{ symbol: $, file, map }` per element of that node's `symbol` array. It
   throws on the first element without a truthy `$.id`.
3. **`evaluateForUpsert`** handles the records in order. Each record updates
   `title`, `file` and `map` of the first piece with the same `svgId`, or
   inserts a new piece when there is none. The title is the laundered
   `title` attribute, or the laundered `id` when the title is missing or
   empty.

The modules follow these steps:

- `Common`: `Option`, `Result` and the framework's error names.
- `Tree`: the xml2js object tree, JavaScript truthiness, property access
  and `findInObj`.
- `Locator`: `loadMap`. The `MapDescriptor` class is mutated in place, and
  the function `Load` specifies it.
- `Extract`: `parseMap`. The push loop is the method `ParseMap`, and the
  function `ParseResult` specifies it.
- `Store`: the piece store. The class `DocStore` has the methods `Find`,
  `InsertPiece`, `UpdatePiece` and `EvaluateForUpsert`, and the functions
  `Upsert` and `Reconcile` specify them.
- `ReconcileProps`: what the upsert rule guarantees over whole runs.
- `Orchestrator`: the loop over the maps. Its two wirings of `index.js:35`
  are explained under Findings.

Everything outside the import task becomes a parameter:

- the HTTP client (status and body per URL), `fs.existsSync`, glob
  expansion and `readFile` (the datatype `Locator.Env`);
- the XML parser (`Orchestrator.Io.parse`);
- `self.apos.launder.string` and the extra fields of `self.newInstance()`
  (`Store.Apos`).

## Model

| member | source | states |
|---|---|---|
| `Tree.LookupIff` | index.js:221-222 | an object's property lookup succeeds exactly when the object owns the key, and yields the value of the first field with that key |
| `Tree.AttrIff` | index.js:221 | property access yields a value exactly when `_.has(obj, key)` holds; strings and arrays own no key |
| `Tree.FindInObj` | index.js:219-228 | a node that owns the key is returned alone, without searching inside it |
| `Tree.FindInObjSound` | index.js:219-228 | every node `findInObj` returns owns the key and lies inside the searched tree |
| `Tree.FindInObjEmptyIff` | index.js:219-228 | the search returns `[]` exactly when no node of the tree owns the key |
| `Tree.FindInObjComplete` | index.js:219-228 | every owner of the key that the search reaches (through children of nodes that do not own the key) is returned, so no owner outside another owner is missed |
| `Tree.FindInObjOutermost` | index.js:219-228 | every node the search returns owns the key and is reached without passing through another owner, so the search never descends into a match |
| `Tree.FindInObjFirstIsLeftmost` | index.js:225-227 | in an object that does not own the key, the first node found is the first one found under the first property whose value contains an owner, which is the container `parseMap` takes as `symbols[0]` (index.js:131-132) |
| `Tree.FindInArrFirstIsLeftmost` | index.js:225-227 | in an array, the first node found is the first one found under the first element that contains an owner |
| `Tree.FlattenFirst` | index.js:225-227 | after only empty lists, the flattening starts with the first element of the first non-empty list |
| `Tree.FlattenMember` | index.js:225-227 | an element is in the one-level flattening exactly when it is in one of the lists |
| `Tree.FlattenEmpty` | index.js:225-227 | the flattening is empty exactly when every list is empty |
| `Tree.Truthy` | index.js:131-140 | JavaScript truthiness of a parsed value: only the empty string is falsy (no `ensures`; it is the test used at index.js:131, 140, 177 and 195, and `Extract.FirstContainerChecks`, `Extract.UsableSymbolIff` and `Store.TitleOnInsertAndUpdate` state its effect) |
| `Locator.ContainsHttp` | index.js:43-45 | the regex test on `map.file`, scanning from the start (no `ensures`; `Locator.ContainsHttpIff` characterises it) |
| `Locator.ContainsHttpIff` | index.js:43-45 | the `/(http(s)?)/gi` test holds exactly when `http`, in any letter case, occurs at some position of `map.file` |
| `Locator.Substring` | index.js:76 | `s.substring(n)` is the rest of `s` after its first `n` characters, or empty past the end |
| `Locator.Load` | index.js:42-117 | remote: 200 gives the body, 400-499 "notfound" and every other status "error", and the map is unchanged in all three cases; local: never throws, a miss leaves the map unchanged, a hit sets `finalFile` to prefix + served folder + the final `file`, and only a glob hit may change `file`; `label` and `name` never change |
| `Locator.GlobHitRewritesFile` | index.js:68-86 | after a glob hit, the data is the first match's contents, `file` becomes that match with the base folder stripped, and `finalFile` is built from the new `file` |
| `Locator.LocalMissIffNoData` | index.js:65-114 | a local map yields `null` data exactly when the glob finds nothing or the literal path is absent, and then the map is untouched; a literal hit keeps `file` and sets only `finalFile` |
| `Locator.MapDescriptor.constructor` | index.js:29 | a configured map starts with its label, name and file, and no `finalFile` |
| `Locator.LoadMap` | index.js:42-117 | the returned data and the descriptor's new fields are those `Load` gives for the descriptor's old value |
| `Extract.SymbolList` | index.js:123-137 | no `symbol` container gives "invalid"; a success is the `symbol` array of the first container |
| `Extract.FirstContainerChecks` | index.js:131-139 | a missing or falsy `symbol` value of the first container gives "error"; a truthy non-array gives a TypeError from `forEach`; an array is handed on element by element |
| `Extract.NoSymbolIsInvalid` | index.js:123-129 | a tree with no `symbol` key anywhere is "invalid" |
| `Extract.SymbolAttrs` | index.js:139-150 | an accepted element's record carries the element's own `$` object; a rejection is a TypeError or "invalid" |
| `Extract.UsableSymbolIff` | index.js:140-149 | an element is accepted exactly when it has a `$` with a truthy `id`; a missing `$` is exactly the TypeError case |
| `Extract.Records` | index.js:139-153 | the records exist exactly when every element is accepted, and then there is one record per element, in order, with `symbol = $`, `file = finalFile` and `map = name` |
| `Extract.RecordsFailAtFirstBadSymbol` | index.js:139-151 | a failed extraction reports the failure of the first rejected element, and every element before it is accepted |
| `Extract.RecordsStopAt` | index.js:139-151 | the first rejected element decides the failure, whatever follows it |
| `Extract.ParseUsesFirstContainer` | index.js:131-153 | only the first container's elements are used: a success has one record per element of its array, carrying the map's file and name |
| `Extract.ParseResult` | index.js:119-155 | what `parseMap` returns for a parsed tree (no `ensures`; `Extract.FirstContainerChecks`, `Extract.NoSymbolIsInvalid` and `Extract.ParseUsesFirstContainer` characterise it, and `Extract.ParseMap` is proved equal to it) |
| `Extract.ParseMap` | index.js:119-155 | the push loop returns what `ParseResult` specifies, so it never returns a partial list |
| `Store.SetFields` | index.js:193-208 | `$set` changes exactly `title`, `file` and `map`; `svgId` and every other field stay |
| `Store.NewPiece` | index.js:174-189 | an inserted piece has the record's `svgId`, its title, file and map, and the fresh instance's other fields |
| `Store.FirstIndex` | index.js:160-166 | the position found holds the key and no earlier position does; no position means no piece holds the key |
| `Store.FirstIndexAgree` | index.js:166 | changing fields other than `svgId`, or appending, does not move the first piece of a key already present |
| `Store.FirstMatchIsFirstIndex` | index.js:160-166 | `docs[0]` of the `find` result, listed in store order, is the first piece holding the key |
| `Store.Upsert` | index.js:157-209 | one record: the store grows by one exactly when its id is new; all other pieces stay; ids and other fields never change; afterwards the first piece of the id has the record's fields |
| `Store.StoredTitle` | index.js:177-181 | the laundered `title` when it is truthy, else the laundered `id`; the same function is used by insert and update (index.js:195-199) (no `ensures`; `Store.TitleOnInsertAndUpdate` states the choice) |
| `Store.TitleOnInsertAndUpdate` | index.js:177-185 | on insert and on update alike, the title is `launder(title)` when the title is truthy and `launder(id)` otherwise, and `file`/`map` are the record's |
| `Store.UpsertByFind` | index.js:160-170 | a non-empty `find` result means update the first match in place; an empty one means append one new piece |
| `Store.ReconcileNext` | index.js:158-171 | handling one more record is one more upsert on the store the earlier records left |
| `Store.Reconcile` | index.js:157-172 | a run never removes pieces, adds at most one per record, and keeps the ids and other fields of the pieces already there |
| `Store.DocStore.constructor` | index.js:160 | the store starts with the given pieces |
| `Store.DocStore.Find` | index.js:160-162 | returns exactly the positions of the pieces whose `svgId` is the key, in increasing order |
| `Store.DocStore.InsertPiece` | index.js:174-190 | appends the new piece and changes nothing else |
| `Store.DocStore.UpdatePiece` | index.js:192-209 | replaces the piece at the position by its `$set` update and changes nothing else |
| `Store.DocStore.EvaluateForUpsert` | index.js:157-172 | the loop leaves the store as `Reconcile` says |
| `ReconcileProps.LastWithIn` | index.js:158 | the record whose fields win is one of the records |
| `ReconcileProps.LastWithSome` | index.js:158 | there is a last record for an id exactly when some record has that id |
| `ReconcileProps.LastWithUnique` | index.js:158 | with distinct ids, each record is the last one with its id |
| `ReconcileProps.RecordIdsSnoc` | index.js:158 | the ids of the records are those of all but the last plus the last one's |
| `ReconcileProps.IdSetSnoc` | index.js:187 | appending a piece adds exactly its id to the store's ids |
| `ReconcileProps.IdSetSameIds` | index.js:204-208 | stores with the same ids position by position hold the same ids |
| `ReconcileProps.CountSnoc` | index.js:187 | appending a piece adds one to the count of its id only |
| `ReconcileProps.CountSameIds` | index.js:204-208 | `$set` updates change no id's piece count |
| `ReconcileProps.CountPositive` | index.js:164 | an id has pieces exactly when it is among the store's ids |
| `ReconcileProps.UpsertIds` | index.js:164-170 | one record adds its own id to the store's ids and no other |
| `ReconcileProps.UpsertCount` | index.js:164-170 | one record creates a piece for its id only when the id had none, and never changes another id's count |
| `ReconcileProps.ReconcileIds` | index.js:157-172 | after a run the store holds exactly its old ids and the records' ids |
| `ReconcileProps.ReconcileCount` | index.js:157-172 | a run never creates a second piece for an id: existing counts stay, and a new id gets exactly one piece |
| `ReconcileProps.ReconcileKeepsIdsUnique` | index.js:157-172 | a store with at most one piece per id keeps that property through any run |
| `ReconcileProps.ReconcileLength` | index.js:157-172 | the store grows by exactly the number of record ids it did not hold yet |
| `ReconcileProps.RerunKeepsCount` | index.js:157-172 | running the same records again leaves the number of pieces unchanged |
| `ReconcileProps.ReconcileLastWins` | index.js:157-209 | after a run, the first piece of each record id has the fields of the last record with that id |
| `ReconcileProps.Overlay` | index.js:193-208 | re-applying records only overwrites fields and keeps the store's length |
| `ReconcileProps.OverlayFirstIndex` | index.js:166 | overwriting fields does not move the first piece of an id |
| `ReconcileProps.OverlaySnocAt` | index.js:164-166 | one more stored record changes, position by position, only the first piece of its id |
| `ReconcileProps.OverlaySnoc` | index.js:164-166 | one more stored record overwrites the first piece of its id, as the overlay of all records says |
| `ReconcileProps.ReconcilePresent` | index.js:164-166 | when every record id is already stored, a run only overwrites fields, with the last record for each id winning |
| `ReconcileProps.ReconcileIdempotent` | index.js:157-209 | running the same records twice leaves the store exactly as one run left it |
| `ReconcileProps.ReconcileOnePiecePerRecord` | index.js:157-209 | records with distinct ids on a store with unique ids leave exactly one piece per record, holding that record's fields |
| `ReconcileProps.LaterMapOwnsItsIds` | index.js:192-208 | when every record of a run names the same map, the first piece of each of their ids names that map afterwards |
| `ReconcileProps.TwoMapsSizes` | index.js:34-40 | a 2-id map on an empty store gives 2 pieces, and re-running it keeps 2; a 3-id map sharing one id then gives 4 (the count of new ids comes from the helper `DifferenceSize`, plain set arithmetic) |
| `ReconcileProps.TwoMapsScenario` | index.js:34-40 | in the same two-map scenario, the shared id's piece names the second map |
| `Orchestrator.ParseOrigin` | index.js:35-37 | the `finalFile` and `name` that `parseMap` sees: none as written, the loaded map's with the intended wiring (no `ensures`; `Orchestrator.AsWrittenDropsMapName` and `Orchestrator.IntendedRecordsMapName` state the consequence) |
| `Orchestrator.Extracted` | index.js:35-37 | records are extracted only from a map that loaded without an exception |
| `Orchestrator.ExtractedCarriesOrigin` | index.js:35-37 | every record of a map carries the `finalFile` and `name` of the map object `parseMap` received |
| `Orchestrator.RunMap` | index.js:35-39 | one iteration: the map's value after loading, and either the exception or the store after reconciling the extracted records (no `ensures`; `Orchestrator.HandleMap` is proved against it, and `Orchestrator.AsWrittenDropsMapName` and `Orchestrator.IntendedRecordsMapName` state its effect) |
| `Orchestrator.Fold` | index.js:34-40 | the loop stops at the first map whose iteration throws; the maps after it are never loaded |
| `Orchestrator.Import` | index.js:34-40 | the import task over the maps' values: the fold of `RunMap` (no `ensures`; `Orchestrator.StepDeterminesRun` ties `Orchestrator.RunImport` to it, and `Orchestrator.AbortStopsRemainingMaps` and `Orchestrator.CompletedRunLoadsEveryMap` characterise its runs) |
| `Orchestrator.StepDeterminesRun` | index.js:34-40 | any function computing one iteration as `RunMap` does gives the same run as the import task |
| `Orchestrator.AbortStopsRemainingMaps` | index.js:34-40 | an aborted run is a completed run over the maps before the failing one, plus that map's exception; the store keeps what the earlier maps wrote |
| `Orchestrator.CompletedRunLoadsEveryMap` | index.js:34-40 | a completed run loaded every map exactly once, and each map has its loaded value |
| `Orchestrator.Values` | index.js:29 | the values read from the map objects, one per map, in order |
| `Orchestrator.StopValues` | index.js:34-40 | when the loop stops at map `i`, earlier maps keep their loaded values, map `i` its partly loaded one, and later maps their configured ones |
| `Orchestrator.HandleMap` | index.js:35-39 | one iteration mutates the map and the store as `RunMap` says, and an exception leaves the store as it was |
| `Orchestrator.RunImport` | index.js:34-40 | the loop leaves the outcome, the store and every map object as the fold of `RunMap` over the maps' values says |
| `Orchestrator.AsWrittenDropsMapName` | index.js:35-37 | as written, the first piece of every extracted id ends up with `map` and `file` unset |
| `Orchestrator.IntendedRecordsMapName` | index.js:35-37 | with the loaded map passed on, the first piece of every extracted id records the map's name and the file it was served from |

## Left out

- XML parsing (`xml2js.parseString`, index.js:32, 121) is an input function
  from the data to a tree or an error. Parsing of `null` data after a local
  miss is left to that function.
- HTTP: the status and body of `axios.get` are inputs. Real axios throws on
  non-2xx statuses before the status check, and network failures are not
  modelled.
- `readFile` and `fs.existsSync` are total input functions, so a read error
  is not modelled. Glob expansion is an input list, and its ordering is
  whatever that list says.
- `self.find` is modelled as a scan of the store in store order. Cursor
  options, permissions and the request object are left out. `updateOne` by
  `_id` is modelled by the position of the first match.
- `self.apos.launder.string` is an uninterpreted function. The fields of
  `self.newInstance()` other than the four the import sets are an opaque map.
- Logging through `self.apos.util.error` has no effect on the result and is
  left out.
- Property access models own properties of objects only. Array indices,
  `length`, prototype properties, and `_.has` paths containing `.` or `[`
  are not modelled. Object keys are taken in the order the tree lists them,
  including integer-like keys.
- Truthiness covers the values a parser yields: only the empty string is
  falsy. `null`, `0` and `false` do not occur in the tree.
- The `svgId` match is plain equality of values. Mongo's matching of array
  values against their elements is not modelled.
- Orchestrator.HandleMap: the store operations `self.find`, `self.insert`
  and `db.updateOne` (index.js:160-162, 187-189, 204-208) are taken to
  succeed, so an exception in the model always comes before the first store
  write and leaves the store as it was. In the source, a failure while
  handling record k of a map would leave records 0..k-1 written and abort
  the import task; the model does not capture that partial state.
- Orchestrator.RunImport: stated for map objects that are pairwise distinct.
  The same object listed twice (aliasing) is not modelled.
- Orchestrator.RunImport: stated against any function that agrees with
  `RunMap`. `StepDeterminesRun` ties that function to `Import`.
- async/await: the import task is strictly sequential and is modelled as such.
- Piece-type options and task registration (index.js:8-27) are
  configuration, not logic.
- The integration test only checks that the import task does not throw, so there
  is nothing in it to model.
- The remote test (index.js:43-45) accepts `http` anywhere in `map.file`,
  in any letter case, not only as a leading scheme; the model does the same.
- As written, the pieces do not record their map's name or served file;
  see Findings.

## Findings

| source | as written | input that shows it | evidently intended | confidence | as-written member | corrected member |
|---|---|---|---|---|---|---|
| index.js:35 | `const { data, updatedMap } = await loadMap(map)` destructures a property that `loadMap` never returns (it returns `{ data, map }`), so `parseMap` gets its default `{}` and every record has `file` and `map` undefined | map `{ label: "Places Icons", name: "places", file: "svg/places.svg" }` whose file exists and holds symbols: every piece ends up with `map` unset instead of `"places"` | `const { data, map: updatedMap } = await loadMap(map)`, so that pieces record the map's name and served file | high, not executed | `Orchestrator.AsWrittenDropsMapName` | `Orchestrator.IntendedRecordsMapName` |
