# Notes database layer (`DB`) — a verified Dafny model

`external-apps/notes/cache/js/db.js` is the persistence layer of the notes
application. It wraps the browser's IndexedDB engine. It declares a schema
registry of four tables (`notes`, `noteResource`, `notebooks`, `users`). It
opens the database `EVME_Notes` at version 3 and upgrades older stores. It also
offers generic `get` / `add` / `update` / `remove` / `updateMultiple`
operations on a named table. Domain objects are turned into stored records
(`serialize`) and back (`unserialize`). Finally, `init` generates named
convenience helpers such as `getNotes` and `removeNotebook`.

The model keeps the source's mixed form:

- `values.dfy`: JavaScript primitive values and records, and IndexedDB key
  order, proved a strict total order on keys.
- `strings.dfy`: `indexOf` and `replace` with a string pattern.
- `schema.dfy`: the schema registry, as an ordered table of descriptors.
- `serialization.dfy`: `serialize`, written as a loop method and proved
  against the fold `Serialized`, plus `unserialize`. The domain constructors
  (`window[objName]`) are a function parameter.
- `objectstore.dfy`: the engine operations the layer relies on (`add`, `put`,
  `delete`). They work on a store whose records are kept in ascending key
  order, which is the order a forward cursor visits them.
- `query.dfy`: the per-record filter loop and the cursor scan `Selected`.
- `upgrade.dfy`: the `onupgradeneeded` transformation as a function over the
  stores, with its properties: additive, idempotent, creates what the registry
  declares.
- `facade.dfy`: helper-name generation and the table of generated helpers.
- `db.dfy`: the `DB` object as a class `NotesDb`. Its fields are the persisted
  version, the stores, the open handle and the attached helpers. Its methods
  change them in place, and each is proved against the functions above.

Asynchrony is removed. Each call runs to completion, and what the source hands
its success callback is the method's `Ok` result. A failure is an `Err`
result: a thrown exception, an engine error event, or a callback that is never
called. The `Error` values name the cause:

- `NotOpen`: the `db` handle is still `null`.
- `UnknownTable`: no such store, or no registry entry in `unserialize`.
- `InvalidKey` / `DuplicateKey`: the engine's data and constraint errors.
- `VersionError`: the stored version is newer than 3.
- `NotAFunction`: a missing helper or a missing `getId`.

Two behaviours of the code are easy to misread:

- The persist marker `data_` is recognised anywhere in an attribute name
  (`indexOf`), not only as a prefix, and only its first occurrence is removed
  (`replace`). `MarkerInsideName` shows `metadata_x` being stored as `metax`.
- The upgrade only ever adds stores and indexes. A store left over from an
  older version keeps any extra index it has, so a store has *at least* the
  declared indexes (`UpgradedSatisfies`), not exactly them. The upgrade adds no
  index the registry does not list (`UpgradedIndexesBounded`), so a store it
  creates has exactly the declared indexes (`UpgradedCreatedIndexesExact`), all
  non-unique (`UpgradedCreatesAsDeclared`).

## Model

| member | source | states |
|---|---|---|
| Values.KeyLessIrreflexive | external-apps/notes/cache/js/db.js:91 | no key sorts before itself, so cursor order is strict |
| Values.KeyLessTransitive | external-apps/notes/cache/js/db.js:91 | the cursor's key order is transitive |
| Values.KeyLessTotal | external-apps/notes/cache/js/db.js:91 | any two different valid keys are ordered one way or the other |
| Strings.IndexOf | external-apps/notes/cache/js/db.js:140 | the result is -1 exactly when the marker occurs nowhere; otherwise it is an occurrence with none before it |
| Strings.ReplaceFirst | external-apps/notes/cache/js/db.js:141 | `replace` with a string pattern; characterised by `ReplaceFirstSplit` (first occurrence only, text around it kept) and `ReplaceFirstAbsent` |
| Strings.ReplaceFirstSplit | external-apps/notes/cache/js/db.js:141 | `replace` substitutes the first occurrence only and keeps the text on both sides |
| Strings.ReplaceFirstAbsent | external-apps/notes/cache/js/db.js:141 | a name without the marker is left as it is |
| Schema.Descriptor | external-apps/notes/cache/js/db.js:149 | `schema[table].objectName` is undefined exactly for names not in the registry; a result is a registry entry |
| Schema.DescriptorOfEntry | external-apps/notes/cache/js/db.js:149 | with distinct keys, looking up an entry's name returns that entry's descriptor |
| Schema.NotesSchemaShape | external-apps/notes/cache/js/db.js:11-27 | the registry has the four distinct tables `notes`, `noteResource`, `notebooks`, `users`; `users` declares no index; no table lists an index twice |
| Serialization.Serialized | external-apps/notes/cache/js/db.js:136-146 | the record `serialize` builds; characterised by `SerializedKeys`, `SerializedValue`, `SerializedIgnoresUnmarked` and `SerializedOnePerMarked` |
| Serialization.Serialize | external-apps/notes/cache/js/db.js:136-146 | the `for…in` loop builds exactly the record `Serialized` describes |
| Serialization.SerializedKeys | external-apps/notes/cache/js/db.js:139-142 | a key is in the record iff some attribute containing `data_` has that name with its first `data_` removed |
| Serialization.SerializedValue | external-apps/notes/cache/js/db.js:141 | the stored value is that of the last marked attribute mapping to the name, unchanged |
| Serialization.MarkedOnly | external-apps/notes/cache/js/db.js:140 | keeps exactly the attributes whose name contains `data_` |
| Serialization.SerializedIgnoresUnmarked | external-apps/notes/cache/js/db.js:139-143 | attributes without the marker never reach the record: dropping them changes nothing |
| Serialization.SerializedOnePerMarked | external-apps/notes/cache/js/db.js:136-146 | with distinct stored names, one key per marked attribute and each value kept |
| Serialization.StoredNameOfPrefixed | external-apps/notes/cache/js/db.js:140-141 | `data_<name>` is persisted as `<name>` |
| Serialization.MarkerInsideName | external-apps/notes/cache/js/db.js:140-141 | the marker in the middle of a name also persists it: `metadata_x` is stored as `metax` |
| Serialization.Unserialize | external-apps/notes/cache/js/db.js:148-151 | fails exactly for a table with no registry entry; otherwise builds with the entry's `objectName` constructor |
| Serialization.UnserializeNotesTables | external-apps/notes/cache/js/db.js:148-151 | each notes table is read back through its own constructor (`Note`, `NoteResource`, `Notebook`, `User`) |
| ObjectStore.Find | external-apps/notes/cache/js/db.js:126 | the record under a key is in the store with that key; none exactly when no record has it |
| ObjectStore.PutRow | external-apps/notes/cache/js/db.js:82 | a put stores the record under its key, replacing or inserting in order; every other key keeps its record |
| ObjectStore.DeleteRow | external-apps/notes/cache/js/db.js:64 | a delete removes the key's record only; order kept |
| ObjectStore.AddRecord | external-apps/notes/cache/js/db.js:126 | an invalid key or an existing key is refused and nothing changes; otherwise exactly one record is added |
| ObjectStore.PutRecord | external-apps/notes/cache/js/db.js:82 | fails only on an invalid key; otherwise an insert-or-replace under the key |
| ObjectStore.DeleteRecord | external-apps/notes/cache/js/db.js:63-64 | fails only on an invalid key; otherwise the key is gone and every other key unchanged |
| Query.Keeps | external-apps/notes/cache/js/db.js:99-104 | the filter test on a raw record; `MatchesFilters` is proved to compute it and `MissingPropertyMatchesOnlyUndefined` states its missing-property case |
| Query.Selected | external-apps/notes/cache/js/db.js:90-112 | the records the cursor pass keeps; characterised by `SelectedAppend` (order), `SelectedCount` and `SelectedMembers` (exactly the passing records, once each), `SelectedNoFilters` and `SelectedByKey` |
| Query.MatchesFilters | external-apps/notes/cache/js/db.js:99-104 | the loop answers true iff every filter property is strictly equal in the raw record; a false answer has a mismatching filter |
| Query.MissingPropertyMatchesOnlyUndefined | external-apps/notes/cache/js/db.js:100 | a record lacking a filtered property passes only an `undefined` filter value |
| Query.SelectedAppend | external-apps/notes/cache/js/db.js:90-112 | the kept records come in cursor order |
| Query.SelectedCount | external-apps/notes/cache/js/db.js:93-108 | each record is kept as often as it is stored if it passes, never otherwise: no duplicates, no omissions |
| Query.SelectedMembers | external-apps/notes/cache/js/db.js:96-106 | a record is kept iff it is stored and passes every filter |
| Query.SelectedNoFilters | external-apps/notes/cache/js/db.js:99 | an empty filter object keeps every record, in order |
| Query.SelectedWellFormed | external-apps/notes/cache/js/db.js:91-108 | kept records have ascending, distinct keys |
| Query.SelectedByKey | external-apps/notes/cache/js/db.js:99-106 | filtering on `id` yields the record with that key or nothing |
| Query.AddThenGetById | external-apps/notes/cache/js/db.js:117-126 | after a successful add, get by its `id` returns just that record |
| Query.UpdateThenGetById | external-apps/notes/cache/js/db.js:74-82 | after update, get by its `id` returns the new record only |
| Query.RemoveThenGetById | external-apps/notes/cache/js/db.js:62-64 | after remove, get by that key returns nothing |
| Upgrade.EnsureIndexes | external-apps/notes/cache/js/db.js:185-190 | the index loop adds exactly the missing listed indexes, non-unique, keeps existing ones and the records |
| Upgrade.LiveTestMatchesSnapshot | external-apps/notes/cache/js/db.js:185-187 | for an index list without repeats, testing the growing index set answers as testing the names read before the loop |
| Upgrade.EnsureTable | external-apps/notes/cache/js/db.js:176-190 | one iteration of the outer loop: reuse or create the store, then `EnsureIndexes`; characterised by `EnsureTableWithoutIndexes` and the `Upgraded` lemmas |
| Upgrade.EnsureTableWithoutIndexes | external-apps/notes/cache/js/db.js:177-183 | a table whose descriptor has no `indexes` (`|| []`) gets no index: its store is reused as it is or created empty |
| Upgrade.Upgraded | external-apps/notes/cache/js/db.js:175-191 | the stores after the whole loop; characterised by `UpgradedExtends`, `UpgradedTables`, `UpgradedCreatesAsDeclared`, `UpgradedIndexesBounded`, `UpgradedSatisfies`, `UpgradedNoop` and `UpgradeIdempotent` |
| Upgrade.SatisfiesHasTables | external-apps/notes/cache/js/db.js:175-183 | once the registry is satisfied every registered table has a store |
| Upgrade.UpgradedExtends | external-apps/notes/cache/js/db.js:175-191 | the upgrade never drops a store, an index or a record |
| Upgrade.UpgradedTables | external-apps/notes/cache/js/db.js:175-183 | afterwards the stores are the old ones plus every registered table |
| Upgrade.UpgradedCreatesAsDeclared | external-apps/notes/cache/js/db.js:179-189 | a created store has key path `id` and no record; every index the upgrade creates is non-unique and named after itself |
| Upgrade.Declared | external-apps/notes/cache/js/db.js:175-176 | a name is in the set exactly when some registry entry for the table lists it as an index |
| Upgrade.UpgradedIndexesBounded | external-apps/notes/cache/js/db.js:185-189 | afterwards a store holds only the indexes it had before (none if created) and the ones the registry lists for it |
| Upgrade.UpgradedCreatedIndexesExact | external-apps/notes/cache/js/db.js:179-189 | a registered table the device lacks is created with exactly the indexes the registry lists for it |
| Upgrade.UsersCreatedWithoutIndexes | external-apps/notes/cache/js/db.js:176 | whatever else the device holds, a missing `users` store is created without any index |
| Upgrade.UpgradedSatisfies | external-apps/notes/cache/js/db.js:175-190 | afterwards every registered table exists with every listed index |
| Upgrade.UpgradedNoop | external-apps/notes/cache/js/db.js:179-189 | stores that already satisfy the registry are left exactly as they are |
| Upgrade.UpgradeIdempotent | external-apps/notes/cache/js/db.js:175-191 | upgrading twice equals upgrading once |
| Upgrade.UpgradedStoresOk | external-apps/notes/cache/js/db.js:182 | every store keeps key path `id` and ordered records |
| Upgrade.NotesIndexesFromScratch | external-apps/notes/cache/js/db.js:185-190 | the index sets created for each notes table |
| Upgrade.NotesLayoutFromScratch | external-apps/notes/cache/js/db.js:170-191 | from no stores, the upgrade yields exactly the four notes stores with their declared indexes, `users` with none |
| Facade.HelperName | external-apps/notes/cache/js/db.js:37-40 | the concatenated helper names; characterised by `HelperNameInjective` |
| Facade.EntryHelpers | external-apps/notes/cache/js/db.js:36-41 | the four helpers of one entry; characterised by `EntryHelpersAt` |
| Facade.HelperTable | external-apps/notes/cache/js/db.js:33-42 | all generated helpers; characterised by `HelperTableNames`, `HelperTableResolves`, `HelperTableTables` and `NotesHelpers` |
| Facade.HelperTableTables | external-apps/notes/cache/js/db.js:33-41 | every generated helper is bound to a table of the registry |
| Facade.HelperNameInjective | external-apps/notes/cache/js/db.js:37-40 | different operations or object names never give the same helper name |
| Facade.EntryHelpersAt | external-apps/notes/cache/js/db.js:36-41 | each of an entry's four names is bound to its operation on the entry's table |
| Facade.HelperTableNames | external-apps/notes/cache/js/db.js:33-42 | a name is generated iff it is one of the four names of some entry |
| Facade.HelperTableResolves | external-apps/notes/cache/js/db.js:33-42 | with distinct object names, every generated helper forwards its own operation to its own table |
| Facade.NotesHelpers | external-apps/notes/cache/js/db.js:32-42 | `getNotes`, `addNote`, `updateNoteResource`, `getNotebooks`, `removeNotebook`, `getUsers` resolve as the application calls them |
| Db.WriteKeepsLayout | external-apps/notes/cache/js/db.js:82 | a write that changes only records keeps the stores satisfying the registry |
| Db.NotebookSerialized | external-apps/notes/cache/js/db.js:136-146 | a notebook with `data_id`, `data_user_id`, `data_name` and a transient `title` is stored as `id`, `user_id`, `name` |
| Db.AddGetRemoveOnEmpty | external-apps/notes/cache/js/db.js:62-126 | on an empty store: add succeeds, get by a held property finds the record, remove by key succeeds, and get then finds nothing |
| Db.NotesDb.constructor | external-apps/notes/cache/js/db.js:7 | the page starts with the device's database and a `null` handle, no helpers |
| Db.NotesDb.EnsureTableStore | external-apps/notes/cache/js/db.js:176-190 | reuses or creates the table's store, then the index loop; the result is `EnsureIndexes` on it |
| Db.NotesDb.Upgrade | external-apps/notes/cache/js/db.js:170-197 | the stores become exactly `Upgraded(old stores, registry)` |
| Db.NotesDb.Open | external-apps/notes/cache/js/db.js:166-214 | fails with a version error iff the stored version exceeds 3; otherwise upgrades when older, sets the handle, version 3, registry satisfied |
| Db.NotesDb.AttachEntry | external-apps/notes/cache/js/db.js:36-41 | attaches the entry's four helpers |
| Db.NotesDb.AttachHelpers | external-apps/notes/cache/js/db.js:33-42 | the helpers become the old ones plus exactly `HelperTable(registry)` |
| Db.NotesDb.Init | external-apps/notes/cache/js/db.js:29-43 | open as above, and the helpers attached whatever the open's outcome |
| Db.NotesDb.Get | external-apps/notes/cache/js/db.js:89-115 | not open or no store fails; otherwise it succeeds iff the table is registered or nothing is kept, and returns exactly the kept records in cursor order, each read back through `unserialize` |
| Db.NotesDb.UpdateMultiple | external-apps/notes/cache/js/db.js:49-60 | no write (no frame): stores unchanged; returns `set(data)` applied to each object `get` returns, in order |
| Db.NotesDb.Add | external-apps/notes/cache/js/db.js:117-133 | the table's store becomes the engine's add of the serialized record, or stays on failure; success hands back the original object |
| Db.NotesDb.Update | external-apps/notes/cache/js/db.js:74-87 | the table's store becomes the put of the serialized record; success hands back the original object |
| Db.NotesDb.Remove | external-apps/notes/cache/js/db.js:62-72 | the table's store becomes the delete of the key; every other store unchanged |
| Db.NotesDb.Invoke | external-apps/notes/cache/js/db.js:37-40 | a missing helper is a TypeError; while open, a helper's table always has a store; a helper forwards to its operation on its table with that operation's result and new stores; `remove<Obj>` forwards `getId()` and fails without it |

## Left out

- Vendor-prefix detection of `indexedDB` and `IDBTransaction`
  (db.js:4-5): environment probing with no logic.
- `destroy` (db.js:155-164) and `onerror` (db.js:216-218): they only log and
  report nothing to a caller.
- All `Console.log` / `console.log` calls: logging only.
- Asynchrony, transactions and callback timing. `add` and `update` call back
  on transaction completion and `remove` on request success; here each
  operation completes before it returns. Interleaving of concurrent calls is
  not modelled.
- Error-callback routing: the `e` parameters are never used, and
  `onfailure` is not an engine event. An error is an `Err` result. In the
  source, a refused request (a duplicate key on add) aborts the transaction,
  so the success callback never fires. A key the engine rejects outright
  instead throws to the caller of `add`, `update` or `remove`.
- Db.NotesDb.Add, Db.NotesDb.Update: a missing or invalid `id` throws
  `DataError` out of `store.add`/`put` (db.js:126, db.js:82). The transaction,
  whose completion handler is already set (db.js:120, db.js:77), then commits
  with no request and still calls back with `obj`. The model returns
  `Err(InvalidKey)` and drops that later success callback.
- Upgrade.EnsureIndexes, Db.NotesDb.EnsureTableStore: they test the index set
  as it grows, while the source tests the names read before the loop
  (db.js:185-187). The two agree when a table lists no index twice
  (`LiveTestMatchesSnapshot`), which holds for the notes registry
  (`NotesSchemaShape`). With a repeated name, the source's second
  `createIndex` fails with `ConstraintError` and aborts the upgrade; the model
  does not capture that.
- ObjectStore.AddRecord, ObjectStore.PutRecord: they ignore `IndexSpec.unique`.
  A store reused from an older version could carry a unique index, and the
  engine would then refuse a write that duplicates the indexed value. The
  notes database only ever creates non-unique indexes
  (`UpgradedCreatesAsDeclared`).
- Values.Lookup, Query.Keeps: a property the record lacks reads as
  `undefined`. In the source, `obj[k]` (db.js:100) also reads inherited
  properties such as `constructor` or `toString`, so a filter on such a name
  is not modelled. The same holds for `Schema.Descriptor`: `schema[table]` on
  an inherited name such as `constructor` yields a function, not `undefined`;
  its `objectName` is still `undefined`, which is what the model captures.
- Strings.ReplaceFirst: inserts the replacement literally, without expanding
  `$` patterns. This is exact for the empty replacement the code uses
  (db.js:141).
- Values.StrLess: compares characters, while IndexedDB compares UTF-16 code
  units. The two orders differ only for strings holding characters above
  U+FFFF.
- Db.NotesDb.constructor: requires every store on the device to have key
  path `id` and its records in ascending valid keys, and a version-3 database
  to already hold the registry's layout. The source reuses whatever store it
  finds (db.js:179-180). The model's key is always the `id` property and it
  never reads a store's `keyPath`, so a store left with another key path is
  not modelled.
- The `blocked` event of `open` (db.js:211-213): another connection holding
  the database is not modelled.
- The handle accessor `this.get` (db.js:46): it is overwritten at db.js:89
  and unreachable.
- Db.NotesDb.Init: runs the open before attaching the helpers. The source
  starts the asynchronous open and attaches the helpers at once; the final
  state is the same.
- Floating-point numbers, `NaN`, objects, arrays and dates as values or
  keys: numbers are integers, and keys are integers and strings. `===` on
  them is equality.
- The domain constructors, `set` and `getId`: foreign code, passed in as
  functions (`construct`, `setter`) or as the object's optional `getId`
  value.
- `for…in` over inherited enumerable properties: an object is the sequence
  of the properties its `for…in` visits.
- Db.NotesDb.UpdateMultiple: the source calls `set` on the fetched objects
  and drops them. The model returns them, so the in-memory effect can be
  stated.
