/** The upgrade step run when the stored database is older than the version
    asked for: every registered table is made to exist with key path `id`, and
    every index its descriptor lists is made to exist, creating only what is missing. */
module Upgrade {
  import opened Values
  import opened Schema
  import opened ObjectStore

  /** The inner loop for one store: each listed index it lacks is created,
      non-unique, over the property of the same name. */
  function EnsureIndexes(st: Store, names: seq<string>): (r: Store)
    ensures r.keyPath == st.keyPath && r.rows == st.rows
    ensures r.indexes.Keys == st.indexes.Keys + (set n | n in names)
    ensures forall n :: n in st.indexes ==> r.indexes[n] == st.indexes[n]
    ensures forall n :: n in r.indexes && n !in st.indexes ==> r.indexes[n] == IndexSpec(n, false)
    decreases |names|
  {
    if names == [] then st
    else
      var init := names[..|names| - 1];
      var prev := EnsureIndexes(st, init);
      var n := names[|names| - 1];
      assert (set x | x in names) == (set x | x in init) + {n} by {
        assert names == init + [n];
      }
      if n in prev.indexes then prev else prev.(indexes := prev.indexes[n := IndexSpec(n, false)])
  }

  /** `createObjectStore(table, {keyPath: "id"})`: a store with no index and no record. */
  const NewStore: Store := Store(KEY_PATH, map[], [])

  /** One iteration of the outer loop: reuse the store if it exists, create it
      otherwise, then ensure its indexes. */
  function EnsureTable(stores: map<string, Store>, table: string, d: TableDescriptor): map<string, Store>
  {
    var base := if table in stores then stores[table] else NewStore;
    stores[table := EnsureIndexes(base, IndexesOf(d))]
  }

  /** A table whose descriptor lists no indexes gets none: its store is reused
      as it is, or created empty. */
  lemma EnsureTableWithoutIndexes(stores: map<string, Store>, table: string, d: TableDescriptor)
    requires d.indexes.None?
    ensures EnsureTable(stores, table, d) == stores[table := if table in stores then stores[table] else NewStore]
  {
  }

  /** The loop tests the index set as it grows, where the source tests the
      names read before the loop; for a list without repeats the two tests agree. */
  lemma LiveTestMatchesSnapshot(st: Store, names: seq<string>, j: int)
    requires 0 <= j < |names|
    requires forall a, b :: 0 <= a < b < |names| ==> names[a] != names[b]
    ensures names[j] in EnsureIndexes(st, names[..j]).indexes <==> names[j] in st.indexes
  {
    assert names[j] !in names[..j];
  }

  /** The stores after the upgrade loop has handled the registry's tables in order. */
  function Upgraded(stores: map<string, Store>, schema: SchemaTable): map<string, Store>
    decreases |schema|
  {
    if schema == [] then stores
    else
      var (table, d) := schema[|schema| - 1];
      EnsureTable(Upgraded(stores, schema[..|schema| - 1]), table, d)
  }

  /** Every registered table exists, holding every index its descriptor lists. */
  predicate Satisfies(stores: map<string, Store>, schema: SchemaTable)
  {
    forall i :: 0 <= i < |schema| ==>
      schema[i].0 in stores && forall n :: n in IndexesOf(schema[i].1) ==> n in stores[schema[i].0].indexes
  }

  /** Stores satisfying a registry hold a store for each of its tables. */
  lemma SatisfiesHasTables(stores: map<string, Store>, schema: SchemaTable)
    requires Satisfies(stores, schema)
    ensures TableNames(schema) <= stores.Keys
  {
    forall t | t in TableNames(schema) ensures t in stores {
      var i :| 0 <= i < |schema| && schema[i].0 == t;
    }
  }

  /** `after` keeps everything of `before`: every table with its key path and
      records, and every index with its definition. Nothing is dropped or recreated. */
  predicate Extends(before: map<string, Store>, after: map<string, Store>)
  {
    forall t :: t in before ==>
      && t in after
      && after[t].keyPath == before[t].keyPath
      && after[t].rows == before[t].rows
      && forall n :: n in before[t].indexes ==> n in after[t].indexes && after[t].indexes[n] == before[t].indexes[n]
  }

  /** What the upgrade creates is fresh: a created store has key path `id` and no
      record, and a created index is non-unique over the property it is named after. */
  predicate CreatedAsDeclared(before: map<string, Store>, after: map<string, Store>)
  {
    && (forall t :: t in after && t !in before ==> after[t].keyPath == KEY_PATH && after[t].rows == [])
    && (forall t, n :: t in after && n in after[t].indexes && (t !in before || n !in before[t].indexes) ==>
          after[t].indexes[n] == IndexSpec(n, false))
  }

  lemma ExtendsTransitive(a: map<string, Store>, b: map<string, Store>, c: map<string, Store>)
    requires Extends(a, b) && Extends(b, c)
    ensures Extends(a, c)
  {
  }

  /** The upgrade never drops or changes a table, a record or an index; it only adds. */
  lemma {:induction false} UpgradedExtends(stores: map<string, Store>, schema: SchemaTable)
    ensures Extends(stores, Upgraded(stores, schema))
    decreases |schema|
  {
    if schema != [] {
      var init := schema[..|schema| - 1];
      UpgradedExtends(stores, init);
      var mid := Upgraded(stores, init);
      var (table, d) := schema[|schema| - 1];
      assert Extends(mid, EnsureTable(mid, table, d));
      ExtendsTransitive(stores, mid, EnsureTable(mid, table, d));
    }
  }

  lemma TableNamesSnoc(schema: SchemaTable)
    requires schema != []
    ensures TableNames(schema) == TableNames(schema[..|schema| - 1]) + {schema[|schema| - 1].0}
  {
    var init := schema[..|schema| - 1];
    forall x | x in TableNames(schema) ensures x in TableNames(init) + {schema[|schema| - 1].0} {
      var i :| 0 <= i < |schema| && schema[i].0 == x;
      if i < |init| { assert init[i] == schema[i]; }
    }
    forall x | x in TableNames(init) ensures x in TableNames(schema) {
      var i :| 0 <= i < |init| && init[i].0 == x;
      assert schema[i] == init[i];
    }
  }

  /** The upgrade creates exactly the registered tables that were missing. */
  lemma {:induction false} UpgradedTables(stores: map<string, Store>, schema: SchemaTable)
    ensures Upgraded(stores, schema).Keys == stores.Keys + TableNames(schema)
    decreases |schema|
  {
    if schema != [] {
      UpgradedTables(stores, schema[..|schema| - 1]);
      TableNamesSnoc(schema);
    }
  }

  lemma EnsureTableCreatesAsDeclared(stores: map<string, Store>, mid: map<string, Store>, table: string, d: TableDescriptor)
    requires CreatedAsDeclared(stores, mid)
    ensures CreatedAsDeclared(stores, EnsureTable(mid, table, d))
  {
    var after := EnsureTable(mid, table, d);
    forall t, n | t in after && n in after[t].indexes && (t !in stores || n !in stores[t].indexes)
      ensures after[t].indexes[n] == IndexSpec(n, false)
    {
      if t == table && table in mid && n in mid[table].indexes {
        assert mid[t].indexes[n] == IndexSpec(n, false);
      }
    }
  }

  /** Everything the upgrade creates is as declared. */
  lemma {:induction false} UpgradedCreatesAsDeclared(stores: map<string, Store>, schema: SchemaTable)
    ensures CreatedAsDeclared(stores, Upgraded(stores, schema))
    decreases |schema|
  {
    if schema != [] {
      var init := schema[..|schema| - 1];
      UpgradedCreatesAsDeclared(stores, init);
      var (table, d) := schema[|schema| - 1];
      EnsureTableCreatesAsDeclared(stores, Upgraded(stores, init), table, d);
    }
  }

  /** The index names the registry lists for table `t`, over all its entries. */
  function Declared(schema: SchemaTable, t: string): (r: set<string>)
    ensures forall n :: n in r <==> exists i :: 0 <= i < |schema| && schema[i].0 == t && n in IndexesOf(schema[i].1)
    decreases |schema|
  {
    if schema == [] then {}
    else
      var init := schema[..|schema| - 1];
      var last := schema[|schema| - 1];
      var r := Declared(init, t) + (if last.0 == t then set n | n in IndexesOf(last.1) else {});
      assert forall i :: 0 <= i < |init| ==> init[i] == schema[i];
      r
  }

  /** The upgrade creates no index beyond those the registry lists: a store
      afterwards holds its old indexes (none if it was created) and listed ones only. */
  lemma {:induction false} UpgradedIndexesBounded(stores: map<string, Store>, schema: SchemaTable)
    ensures forall t :: t in Upgraded(stores, schema) ==>
              Upgraded(stores, schema)[t].indexes.Keys <= (if t in stores then stores[t].indexes.Keys else {}) + Declared(schema, t)
    decreases |schema|
  {
    if schema != [] {
      var init := schema[..|schema| - 1];
      var (table, d) := schema[|schema| - 1];
      UpgradedIndexesBounded(stores, init);
      UpgradedExtends(stores, init);
      var mid := Upgraded(stores, init);
      var after := Upgraded(stores, schema);
      assert after == EnsureTable(mid, table, d);
      forall t | t in after
        ensures after[t].indexes.Keys <= (if t in stores then stores[t].indexes.Keys else {}) + Declared(schema, t)
      {
        assert Declared(init, t) <= Declared(schema, t);
        if t == table {
          assert (set n | n in IndexesOf(d)) <= Declared(schema, t);
        }
      }
    }
  }

  /** A table the device lacks is created with exactly the indexes the registry lists for it. */
  lemma UpgradedCreatedIndexesExact(stores: map<string, Store>, schema: SchemaTable, t: string)
    requires t !in stores && t in TableNames(schema)
    ensures t in Upgraded(stores, schema)
    ensures Upgraded(stores, schema)[t].indexes.Keys == Declared(schema, t)
  {
    UpgradedTables(stores, schema);
    UpgradedIndexesBounded(stores, schema);
    UpgradedSatisfies(stores, schema);
  }

  /** Whatever else the device holds, a missing `users` store is created without any index. */
  lemma UsersCreatedWithoutIndexes(stores: map<string, Store>)
    requires "users" !in stores
    ensures "users" in Upgraded(stores, NotesSchema)
    ensures Upgraded(stores, NotesSchema)["users"].indexes == map[]
  {
    NotesSchemaShape();
    assert NotesSchema[3].0 == "users";
    UpgradedCreatedIndexesExact(stores, NotesSchema, "users");
    forall i | 0 <= i < |NotesSchema| && NotesSchema[i].0 == "users"
      ensures IndexesOf(NotesSchema[i].1) == []
    {
      assert i == 3;
    }
    assert Declared(NotesSchema, "users") == {};
  }

  lemma SatisfiesGrows(a: map<string, Store>, b: map<string, Store>, schema: SchemaTable)
    requires Satisfies(a, schema) && Extends(a, b)
    ensures Satisfies(b, schema)
  {
    forall i, n | 0 <= i < |schema| && n in IndexesOf(schema[i].1)
      ensures n in b[schema[i].0].indexes
    {
      assert n in a[schema[i].0].indexes;
    }
  }

  /** After the upgrade every registered table exists with all of its indexes. */
  lemma {:induction false} UpgradedSatisfies(stores: map<string, Store>, schema: SchemaTable)
    ensures Satisfies(Upgraded(stores, schema), schema)
    decreases |schema|
  {
    if schema != [] {
      var init := schema[..|schema| - 1];
      UpgradedSatisfies(stores, init);
      var mid := Upgraded(stores, init);
      var (table, d) := schema[|schema| - 1];
      var after := EnsureTable(mid, table, d);
      assert Extends(mid, after);
      SatisfiesGrows(mid, after, init);
      forall i | 0 <= i < |schema|
        ensures schema[i].0 in after && forall n :: n in IndexesOf(schema[i].1) ==> n in after[schema[i].0].indexes
      {
        if i < |init| {
          assert schema[i] == init[i];
        }
      }
    }
  }

  /** A store that already holds every listed index is left as it is. */
  lemma EnsureIndexesPresent(st: Store, names: seq<string>)
    requires forall n :: n in names ==> n in st.indexes
    ensures EnsureIndexes(st, names) == st
  {
    var r := EnsureIndexes(st, names);
    assert r.indexes == st.indexes;
  }

  /** On stores that already satisfy the registry, the upgrade changes nothing. */
  lemma {:induction false} UpgradedNoop(stores: map<string, Store>, schema: SchemaTable)
    requires Satisfies(stores, schema)
    ensures Upgraded(stores, schema) == stores
    decreases |schema|
  {
    if schema != [] {
      var init := schema[..|schema| - 1];
      assert Satisfies(stores, init) by {
        forall i | 0 <= i < |init| ensures init[i] == schema[i] { }
      }
      UpgradedNoop(stores, init);
      var (table, d) := schema[|schema| - 1];
      EnsureIndexesPresent(stores[table], IndexesOf(d));
      assert stores[table := stores[table]] == stores;
    }
  }

  /** Running the upgrade twice gives the same stores as running it once. */
  lemma UpgradeIdempotent(stores: map<string, Store>, schema: SchemaTable)
    ensures Upgraded(Upgraded(stores, schema), schema) == Upgraded(stores, schema)
  {
    UpgradedSatisfies(stores, schema);
    UpgradedNoop(Upgraded(stores, schema), schema);
  }

  /** Every store the upgrade leaves behind is well formed if every store before it was. */
  lemma UpgradedStoresOk(stores: map<string, Store>, schema: SchemaTable)
    requires forall t :: t in stores ==> StoreOk(stores[t])
    ensures forall t :: t in Upgraded(stores, schema) ==> StoreOk(Upgraded(stores, schema)[t])
  {
    UpgradedExtends(stores, schema);
    UpgradedCreatesAsDeclared(stores, schema);
  }

  lemma UpgradedSnoc(stores: map<string, Store>, schema: SchemaTable, e: (string, TableDescriptor))
    ensures Upgraded(stores, schema + [e]) == EnsureTable(Upgraded(stores, schema), e.0, e.1)
  {
    assert (schema + [e])[..|schema|] == schema;
  }

  lemma EnsureIndexesSnoc(st: Store, names: seq<string>, n: string)
    ensures EnsureIndexes(st, names + [n]) ==
      var prev := EnsureIndexes(st, names);
      if n in prev.indexes then prev else prev.(indexes := prev.indexes[n := IndexSpec(n, false)])
  {
    assert (names + [n])[..|names|] == names;
  }

  const NotesStore: Store := Store(KEY_PATH, map["notebook_id" := IndexSpec("notebook_id", false), "name" := IndexSpec("name", false)], [])
  const NoteResourceStore: Store := Store(KEY_PATH, map["note_id" := IndexSpec("note_id", false)], [])
  const NotebooksStore: Store := Store(KEY_PATH, map["user_id" := IndexSpec("user_id", false)], [])

  lemma NotesIndexesFromScratch()
    ensures EnsureIndexes(NewStore, ["notebook_id", "name"]) == NotesStore
    ensures EnsureIndexes(NewStore, ["note_id"]) == NoteResourceStore
    ensures EnsureIndexes(NewStore, ["user_id"]) == NotebooksStore
    ensures EnsureIndexes(NewStore, []) == NewStore
  {
    assert EnsureIndexes(NewStore, []) == NewStore;
    EnsureIndexesSnoc(NewStore, [], "notebook_id");
    EnsureIndexesSnoc(NewStore, ["notebook_id"], "name");
    assert [] + ["notebook_id"] == ["notebook_id"] && ["notebook_id"] + ["name"] == ["notebook_id", "name"];
    EnsureIndexesSnoc(NewStore, [], "note_id");
    assert [] + ["note_id"] == ["note_id"];
    EnsureIndexesSnoc(NewStore, [], "user_id");
    assert [] + ["user_id"] == ["user_id"];
  }

  lemma NotesLayoutStep1()
    ensures Upgraded(map[], NotesSchema[..1]) == map["notes" := NotesStore]
  {
    var s := NotesSchema;
    NotesIndexesFromScratch();
    assert Upgraded(map[], []) == map[];
    UpgradedSnoc(map[], [], s[0]);
    assert [] + [s[0]] == s[..1];
    assert IndexesOf(s[0].1) == ["notebook_id", "name"];
  }

  lemma NotesLayoutStep2()
    ensures Upgraded(map[], NotesSchema[..2]) == map["notes" := NotesStore, "noteResource" := NoteResourceStore]
  {
    var s := NotesSchema;
    NotesLayoutStep1();
    NotesIndexesFromScratch();
    UpgradedSnoc(map[], s[..1], s[1]);
    assert s[..1] + [s[1]] == s[..2];
    assert IndexesOf(s[1].1) == ["note_id"];
  }

  lemma NotesLayoutStep3()
    ensures Upgraded(map[], NotesSchema[..3]) ==
      map["notes" := NotesStore, "noteResource" := NoteResourceStore, "notebooks" := NotebooksStore]
  {
    var s := NotesSchema;
    NotesLayoutStep2();
    NotesIndexesFromScratch();
    UpgradedSnoc(map[], s[..2], s[2]);
    assert s[..2] + [s[2]] == s[..3];
    assert IndexesOf(s[2].1) == ["user_id"];
  }

  /** On a device with no notes database, the upgrade lays out exactly the
      application's four stores, empty, each with its declared indexes and
      `users` with none. */
  lemma NotesLayoutFromScratch()
    ensures Upgraded(map[], NotesSchema) ==
      map["notes" := NotesStore, "noteResource" := NoteResourceStore, "notebooks" := NotebooksStore, "users" := NewStore]
  {
    var s := NotesSchema;
    NotesLayoutStep3();
    NotesIndexesFromScratch();
    UpgradedSnoc(map[], s[..3], s[3]);
    assert s[..3] + [s[3]] == s;
    assert IndexesOf(s[3].1) == [];
  }
}
