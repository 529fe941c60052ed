/** The `DB` object of the notes application: opening and upgrading the
    database, the generic operations on a named table, and the helpers `init`
    generates. Each call runs to completion here; what the source hands its
    success callback is the method's `Ok` result, and an error event or a
    thrown exception is its `Err` result. */
module Db {
  import opened Values
  import opened Schema
  import opened Serialization
  import opened ObjectStore
  import opened Query
  import opened Upgrade
  import opened Facade

  /** What a generated helper hands its success callback. */
  datatype Reply = Objects(items: seq<JsObject>) | Object(obj: JsObject) | Done

  /** The stores after a write request: the new store when the engine accepted
      it, the old stores otherwise (an aborted transaction writes nothing). */
  function AfterWrite(stores: map<string, Store>, table: string, w: Result<Store>): map<string, Store>
  {
    if w.Ok? then stores[table := w.value] else stores
  }

  /** Replacing a store by one with the same indexes (and, as required, key
      path `id` and ordered records) keeps the registry satisfied. */
  lemma WriteKeepsLayout(stores: map<string, Store>, table: string, st: Store, schema: SchemaTable)
    requires table in stores && StoreOk(st) && st.indexes == stores[table].indexes
    requires Satisfies(stores, schema)
    ensures Satisfies(stores[table := st], schema)
  {
    var after := stores[table := st];
    forall i, n | 0 <= i < |schema| && n in IndexesOf(schema[i].1)
      ensures n in after[schema[i].0].indexes
    {
      assert n in stores[schema[i].0].indexes;
    }
  }

  /** A notebook whose persisted attributes are `data_id`, `data_user_id` and
      `data_name`, plus a transient `title`, is stored as `id`, `user_id` and
      `name` only. */
  lemma NotebookSerialized(title: Value)
    ensures Serialized([("data_id", Num(1)), ("data_user_id", Num(42)), ("data_name", Str("Trip")), ("title", title)])
            == map["id" := Num(1), "user_id" := Num(42), "name" := Str("Trip")]
  {
    var p0 := ("data_id", Num(1));
    var p1 := ("data_user_id", Num(42));
    var p2 := ("data_name", Str("Trip"));
    var p3 := ("title", title);
    assert p0.0 == MARKER + "id" && p1.0 == MARKER + "user_id" && p2.0 == MARKER + "name";
    StoredNameOfPrefixed("id");
    StoredNameOfPrefixed("user_id");
    StoredNameOfPrefixed("name");
    assert !Marked(p3.0) by {
      assert "title"[0..5][0] != MARKER[0];
    }
    SerializedSnoc([], p0);
    assert [] + [p0] == [p0];
    assert Serialized([p0]) == map["id" := Num(1)];
    SerializedSnoc([p0], p1);
    assert [p0] + [p1] == [p0, p1];
    assert Serialized([p0, p1]) == map["id" := Num(1), "user_id" := Num(42)];
    SerializedSnoc([p0, p1], p2);
    assert [p0, p1] + [p2] == [p0, p1, p2];
    assert Serialized([p0, p1, p2]) == map["id" := Num(1), "user_id" := Num(42), "name" := Str("Trip")];
    SerializedSnoc([p0, p1, p2], p3);
    assert [p0, p1, p2] + [p3] == [p0, p1, p2, p3];
  }

  /** Added to an empty store, a record is found by any property it holds;
      after removing it by its key nothing is found. */
  lemma AddGetRemoveOnEmpty(st: Store, rec: Record, k: string)
    requires StoreOk(st) && st.rows == [] && IsKey(Id(rec)) && k in rec
    ensures AddRecord(st, rec).Ok?
    ensures Selected(AddRecord(st, rec).value.rows, [(k, rec[k])]) == [rec]
    ensures DeleteRecord(AddRecord(st, rec).value, Id(rec)).Ok?
    ensures Selected(DeleteRecord(AddRecord(st, rec).value, Id(rec)).value.rows, [(k, rec[k])]) == []
  {
    var added := AddRecord(st, rec).value;
    assert added.rows == [rec] by {
      assert |added.rows| == 1;
      assert Find(added.rows, Id(rec)) == Some(rec);
    }
    var f := [(k, rec[k])];
    assert Keeps(rec, f) by { assert f[0] == (k, rec[k]); }
    assert added.rows[1..] == [];
  }

  lemma MapUnionAssoc<K, V>(a: map<K, V>, b: map<K, V>, c: map<K, V>)
    ensures (a + b) + c == a + (b + c)
  {
  }

  class NotesDb {
    /** The database persisted on the device: its version and its object stores. */
    var version: nat
    var stores: map<string, Store>
    /** Whether the module-level `db` handle has been set by a successful open. */
    var isOpen: bool
    /** The helpers `init` has attached, by name. */
    var helpers: map<string, Helper>

    /** Every store is keyed by `id` with its records in key order; a database
        at the current version holds every registered table and index; the
        handle is only ever open on the current version; every attached helper
        forwards to a registered table. */
    ghost predicate Valid()
      reads this
    {
      && (forall t :: t in stores ==> StoreOk(stores[t]))
      && (version == DB_VERSION ==> Satisfies(stores, NotesSchema))
      && (isOpen ==> version == DB_VERSION)
      && (forall n :: n in helpers ==> helpers[n].table in TableNames(NotesSchema))
    }

    /** The database as the page finds it on the device (version 0 and no store
        when there is none), before anything is opened. */
    constructor (version: nat, stores: map<string, Store>)
      requires forall t :: t in stores ==> StoreOk(stores[t])
      requires version == DB_VERSION ==> Satisfies(stores, NotesSchema)
      ensures Valid()
      ensures this.version == version && this.stores == stores
      ensures !isOpen && helpers == map[]
    {
      this.version := version;
      this.stores := stores;
      isOpen := false;
      helpers := map[];
    }

    /** One step of `onupgradeneeded`: reuse the table's store or create it,
        then create each listed index it lacks, non-unique. */
    method EnsureTableStore(table: string, indexes: seq<string>)
      modifies this`stores
      ensures stores == old(stores)[table := EnsureIndexes(if table in old(stores) then old(stores)[table] else NewStore, indexes)]
    {
      var st := if table in stores then stores[table] else NewStore;
      ghost var base := st;
      var j := 0;
      while j < |indexes|
        invariant 0 <= j <= |indexes|
        invariant st == EnsureIndexes(base, indexes[..j])
        invariant stores == old(stores)
      {
        EnsureIndexesSnoc(base, indexes[..j], indexes[j]);
        assert indexes[..j + 1] == indexes[..j] + [indexes[j]];
        if indexes[j] !in st.indexes {
          st := st.(indexes := st.indexes[indexes[j] := IndexSpec(indexes[j], false)]);
        }
        j := j + 1;
      }
      assert indexes[..j] == indexes;
      assert st == EnsureIndexes(base, indexes);
      stores := stores[table := st];
    }

    /** `onupgradeneeded`: every registered table gets its store and indexes. */
    method Upgrade()
      modifies this`stores
      ensures stores == Upgraded(old(stores), NotesSchema)
    {
      var schema := NotesSchema;
      var i := 0;
      while i < |schema|
        invariant 0 <= i <= |schema|
        invariant stores == Upgraded(old(stores), schema[..i])
      {
        var (table, desc) := schema[i];
        UpgradedSnoc(old(stores), schema[..i], schema[i]);
        assert schema[..i + 1] == schema[..i] + [schema[i]];
        EnsureTableStore(table, IndexesOf(desc));
        i := i + 1;
      }
      assert schema[..i] == schema;
    }

    /** `open`: opening at version 3 runs the upgrade when the stored version is
        older, fails when it is newer, and otherwise sets the handle. */
    method Open() returns (r: Result<()>)
      requires Valid()
      modifies this`version, this`stores, this`isOpen
      ensures Valid()
      ensures r.Ok? <==> old(version) <= DB_VERSION
      ensures r.Err? ==> r.error == VersionError && version == old(version) && isOpen == old(isOpen)
      ensures r.Ok? ==> isOpen && version == DB_VERSION && Satisfies(stores, NotesSchema)
      ensures stores == if old(version) < DB_VERSION then Upgraded(old(stores), NotesSchema) else old(stores)
    {
      if version > DB_VERSION {
        return Err(VersionError);
      }
      if version < DB_VERSION {
        Upgrade();
        UpgradedSatisfies(old(stores), NotesSchema);
        UpgradedStoresOk(old(stores), NotesSchema);
      }
      version := DB_VERSION;
      isOpen := true;
      r := Ok(());
    }

    /** The four helpers `init` attaches for one registry entry. */
    method AttachEntry(table: string, d: TableDescriptor)
      modifies this`helpers
      ensures helpers == old(helpers) + EntryHelpers(table, d)
    {
      var obj := d.objectName;
      helpers := helpers["get" + obj + "s" := Helper(GetOp, table)];
      helpers := helpers["add" + obj := Helper(AddOp, table)];
      helpers := helpers["update" + obj := Helper(UpdateOp, table)];
      helpers := helpers["remove" + obj := Helper(RemoveOp, table)];
    }

    /** The loop of `init` that attaches `get<Obj>s`, `add<Obj>`, `update<Obj>`
        and `remove<Obj>` for every registered table. */
    method AttachHelpers()
      modifies this`helpers
      ensures helpers == old(helpers) + HelperTable(NotesSchema)
    {
      var schema := NotesSchema;
      var i := 0;
      while i < |schema|
        invariant 0 <= i <= |schema|
        invariant helpers == old(helpers) + HelperTable(schema[..i])
      {
        ghost var prev := helpers;
        AttachEntry(schema[i].0, schema[i].1);
        assert helpers == old(helpers) + HelperTable(schema[..i + 1]) by {
          assert schema[..i + 1] == schema[..i] + [schema[i]];
          HelperTableSnoc(schema[..i], schema[i]);
          MapUnionAssoc(old(helpers), HelperTable(schema[..i]), EntryHelpers(schema[i].0, schema[i].1));
        }
        i := i + 1;
      }
      assert schema[..i] == schema;
    }

    /** `init`: open the database, then attach the generated helpers. */
    method Init() returns (r: Result<()>)
      requires Valid()
      modifies this
      ensures Valid()
      ensures r.Ok? <==> old(version) <= DB_VERSION
      ensures r.Err? ==> r.error == VersionError && version == old(version) && isOpen == old(isOpen)
      ensures r.Ok? ==> isOpen && version == DB_VERSION && Satisfies(stores, NotesSchema)
      ensures stores == if old(version) < DB_VERSION then Upgraded(old(stores), NotesSchema) else old(stores)
      ensures helpers == old(helpers) + HelperTable(NotesSchema)
    {
      r := Open();
      AttachHelpers();
      HelperTableTables(NotesSchema);
    }

    /** `get(table, filters)`: one cursor pass over the store, keeping the raw
        records every filter property strictly equals, each read back through
        the table's constructor, all handed over once at the end. A store with
        no registry entry fails only if some record is kept. */
    method Get(table: string, filters: JsObject, construct: (string, Record) -> JsObject)
      returns (r: Result<seq<JsObject>>)
      ensures !isOpen ==> r == Err(NotOpen)
      ensures isOpen && table !in stores ==> r == Err(UnknownTable)
      ensures isOpen && table in stores ==>
        var kept := Selected(stores[table].rows, filters.props);
        && (r.Ok? <==> table in TableNames(NotesSchema) || kept == [])
        && (r.Err? ==> r.error == UnknownTable)
        && (r.Ok? ==> && |r.value| == |kept|
                      && forall j :: 0 <= j < |kept| ==> Unserialize(NotesSchema, table, kept[j], construct) == Some(r.value[j]))
    {
      if !isOpen {
        return Err(NotOpen);
      }
      if table !in stores {
        return Err(UnknownTable);
      }
      var rows := stores[table].rows;
      var f := filters.props;
      var ret: seq<JsObject> := [];
      var i := 0;
      while i < |rows|
        invariant 0 <= i <= |rows|
        invariant |ret| == |Selected(rows[..i], f)|
        invariant forall j :: 0 <= j < |ret| ==> Unserialize(NotesSchema, table, Selected(rows[..i], f)[j], construct) == Some(ret[j])
        invariant table !in TableNames(NotesSchema) ==> ret == []
      {
        assert rows[..i + 1] == rows[..i] + [rows[i]];
        SelectedAppend(rows[..i], [rows[i]], f);
        assert [rows[i]][1..] == [];
        var ok := MatchesFilters(rows[i], f);
        if ok {
          var o := Unserialize(NotesSchema, table, rows[i], construct);
          if o.None? {
            assert rows == rows[..i + 1] + rows[i + 1..];
            SelectedAppend(rows[..i + 1], rows[i + 1..], f);
            return Err(UnknownTable);
          }
          ret := ret + [o.value];
        }
        i := i + 1;
      }
      assert rows[..i] == rows;
      r := Ok(ret);
    }

    /** `updateMultiple(table, filters, data)`: runs `get`, then calls its `set(data)` method, here `setter`,
        on every object it returned. It issues no write (no `modifies` clause),
        so the stores are the same afterwards; the result is the objects the loop
        changed in memory, which the source then drops. */
    method UpdateMultiple(table: string, filters: JsObject, data: JsObject,
                          construct: (string, Record) -> JsObject, setter: (JsObject, JsObject) -> JsObject)
      returns (r: Result<seq<JsObject>>)
      ensures !isOpen ==> r == Err(NotOpen)
      ensures isOpen && table !in stores ==> r == Err(UnknownTable)
      ensures isOpen && table in stores ==>
        var kept := Selected(stores[table].rows, filters.props);
        && (r.Ok? <==> table in TableNames(NotesSchema) || kept == [])
        && (r.Ok? ==> && |r.value| == |kept|
                      && forall j :: 0 <= j < |kept| ==>
                           && Unserialize(NotesSchema, table, kept[j], construct).Some?
                           && r.value[j] == setter(Unserialize(NotesSchema, table, kept[j], construct).value, data))
    {
      var got := Get(table, filters, construct);
      if got.Err? {
        return Err(got.error);
      }
      var items := got.value;
      var changed: seq<JsObject> := [];
      var i := 0;
      while i < |items|
        invariant 0 <= i <= |items|
        invariant |changed| == i
        invariant forall j :: 0 <= j < i ==> changed[j] == setter(items[j], data)
      {
        changed := changed + [setter(items[i], data)];
        i := i + 1;
      }
      r := Ok(changed);
    }

    /** `add(table, obj)`: the serialized object is inserted under its `id`; a
        missing or invalid `id`, or one already stored, leaves the store as it
        was. The success callback receives the domain object itself. */
    method Add(table: string, obj: JsObject) returns (r: Result<JsObject>)
      requires Valid()
      modifies this`stores
      ensures Valid()
      ensures !isOpen ==> r == Err(NotOpen) && stores == old(stores)
      ensures isOpen && table !in old(stores) ==> r == Err(UnknownTable) && stores == old(stores)
      ensures isOpen && table in old(stores) ==>
        var w := AddRecord(old(stores)[table], Serialized(obj.props));
        && stores == AfterWrite(old(stores), table, w)
        && r == if w.Ok? then Ok(obj) else Err(w.error)
    {
      if !isOpen {
        return Err(NotOpen);
      }
      if table !in stores {
        return Err(UnknownTable);
      }
      var rec := Serialize(obj);
      var w := AddRecord(stores[table], rec);
      if w.Ok? {
        WriteKeepsLayout(stores, table, w.value, NotesSchema);
        stores := stores[table := w.value];
        r := Ok(obj);
      } else {
        r := Err(w.error);
      }
    }

    /** `update(table, obj)`: the serialized object replaces whatever is stored
        under its `id`, or is inserted; only an invalid `id` fails. */
    method Update(table: string, obj: JsObject) returns (r: Result<JsObject>)
      requires Valid()
      modifies this`stores
      ensures Valid()
      ensures !isOpen ==> r == Err(NotOpen) && stores == old(stores)
      ensures isOpen && table !in old(stores) ==> r == Err(UnknownTable) && stores == old(stores)
      ensures isOpen && table in old(stores) ==>
        var w := PutRecord(old(stores)[table], Serialized(obj.props));
        && stores == AfterWrite(old(stores), table, w)
        && r == if w.Ok? then Ok(obj) else Err(w.error)
    {
      if !isOpen {
        return Err(NotOpen);
      }
      if table !in stores {
        return Err(UnknownTable);
      }
      var rec := Serialize(obj);
      var w := PutRecord(stores[table], rec);
      if w.Ok? {
        WriteKeepsLayout(stores, table, w.value, NotesSchema);
        stores := stores[table := w.value];
        r := Ok(obj);
      } else {
        r := Err(w.error);
      }
    }

    /** `remove(table, key)`: the record with primary key `key` is deleted; every
        other record and every other store is untouched. */
    method Remove(table: string, key: Value) returns (r: Result<()>)
      requires Valid()
      modifies this`stores
      ensures Valid()
      ensures !isOpen ==> r == Err(NotOpen) && stores == old(stores)
      ensures isOpen && table !in old(stores) ==> r == Err(UnknownTable) && stores == old(stores)
      ensures isOpen && table in old(stores) ==>
        var w := DeleteRecord(old(stores)[table], key);
        && stores == AfterWrite(old(stores), table, w)
        && r == if w.Ok? then Ok(()) else Err(w.error)
    {
      if !isOpen {
        return Err(NotOpen);
      }
      if table !in stores {
        return Err(UnknownTable);
      }
      var w := DeleteRecord(stores[table], key);
      if w.Ok? {
        WriteKeepsLayout(stores, table, w.value, NotesSchema);
        stores := stores[table := w.value];
        r := Ok(());
      } else {
        r := Err(w.error);
      }
    }

    /** Calling a generated helper by name: it forwards its argument to the
        generic operation on its table; `remove<Obj>` forwards `obj.getId()`.
        A name `init` did not attach, or an object without `getId`, is a
        TypeError in the source. */
    method Invoke(name: string, arg: JsObject, construct: (string, Record) -> JsObject)
      returns (r: Result<Reply>)
      requires Valid()
      modifies this`stores
      ensures Valid()
      ensures name !in helpers ==> r == Err(NotAFunction) && stores == old(stores)
      ensures name in helpers && isOpen ==> helpers[name].table in old(stores)
      ensures name in helpers && helpers[name].op == GetOp ==>
        && stores == old(stores)
        && (r.Ok? ==> r.value.Objects?)
        && (isOpen && helpers[name].table in stores ==>
              var kept := Selected(stores[helpers[name].table].rows, arg.props);
              && (r.Ok? <==> helpers[name].table in TableNames(NotesSchema) || kept == [])
              && (r.Ok? ==> && |r.value.items| == |kept|
                            && forall j :: 0 <= j < |kept| ==>
                                 Unserialize(NotesSchema, helpers[name].table, kept[j], construct) == Some(r.value.items[j])))
      ensures name in helpers && helpers[name].op == AddOp ==>
        var t := helpers[name].table;
        && (r.Ok? ==> r == Ok(Object(arg)))
        && (isOpen && t in old(stores) ==>
              && stores == AfterWrite(old(stores), t, AddRecord(old(stores)[t], Serialized(arg.props)))
              && (r.Ok? <==> AddRecord(old(stores)[t], Serialized(arg.props)).Ok?))
      ensures name in helpers && helpers[name].op == UpdateOp ==>
        var t := helpers[name].table;
        && (r.Ok? ==> r == Ok(Object(arg)))
        && (isOpen && t in old(stores) ==>
              && stores == AfterWrite(old(stores), t, PutRecord(old(stores)[t], Serialized(arg.props)))
              && (r.Ok? <==> PutRecord(old(stores)[t], Serialized(arg.props)).Ok?))
      ensures name in helpers && helpers[name].op == RemoveOp ==>
        var t := helpers[name].table;
        && (arg.getId.None? ==> r == Err(NotAFunction) && stores == old(stores))
        && (r.Ok? ==> r == Ok(Done))
        && (isOpen && t in old(stores) && arg.getId.Some? ==>
              && stores == AfterWrite(old(stores), t, DeleteRecord(old(stores)[t], arg.getId.value))
              && (r.Ok? <==> IsKey(arg.getId.value)))
      ensures !isOpen ==> stores == old(stores) && (name in helpers ==> r == Err(if helpers[name].op == RemoveOp && arg.getId.None? then NotAFunction else NotOpen))
    {
      if name !in helpers {
        return Err(NotAFunction);
      }
      var h := helpers[name];
      if isOpen {
        SatisfiesHasTables(stores, NotesSchema);
      }
      match h.op
      case GetOp =>
        var got := Get(h.table, arg, construct);
        r := if got.Ok? then Ok(Objects(got.value)) else Err(got.error);
      case AddOp =>
        var added := Add(h.table, arg);
        r := if added.Ok? then Ok(Object(added.value)) else Err(added.error);
      case UpdateOp =>
        var updated := Update(h.table, arg);
        r := if updated.Ok? then Ok(Object(updated.value)) else Err(updated.error);
      case RemoveOp =>
        if arg.getId.None? {
          return Err(NotAFunction);
        }
        var removed := Remove(h.table, arg.getId.value);
        r := if removed.Ok? then Ok(Done) else Err(removed.error);
    }
  }
}
