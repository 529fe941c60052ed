/** The schema registry of the notes database: which object stores exist,
    which domain constructor reads each back, and its secondary indexes. */
module Schema {
  import opened Values

  const DB_NAME: string := "EVME_Notes"
  const DB_VERSION: nat := 3

  /** One entry of `schema`; `indexes` is absent for a table that declares none. */
  datatype TableDescriptor = TableDescriptor(objectName: string, indexes: Option<seq<string>>)

  /** The registry in `for…in` order: table name and descriptor. */
  type SchemaTable = seq<(string, TableDescriptor)>

  const NotesSchema: SchemaTable := [
    ("notes", TableDescriptor("Note", Some(["notebook_id", "name"]))),
    ("noteResource", TableDescriptor("NoteResource", Some(["note_id"]))),
    ("notebooks", TableDescriptor("Notebook", Some(["user_id"]))),
    ("users", TableDescriptor("User", None))
  ]

  /** `schema[table].indexes || []`. */
  function IndexesOf(d: TableDescriptor): seq<string>
  {
    match d.indexes
    case Some(xs) => xs
    case None => []
  }

  /** The names of a registry's tables. */
  function TableNames(schema: SchemaTable): set<string>
  {
    set i | 0 <= i < |schema| :: schema[i].0
  }

  /** Keys of a JavaScript object are distinct. */
  predicate DistinctNames(schema: SchemaTable)
  {
    forall i, j :: 0 <= i < j < |schema| ==> schema[i].0 != schema[j].0
  }

  /** No index name is listed twice for one table. */
  predicate DistinctIndexes(d: TableDescriptor)
  {
    forall i, j :: 0 <= i < j < |IndexesOf(d)| ==> IndexesOf(d)[i] != IndexesOf(d)[j]
  }

  /** `schema[table]`: the descriptor registered under `table`, if any. */
  function Descriptor(schema: SchemaTable, table: string): (r: Option<TableDescriptor>)
    ensures r.None? <==> table !in TableNames(schema)
    ensures r.Some? ==> exists i :: 0 <= i < |schema| && schema[i] == (table, r.value)
  {
    if schema == [] then None
    else if schema[0].0 == table then Some(schema[0].1)
    else
      var r := Descriptor(schema[1..], table);
      assert TableNames(schema) == {schema[0].0} + TableNames(schema[1..]) by {
        forall n | n in TableNames(schema) ensures n in {schema[0].0} + TableNames(schema[1..]) {
          var i :| 0 <= i < |schema| && schema[i].0 == n;
          if i > 0 { assert schema[1..][i - 1].0 == n; }
        }
      }
      r
  }

  /** With distinct table names, looking up an entry's name finds that entry. */
  lemma {:induction false} DescriptorOfEntry(schema: SchemaTable, i: int)
    requires DistinctNames(schema) && 0 <= i < |schema|
    ensures Descriptor(schema, schema[i].0) == Some(schema[i].1)
  {
    if i > 0 {
      assert schema[0].0 != schema[i].0;
      assert schema[1..][i - 1] == schema[i];
      DescriptorOfEntry(schema[1..], i - 1);
    }
  }

  /** The registry of the notes application is a well-formed JavaScript object
      and names exactly the four tables of the application. */
  lemma NotesSchemaShape()
    ensures DistinctNames(NotesSchema)
    ensures TableNames(NotesSchema) == {"notes", "noteResource", "notebooks", "users"}
    ensures IndexesOf(NotesSchema[3].1) == []
    ensures forall i :: 0 <= i < |NotesSchema| ==> DistinctIndexes(NotesSchema[i].1)
  {
    assert NotesSchema[0].0 == "notes" && NotesSchema[1].0 == "noteResource";
    assert NotesSchema[2].0 == "notebooks" && NotesSchema[3].0 == "users";
  }
}
