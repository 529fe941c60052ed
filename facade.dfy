/** The convenience helpers `init` generates: for each registered table, four
    named functions that forward to the generic operations with the table bound. */
module Facade {
  import opened Schema

  datatype Op = GetOp | AddOp | UpdateOp | RemoveOp

  /** A generated helper: which generic operation it forwards to, on which table. */
  datatype Helper = Helper(op: Op, table: string)

  /** The helper names built by string concatenation:
      `get<Obj>s`, `add<Obj>`, `update<Obj>`, `remove<Obj>`. */
  function HelperName(op: Op, objName: string): string
  {
    match op
    case GetOp => "get" + objName + "s"
    case AddOp => "add" + objName
    case UpdateOp => "update" + objName
    case RemoveOp => "remove" + objName
  }

  /** Different operations, or different object names, never produce the same helper name. */
  lemma HelperNameInjective(op1: Op, n1: string, op2: Op, n2: string)
    requires HelperName(op1, n1) == HelperName(op2, n2)
    ensures op1 == op2 && n1 == n2
  {
    var s := HelperName(op1, n1);
    assert s[0] == HelperName(op2, n2)[0];
    match op1
    case GetOp =>
      assert n1 == s[3..|s| - 1];
      assert n2 == HelperName(op2, n2)[3..|s| - 1];
    case AddOp =>
      assert n1 == s[3..];
      assert n2 == HelperName(op2, n2)[3..];
    case UpdateOp =>
      assert n1 == s[6..];
      assert n2 == HelperName(op2, n2)[6..];
    case RemoveOp =>
      assert n1 == s[6..];
      assert n2 == HelperName(op2, n2)[6..];
  }

  /** The four helpers generated for one registry entry. */
  function EntryHelpers(table: string, d: TableDescriptor): map<string, Helper>
  {
    map[HelperName(GetOp, d.objectName) := Helper(GetOp, table),
        HelperName(AddOp, d.objectName) := Helper(AddOp, table),
        HelperName(UpdateOp, d.objectName) := Helper(UpdateOp, table),
        HelperName(RemoveOp, d.objectName) := Helper(RemoveOp, table)]
  }

  lemma EntryHelpersAt(table: string, d: TableDescriptor, op: Op)
    ensures HelperName(op, d.objectName) in EntryHelpers(table, d)
    ensures EntryHelpers(table, d)[HelperName(op, d.objectName)] == Helper(op, table)
  {
    var n := d.objectName;
    if HelperName(op, n) == HelperName(RemoveOp, n) { HelperNameInjective(op, n, RemoveOp, n); }
    if HelperName(op, n) == HelperName(UpdateOp, n) { HelperNameInjective(op, n, UpdateOp, n); }
    if HelperName(op, n) == HelperName(AddOp, n) { HelperNameInjective(op, n, AddOp, n); }
  }

  /** The helpers generated by the loop over the registry, a later entry
      overriding an earlier one that yields the same name. */
  function HelperTable(schema: SchemaTable): map<string, Helper>
    decreases |schema|
  {
    if schema == [] then map[]
    else
      var (table, d) := schema[|schema| - 1];
      HelperTable(schema[..|schema| - 1]) + EntryHelpers(table, d)
  }

  lemma HelperTableSnoc(schema: SchemaTable, e: (string, TableDescriptor))
    ensures HelperTable(schema + [e]) == HelperTable(schema) + EntryHelpers(e.0, e.1)
  {
    assert (schema + [e])[..|schema|] == schema;
  }

  /** Every generated helper forwards to a table of the registry. */
  lemma {:induction false} HelperTableTables(schema: SchemaTable)
    ensures forall n :: n in HelperTable(schema) ==> HelperTable(schema)[n].table in TableNames(schema)
    decreases |schema|
  {
    if schema != [] {
      var init := schema[..|schema| - 1];
      var (table, d) := schema[|schema| - 1];
      HelperTableTables(init);
      forall n | n in HelperTable(schema) ensures HelperTable(schema)[n].table in TableNames(schema) {
        if n in EntryHelpers(table, d) {
          assert HelperTable(schema)[n].table == table;
          assert schema[|schema| - 1].0 == table;
        } else {
          var i :| 0 <= i < |init| && init[i].0 == HelperTable(init)[n].table;
          assert schema[i] == init[i];
        }
      }
    }
  }

  predicate DistinctObjectNames(schema: SchemaTable)
  {
    forall i, j :: 0 <= i < j < |schema| ==> schema[i].1.objectName != schema[j].1.objectName
  }

  /** The names generated are exactly the four helper names of each entry. */
  lemma {:induction false} HelperTableNames(schema: SchemaTable, name: string)
    ensures name in HelperTable(schema) <==>
            exists i, op :: 0 <= i < |schema| && name == HelperName(op, schema[i].1.objectName)
    decreases |schema|
  {
    if schema != [] {
      var init := schema[..|schema| - 1];
      HelperTableNames(init, name);
      if exists i, op :: 0 <= i < |init| && name == HelperName(op, init[i].1.objectName) {
        var i, op :| 0 <= i < |init| && name == HelperName(op, init[i].1.objectName);
        assert schema[i] == init[i];
      }
      if exists i, op :: 0 <= i < |schema| && name == HelperName(op, schema[i].1.objectName) {
        var i, op :| 0 <= i < |schema| && name == HelperName(op, schema[i].1.objectName);
        if i < |init| {
          assert init[i] == schema[i];
        } else {
          assert name in EntryHelpers(schema[i].0, schema[i].1) by {
            match op
            case GetOp =>
            case AddOp =>
            case UpdateOp =>
            case RemoveOp =>
          }
        }
      }
    }
  }

  /** With distinct object names, each generated helper forwards its own
      operation to its own table. */
  lemma {:induction false} HelperTableResolves(schema: SchemaTable, i: int, op: Op)
    requires DistinctObjectNames(schema) && 0 <= i < |schema|
    ensures HelperName(op, schema[i].1.objectName) in HelperTable(schema)
    ensures HelperTable(schema)[HelperName(op, schema[i].1.objectName)] == Helper(op, schema[i].0)
    decreases |schema|
  {
    var name := HelperName(op, schema[i].1.objectName);
    var init := schema[..|schema| - 1];
    var (table, d) := schema[|schema| - 1];
    var entry := EntryHelpers(table, d);
    if i == |schema| - 1 {
      EntryHelpersAt(table, d, op);
    } else {
      assert init[i] == schema[i];
      assert DistinctObjectNames(init) by {
        forall a, b | 0 <= a < b < |init| ensures init[a].1.objectName != init[b].1.objectName {
          assert init[a] == schema[a] && init[b] == schema[b];
        }
      }
      HelperTableResolves(init, i, op);
      assert name !in entry by {
        if name in entry {
          var op2 :| name == HelperName(op2, d.objectName);
          HelperNameInjective(op, schema[i].1.objectName, op2, d.objectName);
        }
      }
    }
  }

  /** The helpers of the notes application, as its views call them. */
  lemma NotesHelpers()
    ensures "getNotes" in HelperTable(NotesSchema) && HelperTable(NotesSchema)["getNotes"] == Helper(GetOp, "notes")
    ensures "addNote" in HelperTable(NotesSchema) && HelperTable(NotesSchema)["addNote"] == Helper(AddOp, "notes")
    ensures "updateNoteResource" in HelperTable(NotesSchema) && HelperTable(NotesSchema)["updateNoteResource"] == Helper(UpdateOp, "noteResource")
    ensures "getNotebooks" in HelperTable(NotesSchema) && HelperTable(NotesSchema)["getNotebooks"] == Helper(GetOp, "notebooks")
    ensures "removeNotebook" in HelperTable(NotesSchema) && HelperTable(NotesSchema)["removeNotebook"] == Helper(RemoveOp, "notebooks")
    ensures "getUsers" in HelperTable(NotesSchema) && HelperTable(NotesSchema)["getUsers"] == Helper(GetOp, "users")
  {
    var s := NotesSchema;
    assert s[0].1.objectName == "Note" && s[1].1.objectName == "NoteResource";
    assert s[2].1.objectName == "Notebook" && s[3].1.objectName == "User";
    assert DistinctObjectNames(s);
    assert HelperName(GetOp, "Note") == "getNotes" && HelperName(AddOp, "Note") == "addNote";
    assert HelperName(UpdateOp, "NoteResource") == "updateNoteResource";
    assert HelperName(GetOp, "Notebook") == "getNotebooks" && HelperName(RemoveOp, "Notebook") == "removeNotebook";
    assert HelperName(GetOp, "User") == "getUsers";
    HelperTableResolves(s, 0, GetOp);
    HelperTableResolves(s, 0, AddOp);
    HelperTableResolves(s, 1, UpdateOp);
    HelperTableResolves(s, 2, GetOp);
    HelperTableResolves(s, 2, RemoveOp);
    HelperTableResolves(s, 3, GetOp);
  }
}
