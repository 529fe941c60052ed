/** The bridge between domain objects and stored records (`serialize`, `unserialize`). */
module Serialization {
  import opened Values
  import opened Strings
  import opened Schema

  const MARKER: string := "data_"

  /** `key.indexOf('data_') !== -1`: the marker may stand anywhere in the name. */
  predicate Marked(name: string)
  {
    IndexOf(name, MARKER) != -1
  }

  /** `key.replace('data_', "")`: the stored name drops the first marker only. */
  function StoredName(name: string): string
  {
    ReplaceFirst(name, MARKER, "")
  }

  /** The record `serialize` builds from properties enumerated in this order:
      each marked property is written under its stored name, a later one
      overwriting an earlier one that has the same stored name. */
  function Serialized(props: seq<(string, Value)>): Record
    decreases |props|
  {
    if props == [] then map[]
    else
      var prev := Serialized(props[..|props| - 1]);
      var (k, v) := props[|props| - 1];
      if Marked(k) then prev[StoredName(k) := v] else prev
  }

  /** `serialize(obj)`: fills a fresh record in one `for…in` pass. */
  method Serialize(obj: JsObject) returns (data: Record)
    ensures data == Serialized(obj.props)
  {
    data := map[];
    var i := 0;
    while i < |obj.props|
      invariant 0 <= i <= |obj.props|
      invariant data == Serialized(obj.props[..i])
    {
      assert obj.props[..i + 1][..i] == obj.props[..i];
      var (key, value) := obj.props[i];
      if IndexOf(key, MARKER) != -1 {
        data := data[ReplaceFirst(key, MARKER, "") := value];
      }
      i := i + 1;
    }
    assert obj.props[..i] == obj.props;
  }

  /** A key of the stored record is exactly the stored name of some marked property. */
  lemma {:induction false} SerializedKeys(props: seq<(string, Value)>, k: string)
    ensures k in Serialized(props) <==>
            exists i :: 0 <= i < |props| && Marked(props[i].0) && StoredName(props[i].0) == k
    decreases |props|
  {
    if props != [] {
      var init := props[..|props| - 1];
      SerializedKeys(init, k);
      if exists i :: 0 <= i < |init| && Marked(init[i].0) && StoredName(init[i].0) == k {
        var i :| 0 <= i < |init| && Marked(init[i].0) && StoredName(init[i].0) == k;
        assert props[i] == init[i];
      }
      if exists i :: 0 <= i < |props| && Marked(props[i].0) && StoredName(props[i].0) == k {
        var i :| 0 <= i < |props| && Marked(props[i].0) && StoredName(props[i].0) == k;
        if i < |init| { assert init[i] == props[i]; }
      }
    }
  }

  /** The value stored under a name is the value of the LAST marked property
      with that stored name, unchanged. */
  lemma {:induction false} SerializedValue(props: seq<(string, Value)>, i: int)
    requires 0 <= i < |props| && Marked(props[i].0)
    requires forall j :: i < j < |props| && Marked(props[j].0) ==> StoredName(props[j].0) != StoredName(props[i].0)
    ensures StoredName(props[i].0) in Serialized(props)
    ensures Serialized(props)[StoredName(props[i].0)] == props[i].1
    decreases |props|
  {
    if i < |props| - 1 {
      var init := props[..|props| - 1];
      assert init[i] == props[i];
      forall j | i < j < |init| && Marked(init[j].0)
        ensures StoredName(init[j].0) != StoredName(init[i].0)
      {
        assert init[j] == props[j];
      }
      SerializedValue(init, i);
    }
  }

  /** The properties carrying the marker, in their order. */
  function MarkedOnly(props: seq<(string, Value)>): (r: seq<(string, Value)>)
    ensures forall x :: x in r <==> x in props && Marked(x.0)
    decreases |props|
  {
    if props == [] then []
    else MarkedOnly(props[..|props| - 1]) + (if Marked(props[|props| - 1].0) then [props[|props| - 1]] else [])
  }

  /** Properties without the marker contribute nothing: dropping them leaves the record unchanged. */
  lemma {:induction false} SerializedIgnoresUnmarked(props: seq<(string, Value)>)
    ensures Serialized(MarkedOnly(props)) == Serialized(props)
    decreases |props|
  {
    if props != [] {
      var init := props[..|props| - 1];
      var last := props[|props| - 1];
      SerializedIgnoresUnmarked(init);
      assert props == init + [last];
      SerializedSnoc(init, last);
      if Marked(last.0) {
        assert MarkedOnly(props) == MarkedOnly(init) + [last];
        SerializedSnoc(MarkedOnly(init), last);
      } else {
        assert MarkedOnly(props) == MarkedOnly(init) + [] == MarkedOnly(init);
      }
    }
  }

  lemma SerializedSnoc(props: seq<(string, Value)>, x: (string, Value))
    ensures Serialized(props + [x]) == if Marked(x.0) then Serialized(props)[StoredName(x.0) := x.1] else Serialized(props)
  {
    assert (props + [x])[..|props|] == props;
  }

  /** The stored names of the marked properties are pairwise different. */
  predicate DistinctStoredNames(props: seq<(string, Value)>)
  {
    forall i, j :: 0 <= i < j < |props| && Marked(props[i].0) && Marked(props[j].0) ==>
      StoredName(props[i].0) != StoredName(props[j].0)
  }

  /** With distinct stored names, `serialize` yields exactly one key per marked
      property, holding that property's value. */
  lemma {:induction false} SerializedOnePerMarked(props: seq<(string, Value)>)
    requires DistinctStoredNames(props)
    ensures |Serialized(props)| == |MarkedOnly(props)|
    ensures forall i :: 0 <= i < |props| && Marked(props[i].0) ==>
      StoredName(props[i].0) in Serialized(props) && Serialized(props)[StoredName(props[i].0)] == props[i].1
    decreases |props|
  {
    forall i | 0 <= i < |props| && Marked(props[i].0)
      ensures StoredName(props[i].0) in Serialized(props) && Serialized(props)[StoredName(props[i].0)] == props[i].1
    {
      SerializedValue(props, i);
    }
    if props != [] {
      var init := props[..|props| - 1];
      var last := props[|props| - 1];
      assert DistinctStoredNames(init) by {
        forall i, j | 0 <= i < j < |init| && Marked(init[i].0) && Marked(init[j].0)
          ensures StoredName(init[i].0) != StoredName(init[j].0)
        {
          assert init[i] == props[i] && init[j] == props[j];
        }
      }
      SerializedOnePerMarked(init);
      if Marked(last.0) {
        SerializedKeys(init, StoredName(last.0));
      }
    }
  }

  /** A property named with the marker as a prefix is stored under the rest of its name. */
  lemma StoredNameOfPrefixed(name: string)
    ensures Marked(MARKER + name)
    ensures StoredName(MARKER + name) == name
  {
    assert MARKER + name == [] + MARKER + name;
    ReplaceFirstSplit([], MARKER, name, "");
  }

  /** The marker is found anywhere in a name, not only at its start:
      a property `metadata_x` is persisted, as `metax`. */
  lemma MarkerInsideName()
    ensures Marked("metadata_x") && StoredName("metadata_x") == "metax"
  {
    var s := "metadata_x";
    assert s == "meta" + MARKER + "x";
    forall i | 0 <= i < 4 ensures !OccursAt(s, MARKER, i) {
      assert s[i + 4] != MARKER[4];
    }
    ReplaceFirstSplit("meta", MARKER, "x", "");
  }

  /** `unserialize(data, table)`: the constructor named by the table's
      `objectName` builds a fresh object from the raw record; a table without a
      schema entry has no constructor (the source throws). */
  function Unserialize(schema: SchemaTable, table: string, data: Record,
                       construct: (string, Record) -> JsObject): (o: Option<JsObject>)
    ensures o.None? <==> table !in TableNames(schema)
  {
    match Descriptor(schema, table)
    case Some(d) => Some(construct(d.objectName, data))
    case None => None
  }

  /** Each table of the notes registry is read back with its own constructor. */
  lemma UnserializeNotesTables(data: Record, construct: (string, Record) -> JsObject)
    ensures Unserialize(NotesSchema, "notes", data, construct) == Some(construct("Note", data))
    ensures Unserialize(NotesSchema, "noteResource", data, construct) == Some(construct("NoteResource", data))
    ensures Unserialize(NotesSchema, "notebooks", data, construct) == Some(construct("Notebook", data))
    ensures Unserialize(NotesSchema, "users", data, construct) == Some(construct("User", data))
  {
    NotesSchemaShape();
    DescriptorOfEntry(NotesSchema, 0);
    DescriptorOfEntry(NotesSchema, 1);
    DescriptorOfEntry(NotesSchema, 2);
    DescriptorOfEntry(NotesSchema, 3);
  }
}
