/** The object-store engine the database runs on, reduced to what the notes
    database uses: each store holds its records in ascending key order (the
    order a forward cursor visits them), keyed by the record's `id`. */
module ObjectStore {
  import opened Values

  const KEY_PATH: string := "id"

  datatype IndexSpec = IndexSpec(keyPath: string, unique: bool)

  /** An object store: its key path, its indexes by name, and its records in cursor order. */
  datatype Store = Store(keyPath: string, indexes: map<string, IndexSpec>, rows: seq<Record>)

  /** The primary key of a record: its `id` property. */
  function Id(r: Record): Value
  {
    Lookup(r, KEY_PATH)
  }

  /** Every record has a valid key, and keys strictly ascend (so no key repeats). */
  predicate WellFormed(rows: seq<Record>)
  {
    && (forall i :: 0 <= i < |rows| ==> IsKey(Id(rows[i])))
    && (forall i, j :: 0 <= i < j < |rows| ==> KeyLess(Id(rows[i]), Id(rows[j])))
  }

  /** A store as the notes database creates it: key path `id`, well-formed records. */
  predicate StoreOk(st: Store)
  {
    st.keyPath == KEY_PATH && WellFormed(st.rows)
  }

  /** The record stored under key `k`, if any. */
  function Find(rows: seq<Record>, k: Value): (r: Option<Record>)
    ensures r.Some? ==> r.value in rows && Id(r.value) == k
    ensures r.None? <==> forall i :: 0 <= i < |rows| ==> Id(rows[i]) != k
  {
    if rows == [] then None
    else if Id(rows[0]) == k then Some(rows[0])
    else
      var r := Find(rows[1..], k);
      assert forall i :: 1 <= i < |rows| ==> rows[i] == rows[1..][i - 1];
      r
  }

  lemma WellFormedTail(rows: seq<Record>)
    requires WellFormed(rows) && rows != []
    ensures WellFormed(rows[1..])
    ensures forall x :: x in rows[1..] ==> KeyLess(Id(rows[0]), Id(x))
  {
    forall x | x in rows[1..] ensures KeyLess(Id(rows[0]), Id(x)) {
      var j :| 0 <= j < |rows[1..]| && rows[1..][j] == x;
      assert rows[j + 1] == x;
    }
  }

  lemma WellFormedCons(x: Record, rows: seq<Record>)
    requires WellFormed(rows) && IsKey(Id(x))
    requires forall y :: y in rows ==> KeyLess(Id(x), Id(y))
    ensures WellFormed([x] + rows)
  {
    var s := [x] + rows;
    forall i, j | 0 <= i < j < |s| ensures KeyLess(Id(s[i]), Id(s[j])) {
      if i == 0 {
        assert s[j] == rows[j - 1];
      } else {
        assert s[i] == rows[i - 1] && s[j] == rows[j - 1];
      }
    }
    forall i | 0 <= i < |s| ensures IsKey(Id(s[i])) {
      if i > 0 { assert s[i] == rows[i - 1]; }
    }
  }

  /** `put`: the record is stored under its key, replacing a record with the same
      key wholesale or inserting it in key order; every other key keeps its record. */
  function PutRow(rows: seq<Record>, r: Record): (res: seq<Record>)
    requires WellFormed(rows) && IsKey(Id(r))
    ensures WellFormed(res)
    ensures forall k :: Find(res, k) == if k == Id(r) then Some(r) else Find(rows, k)
    ensures |res| == if Find(rows, Id(r)).Some? then |rows| else |rows| + 1
    ensures forall x :: x in res ==> x == r || x in rows
  {
    if rows == [] then [r]
    else if Id(rows[0]) == Id(r) then
      WellFormedTail(rows);
      WellFormedCons(r, rows[1..]);
      assert Find(rows, Id(r)).Some?;
      [r] + rows[1..]
    else if KeyLess(Id(r), Id(rows[0])) then
      forall y | y in rows ensures KeyLess(Id(r), Id(y)) {
        if y != rows[0] {
          WellFormedTail(rows);
          KeyLessTransitive(Id(r), Id(rows[0]), Id(y));
        }
      }
      WellFormedCons(r, rows);
      assert Find(rows, Id(r)).None? by {
        forall i | 0 <= i < |rows| ensures Id(rows[i]) != Id(r) {
          if i > 0 {
            KeyLessTransitive(Id(r), Id(rows[0]), Id(rows[i]));
          }
          KeyLessIrreflexive(Id(r));
        }
      }
      [r] + rows
    else
      WellFormedTail(rows);
      var rest := PutRow(rows[1..], r);
      KeyLessTotal(Id(r), Id(rows[0]));
      WellFormedCons(rows[0], rest);
      [rows[0]] + rest
  }

  /** `delete(k)`: the record under key `k` is gone; every other key keeps its record. */
  function DeleteRow(rows: seq<Record>, k: Value): (res: seq<Record>)
    requires WellFormed(rows)
    ensures WellFormed(res)
    ensures forall k' :: Find(res, k') == if k' == k then None else Find(rows, k')
    ensures |res| == if Find(rows, k).Some? then |rows| - 1 else |rows|
    ensures forall x :: x in res ==> x in rows
  {
    if rows == [] then []
    else
      WellFormedTail(rows);
      var rest := DeleteRow(rows[1..], k);
      if Id(rows[0]) == k then
        assert Find(rows[1..], k).None? by {
          forall i | 0 <= i < |rows[1..]| ensures Id(rows[1..][i]) != k {
            assert rows[1..][i] in rows[1..];
            KeyLessIrreflexive(k);
          }
        }
        rest
      else
        WellFormedCons(rows[0], rest);
        [rows[0]] + rest
  }

  /** `store.add(record)`: a record without a valid key is refused, and so is a
      key already present (the existing record stays); otherwise the record is
      inserted and nothing else in the store changes. */
  function AddRecord(st: Store, rec: Record): (r: Result<Store>)
    requires WellFormed(st.rows)
    ensures !IsKey(Id(rec)) ==> r == Err(InvalidKey)
    ensures IsKey(Id(rec)) && Find(st.rows, Id(rec)).Some? ==> r == Err(DuplicateKey)
    ensures IsKey(Id(rec)) && Find(st.rows, Id(rec)).None? ==> r.Ok?
    ensures r.Ok? ==> && r.value.keyPath == st.keyPath && r.value.indexes == st.indexes
                      && WellFormed(r.value.rows) && |r.value.rows| == |st.rows| + 1
                      && forall k :: Find(r.value.rows, k) == if k == Id(rec) then Some(rec) else Find(st.rows, k)
  {
    if !IsKey(Id(rec)) then Err(InvalidKey)
    else if Find(st.rows, Id(rec)).Some? then Err(DuplicateKey)
    else Ok(st.(rows := PutRow(st.rows, rec)))
  }

  /** `store.put(record)`: a record without a valid key is refused; otherwise it
      is stored under its key whether or not the key was present. */
  function PutRecord(st: Store, rec: Record): (r: Result<Store>)
    requires WellFormed(st.rows)
    ensures r.Err? <==> !IsKey(Id(rec))
    ensures r.Err? ==> r.error == InvalidKey
    ensures r.Ok? ==> && r.value.keyPath == st.keyPath && r.value.indexes == st.indexes
                      && WellFormed(r.value.rows)
                      && forall k :: Find(r.value.rows, k) == if k == Id(rec) then Some(rec) else Find(st.rows, k)
  {
    if !IsKey(Id(rec)) then Err(InvalidKey)
    else Ok(st.(rows := PutRow(st.rows, rec)))
  }

  /** `store.delete(key)`: an invalid key is refused; otherwise the record with
      that key, if any, is removed and nothing else changes. */
  function DeleteRecord(st: Store, key: Value): (r: Result<Store>)
    requires WellFormed(st.rows)
    ensures r.Err? <==> !IsKey(key)
    ensures r.Err? ==> r.error == InvalidKey
    ensures r.Ok? ==> && r.value.keyPath == st.keyPath && r.value.indexes == st.indexes
                      && WellFormed(r.value.rows)
                      && forall k :: Find(r.value.rows, k) == if k == key then None else Find(st.rows, k)
  {
    if !IsKey(key) then Err(InvalidKey)
    else Ok(st.(rows := DeleteRow(st.rows, key)))
  }
}
