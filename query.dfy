/** The filtering scan behind `get`: a forward cursor over a store, keeping the
    records whose raw properties strictly equal every filter property. */
module Query {
  import opened Values
  import opened ObjectStore

  /** The test applied to each raw stored record: every filter property is
      strictly equal to the same property of the record (a property the record
      lacks reads as `undefined`). No filters keep every record. */
  predicate Keeps(rec: Record, filters: seq<(string, Value)>)
  {
    forall i :: 0 <= i < |filters| ==> Lookup(rec, filters[i].0) == filters[i].1
  }

  /** A record lacking a filtered property passes that filter only when the
      filter value is itself `undefined`. */
  lemma MissingPropertyMatchesOnlyUndefined(rec: Record, k: string, v: Value)
    requires k !in rec
    ensures Keeps(rec, [(k, v)]) <==> v == Undefined
  {
    assert [(k, v)][0] == (k, v);
  }

  /** The `for (var k in filters)` loop of one cursor step, stopping at the first mismatch. */
  method MatchesFilters(rec: Record, filters: seq<(string, Value)>) returns (ok: bool)
    ensures ok <==> Keeps(rec, filters)
    ensures !ok ==> exists i :: 0 <= i < |filters| && Lookup(rec, filters[i].0) != filters[i].1
  {
    ok := true;
    var i := 0;
    while i < |filters|
      invariant 0 <= i <= |filters|
      invariant ok
      invariant forall j :: 0 <= j < i ==> Lookup(rec, filters[j].0) == filters[j].1
    {
      var (k, v) := filters[i];
      if Lookup(rec, k) != v {
        ok := false;
        break;
      }
      i := i + 1;
    }
  }

  /** The records a scan keeps, in the order the cursor visits them. */
  function Selected(rows: seq<Record>, filters: seq<(string, Value)>): seq<Record>
  {
    if rows == [] then []
    else (if Keeps(rows[0], filters) then [rows[0]] else []) + Selected(rows[1..], filters)
  }

  /** Scanning two runs of records one after the other keeps the records of the
      first run, then those of the second: cursor order is preserved. */
  lemma {:induction false} SelectedAppend(a: seq<Record>, b: seq<Record>, filters: seq<(string, Value)>)
    ensures Selected(a + b, filters) == Selected(a, filters) + Selected(b, filters)
  {
    if a != [] {
      assert (a + b)[1..] == a[1..] + b;
      SelectedAppend(a[1..], b, filters);
    } else {
      assert a + b == b;
    }
  }

  /** A record is kept exactly as many times as it occurs in the store when it
      passes the filters, and never otherwise: no duplicates, no omissions. */
  lemma {:induction false} SelectedCount(rows: seq<Record>, filters: seq<(string, Value)>, x: Record)
    ensures multiset(Selected(rows, filters))[x] == if Keeps(x, filters) then multiset(rows)[x] else 0
  {
    if rows != [] {
      SelectedCount(rows[1..], filters, x);
      assert rows == [rows[0]] + rows[1..];
    }
  }

  lemma SelectedMembers(rows: seq<Record>, filters: seq<(string, Value)>, x: Record)
    ensures x in Selected(rows, filters) <==> x in rows && Keeps(x, filters)
  {
    SelectedCount(rows, filters, x);
  }

  /** An empty filter object keeps every record, in cursor order. */
  lemma {:induction false} SelectedNoFilters(rows: seq<Record>)
    ensures Selected(rows, []) == rows
  {
    if rows != [] {
      SelectedNoFilters(rows[1..]);
    }
  }

  /** The kept records come in ascending key order and no key repeats. */
  lemma {:induction false} SelectedWellFormed(rows: seq<Record>, filters: seq<(string, Value)>)
    requires WellFormed(rows)
    ensures WellFormed(Selected(rows, filters))
  {
    if rows != [] {
      WellFormedTail(rows);
      SelectedWellFormed(rows[1..], filters);
      if Keeps(rows[0], filters) {
        forall y | y in Selected(rows[1..], filters) ensures KeyLess(Id(rows[0]), Id(y)) {
          SelectedMembers(rows[1..], filters, y);
        }
        WellFormedCons(rows[0], Selected(rows[1..], filters));
      } else {
        assert Selected(rows, filters) == Selected(rows[1..], filters);
      }
    }
  }

  /** Filtering on the primary key finds the one record with that key, or none. */
  lemma {:induction false} SelectedByKey(rows: seq<Record>, k: Value)
    requires WellFormed(rows)
    ensures Selected(rows, [(KEY_PATH, k)]) == match Find(rows, k) case Some(r) => [r] case None => []
  {
    var f := [(KEY_PATH, k)];
    if rows != [] {
      WellFormedTail(rows);
      SelectedByKey(rows[1..], k);
      assert Keeps(rows[0], f) <==> Id(rows[0]) == k by {
        assert f[0].0 == KEY_PATH && f[0].1 == k;
        if Keeps(rows[0], f) {
          assert Lookup(rows[0], f[0].0) == f[0].1;
        }
      }
      if Id(rows[0]) == k {
        assert Find(rows[1..], k).None? by {
          forall x | x in rows[1..] ensures Id(x) != k {
            KeyLessIrreflexive(k);
          }
        }
      }
    }
  }

  /** After a successful `add`, getting by its `id` yields just the added record. */
  lemma AddThenGetById(st: Store, rec: Record)
    requires WellFormed(st.rows) && AddRecord(st, rec).Ok?
    ensures Selected(AddRecord(st, rec).value.rows, [(KEY_PATH, Id(rec))]) == [rec]
  {
    SelectedByKey(AddRecord(st, rec).value.rows, Id(rec));
  }

  /** After `update`, getting by its `id` yields the new record only: nothing of
      an earlier record with that key survives. */
  lemma UpdateThenGetById(st: Store, rec: Record)
    requires WellFormed(st.rows) && PutRecord(st, rec).Ok?
    ensures Selected(PutRecord(st, rec).value.rows, [(KEY_PATH, Id(rec))]) == [rec]
  {
    SelectedByKey(PutRecord(st, rec).value.rows, Id(rec));
  }

  /** After a successful `remove(key)`, getting by that key yields nothing. */
  lemma RemoveThenGetById(st: Store, key: Value)
    requires WellFormed(st.rows) && DeleteRecord(st, key).Ok?
    ensures Selected(DeleteRecord(st, key).value.rows, [(KEY_PATH, key)]) == []
  {
    SelectedByKey(DeleteRecord(st, key).value.rows, key);
  }
}
