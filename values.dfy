/** JavaScript values as they reach the notes database, and IndexedDB key order. */
module Values {

  datatype Option<+T> = None | Some(value: T)

  /** The failures a database call can end in; each stands for one way the
      browser reports an error (a thrown exception or an error event). */
  datatype Error =
    | NotOpen        // the module-level `db` handle is still null
    | VersionError   // the stored database is newer than the version asked for
    | UnknownTable   // no object store, or no schema entry, of that name
    | InvalidKey     // the record's `id` (or the key given) is not a valid key
    | DuplicateKey   // `add` met an existing record with the same key
    | NotAFunction   // a generated helper, or `getId`, that does not exist

  datatype Result<+T> = Ok(value: T) | Err(error: Error)

  /** A primitive JavaScript value; `===` on these is equality of the datatype. */
  datatype Value = Undefined | Null | Bool(b: bool) | Num(n: int) | Str(s: string)

  /** A stored record: the own properties of the structured clone kept by the store. */
  type Record = map<string, Value>

  /** A JavaScript object handed to the database: its enumerable properties in
      `for…in` order, and what its `getId()` returns when it has that method. */
  datatype JsObject = JsObject(props: seq<(string, Value)>, getId: Option<Value>)

  /** `rec[k]`: a property the record lacks reads as `undefined`. */
  function Lookup(rec: Record, k: string): Value
  {
    if k in rec then rec[k] else Undefined
  }

  /** The values IndexedDB accepts as keys, in this model: numbers and strings. */
  predicate IsKey(v: Value)
  {
    v.Num? || v.Str?
  }

  /** Lexicographic order on strings by character; a proper prefix comes first.
      IndexedDB compares UTF-16 code units, which orders the same for every
      character up to U+FFFF. */
  predicate StrLess(a: string, b: string)
    decreases |a|
  {
    if b == [] then false
    else if a == [] then true
    else if a[0] != b[0] then a[0] < b[0]
    else StrLess(a[1..], b[1..])
  }

  /** IndexedDB key comparison: every number sorts before every string. */
  predicate KeyLess(a: Value, b: Value)
  {
    match (a, b)
    case (Num(x), Num(y)) => x < y
    case (Num(_), Str(_)) => true
    case (Str(x), Str(y)) => StrLess(x, y)
    case _ => false
  }

  lemma {:induction false} StrLessIrreflexive(a: string)
    ensures !StrLess(a, a)
    decreases |a|
  {
    if a != [] {
      StrLessIrreflexive(a[1..]);
    }
  }

  lemma {:induction false} StrLessTransitive(a: string, b: string, c: string)
    requires StrLess(a, b) && StrLess(b, c)
    ensures StrLess(a, c)
    decreases |a|
  {
    if a != [] && a[0] == b[0] && b[0] == c[0] {
      StrLessTransitive(a[1..], b[1..], c[1..]);
    }
  }

  lemma {:induction false} StrLessTotal(a: string, b: string)
    requires a != b
    ensures StrLess(a, b) || StrLess(b, a)
    decreases |a|
  {
    if a != [] && b != [] && a[0] == b[0] {
      assert a == [a[0]] + a[1..] && b == [b[0]] + b[1..];
      StrLessTotal(a[1..], b[1..]);
    }
  }

  /** KeyLess is a strict total order on keys. */
  lemma KeyLessIrreflexive(a: Value)
    ensures !KeyLess(a, a)
  {
    if a.Str? {
      StrLessIrreflexive(a.s);
    }
  }

  lemma KeyLessTransitive(a: Value, b: Value, c: Value)
    requires KeyLess(a, b) && KeyLess(b, c)
    ensures KeyLess(a, c)
  {
    if a.Str? && b.Str? && c.Str? {
      StrLessTransitive(a.s, b.s, c.s);
    }
  }

  lemma KeyLessTotal(a: Value, b: Value)
    requires IsKey(a) && IsKey(b) && a != b
    ensures KeyLess(a, b) || KeyLess(b, a)
  {
    if a.Str? && b.Str? {
      StrLessTotal(a.s, b.s);
    }
  }
}
