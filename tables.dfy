/** The consolidation store: a table of rows with a primary key, written to
    with DuckDB's `INSERT OR REPLACE INTO ... SELECT * FROM frame`. */
module Tables {
  import opened Seqs
  import opened Records

  /** The rows of `rows` whose key is not in `keys`. */
  function Without<K(==), T(!new)>(rows: seq<T>, keys: set<K>, key: T -> K): seq<T>
  {
    Filter(rows, x => key(x) !in keys)
  }

  /** The table after INSERT OR REPLACE of `batch`: every row that shares its key
      with an incoming row is replaced, and the incoming rows are added. */
  function Replace<K(==), T(==,!new)>(rows: seq<T>, batch: seq<T>, key: T -> K): seq<T>
  {
    Without(rows, KeySet(batch, key), key) + batch
  }

  /** Each incoming row is present afterwards; a row under an incoming key is an
      incoming row (the earlier row with that key is gone); a row under any other
      key is present afterwards exactly when it was present before. */
  lemma ReplaceSemantics<K, T(!new)>(rows: seq<T>, batch: seq<T>, key: T -> K)
    ensures forall x :: x in batch ==> x in Replace(rows, batch, key)
    ensures forall x :: x in Replace(rows, batch, key) && key(x) in KeySet(batch, key) ==> x in batch
    ensures forall x :: key(x) !in KeySet(batch, key) ==> (x in Replace(rows, batch, key) <==> x in rows)
  {
  }

  /** The part of the table under keys the batch does not touch is exactly as
      before: same rows, same multiplicities, same order. */
  lemma ReplaceLeavesOtherKeys<K, T(!new)>(rows: seq<T>, batch: seq<T>, key: T -> K)
    ensures Without(Replace(rows, batch, key), KeySet(batch, key), key) == Without(rows, KeySet(batch, key), key)
  {
    var ks := KeySet(batch, key);
    var p := x => key(x) !in ks;
    FilterAppend(Filter(rows, p), batch, p);
    FilterFilter(rows, p, p);
    FilterNone(batch, p);
  }

  /** Re-applying the same batch gives the same table. */
  lemma ReplaceIdempotent<K, T(!new)>(rows: seq<T>, batch: seq<T>, key: T -> K)
    ensures Replace(Replace(rows, batch, key), batch, key) == Replace(rows, batch, key)
  {
    ReplaceLeavesOtherKeys(rows, batch, key);
  }

  /** A replacement keeps the key constraint of the table when the batch itself
      has distinct keys. */
  lemma ReplaceKeepsDistinct<K, T(!new)>(rows: seq<T>, batch: seq<T>, key: T -> K)
    requires DistinctKeys(rows, key) && DistinctKeys(batch, key)
    ensures DistinctKeys(Replace(rows, batch, key), key)
  {
    var ks := KeySet(batch, key);
    FilterDistinct(rows, x => key(x) !in ks, key);
    DistinctKeysAppend(Without(rows, ks, key), batch, key);
  }

  /** The rows of every snapshot date other than `d`. */
  function SnapshotsOtherThan<I, T(!new)>(rows: seq<T>, key: T -> (I, Date), d: Date): seq<T>
  {
    Filter(rows, x => key(x).1 != d)
  }

  /** History retention: when the key includes the snapshot date and every
      incoming row carries date `d`, the rows of every other date are kept
      exactly as they were, in the same order. */
  lemma ReplaceKeepsOtherSnapshots<I, T(!new)>(rows: seq<T>, batch: seq<T>, key: T -> (I, Date), d: Date)
    requires forall y :: y in batch ==> key(y).1 == d
    ensures SnapshotsOtherThan(Replace(rows, batch, key), key, d) == SnapshotsOtherThan(rows, key, d)
  {
    var ks := KeySet(batch, key);
    var p := x => key(x) !in ks;
    var q := x => key(x).1 != d;
    FilterAppend(Filter(rows, p), batch, q);
    FilterFilter(rows, p, q);
    FilterNone(batch, q);
  }

  /** A table with a primary key. The rows are in insertion order; SQL gives
      that order no meaning, and no property below depends on it. */
  class Table<K(==), T(==,!new)> {
    const key: T -> K
    var rows: seq<T>

    /** The primary-key constraint. */
    ghost predicate Valid()
      reads this
    {
      DistinctKeys(rows, key)
    }

    /** An empty table with the given key. */
    constructor (key: T -> K)
      ensures Valid() && this.key == key && rows == []
    {
      this.key := key;
      rows := [];
    }

    /** INSERT OR REPLACE of a whole batch. A batch holding two rows with the
        same key violates the key constraint within one statement: the write
        fails and the table is left unchanged. */
    method Upsert(batch: seq<T>) returns (ok: bool)
      requires Valid()
      modifies this
      ensures Valid()
      ensures ok <==> DistinctKeys(batch, key)
      ensures rows == if ok then Replace(old(rows), batch, key) else old(rows)
    {
      ok := DistinctKeys(batch, key);
      if ok {
        ReplaceKeepsDistinct(rows, batch, key);
        rows := Replace(rows, batch, key);
      }
    }
  }

  // The consolidated tables, keyed by natural key and snapshot date.
  type StationTable = Table<(string, Date), Station>
  type CityTable = Table<(int, Date), City>
  type StatementTable = Table<(string, Date), Statement>
}
