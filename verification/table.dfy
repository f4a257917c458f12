/**
 * Table semantics shared by the DAOs: a keyed table is a map from primary key to row; a
 * cross-reference table, whose primary key is the whole row, is a set of rows.
 */
module Table {
  import opened Common

  /** `after` and `before` hold the same rows under every key other than `k`. */
  ghost predicate AgreeExcept<V>(before: map<string, V>, after: map<string, V>, k: string) {
    forall j | j != k :: (j in after <==> j in before) && (j in before ==> after[j] == before[j])
  }

  /** The last row of `rows` whose key is `k`, if any. */
  function LastWithKey<V>(rows: seq<V>, key: V -> string, k: string): (r: Option<V>)
    ensures r.None? <==> forall i | 0 <= i < |rows| :: key(rows[i]) != k
    ensures r.Some? ==> exists i | 0 <= i < |rows| :: && rows[i] == r.value && key(rows[i]) == k
                                                      && forall j | i < j < |rows| :: key(rows[j]) != k
  {
    if rows == [] then None
    else
      match LastWithKey(rows[1..], key, k)
      case Some(v) => Some(v)
      case None =>
        if key(rows[0]) == k then Some(rows[0]) else None
  }

  // ---------------------------------------------------------------------------------------
  // Keyed tables

  /** `@Insert(onConflict = OnConflictStrategy.REPLACE)` of one row: the row replaces whatever had its key. */
  function Upsert<V>(t: map<string, V>, key: V -> string, row: V): (r: map<string, V>)
    ensures key(row) in r && r[key(row)] == row
    ensures AgreeExcept(t, r, key(row))
  {
    t[key(row) := row]
  }

  /** The list form of the same `@Insert`: the rows are inserted one after the other. */
  function UpsertAll<V>(t: map<string, V>, key: V -> string, rows: seq<V>): map<string, V>
    decreases |rows|
  {
    if rows == [] then t else UpsertAll(Upsert(t, key, rows[0]), key, rows[1..])
  }

  /** `after` is `before` with, for every key, the last row of `rows` carrying it written over it. */
  ghost predicate LastRowWins<V>(before: map<string, V>, after: map<string, V>, key: V -> string, rows: seq<V>) {
    forall k :: match LastWithKey(rows, key, k)
                case Some(v) => k in after && after[k] == v
                case None => (k in after <==> k in before) && (k in before ==> after[k] == before[k])
  }

  /** Inserting a list of rows leaves, under every key, the last row of the list with that key. */
  lemma {:induction false} UpsertAllLastRowWins<V>(t: map<string, V>, key: V -> string, rows: seq<V>)
    ensures LastRowWins(t, UpsertAll(t, key, rows), key, rows)
    decreases |rows|
  {
    if rows != [] {
      var t1 := Upsert(t, key, rows[0]);
      UpsertAllLastRowWins(t1, key, rows[1..]);
      forall k ensures match LastWithKey(rows, key, k)
                       case Some(v) => k in UpsertAll(t, key, rows) && UpsertAll(t, key, rows)[k] == v
                       case None => && (k in UpsertAll(t, key, rows) <==> k in t)
                                    && (k in t ==> UpsertAll(t, key, rows)[k] == t[k])
      {
        match LastWithKey(rows[1..], key, k)
        case Some(v) =>
        case None =>
      }
    }
  }

  /** Inserting the same row twice is inserting it once. */
  lemma UpsertIdempotent<V>(t: map<string, V>, key: V -> string, row: V)
    ensures Upsert(Upsert(t, key, row), key, row) == Upsert(t, key, row)
  {
  }

  /** Inserting the same list twice is inserting it once. */
  lemma UpsertAllIdempotent<V>(t: map<string, V>, key: V -> string, rows: seq<V>)
    ensures UpsertAll(UpsertAll(t, key, rows), key, rows) == UpsertAll(t, key, rows)
  {
    var once := UpsertAll(t, key, rows);
    var twice := UpsertAll(once, key, rows);
    UpsertAllLastRowWins(t, key, rows);
    UpsertAllLastRowWins(once, key, rows);
    forall k ensures (k in twice <==> k in once) && (k in once ==> twice[k] == once[k]) {
      match LastWithKey(rows, key, k)
      case Some(v) =>
      case None =>
    }
  }

  /** `@Update` of one row: overwrites the row with the same key if there is one, and never inserts. */
  function UpdateExisting<V>(t: map<string, V>, key: V -> string, row: V): (r: map<string, V>)
    ensures r.Keys == t.Keys
    ensures key(row) in t ==> r[key(row)] == row
    ensures AgreeExcept(t, r, key(row))
  {
    if key(row) in t then t[key(row) := row] else t
  }

  /** The list form of `@Update`: the rows are applied one after the other. */
  function UpdateAll<V>(t: map<string, V>, key: V -> string, rows: seq<V>): map<string, V>
    decreases |rows|
  {
    if rows == [] then t else UpdateAll(UpdateExisting(t, key, rows[0]), key, rows[1..])
  }

  /** Updating with a list keeps the set of keys and leaves, under each, the last row of the list with that key. */
  lemma {:induction false} UpdateAllLastRowWins<V>(t: map<string, V>, key: V -> string, rows: seq<V>)
    ensures UpdateAll(t, key, rows).Keys == t.Keys
    ensures forall k | k in t :: UpdateAll(t, key, rows)[k] == LastWithKey(rows, key, k).OrElse(t[k])
    decreases |rows|
  {
    if rows != [] {
      var t1 := UpdateExisting(t, key, rows[0]);
      UpdateAllLastRowWins(t1, key, rows[1..]);
      forall k | k in t ensures UpdateAll(t, key, rows)[k] == LastWithKey(rows, key, k).OrElse(t[k]) {
        match LastWithKey(rows[1..], key, k)
        case Some(v) =>
        case None =>
      }
    }
  }

  /** Every row of `t` is stored under its own key. */
  predicate Keyed<V>(t: map<string, V>, key: V -> string) {
    forall k | k in t :: key(t[k]) == k
  }

  /** Inserting and updating store each row under its own key. */
  lemma {:induction false} WritesKeepKeyed<V>(t: map<string, V>, key: V -> string, rows: seq<V>)
    requires Keyed(t, key)
    ensures Keyed(UpsertAll(t, key, rows), key)
    ensures Keyed(UpdateAll(t, key, rows), key)
    decreases |rows|
  {
    if rows != [] {
      WritesKeepKeyed(Upsert(t, key, rows[0]), key, rows[1..]);
      WritesKeepKeyed(UpdateExisting(t, key, rows[0]), key, rows[1..]);
    }
  }

  // ---------------------------------------------------------------------------------------
  // Cross-reference tables

  /** The list form of `@Insert(onConflict = REPLACE)` on a table keyed by the whole row. */
  function InsertAll<T>(s: set<T>, rows: seq<T>): set<T>
    decreases |rows|
  {
    if rows == [] then s else InsertAll(s + {rows[0]}, rows[1..])
  }

  /** Inserting a list of pairs adds exactly its elements; repeating a pair, or the whole call, adds nothing. */
  lemma {:induction false} InsertAllIsUnion<T>(s: set<T>, rows: seq<T>)
    ensures InsertAll(s, rows) == s + set i | 0 <= i < |rows| :: rows[i]
    decreases |rows|
  {
    if rows != [] {
      InsertAllIsUnion(s + {rows[0]}, rows[1..]);
      assert (set i | 0 <= i < |rows| :: rows[i]) == {rows[0]} + set i | 0 <= i < |rows[1..]| :: rows[1..][i];
    }
  }

  // ---------------------------------------------------------------------------------------
  // Result sets

  /** No element occurs twice. */
  predicate Distinct<T(==)>(s: seq<T>) {
    forall i, j | 0 <= i < j < |s| :: s[i] != s[j]
  }

  /**
   * The rows of a result set in the order the engine returns them. SQL leaves that order open,
   * so the choice is left to the implementation; only the contents are specified.
   */
  method Enumerate<T(==)>(s: set<T>) returns (r: seq<T>)
    ensures |r| == |s|
    ensures forall x :: x in r <==> x in s
    ensures Distinct(r)
  {
    r := [];
    var rest := s;
    while rest != {}
      invariant rest <= s
      invariant forall x :: x in r <==> x in s && x !in rest
      invariant Distinct(r)
      invariant |r| + |rest| == |s|
      decreases |rest|
    {
      var x :| x in rest;
      r := r + [x];
      rest := rest - {x};
    }
  }
}
