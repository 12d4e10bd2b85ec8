/** A database table whose integer primary key is an identity column
    (seed 1, increment 1): rows by key, and the next key the database hands out. */
module Tables {
  import opened Listing

  datatype Table<V> = Table(rows: map<int, V>, nextId: int)

  /** Every row is stored under its own key, and every key was handed out already. */
  predicate TableWf<V>(t: Table<V>, idOf: V -> int) {
    && t.nextId >= 1
    && forall k :: k in t.rows ==> 1 <= k < t.nextId && idOf(t.rows[k]) == k
  }

  /** `Add` + `SaveChanges`: the row gets the next identity value as its key. */
  function Insert<V>(t: Table<V>, row: V): (t': Table<V>)
    ensures t'.rows.Keys == t.rows.Keys + {t.nextId}
    ensures t'.rows[t.nextId] == row
    ensures forall k :: k in t.rows && k != t.nextId ==> t'.rows[k] == t.rows[k]
    ensures t'.nextId == t.nextId + 1
  {
    Table(t.rows[t.nextId := row], t.nextId + 1)
  }

  /** Overwrites the row stored under an existing key. */
  function Replace<V>(t: Table<V>, k: int, row: V): (t': Table<V>)
    requires k in t.rows
    ensures t'.rows.Keys == t.rows.Keys
    ensures t'.rows[k] == row
    ensures forall j :: j in t.rows && j != k ==> t'.rows[j] == t.rows[j]
    ensures t'.nextId == t.nextId
  {
    Table(t.rows[k := row], t.nextId)
  }

  /** `ToList()` over a whole table: every row exactly once, in key order. */
  method Rows<V(==)>(t: Table<V>, idOf: V -> int) returns (r: seq<V>)
    requires TableWf(t, idOf)
    ensures Distinct(r)
    ensures forall k :: k in t.rows ==> t.rows[k] in r
    ensures forall j :: 0 <= j < |r| ==> idOf(r[j]) in t.rows && t.rows[idOf(r[j])] == r[j]
  {
    r := [];
    var i := 1;
    while i < t.nextId
      invariant 1 <= i <= t.nextId
      invariant Distinct(r)
      invariant forall j :: 0 <= j < |r| ==> idOf(r[j]) in t.rows && idOf(r[j]) < i && t.rows[idOf(r[j])] == r[j]
      invariant forall k :: k in t.rows && k < i ==> t.rows[k] in r
    {
      if i in t.rows {
        r := r + [t.rows[i]];
      }
      i := i + 1;
    }
  }
}
