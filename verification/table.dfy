/**
 * Single-row statements on a table keyed by its primary key: the meaning of
 * SELECT, INSERT, UPDATE and DELETE ... WHERE id = $1 on a map from id to row.
 */
module Table {
  import opened Wrappers
  import opened Schema

  /** SELECT * FROM t WHERE id = $1, answered as the row or as not found. */
  function Lookup<V>(t: map<int, V>, id: int): (r: Result<V, Error>)
    ensures r.Success? <==> id in t
    ensures r.Success? ==> r.value == t[id]
    ensures r.Failure? ==> r.error == NotFound
  {
    if id in t then Success(t[id]) else Failure(NotFound)
  }

  /** INSERT with an explicit key: refused when the key is already taken. */
  function Insert<V>(t: map<int, V>, id: int, v: V): (r: Result<map<int, V>, Error>)
    ensures r.Success? <==> id !in t
    ensures r.Success? ==> r.value.Keys == t.Keys + {id} && r.value[id] == v
    ensures r.Success? ==> forall k :: k in t ==> r.value[k] == t[k]
    ensures r.Failure? ==> r.error == DuplicateKey
  {
    if id in t then Failure(DuplicateKey) else Success(t[id := v])
  }

  /** t' is t with one new row v under the previously unused key id, every other row as it was. */
  ghost predicate AddsRow<V>(t: map<int, V>, t': map<int, V>, id: int, v: V) {
    && id !in t
    && t'.Keys == t.Keys + {id}
    && id in t' && t'[id] == v
    && forall k :: k in t ==> t'[k] == t[k]
  }

  /** Storing under an unused key adds exactly that row. */
  lemma StoreAddsRow<V>(t: map<int, V>, id: int, v: V)
    requires id !in t
    ensures AddsRow(t, t[id := v], id, v)
  {
  }

  /** UPDATE t SET ... WHERE id = $2: the new table and the number of rows changed. */
  function UpdateRow<V>(t: map<int, V>, id: int, v: V): (r: (map<int, V>, nat))
    ensures r.1 == (if id in t then 1 else 0)
    ensures r.0.Keys == t.Keys
    ensures id in t ==> r.0[id] == v
    ensures forall k :: k in t && k != id ==> r.0[k] == t[k]
  {
    if id in t then (t[id := v], 1) else (t, 0)
  }

  /** DELETE FROM t WHERE id = $1: the new table and the number of rows removed. */
  function DeleteRow<V>(t: map<int, V>, id: int): (r: (map<int, V>, nat))
    ensures r.1 == (if id in t then 1 else 0)
    ensures r.0.Keys == t.Keys - {id}
    ensures forall k :: k in r.0 ==> r.0[k] == t[k]
  {
    (t - {id}, if id in t then 1 else 0)
  }

  /** Renaming twice with the same value is the same as renaming once, and both report the same count. */
  lemma UpdateRowIdempotent<V>(t: map<int, V>, id: int, v: V)
    ensures UpdateRow(UpdateRow(t, id, v).0, id, v) == UpdateRow(t, id, v)
  {
    if id in t {
      assert t[id := v][id := v] == t[id := v];
    }
  }

  /** After a delete the row is gone: a lookup fails and a second delete removes nothing. */
  lemma DeleteThenGone<V>(t: map<int, V>, id: int)
    ensures Lookup(DeleteRow(t, id).0, id) == Failure(NotFound)
    ensures DeleteRow(DeleteRow(t, id).0, id) == (DeleteRow(t, id).0, 0)
  {
    assert (t - {id}) - {id} == t - {id};
  }
}
