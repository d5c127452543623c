/** Lookup and deletion by primary key, the same in every handler:
    `db.query(X).filter(X.id == id).first()` followed by a 404 when nothing
    is found. */
module Tables {
  import opened Wrappers

  /** Read one row by id. */
  function Get<R>(m: map<Id, R>, id: Id): (r: Result<R>)
    ensures r.Ok? <==> id in m
    ensures r.Ok? ==> r.value == m[id]
    ensures r.Err? ==> r.error == NotFound
  {
    if id in m then Ok(m[id]) else Err(NotFound)
  }

  /** Delete one row by id, returning the table without it and the deleted
      row. */
  function Remove<R>(m: map<Id, R>, id: Id): (r: Result<(map<Id, R>, R)>)
    ensures r.Ok? <==> id in m
    ensures r.Err? ==> r.error == NotFound
    ensures r.Ok? ==> r.value.0.Keys == m.Keys - {id} && r.value.1 == m[id]
    ensures r.Ok? ==> forall k :: k in r.value.0 ==> r.value.0[k] == m[k]
  {
    if id in m then Ok((m - {id}, m[id])) else Err(NotFound)
  }

  /** After a delete, reading the same id is a 404 and every other row reads
      as before. */
  lemma RemoveThenGet<R>(m: map<Id, R>, id: Id, other: Id)
    requires Remove(m, id).Ok?
    ensures Get(Remove(m, id).value.0, id) == Err(NotFound)
    ensures other != id ==> Get(Remove(m, id).value.0, other) == Get(m, other)
  {
    var m' := Remove(m, id).value.0;
    assert id !in m';
    if other != id {
      assert other in m' <==> other in m;
    }
  }
}
