/** The batch reorder of units or videos. The handler walks the request list
    in order; for each item it reads the id and the new `order`, raises 400
    if either is missing, raises 404 if no row has that id, and otherwise
    stages the new `order` on the row. Only after the whole list has been
    walked does it commit, so a raised error discards every staged write:
    the request is all-or-nothing. Scope (same course, same unit) is not
    checked. */
module Reorder {
  import opened Wrappers

  /** One request item: `item.get("unit_id")` (or `"video_id"`) and
      `item.get("order")`, `None` when the key is absent or null. */
  datatype Item = Item(id: Option<int>, order: Option<int>)

  /** The error the loop raises at this item, or `None` when it accepts it.
      The keys are checked before the id is looked up. */
  function Problem(it: Item, known: set<Id>): Option<Error> {
    if it.id.None? || it.order.None? then Some(BadRequest)
    else if it.id.value !in known then Some(NotFound)
    else None
  }

  predicate Accepted(it: Item, known: set<Id>) {
    Problem(it, known).None?
  }

  /** The writes staged by the loop before its commit, as a map from id to
      new order; on a repeated id the later item overwrites the earlier. */
  function Plan(items: seq<Item>, known: set<Id>): Result<map<Id, int>>
    decreases |items|
  {
    if items == [] then Ok(map[])
    else
      var last := items[|items| - 1];
      match Plan(items[..|items| - 1], known)
      case Err(e) => Err(e)
      case Ok(p) =>
        match Problem(last, known)
        case Some(e) => Err(e)
        case None => Ok(p[last.id.value := last.order.value])
  }

  /** Some item names `id`. */
  predicate Listed(items: seq<Item>, id: Id) {
    exists i :: 0 <= i < |items| && items[i].id == Some(id)
  }

  /** Item `i` is the last one naming its id. */
  predicate LastFor(items: seq<Item>, i: int)
    requires 0 <= i < |items|
  {
    forall j :: i < j < |items| ==> items[j].id != items[i].id
  }

  /** `e` is the error of the first item the loop rejects. */
  predicate FirstProblem(items: seq<Item>, known: set<Id>, e: Error) {
    exists i :: 0 <= i < |items| && Problem(items[i], known) == Some(e) &&
      forall j :: 0 <= j < i ==> Accepted(items[j], known)
  }

  /** The batch succeeds exactly when every item carries both keys and an
      existing id. */
  lemma {:induction false} PlanOkIff(items: seq<Item>, known: set<Id>)
    ensures Plan(items, known).Ok? <==> forall i :: 0 <= i < |items| ==> Accepted(items[i], known)
    decreases |items|
  {
    if items != [] {
      var init := items[..|items| - 1];
      PlanOkIff(init, known);
      assert forall i :: 0 <= i < |init| ==> init[i] == items[i];
    }
  }

  /** A failed batch reports the error of the first rejected item. */
  lemma {:induction false} PlanErrorIsFirst(items: seq<Item>, known: set<Id>)
    ensures Plan(items, known).Err? ==> FirstProblem(items, known, Plan(items, known).error)
    decreases |items|
  {
    if items != [] {
      var init := items[..|items| - 1];
      var n := |items| - 1;
      PlanErrorIsFirst(init, known);
      PlanOkIff(init, known);
      assert forall i :: 0 <= i < |init| ==> init[i] == items[i];
      if Plan(init, known).Err? {
        var i :| 0 <= i < |init| && Problem(init[i], known) == Some(Plan(init, known).error) &&
          forall j :: 0 <= j < i ==> Accepted(init[j], known);
        assert Problem(items[i], known) == Some(Plan(items, known).error);
      } else if Plan(items, known).Err? {
        assert Problem(items[n], known) == Some(Plan(items, known).error);
        assert forall j :: 0 <= j < n ==> Accepted(items[j], known);
      }
    }
  }

  /** A successful batch writes exactly the ids some item names. */
  lemma {:induction false} PlanKeys(items: seq<Item>, known: set<Id>)
    requires Plan(items, known).Ok?
    ensures forall id :: id in Plan(items, known).value <==> Listed(items, id)
    decreases |items|
  {
    if items != [] {
      var n := |items| - 1;
      var init := items[..n];
      var last := items[n];
      PlanKeys(init, known);
      var p := Plan(init, known).value;
      var q := Plan(items, known).value;
      assert q == p[last.id.value := last.order.value];
      forall id ensures id in q <==> Listed(items, id) {
        if id == last.id.value {
          assert items[n].id == Some(id);
        } else {
          if Listed(init, id) {
            var i :| 0 <= i < |init| && init[i].id == Some(id);
            assert items[i].id == Some(id);
          }
          if Listed(items, id) {
            var i :| 0 <= i < |items| && items[i].id == Some(id);
            assert init[i].id == Some(id);
          }
        }
      }
    }
  }

  /** In a successful batch, the item that names an id last decides that
      id's new order. */
  lemma {:induction false} PlanLastWins(items: seq<Item>, known: set<Id>)
    requires Plan(items, known).Ok?
    ensures forall i :: 0 <= i < |items| && LastFor(items, i) ==>
              && items[i].id.Some? && items[i].order.Some?
              && items[i].id.value in Plan(items, known).value
              && Plan(items, known).value[items[i].id.value] == items[i].order.value
    decreases |items|
  {
    if items != [] {
      var n := |items| - 1;
      var init := items[..n];
      var last := items[n];
      PlanLastWins(init, known);
      PlanOkIff(items, known);
      var p := Plan(init, known).value;
      var q := Plan(items, known).value;
      assert q == p[last.id.value := last.order.value];
      forall i | 0 <= i < |items| && LastFor(items, i)
        ensures && items[i].id.Some? && items[i].order.Some?
                && items[i].id.value in q && q[items[i].id.value] == items[i].order.value
      {
        assert Accepted(items[i], known);
        if i < n {
          assert items[n].id != items[i].id;
          assert init[i] == items[i];
          assert forall j :: i < j < |init| ==> init[j] == items[j];
          assert LastFor(init, i);
        }
      }
    }
  }

  /** The table after the staged writes are committed. */
  function Apply<R>(m: map<Id, R>, plan: map<Id, int>, setOrder: (R, int) -> R): (m': map<Id, R>)
    ensures m'.Keys == m.Keys
  {
    map id | id in m :: if id in plan then setOrder(m[id], plan[id]) else m[id]
  }
}
