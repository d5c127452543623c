/** The rules every level of the content hierarchy (course in category, unit
    in course, video in unit) applies to the rows sharing one parent: titles
    are unique among siblings, and a new row is appended with
    `order = number of siblings + 1`. The rules are stated once over a table
    `m` and two projections of its rows, `parentOf` and `titleOf`. */
module Siblings {
  import opened Wrappers

  /** The rows of `m` whose parent is `p`. */
  function Children<R>(m: map<Id, R>, parentOf: R -> int, p: int): (c: set<Id>)
    ensures c <= m.Keys
    ensures forall id :: id in c <==> id in m && parentOf(m[id]) == p
  {
    set id | id in m && parentOf(m[id]) == p
  }

  /** Some row under `p` other than `except` already carries `title`: the
      database query `filter(title == t, parent == p, id != except)` finds a
      row. */
  predicate TitleTaken<R>(m: map<Id, R>, parentOf: R -> int, titleOf: R -> string,
                          p: int, title: string, except: Option<Id>)
  {
    exists id :: id in m && parentOf(m[id]) == p && titleOf(m[id]) == title && except != Some(id)
  }

  /** The rename check of an update handler: it runs only when a title was
      sent, is truthy (non-empty) and differs from the stored one, and it
      looks for another row under the row's CURRENT parent. */
  predicate RenameClash<R>(m: map<Id, R>, parentOf: R -> int, titleOf: R -> string,
                           id: Id, title: Patch<string>)
    requires id in m
  {
    && title.Put? && title.value != [] && title.value != titleOf(m[id])
    && TitleTaken(m, parentOf, titleOf, parentOf(m[id]), title.value, Some(id))
  }

  /** The `order` a newly created row under `p` receives. */
  function NextOrder<R>(m: map<Id, R>, parentOf: R -> int, p: int): (o: int)
    ensures o >= 1
  {
    |Children(m, parentOf, p)| + 1
  }

  /** No two rows with the same parent share a title. */
  predicate UniqueTitles<R>(m: map<Id, R>, parentOf: R -> int, titleOf: R -> string) {
    forall a, b :: a in m && b in m && a != b && parentOf(m[a]) == parentOf(m[b]) ==>
      titleOf(m[a]) != titleOf(m[b])
  }

  /** Adding a row whose title is free under its parent keeps titles unique. */
  lemma InsertKeepsUnique<R>(m: map<Id, R>, parentOf: R -> int, titleOf: R -> string, id: Id, r: R)
    requires UniqueTitles(m, parentOf, titleOf)
    requires id !in m
    requires !TitleTaken(m, parentOf, titleOf, parentOf(r), titleOf(r), None)
    ensures UniqueTitles(m[id := r], parentOf, titleOf)
  {
    var m' := m[id := r];
    forall a, b | a in m' && b in m' && a != b && parentOf(m'[a]) == parentOf(m'[b])
      ensures titleOf(m'[a]) != titleOf(m'[b])
    {
      if a == id {
        assert b in m && m'[b] == m[b];
      } else if b == id {
        assert a in m && m'[a] == m[a];
      } else {
        assert m'[a] == m[a] && m'[b] == m[b];
      }
    }
  }

  /** Replacing a row by one with the same parent and a title no other
      sibling carries keeps titles unique. */
  lemma ReplaceKeepsUnique<R>(m: map<Id, R>, parentOf: R -> int, titleOf: R -> string, id: Id, r: R)
    requires UniqueTitles(m, parentOf, titleOf)
    requires id in m && parentOf(r) == parentOf(m[id])
    requires !TitleTaken(m, parentOf, titleOf, parentOf(r), titleOf(r), Some(id))
    ensures UniqueTitles(m[id := r], parentOf, titleOf)
  {
    var m' := m[id := r];
    forall a, b | a in m' && b in m' && a != b && parentOf(m'[a]) == parentOf(m'[b])
      ensures titleOf(m'[a]) != titleOf(m'[b])
    {
      if a == id {
        assert b in m && m'[b] == m[b];
      } else if b == id {
        assert a in m && m'[a] == m[a];
      } else {
        assert m'[a] == m[a] && m'[b] == m[b];
      }
    }
  }

  /** Appending a row adds exactly one child to its own parent and leaves
      every other parent's children as they were. Together with `NextOrder`
      this says a freshly created row's `order` equals the number of
      siblings it has once it is stored. */
  lemma InsertAddsOneChild<R>(m: map<Id, R>, parentOf: R -> int, id: Id, r: R)
    requires id !in m
    ensures Children(m[id := r], parentOf, parentOf(r)) == Children(m, parentOf, parentOf(r)) + {id}
    ensures |Children(m[id := r], parentOf, parentOf(r))| == |Children(m, parentOf, parentOf(r))| + 1
    ensures forall p :: p != parentOf(r) ==> Children(m[id := r], parentOf, p) == Children(m, parentOf, p)
  {
    var m' := m[id := r];
    var before := Children(m, parentOf, parentOf(r));
    var after := Children(m', parentOf, parentOf(r));
    assert forall x :: x in after <==> x in before + {id};
    assert after == before + {id};
    assert id !in before;
    forall p | p != parentOf(r)
      ensures Children(m', parentOf, p) == Children(m, parentOf, p)
    {
      assert forall x :: x in Children(m', parentOf, p) <==> x in Children(m, parentOf, p);
    }
  }
}
