/** Listing of stored rows: `ORDER BY order`, then `OFFSET skip LIMIT limit`.
    The database leaves the relative order of rows with equal `order`
    unspecified; the model breaks such ties by ascending id. */
module Listing {
  import opened Wrappers
  import opened Siblings

  /** `a` is listed no later than `b` under the sort key `key`. */
  predicate Precedes(key: map<Id, int>, a: Id, b: Id)
    requires a in key && b in key
  {
    key[a] < key[b] || (key[a] == key[b] && a <= b)
  }

  predicate IsLeast(key: map<Id, int>, s: set<Id>, x: Id)
    requires s <= key.Keys
  {
    x in s && forall y :: y in s ==> Precedes(key, x, y)
  }

  lemma Member(s: set<Id>) returns (a: Id)
    requires s != {}
    ensures a in s
  {
    if forall x :: x !in s {
      assert false;
    }
    a :| a in s;
  }

  lemma {:induction false} LeastExists(key: map<Id, int>, s: set<Id>)
    requires s != {} && s <= key.Keys
    ensures exists x :: IsLeast(key, s, x)
    decreases s
  {
    var a := Member(s);
    var rest := s - {a};
    if forall y :: y in rest ==> Precedes(key, a, y) {
      assert IsLeast(key, s, a);
    } else {
      var y0 :| y0 in rest && !Precedes(key, a, y0);
      LeastExists(key, rest);
      var b :| IsLeast(key, rest, b);
      assert Precedes(key, b, y0);
      assert Precedes(key, b, a);
      assert IsLeast(key, s, b);
    }
  }

  /** The ids of `s`, each once, sorted by `key` (ties by id). */
  function Sorted(key: map<Id, int>, s: set<Id>): (r: seq<Id>)
    requires s <= key.Keys
    ensures |r| == |s|
    ensures forall x :: x in r <==> x in s
    ensures forall i, j :: 0 <= i < j < |r| ==> r[i] != r[j]
    ensures forall i, j :: 0 <= i < j < |r| ==> Precedes(key, r[i], r[j])
    decreases s
  {
    if s == {} then []
    else
      LeastExists(key, s);
      var x :| IsLeast(key, s, x);
      [x] + Sorted(key, s - {x})
  }

  /** The sort key that ranks rows by id alone, used where a query has no
      ORDER BY clause. */
  function ByIdKey(s: set<Id>): (key: map<Id, int>)
    ensures key.Keys == s
  {
    map x | x in s :: 0
  }

  /** The ids of `s` in ascending order. */
  function Ascending(s: set<Id>): (r: seq<Id>)
    ensures |r| == |s|
    ensures forall x :: x in r <==> x in s
    ensures forall i, j :: 0 <= i < j < |r| ==> r[i] < r[j]
  {
    var key := ByIdKey(s);
    var r := Sorted(key, s);
    assert forall i, j :: 0 <= i < j < |r| ==> Precedes(key, r[i], r[j]) && r[i] != r[j];
    r
  }

  function Min(a: int, b: int): int { if a <= b then a else b }

  /** `OFFSET skip LIMIT limit`: the rows from position `skip`, at most
      `limit` of them. */
  function Page<T>(s: seq<T>, skip: nat, limit: nat): (r: seq<T>)
    ensures |r| <= limit
    ensures forall i :: 0 <= i < |r| ==> skip + i < |s| && r[i] == s[skip + i]
    ensures |r| == limit || skip + |r| >= |s|
    ensures |r| == if skip >= |s| then 0 else Min(limit, |s| - skip)
  {
    var lo := Min(skip, |s|);
    var hi := Min(skip + limit, |s|);
    s[lo..hi]
  }

  /** Two consecutive pages read together give the page that spans both. */
  lemma PagesConcatenate<T>(s: seq<T>, skip: nat, a: nat, b: nat)
    ensures Page(s, skip, a) + Page(s, skip + a, b) == Page(s, skip, a + b)
  {
    var p := Page(s, skip, a);
    var q := Page(s, skip + a, b);
    var w := Page(s, skip, a + b);
    assert |p| + |q| == |w|;
    forall i | 0 <= i < |w| ensures (p + q)[i] == w[i] {
      if i >= |p| {
        assert (p + q)[i] == q[i - |p|];
      }
    }
  }

  lemma SubsetCard(a: set<Id>, b: set<Id>)
    requires a <= b
    ensures |a| <= |b|
  {
    var d := b - a;
    assert forall x :: x in b <==> x in a + d;
    assert b == a + d;
    assert forall x :: x !in a * d;
    assert a * d == {};
  }

  function OrderKey<R>(m: map<Id, R>, orderOf: R -> int): (key: map<Id, int>)
    ensures key.Keys == m.Keys
    ensures forall id :: id in m ==> key[id] == orderOf(m[id])
  {
    map id | id in m :: orderOf(m[id])
  }

  /** The rows a list endpoint selects: the filter on the parent id is
      applied only when the query parameter is truthy (present and non-zero
      in Python). */
  function Selected<R>(m: map<Id, R>, parentOf: R -> int, parent: Option<int>): (s: set<Id>)
    ensures s <= m.Keys
    ensures parent.Some? && parent.value != 0 ==> s == Children(m, parentOf, parent.value)
    ensures parent.None? || parent.value == 0 ==> s == m.Keys
  {
    if parent.Some? && parent.value != 0 then Children(m, parentOf, parent.value) else m.Keys
  }

  /** The children of `p`, all of them, sorted by `order`. */
  function SortedChildren<R>(m: map<Id, R>, parentOf: R -> int, orderOf: R -> int, p: int): (r: seq<Id>)
    ensures forall id :: id in r <==> id in m && parentOf(m[id]) == p
    ensures forall i :: 0 <= i < |r| ==> r[i] in m
    ensures forall i, j :: 0 <= i < j < |r| ==> r[i] != r[j]
    ensures forall i, j :: 0 <= i < j < |r| ==> orderOf(m[r[i]]) <= orderOf(m[r[j]])
  {
    var key := OrderKey(m, orderOf);
    var r := Sorted(key, Children(m, parentOf, p));
    assert forall i, j :: 0 <= i < j < |r| ==> Precedes(key, r[i], r[j]);
    r
  }

  /** How many rows of `sel` the sort key `key` lists before `x`. */
  ghost function Rank(key: map<Id, int>, sel: set<Id>, x: Id): nat
    requires sel <= key.Keys && x in key
  {
    |set y | y in sel && y != x && Precedes(key, y, x)|
  }

  /** How many of the rows a list endpoint selects come before row `x`. */
  ghost function Before<R>(m: map<Id, R>, parentOf: R -> int, orderOf: R -> int, parent: Option<int>, x: Id): nat
    requires x in m
  {
    Rank(OrderKey(m, orderOf), Selected(m, parentOf, parent), x)
  }

  /** A sequence without repeats has as many distinct elements as
      positions. */
  lemma {:induction false} DistinctCard(s: seq<Id>)
    requires forall i, j :: 0 <= i < j < |s| ==> s[i] != s[j]
    ensures |set y | y in s| == |s|
  {
    if s != [] {
      var t := s[..|s| - 1];
      var last := s[|s| - 1];
      DistinctCard(t);
      assert (set y | y in s) == (set y | y in t) + {last} by {
        assert forall y :: y in s <==> y in t || y == last;
      }
      assert last !in t;
    }
  }

  /** `all` lists distinct rows, each before the next under `key`. */
  predicate StrictlyOrdered(key: map<Id, int>, all: seq<Id>)
    requires forall i :: 0 <= i < |all| ==> all[i] in key
  {
    forall i, j :: 0 <= i < j < |all| ==> all[i] != all[j] && Precedes(key, all[i], all[j])
  }

  /** The rows a strictly ordered listing puts before position `k` are the
      rows of `sel` that the key ranks before `all[k]`. */
  lemma PrefixIsBefore(key: map<Id, int>, sel: set<Id>, all: seq<Id>, k: nat)
    requires sel <= key.Keys && (forall x :: x in all <==> x in sel)
    requires (forall i :: 0 <= i < |all| ==> all[i] in key) && StrictlyOrdered(key, all)
    requires k < |all|
    ensures (set y | y in sel && y != all[k] && Precedes(key, y, all[k])) == set y | y in all[..k]
  {
    var x := all[k];
    var prefix := all[..k];
    forall y | y in sel && y != x && Precedes(key, y, x) ensures y in prefix {
      var j :| 0 <= j < |all| && all[j] == y;
      assert j < k;
      assert prefix[j] == y;
    }
    forall y | y in prefix ensures y in sel && y != x && Precedes(key, y, x) {
      var j :| 0 <= j < k && prefix[j] == y;
      assert all[j] == y;
    }
  }

  /** In a strictly ordered listing of `sel`, position `k` holds the row
      with exactly `k` rows before it. */
  lemma RankOfPosition(key: map<Id, int>, sel: set<Id>, all: seq<Id>, k: nat)
    requires sel <= key.Keys && (forall x :: x in all <==> x in sel)
    requires (forall i :: 0 <= i < |all| ==> all[i] in key) && StrictlyOrdered(key, all)
    requires k < |all|
    ensures Rank(key, sel, all[k]) == k
  {
    PrefixIsBefore(key, sel, all, k);
    DistinctCard(all[..k]);
  }

  lemma SortedIsOrdered(key: map<Id, int>, sel: set<Id>)
    requires sel <= key.Keys
    ensures var all := Sorted(key, sel);
      && (forall x :: x in all <==> x in sel)
      && (forall i :: 0 <= i < |all| ==> all[i] in key)
      && StrictlyOrdered(key, all)
  {
  }

  /** Position `i` of a page holds the row with `skip + i` rows before it. */
  lemma PageRanks(key: map<Id, int>, sel: set<Id>, all: seq<Id>, skip: nat, limit: nat)
    requires sel <= key.Keys && (forall x :: x in all <==> x in sel)
    requires (forall i :: 0 <= i < |all| ==> all[i] in key) && StrictlyOrdered(key, all)
    ensures var r := Page(all, skip, limit);
      forall i :: 0 <= i < |r| ==> r[i] in key && Rank(key, sel, r[i]) == skip + i
  {
    var r := Page(all, skip, limit);
    forall i | 0 <= i < |r| ensures r[i] in key && Rank(key, sel, r[i]) == skip + i {
      assert r[i] == all[skip + i];
      RankOfPosition(key, sel, all, skip + i);
    }
  }

  /** One page of a list endpoint: filter, `ORDER BY order`, offset, limit. */
  function ListPage<R>(m: map<Id, R>, parentOf: R -> int, orderOf: R -> int,
                       parent: Option<int>, skip: nat, limit: nat): (r: seq<Id>)
    ensures |r| <= limit
    ensures forall i :: 0 <= i < |r| ==> r[i] in Selected(m, parentOf, parent)
    ensures forall i, j :: 0 <= i < j < |r| ==> r[i] != r[j]
    ensures forall i :: 0 <= i < |r| ==> r[i] in m
    ensures forall i, j :: 0 <= i < j < |r| ==> orderOf(m[r[i]]) <= orderOf(m[r[j]])
    ensures skip == 0 && limit >= |Selected(m, parentOf, parent)| ==>
              forall id :: id in Selected(m, parentOf, parent) ==> id in r
    ensures var n := |Selected(m, parentOf, parent)|;
              |r| == if skip >= n then 0 else Min(limit, n - skip)
    ensures forall i :: 0 <= i < |r| ==> Before(m, parentOf, orderOf, parent, r[i]) == skip + i
  {
    var key := OrderKey(m, orderOf);
    var sel := Selected(m, parentOf, parent);
    var all := Sorted(key, sel);
    PageOfSorted(key, sel, all, skip, limit);
    SortedIsOrdered(key, sel);
    PageRanks(key, sel, all, skip, limit);
    Page(all, skip, limit)
  }

  /** Two consecutive pages of a list endpoint read together give the page
      that spans both. */
  lemma ListPagesConcatenate<R>(m: map<Id, R>, parentOf: R -> int, orderOf: R -> int,
                                parent: Option<int>, skip: nat, a: nat, b: nat)
    ensures ListPage(m, parentOf, orderOf, parent, skip, a) + ListPage(m, parentOf, orderOf, parent, skip + a, b) ==
            ListPage(m, parentOf, orderOf, parent, skip, a + b)
  {
    PagesConcatenate(Sorted(OrderKey(m, orderOf), Selected(m, parentOf, parent)), skip, a, b);
  }

  lemma PageOfSorted(key: map<Id, int>, sel: set<Id>, all: seq<Id>, skip: nat, limit: nat)
    requires sel <= key.Keys && all == Sorted(key, sel)
    ensures var r := Page(all, skip, limit);
      && (forall i :: 0 <= i < |r| ==> r[i] in sel)
      && (forall i, j :: 0 <= i < j < |r| ==> r[i] != r[j] && key[r[i]] <= key[r[j]])
      && (skip == 0 && limit >= |sel| ==> forall id :: id in sel ==> id in r)
      && |r| == (if skip >= |sel| then 0 else Min(limit, |sel| - skip))
  {
    var r := Page(all, skip, limit);
    forall i, j | 0 <= i < j < |r| ensures r[i] != r[j] && key[r[i]] <= key[r[j]] {
      assert r[i] == all[skip + i] && r[j] == all[skip + j];
      assert Precedes(key, all[skip + i], all[skip + j]);
    }
    if skip == 0 && limit >= |sel| {
      assert r == all;
    }
  }
}
