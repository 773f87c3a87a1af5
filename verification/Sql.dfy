/**
 The three-valued logic of the predicates that the listings send to the database, and
 the sorted id lists they bind.
 */
module Sql {
  import opened Bytes

  datatype Tri = True | False | Unknown

  function And(a: Tri, b: Tri): Tri {
    if a.False? || b.False? then False else if a.True? && b.True? then True else Unknown
  }

  function Or(a: Tri, b: Tri): Tri {
    if a.True? || b.True? then True else if a.False? && b.False? then False else Unknown
  }

  function Truth(b: bool): Tri {
    if b then True else False
  }

  /** `a = b`, where NULL is equal to nothing and different from nothing. */
  function Equals(a: Option<nat>, b: Option<nat>): Tri {
    if a.None? || b.None? then Unknown else Truth(a == b)
  }

  /** `a IS DISTINCT FROM b`, which treats NULL as a value. */
  function IsDistinctFrom(a: Option<nat>, b: Option<nat>): Tri {
    Truth(a != b)
  }

  function IsNull(a: Option<nat>): Tri {
    Truth(a.None?)
  }

  /** `id = ANY(ids)`: the disjunction of the comparisons. */
  function EqualsAny(id: nat, ids: seq<nat>): Tri {
    if ids == [] then False else Or(Equals(Some(id), Some(ids[0])), EqualsAny(id, ids[1..]))
  }

  /** `id <> ALL(ids)`: the conjunction of the comparisons. */
  function DiffersFromAll(id: nat, ids: seq<nat>): Tri {
    if ids == [] then True else And(Truth(id != ids[0]), DiffersFromAll(id, ids[1..]))
  }

  /** A WHERE clause keeps the row only if the predicate is true. */
  predicate Keeps(t: Tri) {
    t.True?
  }

  lemma {:induction false} ArrayComparisons(id: nat, ids: seq<nat>)
    ensures EqualsAny(id, ids) == Truth(id in ids)
    ensures DiffersFromAll(id, ids) == Truth(id !in ids)
  {
    if ids != [] {
      ArrayComparisons(id, ids[1..]);
    }
  }

  ghost predicate StrictlyAscending(ids: seq<nat>) {
    forall i, j | 0 <= i < j < |ids| :: ids[i] < ids[j]
  }

  /** Sorted, without duplicates. */
  function SortedDistinct(ids: seq<nat>): (r: seq<nat>)
    ensures StrictlyAscending(r)
    ensures forall id :: id in r <==> id in ids
  {
    if ids == [] then []
    else Inserted(SortedDistinct(ids[..|ids| - 1]), ids[|ids| - 1])
  }

  lemma ConsIsAscending(first: nat, rest: seq<nat>)
    requires StrictlyAscending(rest) && forall x | x in rest :: first < x
    ensures StrictlyAscending([first] + rest)
  {
    forall i, j | 0 <= i < j < |rest| + 1 ensures ([first] + rest)[i] < ([first] + rest)[j] {
      assert rest[j - 1] in rest;
    }
  }

  function Inserted(ids: seq<nat>, id: nat): (r: seq<nat>)
    requires StrictlyAscending(ids)
    ensures StrictlyAscending(r)
    ensures forall x :: x in r <==> x in ids || x == id
  {
    if ids == [] then [id]
    else if id < ids[0] then
      ConsIsAscending(id, ids);
      [id] + ids
    else if id == ids[0] then ids
    else
      var rest := Inserted(ids[1..], id);
      ConsIsAscending(ids[0], rest);
      [ids[0]] + rest
  }

  /** The rows a predicate keeps, in table order. */
  function Filter<T>(keep: T -> bool, rows: seq<T>): seq<T> {
    if rows == [] then []
    else
      var before := Filter(keep, rows[..|rows| - 1]);
      if keep(rows[|rows| - 1]) then before + [rows[|rows| - 1]] else before
  }

  /** The rows that are kept stay in their order, each as often as it is there. */
  lemma {:induction false} FilterGoesThrough<T>(keep: T -> bool, a: seq<T>, b: seq<T>)
    ensures Filter(keep, a + b) == Filter(keep, a) + Filter(keep, b)
    ensures forall x :: Filter(keep, [x]) == if keep(x) then [x] else []
  {
    forall x ensures Filter(keep, [x]) == if keep(x) then [x] else [] {
      assert [x][..0] == [] && Filter(keep, []) == [];
    }
    if b == [] {
      assert a + b == a;
    } else {
      FilterGoesThrough(keep, a, b[..|b| - 1]);
      assert (a + b)[..|a + b| - 1] == a + b[..|b| - 1];
    }
  }
}
