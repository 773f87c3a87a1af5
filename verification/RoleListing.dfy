/**
 Listing roles page by page. The cursor is used for its id alone: the next request reads
 the sort value of that role again, which may have been renamed or deleted meanwhile.
 */
module RoleListing {
  import opened Bytes
  import opened Cursors
  import opened Sql
  import opened Pagination

  /** Roles by id with the value they are sorted by; a text counts by its place in the order of texts. */
  type Roles = map<Id, Int64>

  function KeysOf(roles: Roles): set<Cursor> {
    set id | id in roles :: Cursor(roles[id], id)
  }

  /** The scalar sub-select. */
  function SortValueOf(roles: Roles, id: Id): Option<Int64> {
    if id in roles then Some(roles[id]) else None
  }

  /** `(r.sort, r.id)` after `(value, boundary)`: with NULL for the value it is neither true nor false. */
  function ComparedTo(direction: SortDirection, key: Cursor, value: Option<Int64>, boundary: Id): Tri {
    if value.None? then Unknown else Truth(Before(direction, Cursor(value.value, boundary), key))
  }

  function RoleWhere(direction: SortDirection, roles: Roles, boundary: Option<Id>, key: Cursor): Tri {
    Or(Truth(boundary.None?),
       if boundary.None? then Unknown else ComparedTo(direction, key, SortValueOf(roles, boundary.value), boundary.value))
  }

  /** Whether the filter for the page after `last` keeps `key` exactly if it lies past `last`. */
  ghost predicate AgreesAt(direction: SortDirection, roles: Roles, last: Cursor, key: Cursor) {
    Keeps(RoleWhere(direction, roles, Some(last.id), key)) <==> IsPast(direction, Some(last), key)
  }

  /** Where the boundary is now decides every comparison. */
  lemma FilterGoesByNewPlace(direction: SortDirection, roles: Roles, last: Cursor, key: Cursor)
    ensures Keeps(RoleWhere(direction, roles, Some(last.id), key)) <==>
              last.id in roles && Before(direction, Cursor(roles[last.id], last.id), key)
  {
  }

  /**
   The filter goes on after `last` for whatever keys there may be exactly if that role is
   still there with its old sort value, or it is gone and nothing can lie past it.
   */
  lemma BoundaryMustStay(direction: SortDirection, roles: Roles, last: Cursor)
    ensures (forall key :: AgreesAt(direction, roles, last, key)) <==>
              || (last.id in roles && roles[last.id] == last.timestampMicros)
              || (last.id !in roles && forall key :: !Before(direction, last, key))
  {
    if last.id in roles && roles[last.id] != last.timestampMicros {
      var now := Cursor(roles[last.id], last.id);
      assert !AgreesAt(direction, roles, last, if Before(direction, last, now) then now else last);
    } else if last.id !in roles && exists key :: Before(direction, last, key) {
      var key :| Before(direction, last, key);
      assert !AgreesAt(direction, roles, last, key);
    }
  }

  /**
   For the roles in the table: a deleted boundary loses every role past it; one that moved
   forward hides at least itself; one that moved back repeats the roles it has passed.
   */
  lemma FilterFitsTable(direction: SortDirection, roles: Roles, last: Cursor)
    ensures (forall key | key in KeysOf(roles) :: AgreesAt(direction, roles, last, key)) <==>
              if last.id !in roles then forall key | key in KeysOf(roles) :: !Before(direction, last, key)
              else
                var now := Cursor(roles[last.id], last.id);
                !Before(direction, last, now) &&
                forall key | key in KeysOf(roles) && Before(direction, now, key) :: Before(direction, last, key)
  {
    if last.id in roles {
      var now := Cursor(roles[last.id], last.id);
      assert now in KeysOf(roles);
      assert Before(direction, last, now) ==> !AgreesAt(direction, roles, last, now);
      forall key | key in KeysOf(roles) && !Before(direction, last, now)
        ensures AgreesAt(direction, roles, last, key) <==> (Before(direction, now, key) ==> Before(direction, last, key))
      {
        assert now != last ==> Before(direction, now, last);
        assert Before(direction, last, key) ==> Before(direction, now, key);
      }
    }
  }

  // ---------------------------------------------------------------------------
  // Walks
  // ---------------------------------------------------------------------------

  datatype RoleFetch = RoleFetch(roles: Roles, rows: seq<Cursor>)

  function Kept(direction: SortDirection, roles: Roles, boundary: Option<Id>): set<Cursor> {
    set key | key in KeysOf(roles) && Keeps(RoleWhere(direction, roles, boundary, key))
  }

  function AsFetches(walk: seq<RoleFetch>): (fetches: seq<Fetch>)
    ensures |fetches| == |walk|
  {
    seq(|walk|, i requires 0 <= i < |walk| => Fetch(KeysOf(walk[i].roles), walk[i].rows))
  }

  /** The id in the cursor that request `i` presents. */
  function BoundaryAt(walk: seq<RoleFetch>, limit: nat, i: nat): Option<Id>
    requires i <= |walk|
  {
    match CursorAt(AsFetches(walk), limit, None, i)
    case None => None
    case Some(cursor) => Some(cursor.id)
  }

  ghost predicate AnsweredAt(walk: seq<RoleFetch>, direction: SortDirection, limit: nat, i: nat)
    requires i < |walk|
  {
    IsAnswer(Kept(direction, walk[i].roles, BoundaryAt(walk, limit, i)), direction, None, limit + 1, walk[i].rows)
  }

  ghost predicate IsRoleWalk(walk: seq<RoleFetch>, direction: SortDirection, limit: nat) {
    && limit >= 1
    && (forall i | 0 <= i < |walk| :: AnsweredAt(walk, direction, limit, i))
    && (forall i | 0 <= i < |walk| - 1 :: MoreAt(AsFetches(walk), limit, i))
  }

  /** The role that request `i` goes on from is where it was when its page was made. */
  ghost predicate BoundaryStays(walk: seq<RoleFetch>, limit: nat, i: nat)
    requires i < |walk|
  {
    match CursorAt(AsFetches(walk), limit, None, i)
    case None => true
    case Some(cursor) => cursor in KeysOf(walk[i].roles)
  }

  lemma KeptIsPast(direction: SortDirection, roles: Roles, cursor: Option<Cursor>, n: nat, rows: seq<Cursor>)
    requires cursor.Some? ==> cursor.value in KeysOf(roles)
    requires IsAnswer(Kept(direction, roles, if cursor.None? then None else Some(cursor.value.id)), direction, None, n, rows)
    ensures IsAnswer(KeysOf(roles), direction, cursor, n, rows)
  {
    var boundary := if cursor.None? then None else Some(cursor.value.id);
    forall key | key in KeysOf(roles)
      ensures Keeps(RoleWhere(direction, roles, boundary, key)) <==> IsPast(direction, cursor, key)
    {
      if cursor.Some? {
        FilterGoesByNewPlace(direction, roles, cursor.value, key);
      }
    }
    assert forall key :: key in Kept(direction, roles, boundary) <==> key in KeysOf(roles) && IsPast(direction, cursor, key);
  }

  /** As long as every boundary stays where it was, a walk over the roles is an ordinary one, with all that holds of those. */
  lemma StableRoleWalkIsWalk(walk: seq<RoleFetch>, direction: SortDirection, limit: nat)
    requires IsRoleWalk(walk, direction, limit)
    requires forall i | 0 <= i < |walk| :: BoundaryStays(walk, limit, i)
    ensures IsWalk(AsFetches(walk), direction, limit, None)
  {
    var fetches := AsFetches(walk);
    forall i | 0 <= i < |fetches| ensures Pagination.AnsweredAt(fetches, direction, limit, None, i) {
      assert AnsweredAt(walk, direction, limit, i) && BoundaryStays(walk, limit, i);
      KeptIsPast(direction, walk[i].roles, CursorAt(fetches, limit, None, i), limit + 1, walk[i].rows);
    }
  }

  /** After the boundary was deleted the next page is empty, whatever roles there are, and the walk is over. */
  lemma DeletedBoundaryEndsWalk(walk: seq<RoleFetch>, direction: SortDirection, limit: nat, i: nat)
    requires IsRoleWalk(walk, direction, limit) && 0 < i < |walk|
    requires CursorAt(AsFetches(walk), limit, None, i).Some?
    requires CursorAt(AsFetches(walk), limit, None, i).value.id !in walk[i].roles
    ensures walk[i].rows == [] && i == |walk| - 1
  {
    assert AnsweredAt(walk, direction, limit, i);
    assert Kept(direction, walk[i].roles, BoundaryAt(walk, limit, i)) == {};
    assert i < |walk| - 1 ==> MoreAt(AsFetches(walk), limit, i);
    OrderedFits(direction, walk[i].rows, {});
  }

  // ---------------------------------------------------------------------------
  // Roles that are lost
  // ---------------------------------------------------------------------------

  /** Three roles, one on a page. */
  const ROLES: Roles := map[1 := 10, 2 := 20, 3 := 30]

  const FIRST_PAGE := RoleFetch(ROLES, [Cursor(10, 1), Cursor(20, 2)])

  lemma FirstPage()
    ensures IsAnswer(Kept(Asc, ROLES, None), Asc, None, 2, FIRST_PAGE.rows)
  {
    assert ROLES[1] == 10 && ROLES[2] == 20 && ROLES[3] == 30;
    assert KeysOf(ROLES) == {Cursor(10, 1), Cursor(20, 2), Cursor(30, 3)};
    assert Kept(Asc, ROLES, None) == KeysOf(ROLES);
  }

  /** The second request of a walk whose first page ended with role 1. */
  lemma SecondPage(roles: Roles, rows: seq<Cursor>)
    requires IsAnswer(Kept(Asc, roles, Some(1)), Asc, None, 2, rows)
    ensures IsRoleWalk([FIRST_PAGE, RoleFetch(roles, rows)], Asc, 1)
    ensures Returned(AsFetches([FIRST_PAGE, RoleFetch(roles, rows)]), 1, 2) == [Cursor(10, 1)] + Items(rows, 1)
  {
    FirstPage();
    var walk := [FIRST_PAGE, RoleFetch(roles, rows)];
    var fetches := AsFetches(walk);
    assert fetches[0].rows == FIRST_PAGE.rows && fetches[1].rows == rows;
    assert ItemsAt(fetches, 1, 0) == [Cursor(10, 1)];
    assert BoundaryAt(walk, 1, 0) == None && BoundaryAt(walk, 1, 1) == Some(1);
    assert AnsweredAt(walk, Asc, 1, 0) && AnsweredAt(walk, Asc, 1, 1);
    assert Returned(fetches, 1, 1) == [Cursor(10, 1)];
  }

  /** Role 1 is deleted between the pages: the walk is finished, and roles 2 and 3, there all the time, were not returned. */
  lemma DeletionLosesRoles()
    ensures var walk := [FIRST_PAGE, RoleFetch(map[2 := 20, 3 := 30], [])];
            && IsRoleWalk(walk, Asc, 1) && IsFinished(AsFetches(walk), 1)
            && (forall i | 0 <= i < 2 :: Cursor(20, 2) in KeysOf(walk[i].roles) && Cursor(30, 3) in KeysOf(walk[i].roles))
            && Returned(AsFetches(walk), 1, 2) == [Cursor(10, 1)]
  {
    var roles: Roles := map[2 := 20, 3 := 30];
    assert Kept(Asc, roles, Some(1)) == {};
    SecondPage(roles, []);
    assert roles[2] == 20 && roles[3] == 30 && ROLES[2] == 20 && ROLES[3] == 30;
    assert Cursor(20, 2) in KeysOf(roles) && Cursor(30, 3) in KeysOf(roles);
    assert Cursor(20, 2) in KeysOf(ROLES) && Cursor(30, 3) in KeysOf(ROLES);
    assert [Cursor(10, 1)] + [] == [Cursor(10, 1)];
  }

  /** Role 1 is renamed past role 2 between the pages: the walk is finished, and role 2, there all the time, was not returned. */
  lemma RenamingLosesRole()
    ensures var walk := [FIRST_PAGE, RoleFetch(map[1 := 25, 2 := 20, 3 := 30], [Cursor(30, 3)])];
            && IsRoleWalk(walk, Asc, 1) && IsFinished(AsFetches(walk), 1)
            && (forall i | 0 <= i < 2 :: Cursor(20, 2) in KeysOf(walk[i].roles))
            && Returned(AsFetches(walk), 1, 2) == [Cursor(10, 1), Cursor(30, 3)]
  {
    var roles: Roles := map[1 := 25, 2 := 20, 3 := 30];
    assert Cursor(30, 3) in KeysOf(roles) by { assert roles[3] == 30; }
    assert Kept(Asc, roles, Some(1)) == {Cursor(30, 3)};
    SecondPage(roles, [Cursor(30, 3)]);
    assert Cursor(20, 2) in KeysOf(roles) by { assert roles[2] == 20; }
    assert Cursor(20, 2) in KeysOf(ROLES) by { assert ROLES[2] == 20; }
  }
}
