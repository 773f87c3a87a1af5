/**
 The listings page by page: the visibility filter, the cursor, the order and the limit of
 one query together, over requests between which actors and rows may change.
 */
module ListingPages {
  import opened Bytes
  import opened Authorization
  import opened Sql
  import opened Cursors
  import opened Pagination
  import Clients = ClientListing
  import Departments = DepartmentListing

  /** What is readable at each request decides what a finished walk has returned. */
  ghost predicate ReturnsReadable(returned: seq<Cursor>, direction: SortDirection, readable: seq<set<Cursor>>) {
    && Ordered(direction, returned)
    && (forall k | k in returned :: exists i :: 0 <= i < |readable| && k in readable[i])
    && (forall k | (forall i | 0 <= i < |readable| :: k in readable[i]) :: k in returned)
  }

  lemma WalkReturnsReadable(walk: seq<Fetch>, direction: SortDirection, limit: nat, readable: seq<set<Cursor>>)
    requires IsWalk(walk, direction, limit, None) && IsFinished(walk, limit)
    requires |readable| == |walk| && forall i | 0 <= i < |walk| :: walk[i].table == readable[i]
    ensures ReturnsReadable(Returned(walk, limit, |walk|), direction, readable)
  {
    var returned := Returned(walk, limit, |walk|);
    ReturnedIsOrdered(walk, direction, limit, None, |walk|);
    forall k | k in returned ensures exists i :: 0 <= i < |readable| && k in readable[i] {
      ReturnedWasSomewhere(walk, direction, limit, None, |walk|, k);
      var i :| 0 <= i < |walk| && k in walk[i].table;
      assert k in readable[i];
    }
    forall k | (forall i | 0 <= i < |readable| :: k in readable[i]) ensures k in returned {
      forall i | 0 <= i < |walk| ensures k in walk[i].table {
        assert k in readable[i];
      }
      PresentThroughoutIsReturned(walk, direction, limit, k);
    }
  }

  // ---------------------------------------------------------------------------
  // Client accounts
  // ---------------------------------------------------------------------------

  /** The accounts by creation time and id, with their managers. */
  type Accounts = map<Cursor, Option<Uuid>>

  function AccountAt(table: Accounts, key: Cursor): Clients.Account
    requires key in table
  {
    Clients.Account(key.id, table[key])
  }

  /** A request: the actor loaded for it, the table, the filter chosen and the rows fetched. */
  datatype AccountFetch = AccountFetch(
    actor: ActorContext, table: Accounts, visibility: Clients.Visibility, denied: Clients.Denials, rows: seq<Cursor>)

  function KeptAccounts(f: AccountFetch): set<Cursor> {
    set key | key in f.table && Keeps(Clients.Where(f.visibility, f.denied, AccountAt(f.table, key)))
  }

  ghost function ReadableAccounts(cat: Catalogue, f: AccountFetch): set<Cursor> {
    set key | key in f.table && Clients.Listed(cat, f.actor, AccountAt(f.table, key))
  }

  /** The request is not refused, and filters as the listing does for its actor. */
  ghost predicate IsAccountRequest(cat: Catalogue, f: AccountFetch) {
    && AllCoherent(f.actor) && Clients.Chosen(cat, f.actor, f.visibility) && Clients.DeniesExactly(f.actor, f.denied)
    && !f.visibility.Nothing?
  }

  function AccountFetches(walk: seq<AccountFetch>): (fetches: seq<Fetch>)
    ensures |fetches| == |walk|
  {
    seq(|walk|, i requires 0 <= i < |walk| => Fetch(KeptAccounts(walk[i]), walk[i].rows))
  }

  lemma KeptAccountsAreReadable(cat: Catalogue, f: AccountFetch)
    requires IsAccountRequest(cat, f)
    ensures KeptAccounts(f) == ReadableAccounts(cat, f)
  {
    forall key | key in f.table
      ensures Keeps(Clients.Where(f.visibility, f.denied, AccountAt(f.table, key))) <==>
                Clients.Listed(cat, f.actor, AccountAt(f.table, key))
    {
      Clients.ListingIsDecision(cat, f.actor, f.visibility, f.denied, AccountAt(f.table, key));
    }
  }

  /**
   A finished walk over the client listing returns in order, each once, accounts that were
   readable at some request, and every one that was readable at each.
   */
  lemma ClientPagesAreReadable(cat: Catalogue, walk: seq<AccountFetch>, direction: SortDirection, limit: nat)
    requires forall i | 0 <= i < |walk| :: IsAccountRequest(cat, walk[i])
    requires IsWalk(AccountFetches(walk), direction, limit, None) && IsFinished(AccountFetches(walk), limit)
    ensures ReturnsReadable(Returned(AccountFetches(walk), limit, |walk|), direction,
                            seq(|walk|, i requires 0 <= i < |walk| => ReadableAccounts(cat, walk[i])))
  {
    var readable := seq(|walk|, i requires 0 <= i < |walk| => ReadableAccounts(cat, walk[i]));
    forall i | 0 <= i < |walk| ensures AccountFetches(walk)[i].table == readable[i] {
      KeptAccountsAreReadable(cat, walk[i]);
    }
    WalkReturnsReadable(AccountFetches(walk), direction, limit, readable);
  }

  /** With the same actor and accounts throughout, the pages are the readable accounts in order. */
  lemma ClientPagesAreListing(
    cat: Catalogue, walk: seq<AccountFetch>, direction: SortDirection, limit: nat, listing: seq<Cursor>)
    requires forall i | 0 <= i < |walk| :: IsAccountRequest(cat, walk[i])
    requires IsWalk(AccountFetches(walk), direction, limit, None) && IsFinished(AccountFetches(walk), limit)
    requires forall i | 0 <= i < |walk| :: walk[i].actor == walk[0].actor && walk[i].table == walk[0].table
    requires var readable := ReadableAccounts(cat, walk[0]); IsAnswer(readable, direction, None, |readable|, listing)
    ensures Returned(AccountFetches(walk), limit, |walk|) == listing
  {
    var readable := ReadableAccounts(cat, walk[0]);
    forall i | 0 <= i < |walk| ensures AccountFetches(walk)[i].table == readable {
      KeptAccountsAreReadable(cat, walk[i]);
    }
    FixedTableIsListed(AccountFetches(walk), direction, limit, readable, listing);
  }

  // ---------------------------------------------------------------------------
  // Departments
  // ---------------------------------------------------------------------------

  /** A request: the actor, the departments by creation time and id, the filter chosen and the rows fetched. */
  datatype DepartmentFetch = DepartmentFetch(
    actor: ActorContext, table: set<Cursor>, visibility: Departments.Visibility, rows: seq<Cursor>)

  function KeptDepartments(f: DepartmentFetch): set<Cursor> {
    set key | key in f.table && Keeps(Departments.Where(f.visibility, key.id))
  }

  ghost function ReadableDepartments(cat: Catalogue, f: DepartmentFetch): set<Cursor> {
    set key | key in f.table && Departments.Listed(cat, f.actor, key.id)
  }

  ghost predicate IsDepartmentRequest(cat: Catalogue, f: DepartmentFetch) {
    AllCoherent(f.actor) && Departments.Chosen(cat, f.actor, f.visibility) && !f.visibility.Nothing?
  }

  function DepartmentFetches(walk: seq<DepartmentFetch>): (fetches: seq<Fetch>)
    ensures |fetches| == |walk|
  {
    seq(|walk|, i requires 0 <= i < |walk| => Fetch(KeptDepartments(walk[i]), walk[i].rows))
  }

  lemma KeptDepartmentsAreReadable(cat: Catalogue, f: DepartmentFetch)
    requires IsDepartmentRequest(cat, f)
    ensures KeptDepartments(f) == ReadableDepartments(cat, f)
  {
    forall key | key in f.table
      ensures Keeps(Departments.Where(f.visibility, key.id)) <==> Departments.Listed(cat, f.actor, key.id)
    {
      Departments.ListingIsDecision(cat, f.actor, f.visibility, key.id);
    }
  }

  /** The same for departments, readable by the memberships loaded with each request's actor. */
  lemma DepartmentPagesAreReadable(cat: Catalogue, walk: seq<DepartmentFetch>, direction: SortDirection, limit: nat)
    requires forall i | 0 <= i < |walk| :: IsDepartmentRequest(cat, walk[i])
    requires IsWalk(DepartmentFetches(walk), direction, limit, None) && IsFinished(DepartmentFetches(walk), limit)
    ensures ReturnsReadable(Returned(DepartmentFetches(walk), limit, |walk|), direction,
                            seq(|walk|, i requires 0 <= i < |walk| => ReadableDepartments(cat, walk[i])))
  {
    var readable := seq(|walk|, i requires 0 <= i < |walk| => ReadableDepartments(cat, walk[i]));
    forall i | 0 <= i < |walk| ensures DepartmentFetches(walk)[i].table == readable[i] {
      KeptDepartmentsAreReadable(cat, walk[i]);
    }
    WalkReturnsReadable(DepartmentFetches(walk), direction, limit, readable);
  }

  lemma DepartmentPagesAreListing(
    cat: Catalogue, walk: seq<DepartmentFetch>, direction: SortDirection, limit: nat, listing: seq<Cursor>)
    requires forall i | 0 <= i < |walk| :: IsDepartmentRequest(cat, walk[i])
    requires IsWalk(DepartmentFetches(walk), direction, limit, None) && IsFinished(DepartmentFetches(walk), limit)
    requires forall i | 0 <= i < |walk| :: walk[i].actor == walk[0].actor && walk[i].table == walk[0].table
    requires var readable := ReadableDepartments(cat, walk[0]); IsAnswer(readable, direction, None, |readable|, listing)
    ensures Returned(DepartmentFetches(walk), limit, |walk|) == listing
  {
    var readable := ReadableDepartments(cat, walk[0]);
    forall i | 0 <= i < |walk| ensures DepartmentFetches(walk)[i].table == readable {
      KeptDepartmentsAreReadable(cat, walk[i]);
    }
    FixedTableIsListed(DepartmentFetches(walk), direction, limit, readable, listing);
  }
}
