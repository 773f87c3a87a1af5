/**
 Cursor pagination: validating a request, building one page, and walking page after
 page over a table that may change between requests.
 */
module Pagination {
  import opened Bytes
  import opened Cursors

  datatype SortDirection = Asc | Desc

  /** The parameters as they arrive. */
  datatype PageQuery = PageQuery(
    cursor: Option<ByteString>, limit: Option<string>, sort: Option<string>, direction: Option<string>)

  datatype PageRequest = PageRequest(cursor: Option<Cursor>, limit: nat, sortColumn: string, direction: SortDirection)

  const DEFAULT_PAGE_SIZE: nat := 25

  function Column(allowed: seq<(string, string)>, name: string): (column: Option<string>)
    ensures column.Some? ==> (name, column.value) in allowed
    ensures column.None? <==> forall c :: (name, c) !in allowed
  {
    if allowed == [] then None
    else if allowed[0].0 == name then Some(allowed[0].1)
    else Column(allowed[1..], name)
  }

  /** Unicode's White_Space. */
  predicate IsWhitespace(c: char) {
    var n := c as int;
    || 0x9 <= n <= 0xd || n == 0x20 || n == 0x85 || n == 0xa0 || n == 0x1680 || 0x2000 <= n <= 0x200a
    || n == 0x2028 || n == 0x2029 || n == 0x202f || n == 0x205f || n == 0x3000
  }

  function TrimStart(s: string): string {
    if s != "" && IsWhitespace(s[0]) then TrimStart(s[1..]) else s
  }

  function TrimEnd(s: string): string {
    if s != "" && IsWhitespace(s[|s| - 1]) then TrimEnd(s[..|s| - 1]) else s
  }

  function Trim(s: string): string {
    TrimEnd(TrimStart(s))
  }

  function DigitsValue(s: string): Option<nat> {
    if s == "" then Some(0)
    else
      var (before, last) := (DigitsValue(s[..|s| - 1]), s[|s| - 1]);
      if before.Some? && '0' <= last <= '9' then Some(10 * before.value + (last as int - '0' as int)) else None
  }

  /** An unsigned 32-bit number: digits, after a plus sign if there is one. */
  function ParseU32(s: string): Option<nat> {
    var digits := if s != "" && s[0] == '+' then s[1..] else s;
    if digits == "" then None
    else
      match DigitsValue(digits)
      case None => None
      case Some(n) => if n < 0x1_0000_0000 then Some(n) else None
  }

  function ResolveLimit(limit: Option<string>, max: nat): Result<nat, FieldError> {
    match limit
    case None => Ok(if DEFAULT_PAGE_SIZE < max then DEFAULT_PAGE_SIZE else max)
    case Some(raw) =>
      match ParseU32(Trim(raw))
      case None => Err(BadLimit)
      case Some(n) => if n == 0 || n > max then Err(LimitOutOfRange) else Ok(n)
  }

  function Decimal(n: nat): (s: string)
    ensures s != "" && forall i | 0 <= i < |s| :: '0' <= s[i] <= '9'
  {
    var last := ['0' + (n % 10) as char];
    if n < 10 then last else Decimal(n / 10) + last
  }

  lemma {:induction false} DecimalRoundTrip(n: nat)
    ensures DigitsValue(Decimal(n)) == Some(n)
  {
    if n >= 10 {
      DecimalRoundTrip(n / 10);
      assert Decimal(n)[..|Decimal(n)| - 1] == Decimal(n / 10);
    } else {
      assert Decimal(n)[..0] == "";
    }
  }

  lemma {:induction false} TrimStartDrops(blank: string, s: string)
    requires (forall i | 0 <= i < |blank| :: IsWhitespace(blank[i])) && s != "" && !IsWhitespace(s[0])
    ensures TrimStart(blank + s) == s
  {
    if blank == "" {
      assert blank + s == s;
    } else {
      assert (blank + s)[1..] == blank[1..] + s;
      TrimStartDrops(blank[1..], s);
    }
  }

  lemma {:induction false} TrimEndDrops(s: string, blank: string)
    requires (forall i | 0 <= i < |blank| :: IsWhitespace(blank[i])) && s != "" && !IsWhitespace(s[|s| - 1])
    ensures TrimEnd(s + blank) == s
  {
    if blank == "" {
      assert s + blank == s;
    } else {
      assert (s + blank)[..|s + blank| - 1] == s + blank[..|blank| - 1];
      TrimEndDrops(s, blank[..|blank| - 1]);
    }
  }

  /** A number in range is taken as the limit, however it is padded; one out of range is refused. */
  lemma LimitIsRead(n: nat, before: string, after: string, max: nat)
    requires n < 0x1_0000_0000
    requires forall i | 0 <= i < |before| :: IsWhitespace(before[i])
    requires forall i | 0 <= i < |after| :: IsWhitespace(after[i])
    ensures ResolveLimit(Some(before + Decimal(n) + after), max) == if 1 <= n <= max then Ok(n) else Err(LimitOutOfRange)
  {
    var digits := Decimal(n);
    assert before + digits + after == before + (digits + after);
    TrimStartDrops(before, digits + after);
    TrimEndDrops(digits, after);
    DecimalRoundTrip(n);
  }

  function ResolveSort(sort: Option<string>, allowed: seq<(string, string)>, default: string): Result<string, FieldError> {
    if sort.None? then Ok(default)
    else
      match Column(allowed, Trim(sort.value))
      case None => Err(SortNotAllowed)
      case Some(column) => Ok(column)
  }

  function ResolveDirection(direction: Option<string>): Result<SortDirection, FieldError> {
    if direction.None? || Trim(direction.value) == "desc" then Ok(Desc)
    else if Trim(direction.value) == "asc" then Ok(Asc)
    else Err(BadDirection)
  }

  /** Only the caller's own columns reach the query, and a page has at least one row unless none are permitted at all. */
  function Resolve(query: PageQuery, allowed: seq<(string, string)>, default: string, max: nat)
    : (r: Result<PageRequest, FieldError>)
    ensures r.Ok? ==> r.value.limit <= max && (max > 0 ==> r.value.limit > 0)
    ensures r.Ok? ==> r.value.sortColumn == default || exists name :: (name, r.value.sortColumn) in allowed
    ensures r.Ok? ==> r.value.cursor.Some? == query.cursor.Some?
  {
    match ResolveLimit(query.limit, max)
    case Err(e) => Err(e)
    case Ok(limit) =>
      match ResolveSort(query.sort, allowed, default)
      case Err(e) => Err(e)
      case Ok(column) =>
        match ResolveDirection(query.direction)
        case Err(e) => Err(e)
        case Ok(direction) =>
          if query.cursor.None? then Ok(PageRequest(None, limit, column, direction))
          else
            match DecodeCursor(query.cursor.value)
            case Err(e) => Err(e)
            case Ok(cursor) => Ok(PageRequest(Some(cursor), limit, column, direction))
  }

  /** `column` is what the first entry under this name stands for. */
  ghost predicate Stands(allowed: seq<(string, string)>, name: string, column: string) {
    exists i :: 0 <= i < |allowed| && allowed[i] == (name, column) && forall k | 0 <= k < i :: allowed[k].0 != name
  }

  lemma {:induction false} ColumnStands(allowed: seq<(string, string)>, name: string, column: string)
    ensures Column(allowed, name) == Some(column) <==> Stands(allowed, name, column)
  {
    if allowed != [] {
      var rest := allowed[1..];
      ColumnStands(rest, name, column);
      if Stands(rest, name, column) && allowed[0].0 != name {
        var i :| 0 <= i < |rest| && rest[i] == (name, column) && forall k | 0 <= k < i :: rest[k].0 != name;
        assert allowed[i + 1] == (name, column) && forall k | 1 <= k < i + 1 :: allowed[k] == rest[k - 1];
      }
      if Stands(allowed, name, column) {
        var i :| 0 <= i < |allowed| && allowed[i] == (name, column) && forall k | 0 <= k < i :: allowed[k].0 != name;
        assert i > 0 ==> rest[i - 1] == (name, column) && forall k | 0 <= k < i - 1 :: rest[k] == allowed[k + 1];
      }
    }
  }

  ghost predicate AllDigits(s: string) {
    forall i | 0 <= i < |s| :: '0' <= s[i] <= '9'
  }

  /** Digits have a value, leading zeros or not, and nothing else does. */
  lemma {:induction false} DigitsHaveValue(s: string)
    ensures DigitsValue(s).Some? <==> AllDigits(s)
    ensures DigitsValue(['0'] + s) == DigitsValue(s)
  {
    if s == "" {
      assert ['0'][..0] == "" && ['0'] + s == ['0'];
    } else {
      var (before, last) := (s[..|s| - 1], s[|s| - 1]);
      DigitsHaveValue(before);
      assert s == before + [last];
      assert (['0'] + s)[..|s|] == ['0'] + before;
    }
  }

  ghost predicate IsLimit(raw: string, n: int) {
    ParseU32(Trim(raw)).Some? && ParseU32(Trim(raw)).value == n
  }

  /** A limit is what remains between white space, a plus sign aside, if that is digits below 2^32. */
  lemma LimitsAreNumerals(raw: string)
    ensures var s := Trim(raw);
            var digits := if s != "" && s[0] == '+' then s[1..] else s;
            (forall n :: !IsLimit(raw, n)) <==>
              digits == "" || !AllDigits(digits) || (DigitsValue(digits).Some? && DigitsValue(digits).value >= 0x1_0000_0000)
  {
    var s := Trim(raw);
    var digits := if s != "" && s[0] == '+' then s[1..] else s;
    DigitsHaveValue(digits);
    if ParseU32(s).Some? {
      assert IsLimit(raw, ParseU32(s).value);
    }
  }

  ghost predicate LimitIsGood(query: PageQuery, max: nat) {
    query.limit.Some? ==> exists n :: IsLimit(query.limit.value, n) && 1 <= n <= max
  }

  ghost predicate SortIsGood(query: PageQuery, allowed: seq<(string, string)>) {
    query.sort.Some? ==> exists column :: Stands(allowed, Trim(query.sort.value), column)
  }

  ghost predicate DirectionIsGood(query: PageQuery) {
    query.direction.Some? ==> Trim(query.direction.value) == "asc" || Trim(query.direction.value) == "desc"
  }

  ghost predicate CursorIsGood(query: PageQuery) {
    query.cursor.Some? ==> exists c :: query.cursor.value == EncodeCursor(c)
  }

  lemma SortIsResolved(query: PageQuery, allowed: seq<(string, string)>, default: string)
    ensures ResolveSort(query.sort, allowed, default).Ok? <==> SortIsGood(query, allowed)
    ensures ResolveSort(query.sort, allowed, default).Ok? ==>
              var column := ResolveSort(query.sort, allowed, default).value;
              if query.sort.None? then column == default else Stands(allowed, Trim(query.sort.value), column)
    ensures ResolveSort(query.sort, allowed, default).Err? ==> ResolveSort(query.sort, allowed, default).error == SortNotAllowed
  {
    if query.sort.Some? {
      forall column ensures Column(allowed, Trim(query.sort.value)) == Some(column) <==> Stands(allowed, Trim(query.sort.value), column) {
        ColumnStands(allowed, Trim(query.sort.value), column);
      }
    }
  }

  lemma CursorIsResolved(query: PageQuery)
    requires query.cursor.Some?
    ensures DecodeCursor(query.cursor.value).Ok? <==> CursorIsGood(query)
    ensures DecodeCursor(query.cursor.value).Ok? ==> query.cursor.value == EncodeCursor(DecodeCursor(query.cursor.value).value)
    ensures DecodeCursor(query.cursor.value).Err? ==> DecodeCursor(query.cursor.value).error == BadCursor
  {
    forall c ensures DecodeCursor(query.cursor.value) == Ok(c) <==> query.cursor.value == EncodeCursor(c) {
      CursorCodecIsBijective(query.cursor.value, c);
    }
  }

  lemma LimitIsResolved(query: PageQuery, max: nat)
    ensures ResolveLimit(query.limit, max).Ok? <==> LimitIsGood(query, max)
    ensures ResolveLimit(query.limit, max).Ok? ==>
              var limit := ResolveLimit(query.limit, max).value;
              if query.limit.None? then limit == (if 25 < max then 25 else max) else IsLimit(query.limit.value, limit)
    ensures ResolveLimit(query.limit, max) == Err(BadLimit) <==> query.limit.Some? && forall n :: !IsLimit(query.limit.value, n)
    ensures ResolveLimit(query.limit, max) == Err(LimitOutOfRange) <==>
              query.limit.Some? && exists n :: IsLimit(query.limit.value, n) && !(1 <= n <= max)
  {
    if query.limit.Some? && ParseU32(Trim(query.limit.value)).Some? {
      assert IsLimit(query.limit.value, ParseU32(Trim(query.limit.value)).value);
    }
  }

  /**
   What each parameter resolves to, and which of several bad ones is reported: the limit
   before the sort name, the direction and the cursor.
   */
  lemma ResolveIsExact(query: PageQuery, allowed: seq<(string, string)>, default: string, max: nat)
    ensures var r := Resolve(query, allowed, default, max);
            && (r.Ok? <==> LimitIsGood(query, max) && SortIsGood(query, allowed) && DirectionIsGood(query) && CursorIsGood(query))
            && (r.Ok? ==>
                  && (if query.limit.None? then r.value.limit == (if 25 < max then 25 else max)
                      else IsLimit(query.limit.value, r.value.limit))
                  && (if query.sort.None? then r.value.sortColumn == default
                      else Stands(allowed, Trim(query.sort.value), r.value.sortColumn))
                  && (r.value.direction.Asc? <==> query.direction.Some? && Trim(query.direction.value) == "asc")
                  && (query.cursor.None? <==> r.value.cursor.None?)
                  && (query.cursor.Some? ==> query.cursor.value == EncodeCursor(r.value.cursor.value)))
            && (r == Err(BadLimit) <==> query.limit.Some? && forall n :: !IsLimit(query.limit.value, n))
            && (r == Err(LimitOutOfRange) <==> query.limit.Some? && exists n :: IsLimit(query.limit.value, n) && !(1 <= n <= max))
            && (r == Err(SortNotAllowed) <==> LimitIsGood(query, max) && !SortIsGood(query, allowed))
            && (r == Err(BadDirection) <==> LimitIsGood(query, max) && SortIsGood(query, allowed) && !DirectionIsGood(query))
            && (r == Err(BadCursor) <==>
                  LimitIsGood(query, max) && SortIsGood(query, allowed) && DirectionIsGood(query) && !CursorIsGood(query))
  {
    LimitIsResolved(query, max);
    SortIsResolved(query, allowed, default);
    if query.cursor.Some? { CursorIsResolved(query); }
  }

  datatype Page<T> = Page(items: seq<T>, nextCursor: Option<ByteString>, hasMore: bool)

  /** One row more than the page holds was asked for. */
  predicate HasMore<T>(rows: seq<T>, limit: nat) {
    |rows| > limit
  }

  function Items<T>(rows: seq<T>, limit: nat): seq<T> {
    if HasMore(rows, limit) then rows[..limit] else rows
  }

  function PageOf<T>(rows: seq<T>, limit: nat, cursorOf: T -> Cursor): Page<T> {
    var items := Items(rows, limit);
    Page(items,
         if HasMore(rows, limit) && items != [] then Some(EncodeCursor(cursorOf(items[|items| - 1]))) else None,
         HasMore(rows, limit))
  }

  /** The next request starts from the key of the last row on the page. */
  lemma NextCursorIsLastKey<T>(rows: seq<T>, limit: nat, cursorOf: T -> Cursor)
    requires limit > 0
    ensures var page := PageOf(rows, limit, cursorOf);
            && (page.nextCursor.Some? <==> page.hasMore)
            && (page.hasMore ==> DecodeCursor(page.nextCursor.value) == Ok(cursorOf(page.items[|page.items| - 1])))
  {
    if HasMore(rows, limit) {
      var page := PageOf(rows, limit, cursorOf);
      var last := cursorOf(page.items[|page.items| - 1]);
      assert page.nextCursor == Some(EncodeCursor(last));
      CursorRoundTrip(last);
    }
  }

  method Build<T>(fetched: seq<T>, limit: nat, cursorOf: T -> Cursor) returns (page: Page<T>)
    ensures page == PageOf(fetched, limit, cursorOf)
    ensures page.items <= fetched && (page.items < fetched <==> page.hasMore)
    ensures limit > 0 ==> (page.hasMore <==> page.nextCursor.Some?)
  {
    var rows := fetched;
    var hasMore := |rows| > limit;
    if hasMore {
      rows := rows[..limit];
    }
    var nextCursor := None;
    if hasMore && |rows| > 0 {
      nextCursor := Some(EncodeCursor(cursorOf(rows[|rows| - 1])));
    }
    page := Page(rows, nextCursor, hasMore);
  }

  // ---------------------------------------------------------------------------
  // The query
  // ---------------------------------------------------------------------------

  /** Row-wise comparison in the direction of the listing. */
  predicate Before(direction: SortDirection, a: Cursor, b: Cursor) {
    if direction.Asc?
    then a.timestampMicros < b.timestampMicros || (a.timestampMicros == b.timestampMicros && a.id < b.id)
    else a.timestampMicros > b.timestampMicros || (a.timestampMicros == b.timestampMicros && a.id > b.id)
  }

  /** Ascending means that earlier rows come first and, at one time, smaller ids; descending is the reverse. */
  lemma DirectionsAreOrders(a: Cursor, b: Cursor)
    ensures a.timestampMicros < b.timestampMicros ==> Before(Asc, a, b) && !Before(Asc, b, a)
    ensures a.timestampMicros == b.timestampMicros ==> (Before(Asc, a, b) <==> a.id < b.id)
    ensures Before(Desc, a, b) <==> Before(Asc, b, a)
  {
  }

  predicate IsPast(direction: SortDirection, after: Option<Cursor>, key: Cursor) {
    after.None? || Before(direction, after.value, key)
  }

  ghost predicate Ordered(direction: SortDirection, rows: seq<Cursor>) {
    forall i, j | 0 <= i < j < |rows| :: Before(direction, rows[i], rows[j])
  }

  /**
   What ORDER BY key LIMIT n returns for the rows past the cursor: ordered, at most n,
   and nothing left out that comes before something returned. The table is the set of
   keys of the rows that match the filters.
   */
  ghost predicate IsAnswer(table: set<Cursor>, direction: SortDirection, after: Option<Cursor>, n: nat, rows: seq<Cursor>) {
    && Ordered(direction, rows) && |rows| <= n
    && (forall k | k in rows :: k in table && IsPast(direction, after, k))
    && (forall k | k in table && IsPast(direction, after, k) && k !in rows ::
          |rows| == n && forall i | 0 <= i < |rows| :: Before(direction, rows[i], k))
  }

  lemma KeyIsNew(direction: SortDirection, rows: seq<Cursor>, i: nat)
    requires Ordered(direction, rows) && i < |rows|
    ensures rows[i] in rows && rows[i] !in rows[..i]
  {
  }

  lemma EarlierIsReturned(
    table: set<Cursor>, direction: SortDirection, after: Option<Cursor>, n: nat, rows: seq<Cursor>, i: nat, key: Cursor)
    requires IsAnswer(table, direction, after, n, rows) && i < |rows|
    requires key in table && IsPast(direction, after, key)
    ensures Before(direction, key, rows[i]) ==> key in rows[..i]
  {
  }

  lemma NoLonger(table: set<Cursor>, direction: SortDirection, after: Option<Cursor>, n: nat, a: seq<Cursor>, b: seq<Cursor>)
    requires IsAnswer(table, direction, after, n, a) && IsAnswer(table, direction, after, n, b) && a <= b
    ensures |b| <= |a|
  {
    if |a| < |b| {
      KeyIsNew(direction, b, |a|);
    }
  }

  lemma {:induction false} AnswersAgree(
    table: set<Cursor>, direction: SortDirection, after: Option<Cursor>, n: nat, a: seq<Cursor>, b: seq<Cursor>, i: nat)
    requires IsAnswer(table, direction, after, n, a) && IsAnswer(table, direction, after, n, b)
    requires i <= |a| <= |b|
    ensures a[..i] == b[..i]
  {
    if i > 0 {
      AnswersAgree(table, direction, after, n, a, b, i - 1);
      KeyIsNew(direction, a, i - 1);
      KeyIsNew(direction, b, i - 1);
      EarlierIsReturned(table, direction, after, n, a, i - 1, b[i - 1]);
      EarlierIsReturned(table, direction, after, n, b, i - 1, a[i - 1]);
      assert a[i - 1] == b[i - 1];
    }
  }

  /** The database has no choice. */
  lemma AnswersAreUnique(table: set<Cursor>, direction: SortDirection, after: Option<Cursor>, n: nat, a: seq<Cursor>, b: seq<Cursor>)
    requires IsAnswer(table, direction, after, n, a) && IsAnswer(table, direction, after, n, b)
    ensures a == b
  {
    if |a| <= |b| {
      AnswersAgree(table, direction, after, n, a, b, |a|);
      NoLonger(table, direction, after, n, a, b);
    } else {
      AnswersAgree(table, direction, after, n, b, a, |b|);
      NoLonger(table, direction, after, n, b, a);
    }
  }

  lemma {:induction false} KeyInserted(direction: SortDirection, rows: seq<Cursor>, key: Cursor) returns (r: seq<Cursor>)
    requires Ordered(direction, rows) && key !in rows
    ensures Ordered(direction, r) && |r| == |rows| + 1 && forall k :: k in r <==> k in rows || k == key
  {
    if rows == [] || Before(direction, rows[|rows| - 1], key) {
      r := rows + [key];
    } else {
      var (before, last) := (rows[..|rows| - 1], rows[|rows| - 1]);
      assert rows == before + [last];
      var inserted := KeyInserted(direction, before, key);
      forall i | 0 <= i < |inserted| ensures Before(direction, inserted[i], last) {
        assert inserted[i] in inserted;
      }
      r := inserted + [last];
    }
  }

  /** Every table has its whole ordered listing. */
  lemma {:induction false} ListingExists(table: set<Cursor>, direction: SortDirection) returns (listing: seq<Cursor>)
    ensures IsAnswer(table, direction, None, |table|, listing)
    ensures |listing| == |table| && forall k :: k in listing <==> k in table
    decreases |table|
  {
    if table == {} {
      listing := [];
    } else {
      var key :| key in table;
      var rest := ListingExists(table - {key}, direction);
      listing := KeyInserted(direction, rest, key);
    }
  }

  // ---------------------------------------------------------------------------
  // Walking the pages
  // ---------------------------------------------------------------------------

  /** One request of a walk: the table at that moment and the rows fetched from it. */
  datatype Fetch = Fetch(table: set<Cursor>, rows: seq<Cursor>)

  function ItemsAt(walk: seq<Fetch>, limit: nat, i: nat): seq<Cursor>
    requires i < |walk|
  {
    Items(walk[i].rows, limit)
  }

  predicate MoreAt(walk: seq<Fetch>, limit: nat, i: nat)
    requires i < |walk|
  {
    HasMore(walk[i].rows, limit)
  }

  /** Where request `i` starts: at the last key of the page before (see `NextCursorIsLastKey`). */
  function CursorAt(walk: seq<Fetch>, limit: nat, start: Option<Cursor>, i: nat): Option<Cursor>
    requires i <= |walk|
  {
    if i == 0 then start
    else
      var items := ItemsAt(walk, limit, i - 1);
      if items == [] then None else Some(items[|items| - 1])
  }

  ghost predicate AnsweredAt(walk: seq<Fetch>, direction: SortDirection, limit: nat, start: Option<Cursor>, i: nat)
    requires i < |walk|
  {
    IsAnswer(walk[i].table, direction, CursorAt(walk, limit, start, i), limit + 1, walk[i].rows)
  }

  /** Following next_cursor from `start`, one page after the other, while there are more. */
  ghost predicate IsWalk(walk: seq<Fetch>, direction: SortDirection, limit: nat, start: Option<Cursor>) {
    && limit >= 1
    && (forall i | 0 <= i < |walk| :: AnsweredAt(walk, direction, limit, start, i))
    && (forall i | 0 <= i < |walk| - 1 :: MoreAt(walk, limit, i))
  }

  /** The walk has come to a page after which there is nothing more. */
  predicate IsFinished(walk: seq<Fetch>, limit: nat) {
    walk != [] && !MoreAt(walk, limit, |walk| - 1)
  }

  function Returned(walk: seq<Fetch>, limit: nat, n: nat): seq<Cursor>
    requires n <= |walk|
  {
    if n == 0 then [] else Returned(walk, limit, n - 1) + ItemsAt(walk, limit, n - 1)
  }

  /** The cursor handed out is that of the last row on the page. */
  lemma CursorIsLastItem(walk: seq<Fetch>, limit: nat, start: Option<Cursor>, i: nat)
    requires limit >= 1 && i < |walk| && MoreAt(walk, limit, i)
    ensures |ItemsAt(walk, limit, i)| == limit
    ensures CursorAt(walk, limit, start, i + 1) == Some(walk[i].rows[limit - 1])
  {
  }

  /** Each page lies past the cursor it was asked with. */
  lemma PageIsPast(walk: seq<Fetch>, direction: SortDirection, limit: nat, start: Option<Cursor>, i: nat)
    requires IsWalk(walk, direction, limit, start) && i < |walk|
    ensures Ordered(direction, ItemsAt(walk, limit, i))
    ensures forall k | k in ItemsAt(walk, limit, i) ::
              k in walk[i].table && IsPast(direction, CursorAt(walk, limit, start, i), k)
  {
    assert AnsweredAt(walk, direction, limit, start, i);
    assert forall k | k in ItemsAt(walk, limit, i) :: k in walk[i].rows;
  }

  lemma {:induction false} ReturnedIsOrdered(walk: seq<Fetch>, direction: SortDirection, limit: nat, start: Option<Cursor>, n: nat)
    requires IsWalk(walk, direction, limit, start) && n <= |walk|
    ensures Ordered(direction, Returned(walk, limit, n))
    ensures 0 < n && MoreAt(walk, limit, n - 1) ==>
              Returned(walk, limit, n) != [] &&
              CursorAt(walk, limit, start, n) == Some(Returned(walk, limit, n)[|Returned(walk, limit, n)| - 1])
  {
    if n > 0 {
      ReturnedIsOrdered(walk, direction, limit, start, n - 1);
      PageIsPast(walk, direction, limit, start, n - 1);
      if n > 1 {
        CursorIsLastItem(walk, limit, start, n - 2);
      }
      if MoreAt(walk, limit, n - 1) {
        CursorIsLastItem(walk, limit, start, n - 1);
      }
      AppendKeepsOrder(direction, Returned(walk, limit, n - 1), ItemsAt(walk, limit, n - 1), CursorAt(walk, limit, start, n - 1));
    }
  }

  lemma AppendKeepsOrder(direction: SortDirection, a: seq<Cursor>, b: seq<Cursor>, cursor: Option<Cursor>)
    requires Ordered(direction, a) && Ordered(direction, b)
    requires a != [] ==> cursor == Some(a[|a| - 1])
    requires forall k | k in b :: IsPast(direction, cursor, k)
    ensures Ordered(direction, a + b)
  {
    forall i, j | 0 <= i < j < |a + b| ensures Before(direction, (a + b)[i], (a + b)[j]) {
      if i < |a| <= j {
        assert b[j - |a|] in b;
        assert i < |a| - 1 ==> Before(direction, a[i], a[|a| - 1]);
      }
    }
  }

  /** However the table changes between pages, no row is returned twice and pages stay in order. */
  lemma NoRowTwice(walk: seq<Fetch>, direction: SortDirection, limit: nat, i: nat, j: nat)
    requires IsWalk(walk, direction, limit, None)
    requires i < j < |Returned(walk, limit, |walk|)|
    ensures Before(direction, Returned(walk, limit, |walk|)[i], Returned(walk, limit, |walk|)[j])
    ensures Returned(walk, limit, |walk|)[i] != Returned(walk, limit, |walk|)[j]
  {
    ReturnedIsOrdered(walk, direction, limit, None, |walk|);
  }

  /** A row that is there is on the page, or lies past it and the page says there is more. */
  lemma PageOrLater(walk: seq<Fetch>, direction: SortDirection, limit: nat, start: Option<Cursor>, i: nat, key: Cursor)
    requires IsWalk(walk, direction, limit, start) && i < |walk|
    requires key in walk[i].table && IsPast(direction, CursorAt(walk, limit, start, i), key)
    ensures key in ItemsAt(walk, limit, i) ||
            (MoreAt(walk, limit, i) && IsPast(direction, CursorAt(walk, limit, start, i + 1), key))
  {
    var rows := walk[i].rows;
    assert AnsweredAt(walk, direction, limit, start, i);
    if |rows| > limit {
      CursorIsLastItem(walk, limit, start, i);
      if key in rows && key !in rows[..limit] {
        assert key == rows[limit];
      }
    }
  }

  lemma {:induction false} ReturnedOrAhead(
    walk: seq<Fetch>, direction: SortDirection, limit: nat, n: nat, key: Cursor)
    requires IsWalk(walk, direction, limit, None) && n <= |walk|
    requires forall i | 0 <= i < |walk| :: key in walk[i].table
    ensures key in Returned(walk, limit, n) ||
            ((n > 0 ==> MoreAt(walk, limit, n - 1)) && IsPast(direction, CursorAt(walk, limit, None, n), key))
  {
    if n > 0 {
      ReturnedOrAhead(walk, direction, limit, n - 1, key);
      if key !in Returned(walk, limit, n - 1) {
        PageOrLater(walk, direction, limit, None, n - 1, key);
      }
    }
  }

  /** A finished walk has returned every row that was there at each of its requests. */
  lemma PresentThroughoutIsReturned(walk: seq<Fetch>, direction: SortDirection, limit: nat, key: Cursor)
    requires IsWalk(walk, direction, limit, None) && IsFinished(walk, limit)
    requires forall i | 0 <= i < |walk| :: key in walk[i].table
    ensures key in Returned(walk, limit, |walk|)
  {
    ReturnedOrAhead(walk, direction, limit, |walk|, key);
  }

  lemma {:induction false} ReturnedWasThere(walk: seq<Fetch>, direction: SortDirection, limit: nat, start: Option<Cursor>, n: nat, table: set<Cursor>)
    requires IsWalk(walk, direction, limit, start) && n <= |walk|
    requires forall i | 0 <= i < |walk| :: walk[i].table <= table
    ensures forall k | k in Returned(walk, limit, n) :: k in table
  {
    if n > 0 {
      ReturnedWasThere(walk, direction, limit, start, n - 1, table);
      PageIsPast(walk, direction, limit, start, n - 1);
    }
  }

  /** Whatever was returned was there at some request. */
  lemma {:induction false} ReturnedWasSomewhere(
    walk: seq<Fetch>, direction: SortDirection, limit: nat, start: Option<Cursor>, n: nat, key: Cursor)
    requires IsWalk(walk, direction, limit, start) && n <= |walk| && key in Returned(walk, limit, n)
    ensures exists i :: 0 <= i < n && key in walk[i].table
  {
    PageIsPast(walk, direction, limit, start, n - 1);
    if key !in ItemsAt(walk, limit, n - 1) {
      ReturnedWasSomewhere(walk, direction, limit, start, n - 1, key);
    }
  }

  lemma {:induction false} OrderedFits(direction: SortDirection, rows: seq<Cursor>, table: set<Cursor>)
    requires Ordered(direction, rows) && forall k | k in rows :: k in table
    ensures |rows| <= |table|
  {
    if rows != [] {
      var last := rows[|rows| - 1];
      assert last in rows;
      forall k | k in rows[..|rows| - 1] ensures k in table - {last} {
        assert k in rows;
      }
      OrderedFits(direction, rows[..|rows| - 1], table - {last});
    }
  }

  /** On a table that does not change, the pages together are the whole ordered listing. */
  lemma FixedTableIsListed(walk: seq<Fetch>, direction: SortDirection, limit: nat, table: set<Cursor>, listing: seq<Cursor>)
    requires IsWalk(walk, direction, limit, None) && IsFinished(walk, limit)
    requires forall i | 0 <= i < |walk| :: walk[i].table == table
    requires IsAnswer(table, direction, None, |table|, listing)
    ensures Returned(walk, limit, |walk|) == listing
  {
    var returned := Returned(walk, limit, |walk|);
    ReturnedIsOrdered(walk, direction, limit, None, |walk|);
    ReturnedWasThere(walk, direction, limit, None, |walk|, table);
    OrderedFits(direction, returned, table);
    forall k | k in table ensures k in returned {
      PresentThroughoutIsReturned(walk, direction, limit, k);
    }
    AnswersAreUnique(table, direction, None, |table|, returned, listing);
  }

  lemma {:induction false} FullPages(walk: seq<Fetch>, direction: SortDirection, limit: nat, start: Option<Cursor>, n: nat)
    requires IsWalk(walk, direction, limit, start) && n < |walk|
    ensures |Returned(walk, limit, n)| == n * limit
  {
    if n > 0 {
      FullPages(walk, direction, limit, start, n - 1);
      CursorIsLastItem(walk, limit, start, n - 1);
    }
  }

  lemma RestIsWalk(walk: seq<Fetch>, direction: SortDirection, limit: nat, start: Option<Cursor>, m: nat)
    requires IsWalk(walk, direction, limit, start) && m < |walk|
    ensures IsWalk(walk[m..], direction, limit, CursorAt(walk, limit, start, m))
  {
    var (rest, from) := (walk[m..], CursorAt(walk, limit, start, m));
    forall i | 0 <= i < |rest|
      ensures AnsweredAt(rest, direction, limit, from, i)
    {
      assert AnsweredAt(walk, direction, limit, start, m + i);
      assert CursorAt(rest, limit, from, i) == CursorAt(walk, limit, start, m + i) by {
        if i > 0 {
          assert ItemsAt(rest, limit, i - 1) == ItemsAt(walk, limit, m + i - 1);
        }
      }
    }
    forall i | 0 <= i < |rest| - 1 ensures MoreAt(rest, limit, i) {
      assert rest[i] == walk[m + i] && MoreAt(walk, limit, m + i);
    }
  }

  /** Once no rows outside `table` appear, from request `m` on, only so many pages can follow. */
  lemma WalkEnds(walk: seq<Fetch>, direction: SortDirection, limit: nat, m: nat, table: set<Cursor>)
    requires IsWalk(walk, direction, limit, None) && m < |walk|
    requires forall i | m <= i < |walk| :: walk[i].table <= table
    ensures (|walk| - 1 - m) * limit <= |table|
  {
    var (rest, from) := (walk[m..], CursorAt(walk, limit, None, m));
    RestIsWalk(walk, direction, limit, None, m);
    FullPages(rest, direction, limit, from, |rest| - 1);
    ReturnedIsOrdered(rest, direction, limit, from, |rest| - 1);
    ReturnedWasThere(rest, direction, limit, from, |rest| - 1, table);
    OrderedFits(direction, Returned(rest, limit, |rest| - 1), table);
  }
}
