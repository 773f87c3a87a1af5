/** Verifying the whole log window by window, each one starting where the last one ended. */
module AuditTiling {
  import opened Bytes
  import opened AuditChain
  import opened AuditLog

  /** Where a window begins and ends in the table. */
  function StartOf(table: seq<StoredEntry>, w: Window): nat {
    CountBelow(table, w.firstSeq)
  }

  function EndOf(table: seq<StoredEntry>, w: Window): (e: nat)
    requires w.limit >= 1
    ensures StartOf(table, w) <= e <= |table|
    ensures ChainRun(table, w) == table[StartOf(table, w)..e]
  {
    if StartOf(table, w) + w.limit < |table| then StartOf(table, w) + w.limit else |table|
  }

  /** Windows from number 1 on, each from the number after the last one read, up to one that reads less than it asked for. */
  ghost predicate Tile(table: seq<StoredEntry>, windows: seq<Window>) {
    && windows != [] && (forall i | 0 <= i < |windows| :: windows[i].limit >= 1)
    && windows[0].firstSeq == 1
    && (forall i | 0 <= i < |windows| - 1 :: IsFollowed(table, windows[i], windows[i + 1]))
    && |ChainRun(table, windows[|windows| - 1])| < windows[|windows| - 1].limit
  }

  ghost predicate IsFollowed(table: seq<StoredEntry>, w: Window, next: Window)
    requires w.limit >= 1 && next.limit >= 1
  {
    && ChainRun(table, w) != [] && ChainRun(table, next) != []
    && next.firstSeq == LastSeq(ChainRun(table, w)) + 1
  }

  /** The rows from `s` up to `e` are right where they stand. */
  ghost predicate GoodBetween(hash: Hash, table: seq<StoredEntry>, s: nat, e: nat)
    requires s <= e <= |table|
  {
    forall i | s <= i < e :: FaultAt(hash, table, None, Some(1), i).None?
  }

  lemma FaultInside(hash: Hash, table: seq<StoredEntry>, s: nat, e: nat, i: nat)
    requires s <= i < e <= |table|
    ensures FaultAt(hash, table[s..e], PrevAt(table, None, s), ExpectedAt(table, Some(1), s), i - s).None? <==>
              FaultAt(hash, table, None, Some(1), i).None?
  {
    assert table[s..e][i - s] == table[i];
    assert i > s ==> table[s..e][i - s - 1] == table[i - 1];
  }

  lemma LinkedIsGood(hash: Hash, table: seq<StoredEntry>, s: nat, e: nat)
    requires s <= e <= |table|
    ensures Linked(hash, table[s..e], PrevAt(table, None, s), ExpectedAt(table, Some(1), s)) <==> GoodBetween(hash, table, s, e)
  {
    forall i | s <= i < e
      ensures FaultAt(hash, table[s..e], PrevAt(table, None, s), ExpectedAt(table, Some(1), s), i - s).None? <==>
                FaultAt(hash, table, None, Some(1), i).None?
    {
      FaultInside(hash, table, s, e, i);
    }
    if Linked(hash, table[s..e], PrevAt(table, None, s), ExpectedAt(table, Some(1), s)) {
      forall i | s <= i < e ensures FaultAt(hash, table, None, Some(1), i).None? {
        assert FaultAt(hash, table[s..e], PrevAt(table, None, s), ExpectedAt(table, Some(1), s), i - s).None?;
      }
    }
    if GoodBetween(hash, table, s, e) {
      forall k | 0 <= k < e - s
        ensures FaultAt(hash, table[s..e], PrevAt(table, None, s), ExpectedAt(table, Some(1), s), k).None?
      {
        assert FaultAt(hash, table, None, Some(1), s + k).None?;
      }
    }
  }

  /** The head is described by the last of the rows. */
  ghost predicate IsHeadOf(rows: seq<StoredEntry>, headSeq: Int64, headHash: Option<ByteString>) {
    LastSeq(rows) == headSeq && (rows != [] ==> Some(rows[|rows| - 1].entryHash) == headHash)
  }

  /** What one window's INTACT says: its rows are right, and the head is if it read less than it asked for. */
  lemma WindowIsGood(hash: Hash, table: seq<StoredEntry>, headSeq: Int64, headHash: Option<ByteString>, w: Window)
    requires w.limit >= 1
    ensures WindowOutcome(hash, table, headSeq, headHash, w).Intact? <==>
              GoodBetween(hash, table, StartOf(table, w), EndOf(table, w)) &&
              (|ChainRun(table, w)| < w.limit ==> IsHeadOf(ChainRun(table, w), headSeq, headHash))
  {
    var (s, e) := (StartOf(table, w), EndOf(table, w));
    VerifyRunIsExact(hash, ChainRun(table, w), PrevAt(table, None, s), ExpectedAt(table, Some(1), s));
    LinkedIsGood(hash, table, s, e);
  }

  /** The next window begins where this one ends, and this one was full. */
  lemma NextBegins(table: seq<StoredEntry>, w: Window, next: Window)
    requires Ascending(table) && w.limit >= 1 && next.limit >= 1 && IsFollowed(table, w, next)
    ensures StartOf(table, next) == EndOf(table, w) && |ChainRun(table, w)| == w.limit
  {
    var (e, n) := (EndOf(table, w), StartOf(table, next));
    assert LastSeq(ChainRun(table, w)) == table[e - 1].entry.seqNo;
    if e < |table| {
      assert table[e - 1].entry.seqNo < table[e].entry.seqNo;
    }
  }

  ghost predicate IsGood(hash: Hash, table: seq<StoredEntry>, w: Window)
    requires w.limit >= 1
  {
    GoodBetween(hash, table, StartOf(table, w), EndOf(table, w))
  }

  lemma {:induction false} TilesUpTo(hash: Hash, table: seq<StoredEntry>, windows: seq<Window>, k: nat)
    requires Ascending(table) && Tile(table, windows) && k < |windows|
    ensures CountBelow(table, 1) <= EndOf(table, windows[k])
    ensures GoodBetween(hash, table, CountBelow(table, 1), EndOf(table, windows[k])) <==>
              forall i | 0 <= i <= k :: IsGood(hash, table, windows[i])
  {
    if k > 0 {
      TilesUpTo(hash, table, windows, k - 1);
      assert IsFollowed(table, windows[k - 1], windows[k]);
      NextBegins(table, windows[k - 1], windows[k]);
    }
  }

  lemma OnlyTheLastIsShort(table: seq<StoredEntry>, windows: seq<Window>, i: nat)
    requires Ascending(table) && Tile(table, windows) && i < |windows| - 1
    ensures |ChainRun(table, windows[i])| == windows[i].limit
  {
    assert IsFollowed(table, windows[i], windows[i + 1]);
    NextBegins(table, windows[i], windows[i + 1]);
  }

  /** The last window reaches the end of the table. */
  lemma LastReachesEnd(table: seq<StoredEntry>, windows: seq<Window>)
    requires Ascending(table) && Tile(table, windows)
    ensures EndOf(table, windows[|windows| - 1]) == |table|
  {
  }

  lemma LaterWindowsHaveRows(table: seq<StoredEntry>, windows: seq<Window>, i: nat)
    requires Tile(table, windows) && 0 < i < |windows|
    ensures ChainRun(table, windows[i]) != []
  {
    assert IsFollowed(table, windows[i - 1], windows[i]);
  }

  lemma {:induction false} StartsFromOne(table: seq<StoredEntry>, windows: seq<Window>, k: nat)
    requires Ascending(table) && Tile(table, windows) && k < |windows|
    ensures CountBelow(table, 1) <= StartOf(table, windows[k])
  {
    if k > 0 {
      StartsFromOne(table, windows, k - 1);
      assert IsFollowed(table, windows[k - 1], windows[k]);
      NextBegins(table, windows[k - 1], windows[k]);
    }
  }

  lemma SuffixSeesHead(table: seq<StoredEntry>, n: nat, s: nat, headSeq: Int64, headHash: Option<ByteString>)
    requires n <= s <= |table| && (s == |table| ==> n == s)
    ensures IsHeadOf(table[s..], headSeq, headHash) <==> IsHeadOf(table[n..], headSeq, headHash)
  {
  }

  lemma LastSeesHead(table: seq<StoredEntry>, headSeq: Int64, headHash: Option<ByteString>, windows: seq<Window>)
    requires Ascending(table) && Tile(table, windows)
    ensures IsHeadOf(ChainRun(table, windows[|windows| - 1]), headSeq, headHash) <==>
              IsHeadOf(table[CountBelow(table, 1)..], headSeq, headHash)
  {
    var k := |windows| - 1;
    var s := StartOf(table, windows[k]);
    LastReachesEnd(table, windows);
    StartsFromOne(table, windows, k);
    assert ChainRun(table, windows[k]) == table[s..];
    if k > 0 {
      LaterWindowsHaveRows(table, windows, k);
    }
    SuffixSeesHead(table, CountBelow(table, 1), s, headSeq, headHash);
  }

  /** One tile's INTACT: its rows are right, and the last tile sees the head. */
  lemma TileOutcome(
    hash: Hash, table: seq<StoredEntry>, headSeq: Int64, headHash: Option<ByteString>, windows: seq<Window>, i: nat)
    requires Ascending(table) && Tile(table, windows) && i < |windows|
    ensures WindowOutcome(hash, table, headSeq, headHash, windows[i]).Intact? <==>
              IsGood(hash, table, windows[i]) &&
              (i == |windows| - 1 ==> IsHeadOf(table[CountBelow(table, 1)..], headSeq, headHash))
  {
    WindowIsGood(hash, table, headSeq, headHash, windows[i]);
    if i < |windows| - 1 {
      OnlyTheLastIsShort(table, windows, i);
    } else {
      LastSeesHead(table, headSeq, headHash, windows);
    }
  }

  /** The rows from number 1 on, verified as one run. */
  ghost predicate IsIntactFromOne(hash: Hash, table: seq<StoredEntry>) {
    var n := CountBelow(table, 1);
    VerifyRun(hash, table[n..], PrevAt(table, None, n), ExpectedAt(table, Some(1), n)).Intact?
  }

  lemma IntactIsGood(hash: Hash, table: seq<StoredEntry>)
    ensures IsIntactFromOne(hash, table) <==> GoodBetween(hash, table, CountBelow(table, 1), |table|)
  {
    var n := CountBelow(table, 1);
    LinkedIsGood(hash, table, n, |table|);
    assert table[n..|table|] == table[n..];
    VerifyRunIsExact(hash, table[n..], PrevAt(table, None, n), ExpectedAt(table, Some(1), n));
  }

  /**
   Windows that tile the log are all INTACT exactly if the log from number 1 on is intact
   as a whole and the head record describes its last row.
   */
  lemma TilesAreTheWhole(
    hash: Hash, table: seq<StoredEntry>, headSeq: Int64, headHash: Option<ByteString>, windows: seq<Window>)
    requires Ascending(table) && Tile(table, windows)
    ensures (forall i | 0 <= i < |windows| :: WindowOutcome(hash, table, headSeq, headHash, windows[i]).Intact?) <==>
              IsIntactFromOne(hash, table) && IsHeadOf(table[CountBelow(table, 1)..], headSeq, headHash)
  {
    var last := |windows| - 1;
    forall i | 0 <= i < |windows|
      ensures WindowOutcome(hash, table, headSeq, headHash, windows[i]).Intact? <==>
                IsGood(hash, table, windows[i]) &&
                (i == last ==> IsHeadOf(table[CountBelow(table, 1)..], headSeq, headHash))
    {
      TileOutcome(hash, table, headSeq, headHash, windows, i);
    }
    TilesUpTo(hash, table, windows, last);
    LastReachesEnd(table, windows);
    IntactIsGood(hash, table);
  }

  /** A log that exactly fills its last window is reported as mismatched by the window after it. */
  lemma WindowAfterFullOneMismatches(hash: Hash, log: Log, w: Window, next: Window)
    requires Consistent(hash, log) && w.firstSeq >= 1 && w.limit >= 1 && next.limit >= 1
    requires ChainRun(log.rows, w) != [] && next.firstSeq == LastSeq(ChainRun(log.rows, w)) + 1
    requires EndOf(log.rows, w) == |log.rows|
    ensures WindowOutcome(hash, log.rows, log.headSeq, log.headHash, next) == HeadMismatch(log.headSeq, 0)
  {
    ConsistentIsAscending(hash, log);
    WindowIsLinked(hash, log, next);
    VerifyRunIsExact(hash, ChainRun(log.rows, next), ExpectedPrev(log.rows, next), Some(ExpectedSeq(log.rows, next)));
  }
}
