/**
 Appending to the audit log, and the two verifiers built on a run: the command that
 reads the whole table and the endpoint that reads a window of it.
 */
module AuditLog {
  import opened Bytes
  import opened CanonicalJson
  import opened AuditChain

  const MAX_SEQ: Int64 := 0x7FFF_FFFF_FFFF_FFFF

  /** The tables `audit_events` (by sequence number) and `audit_chain_head`. */
  datatype Log = Log(rows: seq<StoredEntry>, headSeq: Int64, headHash: Option<ByteString>)

  datatype AuditEvent = AuditEvent(
    actorUserId: Option<ByteString>,
    actorPrincipalType: Option<ByteString>,
    actorSessionId: Option<ByteString>,
    actionCode: ByteString,
    targetType: Option<ByteString>,
    targetId: Option<ByteString>,
    outcome: ByteString,
    requestId: Option<ByteString>,
    sourceIpHint: Option<ByteString>,
    metadata: Json)

  /** One call of append: the event, the fresh id and the clock. */
  datatype Request = Request(event: AuditEvent, id: ByteString, now: Int128)

  /** The actor type recorded when nobody acted: SYSTEM. */
  const SYSTEM: ByteString := Ascii("SYSTEM")

  /** Down to whole microseconds; integer division truncates toward zero. */
  function ToMicroseconds(t: Int128): Int128 {
    if t >= 0 then t - t % 1000 else t + (-(t as int)) % 1000
  }

  function NewEntry(request: Request, seqNo: Int64): ChainedEntry {
    var event := request.event;
    ChainedEntry(
      CURRENT_CHAIN_VERSION, seqNo, request.id, ToMicroseconds(request.now),
      event.actorUserId,
      if event.actorPrincipalType.Some? then event.actorPrincipalType else Some(SYSTEM),
      event.actorSessionId, event.actionCode, event.targetType, event.targetId,
      event.outcome, event.requestId, event.sourceIpHint, event.metadata)
  }

  /** One append. At the last sequence number the statement is refused and nothing is written. */
  function AppendTo(hash: Hash, log: Log, request: Request): Log {
    if log.headSeq == MAX_SEQ then log
    else
      var entry := NewEntry(request, log.headSeq + 1);
      var tag := hash(entry, log.headHash);
      Log(log.rows + [StoredEntry(entry, tag, log.headHash)], log.headSeq + 1, Some(tag))
  }

  function AppendAll(hash: Hash, log: Log, requests: seq<Request>): Log
    decreases |requests|
  {
    if requests == [] then log
    else AppendTo(hash, AppendAll(hash, log, requests[..|requests| - 1]), requests[|requests| - 1])
  }

  /** The two tables, updated in place. */
  class Store {
    var rows: seq<StoredEntry>
    var headSeq: Int64
    var headHash: Option<ByteString>

    function Contents(): Log
      reads this
    {
      Log(rows, headSeq, headHash)
    }

    constructor ()
      ensures Contents() == Log([], 0, None)
    {
      rows, headSeq, headHash := [], 0, None;
    }

    method Append(mac: Mac, request: Request) returns (appended: bool)
      modifies this
      ensures Contents() == AppendTo(EntryHash(mac), old(Contents()), request)
      ensures appended <==> old(headSeq) < MAX_SEQ
    {
      if headSeq == MAX_SEQ {
        return false;
      }
      var entry := NewEntry(request, headSeq + 1);
      var tag := ComputeEntryHash(mac, entry, headHash);
      rows := rows + [StoredEntry(entry, tag, headHash)];
      headSeq := headSeq + 1;
      headHash := Some(tag);
      return true;
    }
  }

  // ---------------------------------------------------------------------------
  // What appending keeps
  // ---------------------------------------------------------------------------

  /** The rows are linked from number 1 and the head describes the last of them. */
  ghost predicate Consistent(hash: Hash, log: Log) {
    && Linked(hash, log.rows, None, Some(1))
    && log.headSeq == |log.rows|
    && log.headHash == PrevAt(log.rows, None, |log.rows|)
  }

  /** Times are whole microseconds, as the column stores them. */
  ghost predicate StoredPrecision(rows: seq<StoredEntry>) {
    forall i | 0 <= i < |rows| :: rows[i].entry.occurredAt % 1000 == 0
  }

  lemma {:induction false} SequenceNumbers(
    hash: Hash, rows: seq<StoredEntry>, firstPrev: Option<ByteString>, first: int, i: nat)
    requires Linked(hash, rows, firstPrev, Some(first)) && i < |rows|
    ensures rows[i].entry.seqNo == first + i
  {
    assert FaultAt(hash, rows, firstPrev, Some(first), i).None?;
    if i > 0 {
      SequenceNumbers(hash, rows, firstPrev, first, i - 1);
    }
  }

  lemma LinkedGrows(hash: Hash, rows: seq<StoredEntry>, row: StoredEntry)
    requires Linked(hash, rows, None, Some(1))
    requires row.entry.seqNo == |rows| + 1
    requires row.prevHash == PrevAt(rows, None, |rows|) && row.entryHash == hash(row.entry, row.prevHash)
    ensures Linked(hash, rows + [row], None, Some(1))
  {
    forall i | 0 <= i < |rows| + 1 ensures FaultAt(hash, rows + [row], None, Some(1), i).None? {
      if i < |rows| {
        assert FaultAt(hash, rows, None, Some(1), i).None?;
      } else if i > 0 {
        SequenceNumbers(hash, rows, None, 1, i - 1);
      }
    }
  }

  lemma AppendKeepsConsistent(hash: Hash, log: Log, request: Request)
    requires Consistent(hash, log) && StoredPrecision(log.rows)
    ensures Consistent(hash, AppendTo(hash, log, request))
    ensures StoredPrecision(AppendTo(hash, log, request).rows)
  {
    if log.headSeq != MAX_SEQ {
      var entry := NewEntry(request, log.headSeq + 1);
      LinkedGrows(hash, log.rows, StoredEntry(entry, hash(entry, log.headHash), log.headHash));
    }
  }

  lemma {:induction false} AppendAllKeepsConsistent(hash: Hash, log: Log, requests: seq<Request>)
    requires Consistent(hash, log) && StoredPrecision(log.rows)
    ensures Consistent(hash, AppendAll(hash, log, requests))
    ensures StoredPrecision(AppendAll(hash, log, requests).rows)
    decreases |requests|
  {
    if requests != [] {
      var before := requests[..|requests| - 1];
      AppendAllKeepsConsistent(hash, log, before);
      AppendKeepsConsistent(hash, AppendAll(hash, log, before), requests[|requests| - 1]);
    }
  }

  /** The event an entry records. */
  function EventOf(e: ChainedEntry): AuditEvent {
    AuditEvent(e.actorUserId, e.actorPrincipalType, e.actorSessionId, e.actionCode, e.targetType, e.targetId,
               e.outcome, e.requestId, e.sourceIpHint, e.metadata)
  }

  /** The entry gives back the request, with SYSTEM for nobody and the time less than a microsecond nearer to zero. */
  ghost predicate Records(e: ChainedEntry, request: Request) {
    && EventOf(e) == request.event.(actorPrincipalType := e.actorPrincipalType)
    && e.actorPrincipalType == Some(if request.event.actorPrincipalType.Some? then request.event.actorPrincipalType.value else SYSTEM)
    && e.id == request.id && e.chainVersion == 2
    && e.occurredAt % 1000 == 0
    && (if request.now >= 0 then 0 <= request.now - e.occurredAt < 1000 else 0 <= e.occurredAt - request.now < 1000)
  }

  ghost predicate RecordedAt(log: Log, after: Log, requests: seq<Request>, i: nat)
    requires i < |requests| && |log.rows| + i < |after.rows|
  {
    var e := after.rows[|log.rows| + i].entry;
    e.seqNo == log.headSeq + i + 1 && Records(e, requests[i])
  }

  /** How many of `n` events there are numbers left for. */
  function Recordable(log: Log, n: nat): (k: nat)
    ensures k <= n
  {
    if log.headSeq + n <= MAX_SEQ then n else MAX_SEQ - log.headSeq
  }

  lemma AppendRecords(hash: Hash, log: Log, request: Request)
    requires log.headSeq < MAX_SEQ
    ensures var after := AppendTo(hash, log, request);
            && after.headSeq == log.headSeq + 1 && |after.rows| == |log.rows| + 1
            && after.rows[..|log.rows|] == log.rows
            && after.rows[|log.rows|].entry.seqNo == log.headSeq + 1
            && after.headHash == Some(after.rows[|log.rows|].entryHash)
            && Records(after.rows[|log.rows|].entry, request)
  {
  }

  /**
   The log holds what was there and then every event appended, in order, under consecutive
   numbers. Once the numbers have run out nothing is written any more.
   */
  lemma {:induction false} AppendedEventsAreRecorded(hash: Hash, log: Log, requests: seq<Request>)
    ensures var (n, after) := (Recordable(log, |requests|), AppendAll(hash, log, requests));
            && after.headSeq == log.headSeq + n && |after.rows| == |log.rows| + n
            && after.rows[..|log.rows|] == log.rows
            && after.headHash == (if n == 0 then log.headHash else Some(after.rows[|log.rows| + n - 1].entryHash))
            && forall i | 0 <= i < n :: RecordedAt(log, after, requests, i)
    decreases |requests|
  {
    if requests != [] {
      var (before, last) := (requests[..|requests| - 1], requests[|requests| - 1]);
      AppendedEventsAreRecorded(hash, log, before);
      var (middle, after) := (AppendAll(hash, log, before), AppendAll(hash, log, requests));
      if middle.headSeq < MAX_SEQ {
        AppendRecords(hash, middle, last);
        assert after.rows[..|log.rows|] == middle.rows[..|log.rows|];
      }
      forall i | 0 <= i < Recordable(log, |requests|) ensures RecordedAt(log, after, requests, i) {
        if |log.rows| + i < |middle.rows| {
          assert RecordedAt(log, middle, before, i);
          assert after.rows[|log.rows| + i] == middle.rows[|log.rows| + i];
        }
      }
    }
  }

  // ---------------------------------------------------------------------------
  // The command
  // ---------------------------------------------------------------------------

  /** `verify-audit` over the rows it read and the head, if the head row is there. */
  function VerifyAudit(hash: Hash, rows: seq<StoredEntry>, headSeq: Option<int>): VerificationOutcome {
    var firstSeq := if rows == [] then None else Some(rows[0].entry.seqNo as int);
    var result := VerifyRun(hash, rows, None, firstSeq);
    if result.Intact? && headSeq.Some? && result.lastSeq != headSeq.value
    then HeadMismatch(headSeq.value, result.lastSeq)
    else result
  }

  /** The head is set against the last number only where every row is good; it then outweighs INTACT. */
  lemma CommandReportsExactly(hash: Hash, rows: seq<StoredEntry>, headSeq: Option<int>)
    ensures var outcome := VerifyAudit(hash, rows, headSeq);
            var first := if rows == [] then None else Some(rows[0].entry.seqNo as int);
            var last := if rows == [] then 0 else rows[|rows| - 1].entry.seqNo;
            if !GoodUpTo(hash, rows, None, first, |rows|) then
              outcome == VerifyRun(hash, rows, None, first) && !outcome.Intact? && !outcome.HeadMismatch?
            else if headSeq.Some? && headSeq.value != last then outcome == HeadMismatch(headSeq.value, last)
            else outcome == Intact(|rows|, last)
  {
    var first := if rows == [] then None else Some(rows[0].entry.seqNo as int);
    SomewhereItStops(hash, rows, None, first);
    OutcomesAreExact(hash, rows, None, first, LastSeq(rows), 0, |rows|);
  }

  /** A row as read back: the time at stored precision, the metadata with keys in any order. */
  ghost predicate ReadsBackAs(row: StoredEntry, read: StoredEntry, precision: Int128 -> Int128) {
    && read.entryHash == row.entryHash && read.prevHash == row.prevHash
    && read.entry == row.entry.(occurredAt := precision(row.entry.occurredAt), metadata := read.entry.metadata)
    && WellFormed(read.entry.metadata) && Equivalent(read.entry.metadata, row.entry.metadata)
  }

  /** The columns of `a` and `b` that the chain covers are the same. */
  ghost predicate SameRow(a: StoredEntry, b: StoredEntry) {
    SameCovered(a.entry, b.entry) && a.entryHash == b.entryHash && a.prevHash == b.prevHash
  }

  /** `rows` is the beginning of `honest`, up to what the chain does not cover. */
  ghost predicate PrefixOf(rows: seq<StoredEntry>, honest: seq<StoredEntry>) {
    |rows| <= |honest| && forall i | 0 <= i < |rows| :: SameRow(rows[i], honest[i])
  }

  ghost predicate AllEncodable(rows: seq<StoredEntry>) {
    forall i | 0 <= i < |rows| :: Encodable(rows[i].entry)
  }

  /** Tags are 32 bytes, as for HMAC-SHA256. */
  ghost predicate TagsAre32Bytes(mac: Mac) {
    forall bytes :: |mac(bytes)| == 32
  }

  ghost predicate TagsFit(hash: Hash) {
    forall e, prev :: |hash(e, prev)| < ABSENT
  }

  /** Entries with the same covered columns get the same tag. */
  ghost predicate RespectsCovered(hash: Hash) {
    forall e, f, prev {:trigger SameCovered(e, f), hash(e, prev)} |
      Encodable(e) && Encodable(f) && FieldFits(prev) && SameCovered(e, f) ::
      hash(e, prev) == hash(f, prev)
  }

  lemma EntryHashRespectsCovered(mac: Mac)
    requires TagsAre32Bytes(mac)
    ensures TagsFit(EntryHash(mac)) && RespectsCovered(EntryHash(mac))
  {
    forall e, prev ensures |EntryHash(mac)(e, prev)| < ABSENT {
      assert EntryHash(mac)(e, prev) == mac(CanonicalBytes(e, prev));
    }
    forall e, f, prev | Encodable(e) && Encodable(f) && FieldFits(prev) && SameCovered(e, f)
      ensures EntryHash(mac)(e, prev) == EntryHash(mac)(f, prev)
    {
      CanonicalBytesIsExact(e, f, prev, prev);
    }
  }

  lemma LinkedTagsFit(hash: Hash, rows: seq<StoredEntry>, firstSeq: Option<int>, i: nat)
    requires Linked(hash, rows, None, firstSeq) && TagsFit(hash) && i <= |rows|
    ensures FieldFits(PrevAt(rows, None, i))
  {
    if i > 0 {
      assert FaultAt(hash, rows, None, firstSeq, i - 1).None?;
    }
  }

  /** A beginning of an honest log is linked. */
  lemma PrefixIsLinked(hash: Hash, honest: seq<StoredEntry>, rows: seq<StoredEntry>)
    requires TagsFit(hash) && RespectsCovered(hash) && AllEncodable(honest) && AllEncodable(rows)
    requires Linked(hash, honest, None, Some(1)) && PrefixOf(rows, honest)
    ensures Linked(hash, rows, None, Some(1))
  {
    forall i | 0 <= i < |rows| ensures FaultAt(hash, rows, None, Some(1), i).None? {
      assert FaultAt(hash, honest, None, Some(1), i).None?;
      assert SameRow(rows[i], honest[i]) && (i > 0 ==> SameRow(rows[i - 1], honest[i - 1]));
      LinkedTagsFit(hash, honest, Some(1), i);
    }
  }

  lemma PrefixVerifies(hash: Hash, honest: seq<StoredEntry>, rows: seq<StoredEntry>)
    requires TagsFit(hash) && RespectsCovered(hash) && AllEncodable(honest) && AllEncodable(rows)
    requires Linked(hash, honest, None, Some(1)) && PrefixOf(rows, honest)
    ensures VerifyAudit(hash, rows, None) == Intact(|rows|, |rows|)
  {
    PrefixIsLinked(hash, honest, rows);
    if rows != [] {
      SequenceNumbers(hash, rows, None, 1, 0);
      SequenceNumbers(hash, rows, None, 1, |rows| - 1);
    }
    VerifyRunIsExact(hash, rows, None, if rows == [] then None else Some(1));
  }

  /**
   Whatever was appended verifies when it is read back, in front of an older log of
   any layout versions: no honest history is reported as tampered.
   */
  lemma AppendedLogVerifies(
    mac: Mac, start: Log, requests: seq<Request>, read: seq<StoredEntry>, precision: Int128 -> Int128)
    requires TagsAre32Bytes(mac)
    requires Consistent(EntryHash(mac), start) && StoredPrecision(start.rows)
    requires forall t: Int128 | t % 1000 == 0 :: precision(t) == t
    requires var log := AppendAll(EntryHash(mac), start, requests);
             && AllEncodable(log.rows) && AllEncodable(read) && |read| == |log.rows|
             && forall i | 0 <= i < |read| :: ReadsBackAs(log.rows[i], read[i], precision)
    ensures var log := AppendAll(EntryHash(mac), start, requests);
            VerifyAudit(EntryHash(mac), read, Some(log.headSeq)) == Intact(|read|, |read|)
  {
    AppendAllKeepsConsistent(EntryHash(mac), start, requests);
    var log := AppendAll(EntryHash(mac), start, requests);
    forall i | 0 <= i < |read| ensures SameRow(read[i], log.rows[i]) {
      assert ReadsBackAs(log.rows[i], read[i], precision);
      NormalIsExact(read[i].entry.metadata, log.rows[i].entry.metadata);
    }
    EntryHashRespectsCovered(mac);
    PrefixVerifies(EntryHash(mac), log.rows, read);
  }

  // ---------------------------------------------------------------------------
  // Tamper evidence
  // ---------------------------------------------------------------------------

  /**
   Without the key, a stored tag that matches when the verifier recomputes it, from the
   row and the tag before it in the table, is a tag that an append computed over those
   very bytes. Nothing is asked of tags over bytes that are not in the table.
   */
  ghost predicate Unforged(mac: Mac, honest: seq<StoredEntry>, rows: seq<StoredEntry>) {
    forall i | 0 <= i < |rows| && TagMatches(EntryHash(mac), rows[i], PrevAt(rows, None, i)) ::
      BytesWereAppended(honest, rows[i].entry, PrevAt(rows, None, i))
  }

  /** The row's tag is right for the row after the entry tagged `prev`. */
  ghost predicate TagMatches(hash: Hash, row: StoredEntry, prev: Option<ByteString>) {
    FieldFits(prev) && row.entryHash == hash(row.entry, prev)
  }

  ghost predicate BytesWereAppended(honest: seq<StoredEntry>, e: ChainedEntry, prev: Option<ByteString>) {
    exists j :: 0 <= j < |honest| && CanonicalBytes(e, prev) == CanonicalBytes(honest[j].entry, honest[j].prevHash)
  }

  /** Every row with a matching tag has the covered columns of an entry appended after the same tag. */
  ghost predicate TagsWereAppended(hash: Hash, honest: seq<StoredEntry>, rows: seq<StoredEntry>) {
    forall i | 0 <= i < |rows| && TagMatches(hash, rows[i], PrevAt(rows, None, i)) ::
      WasAppended(honest, rows[i].entry, PrevAt(rows, None, i))
  }

  ghost predicate WasAppended(honest: seq<StoredEntry>, e: ChainedEntry, prev: Option<ByteString>) {
    exists j :: 0 <= j < |honest| && prev == honest[j].prevHash && SameCovered(e, honest[j].entry)
  }

  lemma AppendedBytesAreAppended(mac: Mac, honest: seq<StoredEntry>, e: ChainedEntry, prev: Option<ByteString>)
    requires TagsFit(EntryHash(mac)) && AllEncodable(honest) && Encodable(e) && FieldFits(prev)
    requires Linked(EntryHash(mac), honest, None, Some(1)) && BytesWereAppended(honest, e, prev)
    ensures WasAppended(honest, e, prev)
  {
    var j :| 0 <= j < |honest| && CanonicalBytes(e, prev) == CanonicalBytes(honest[j].entry, honest[j].prevHash);
    LinkedPrevFits(EntryHash(mac), honest, j);
    CanonicalBytesIsExact(e, honest[j].entry, prev, honest[j].prevHash);
  }

  lemma LinkedPrevFits(hash: Hash, honest: seq<StoredEntry>, j: nat)
    requires TagsFit(hash) && Linked(hash, honest, None, Some(1)) && j < |honest|
    ensures FieldFits(honest[j].prevHash)
  {
    assert FaultAt(hash, honest, None, Some(1), j).None?;
    LinkedTagsFit(hash, honest, Some(1), j);
  }

  lemma UnforgedTagsWereAppended(mac: Mac, honest: seq<StoredEntry>, rows: seq<StoredEntry>)
    requires TagsAre32Bytes(mac) && AllEncodable(honest) && AllEncodable(rows)
    requires Linked(EntryHash(mac), honest, None, Some(1)) && Unforged(mac, honest, rows)
    ensures TagsWereAppended(EntryHash(mac), honest, rows)
  {
    EntryHashRespectsCovered(mac);
    forall i | 0 <= i < |rows| && TagMatches(EntryHash(mac), rows[i], PrevAt(rows, None, i))
      ensures WasAppended(honest, rows[i].entry, PrevAt(rows, None, i))
    {
      AppendedBytesAreAppended(mac, honest, rows[i].entry, PrevAt(rows, None, i));
    }
  }

  /** Every beginning of the appended history meets the hypothesis, whatever the MAC. */
  lemma UntouchedIsUnforged(mac: Mac, honest: Log, rows: seq<StoredEntry>)
    requires TagsAre32Bytes(mac) && Consistent(EntryHash(mac), honest)
    requires AllEncodable(honest.rows) && AllEncodable(rows) && PrefixOf(rows, honest.rows)
    ensures Unforged(mac, honest.rows, rows)
  {
    EntryHashRespectsCovered(mac);
    forall i | 0 <= i < |rows| ensures BytesWereAppended(honest.rows, rows[i].entry, PrevAt(rows, None, i)) {
      HonestRowWasAppended(mac, honest.rows, rows, i);
    }
  }

  lemma HonestRowWasAppended(mac: Mac, honest: seq<StoredEntry>, rows: seq<StoredEntry>, i: nat)
    requires TagsFit(EntryHash(mac)) && Linked(EntryHash(mac), honest, None, Some(1)) && i < |rows|
    requires AllEncodable(honest) && AllEncodable(rows) && PrefixOf(rows, honest)
    ensures BytesWereAppended(honest, rows[i].entry, PrevAt(rows, None, i))
  {
    assert SameRow(rows[i], honest[i]) && (i > 0 ==> SameRow(rows[i - 1], honest[i - 1]));
    assert FaultAt(EntryHash(mac), honest, None, Some(1), i).None?;
    LinkedPrevFits(EntryHash(mac), honest, i);
    CanonicalBytesIsExact(rows[i].entry, honest[i].entry, honest[i].prevHash, honest[i].prevHash);
  }

  lemma NumberAfterPrefix(hash: Hash, honest: seq<StoredEntry>, rows: seq<StoredEntry>, firstSeq: int, i: nat)
    requires Linked(hash, honest, None, Some(1)) && Linked(hash, rows, None, Some(firstSeq))
    requires 0 < i < |rows| && i <= |honest| && rows[i - 1].entry.seqNo == honest[i - 1].entry.seqNo
    ensures rows[i].entry.seqNo == i + 1
  {
    assert FaultAt(hash, rows, None, Some(firstSeq), i).None?;
    SequenceNumbers(hash, honest, None, 1, i - 1);
  }

  /** A row that is linked belongs to some appended entry with the same previous tag. */
  lemma LinkedRowWasAppended(hash: Hash, honest: seq<StoredEntry>, rows: seq<StoredEntry>, firstSeq: int, i: nat)
    requires TagsFit(hash) && TagsWereAppended(hash, honest, rows)
    requires Linked(hash, rows, None, Some(firstSeq)) && i < |rows|
    ensures rows[i].prevHash == PrevAt(rows, None, i)
    ensures rows[i].entryHash == hash(rows[i].entry, rows[i].prevHash)
    ensures FieldFits(rows[i].prevHash) && WasAppended(honest, rows[i].entry, rows[i].prevHash)
  {
    assert FaultAt(hash, rows, None, Some(firstSeq), i).None?;
    LinkedTagsFit(hash, rows, Some(firstSeq), i);
    assert TagMatches(hash, rows[i], PrevAt(rows, None, i));
  }

  /** An entry that verifies after `i` honest ones is the honest entry at that place. */
  lemma VerifiedRowIsHonest(hash: Hash, honest: seq<StoredEntry>, rows: seq<StoredEntry>, firstSeq: int, i: nat)
    requires TagsFit(hash) && RespectsCovered(hash) && AllEncodable(honest) && AllEncodable(rows)
    requires Linked(hash, honest, None, Some(1))
    requires Linked(hash, rows, None, Some(firstSeq)) && TagsWereAppended(hash, honest, rows)
    requires i < |rows| && PrefixOf(rows[..i], honest)
    ensures i < |honest| && SameRow(rows[i], honest[i])
  {
    LinkedRowWasAppended(hash, honest, rows, firstSeq, i);
    var (e, prev) := (rows[i].entry, rows[i].prevHash);
    var j :| 0 <= j < |honest| && prev == honest[j].prevHash && SameCovered(e, honest[j].entry);
    assert FaultAt(hash, honest, None, Some(1), j).None?;
    SequenceNumbers(hash, honest, None, 1, j);
    if i > 0 {
      assert SameRow(rows[..i][i - 1], honest[i - 1]);
      NumberAfterPrefix(hash, honest, rows, firstSeq, i);
    }
    assert j == i;
    assert hash(e, prev) == hash(honest[j].entry, prev);
  }

  lemma {:induction false} VerifiedRowsAreHonest(
    hash: Hash, honest: seq<StoredEntry>, rows: seq<StoredEntry>, firstSeq: int, i: nat)
    requires TagsFit(hash) && RespectsCovered(hash) && AllEncodable(honest) && AllEncodable(rows)
    requires Linked(hash, honest, None, Some(1))
    requires Linked(hash, rows, None, Some(firstSeq)) && TagsWereAppended(hash, honest, rows)
    requires i <= |rows|
    ensures PrefixOf(rows[..i], honest)
  {
    if i > 0 {
      VerifiedRowsAreHonest(hash, honest, rows, firstSeq, i - 1);
      VerifiedRowIsHonest(hash, honest, rows, firstSeq, i - 1);
      forall k | 0 <= k < i ensures SameRow(rows[..i][k], honest[k]) {
        assert k < i - 1 ==> SameRow(rows[..i - 1][k], honest[k]);
      }
    }
  }

  /**
   For every table an adversary without the key can leave, and every head record:
   the command says INTACT exactly if the rows are a beginning of the appended
   history and the head, if present, counts exactly those rows.
   */
  lemma TamperEvidence(mac: Mac, honest: Log, rows: seq<StoredEntry>, headSeq: Option<int>)
    requires TagsAre32Bytes(mac) && Consistent(EntryHash(mac), honest)
    requires AllEncodable(honest.rows) && AllEncodable(rows) && Unforged(mac, honest.rows, rows)
    ensures VerifyAudit(EntryHash(mac), rows, headSeq).Intact? <==>
              PrefixOf(rows, honest.rows) && (headSeq.Some? ==> headSeq.value == |rows|)
  {
    var hash := EntryHash(mac);
    EntryHashRespectsCovered(mac);
    UnforgedTagsWereAppended(mac, honest.rows, rows);
    if PrefixOf(rows, honest.rows) {
      PrefixVerifies(hash, honest.rows, rows);
    }
    if VerifyAudit(hash, rows, None).Intact? && rows != [] {
      var first := rows[0].entry.seqNo;
      VerifyRunIsExact(hash, rows, None, Some(first));
      VerifiedRowsAreHonest(hash, honest.rows, rows, first, |rows|);
      assert rows[..|rows|] == rows;
    }
  }

  /** With the head as the last append left it, every change to a covered column or row is found. */
  lemma HonestHeadDetectsEverything(mac: Mac, honest: Log, rows: seq<StoredEntry>)
    requires TagsAre32Bytes(mac) && Consistent(EntryHash(mac), honest)
    requires AllEncodable(honest.rows) && AllEncodable(rows) && Unforged(mac, honest.rows, rows)
    ensures VerifyAudit(EntryHash(mac), rows, Some(honest.headSeq)).Intact? <==>
              |rows| == |honest.rows| && PrefixOf(rows, honest.rows)
  {
    TamperEvidence(mac, honest, rows, Some(honest.headSeq));
  }

  /** The head record carries no tag: dropping the last rows and rewinding or removing it goes unnoticed. */
  lemma RewoundHeadHidesTruncation(mac: Mac, honest: Log, kept: nat)
    requires TagsAre32Bytes(mac) && Consistent(EntryHash(mac), honest) && AllEncodable(honest.rows)
    requires kept < |honest.rows|
    ensures VerifyAudit(EntryHash(mac), honest.rows[..kept], Some(kept)) == Intact(kept, kept)
    ensures VerifyAudit(EntryHash(mac), honest.rows[..kept], None) == Intact(kept, kept)
  {
    EntryHashRespectsCovered(mac);
    PrefixVerifies(EntryHash(mac), honest.rows, honest.rows[..kept]);
  }

  // ---------------------------------------------------------------------------
  // The endpoint
  // ---------------------------------------------------------------------------

  const DEFAULT_VERIFY_WINDOW: int := 10_000
  const MAX_VERIFY_WINDOW: int := 100_000

  function Saturate64(x: int): Int64 {
    if x < -0x8000_0000_0000_0000 then -0x8000_0000_0000_0000
    else if x > MAX_SEQ then MAX_SEQ
    else x
  }

  datatype Window = Window(firstSeq: int, limit: int)

  /** Bounds the window; None is a validation error. */
  function ResolveVerifyWindow(fromSeq: Option<Int64>, limit: Option<Int64>, headSeq: Int64): (w: Option<Window>)
    ensures w.Some? ==> 1 <= w.value.firstSeq && 1 <= w.value.limit <= MAX_VERIFY_WINDOW
  {
    var size := if limit.None? then DEFAULT_VERIFY_WINDOW else limit.value;
    if size < 1 || size > MAX_VERIFY_WINDOW then None
    else
      match fromSeq
      case Some(first) => if first < 1 then None else Some(Window(first, size))
      case None =>
        var first := Saturate64(Saturate64(headSeq - size) + 1);
        Some(Window(if first < 1 then 1 else first, size))
  }

  /** A window that is asked for is taken as it is or refused; by default it holds the last entries up to the head. */
  lemma ResolveIsExact(fromSeq: Option<Int64>, limit: Option<Int64>, headSeq: Int64, n: int)
    requires headSeq >= 0
    ensures var w := ResolveVerifyWindow(fromSeq, limit, headSeq);
            && (w.None? <==> (limit.Some? && !(1 <= limit.value <= 100_000)) || (fromSeq.Some? && fromSeq.value < 1))
            && (w.Some? ==> w.value.limit == if limit.Some? then limit.value else 10_000)
            && (w.Some? && fromSeq.Some? ==> w.value.firstSeq == fromSeq.value)
            && (w.Some? && fromSeq.None? && 1 <= n <= headSeq ==> (n >= w.value.firstSeq <==> headSeq - n < w.value.limit))
  {
  }

  /** The primary key: numbers rise along the table. */
  ghost predicate Ascending(table: seq<StoredEntry>) {
    forall i, j | 0 <= i < j < |table| :: table[i].entry.seqNo < table[j].entry.seqNo
  }

  /** How many rows come before number `first`. */
  function CountBelow(table: seq<StoredEntry>, first: int): (n: nat)
    ensures n <= |table|
    ensures forall i | 0 <= i < n :: table[i].entry.seqNo < first
    ensures n < |table| ==> table[n].entry.seqNo >= first
  {
    if table == [] || table[0].entry.seqNo >= first then 0
    else
      var n := CountBelow(table[1..], first);
      assert forall i | 1 <= i < n + 1 :: table[i] == table[1..][i - 1];
      n + 1
  }

  /** The window's rows: from `first`, ascending, at most `limit`. */
  function ChainRun(table: seq<StoredEntry>, w: Window): seq<StoredEntry>
    requires w.limit >= 1
  {
    var n := CountBelow(table, w.firstSeq);
    if n + w.limit < |table| then table[n..n + w.limit] else table[n..]
  }

  function ExpectedPrev(table: seq<StoredEntry>, w: Window): Option<ByteString> {
    PrevAt(table, None, CountBelow(table, w.firstSeq))
  }

  /** The number after the predecessor's, or 1 without one. */
  function ExpectedSeq(table: seq<StoredEntry>, w: Window): int {
    ExpectedAt(table, Some(1), CountBelow(table, w.firstSeq)).value
  }

  /** The rows of a window are those from its first number on, the lowest first and no more than its limit. */
  lemma WindowIsQuery(table: seq<StoredEntry>, w: Window, i: nat)
    requires Ascending(table) && w.limit >= 1 && i < |table|
    ensures var rows := ChainRun(table, w);
            && |rows| <= w.limit && Ascending(rows)
            && (table[i] in rows ==> table[i].entry.seqNo >= w.firstSeq)
            && (table[i].entry.seqNo >= w.firstSeq && table[i] !in rows ==>
                  |rows| == w.limit && rows[|rows| - 1].entry.seqNo < table[i].entry.seqNo)
  {
    var (n, rows) := (CountBelow(table, w.firstSeq), ChainRun(table, w));
    forall k | 0 <= k < |rows| ensures rows[k] == table[n + k] && rows[k].entry.seqNo >= w.firstSeq {
      assert k > 0 ==> table[n].entry.seqNo < table[n + k].entry.seqNo;
    }
    if n <= i < n + |rows| {
      assert rows[i - n] == table[i];
    }
  }

  /** It is anchored at the last row before it. */
  lemma AnchorIsPredecessor(table: seq<StoredEntry>, w: Window, i: nat)
    requires Ascending(table) && i < |table| && table[i].entry.seqNo < w.firstSeq
    requires i + 1 < |table| ==> table[i + 1].entry.seqNo >= w.firstSeq
    ensures ExpectedPrev(table, w) == Some(table[i].entryHash) && ExpectedSeq(table, w) == table[i].entry.seqNo + 1
  {
    forall k | 0 <= k <= i ensures table[k].entry.seqNo < w.firstSeq {
    }
  }

  /** Without a row before it, it is anchored at number 1. */
  lemma FirstWindowHasNoPredecessor(table: seq<StoredEntry>, w: Window)
    requires forall k | 0 <= k < |table| :: table[k].entry.seqNo >= w.firstSeq
    ensures ExpectedPrev(table, w) == None && ExpectedSeq(table, w) == 1
  {
  }

  datatype Report = Report(
    outcome: VerificationOutcome,
    entriesChecked: int,
    firstDivergentSeq: Option<int>,
    checkedFromSeq: int,
    checkedToSeq: int,
    reachedChainHead: bool)

  function WindowOutcome(hash: Hash, table: seq<StoredEntry>, headSeq: Int64, headHash: Option<ByteString>, w: Window)
    : VerificationOutcome
    requires w.limit >= 1
  {
    var rows := ChainRun(table, w);
    var outcome := VerifyRun(hash, rows, ExpectedPrev(table, w), Some(ExpectedSeq(table, w)));
    if outcome.Intact? && |rows| < w.limit &&
       (LastSeq(rows) != headSeq || (rows != [] && Some(rows[|rows| - 1].entryHash) != headHash))
    then HeadMismatch(headSeq, LastSeq(rows))
    else outcome
  }

  /** The count reported for an outcome; a gap carries none, so it is derived from the first number read. */
  function ReportedCount(outcome: VerificationOutcome, from: int, read: nat): int {
    match outcome
    case Intact(n, _) => n
    case HashMismatch(_, n) => n
    case BrokenLink(_, n) => n
    case MissingSequence(expected, _) => if expected - from >= 0 then expected - from else 0
    case HeadMismatch(_, _) => read
  }

  function DivergentSeq(outcome: VerificationOutcome): Option<int> {
    match outcome
    case Intact(_, _) => None
    case HashMismatch(s, _) => Some(s)
    case BrokenLink(s, _) => Some(s)
    case MissingSequence(expected, _) => Some(expected)
    case HeadMismatch(_, last) => Some(last)
  }

  function VerifyWindow(hash: Hash, table: seq<StoredEntry>, headSeq: Int64, headHash: Option<ByteString>, w: Window): Report
    requires w.limit >= 1
  {
    var rows := ChainRun(table, w);
    var outcome := WindowOutcome(hash, table, headSeq, headHash, w);
    var from := if rows == [] then w.firstSeq else rows[0].entry.seqNo;
    Report(outcome, ReportedCount(outcome, from, |rows|), DivergentSeq(outcome), from, LastSeq(rows), |rows| < w.limit)
  }

  lemma WindowStart(table: seq<StoredEntry>, w: Window)
    requires Ascending(table) && w.firstSeq >= 1 && w.limit >= 1
    ensures ExpectedSeq(table, w) <= w.firstSeq
    ensures ChainRun(table, w) != [] ==> ChainRun(table, w)[0].entry.seqNo >= w.firstSeq
  {
  }

  /** In the default window, INTACT means the rows read reach the head: a truncated tail is seen. */
  lemma DefaultWindowReachesHead(
    hash: Hash, table: seq<StoredEntry>, headSeq: Int64, headHash: Option<ByteString>, limit: Option<Int64>)
    requires Ascending(table) && ResolveVerifyWindow(None, limit, headSeq).Some?
    ensures var w := ResolveVerifyWindow(None, limit, headSeq).value;
            WindowOutcome(hash, table, headSeq, headHash, w).Intact? ==> LastSeq(ChainRun(table, w)) >= headSeq
  {
    var w := ResolveVerifyWindow(None, limit, headSeq).value;
    var rows := ChainRun(table, w);
    WindowStart(table, w);
    VerifyRunIsExact(hash, rows, ExpectedPrev(table, w), Some(ExpectedSeq(table, w)));
    if WindowOutcome(hash, table, headSeq, headHash, w).Intact? && |rows| == w.limit {
      SequenceNumbers(hash, rows, ExpectedPrev(table, w), ExpectedSeq(table, w), 0);
      SequenceNumbers(hash, rows, ExpectedPrev(table, w), ExpectedSeq(table, w), |rows| - 1);
    }
  }

  lemma ConsistentIsAscending(hash: Hash, log: Log)
    requires Consistent(hash, log)
    ensures forall i | 0 <= i < |log.rows| :: log.rows[i].entry.seqNo == i + 1
  {
    forall i | 0 <= i < |log.rows| ensures log.rows[i].entry.seqNo == i + 1 {
      SequenceNumbers(hash, log.rows, None, 1, i);
    }
  }

  /** The window of an untouched log, linked to its predecessor. */
  lemma WindowIsLinked(hash: Hash, log: Log, w: Window)
    requires Consistent(hash, log) && w.firstSeq >= 1 && w.limit >= 1
    ensures Linked(hash, ChainRun(log.rows, w), ExpectedPrev(log.rows, w), Some(ExpectedSeq(log.rows, w)))
    ensures CountBelow(log.rows, w.firstSeq) == if w.firstSeq <= |log.rows| then w.firstSeq - 1 else |log.rows|
  {
    var rows, n := ChainRun(log.rows, w), CountBelow(log.rows, w.firstSeq);
    ConsistentIsAscending(hash, log);
    forall i | 0 <= i < |rows|
      ensures FaultAt(hash, rows, ExpectedPrev(log.rows, w), Some(ExpectedSeq(log.rows, w)), i).None?
    {
      assert FaultAt(hash, log.rows, None, Some(1), n + i).None?;
      assert rows[i] == log.rows[n + i];
      assert i > 0 ==> rows[i - 1] == log.rows[n + i - 1];
    }
  }

  /** An untouched log is INTACT from every start up to its head, and only from those. */
  lemma UntouchedWindowIsIntact(hash: Hash, log: Log, w: Window)
    requires Consistent(hash, log) && w.firstSeq >= 1 && w.limit >= 1
    ensures WindowOutcome(hash, log.rows, log.headSeq, log.headHash, w).Intact? <==>
              w.firstSeq <= log.headSeq || log.headSeq == 0
  {
    var rows, n := ChainRun(log.rows, w), CountBelow(log.rows, w.firstSeq);
    WindowIsLinked(hash, log, w);
    ConsistentIsAscending(hash, log);
    VerifyRunIsExact(hash, rows, ExpectedPrev(log.rows, w), Some(ExpectedSeq(log.rows, w)));
    if rows != [] {
      assert rows[|rows| - 1] == log.rows[n + |rows| - 1];
    }
  }

  /** The reported count is the number of entries verified before the first fault. */
  lemma ReportedCountIsExact(
    hash: Hash, table: seq<StoredEntry>, headSeq: Int64, headHash: Option<ByteString>, w: Window)
    requires Ascending(table) && w.firstSeq >= 1 && w.limit >= 1
    ensures var report := VerifyWindow(hash, table, headSeq, headHash, w);
            var (rows, prev, expected) := (ChainRun(table, w), ExpectedPrev(table, w), Some(ExpectedSeq(table, w)));
            if Linked(hash, rows, prev, expected) then report.entriesChecked == |rows|
            else report.entriesChecked >= 0 && FirstFault(hash, rows, prev, expected, report.entriesChecked)
  {
    var (rows, prev, first) := (ChainRun(table, w), ExpectedPrev(table, w), ExpectedSeq(table, w));
    VerifyRunIsExact(hash, rows, prev, Some(first));
    if !Linked(hash, rows, prev, Some(first)) {
      var k: nat :| FirstFault(hash, rows, prev, Some(first), k) &&
                    VerifyRun(hash, rows, prev, Some(first)) == FaultAt(hash, rows, prev, Some(first), k).value;
      WindowStart(table, w);
      FaultIsCounted(hash, rows, prev, first, k);
    }
  }

  lemma FaultIsCounted(hash: Hash, rows: seq<StoredEntry>, prev: Option<ByteString>, first: int, k: nat)
    requires FirstFault(hash, rows, prev, Some(first), k) && first <= rows[0].entry.seqNo
    ensures !FaultAt(hash, rows, prev, Some(first), k).value.Intact?
    ensures ReportedCount(FaultAt(hash, rows, prev, Some(first), k).value, rows[0].entry.seqNo, |rows|) == k
  {
    if k > 0 {
      NumbersBeforeFault(hash, rows, prev, first, k, k - 1);
      NumbersBeforeFault(hash, rows, prev, first, k, 0);
    }
  }

  lemma {:induction false} NumbersBeforeFault(
    hash: Hash, rows: seq<StoredEntry>, prev: Option<ByteString>, first: int, k: nat, i: nat)
    requires FirstFault(hash, rows, prev, Some(first), k) && i < k
    ensures rows[i].entry.seqNo == first + i
  {
    assert FaultAt(hash, rows, prev, Some(first), i).None?;
    if i > 0 {
      NumbersBeforeFault(hash, rows, prev, first, k, i - 1);
    }
  }

  /** A window's rows are good, and it read fewer than it asked for although the head is elsewhere. */
  ghost predicate MissesHead(hash: Hash, table: seq<StoredEntry>, headSeq: Int64, headHash: Option<ByteString>, w: Window)
    requires w.limit >= 1
  {
    var rows := ChainRun(table, w);
    && GoodUpTo(hash, rows, ExpectedPrev(table, w), Some(ExpectedSeq(table, w)), |rows|) && |rows| < w.limit
    && (rows == [] ==> headSeq != 0)
    && (rows != [] ==> rows[|rows| - 1].entry.seqNo != headSeq || Some(rows[|rows| - 1].entryHash) != headHash)
  }

  /** The rows of a window are good up to row `n`, which is not. */
  ghost predicate WindowStopsAt(hash: Hash, table: seq<StoredEntry>, w: Window, n: nat)
    requires w.limit >= 1
  {
    StopsAt(hash, ChainRun(table, w), ExpectedPrev(table, w), Some(ExpectedSeq(table, w)), n)
  }

  lemma WindowOutcomeIsExact(
    hash: Hash, table: seq<StoredEntry>, headSeq: Int64, headHash: Option<ByteString>, w: Window)
    requires w.limit >= 1
    ensures var (rows, outcome) := (ChainRun(table, w), WindowOutcome(hash, table, headSeq, headHash, w));
            var run := VerifyRun(hash, rows, ExpectedPrev(table, w), Some(ExpectedSeq(table, w)));
            && (MissesHead(hash, table, headSeq, headHash, w) ==>
                  outcome == HeadMismatch(headSeq, if rows == [] then 0 else rows[|rows| - 1].entry.seqNo))
            && (!MissesHead(hash, table, headSeq, headHash, w) ==> outcome == run && !run.HeadMismatch?)
            && (outcome.Intact? || MissesHead(hash, table, headSeq, headHash, w) ||
                exists n: nat :: WindowStopsAt(hash, table, w, n))
  {
    var rows := ChainRun(table, w);
    SomewhereItStops(hash, rows, ExpectedPrev(table, w), Some(ExpectedSeq(table, w)));
    OutcomesAreExact(hash, rows, ExpectedPrev(table, w), Some(ExpectedSeq(table, w)), LastSeq(rows), 0, |rows|);
    if n: nat :| StopsAt(hash, rows, ExpectedPrev(table, w), Some(ExpectedSeq(table, w)), n) {
      assert WindowStopsAt(hash, table, w, n);
    }
  }

  /**
   The report names the number of the row that stopped it, or the number that was missing
   there, or the last number read if the head is elsewhere.
   */
  lemma DivergenceIsExact(
    hash: Hash, table: seq<StoredEntry>, headSeq: Int64, headHash: Option<ByteString>, w: Window, n: nat)
    requires w.limit >= 1
    ensures var (rows, report) := (ChainRun(table, w), VerifyWindow(hash, table, headSeq, headHash, w));
            && (report.firstDivergentSeq.None? <==> report.outcome.Intact?)
            && (MissesHead(hash, table, headSeq, headHash, w) ==>
                  report.firstDivergentSeq == Some(if rows == [] then 0 else rows[|rows| - 1].entry.seqNo))
            && (WindowStopsAt(hash, table, w, n) ==>
                  report.firstDivergentSeq == Some(
                    if IsNumbered(rows, Some(ExpectedSeq(table, w)), n) then rows[n].entry.seqNo
                    else if n == 0 then ExpectedSeq(table, w)
                    else rows[n - 1].entry.seqNo + 1))
            && report.checkedFromSeq == (if rows == [] then w.firstSeq else rows[0].entry.seqNo)
            && report.checkedToSeq == (if rows == [] then 0 else rows[|rows| - 1].entry.seqNo)
            && (report.reachedChainHead <==> |rows| < w.limit)
  {
    WindowOutcomeIsExact(hash, table, headSeq, headHash, w);
    if WindowStopsAt(hash, table, w, n) {
      StopIsReported(hash, ChainRun(table, w), ExpectedPrev(table, w), Some(ExpectedSeq(table, w)), n);
    }
  }
}
