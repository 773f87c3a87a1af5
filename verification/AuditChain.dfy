/**
 The audit hash chain: the exact bytes an entry is authenticated over, and the
 verification of a run of stored entries.

 The keyed MAC is any function from bytes to tags; nothing here depends on which.
 */
module AuditChain {
  import opened Bytes
  import opened CanonicalJson

  /** The length that marks an absent field. */
  const ABSENT: nat := 0xFFFF_FFFF_FFFF_FFFF

  /** The layout every new entry is hashed under. */
  const CURRENT_CHAIN_VERSION: Int16 := 2

  /** Ids are the bytes of a UUID, texts are UTF-8 bytes, times are nanoseconds. */
  datatype ChainedEntry = ChainedEntry(
    chainVersion: Int16,
    seqNo: Int64,
    id: ByteString,
    occurredAt: Int128,
    actorUserId: Option<ByteString>,
    actorPrincipalType: Option<ByteString>,
    actorSessionId: Option<ByteString>,
    actionCode: ByteString,
    targetType: Option<ByteString>,
    targetId: Option<ByteString>,
    outcome: ByteString,
    requestId: Option<ByteString>,
    sourceIpHint: Option<ByteString>,
    metadata: Json)

  /** An audit row: the entry, the tag stored with it and the previous tag it recorded. */
  datatype StoredEntry = StoredEntry(entry: ChainedEntry, entryHash: ByteString, prevHash: Option<ByteString>)

  type Field = Option<ByteString>

  type Mac = ByteString -> ByteString

  type Hash = (ChainedEntry, Option<ByteString>) -> ByteString

  // ---------------------------------------------------------------------------
  // The bytes
  // ---------------------------------------------------------------------------

  function EncodeField(field: Field): ByteString {
    match field
    case None => BigEndian(ABSENT, 8)
    case Some(bytes) => BigEndian(|bytes|, 8) + bytes
  }

  function Encode(fields: List<Field>): ByteString {
    if fields.Nil? then [] else EncodeField(fields.head) + Encode(fields.tail)
  }

  /** From version 2 on, the layout carries the version and the address hint. */
  predicate CoversHint(e: ChainedEntry) {
    e.chainVersion >= 2
  }

  function Fields(e: ChainedEntry, prevHash: Option<ByteString>): List<Field> {
    Cons(prevHash, if CoversHint(e) then Cons(Some(BigEndian16(e.chainVersion)), EntryFields(e)) else EntryFields(e))
  }

  function EntryFields(e: ChainedEntry): List<Field> {
    Cons(Some(BigEndian64(e.seqNo)),
    Cons(Some(e.id),
    Cons(Some(BigEndian128(e.occurredAt)),
    Cons(e.actorUserId,
    Cons(e.actorPrincipalType,
    Cons(e.actorSessionId,
    Cons(Some(e.actionCode),
    Cons(e.targetType,
    Cons(e.targetId,
    Cons(Some(e.outcome),
    Cons(e.requestId,
    LastFields(e))))))))))))
  }

  function LastFields(e: ChainedEntry): List<Field> {
    var metadata := Cons(Some(CanonicalText(e.metadata)), Nil);
    if CoversHint(e) then Cons(e.sourceIpHint, metadata) else metadata
  }

  function CanonicalBytes(e: ChainedEntry, prevHash: Option<ByteString>): ByteString {
    Encode(Fields(e, prevHash))
  }

  /** The tag of an entry after the entry with the given tag. */
  function EntryHash(mac: Mac): Hash {
    (e, prevHash) => mac(CanonicalBytes(e, prevHash))
  }

  /** The byte vector that the fields are appended to. */
  class Buffer {
    var data: ByteString

    constructor ()
      ensures data == []
    {
      data := [];
    }

    method PushField(value: Field)
      modifies this
      ensures data == old(data) + EncodeField(value)
      ensures forall rest :: data + Encode(rest) == old(data) + Encode(Cons(value, rest))
    {
      ghost var before := data;
      match value
      case None =>
        data := data + BigEndian(ABSENT, 8);
      case Some(bytes) =>
        data := data + BigEndian(|bytes|, 8);
        Associative(before, BigEndian(|bytes|, 8), bytes);
        data := data + bytes;
      forall rest ensures data + Encode(rest) == before + Encode(Cons(value, rest)) {
        Associative(before, EncodeField(value), Encode(rest));
      }
    }
  }

  method BuildCanonicalBytes(e: ChainedEntry, prevHash: Option<ByteString>) returns (bytes: ByteString)
    ensures bytes == CanonicalBytes(e, prevHash)
  {
    var buf := new Buffer();
    ghost var whole := Encode(Fields(e, prevHash));
    assert buf.data + whole == whole;
    buf.PushField(prevHash);
    if e.chainVersion >= 2 {
      buf.PushField(Some(BigEndian16(e.chainVersion)));
    }
    assert buf.data + Encode(EntryFields(e)) == whole;
    buf.PushField(Some(BigEndian64(e.seqNo)));
    buf.PushField(Some(e.id));
    buf.PushField(Some(BigEndian128(e.occurredAt)));
    buf.PushField(e.actorUserId);
    buf.PushField(e.actorPrincipalType);
    buf.PushField(e.actorSessionId);
    buf.PushField(Some(e.actionCode));
    buf.PushField(e.targetType);
    buf.PushField(e.targetId);
    buf.PushField(Some(e.outcome));
    buf.PushField(e.requestId);
    assert buf.data + Encode(LastFields(e)) == whole;
    if e.chainVersion >= 2 {
      buf.PushField(e.sourceIpHint);
    }
    buf.PushField(Some(CanonicalText(e.metadata)));
    assert buf.data + Encode(Nil) == buf.data;
    bytes := buf.data;
  }

  // ---------------------------------------------------------------------------
  // Reading the bytes back
  // ---------------------------------------------------------------------------

  predicate FieldFits(field: Field) {
    field.Some? ==> |field.value| < ABSENT
  }

  predicate AllFit(fields: List<Field>) {
    fields.Cons? ==> FieldFits(fields.head) && AllFit(fields.tail)
  }

  /** Field lengths stay below the sentinel and the metadata is a JSON value with distinct keys. */
  predicate Encodable(e: ChainedEntry) {
    && |e.id| < ABSENT && |e.actionCode| < ABSENT && |e.outcome| < ABSENT
    && FieldFits(e.actorUserId) && FieldFits(e.actorPrincipalType) && FieldFits(e.actorSessionId)
    && FieldFits(e.targetType) && FieldFits(e.targetId) && FieldFits(e.requestId) && FieldFits(e.sourceIpHint)
    && |CanonicalText(e.metadata)| < ABSENT && WellFormed(e.metadata)
  }

  /** Eight bytes of length and as many bytes, or the greatest length for a field that is not there. */
  function ReadField(bytes: ByteString): (r: Option<Read<Field>>)
    ensures r.Some? ==> |r.value.rest| < |bytes|
  {
    if |bytes| < 8 then None
    else
      var (n, rest) := (FromBigEndian(bytes[..8]), bytes[8..]);
      if n == 0xFFFF_FFFF_FFFF_FFFF then Some(Read(None, rest))
      else if |rest| < n then None
      else Some(Read(Some(rest[..n]), rest[n..]))
  }

  function ReadFields(bytes: ByteString): Option<seq<Field>>
    decreases |bytes|
  {
    if bytes == [] then Some([])
    else
      match ReadField(bytes)
      case None => None
      case Some(first) =>
        match ReadFields(first.rest)
        case None => None
        case Some(more) => Some([first.value] + more)
  }

  function InOrder(fields: List<Field>): seq<Field> {
    if fields.Nil? then [] else [fields.head] + InOrder(fields.tail)
  }

  lemma FieldIsRead(f: Field, rest: ByteString)
    requires FieldFits(f)
    ensures ReadField(EncodeField(f) + rest) == Some(Read(f, rest))
  {
    var n := if f.None? then ABSENT else |f.value|;
    var more := if f.None? then rest else f.value + rest;
    Pow256Values();
    BigEndianRoundTrip(n, 8);
    assert EncodeField(f) + rest == BigEndian(n, 8) + more;
    assert (BigEndian(n, 8) + more)[..8] == BigEndian(n, 8) && (BigEndian(n, 8) + more)[8..] == more;
    if f.Some? {
      assert more[..n] == f.value && more[n..] == rest;
    }
  }

  /** Encoded fields are read back one by one: no content moves across a boundary. */
  lemma {:induction false} FieldsAreRead(fields: List<Field>)
    requires AllFit(fields)
    ensures ReadFields(Encode(fields)) == Some(InOrder(fields))
  {
    if fields.Cons? {
      FieldIsRead(fields.head, Encode(fields.tail));
      FieldsAreRead(fields.tail);
    }
  }

  lemma FieldIsDecodable(f: Field, g: Field, x: ByteString, y: ByteString)
    requires FieldFits(f) && FieldFits(g)
    requires EncodeField(f) + x == EncodeField(g) + y
    ensures f == g && x == y
  {
    FieldIsRead(f, x);
    FieldIsRead(g, y);
  }

  lemma {:induction false} InOrderIsInjective(f: List<Field>, g: List<Field>)
    requires InOrder(f) == InOrder(g)
    ensures f == g
  {
    if f.Cons? && g.Cons? {
      assert InOrder(f)[0] == f.head && InOrder(f)[1..] == InOrder(f.tail);
      assert InOrder(g)[0] == g.head && InOrder(g)[1..] == InOrder(g.tail);
      InOrderIsInjective(f.tail, g.tail);
    }
  }

  lemma FieldsAreDecodable(f: List<Field>, g: List<Field>)
    requires AllFit(f) && AllFit(g)
    requires Encode(f) == Encode(g)
    ensures f == g
  {
    FieldsAreRead(f);
    FieldsAreRead(g);
    InOrderIsInjective(f, g);
  }

  /** The columns that an authenticated text names, in the order of the layouts: 13 fields, or 15 from version 2 on. */
  datatype Columns = Columns(
    prevHash: Field,
    version: Option<int>,
    seqNo: int,
    id: Field,
    occurredAt: int,
    actorUserId: Field,
    actorPrincipalType: Field,
    actorSessionId: Field,
    actionCode: Field,
    targetType: Field,
    targetId: Field,
    outcome: Field,
    requestId: Field,
    sourceIpHint: Field,
    metadata: Option<Json>)

  function Signed(f: Field): int {
    if f.None? then 0 else FromSignedBigEndian(f.value)
  }

  function Document(f: Field): Option<Json> {
    if f.None? then None else ReadJson(f.value)
  }

  function ColumnsOf(f: seq<Field>): Option<Columns> {
    if |f| == 13 then
      Some(Columns(f[0], None, Signed(f[1]), f[2], Signed(f[3]), f[4], f[5], f[6], f[7], f[8], f[9], f[10], f[11],
                   None, Document(f[12])))
    else if |f| == 15 then
      Some(Columns(f[0], Some(Signed(f[1])), Signed(f[2]), f[3], Signed(f[4]), f[5], f[6], f[7], f[8], f[9], f[10],
                   f[11], f[12], f[13], Document(f[14])))
    else None
  }

  function ReadColumns(bytes: ByteString): Option<Columns> {
    match ReadFields(bytes)
    case None => None
    case Some(fields) => ColumnsOf(fields)
  }

  /** The covered columns of an entry after the entry with the given tag, keys of the metadata sorted. */
  function CoveredColumns(e: ChainedEntry, p: Option<ByteString>): Columns {
    Columns(p, if e.chainVersion >= 2 then Some(e.chainVersion as int) else None, e.seqNo, Some(e.id), e.occurredAt,
            e.actorUserId, e.actorPrincipalType, e.actorSessionId, Some(e.actionCode), e.targetType, e.targetId,
            Some(e.outcome), e.requestId, if e.chainVersion >= 2 then e.sourceIpHint else None, Some(Normal(e.metadata)))
  }

  lemma ThreeInOrder(a: Field, b: Field, c: Field, rest: List<Field>)
    ensures InOrder(Cons(a, Cons(b, Cons(c, rest)))) == [a, b, c] + InOrder(rest)
  {
    assert InOrder(Cons(b, Cons(c, rest))) == [b] + InOrder(Cons(c, rest));
    assert InOrder(Cons(c, rest)) == [c] + InOrder(rest);
  }

  lemma EntryFieldsInOrder(e: ChainedEntry)
    ensures InOrder(EntryFields(e)) ==
              [Some(BigEndian64(e.seqNo)), Some(e.id), Some(BigEndian128(e.occurredAt)), e.actorUserId,
               e.actorPrincipalType, e.actorSessionId, Some(e.actionCode), e.targetType, e.targetId, Some(e.outcome),
               e.requestId] + InOrder(LastFields(e))
  {
    var last := Cons(Some(e.outcome), Cons(e.requestId, LastFields(e)));
    var later := Cons(Some(e.actionCode), Cons(e.targetType, Cons(e.targetId, last)));
    var actor := Cons(e.actorUserId, Cons(e.actorPrincipalType, Cons(e.actorSessionId, later)));
    ThreeInOrder(Some(BigEndian64(e.seqNo)), Some(e.id), Some(BigEndian128(e.occurredAt)), actor);
    ThreeInOrder(e.actorUserId, e.actorPrincipalType, e.actorSessionId, later);
    ThreeInOrder(Some(e.actionCode), e.targetType, e.targetId, last);
    assert InOrder(last) == [Some(e.outcome)] + InOrder(Cons(e.requestId, LastFields(e)));
  }

  lemma FieldsInOrder(e: ChainedEntry, p: Option<ByteString>)
    ensures InOrder(Fields(e, p)) ==
              [p] + (if CoversHint(e) then [Some(BigEndian16(e.chainVersion))] else []) + InOrder(EntryFields(e))
    ensures InOrder(LastFields(e)) ==
              (if CoversHint(e) then [e.sourceIpHint] else []) + [Some(CanonicalText(e.metadata))]
  {
    var text: Field := Some(CanonicalText(e.metadata));
    assert InOrder(Cons(text, Nil)) == [text];
    assert CoversHint(e) ==> LastFields(e) == Cons(e.sourceIpHint, Cons(text, Nil));
    assert CoversHint(e) ==> InOrder(LastFields(e)) == [e.sourceIpHint] + [text];
  }

  lemma NumbersAreRead(e: ChainedEntry)
    ensures Signed(Some(BigEndian16(e.chainVersion))) == e.chainVersion
    ensures Signed(Some(BigEndian64(e.seqNo))) == e.seqNo
    ensures Signed(Some(BigEndian128(e.occurredAt))) == e.occurredAt
  {
    Pow256Values();
    SignedRoundTrip(e.chainVersion, 2);
    SignedRoundTrip(e.seqNo, 8);
    SignedRoundTrip(e.occurredAt, 16);
  }

  lemma AllInOrder(e: ChainedEntry, p: Option<ByteString>)
    ensures var columns := [Some(BigEndian64(e.seqNo)), Some(e.id), Some(BigEndian128(e.occurredAt)), e.actorUserId,
                            e.actorPrincipalType, e.actorSessionId, Some(e.actionCode), e.targetType, e.targetId,
                            Some(e.outcome), e.requestId];
            var text := [Some(CanonicalText(e.metadata))];
            InOrder(Fields(e, p)) ==
              if CoversHint(e) then [p, Some(BigEndian16(e.chainVersion))] + columns + [e.sourceIpHint] + text
              else [p] + columns + text
  {
    FieldsInOrder(e, p);
    EntryFieldsInOrder(e);
  }

  lemma OrderedColumns(e: ChainedEntry, p: Option<ByteString>)
    ensures ColumnsOf(InOrder(Fields(e, p))) == Some(CoveredColumns(e, p))
  {
    AllInOrder(e, p);
    NumbersAreRead(e);
    CanonicalTextIsJson(e.metadata);
  }

  /** The authenticated text of an entry names its covered columns, each in its place. */
  lemma CanonicalBytesAreRead(e: ChainedEntry, p: Option<ByteString>)
    requires Encodable(e) && FieldFits(p)
    ensures ReadColumns(CanonicalBytes(e, p)) == Some(CoveredColumns(e, p))
  {
    AllFieldsFit(e, p);
    FieldsAreRead(Fields(e, p));
    OrderedColumns(e, p);
  }

  /**
   What the tag of an entry fixes: everything, metadata up to the order of keys (see
   `NormalIsExact`), except that layout 1 leaves out the version and the address hint.
   */
  ghost predicate SameCovered(e: ChainedEntry, f: ChainedEntry) {
    && (CoversHint(e) <==> CoversHint(f))
    && (CoversHint(e) ==> e.chainVersion == f.chainVersion && e.sourceIpHint == f.sourceIpHint)
    && e.seqNo == f.seqNo && e.id == f.id && e.occurredAt == f.occurredAt
    && e.actorUserId == f.actorUserId && e.actorPrincipalType == f.actorPrincipalType
    && e.actorSessionId == f.actorSessionId && e.actionCode == f.actionCode
    && e.targetType == f.targetType && e.targetId == f.targetId
    && e.outcome == f.outcome && e.requestId == f.requestId
    && Normal(e.metadata) == Normal(f.metadata)
  }

  /** The bytes of two entries agree exactly if the previous tags and all covered fields do. */
  lemma CanonicalBytesIsExact(e: ChainedEntry, f: ChainedEntry, p: Option<ByteString>, q: Option<ByteString>)
    requires Encodable(e) && Encodable(f) && FieldFits(p) && FieldFits(q)
    ensures CanonicalBytes(e, p) == CanonicalBytes(f, q) <==> p == q && SameCovered(e, f)
  {
    if p == q && SameCovered(e, f) {
      NormalIsExact(e.metadata, f.metadata);
      CanonicalTextIsExact(e.metadata, f.metadata);
      assert LastFields(e) == LastFields(f);
      assert EntryFields(e) == EntryFields(f);
    }
    if CanonicalBytes(e, p) == CanonicalBytes(f, q) {
      CanonicalBytesAreRead(e, p);
      CanonicalBytesAreRead(f, q);
    }
  }

  lemma EntryFieldsFit(e: ChainedEntry)
    requires Encodable(e) && AllFit(LastFields(e))
    ensures AllFit(EntryFields(e))
  {
    var fields := EntryFields(e);
    assert AllFit(fields.tail.tail.tail.tail.tail.tail.tail.tail.tail);
    assert AllFit(fields.tail.tail.tail.tail.tail.tail);
    assert AllFit(fields.tail.tail.tail);
  }

  lemma AllFieldsFit(e: ChainedEntry, p: Option<ByteString>)
    requires Encodable(e) && FieldFits(p)
    ensures AllFit(Fields(e, p))
  {
    assert AllFit(LastFields(e));
    EntryFieldsFit(e);
  }

  // ---------------------------------------------------------------------------
  // Verifying a run
  // ---------------------------------------------------------------------------

  datatype VerificationOutcome =
    | Intact(entriesChecked: nat, lastSeq: int)
    | HashMismatch(seqNo: int, entriesChecked: nat)
    | BrokenLink(seqNo: int, entriesChecked: nat)
    | MissingSequence(expected: int, found: int)
    | HeadMismatch(headSeq: int, lastRowSeq: int)

  /** The tag entry `i` must link to, when the entries before it are as stored. */
  function PrevAt(rows: seq<StoredEntry>, firstPrev: Option<ByteString>, i: nat): Option<ByteString>
    requires i <= |rows|
  {
    if i == 0 then firstPrev else Some(rows[i - 1].entryHash)
  }

  function ExpectedAt(rows: seq<StoredEntry>, firstSeq: Option<int>, i: nat): Option<int>
    requires i <= |rows|
  {
    if i == 0 then firstSeq else Some(rows[i - 1].entry.seqNo + 1)
  }

  function LastSeq(rows: seq<StoredEntry>): int {
    if rows == [] then 0 else rows[|rows| - 1].entry.seqNo
  }

  /** What is wrong with an entry after `n` good ones, in the order the checks are made. */
  function Fault(hash: Hash, row: StoredEntry, prev: Option<ByteString>, expected: Option<int>, n: nat)
    : Option<VerificationOutcome>
  {
    if expected.Some? && row.entry.seqNo != expected.value then
      Some(MissingSequence(expected.value, row.entry.seqNo))
    else if row.prevHash != prev then Some(BrokenLink(row.entry.seqNo, n))
    else if row.entryHash != hash(row.entry, prev) then Some(HashMismatch(row.entry.seqNo, n))
    else None
  }

  function FaultAt(hash: Hash, rows: seq<StoredEntry>, firstPrev: Option<ByteString>, firstSeq: Option<int>, i: nat)
    : Option<VerificationOutcome>
    requires i < |rows|
  {
    Fault(hash, rows[i], PrevAt(rows, firstPrev, i), ExpectedAt(rows, firstSeq, i), i)
  }

  /** Every entry is at the expected number, links to the one before and carries its tag. */
  ghost predicate Linked(hash: Hash, rows: seq<StoredEntry>, firstPrev: Option<ByteString>, firstSeq: Option<int>) {
    forall i | 0 <= i < |rows| :: FaultAt(hash, rows, firstPrev, firstSeq, i).None?
  }

  function VerifyFrom(hash: Hash, rows: seq<StoredEntry>, firstPrev: Option<ByteString>, firstSeq: Option<int>, i: nat)
    : VerificationOutcome
    requires i <= |rows|
    decreases |rows| - i
  {
    if i == |rows| then Intact(i, LastSeq(rows))
    else
      match FaultAt(hash, rows, firstPrev, firstSeq, i)
      case Some(fault) => fault
      case None => VerifyFrom(hash, rows, firstPrev, firstSeq, i + 1)
  }

  function VerifyRun(hash: Hash, rows: seq<StoredEntry>, firstPrev: Option<ByteString>, firstSeq: Option<int>)
    : VerificationOutcome
  {
    VerifyFrom(hash, rows, firstPrev, firstSeq, 0)
  }

  method ComputeEntryHash(mac: Mac, e: ChainedEntry, prevHash: Option<ByteString>) returns (tag: ByteString)
    ensures tag == EntryHash(mac)(e, prevHash)
  {
    var bytes := BuildCanonicalBytes(e, prevHash);
    tag := mac(bytes);
  }

  /** The verifier's loop; `VerifyRunIsExact` says what its outcome means. */
  method Verify(mac: Mac, rows: seq<StoredEntry>, firstPrev: Option<ByteString>, firstSeq: Option<int>)
    returns (outcome: VerificationOutcome)
    ensures outcome == VerifyRun(EntryHash(mac), rows, firstPrev, firstSeq)
  {
    var prev, checked, expectedSeq := firstPrev, 0, firstSeq;
    ghost var hash := EntryHash(mac);
    while checked < |rows|
      invariant checked <= |rows|
      invariant prev == PrevAt(rows, firstPrev, checked)
      invariant expectedSeq == ExpectedAt(rows, firstSeq, checked)
      invariant VerifyRun(hash, rows, firstPrev, firstSeq) == VerifyFrom(hash, rows, firstPrev, firstSeq, checked)
    {
      var row := rows[checked];
      if expectedSeq.Some? && row.entry.seqNo != expectedSeq.value {
        return MissingSequence(expectedSeq.value, row.entry.seqNo);
      }
      if row.prevHash != prev {
        return BrokenLink(row.entry.seqNo, checked);
      }
      var recomputed := ComputeEntryHash(mac, row.entry, prev);
      if recomputed != row.entryHash {
        return HashMismatch(row.entry.seqNo, checked);
      }
      prev, checked, expectedSeq := Some(recomputed), checked + 1, Some(row.entry.seqNo + 1);
    }
    outcome := Intact(checked, LastSeq(rows));
  }

  /** The index verification stops at: the first entry with a fault. */
  ghost predicate FirstFault(hash: Hash, rows: seq<StoredEntry>, firstPrev: Option<ByteString>, firstSeq: Option<int>, i: nat) {
    && i < |rows|
    && FaultAt(hash, rows, firstPrev, firstSeq, i).Some?
    && forall j | 0 <= j < i :: FaultAt(hash, rows, firstPrev, firstSeq, j).None?
  }

  lemma {:induction false} VerifyFromIsExact(
    hash: Hash, rows: seq<StoredEntry>, firstPrev: Option<ByteString>, firstSeq: Option<int>, i: nat)
    requires i <= |rows|
    requires forall j | 0 <= j < i :: FaultAt(hash, rows, firstPrev, firstSeq, j).None?
    ensures Linked(hash, rows, firstPrev, firstSeq) ==>
              VerifyFrom(hash, rows, firstPrev, firstSeq, i) == Intact(|rows|, LastSeq(rows))
    ensures !Linked(hash, rows, firstPrev, firstSeq) ==>
              exists k: nat :: FirstFault(hash, rows, firstPrev, firstSeq, k) &&
                VerifyFrom(hash, rows, firstPrev, firstSeq, i) == FaultAt(hash, rows, firstPrev, firstSeq, k).value
    decreases |rows| - i
  {
    if i < |rows| {
      if FaultAt(hash, rows, firstPrev, firstSeq, i).Some? {
        assert FirstFault(hash, rows, firstPrev, firstSeq, i);
      } else {
        VerifyFromIsExact(hash, rows, firstPrev, firstSeq, i + 1);
      }
    }
  }

  /** Intact means linked throughout; anything else names the first faulty entry and what is wrong with it. */
  lemma VerifyRunIsExact(hash: Hash, rows: seq<StoredEntry>, firstPrev: Option<ByteString>, firstSeq: Option<int>)
    ensures VerifyRun(hash, rows, firstPrev, firstSeq).Intact? <==> Linked(hash, rows, firstPrev, firstSeq)
    ensures Linked(hash, rows, firstPrev, firstSeq) ==>
              VerifyRun(hash, rows, firstPrev, firstSeq) == Intact(|rows|, LastSeq(rows))
    ensures !Linked(hash, rows, firstPrev, firstSeq) ==>
              exists k: nat :: FirstFault(hash, rows, firstPrev, firstSeq, k) &&
                VerifyRun(hash, rows, firstPrev, firstSeq) == FaultAt(hash, rows, firstPrev, firstSeq, k).value
  {
    VerifyFromIsExact(hash, rows, firstPrev, firstSeq, 0);
  }

  /** Row `n` is at the number after the one before it, or at the first number where one is asked for. */
  ghost predicate IsNumbered(rows: seq<StoredEntry>, firstSeq: Option<int>, n: nat)
    requires n < |rows|
  {
    if n == 0 then firstSeq.Some? ==> rows[0].entry.seqNo == firstSeq.value
    else rows[n].entry.seqNo == rows[n - 1].entry.seqNo + 1
  }

  /** Row `n` records the tag before it. */
  ghost predicate LinksBack(rows: seq<StoredEntry>, firstPrev: Option<ByteString>, n: nat)
    requires n < |rows|
  {
    rows[n].prevHash == if n == 0 then firstPrev else Some(rows[n - 1].entryHash)
  }

  /** The tag of row `n` is that of its entry after the tag it records. */
  ghost predicate CarriesTag(hash: Hash, rows: seq<StoredEntry>, n: nat)
    requires n < |rows|
  {
    rows[n].entryHash == hash(rows[n].entry, rows[n].prevHash)
  }

  ghost predicate GoodUpTo(
    hash: Hash, rows: seq<StoredEntry>, firstPrev: Option<ByteString>, firstSeq: Option<int>, n: nat)
    requires n <= |rows|
  {
    forall i: nat | i < n :: IsNumbered(rows, firstSeq, i) && LinksBack(rows, firstPrev, i) && CarriesTag(hash, rows, i)
  }

  lemma FaultIs(hash: Hash, rows: seq<StoredEntry>, firstPrev: Option<ByteString>, firstSeq: Option<int>, n: nat)
    requires n < |rows|
    ensures var fault := FaultAt(hash, rows, firstPrev, firstSeq, n);
            if !IsNumbered(rows, firstSeq, n) then
              fault.Some? && fault.value.MissingSequence? && fault.value.found == rows[n].entry.seqNo &&
              Some(fault.value.expected) == (if n == 0 then firstSeq else Some(rows[n - 1].entry.seqNo + 1))
            else if !LinksBack(rows, firstPrev, n) then fault == Some(BrokenLink(rows[n].entry.seqNo, n))
            else if !CarriesTag(hash, rows, n) then fault == Some(HashMismatch(rows[n].entry.seqNo, n))
            else fault.None?
  {
  }

  lemma GoodIsFaultless(
    hash: Hash, rows: seq<StoredEntry>, firstPrev: Option<ByteString>, firstSeq: Option<int>, n: nat)
    requires n <= |rows|
    ensures GoodUpTo(hash, rows, firstPrev, firstSeq, n) <==>
              forall i | 0 <= i < n :: FaultAt(hash, rows, firstPrev, firstSeq, i).None?
  {
    forall i: nat | i < n
      ensures FaultAt(hash, rows, firstPrev, firstSeq, i).None? <==>
                IsNumbered(rows, firstSeq, i) && LinksBack(rows, firstPrev, i) && CarriesTag(hash, rows, i)
    {
      FaultIs(hash, rows, firstPrev, firstSeq, i);
    }
  }

  /** Verification stops at row `n`. */
  ghost predicate StopsAt(
    hash: Hash, rows: seq<StoredEntry>, firstPrev: Option<ByteString>, firstSeq: Option<int>, n: nat)
  {
    && n < |rows| && GoodUpTo(hash, rows, firstPrev, firstSeq, n)
    && !(IsNumbered(rows, firstSeq, n) && LinksBack(rows, firstPrev, n) && CarriesTag(hash, rows, n))
  }

  lemma StopsAtFirstFault(
    hash: Hash, rows: seq<StoredEntry>, firstPrev: Option<ByteString>, firstSeq: Option<int>, n: nat)
    ensures StopsAt(hash, rows, firstPrev, firstSeq, n) <==> FirstFault(hash, rows, firstPrev, firstSeq, n)
  {
    if n < |rows| {
      GoodIsFaultless(hash, rows, firstPrev, firstSeq, n);
      FaultIs(hash, rows, firstPrev, firstSeq, n);
    }
  }

  lemma StopsOnce(hash: Hash, rows: seq<StoredEntry>, firstPrev: Option<ByteString>, firstSeq: Option<int>, n: nat, k: nat)
    requires StopsAt(hash, rows, firstPrev, firstSeq, n) && StopsAt(hash, rows, firstPrev, firstSeq, k)
    ensures n == k
  {
  }

  lemma StopIsReported(hash: Hash, rows: seq<StoredEntry>, firstPrev: Option<ByteString>, firstSeq: Option<int>, n: nat)
    requires StopsAt(hash, rows, firstPrev, firstSeq, n)
    ensures var outcome := VerifyRun(hash, rows, firstPrev, firstSeq);
            if !IsNumbered(rows, firstSeq, n) then
              outcome.MissingSequence? && outcome.found == rows[n].entry.seqNo &&
              Some(outcome.expected) == (if n == 0 then firstSeq else Some(rows[n - 1].entry.seqNo + 1))
            else if !LinksBack(rows, firstPrev, n) then outcome == BrokenLink(rows[n].entry.seqNo, n)
            else outcome == HashMismatch(rows[n].entry.seqNo, n)
  {
    StopsAtFirstFault(hash, rows, firstPrev, firstSeq, n);
    VerifyRunIsExact(hash, rows, firstPrev, firstSeq);
    var k: nat :| FirstFault(hash, rows, firstPrev, firstSeq, k) &&
                  VerifyRun(hash, rows, firstPrev, firstSeq) == FaultAt(hash, rows, firstPrev, firstSeq, k).value;
    StopsAtFirstFault(hash, rows, firstPrev, firstSeq, k);
    StopsOnce(hash, rows, firstPrev, firstSeq, n, k);
    FaultIs(hash, rows, firstPrev, firstSeq, n);
  }

  lemma SomewhereItStops(hash: Hash, rows: seq<StoredEntry>, firstPrev: Option<ByteString>, firstSeq: Option<int>)
    ensures GoodUpTo(hash, rows, firstPrev, firstSeq, |rows|) <==> VerifyRun(hash, rows, firstPrev, firstSeq).Intact?
    ensures VerifyRun(hash, rows, firstPrev, firstSeq).Intact? ||
            exists n: nat :: StopsAt(hash, rows, firstPrev, firstSeq, n)
  {
    GoodIsFaultless(hash, rows, firstPrev, firstSeq, |rows|);
    VerifyRunIsExact(hash, rows, firstPrev, firstSeq);
    if !VerifyRun(hash, rows, firstPrev, firstSeq).Intact? {
      var k: nat :| FirstFault(hash, rows, firstPrev, firstSeq, k);
      StopsAtFirstFault(hash, rows, firstPrev, firstSeq, k);
    }
  }

  /**
   Each outcome in terms of the columns. Rows are looked at in order and in each the number
   comes first, then the link, then the tag.
   */
  lemma OutcomesAreExact(
    hash: Hash, rows: seq<StoredEntry>, firstPrev: Option<ByteString>, firstSeq: Option<int>, s: int, f: int, n: nat)
    ensures VerifyRun(hash, rows, firstPrev, firstSeq) == Intact(n, s) <==>
              && n == |rows| && GoodUpTo(hash, rows, firstPrev, firstSeq, n)
              && s == if rows == [] then 0 else rows[|rows| - 1].entry.seqNo
    ensures VerifyRun(hash, rows, firstPrev, firstSeq) == HashMismatch(s, n) <==>
              && n < |rows| && GoodUpTo(hash, rows, firstPrev, firstSeq, n)
              && IsNumbered(rows, firstSeq, n) && LinksBack(rows, firstPrev, n) && !CarriesTag(hash, rows, n)
              && s == rows[n].entry.seqNo
    ensures VerifyRun(hash, rows, firstPrev, firstSeq) == BrokenLink(s, n) <==>
              && n < |rows| && GoodUpTo(hash, rows, firstPrev, firstSeq, n)
              && IsNumbered(rows, firstSeq, n) && !LinksBack(rows, firstPrev, n)
              && s == rows[n].entry.seqNo
    ensures VerifyRun(hash, rows, firstPrev, firstSeq) == MissingSequence(s, f) <==>
              exists k: nat ::
                && k < |rows| && GoodUpTo(hash, rows, firstPrev, firstSeq, k) && !IsNumbered(rows, firstSeq, k)
                && f == rows[k].entry.seqNo
                && Some(s) == if k == 0 then firstSeq else Some(rows[k - 1].entry.seqNo + 1)
    ensures !VerifyRun(hash, rows, firstPrev, firstSeq).HeadMismatch?
  {
    SomewhereItStops(hash, rows, firstPrev, firstSeq);
    VerifyRunIsExact(hash, rows, firstPrev, firstSeq);
    if k: nat :| StopsAt(hash, rows, firstPrev, firstSeq, k) {
      StopIsReported(hash, rows, firstPrev, firstSeq, k);
      forall m: nat | StopsAt(hash, rows, firstPrev, firstSeq, m) ensures m == k {
        StopsOnce(hash, rows, firstPrev, firstSeq, m, k);
      }
      assert StopsAt(hash, rows, firstPrev, firstSeq, n) ==> n == k;
    }
  }

  /** An outcome for a later part, counted from the beginning of the whole. */
  function Shifted(outcome: VerificationOutcome, before: seq<StoredEntry>): VerificationOutcome {
    match outcome
    case Intact(n, last) => Intact(|before| + n, if n == 0 then LastSeq(before) else last)
    case HashMismatch(s, n) => HashMismatch(s, |before| + n)
    case BrokenLink(s, n) => BrokenLink(s, |before| + n)
    case _ => outcome
  }

  lemma FaultAtComposes(
    hash: Hash, a: seq<StoredEntry>, b: seq<StoredEntry>, firstPrev: Option<ByteString>, firstSeq: Option<int>, i: nat)
    requires i < |b|
    ensures FaultAt(hash, a + b, firstPrev, firstSeq, |a| + i) ==
              Fault(hash, b[i], PrevAt(b, PrevAt(a, firstPrev, |a|), i), ExpectedAt(b, ExpectedAt(a, firstSeq, |a|), i), |a| + i)
  {
  }

  lemma {:induction false} VerifyFromComposes(
    hash: Hash, a: seq<StoredEntry>, b: seq<StoredEntry>, firstPrev: Option<ByteString>, firstSeq: Option<int>, i: nat)
    requires i <= |b|
    ensures VerifyFrom(hash, a + b, firstPrev, firstSeq, |a| + i) ==
              Shifted(VerifyFrom(hash, b, PrevAt(a, firstPrev, |a|), ExpectedAt(a, firstSeq, |a|), i), a)
    decreases |b| - i
  {
    if i < |b| {
      FaultAtComposes(hash, a, b, firstPrev, firstSeq, i);
      if FaultAt(hash, a + b, firstPrev, firstSeq, |a| + i).None? {
        VerifyFromComposes(hash, a, b, firstPrev, firstSeq, i + 1);
      }
    } else {
      assert b == [] ==> a + b == a;
    }
  }

  lemma {:induction false} VerifyFromPrefix(
    hash: Hash, a: seq<StoredEntry>, b: seq<StoredEntry>, firstPrev: Option<ByteString>, firstSeq: Option<int>, i: nat)
    requires i <= |a|
    ensures VerifyFrom(hash, a, firstPrev, firstSeq, i).Intact? ==>
              VerifyFrom(hash, a + b, firstPrev, firstSeq, i) == VerifyFrom(hash, a + b, firstPrev, firstSeq, |a|)
    ensures !VerifyFrom(hash, a, firstPrev, firstSeq, i).Intact? ==>
              VerifyFrom(hash, a + b, firstPrev, firstSeq, i) == VerifyFrom(hash, a, firstPrev, firstSeq, i)
    decreases |a| - i
  {
    if i < |a| {
      assert FaultAt(hash, a + b, firstPrev, firstSeq, i) == FaultAt(hash, a, firstPrev, firstSeq, i) by {
        assert (a + b)[i] == a[i];
        assert i > 0 ==> (a + b)[i - 1] == a[i - 1];
      }
      if FaultAt(hash, a, firstPrev, firstSeq, i).None? {
        VerifyFromPrefix(hash, a, b, firstPrev, firstSeq, i + 1);
      }
    }
  }

  /** Verifying a concatenation is verifying the parts, the second anchored at the end of the first. */
  lemma VerifyRunComposes(
    hash: Hash, a: seq<StoredEntry>, b: seq<StoredEntry>, firstPrev: Option<ByteString>, firstSeq: Option<int>)
    ensures VerifyRun(hash, a + b, firstPrev, firstSeq) ==
              if VerifyRun(hash, a, firstPrev, firstSeq).Intact?
              then Shifted(VerifyRun(hash, b, PrevAt(a, firstPrev, |a|), ExpectedAt(a, firstSeq, |a|)), a)
              else VerifyRun(hash, a, firstPrev, firstSeq)
  {
    VerifyFromPrefix(hash, a, b, firstPrev, firstSeq, 0);
    VerifyFromComposes(hash, a, b, firstPrev, firstSeq, 0);
  }
}
