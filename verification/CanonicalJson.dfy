/**
 The canonical JSON text of audit metadata: object keys sorted at every depth.

 The text is JSON for the document with its keys sorted (`CanonicalTextIsJson`). Two
 documents get the same text exactly when they are the same up to the order of object
 keys (`CanonicalTextIsExact`), so a round trip through `jsonb` keeps a digest and any
 other change to a document alters the hashed text.
 */
module CanonicalJson {
  import opened Bytes

  /** An object entry; `Parts` below reuses it with the rendered value in place of the value. */
  datatype Entry<+V> = Entry(key: ByteString, value: V)

  /** `serde_json::Value` with strings as UTF-8 bytes and integer numbers. */
  datatype Json =
    | Null
    | Bool(b: bool)
    | Number(n: int)
    | Text(s: ByteString)
    | Array(items: List<Json>)
    | Object(members: List<Entry<Json>>)

  // ---------------------------------------------------------------------------
  // Looking up keys, and the key order
  // ---------------------------------------------------------------------------

  predicate HasKey<V>(entries: List<Entry<V>>, key: ByteString) {
    entries.Cons? && (entries.head.key == key || HasKey(entries.tail, key))
  }

  function Lookup<V>(entries: List<Entry<V>>, key: ByteString): V
    requires HasKey(entries, key)
  {
    if entries.head.key == key then entries.head.value else Lookup(entries.tail, key)
  }

  predicate DistinctKeys<V>(entries: List<Entry<V>>) {
    entries.Cons? ==> !HasKey(entries.tail, entries.head.key) && DistinctKeys(entries.tail)
  }

  /** A map holds a key once, at every depth. */
  predicate WellFormed(v: Json) {
    match v
    case Array(items) => WellFormedItems(items)
    case Object(members) => DistinctKeys(members) && WellFormedMembers(members)
    case _ => true
  }

  predicate WellFormedItems(items: List<Json>) {
    items.Cons? ==> WellFormed(items.head) && WellFormedItems(items.tail)
  }

  predicate WellFormedMembers(members: List<Entry<Json>>) {
    members.Cons? ==> WellFormed(members.head.value) && WellFormedMembers(members.tail)
  }

  /** The order of Rust strings: byte by byte, a proper prefix first. */
  predicate Before(a: ByteString, b: ByteString) {
    b != [] && (a == [] || a[0] < b[0] || (a[0] == b[0] && Before(a[1..], b[1..])))
  }

  lemma {:induction false} BeforeIsAntisymmetric(a: ByteString, b: ByteString)
    requires Before(a, b)
    ensures a != b && !Before(b, a)
  {
    if a != [] && a[0] == b[0] {
      BeforeIsAntisymmetric(a[1..], b[1..]);
    }
  }

  lemma {:induction false} BeforeIsTotal(a: ByteString, b: ByteString)
    requires a != b
    ensures Before(a, b) || Before(b, a)
  {
    if a != [] && b != [] && a[0] == b[0] {
      assert a == [a[0]] + a[1..] && b == [b[0]] + b[1..];
      BeforeIsTotal(a[1..], b[1..]);
    }
  }

  lemma {:induction false} BeforeIsTransitive(a: ByteString, b: ByteString, c: ByteString)
    requires Before(a, b) && Before(b, c)
    ensures Before(a, c)
  {
    if a != [] && a[0] == b[0] && b[0] == c[0] {
      BeforeIsTransitive(a[1..], b[1..], c[1..]);
    }
  }

  function Insert<V>(e: Entry<V>, entries: List<Entry<V>>): List<Entry<V>> {
    if entries.Nil? || Before(e.key, entries.head.key) then Cons(e, entries)
    else Cons(entries.head, Insert(e, entries.tail))
  }

  function SortByKey<V>(entries: List<Entry<V>>): List<Entry<V>> {
    if entries.Nil? then Nil else Insert(entries.head, SortByKey(entries.tail))
  }

  predicate StrictlySorted<V>(entries: List<Entry<V>>) {
    entries.Cons? && entries.tail.Cons? ==>
      Before(entries.head.key, entries.tail.head.key) && StrictlySorted(entries.tail)
  }

  // ---------------------------------------------------------------------------
  // The text
  // ---------------------------------------------------------------------------

  /** One byte of a JSON string (RFC 8259 section 7, with the short escapes serde_json picks). */
  function EscapeByte(b: Byte): (r: ByteString)
    ensures r != []
  {
    if b == 0x22 then [0x5c, 0x22]
    else if b == 0x5c then [0x5c, 0x5c]
    else if b == 0x08 then [0x5c, 0x62]
    else if b == 0x0c then [0x5c, 0x66]
    else if b == 0x0a then [0x5c, 0x6e]
    else if b == 0x0d then [0x5c, 0x72]
    else if b == 0x09 then [0x5c, 0x74]
    else if b < 0x20 then [0x5c, 0x75, 0x30, 0x30, HexDigit(b / 16), HexDigit(b % 16)]
    else [b]
  }

  function HexDigit(d: int): Byte
    requires 0 <= d < 16
  {
    if d < 10 then 0x30 + d else 0x61 + d - 10
  }

  function Escape(s: ByteString): ByteString {
    if s == [] then [] else EscapeByte(s[0]) + Escape(s[1..])
  }

  function Quote(s: ByteString): ByteString {
    [0x22] + Escape(s) + [0x22]
  }

  function Digits(n: nat): (r: ByteString)
    ensures r != []
  {
    if n < 10 then [0x30 + n] else Digits(n / 10) + [0x30 + n % 10]
  }

  function Decimal(n: int): ByteString {
    if n < 0 then [0x2d] + Digits(-n) else Digits(n)
  }

  function Scalar(v: Json): ByteString
    requires !v.Array? && !v.Object?
  {
    match v
    case Null => [0x6e, 0x75, 0x6c, 0x6c]
    case Bool(b) => if b then [0x74, 0x72, 0x75, 0x65] else [0x66, 0x61, 0x6c, 0x73, 0x65]
    case Number(n) => Decimal(n)
    case Text(s) => Quote(s)
  }

  function CanonicalText(v: Json): ByteString {
    match v
    case Object(members) => [0x7b] + JoinMembers(SortByKey(Parts(members))) + [0x7d]
    case Array(items) => [0x5b] + JoinItems(items) + [0x5d]
    case _ => Scalar(v)
  }

  /** The members with their values already rendered. */
  function Parts(members: List<Entry<Json>>): List<Entry<ByteString>> {
    if members.Nil? then Nil
    else Cons(Entry(members.head.key, CanonicalText(members.head.value)), Parts(members.tail))
  }

  function JoinMembers(parts: List<Entry<ByteString>>): ByteString {
    if parts.Nil? then []
    else Quote(parts.head.key) + [0x3a] + parts.head.value +
         (if parts.tail.Nil? then [] else [0x2c] + JoinMembers(parts.tail))
  }

  function JoinItems(items: List<Json>): ByteString {
    if items.Nil? then []
    else CanonicalText(items.head) + (if items.tail.Nil? then [] else [0x2c] + JoinItems(items.tail))
  }

  // ---------------------------------------------------------------------------
  // When two documents are the same
  // ---------------------------------------------------------------------------

  function Size(v: Json): nat {
    match v
    case Array(items) => 1 + SizeItems(items)
    case Object(members) => 1 + SizeMembers(members)
    case _ => 1
  }

  function SizeItems(items: List<Json>): nat {
    if items.Nil? then 0 else 1 + Size(items.head) + SizeItems(items.tail)
  }

  function SizeMembers(members: List<Entry<Json>>): nat {
    if members.Nil? then 0 else 1 + Size(members.head.value) + SizeMembers(members.tail)
  }

  function Member(members: List<Entry<Json>>, key: ByteString): (v: Json)
    requires HasKey(members, key)
    ensures v == Lookup(members, key) && Size(v) < SizeMembers(members)
  {
    if members.head.key == key then members.head.value else Member(members.tail, key)
  }

  /** The same document up to the order of object keys, at every depth. */
  ghost predicate Equivalent(a: Json, b: Json)
    decreases Size(a)
  {
    match (a, b)
    case (Array(items), Array(others)) => EquivalentItems(items, others)
    case (Object(members), Object(others)) =>
      && (forall k :: HasKey(members, k) <==> HasKey(others, k))
      && (forall k :: HasKey(members, k) && HasKey(others, k) ==>
            Equivalent(Member(members, k), Member(others, k)))
    case _ => a == b
  }

  ghost predicate EquivalentItems(items: List<Json>, others: List<Json>)
    decreases SizeItems(items)
  {
    match (items, others)
    case (Nil, Nil) => true
    case (Cons(a, rest), Cons(b, others')) => Equivalent(a, b) && EquivalentItems(rest, others')
    case _ => false
  }

  // ---------------------------------------------------------------------------
  // Normal forms: every object sorted
  // ---------------------------------------------------------------------------

  function Normal(v: Json): Json {
    match v
    case Array(items) => Array(NormalItems(items))
    case Object(members) => Object(SortByKey(NormalMembers(members)))
    case _ => v
  }

  function NormalItems(items: List<Json>): List<Json> {
    if items.Nil? then Nil else Cons(Normal(items.head), NormalItems(items.tail))
  }

  function NormalMembers(members: List<Entry<Json>>): List<Entry<Json>> {
    if members.Nil? then Nil
    else Cons(Entry(members.head.key, Normal(members.head.value)), NormalMembers(members.tail))
  }

  lemma {:induction false} InsertKeeps<V>(e: Entry<V>, entries: List<Entry<V>>, key: ByteString)
    ensures HasKey(Insert(e, entries), key) <==> key == e.key || HasKey(entries, key)
    ensures !HasKey(entries, e.key) && HasKey(Insert(e, entries), key) ==>
              Lookup(Insert(e, entries), key) == (if key == e.key then e.value else Lookup(entries, key))
  {
    if entries.Cons? && !Before(e.key, entries.head.key) {
      InsertKeeps(e, entries.tail, key);
    }
  }

  lemma {:induction false} InsertSorts<V>(e: Entry<V>, entries: List<Entry<V>>)
    requires StrictlySorted(entries) && !HasKey(entries, e.key)
    ensures StrictlySorted(Insert(e, entries))
  {
    if entries.Cons? && !Before(e.key, entries.head.key) {
      BeforeIsTotal(e.key, entries.head.key);
      InsertSorts(e, entries.tail);
    }
  }

  lemma {:induction false} SortKeeps<V>(entries: List<Entry<V>>, key: ByteString)
    requires DistinctKeys(entries)
    ensures HasKey(SortByKey(entries), key) <==> HasKey(entries, key)
    ensures HasKey(entries, key) ==> Lookup(SortByKey(entries), key) == Lookup(entries, key)
  {
    if entries.Cons? {
      SortKeeps(entries.tail, key);
      SortKeeps(entries.tail, entries.head.key);
      InsertKeeps(entries.head, SortByKey(entries.tail), key);
    }
  }

  lemma {:induction false} SortSorts<V>(entries: List<Entry<V>>)
    requires DistinctKeys(entries)
    ensures StrictlySorted(SortByKey(entries))
  {
    if entries.Cons? {
      SortSorts(entries.tail);
      SortKeeps(entries.tail, entries.head.key);
      InsertSorts(entries.head, SortByKey(entries.tail));
    }
  }

  lemma {:induction false} SmallestFirst<V>(entries: List<Entry<V>>, key: ByteString)
    requires StrictlySorted(entries) && HasKey(entries, key)
    ensures key == entries.head.key || Before(entries.head.key, key)
  {
    if key != entries.head.key {
      SmallestFirst(entries.tail, key);
      if key != entries.tail.head.key {
        BeforeIsTransitive(entries.head.key, entries.tail.head.key, key);
      }
    }
  }

  lemma TailWithoutHead<V>(entries: List<Entry<V>>)
    requires StrictlySorted(entries) && entries.Cons?
    ensures !HasKey(entries.tail, entries.head.key)
  {
    if HasKey(entries.tail, entries.head.key) {
      SmallestFirst(entries.tail, entries.head.key);
      BeforeIsAntisymmetric(entries.head.key, entries.tail.head.key);
    }
  }

  /** A sorted list is determined by what it maps each key to. */
  lemma {:induction false} SortedIsExtensional<V>(a: List<Entry<V>>, b: List<Entry<V>>)
    requires StrictlySorted(a) && StrictlySorted(b)
    requires forall k :: HasKey(a, k) <==> HasKey(b, k)
    requires forall k :: HasKey(a, k) && HasKey(b, k) ==> Lookup(a, k) == Lookup(b, k)
    ensures a == b
  {
    if a.Cons? && b.Cons? {
      assert HasKey(a, a.head.key) && HasKey(b, b.head.key);
      SmallestFirst(a, b.head.key);
      SmallestFirst(b, a.head.key);
      if a.head.key != b.head.key {
        BeforeIsAntisymmetric(a.head.key, b.head.key);
      }
      TailWithoutHead(a);
      TailWithoutHead(b);
      forall k
        ensures HasKey(a.tail, k) <==> HasKey(b.tail, k)
        ensures HasKey(a.tail, k) && HasKey(b.tail, k) ==> Lookup(a.tail, k) == Lookup(b.tail, k)
      {
        assert HasKey(a, k) <==> HasKey(b, k);
      }
      SortedIsExtensional(a.tail, b.tail);
    } else {
      assert a.Cons? ==> HasKey(a, a.head.key);
      assert b.Cons? ==> HasKey(b, b.head.key);
    }
  }

  lemma {:induction false} NormalMembersKeeps(members: List<Entry<Json>>, key: ByteString)
    ensures HasKey(NormalMembers(members), key) <==> HasKey(members, key)
    ensures HasKey(members, key) ==> Lookup(NormalMembers(members), key) == Normal(Lookup(members, key))
  {
    if members.Cons? {
      NormalMembersKeeps(members.tail, key);
    }
  }

  lemma {:induction false} NormalMembersDistinct(members: List<Entry<Json>>)
    requires DistinctKeys(members)
    ensures DistinctKeys(NormalMembers(members))
  {
    if members.Cons? {
      NormalMembersKeeps(members.tail, members.head.key);
      NormalMembersDistinct(members.tail);
    }
  }

  /** What the sorted members of an object map a key to. */
  lemma SortedMemberOf(members: List<Entry<Json>>, key: ByteString)
    requires DistinctKeys(members)
    ensures HasKey(SortByKey(NormalMembers(members)), key) <==> HasKey(members, key)
    ensures HasKey(members, key) ==>
              Lookup(SortByKey(NormalMembers(members)), key) == Normal(Member(members, key))
  {
    NormalMembersDistinct(members);
    SortKeeps(NormalMembers(members), key);
    NormalMembersKeeps(members, key);
  }

  lemma {:induction false} MemberIsWellFormed(members: List<Entry<Json>>, key: ByteString)
    requires WellFormedMembers(members) && HasKey(members, key)
    ensures WellFormed(Member(members, key))
  {
    if members.head.key != key {
      MemberIsWellFormed(members.tail, key);
    }
  }

  /** Normal forms are equal exactly for equivalent documents. */
  lemma {:induction false} NormalIsExact(a: Json, b: Json)
    requires WellFormed(a) && WellFormed(b)
    ensures Normal(a) == Normal(b) <==> Equivalent(a, b)
    decreases Size(a)
  {
    match (a, b)
    case (Array(items), Array(others)) =>
      NormalItemsExact(items, others);
    case (Object(members), Object(others)) =>
      NormalMembersExact(members, others);
    case _ =>
  }

  lemma {:induction false} NormalItemsExact(items: List<Json>, others: List<Json>)
    requires WellFormedItems(items) && WellFormedItems(others)
    ensures NormalItems(items) == NormalItems(others) <==> EquivalentItems(items, others)
    decreases SizeItems(items)
  {
    if items.Cons? && others.Cons? {
      NormalIsExact(items.head, others.head);
      NormalItemsExact(items.tail, others.tail);
    }
  }

  lemma {:induction false} NormalMembersExact(members: List<Entry<Json>>, others: List<Entry<Json>>)
    requires WellFormed(Object(members)) && WellFormed(Object(others))
    ensures Normal(Object(members)) == Normal(Object(others)) <==> Equivalent(Object(members), Object(others))
    decreases SizeMembers(members)
  {
    var a, b := SortByKey(NormalMembers(members)), SortByKey(NormalMembers(others));
    forall k
      ensures HasKey(a, k) <==> HasKey(members, k)
      ensures HasKey(b, k) <==> HasKey(others, k)
      ensures HasKey(members, k) && HasKey(others, k) ==>
                (Lookup(a, k) == Lookup(b, k) <==> Equivalent(Member(members, k), Member(others, k)))
    {
      SortedMemberOf(members, k);
      SortedMemberOf(others, k);
      if HasKey(members, k) && HasKey(others, k) {
        MemberIsWellFormed(members, k);
        MemberIsWellFormed(others, k);
        NormalIsExact(Member(members, k), Member(others, k));
      }
    }
    if Equivalent(Object(members), Object(others)) {
      NormalMembersDistinct(members);
      NormalMembersDistinct(others);
      SortSorts(NormalMembers(members));
      SortSorts(NormalMembers(others));
      SortedIsExtensional(a, b);
    }
  }

  // ---------------------------------------------------------------------------
  // Printing a normal form in front of a remainder
  // ---------------------------------------------------------------------------

  /** The text of `v`, members in the order they have, followed by `rest`. */
  function Print(v: Json, rest: ByteString): ByteString {
    match v
    case Object(members) => [0x7b] + PrintMembers(members, rest)
    case Array(items) => [0x5b] + PrintItems(items, rest)
    case _ => Scalar(v) + rest
  }

  function PrintItems(items: List<Json>, rest: ByteString): ByteString {
    if items.Nil? then [0x5d] + rest
    else Print(items.head, MoreItems(items.tail, rest))
  }

  function MoreItems(items: List<Json>, rest: ByteString): ByteString {
    if items.Nil? then [0x5d] + rest
    else [0x2c] + Print(items.head, MoreItems(items.tail, rest))
  }

  function PrintMembers(members: List<Entry<Json>>, rest: ByteString): ByteString {
    if members.Nil? then [0x7d] + rest
    else Quote(members.head.key) + ([0x3a] + Print(members.head.value, MoreMembers(members.tail, rest)))
  }

  function MoreMembers(members: List<Entry<Json>>, rest: ByteString): ByteString {
    if members.Nil? then [0x7d] + rest
    else [0x2c] + (Quote(members.head.key) +
                   ([0x3a] + Print(members.head.value, MoreMembers(members.tail, rest))))
  }

  /** `text` is what `v` prints as, whatever follows. */
  ghost predicate TextOf(text: ByteString, v: Json) {
    forall rest :: text + rest == Print(v, rest)
  }

  ghost predicate TextsOf(parts: List<Entry<ByteString>>, members: List<Entry<Json>>) {
    match (parts, members)
    case (Nil, Nil) => true
    case (Cons(p, ps), Cons(m, ms)) => p.key == m.key && TextOf(p.value, m.value) && TextsOf(ps, ms)
    case _ => false
  }

  lemma {:induction false} InsertKeepsTexts(
    p: Entry<ByteString>, m: Entry<Json>, parts: List<Entry<ByteString>>, members: List<Entry<Json>>)
    requires p.key == m.key && TextOf(p.value, m.value) && TextsOf(parts, members)
    ensures TextsOf(Insert(p, parts), Insert(m, members))
  {
    if parts.Cons? && !Before(p.key, parts.head.key) {
      InsertKeepsTexts(p, m, parts.tail, members.tail);
    }
  }

  lemma {:induction false} SortKeepsTexts(parts: List<Entry<ByteString>>, members: List<Entry<Json>>)
    requires TextsOf(parts, members)
    ensures TextsOf(SortByKey(parts), SortByKey(members))
  {
    if parts.Cons? {
      SortKeepsTexts(parts.tail, members.tail);
      InsertKeepsTexts(parts.head, members.head, SortByKey(parts.tail), SortByKey(members.tail));
    }
  }

  /** A joined element, its separator and the closing bracket in front of a remainder. */
  lemma AfterJoined(head: ByteString, joined: ByteString, tail: ByteString, close: ByteString, rest: ByteString)
    requires joined == [] || joined == [0x2c] + tail
    ensures head + joined + close + rest ==
              head + (if joined == [] then close + rest else [0x2c] + (tail + close + rest))
  {
  }

  lemma {:induction false} JoinedMembersPrint(
    parts: List<Entry<ByteString>>, members: List<Entry<Json>>, rest: ByteString)
    requires TextsOf(parts, members)
    ensures JoinMembers(parts) + [0x7d] + rest == PrintMembers(members, rest)
  {
    if parts.Cons? {
      var key, value := Quote(parts.head.key), parts.head.value;
      var more := MoreMembers(members.tail, rest);
      var joined := if parts.tail.Nil? then [] else [0x2c] + JoinMembers(parts.tail);
      if parts.tail.Cons? {
        JoinedMembersPrint(parts.tail, members.tail, rest);
      }
      AfterJoined(key + [0x3a] + value, joined, if parts.tail.Nil? then [] else JoinMembers(parts.tail), [0x7d], rest);
      Associative(key + [0x3a], value, more);
      Associative(key, [0x3a], value + more);
    }
  }

  lemma Bracketed(open: ByteString, body: ByteString, close: ByteString, rest: ByteString)
    ensures open + body + close + rest == open + (body + close + rest)
  {
  }

  /** The canonical text is the text of the normal form. */
  lemma {:induction false} CanonicalTextPrints(v: Json)
    ensures TextOf(CanonicalText(v), Normal(v))
  {
    match v
    case Object(members) =>
      PartsPrint(members);
      SortKeepsTexts(Parts(members), NormalMembers(members));
      forall rest ensures CanonicalText(v) + rest == Print(Normal(v), rest) {
        var parts := SortByKey(Parts(members));
        JoinedMembersPrint(parts, SortByKey(NormalMembers(members)), rest);
        Bracketed([0x7b], JoinMembers(parts), [0x7d], rest);
      }
    case Array(items) =>
      forall rest ensures CanonicalText(v) + rest == Print(Normal(v), rest) {
        JoinedItemsPrint(items, rest);
        Bracketed([0x5b], JoinItems(items), [0x5d], rest);
      }
    case _ =>
  }

  lemma {:induction false} PartsPrint(members: List<Entry<Json>>)
    ensures TextsOf(Parts(members), NormalMembers(members))
  {
    if members.Cons? {
      CanonicalTextPrints(members.head.value);
      PartsPrint(members.tail);
    }
  }

  lemma {:induction false} JoinedItemsPrint(items: List<Json>, rest: ByteString)
    ensures JoinItems(items) + [0x5d] + rest == PrintItems(NormalItems(items), rest)
  {
    if items.Cons? {
      CanonicalTextPrints(items.head);
      var joined := if items.tail.Nil? then [] else [0x2c] + JoinItems(items.tail);
      if items.tail.Cons? {
        JoinedItemsPrint(items.tail, rest);
      }
      AfterJoined(CanonicalText(items.head), joined, if items.tail.Nil? then [] else JoinItems(items.tail), [0x5d], rest);
    }
  }

  // ---------------------------------------------------------------------------
  // Reading JSON
  // ---------------------------------------------------------------------------

  /** What was read, and the text after it. */
  datatype Read<+V> = Read(value: V, rest: ByteString)

  function Ascii(s: string): (text: ByteString)
    requires forall i | 0 <= i < |s| :: s[i] < 128 as char
    ensures |text| == |s| && forall i | 0 <= i < |s| :: text[i] == s[i] as int
  {
    seq(|s|, i requires 0 <= i < |s| => s[i] as int)
  }

  predicate Begins(text: ByteString, c: char) {
    text != [] && text[0] == c as int
  }

  predicate IsDigit(b: Byte) {
    '0' as int <= b <= '9' as int
  }

  function HexValue(b: Byte): Option<nat> {
    if IsDigit(b) then Some(b - '0' as int)
    else if 'a' as int <= b <= 'f' as int then Some(10 + b - 'a' as int)
    else if 'A' as int <= b <= 'F' as int then Some(10 + b - 'A' as int)
    else None
  }

  /** The character that a backslash and `b` stand for (section 7 of RFC 8259). */
  function ShortEscape(b: Byte): Option<Byte> {
    if b == '\"' as int || b == '\\' as int || b == '/' as int then Some(b)
    else if b == 'b' as int then Some(8)
    else if b == 't' as int then Some(9)
    else if b == 'n' as int then Some(10)
    else if b == 'f' as int then Some(12)
    else if b == 'r' as int then Some(13)
    else None
  }

  /** A backslash, `u` and four hexadecimal digits, for a character of one byte. */
  function ReadCode(text: ByteString): (r: Option<Read<Byte>>)
    ensures r.Some? ==> |r.value.rest| < |text|
  {
    if |text| < 6 then None
    else
      match (HexValue(text[2]), HexValue(text[3]), HexValue(text[4]), HexValue(text[5]))
      case (Some(a), Some(b), Some(c), Some(d)) =>
        var code := 4096 * a + 256 * b + 16 * c + d;
        if code < 128 then Some(Read(code, text[6..])) else None
      case _ => None
  }

  /** One character inside a string; control characters have to be escaped. */
  function ReadCharacter(text: ByteString): (r: Option<Read<Byte>>)
    ensures r.Some? ==> |r.value.rest| < |text|
  {
    if text == [] || text[0] < 32 then None
    else if text[0] != '\\' as int then Some(Read(text[0], text[1..]))
    else if |text| == 1 then None
    else if text[1] == 'u' as int then ReadCode(text)
    else
      match ShortEscape(text[1])
      case Some(b) => Some(Read(b, text[2..]))
      case None => None
  }

  /** The rest of a string, up to its closing quotation mark. */
  function ReadString(text: ByteString): (r: Option<Read<ByteString>>)
    ensures r.Some? ==> |r.value.rest| < |text|
    decreases |text|
  {
    if Begins(text, '\"') then Some(Read([], text[1..]))
    else
      match ReadCharacter(text)
      case None => None
      case Some(c) =>
        match ReadString(c.rest)
        case None => None
        case Some(s) => Some(Read([c.value] + s.value, s.rest))
  }

  function ReadDigits(text: ByteString, before: int): (r: Read<int>)
    ensures |r.rest| <= |text|
    decreases |text|
  {
    if text != [] && IsDigit(text[0]) then ReadDigits(text[1..], 10 * before + text[0] - '0' as int)
    else Read(before, text)
  }

  /** Digits without a leading zero. */
  function ReadNatural(text: ByteString): (r: Option<Read<int>>)
    ensures r.Some? ==> |r.value.rest| < |text|
  {
    if text == [] || !IsDigit(text[0]) then None
    else if text[0] == '0' as int then Some(Read(0, text[1..]))
    else Some(ReadDigits(text[1..], text[0] - '0' as int))
  }

  function ReadNumber(text: ByteString): (r: Option<Read<Json>>)
    ensures r.Some? ==> |r.value.rest| < |text|
  {
    match ReadNatural(if Begins(text, '-') then text[1..] else text)
    case None => None
    case Some(n) => Some(Read(Number(if Begins(text, '-') then -n.value else n.value), n.rest))
  }

  function ReadWord(text: ByteString, word: ByteString, v: Json): (r: Option<Read<Json>>)
    requires word != []
    ensures r.Some? ==> |r.value.rest| < |text|
  {
    if word <= text then Some(Read(v, text[|word|..])) else None
  }

  /** A JSON value without white space (sections 3 to 7 of RFC 8259), and what follows it. */
  function ReadValue(text: ByteString): (r: Option<Read<Json>>)
    ensures r.Some? ==> |r.value.rest| < |text|
    decreases |text|, 0
  {
    if Begins(text, 'n') then ReadWord(text, Ascii("null"), Null)
    else if Begins(text, 't') then ReadWord(text, Ascii("true"), Bool(true))
    else if Begins(text, 'f') then ReadWord(text, Ascii("false"), Bool(false))
    else if Begins(text, '\"') then
      match ReadString(text[1..]) {
        case None => None
        case Some(s) => Some(Read(Text(s.value), s.rest))
      }
    else if Begins(text, '[') then ReadArray(text[1..])
    else if Begins(text, '{') then ReadObject(text[1..])
    else ReadNumber(text)
  }

  /** The rest of an array after its opening bracket. */
  function ReadArray(text: ByteString): (r: Option<Read<Json>>)
    ensures r.Some? ==> |r.value.rest| < |text|
    decreases |text|, 2
  {
    if Begins(text, ']') then Some(Read(Array(Nil), text[1..]))
    else
      match ReadItems(text)
      case None => None
      case Some(items) => Some(Read(Array(items.value), items.rest))
  }

  /** The rest of an object after its opening brace. */
  function ReadObject(text: ByteString): (r: Option<Read<Json>>)
    ensures r.Some? ==> |r.value.rest| < |text|
    decreases |text|, 2
  {
    if Begins(text, '}') then Some(Read(Object(Nil), text[1..]))
    else
      match ReadMembers(text)
      case None => None
      case Some(members) => Some(Read(Object(members.value), members.rest))
  }

  /** One or more values separated by commas, up to the closing bracket. */
  function ReadItems(text: ByteString): (r: Option<Read<List<Json>>>)
    ensures r.Some? ==> |r.value.rest| < |text|
    decreases |text|, 1
  {
    match ReadValue(text)
    case None => None
    case Some(v) =>
      if Begins(v.rest, ']') then Some(Read(Cons(v.value, Nil), v.rest[1..]))
      else if Begins(v.rest, ',') then
        match ReadItems(v.rest[1..]) {
          case None => None
          case Some(more) => Some(Read(Cons(v.value, more.value), more.rest))
        }
      else None
  }

  /** One or more members separated by commas, up to the closing brace. */
  function ReadMembers(text: ByteString): (r: Option<Read<List<Entry<Json>>>>)
    ensures r.Some? ==> |r.value.rest| < |text|
    decreases |text|, 1
  {
    match ReadMember(text)
    case None => None
    case Some(m) =>
      if Begins(m.rest, '}') then Some(Read(Cons(m.value, Nil), m.rest[1..]))
      else if Begins(m.rest, ',') then
        match ReadMembers(m.rest[1..]) {
          case None => None
          case Some(more) => Some(Read(Cons(m.value, more.value), more.rest))
        }
      else None
  }

  /** A string, a colon and a value. */
  function ReadMember(text: ByteString): (r: Option<Read<Entry<Json>>>)
    ensures r.Some? ==> |r.value.rest| < |text|
    decreases |text|, 0
  {
    if !Begins(text, '\"') then None
    else
      match ReadString(text[1..])
      case None => None
      case Some(key) =>
        if !Begins(key.rest, ':') then None
        else
          match ReadValue(key.rest[1..])
          case None => None
          case Some(v) => Some(Read(Entry(key.value, v.value), v.rest))
  }

  /** The document that a whole text is. */
  function ReadJson(text: ByteString): Option<Json> {
    match ReadValue(text)
    case None => None
    case Some(v) => if v.rest == [] then Some(v.value) else None
  }

  // ---------------------------------------------------------------------------
  // The text is JSON
  // ---------------------------------------------------------------------------

  /** What may follow a value: the end, a comma or a closing bracket. */
  predicate Delimited(rest: ByteString) {
    rest == [] || rest[0] == 0x2c || rest[0] == 0x5d || rest[0] == 0x7d
  }

  lemma EscapeIsRead(b: Byte, rest: ByteString)
    ensures ReadCharacter(EscapeByte(b) + rest) == Some(Read(b, rest))
    ensures EscapeByte(b)[0] != '\"' as int
  {
    var text := EscapeByte(b) + rest;
    assert text[|EscapeByte(b)|..] == rest;
    if |EscapeByte(b)| == 6 {
      assert HexValue(HexDigit(b / 16)) == Some(b / 16) && HexValue(HexDigit(b % 16)) == Some(b % 16);
    }
  }

  lemma StringEnds(rest: ByteString)
    ensures ReadString([0x22] + rest) == Some(Read([], rest))
  {
    assert ([0x22] + rest)[1..] == rest;
  }

  lemma StringGoesOn(b: Byte, text: ByteString, read: Read<ByteString>)
    requires ReadString(text) == Some(read)
    ensures ReadString(EscapeByte(b) + text) == Some(Read([b] + read.value, read.rest))
  {
    EscapeIsRead(b, text);
    assert (EscapeByte(b) + text)[0] == EscapeByte(b)[0];
  }

  lemma EscapeStep(s: ByteString, text: ByteString)
    requires s != []
    ensures Escape(s) + text == EscapeByte(s[0]) + (Escape(s[1..]) + text)
  {
    Associative(EscapeByte(s[0]), Escape(s[1..]), text);
  }

  lemma {:induction false} EscapedIsRead(s: ByteString, rest: ByteString)
    ensures ReadString(Escape(s) + ([0x22] + rest)) == Some(Read(s, rest))
  {
    var more := [0x22] + rest;
    if s == [] {
      assert Escape(s) + more == more;
      StringEnds(rest);
    } else {
      EscapedIsRead(s[1..], rest);
      EscapeStep(s, more);
      assert s == [s[0]] + s[1..];
      StringGoesOn(s[0], Escape(s[1..]) + more, Read(s[1..], rest));
    }
  }

  lemma QuoteStep(s: ByteString, rest: ByteString)
    ensures (Quote(s) + rest)[0] == 0x22
    ensures (Quote(s) + rest)[1..] == Escape(s) + ([0x22] + rest)
  {
  }

  lemma QuoteIsRead(s: ByteString, rest: ByteString)
    ensures (Quote(s) + rest)[0] == 0x22
    ensures ReadString((Quote(s) + rest)[1..]) == Some(Read(s, rest))
  {
    QuoteStep(s, rest);
    EscapedIsRead(s, rest);
  }

  lemma {:induction false} DigitsAreRead(n: nat, rest: ByteString)
    ensures ReadDigits(Digits(n) + rest, 0) == ReadDigits(rest, n)
  {
    var last := [0x30 + n % 10] + rest;
    assert last[1..] == rest;
    if n < 10 {
      assert Digits(n) + rest == last;
    } else {
      DigitsAreRead(n / 10, last);
      Associative(Digits(n / 10), [0x30 + n % 10], rest);
    }
  }

  lemma {:induction false} FirstDigit(n: nat)
    ensures IsDigit(Digits(n)[0]) && (Digits(n)[0] == 0x30 <==> n == 0)
    ensures n == 0 ==> Digits(n) == [0x30]
  {
    if n >= 10 {
      FirstDigit(n / 10);
    }
  }

  lemma NaturalIsRead(n: nat, rest: ByteString)
    requires Delimited(rest)
    ensures ReadNatural(Digits(n) + rest) == Some(Read(n, rest))
  {
    FirstDigit(n);
    DigitsAreRead(n, rest);
    var text := Digits(n) + rest;
    assert text[0] == Digits(n)[0];
    if n == 0 {
      assert text[1..] == rest;
    }
  }

  lemma DecimalIsRead(n: int, rest: ByteString)
    requires Delimited(rest)
    ensures ReadNumber(Decimal(n) + rest) == Some(Read(Number(n), rest))
  {
    var digits := Digits(if n < 0 then -n else n);
    NaturalIsRead(if n < 0 then -n else n, rest);
    FirstDigit(if n < 0 then -n else n);
    if n < 0 {
      assert (Decimal(n) + rest)[1..] == digits + rest;
    } else {
      assert (Decimal(n) + rest)[0] == digits[0];
    }
  }

  lemma FirstByteOf(v: Json, rest: ByteString)
    ensures Print(v, rest) != []
    ensures var b := Print(v, rest)[0];
            && b != ']' as int && b != '}' as int
            && (v.Number? ==> b == '-' as int || IsDigit(b))
            && (v.Text? ==> b == '\"' as int) && (v.Array? ==> b == '[' as int) && (v.Object? ==> b == '{' as int)
  {
    if v.Number? {
      FirstDigit(if v.n < 0 then -v.n else v.n);
    }
  }

  lemma ScalarIsRead(v: Json, rest: ByteString)
    requires !v.Array? && !v.Object? && Delimited(rest)
    ensures ReadValue(Print(v, rest)) == Some(Read(v, rest))
  {
    FirstByteOf(v, rest);
    var text := Print(v, rest);
    match v
    case Number(n) => DecimalIsRead(n, rest);
    case Text(s) => QuoteIsRead(s, rest);
    case Null =>
      assert Scalar(v) == Ascii("null") && text[4..] == rest;
    case Bool(b) =>
      assert Scalar(v) == Ascii(if b then "true" else "false") && text[|Scalar(v)|..] == rest;
  }

  lemma ArrayIsRead(items: List<Json>, rest: ByteString)
    requires items.Cons? ==> ReadItems(PrintItems(items, rest)) == Some(Read(items, rest))
    ensures ReadArray(PrintItems(items, rest)) == Some(Read(Array(items), rest))
  {
    if items.Nil? {
      assert PrintItems(items, rest)[1..] == rest;
    } else {
      FirstByteOf(items.head, MoreItems(items.tail, rest));
    }
  }

  lemma ObjectIsRead(members: List<Entry<Json>>, rest: ByteString)
    requires members.Cons? ==> ReadMembers(PrintMembers(members, rest)) == Some(Read(members, rest))
    ensures ReadObject(PrintMembers(members, rest)) == Some(Read(Object(members), rest))
  {
    if members.Nil? {
      assert PrintMembers(members, rest)[1..] == rest;
    } else {
      QuoteIsRead(members.head.key, [0x3a] + Print(members.head.value, MoreMembers(members.tail, rest)));
    }
  }

  lemma BracketedIsRead(text: ByteString, body: ByteString, read: Read<Json>)
    requires text == [0x5b] + body && ReadArray(body) == Some(read)
    ensures ReadValue(text) == Some(read)
  {
    assert text[1..] == body;
  }

  lemma BracedIsRead(text: ByteString, body: ByteString, read: Read<Json>)
    requires text == [0x7b] + body && ReadObject(body) == Some(read)
    ensures ReadValue(text) == Some(read)
  {
    assert text[1..] == body;
  }

  /** A printed value in front of a delimiter is read back, with what follows it. */
  lemma {:induction false} PrintIsRead(v: Json, rest: ByteString)
    requires Delimited(rest)
    ensures ReadValue(Print(v, rest)) == Some(Read(v, rest))
  {
    match v
    case Array(items) =>
      if items.Cons? { ItemsAreRead(items, rest); }
      ArrayIsRead(items, rest);
      BracketedIsRead(Print(v, rest), PrintItems(items, rest), Read(v, rest));
    case Object(members) =>
      if members.Cons? { MembersAreRead(members, rest); }
      ObjectIsRead(members, rest);
      BracedIsRead(Print(v, rest), PrintMembers(members, rest), Read(v, rest));
    case _ => ScalarIsRead(v, rest);
  }

  lemma {:induction false} ItemsAreRead(items: List<Json>, rest: ByteString)
    requires items.Cons?
    ensures ReadItems(PrintItems(items, rest)) == Some(Read(items, rest))
  {
    var more := MoreItems(items.tail, rest);
    PrintIsRead(items.head, more);
    if items.tail.Nil? {
      assert more[1..] == rest;
    } else {
      ItemsAreRead(items.tail, rest);
      assert more[1..] == PrintItems(items.tail, rest);
    }
  }

  lemma {:induction false} MembersAreRead(members: List<Entry<Json>>, rest: ByteString)
    requires members.Cons?
    ensures ReadMembers(PrintMembers(members, rest)) == Some(Read(members, rest))
  {
    var more := MoreMembers(members.tail, rest);
    MemberIsRead(members.head, more);
    if members.tail.Nil? {
      assert more[1..] == rest;
    } else {
      MembersAreRead(members.tail, rest);
      assert more[1..] == PrintMembers(members.tail, rest);
    }
  }

  lemma {:induction false} MemberIsRead(member: Entry<Json>, rest: ByteString)
    requires Delimited(rest)
    ensures ReadMember(Quote(member.key) + ([0x3a] + Print(member.value, rest))) == Some(Read(member, rest))
  {
    var after := [0x3a] + Print(member.value, rest);
    QuoteIsRead(member.key, after);
    PrintIsRead(member.value, rest);
    assert after[1..] == Print(member.value, rest);
  }

  /** The canonical text is JSON, and stands for the document with its keys sorted. */
  lemma CanonicalTextIsJson(v: Json)
    ensures ReadJson(CanonicalText(v)) == Some(Normal(v))
  {
    CanonicalTextPrints(v);
    assert CanonicalText(v) == CanonicalText(v) + [] == Print(Normal(v), []);
    PrintIsRead(Normal(v), []);
  }

  /** A printed value is recovered from the text, with what follows it. */
  lemma PrintIsDecodable(a: Json, b: Json, x: ByteString, y: ByteString)
    requires Delimited(x) && Delimited(y)
    requires Print(a, x) == Print(b, y)
    ensures a == b && x == y
  {
    PrintIsRead(a, x);
    PrintIsRead(b, y);
  }

  /** Canonical texts are equal exactly for documents that differ at most in key order. */
  lemma CanonicalTextIsExact(a: Json, b: Json)
    requires WellFormed(a) && WellFormed(b)
    ensures CanonicalText(a) == CanonicalText(b) <==> Equivalent(a, b)
  {
    NormalIsExact(a, b);
    CanonicalTextIsJson(a);
    CanonicalTextIsJson(b);
    CanonicalTextPrints(a);
    CanonicalTextPrints(b);
    assert CanonicalText(a) == CanonicalText(a) + [] == Print(Normal(a), []);
    assert CanonicalText(b) == CanonicalText(b) + [] == Print(Normal(b), []);
  }

  // ---------------------------------------------------------------------------
  // The order of keys
  // ---------------------------------------------------------------------------

  /** The first place at which two keys differ decides, or the end of one of them. */
  lemma {:induction false} BeforeIsLexicographic(a: ByteString, b: ByteString)
    ensures Before(a, b) <==>
              exists n: nat :: n <= |a| && n < |b| && a[..n] == b[..n] && (n < |a| ==> a[n] < b[n])
  {
    forall n: nat | 0 < n <= |a| && n <= |b| && a[..n] == b[..n] ensures a[0] == b[0] {
      assert a[..n][0] == b[..n][0];
    }
    if a != [] && b != [] && a[0] == b[0] {
      BeforeIsLexicographic(a[1..], b[1..]);
      if n: nat :| n <= |a[1..]| && n < |b[1..]| && a[1..][..n] == b[1..][..n] && (n < |a[1..]| ==> a[1..][n] < b[1..][n]) {
        assert a[..n + 1] == [a[0]] + a[1..][..n] && b[..n + 1] == [b[0]] + b[1..][..n];
      }
      if n: nat :| n <= |a| && n < |b| && a[..n] == b[..n] && (n < |a| ==> a[n] < b[n]) {
        assert n > 0;
        assert a[1..][..n - 1] == a[..n][1..] && b[1..][..n - 1] == b[..n][1..];
      }
    } else if Before(a, b) {
      assert a[..0] == b[..0];
    }
  }

  /** The keys of every object rise. */
  predicate KeysRise(v: Json) {
    match v
    case Array(items) => KeysRiseInItems(items)
    case Object(members) => StrictlySorted(members) && KeysRiseInMembers(members)
    case _ => true
  }

  predicate KeysRiseInItems(items: List<Json>) {
    items.Cons? ==> KeysRise(items.head) && KeysRiseInItems(items.tail)
  }

  predicate KeysRiseInMembers(members: List<Entry<Json>>) {
    members.Cons? ==> KeysRise(members.head.value) && KeysRiseInMembers(members.tail)
  }

  lemma {:induction false} InsertKeepsRise(m: Entry<Json>, members: List<Entry<Json>>)
    requires KeysRise(m.value) && KeysRiseInMembers(members)
    ensures KeysRiseInMembers(Insert(m, members))
  {
    if members.Cons? && !Before(m.key, members.head.key) {
      InsertKeepsRise(m, members.tail);
    }
  }

  lemma {:induction false} SortKeepsRise(members: List<Entry<Json>>)
    requires KeysRiseInMembers(members)
    ensures KeysRiseInMembers(SortByKey(members))
  {
    if members.Cons? {
      SortKeepsRise(members.tail);
      InsertKeepsRise(members.head, SortByKey(members.tail));
    }
  }

  /** In the canonical form the keys of every object rise, byte by byte (see `BeforeIsLexicographic`). */
  lemma {:induction false} NormalKeysRise(v: Json)
    requires WellFormed(v)
    ensures KeysRise(Normal(v))
  {
    match v
    case Array(items) => NormalItemsRise(items);
    case Object(members) =>
      NormalMembersRise(members);
      NormalMembersDistinct(members);
      SortSorts(NormalMembers(members));
      SortKeepsRise(NormalMembers(members));
    case _ =>
  }

  lemma {:induction false} NormalItemsRise(items: List<Json>)
    requires WellFormedItems(items)
    ensures KeysRiseInItems(NormalItems(items))
  {
    if items.Cons? {
      NormalKeysRise(items.head);
      NormalItemsRise(items.tail);
    }
  }

  lemma {:induction false} NormalMembersRise(members: List<Entry<Json>>)
    requires WellFormedMembers(members)
    ensures KeysRiseInMembers(NormalMembers(members))
  {
    if members.Cons? {
      NormalKeysRise(members.head.value);
      NormalMembersRise(members.tail);
    }
  }
}
