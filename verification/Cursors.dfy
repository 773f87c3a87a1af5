/** The text of a pagination cursor. */
module Cursors {
  import opened Bytes

  /** An id is 16 bytes, compared as an unsigned number. */
  type Id = x: int | 0 <= x < 0x1_0000_0000_0000_0000_0000_0000_0000_0000

  /** The sort key of a row; no two rows share an id. */
  datatype Cursor = Cursor(timestampMicros: Int64, id: Id)

  datatype FieldError = BadCursor | BadLimit | LimitOutOfRange | SortNotAllowed | BadDirection

  // ---------------------------------------------------------------------------
  // Unpadded URL-safe base64 (section 5 of RFC 4648)
  // ---------------------------------------------------------------------------

  type Sextet = v: int | 0 <= v < 64

  function Symbol(v: Sextet): Byte {
    if v < 26 then 65 + v
    else if v < 52 then 97 + (v - 26)
    else if v < 62 then 48 + (v - 52)
    else if v == 62 then 45
    else 95
  }

  function SymbolValue(b: Byte): Option<Sextet> {
    if 65 <= b < 91 then Some(b - 65)
    else if 97 <= b < 123 then Some(b - 97 + 26)
    else if 48 <= b < 58 then Some(b - 48 + 52)
    else if b == 45 then Some(62)
    else if b == 95 then Some(63)
    else None
  }

  function Values(text: ByteString): (vs: Option<seq<Sextet>>)
    ensures vs.Some? ==> |vs.value| == |text|
  {
    if text == [] then Some([])
    else
      var (last, before) := (SymbolValue(text[|text| - 1]), Values(text[..|text| - 1]));
      if last.Some? && before.Some? then Some(before.value + [last.value]) else None
  }

  function Symbols(vs: seq<Sextet>): (text: ByteString)
    ensures |text| == |vs|
  {
    if vs == [] then [] else Symbols(vs[..|vs| - 1]) + [Symbol(vs[|vs| - 1])]
  }

  lemma SymbolIsExact(v: Sextet, b: Byte)
    ensures SymbolValue(b) == Some(v) <==> b == Symbol(v)
  {
  }

  lemma {:induction false} SymbolsRoundTrip(vs: seq<Sextet>)
    ensures Values(Symbols(vs)) == Some(vs)
  {
    if vs != [] {
      var (before, last) := (vs[..|vs| - 1], vs[|vs| - 1]);
      SymbolsRoundTrip(before);
      SymbolIsExact(last, Symbol(last));
      assert Symbols(vs)[..|vs| - 1] == Symbols(before);
      assert before + [last] == vs;
    }
  }

  lemma {:induction false} ValuesRoundTrip(text: ByteString)
    ensures Values(text).Some? ==> Symbols(Values(text).value) == text
  {
    if text != [] {
      var (before, last) := (text[..|text| - 1], text[|text| - 1]);
      ValuesRoundTrip(before);
      if Values(text).Some? {
        SymbolIsExact(SymbolValue(last).value, last);
        assert Values(text).value[..|text| - 1] == Values(before).value;
      }
    }
  }

  function Group(a: Byte, b: Byte, c: Byte): (vs: seq<Sextet>)
    ensures |vs| == 4
  {
    [a / 4, a % 4 * 16 + b / 16, b % 16 * 4 + c / 64, c % 64]
  }

  function Ungroup(u: Sextet, v: Sextet, w: Sextet, x: Sextet): (bytes: ByteString)
    ensures |bytes| == 3
  {
    [u * 4 + v / 16, v % 16 * 16 + w / 4, w % 4 * 64 + x]
  }

  lemma GroupRoundTrip(a: Byte, b: Byte, c: Byte)
    ensures var vs := Group(a, b, c); Ungroup(vs[0], vs[1], vs[2], vs[3]) == [a, b, c]
    ensures b == 0 ==> Group(a, b, c)[1] % 16 == 0
    ensures c == 0 ==> Group(a, b, c)[2] % 4 == 0
  {
    var vs := Group(a, b, c);
    var bytes := Ungroup(vs[0], vs[1], vs[2], vs[3]);
    assert bytes[0] == a && bytes[1] == b && bytes[2] == c;
  }

  lemma UngroupRoundTrip(u: Sextet, v: Sextet, w: Sextet, x: Sextet)
    ensures var bytes := Ungroup(u, v, w, x); Group(bytes[0], bytes[1], bytes[2]) == [u, v, w, x]
    ensures v % 16 == 0 && w == 0 && x == 0 ==> Ungroup(u, v, w, x)[1] == 0 && Ungroup(u, v, w, x)[2] == 0
    ensures w % 4 == 0 && x == 0 ==> Ungroup(u, v, w, x)[2] == 0
  {
    var bytes := Ungroup(u, v, w, x);
    assert bytes[0] / 4 == u && bytes[0] % 4 * 16 + bytes[1] / 16 == v;
    assert bytes[1] % 16 * 4 + bytes[2] / 64 == w && bytes[2] % 64 == x;
  }

  /** Three bytes become four values; one or two at the end become two or three. */
  function Sextets(bytes: ByteString): seq<Sextet> {
    if |bytes| == 0 then []
    else if |bytes| == 1 then Group(bytes[0], 0, 0)[..2]
    else if |bytes| == 2 then Group(bytes[0], bytes[1], 0)[..3]
    else Group(bytes[0], bytes[1], bytes[2]) + Sextets(bytes[3..])
  }

  /** The inverse. One value alone, or bits left over at the end, are refused. */
  function Octets(vs: seq<Sextet>): Option<ByteString> {
    if |vs| == 0 then Some([])
    else if |vs| == 1 then None
    else if |vs| == 2 then if vs[1] % 16 == 0 then Some(Ungroup(vs[0], vs[1], 0, 0)[..1]) else None
    else if |vs| == 3 then if vs[2] % 4 == 0 then Some(Ungroup(vs[0], vs[1], vs[2], 0)[..2]) else None
    else
      match Octets(vs[4..])
      case None => None
      case Some(rest) => Some(Ungroup(vs[0], vs[1], vs[2], vs[3]) + rest)
  }

  lemma OneRoundTrip(a: Byte)
    ensures Octets(Sextets([a])) == Some([a])
  {
    GroupRoundTrip(a, 0, 0);
    var (vs, group) := (Sextets([a]), Group(a, 0, 0));
    assert group[2] == 0 && group[3] == 0 && vs[0] == group[0] && vs[1] == group[1];
    assert [a, 0, 0][..1] == [a];
  }

  lemma TwoRoundTrip(a: Byte, b: Byte)
    ensures Octets(Sextets([a, b])) == Some([a, b])
  {
    GroupRoundTrip(a, b, 0);
    var (vs, group) := (Sextets([a, b]), Group(a, b, 0));
    assert group[3] == 0 && vs[0] == group[0] && vs[1] == group[1] && vs[2] == group[2];
    assert [a, b, 0][..2] == [a, b];
  }

  lemma StepRoundTrip(a: Byte, b: Byte, c: Byte, rest: ByteString)
    requires Octets(Sextets(rest)) == Some(rest)
    ensures Octets(Group(a, b, c) + Sextets(rest)) == Some([a, b, c] + rest)
  {
    GroupRoundTrip(a, b, c);
    assert (Group(a, b, c) + Sextets(rest))[4..] == Sextets(rest);
  }

  lemma {:induction false} SextetsRoundTrip(bytes: ByteString)
    ensures Octets(Sextets(bytes)) == Some(bytes)
  {
    if |bytes| >= 3 {
      SextetsRoundTrip(bytes[3..]);
      StepRoundTrip(bytes[0], bytes[1], bytes[2], bytes[3..]);
      assert bytes == [bytes[0], bytes[1], bytes[2]] + bytes[3..];
    } else if |bytes| == 2 {
      TwoRoundTrip(bytes[0], bytes[1]);
      assert bytes == [bytes[0], bytes[1]];
    } else if |bytes| == 1 {
      OneRoundTrip(bytes[0]);
      assert bytes == [bytes[0]];
    }
  }

  lemma {:induction false} OctetsRoundTrip(vs: seq<Sextet>)
    ensures Octets(vs).Some? ==> Sextets(Octets(vs).value) == vs
  {
    if |vs| >= 2 {
      UngroupRoundTrip(vs[0], vs[1], if |vs| > 2 then vs[2] else 0, if |vs| > 3 then vs[3] else 0);
    }
    if |vs| >= 4 && Octets(vs).Some? {
      OctetsRoundTrip(vs[4..]);
      assert Octets(vs).value[3..] == Octets(vs[4..]).value;
      assert vs == [vs[0], vs[1], vs[2], vs[3]] + vs[4..];
    }
  }

  function Encode64(bytes: ByteString): ByteString {
    Symbols(Sextets(bytes))
  }

  function Decode64(text: ByteString): Option<ByteString> {
    match Values(text)
    case None => None
    case Some(vs) => Octets(vs)
  }

  /** A text is accepted exactly if it is the encoding of what it decodes to. */
  lemma Base64IsBijective(text: ByteString, bytes: ByteString)
    ensures Decode64(text) == Some(bytes) <==> text == Encode64(bytes)
  {
    SextetsRoundTrip(bytes);
    SymbolsRoundTrip(Sextets(bytes));
    ValuesRoundTrip(text);
    if Values(text).Some? {
      OctetsRoundTrip(Values(text).value);
    }
  }

  // ---------------------------------------------------------------------------
  // What the text stands for
  // ---------------------------------------------------------------------------

  function CharactersFrom(first: char, n: nat): (s: string)
    requires first as int + n <= 128
    ensures |s| == n
  {
    seq(n, i requires 0 <= i < n => (first as int + i) as char)
  }

  /** The alphabet of section 5 of RFC 4648, in the order of values. */
  function Alphabet(): (s: string)
    ensures |s| == 64
  {
    CharactersFrom('A', 26) + CharactersFrom('a', 26) + CharactersFrom('0', 10) + "-_"
  }

  lemma SymbolIsOfAlphabet(v: Sextet)
    ensures Symbol(v) == Alphabet()[v] as int
  {
  }

  function Pow64(w: nat): (p: nat)
    ensures p > 0
  {
    if w == 0 then 1 else 64 * Pow64(w - 1)
  }

  /** The number that the values are the digits of, to base 64. */
  function Number64(vs: seq<Sextet>): nat {
    if vs == [] then 0 else 64 * Number64(vs[..|vs| - 1]) + vs[|vs| - 1]
  }

  lemma {:induction false} Number64Joins(a: seq<Sextet>, b: seq<Sextet>)
    ensures Number64(a + b) == Number64(a) * Pow64(|b|) + Number64(b)
  {
    if b == [] {
      assert a + b == a;
    } else {
      var (before, last) := (b[..|b| - 1], b[|b| - 1]);
      Number64Joins(a, before);
      assert (a + b)[..|a + b| - 1] == a + before;
      TimesPow64(Number64(a), |b|);
    }
  }

  lemma TimesPow64(n: nat, w: nat)
    requires w > 0
    ensures n * Pow64(w) == 64 * (n * Pow64(w - 1))
  {
  }

  lemma {:induction false} SamePower(k: nat)
    ensures Pow64(4 * k) == Pow256(3 * k)
  {
    if k > 0 {
      SamePower(k - 1);
      var (n, m) := (4 * k, 3 * k);
      assert Pow64(n) == 64 * Pow64(n - 1) && Pow64(n - 1) == 64 * Pow64(n - 2);
      assert Pow64(n - 2) == 64 * Pow64(n - 3) && Pow64(n - 3) == 64 * Pow64(n - 4);
      assert Pow256(m) == 256 * Pow256(m - 1) && Pow256(m - 1) == 256 * Pow256(m - 2);
      assert Pow256(m - 2) == 256 * Pow256(m - 3);
    }
  }

  lemma GroupIsNumber(a: Byte, b: Byte, c: Byte)
    ensures Number64(Group(a, b, c)) == FromBigEndian([a, b, c])
  {
    var vs := Group(a, b, c);
    assert vs == [vs[0]] + [vs[1]] + [vs[2]] + [vs[3]];
    Number64Joins([vs[0]], [vs[1]]);
    Number64Joins([vs[0]] + [vs[1]], [vs[2]]);
    Number64Joins([vs[0]] + [vs[1]] + [vs[2]], [vs[3]]);
    assert [a, b, c] == [a] + [b] + [c];
    FromBigEndianJoins([a], [b]);
    FromBigEndianJoins([a] + [b], [c]);
    assert forall v: Sextet :: Number64([v]) == v;
    assert forall x: Byte :: FromBigEndian([x]) == x;
    assert Pow64(1) == 64 && Pow256(1) == 256;
  }

  /** Whole groups of three bytes are the same number in four digits to base 64. */
  lemma {:induction false} SextetsAreNumber(bytes: ByteString)
    requires |bytes| % 3 == 0
    ensures Number64(Sextets(bytes)) == FromBigEndian(bytes)
  {
    if bytes != [] {
      var (first, rest) := ([bytes[0], bytes[1], bytes[2]], bytes[3..]);
      SextetsAreNumber(rest);
      SextetsLength(rest);
      Number64Joins(Group(bytes[0], bytes[1], bytes[2]), Sextets(rest));
      assert bytes == first + rest;
      FromBigEndianJoins(first, rest);
      GroupIsNumber(bytes[0], bytes[1], bytes[2]);
      SamePower(|rest| / 3);
    }
  }

  // ---------------------------------------------------------------------------
  // The cursor
  // ---------------------------------------------------------------------------

  const MAX_CURSOR_TEXT: nat := 64

  function CursorBytes(c: Cursor): ByteString {
    BigEndian64(c.timestampMicros) + BigEndian(c.id, 16)
  }

  function EncodeCursor(c: Cursor): ByteString {
    Encode64(CursorBytes(c))
  }

  function CursorFrom(raw: ByteString): Cursor
    requires |raw| == 24
  {
    Pow256Values();
    FromSignedRoundTrip(raw[..8]);
    Cursor(FromSignedBigEndian(raw[..8]), FromBigEndian(raw[8..]))
  }

  function DecodeCursor(text: ByteString): Result<Cursor, FieldError> {
    if |text| > MAX_CURSOR_TEXT then Err(BadCursor)
    else
      match Decode64(text)
      case None => Err(BadCursor)
      case Some(raw) => if |raw| != 24 then Err(BadCursor) else Ok(CursorFrom(raw))
  }

  lemma CursorBytesAreExact(c: Cursor, raw: ByteString)
    ensures |CursorBytes(c)| == 24
    ensures |raw| == 24 ==> (CursorFrom(raw) == c <==> raw == CursorBytes(c))
  {
    Pow256Values();
    SignedRoundTrip(c.timestampMicros, 8);
    BigEndianRoundTrip(c.id, 16);
    if |raw| == 24 {
      FromSignedRoundTrip(raw[..8]);
      FromBigEndianRoundTrip(raw[8..]);
      assert raw == raw[..8] + raw[8..];
      assert CursorBytes(c)[..8] == BigEndian64(c.timestampMicros) && CursorBytes(c)[8..] == BigEndian(c.id, 16);
    }
  }

  lemma {:induction false} SextetsLength(bytes: ByteString)
    requires |bytes| % 3 == 0
    ensures |Sextets(bytes)| == |bytes| / 3 * 4
  {
    if bytes != [] {
      SextetsLength(bytes[3..]);
    }
  }

  /** Every cursor has exactly one accepted text, and every accepted text is some cursor's. */
  lemma CursorCodecIsBijective(text: ByteString, c: Cursor)
    ensures DecodeCursor(text) == Ok(c) <==> text == EncodeCursor(c)
  {
    Base64IsBijective(text, CursorBytes(c));
    CursorBytesAreExact(c, []);
    SextetsLength(CursorBytes(c));
    match Decode64(text) {
      case None =>
      case Some(raw) => CursorBytesAreExact(c, raw);
    }
  }

  lemma CursorRoundTrip(c: Cursor)
    ensures DecodeCursor(EncodeCursor(c)) == Ok(c)
  {
    CursorCodecIsBijective(EncodeCursor(c), c);
  }

  /** The 32 letters of a cursor are the digits, to base 64, of its time as two's complement and then its id. */
  lemma CursorIsNumber(c: Cursor)
    ensures |EncodeCursor(c)| == 32 && Values(EncodeCursor(c)).Some?
    ensures var time := if c.timestampMicros < 0 then c.timestampMicros + 0x1_0000_0000_0000_0000 else c.timestampMicros;
            Number64(Values(EncodeCursor(c)).value) == time * 0x1_0000_0000_0000_0000_0000_0000_0000_0000 + c.id
  {
    var (front, back) := (BigEndian64(c.timestampMicros), BigEndian(c.id, 16));
    SymbolsRoundTrip(Sextets(CursorBytes(c)));
    SextetsLength(CursorBytes(c));
    SextetsAreNumber(CursorBytes(c));
    FromBigEndianJoins(front, back);
    Pow256Values();
    BigEndianRoundTrip(if c.timestampMicros < 0 then c.timestampMicros + Pow256(8) else c.timestampMicros, 8);
    BigEndianRoundTrip(c.id, 16);
  }
}
