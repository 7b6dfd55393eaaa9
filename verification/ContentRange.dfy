/** The Content-Range field of a partial response (section 14.4 of RFC 9110), parsed and written. */
module ContentRange {
  import opened Foundation
  import opened Source

  const PLUS: byte := 0x2B
  const DASH: byte := 0x2D
  const STAR: byte := 0x2A
  const ZERO: byte := 0x30
  const BYTES_UNIT: bytes := [0x62, 0x79, 0x74, 0x65, 0x73, 0x20]

  predicate IsDigit(b: byte) { ZERO <= b <= 0x39 }

  predicate AllDigits(s: bytes) {
    forall i | 0 <= i < |s| :: IsDigit(s[i])
  }

  function DigitsValue(s: bytes): nat
    requires AllDigits(s)
  {
    if s == [] then 0 else 10 * DigitsValue(s[..|s| - 1]) + (s[|s| - 1] - ZERO) as nat
  }

  /** `str::parse::<u64>`: digits after an optional plus sign, within the word. */
  function ParseU64(s: bytes): Option<u64> {
    var digits := if s != [] && s[0] == PLUS then s[1..] else s;
    if digits == [] || !AllDigits(digits) then None
    else if DigitsValue(digits) > U64_MAX then None
    else Some(DigitsValue(digits))
  }

  /** `str::split_once`: around the first separator. */
  function SplitOnce(s: bytes, separator: byte): Option<(bytes, bytes)> {
    if s == [] then None
    else if s[0] == separator then Some(([], s[1..]))
    else match SplitOnce(s[1..], separator)
      case None => None
      case Some(parts) => Some(([s[0]] + parts.0, parts.1))
  }

  datatype ParsedContentRange = ParsedContentRange(window: ByteWindow, totalSize: Option<u64>)

  function ParseWindow(window: bytes): Option<ByteWindow> {
    match SplitOnce(window, DASH)
    case None => None
    case Some(ends) =>
      match (ParseU64(ends.0), ParseU64(ends.1))
      case (Some(start), Some(end)) => if end < start then None else Some(ByteWindow(start, end))
      case _ => None
  }

  function ParseContentRange(value: Option<bytes>): Result<ParsedContentRange, ProviderFailure> {
    if value == None || !(BYTES_UNIT <= value.value) then Err(MalformedResponse)
    else match SplitOnce(value.value[|BYTES_UNIT|..], SLASH)
      case None => Err(MalformedResponse)
      case Some(fields) =>
        match ParseWindow(fields.0)
        case None => Err(MalformedResponse)
        case Some(window) =>
          if fields.1 == [STAR] then Ok(ParsedContentRange(window, None))
          else match ParseU64(fields.1)
            case None => Err(MalformedResponse)
            case Some(total) =>
              if total == 0 || window.end >= total then Err(MalformedResponse)
              else Ok(ParsedContentRange(window, Some(total)))
  }

  /** A window that lies in the total, when there is one. */
  predicate Satisfiable(r: ParsedContentRange) {
    r.window.start <= r.window.end && (r.totalSize.Some? ==> r.window.end < r.totalSize.value)
  }

  /** Only satisfiable ranges are accepted, so the window's length is at least one byte. */
  lemma AcceptedIsSatisfiable(value: Option<bytes>)
    requires ParseContentRange(value).Ok?
    ensures Satisfiable(ParseContentRange(value).value)
  {
  }

  function Decimal(n: nat): bytes {
    if n < 10 then [ZERO + n as byte] else Decimal(n / 10) + [ZERO + (n % 10) as byte]
  }

  /** The field as a server writes it. */
  function WriteContentRange(r: ParsedContentRange): bytes {
    BYTES_UNIT + (Decimal(r.window.start) + [DASH] + Decimal(r.window.end)
      + [SLASH] + (match r.totalSize case None => [STAR] case Some(t) => Decimal(t)))
  }

  lemma {:induction false} DecimalParses(n: nat)
    ensures Decimal(n) != [] && AllDigits(Decimal(n))
    ensures DigitsValue(Decimal(n)) == n
  {
    if n >= 10 {
      DecimalParses(n / 10);
      var d := Decimal(n);
      assert d[..|d| - 1] == Decimal(n / 10);
    } else {
      assert Decimal(n)[..0] == [];
    }
  }

  lemma {:induction false} SplitOnceAt(front: bytes, separator: byte, rest: bytes)
    requires separator !in front
    ensures SplitOnce(front + [separator] + rest, separator) == Some((front, rest))
  {
    var s := front + [separator] + rest;
    if front == [] {
      assert s[1..] == rest;
    } else {
      assert s[1..] == front[1..] + [separator] + rest;
      SplitOnceAt(front[1..], separator, rest);
      assert [front[0]] + front[1..] == front;
    }
  }

  lemma {:induction false} SplitOnceFound(s: bytes, separator: byte)
    requires SplitOnce(s, separator).Some?
    ensures var (front, rest) := SplitOnce(s, separator).value;
      s == front + [separator] + rest && separator !in front
  {
    if s[0] != separator { SplitOnceFound(s[1..], separator); }
  }

  // ---------------------------------------------------------------- the grammar

  /** A number of the grammar, `1*DIGIT`, and its value. */
  predicate IsNumber(s: bytes, n: nat) {
    s != [] && AllDigits(s) && DigitsValue(s) == n
  }

  /** The three fields of a satisfied range: two positions and a complete length, or a star for an unknown one. */
  predicate RfcFields(start: bytes, end: bytes, total: bytes, r: ParsedContentRange) {
    && IsNumber(start, r.window.start)
    && IsNumber(end, r.window.end)
    && (if r.totalSize == None then total == [STAR] else IsNumber(total, r.totalSize.value))
  }

  function Field(start: bytes, end: bytes, total: bytes): bytes {
    BYTES_UNIT + (start + [DASH] + end + [SLASH] + total)
  }

  /** `v` is the field `r` by the grammar of section 14.4 of RFC 9110, the unit in lower case. */
  ghost predicate RfcSpells(v: bytes, r: ParsedContentRange) {
    exists start: bytes, end: bytes, total: bytes :: v == Field(start, end, total) && RfcFields(start, end, total, r)
  }

  /** A number with the plus sign in front of it, if there is one, taken away. */
  function Bare(s: bytes): bytes {
    if s != [] && s[0] == PLUS then s[1..] else s
  }

  function BareTotal(total: bytes): bytes {
    if total == [PLUS, STAR] then total else Bare(total)
  }

  /** The grammar again, but for at most one plus sign in front of each number. */
  ghost predicate Spells(v: bytes, r: ParsedContentRange) {
    exists start: bytes, end: bytes, total: bytes ::
      v == Field(start, end, total) && RfcFields(Bare(start), Bare(end), BareTotal(total), r)
  }

  lemma ParseU64Exactly(s: bytes, n: u64)
    ensures ParseU64(s) == Some(n) <==> IsNumber(Bare(s), n)
    ensures ParseU64(s).Some? ==> DASH !in s && SLASH !in s && s != [STAR]
  {
  }

  /** What `RfcFields` asks of bared fields is what the parser asks of the fields. */
  lemma FieldsParse(start: bytes, end: bytes, total: bytes, r: ParsedContentRange)
    ensures RfcFields(Bare(start), Bare(end), BareTotal(total), r) <==>
      && ParseU64(start) == Some(r.window.start) && ParseU64(end) == Some(r.window.end)
      && (if r.totalSize == None then total == [STAR] else ParseU64(total) == r.totalSize)
  {
    hide ParseU64;
    ParseU64Exactly(start, r.window.start);
    ParseU64Exactly(end, r.window.end);
    if r.totalSize.Some? { ParseU64Exactly(total, r.totalSize.value); }
    assert !IsDigit(STAR) && !IsDigit(PLUS) && Bare([PLUS, STAR]) == [STAR];
  }

  lemma SpelledParses(start: bytes, end: bytes, total: bytes, r: ParsedContentRange)
    requires Satisfiable(r) && RfcFields(Bare(start), Bare(end), BareTotal(total), r)
    ensures ParseContentRange(Some(Field(start, end, total))) == Ok(r)
  {
    hide ParseU64, SplitOnce, RfcFields;
    FieldsParse(start, end, total, r);
    ParseU64Exactly(start, r.window.start);
    ParseU64Exactly(end, r.window.end);
    if r.totalSize.Some? { ParseU64Exactly(total, r.totalSize.value); }
    var window := start + [DASH] + end;
    assert Field(start, end, total)[|BYTES_UNIT|..] == window + [SLASH] + total;
    assert ParseWindow(window) == Some(r.window) by { SplitOnceAt(start, DASH, end); }
    SplitOnceAt(window, SLASH, total);
  }

  lemma ParsedSpells(v: bytes, r: ParsedContentRange)
    requires ParseContentRange(Some(v)) == Ok(r)
    ensures Satisfiable(r) && Spells(v, r)
  {
    hide ParseU64, SplitOnce, RfcFields;
    AcceptedIsSatisfiable(Some(v));
    var fields := SplitOnce(v[|BYTES_UNIT|..], SLASH).value;
    SplitOnceFound(v[|BYTES_UNIT|..], SLASH);
    var ends := SplitOnce(fields.0, DASH).value;
    SplitOnceFound(fields.0, DASH);
    assert v == BYTES_UNIT + v[|BYTES_UNIT|..];
    assert v == Field(ends.0, ends.1, fields.1);
    FieldsParse(ends.0, ends.1, fields.1, r);
  }

  /** The parser accepts exactly the satisfiable ranges the grammar spells, give or take leading plus signs. */
  lemma ParsesExactly(v: bytes, r: ParsedContentRange)
    ensures ParseContentRange(Some(v)) == Ok(r) <==> Satisfiable(r) && Spells(v, r)
  {
    hide ParseContentRange, Satisfiable, RfcFields, Field, Bare, BareTotal;
    if ParseContentRange(Some(v)) == Ok(r) { ParsedSpells(v, r); }
    if Satisfiable(r) && Spells(v, r) {
      var start: bytes, end: bytes, total: bytes :|
        v == Field(start, end, total) && RfcFields(Bare(start), Bare(end), BareTotal(total), r);
      SpelledParses(start, end, total, r);
    }
  }

  lemma NumberHasNoPlus(s: bytes, n: nat)
    requires IsNumber(s, n)
    ensures PLUS !in s && Bare(s) == s
  {
  }

  lemma PlusesOfField(start: bytes, end: bytes, total: bytes)
    ensures PLUS !in Field(start, end, total) <==> PLUS !in start && PLUS !in end && PLUS !in total
    ensures PLUS !in start && PLUS !in end && PLUS !in total ==>
      Bare(start) == start && Bare(end) == end && BareTotal(total) == total
  {
  }

  lemma RfcFieldsHaveNoPlus(start: bytes, end: bytes, total: bytes, r: ParsedContentRange)
    requires RfcFields(start, end, total, r)
    ensures PLUS !in start && PLUS !in end && PLUS !in total
  {
    NumberHasNoPlus(start, r.window.start);
    NumberHasNoPlus(end, r.window.end);
    if r.totalSize.Some? { NumberHasNoPlus(total, r.totalSize.value); }
  }

  /** Of the satisfiable ranges, the grammar's own spellings are the accepted ones without a plus sign. */
  lemma PlusIsTheOnlyExcess(v: bytes, r: ParsedContentRange)
    ensures Satisfiable(r) && RfcSpells(v, r) <==> ParseContentRange(Some(v)) == Ok(r) && PLUS !in v
  {
    hide ParseContentRange, Satisfiable, RfcFields, Field, Bare, BareTotal;
    ParsesExactly(v, r);
    if Spells(v, r) && PLUS !in v {
      var start: bytes, end: bytes, total: bytes :|
        v == Field(start, end, total) && RfcFields(Bare(start), Bare(end), BareTotal(total), r);
      PlusesOfField(start, end, total);
    }
    if RfcSpells(v, r) {
      var start: bytes, end: bytes, total: bytes :| v == Field(start, end, total) && RfcFields(start, end, total, r);
      RfcFieldsHaveNoPlus(start, end, total, r);
      PlusesOfField(start, end, total);
    }
  }

  /** `bytes +0-+2/+3` is accepted, and spells no satisfiable range. */
  lemma PlusSignsAccepted()
    ensures var v := Field([PLUS, 0x30], [PLUS, 0x32], [PLUS, 0x33]);
      && ParseContentRange(Some(v)) == Ok(ParsedContentRange(ByteWindow(0, 2), Some(3)))
      && forall r :: Satisfiable(r) ==> !RfcSpells(v, r)
  {
    var v := Field([PLUS, 0x30], [PLUS, 0x32], [PLUS, 0x33]);
    var r := ParsedContentRange(ByteWindow(0, 2), Some(3));
    assert Bare([PLUS, 0x30]) == [0x30] && Bare([PLUS, 0x32]) == [0x32] && BareTotal([PLUS, 0x33]) == [0x33];
    assert [0x30][..0] == [] && [0x32][..0] == [] && [0x33][..0] == [];
    SpelledParses([PLUS, 0x30], [PLUS, 0x32], [PLUS, 0x33], r);
    assert v[|BYTES_UNIT|] == PLUS;
    forall q | Satisfiable(q) ensures !RfcSpells(v, q) { PlusIsTheOnlyExcess(v, q); }
  }

  /** Every satisfiable range is written by the grammar, and survives being written and parsed. */
  lemma ContentRangeRoundTrip(r: ParsedContentRange)
    requires Satisfiable(r)
    ensures RfcSpells(WriteContentRange(r), r)
    ensures ParseContentRange(Some(WriteContentRange(r))) == Ok(r)
  {
    hide ParseContentRange, Decimal;
    var start, end := Decimal(r.window.start), Decimal(r.window.end);
    var total := match r.totalSize case None => [STAR] case Some(t) => Decimal(t);
    DecimalParses(r.window.start);
    DecimalParses(r.window.end);
    if r.totalSize.Some? { DecimalParses(r.totalSize.value); }
    assert WriteContentRange(r) == Field(start, end, total) && RfcFields(start, end, total, r);
    PlusIsTheOnlyExcess(WriteContentRange(r), r);
  }
}
