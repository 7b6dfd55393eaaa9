/**
 A server whose range responses leave the total untold, as section 14.4 of RFC 9110 allows: the
 provider lets them through, and a tail that is not forced answers without the last line.
 */
module UntoldTotals {
  import opened Foundation
  import opened LineFraming
  import opened Windows
  import opened Readings
  import opened Source
  import opened ContentRange
  import opened GuardedRange
  import opened S3Responses
  import opened Snapshot
  import opened Ledger
  import opened Inspection
  import Streams
  import Utf8

  const KEY: bytes := [0x6B]
  const TARGET: bytes := [0x74]
  const ETAG: bytes := [QUOTE, 0x61, QUOTE]

  /** "a LF b" */
  const OBJECT: bytes := [97, LF, 98]

  const SELECTION: Selection := Selection(TARGET, KEY, ValidatorMatch(ETAG))

  const HEAD_RESPONSE: HttpResponse := HttpResponse(Some(200), false, None, Some(ETAG), Some(3), None, [])

  /** A 206 response for part of the object: `bytes start-end/` and a star. */
  function PartialResponse(offset: u64, length: u64): HttpResponse
    requires 0 < length && offset + length <= |OBJECT|
  {
    HttpResponse(Some(206), false, None, Some(ETAG), Some(length),
                 Some(WriteContentRange(ParsedContentRange(ByteWindow(offset, offset + length - 1), None))),
                 [Streams.Chunk(OBJECT[offset..offset + length])])
  }

  function UntoldServer(): Server {
    Server((t: nat, key: bytes) => Ok(HEAD_RESPONSE),
           (t: nat, sel: Selection) => Ok(HEAD_RESPONSE),
           (t: nat, sel: Selection, offset: u64, length: u64) =>
             if 0 < length && offset + length <= |OBJECT| then Ok(PartialResponse(offset, length)) else Err(BadRequest))
  }

  function UntoldProvider(): Provider {
    S3Provider(UntoldServer(), TARGET)
  }

  lemma WholeObjectField()
    ensures PartialResponse(0, 3).contentRange
            == Some([0x62, 0x79, 0x74, 0x65, 0x73, 0x20, 0x30, DASH, 0x32, SLASH, STAR])
  {
    assert Decimal(0) == [0x30] && Decimal(2) == [0x32];
    assert WriteContentRange(ParsedContentRange(ByteWindow(0, 2), None))
      == BYTES_UNIT + ([0x30] + [DASH] + [0x32] + [SLASH] + [STAR])
      == [0x62, 0x79, 0x74, 0x65, 0x73, 0x20, 0x30, DASH, 0x32, SLASH, STAR];
  }

  lemma SelectionIsBound(at: nat)
    ensures SelectionAt(UntoldProvider(), KEY, at) == Some(SELECTION) && ValidFor(SELECTION, TARGET, KEY)
    ensures BindingError(UntoldProvider(), KEY, at) == None
  {
    assert StrongEtag(ETAG);
    assert UntoldProvider().observe(at, KEY) == ObserveSource(KEY, Ok(HEAD_RESPONSE));
    assert UntoldProvider().observe(at, KEY) == Ok(SourceReceipt(KEY, None, Some(ETAG), Some(3), None, None));
  }

  /** The provider accepts every part of the object, delivers its bytes, and passes the untold total on. */
  lemma PartAccepted(offset: u64, length: u64)
    requires 0 < length && offset + length <= |OBJECT|
    ensures var answer := GuardedGetRange(TARGET, SELECTION, offset, length, Ok(PartialResponse(offset, length)));
      && answer.Ok? && answer.value.receipt.totalSize == None
      && TruthfulRange(answer.value, OBJECT)
      && Deliverable(answer, offset, length)
  {
    hide GuardedGetRange, WriteContentRange, ParseContentRange, ValidateGuardedRangeReceipt, Streams.Declared;
    var r := PartialResponse(offset, length);
    var written := ParsedContentRange(ByteWindow(offset, offset + length - 1), None);
    ContentRangeRoundTrip(written);
    SelectionIsBound(0);
    var chunk: Streams.chunk := OBJECT[offset..offset + length];
    assert r.body == [Streams.Chunk(chunk)] && r.body[1..] == [];
    assert Streams.Data(r.body) == chunk + [] == chunk && Streams.Ending(r.body) == Streams.CleanEof;
    RangeAcceptedExactly(TARGET, SELECTION, offset, length, r);
    AcceptedRangeValidates(TARGET, SELECTION, offset, length, r);
    AcceptedRangeDelivers(TARGET, SELECTION, offset, length, r);
    Streams.DeclaredOutcome(r.body, length);
  }

  /** The provider is honest about the object, delivers all of it, and never tells a total with a range. */
  lemma UntoldProviderDelivers(at: nat)
    ensures DeliversAt(UntoldProvider(), KEY, at, OBJECT)
    ensures HonestAt(UntoldProvider(), KEY, at, OBJECT) && HidesTotalsAt(UntoldProvider(), KEY, at)
  {
    hide GuardedGetRange, TruthfulRange, Deliverable, PartialResponse, SelectionAt;
    var p := UntoldProvider();
    SelectionIsBound(at);
    forall t, offset: u64, length: u64 | p.range(t, SELECTION, offset, length).Ok?
      ensures TruthfulRange(p.range(t, SELECTION, offset, length).value, OBJECT)
      ensures p.range(t, SELECTION, offset, length).value.receipt.totalSize.None?
    {
      RangeNeedsAnswer(TARGET, SELECTION, offset, length, UntoldServer().get(t, SELECTION, offset, length));
      PartAccepted(offset, length);
    }
    assert p.head(at + 1, SELECTION) == GuardedHead(TARGET, SELECTION, Ok(HEAD_RESPONSE));
    forall t ensures p.head(t, SELECTION).Ok? && p.head(t, SELECTION).value.totalSize == Some(3) {
      assert p.head(t, SELECTION) == GuardedHead(TARGET, SELECTION, Ok(HEAD_RESPONSE));
    }
    forall t, offset: u64, length: u64 | 0 < length && offset + length <= |OBJECT|
      ensures Deliverable(p.range(t, SELECTION, offset, length), offset, length)
    {
      PartAccepted(offset, length);
    }
  }

  lemma ObjectIsText()
    ensures TextObject(OBJECT)
  {
    Utf8.ValidIffWellFormed(OBJECT);
    var rest, last: bytes := [LF, 98], [98];
    assert OBJECT[1..] == rest && rest[1..] == last && last[1..] == [];
    assert Utf8.FromUtf8([]) == Utf8.Valid;
    assert Utf8.FromUtf8(last) == Utf8.Valid;
    assert Utf8.FromUtf8(rest) == Utf8.Valid;
    assert Utf8.FromUtf8(OBJECT) == Utf8.Valid;
  }

  lemma ResultOfOneLine(l: ParsedLine, size: nat, strategy: ReadStrategy)
    ensures BuildLineResult([l], size, strategy) ==
            LineResult([l.text], l.start, l.end, size, strategy, if l.ending.Some? then l.ending.value else Unknown)
  {
    assert [l][1..] == [];
    assert Endings([l]) == if l.ending.Some? then [l.ending.value] else [];
    assert Texts([l]) == [l.text];
  }

  lemma TailsOfThreeBytes()
    ensures UsableTail(OBJECT, false, 1, false) == LineResult([[97]], 0, 2, 3, RangeBackward, Lf)
    ensures ExactTail(OBJECT, 1, false) == LineResult([[98]], 2, 3, 3, RangeBackward, Unknown)
  {
    hide Lines, Complete, BuildLineResult;
    SettledPartOfThreeBytes();
    var first, second := ParsedLine([97], 0, 2, Some(Lf)), ParsedLine([98], 2, 3, None);
    assert Last([first], 1) == [first] && Last([first, second], 1) == [second];
    ResultOfOneLine(first, 3, RangeBackward);
    ResultOfOneLine(second, 3, RangeBackward);
  }

  /** No total is told to this tail, so what it gives is the settled part. */
  lemma NothingTold(at: nat)
    ensures !TailToldSize(UntoldProvider(), KEY, at, |OBJECT|, false)
  {
    hide UntoldProvider, HonestAt, DeliversAt;
    UntoldProviderDelivers(at);
  }

  const OPTIONS: LineOptions := LineOptions(256 * 1024, 32 * 1024, false)

  lemma AskedPlainly()
    ensures ValidBudget(LineBudget(1, OPTIONS)) && !OPTIONS.forceStream
    ensures !IsCompressedKey(KEY) && |OBJECT| <= MIB && OBJECT != []
  {
    assert forall suffix <- COMPRESSED_SUFFIXES :: |suffix| > |KEY|;
  }

  /** The last line of "a LF b", asked for without `force_stream`, comes back as "a". */
  method LastLineOfThreeBytes() returns (r: Result<LineResult, StorageError>)
    ensures r == Ok(LineResult([[97]], 0, 2, 3, RangeBackward, Lf))
    ensures r.value != ExactTail(OBJECT, 1, false)
  {
    var one: u64 := 1;
    hide *;
    var world := new World(UntoldProvider(), _ => false);
    UntoldProviderDelivers(0);
    ObjectIsText();
    NothingTold(0);
    TailsOfThreeBytes();
    AskedPlainly();
    r := TailLinesWithOptions(world, KEY, one, OPTIONS, OBJECT);
  }
}
