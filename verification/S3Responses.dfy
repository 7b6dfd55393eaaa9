/** What the S3 provider makes of an HTTP response before it lets a byte of it through. */
module S3Responses {
  import opened Foundation
  import opened Source
  import opened ContentRange
  import opened GuardedRange
  import Streams

  type i64 = n: int | -0x8000_0000_0000_0000 <= n <= 0x7FFF_FFFF_FFFF_FFFF

  /** A successful response: the status and headers that are looked at, and the body's behaviour. */
  datatype HttpResponse = HttpResponse(
    status: Option<nat>, deleteMarker: bool, versionId: Option<bytes>, etag: Option<bytes>,
    contentLength: Option<i64>, contentRange: Option<bytes>, body: Streams.Script)

  function ObservedNativeVersion(version: Option<bytes>): Option<bytes> {
    if version == Some(NULL_TOKEN) then None else version
  }

  function CheckedContentLength(length: Option<i64>): Result<Option<u64>, ProviderFailure> {
    match length
    case None => Ok(None)
    case Some(n) => if n < 0 then Err(MalformedResponse) else Ok(Some(n))
  }

  /** The response must identify itself as the selected source; a weak tag never does. */
  function CheckedReceipt(path: bytes, selector: Selector, r: HttpResponse,
                          requested: Option<ByteWindow>, returned: Option<ByteWindow>)
    : Result<SourceReceipt, ProviderFailure>
  {
    var nativeVersion := ObservedNativeVersion(r.versionId);
    var identified := match selector
      case NativeVersion(token) => nativeVersion == Some(token)
      case ValidatorMatch(token) =>
        r.etag.Some? && ValidSelector(ValidatorMatch(r.etag.value)) && r.etag.value == token;
    if !identified then Err(MalformedResponse)
    else match CheckedContentLength(r.contentLength)
      case Err(e) => Err(e)
      case Ok(total) => Ok(SourceReceipt(path, nativeVersion, r.etag, total, requested, returned))
  }

  function ObserveSource(key: bytes, answer: Result<HttpResponse, ProviderFailure>)
    : Result<SourceReceipt, ProviderFailure>
  {
    if key == [] then Err(BadRequest)
    else match answer
      case Err(e) => Err(e)
      case Ok(r) =>
        if r.deleteMarker then Err(NotFound)
        else
          var told := r.contentLength.Some? && r.contentLength.value >= 0;
          var total := if told then Some(r.contentLength.value as u64) else None;
          Ok(SourceReceipt(key, ObservedNativeVersion(r.versionId), r.etag, total, None, None))
  }

  function GuardedHead(target: bytes, selection: Selection, answer: Result<HttpResponse, ProviderFailure>)
    : Result<SourceReceipt, ProviderFailure>
  {
    if !ValidFor(selection, target, selection.key) || selection.key == [] then Err(BadRequest)
    else match answer
      case Err(e) => Err(e)
      case Ok(r) =>
        if r.deleteMarker then Err(NotFound)
        else CheckedReceipt(selection.key, selection.selector, r, None, None)
  }

  /** A complete response is 200 and, if it carries a range at all, one that covers the whole object. */
  function ValidateFullGetResponse(status: nat, contentRange: Option<bytes>, contentLength: Option<u64>)
    : Result<Option<ByteWindow>, ProviderFailure>
  {
    if status != 200 then Err(MalformedResponse)
    else if contentRange == None then
      Ok(if contentLength.Some? && contentLength.value > 0 then Some(ByteWindow(0, contentLength.value - 1)) else None)
    else match ParseContentRange(contentRange)
      case Err(e) => Err(e)
      case Ok(parsed) =>
        match parsed.window.CheckedLen()
        case None => Err(MalformedResponse)
        case Some(n) =>
          if parsed.window.start != 0 || parsed.totalSize != Some(n) || contentLength != Some(n) then
            Err(MalformedResponse)
          else Ok(Some(parsed.window))
  }

  function GuardedGet(target: bytes, selection: Selection, answer: Result<HttpResponse, ProviderFailure>)
    : Result<RangeResponse, ProviderFailure>
  {
    if !ValidFor(selection, target, selection.key) || selection.key == [] then Err(BadRequest)
    else match answer
      case Err(e) => Err(e)
      case Ok(r) =>
        if r.deleteMarker then Err(NotFound)
        else match CheckedContentLength(r.contentLength)
          case Err(e) => Err(e)
          case Ok(contentLength) =>
            if r.status == None then Err(MalformedResponse)
            else match ValidateFullGetResponse(r.status.value, r.contentRange, contentLength)
              case Err(e) => Err(e)
              case Ok(window) =>
                match CheckedReceipt(selection.key, selection.selector, r, None, window)
                case Err(e) => Err(e)
                case Ok(receipt) => Ok(RangeResponse(receipt, Streams.VisibleThrough(r.body, contentLength, false)))
  }

  /** The window a response must carry for a request, once its total is known. */
  function ExpectedEnd(requestedEnd: u64, total: Option<u64>): u64
    requires total.Some? ==> total.value > 0
  {
    match total case None => requestedEnd case Some(t) => Min(requestedEnd, t - 1)
  }

  function GuardedGetRange(target: bytes, selection: Selection, offset: u64, length: u64,
                           answer: Result<HttpResponse, ProviderFailure>): Result<RangeResponse, ProviderFailure>
  {
    if length == 0 || offset + length - 1 > U64_MAX then Err(BadRequest)
    else if !ValidFor(selection, target, selection.key) || selection.key == [] then Err(BadRequest)
    else match answer
      case Err(e) => Err(e)
      case Ok(r) =>
        if r.status == None then Err(MalformedResponse)
        else if r.deleteMarker then Err(NotFound)
        else match ParseContentRange(r.contentRange)
          case Err(e) => Err(e)
          case Ok(returned) => CheckedRange(selection, offset, offset + length - 1, r, returned)
  }

  /** The checks after the Content-Range has parsed. */
  function CheckedRange(selection: Selection, offset: u64, requestedEnd: u64, r: HttpResponse,
                        returned: ParsedContentRange)
    : Result<RangeResponse, ProviderFailure>
    requires r.status.Some?
  {
    if returned.totalSize.Some? && offset >= returned.totalSize.value then Err(BadRequest)
    else
      var expected := ByteWindow(offset, ExpectedEnd(requestedEnd, returned.totalSize));
      if returned.window != expected then Err(MalformedResponse)
      else match returned.window.CheckedLen()
        case None => Err(MalformedResponse)
        case Some(n) =>
          if r.status.value == 200 && !(returned.window.start == 0 && returned.totalSize == Some(n)) then
            Err(MalformedResponse)
          else if r.status.value != 200 && r.status.value != 206 then Err(MalformedResponse)
          else match CheckedContentLength(r.contentLength)
            case Err(e) => Err(e)
            case Ok(contentLength) =>
              if contentLength != Some(n) then Err(MalformedResponse)
              else match CheckedReceipt(selection.key, selection.selector, r,
                                        Some(ByteWindow(offset, requestedEnd)), Some(returned.window))
                case Err(e) => Err(e)
                case Ok(receipt) =>
                  Ok(RangeResponse(receipt.(totalSize := returned.totalSize), Streams.Declared(r.body, n)))
  }

  /** The response identifies itself by the selector's own token. */
  predicate Identified(selector: Selector, r: HttpResponse) {
    match selector
    case NativeVersion(token) => r.versionId == Some(token)
    case ValidatorMatch(token) => r.etag == Some(token) && StrongEtag(token)
  }

  /** The answer to a request for a range of the selected source, all of it or up to the object's end. */
  predicate ProperRange(selection: Selection, offset: u64, length: u64, r: HttpResponse) {
    && !r.deleteMarker && Identified(selection.selector, r)
    && r.contentLength.Some? && ParseContentRange(r.contentRange).Ok?
    && var parsed := ParseContentRange(r.contentRange).value;
    && ProvenLength(offset, length, parsed.totalSize, if r.contentLength.value < 0 then 0 else r.contentLength.value)
    && parsed.window.start == offset && parsed.window.end + 1 == offset + r.contentLength.value
    && (r.status == Some(206)
        || (r.status == Some(200) && offset == 0 && parsed.totalSize == Some(r.contentLength.value)))
  }

  /** The receipt names the caller's key and carries the response's own version and tag, "null" being no version. */
  predicate ReceiptOf(path: bytes, r: HttpResponse, receipt: SourceReceipt) {
    && receipt.path == path
    && receipt.validator == r.etag
    && (if r.versionId == Some(NULL_TOKEN) then receipt.nativeVersion == None else receipt.nativeVersion == r.versionId)
  }

  lemma IdentityAccepted(path: bytes, selector: Selector, r: HttpResponse,
                         requested: Option<ByteWindow>, returned: Option<ByteWindow>)
    requires ValidSelector(selector)
    ensures CheckedReceipt(path, selector, r, requested, returned).Ok? <==>
      Identified(selector, r) && (r.contentLength.Some? ==> r.contentLength.value >= 0)
    ensures CheckedReceipt(path, selector, r, requested, returned).Ok? ==>
      var receipt := CheckedReceipt(path, selector, r, requested, returned).value;
      && ReceiptOf(path, r, receipt)
      && receipt.requestedWindow == requested && receipt.returnedWindow == returned
      && receipt.totalSize == (if r.contentLength.Some? then Some(r.contentLength.value) else None)
  {
    assert LowerCase(NULL_TOKEN) == NULL_TOKEN;
  }

  /** Selections of another target, or unfit ones, and impossible ranges are refused whatever the server would say. */
  lemma UnfitRequestsRefused(target: bytes, selection: Selection, offset: u64, length: u64,
                             answer: Result<HttpResponse, ProviderFailure>)
    ensures selection.target != target || selection.key == [] || !ValidSelector(selection.selector) ==>
      && GuardedHead(target, selection, answer) == Err(BadRequest)
      && GuardedGet(target, selection, answer) == Err(BadRequest)
      && GuardedGetRange(target, selection, offset, length, answer) == Err(BadRequest)
    ensures length == 0 || offset + length - 1 > U64_MAX ==>
      GuardedGetRange(target, selection, offset, length, answer) == Err(BadRequest)
  {
  }

  /** What the server refuses stays refused, for the reason it gives; a delete marker is an absent object. */
  lemma RefusalsPassThrough(target: bytes, selection: Selection, offset: u64, length: u64,
                            answer: Result<HttpResponse, ProviderFailure>)
    requires ValidFor(selection, target, selection.key) && selection.key != []
    requires length > 0 && offset + length - 1 <= U64_MAX
    ensures answer.Err? ==>
      && ObserveSource(selection.key, answer) == Err(answer.error)
      && GuardedHead(target, selection, answer) == Err(answer.error)
      && GuardedGet(target, selection, answer) == Err(answer.error)
      && GuardedGetRange(target, selection, offset, length, answer) == Err(answer.error)
    ensures answer.Ok? && answer.value.deleteMarker && answer.value.status.Some? ==>
      && ObserveSource(selection.key, answer) == Err(NotFound)
      && GuardedHead(target, selection, answer) == Err(NotFound)
      && GuardedGet(target, selection, answer) == Err(NotFound)
      && GuardedGetRange(target, selection, offset, length, answer) == Err(NotFound)
  {
  }

  /** A range response is let through exactly when it is a proper answer to the request. */
  lemma RangeAcceptedExactly(target: bytes, selection: Selection, offset: u64, length: u64, r: HttpResponse)
    requires ValidFor(selection, target, selection.key) && selection.key != []
    requires length > 0 && offset + length - 1 <= U64_MAX
    ensures GuardedGetRange(target, selection, offset, length, Ok(r)).Ok? <==> ProperRange(selection, offset, length, r)
  {
    hide ParseContentRange, ValidSelector, CheckedReceipt, Identified;
    ParsedIsSatisfiable(r.contentRange);
    if ParseContentRange(r.contentRange).Ok? {
      IdentityAccepted(selection.key, selection.selector, r, Some(ByteWindow(offset, offset + length - 1)),
                       Some(ParseContentRange(r.contentRange).value.window));
    }
  }

  lemma ParsedIsSatisfiable(value: Option<bytes>)
    ensures ParseContentRange(value).Ok? ==> Satisfiable(ParseContentRange(value).value)
  {
    if ParseContentRange(value).Ok? { AcceptedIsSatisfiable(value); }
  }

  /** What the library reads next accepts everything the provider lets through, at its Content-Length. */
  lemma AcceptedRangeValidates(target: bytes, selection: Selection, offset: u64, length: u64, r: HttpResponse)
    requires length > 0
    requires GuardedGetRange(target, selection, offset, length, Ok(r)).Ok?
    ensures var accepted := GuardedGetRange(target, selection, offset, length, Ok(r)).value;
      && r.contentLength.Some? && r.contentLength.value > 0
      && ValidateGuardedRangeReceipt(accepted.receipt, offset, length) == Ok(r.contentLength.value)
      && accepted.script == Streams.Declared(r.body, r.contentLength.value)
      && ParseContentRange(r.contentRange).Ok?
      && accepted.receipt.totalSize == ParseContentRange(r.contentRange).value.totalSize
      && accepted.receipt.returnedWindow == Some(ParseContentRange(r.contentRange).value.window)
      && Identified(selection.selector, r) && ReceiptOf(selection.key, r, accepted.receipt)
  {
    AcceptedIsSatisfiable(r.contentRange);
  }

  /** Draining an accepted response succeeds exactly when the body is the declared bytes and ends. */
  lemma AcceptedRangeDelivers(target: bytes, selection: Selection, offset: u64, length: u64, r: HttpResponse)
    requires length > 0
    requires GuardedGetRange(target, selection, offset, length, Ok(r)).Ok?
    ensures var accepted := GuardedGetRange(target, selection, offset, length, Ok(r));
      && (forall data, receipt :: Delivered(accepted, offset, length, data, receipt) ==>
            data == Streams.Data(r.body) && receipt == accepted.value.receipt)
      && ((exists data, receipt :: Delivered(accepted, offset, length, data, receipt)) <==>
            |Streams.Data(r.body)| == r.contentLength.value && Streams.Ending(r.body) == Streams.CleanEof)
  {
    hide GuardedGetRange, ValidateGuardedRangeReceipt, Streams.Data, Streams.Ending, Streams.Declared;
    var accepted := GuardedGetRange(target, selection, offset, length, Ok(r));
    AcceptedRangeValidates(target, selection, offset, length, r);
    Streams.DeclaredOutcome(r.body, r.contentLength.value);
    assert accepted.value.script == Streams.Declared(r.body, r.contentLength.value);
    if |Streams.Data(r.body)| == r.contentLength.value && Streams.Ending(r.body) == Streams.CleanEof {
      assert Delivered(accepted, offset, length, Streams.Data(r.body), accepted.value.receipt);
    }
  }

  /** The answer to a request for all of the selected source. */
  predicate ProperFull(selection: Selection, r: HttpResponse) {
    && r.status == Some(200) && !r.deleteMarker && Identified(selection.selector, r)
    && (r.contentLength.Some? ==> r.contentLength.value >= 0)
    && (r.contentRange.Some? ==>
          && ParseContentRange(r.contentRange).Ok? && r.contentLength.Some?
          && var parsed := ParseContentRange(r.contentRange).value;
             && parsed.window.start == 0 && parsed.window.end + 1 == r.contentLength.value
             && parsed.totalSize == r.contentLength)
  }

  /** The window and total of a full read are those of its Content-Length, where there is one and it is not zero. */
  predicate FullReceipt(selection: Selection, r: HttpResponse, accepted: RangeResponse) {
    && ReceiptOf(selection.key, r, accepted.receipt)
    && accepted.receipt.requestedWindow == None
    && (match r.contentLength
        case None =>
          accepted.receipt.returnedWindow == None && accepted.receipt.totalSize == None && accepted.script == r.body
        case Some(n) =>
          && n >= 0 && accepted.receipt.totalSize == Some(n)
          && accepted.receipt.returnedWindow == (if n > 0 then Some(ByteWindow(0, n - 1)) else None)
          && accepted.script == Streams.Declared(r.body, n))
  }

  /** A full response is let through exactly when it is a proper one, and then with all of its window. */
  lemma FullAcceptedExactly(target: bytes, selection: Selection, r: HttpResponse)
    requires ValidFor(selection, target, selection.key) && selection.key != []
    ensures GuardedGet(target, selection, Ok(r)).Ok? <==> ProperFull(selection, r)
    ensures GuardedGet(target, selection, Ok(r)).Ok? ==>
      FullReceipt(selection, r, GuardedGet(target, selection, Ok(r)).value)
  {
    hide ParseContentRange, ValidSelector, CheckedReceipt, Identified;
    ParsedIsSatisfiable(r.contentRange);
    if CheckedContentLength(r.contentLength).Ok? && r.status.Some? {
      var length := CheckedContentLength(r.contentLength).value;
      var window := ValidateFullGetResponse(r.status.value, r.contentRange, length);
      if window.Ok? { IdentityAccepted(selection.key, selection.selector, r, None, window.value); }
    }
  }

  /** A HEAD response is let through exactly when it identifies the selected source. */
  lemma HeadAcceptedExactly(target: bytes, selection: Selection, r: HttpResponse)
    requires ValidFor(selection, target, selection.key) && selection.key != []
    ensures GuardedHead(target, selection, Ok(r)).Ok? <==>
      !r.deleteMarker && Identified(selection.selector, r) && (r.contentLength.Some? ==> r.contentLength.value >= 0)
    ensures GuardedHead(target, selection, Ok(r)).Ok? ==>
      var receipt := GuardedHead(target, selection, Ok(r)).value;
      && ReceiptOf(selection.key, r, receipt) && receipt.requestedWindow == receipt.returnedWindow == None
      && receipt.totalSize == CheckedContentLength(r.contentLength).value
  {
    hide ValidSelector, CheckedReceipt, Identified;
    IdentityAccepted(selection.key, selection.selector, r, None, None);
  }

  /** A full read is let through only as one window over the whole object, or with no window at all. */
  lemma AcceptedFullIsWhole(target: bytes, selection: Selection, r: HttpResponse)
    requires GuardedGet(target, selection, Ok(r)).Ok?
    ensures var accepted := GuardedGet(target, selection, Ok(r)).value;
      && r.status == Some(200) && Identified(selection.selector, r)
      && (accepted.receipt.returnedWindow.Some? ==>
            && accepted.receipt.totalSize.Some? && accepted.receipt.totalSize.value > 0
            && accepted.receipt.returnedWindow.value == ByteWindow(0, accepted.receipt.totalSize.value - 1)
            && accepted.script == Streams.Declared(r.body, accepted.receipt.totalSize.value))
      && (r.contentLength.Some? ==>
            (Streams.Ending(accepted.script) == Streams.CleanEof <==>
               Streams.Ending(r.body) == Streams.CleanEof && |Streams.Data(r.body)| == r.contentLength.value))
  {
    AcceptedFullChecks(target, selection, r);
    if r.contentLength.Some? {
      hide *;
      Streams.DeclaredOutcome(r.body, r.contentLength.value);
    }
  }

  lemma AcceptedFullChecks(target: bytes, selection: Selection, r: HttpResponse)
    requires GuardedGet(target, selection, Ok(r)).Ok?
    ensures var accepted := GuardedGet(target, selection, Ok(r)).value;
      && r.status == Some(200) && Identified(selection.selector, r)
      && (accepted.receipt.returnedWindow.Some? ==>
            && accepted.receipt.totalSize.Some? && accepted.receipt.totalSize.value > 0
            && accepted.receipt.returnedWindow.value == ByteWindow(0, accepted.receipt.totalSize.value - 1)
            && accepted.script == Streams.Declared(r.body, accepted.receipt.totalSize.value))
      && (r.contentLength.Some? ==>
            r.contentLength.value >= 0 && accepted.script == Streams.Declared(r.body, r.contentLength.value))
  {
    if r.contentRange.Some? { AcceptedIsSatisfiable(r.contentRange); }
  }
}
