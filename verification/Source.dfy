/** Selectors, receipts and errors, and a provider as everything it might answer. */
module Source {
  import opened Foundation
  import Streams

  // ---------------------------------------------------------------- errors

  datatype Dimension = PayloadBytes | Requests | OutputBytes | PendingLineBytes | Deadline

  /** What a provider call may fail with; kept apart from the library's own refusals. */
  datatype ProviderFailure = NotFound | Conflict | AccessDenied | BadRequest | MalformedResponse | OtherFailure

  datatype StorageError =
    | InvalidArgument
    | UnsupportedCapability
    | LimitExceeded(dimension: Dimension, configured: nat, consumed: nat)
    | EncodingRejected
    | Io(kind: Streams.IoKind)
    | FromProvider(failure: ProviderFailure)

  // ---------------------------------------------------------------- selectors

  datatype Selector = NativeVersion(token: bytes) | ValidatorMatch(token: bytes)

  const QUOTE: byte := 0x22
  const NULL_TOKEN: bytes := [0x6E, 0x75, 0x6C, 0x6C]

  function LowerCase(s: bytes): bytes {
    seq(|s|, i requires 0 <= i < |s| => if 0x41 <= s[i] <= 0x5A then s[i] + 0x20 else s[i])
  }

  predicate ValidNativeVersion(token: bytes) {
    && 1 <= |token| <= 1024
    && (forall b <- token :: 0x21 <= b <= 0x7E && b != QUOTE && b != 0x2C && b != 0x5C)
    && LowerCase(token) != NULL_TOKEN
    && LowerCase(token) != [QUOTE] + NULL_TOKEN + [QUOTE]
  }

  /** One strong entity tag: quoted, and so never marked weak (section 8.8.1 of RFC 9110). */
  predicate StrongEtag(token: bytes) {
    && 3 <= |token| <= 128
    && token[0] == QUOTE && token[|token| - 1] == QUOTE
    && forall i | 1 <= i < |token| - 1 :: token[i] == 0x21 || 0x23 <= token[i] <= 0x7E
  }

  /** The tags accepted are one to 126 visible characters, none of them a quote, between two quotes. */
  lemma StrongTagsAre(token: bytes)
    ensures StrongEtag(token) <==>
      exists core: bytes :: token == Ascii("\"") + core + Ascii("\"") && 1 <= |core| <= 126
                            && forall b <- core :: '!' as int <= b as int <= '~' as int && b as int != '"' as int
  {
    var q := Ascii("\"");
    assert q == [QUOTE];
    if StrongEtag(token) {
      var core := token[1..|token| - 1];
      assert token == q + core + q;
      assert forall i | 0 <= i < |core| :: core[i] == token[i + 1];
    }
    forall core: bytes | token == q + core + q && 1 <= |core| <= 126
                         && forall b <- core :: 0x21 <= b <= 0x7E && b != QUOTE
      ensures StrongEtag(token)
    {
      assert forall i | 1 <= i < |token| - 1 :: token[i] == core[i - 1] && core[i - 1] in core;
    }
  }

  /** A weak tag is never accepted. */
  lemma WeakTagsRefused(tag: bytes)
    ensures !StrongEtag(Ascii("W/") + tag)
  {
    assert Ascii("W/")[0] == 0x57;
  }

  predicate IsLetter(b: byte, upper: char, lower: char) {
    b as int == upper as int || b as int == lower as int
  }

  /** "null" in any mix of cases. */
  predicate SaysNull(s: bytes) {
    && |s| == 4 && IsLetter(s[0], 'N', 'n') && IsLetter(s[1], 'U', 'u')
    && IsLetter(s[2], 'L', 'l') && IsLetter(s[3], 'L', 'l')
  }

  /** The version ids accepted: up to 1024 visible characters, without quote, comma or backslash, and not "null". */
  lemma NativeVersionsAre(token: bytes)
    ensures ValidNativeVersion(token) <==>
      && 1 <= |token| <= 1024 && !SaysNull(token)
      && forall b <- token :: '!' as int <= b as int <= '~' as int && b as int !in {'"' as int, ',' as int, '\\' as int}
  {
    if |token| == 4 {
      assert LowerCase(token) == NULL_TOKEN <==> SaysNull(token) by {
        assert forall i | 0 <= i < 4 ::
          LowerCase(token)[i] == if 0x41 <= token[i] <= 0x5A then token[i] + 0x20 else token[i];
      }
    }
    if LowerCase(token) == [QUOTE] + NULL_TOKEN + [QUOTE] {
      assert LowerCase(token)[0] == QUOTE && token[0] == QUOTE && token[0] in token;
    }
  }

  predicate ValidSelector(s: Selector) {
    match s
    case NativeVersion(token) => ValidNativeVersion(token)
    case ValidatorMatch(token) => StrongEtag(token)
  }

  /** A selector bound to one configured target and key. */
  datatype Selection = Selection(target: bytes, key: bytes, selector: Selector)

  function Bind(target: bytes, key: bytes, selector: Selector): Result<Selection, StorageError> {
    if !ValidSelector(selector) || key == [] then Err(InvalidArgument)
    else Ok(Selection(target, key, selector))
  }

  predicate ValidFor(selection: Selection, target: bytes, key: bytes) {
    selection.target == target && selection.key == key && ValidSelector(selection.selector)
  }

  // ---------------------------------------------------------------- receipts

  /** An inclusive byte window. */
  datatype ByteWindow = ByteWindow(start: u64, end: u64) {
    function CheckedLen(): (n: Option<u64>)
      ensures n.Some? ==> start + n.value == end + 1
      ensures n.None? <==> end < start || end - start == U64_MAX
    {
      if end < start || end - start + 1 > U64_MAX then None else Some(end - start + 1)
    }
  }

  datatype SourceReceipt = SourceReceipt(
    path: bytes, nativeVersion: Option<bytes>, validator: Option<bytes>, totalSize: Option<u64>,
    requestedWindow: Option<ByteWindow>, returnedWindow: Option<ByteWindow>)

  /** The receipt proves that its window runs to the end of the object. */
  predicate AtEof(r: SourceReceipt) {
    r.totalSize == match r.returnedWindow case None => None case Some(w) => Some(Min(w.end + 1, U64_MAX))
  }

  /** A guarded byte response; `script` is all the reader will ever do. */
  datatype RangeResponse = RangeResponse(receipt: SourceReceipt, script: Streams.Script)

  /**
   A provider as a function from the number of the call, and the request, to the answer.
   An arbitrary such function is a provider that adapts to everything asked of it so far,
   with any writers acting between calls.
   */
  datatype Provider = Provider(
    guardedReads: bool,
    target: bytes,
    observe: (nat, bytes) -> Result<SourceReceipt, ProviderFailure>,
    head: (nat, Selection) -> Result<SourceReceipt, ProviderFailure>,
    range: (nat, Selection, u64, u64) -> Result<RangeResponse, ProviderFailure>)

  /** The selection an observation leads to: its native version, failing that its validator. */
  function BindObserved(p: Provider, key: bytes, observation: SourceReceipt): Result<Selection, StorageError> {
    match observation.nativeVersion
    case Some(token) => Bind(p.target, key, NativeVersion(token))
    case None =>
      match observation.validator
      case Some(token) => Bind(p.target, key, ValidatorMatch(token))
      case None => Err(UnsupportedCapability)
  }

  /** A native version is bound when one is observed, a validator only in its absence; an unfit token is an error. */
  lemma BindsExactly(p: Provider, key: bytes, observation: SourceReceipt)
    ensures observation.nativeVersion.Some? ==>
      BindObserved(p, key, observation) ==
      if ValidNativeVersion(observation.nativeVersion.value) && key != []
      then Ok(Selection(p.target, key, NativeVersion(observation.nativeVersion.value))) else Err(InvalidArgument)
    ensures observation.nativeVersion.None? && observation.validator.Some? ==>
      BindObserved(p, key, observation) ==
      if StrongEtag(observation.validator.value) && key != []
      then Ok(Selection(p.target, key, ValidatorMatch(observation.validator.value))) else Err(InvalidArgument)
    ensures observation.nativeVersion.None? && observation.validator.None? ==>
      BindObserved(p, key, observation) == Err(UnsupportedCapability)
  {
  }

  // ---------------------------------------------------------------- honesty

  /** The response's own window, told truly of `obj`, as far as its reader delivers. */
  ghost predicate TruthfulRange(r: RangeResponse, obj: bytes) {
    && (r.receipt.totalSize.Some? ==> r.receipt.totalSize.value == |obj|)
    && (r.receipt.returnedWindow.Some? ==>
          var w := r.receipt.returnedWindow.value;
          w.start <= w.end ==>
            && w.end < |obj|
            && forall i | 0 <= i < |Streams.Data(r.script)| && w.start + i <= w.end ::
                 Streams.Data(r.script)[i] == obj[w.start + i])
  }

  /** Whatever the provider answers about `selection`, from call `from` on, is true of `obj`; it may refuse at will. */
  ghost predicate Honest(p: Provider, selection: Selection, obj: bytes, from: nat) {
    && |obj| <= U64_MAX
    && (forall t :: t >= from && p.head(t, selection).Ok? && p.head(t, selection).value.totalSize.Some? ==>
          p.head(t, selection).value.totalSize.value == |obj|)
    && (forall t, offset: u64, length: u64 :: t >= from && p.range(t, selection, offset, length).Ok? ==>
          TruthfulRange(p.range(t, selection, offset, length).value, obj))
  }

  /** The full answer to a range request over `obj`. */
  ghost predicate FullRange(r: RangeResponse, obj: bytes, offset: u64, length: u64)
    requires offset < |obj| <= U64_MAX && 0 < length
  {
    && offset + length - 1 <= U64_MAX
    && r.receipt.totalSize == Some(|obj|)
    && r.receipt.requestedWindow == Some(ByteWindow(offset, offset + length - 1))
    && r.receipt.returnedWindow == Some(ByteWindow(offset, Min(offset + length, |obj|) - 1))
    && Streams.Data(r.script) == obj[offset..Min(offset + length, |obj|)]
    && Streams.Ending(r.script) == Streams.CleanEof
  }

  /** A request that lies in the object and in the word size. */
  predicate InObject(obj: bytes, offset: u64, length: u64) {
    offset < |obj| && 0 < length && offset + length - 1 <= U64_MAX
  }

  /** The provider answers every request about `selection` in full, its readers chunked as they like. */
  ghost predicate Serves(p: Provider, selection: Selection, obj: bytes, from: nat) {
    && |obj| <= U64_MAX
    && (forall t :: t >= from ==> p.head(t, selection).Ok? && p.head(t, selection).value.totalSize == Some(|obj|))
    && (forall t, offset: u64, length: u64 :: t >= from ==>
          if InObject(obj, offset, length) then
            p.range(t, selection, offset, length).Ok?
            && FullRange(p.range(t, selection, offset, length).value, obj, offset, length)
          else p.range(t, selection, offset, length).Err?)
  }

  lemma ServesIsHonest(p: Provider, selection: Selection, obj: bytes, from: nat)
    requires Serves(p, selection, obj, from)
    ensures Honest(p, selection, obj, from)
  {
    forall t, offset: u64, length: u64 | t >= from && p.range(t, selection, offset, length).Ok?
      ensures TruthfulRange(p.range(t, selection, offset, length).value, obj)
    {
      assert InObject(obj, offset, length);
      assert FullRange(p.range(t, selection, offset, length).value, obj, offset, length);
    }
  }

  /** The selection an operation on `key` reads, when its observation is call number `at`. */
  ghost function SelectionAt(p: Provider, key: bytes, at: nat): Option<Selection> {
    if p.observe(at, key).Err? then None
    else match BindObserved(p, key, p.observe(at, key).value) case Ok(s) => Some(s) case Err(_) => None
  }

  ghost predicate HonestAt(p: Provider, key: bytes, at: nat, obj: bytes) {
    SelectionAt(p, key, at).Some? ==> Honest(p, SelectionAt(p, key, at).value, obj, at)
  }

  ghost predicate ServesAt(p: Provider, key: bytes, at: nat, obj: bytes) {
    p.guardedReads && SelectionAt(p, key, at).Some? && Serves(p, SelectionAt(p, key, at).value, obj, at)
  }
}
