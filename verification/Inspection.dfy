/** The bounded operations: head, tail, middle, count and preview of an object never read whole. */
module Inspection {
  import opened Foundation
  import opened LineFraming
  import opened Parsers
  import opened Windows
  import opened Readings
  import opened Source
  import opened Ledger
  import opened GuardedRange
  import Streams
  import Utf8

  datatype LineOptions = LineOptions(chunkSize: u64, probeSize: u64, forceStream: bool)

  function LineBudget(n: u64, options: LineOptions): InspectionBudget {
    DEFAULT_BUDGET.(lineCount := n, chunkSize := options.chunkSize, probeSize := options.probeSize)
  }

  /** The line counts, chunk sizes and probe sizes that are accepted, in numbers. */
  lemma AcceptedLineOptions(n: u64, options: LineOptions)
    ensures ValidBudget(LineBudget(n, options)) <==>
      1 <= n <= 10_000 && 1 <= options.chunkSize <= 1_048_576 && 1 <= options.probeSize <= 1_048_576
  {
  }

  const COMPRESSED_SUFFIXES: seq<bytes> := [
    [0x2E, 0x67, 0x7A], [0x2E, 0x7A, 0x73, 0x74], [0x2E, 0x62, 0x7A, 0x32],
    [0x2E, 0x78, 0x7A], [0x2E, 0x6C, 0x7A, 0x34], [0x2E, 0x62, 0x72]]

  /** Keys ending in .gz, .zst, .bz2, .xz, .lz4 or .br. */
  predicate IsCompressedKey(key: bytes) {
    exists suffix <- COMPRESSED_SUFFIXES :: HasSuffix(key, suffix)
  }

  predicate HasSuffix(key: bytes, suffix: bytes) {
    |suffix| <= |key| && key[|key| - |suffix|..] == suffix
  }

  /** Reading backwards or from the middle is refused for compressed keys unless forced forward. */
  predicate CompressedRefused(key: bytes, options: LineOptions) {
    IsCompressedKey(key) && !options.forceStream
  }

  /** The keys taken for compressed, by their suffixes. */
  lemma CompressedKeysAre(key: bytes)
    ensures IsCompressedKey(key) <==>
      || HasSuffix(key, Ascii(".gz")) || HasSuffix(key, Ascii(".zst")) || HasSuffix(key, Ascii(".bz2"))
      || HasSuffix(key, Ascii(".xz")) || HasSuffix(key, Ascii(".lz4")) || HasSuffix(key, Ascii(".br"))
  {
    hide HasSuffix, Ascii;
    SuffixBytes();
    var all := COMPRESSED_SUFFIXES;
    assert all[0] in all && all[1] in all && all[2] in all && all[3] in all && all[4] in all && all[5] in all;
  }

  lemma SuffixBytes()
    ensures Ascii(".gz") == COMPRESSED_SUFFIXES[0] && Ascii(".zst") == COMPRESSED_SUFFIXES[1]
    ensures Ascii(".bz2") == COMPRESSED_SUFFIXES[2] && Ascii(".xz") == COMPRESSED_SUFFIXES[3]
    ensures Ascii(".lz4") == COMPRESSED_SUFFIXES[4] && Ascii(".br") == COMPRESSED_SUFFIXES[5]
  {
  }

  // ---------------------------------------------------------------- what reads mean

  lemma HonestRead(p: Provider, sel: Selection, t: nat, offset: u64, length: u64,
                   data: bytes, receipt: SourceReceipt, obj: bytes, from: nat)
    requires length > 0 && from <= t && Honest(p, sel, obj, from)
    requires Delivered(p.range(t, sel, offset, length), offset, length, data, receipt)
    ensures data != [] && offset + |data| <= |obj| && data == obj[offset..offset + |data|]
    ensures |data| == Min(length, |obj| - offset)
    ensures AtEof(receipt) <==> receipt.totalSize.Some? && offset + |data| == |obj|
  {
    DeliveredIsObject(p.range(t, sel, offset, length), offset, length, data, receipt, obj);
  }

  lemma HonestSize(p: Provider, sel: Selection, t: nat, size: u64, obj: bytes, from: nat)
    requires from <= t && Honest(p, sel, obj, from)
    requires p.head(t, sel).Ok? && p.head(t, sel).value.totalSize == Some(size)
    ensures size == |obj|
  {
  }

  lemma ServedRead(p: Provider, sel: Selection, t: nat, offset: u64, length: u64, obj: bytes, from: nat)
    requires from <= t && Serves(p, sel, obj, from) && InObject(obj, offset, length)
    ensures Deliverable(p.range(t, sel, offset, length), offset, length)
    ensures forall data, receipt :: Delivered(p.range(t, sel, offset, length), offset, length, data, receipt) ==>
        receipt.totalSize == Some(|obj|)
  {
    var answer := p.range(t, sel, offset, length);
    assert FullRange(answer.value, obj, offset, length);
    FullRangeDelivers(answer.value, offset, length, obj);
  }

  lemma ServedSize(p: Provider, sel: Selection, t: nat, obj: bytes, from: nat)
    requires from <= t && Serves(p, sel, obj, from)
    ensures Honest(p, sel, obj, from)
    ensures p.head(t, sel).Ok? && p.head(t, sel).value.totalSize == Some(|obj|)
  {
    ServesIsHonest(p, sel, obj, from);
  }

  /** The only limits a line operation can run into. */
  predicate LineLimitOnly(e: StorageError) {
    e.LimitExceeded? ==> e.dimension == PendingLineBytes || e.dimension == Deadline
  }

  /** Why an operation that starts at call `at` gets no selection: the observation fails, or binds nothing. */
  ghost function BindingError(p: Provider, key: bytes, at: nat): Option<StorageError> {
    if !p.guardedReads then Some(UnsupportedCapability)
    else match p.observe(at, key)
      case Err(e) => Some(FromProvider(e))
      case Ok(observation) =>
        match BindObserved(p, key, observation) case Err(e) => Some(e) case Ok(_) => None
  }

  /** Why it gets no size either: the next call fails, or does not tell one. */
  ghost function OpeningError(p: Provider, key: bytes, at: nat): Option<StorageError> {
    if BindingError(p, key, at).Some? then BindingError(p, key, at)
    else match p.head(at + 1, SelectionAt(p, key, at).value)
      case Err(e) => Some(FromProvider(e))
      case Ok(receipt) => if receipt.totalSize == None then Some(Invalid()) else None
  }

  // ---------------------------------------------------------------- shared steps

  method ObserveAndBind(world: World, ledger: InspectionLedger, key: bytes)
    returns (r: Result<Selection, StorageError>)
    requires ledger.Covers(world) && world.provider.guardedReads
    modifies ledger`helperRequests, world`ticks, world`issued
    ensures r.Ok? ==> InTime(world, old(world.ticks), 2)
    ensures ledger.Covers(world) && world.issued <= old(world.issued) + 1
    ensures r.Ok? ==> SelectionAt(world.provider, key, old(world.issued)) == Some(r.value)
    ensures r.Ok? ==> ledger.helperRequests == old(ledger.helperRequests) + 1 && world.issued == old(world.issued) + 1
    ensures r.Err? && old(ledger.helperRequests) < ledger.budget.helperRequests ==> LineLimitOnly(r.error)
    ensures (old(ledger.helperRequests) < ledger.budget.helperRequests && (forall k :: !world.expires(k))) ==>
      match BindingError(world.provider, key, old(world.issued))
      case Some(e) => r == Err(e)
      case None => r.Ok?
  {
    var step := ledger.Request(world);
    if step.Err? { return Err(step.error); }
    step := ledger.CheckDeadline(world);
    if step.Err? { return Err(step.error); }
    var observation := world.Observe(key, ledger);
    if observation.Err? { return Err(FromProvider(observation.error)); }
    r := BindObserved(world.provider, key, observation.value);
  }

  method HeadSelected(world: World, ledger: InspectionLedger, selection: Selection)
    returns (r: Result<SourceReceipt, StorageError>)
    requires ledger.Covers(world)
    modifies ledger`helperRequests, world`ticks, world`issued
    ensures r.Ok? ==> InTime(world, old(world.ticks), 2)
    ensures ledger.Covers(world) && world.issued <= old(world.issued) + 1
    ensures r.Ok? ==> world.provider.head(old(world.issued), selection) == Ok(r.value)
    ensures r.Ok? ==> ledger.helperRequests == old(ledger.helperRequests) + 1 && world.issued == old(world.issued) + 1
    ensures r.Err? && old(ledger.helperRequests) < ledger.budget.helperRequests ==> LineLimitOnly(r.error)
    ensures (old(ledger.helperRequests) < ledger.budget.helperRequests && (forall k :: !world.expires(k))) ==>
      match world.provider.head(old(world.issued), selection)
      case Ok(_) => r.Ok?
      case Err(e) => r == Err(FromProvider(e))
  {
    var step := ledger.Request(world);
    if step.Err? { return Err(step.error); }
    step := ledger.CheckDeadline(world);
    if step.Err? { return Err(step.error); }
    var receipt := world.Head(selection, ledger);
    if receipt.Err? { return Err(FromProvider(receipt.error)); }
    return Ok(receipt.value);
  }

  /** The size of the selected source, from its own response and not from the observation. */
  method SelectedSize(world: World, ledger: InspectionLedger, selection: Selection)
    returns (r: Result<u64, StorageError>)
    requires ledger.Covers(world)
    modifies ledger`helperRequests, world`ticks, world`issued
    ensures r.Ok? ==> InTime(world, old(world.ticks), 2)
    ensures ledger.Covers(world) && world.issued <= old(world.issued) + 1
    ensures r.Ok? ==> (world.provider.head(old(world.issued), selection).Ok?
                       && world.provider.head(old(world.issued), selection).value.totalSize == Some(r.value))
    ensures r.Ok? ==> ledger.helperRequests == old(ledger.helperRequests) + 1 && world.issued == old(world.issued) + 1
    ensures r.Err? && old(ledger.helperRequests) < ledger.budget.helperRequests ==> LineLimitOnly(r.error)
    ensures (old(ledger.helperRequests) < ledger.budget.helperRequests && (forall k :: !world.expires(k))) ==>
      match world.provider.head(old(world.issued), selection)
      case Ok(receipt) => if receipt.totalSize.Some? then r.Ok? else r == Err(Invalid())
      case Err(e) => r == Err(FromProvider(e))
  {
    var receipt := HeadSelected(world, ledger, selection);
    if receipt.Err? { return Err(receipt.error); }
    if receipt.value.totalSize == None { return Err(Invalid()); }
    return Ok(receipt.value.totalSize.value);
  }

  /** The provider can be observed and bound at call `at`, and tells the selected size at the next. */
  ghost predicate OpensAt(p: Provider, key: bytes, at: nat) {
    SelectionAt(p, key, at).Some? && OpeningError(p, key, at) == None
  }

  /** Opening an object: observe, bind, size. */
  method OpenSelected(world: World, ledger: InspectionLedger, key: bytes, ghost obj: bytes)
    returns (r: Result<(Selection, u64), StorageError>)
    requires ledger.Covers(world) && ledger.helperRequests == 0 && ledger.budget.helperRequests >= 2
    modifies ledger`helperRequests, world`ticks, world`issued
    ensures r.Ok? ==> InTime(world, old(world.ticks), 4)
    ensures ledger.Covers(world) && world.issued <= old(world.issued) + 2
    ensures r.Ok? ==> SelectionAt(world.provider, key, old(world.issued)) == Some(r.value.0)
    ensures r.Ok? && HonestAt(world.provider, key, old(world.issued), obj) ==>
      Honest(world.provider, r.value.0, obj, old(world.issued)) && r.value.1 == |obj|
    ensures r.Ok? && ServesAt(world.provider, key, old(world.issued), obj) ==>
      (&& Serves(world.provider, r.value.0, obj, old(world.issued))
       && DeliversWithin(world.provider, r.value.0, obj, old(world.issued))
       && HonestAt(world.provider, key, old(world.issued), obj))
    ensures r.Ok? ==> ledger.helperRequests == 2 && world.issued == old(world.issued) + 2
    ensures r.Err? ==> LineLimitOnly(r.error)
    ensures (forall k :: !world.expires(k)) ==>
      match OpeningError(world.provider, key, old(world.issued))
      case Some(e) => r == Err(e)
      case None => r.Ok?
    ensures r.Ok? ==> OpensAt(world.provider, key, old(world.issued))
    ensures ServesAt(world.provider, key, old(world.issued), obj) ==> OpensAt(world.provider, key, old(world.issued))
  {
    hide Honest, Serves, DeliversWithin;
    ghost var at := world.issued + 1;
    if ServesAt(world.provider, key, world.issued, obj) {
      ServedSize(world.provider, SelectionAt(world.provider, key, world.issued).value, at, obj, world.issued);
      ServesDelivers(world.provider, SelectionAt(world.provider, key, world.issued).value, obj, world.issued);
    }
    if !world.provider.guardedReads { return Err(UnsupportedCapability); }
    var selection := ObserveAndBind(world, ledger, key);
    if selection.Err? { return Err(selection.error); }
    var size := SelectedSize(world, ledger, selection.value);
    if size.Err? { return Err(size.error); }
    if Honest(world.provider, selection.value, obj, old(world.issued)) {
      HonestSize(world.provider, selection.value, at, size.value, obj, old(world.issued));
    }
    return Ok((selection.value, size.value));
  }

  /** The receipt of the answer to a range request that is call number `at`, if it is answered. */
  ghost function RangeReceipt(p: Provider, at: nat, selection: Selection, offset: u64, length: u64)
    : Option<SourceReceipt>
  {
    match p.range(at, selection, offset, length) case Ok(r) => Some(r.receipt) case Err(_) => None
  }

  /** A range read of a line operation: there is always room for it in the budget. */
  method ReadWindow(world: World, ledger: InspectionLedger, selection: Selection, offset: u64, length: u64,
                    ghost obj: bytes, ghost from: nat)
    returns (r: Result<(bytes, SourceReceipt), StorageError>)
    requires from <= world.issued
    requires ledger.Covers(world) && ValidBudget(ledger.budget) && 0 < length <= MIB
    requires ledger.payloadBytes + length + 1 <= ledger.budget.payloadBytes
    requires ledger.helperRequests < ledger.budget.helperRequests
    modifies ledger`payloadBytes, ledger`helperRequests, world`ticks, world`issued, world`pulled
    ensures r.Ok? ==> InTime(world, old(world.ticks), 4)
    ensures ledger.Covers(world) && world.issued <= old(world.issued) + 1
    ensures world.pulled <= old(world.pulled) + length + 1
    ensures r.Ok? ==> world.pulled == old(world.pulled) + |r.value.0|
    ensures r.Ok? ==> |r.value.0| <= length && ledger.payloadBytes == old(ledger.payloadBytes) + |r.value.0|
    ensures r.Ok? ==> ledger.helperRequests == old(ledger.helperRequests) + 1 && world.issued == old(world.issued) + 1
    ensures r.Err? ==> LineLimitOnly(r.error)
    ensures r.Ok? && Honest(world.provider, selection, obj, from) ==>
      (&& r.value.0 != [] && offset + |r.value.0| <= |obj| && r.value.0 == obj[offset..offset + |r.value.0|]
       && |r.value.0| == Min(length, |obj| - offset)
       && (AtEof(r.value.1) <==> r.value.1.totalSize.Some? && offset + |r.value.0| == |obj|))
    ensures r.Ok? ==> RangeReceipt(world.provider, old(world.issued), selection, offset, length) == Some(r.value.1)
    ensures (Deliverable(world.provider.range(old(world.issued), selection, offset, length), offset, length)
             && (forall k :: !world.expires(k))) ==> r.Ok?
    ensures (Serves(world.provider, selection, obj, from) && InObject(obj, offset, length)
             && (forall k :: !world.expires(k))) ==> r.Ok? && r.value.1.totalSize == Some(|obj|)
  {
    hide Honest, Serves, Streams.Data, Streams.Ending, ValidateGuardedRangeReceipt, AtEof;
    ghost var at := world.issued;
    if Serves(world.provider, selection, obj, from) && InObject(obj, offset, length) {
      ServedRead(world.provider, selection, at, offset, length, obj, from);
    }
    r := GuardedRangeBytes(world, ledger, selection, offset, length);
    if r.Ok? && Honest(world.provider, selection, obj, from) {
      HonestRead(world.provider, selection, at, offset, length, r.value.0, r.value.1, obj, from);
    }
  }

  /** The first window, read to refuse binary content before anything else. */
  method LineProbe(world: World, ledger: InspectionLedger, selection: Selection, size: u64,
                   ghost obj: bytes, ghost from: nat)
    returns (r: Result<(bytes, SourceReceipt), StorageError>)
    requires from <= world.issued
    requires ledger.Covers(world) && ValidBudget(ledger.budget) && 0 < size
    requires ledger.payloadBytes + MIB + 1 <= ledger.budget.payloadBytes
    requires ledger.helperRequests < ledger.budget.helperRequests
    modifies ledger`payloadBytes, ledger`helperRequests, world`ticks, world`issued, world`pulled
    ensures r.Ok? ==> InTime(world, old(world.ticks), 4)
    ensures ledger.Covers(world) && world.issued <= old(world.issued) + 1
    ensures world.pulled <= old(world.pulled) + MIB + 1
    ensures r.Ok? ==> world.pulled == old(world.pulled) + |r.value.0|
    ensures r.Ok? ==> |r.value.0| <= MIB && ledger.payloadBytes == old(ledger.payloadBytes) + |r.value.0|
    ensures r.Ok? ==> ledger.helperRequests == old(ledger.helperRequests) + 1 && world.issued == old(world.issued) + 1
    ensures r.Err? ==> LineLimitOnly(r.error)
    ensures r.Ok? ==> AcceptsAsText(r.value.0)
    ensures r.Ok? && Honest(world.provider, selection, obj, from) ==>
      (&& |r.value.0| <= |obj| && r.value.0 == obj[..|r.value.0|]
       && (AtEof(r.value.1) ==> |r.value.0| == |obj|)
       && (size == |obj| ==> r.value.0 == Take(obj, ledger.budget.probeSize)))
    ensures (DeliversWithin(world.provider, selection, obj, from) && Honest(world.provider, selection, obj, from)
             && size == |obj| && (forall k :: !world.expires(k))) ==>
      if AcceptsAsText(Take(obj, ledger.budget.probeSize)) then r.Ok? else r == Err(EncodingRejected)
    ensures TextObject(obj) ==> AcceptsAsText(Take(obj, ledger.budget.probeSize))
  {
    hide Honest, AtEof, TextObject, AcceptsAsText;
    var length := Min(size, ledger.budget.probeSize);
    if TextObject(obj) { TextWindowAccepted(obj, 0, Min(ledger.budget.probeSize, |obj|)); }
    r := ReadWindow(world, ledger, selection, 0, length, obj, from);
    if r.Err? { return; }
    if !AcceptsAsText(r.value.0) { return Err(EncodingRejected); }
  }

  /** Everything a line operation requires of its setting, if the bytes it may read are to decide the outcome. */
  ghost predicate Undisturbed(world: World, key: bytes, at: nat, obj: bytes) {
    ServesAt(world.provider, key, at, obj) && (forall k :: !world.expires(k)) && TextObject(obj)
  }

  /** The refusal of a line operation whose window does not hold the answer. */
  function OutOfReach(size: nat): StorageError {
    LimitExceeded(PendingLineBytes, MIB, Min(size, MIB))
  }

  /** Every line handed out is well-formed UTF-8. */
  predicate LinesAreText(r: LineResult) {
    forall t <- r.lines :: Utf8.FromUtf8(t) == Utf8.Valid
  }

  /** The front that was probed is not binary. */
  predicate ProbedText(obj: bytes, probeSize: nat) {
    obj != [] ==> AcceptsAsText(Take(obj, probeSize))
  }

  method ApplyLineOutputBudget(world: World, ledger: InspectionLedger, ls: seq<ParsedLine>)
    returns (r: Result<(), StorageError>)
    requires ledger.Covers(world)
    modifies ledger`outputBytes
    ensures ledger.Covers(world)
    ensures r.Ok? <==> old(ledger.outputBytes) + TextLength(ls) <= ledger.budget.outputBytes
  {
    r := ledger.AdmitOutput(TextLength(ls), world);
  }

  /** Charging the text and handing out the result; lines out of a window always fit. */
  method EmitLines(world: World, ledger: InspectionLedger, ls: seq<ParsedLine>, size: nat, strategy: ReadStrategy)
    returns (r: Result<LineResult, StorageError>)
    requires ledger.Covers(world) && ledger.outputBytes + TextLength(ls) <= ledger.budget.outputBytes && AllText(ls)
    modifies ledger`outputBytes
    ensures ledger.Covers(world)
    ensures r == Ok(BuildLineResult(ls, size, strategy)) && LinesAreText(r.value)
  {
    var charged := ApplyLineOutputBudget(world, ledger, ls);
    r := match charged case Ok(_) => Ok(BuildLineResult(ls, size, strategy)) case Err(e) => Err(e);
  }

  /** `data` is what `obj` holds from the line boundary `base` on, to its end when `eof`. */
  ghost predicate WindowOf(obj: bytes, data: bytes, base: nat, eof: bool) {
    && base + |data| <= |obj| && data == obj[base..base + |data|] && Boundary(obj, base)
    && (eof ==> base + |data| == |obj|)
  }

  lemma NothingIsText(base: nat, eof: bool, n: nat)
    ensures AcceptsAsText([]) && Usable([], base, eof) == [] && AllText(Take(Usable([], base, eof), n))
  {
    NoLines(base);
    NoneComplete([], base);
  }

  method RejectBinaryPrefix(data: bytes, base: nat, eof: bool, ghost obj: bytes) returns (r: Result<(), StorageError>)
    ensures r.Err? ==> r.error == EncodingRejected
    ensures r.Ok? <==> AcceptsAsText(data)
    ensures data == [] ==> r.Ok?
    ensures TextObject(obj) && WindowOf(obj, data, base, eof) ==> r.Ok?
  {
    hide TextObject, AcceptsAsText;
    NothingIsText(base, eof, 0);
    if TextObject(obj) && WindowOf(obj, data, base, eof) { TextWindowAccepted(obj, base, base + |data|); }
    return if AcceptsAsText(data) then Ok(()) else Err(EncodingRejected);
  }

  /** Framing from the front, its output within the window's size, its text checked. */
  method FrameFront(data: bytes, base: nat, eof: bool, n: nat, ghost obj: bytes)
    returns (r: Result<seq<ParsedLine>, StorageError>)
    requires base + |data| <= U64_MAX
    ensures r.Ok? ==> r.value == Take(Usable(data, base, eof), n) && TextLength(r.value) <= |data| && AllText(r.value)
    ensures r.Err? ==> r.error == EncodingRejected
    ensures data == [] ==> r.Ok?
    ensures TextObject(obj) && WindowOf(obj, data, base, eof) ==> r.Ok?
  {
    hide TextObject, Usable, Take, AllText, TextLength, AcceptsAsText;
    OutputFits(data, base, eof, n);
    NothingIsText(base, eof, n);
    if TextObject(obj) && WindowOf(obj, data, base, eof) { ReadingIsText(obj, base, base + |data|, eof, n); }
    var parsed := ParseLinesUpTo(data, base, eof, n);
    return match parsed case Ok(ls) => Ok(ls) case Err(_) => Err(EncodingRejected);
  }

  method FrameBack(data: bytes, base: nat, eof: bool, n: nat, ghost obj: bytes)
    returns (r: Result<seq<ParsedLine>, StorageError>)
    requires base + |data| <= U64_MAX
    ensures r.Ok? ==> r.value == Kept(Usable(data, base, eof), n) && TextLength(r.value) <= |data| && AllText(r.value)
    ensures r.Err? ==> r.error == EncodingRejected
    ensures TextObject(obj) && WindowOf(obj, data, base, eof) ==> r.Ok?
  {
    hide TextObject, Usable, Take, Kept, AllText, TextLength, AcceptsAsText;
    OutputFits(data, base, eof, n);
    if TextObject(obj) && WindowOf(obj, data, base, eof) { ReadingIsText(obj, base, base + |data|, eof, n); }
    var parsed := ParseTailLinesBounded(data, base, eof, n);
    return match parsed case Ok(ls) => Ok(ls) case Err(_) => Err(EncodingRejected);
  }

  lemma EmptyAnswer(n: nat, strategy: ReadStrategy)
    ensures BuildLineResult(Take(Lines([], 0), n), 0, strategy) == EmptyResult(strategy, 0)
    ensures BuildLineResult(Last(Lines([], 0), n), 0, strategy) == EmptyResult(strategy, 0)
    ensures BuildLineResult(Take(MidLines([]), n), 0, strategy) == EmptyResult(strategy, 0)
  {
  }

  // ---------------------------------------------------------------- head

  /** The object is no longer than a window, or its first window settles `n` lines. */
  predicate HeadInReach(obj: bytes, n: nat) {
    |obj| <= MIB || |Complete(obj[..MIB], 0)| >= n
  }

  lemma SettledIsUsable(s: bytes, base: nat)
    ensures Usable(s, base, false) == Complete(s, base)
  {
  }

  /** A probe that settles enough lines does so for the window too. */
  lemma ProbeInReach(obj: bytes, k: nat, n: nat)
    requires k <= |obj| && k <= MIB && |Take(Usable(obj[..k], 0, false), n)| == n
    ensures HeadInReach(obj, n)
  {
    TakeIsShort(Complete(obj[..k], 0), n);
    if |obj| > MIB {
      assert obj[..k] <= obj[..MIB];
      CompleteGrows(obj[..MIB], obj[..k], 0, 0);
    }
  }

  method HeadLinesWithOptions(world: World, key: bytes, n: u64, options: LineOptions, ghost obj: bytes)
    returns (r: Result<LineResult, StorageError>)
    modifies world`ticks, world`issued, world`pulled
    ensures r.Ok? ==> InTime(world, old(world.ticks), 4)
    ensures r.Ok? ==> SelectionAt(world.provider, key, old(world.issued)).Some?
    ensures r.Ok? && HonestAt(world.provider, key, old(world.issued), obj) ==>
      && r.value == BuildLineResult(Take(Lines(obj, 0), n), |obj|, ForwardStream)
      && AnswerOf(r.value, Take(Lines(obj, 0), n), |obj|, ForwardStream)
      && ProbedText(obj, options.probeSize)
    ensures (r.Ok? && HonestAt(world.provider, key, old(world.issued), obj) && obj != []
             && |Complete(Take(obj, options.probeSize), 0)| >= n) ==> world.issued == old(world.issued) + 3
    ensures r.Ok? ==> LinesAreText(r.value)
    ensures !ValidBudget(LineBudget(n, options)) ==> r == Err(InvalidArgument) && world.issued == old(world.issued)
    ensures r.Err? ==> LineLimitOnly(r.error)
    ensures (ValidBudget(LineBudget(n, options)) && (forall k :: !world.expires(k))
             && OpeningError(world.provider, key, old(world.issued)).Some?) ==>
      r == Err(OpeningError(world.provider, key, old(world.issued)).value)
    ensures (ServesAt(world.provider, key, old(world.issued), obj) && (forall k :: !world.expires(k))
             && ValidBudget(LineBudget(n, options)) && !ProbedText(obj, options.probeSize)) ==>
      r == Err(EncodingRejected)
    ensures Undisturbed(world, key, old(world.issued), obj) && ValidBudget(LineBudget(n, options)) ==>
      if HeadInReach(obj, n) then r.Ok? else r == Err(OutOfReach(|obj|))
    ensures world.issued <= old(world.issued) + 4 && world.pulled <= old(world.pulled) + 2 * MIB + 1
  {
    hide Honest, Serves, DeliversWithin, HonestAt, ServesAt, SelectionAt, AtEof, TextObject, AcceptsAsText,
      Usable, TextLength, Lines, Take, AllText, BuildLineResult, AnswerOf;
    var budget := LineBudget(n, options);
    if !ValidBudget(budget) { return Err(InvalidArgument); }
    var ledger := new InspectionLedger(budget, world);
    var source := OpenSelected(world, ledger, key, obj);
    if source.Err? { return Err(source.error); }
    var (selection, size) := source.value;
    if size == 0 {
      EmptyAnswer(n, ForwardStream);
      return Ok(EmptyResult(ForwardStream, 0));
    }
    var probe := LineProbe(world, ledger, selection, size, obj, old(world.issued));
    if probe.Err? { return Err(probe.error); }
    var probeEof := AtEof(probe.value.1);
    var probeLines := FrameFront(probe.value.0, 0, probeEof, n, obj);
    if probeLines.Err? { return Err(probeLines.error); }
    TakeIsShort(Usable(probe.value.0, 0, probeEof), n);
    SettledIsUsable(probe.value.0, 0);
    if |probeLines.value| == n || probeEof {
      if Honest(world.provider, selection, obj, old(world.issued)) {
        HeadReading(obj, |probe.value.0|, probeEof, n);
        if !probeEof { ProbeInReach(obj, |probe.value.0|, n); }
      }
      r := EmitLines(world, ledger, probeLines.value, size, ForwardStream);
      return;
    }
    r := HeadWiderRead(world, ledger, selection, size, n, obj, old(world.issued));
  }

  /** The second read of a head, when the probe did not hold enough settled lines. */
  method HeadWiderRead(world: World, ledger: InspectionLedger, selection: Selection, size: u64, n: u64,
                       ghost obj: bytes, ghost from: nat)
    returns (r: Result<LineResult, StorageError>)
    requires from <= world.issued
    requires ledger.Covers(world) && ValidBudget(ledger.budget) && size > 0
    requires ledger.budget.pendingLineBytes == ledger.budget.outputBytes == MIB && ledger.outputBytes == 0
    requires ledger.payloadBytes + MIB + 1 <= ledger.budget.payloadBytes
    requires ledger.helperRequests < ledger.budget.helperRequests
    modifies ledger`payloadBytes, ledger`helperRequests, ledger`outputBytes, world`ticks, world`issued, world`pulled
    ensures r.Ok? ==> InTime(world, old(world.ticks), 4)
    ensures world.issued <= old(world.issued) + 1 && world.pulled <= old(world.pulled) + MIB + 1
    ensures r.Err? ==> LineLimitOnly(r.error)
    ensures r.Ok? && Honest(world.provider, selection, obj, from) ==>
      r.value == BuildLineResult(Take(Lines(obj, 0), n), size, ForwardStream)
    ensures r.Ok? ==> LinesAreText(r.value)
    ensures r.Ok? && Honest(world.provider, selection, obj, from) && size == |obj| ==>
      AcceptsAsText(obj[..Min(|obj|, MIB)])
    ensures (Serves(world.provider, selection, obj, from) && Honest(world.provider, selection, obj, from)
             && size == |obj| && TextObject(obj) && (forall k :: !world.expires(k))) ==>
      if HeadInReach(obj, n) then r.Ok? else r == Err(OutOfReach(size))
  {
    hide Honest, Serves, TextObject, AcceptsAsText, Usable, TextLength, Lines, Take, AllText, BuildLineResult, AnswerOf;
    var length := Min(Min(size, ledger.budget.pendingLineBytes), ledger.budget.payloadBytes);
    var read := ReadWindow(world, ledger, selection, 0, length, obj, from);
    if read.Err? { return Err(read.error); }
    var (data, receipt) := read.value;
    var eof := AtEof(receipt);
    var text := RejectBinaryPrefix(data, 0, eof, obj);
    if text.Err? { return Err(text.error); }
    var selected := FrameFront(data, 0, eof, n, obj);
    if selected.Err? { return Err(selected.error); }
    TakeIsShort(Usable(data, 0, eof), n);
    SettledIsUsable(data, 0);
    if |selected.value| < n && !eof {
      return Err(LimitExceeded(PendingLineBytes, ledger.budget.pendingLineBytes, length));
    }
    if Honest(world.provider, selection, obj, from) && (eof || |selected.value| == n) {
      HeadReading(obj, |data|, eof, n);
    }
    r := EmitLines(world, ledger, selected.value, size, ForwardStream);
  }

  // ---------------------------------------------------------------- tail

  /** The byte before the window and the window to the end, aligned to a line start. */
  method ReadSuffix(world: World, ledger: InspectionLedger, selection: Selection, start: u64, length: u64,
                    ghost obj: bytes, ghost from: nat)
    returns (r: Result<(bytes, SourceReceipt, nat), StorageError>)
    requires from <= world.issued
    requires ledger.Covers(world) && ValidBudget(ledger.budget) && 0 < length <= MIB
    requires ledger.payloadBytes + MIB + 2 <= ledger.budget.payloadBytes
    requires ledger.helperRequests + 1 < ledger.budget.helperRequests
    modifies ledger`payloadBytes, ledger`helperRequests, world`ticks, world`issued, world`pulled
    ensures r.Ok? ==> world.issued == old(world.issued) + (if start > 0 then 2 else 1)
    ensures r.Ok? ==> InTime(world, old(world.ticks), 4)
    ensures ledger.Covers(world)
    ensures world.issued <= old(world.issued) + 2 && world.pulled <= old(world.pulled) + MIB + 2
    ensures r.Ok? ==> r.value.2 <= |r.value.0| <= length
    ensures r.Err? ==> LineLimitOnly(r.error)
    ensures r.Ok? ==>
      var call := old(world.issued) + (if start > 0 then 1 else 0);
      RangeReceipt(world.provider, call, selection, start, length) == Some(r.value.1)
    ensures r.Ok? && Honest(world.provider, selection, obj, from) && start + length == |obj| ==>
      (&& r.value.0 == obj[start..] && r.value.2 == TailAligned(obj, start)
       && (AtEof(r.value.1) <==> r.value.1.totalSize.Some?))
    ensures r.Ok? && Honest(world.provider, selection, obj, from) && start + length < |obj| ==> !AtEof(r.value.1)
    ensures r.Ok? && start == 0 ==> r.value.2 == 0
    ensures r.Ok? && Honest(world.provider, selection, obj, from) && start + length <= |obj| ==>
      r.value.0 == obj[start..start + length]
    ensures (DeliversWithin(world.provider, selection, obj, from) && start + length <= |obj|
             && (forall k :: !world.expires(k))) ==> r.Ok?
  {
    hide Honest, AtEof, EndFrom, BreakFrom, RangeReceipt;
    var previous: Option<byte> := None;
    if start > 0 {
      var before := ReadWindow(world, ledger, selection, start - 1, 1, obj, from);
      if before.Err? { return Err(before.error); }
      if before.value.0 != [] { previous := Some(before.value.0[0]); }
    }
    var read := ReadWindow(world, ledger, selection, start, length, obj, from);
    if read.Err? { return Err(read.error); }
    var (data, receipt) := read.value;
    var aligned := 0;
    if start > 0 {
      var first := if data == [] then None else Some(data[0]);
      var found := FirstFullLineStart(data, SliceStartsOnLineBoundary(previous, first));
      aligned := match found case Some(a) => a case None => |data|;
    }
    return Ok((data, receipt, aligned));
  }

  function TailStart(size: nat, forceStream: bool): nat {
    if forceStream then 0 else size - Min(size, MIB)
  }

  /** The strategy reported; an empty object is reported before streaming is considered. */
  function TailStrategy(obj: bytes, forceStream: bool): ReadStrategy {
    if forceStream && obj != [] then ForwardStream else RangeBackward
  }

  /** The receipt that the last read of a tail over `selection` gets, its probe being call `at`. */
  ghost function SuffixReceipt(p: Provider, selection: Selection, at: nat, size: nat, forceStream: bool)
    : Option<SourceReceipt>
  {
    var start := TailStart(size, forceStream);
    if start > U64_MAX then None
    else RangeReceipt(p, at + (if start > 0 then 2 else 1), selection, start, Min(size, MIB))
  }

  /** The same for a tail that opens at call `at` and probes two calls later; all of it is known beforehand. */
  ghost function TailReceipt(p: Provider, key: bytes, at: nat, size: nat, forceStream: bool): Option<SourceReceipt> {
    if SelectionAt(p, key, at).None? then None
    else SuffixReceipt(p, SelectionAt(p, key, at).value, at + 2, size, forceStream)
  }

  /** The answer to a tail's last read tells the size of the object. */
  ghost predicate TailToldSize(p: Provider, key: bytes, at: nat, size: nat, forceStream: bool) {
    TailReceipt(p, key, at, size, forceStream).Some? && TailReceipt(p, key, at, size, forceStream).value.totalSize.Some?
  }

  ghost predicate TellsTotals(p: Provider, selection: Selection) {
    forall t, offset: u64, length: u64 :: p.range(t, selection, offset, length).Ok? ==>
      p.range(t, selection, offset, length).value.receipt.totalSize.Some?
  }

  ghost predicate HidesTotals(p: Provider, selection: Selection) {
    forall t, offset: u64, length: u64 :: p.range(t, selection, offset, length).Ok? ==>
      p.range(t, selection, offset, length).value.receipt.totalSize.None?
  }

  /** The same of whatever selection the tail binds. */
  ghost predicate TellsTotalsAt(p: Provider, key: bytes, at: nat) {
    SelectionAt(p, key, at).Some? && TellsTotals(p, SelectionAt(p, key, at).value)
  }

  ghost predicate HidesTotalsAt(p: Provider, key: bytes, at: nat) {
    SelectionAt(p, key, at).Some? && HidesTotals(p, SelectionAt(p, key, at).value)
  }

  /** The provider opens and delivers `obj` to the tail of `key`, whether or not it tells totals with its ranges. */
  ghost predicate DeliversAt(p: Provider, key: bytes, at: nat, obj: bytes) {
    && OpensAt(p, key, at)
    && Honest(p, SelectionAt(p, key, at).value, obj, at) && DeliversWithin(p, SelectionAt(p, key, at).value, obj, at)
  }

  /** The tail that was asked for. */
  function ExactTail(obj: bytes, n: nat, forceStream: bool): LineResult {
    BuildLineResult(Last(Lines(obj, 0), n), |obj|, TailStrategy(obj, forceStream))
  }

  /** The tail that is given when the end of the object is told, or is not. */
  function UsableTail(obj: bytes, told: bool, n: nat, forceStream: bool): (r: LineResult)
    ensures AnswerOf(r, Last(Usable(obj, 0, told), n), |obj|, TailStrategy(obj, forceStream))
  {
    BuildLineResult(Last(Usable(obj, 0, told), n), |obj|, TailStrategy(obj, forceStream))
  }

  /** The object is no longer than a window, or `n` of its usable lines start in its last window. */
  predicate TailInReach(obj: bytes, told: bool, n: nat) {
    |obj| <= MIB || StartingFrom(Usable(obj, 0, told), |obj| - MIB) >= n
  }

  /** When a tail of text answers: forced, for an object read whole and told to be; else when it is in reach. */
  predicate TailAnswers(obj: bytes, told: bool, n: nat, forceStream: bool) {
    obj == [] || if forceStream then told && |obj| <= MIB else TailInReach(obj, told, n)
  }

  lemma UsableTailIsExact(obj: bytes, told: bool, n: nat, forceStream: bool)
    requires n > 0
    ensures UsableTail(obj, told, n, forceStream) == ExactTail(obj, n, forceStream)
            <==> obj == [] || obj[|obj| - 1] == LF || told
  {
    UntoldEnd(obj, told, n, TailStrategy(obj, forceStream));
  }

  /** What follows from a tail's value for each way a provider may treat totals. */
  lemma TailConsequences(p: Provider, key: bytes, at: nat, obj: bytes, n: nat, forceStream: bool)
    requires n > 0 && (obj != [] ==> TailReceipt(p, key, at, |obj|, forceStream).Some?)
    requires obj != [] && forceStream ==> TailToldSize(p, key, at, |obj|, forceStream)
    ensures var told := TailToldSize(p, key, at, |obj|, forceStream);
      var given := UsableTail(obj, told, n, forceStream);
      var exact := ExactTail(obj, n, forceStream);
      && (given == exact <==> obj == [] || obj[|obj| - 1] == LF || told)
      && (forceStream || TellsTotalsAt(p, key, at) ==> given == exact)
      && (HidesTotalsAt(p, key, at) && obj != [] ==> !forceStream && (given == exact <==> obj[|obj| - 1] == LF))
      && (told || obj == [] ==> given == exact)
  {
    hide UsableTail, ExactTail, SelectionAt;
    UsableTailIsExact(obj, TailToldSize(p, key, at, |obj|, forceStream), n, forceStream);
  }

  /** A provider that serves the object tells its size with the last read. */
  lemma ServedTail(p: Provider, key: bytes, at: nat, obj: bytes, forceStream: bool)
    requires ServesAt(p, key, at, obj)
    ensures obj != [] ==> TailToldSize(p, key, at, |obj|, forceStream)
  {
    hide SelectionAt;
    if obj != [] {
      var start, length := TailStart(|obj|, forceStream), Min(|obj|, MIB);
      var answer := p.range(at + (if start > 0 then 4 else 3), SelectionAt(p, key, at).value, start, length);
      assert InObject(obj, start, length) && FullRange(answer.value, obj, start, length);
    }
  }

  /** One that hides totals does not, and what is given is then the settled tail; of nothing, all tails are the same. */
  lemma HiddenTail(p: Provider, key: bytes, at: nat, obj: bytes, n: nat, forceStream: bool)
    requires n > 0 && HidesTotalsAt(p, key, at)
    ensures var told := TailToldSize(p, key, at, |obj|, forceStream);
      && (TailAnswers(obj, told, n, forceStream) <==> TailAnswers(obj, false, n, forceStream))
      && UsableTail(obj, told, n, forceStream) == UsableTail(obj, false, n, forceStream)
  {
    hide SelectionAt, UsableTail, StartingFrom;
    assert !TailToldSize(p, key, at, |obj|, forceStream);
  }

  /** Framing an aligned suffix backwards: enough usable lines, or all there are from the object's start. */
  method FrameSuffix(world: World, ledger: InspectionLedger, data: bytes, base: u64, whole: bool, size: u64, eof: bool,
                     n: u64, forceStream: bool, ghost obj: bytes)
    returns (r: Result<LineResult, StorageError>)
    requires ledger.Covers(world) && ledger.outputBytes == 0 && |data| <= ledger.budget.outputBytes && n > 0
    requires base + |data| <= U64_MAX
    modifies ledger`outputBytes
    ensures r.Err? ==> LineLimitOnly(r.error)
    ensures forceStream && !eof ==> r.Err?
    ensures r.Ok? ==>
      && LinesAreText(r.value) && AcceptsAsText(data) && (whole || |Kept(Usable(data, base, eof), n)| >= n)
      && r.value == BuildLineResult(Kept(Usable(data, base, eof), n), size,
                                    if forceStream then ForwardStream else RangeBackward)
    ensures TextObject(obj) && WindowOf(obj, data, base, eof) ==>
      if (eof || !forceStream) && (whole || |Usable(data, base, eof)| >= n) then r.Ok?
      else r == Err(LimitExceeded(PendingLineBytes, ledger.budget.pendingLineBytes, Min(size, MIB)))
  {
    hide TextObject, AcceptsAsText, Usable, TextLength, AllText, BuildLineResult, AnswerOf, Kept, WindowOf;
    KeptIsShort(Usable(data, base, eof), n);
    var text := RejectBinaryPrefix(data, base, eof, obj);
    if text.Err? { return Err(text.error); }
    if forceStream && !eof {
      return Err(LimitExceeded(PendingLineBytes, ledger.budget.pendingLineBytes, Min(size, MIB)));
    }
    var selected := FrameBack(data, base, eof, n, obj);
    if selected.Err? { return Err(selected.error); }
    if |selected.value| < n && !whole {
      return Err(LimitExceeded(PendingLineBytes, ledger.budget.pendingLineBytes, Min(size, MIB)));
    }
    r := EmitLines(world, ledger, selected.value, size, if forceStream then ForwardStream else RangeBackward);
  }

  /** Framing a suffix from its alignment and deciding whether it holds the answer. */
  method FrameTail(world: World, ledger: InspectionLedger, data: bytes, start: u64, aligned: nat, size: u64, eof: bool,
                   n: u64, forceStream: bool, ghost obj: bytes)
    returns (r: Result<LineResult, StorageError>)
    requires ledger.Covers(world) && ledger.outputBytes == 0 && |data| <= ledger.budget.outputBytes && n > 0
    requires aligned <= |data| && start + |data| <= U64_MAX
    modifies ledger`outputBytes
    ensures r.Err? ==> LineLimitOnly(r.error)
    ensures r.Ok? ==> LinesAreText(r.value) && AcceptsAsText(data[aligned..])
    ensures forceStream && !eof ==> r.Err?
    ensures (r.Ok? && start < |obj| == size && data == obj[start..] && aligned == TailAligned(obj, start)) ==>
      r.value == UsableTail(obj, eof, n, forceStream)
    ensures (TextObject(obj) && start < |obj| == size && data == obj[start..] && aligned == TailAligned(obj, start)
             && (eof || !forceStream)) ==>
      if start == 0 || StartingFrom(Usable(obj, 0, eof), start) >= n then r.Ok?
      else r == Err(LimitExceeded(PendingLineBytes, ledger.budget.pendingLineBytes, Min(size, MIB)))
    ensures TextObject(obj) && forceStream && !eof && start == aligned == 0 && data <= obj ==>
      r == Err(LimitExceeded(PendingLineBytes, ledger.budget.pendingLineBytes, Min(size, MIB)))
  {
    hide TextObject, AcceptsAsText, Usable, Lines, Last, BuildLineResult, AnswerOf, Kept, TailAligned, Boundary,
      StartingFrom, LinesAreText;
    StartIsBoundary(obj);
    if start < |obj| == size && data == obj[start..] && aligned == TailAligned(obj, start) {
      TailAlignedIsBoundary(obj, start);
      assert data[aligned..] == obj[start + aligned..];
      if start > 0 { TailCount(obj, start, eof); }
    }
    r := FrameSuffix(world, ledger, data[aligned..], start + aligned, start == 0, size, eof, n, forceStream, obj);
    if r.Ok? && start < |obj| == size && data == obj[start..] && aligned == TailAligned(obj, start) {
      TailReading(obj, start, eof, n);
    }
  }

  /**
   The tail. What it gives is exact if and only if the object is empty, ends in a line feed, or
   the last response told its size; with `forceStream` anything else is refused.
   */
  method TailLinesWithOptions(world: World, key: bytes, n: u64, options: LineOptions, ghost obj: bytes)
    returns (r: Result<LineResult, StorageError>)
    modifies world`ticks, world`issued, world`pulled
    ensures (r.Ok? && HonestAt(world.provider, key, old(world.issued), obj) && obj != []) ==>
      world.issued == old(world.issued) + (if TailStart(|obj|, options.forceStream) > 0 then 5 else 4)
    ensures r.Ok? ==> InTime(world, old(world.ticks), 4)
    ensures r.Ok? ==> SelectionAt(world.provider, key, old(world.issued)).Some?
    ensures r.Ok? && HonestAt(world.provider, key, old(world.issued), obj) ==>
      var told := TailToldSize(world.provider, key, old(world.issued), |obj|, options.forceStream);
      && ProbedText(obj, options.probeSize)
      && (obj != [] ==> TailReceipt(world.provider, key, old(world.issued), |obj|, options.forceStream).Some?)
      && (obj != [] && options.forceStream ==> told)
      && r.value == UsableTail(obj, told, n, options.forceStream)
      && AnswerOf(r.value, Last(Usable(obj, 0, told), n), |obj|, TailStrategy(obj, options.forceStream))
      && (r.value == ExactTail(obj, n, options.forceStream) <==> obj == [] || obj[|obj| - 1] == LF || told)
    ensures (r.Ok? && HonestAt(world.provider, key, old(world.issued), obj)
             && (options.forceStream || TellsTotalsAt(world.provider, key, old(world.issued)))) ==>
      r.value == ExactTail(obj, n, options.forceStream)
    ensures (HonestAt(world.provider, key, old(world.issued), obj)
             && HidesTotalsAt(world.provider, key, old(world.issued)) && obj != []) ==>
      (&& (options.forceStream ==> r.Err?)
       && (r.Ok? ==> (r.value == ExactTail(obj, n, options.forceStream) <==> obj[|obj| - 1] == LF)))
    ensures r.Ok? ==> LinesAreText(r.value)
    ensures CompressedRefused(key, options) ==> r == Err(EncodingRejected) && world.issued == old(world.issued)
    ensures !CompressedRefused(key, options) && !ValidBudget(LineBudget(n, options)) ==>
      r == Err(InvalidArgument) && world.issued == old(world.issued)
    ensures r.Err? ==> LineLimitOnly(r.error)
    ensures (ValidBudget(LineBudget(n, options)) && !CompressedRefused(key, options) && (forall k :: !world.expires(k))
             && OpeningError(world.provider, key, old(world.issued)).Some?) ==>
      r == Err(OpeningError(world.provider, key, old(world.issued)).value)
    ensures (DeliversAt(world.provider, key, old(world.issued), obj) && (forall k :: !world.expires(k))
             && ValidBudget(LineBudget(n, options)) && !CompressedRefused(key, options)
             && !ProbedText(obj, options.probeSize)) ==> r == Err(EncodingRejected)
    ensures (Undisturbed(world, key, old(world.issued), obj) && ValidBudget(LineBudget(n, options))
             && !CompressedRefused(key, options)) ==>
      r == if TailAnswers(obj, true, n, options.forceStream) then Ok(ExactTail(obj, n, options.forceStream))
           else Err(OutOfReach(|obj|))
    ensures (DeliversAt(world.provider, key, old(world.issued), obj) && (forall k :: !world.expires(k))
             && TextObject(obj) && ValidBudget(LineBudget(n, options)) && !CompressedRefused(key, options)) ==>
      var told := TailToldSize(world.provider, key, old(world.issued), |obj|, options.forceStream);
      r == if TailAnswers(obj, told, n, options.forceStream) then Ok(UsableTail(obj, told, n, options.forceStream))
           else Err(OutOfReach(|obj|))
    ensures (DeliversAt(world.provider, key, old(world.issued), obj) && (forall k :: !world.expires(k))
             && HidesTotalsAt(world.provider, key, old(world.issued))
             && TextObject(obj) && ValidBudget(LineBudget(n, options)) && !CompressedRefused(key, options)) ==>
      r == if TailAnswers(obj, false, n, options.forceStream) then Ok(UsableTail(obj, false, n, options.forceStream))
           else Err(OutOfReach(|obj|))
    ensures world.issued <= old(world.issued) + 5 && world.pulled <= old(world.pulled) + 2 * MIB + 2
  {
    hide Honest, Serves, HonestAt, ServesAt, SelectionAt, AtEof, TextObject, AcceptsAsText, DeliversWithin, TailReceipt,
      Usable, TextLength, Lines, Last, AllText, BuildLineResult, AnswerOf, ExactTail, UsableTail, TellsTotalsAt,
      HidesTotalsAt,      ProbedText, TailInReach;
    if IsCompressedKey(key) && !options.forceStream { return Err(EncodingRejected); }
    var budget := LineBudget(n, options);
    if !ValidBudget(budget) { return Err(InvalidArgument); }
    r := TailWithinBudget(world, key, n, options, obj);
    ghost var at := old(world.issued);
    if ServesAt(world.provider, key, at, obj) { ServedTail(world.provider, key, at, obj, options.forceStream); }
    if HidesTotalsAt(world.provider, key, at) { HiddenTail(world.provider, key, at, obj, n, options.forceStream); }
    if r.Ok? && HonestAt(world.provider, key, at, obj) {
      TailConsequences(world.provider, key, at, obj, n, options.forceStream);
    }
  }

  /** A tail whose budget is good and whose key may be read. */
  method TailWithinBudget(world: World, key: bytes, n: u64, options: LineOptions, ghost obj: bytes)
    returns (r: Result<LineResult, StorageError>)
    requires ValidBudget(LineBudget(n, options))
    modifies world`ticks, world`issued, world`pulled
    ensures (r.Ok? && HonestAt(world.provider, key, old(world.issued), obj) && obj != []) ==>
      world.issued == old(world.issued) + (if TailStart(|obj|, options.forceStream) > 0 then 5 else 4)
    ensures r.Ok? ==> InTime(world, old(world.ticks), 4)
    ensures r.Ok? ==> SelectionAt(world.provider, key, old(world.issued)).Some?
    ensures r.Ok? && HonestAt(world.provider, key, old(world.issued), obj) ==>
      var told := TailToldSize(world.provider, key, old(world.issued), |obj|, options.forceStream);
      && ProbedText(obj, options.probeSize)
      && (obj != [] ==> TailReceipt(world.provider, key, old(world.issued), |obj|, options.forceStream).Some?)
      && (obj != [] && options.forceStream ==> told)
      && r.value == UsableTail(obj, told, n, options.forceStream)
    ensures r.Ok? ==> LinesAreText(r.value)
    ensures r.Err? ==> LineLimitOnly(r.error)
    ensures ServesAt(world.provider, key, old(world.issued), obj) ==>
      DeliversAt(world.provider, key, old(world.issued), obj)
    ensures DeliversAt(world.provider, key, old(world.issued), obj) ==>
      HonestAt(world.provider, key, old(world.issued), obj)
    ensures ((forall k :: !world.expires(k)) && OpeningError(world.provider, key, old(world.issued)).Some?) ==>
      r == Err(OpeningError(world.provider, key, old(world.issued)).value)
    ensures (DeliversAt(world.provider, key, old(world.issued), obj) && (forall k :: !world.expires(k))
             && !ProbedText(obj, options.probeSize)) ==> r == Err(EncodingRejected)
    ensures (DeliversAt(world.provider, key, old(world.issued), obj) && (forall k :: !world.expires(k))
             && TextObject(obj)) ==>
      var told := TailToldSize(world.provider, key, old(world.issued), |obj|, options.forceStream);
      if TailAnswers(obj, told, n, options.forceStream) then r.Ok? else r == Err(OutOfReach(|obj|))
    ensures world.issued <= old(world.issued) + 5 && world.pulled <= old(world.pulled) + 2 * MIB + 2
  {
    hide Honest, Serves, AtEof, TextObject, AcceptsAsText, DeliversWithin, SelectionAt,
      Usable, TextLength, Lines, Last, AllText, BuildLineResult, AnswerOf, UsableTail, TailStart, SuffixReceipt;
    if ServesAt(world.provider, key, world.issued, obj) { ServedDelivers(world.provider, key, world.issued, obj); }
    var ledger := new InspectionLedger(LineBudget(n, options), world);
    var source := OpenSelected(world, ledger, key, obj);
    if source.Err? { return Err(source.error); }
    var (selection, size) := source.value;
    if size == 0 {
      r := Ok(EmptyResult(RangeBackward, 0));
      ghost var told := TailToldSize(world.provider, key, old(world.issued), |obj|, options.forceStream);
      EmptyTail(n, told, options.forceStream);
      return;
    }
    var probe := LineProbe(world, ledger, selection, size, obj, old(world.issued));
    if probe.Err? { return Err(probe.error); }
    r := TailSuffixRead(world, ledger, selection, size, n, options.forceStream, obj, old(world.issued));
  }

  lemma ServedDelivers(p: Provider, key: bytes, at: nat, obj: bytes)
    requires ServesAt(p, key, at, obj)
    ensures DeliversAt(p, key, at, obj) && HonestAt(p, key, at, obj)
  {
    hide Honest, Serves, DeliversWithin;
    ServedSize(p, SelectionAt(p, key, at).value, at + 1, obj, at);
    ServesDelivers(p, SelectionAt(p, key, at).value, obj, at);
  }

  lemma EmptyTail(n: nat, told: bool, forceStream: bool)
    requires n > 0
    ensures UsableTail([], told, n, forceStream) == ExactTail([], n, forceStream) == EmptyResult(RangeBackward, 0)
  {
    EmptyAnswer(n, RangeBackward);
    UsableTailIsExact([], told, n, forceStream);
  }

  /** The reads of a tail after its probe, and their framing. */
  method TailSuffixRead(world: World, ledger: InspectionLedger, selection: Selection, size: u64, n: u64,
                        forceStream: bool, ghost obj: bytes, ghost from: nat)
    returns (r: Result<LineResult, StorageError>)
    requires from <= world.issued
    requires ledger.Covers(world) && ValidBudget(ledger.budget) && size > 0 && n > 0
    requires ledger.budget.pendingLineBytes == ledger.budget.outputBytes == MIB <= ledger.budget.payloadBytes
    requires ledger.outputBytes == 0 && ledger.payloadBytes + MIB + 2 <= ledger.budget.payloadBytes
    requires ledger.helperRequests + 1 < ledger.budget.helperRequests
    requires world.issued > 0
    modifies ledger`payloadBytes, ledger`helperRequests, ledger`outputBytes, world`ticks, world`issued, world`pulled
    ensures r.Ok? ==> world.issued == old(world.issued) + (if TailStart(size, forceStream) > 0 then 2 else 1)
    ensures r.Ok? ==> InTime(world, old(world.ticks), 4)
    ensures world.issued <= old(world.issued) + 2 && world.pulled <= old(world.pulled) + MIB + 2
    ensures r.Err? ==> LineLimitOnly(r.error)
    ensures r.Ok? ==> LinesAreText(r.value)
    ensures r.Ok? && Honest(world.provider, selection, obj, from) && size == |obj| ==>
      var receipt := SuffixReceipt(world.provider, selection, old(world.issued) - 1, |obj|, forceStream);
      && receipt.Some? && (forceStream ==> receipt.value.totalSize.Some?)
      && r.value == UsableTail(obj, receipt.value.totalSize.Some?, n, forceStream)
    ensures (DeliversWithin(world.provider, selection, obj, from) && Honest(world.provider, selection, obj, from)
             && size == |obj| && TextObject(obj) && (forall k :: !world.expires(k))) ==>
      var receipt := SuffixReceipt(world.provider, selection, old(world.issued) - 1, |obj|, forceStream);
      && receipt.Some?
      && if TailAnswers(obj, receipt.value.totalSize.Some?, n, forceStream) then r.Ok? else r == Err(OutOfReach(|obj|))
  {
    hide Honest, AtEof, TextObject, AcceptsAsText, Usable, TextLength, Lines, Last, AllText, BuildLineResult, AnswerOf,
      RangeReceipt, Kept, TailAligned, UsableTail, DeliversWithin;
    var length := Min(Min(size, ledger.budget.pendingLineBytes), ledger.budget.payloadBytes);
    var start := if forceStream then 0 else size - length;
    var read := ReadSuffix(world, ledger, selection, start, length, obj, from);
    if read.Err? { return Err(read.error); }
    var (data, receipt, aligned) := read.value;
    if start == 0 && obj != [] { TailAlignedIsBoundary(obj, 0); }
    r := FrameTail(world, ledger, data, start, aligned, size, AtEof(receipt), n, forceStream, obj);
  }

  // ---------------------------------------------------------------- middle

  function MidStrategy(obj: bytes, forceStream: bool): ReadStrategy {
    if forceStream && obj != [] then ForwardStream else RangeMidpoint
  }

  /** The line that byte `m` is in does not end strictly inside the window; its CR may be the window's last byte. */
  predicate EndsAtEdge(data: bytes, m: nat) {
    Alignment(data, m) == None || Alignment(data, m) == Some(|data|)
  }

  /** A line seen to end inside the window ends there in the object. */
  lemma EndsInside(obj: bytes, data: bytes, start: nat, m: nat)
    requires start + |data| <= |obj| && data == obj[start..start + |data|] && !EndsAtEdge(data, m)
    ensures start + m < |obj| && EndFrom(obj, start + m) < start + |data|
  {
    AlignmentInWindow(obj, data, start, m);
  }

  /** The middle line ends by `end`, and `n` more lines after it are settled there. */
  predicate SettledAfterMiddle(obj: bytes, end: nat, n: nat)
    requires obj != [] && end <= |obj|
  {
    var q := EndFrom(obj, |obj| / 2);
    q <= end && |Complete(obj[q..end], q)| >= n
  }

  /** The object is no longer than a window, or the window around its middle settles the answer. */
  predicate MidInReach(obj: bytes, n: nat) {
    |obj| <= MIB || SettledAfterMiddle(obj, |obj| / 2 + MIB / 2, n)
  }

  /** When a middle of text answers. */
  predicate MidAnswers(obj: bytes, n: nat, forceStream: bool) {
    if forceStream then |obj| <= MIB else MidInReach(obj, n)
  }

  /** What an unproven window yields after its alignment is what is settled after the middle line. */
  lemma MiddleSettled(obj: bytes, data: bytes, start: nat, n: nat)
    requires obj != [] && start <= |obj| / 2 && start + |data| <= |obj| && data == obj[start..start + |data|] && n > 0
    ensures var a := MidAligned(data, |obj| / 2 - start, false);
      && (|Complete(data[a..], start + a)| >= n <==> SettledAfterMiddle(obj, start + |data|, n))
      && (data[a..] != [] ==> Boundary(obj, start + a))
  {
    hide LinesFrom, CompleteFrom, EndFrom, BreakFrom;
    var m, end := |obj| / 2 - start, start + |data|;
    var a := MidAligned(data, m, false);
    MidAlignedIs(data, m, false);
    NoneComplete([], end);
    if EndsAtEdge(data, m) {
      assert data[a..] == [] && start + a == end;
      NoneComplete(data[a..], end);
      EndsPastEdge(obj, data, start);
      assert obj[end..end] == [];
    } else {
      AlignmentInWindow(obj, data, start, m);
      BoundaryAtEndOnly(obj, |obj| / 2, EndFrom(obj, |obj| / 2));
      assert data[a..] == obj[start + a..end];
    }
  }

  /** With its end at the edge there is nothing left to frame after the alignment. */
  lemma MiddleEdge(data: bytes, m: nat, start: nat)
    ensures var a := MidAligned(data, m, false);
      EndsAtEdge(data, m) ==> data[a..] == [] && |Usable(data[a..], start + a, false)| == 0
  {
    NoneComplete([], start + MidAligned(data, m, false));
  }

  /** The aligned rest of a middle window of the object, whether it is proven to be all of it or not. */
  lemma MiddleWindow(obj: bytes, data: bytes, start: nat, eof: bool, n: nat)
    requires obj != [] && start <= |obj| / 2 && start + |data| <= |obj| && data == obj[start..start + |data|] && n > 0
    ensures var a := MidAligned(data, |obj| / 2 - start, eof && start == 0);
      && (eof && start == 0 && |data| == |obj| ==> WindowOf(obj, data[a..], start + a, eof))
      && (!eof ==>
            && (data[a..] == [] || WindowOf(obj, data[a..], start + a, eof))
            && (|Usable(data[a..], start + a, eof)| >= n <==> SettledAfterMiddle(obj, start + |data|, n)))
  {
    hide Boundary, MidAligned, SettledAfterMiddle, LinesFrom, CompleteFrom;
    MiddleSettled(obj, data, start, n);
    if start == 0 && |data| == |obj| {
      assert data == obj;
      MidAlignedIsBoundary(obj);
    }
  }

  /** A middle line not seen to end inside the window ends at its edge or after it. */
  lemma EndsPastEdge(obj: bytes, data: bytes, start: nat)
    requires obj != [] && start <= |obj| / 2 && start + |data| <= |obj| && data == obj[start..start + |data|]
    requires EndsAtEdge(data, |obj| / 2 - start)
    ensures EndFrom(obj, |obj| / 2) >= start + |data|
  {
    if |obj| / 2 - start < |data| { BreakInWindow(obj, data, start, |obj| / 2 - start); }
  }

  /** Framing an aligned middle window forwards: enough usable lines, or all there are. */
  method FrameAligned(world: World, ledger: InspectionLedger, data: bytes, base: u64, size: u64, eof: bool,
                      n: u64, forceStream: bool, ghost obj: bytes)
    returns (r: Result<LineResult, StorageError>)
    requires ledger.Covers(world) && ledger.outputBytes == 0 && |data| <= ledger.budget.outputBytes
    requires base + |data| <= U64_MAX
    modifies ledger`outputBytes
    ensures r.Err? ==> LineLimitOnly(r.error)
    ensures r.Ok? ==>
      && LinesAreText(r.value) && (eof || |Usable(data, base, eof)| >= n)
      && r.value == BuildLineResult(Take(Usable(data, base, eof), n), size,
                                    if forceStream then ForwardStream else RangeMidpoint)
    ensures r.Ok? ==> eof || |Take(Usable(data, base, eof), n)| == n
    ensures (data == [] || (TextObject(obj) && WindowOf(obj, data, base, eof))) ==>
      if eof || |Usable(data, base, eof)| >= n then r.Ok?
      else r == Err(LimitExceeded(PendingLineBytes, ledger.budget.pendingLineBytes, Min(size, MIB)))
  {
    hide TextObject, AcceptsAsText, Usable, TextLength, Take, AllText, BuildLineResult, AnswerOf, Boundary, WindowOf;
    TakeIsShort(Usable(data, base, eof), n);
    var text := RejectBinaryPrefix(data, base, eof, obj);
    if text.Err? { return Err(text.error); }
    var selected := FrameFront(data, base, eof, n, obj);
    if selected.Err? { return Err(selected.error); }
    if |selected.value| < n && !eof {
      return Err(LimitExceeded(PendingLineBytes, ledger.budget.pendingLineBytes, Min(size, MIB)));
    }
    r := EmitLines(world, ledger, selected.value, size, if forceStream then ForwardStream else RangeMidpoint);
  }

  /** Framing a middle window from its alignment and deciding whether it holds the answer. */
  method FrameMid(world: World, ledger: InspectionLedger, data: bytes, start: u64, size: u64, eof: bool,
                  n: u64, forceStream: bool, ghost obj: bytes)
    returns (r: Result<LineResult, StorageError>)
    requires ledger.Covers(world) && ledger.outputBytes == 0 && |data| <= ledger.budget.outputBytes && n > 0
    requires start <= size / 2 && start + |data| <= U64_MAX
    modifies ledger`outputBytes
    ensures r.Err? ==> LineLimitOnly(r.error)
    ensures r.Ok? ==> LinesAreText(r.value)
    ensures !eof && (forceStream || EndsAtEdge(data, size / 2 - start)) ==> r.Err?
    ensures (r.Ok? && start + |data| <= |obj| == size && obj != [] && data == obj[start..start + |data|]
             && (eof ==> start == 0 && |data| == |obj|)) ==>
      r.value == BuildLineResult(Take(MidLines(obj), n), |obj|, MidStrategy(obj, forceStream))
    ensures (TextObject(obj) && obj != [] && start == 0 && data == obj && |obj| == size && eof) ==> r.Ok?
    ensures forceStream && !eof ==>
      r == Err(LimitExceeded(PendingLineBytes, ledger.budget.pendingLineBytes, Min(size, MIB)))
    ensures (TextObject(obj) && start + |data| <= |obj| == size && obj != [] && data == obj[start..start + |data|]
             && !eof && !forceStream) ==>
      if SettledAfterMiddle(obj, start + |data|, n) then r.Ok?
      else r == Err(LimitExceeded(PendingLineBytes, ledger.budget.pendingLineBytes, Min(size, MIB)))
  {
    hide TextObject, Usable, Complete, Take, BuildLineResult, AnswerOf, WindowOf, MidLines, MidAligned, Alignment,
      EndsAtEdge, SettledAfterMiddle, LinesAreText;
    if forceStream && !eof {
      return Err(LimitExceeded(PendingLineBytes, ledger.budget.pendingLineBytes, Min(size, MIB)));
    }
    var found := MidpointAlignment(data, size / 2 - start);
    var aligned := match found case Some(a) => a case None => if eof && start == 0 then 0 else |data|;
    MidAlignedIs(data, size / 2 - start, eof && start == 0);
    MiddleEdge(data, size / 2 - start, start);
    if start + |data| <= |obj| == size && obj != [] && data == obj[start..start + |data|] {
      MiddleWindow(obj, data, start, eof, n);
    }
    r := FrameAligned(world, ledger, data[aligned..], start + aligned, size, eof, n, forceStream, obj);
    if r.Ok? && start + |data| <= |obj| == size && obj != [] && data == obj[start..start + |data|]
       && (eof ==> start == 0 && |data| == |obj|) {
      MidReading(obj, start, |data|, eof, n);
    }
  }

  /** The window around the middle byte; only a window of the whole object reaches its end. */
  method ReadMiddle(world: World, ledger: InspectionLedger, selection: Selection, size: u64, forceStream: bool,
                    ghost obj: bytes, ghost from: nat)
    returns (r: Result<(bytes, SourceReceipt, u64), StorageError>)
    requires from <= world.issued
    requires ledger.Covers(world) && ValidBudget(ledger.budget) && 0 < size
    requires ledger.budget.pendingLineBytes == MIB <= ledger.budget.payloadBytes
    requires ledger.payloadBytes + MIB + 1 <= ledger.budget.payloadBytes
    requires ledger.helperRequests < ledger.budget.helperRequests
    modifies ledger`payloadBytes, ledger`helperRequests, world`ticks, world`issued, world`pulled
    ensures r.Ok? ==> world.issued == old(world.issued) + 1
    ensures r.Ok? ==> InTime(world, old(world.ticks), 4)
    ensures ledger.Covers(world)
    ensures world.issued <= old(world.issued) + 1 && world.pulled <= old(world.pulled) + MIB + 1
    ensures r.Ok? ==> |r.value.0| <= MIB && r.value.2 <= size / 2 && r.value.2 + |r.value.0| <= size
    ensures r.Ok? && size > MIB ==> forceStream || r.value.2 == size / 2 - MIB / 2
    ensures r.Err? ==> LineLimitOnly(r.error)
    ensures r.Ok? && Honest(world.provider, selection, obj, from) && size == |obj| ==>
      (&& r.value.0 == obj[r.value.2..r.value.2 + |r.value.0|]
       && (AtEof(r.value.1) ==> r.value.2 == 0 && |r.value.0| == |obj|))
    ensures r.Ok? && Honest(world.provider, selection, obj, from) && size == |obj| > MIB ==>
      |r.value.0| == MIB && !AtEof(r.value.1)
    ensures Serves(world.provider, selection, obj, from) && size == |obj| && (forall k :: !world.expires(k)) ==> r.Ok?
    ensures (Serves(world.provider, selection, obj, from) && size == |obj| <= MIB
             && (forall k :: !world.expires(k))) ==>
      (&& r.Ok? && r.value.2 == 0
       && (Honest(world.provider, selection, obj, from) ==> r.value.0 == obj && AtEof(r.value.1)))
  {
    hide Honest, Serves, AtEof;
    var length := Min(Min(size, ledger.budget.pendingLineBytes), ledger.budget.payloadBytes);
    var midpoint := size / 2;
    var start := if forceStream then 0 else SaturatingSub(midpoint, length / 2);
    var requested := if forceStream then length else Min(length, size - start);
    if size > MIB { NarrowMidStopsShort(size, MIB); }
    var read := ReadWindow(world, ledger, selection, start, requested, obj, from);
    r := match read case Ok(v) => Ok((v.0, v.1, start)) case Err(e) => Err(e);
  }

  method MidLinesWithOptions(world: World, key: bytes, n: u64, options: LineOptions, ghost obj: bytes)
    returns (r: Result<LineResult, StorageError>)
    modifies world`ticks, world`issued, world`pulled
    ensures (r.Ok? && HonestAt(world.provider, key, old(world.issued), obj) && obj != []) ==>
      world.issued == old(world.issued) + 4
    ensures r.Ok? ==> InTime(world, old(world.ticks), 4)
    ensures r.Ok? ==> SelectionAt(world.provider, key, old(world.issued)).Some?
    ensures r.Ok? && HonestAt(world.provider, key, old(world.issued), obj) ==>
      && r.value == BuildLineResult(Take(MidLines(obj), n), |obj|, MidStrategy(obj, options.forceStream))
      && AnswerOf(r.value, Take(MidLines(obj), n), |obj|, MidStrategy(obj, options.forceStream))
      && ProbedText(obj, options.probeSize)
      && (|obj| > MIB ==> !options.forceStream && EndFrom(obj, |obj| / 2) < |obj| / 2 + MIB / 2)
    ensures r.Ok? ==> LinesAreText(r.value)
    ensures CompressedRefused(key, options) ==> r == Err(EncodingRejected) && world.issued == old(world.issued)
    ensures !CompressedRefused(key, options) && !ValidBudget(LineBudget(n, options)) ==>
      r == Err(InvalidArgument) && world.issued == old(world.issued)
    ensures r.Err? ==> LineLimitOnly(r.error)
    ensures (ValidBudget(LineBudget(n, options)) && !CompressedRefused(key, options) && (forall k :: !world.expires(k))
             && OpeningError(world.provider, key, old(world.issued)).Some?) ==>
      r == Err(OpeningError(world.provider, key, old(world.issued)).value)
    ensures (ServesAt(world.provider, key, old(world.issued), obj) && (forall k :: !world.expires(k))
             && ValidBudget(LineBudget(n, options)) && !CompressedRefused(key, options)
             && !ProbedText(obj, options.probeSize)) ==> r == Err(EncodingRejected)
    ensures (Undisturbed(world, key, old(world.issued), obj) && ValidBudget(LineBudget(n, options))
             && !CompressedRefused(key, options)) ==>
      if MidAnswers(obj, n, options.forceStream) then r.Ok? else r == Err(OutOfReach(|obj|))
    ensures world.issued <= old(world.issued) + 4 && world.pulled <= old(world.pulled) + 2 * MIB + 1
  {
    hide Honest, Serves, DeliversWithin, HonestAt, ServesAt, SelectionAt, AtEof, TextObject, AcceptsAsText,
      Lines, Take, AllText, BuildLineResult, AnswerOf, MidLines, EndFrom, Alignment;
    if IsCompressedKey(key) && !options.forceStream { return Err(EncodingRejected); }
    var budget := LineBudget(n, options);
    if !ValidBudget(budget) { return Err(InvalidArgument); }
    var ledger := new InspectionLedger(budget, world);
    var source := OpenSelected(world, ledger, key, obj);
    if source.Err? { return Err(source.error); }
    var (selection, size) := source.value;
    if size == 0 {
      EmptyAnswer(n, RangeMidpoint);
      return Ok(EmptyResult(RangeMidpoint, 0));
    }
    var probe := LineProbe(world, ledger, selection, size, obj, old(world.issued));
    if probe.Err? { return Err(probe.error); }
    r := MidWindowRead(world, ledger, selection, size, n, options.forceStream, obj, old(world.issued));
  }

  /** The read of a middle after its probe, and its framing. */
  method MidWindowRead(world: World, ledger: InspectionLedger, selection: Selection, size: u64, n: u64,
                       forceStream: bool, ghost obj: bytes, ghost from: nat)
    returns (r: Result<LineResult, StorageError>)
    requires from <= world.issued
    requires ledger.Covers(world) && ValidBudget(ledger.budget) && 0 < size && n > 0
    requires ledger.budget.pendingLineBytes == ledger.budget.outputBytes == MIB <= ledger.budget.payloadBytes
    requires ledger.outputBytes == 0 && ledger.payloadBytes + MIB + 1 <= ledger.budget.payloadBytes
    requires ledger.helperRequests < ledger.budget.helperRequests
    modifies ledger`payloadBytes, ledger`helperRequests, ledger`outputBytes, world`ticks, world`issued, world`pulled
    ensures r.Ok? ==> world.issued == old(world.issued) + 1
    ensures r.Ok? ==> InTime(world, old(world.ticks), 4)
    ensures world.issued <= old(world.issued) + 1 && world.pulled <= old(world.pulled) + MIB + 1
    ensures r.Err? ==> LineLimitOnly(r.error)
    ensures r.Ok? ==> LinesAreText(r.value)
    ensures r.Ok? && Honest(world.provider, selection, obj, from) && size == |obj| ==>
      && r.value == BuildLineResult(Take(MidLines(obj), n), |obj|, MidStrategy(obj, forceStream))
      && (|obj| > MIB ==> !forceStream && EndFrom(obj, |obj| / 2) < |obj| / 2 + MIB / 2)
    ensures (Serves(world.provider, selection, obj, from) && Honest(world.provider, selection, obj, from)
             && size == |obj| && TextObject(obj) && (forall k :: !world.expires(k))) ==>
      if MidAnswers(obj, n, forceStream) then r.Ok? else r == Err(OutOfReach(|obj|))
  {
    hide Honest, Serves, AtEof, TextObject, AcceptsAsText, Lines, Take, AllText, BuildLineResult, AnswerOf, MidLines,
      EndFrom, Alignment;
    var read := ReadMiddle(world, ledger, selection, size, forceStream, obj, from);
    if read.Err? { return Err(read.error); }
    var (data, receipt, start) := read.value;
    r := FrameMid(world, ledger, data, start, size, AtEof(receipt), n, forceStream, obj);
    if r.Ok? && Honest(world.provider, selection, obj, from) && size == |obj| && |obj| > MIB {
      EndsInside(obj, data, start, size / 2 - start);
    }
  }

  // ---------------------------------------------------------------- count

  method CountLines(world: World, key: bytes, ghost obj: bytes) returns (r: Result<u64, StorageError>)
    modifies world`ticks, world`issued, world`pulled
    ensures (r.Ok? && HonestAt(world.provider, key, old(world.issued), obj) && obj != []) ==>
      world.issued == old(world.issued) + 4
    ensures r.Ok? ==> InTime(world, old(world.ticks), 4)
    ensures r.Ok? ==> SelectionAt(world.provider, key, old(world.issued)).Some?
    ensures r.Ok? && HonestAt(world.provider, key, old(world.issued), obj) ==>
      r.value == |Lines(obj, 0)| && |obj| <= MIB && TextObject(obj)
    ensures r.Err? && r.error.LimitExceeded? ==> r.error.dimension in {PendingLineBytes, PayloadBytes, Deadline}
    ensures ServesAt(world.provider, key, old(world.issued), obj) && (forall k :: !world.expires(k)) ==>
      if |obj| > 8 * MIB then r == Err(LimitExceeded(PayloadBytes, 8 * MIB, 0))
      else if |obj| > MIB then r == Err(LimitExceeded(PendingLineBytes, MIB, 0))
      else if !TextObject(obj) then r == Err(EncodingRejected)
      else r == Ok(|Lines(obj, 0)|)
    ensures ((forall k :: !world.expires(k)) && OpeningError(world.provider, key, old(world.issued)).Some?) ==>
      r == Err(OpeningError(world.provider, key, old(world.issued)).value)
    ensures (HonestAt(world.provider, key, old(world.issued), obj) && obj != []
             && HidesTotalsAt(world.provider, key, old(world.issued))) ==> r.Err?
    ensures world.issued <= old(world.issued) + 4 && world.pulled <= old(world.pulled) + 2 * MIB + 1
  {
    hide Honest, Serves, DeliversWithin, HonestAt, ServesAt, SelectionAt, TextObject, AcceptsAsText, Lines, AllText;
    var budget := DEFAULT_BUDGET;
    var ledger := new InspectionLedger(budget, world);
    var source := OpenSelected(world, ledger, key, obj);
    if source.Err? { return Err(source.error); }
    var (selection, size) := source.value;
    if size == 0 {
      CountNone();
      return Ok(0);
    }
    if size > budget.payloadBytes {
      return Err(LimitExceeded(PayloadBytes, budget.payloadBytes, ledger.payloadBytes));
    }
    if size > budget.pendingLineBytes {
      return Err(LimitExceeded(PendingLineBytes, budget.pendingLineBytes, ledger.payloadBytes));
    }
    var probe := LineProbe(world, ledger, selection, size, obj, old(world.issued));
    if probe.Err? { return Err(probe.error); }
    var read := ReadWindow(world, ledger, selection, 0, size, obj, old(world.issued));
    if read.Err? { return Err(read.error); }
    var (data, receipt) := read.value;
    if receipt.totalSize != Some(size) || !AtEof(receipt) {
      return Err(LimitExceeded(PayloadBytes, budget.payloadBytes, size));
    }
    TextObjectIff(obj);
    if Honest(world.provider, selection, obj, old(world.issued)) { assert data == obj; }
    var text := RejectBinaryPrefix(data, 0, true, obj);
    if text.Err? { return Err(text.error); }
    var counted := CountLinesBounded(data);
    r := match counted case Ok(k) => Ok(k) case Err(_) => Err(EncodingRejected);
  }

  /** A text object is one that is not refused as binary and whose lines are all text. */
  lemma TextObjectIff(obj: bytes)
    ensures TextObject(obj) <==> AcceptsAsText(obj) && AllText(Lines(obj, 0))
  {
    Utf8.ValidIffWellFormed(obj);
    assert obj[0..] == obj;
    if TextObject(obj) {
      TextFrom(obj, 0);
      TextWindowAccepted(obj, 0, |obj|);
      assert obj[0..|obj|] == obj;
    }
    if AllText(Lines(obj, 0)) { TextOfLines(obj, 0, 0); }
  }

  lemma CountNone()
    ensures Lines([], 0) == [] && TextObject([])
  {
    Utf8.ValidIffWellFormed([]);
  }

  // ---------------------------------------------------------------- preview

  datatype BytePreview = BytePreview(
    data: bytes, receipt: SourceReceipt, consumedPayloadBytes: nat, helperRequests: nat)

  function ValidatePreviewRequest(length: u64, budget: InspectionBudget): Result<(), StorageError> {
    if length > budget.payloadBytes then Err(LimitExceeded(PayloadBytes, budget.payloadBytes, length))
    else if length > budget.outputBytes then Err(LimitExceeded(OutputBytes, budget.outputBytes, length))
    else Ok(())
  }

  /** The caller's request is one the budget could pay for, its end-of-file proof byte aside. */
  predicate PreviewRequested(length: u64, budget: InspectionBudget, requests: nat) {
    && 0 < length <= budget.payloadBytes && length <= budget.outputBytes
    && ValidBudget(budget) && requests <= budget.helperRequests
  }

  /** The receipt handed out is the answer's own: of call `at` for an empty selection, else of the read after it. */
  ghost predicate PreviewReceipt(p: Provider, selection: Selection, at: nat, length: u64, preview: BytePreview)
    requires length > 0
  {
    if preview.data == [] then
      p.head(at, selection) == Ok(preview.receipt) && preview.receipt.totalSize == Some(0)
    else
      Delivered(p.range(at + 1, selection, 0, length), 0, length, preview.data, preview.receipt)
  }

  /** The refusal of a preview that would fill the payload budget: the byte after it is wanted too. */
  function NoRoomForProof(budget: InspectionBudget): StorageError {
    LimitExceeded(PayloadBytes, budget.payloadBytes, Min(budget.payloadBytes + 1, U64_MAX))
  }

  /** Requests that are refused before anything is asked. */
  ghost predicate RefusedRequest(r: Result<BytePreview, StorageError>, length: u64, budget: InspectionBudget) {
    && (length == 0 || !ValidBudget(budget) ==> r == Err(InvalidArgument))
    && (length > 0 && ValidBudget(budget) && length > budget.payloadBytes ==>
          r == Err(LimitExceeded(PayloadBytes, budget.payloadBytes, length)))
    && (length > 0 && ValidBudget(budget) && budget.outputBytes < length <= budget.payloadBytes ==>
          r == Err(LimitExceeded(OutputBytes, budget.outputBytes, length)))
  }

  /** HEAD for an empty selection, then one range read of the whole prefix. */
  method PreviewSelected(world: World, ledger: InspectionLedger, selection: Selection, length: u64,
                         ghost obj: bytes, ghost from: nat)
    returns (r: Result<BytePreview, StorageError>)
    requires from <= world.issued
    requires ledger.Covers(world) && ValidBudget(ledger.budget) && length > 0
    requires ledger.payloadBytes == 0 && ledger.outputBytes == 0 && length <= ledger.budget.outputBytes
    modifies ledger`payloadBytes, ledger`helperRequests, ledger`outputBytes, world`ticks, world`issued, world`pulled
    ensures r.Ok? ==> InTime(world, old(world.ticks), 2)
    ensures ledger.Covers(world)
    ensures r.Ok? && Honest(world.provider, selection, obj, from) ==> r.value.data == Take(obj, length)
    ensures r.Ok? ==> PreviewReceipt(world.provider, selection, old(world.issued), length, r.value)
    ensures r.Ok? && r.value.data == [] ==>
      r.value.consumedPayloadBytes == 0 && r.value.helperRequests == old(ledger.helperRequests) + 1
    ensures r.Ok? && r.value.data != [] ==>
      (&& length + 1 <= ledger.budget.payloadBytes
       && r.value.consumedPayloadBytes == |r.value.data| == ledger.payloadBytes <= length
       && r.value.helperRequests == old(ledger.helperRequests) + 2)
    ensures (&& Serves(world.provider, selection, obj, from) && (forall k :: !world.expires(k))
             && length <= ledger.budget.payloadBytes
             && old(ledger.helperRequests) + 2 <= ledger.budget.helperRequests) ==>
      if obj == [] || length < ledger.budget.payloadBytes then r.Ok?
      else r == Err(NoRoomForProof(ledger.budget))
    ensures (old(ledger.helperRequests) < ledger.budget.helperRequests && (forall k :: !world.expires(k))
             && world.provider.head(old(world.issued), selection).Err?) ==>
      r == Err(FromProvider(world.provider.head(old(world.issued), selection).error))
  {
    hide Honest, Serves, Streams.Data, Streams.Ending, ValidateGuardedRangeReceipt;
    ghost var at := world.issued;
    var head := HeadSelected(world, ledger, selection);
    if Serves(world.provider, selection, obj, from) { ServedSize(world.provider, selection, at, obj, from); }
    if head.Err? { return Err(head.error); }
    if Honest(world.provider, selection, obj, from) && head.value.totalSize.Some? {
      HonestSize(world.provider, selection, at, head.value.totalSize.value, obj, from);
    }
    if head.value.totalSize == Some(0) {
      return Ok(BytePreview([], head.value, 0, ledger.helperRequests));
    }
    if Serves(world.provider, selection, obj, from) && obj != [] {
      ServedRead(world.provider, selection, world.issued, 0, length, obj, from);
    }
    ghost var reading := world.issued;
    var read := GuardedRangeBytes(world, ledger, selection, 0, length);
    if read.Err? { return Err(read.error); }
    var (data, receipt) := read.value;
    if Honest(world.provider, selection, obj, from) {
      HonestRead(world.provider, selection, reading, 0, length, data, receipt, obj, from);
    }
    ReturnedLength(world.provider.range(reading, selection, 0, length), length, data, receipt);
    var charged := ledger.AdmitOutput(|data|, world);
    r := match charged
      case Ok(_) =>
        Ok(BytePreview(data, receipt, receipt.returnedWindow.value.CheckedLen().value, ledger.helperRequests))
      case Err(e) => Err(e);
  }

  /** The receipt of a delivered range states the length of what was delivered. */
  lemma ReturnedLength(answer: Result<RangeResponse, ProviderFailure>, length: u64, data: bytes, receipt: SourceReceipt)
    requires length > 0 && Delivered(answer, 0, length, data, receipt)
    ensures data != [] && receipt.returnedWindow.Some?
    ensures receipt.returnedWindow.value.CheckedLen() == Some(|data|)
  {
    ValidatedWindow(receipt, 0, length);
  }

  method PreviewBytes(world: World, key: bytes, length: u64, budget: InspectionBudget, ghost obj: bytes)
    returns (r: Result<BytePreview, StorageError>)
    modifies world`ticks, world`issued, world`pulled
    ensures r.Ok? ==> InTime(world, old(world.ticks), 4)
    ensures r.Ok? ==> SelectionAt(world.provider, key, old(world.issued)).Some?
    ensures r.Ok? && HonestAt(world.provider, key, old(world.issued), obj) ==> r.value.data == Take(obj, length)
    ensures r.Ok? ==>
      var selection := SelectionAt(world.provider, key, old(world.issued)).value;
      length > 0 && PreviewReceipt(world.provider, selection, old(world.issued) + 1, length, r.value)
    ensures r.Ok? && r.value.data == [] ==> r.value.consumedPayloadBytes == 0 && r.value.helperRequests == 2
    ensures r.Ok? && r.value.data != [] ==>
      (&& length + 1 <= budget.payloadBytes
       && r.value.consumedPayloadBytes == |r.value.data| && r.value.helperRequests == 3)
    ensures (&& ServesAt(world.provider, key, old(world.issued), obj) && (forall k :: !world.expires(k))
             && PreviewRequested(length, budget, 3)) ==>
      if obj == [] || length < budget.payloadBytes then r.Ok? else r == Err(NoRoomForProof(budget))
    ensures RefusedRequest(r, length, budget)
    ensures (&& PreviewRequested(length, budget, 2) && (forall k :: !world.expires(k))
             && BindingError(world.provider, key, old(world.issued)).Some?) ==>
      r == Err(BindingError(world.provider, key, old(world.issued)).value)
    ensures (&& PreviewRequested(length, budget, 2) && (forall k :: !world.expires(k))
             && BindingError(world.provider, key, old(world.issued)).None?) ==>
      var selection := SelectionAt(world.provider, key, old(world.issued)).value;
      var head := world.provider.head(old(world.issued) + 1, selection);
      head.Err? ==> r == Err(FromProvider(head.error))
    ensures world.issued <= old(world.issued) + budget.helperRequests
    ensures world.pulled <= old(world.pulled) + budget.payloadBytes
  {
    hide Honest, Serves;
    if length == 0 { return Err(InvalidArgument); }
    if !ValidBudget(budget) { return Err(InvalidArgument); }
    var ledger := new InspectionLedger(budget, world);
    var valid := ValidatePreviewRequest(length, budget);
    if valid.Err? { return Err(valid.error); }
    if !world.provider.guardedReads { return Err(UnsupportedCapability); }
    var selection := ObserveAndBind(world, ledger, key);
    if selection.Err? { return Err(selection.error); }
    r := PreviewSelected(world, ledger, selection.value, length, obj, old(world.issued));
  }

  /** The same from a selection bound earlier, without observing again. */
  method PreviewBytesSelected(world: World, selection: Selection, length: u64, budget: InspectionBudget,
                              ghost obj: bytes)
    returns (r: Result<BytePreview, StorageError>)
    modifies world`ticks, world`issued, world`pulled
    ensures r.Ok? ==> InTime(world, old(world.ticks), 2)
    ensures r.Ok? && Honest(world.provider, selection, obj, old(world.issued)) ==> r.value.data == Take(obj, length)
    ensures r.Ok? ==> length > 0 && PreviewReceipt(world.provider, selection, old(world.issued), length, r.value)
    ensures r.Ok? && r.value.data == [] ==> r.value.consumedPayloadBytes == 0 && r.value.helperRequests == 1
    ensures r.Ok? && r.value.data != [] ==>
      (&& length + 1 <= budget.payloadBytes
       && r.value.consumedPayloadBytes == |r.value.data| && r.value.helperRequests == 2)
    ensures (&& Serves(world.provider, selection, obj, old(world.issued)) && (forall k :: !world.expires(k))
             && PreviewRequested(length, budget, 2)) ==>
      if obj == [] || length < budget.payloadBytes then r.Ok? else r == Err(NoRoomForProof(budget))
    ensures RefusedRequest(r, length, budget)
    ensures (&& PreviewRequested(length, budget, 1) && (forall k :: !world.expires(k))
             && world.provider.head(old(world.issued), selection).Err?) ==>
      r == Err(FromProvider(world.provider.head(old(world.issued), selection).error))
    ensures world.issued <= old(world.issued) + budget.helperRequests
    ensures world.pulled <= old(world.pulled) + budget.payloadBytes
  {
    hide Honest, Serves;
    if length == 0 { return Err(InvalidArgument); }
    if !ValidBudget(budget) { return Err(InvalidArgument); }
    var ledger := new InspectionLedger(budget, world);
    var valid := ValidatePreviewRequest(length, budget);
    if valid.Err? { return Err(valid.error); }
    r := PreviewSelected(world, ledger, selection, length, obj, old(world.issued));
  }
}
