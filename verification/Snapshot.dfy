/**
 The store under adversarial writers, and the theorem the guarded reads are for: whatever is
 written between calls, an operation speaks of one version's bytes, the one it observed.
 */
module Snapshot {
  import opened Foundation
  import opened Source
  import opened ContentRange
  import opened S3Responses
  import opened GuardedRange
  import opened LineFraming
  import opened Windows
  import opened Ledger
  import opened Inspection
  import Streams

  // ---------------------------------------------------------------- the store

  /** One stored version of a key, with the identity its responses carry. */
  datatype Version = Version(id: Option<bytes>, etag: Option<bytes>, contents: bytes)

  /** Two versions a reader could not tell apart have the same bytes. */
  predicate Distinguishable(v: Version, w: Version) {
    && (v.id.Some? && v.id == w.id && v.id.value != NULL_TOKEN ==> v.contents == w.contents)
    && (v.etag.Some? && v.etag == w.etag && StrongEtag(v.etag.value) ==> v.contents == w.contents)
  }

  /** Version ids name one version; strong validators change with the bytes (RFC 9110, section 8.8.1). */
  ghost predicate Disciplined(versions: seq<Version>) {
    && (forall v <- versions, w <- versions :: Distinguishable(v, w))
    && (forall v <- versions :: |v.contents| <= U64_MAX)
  }

  datatype Store = Store(versions: seq<Version>, current: Option<nat>)

  datatype Action = Put(version: Version) | Delete | Revert(index: nat)

  /** A writer's step. The discipline is assumed of writers: a put that would break it is no step at all. */
  ghost function Apply(s: Store, a: Action): Store {
    match a
    case Put(v) =>
      if Disciplined(s.versions + [v]) then Store(s.versions + [v], Some(|s.versions|)) else s
    case Delete => s.(current := None)
    case Revert(i) => if i < |s.versions| then s.(current := Some(i)) else s
  }

  ghost function ApplyAll(s: Store, actions: seq<Action>): Store
    decreases |actions|
  {
    if actions == [] then s else ApplyAll(Apply(s, actions[0]), actions[1..])
  }

  /** The store at provider call `t`: the writers do `schedule(k)` just before call `k`. */
  ghost function StoreAt(initial: Store, schedule: nat -> seq<Action>, t: nat): Store {
    ApplyAll(if t == 0 then initial else StoreAt(initial, schedule, t - 1), schedule(t))
  }

  lemma {:induction false} ActionsKeepDiscipline(s: Store, actions: seq<Action>)
    requires Disciplined(s.versions)
    ensures Disciplined(ApplyAll(s, actions).versions) && s.versions <= ApplyAll(s, actions).versions
    decreases |actions|
  {
    if actions != [] { ActionsKeepDiscipline(Apply(s, actions[0]), actions[1..]); }
  }

  /** Along every run the discipline holds and no version is ever lost or changed. */
  lemma {:induction false} RunKeepsDiscipline(initial: Store, schedule: nat -> seq<Action>, t: nat)
    requires Disciplined(initial.versions)
    ensures Disciplined(StoreAt(initial, schedule, t).versions)
    ensures forall u | 0 <= u <= t :: StoreAt(initial, schedule, u).versions <= StoreAt(initial, schedule, t).versions
  {
    if t == 0 {
      ActionsKeepDiscipline(initial, schedule(0));
    } else {
      RunKeepsDiscipline(initial, schedule, t - 1);
      ActionsKeepDiscipline(StoreAt(initial, schedule, t - 1), schedule(t));
    }
  }

  /** Versions seen at any two calls of a run are distinguishable. */
  lemma SeenInOneRun(initial: Store, schedule: nat -> seq<Action>, t: nat, u: nat, v: Version, w: Version)
    requires Disciplined(initial.versions)
    requires v in StoreAt(initial, schedule, t).versions && w in StoreAt(initial, schedule, u).versions
    ensures Distinguishable(v, w) && |v.contents| <= U64_MAX
  {
    hide StoreAt;
    RunKeepsDiscipline(initial, schedule, if t < u then u else t);
  }

  // ---------------------------------------------------------------- the server

  /** Everything a server might answer, by call number and request. */
  datatype Server = Server(
    observe: (nat, bytes) -> Result<HttpResponse, ProviderFailure>,
    head: (nat, Selection) -> Result<HttpResponse, ProviderFailure>,
    get: (nat, Selection, u64, u64) -> Result<HttpResponse, ProviderFailure>)

  /** The response's identity headers, where present, are those of `v`. */
  predicate IdentifiesVersion(r: HttpResponse, v: Version) {
    (r.versionId.Some? ==> r.versionId == v.id) && (r.etag.Some? ==> r.etag == v.etag)
  }

  predicate DescribesHead(r: HttpResponse, v: Version) {
    IdentifiesVersion(r, v) && (r.contentLength.Some? ==> r.contentLength.value == |v.contents|)
  }

  /** The body's bytes, as far as they come, are those of `v` in the window the response states. */
  ghost predicate DescribesRange(r: HttpResponse, v: Version) {
    && IdentifiesVersion(r, v)
    && (ParseContentRange(r.contentRange).Ok? ==>
          var range := ParseContentRange(r.contentRange).value;
          && (range.totalSize.Some? ==> range.totalSize.value == |v.contents|)
          && range.window.end < |v.contents|
          && forall i | 0 <= i < |Streams.Data(r.body)| && range.window.start + i <= range.window.end ::
               Streams.Data(r.body)[i] == v.contents[range.window.start + i])
  }

  /**
   Each response is true of some version the store has held by then, not necessarily of the
   one asked for: the server may ignore the condition, the version or the range it was sent.
   */
  ghost predicate Truthful(server: Server, initial: Store, schedule: nat -> seq<Action>) {
    && (forall t, key :: server.observe(t, key).Ok? ==>
          exists v <- StoreAt(initial, schedule, t).versions :: DescribesHead(server.observe(t, key).value, v))
    && (forall t, sel :: server.head(t, sel).Ok? ==>
          exists v <- StoreAt(initial, schedule, t).versions :: DescribesHead(server.head(t, sel).value, v))
    && (forall t, sel, offset: u64, length: u64 :: server.get(t, sel, offset, length).Ok? ==>
          exists v <- StoreAt(initial, schedule, t).versions ::
            DescribesRange(server.get(t, sel, offset, length).value, v))
  }

  /** The version a key has now, if it has one. */
  ghost function CurrentVersion(s: Store): Option<Version> {
    if s.current.Some? && s.current.value < |s.versions| then Some(s.versions[s.current.value]) else None
  }

  /** A server whose observations, unlike its other answers, are never out of date. */
  ghost predicate ObservesCurrent(server: Server, initial: Store, schedule: nat -> seq<Action>) {
    forall t, key :: server.observe(t, key).Ok? ==>
      && CurrentVersion(StoreAt(initial, schedule, t)).Some?
      && DescribesHead(server.observe(t, key).value, CurrentVersion(StoreAt(initial, schedule, t)).value)
  }

  /** The S3 provider over a server. */
  function S3Provider(server: Server, target: bytes): Provider {
    Provider(true, target,
             (t: nat, key: bytes) => ObserveSource(key, server.observe(t, key)),
             (t: nat, sel: Selection) => GuardedHead(target, sel, server.head(t, sel)),
             (t: nat, sel: Selection, offset: u64, length: u64) =>
               GuardedGetRange(target, sel, offset, length, server.get(t, sel, offset, length)))
  }

  // ---------------------------------------------------------------- what is selected

  /** Observation `at` finds the key, and its response carries a version id that can be selected by. */
  predicate ObservedById(server: Server, key: bytes, at: nat) {
    && key != [] && server.observe(at, key).Ok? && !server.observe(at, key).value.deleteMarker
    && server.observe(at, key).value.versionId.Some?
    && ValidNativeVersion(server.observe(at, key).value.versionId.value)
  }

  /** It carries none, or "null", and a strong entity tag. */
  predicate ObservedByTag(server: Server, key: bytes, at: nat) {
    && key != [] && server.observe(at, key).Ok? && !server.observe(at, key).value.deleteMarker
    && (server.observe(at, key).value.versionId == None || server.observe(at, key).value.versionId == Some(NULL_TOKEN))
    && server.observe(at, key).value.etag.Some? && StrongEtag(server.observe(at, key).value.etag.value)
  }

  /** The selection read is the response's version id, failing that its strong tag, and nothing else. */
  lemma ObservationSelects(server: Server, target: bytes, key: bytes, at: nat)
    ensures ObservedById(server, key, at) ==>
      SelectionAt(S3Provider(server, target), key, at)
      == Some(Selection(target, key, NativeVersion(server.observe(at, key).value.versionId.value)))
    ensures ObservedByTag(server, key, at) ==>
      SelectionAt(S3Provider(server, target), key, at)
      == Some(Selection(target, key, ValidatorMatch(server.observe(at, key).value.etag.value)))
    ensures !ObservedById(server, key, at) && !ObservedByTag(server, key, at) ==>
      SelectionAt(S3Provider(server, target), key, at) == None
  {
    assert LowerCase(NULL_TOKEN) == NULL_TOKEN;
    var p := S3Provider(server, target);
    assert p.observe(at, key) == ObserveSource(key, server.observe(at, key));
    if p.observe(at, key).Ok? { BindsExactly(p, key, p.observe(at, key).value); }
  }

  // ---------------------------------------------------------------- one version

  predicate CarriesToken(v: Version, selector: Selector) {
    match selector
    case NativeVersion(token) => v.id == Some(token)
    case ValidatorMatch(token) => v.etag == Some(token)
  }

  /** A response identified by the token of an observed version is about the same bytes. */
  lemma SameBytes(selector: Selector, r: HttpResponse, v: Version, w: Version)
    requires ValidSelector(selector) && Identified(selector, r) && IdentifiesVersion(r, w)
    requires CarriesToken(v, selector)
    requires Distinguishable(v, w)
    ensures v.contents == w.contents
  {
  }

  /** What the binding takes from the observation is the observed version's own token. */
  lemma BoundToken(p: Provider, key: bytes, answer: Result<HttpResponse, ProviderFailure>, v: Version)
    requires ObserveSource(key, answer).Ok? && BindObserved(p, key, ObserveSource(key, answer).value).Ok?
    requires answer.Ok? && DescribesHead(answer.value, v)
    ensures var sel := BindObserved(p, key, ObserveSource(key, answer).value).value;
      && ValidSelector(sel.selector)
      && CarriesToken(v, sel.selector)
  {
  }

  /** A range the provider lets through is true of the selected version. */
  lemma RangeIsTruthful(target: bytes, sel: Selection, offset: u64, length: u64, r: HttpResponse, w: Version)
    requires length > 0 && GuardedGetRange(target, sel, offset, length, Ok(r)).Ok? && DescribesRange(r, w)
    ensures TruthfulRange(GuardedGetRange(target, sel, offset, length, Ok(r)).value, w.contents)
  {
    hide GuardedGetRange, Streams.Data, Streams.Declared, ParseContentRange, ValidateGuardedRangeReceipt, Identified,
      ReceiptOf, IdentifiesVersion, Streams.Ending;
    AcceptedRangeValidates(target, sel, offset, length, r);
    Streams.DeclaredOutcome(r.body, r.contentLength.value);
  }

  /** Snapshot safety: every answer about the bound selection is true of the observed version. */
  lemma ObservedVersionIsRead(server: Server, target: bytes, initial: Store, schedule: nat -> seq<Action>,
                              key: bytes, at: nat) returns (v: Version)
    requires Disciplined(initial.versions) && Truthful(server, initial, schedule)
    requires SelectionAt(S3Provider(server, target), key, at).Some?
    ensures v in StoreAt(initial, schedule, at).versions
    ensures server.observe(at, key).Ok? && DescribesHead(server.observe(at, key).value, v)
    ensures ObservesCurrent(server, initial, schedule) ==> CurrentVersion(StoreAt(initial, schedule, at)) == Some(v)
    ensures HonestAt(S3Provider(server, target), key, at, v.contents)
  {
    hide StoreAt, GuardedGetRange, TruthfulRange, DescribesRange;
    var p := S3Provider(server, target);
    var sel := SelectionAt(p, key, at).value;
    if ObservesCurrent(server, initial, schedule) {
      v := CurrentVersion(StoreAt(initial, schedule, at)).value;
    } else {
      v :| v in StoreAt(initial, schedule, at).versions && DescribesHead(server.observe(at, key).value, v);
    }
    BoundToken(p, key, server.observe(at, key), v);
    SeenInOneRun(initial, schedule, at, at, v, v);
    forall t | p.head(t, sel).Ok? && p.head(t, sel).value.totalSize.Some?
      ensures p.head(t, sel).value.totalSize.value == |v.contents|
    {
      var r := server.head(t, sel).value;
      var w: Version :| w in StoreAt(initial, schedule, t).versions && DescribesHead(r, w);
      SeenInOneRun(initial, schedule, at, t, v, w);
      SameBytes(sel.selector, r, v, w);
    }
    forall t, offset: u64, length: u64 | p.range(t, sel, offset, length).Ok?
      ensures TruthfulRange(p.range(t, sel, offset, length).value, v.contents)
    {
      RangeNeedsAnswer(target, sel, offset, length, server.get(t, sel, offset, length));
      var r := server.get(t, sel, offset, length).value;
      var w: Version :| w in StoreAt(initial, schedule, t).versions && DescribesRange(r, w);
      SeenInOneRun(initial, schedule, at, t, v, w);
      AcceptedRangeValidates(target, sel, offset, length, r);
      RangeIdentifies(r, w);
      SameBytes(sel.selector, r, v, w);
      RangeIsTruthful(target, sel, offset, length, r, w);
    }
  }

  lemma RangeNeedsAnswer(target: bytes, sel: Selection, offset: u64, length: u64,
                         answer: Result<HttpResponse, ProviderFailure>)
    requires GuardedGetRange(target, sel, offset, length, answer).Ok?
    ensures answer.Ok? && length > 0
  {
  }

  lemma RangeIdentifies(r: HttpResponse, w: Version)
    requires DescribesRange(r, w)
    ensures IdentifiesVersion(r, w)
  {
  }

  /** At call `t` the server answers every proper request about `v` in full, however chunked. */
  ghost predicate AnswersAt(server: Server, sel: Selection, v: Version, t: nat) {
    && server.head(t, sel).Ok? && AnswersHead(server.head(t, sel).value, sel, v)
    && (forall offset: u64, length: u64 ::
          if InObject(v.contents, offset, length)
          then
            && server.get(t, sel, offset, length).Ok?
            && AnswersRange(server.get(t, sel, offset, length).value, sel, offset, length, v)
          else server.get(t, sel, offset, length).Err?)
  }

  /** It does so at every call from `from` on. */
  ghost predicate ServesVersion(server: Server, sel: Selection, v: Version, from: nat) {
    forall t :: t >= from ==> AnswersAt(server, sel, v, t)
  }

  predicate AnswersHead(r: HttpResponse, sel: Selection, v: Version) {
    !r.deleteMarker && Identified(sel.selector, r) && r.contentLength.Some? && r.contentLength.value == |v.contents|
  }

  ghost predicate AnswersRange(r: HttpResponse, sel: Selection, offset: u64, length: u64, v: Version)
    requires offset < |v.contents|
  {
    && ProperRange(sel, offset, length, r)
    && ParseContentRange(r.contentRange).value.totalSize == Some(|v.contents|)
    && Streams.Data(r.body) == v.contents[offset..Min(offset + length, |v.contents|)]
    && Streams.Ending(r.body) == Streams.CleanEof
  }

  lemma AnsweredInFull(target: bytes, sel: Selection, offset: u64, length: u64, r: HttpResponse, v: Version)
    requires ValidFor(sel, target, sel.key) && sel.key != [] && |v.contents| <= U64_MAX
    requires InObject(v.contents, offset, length) && AnswersRange(r, sel, offset, length, v)
    ensures GuardedGetRange(target, sel, offset, length, Ok(r)).Ok?
    ensures FullRange(GuardedGetRange(target, sel, offset, length, Ok(r)).value, v.contents, offset, length)
  {
    hide GuardedGetRange, ValidateGuardedRangeReceipt, Identified, ValidSelector, ParseContentRange,
      Streams.Data, Streams.Ending, Streams.Declared;
    RangeAcceptedExactly(target, sel, offset, length, r);
    AcceptedRangeValidates(target, sel, offset, length, r);
    var accepted := GuardedGetRange(target, sel, offset, length, Ok(r)).value;
    ReceiptAcceptedExactly(accepted.receipt, offset, length, r.contentLength.value);
    Streams.DeclaredOutcome(r.body, r.contentLength.value);
  }

  lemma HeadInFull(target: bytes, sel: Selection, r: HttpResponse, v: Version)
    requires ValidFor(sel, target, sel.key) && sel.key != [] && AnswersHead(r, sel, v)
    ensures GuardedHead(target, sel, Ok(r)).Ok? && GuardedHead(target, sel, Ok(r)).value.totalSize == Some(|v.contents|)
  {
    IdentityAccepted(sel.key, sel.selector, r, None, None);
  }

  /** What total success asks of a provider, the S3 provider gives over a server that is left alone. */
  lemma QuietServerServes(server: Server, target: bytes, sel: Selection, v: Version, from: nat)
    requires ValidFor(sel, target, sel.key) && sel.key != [] && |v.contents| <= U64_MAX
    requires ServesVersion(server, sel, v, from)
    ensures Serves(S3Provider(server, target), sel, v.contents, from)
  {
    hide GuardedGetRange, GuardedHead, ValidFor, FullRange, AnswersRange, AnswersHead;
    var p := S3Provider(server, target);
    forall t | t >= from ensures p.head(t, sel).Ok? && p.head(t, sel).value.totalSize == Some(|v.contents|) {
      assert AnswersAt(server, sel, v, t);
      HeadInFull(target, sel, server.head(t, sel).value, v);
    }
    forall t, offset: u64, length: u64 | t >= from
      ensures if InObject(v.contents, offset, length)
              then
                && p.range(t, sel, offset, length).Ok?
                && FullRange(p.range(t, sel, offset, length).value, v.contents, offset, length)
              else p.range(t, sel, offset, length).Err?
    {
      assert AnswersAt(server, sel, v, t);
      if InObject(v.contents, offset, length) {
        AnsweredInFull(target, sel, offset, length, server.get(t, sel, offset, length).value, v);
      } else if p.range(t, sel, offset, length).Ok? {
        RangeNeedsAnswer(target, sel, offset, length, server.get(t, sel, offset, length));
      }
    }
  }

  /** The server goes on answering for every version it has stored, when asked for it by its id. */
  ghost predicate RetainsVersions(server: Server, initial: Store, schedule: nat -> seq<Action>) {
    forall t, sel: Selection, v: Version ::
      v in StoreAt(initial, schedule, t).versions && sel.selector.NativeVersion? && v.id == Some(sel.selector.token) ==>
        AnswersAt(server, sel, v, t)
  }

  /** A version observed by its id is served from then on, whatever is put, deleted or reverted meanwhile. */
  lemma RetainedVersionServes(server: Server, target: bytes, initial: Store, schedule: nat -> seq<Action>,
                              key: bytes, at: nat, v: Version)
    requires Disciplined(initial.versions) && RetainsVersions(server, initial, schedule)
    requires ObservedById(server, key, at) && DescribesHead(server.observe(at, key).value, v)
    requires v in StoreAt(initial, schedule, at).versions
    ensures ServesAt(S3Provider(server, target), key, at, v.contents)
  {
    hide StoreAt, AnswersAt, SelectionAt, Serves, DescribesRange;
    ObservationSelects(server, target, key, at);
    var sel := SelectionAt(S3Provider(server, target), key, at).value;
    SeenInOneRun(initial, schedule, at, at, v, v);
    forall t | t >= at ensures AnswersAt(server, sel, v, t) {
      RunKeepsDiscipline(initial, schedule, t);
      assert StoreAt(initial, schedule, at).versions <= StoreAt(initial, schedule, t).versions;
    }
    QuietServerServes(server, target, sel, v, at);
  }

  // ---------------------------------------------------------------- whole operations

  /** An operation's world is the S3 provider over a truthful server and any schedule of writers. */
  ghost predicate Running(world: World, server: Server, target: bytes, initial: Store, schedule: nat -> seq<Action>) {
    world.provider == S3Provider(server, target) && Disciplined(initial.versions) && Truthful(server, initial, schedule)
  }

  /** Observation `at` tells of `v`, a version held by then; the current one, if observations are current. */
  ghost predicate Observed(v: Version, server: Server, initial: Store, schedule: nat -> seq<Action>,
                           key: bytes, at: nat)
  {
    && server.observe(at, key).Ok? && DescribesHead(server.observe(at, key).value, v)
    && v in StoreAt(initial, schedule, at).versions
    && (ObservesCurrent(server, initial, schedule) ==> CurrentVersion(StoreAt(initial, schedule, at)) == Some(v))
  }

  /** The operation that starts at call `at` observes a version id, and the server retains its versions. */
  ghost predicate Retained(server: Server, initial: Store, schedule: nat -> seq<Action>, key: bytes, at: nat) {
    ObservedById(server, key, at) && RetainsVersions(server, initial, schedule)
  }

  /** The version a run starting now is about; any version at all when nothing can be bound. */
  ghost method ObservedVersion(world: World, server: Server, target: bytes, initial: Store,
                               schedule: nat -> seq<Action>, key: bytes) returns (v: Version)
    requires Running(world, server, target, initial, schedule)
    ensures HonestAt(world.provider, key, world.issued, v.contents)
    ensures SelectionAt(world.provider, key, world.issued).Some? ==>
      Observed(v, server, initial, schedule, key, world.issued)
    ensures Retained(server, initial, schedule, key, world.issued) ==>
      && Observed(v, server, initial, schedule, key, world.issued)
      && ServesAt(world.provider, key, world.issued, v.contents)
  {
    hide StoreAt, SelectionAt, Serves, Honest, RetainsVersions, DescribesHead;
    ObservationSelects(server, target, key, world.issued);
    if SelectionAt(world.provider, key, world.issued).Some? {
      v := ObservedVersionIsRead(server, target, initial, schedule, key, world.issued);
      if Retained(server, initial, schedule, key, world.issued) {
        RetainedVersionServes(server, target, initial, schedule, key, world.issued, v);
      }
    } else {
      v := Version(None, None, []);
    }
  }

  method HeadUnderWriters(world: World, ghost server: Server, ghost target: bytes, ghost initial: Store,
                          ghost schedule: nat -> seq<Action>, key: bytes, n: u64, options: LineOptions)
    returns (r: Result<LineResult, StorageError>, ghost v: Version)
    requires Running(world, server, target, initial, schedule)
    modifies world`ticks, world`issued, world`pulled
    ensures r.Ok? ==> Observed(v, server, initial, schedule, key, old(world.issued))
    ensures r.Ok? ==> r.value == BuildLineResult(Take(Lines(v.contents, 0), n), |v.contents|, ForwardStream)
    ensures (Retained(server, initial, schedule, key, old(world.issued)) && (forall k :: !world.expires(k))
             && TextObject(v.contents) && ValidBudget(LineBudget(n, options))) ==>
      && Observed(v, server, initial, schedule, key, old(world.issued))
      && if HeadInReach(v.contents, n) then r.Ok? else r == Err(OutOfReach(|v.contents|))
  {
    v := ObservedVersion(world, server, target, initial, schedule, key);
    r := HeadLinesWithOptions(world, key, n, options, v.contents);
  }

  /** A forced tail is exact; any other is unless its last response hid the total and no line feed ends the object. */
  method TailUnderWriters(world: World, ghost server: Server, ghost target: bytes, ghost initial: Store,
                          ghost schedule: nat -> seq<Action>, key: bytes, n: u64, options: LineOptions)
    returns (r: Result<LineResult, StorageError>, ghost v: Version)
    requires Running(world, server, target, initial, schedule)
    modifies world`ticks, world`issued, world`pulled
    ensures r.Ok? ==> Observed(v, server, initial, schedule, key, old(world.issued))
    ensures r.Ok? ==>
      var obj := v.contents;
      var told := TailToldSize(world.provider, key, old(world.issued), |obj|, options.forceStream);
      && r.value == UsableTail(obj, told, n, options.forceStream)
      && (r.value == ExactTail(obj, n, options.forceStream) <==> obj == [] || obj[|obj| - 1] == LF || told)
      && (options.forceStream || TellsTotalsAt(world.provider, key, old(world.issued)) ==>
            r.value == ExactTail(obj, n, options.forceStream))
    ensures (Retained(server, initial, schedule, key, old(world.issued)) && (forall k :: !world.expires(k))
             && TextObject(v.contents) && ValidBudget(LineBudget(n, options)) && !CompressedRefused(key, options)) ==>
      && Observed(v, server, initial, schedule, key, old(world.issued))
      && r == if TailAnswers(v.contents, true, n, options.forceStream)
              then Ok(ExactTail(v.contents, n, options.forceStream)) else Err(OutOfReach(|v.contents|))
  {
    v := ObservedVersion(world, server, target, initial, schedule, key);
    r := TailLinesWithOptions(world, key, n, options, v.contents);
  }

  method MidUnderWriters(world: World, ghost server: Server, ghost target: bytes, ghost initial: Store,
                         ghost schedule: nat -> seq<Action>, key: bytes, n: u64, options: LineOptions)
    returns (r: Result<LineResult, StorageError>, ghost v: Version)
    requires Running(world, server, target, initial, schedule)
    modifies world`ticks, world`issued, world`pulled
    ensures r.Ok? ==> Observed(v, server, initial, schedule, key, old(world.issued))
    ensures r.Ok? ==>
      var obj := v.contents;
      r.value == BuildLineResult(Take(MidLines(obj), n), |obj|, MidStrategy(obj, options.forceStream))
    ensures (Retained(server, initial, schedule, key, old(world.issued)) && (forall k :: !world.expires(k))
             && TextObject(v.contents) && ValidBudget(LineBudget(n, options)) && !CompressedRefused(key, options)) ==>
      && Observed(v, server, initial, schedule, key, old(world.issued))
      && if MidAnswers(v.contents, n, options.forceStream) then r.Ok? else r == Err(OutOfReach(|v.contents|))
  {
    v := ObservedVersion(world, server, target, initial, schedule, key);
    r := MidLinesWithOptions(world, key, n, options, v.contents);
  }

  method CountUnderWriters(world: World, ghost server: Server, ghost target: bytes, ghost initial: Store,
                           ghost schedule: nat -> seq<Action>, key: bytes)
    returns (r: Result<u64, StorageError>, ghost v: Version)
    requires Running(world, server, target, initial, schedule)
    modifies world`ticks, world`issued, world`pulled
    ensures r.Ok? ==> Observed(v, server, initial, schedule, key, old(world.issued))
    ensures r.Ok? ==> r.value == |Lines(v.contents, 0)|
    ensures Retained(server, initial, schedule, key, old(world.issued)) && (forall k :: !world.expires(k)) ==>
      && Observed(v, server, initial, schedule, key, old(world.issued))
      && (r.Ok? <==> |v.contents| <= MIB && TextObject(v.contents))
  {
    v := ObservedVersion(world, server, target, initial, schedule, key);
    r := CountLines(world, key, v.contents);
  }

  method PreviewUnderWriters(world: World, ghost server: Server, ghost target: bytes, ghost initial: Store,
                             ghost schedule: nat -> seq<Action>, key: bytes, length: u64, budget: InspectionBudget)
    returns (r: Result<BytePreview, StorageError>, ghost v: Version)
    requires Running(world, server, target, initial, schedule)
    modifies world`ticks, world`issued, world`pulled
    ensures r.Ok? ==> Observed(v, server, initial, schedule, key, old(world.issued))
    ensures r.Ok? ==> r.value.data == Take(v.contents, length)
    ensures (Retained(server, initial, schedule, key, old(world.issued)) && (forall k :: !world.expires(k))
             && PreviewRequested(length, budget, 3)) ==>
      && Observed(v, server, initial, schedule, key, old(world.issued))
      && (r.Ok? <==> v.contents == [] || length < budget.payloadBytes)
  {
    v := ObservedVersion(world, server, target, initial, schedule, key);
    r := PreviewBytes(world, key, length, budget, v.contents);
  }
}
