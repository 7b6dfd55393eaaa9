/** One guarded range read: reserve, ask, check the receipt, drain, prove the end, release. */
module GuardedRange {
  import opened Foundation
  import opened Source
  import opened Ledger
  import Streams

  function Invalid(): StorageError {
    Io(Streams.InvalidData)
  }

  /** The length of the window a receipt proves, for a request of `length` bytes at `offset`. */
  function ValidateGuardedRangeReceipt(r: SourceReceipt, offset: u64, length: u64): Result<u64, StorageError>
    requires length > 0
  {
    if offset + length - 1 > U64_MAX then Err(Invalid())
    else
      var requestedEnd: u64 := offset + length - 1;
      if r.requestedWindow != Some(ByteWindow(offset, requestedEnd)) then Err(Invalid())
      else if r.returnedWindow == None then Err(Invalid())
      else if r.totalSize.Some? && offset >= r.totalSize.value then Err(Invalid())
      else
        var expectedEnd: u64 := if r.totalSize.Some? then Min(requestedEnd, r.totalSize.value - 1) else requestedEnd;
        var returned := r.returnedWindow.value;
        if returned.start != offset || returned.end != expectedEnd then Err(Invalid())
        else match returned.CheckedLen() case Some(n) => Ok(n) case None => Err(Invalid())
  }

  /** A validated window starts where asked and is short only at a proven end of the object. */
  lemma ValidatedWindow(r: SourceReceipt, offset: u64, length: u64)
    requires length > 0 && ValidateGuardedRangeReceipt(r, offset, length).Ok?
    ensures var n := ValidateGuardedRangeReceipt(r, offset, length).value;
      && 1 <= n <= length && offset + n - 1 <= U64_MAX
      && r.returnedWindow == Some(ByteWindow(offset, offset + n - 1))
      && (r.totalSize == None ==> n == length && !AtEof(r))
      && (r.totalSize.Some? ==>
            && offset + n <= r.totalSize.value
            && n == Min(length, r.totalSize.value - offset)
            && (AtEof(r) <==> offset + n == r.totalSize.value))
  {
  }

  /** A window of `n` bytes at `offset` is the whole request, or is cut by a known end of the object. */
  predicate ProvenLength(offset: u64, length: u64, total: Option<u64>, n: nat) {
    && n > 0
    && (total == None ==> n == length)
    && (total.Some? ==> offset < total.value && n == Min(length, total.value - offset))
  }

  /** A receipt is accepted at exactly the length its windows and its total prove. */
  lemma ReceiptAcceptedExactly(r: SourceReceipt, offset: u64, length: u64, n: u64)
    requires length > 0
    ensures ValidateGuardedRangeReceipt(r, offset, length) == Ok(n) <==>
      && offset + length - 1 <= U64_MAX
      && ProvenLength(offset, length, r.totalSize, n)
      && r.requestedWindow == Some(ByteWindow(offset, offset + length - 1))
      && r.returnedWindow == Some(ByteWindow(offset, offset + n - 1))
  {
  }

  /** What a successful read stands for: a validated receipt and all of the reader's bytes. */
  ghost predicate Delivered(answer: Result<RangeResponse, ProviderFailure>, offset: u64, length: u64,
                            data: bytes, receipt: SourceReceipt)
    requires length > 0
  {
    && answer.Ok? && answer.value.receipt == receipt
    && ValidateGuardedRangeReceipt(receipt, offset, length) == Ok(|data|)
    && Streams.Data(answer.value.script) == data
    && Streams.Ending(answer.value.script) == Streams.CleanEof
  }

  /** Some read of the answer succeeds, and so, its reader being what it is, every undisturbed one. */
  ghost predicate Deliverable(answer: Result<RangeResponse, ProviderFailure>, offset: u64, length: u64)
    requires length > 0
  {
    exists data, receipt :: Delivered(answer, offset, length, data, receipt)
  }

  /** Every request that lies within `obj` is answered in full, from call `from` on; the total may be left untold. */
  ghost predicate DeliversWithin(p: Provider, selection: Selection, obj: bytes, from: nat) {
    forall t, offset: u64, length: u64 :: t >= from && 0 < length && offset + length <= |obj| ==>
      Deliverable(p.range(t, selection, offset, length), offset, length)
  }

  lemma ServesDelivers(p: Provider, selection: Selection, obj: bytes, from: nat)
    requires Serves(p, selection, obj, from)
    ensures DeliversWithin(p, selection, obj, from)
  {
    forall t, offset: u64, length: u64 | t >= from && 0 < length && offset + length <= |obj|
      ensures Deliverable(p.range(t, selection, offset, length), offset, length)
    {
      assert InObject(obj, offset, length);
      FullRangeDelivers(p.range(t, selection, offset, length).value, offset, length, obj);
    }
  }

  /** What an honest answer delivers is the object's own bytes, up to its end. */
  lemma DeliveredIsObject(answer: Result<RangeResponse, ProviderFailure>, offset: u64, length: u64,
                          data: bytes, receipt: SourceReceipt, obj: bytes)
    requires length > 0 && Delivered(answer, offset, length, data, receipt)
    requires TruthfulRange(answer.value, obj)
    ensures data != [] && offset + |data| <= |obj| && data == obj[offset..offset + |data|]
    ensures |data| == Min(length, |obj| - offset)
    ensures AtEof(receipt) <==> receipt.totalSize.Some? && offset + |data| == |obj|
  {
    ValidatedWindow(receipt, offset, length);
  }

  lemma FullRangeDelivers(answer: RangeResponse, offset: u64, length: u64, obj: bytes)
    requires length > 0 && offset < |obj| <= U64_MAX && FullRange(answer, obj, offset, length)
    ensures Delivered(Ok(answer), offset, length, obj[offset..Min(offset + length, |obj|)], answer.receipt)
  {
  }

  /** Errors a range read can raise on its own account, given the room it started with. */
  predicate RangeError(e: StorageError, payloadRoom: int, requestRoom: int, length: u64) {
    match e
    case LimitExceeded(Deadline, _, _) => true
    case LimitExceeded(PayloadBytes, _, _) => length + 1 > payloadRoom
    case LimitExceeded(Requests, _, _) => requestRoom < 1
    case LimitExceeded(_, _, _) => false
    case UnsupportedCapability => false
    case EncodingRejected => false
    case InvalidArgument => length == U64_MAX
    case _ => true
  }

  /** Want of payload, then want of requests, is refused as such before anything is asked. */
  predicate RefusedForRoom<T>(r: Result<T, StorageError>, payload: nat, requests: nat,
                              budget: InspectionBudget, length: u64)
  {
    && (payload + length + 1 > budget.payloadBytes ==>
          r == Err(LimitExceeded(PayloadBytes, budget.payloadBytes, Min(payload + length + 1, U64_MAX))))
    && (payload + length + 1 <= budget.payloadBytes && requests + 1 > budget.helperRequests ==>
          r == Err(LimitExceeded(Requests, budget.helperRequests, requests + 1)))
  }

  /** Drains exactly `capacity` bytes; the reader may split them as it likes. */
  method Drain(world: World, ledger: InspectionLedger, body: Streams.Body, capacity: nat)
    returns (r: Result<bytes, StorageError>)
    requires ledger.Covers(world) && ValidBudget(ledger.budget)
    requires world.pulled + capacity + 1 <= ledger.basePulled + ledger.payloadBytes
    modifies body, world`ticks, world`pulled
    ensures ledger.Covers(world)
    ensures r.Ok? ==> world.pulled == old(world.pulled) + capacity
    ensures world.pulled <= old(world.pulled) + capacity + 1
    ensures r.Ok? ==> InTime(world, old(world.ticks), 1)
    ensures r.Ok? ==> |r.value| == capacity && Streams.Data(old(body.script)) == r.value
    ensures r.Ok? ==> Streams.Ending(old(body.script)) == Streams.CleanEof
    ensures r.Err? ==> r.error.Io? || r.error == ledger.Late()
    ensures (|Streams.Data(old(body.script))| == capacity && Streams.Ending(old(body.script)) == Streams.CleanEof
             && (forall k :: !world.expires(k))) ==> r.Ok?
  {
    hide Streams.Data, Streams.Ending, Streams.Weight, Streams.Awaited, Streams.PollScript;
    var scratch := if Min(ledger.budget.chunkSize, capacity) == 0 then 1 else Min(ledger.budget.chunkSize, capacity);
    var data: bytes := [];
    while |data| < capacity
      invariant |data| <= capacity && world.pulled == old(world.pulled) + |data|
      invariant InTime(world, old(world.ticks), 0)
      invariant Streams.Data(old(body.script)) == data + Streams.Data(body.script)
      invariant Streams.Ending(old(body.script)) == Streams.Ending(body.script)
    {
      var due := ledger.CheckDeadline(world);
      if due.Err? { return Err(due.error); }
      var allowed := Min(capacity - |data|, scratch);
      due := ledger.CheckDeadline(world);
      if due.Err? { return Err(due.error); }
      ghost var before := body.script;
      Streams.AwaitedStep(before, allowed);
      var read := world.Pull(body, allowed, ledger);
      if read.Failed? { return Err(Io(read.kind)); }
      if read.data == [] { return Err(Io(Streams.UnexpectedEof)); }
      data := data + read.data;
    }
    var due := ledger.CheckDeadline(world);
    if due.Err? { return Err(due.error); }
    Streams.AwaitedStep(body.script, 1);
    var extra := world.Pull(body, 1, ledger);
    if extra.Failed? { return Err(Io(extra.kind)); }
    if extra.data != [] { return Err(Io(Streams.InvalidData)); }
    return Ok(data);
  }

  /** Reserving the length and its proof byte, asking, and checking the receipt of the answer. */
  method AskForRange(world: World, ledger: InspectionLedger, selection: Selection, offset: u64, length: u64)
    returns (r: Result<RangeResponse, StorageError>)
    requires ledger.Covers(world) && 0 < length < U64_MAX
    modifies ledger`payloadBytes, ledger`helperRequests, world`ticks, world`issued
    ensures ledger.Covers(world) && world.issued <= old(world.issued) + 1
    ensures ledger.payloadBytes <= old(ledger.payloadBytes) + length + 1
    ensures r.Ok? ==> world.pulled + length + 1 <= ledger.basePulled + ledger.payloadBytes
    ensures r.Ok? ==> ledger.payloadBytes == old(ledger.payloadBytes) + length + 1
    ensures r.Ok? ==> ledger.helperRequests == old(ledger.helperRequests) + 1 && world.issued == old(world.issued) + 1
    ensures r.Ok? ==> InTime(world, old(world.ticks), 3)
    ensures r.Ok? ==> world.provider.range(old(world.issued), selection, offset, length) == Ok(r.value)
    ensures r.Ok? ==> ValidateGuardedRangeReceipt(r.value.receipt, offset, length).Ok?
    ensures (forall k :: !world.expires(k)) ==>
      RefusedForRoom(r, old(ledger.payloadBytes), old(ledger.helperRequests), ledger.budget, length)
    ensures r.Err? ==> RangeError(r.error, ledger.budget.payloadBytes - old(ledger.payloadBytes),
                                  ledger.budget.helperRequests - old(ledger.helperRequests), length)
    ensures (&& old(ledger.payloadBytes) + length + 1 <= ledger.budget.payloadBytes
             && old(ledger.helperRequests) < ledger.budget.helperRequests && (forall k :: !world.expires(k))
             && Deliverable(world.provider.range(old(world.issued), selection, offset, length), offset, length))
            ==> r.Ok?
  {
    hide Streams.Data, Streams.Ending;
    var step := ledger.AdmitPayload(length + 1, world);
    if step.Err? { return Err(step.error); }
    step := ledger.Request(world);
    if step.Err? { return Err(step.error); }
    step := ledger.CheckDeadline(world);
    if step.Err? { return Err(step.error); }
    var response := world.GetRange(selection, offset, length, ledger);
    if response.Err? { return Err(FromProvider(response.error)); }
    var returned := ValidateGuardedRangeReceipt(response.value.receipt, offset, length);
    if returned.Err? { return Err(returned.error); }
    return Ok(response.value);
  }

  method GuardedRangeBytes(world: World, ledger: InspectionLedger, selection: Selection, offset: u64, length: u64)
    returns (r: Result<(bytes, SourceReceipt), StorageError>)
    requires ledger.Covers(world) && ValidBudget(ledger.budget)
    modifies ledger`payloadBytes, ledger`helperRequests, world`ticks, world`issued, world`pulled
    ensures ledger.Covers(world)
    ensures r.Ok? && length > 0 ==> Delivered(world.provider.range(old(world.issued), selection, offset, length),
                                              offset, length, r.value.0, r.value.1)
    ensures r.Ok? && length > 0 ==> InTime(world, old(world.ticks), 4)
    ensures r.Ok? ==> |r.value.0| <= length && ledger.payloadBytes == old(ledger.payloadBytes) + |r.value.0|
    ensures r.Ok? && length > 0 ==> old(ledger.payloadBytes) + length + 1 <= ledger.budget.payloadBytes
    ensures r.Ok? ==> ledger.helperRequests == old(ledger.helperRequests) + (if length == 0 then 0 else 1)
    ensures r.Ok? && length > 0 ==> world.issued == old(world.issued) + 1
    ensures r.Ok? ==> world.pulled == old(world.pulled) + |r.value.0|
    ensures world.issued <= old(world.issued) + 1 && world.pulled <= old(world.pulled) + length + 1
    ensures ledger.payloadBytes <= old(ledger.payloadBytes) + length + 1
    ensures length == 0 ==> r == Ok(([], SourceReceipt(selection.key, None, None, None, None, None)))
    ensures length == U64_MAX ==> r == Err(InvalidArgument)
    ensures 0 < length < U64_MAX && (forall k :: !world.expires(k)) ==>
      RefusedForRoom(r, old(ledger.payloadBytes), old(ledger.helperRequests), ledger.budget, length)
    ensures r.Err? ==> RangeError(r.error, ledger.budget.payloadBytes - old(ledger.payloadBytes),
                                  ledger.budget.helperRequests - old(ledger.helperRequests), length)
    ensures (&& length > 0 && old(ledger.payloadBytes) + length + 1 <= ledger.budget.payloadBytes
             && old(ledger.helperRequests) < ledger.budget.helperRequests && (forall k :: !world.expires(k))
             && Deliverable(world.provider.range(old(world.issued), selection, offset, length), offset, length))
            ==> r.Ok?
  {
    hide Streams.Data, Streams.Ending, ValidateGuardedRangeReceipt;
    if length == 0 {
      return Ok(([], SourceReceipt(selection.key, None, None, None, None, None)));
    }
    if length + 1 > U64_MAX { return Err(InvalidArgument); }
    var reserved := length + 1;
    var response := AskForRange(world, ledger, selection, offset, length);
    if response.Err? { return Err(response.error); }
    var returned := ValidateGuardedRangeReceipt(response.value.receipt, offset, length).value;
    ValidatedWindow(response.value.receipt, offset, length);
    var body := new Streams.Body(response.value.script);
    var data := Drain(world, ledger, body, returned);
    if data.Err? { return Err(data.error); }
    ledger.ReleasePayload(reserved - returned, world);
    return Ok((data.value, response.value.receipt));
  }
}
