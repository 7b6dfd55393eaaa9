/**
 A range read through the foreign-function surface, end to end: observe, bind, one guarded range,
 and a worker that copies the declared length into a pipe.
 */
module FfiRange {
  import opened Foundation
  import opened Source
  import opened GuardedRange
  import opened S3Responses
  import opened Snapshot
  import Ledger
  import Streams

  /** The bytes of `obj` a range names, clipped at its end. */
  function Clipped(obj: bytes, offset: nat, length: nat): bytes {
    if offset < |obj| then obj[offset..Min(offset + length, |obj|)] else []
  }

  /** A declared stream that is true of the window it declares delivers a front of that window. */
  lemma DeclaredIsFront(data: bytes, obj: bytes, offset: nat, n: nat)
    requires offset + n <= |obj| && |data| <= n
    requires forall i | 0 <= i < |data| && offset + i <= offset + n - 1 :: data[i] == obj[offset + i]
    ensures data <= obj[offset..offset + n]
  {
  }

  /** What an accepted range lets a copier see of the version it is true of. */
  lemma AcceptedRangeClips(target: bytes, sel: Selection, offset: u64, length: u64, r: HttpResponse, obj: bytes)
    requires length > 0 && GuardedGetRange(target, sel, offset, length, Ok(r)).Ok?
    requires TruthfulRange(GuardedGetRange(target, sel, offset, length, Ok(r)).value, obj)
    ensures var accepted := GuardedGetRange(target, sel, offset, length, Ok(r)).value;
      && accepted.receipt.returnedWindow.Some?
      && offset < |obj|
      && accepted.receipt.returnedWindow.value.CheckedLen() == Some(|Clipped(obj, offset, length)|)
      && Streams.Data(accepted.script) <= Clipped(obj, offset, length)
  {
    hide *;
    var accepted := GuardedGetRange(target, sel, offset, length, Ok(r)).value;
    assert r.contentLength.Some? && r.contentLength.value > 0 by {
      AcceptedRangeValidates(target, sel, offset, length, r);
    }
    var n := r.contentLength.value;
    assert ValidateGuardedRangeReceipt(accepted.receipt, offset, length) == Ok(n)
           && accepted.script == Streams.Declared(r.body, n) by {
      AcceptedRangeValidates(target, sel, offset, length, r);
    }
    assert |Streams.Data(accepted.script)| <= n by { Streams.DeclaredOutcome(r.body, n); }
    ReceiptClips(accepted, offset, length, n, obj);
  }

  lemma ReceiptClips(accepted: RangeResponse, offset: u64, length: u64, n: u64, obj: bytes)
    requires length > 0 && ValidateGuardedRangeReceipt(accepted.receipt, offset, length) == Ok(n)
    requires TruthfulRange(accepted, obj) && |Streams.Data(accepted.script)| <= n
    ensures accepted.receipt.returnedWindow.Some? && offset < |obj|
    ensures accepted.receipt.returnedWindow.value.CheckedLen() == Some(|Clipped(obj, offset, length)|)
    ensures Streams.Data(accepted.script) <= Clipped(obj, offset, length)
  {
    hide ValidateGuardedRangeReceipt, Streams.Data;
    ValidatedWindow(accepted.receipt, offset, length);
    DeclaredIsFront(Streams.Data(accepted.script), obj, offset, n);
  }

  /** The range request goes out to a server that answers it in full about `w`, and every write is taken. */
  ghost predicate RangeServed(server: Server, target: bytes, key: bytes, at: nat, offset: u64, length: u64,
                              pipe: Streams.Pipe, w: Version)
  {
    && SelectionAt(S3Provider(server, target), key, at).Some?
    && |w.contents| <= U64_MAX && InObject(w.contents, offset, length)
    && AnswersAt(server, SelectionAt(S3Provider(server, target), key, at).value, w, at + 1)
    && forall k :: !pipe.fails(k)
  }

  /** Such a request is let through, delivers the clipped range, and tells the copier its length. */
  lemma RangeServedDelivers(server: Server, target: bytes, key: bytes, at: nat, offset: u64, length: u64,
                            pipe: Streams.Pipe, w: Version)
    requires RangeServed(server, target, key, at, offset, length, pipe, w)
    ensures length > 0 && offset + length - 1 <= U64_MAX && SelectionAt(S3Provider(server, target), key, at).Some?
    ensures forall k :: !pipe.fails(k)
    ensures var p := S3Provider(server, target);
      var answer := p.range(at + 1, SelectionAt(p, key, at).value, offset, length);
      && answer.Ok? && answer.value.receipt.returnedWindow.Some?
      && answer.value.receipt.returnedWindow.value.CheckedLen() == Some(|Clipped(w.contents, offset, length)|)
      && Streams.Data(answer.value.script) == Clipped(w.contents, offset, length)
  {
    hide GuardedGetRange, Streams.Data, Streams.Ending, AnswersRange, SelectionAt;
    var sel := SelectionAt(S3Provider(server, target), key, at).value;
    SelectionIsValid(server, target, key, at);
    AnsweredInFull(target, sel, offset, length, server.get(at + 1, sel, offset, length).value, w);
  }

  lemma SelectionIsValid(server: Server, target: bytes, key: bytes, at: nat)
    requires SelectionAt(S3Provider(server, target), key, at).Some?
    ensures var sel := SelectionAt(S3Provider(server, target), key, at).value;
      ValidFor(sel, target, sel.key) && sel.key != []
  {
  }

  lemma WantedOfFront(s: Streams.Script, whole: bytes)
    requires Streams.Data(s) <= whole
    ensures Streams.Wanted(s, Some(|whole|)) == Streams.Data(s)
    ensures Streams.CopyOutcome(s, Some(|whole|)) == Streams.CleanEof <==> Streams.Data(s) == whole
  {
  }

  /**
   Whatever writers do between the observation and the read, the pipe receives a front of the
   clipped range of the one observed version, and all of it when the copy reports
   success, as it does when a server answers in full about `w`
   and the pipe takes every write.
   */
  method GetRangeToPipe(p: Provider, at: nat, key: bytes, offset: u64, length: u64, pipe: Streams.Pipe,
                        ghost server: Server, ghost initial: Store, ghost schedule: nat -> seq<Action>,
                        ghost w: Version)
    returns (r: Result<Streams.Terminal, StorageError>, ghost v: Version)
    requires p == S3Provider(server, p.target) && Disciplined(initial.versions) && Truthful(server, initial, schedule)
    modifies pipe
    ensures r.Err? ==> pipe.written == old(pipe.written)
    ensures r.Ok? ==> Observed(v, server, initial, schedule, key, at) && offset < |v.contents|
    ensures r.Ok? ==> old(pipe.written) <= pipe.written <= old(pipe.written) + Clipped(v.contents, offset, length)
    ensures length == 0 || offset + length - 1 > U64_MAX ==> r == Err(InvalidArgument)
    ensures RangeServed(server, p.target, key, at, offset, length, pipe, w) ==>
      r == Ok(Streams.CleanEof) && pipe.written == old(pipe.written) + Clipped(w.contents, offset, length)
    ensures r == Ok(Streams.CleanEof) ==> pipe.written == old(pipe.written) + Clipped(v.contents, offset, length)
  {
    hide Truthful, StoreAt, GuardedGetRange, TruthfulRange, Clipped, RangeServed,
      Streams.Data, Streams.Ending, Streams.Wanted, Streams.CopyOutcome;
    v := Version(None, None, []);
    ghost var served := RangeServed(server, p.target, key, at, offset, length, pipe, w);
    if served {
      RangeServedDelivers(server, p.target, key, at, offset, length, pipe, w);
    }
    if length == 0 || offset + length - 1 > U64_MAX { return Err(InvalidArgument), v; }
    var observation := p.observe(at, key);
    if observation.Err? { return Err(FromProvider(observation.error)), v; }
    var bound := BindObserved(p, key, observation.value);
    if bound.Err? { return Err(bound.error), v; }
    v := ObservedVersionIsRead(server, p.target, initial, schedule, key, at);
    var response := p.range(at + 1, bound.value, offset, length);
    if response.Err? { return Err(FromProvider(response.error)), v; }
    RangeNeedsAnswer(p.target, bound.value, offset, length, server.get(at + 1, bound.value, offset, length));
    AcceptedRangeClips(p.target, bound.value, offset, length,
                       server.get(at + 1, bound.value, offset, length).value, v.contents);
    var window := response.value.receipt.returnedWindow;
    var expected := match window case Some(w) => w.CheckedLen() case None => None;
    if expected == None { return Err(Invalid()), v; }
    WantedOfFront(response.value.script, Clipped(v.contents, offset, length));
    if served {
      WantedOfFront(response.value.script, Clipped(w.contents, offset, length));
    }
    var body := new Streams.Body(response.value.script);
    var copied := Streams.CopyStreamToPipe(body, pipe, Some(expected.value));
    return Ok(copied), v;
  }
}
