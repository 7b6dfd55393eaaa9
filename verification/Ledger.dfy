/** The inspection ledger, and the outside world one operation deals with under it. */
module Ledger {
  import opened Foundation
  import opened Source
  import Streams

  const MIB: nat := 1024 * 1024
  const MAX_BUDGET_BYTES: nat := 64 * MIB
  const MAX_OUTPUT_BYTES: nat := 8 * MIB
  const MAX_PENDING_LINE_BYTES: nat := 8 * MIB
  const MAX_HELPER_REQUESTS: nat := 64
  const MAX_LINE_COUNT: nat := 10_000
  const MAX_CHUNK_SIZE: nat := MIB
  const MAX_PROBE_SIZE: nat := MIB

  datatype InspectionBudget = InspectionBudget(
    payloadBytes: u64, helperRequests: u64, outputBytes: u64, pendingLineBytes: u64,
    lineCount: u64, chunkSize: u64, probeSize: u64, wallTimeMillis: u64)

  const DEFAULT_BUDGET: InspectionBudget :=
    InspectionBudget(8 * MIB, 16, MIB, MIB, 256, 256 * 1024, 32 * 1024, 30_000)

  predicate WithinCap(value: nat, cap: nat) {
    0 < value <= cap
  }

  predicate ValidBudget(b: InspectionBudget) {
    && WithinCap(b.payloadBytes, MAX_BUDGET_BYTES)
    && WithinCap(b.helperRequests, MAX_HELPER_REQUESTS)
    && WithinCap(b.outputBytes, MAX_OUTPUT_BYTES)
    && WithinCap(b.pendingLineBytes, MAX_PENDING_LINE_BYTES)
    && WithinCap(b.lineCount, MAX_LINE_COUNT)
    && WithinCap(b.chunkSize, MAX_CHUNK_SIZE)
    && WithinCap(b.probeSize, MAX_PROBE_SIZE)
    && b.wallTimeMillis > 0
  }

  /** The budgets that are accepted, in numbers. */
  lemma AcceptedBudgets(b: InspectionBudget)
    ensures ValidBudget(b) <==>
      && 1 <= b.payloadBytes <= 67_108_864 && 1 <= b.helperRequests <= 64
      && 1 <= b.outputBytes <= 8_388_608 && 1 <= b.pendingLineBytes <= 8_388_608
      && 1 <= b.lineCount <= 10_000 && 1 <= b.chunkSize <= 1_048_576 && 1 <= b.probeSize <= 1_048_576
      && 1 <= b.wallTimeMillis
  {
  }

  /**
   The provider, the clock, and what has been asked of them. `expires(k)` says whether the
   deadline is found past at the `k`-th time the clock is consulted; `pulled` counts every
   byte any reader has delivered, the end-of-file proof included.
   */
  class World {
    const provider: Provider
    const expires: nat -> bool
    var issued: nat
    var ticks: nat
    ghost var pulled: nat

    constructor (provider: Provider, expires: nat -> bool)
      ensures this.provider == provider && this.expires == expires && issued == 0 && ticks == 0 && pulled == 0
    {
      this.provider, this.expires, this.issued, this.ticks, this.pulled := provider, expires, 0, 0, 0;
    }

    method Expired() returns (late: bool)
      modifies this`ticks
      ensures late == expires(old(ticks)) && ticks == old(ticks) + 1
    {
      late := expires(ticks);
      ticks := ticks + 1;
    }

    /** A provider call goes out only against a request already charged. */
    method Observe(key: bytes, ledger: InspectionLedger) returns (r: Result<SourceReceipt, ProviderFailure>)
      requires issued < ledger.baseIssued + ledger.helperRequests
      modifies this`issued
      ensures issued == old(issued) + 1 && r == provider.observe(old(issued), key)
    {
      r := provider.observe(issued, key);
      issued := issued + 1;
    }

    method Head(selection: Selection, ledger: InspectionLedger) returns (r: Result<SourceReceipt, ProviderFailure>)
      requires issued < ledger.baseIssued + ledger.helperRequests
      modifies this`issued
      ensures issued == old(issued) + 1 && r == provider.head(old(issued), selection)
    {
      r := provider.head(issued, selection);
      issued := issued + 1;
    }

    method GetRange(selection: Selection, offset: u64, length: u64, ledger: InspectionLedger)
      returns (r: Result<RangeResponse, ProviderFailure>)
      requires issued < ledger.baseIssued + ledger.helperRequests
      modifies this`issued
      ensures issued == old(issued) + 1 && r == provider.range(old(issued), selection, offset, length)
    {
      r := provider.range(issued, selection, offset, length);
      issued := issued + 1;
    }

    /** Bytes are pulled from a reader only against payload already admitted, and never more than a chunk at once. */
    method Pull(body: Streams.Body, cap: nat, ledger: InspectionLedger) returns (p: Streams.Poll)
      requires 0 < cap <= ledger.budget.chunkSize
      requires pulled + cap <= ledger.basePulled + ledger.payloadBytes
      modifies body, this`pulled
      ensures (p, body.script) == Streams.Awaited(old(body.script), cap)
      ensures p.Ready? ==> |p.data| <= cap
      ensures pulled == old(pulled) + (if p.Ready? then |p.data| else 0)
    {
      Streams.AwaitedStep(body.script, cap);
      p := Streams.Await(body, cap);
      if p.Ready? { pulled := pulled + |p.data|; }
    }
  }

  /** The clock has been consulted at least `checks` times since `from`, and never found past the deadline. */
  ghost predicate InTime(world: World, from: nat, checks: nat)
    reads world
  {
    from + checks <= world.ticks && forall k | from <= k < world.ticks :: !world.expires(k)
  }

  /** Charges are made before the work they pay for; the bases mark where this ledger began. */
  class InspectionLedger {
    const budget: InspectionBudget
    var helperRequests: nat
    var payloadBytes: nat
    var outputBytes: nat
    ghost const baseIssued: nat
    ghost const basePulled: nat

    constructor (budget: InspectionBudget, world: World)
      ensures this.budget == budget && helperRequests == 0 && payloadBytes == 0 && outputBytes == 0
      ensures baseIssued == world.issued && basePulled == world.pulled
      ensures Covers(world)
    {
      this.budget := budget;
      this.helperRequests, this.payloadBytes, this.outputBytes := 0, 0, 0;
      this.baseIssued, this.basePulled := world.issued, world.pulled;
    }

    /** Everything that has been done is paid for, and no budget is overdrawn. */
    ghost predicate Covers(world: World)
      reads this, world
    {
      && world.pulled <= basePulled + payloadBytes && payloadBytes <= budget.payloadBytes
      && world.issued <= baseIssued + helperRequests && helperRequests <= budget.helperRequests
      && outputBytes <= budget.outputBytes
    }

    function Late(): StorageError {
      LimitExceeded(Deadline, budget.wallTimeMillis, budget.wallTimeMillis)
    }

    method Request(world: World) returns (r: Result<(), StorageError>)
      requires Covers(world)
      modifies this`helperRequests, world`ticks
      ensures Covers(world)
      ensures r.Ok? ==> helperRequests == old(helperRequests) + 1
      ensures r.Err? ==> helperRequests == old(helperRequests)
      ensures world.ticks == old(world.ticks) + 1
      ensures r == if world.expires(old(world.ticks)) then Err(Late())
                   else if old(helperRequests) + 1 > budget.helperRequests
                   then Err(LimitExceeded(Requests, budget.helperRequests, old(helperRequests) + 1))
                   else Ok(())
    {
      var late := world.Expired();
      if late { return Err(Late()); }
      var next := helperRequests + 1;
      if next > budget.helperRequests {
        return Err(LimitExceeded(Requests, budget.helperRequests, next));
      }
      helperRequests := next;
      return Ok(());
    }

    method AdmitPayload(amount: u64, world: World) returns (r: Result<(), StorageError>)
      requires Covers(world)
      modifies this`payloadBytes, world`ticks
      ensures Covers(world)
      ensures r.Ok? ==> payloadBytes == old(payloadBytes) + amount
      ensures r.Err? ==> payloadBytes == old(payloadBytes)
      ensures world.ticks == old(world.ticks) + 1
      ensures r == if world.expires(old(world.ticks)) then Err(Late())
                   else if old(payloadBytes) + amount > budget.payloadBytes
                   then Err(LimitExceeded(PayloadBytes, budget.payloadBytes, Min(old(payloadBytes) + amount, U64_MAX)))
                   else Ok(())
    {
      var late := world.Expired();
      if late { return Err(Late()); }
      if payloadBytes + amount > U64_MAX {
        return Err(LimitExceeded(PayloadBytes, budget.payloadBytes, U64_MAX));
      }
      var next := payloadBytes + amount;
      if next > budget.payloadBytes {
        return Err(LimitExceeded(PayloadBytes, budget.payloadBytes, next));
      }
      payloadBytes := next;
      return Ok(());
    }

    /** The release saturates at zero in the source; no caller ever gets there. */
    method ReleasePayload(amount: nat, world: World)
      requires Covers(world)
      requires amount <= payloadBytes && world.pulled <= basePulled + payloadBytes - amount
      modifies this`payloadBytes
      ensures Covers(world) && payloadBytes == old(payloadBytes) - amount
    {
      payloadBytes := SaturatingSub(payloadBytes, amount);
    }

    method AdmitOutput(amount: nat, world: World) returns (r: Result<(), StorageError>)
      requires Covers(world)
      modifies this`outputBytes
      ensures Covers(world)
      ensures r.Ok? ==> outputBytes == old(outputBytes) + amount
      ensures r == if old(outputBytes) + amount > budget.outputBytes
                   then Err(LimitExceeded(OutputBytes, budget.outputBytes, Min(old(outputBytes) + amount, U64_MAX)))
                   else Ok(())
    {
      if outputBytes + amount > U64_MAX {
        return Err(LimitExceeded(OutputBytes, budget.outputBytes, U64_MAX));
      }
      var next := outputBytes + amount;
      if next > budget.outputBytes {
        return Err(LimitExceeded(OutputBytes, budget.outputBytes, next));
      }
      outputBytes := next;
      return Ok(());
    }

    /** The clock, consulted before or around an await. */
    method CheckDeadline(world: World) returns (r: Result<(), StorageError>)
      modifies world`ticks
      ensures world.ticks == old(world.ticks) + 1
      ensures r == if world.expires(old(world.ticks)) then Err(Late()) else Ok(())
    {
      var late := world.Expired();
      return if late then Err(Late()) else Ok(());
    }
  }
}
