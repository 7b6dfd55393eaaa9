/**
 The stream registry of the foreign-function runtime and every interleaving of the calls on it:
 taking an id and inserting the entry are separate steps, and a finalizer may name any id at
 any time.
 */
module Registry {
  import opened Foundation

  const WRAP: nat := U64_MAX + 1
  const FIRST_ID: nat := 1

  datatype ReadOperation = Get | GetRange

  /** A pending entry, holding the receiving end of the channel numbered `channel`. */
  datatype StreamState = PendingRead(channel: nat, operation: ReadOperation) | PendingPut(channel: nat)

  datatype RegistryError = UnknownStreamId(id: u64)

  // ---------------------------------------------------------------- the shared object

  /** The registry as a value: the counter and the entries. */
  datatype Table = Table(next: u64, entries: map<u64, StreamState>)

  function Allocated(t: Table): Table {
    t.(next := (t.next + 1) % WRAP)
  }

  function Inserted(t: Table, id: u64, entry: StreamState): Table {
    t.(entries := t.entries[id := entry])
  }

  function Removed(t: Table, id: u64): Table {
    t.(entries := t.entries - {id})
  }

  /** `FfiRuntime`'s stream half; each method is one atomic step of the calling thread. */
  class FfiRuntime {
    var nextStreamId: u64
    var streams: map<u64, StreamState>

    constructor ()
      ensures Value() == Table(1, map[])
    {
      nextStreamId, streams := FIRST_ID, map[];
    }

    function Value(): Table
      reads this
    {
      Table(nextStreamId, streams)
    }

    /** The atomic fetch-and-add: the old value is the id, and the counter wraps. */
    method AllocateStreamId() returns (id: u64)
      modifies this
      ensures id == old(nextStreamId) && Value() == Allocated(old(Value()))
    {
      id := nextStreamId;
      nextStreamId := if nextStreamId == U64_MAX then 0 else nextStreamId + 1;
    }

    method InsertEntry(id: u64, entry: StreamState)
      modifies this
      ensures Value() == Inserted(old(Value()), id, entry)
    {
      streams := streams[id := entry];
    }

    /** Both steps with nothing in between. */
    method InsertStream(entry: StreamState) returns (id: u64)
      modifies this
      ensures id == old(nextStreamId) && Value() == Inserted(Allocated(old(Value())), id, entry)
    {
      id := AllocateStreamId();
      InsertEntry(id, entry);
    }

    method TakeStream(id: u64) returns (r: Result<StreamState, RegistryError>)
      modifies this
      ensures Value() == Removed(old(Value()), id)
      ensures r == if id in old(streams) then Ok(old(streams)[id]) else Err(UnknownStreamId(id))
    {
      if id !in streams { return Err(UnknownStreamId(id)); }
      r := Ok(streams[id]);
      streams := streams - {id};
    }

    method RemoveStream(id: u64) returns (found: bool)
      modifies this
      ensures Value() == Removed(old(Value()), id) && found == (id in old(streams))
    {
      found := id in streams;
      streams := streams - {id};
    }
  }

  // ---------------------------------------------------------------- the threads

  /** What a begin call will register: a read of either sort, or an upload. */
  datatype Kind = Read(operation: ReadOperation) | Put

  /** How far a begin call has got: its id, its entry, then a worker or a failed descriptor. */
  datatype Phase = HasId | HasEntry | Spawned | Failed

  /** The sending end of a call's channel: still held, used, or dropped unused. */
  datatype Sender<R> = Held | Sent(result: R) | Dropped

  /** Begin call `c` owns channel `c`. */
  datatype Call<R> = Call(id: u64, kind: Kind, phase: Phase, sender: Sender<R>)

  datatype Outcome<R> =
    | Reported(result: R)
    | WorkerDropped
    | UnknownId
    | WrongKind

  /** A finalize call: which sort it is, the id it names, the entry it took, and its end. */
  datatype Finalizer<R> = Finalizer(wantsPut: bool, id: u64, took: Option<StreamState>, outcome: Option<Outcome<R>>)

  datatype System<R> = System(table: Table, calls: seq<Call<R>>, finalizers: seq<Finalizer<R>>)

  datatype Step<R> =
    | Allocate(kind: Kind)
    | Insert(call: nat)
    | DescriptorFails(call: nat)
    | Spawn(call: nat)
    | WorkerSends(call: nat, result: R)
    | SenderDrops(call: nat)
    | Finalize(wantsPut: bool, id: u64)
    | Resume(finalizer: nat)

  function Entry(kind: Kind, channel: nat): StreamState {
    match kind case Read(operation) => PendingRead(channel, operation) case Put => PendingPut(channel)
  }

  function InPhase<R>(s: System<R>, c: nat, phase: Phase): bool {
    c < |s.calls| && s.calls[c].phase == phase
  }

  function Advance<R>(s: System<R>, c: nat, phase: Phase): System<R>
    requires c < |s.calls|
  {
    s.(calls := s.calls[c := s.calls[c].(phase := phase)])
  }

  function Settle<R>(s: System<R>, c: nat, sender: Sender<R>): System<R>
    requires c < |s.calls|
  {
    s.(calls := s.calls[c := s.calls[c].(sender := sender)])
  }

  function BeginFinalize<R>(table: Table, wantsPut: bool, id: u64): Finalizer<R> {
    if id !in table.entries then Finalizer(wantsPut, id, None, Some(UnknownId))
    else if table.entries[id].PendingPut? != wantsPut then
      Finalizer(wantsPut, id, Some(table.entries[id]), Some(WrongKind))
    else Finalizer(wantsPut, id, Some(table.entries[id]), None)
  }

  /** What a waiting finalizer learns from its channel, if anything yet. */
  function Received<R>(sender: Sender<R>): Option<Outcome<R>> {
    match sender
    case Held => None
    case Sent(result) => Some(Reported(result))
    case Dropped => Some(WorkerDropped)
  }

  /** One step of one thread; a step whose thread is not there yet changes nothing. */
  function Next<R>(s: System<R>, step: Step<R>): System<R> {
    match step
    case Allocate(kind) =>
      s.(table := Allocated(s.table), calls := s.calls + [Call(s.table.next, kind, HasId, Held)])
    case Insert(c) =>
      if !InPhase(s, c, HasId) then s else
      Advance(s, c, HasEntry).(table := Inserted(s.table, s.calls[c].id, Entry(s.calls[c].kind, c)))
    case DescriptorFails(c) =>
      if !InPhase(s, c, HasEntry) then s else
      Advance(s, c, Failed).(table := Removed(s.table, s.calls[c].id))
    case Spawn(c) =>
      if !InPhase(s, c, HasEntry) then s else Advance(s, c, Spawned)
    case WorkerSends(c, result) =>
      if InPhase(s, c, Spawned) && s.calls[c].sender.Held? then Settle(s, c, Sent(result)) else s
    case SenderDrops(c) =>
      if (InPhase(s, c, Spawned) || InPhase(s, c, Failed)) && s.calls[c].sender.Held? then Settle(s, c, Dropped) else s
    case Finalize(wantsPut, id) =>
      s.(table := Removed(s.table, id), finalizers := s.finalizers + [BeginFinalize(s.table, wantsPut, id)])
    case Resume(f) =>
      if f < |s.finalizers| && s.finalizers[f].outcome.None? && s.finalizers[f].took.Some?
         && s.finalizers[f].took.value.channel < |s.calls|
      then
        var sender := s.calls[s.finalizers[f].took.value.channel].sender;
        s.(finalizers := s.finalizers[f := s.finalizers[f].(outcome := Received(sender))])
      else s
  }

  /**
   The runtime's method for a step does to the object what `Next` does to the table, and hands
   its caller the id, or the entry, that `Next` gives the call or the finalizer.
   */
  method Perform<R>(runtime: FfiRuntime, s: System<R>, step: Step<R>)
    returns (id: Option<u64>, taken: Result<StreamState, RegistryError>)
    requires runtime.Value() == s.table
    modifies runtime
    ensures runtime.Value() == Next(s, step).table
    ensures step.Allocate? ==>
      id == Some(Next(s, step).calls[|s.calls|].id)
    ensures step.Finalize? ==>
      var f := Next(s, step).finalizers[|s.finalizers|];
      && f.id == step.id && f.took == (if taken.Ok? then Some(taken.value) else None)
      && (taken.Err? <==> f.outcome == Some(UnknownId))
  {
    id, taken := None, Err(UnknownStreamId(0));
    match step {
      case Allocate(_) =>
        var given := runtime.AllocateStreamId();
        id := Some(given);
      case Insert(c) =>
        if InPhase(s, c, HasId) { runtime.InsertEntry(s.calls[c].id, Entry(s.calls[c].kind, c)); }
      case DescriptorFails(c) =>
        if InPhase(s, c, HasEntry) { var found := runtime.RemoveStream(s.calls[c].id); }
      case Finalize(_, named) =>
        taken := runtime.TakeStream(named);
      case _ =>
    }
  }

  function Start<R>(): System<R> {
    System(Table(FIRST_ID, map[]), [], [])
  }

  function Run<R>(steps: seq<Step<R>>): System<R> {
    if steps == [] then Start() else Next(Run(steps[..|steps| - 1]), steps[|steps| - 1])
  }

  // ---------------------------------------------------------------- the invariant

  function IdOf(c: nat): u64 {
    (FIRST_ID + c) % WRAP
  }

  predicate Took<R>(f: Finalizer<R>, c: nat) {
    f.took.Some? && f.took.value.channel == c
  }

  ghost predicate Taken<R>(finalizers: seq<Finalizer<R>>, c: nat) {
    exists f <- finalizers :: Took(f, c)
  }

  /** Call `c` has an entry of its own that nobody has removed. */
  ghost predicate Registered<R>(s: System<R>, c: nat) {
    && c < |s.calls|
    && (s.calls[c].phase.HasEntry? || s.calls[c].phase.Spawned?)
    && !Taken(s.finalizers, c)
  }

  /** The table holds exactly the registered calls' entries, each under its own id. */
  ghost predicate TableExact<R>(s: System<R>) {
    && (forall id <- s.table.entries ::
          var c := s.table.entries[id].channel;
          Registered(s, c) && s.calls[c].id == id && s.table.entries[id] == Entry(s.calls[c].kind, c))
    && (forall c | 0 <= c < |s.calls| :: Registered(s, c) ==> s.calls[c].id in s.table.entries)
  }

  ghost predicate IdsInOrder<R>(s: System<R>) {
    s.table.next == IdOf(|s.calls|) && forall c | 0 <= c < |s.calls| :: s.calls[c].id == IdOf(c)
  }

  /** What a finalizer holds is the entry of a call that had been given the id it named. */
  ghost predicate FinalizerSound<R>(s: System<R>, f: Finalizer<R>) {
    match f.took
    case None => f.outcome == Some(UnknownId)
    case Some(entry) =>
      var c := entry.channel;
      && c < |s.calls| && s.calls[c].id == f.id && entry == Entry(s.calls[c].kind, c) && !s.calls[c].phase.HasId?
      && (f.outcome == Some(WrongKind) <==> entry.PendingPut? != f.wantsPut)
      && (entry.PendingPut? == f.wantsPut && f.outcome.Some? ==> f.outcome == Received(s.calls[c].sender))
  }

  ghost predicate TakenOnce<R>(s: System<R>) {
    forall f, g, c | 0 <= f < g < |s.finalizers| && Took(s.finalizers[f], c) :: !Took(s.finalizers[g], c)
  }

  ghost predicate FinalizersSound<R>(s: System<R>) {
    forall f | 0 <= f < |s.finalizers| :: FinalizerSound(s, s.finalizers[f])
  }

  ghost predicate Inv<R>(s: System<R>) {
    IdsInOrder(s) && TableExact(s) && FinalizersSound(s) && TakenOnce(s)
  }

  lemma IdsRepeatExactlyAtWrap(c: nat, d: nat)
    requires c <= d
    ensures IdOf(c) == IdOf(d) <==> (d - c) % WRAP == 0
  {
  }

  lemma IdsDistinct<R>(s: System<R>, c: nat, d: nat)
    requires IdsInOrder(s) && |s.calls| <= WRAP && c < |s.calls| && d < |s.calls| && s.calls[c].id == s.calls[d].id
    ensures c == d
  {
    IdsRepeatExactlyAtWrap(if c < d then c else d, if c < d then d else c);
  }

  // ---------------------------------------------------------------- every step keeps it

  lemma InsertKeeps<R>(s: System<R>, c: nat)
    requires Inv(s) && |s.calls| <= WRAP && InPhase(s, c, HasId)
    ensures s.calls[c].id !in s.table.entries
    ensures Inv(Next(s, Insert(c)))
  {
    hide IdOf;
    var t := Next(s, Insert(c));
    var id := s.calls[c].id;
    if id in s.table.entries { IdsDistinct(s, s.table.entries[id].channel, c); }
    assert forall d | 0 <= d < |s.calls| && d != c :: Registered(s, d) == Registered(t, d);
    assert Registered(t, c);
    assert forall k <- t.table.entries :: k != id ==> t.table.entries[k] == s.table.entries[k];
    assert t.table.entries[id] == Entry(s.calls[c].kind, c);
  }

  lemma TakenGrows<R>(finalizers: seq<Finalizer<R>>, f: Finalizer<R>, c: nat)
    ensures Taken(finalizers + [f], c) <==> Taken(finalizers, c) || Took(f, c)
  {
    assert (finalizers + [f])[|finalizers|] == f;
    assert forall g <- finalizers :: g in finalizers + [f];
  }

  lemma TakenStays<R>(finalizers: seq<Finalizer<R>>, i: nat, f: Finalizer<R>, c: nat)
    requires i < |finalizers| && f.took == finalizers[i].took
    ensures Taken(finalizers[i := f], c) <==> Taken(finalizers, c)
  {
    var after := finalizers[i := f];
    assert forall k | 0 <= k < |finalizers| :: Took(after[k], c) == Took(finalizers[k], c);
  }

  lemma RemoveKeeps<R>(s: System<R>, t: System<R>, c: nat)
    requires Inv(s) && |s.calls| <= WRAP && c < |s.calls|
    requires t.table == Removed(s.table, s.calls[c].id) && |t.calls| == |s.calls|
    requires forall d | 0 <= d < |s.calls| :: t.calls[d].id == s.calls[d].id && t.calls[d].kind == s.calls[d].kind
    requires forall d | 0 <= d < |s.calls| && d != c :: Registered(t, d) == Registered(s, d)
    requires !Registered(t, c)
    ensures TableExact(t)
  {
    hide IdOf, Registered;
    forall id <- t.table.entries ensures
      var d := t.table.entries[id].channel;
      d < |t.calls| && Registered(t, d) && t.calls[d].id == id && t.table.entries[id] == Entry(t.calls[d].kind, d)
    {
      RegisteredIsCall(s, s.table.entries[id].channel);
      RegisteredIsCall(t, s.table.entries[id].channel);
    }
    forall d | 0 <= d < |t.calls| && Registered(t, d) ensures t.calls[d].id in t.table.entries {
      if s.calls[d].id == s.calls[c].id { IdsDistinct(s, d, c); }
    }
  }

  lemma RegisteredIsCall<R>(s: System<R>, c: nat)
    requires Registered(s, c)
    ensures c < |s.calls|
  {
  }

  lemma DescriptorFailsKeeps<R>(s: System<R>, c: nat)
    requires Inv(s) && |s.calls| <= WRAP && InPhase(s, c, HasEntry)
    ensures Inv(Next(s, DescriptorFails(c)))
  {
    hide IdOf;
    var t := Next(s, DescriptorFails(c));
    assert forall d | 0 <= d < |s.calls| && d != c :: Registered(t, d) == Registered(s, d);
    RemoveKeeps(s, t, c);
  }

  lemma FinalizeKeeps<R>(s: System<R>, wantsPut: bool, id: u64)
    requires Inv(s) && |s.calls| <= WRAP
    ensures Inv(Next(s, Finalize(wantsPut, id)))
  {
    hide IdOf, Taken;
    var t := Next(s, Finalize(wantsPut, id));
    var f: Finalizer<R> := BeginFinalize(s.table, wantsPut, id);
    forall d | 0 <= d < |s.calls| ensures Registered(t, d) <==> Registered(s, d) && !Took(f, d) {
      TakenGrows(s.finalizers, f, d);
    }
    forall i | 0 <= i < |s.finalizers| && f.took.Some? ensures !Took(s.finalizers[i], f.took.value.channel) {
      if Took(s.finalizers[i], f.took.value.channel) { TakenBy(s.finalizers, i, f.took.value.channel); }
    }
    if id in s.table.entries {
      assert TableExact(t) by { RemoveKeeps(s, t, s.table.entries[id].channel); }
    } else {
      assert t.table == s.table;
    }
  }

  lemma TakenBy<R>(finalizers: seq<Finalizer<R>>, i: nat, c: nat)
    requires i < |finalizers| && Took(finalizers[i], c)
    ensures Taken(finalizers, c)
  {
  }

  /** Steps of a worker, or of the call that spawns it, touch neither the table nor a finalizer. */
  lemma WorkerKeeps<R>(s: System<R>, c: nat, t: System<R>)
    requires Inv(s) && c < |s.calls| && !s.calls[c].phase.HasId?
    requires |t.calls| == |s.calls|
    requires (t == Settle(s, c, t.calls[c].sender) && s.calls[c].sender.Held?)
             || (t == Advance(s, c, Spawned) && InPhase(s, c, HasEntry))
    ensures Inv(t)
  {
    hide IdOf, Taken;
    assert forall d | 0 <= d < |s.calls| :: Registered(t, d) == Registered(s, d);
  }

  lemma ResumeKeeps<R>(s: System<R>, f: nat)
    requires Inv(s)
    ensures Inv(Next(s, Resume(f)))
  {
    hide IdOf, Taken;
    var t := Next(s, Resume(f));
    if t != s {
      forall d | 0 <= d < |s.calls| ensures Registered(t, d) == Registered(s, d) {
        TakenStays(s.finalizers, f, t.finalizers[f], d);
      }
      assert forall i, c | 0 <= i < |s.finalizers| :: Took(t.finalizers[i], c) == Took(s.finalizers[i], c);
    }
  }

  lemma NextId(n: nat)
    ensures IdOf(n + 1) == (IdOf(n) + 1) % WRAP
  {
  }

  lemma AllocateKeeps<R>(s: System<R>, kind: Kind)
    requires Inv(s)
    ensures Inv(Next(s, Allocate(kind)))
  {
    hide IdOf, Taken;
    var t := Next(s, Allocate(kind));
    assert t.table.next == IdOf(|t.calls|) by { NextId(|s.calls|); }
    assert forall d | 0 <= d < |s.calls| :: Registered(t, d) == Registered(s, d);
    assert !Registered(t, |s.calls|);
  }

  lemma StepKeepsInvariant<R>(s: System<R>, step: Step<R>)
    requires Inv(s) && |s.calls| <= WRAP
    ensures Inv(Next(s, step))
  {
    hide Inv;
    match step
    case Allocate(kind) => AllocateKeeps(s, kind);
    case Insert(c) => if InPhase(s, c, HasId) { InsertKeeps(s, c); }
    case DescriptorFails(c) => if InPhase(s, c, HasEntry) { DescriptorFailsKeeps(s, c); }
    case Finalize(wantsPut, id) => FinalizeKeeps(s, wantsPut, id);
    case Resume(f) => ResumeKeeps(s, f);
    case Spawn(c) => if InPhase(s, c, HasEntry) { WorkerKeeps(s, c, Next(s, step)); }
    case WorkerSends(c, _) => if Next(s, step) != s { WorkerKeeps(s, c, Next(s, step)); }
    case SenderDrops(c) => if Next(s, step) != s { WorkerKeeps(s, c, Next(s, step)); }
  }

  lemma {:induction false} RunKeepsInvariant<R>(steps: seq<Step<R>>)
    requires |Run(steps).calls| <= WRAP
    ensures Inv(Run(steps))
  {
    if steps != [] {
      hide Inv;
      var before := Run(steps[..|steps| - 1]);
      assert |before.calls| <= |Run(steps).calls|;
      RunKeepsInvariant(steps[..|steps| - 1]);
      StepKeepsInvariant(before, steps[|steps| - 1]);
    }
  }

  // ---------------------------------------------------------------- over whole runs

  lemma RunGrows<R>(steps: seq<Step<R>>, step: Step<R>)
    ensures Run(steps + [step]) == Next(Run(steps), step)
  {
    assert (steps + [step])[..|steps|] == steps;
  }

  lemma StepKeepsIdsInOrder<R>(s: System<R>, step: Step<R>)
    requires IdsInOrder(s)
    ensures IdsInOrder(Next(s, step))
  {
    hide IdOf;
    NextId(|s.calls|);
  }

  lemma {:induction false} RunIdsInOrder<R>(steps: seq<Step<R>>)
    ensures IdsInOrder(Run(steps))
  {
    if steps != [] {
      hide IdsInOrder, Next;
      RunIdsInOrder(steps[..|steps| - 1]);
      StepKeepsIdsInOrder(Run(steps[..|steps| - 1]), steps[|steps| - 1]);
    } else {
      assert IdOf(0) == FIRST_ID;
    }
  }

  /** However the calls interleave, two of them get the same id only a whole turn of the counter apart. */
  lemma IdsRepeatOnlyAtWrap<R>(steps: seq<Step<R>>, c: nat, d: nat)
    requires c <= d < |Run(steps).calls|
    ensures Run(steps).calls[c].id == Run(steps).calls[d].id <==> (d - c) % WRAP == 0
  {
    hide IdOf;
    RunIdsInOrder(steps);
    IdsRepeatExactlyAtWrap(c, d);
  }

  /** No insert in the run is about to overwrite a live entry. */
  ghost predicate InsertsAreSafe<R>(s: System<R>) {
    forall c | 0 <= c < |s.calls| && s.calls[c].phase == HasId :: s.calls[c].id !in s.table.entries
  }

  lemma RunInsertsAreSafe<R>(steps: seq<Step<R>>)
    requires |Run(steps).calls| <= WRAP
    ensures InsertsAreSafe(Run(steps))
  {
    hide Run, Next, TableExact, IdsInOrder, FinalizersSound, TakenOnce;
    RunKeepsInvariant(steps);
    var s := Run(steps);
    forall c | 0 <= c < |s.calls| && s.calls[c].phase == HasId ensures s.calls[c].id !in s.table.entries {
      assert InPhase(s, c, HasId);
      InsertKeeps(s, c);
    }
  }

  /** One entry left in place, and `n` more ids handed out. */
  function Leaving<R>(n: nat): seq<Step<R>> {
    if n == 0 then [Allocate(Put), Insert(0)] else Leaving(n - 1) + [Allocate(Put)]
  }

  lemma {:induction false} LeavingReaches<R>(n: nat)
    ensures var s := Run<R>(Leaving<R>(n));
      && |s.calls| == n + 1
      && FIRST_ID in s.table.entries
      && (n > 0 ==> s.calls[n].phase == HasId)
  {
    if n == 0 {
      var first: seq<Step<R>> := [Allocate(Put)];
      RunGrows<R>([], Allocate(Put));
      RunGrows(first, Insert(0));
      assert [] + first == first;
      assert Leaving<R>(0) == first + [Insert(0)];
      assert Run<R>([]) == Start<R>();
      var s := Run<R>(first);
      assert s.calls[0].phase == HasId && s.calls[0].id == FIRST_ID;
    } else {
      LeavingReaches<R>(n - 1);
      RunGrows(Leaving<R>(n - 1), Allocate(Put));
    }
  }

  /** Inserts are safe in every run of at most `n` calls exactly when the counter cannot wrap in `n`. */
  lemma InsertsSafeExactlyBelowWrap<R>(n: nat)
    ensures (forall steps: seq<Step<R>> | |Run(steps).calls| <= n :: InsertsAreSafe(Run(steps))) <==> n <= WRAP
  {
    if n <= WRAP {
      forall steps: seq<Step<R>> | |Run(steps).calls| <= n ensures InsertsAreSafe(Run(steps)) {
        RunInsertsAreSafe(steps);
      }
    } else {
      var steps := Leaving<R>(WRAP);
      LeavingReaches<R>(WRAP);
      RunIdsInOrder(steps);
      assert IdOf(WRAP) == FIRST_ID;
      assert Run(steps).calls[WRAP].id == FIRST_ID;
      assert !InsertsAreSafe(Run(steps));
    }
  }

  /** The entries are exactly those of the calls neither rolled back nor finalized, under their own ids. */
  lemma EntriesAreTheUnfinalized<R>(steps: seq<Step<R>>, id: u64)
    requires |Run(steps).calls| <= WRAP
    ensures var s := Run(steps);
      id in s.table.entries <==> exists c | 0 <= c < |s.calls| :: Registered(s, c) && s.calls[c].id == id
  {
    hide Run, Registered;
    RunKeepsInvariant(steps);
    var s := Run(steps);
    if id in s.table.entries {
      var c := s.table.entries[id].channel;
      RegisteredIsCall(s, c);
      assert s.calls[c].id == id;
    }
  }

  /** Of all the finalizers that name an id, one at most gets anything but "unknown id". */
  lemma OneFinalizerPerId<R>(steps: seq<Step<R>>, f: nat, g: nat)
    requires |Run(steps).calls| <= WRAP
    requires f < g < |Run(steps).finalizers|
    requires Run(steps).finalizers[f].id == Run(steps).finalizers[g].id
    ensures Run(steps).finalizers[f].outcome == Some(UnknownId) || Run(steps).finalizers[g].outcome == Some(UnknownId)
  {
    hide Run, IdOf, TableExact;
    RunKeepsInvariant(steps);
    var s := Run(steps);
    var x, y := s.finalizers[f], s.finalizers[g];
    assert FinalizerSound(s, x) && FinalizerSound(s, y);
    assert x.took.Some? ==> Took(x, x.took.value.channel);
    assert y.took.Some? ==> Took(y, y.took.value.channel);
    if x.took.Some? && y.took.Some? {
      IdsDistinct(s, x.took.value.channel, y.took.value.channel);
    }
  }

  lemma {:induction false} SentByItsWorker<R>(steps: seq<Step<R>>, c: nat)
    requires c < |Run(steps).calls| && Run(steps).calls[c].sender.Sent?
    ensures WorkerSends(c, Run(steps).calls[c].sender.result) in steps
  {
    if steps != [] {
      var before := steps[..|steps| - 1];
      var s := Run(before);
      if c < |s.calls| && s.calls[c].sender == Run(steps).calls[c].sender {
        SentByItsWorker(before, c);
        assert forall x <- before :: x in steps;
      }
    }
  }

  lemma {:induction false} DroppedByItsSender<R>(steps: seq<Step<R>>, c: nat)
    requires c < |Run(steps).calls| && Run(steps).calls[c].sender.Dropped?
    ensures SenderDrops(c) in steps
  {
    if steps != [] {
      var before := steps[..|steps| - 1];
      var s := Run(before);
      if c < |s.calls| && s.calls[c].sender == Run(steps).calls[c].sender {
        DroppedByItsSender(before, c);
        assert forall x <- before :: x in steps;
      }
    }
  }

  /**
   What a finalizer returns: a result only from the worker of the very call that was given the
   id it names, a dropped worker only if that call's worker went without sending, and a wrong
   kind only for an entry of the other kind, which it has consumed.
   */
  lemma FinalizerReturnsItsOwn<R>(steps: seq<Step<R>>, f: nat)
    requires |Run(steps).calls| <= WRAP
    requires f < |Run(steps).finalizers| && Run(steps).finalizers[f].outcome.Some?
    ensures var s := Run(steps); var x := s.finalizers[f];
      x.outcome == Some(UnknownId) ||
      exists c | 0 <= c < |s.calls| ::
        && s.calls[c].id == x.id && !Registered(s, c)
        && (x.outcome == Some(WrongKind) <==> s.calls[c].kind.Put? != x.wantsPut)
        && (x.outcome == Some(WorkerDropped) ==> SenderDrops(c) in steps)
        && (x.outcome.value.Reported? ==> WorkerSends(c, x.outcome.value.result) in steps)
  {
    hide Run, IdOf, TableExact;
    RunKeepsInvariant(steps);
    var s := Run(steps);
    var x := s.finalizers[f];
    assert FinalizerSound(s, x);
    if x.took.Some? {
      var c := x.took.value.channel;
      assert !Registered(s, c) by { TakenBy(s.finalizers, f, c); }
      if s.calls[c].sender.Sent? { SentByItsWorker(steps, c); }
      if s.calls[c].sender.Dropped? { DroppedByItsSender(steps, c); }
      assert s.calls[c].kind.Put? == x.took.value.PendingPut?;
    }
  }

  /** A channel settles once: what has been sent or dropped never changes. */
  lemma SettledStays<R>(s: System<R>, step: Step<R>, c: nat)
    requires c < |s.calls| && !s.calls[c].sender.Held?
    ensures c < |Next(s, step).calls| && Next(s, step).calls[c].sender == s.calls[c].sender
  {
  }

  /** A waiting finalizer of the right kind learns its worker's end at once, when there is one. */
  lemma WaitingFinalizerResumes<R>(steps: seq<Step<R>>, f: nat)
    requires |Run(steps).calls| <= WRAP
    requires f < |Run(steps).finalizers| && Run(steps).finalizers[f].outcome.None?
    ensures var s := Run(steps); var x := s.finalizers[f];
      && x.took.Some? && x.took.value.channel < |s.calls|
      && Next(s, Resume(f)).finalizers[f].outcome == Received(s.calls[x.took.value.channel].sender)
  {
    hide Run, IdOf, TableExact;
    RunKeepsInvariant(steps);
    assert FinalizerSound(Run(steps), Run(steps).finalizers[f]);
  }

  // ---------------------------------------------------------------- results arrive

  /** How many calls, and how many finalizers, the steps have begun. */
  function Allocations<R>(steps: seq<Step<R>>): nat {
    if steps == [] then 0
    else Allocations(steps[..|steps| - 1]) + (if steps[|steps| - 1].Allocate? then 1 else 0)
  }

  function Finalizations<R>(steps: seq<Step<R>>): nat {
    if steps == [] then 0
    else Finalizations(steps[..|steps| - 1]) + (if steps[|steps| - 1].Finalize? then 1 else 0)
  }

  lemma {:induction false} RunCounts<R>(steps: seq<Step<R>>)
    ensures |Run(steps).calls| == Allocations(steps) && |Run(steps).finalizers| == Finalizations(steps)
  {
    if steps != [] { RunCounts(steps[..|steps| - 1]); }
  }

  /** The state before step `k`. */
  function Before<R>(steps: seq<Step<R>>, k: nat): System<R>
    requires k <= |steps|
  {
    Run(steps[..k])
  }

  lemma BeforeCounts<R>(steps: seq<Step<R>>, k: nat)
    requires k <= |steps|
    ensures |Before(steps, k).calls| == Allocations(steps[..k])
    ensures |Before(steps, k).finalizers| == Finalizations(steps[..k])
  {
    RunCounts(steps[..k]);
  }

  lemma BeforeNext<R>(steps: seq<Step<R>>, k: nat)
    requires k < |steps|
    ensures Before(steps, k + 1) == Next(Before(steps, k), steps[k])
  {
    assert steps[..k + 1] == steps[..k] + [steps[k]];
    RunGrows(steps[..k], steps[k]);
  }

  lemma {:induction false} CallsGrow<R>(steps: seq<Step<R>>, j: nat, k: nat)
    requires j <= k <= |steps|
    ensures |Before(steps, j).calls| <= |Before(steps, k).calls|
    decreases k
  {
    if j < k {
      CallsGrow(steps, j, k - 1);
      BeforeNext(steps, k - 1);
    }
  }

  lemma InvBefore<R>(steps: seq<Step<R>>, k: nat)
    requires k <= |steps| && Allocations(steps) <= WRAP
    ensures |Before(steps, k).calls| <= WRAP && Inv(Before(steps, k))
  {
    hide Inv;
    assert steps[..|steps|] == steps;
    CallsGrow(steps, k, |steps|);
    RunCounts(steps);
    RunKeepsInvariant(steps[..k]);
  }

  /**
   Call `c` by its steps: it is the allocation at `a`, the next insert of it is at `i`, and the
   next spawn of it at `p`, its descriptor not having failed in between.
   */
  ghost predicate Begins<R>(steps: seq<Step<R>>, c: nat, kind: Kind, a: nat, i: nat, p: nat) {
    && a < i < p < |steps|
    && steps[a] == Allocate(kind) && Allocations(steps[..a]) == c
    && steps[i] == Insert(c) && (forall k | a < k < i :: steps[k] != Insert(c))
    && steps[p] == Spawn(c) && (forall k | i < k < p :: steps[k] != Spawn(c) && steps[k] != DescriptorFails(c))
  }

  /** The worker's own end: what it sends, or that it goes without sending. */
  predicate IsEnd<R>(step: Step<R>, c: nat) {
    (step.WorkerSends? || step.SenderDrops?) && step.call == c
  }

  function EndOf<R>(step: Step<R>): Sender<R>
    requires step.WorkerSends? || step.SenderDrops?
  {
    if step.WorkerSends? then Sent(step.result) else Dropped
  }

  /** The worker's first end after it was spawned at `p` is step `w`. */
  ghost predicate Ends<R>(steps: seq<Step<R>>, c: nat, p: nat, w: nat) {
    p < w < |steps| && IsEnd(steps[w], c) && forall k | p < k < w :: !IsEnd(steps[k], c)
  }

  /** The finalizer at `f` is the first, after the insert at `i`, to name the call's id. */
  ghost predicate FirstFinalizer<R>(steps: seq<Step<R>>, c: nat, i: nat, f: nat) {
    && i < f < |steps| && steps[f].Finalize? && steps[f].id == IdOf(c)
    && forall k | i < k < f :: !(steps[k].Finalize? && steps[k].id == IdOf(c))
  }

  ghost predicate CallIs<R>(s: System<R>, c: nat, kind: Kind, phase: Phase, sender: Sender<R>) {
    c < |s.calls| && s.calls[c].kind == kind && s.calls[c].phase == phase && s.calls[c].sender == sender
  }

  lemma {:induction false} HasIdUntil<R>(steps: seq<Step<R>>, c: nat, kind: Kind, a: nat, k: nat)
    requires a < k <= |steps| && steps[a] == Allocate(kind) && Allocations(steps[..a]) == c
    requires forall j | a < j < k :: steps[j] != Insert(c)
    ensures CallIs(Before(steps, k), c, kind, HasId, Held)
    decreases k
  {
    hide Before, Allocations;
    BeforeNext(steps, k - 1);
    if k == a + 1 {
      BeforeCounts(steps, a);
    } else {
      HasIdUntil(steps, c, kind, a, k - 1);
    }
  }

  lemma {:induction false} HasEntryUntil<R>(steps: seq<Step<R>>, c: nat, kind: Kind, i: nat, k: nat)
    requires i < k <= |steps| && steps[i] == Insert(c) && CallIs(Before(steps, i), c, kind, HasId, Held)
    requires forall j | i < j < k :: steps[j] != Spawn(c) && steps[j] != DescriptorFails(c)
    ensures CallIs(Before(steps, k), c, kind, HasEntry, Held)
    decreases k
  {
    hide Before;
    BeforeNext(steps, k - 1);
    if k > i + 1 { HasEntryUntil(steps, c, kind, i, k - 1); }
  }

  lemma {:induction false} WorksUntil<R>(steps: seq<Step<R>>, c: nat, kind: Kind, p: nat, k: nat)
    requires p < k <= |steps| && steps[p] == Spawn(c) && CallIs(Before(steps, p), c, kind, HasEntry, Held)
    requires forall j | p < j < k :: !IsEnd(steps[j], c)
    ensures CallIs(Before(steps, k), c, kind, Spawned, Held)
    decreases k
  {
    hide Before;
    BeforeNext(steps, k - 1);
    if k > p + 1 { WorksUntil(steps, c, kind, p, k - 1); }
  }

  lemma {:induction false} EndedFrom<R>(steps: seq<Step<R>>, c: nat, kind: Kind, w: nat, k: nat)
    requires w < k <= |steps| && IsEnd(steps[w], c) && CallIs(Before(steps, w), c, kind, Spawned, Held)
    ensures CallIs(Before(steps, k), c, kind, Spawned, EndOf(steps[w]))
    decreases k
  {
    hide Before;
    BeforeNext(steps, k - 1);
    if k > w + 1 { EndedFrom(steps, c, kind, w, k - 1); }
  }

  predicate Live<R>(s: System<R>, c: nat, kind: Kind) {
    c < |s.calls| && s.calls[c].kind == kind && (s.calls[c].phase.HasEntry? || s.calls[c].phase.Spawned?)
  }

  lemma {:induction false} SpawnedFrom<R>(steps: seq<Step<R>>, c: nat, kind: Kind, p: nat, k: nat)
    requires p < k <= |steps| && steps[p] == Spawn(c) && CallIs(Before(steps, p), c, kind, HasEntry, Held)
    ensures Live(Before(steps, k), c, kind) && Before(steps, k).calls[c].phase.Spawned?
    decreases k
  {
    hide Before;
    BeforeNext(steps, k - 1);
    if k > p + 1 { SpawnedFrom(steps, c, kind, p, k - 1); }
  }

  /** From its insert on, its descriptor not failing before it is spawned, a call is live. */
  lemma LiveFrom<R>(steps: seq<Step<R>>, c: nat, kind: Kind, a: nat, i: nat, p: nat, k: nat)
    requires Begins(steps, c, kind, a, i, p) && i < k <= |steps|
    ensures Live(Before(steps, k), c, kind)
  {
    hide Before, Allocations;
    HasIdUntil(steps, c, kind, a, i);
    if k <= p {
      HasEntryUntil(steps, c, kind, i, k);
    } else {
      HasEntryUntil(steps, c, kind, i, p);
      SpawnedFrom(steps, c, kind, p, k);
    }
  }

  lemma NotTakenYet<R>(s: System<R>, c: nat)
    requires Inv(s) && c < |s.calls| && s.calls[c].phase.HasId?
    ensures !Taken(s.finalizers, c)
  {
    forall f | f in s.finalizers ensures !Took(f, c) { assert FinalizerSound(s, f); }
  }

  /** Until a finalizer names its id, nobody has taken the call's entry. */
  lemma {:induction false} UntakenUntil<R>(steps: seq<Step<R>>, c: nat, kind: Kind, a: nat, i: nat, p: nat, k: nat)
    requires Allocations(steps) <= WRAP && Begins(steps, c, kind, a, i, p) && i < k <= |steps|
    requires forall j | i < j < k :: !(steps[j].Finalize? && steps[j].id == IdOf(c))
    ensures !Taken(Before(steps, k).finalizers, c)
    decreases k
  {
    hide Before, IdOf, TableExact;
    BeforeNext(steps, k - 1);
    var s := Before(steps, k - 1);
    InvBefore(steps, k - 1);
    if k == i + 1 {
      HasIdUntil(steps, c, kind, a, i);
      NotTakenYet(s, c);
    } else {
      UntakenUntil(steps, c, kind, a, i, p, k - 1);
      LiveFrom(steps, c, kind, a, i, p, k - 1);
      StepLeavesUntaken(s, steps[k - 1], c);
    }
  }

  /** A step takes an entry only for a finalizer that names its id. */
  lemma StepLeavesUntaken<R>(s: System<R>, step: Step<R>, c: nat)
    requires Inv(s) && c < |s.calls| && !Taken(s.finalizers, c) && !(step.Finalize? && step.id == s.calls[c].id)
    ensures !Taken(Next(s, step).finalizers, c)
  {
    hide Taken, IdOf;
    if step.Finalize? {
      TakenGrows(s.finalizers, BeginFinalize(s.table, step.wantsPut, step.id), c);
    }
    if step.Resume? && Next(s, step) != s {
      TakenStays(s.finalizers, step.finalizer, Next(s, step).finalizers[step.finalizer], c);
    }
  }

  /** What a finalizer that names a live, untaken call's id finds. */
  lemma FindsItsEntry<R>(s: System<R>, c: nat, kind: Kind)
    requires Inv(s) && |s.calls| <= WRAP && Live(s, c, kind) && !Taken(s.finalizers, c)
    ensures s.calls[c].id == IdOf(c) && IdOf(c) in s.table.entries && s.table.entries[IdOf(c)] == Entry(kind, c)
  {
    hide IdOf, Taken;
    assert Registered(s, c);
    IdsDistinct(s, s.table.entries[s.calls[c].id].channel, c);
  }

  /** The finalizer of step `f` holds the call's entry ever after; of the wrong kind, it has failed as that. */
  lemma {:induction false} HoldsEntryFrom<R>(steps: seq<Step<R>>, c: nat, kind: Kind,
                                             a: nat, i: nat, p: nat, f: nat, k: nat)
    requires Allocations(steps) <= WRAP && Begins(steps, c, kind, a, i, p) && FirstFinalizer(steps, c, i, f)
    requires f < k <= |steps|
    ensures var s, n := Before(steps, k), Finalizations(steps[..f]);
      && n < |s.finalizers|
      && s.finalizers[n].took == Some(Entry(kind, c)) && s.finalizers[n].wantsPut == steps[f].wantsPut
      && (steps[f].wantsPut != kind.Put? ==> s.finalizers[n].outcome == Some(WrongKind))
    decreases k
  {
    hide IdOf, Inv, Taken, Begins, Allocations, Before, Finalizations;
    BeforeNext(steps, k - 1);
    if k == f + 1 {
      InvBefore(steps, f);
      LiveFrom(steps, c, kind, a, i, p, f);
      UntakenUntil(steps, c, kind, a, i, p, f);
      FindsItsEntry(Before(steps, f), c, kind);
      BeforeCounts(steps, f);
    } else {
      HoldsEntryFrom(steps, c, kind, a, i, p, f, k - 1);
    }
  }

  lemma {:induction false} OutcomeStays<R>(steps: seq<Step<R>>, n: nat, j: nat, k: nat)
    requires j <= k <= |steps|
    requires n < |Before(steps, j).finalizers| && Before(steps, j).finalizers[n].outcome.Some?
    ensures n < |Before(steps, k).finalizers| && Before(steps, k).finalizers[n].outcome.Some?
    decreases k
  {
    hide Before;
    if j < k {
      OutcomeStays(steps, n, j, k - 1);
      BeforeNext(steps, k - 1);
    }
  }

  /** What a worker's end is to the finalizer of its call. */
  function Learned<R>(end: Step<R>): Outcome<R>
    requires end.WorkerSends? || end.SenderDrops?
  {
    match end case WorkerSends(_, result) => Reported(result) case SenderDrops(_) => WorkerDropped
  }

  lemma WorkerEndsSo<R>(steps: seq<Step<R>>, c: nat, kind: Kind, a: nat, i: nat, p: nat, w: nat, k: nat)
    requires Begins(steps, c, kind, a, i, p) && Ends(steps, c, p, w) && w < k <= |steps|
    ensures CallIs(Before(steps, k), c, kind, Spawned, EndOf(steps[w]))
  {
    hide Before, Allocations;
    HasIdUntil(steps, c, kind, a, i);
    HasEntryUntil(steps, c, kind, i, p);
    WorksUntil(steps, c, kind, p, w);
    EndedFrom(steps, c, kind, w, k);
  }

  /**
   Results arrive. In any run below the wrap in which call `c` begins, its worker first ends at
   `w`, and the first finalizer to name its id is of its kind, that finalizer, resumed after
   both, reports what the worker sent, or that it was dropped.
   */
  lemma FinalizerLearns<R>(steps: seq<Step<R>>, c: nat, kind: Kind, a: nat, i: nat, p: nat, w: nat, f: nat, u: nat)
    requires Allocations(steps) <= WRAP
    requires Begins(steps, c, kind, a, i, p) && Ends(steps, c, p, w) && FirstFinalizer(steps, c, i, f)
    requires steps[f].wantsPut == kind.Put?
    requires f < u && w < u < |steps| && steps[u] == Resume(Finalizations(steps[..f]))
    ensures var n := Finalizations(steps[..f]);
      n < |Run(steps).finalizers| && Run(steps).finalizers[n].outcome == Some(Learned(steps[w]))
  {
    hide Before, Begins, Ends, FirstFinalizer, Allocations, Finalizations, IdOf, TableExact;
    var n, last := Finalizations(steps[..f]), |steps|;
    HoldsEntryFrom(steps, c, kind, a, i, p, f, u);
    WorkerEndsSo(steps, c, kind, a, i, p, w, u);
    BeforeNext(steps, u);
    OutcomeStays(steps, n, u + 1, last);
    HoldsEntryFrom(steps, c, kind, a, i, p, f, last);
    WorkerEndsSo(steps, c, kind, a, i, p, w, last);
    InvBefore(steps, last);
    assert FinalizerSound(Before(steps, last), Before(steps, last).finalizers[n]);
    WholeRun(steps);
  }

  lemma WholeRun<R>(steps: seq<Step<R>>)
    ensures Before(steps, |steps|) == Run(steps)
  {
    assert steps[..|steps|] == steps;
  }

  /** The first finalizer to name the id, if of the other kind, fails as that and leaves no entry behind. */
  lemma WrongKindConsumes<R>(steps: seq<Step<R>>, c: nat, kind: Kind, a: nat, i: nat, p: nat, f: nat)
    requires Allocations(steps) <= WRAP
    requires Begins(steps, c, kind, a, i, p) && FirstFinalizer(steps, c, i, f)
    requires steps[f].wantsPut != kind.Put?
    ensures var s, n := Run(steps), Finalizations(steps[..f]);
      n < |s.finalizers| && s.finalizers[n].outcome == Some(WrongKind) && IdOf(c) !in s.table.entries
  {
    hide Before, Begins, Allocations, Finalizations, IdOf, Taken;
    var n, last := Finalizations(steps[..f]), |steps|;
    HoldsEntryFrom(steps, c, kind, a, i, p, f, last);
    InvBefore(steps, last);
    WholeRun(steps);
    var s := Run(steps);
    assert FinalizerSound(s, s.finalizers[n]);
    TakenBy(s.finalizers, n, c);
    if IdOf(c) in s.table.entries { IdsDistinct(s, s.table.entries[IdOf(c)].channel, c); }
  }
}
