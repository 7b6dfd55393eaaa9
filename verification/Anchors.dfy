/**
 The anchor-pair installer: back up, stage, swap, verify, and roll back on any exit before the
 traps are disarmed. The script runs under one fault, a failing command, a signal, or both at
 once, at any command of its choosing.
 */
module Anchors {
  import opened Foundation

  datatype Name = Txt | Ndjson

  const NAMES: seq<Name> := [Txt, Ndjson]

  /** The installed file, the file being staged beside it, and its copy in the backup directory. */
  datatype Path = Live(name: Name) | New(name: Name) | Kept(name: Name)

  type Files = map<Path, bytes>

  function At(files: Files, p: Path): Option<bytes> {
    if p in files then Some(files[p]) else None
  }

  datatype Signal = Interrupt | Terminate | HangUp

  datatype Trap = OnExit | OnSignal(signal: Signal)

  const ALL_TRAPS: set<Trap> := {OnExit, OnSignal(Interrupt), OnSignal(Terminate), OnSignal(HangUp)}

  /**
   At command number `step` the command fails, a signal arrives, or both. A failing command may
   have left `partial` in the file it was writing, or have done its renaming before failing.
   */
  datatype Fault = NoFault | Fault(step: nat, fails: bool, signal: Option<Signal>, partial: Option<bytes>)

  /** What the run is given: the staged pair, the verifier if any, and the failure hook. */
  datatype Inputs = Inputs(
    staged: Name -> Option<bytes>,
    verifier: Option<(bytes, bytes) -> bool>,
    failHook: bool)

  /** What is at both names of one sort: the installed pair, the staged pair beside it, the backup. */
  function Installed(files: Files): (Option<bytes>, Option<bytes>) {
    (At(files, Live(Txt)), At(files, Live(Ndjson)))
  }

  function BesideIt(files: Files): (Option<bytes>, Option<bytes>) {
    (At(files, New(Txt)), At(files, New(Ndjson)))
  }

  function BackedUp(files: Files): (Option<bytes>, Option<bytes>) {
    (At(files, Kept(Txt)), At(files, Kept(Ndjson)))
  }

  const NEITHER: (Option<bytes>, Option<bytes>) := (None, None)

  function StagedPair(inputs: Inputs): (Option<bytes>, Option<bytes>) {
    (inputs.staged(Txt), inputs.staged(Ndjson))
  }

  predicate Staged(inputs: Inputs) {
    && inputs.staged(Txt).Some? && inputs.staged(Txt).value != []
    && inputs.staged(Ndjson).Some? && inputs.staged(Ndjson).value != []
  }

  /** The verifier, asked about the staged pair. */
  predicate Approved(inputs: Inputs)
    requires Staged(inputs)
  {
    inputs.verifier.Some? ==> inputs.verifier.value(inputs.staged(Txt).value, inputs.staged(Ndjson).value)
  }

  /** The pair is what the backup held, absences included, and the script's own files are gone. */
  predicate RolledBack(before: Files, after: Files) {
    Installed(after) == BackedUp(before) && BesideIt(after) == NEITHER && BackedUp(after) == NEITHER
  }

  /** The shell running the script. */
  class Shell {
    const fault: Fault
    const exitTrapOnSignal: bool
    var files: Files
    var traps: set<Trap>
    var clock: nat

    constructor (files: Files, fault: Fault, exitTrapOnSignal: bool)
      ensures this.files == files && this.fault == fault && this.exitTrapOnSignal == exitTrapOnSignal
      ensures traps == {} && clock == 0
    {
      this.files, this.fault, this.exitTrapOnSignal := files, fault, exitTrapOnSignal;
      this.traps, this.clock := {}, 0;
    }

    /** The fault strikes the command about to run. */
    predicate Struck()
      reads this
    {
      fault.Fault? && fault.step == clock && (fault.fails || fault.signal.Some?)
    }

    predicate Fails()
      reads this
    {
      Struck() && fault.fails
    }

    method Copy(data: bytes, to: Path) returns (alive: bool)
      modifies this`files, this`clock
      ensures alive == !old(Struck()) && clock == old(clock) + 1
      ensures alive ==> files == old(files)[to := data]
      ensures forall p | p != to :: At(files, p) == At(old(files), p)
    {
      alive := !Struck();
      if !Fails() {
        files := files[to := data];
      } else if fault.partial.Some? {
        files := files[to := fault.partial.value];
      }
      clock := clock + 1;
    }

    method Move(from: Path, to: Path) returns (alive: bool)
      requires from in files && from != to
      modifies this`files, this`clock
      ensures alive == !old(Struck()) && clock == old(clock) + 1
      ensures alive ==> files == (old(files) - {from})[to := old(files)[from]]
      ensures forall p | p != from && p != to :: At(files, p) == At(old(files), p)
    {
      alive := !Struck();
      if !Fails() || fault.partial.Some? { files := (files - {from})[to := files[from]]; }
      clock := clock + 1;
    }

    /** A command that touches none of the files. */
    method Other() returns (alive: bool)
      modifies this`clock
      ensures alive == !old(Struck()) && clock == old(clock) + 1
    {
      alive := !Struck();
      clock := clock + 1;
    }

    method SetTrap(t: Trap) returns (alive: bool)
      modifies this`traps, this`clock
      ensures alive == !old(Struck()) && clock == old(clock) + 1
      ensures traps == if old(Fails()) then old(traps) else old(traps) + {t}
    {
      alive := !Struck();
      if !Fails() { traps := traps + {t}; }
      clock := clock + 1;
    }

    method ClearTraps() returns (alive: bool)
      modifies this`traps, this`clock
      ensures alive == !old(Struck()) && clock == old(clock) + 1
      ensures traps == if old(Fails()) then old(traps) else {}
    {
      alive := !Struck();
      if !Fails() { traps := {}; }
      clock := clock + 1;
    }

    method RemoveBackup() returns (alive: bool)
      modifies this`files, this`clock
      ensures alive == !old(Struck()) && clock == old(clock) + 1
      ensures alive ==> BackedUp(files) == NEITHER
      ensures forall p: Path | !p.Kept? :: At(files, p) == At(old(files), p)
    {
      alive := !Struck();
      if !Fails() { files := map p | p in files && !p.Kept? :: files[p]; }
      clock := clock + 1;
    }

    /** Puts back what the backup holds, removes what it does not hold, and clears the staging. */
    method Rollback()
      modifies this`files, this`traps
      ensures traps == {} && RolledBack(old(files), files)
    {
      traps := {};
      for i := 0 to |NAMES|
        invariant traps == {}
        invariant i > 0 ==> New(Txt) !in files && At(files, Live(Txt)) == At(old(files), Kept(Txt))
        invariant i > 1 ==> New(Ndjson) !in files && At(files, Live(Ndjson)) == At(old(files), Kept(Ndjson))
        invariant i < 1 ==> At(files, Kept(Txt)) == At(old(files), Kept(Txt))
        invariant i < 2 ==> At(files, Kept(Ndjson)) == At(old(files), Kept(Ndjson))
      {
        var n := NAMES[i];
        files := files - {New(n)};
        if Kept(n) in files {
          files := (files - {Kept(n)})[Live(n) := files[Kept(n)]];
        } else {
          files := files - {Live(n)};
        }
      }
      files := map p | p in files && !p.Kept? :: files[p];
    }

    /** The script ends early: the traps that are set for this ending run. */
    method Die(signal: Option<Signal>)
      modifies this`files, this`traps
      ensures old(traps) == {} ==> files == old(files)
      ensures files == old(files) || RolledBack(old(files), files)
      ensures old(traps) == ALL_TRAPS ==> RolledBack(old(files), files)
    {
      assert signal.Some? ==> signal.value.Interrupt? || signal.value.Terminate? || signal.value.HangUp?;
      if signal.Some? && OnSignal(signal.value) in traps {
        Rollback();
      } else if OnExit in traps && (signal.None? || exitTrapOnSignal) {
        Rollback();
      }
    }
  }

  // ---------------------------------------------------------------- the script

  function Present(files: Files, n: Name): nat {
    if Live(n) in files then 1 else 0
  }

  /** The number of the command that disarms the traps. */
  function DisarmStep(files: Files, inputs: Inputs): nat {
    10 + Present(files, Txt) + Present(files, Ndjson) + (if inputs.verifier.Some? then 1 else 0)
  }

  /** No command numbered from `i` up to `j` is struck. */
  predicate Spared(fault: Fault, i: nat, j: nat) {
    fault.Fault? && (fault.fails || fault.signal.Some?) ==> fault.step < i || j <= fault.step
  }

  /** The disarming command runs and takes effect; a signal may still arrive while it does. */
  predicate GetsDisarmed(fault: Fault, step: nat) {
    Spared(fault, 0, step) && !(fault.Fault? && fault.step == step && fault.fails)
  }

  function SignalOf(fault: Fault): Option<Signal> {
    if fault.Fault? then fault.signal else None
  }

  /** Copies into the backup whichever of the pair is there. */
  method BackUp(sh: Shell) returns (alive: bool)
    requires BackedUp(sh.files) == NEITHER
    modifies sh`files, sh`clock
    ensures Installed(sh.files) == old(Installed(sh.files)) && BesideIt(sh.files) == old(BesideIt(sh.files))
    ensures alive ==> BackedUp(sh.files) == old(Installed(sh.files))
    ensures var done := old(sh.clock) + Present(old(sh.files), Txt) + Present(old(sh.files), Ndjson);
      (alive ==> sh.clock == done) && (alive <==> Spared(sh.fault, old(sh.clock), done))
  {
    for i := 0 to |NAMES|
      invariant Installed(sh.files) == old(Installed(sh.files)) && BesideIt(sh.files) == old(BesideIt(sh.files))
      invariant At(sh.files, Kept(Txt)) == if i > 0 then old(At(sh.files, Live(Txt))) else None
      invariant At(sh.files, Kept(Ndjson)) == if i > 1 then old(At(sh.files, Live(Ndjson))) else None
      invariant sh.clock == old(sh.clock) + (if i > 0 then Present(old(sh.files), Txt) else 0)
                                          + (if i > 1 then Present(old(sh.files), Ndjson) else 0)
      invariant Spared(sh.fault, old(sh.clock), sh.clock)
    {
      var n := NAMES[i];
      if Live(n) in sh.files {
        alive := sh.Copy(sh.files[Live(n)], Kept(n));
        if !alive { return; }
      }
    }
    alive := true;
  }

  method SetTraps(sh: Shell) returns (alive: bool)
    requires sh.traps == {}
    modifies sh`traps, sh`clock
    ensures alive <==> Spared(sh.fault, old(sh.clock), old(sh.clock) + 4)
    ensures alive ==> sh.clock == old(sh.clock) + 4
    ensures alive ==> sh.traps == ALL_TRAPS
  {
    alive := sh.SetTrap(OnExit);
    if !alive { return; }
    alive := sh.SetTrap(OnSignal(Interrupt));
    if !alive { return; }
    alive := sh.SetTrap(OnSignal(Terminate));
    if !alive { return; }
    alive := sh.SetTrap(OnSignal(HangUp));
  }

  method Stage(sh: Shell, inputs: Inputs) returns (alive: bool)
    requires Staged(inputs)
    modifies sh`files, sh`clock
    ensures alive <==> Spared(sh.fault, old(sh.clock), old(sh.clock) + 2)
    ensures alive ==> sh.clock == old(sh.clock) + 2
    ensures alive ==> BesideIt(sh.files) == StagedPair(inputs)
    ensures forall p: Path | !p.New? :: At(sh.files, p) == At(old(sh.files), p)
  {
    for i := 0 to |NAMES|
      invariant sh.clock == old(sh.clock) + i && Spared(sh.fault, old(sh.clock), sh.clock)
      invariant i > 0 ==> At(sh.files, New(Txt)) == inputs.staged(Txt)
      invariant i > 1 ==> At(sh.files, New(Ndjson)) == inputs.staged(Ndjson)
      invariant forall p: Path | !p.New? :: At(sh.files, p) == At(old(sh.files), p)
    {
      alive := sh.Copy(inputs.staged(NAMES[i]).value, New(NAMES[i]));
      if !alive { return; }
    }
    alive := true;
  }

  /** From staging to the verifier's verdict, with every trap set. */
  method Swap(sh: Shell, inputs: Inputs) returns (alive: bool, signal: Option<Signal>)
    requires Staged(inputs)
    modifies sh`files, sh`clock
    ensures BackedUp(sh.files) == old(BackedUp(sh.files))
    ensures var done := old(sh.clock) + 4 + (if inputs.verifier.Some? then 1 else 0);
      && (alive ==> sh.clock == done)
      && (alive <==> Spared(sh.fault, old(sh.clock), done) && !inputs.failHook && Approved(inputs))
    ensures alive ==> Installed(sh.files) == StagedPair(inputs) && BesideIt(sh.files) == NEITHER
    ensures signal.Some? ==> signal == SignalOf(sh.fault)
  {
    signal := SignalOf(sh.fault);
    alive := Stage(sh, inputs);
    if !alive { return; }
    alive := sh.Move(New(Ndjson), Live(Ndjson));
    if !alive { return; }
    if inputs.failHook { return false, None; }
    alive := sh.Move(New(Txt), Live(Txt));
    if !alive { return; }
    if inputs.verifier.Some? {
      alive := sh.Other();
      if !alive { return; }
      if !inputs.verifier.value(sh.files[Live(Txt)], sh.files[Live(Ndjson)]) { return false, None; }
    }
  }

  /**
   All or nothing: the pair is the new one, approved by the verifier, exactly when the traps were
   disarmed, and otherwise the pair there was, with nothing left half staged by this run.
   */
  method Install(sh: Shell, inputs: Inputs) returns (disarmed: bool, success: bool)
    requires sh.traps == {} && sh.clock == 0 && BackedUp(sh.files) == NEITHER
    modifies sh
    ensures disarmed <==> Staged(inputs) && !inputs.failHook && Approved(inputs)
                          && GetsDisarmed(sh.fault, DisarmStep(old(sh.files), inputs))
    ensures Installed(sh.files) == if disarmed then StagedPair(inputs) else old(Installed(sh.files))
    ensures BesideIt(sh.files) == NEITHER || (!disarmed && BesideIt(sh.files) == old(BesideIt(sh.files)))
    ensures inputs.staged(Txt) in {None, Some([])} || inputs.staged(Ndjson) in {None, Some([])} ==>
      !disarmed && sh.files == old(sh.files)
    ensures (&& inputs.staged(Txt) !in {None, Some([])} && inputs.staged(Ndjson) !in {None, Some([])}
             && inputs.verifier.None? && !inputs.failHook && sh.fault == NoFault) ==> success
    ensures success ==> disarmed && BackedUp(sh.files) == NEITHER
    ensures sh.fault == NoFault ==> success == disarmed && BackedUp(sh.files) == NEITHER
  {
    disarmed, success := false, false;
    if !Staged(inputs) { return; }
    var signal := SignalOf(sh.fault);
    var alive := sh.Other();
    if !alive { sh.Die(signal); return; }
    alive := sh.Other();
    if !alive { sh.Die(signal); return; }
    alive := BackUp(sh);
    if !alive { sh.Die(signal); return; }
    alive := SetTraps(sh);
    if !alive { sh.Die(signal); return; }
    alive, signal := Swap(sh, inputs);
    if !alive { sh.Die(signal); return; }
    disarmed := !sh.Fails();
    alive := sh.ClearTraps();
    if !alive { sh.Die(SignalOf(sh.fault)); return; }
    success := sh.RemoveBackup();
    if !success { sh.Die(SignalOf(sh.fault)); }
  }
}
