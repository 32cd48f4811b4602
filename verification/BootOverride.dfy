/**
 The boot-override protocol between the BMC, the NV variables and the host, across boots. An
 override is applied by staging BootNext and resetting. A Once override is first acknowledged
 to the BMC; a Continuous one first leaves a mark that makes the next boot stand aside.

 SyncDriver is the driver's code, run to completion. Step is the same protocol cut at every
 point where power can be lost, with the operator acting at any time; RunSafety is about all
 its runs over any number of boots.
 */
module BootOverride {
  import opened Bytes

  /** BootSourceOverrideEnabled as the BMC reports it. */
  datatype Enabled = Disabled | Once | Continuous | Other

  /** Where a sync is: between the reads and writes it makes, and armed once BootNext is staged. */
  datatype Pc =
    | Idle
    | ReadOnce          // the payload said Once
    | FoundOnce(option: nat)        // an option matches the target
    | Acked(option: nat)            // the BMC accepted the clear
    | ReadContinuous
    | FoundContinuous(option: nat)
    | Marked(option: nat)           // the mark is written
    | Armed(staged: Staged)

  /** A boot option in BootNext, and the kind of override it was staged for. The variable holds the option only; no step
      reads the kind. */
  datatype Staged = Staged(kind: Enabled, option: nat)

  /** The driver's latches of this boot, and what was there at entry: the mark, and the target BDS cached and launches. */
  datatype Boot = Boot(syncDone: bool, settled: bool, readyToBoot: bool, markAtEntry: Option<nat>, launching: Option<Staged>)

  /** What has happened so far: for the statements about runs, not read by any step. */
  datatype History = History(
    onceStaged: nat,       // Once overrides the operator staged
    onceResets: nat,       // resets that applied a Once override
    streakOnce: nat,       // of these, in the current unbroken row of override resets
    streakContinuous: nat, // Continuous resets in that row
    lateResets: nat,       // override resets after ReadyToBoot
    markedResets: nat)     // Continuous resets of boots that began with the mark

  /** The mark holds the number of the option it was written for. */
  datatype System = System(bmc: Enabled, mark: Option<nat>, bootNext: Option<Staged>, boot: Boot, pc: Pc, hist: History)

  // ----- the steps -----

  datatype Action =
    | Operator(enabled: Enabled)            // the operator stages or clears an override
    | ReadyToBoot
    | Sync(getOk: bool, deleteOk: bool)     // Init with a discovered service, up to the override it reads
    | Match(option: Option<nat>)            // the boot option the target names, if there is one
    | Go(ok: bool, reached: bool)           // the sync's next call succeeds or fails; a failed PATCH may have reached the BMC
    | PowerCycle                            // reset or power loss at any point that is not the override's own reset

  /** A new boot: BDS caches BootNext and deletes it before any driver runs. */
  function Enter(sys: System): System {
    sys.(bootNext := None, boot := Boot(false, false, false, sys.mark, sys.bootNext), pc := Idle)
  }

  /** The sync returns. */
  function Settle(sys: System): System {
    sys.(boot := sys.boot.(settled := true), pc := Idle)
  }

  /** The override reset. */
  function Reset(sys: System, kind: Enabled): System {
    var h := sys.hist;
    var late := if sys.boot.readyToBoot then 1 else 0;
    var hist := if kind == Once
                then h.(onceResets := h.onceResets + 1, streakOnce := h.streakOnce + 1, lateResets := h.lateResets + late)
                else h.(streakContinuous := h.streakContinuous + 1, lateResets := h.lateResets + late,
                        markedResets := h.markedResets + if sys.boot.markAtEntry.Some? then 1 else 0);
    Enter(sys.(hist := hist))
  }

  function Begin(sys: System, getOk: bool, deleteOk: bool): System {
    var begun := sys.(boot := sys.boot.(syncDone := true));
    if !getOk || sys.boot.readyToBoot then Settle(begun)
    else match sys.bmc
      case Once => begun.(pc := ReadOnce)
      case Continuous =>
        if sys.mark.Some? then Settle(if deleteOk then begun.(mark := None) else begun) else begun.(pc := ReadContinuous)
      case _ => Settle(begun)
  }

  /** FindBootOverrideOption, for the target just read. */
  function Find(sys: System, option: Option<nat>): System {
    match sys.pc
    case ReadOnce => if option.Some? then sys.(pc := FoundOnce(option.value)) else Settle(sys)
    case ReadContinuous => if option.Some? then sys.(pc := FoundContinuous(option.value)) else Settle(sys)
    case _ => sys
  }

  function Advance(sys: System, ok: bool, reached: bool): System {
    match sys.pc
    case FoundOnce(n) =>
      var told := if ok || reached then sys.(bmc := Disabled) else sys;
      if ok then told.(pc := Acked(n)) else Settle(told)
    case FoundContinuous(n) => if ok then sys.(mark := Some(n), pc := Marked(n)) else Settle(sys)
    case Acked(n) => if ok then Arm(sys, Staged(Once, n)) else Settle(sys)
    case Marked(n) => if ok then Arm(sys, Staged(Continuous, n)) else Settle(sys)
    case Armed(staged) => Reset(sys, staged.kind)
    case _ => sys
  }

  /** The BootNext write. */
  function Arm(sys: System, staged: Staged): System {
    sys.(bootNext := Some(staged), pc := Armed(staged))
  }

  function Step(sys: System, a: Action): System {
    match a
    case Operator(e) =>
      sys.(bmc := e, hist := if e == Once then sys.hist.(onceStaged := sys.hist.onceStaged + 1) else sys.hist)
    // BDS signals ReadyToBoot from its own stack, never while the sync is on it.
    case ReadyToBoot => if sys.pc.Idle? then sys.(boot := sys.boot.(readyToBoot := true)) else sys
    case Sync(getOk, deleteOk) => if sys.boot.syncDone || !sys.pc.Idle? then sys else Begin(sys, getOk, deleteOk)
    case Match(option) => Find(sys, option)
    case Go(ok, reached) => Advance(sys, ok, reached)
    case PowerCycle => Enter(sys.(hist := sys.hist.(streakOnce := 0, streakContinuous := 0)))
  }

  function Run(sys: System, actions: seq<Action>): System
    decreases |actions|
  {
    if actions == [] then sys else Run(Step(sys, actions[0]), actions[1..])
  }

  const FIRST_BOOT := System(Disabled, None, None, Boot(false, false, false, None, None), Idle, History(0, 0, 0, 0, 0, 0))

  // ----- the driver -----

  /** How the calls of one sync turn out. */
  datatype Env = Env(getOk: bool, deleteOk: bool, found: Option<nat>, writeOk: bool, reached: bool, bootNextOk: bool)

  /** A whole sync as a sequence of steps; it ends idle, or armed and about to reset. */
  function WholeSync(sys: System, env: Env): System {
    var begun := Step(sys, Sync(env.getOk, env.deleteOk));
    var found := Step(begun, Match(env.found));
    var written := Step(found, Go(env.writeOk, env.reached));
    Step(written, Go(env.bootNextOk, false))
  }

  /** The outcome of HandleBootOverride: what it leaves in the BMC and in NV, and whether it resets. */
  datatype Handled = Handled(bmc: Enabled, mark: Option<nat>, bootNext: Option<Staged>, resetting: bool)

  function Handle(bmc: Enabled, mark: Option<nat>, bootNext: Option<Staged>, readyToBoot: bool, env: Env): Handled {
    var same := Handled(bmc, mark, bootNext, false);
    if readyToBoot || (bmc != Once && bmc != Continuous) then same
    else if bmc == Continuous && mark.Some? then (if env.deleteOk then same.(mark := None) else same)
    else if env.found.None? then same
    else
      var next := if env.bootNextOk then Some(Staged(bmc, env.found.value)) else bootNext;
      if bmc == Continuous then
        (if env.writeOk then Handled(bmc, env.found, next, env.bootNextOk) else same)
      else if env.writeOk then Handled(Disabled, mark, next, env.bootNextOk)
      else same.(bmc := if env.reached then Disabled else bmc)
  }

  /** The state a whole sync leaves, told by the outcome of the handler. */
  function Synced(sys: System, h: Handled): System {
    sys.(bmc := h.bmc, mark := h.mark, bootNext := h.bootNext,
         boot := sys.boot.(syncDone := true, settled := sys.boot.settled || !h.resetting),
         pc := if h.resetting && h.bootNext.Some? then Armed(h.bootNext.value) else Idle)
  }

  lemma NothingToDo(sys: System, env: Env)
    requires sys.pc.Idle? && !sys.boot.syncDone
    requires Begin(sys, env.getOk, env.deleteOk).pc.Idle?
    ensures WholeSync(sys, env) == Begin(sys, env.getOk, env.deleteOk)
    ensures WholeSync(sys, env) == Synced(sys, Handle(sys.bmc, sys.mark, sys.bootNext, sys.boot.readyToBoot || !env.getOk, env))
  {
  }

  lemma OnceSync(sys: System, env: Env)
    requires sys.pc.Idle? && !sys.boot.syncDone
    requires sys.bmc == Once && env.getOk && !sys.boot.readyToBoot
    ensures WholeSync(sys, env) == Synced(sys, Handle(Once, sys.mark, sys.bootNext, false, env))
  {
    var begun := sys.(boot := sys.boot.(syncDone := true), pc := ReadOnce);
    assert Step(sys, Sync(env.getOk, env.deleteOk)) == begun;
    OnceTail(begun, env);
  }

  lemma OnceTail(begun: System, env: Env)
    requires begun.pc == ReadOnce && begun.bmc == Once
    ensures var end := Advance(Advance(Find(begun, env.found), env.writeOk, env.reached), env.bootNextOk, false);
      end == if env.found.None? then Settle(begun)
             else if env.writeOk && env.bootNextOk then Arm(begun.(bmc := Disabled), Staged(Once, env.found.value))
             else Settle(begun.(bmc := if env.writeOk || env.reached then Disabled else Once))
  {
  }

  lemma ContinuousSync(sys: System, env: Env)
    requires sys.pc.Idle? && !sys.boot.syncDone
    requires sys.bmc == Continuous && sys.mark.None? && env.getOk && !sys.boot.readyToBoot
    ensures WholeSync(sys, env) == Synced(sys, Handle(Continuous, None, sys.bootNext, false, env))
  {
    var begun := sys.(boot := sys.boot.(syncDone := true), pc := ReadContinuous);
    assert Step(sys, Sync(env.getOk, env.deleteOk)) == begun;
    if env.found.Some? && env.writeOk {
      var marked := begun.(mark := env.found, pc := Marked(env.found.value));
      assert Step(Step(begun, Match(env.found)), Go(true, env.reached)) == marked;
    }
  }

  /** A whole sync, step by step, is one call of the handler. */
  lemma WholeSyncIsHandle(sys: System, env: Env)
    requires sys.pc.Idle? && !sys.boot.syncDone
    ensures WholeSync(sys, env) == Synced(sys, Handle(sys.bmc, sys.mark, sys.bootNext, sys.boot.readyToBoot || !env.getOk, env))
  {
    hide WholeSync, Handle, Synced;
    if Begin(sys, env.getOk, env.deleteOk).pc.Idle? {
      NothingToDo(sys, env);
    } else if sys.bmc == Once {
      OnceSync(sys, env);
    } else {
      ContinuousSync(sys, env);
    }
  }

  class SyncDriver {
    var bmc: Enabled              // the BMC's staged override
    var mark: Option<nat>         // NV: RpiSyncContinuousApplied
    var bootNext: Option<Staged>  // NV: BootNext
    var syncDone: bool
    var settled: bool
    var readyToBoot: bool
    const markAtEntry: Option<nat>
    const launching: Option<Staged>
    ghost const hist: History

    /** Boot entry. */
    constructor (sys: System)
      ensures State() == Enter(sys)
    {
      bmc, mark, bootNext := sys.bmc, sys.mark, None;
      syncDone, settled, readyToBoot := false, false, false;
      markAtEntry, launching := sys.mark, sys.bootNext;
      hist := sys.hist;
    }

    /** The driver as a state of the protocol between its calls. */
    ghost function State(): System
      reads this
    {
      System(bmc, mark, bootNext, Boot(syncDone, settled, readyToBoot, markAtEntry, launching), Idle, hist)
    }

    method OnReadyToBoot()
      modifies this`readyToBoot
      ensures State() == Step(old(State()), ReadyToBoot)
    {
      readyToBoot := true;
    }

    method SignalSyncSettled()
      modifies this`settled
      ensures settled
    {
      if settled {
        return;
      }
      settled := true;
    }

    /** Stage BootNext; the reset does not come back. */
    method ApplyMatchedOption(staged: Staged, bootNextOk: bool) returns (resetting: bool)
      modifies this`bootNext
      ensures resetting == bootNextOk && bootNext == if bootNextOk then Some(staged) else old(bootNext)
    {
      if !bootNextOk {
        return false;
      }
      bootNext := Some(staged);
      resetting := true;
    }

    /** HandleBootOverride, on the payload the BMC just returned. */
    method HandleBootOverride(env: Env) returns (resetting: bool)
      modifies this`bmc, this`mark, this`bootNext
      ensures Handled(bmc, mark, bootNext, resetting)
           == Handle(old(bmc), old(mark), old(bootNext), readyToBoot, env)
    {
      if readyToBoot {
        return false;
      }
      var isOnce, isContinuous := bmc == Once, bmc == Continuous;
      if !isOnce && !isContinuous {
        return false;
      }
      if isContinuous {
        if mark.Some? {
          if env.deleteOk {
            mark := None;
          }
          return false;
        }
      }
      if env.found.None? {
        return false;
      }
      if isContinuous {
        if !env.writeOk {
          return false;
        }
        mark := env.found;
        resetting := ApplyMatchedOption(Staged(Continuous, env.found.value), env.bootNextOk);
        return;
      }
      if env.writeOk || env.reached {
        bmc := Disabled;
      }
      if !env.writeOk {
        return false;
      }
      resetting := ApplyMatchedOption(Staged(Once, env.found.value), env.bootNextOk);
    }

    /** RpiRedfishConfigHandlerInit with the exchange inline. `discovered` is a filled-in service; the result says
        whether the handler may be called again (NotReady) and whether the machine is resetting. */
    method ConfigHandlerInit(hasInfo: bool, discovered: bool, env: Env) returns (status: Status, resetting: bool)
      modifies this
      ensures status == if hasInfo && !discovered then NotReady else Success
      ensures !(hasInfo && discovered) || old(syncDone) ==> !resetting && State() == old(State())
      ensures hasInfo && discovered && !old(syncDone) ==>
        var end := WholeSync(old(State()), env);
        State() == end.(pc := Idle) && end.pc == if resetting && bootNext.Some? then Armed(bootNext.value) else Idle
    {
      resetting := false;
      if !hasInfo {
        return Success, false;
      }
      if !discovered {
        return NotReady, false;
      }
      if syncDone {
        return Success, false;
      }
      hide Handle, WholeSync;
      WholeSyncIsHandle(State(), env);
      HandleUnread(bmc, mark, bootNext, env);
      syncDone := true;
      if env.getOk {
        resetting := HandleBootOverride(env);
      }
      if !resetting {
        SignalSyncSettled();
      }
      status := Success;
    }
  }

  /** A payload that could not be read changes nothing, like one read too late. */
  lemma HandleUnread(bmc: Enabled, mark: Option<nat>, bootNext: Option<Staged>, env: Env)
    ensures Handle(bmc, mark, bootNext, true, env) == Handled(bmc, mark, bootNext, false)
  {
  }

  // ----- what every run keeps -----

  /** Once overrides read or still staged that have not led to a reset yet. */
  function OnceOpen(sys: System): nat {
    (if sys.bmc == Once || sys.pc.ReadOnce? || sys.pc.FoundOnce? then 1 else 0)
    + if sys.pc.Acked? || ArmedFor(sys.pc, Once) then 1 else 0
  }

  predicate AboutContinuous(pc: Pc) {
    pc.ReadContinuous? || pc.FoundContinuous? || pc.Marked? || ArmedFor(pc, Continuous)
  }

  predicate ArmedFor(pc: Pc, kind: Enabled) {
    pc.Armed? && pc.staged.kind == kind
  }

  predicate ForContinuous(target: Option<Staged>) {
    target.Some? && target.value.kind == Continuous
  }

  ghost predicate Inv(sys: System) {
    var h := sys.hist;
    && (sys.pc.Armed? ==> sys.pc.staged.kind == Once || sys.pc.staged.kind == Continuous)
    // acknowledge before apply: every Once reset used up a staging
    && h.onceResets + OnceOpen(sys) <= h.onceStaged
    // one Continuous reset in a row, and then only with the mark set or the sync of this boot over
    && h.streakContinuous <= 1 && h.streakOnce <= h.onceResets
    && (h.streakContinuous == 1 ==> sys.mark.Some? || (sys.boot.syncDone && sys.pc.Idle?))
    && (AboutContinuous(sys.pc) ==> h.streakContinuous == 0 && sys.boot.markAtEntry.None?)
    && (sys.boot.markAtEntry.Some? && !sys.boot.syncDone ==> sys.mark.Some?)
    // mark before apply: a Continuous target is staged, and launched, only with the mark of its own option
    && (sys.pc.Marked? ==> sys.mark == Some(sys.pc.option))
    && (ForContinuous(sys.bootNext) ==> sys.mark == Some(sys.bootNext.value.option))
    && (ForContinuous(sys.boot.launching) ==> sys.boot.markAtEntry == Some(sys.boot.launching.value.option))
    // the latches
    && (!sys.pc.Idle? ==> sys.boot.syncDone && !sys.boot.readyToBoot && !sys.boot.settled)
    && (sys.boot.settled ==> sys.boot.syncDone) && (sys.boot.syncDone && sys.pc.Idle? ==> sys.boot.settled)
    && sys.bootNext == (if sys.pc.Armed? then Some(sys.pc.staged) else None)
    && h.lateResets == 0 && h.markedResets == 0
  }

  lemma AdvanceKeeps(sys: System, ok: bool, reached: bool)
    requires Inv(sys)
    ensures Inv(Advance(sys, ok, reached))
  {
  }

  lemma FindKeeps(sys: System, option: Option<nat>)
    requires Inv(sys)
    ensures Inv(Find(sys, option))
  {
  }

  lemma BeginKeeps(sys: System, getOk: bool, deleteOk: bool)
    requires Inv(sys) && !sys.boot.syncDone && sys.pc.Idle?
    ensures Inv(Begin(sys, getOk, deleteOk))
  {
  }

  lemma OthersKeep(sys: System, a: Action)
    requires Inv(sys) && (a.Operator? || a.ReadyToBoot? || a.PowerCycle?)
    ensures Inv(Step(sys, a))
  {
  }

  lemma StepKeeps(sys: System, a: Action)
    requires Inv(sys)
    ensures Inv(Step(sys, a))
  {
    hide Inv, Advance, Begin, Find;
    match a {
      case Sync(getOk, deleteOk) =>
        if !sys.boot.syncDone && sys.pc.Idle? {
          BeginKeeps(sys, getOk, deleteOk);
        }
      case Match(option) => FindKeeps(sys, option);
      case Go(ok, reached) => AdvanceKeeps(sys, ok, reached);
      case _ => OthersKeep(sys, a);
    }
  }

  /** Over every run of boots, with power lost anywhere and the operator acting anywhere: Once resets never exceed the
      Once overrides staged; a boot that began with the mark never makes a Continuous reset; an unbroken row of
      override resets is at most one longer than the Once resets in it, so at most one longer than the Once
      overrides staged; no override reset follows ReadyToBoot; and a sync that is over has released its waiter. */
  lemma {:induction false} RunSafety(sys: System, actions: seq<Action>)
    requires Inv(sys)
    ensures var end := Run(sys, actions);
      && Inv(end)
      && end.hist.onceResets <= end.hist.onceStaged
      && end.hist.streakOnce + end.hist.streakContinuous <= 1 + end.hist.streakOnce <= 1 + end.hist.onceStaged
      && end.hist.lateResets == 0 && end.hist.markedResets == 0
      && (end.boot.syncDone && end.pc.Idle? ==> end.boot.settled)
    decreases |actions|
  {
    if actions != [] {
      hide Step;
      StepKeeps(sys, actions[0]);
      RunSafety(Step(sys, actions[0]), actions[1..]);
    }
  }

  lemma FirstBootInv()
    ensures Inv(FIRST_BOOT)
  {
  }

  /** How many override resets a run makes. */
  function Resets(sys: System, actions: seq<Action>): nat
    decreases |actions|
  {
    if actions == [] then 0
    else (if sys.pc.Armed? && actions[0].Go? then 1 else 0) + Resets(Step(sys, actions[0]), actions[1..])
  }

  /** How many Once overrides the operator stages in a run. */
  function Stagings(actions: seq<Action>): nat {
    if actions == [] then 0 else (if actions[0] == Operator(Once) then 1 else 0) + Stagings(actions[1..])
  }

  predicate NoPowerCycle(actions: seq<Action>) {
    forall i :: 0 <= i < |actions| ==> !actions[i].PowerCycle?
  }

  lemma {:induction false} ResetsAreStreak(sys: System, actions: seq<Action>)
    requires Inv(sys) && NoPowerCycle(actions)
    ensures var end := Run(sys, actions);
      end.hist.streakOnce + end.hist.streakContinuous == sys.hist.streakOnce + sys.hist.streakContinuous + Resets(sys, actions)
      && end.hist.onceStaged == sys.hist.onceStaged + Stagings(actions)
      && end.hist.onceResets - sys.hist.onceResets == end.hist.streakOnce - sys.hist.streakOnce
    decreases |actions|
  {
    if actions != [] {
      StepCounts(sys, actions[0]);
      StepKeeps(sys, actions[0]);
      hide Step;
      ResetsAreStreak(Step(sys, actions[0]), actions[1..]);
    }
  }

  /** A reset uses up a staging that is open, or one made meanwhile. */
  lemma {:induction false} OnceResetsBounded(sys: System, actions: seq<Action>)
    requires Inv(sys)
    ensures var end := Run(sys, actions);
      end.hist.onceResets + OnceOpen(end) <= sys.hist.onceResets + OnceOpen(sys) + Stagings(actions)
    decreases |actions|
  {
    if actions != [] {
      StepOpens(sys, actions[0]);
      StepKeeps(sys, actions[0]);
      hide Step, OnceOpen, Inv;
      OnceResetsBounded(Step(sys, actions[0]), actions[1..]);
    }
  }

  lemma StepOpens(sys: System, a: Action)
    requires Inv(sys)
    ensures var next := Step(sys, a);
      next.hist.onceResets + OnceOpen(next) <= sys.hist.onceResets + OnceOpen(sys) + if a == Operator(Once) then 1 else 0
  {
  }

  lemma StepCounts(sys: System, a: Action)
    requires Inv(sys) && !a.PowerCycle?
    ensures var next := Step(sys, a).hist;
      next.streakOnce + next.streakContinuous
        == sys.hist.streakOnce + sys.hist.streakContinuous + (if sys.pc.Armed? && a.Go? then 1 else 0)
      && next.onceStaged == sys.hist.onceStaged + (if a == Operator(Once) then 1 else 0)
      && next.onceResets - sys.hist.onceResets == next.streakOnce - sys.hist.streakOnce
  {
  }

  /** No endless reset loop: from any state of the protocol that is not in a row of override resets, and whatever the BMC
      keeps staged, the host makes at most one override reset more than there are Once overrides open or staged
      meanwhile, before it gets to boot something. */
  lemma NoResetLoop(sys: System, actions: seq<Action>)
    requires Inv(sys) && sys.hist.streakOnce == 0 && sys.hist.streakContinuous == 0
    requires NoPowerCycle(actions)
    ensures Resets(sys, actions) <= 1 + OnceOpen(sys) + Stagings(actions)
  {
    hide Run, Resets, Stagings, OnceOpen;
    ResetsAreStreak(sys, actions);
    OnceResetsBounded(sys, actions);
    RunSafety(sys, actions);
  }

  // ----- what the mark means -----

  /** The step sets the mark, deletes it, or stages a Continuous target. A Once target is staged by a step of its own. */
  predicate WritesMark(sys: System, a: Action) {
    a.Go? && a.ok && sys.pc.FoundContinuous?
  }

  predicate DeletesMark(sys: System, a: Action) {
    && a.Sync? && a.getOk && a.deleteOk && sys.pc.Idle?
    && !sys.boot.syncDone && !sys.boot.readyToBoot && sys.bmc == Continuous && sys.mark.Some?
  }

  predicate StagesContinuous(sys: System, a: Action) {
    a.Go? && a.ok && sys.pc.Marked?
  }

  predicate MarkWritten(sys: System, actions: seq<Action>)
    decreases |actions|
  {
    actions != [] && (WritesMark(sys, actions[0]) || MarkWritten(Step(sys, actions[0]), actions[1..]))
  }

  predicate MarkDeleted(sys: System, actions: seq<Action>)
    decreases |actions|
  {
    actions != [] && (DeletesMark(sys, actions[0]) || MarkDeleted(Step(sys, actions[0]), actions[1..]))
  }

  predicate ContinuousStaged(sys: System, actions: seq<Action>)
    decreases |actions|
  {
    actions != [] && (StagesContinuous(sys, actions[0]) || ContinuousStaged(Step(sys, actions[0]), actions[1..]))
  }

  /** All within one boot: no power loss and no override reset. */
  predicate OneBoot(sys: System, actions: seq<Action>)
    decreases |actions|
  {
    actions == [] ||
    (!actions[0].PowerCycle? && !(sys.pc.Armed? && actions[0].Go?) && OneBoot(Step(sys, actions[0]), actions[1..]))
  }

  lemma BootStep(sys: System, a: Action)
    requires Inv(sys) && !a.PowerCycle? && !(sys.pc.Armed? && a.Go?)
    ensures var next := Step(sys, a);
      && next.mark.Some? == (WritesMark(sys, a) || (sys.mark.Some? && !DeletesMark(sys, a)))
      && ForContinuous(next.bootNext) == (StagesContinuous(sys, a) || ForContinuous(sys.bootNext))
      && (sys.boot.syncDone ==> next.boot.syncDone && !DeletesMark(sys, a))
      && !(WritesMark(sys, a) && DeletesMark(sys, a))
  {
  }

  /** The sync runs once in a boot, so nothing deletes a mark it has written. */
  lemma {:induction false} NoDeleteAfterSync(sys: System, actions: seq<Action>)
    requires Inv(sys) && OneBoot(sys, actions) && sys.boot.syncDone
    ensures !MarkDeleted(sys, actions)
    decreases |actions|
  {
    if actions != [] {
      BootStep(sys, actions[0]);
      StepKeeps(sys, actions[0]);
      hide Step, DeletesMark, Inv;
      NoDeleteAfterSync(Step(sys, actions[0]), actions[1..]);
    }
  }

  lemma {:induction false} BootLeaves(sys: System, actions: seq<Action>)
    requires Inv(sys) && OneBoot(sys, actions)
    ensures var end := Run(sys, actions);
      && Inv(end)
      && end.mark.Some? == (MarkWritten(sys, actions) || (sys.mark.Some? && !MarkDeleted(sys, actions)))
      && ForContinuous(end.bootNext) == (ContinuousStaged(sys, actions) || ForContinuous(sys.bootNext))
    decreases |actions|
  {
    if actions != [] {
      var next := Step(sys, actions[0]);
      BootStep(sys, actions[0]);
      StepKeeps(sys, actions[0]);
      if WritesMark(sys, actions[0]) {
        SyncedBy(sys);
        NoDeleteAfterSync(next, actions[1..]);
      }
      hide Step, Inv, WritesMark, DeletesMark, StagesContinuous, ForContinuous;
      BootLeaves(next, actions[1..]);
    }
  }

  lemma SyncedBy(sys: System)
    requires Inv(sys) && !sys.pc.Idle?
    ensures sys.boot.syncDone
  {
  }

  /** The boot began with the mark, but BDS does not launch the Continuous target the mark was written for. */
  predicate MarkLies(b: Boot) {
    b.markAtEntry.Some? && b.launching != Some(Staged(Continuous, b.markAtEntry.value))
  }

  /** The mark is documented to mean that the boot before staged BootNext for a Continuous override and this one launches
      that target. Whatever happened in a boot, with power lost or the operator acting at any point of it, the mark lies
      in the next one in exactly these cases: it was written, or was there and not deleted, and no Continuous target
      was staged. Staging a Once target does not help: the mark lies then as well. */
  lemma MarkMeansLaunch(sys: System, actions: seq<Action>)
    requires Inv(sys) && OneBoot(sys, actions)
    ensures MarkLies(Enter(Run(sys, actions)).boot) <==>
      && (MarkWritten(sys, actions) || (sys.mark.Some? && !MarkDeleted(sys, actions)))
      && !ContinuousStaged(sys, actions) && !ForContinuous(sys.bootNext)
  {
    hide Run, OneBoot, MarkWritten, MarkDeleted, ContinuousStaged;
    BootLeaves(sys, actions);
  }

  /** And the next boot is entered so, by the override reset or by a power cycle. */
  lemma NextBoot(sys: System, a: Action)
    requires a.PowerCycle? || (sys.pc.Armed? && a.Go?)
    ensures var next := Step(sys, a);
      next.boot == Enter(sys).boot && next.mark == sys.mark && next.bootNext.None? && next.pc == Idle
  {
  }

  /** For a sync that runs to its end undisturbed, by the outcomes of its calls: a mark from an earlier boot lies unless
      this sync stands aside and deletes it; a new one lies when the BootNext write after it fails. */
  lemma MarkAfterSync(sys: System, env: Env)
    requires sys.pc.Idle? && !sys.boot.syncDone && sys.bootNext.None?
    ensures var usable := env.getOk && !sys.boot.readyToBoot;
      MarkLies(Enter(WholeSync(sys, env)).boot) <==>
        if sys.mark.Some? then !(usable && sys.bmc == Continuous && env.deleteOk)
        else usable && sys.bmc == Continuous && env.found.Some? && env.writeOk && !env.bootNextOk
  {
    hide WholeSync;
    WholeSyncIsHandle(sys, env);
  }

  /** The other way round there is no exception: a boot that launches a Continuous target began with its mark. */
  lemma LaunchMeansMark(sys: System, actions: seq<Action>)
    requires Inv(sys)
    ensures var boot := Run(sys, actions).boot;
      ForContinuous(boot.launching) ==> boot.markAtEntry == Some(boot.launching.value.option) && !MarkLies(boot)
  {
    hide Run;
    RunSafety(sys, actions);
  }

  const MARK_LEFT := [Operator(Continuous), Sync(true, true), Match(Some(3)), Go(true, false), Go(false, false), PowerCycle]
  const LEFT := System(Continuous, Some(3), None, Boot(false, false, false, Some(3), None), Idle, History(0, 0, 0, 0, 0, 0))

  lemma MarkLeft()
    ensures Run(FIRST_BOOT, MARK_LEFT) == LEFT && Resets(FIRST_BOOT, MARK_LEFT) == 0
  {
    var a := MARK_LEFT;
    var s1 := Step(FIRST_BOOT, a[0]);
    var s2 := Step(s1, a[1]);
    var s3 := Step(s2, a[2]);
    var s4 := Step(s3, a[3]);
    var s5 := Step(s4, a[4]);
    var s6 := Step(s5, a[5]);
    RunFrom(FIRST_BOOT, a, 0);
    RunFrom(s1, a, 1);
    RunFrom(s2, a, 2);
    RunFrom(s3, a, 3);
    RunFrom(s4, a, 4);
    RunFrom(s5, a, 5);
    assert a[0..] == a && a[6..] == [];
  }

  /** A run from the first boot that ends so: the mark is written, BootNext is not, and the next boot stands aside with
      nothing to launch. */
  lemma MarkWithoutBootNext()
    ensures var end := Run(FIRST_BOOT, MARK_LEFT + [Sync(true, true)]);
      && MarkLies(end.boot) && end.boot.launching.None?
      && end.pc.Idle? && end.bmc == Continuous && end.boot.settled
  {
    MarkLeft();
    RunJoin(FIRST_BOOT, MARK_LEFT, [Sync(true, true)]);
    assert [Sync(true, true)][1..] == [];
    hide Run;
    RunFrom(LEFT, [Sync(true, true)], 0);
  }

  const MARK_CUT := [Operator(Continuous), Sync(true, true), Match(Some(3)), Go(true, false), PowerCycle]

  /** Another: power is lost between the mark and BootNext. */
  lemma MarkThenPowerLost()
    ensures var end := Run(FIRST_BOOT, MARK_CUT);
      MarkLies(end.boot) && end.boot.launching.None? && end.bmc == Continuous
  {
    var a := MARK_CUT;
    var s1 := Step(FIRST_BOOT, a[0]);
    var s2 := Step(s1, a[1]);
    var s3 := Step(s2, a[2]);
    var s4 := Step(s3, a[3]);
    var s5 := Step(s4, a[4]);
    RunFrom(FIRST_BOOT, a, 0);
    RunFrom(s1, a, 1);
    RunFrom(s2, a, 2);
    RunFrom(s3, a, 3);
    RunFrom(s4, a, 4);
    assert a[0..] == a && a[5..] == [];
  }

  const THEN_ONCE :=
    [Operator(Once), Sync(true, true), Match(Some(5)), Go(true, false), Go(true, false), Go(true, false)]
  const APPLIED :=
    System(Disabled, Some(3), None, Boot(false, false, false, Some(3), Some(Staged(Once, 5))), Idle, History(1, 1, 1, 0, 0, 0))

  lemma OnceApplied()
    ensures Run(LEFT, THEN_ONCE) == APPLIED && Resets(LEFT, THEN_ONCE) == 1
  {
    var a := THEN_ONCE;
    var s1 := Step(LEFT, a[0]);
    var s2 := Step(s1, a[1]);
    var s3 := Step(s2, a[2]);
    var s4 := Step(s3, a[3]);
    var s5 := Step(s4, a[4]);
    var s6 := Step(s5, a[5]);
    RunFrom(LEFT, a, 0);
    RunFrom(s1, a, 1);
    RunFrom(s2, a, 2);
    RunFrom(s3, a, 3);
    RunFrom(s4, a, 4);
    RunFrom(s5, a, 5);
    assert a[0..] == a && a[6..] == [];
  }

  const THEN_CONTINUOUS := [Operator(Continuous), Sync(true, true)]

  lemma StandsAside()
    ensures var end := Run(APPLIED, THEN_CONTINUOUS);
      && end.boot == APPLIED.boot.(syncDone := true, settled := true) && end.pc.Idle? && end.mark.None?
      && end.bmc == Continuous && end.hist == APPLIED.hist && Resets(APPLIED, THEN_CONTINUOUS) == 0
  {
    var a := THEN_CONTINUOUS;
    var s1 := Step(APPLIED, a[0]);
    var s2 := Step(s1, a[1]);
    RunFrom(APPLIED, a, 0);
    RunFrom(s1, a, 1);
    assert a[0..] == a && a[2..] == [];
  }

  /** And one with a target to launch: the mark outlives a Once override that is applied, and the boot that launches its
      target stands aside for a Continuous override, although no Continuous target was ever staged. */
  lemma MarkOutlivesOnce()
    ensures var actions := MARK_LEFT + (THEN_ONCE + THEN_CONTINUOUS);
      var end := Run(FIRST_BOOT, actions);
      && MarkLies(end.boot) && end.boot.launching == Some(Staged(Once, 5))
      && end.pc.Idle? && end.bmc == Continuous && end.boot.settled && end.mark.None?
      && end.hist.onceResets == 1 && Resets(FIRST_BOOT, actions) == 1
  {
    hide Step;
    MarkLeft();
    OnceApplied();
    StandsAside();
    RunJoin(LEFT, THEN_ONCE, THEN_CONTINUOUS);
    RunJoin(FIRST_BOOT, MARK_LEFT, THEN_ONCE + THEN_CONTINUOUS);
  }

  lemma {:induction false} RunJoin(sys: System, a: seq<Action>, b: seq<Action>)
    ensures Run(sys, a + b) == Run(Run(sys, a), b) && Resets(sys, a + b) == Resets(sys, a) + Resets(Run(sys, a), b)
    decreases |a|
  {
    hide Step;
    if a == [] {
      assert a + b == b;
    } else {
      assert (a + b)[0] == a[0] && (a + b)[1..] == a[1..] + b;
      RunJoin(Step(sys, a[0]), a[1..], b);
    }
  }

  lemma RunFrom(sys: System, actions: seq<Action>, i: nat)
    requires i < |actions|
    ensures Run(sys, actions[i..]) == Run(Step(sys, actions[i]), actions[i + 1..])
    ensures Resets(sys, actions[i..])
         == (if sys.pc.Armed? && actions[i].Go? then 1 else 0) + Resets(Step(sys, actions[i]), actions[i + 1..])
  {
    assert actions[i..][1..] == actions[i + 1..];
  }
}
