/**
 What the boot-override protocol is for: when the calls succeed, an override is served. A Once
 override launches its target once; a Continuous one launches it in every other boot, the boot in
 between standing aside.
 */
module BootServed {
  import opened Bytes
  import opened BootOverride

  /** Every call of the sync succeeds, and the target names this option. */
  function AllWell(option: nat): Env {
    Env(true, true, Some(option), true, true, true)
  }

  /** A boot up to the sync and, when the sync applies an override, on through its reset. */
  function BootOn(sys: System, env: Env): System {
    var synced := WholeSync(sys, env);
    if synced.pc.Armed? then Step(synced, Go(true, false)) else synced
  }

  predicate AtEntry(sys: System) {
    sys.pc.Idle? && !sys.boot.syncDone && !sys.boot.readyToBoot
  }

  /** Once: the next boot launches the target, the BMC has let go of the override, the mark is untouched; and that boot and
      every later one leaves things alone until the operator stages again. */
  lemma OnceServed(sys: System, option: nat, env: Env)
    requires AtEntry(sys) && sys.bmc == Once
    ensures var next := BootOn(sys, AllWell(option));
      && AtEntry(next) && next.bmc == Disabled && next.mark == sys.mark && next.bootNext.None?
      && next.boot.launching == Some(Staged(Once, option))
      && next.hist.onceResets == sys.hist.onceResets + 1
    ensures forall later: System :: AtEntry(later) && later.bmc == Disabled ==>
      var after := BootOn(later, env);
      after.bmc == Disabled && after.mark == later.mark && after.bootNext == later.bootNext && after.boot.settled
  {
    hide WholeSync;
    WholeSyncIsHandle(sys, AllWell(option));
    forall later: System | AtEntry(later) && later.bmc == Disabled
      ensures var after := BootOn(later, env);
        after.bmc == Disabled && after.mark == later.mark && after.bootNext == later.bootNext && after.boot.settled
    {
      WholeSyncIsHandle(later, env);
    }
  }

  /** Continuous, from a boot without the mark: the next boot launches the target and carries the mark; its sync stands
      aside, removes the mark and settles; and the boot after that is again one without the mark. */
  lemma ContinuousAlternates(sys: System, option: nat, option2: nat)
    requires AtEntry(sys) && sys.bmc == Continuous && sys.mark.None?
    ensures var launched := BootOn(sys, AllWell(option));
      && AtEntry(launched) && launched.bmc == Continuous && launched.mark == Some(option)
      && launched.boot.launching == Some(Staged(Continuous, option))
      && var aside := BootOn(launched, AllWell(option2));
         && aside.boot.settled && aside.boot.launching == launched.boot.launching
         && aside.bmc == Continuous && aside.mark.None? && aside.bootNext.None?
         && var again := Step(aside, PowerCycle);
            AtEntry(again) && again.bmc == Continuous && again.mark.None? && again.boot.launching.None?
  {
    hide WholeSync;
    WholeSyncIsHandle(sys, AllWell(option));
    var launched := BootOn(sys, AllWell(option));
    WholeSyncIsHandle(launched, AllWell(option2));
  }

  /** A call that fails costs the override of this boot and nothing else: no reset, no BootNext; a mark is written only
      when that of the option succeeded, and the BMC lets go of a Once override only when it was reached. */
  lemma FailedCall(sys: System, env: Env)
    requires AtEntry(sys) && sys.mark.None? && sys.bootNext.None?
    requires !env.getOk || env.found.None? || !env.writeOk || !env.bootNextOk
    ensures var after := BootOn(sys, env);
      && after.boot.settled && after.bootNext.None? && after.hist == sys.hist
      && (after.mark.Some? <==> sys.bmc == Continuous && env.getOk && env.found.Some? && env.writeOk)
      && (after.bmc != sys.bmc ==> sys.bmc == Once && after.bmc == Disabled)
      && (sys.bmc == Once ==>
            (after.bmc == Disabled <==> env.getOk && env.found.Some? && (env.writeOk || env.reached)))
  {
    hide WholeSync;
    WholeSyncIsHandle(sys, env);
  }
}
