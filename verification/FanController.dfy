/**
 The active-cooler fan loop: a 1 s tick that maps the SoC temperature onto five cooling levels,
 with an override and a stored policy above it.

 FanController is the driver's code over its module state; Step is what one event does to that
 state, and the laws below are about all sequences of events.
 */
module FanController {
  import opened Bytes

  const LEVEL_MAX := 4
  const LEVEL_SAFE := 2          // commanded while the sensor reads invalid
  const HYST_MILLIC := 5000
  const TRIP_MIN_C := 30
  const TRIP_MAX_C := 90
  const PWM_RANGE_TICKS := 2078

  const MODE_AUTO: byte := 0
  const MODE_FIXED: byte := 1
  const MODE_CUSTOM: byte := 2

  /** The built-in curve: trip temperatures and duties, out of 255, by level. */
  const TABLE_TRIPS := [0, 50000, 60000, 67500, 75000]
  const TABLE_DUTIES := [0, 75, 125, 175, 250]

  type Level = l: int | 0 <= l <= LEVEL_MAX witness 0

  /** RPI_FAN_POLICY. */
  datatype Policy = Policy(mode: byte, fixedLevel: byte, trip1C: byte, trip2C: byte, trip3C: byte, trip4C: byte)

  const AUTO_DEFAULTS := Policy(MODE_AUTO, LEVEL_SAFE as byte, 50, 60, 68, 75)

  /** The policy variable as GetVariable returns it: six packed bytes. */
  function Unpack(stored: seq<byte>): Policy
    requires |stored| == 6
  {
    Policy(stored[0], stored[1], stored[2], stored[3], stored[4], stored[5])
  }

  predicate UsableTrips(p: Policy) {
    TRIP_MIN_C <= p.trip1C as int && p.trip1C < p.trip2C < p.trip3C < p.trip4C && p.trip4C as int <= TRIP_MAX_C
  }

  /** What the driver makes of the stored policy. */
  function Sanitized(stored: Option<seq<byte>>): Policy {
    if stored.None? || |stored.value| != 6 then AUTO_DEFAULTS
    else
      var p := Unpack(stored.value);
      if p.mode > MODE_CUSTOM || (p.mode == MODE_CUSTOM && !UsableTrips(p)) then AUTO_DEFAULTS
      else if p.fixedLevel as int > LEVEL_MAX then p.(fixedLevel := LEVEL_SAFE as byte)
      else p
  }

  function Trip(p: Policy, level: Level): int {
    if p.mode != MODE_CUSTOM then TABLE_TRIPS[level]
    else 1000 * match level
                case 1 => p.trip1C as int
                case 2 => p.trip2C as int
                case 3 => p.trip3C as int
                case _ => p.trip4C as int
  }

  function DutyTicks(level: Level): nat {
    (TABLE_DUTIES[level] * PWM_RANGE_TICKS + 127) / 255
  }

  /** The AVS temperature register: None while its validity bits 16 and 10 are not both set. */
  function AvsMilliC(word: nat): Option<int> {
    if word / 0x10000 % 2 == 1 && word / 0x400 % 2 == 1 then Some(450000 - 550 * (word % 0x400)) else None
  }

  // ----- the closed loop -----

  /** The level a temperature calls for: how many of the trips it has reached. */
  function Demand(p: Policy, t: int): Level {
      (if t >= Trip(p, 1) then 1 else 0) + (if t >= Trip(p, 2) then 1 else 0)
    + (if t >= Trip(p, 3) then 1 else 0) + (if t >= Trip(p, 4) then 1 else 0)
  }

  /** One closed-loop decision; -1 stands for no level commanded yet. */
  function Loop(p: Policy, level: int, t: int): Level
    requires -1 <= level <= LEVEL_MAX
  {
    if 0 <= level && Demand(p, t) < level then
      (if t >= Trip(p, level) - HYST_MILLIC then level else level - 1)
    else Demand(p, t)
  }

  predicate Regulable(p: Policy) {
    p.mode <= MODE_CUSTOM && (p.mode == MODE_CUSTOM ==> UsableTrips(p))
  }

  predicate Sane(p: Policy) {
    Regulable(p) && p.fixedLevel as int <= LEVEL_MAX
  }

  /** Whatever bytes are stored, the policy in force is usable: the level of FIXED exists and the active trips ascend by
      at least a degree. */
  lemma SanitizedIsSane(stored: Option<seq<byte>>)
    ensures var p := Sanitized(stored);
      Sane(p) && forall l: Level :: 1 <= l < LEVEL_MAX ==> Trip(p, l) + 1000 <= Trip(p, l + 1)
  {
  }

  /** The level called for, from the bytes as stored. A CUSTOM policy with usable trips counts its own bytes, in degrees; AUTO
      counts the built-in curve. */
  lemma DemandByBytes(stored: seq<byte>, t: int, level: Level)
    requires |stored| == 6 && level >= 1
    ensures stored[0] == 2 && 30 <= stored[2] < stored[3] < stored[4] < stored[5] <= 90 ==>
      (Demand(Sanitized(Some(stored)), t) >= level <==> t >= 1000 * stored[1 + level] as int)
    ensures stored[0] == 0 ==>
      (Demand(Sanitized(Some(stored)), t) >= level <==> t >= [50000, 60000, 67500, 75000][level - 1])
  {
  }

  /** The duty register is the level's share of 255, over 2078 ticks, to the nearest tick. */
  lemma DutyIsShare(level: Level)
    ensures var share := [0, 75, 125, 175, 250][level] * 2078;
      -127 <= 255 * DutyTicks(level) - share <= 127
  {
  }

  /** The sensor word by its fields: the reading below bit 10, and the two bits that make it valid. */
  lemma ReadingByBits(raw: nat, bit10: nat, middle: nat, bit16: nat, rest: nat)
    requires raw < 1024 && bit10 < 2 && middle < 32 && bit16 < 2
    ensures AvsMilliC(raw + 0x400 * bit10 + 0x800 * middle + 0x1_0000 * bit16 + 0x2_0000 * rest) ==
      if bit10 == 1 && bit16 == 1 then Some(450000 - 550 * raw) else None
  {
    var word := raw + 0x400 * bit10 + 0x800 * middle + 0x1_0000 * bit16 + 0x2_0000 * rest;
    assert word / 0x1_0000 == bit16 + 2 * rest;
    assert word / 0x400 == bit10 + 2 * (middle + 32 * bit16 + 64 * rest);
  }

  /** Stored bytes are in force unchanged exactly when they are a usable policy. The mode survives exactly when only the
      fixed level can be at fault: an unusable FIXED policy pins level 2, though it is documented to mean AUTO. */
  lemma PolicyInForce(stored: seq<byte>)
    requires |stored| == 6
    ensures var q := Unpack(stored); var p := Sanitized(Some(stored));
      && (p == q <==> Sane(q))
      && (!Regulable(q) <==> p.mode == MODE_AUTO && q.mode != MODE_AUTO)
      && (q.mode == MODE_FIXED && !Sane(q) ==> p.mode == MODE_FIXED && p.fixedLevel == LEVEL_SAFE as byte)
  {
  }

  /** Bytes that show it: FIXED with level 5 pins level 2, also at 80 degrees, where AUTO would command 4. */
  lemma InvalidFixedPins(level: int)
    requires -1 <= level <= LEVEL_MAX
    ensures var stored := [1, 5, 50, 60, 68, 75];
      && !Sane(Unpack(stored)) && Sanitized(Some(stored)) == Policy(MODE_FIXED, 2, 50, 60, 68, 75)
      && Commanded(-1, Sanitized(Some(stored)), level, Some(80000)) == 2
      && Commanded(-1, AUTO_DEFAULTS, level, Some(80000)) == 4
  {
  }

  /** The demanded level is the highest one whose trip has been reached. */
  lemma DemandIsHighest(p: Policy, t: int, l: Level)
    requires Sane(p) && l >= 1
    ensures l <= Demand(p, t) <==> t >= Trip(p, l)
  {
  }

  /** A decision never cools less than demanded, rises only to what is demanded, and drops by at most one level, and only
      below the hysteresis band. */
  lemma LoopBounds(p: Policy, level: int, t: int)
    requires Sane(p) && -1 <= level <= LEVEL_MAX
    ensures var next := Loop(p, level, t);
      && Demand(p, t) <= next && level - 1 <= next
      && (next > level ==> next == Demand(p, t))
      && (next < level ==> t < Trip(p, level) - HYST_MILLIC)
  {
  }

  /** More heat and a higher level before never give a lower level after. */
  lemma LoopMonotone(p: Policy, cooler: int, hotter: int, lower: int, higher: int)
    requires Sane(p) && -1 <= lower <= higher <= LEVEL_MAX && cooler <= hotter
    ensures Loop(p, lower, cooler) <= Loop(p, higher, hotter)
  {
  }

  // ----- the driver -----

  type Base = b: nat | 0 < b witness 1

  /** Module state; base 0 until RP1 shows up, level and override -1 for none. */
  datatype Fan = Fan(base: nat, level: int, over: int, policy: Policy, duty: nat, polling: bool)

  datatype Event =
    | Tick(rp1: Option<Base>, stored: Option<seq<byte>>, avs: nat)  // what the protocol, the variable and the sensor give
    | SetOverride(level: byte)
    | ClearOverride
    | ExitBootServices

  function SetLevel(fan: Fan, level: Level): Fan {
    fan.(level := level, duty := DutyTicks(level))
  }

  /** The level a tick commands once RP1 is there. */
  function Commanded(over: int, p: Policy, level: int, reading: Option<int>): Level
    requires Sane(p) && -1 <= level <= LEVEL_MAX && -1 <= over <= LEVEL_MAX
  {
    if over >= 0 then over
    else if p.mode == MODE_FIXED then p.fixedLevel as int
    else match reading
      case None => if level < LEVEL_SAFE then LEVEL_SAFE else level
      case Some(t) => Loop(p, level, t)
  }

  function Step(fan: Fan, e: Event): (next: Fan)
    requires InRange(fan)
    ensures InRange(next)
  {
    if !fan.polling then fan          // boot services are gone
    else match e
      case Tick(rp1, stored, avs) =>
        if fan.base == 0 && rp1.None? then fan
        else
          SanitizedIsSane(stored);
          var up := if fan.base == 0 then fan.(base := rp1.value, duty := 0) else fan;
          var ready := up.(policy := Sanitized(stored));
          var level := Commanded(ready.over, ready.policy, ready.level, AvsMilliC(avs));
          if level != ready.level then SetLevel(ready, level) else ready
      case SetOverride(l) =>
        if l as int > LEVEL_MAX then fan
        else
          var staged := fan.(over := l as int);
          if fan.base != 0 && fan.level != staged.over then SetLevel(staged, staged.over) else staged
      case ClearOverride => fan.(over := -1)
      case ExitBootServices =>
        var last := fan.(polling := false);
        if fan.base != 0 && fan.level < 1 then SetLevel(last, 1) else last
  }

  predicate InRange(fan: Fan) {
    -1 <= fan.level <= LEVEL_MAX && -1 <= fan.over <= LEVEL_MAX
  }

  const POWER_ON := Fan(0, -1, -1, Policy(0, 0, 0, 0, 0, 0), 0, true)

  class FanController {
    var base: nat
    var level: int
    var over: int
    var policy: Policy
    var duty: nat            // the PWM duty register
    var polling: bool        // the poll timer is armed

    constructor ()
      ensures State() == POWER_ON
    {
      base, level, over, policy, duty, polling := 0, -1, -1, Policy(0, 0, 0, 0, 0, 0), 0, true;
    }

    ghost function State(): Fan
      reads this
    {
      Fan(base, level, over, policy, duty, polling)
    }

    method ReadPolicy(stored: Option<seq<byte>>)
      modifies this`policy
      ensures policy == Sanitized(stored)
    {
      policy := Policy(MODE_AUTO, LEVEL_SAFE as byte, 50, 60, 68, 75);
      if stored.None? || |stored.value| != 6 {
        return;
      }
      var v := Unpack(stored.value);
      if v.mode > MODE_CUSTOM {
        return;
      }
      if v.mode == MODE_CUSTOM {
        if (v.trip1C as int) < TRIP_MIN_C || v.trip4C as int > TRIP_MAX_C
           || v.trip1C >= v.trip2C || v.trip2C >= v.trip3C || v.trip3C >= v.trip4C {
          return;
        }
      }
      policy := v;
      if policy.fixedLevel as int > LEVEL_MAX {
        policy := policy.(fixedLevel := LEVEL_SAFE as byte);
      }
    }

    method FanSetLevel(l: Level)
      modifies this`level, this`duty
      ensures level == l && duty == DutyTicks(l)
    {
      duty := (TABLE_DUTIES[l] * PWM_RANGE_TICKS + 127) / 255;
      level := l;
    }

    /** The highest level whose trip has been reached, searched from the top. */
    method Target(t: int) returns (target: Level)
      requires Sane(policy)
      ensures target == Demand(policy, t)
    {
      hide Demand, Trip;
      target := 0;
      var index := LEVEL_MAX + 1;
      while index > 1
        invariant 1 <= index <= LEVEL_MAX + 1
        invariant Demand(policy, t) < index
      {
        index := index - 1;
        DemandIsHighest(policy, t, index);
        if t >= Trip(policy, index) {
          return index;
        }
      }
    }

    method FanPollTick(rp1: Option<Base>, stored: Option<seq<byte>>, avs: nat)
      requires InRange(State()) && polling
      modifies this
      ensures State() == Step(old(State()), Tick(rp1, stored, avs))
    {
      if base == 0 {
        if rp1.None? {
          return;
        }
        base := rp1.value;
        duty := 0;
      }
      ReadPolicy(stored);
      SanitizedIsSane(stored);
      hide Sanitized, DutyTicks, AvsMilliC, Demand, Trip;
      if over >= 0 {
        if level != over {
          FanSetLevel(over);
        }
        return;
      }
      if policy.mode == MODE_FIXED {
        if level != policy.fixedLevel as int {
          FanSetLevel(policy.fixedLevel as int);
        }
        return;
      }
      var reading := AvsMilliC(avs);
      if reading.None? {
        if level < LEVEL_SAFE {
          FanSetLevel(LEVEL_SAFE);
        }
        return;
      }
      var target := Target(reading.value);
      if level >= 0 && target < level {
        if reading.value >= Trip(policy, level) - HYST_MILLIC {
          target := level;
        } else {
          target := level - 1;
        }
      }
      if target != level {
        FanSetLevel(target);
      }
    }

    method FanSetOverride(l: byte) returns (ok: bool)
      requires InRange(State()) && polling
      modifies this
      ensures ok == (l as int <= LEVEL_MAX)
      ensures State() == Step(old(State()), SetOverride(l))
    {
      if l as int > LEVEL_MAX {
        return false;
      }
      over := l as int;
      if base != 0 && level != over {
        FanSetLevel(over);
      }
      ok := true;
    }

    method FanClearOverride()
      requires InRange(State()) && polling
      modifies this`over
      ensures State() == Step(old(State()), ClearOverride)
    {
      over := -1;
    }

    method FanOnExitBootServices()
      requires InRange(State()) && polling
      modifies this
      ensures State() == Step(old(State()), ExitBootServices)
    {
      polling := false;
      if base != 0 && level < 1 {
        FanSetLevel(1);
      }
    }
  }

  // ----- every sequence of events -----

  /** What every event keeps: levels in range, no level without RP1, the duty register holds the duty of the level, and
      the fan is never handed off parked. */
  ghost predicate Inv(fan: Fan) {
    && InRange(fan)
    && (fan.level >= 0 ==> fan.base != 0 && fan.duty == DutyTicks(fan.level))
    && (fan.level < 0 ==> fan.duty == 0)
    && (fan.base != 0 && fan.over >= 0 && fan.polling ==> fan.level == fan.over)
    && (!fan.polling && fan.base != 0 ==> fan.level >= 1 && fan.duty > 0)
    && fan.duty <= PWM_RANGE_TICKS
  }

  lemma DutiesAscend(l: Level)
    ensures DutyTicks(l) <= PWM_RANGE_TICKS && (l >= 1 ==> DutyTicks(l - 1) < DutyTicks(l))
  {
  }

  lemma StepKeeps(fan: Fan, e: Event)
    requires Inv(fan)
    ensures Inv(Step(fan, e))
  {
    hide Sanitized, AvsMilliC, Loop, DutyTicks;
    var next := Step(fan, e);
    if next.level >= 0 {
      DutiesAscend(next.level);
    }
    DutiesAscend(1);
  }

  function Run(fan: Fan, events: seq<Event>): (end: Fan)
    requires InRange(fan)
    ensures InRange(end)
    decreases |events|
  {
    if events == [] then fan else Run(Step(fan, events[0]), events[1..])
  }

  /** From power-on, after any events: Inv. */
  lemma {:induction false} RunSafety(fan: Fan, events: seq<Event>)
    requires Inv(fan)
    ensures Inv(Run(fan, events)) && Inv(POWER_ON)
    decreases |events|
  {
    if events != [] {
      hide Step, Inv;
      StepKeeps(fan, events[0]);
      RunSafety(Step(fan, events[0]), events[1..]);
    }
    assert Inv(POWER_ON);
  }

  /** Ticks without a valid reading, and without an override or a pinned level: the fan never slows down and runs at
      least at the safe level. */
  lemma {:induction false} BlindTicks(fan: Fan, events: seq<Event>)
    requires Inv(fan) && fan.polling && fan.over == -1 && events != []
    requires forall i :: 0 <= i < |events| ==>
      && events[i].Tick? && events[i].rp1.Some? && AvsMilliC(events[i].avs).None?
      && Sanitized(events[i].stored).mode != MODE_FIXED
    ensures Run(fan, events).level >= fan.level && Run(fan, events).level >= LEVEL_SAFE
    decreases |events|
  {
    var next := Step(fan, events[0]);
    StepKeeps(fan, events[0]);
    assert next.level >= fan.level && next.level >= LEVEL_SAFE && next.polling && next.over == -1;
    hide Step, Inv, Sanitized, AvsMilliC;
    if |events| > 1 {
      BlindTicks(next, events[1..]);
    }
  }

  // ----- the closed loop over temperature traces -----

  /** The level after a trace of temperatures. */
  function After(p: Policy, level: int, temps: seq<int>): (end: int)
    requires -1 <= level <= LEVEL_MAX
    ensures -1 <= end <= LEVEL_MAX
    decreases |temps|
  {
    if temps == [] then level else After(p, Loop(p, level, temps[0]), temps[1..])
  }

  /** Ticks of a loop left alone: RP1 is there, the stored policy does not change, the sensor is valid. */
  predicate Regulating(stored: Option<seq<byte>>, events: seq<Event>) {
    forall i :: 0 <= i < |events| ==>
      events[i].Tick? && events[i].rp1.Some? && events[i].stored == stored && AvsMilliC(events[i].avs).Some?
  }

  function Temps(stored: Option<seq<byte>>, events: seq<Event>): (temps: seq<int>)
    requires Regulating(stored, events)
    ensures |temps| == |events|
    ensures forall i :: 0 <= i < |events| ==> temps[i] == AvsMilliC(events[i].avs).value
  {
    if events == [] then [] else [AvsMilliC(events[0].avs).value] + Temps(stored, events[1..])
  }

  /** A driver that is left to regulate goes through the levels of the closed loop. */
  lemma {:induction false} RunIsAfter(fan: Fan, stored: Option<seq<byte>>, events: seq<Event>)
    requires Inv(fan) && fan.polling && fan.over == -1
    requires Sanitized(stored).mode != MODE_FIXED && Regulating(stored, events)
    ensures Run(fan, events).level == After(Sanitized(stored), fan.level, Temps(stored, events))
    decreases |events|
  {
    if events != [] {
      var next := Step(fan, events[0]);
      assert next.level == Loop(Sanitized(stored), fan.level, AvsMilliC(events[0].avs).value) && next.polling && next.over == -1 by {
        hide Sanitized, AvsMilliC, Loop, DutyTicks, Inv;
        SanitizedIsSane(stored);
      }
      StepKeeps(fan, events[0]);
      hide Step, Inv, Sanitized, AvsMilliC, Loop;
      RunIsAfter(next, stored, events[1..]);
      assert Temps(stored, events)[1..] == Temps(stored, events[1..]);
    }
  }

  lemma {:induction false} AfterStep(p: Policy, level: int, temps: seq<int>, i: nat)
    requires -1 <= level <= LEVEL_MAX && i < |temps|
    ensures After(p, level, temps[..i + 1]) == Loop(p, After(p, level, temps[..i]), temps[i])
    decreases i
  {
    hide Loop;
    if i == 0 {
      assert temps[..1][1..] == [];
    } else {
      assert temps[..i + 1][1..] == temps[1..][..i] && temps[..i][1..] == temps[1..][..i - 1];
      AfterStep(p, Loop(p, level, temps[0]), temps[1..], i - 1);
    }
  }

  /** The level the fan is at holds through any temperature from low up. */
  predicate Held(p: Policy, level: int, low: int) {
    0 <= level <= LEVEL_MAX && (level >= 1 ==> Trip(p, level) - HYST_MILLIC <= low)
  }

  /** No fan hunting: along temperatures that stay within the width of the hysteresis band, once the level has stepped up
      it never steps down again. */
  lemma {:induction false} NoHunting(p: Policy, level: int, temps: seq<int>, low: int, i: nat, j: nat)
    requires Sane(p) && -1 <= level <= LEVEL_MAX
    requires forall k :: 0 <= k < |temps| ==> low <= temps[k] <= low + HYST_MILLIC
    requires i < j <= |temps|
    requires After(p, level, temps[..i + 1]) > After(p, level, temps[..i])
    ensures Held(p, After(p, level, temps[..j]), low)
    ensures After(p, level, temps[..j]) >= After(p, level, temps[..j - 1])
    decreases j
  {
    hide After;
    AfterStep(p, level, temps, j - 1);
    if j > i + 1 {
      NoHunting(p, level, temps, low, i, j - 1);
    }
  }

  function Repeat(temps: seq<int>, n: nat): seq<int> {
    if n == 0 then [] else temps + Repeat(temps, n - 1)
  }

  /** And the band is no wider than that: at every level of every policy, readings that swing by one thousandth of a
      degree more can step the fan down and up for ever. */
  lemma {:induction false} BandIsTight(p: Policy, level: Level, n: nat)
    requires Sane(p) && level >= 1
    ensures var swing := [Trip(p, level) - HYST_MILLIC - 1, Trip(p, level)];
      && After(p, level, Repeat(swing, n)) == level
      && After(p, level, [swing[0]] + Repeat([swing[1], swing[0]], n)) == level - 1
  {
    var swing := [Trip(p, level) - HYST_MILLIC - 1, Trip(p, level)];
    assert Loop(p, level, swing[0]) == level - 1 && Loop(p, level - 1, swing[1]) == level;
    hide Loop, Trip;
    if n == 0 {
      assert [swing[0]] + [] == [swing[0]] && [swing[0]][1..] == [];
    } else {
      BandIsTight(p, level, n - 1);
      var rest := Repeat(swing, n - 1);
      assert (swing + rest)[1..] == [swing[1]] + rest && ([swing[1]] + rest)[1..] == rest;
      assert After(p, level - 1, [swing[1]] + rest) == After(p, level, rest);
      var back := Repeat([swing[1], swing[0]], n - 1);
      var trace := [swing[0]] + ([swing[1], swing[0]] + back);
      assert trace[1..] == [swing[1]] + ([swing[0]] + back) && trace[1..][1..] == [swing[0]] + back;
      assert After(p, level - 1, trace[1..]) == After(p, level, [swing[0]] + back);
    }
  }

  /** Where a constant temperature leaves the fan: at the demanded level when coming from below, else at the first level
      on the way down whose band the temperature is in. */
  function Resting(p: Policy, level: int, t: int): Level
    requires -1 <= level <= LEVEL_MAX
    decreases level + 1
  {
    if level <= Demand(p, t) then Demand(p, t)
    else if t >= Trip(p, level) - HYST_MILLIC then level
    else Resting(p, level - 1, t)
  }

  lemma {:induction false} RestingStep(p: Policy, level: int, t: int)
    requires -1 <= level <= LEVEL_MAX
    ensures var next := Loop(p, level, t);
      && Resting(p, next, t) == Resting(p, level, t)
      && (next == Resting(p, level, t) || (next == level - 1 && next > Resting(p, level, t)))
    ensures Resting(p, level, t) >= Demand(p, t) && Loop(p, Resting(p, level, t), t) == Resting(p, level, t)
    decreases level + 1
  {
    hide Demand, Trip;
    if level > Demand(p, t) && t < Trip(p, level) - HYST_MILLIC {
      RestingStep(p, level - 1, t);
    }
  }

  function Max(a: int, b: int): int { if a < b then b else a }

  /** Constant temperature: the level falls by one a tick to its resting level, or jumps up to it at once; four ticks
      reach it from anywhere, and it stays. */
  lemma {:induction false} Converges(p: Policy, level: int, t: int, n: nat)
    requires Sane(p) && -1 <= level <= LEVEL_MAX && n >= 1
    ensures After(p, level, Repeat([t], n)) == Max(Resting(p, level, t), level - n)
    ensures n >= 4 ==> After(p, level, Repeat([t], n)) == Resting(p, level, t)
    decreases n
  {
    RestingStep(p, level, t);
    var next := Loop(p, level, t);
    var rest := Repeat([t], n - 1);
    assert ([t] + rest)[1..] == rest;
    hide Loop, Resting;
    if n > 1 {
      Converges(p, next, t, n - 1);
    } else {
      assert rest == [];
    }
  }

  /** A trace that is nowhere cooler, from a level that is not lower, ends at a level that is not lower. */
  lemma {:induction false} HotterNeverLower(p: Policy, lower: int, higher: int, cooler: seq<int>, hotter: seq<int>)
    requires Sane(p) && -1 <= lower <= higher <= LEVEL_MAX && |cooler| == |hotter|
    requires forall k :: 0 <= k < |cooler| ==> cooler[k] <= hotter[k]
    ensures After(p, lower, cooler) <= After(p, higher, hotter)
    decreases |cooler|
  {
    if cooler != [] {
      hide Loop;
      LoopMonotone(p, cooler[0], hotter[0], lower, higher);
      HotterNeverLower(p, Loop(p, lower, cooler[0]), Loop(p, higher, hotter[0]), cooler[1..], hotter[1..]);
    }
  }

  /** The fan is never below the demand of the temperature it last saw. */
  lemma NeverUnderCools(p: Policy, level: int, temps: seq<int>)
    requires Sane(p) && -1 <= level <= LEVEL_MAX && temps != []
    ensures After(p, level, temps) >= Demand(p, temps[|temps| - 1])
  {
    hide After, Loop, Demand;
    var i := |temps| - 1;
    AfterStep(p, level, temps, i);
    assert temps[..i + 1] == temps;
    LoopBounds(p, After(p, level, temps[..i]), temps[i]);
  }
}
