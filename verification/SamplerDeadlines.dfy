/** The sampler's multiplexed deadlines and overrun accounting (src/pinsight_sampler.c): arming,
    the earliest deadline, and moving a deadline on after a tick. */
module SamplerDeadlines {
  import opened Numbering
  import opened Timespec

  const NS_PER_US: int := 1000

  // ---------- Moving one deadline on, in nanoseconds ----------

  /** The deadline and the count of one probe's schedule; overruns are counted for the record. */
  datatype Schedule = Schedule(deadline: int, ticks: nat, missed: nat, overruns: nat)

  /** The periods missed by a deadline that lies `behind` in the past. */
  function Missed(behind: nat, interval: nat): nat
    requires interval > 0
  {
    behind / interval + 1
  }

  /** After a tick that ended at `now`: one interval on, or past `now` with the missed periods counted. */
  function Advance(s: Schedule, interval: nat, now: int): Schedule
    requires interval > 0
  {
    var next := s.deadline + interval;
    if next > now then Schedule(next, s.ticks + 1, s.missed, s.overruns)
    else Schedule(now + interval, s.ticks + 1, s.missed + Missed(now - next, interval), s.overruns + 1)
  }

  lemma MultipleAtMost(interval: nat, gap: nat, j: nat)
    requires interval > 0
    ensures j * interval <= gap <==> j <= gap / interval
  {
    var q := gap / interval;
    DivMod(gap, interval);
    Commutes(q, interval);
    if j <= q {
      ScaleMonotone(j, q, interval);
    } else {
      ScaleMonotone(q + 1, j, interval);
      Distributes(q, 1, interval);
    }
  }

  /** Each overrun adds exactly the nominal deadlines already passed. The new deadline lies in the
      interval after now: on the old grid, or a whole interval on once a grid point was passed. */
  lemma AdvanceCountsPassed(s: Schedule, interval: nat, now: int)
    requires interval > 0 && s.deadline <= now
    ensures now < Advance(s, interval, now).deadline <= now + interval
    ensures Advance(s, interval, now).deadline == (if now - s.deadline < interval then s.deadline else now) + interval
    ensures forall j: nat :: j > 0 ==>
              (s.deadline + j * interval <= now <==> j <= Advance(s, interval, now).missed - s.missed)
  {
    var r := Advance(s, interval, now);
    var gap := now - s.deadline;
    forall j: nat | j > 0 ensures s.deadline + j * interval <= now <==> j <= r.missed - s.missed {
      MultipleAtMost(interval, gap, j);
      DropOne(gap, interval);
    }
  }

  lemma DropOne(gap: nat, interval: nat)
    requires interval > 0
    ensures gap < interval ==> gap / interval == 0
    ensures gap >= interval ==> gap / interval == (gap - interval) / interval + 1
  {
    if gap < interval {
      DivModUnique(gap, interval, 0, gap);
    } else {
      var q := (gap - interval) / interval;
      DivMod(gap - interval, interval);
      Distributes(q, 1, interval);
      Commutes(q, interval);
      Commutes(q + 1, interval);
      DivModUnique(gap, interval, q + 1, (gap - interval) % interval);
    }
  }

  /** The schedule after ticks that ended at these times. */
  function Ticks(s: Schedule, interval: nat, nows: seq<int>): Schedule
    requires interval > 0
  {
    if nows == [] then s
    else Advance(Ticks(s, interval, nows[..|nows| - 1]), interval, nows[|nows| - 1])
  }

  /** A tick runs only once its deadline has come. */
  ghost predicate AllDue(s: Schedule, interval: nat, nows: seq<int>)
    requires interval > 0
  {
    nows == [] || (AllDue(s, interval, nows[..|nows| - 1]) &&
                   Ticks(s, interval, nows[..|nows| - 1]).deadline <= nows[|nows| - 1])
  }

  lemma AdvanceMoves(s: Schedule, interval: nat, now: int)
    requires interval > 0 && s.deadline <= now
    ensures var r := Advance(s, interval, now);
            var periods := r.ticks + r.missed - s.ticks - s.missed;
            periods * interval <= r.deadline - s.deadline <= (periods + r.overruns - s.overruns) * interval
  {
    var next := s.deadline + interval;
    if next <= now {
      var q := (now - next) / interval;
      DivMod(now - next, interval);
      Commutes(q, interval);
      Distributes(q, 2, interval);
      Distributes(q + 2, 1, interval);
    }
  }

  /** Over any run at a constant interval every period is accounted for: as a tick, as a missed
      one, or inside the fraction of a period that each overrun may lose. */
  lemma {:induction false} RunAccountsForTime(s: Schedule, interval: nat, nows: seq<int>)
    requires interval > 0 && AllDue(s, interval, nows)
    ensures var r := Ticks(s, interval, nows);
            && r.ticks == s.ticks + |nows|
            && r.ticks + r.missed >= s.ticks + s.missed && r.overruns >= s.overruns
            && (r.ticks + r.missed - s.ticks - s.missed) * interval <= r.deadline - s.deadline
            && r.deadline - s.deadline <= (r.ticks + r.missed - s.ticks - s.missed + r.overruns - s.overruns) * interval
  {
    if nows != [] {
      var mid := Ticks(s, interval, nows[..|nows| - 1]);
      RunAccountsForTime(s, interval, nows[..|nows| - 1]);
      AdvanceMoves(mid, interval, nows[|nows| - 1]);
      var r := Ticks(s, interval, nows);
      Distributes(mid.ticks + mid.missed - s.ticks - s.missed, r.ticks + r.missed - mid.ticks - mid.missed, interval);
      Distributes(mid.ticks + mid.missed - s.ticks - s.missed + mid.overruns - s.overruns,
                 r.ticks + r.missed - mid.ticks - mid.missed + r.overruns - mid.overruns, interval);
    }
  }

  // ---------- The loop's state ----------

  /** What the loop reads about a probe: its domain's interval in microseconds and trace mode, the
      latched draw that may exclude this process, and the least mode it asks for (0: any). */
  datatype Setting = Setting(intervalUs: nat, mode: nat, excluded: bool, minMode: nat)

  const MODE_NONE: nat := 0

  /** probe_enabled */
  predicate Enabled(s: Setting) {
    if s.intervalUs == 0 then false
    else if s.excluded then false
    else !(s.minMode != MODE_NONE && s.mode < s.minMode)
  }

  /** A probe with an interval that may run here does so from its least mode on; no least mode is
      the lowest one. */
  lemma EnabledFrom(s: Setting, mode: nat)
    ensures Enabled(s.(mode := mode)) <==> s.intervalUs > 0 && !s.excluded && mode >= s.minMode
  {
  }

  class Probe {
    var nextDeadline: Timespec
    var deadlineArmed: bool
    var ticks: nat
    var missedTicks: nat
    var costTotal: nat
    var costMin: nat
    var costMax: nat
    ghost var overruns: nat

    ghost function Abs(): Schedule
      reads this
    {
      Schedule(Ns(nextDeadline), ticks, missedTicks, overruns)
    }

    constructor ()
      ensures !deadlineArmed && ticks == missedTicks == overruns == costTotal == costMin == costMax == 0 && Normal(nextDeadline)
    {
      nextDeadline := Timespec(0, 0);
      deadlineArmed := false;
      ticks, missedTicks, overruns := 0, 0, 0;
      costTotal, costMin, costMax := 0, 0, 0;
    }

    /** Step 1 for one probe: disarm when disabled, arm afresh when newly enabled. */
    method Arm(now: Timespec, setting: Setting)
      requires Normal(now) && Normal(nextDeadline)
      modifies this
      ensures Normal(nextDeadline) && deadlineArmed == Enabled(setting)
      ensures Ns(nextDeadline) == if Enabled(setting) && !old(deadlineArmed) then Ns(now) + setting.intervalUs * NS_PER_US
                                  else old(Ns(nextDeadline))
      ensures ticks == old(ticks) && missedTicks == old(missedTicks) && overruns == old(overruns)
      ensures costTotal == old(costTotal) && costMin == old(costMin) && costMax == old(costMax)
    {
      if !Enabled(setting) {
        deadlineArmed := false;
        return;
      }
      if !deadlineArmed {
        nextDeadline := AddUs(now, setting.intervalUs);
        deadlineArmed := true;
      }
    }

    /** Steps 3 and 4 after the callback returned: count the tick and its cost, move the deadline on. */
    method FinishTick(intervalUs: nat, cost: nat, now: Timespec)
      requires intervalUs > 0 && Normal(now) && Normal(nextDeadline)
      modifies this
      ensures Normal(nextDeadline) && deadlineArmed == old(deadlineArmed)
      ensures Abs() == Advance(old(Abs()), intervalUs * NS_PER_US, Ns(now))
      ensures costTotal == old(costTotal) + cost
      ensures costMin == if old(costMin) == 0 || cost < old(costMin) then cost else old(costMin)
      ensures costMax == if cost > old(costMax) then cost else old(costMax)
    {
      hide Missed, Ns;
      ticks := ticks + 1;
      costTotal := costTotal + cost;
      if costMin == 0 || cost < costMin {
        costMin := cost;
      }
      if cost > costMax {
        costMax := cost;
      }
      nextDeadline := AddUs(nextDeadline, intervalUs);
      if DiffNs(nextDeadline, now) <= 0 {
        var behind := -DiffNs(nextDeadline, now);
        missedTicks := missedTicks + Missed(behind, intervalUs * NS_PER_US);
        overruns := overruns + 1;
        nextDeadline := AddUs(now, intervalUs);
      }
    }

    /** Step 3 for one probe: run it if it is enabled, armed and due. The interval is read again,
        and may be 0 by then; `cost` and `end` are what the callback took and when it returned. */
    method RunIfDue(setting: Setting, intervalNow: nat, now: Timespec, cost: nat, end: Timespec) returns (ran: bool)
      requires Normal(now) && Normal(end) && Normal(nextDeadline) && Ns(now) <= Ns(end)
      modifies this
      ensures Normal(nextDeadline)
      ensures ran <==> Enabled(setting) && old(deadlineArmed) && old(Ns(nextDeadline)) <= Ns(now) && intervalNow > 0
      ensures ran ==> Abs() == Advance(old(Abs()), intervalNow * NS_PER_US, Ns(end)) && deadlineArmed
      ensures ran ==> Ns(nextDeadline) == intervalNow * NS_PER_US +
                        if Ns(end) - old(Ns(nextDeadline)) < intervalNow * NS_PER_US then old(Ns(nextDeadline)) else Ns(end)
      ensures ran ==> Ns(end) < Ns(nextDeadline)
      ensures !ran ==> Abs() == old(Abs())
      ensures !ran ==> deadlineArmed == (old(deadlineArmed) &&
                         !(Enabled(setting) && old(Ns(nextDeadline)) <= Ns(now) && intervalNow == 0))
    {
      hide Advance;
      ran := false;
      if !Enabled(setting) || !deadlineArmed {
        return;
      }
      if DiffNs(nextDeadline, now) > 0 {
        return;
      }
      if intervalNow == 0 {
        deadlineArmed := false;
        return;
      }
      ran := true;
      AdvanceCountsPassed(Abs(), intervalNow * NS_PER_US, Ns(end));
      FinishTick(intervalNow, cost, end);
    }
  }

  /** Step 1: arm every probe and find the earliest deadline among the enabled ones, if any. */
  method EarliestDeadline(probes: seq<Probe>, settings: seq<Setting>, now: Timespec) returns (any: bool, earliest: Timespec)
    requires |settings| == |probes| && Normal(now)
    requires forall i, j :: 0 <= i < j < |probes| ==> probes[i] != probes[j]
    requires forall i :: 0 <= i < |probes| ==> Normal(probes[i].nextDeadline)
    modifies probes
    ensures forall i :: 0 <= i < |probes| ==> Normal(probes[i].nextDeadline) && probes[i].deadlineArmed == Enabled(settings[i])
    ensures forall i :: 0 <= i < |probes| && Enabled(settings[i]) ==>
              Ns(probes[i].nextDeadline) == if old(probes[i].deadlineArmed) then old(Ns(probes[i].nextDeadline))
                                            else Ns(now) + settings[i].intervalUs * NS_PER_US
    ensures any <==> exists i :: 0 <= i < |probes| && Enabled(settings[i])
    ensures any ==> && (forall i :: 0 <= i < |probes| && Enabled(settings[i]) ==> Ns(earliest) <= Ns(probes[i].nextDeadline))
                    && (exists i :: 0 <= i < |probes| && Enabled(settings[i]) && earliest == probes[i].nextDeadline)
  {
    any, earliest := false, Timespec(0, 0);
    for i := 0 to |probes|
      invariant forall j :: 0 <= j < |probes| ==> Normal(probes[j].nextDeadline)
      invariant forall j :: i <= j < |probes| ==>
                  probes[j].nextDeadline == old(probes[j].nextDeadline) && probes[j].deadlineArmed == old(probes[j].deadlineArmed)
      invariant forall j :: 0 <= j < i ==> probes[j].deadlineArmed == Enabled(settings[j])
      invariant forall j :: 0 <= j < i && Enabled(settings[j]) ==>
                  Ns(probes[j].nextDeadline) == if old(probes[j].deadlineArmed) then old(Ns(probes[j].nextDeadline))
                                                else Ns(now) + settings[j].intervalUs * NS_PER_US
      invariant any <==> exists j :: 0 <= j < i && Enabled(settings[j])
      invariant any ==> forall j :: 0 <= j < i && Enabled(settings[j]) ==> Ns(earliest) <= Ns(probes[j].nextDeadline)
      invariant any ==> exists j :: 0 <= j < i && Enabled(settings[j]) && earliest == probes[j].nextDeadline
    {
      var p := probes[i];
      p.Arm(now, settings[i]);
      if Enabled(settings[i]) {
        if !any || DiffNs(p.nextDeadline, earliest) < 0 {
          earliest := p.nextDeadline;
          any := true;
        }
      }
    }
  }
}
