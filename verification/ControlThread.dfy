/** The shared state of the window protocol updated in place: pinsight_fire_window_end on an
    application thread, and the control thread's timer, wakeup and handler bodies
    (src/pinsight.c, src/pinsight_control_thread.c). Each body is the step of the same name in
    WindowProtocol.dfy. */
module ControlThread {
  import opened WindowProtocol
  import opened Numbering
  import opened Timespec

  lemma SwitchAllIs(st: State, a: nat)
    requires Wellformed(st) && a < |st.actions|
    ensures var r, target := SwitchAll(st, a), st.actions[a].target;
            && |r.domains| == |r.history.switches| == |st.domains|
            && r == st.(domains := r.domains, history := st.history.(switches := r.history.switches))
            && forall d :: 0 <= d < |st.domains| ==>
                 && r.domains[d] == Switch(st.domains[d], target[d])
                 && r.history.switches[d] == st.history.switches[d] + LatchBit(WantsSwitch(st.domains[d], target[d]))
  {
  }

  class Process {
    var actions: seq<Action>
    var domains: seq<Domain>
    var pending: int
    var reasons: set<Reason>
    var tokens: nat
    var timerArmed: bool
    var timerEnabled: bool
    var control: Control
    ghost var history: History

    ghost function Abs(): State
      reads this
    {
      State(actions, domains, pending, reasons, tokens, timerArmed, timerEnabled, control, history)
    }

    /** The atomic latch: true for the one caller that finds it clear. */
    method WinLatch(a: nat) returns (won: bool)
      requires Wellformed(Abs()) && a < |actions|
      modifies this`actions, this`history
      ensures won == !old(actions[a]).fired
      ensures Abs() == if won then Win(old(Abs()), a) else old(Abs())
    {
      won := !actions[a].fired;
      if won {
        actions := actions[a := actions[a].(fired := true)];
        history := history.(wins := history.wins[a := history.wins[a] + 1]);
      }
    }

    /** Both switching loops: a targeted domain whose latch is clear takes the new mode. */
    method SwitchDomains(a: nat)
      requires Wellformed(Abs()) && a < |actions|
      modifies this`domains, this`history
      ensures Abs() == SwitchAll(old(Abs()), a)
      ensures ModesTaken(actions[a].target, old(domains), false, domains)
    {
      ghost var before := Abs();
      SwitchAllIs(before, a);
      SwitchAllModes(before, a);
      hide SwitchAll, ModesTaken;
      var target := actions[a].target;
      for d := 0 to |domains|
        invariant |domains| == |before.domains| == |history.switches|
        invariant Abs() == before.(domains := domains, history := before.history.(switches := history.switches))
        invariant forall i :: 0 <= i < d ==> domains[i] == Switch(before.domains[i], target[i])
        invariant forall i :: 0 <= i < d ==>
                    history.switches[i] == before.history.switches[i] + LatchBit(WantsSwitch(before.domains[i], target[i]))
        invariant forall i :: d <= i < |domains| ==> domains[i] == before.domains[i] && history.switches[i] == before.history.switches[i]
      {
        var newMode := target[d];
        if newMode != Unspecified {
          if !domains[d].switched && newMode != domains[d].mode {
            domains := domains[d := Domain(newMode, domains[d].mode, true)];
            history := history.(switches := history.switches[d := history.switches[d] + 1]);
          }
        }
      }
      assert domains == SwitchAll(before, a).domains;
      assert history.switches == SwitchAll(before, a).history.switches;
    }

    method Wakeup(r: Reason)
      modifies this`reasons, this`tokens
      ensures Abs() == Post(old(Abs()), r)
    {
      reasons := reasons + {r};
      tokens := tokens + 1;
    }

    /** pinsight_fire_window_end */
    method FireWindowEnd(a: nat)
      requires Wellformed(Abs()) && Enabled(Abs(), Fire(a))
      modifies this
      ensures Abs() == Next(old(Abs()), Fire(a))
      ensures if old(actions)[a].fired || old(actions)[a].introspect then domains == old(domains)
              else ModesTaken(actions[a].target, old(domains), false, domains)
    {
      var won := WinLatch(a);
      if !won {
        return;
      }
      if !actions[a].introspect {
        SwitchDomains(a);
      }
      pending := a;
      if actions[a].introspect {
        Wakeup(Introspect);
      } else {
        Wakeup(ModeChange);
      }
    }

    /** window_already_ended */
    method WindowAlreadyEnded(a: nat) returns (ended: bool)
      requires Wellformed(Abs()) && a < |actions|
      ensures ended <==> AlreadyEnded(Abs(), a)
      ensures ended <==> && (forall d :: 0 <= d < |domains| ==> actions[a].target[d] == Unspecified || domains[d].switched)
                         && !(forall d :: 0 <= d < |domains| ==> actions[a].target[d] == Unspecified)
    {
      var hasTarget := false;
      var target := actions[a].target;
      for d := 0 to |domains|
        invariant hasTarget <==> exists i :: 0 <= i < d && target[i] != Unspecified
        invariant forall i :: 0 <= i < d && target[i] != Unspecified ==> domains[i].switched
      {
        if target[d] != Unspecified {
          hasTarget := true;
          if !domains[d].switched {
            return false;
          }
        }
      }
      return hasTarget;
    }

    /** The window timer has expired. */
    method OnTimer()
      requires Wellformed(Abs()) && Enabled(Abs(), Timer)
      modifies this
      ensures Abs() == Next(old(Abs()), Timer)
    {
      timerArmed := false;
      var ended := WindowAlreadyEnded(0);
      if ended {
        return;
      }
      var won := WinLatch(0);
      if !won {
        return;
      }
      pending := 0;
      HandleReasons({if actions[0].introspect then Introspect else ModeChange});
    }

    /** The semaphore gave a token: consume the reasons and handle them. */
    method OnWake()
      requires Wellformed(Abs()) && Enabled(Abs(), Wake)
      modifies this
      ensures Abs() == Next(old(Abs()), Wake)
    {
      tokens := tokens - 1;
      var reason := reasons;
      reasons := {};
      if Reload in reason {
        timerArmed := timerEnabled;
      }
      HandleReasons(reason);
    }

    /** Take the pending action, pause if it introspects, and apply it. */
    method HandleReasons(reason: set<Reason>)
      requires Wellformed(Abs())
      modifies this
      ensures Abs() == Handle(old(Abs()), reason)
    {
      if (Introspect in reason || ModeChange in reason) && pending != NONE {
        var a := pending;
        pending := NONE;
        if Introspect in reason && actions[a].pause != NoPause {
          control := Paused(a);
        } else {
          ApplyAction(a);
        }
      }
    }

    /** The introspection pause is over. */
    method OnResume(byToken: bool)
      requires Wellformed(Abs()) && Enabled(Abs(), Resume(byToken))
      modifies this
      ensures Abs() == Next(old(Abs()), Resume(byToken))
    {
      if byToken {
        tokens := tokens - 1;
      }
      ApplyAction(control.action);
    }

    method ApplyAction(a: nat)
      requires Wellformed(Abs()) && a < |actions|
      modifies this
      ensures Abs() == Apply(old(Abs()), a)
      ensures ModesTaken(actions[a].target, old(domains), Cyclic(old(actions)[a]), domains)
    {
      control := Waiting;
      ghost var before := Abs();
      SwitchDomains(a);
      var cyclicResume := false;
      var target := actions[a].target;
      for d := 0 to |domains|
        invariant cyclicResume <==> exists i :: 0 <= i < d && target[i] == Tracing
      {
        if target[d] == Tracing {
          cyclicResume := true;
        }
      }
      assert cyclicResume <==> Cyclic(actions[a]);
      if cyclicResume {
        ResetLatches(a);
      }
    }

    /** Open the next window of a cyclic action. */
    method ResetLatches(a: nat)
      requires Wellformed(Abs()) && a < |actions|
      modifies this
      ensures Abs() == Reopen(old(Abs()), a)
    {
      ghost var before := Abs();
      for d := 0 to |domains|
        invariant |domains| == |before.domains| && Abs() == before.(domains := domains)
        invariant forall i :: 0 <= i < d ==> domains[i] == before.domains[i].(switched := false)
        invariant forall i :: d <= i < |domains| ==> domains[i] == before.domains[i]
      {
        domains := domains[d := domains[d].(switched := false)];
      }
      actions := actions[a := actions[a].(fired := false, generation := (actions[a].generation + 1) % UINT_RANGE)];
      timerArmed := timerEnabled;
      history := history.(cycles := history.cycles[a := history.cycles[a] + 1], switches := seq(|domains|, _ => 0));
      assert domains == Reopen(before, a).domains;
      assert history.switches == Reopen(before, a).history.switches;
    }
  }

  // ---------- The control thread's deadlines ----------

  datatype WakeKind = WakeNone | WakeRotate | WakeWindow | WakeManifest

  datatype Deadline = Disarmed | At(time: Timespec)

  predicate Armed(d: Deadline) {
    d.At? && Normal(d.time)
  }

  /** The deadline to wait for: the earliest armed one; at equal times rotation before window before manifest. */
  method ChooseDeadline(rotate: Deadline, window: Deadline, manifest: Deadline) returns (kind: WakeKind, earliest: Deadline)
    requires forall d :: d in {rotate, window, manifest} && d.At? ==> Armed(d)
    ensures earliest == (match kind case WakeNone => Disarmed case WakeRotate => rotate case WakeWindow => window case WakeManifest => manifest)
    ensures kind == WakeNone <==> rotate.Disarmed? && window.Disarmed? && manifest.Disarmed?
    ensures forall d :: d in {rotate, window, manifest} && d.At? ==> earliest.At? && Ns(earliest.time) <= Ns(d.time)
    ensures rotate.At? && Ns(rotate.time) == Ns(earliest.time) ==> kind == WakeRotate
    ensures kind == WakeManifest && window.At? ==> Ns(manifest.time) < Ns(window.time)
  {
    kind, earliest := WakeNone, Disarmed;
    if rotate.At? {
      kind, earliest := WakeRotate, rotate;
    }
    if window.At? && (earliest.Disarmed? || Before(window.time, earliest.time)) {
      kind, earliest := WakeWindow, window;
    }
    if manifest.At? && (earliest.Disarmed? || Before(manifest.time, earliest.time)) {
      kind, earliest := WakeManifest, manifest;
    }
  }
}
