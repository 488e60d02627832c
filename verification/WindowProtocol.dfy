/** How a tracing window ends: application threads that cap a region, the window timer and the
    control thread share end actions, their latches and one pending slot (src/pinsight.c,
    src/pinsight_control_thread.c). Each body is one atomic step; the pause of an introspection
    splits the control thread's handler in two. A config reload is only its wakeup: the
    configuration it reads stays the same. */
module WindowProtocol {
  import opened Numbering

  datatype Mode = Unspecified | Off | Standby | Monitoring | Tracing

  /** window_end_action_t: what it asks for, then its latch and its cycle count. */
  datatype Action = Action(target: seq<Mode>, introspect: bool, pause: Pause, fired: bool, generation: nat)

  /** introspect_pause_duration: zero, positive or negative. */
  datatype Pause = NoPause | Timed | UntilSignal

  /** domain_trace_config_t: `switched` is its mode_change_fired latch. */
  datatype Domain = Domain(mode: Mode, lastMode: Mode, switched: bool)

  datatype Reason = Reload | ModeChange | Introspect

  /** What happened so far, for the record: latch wins and cycles of each action, and window-end
      switches of each domain since its latch was last reset. */
  datatype History = History(wins: seq<nat>, cycles: seq<nat>, switches: seq<nat>)

  /** The control thread waits, or sits in the introspection pause of an action. */
  datatype Control = Waiting | Paused(action: nat)

  /** Action 0 is the default one, which the timer fires; the others are its per-domain copies. */
  datatype State = State(actions: seq<Action>, domains: seq<Domain>, pending: int, reasons: set<Reason>,
                         tokens: nat, timerArmed: bool, timerEnabled: bool, control: Control, history: History)

  const NONE: int := -1

  datatype Event =
    | Fire(action: nat)       // an application thread caps a region of this action
    | Signal                  // SIGUSR1
    | Wake                    // the control thread takes a token
    | Timer                   // the window timer expires
    | Resume(byToken: bool)   // the introspection pause ends

  // ---------- Steps ----------

  ghost predicate WantsSwitch(d: Domain, target: Mode) {
    target != Unspecified && !d.switched && target != d.mode
  }

  ghost function Switch(d: Domain, target: Mode): Domain {
    if WantsSwitch(d, target) then Domain(target, d.mode, true) else d
  }

  /** Every domain the action targets changes mode, unless its latch is set. */
  ghost function SwitchAll(st: State, a: nat): State
    requires Wellformed(st) && a < |st.actions|
  {
    var target := st.actions[a].target;
    st.(domains := seq(|st.domains|, d requires 0 <= d < |st.domains| => Switch(st.domains[d], target[d])),
        history := st.history.(switches := seq(|st.domains|, d requires 0 <= d < |st.domains| =>
          st.history.switches[d] + LatchBit(WantsSwitch(st.domains[d], target[d])))))
  }

  ghost predicate Wellformed(st: State) {
    && |st.actions| > 0 && |st.history.wins| == |st.history.cycles| == |st.actions|
    && |st.history.switches| == |st.domains|
    && (forall a :: 0 <= a < |st.actions| ==> |st.actions[a].target| == |st.domains|)
    && (forall a :: 0 <= a < |st.actions| && st.actions[a].pause != NoPause ==> st.actions[a].introspect)
    && (st.pending == NONE || 0 <= st.pending < |st.actions|)
    && (st.control.Paused? ==> st.control.action < |st.actions|)
  }

  ghost predicate Cyclic(a: Action) {
    exists d :: 0 <= d < |a.target| && a.target[d] == Tracing
  }

  /** The action wins its latch. */
  ghost function Win(st: State, a: nat): State
    requires Wellformed(st) && a < |st.actions|
  {
    st.(actions := st.actions[a := st.actions[a].(fired := true)],
        history := st.history.(wins := st.history.wins[a := st.history.wins[a] + 1]))
  }

  ghost function Post(st: State, r: Reason): State {
    st.(reasons := st.reasons + {r}, tokens := st.tokens + 1)
  }

  ghost function ReasonOf(a: Action): Reason {
    if a.introspect then Introspect else ModeChange
  }

  /** pinsight_fire_window_end */
  ghost function FireStep(st: State, a: nat): State
    requires Wellformed(st) && a < |st.actions|
  {
    if st.actions[a].fired then st else
    var won := Win(st, a);
    var now := if st.actions[a].introspect then won else SwitchAll(won, a);
    Post(now.(pending := a), ReasonOf(st.actions[a]))
  }

  /** window_already_ended: the action has targets and all of them have switched. */
  ghost predicate AlreadyEnded(st: State, a: nat)
    requires Wellformed(st) && a < |st.actions|
  {
    var target := st.actions[a].target;
    && (exists d :: 0 <= d < |target| && target[d] != Unspecified)
    && (forall d :: 0 <= d < |target| && target[d] != Unspecified ==> st.domains[d].switched)
  }

  /** The handler after any pause: switch, and for a cyclic action open the next window. */
  ghost function Apply(st: State, a: nat): State
    requires Wellformed(st) && a < |st.actions|
  {
    var now := SwitchAll(st.(control := Waiting), a);
    if Cyclic(st.actions[a]) then Reopen(now, a) else now
  }

  /** The next window: every latch reset, one more cycle, the timer armed again. */
  ghost function Reopen(st: State, a: nat): State
    requires Wellformed(st) && a < |st.actions|
  {
    st.(actions := st.actions[a := st.actions[a].(fired := false, generation := (st.actions[a].generation + 1) % UINT_RANGE)],
        domains := seq(|st.domains|, d requires 0 <= d < |st.domains| => st.domains[d].(switched := false)),
        timerArmed := st.timerEnabled,
        history := st.history.(cycles := st.history.cycles[a := st.history.cycles[a] + 1],
                               switches := seq(|st.domains|, _ => 0)))
  }

  /** The handler, from consuming the pending action up to an introspection pause. */
  ghost function Handle(st: State, reasons: set<Reason>): State
    requires Wellformed(st)
  {
    if (Introspect !in reasons && ModeChange !in reasons) || st.pending == NONE then st else
    var a := st.pending;
    var taken := st.(pending := NONE);
    if Introspect in reasons && st.actions[a].pause != NoPause then taken.(control := Paused(a))
    else Apply(taken, a)
  }

  ghost predicate Enabled(st: State, e: Event) {
    match e
    case Fire(a) => a < |st.actions|
    case Signal => true
    case Wake => st.control == Waiting && st.tokens > 0
    case Timer => st.control == Waiting && st.timerArmed
    case Resume(byToken) => st.control.Paused? && st.control.action < |st.actions| &&
                            (if byToken then st.tokens > 0 else st.actions[st.control.action].pause == Timed)
  }

  ghost function Next(st: State, e: Event): State
    requires Wellformed(st) && Enabled(st, e)
  {
    match e
    case Fire(a) => FireStep(st, a)
    case Signal => Post(st, Reload)
    case Wake =>
      var awake := st.(tokens := st.tokens - 1, reasons := {},
                       timerArmed := if Reload in st.reasons then st.timerEnabled else st.timerArmed);
      Handle(awake, st.reasons)
    case Timer =>
      var off := st.(timerArmed := false);
      if AlreadyEnded(st, 0) || st.actions[0].fired then off
      else Handle(Win(off, 0).(pending := 0), {ReasonOf(st.actions[0])})
    case Resume(byToken) => Apply(if byToken then st.(tokens := st.tokens - 1) else st, st.control.action)
  }

  // ---------- The invariant ----------

  ghost function LatchBit(b: bool): nat { if b then 1 else 0 }

  ghost predicate LatchesAddUp(st: State)
    requires Wellformed(st)
  {
    forall a :: 0 <= a < |st.actions| ==>
      && st.history.wins[a] == st.history.cycles[a] + LatchBit(st.actions[a].fired)
      && st.actions[a].generation == st.history.cycles[a] % UINT_RANGE
      && (!Cyclic(st.actions[a]) ==> st.history.cycles[a] == 0)
  }

  ghost predicate SwitchesAddUp(st: State)
    requires Wellformed(st)
  {
    forall d :: 0 <= d < |st.domains| ==> st.history.switches[d] == LatchBit(st.domains[d].switched)
  }

  /** Only an action whose latch is taken is pending or being handled, and never both. */
  ghost predicate HeldByLatch(st: State)
    requires Wellformed(st)
  {
    && (st.pending != NONE ==> st.actions[st.pending].fired)
    && (st.control.Paused? ==> st.actions[st.control.action].fired && st.pending != st.control.action)
  }

  ghost predicate Invariant(st: State) {
    Wellformed(st) && LatchesAddUp(st) && SwitchesAddUp(st) && HeldByLatch(st)
  }

  lemma SameTarget(a: Action, b: Action)
    requires a.target == b.target
    ensures Cyclic(a) <==> Cyclic(b)
  {
  }

  lemma WinKeeps(st: State, a: nat)
    requires Wellformed(st) && LatchesAddUp(st) && SwitchesAddUp(st) && a < |st.actions| && !st.actions[a].fired
    ensures Wellformed(Win(st, a)) && LatchesAddUp(Win(st, a)) && SwitchesAddUp(Win(st, a))
  {
    var won := Win(st, a);
    forall b | 0 <= b < |st.actions| ensures Cyclic(won.actions[b]) <==> Cyclic(st.actions[b]) {
      assert won.actions[b].target == st.actions[b].target;
    }
  }

  lemma SwitchAllKeeps(st: State, a: nat)
    requires Wellformed(st) && LatchesAddUp(st) && SwitchesAddUp(st) && a < |st.actions|
    ensures Wellformed(SwitchAll(st, a)) && LatchesAddUp(SwitchAll(st, a)) && SwitchesAddUp(SwitchAll(st, a))
  {
  }

  lemma ReopenKeeps(st: State, a: nat)
    requires Wellformed(st) && LatchesAddUp(st) && a < |st.actions| && st.actions[a].fired && Cyclic(st.actions[a])
    ensures var end := Reopen(st, a); Wellformed(end) && LatchesAddUp(end) && SwitchesAddUp(end)
  {
    hide Cyclic;
    SameTarget(st.actions[a], Reopen(st, a).actions[a]);
  }

  lemma ApplyKeeps(st: State, a: nat)
    requires Wellformed(st) && LatchesAddUp(st) && SwitchesAddUp(st)
    requires a < |st.actions| && st.actions[a].fired && st.pending != a
    requires st.pending != NONE ==> st.actions[st.pending].fired
    ensures Invariant(Apply(st, a))
  {
    hide Cyclic, LatchesAddUp, SwitchesAddUp;
    var idle := st.(control := Waiting);
    ControlIsFree(st, idle);
    SwitchAllKeeps(idle, a);
    if Cyclic(st.actions[a]) {
      ReopenKeeps(SwitchAll(idle, a), a);
    }
  }

  lemma ControlIsFree(st: State, idle: State)
    requires Wellformed(st) && LatchesAddUp(st) && SwitchesAddUp(st) && idle == st.(control := Waiting)
    ensures Wellformed(idle) && LatchesAddUp(idle) && SwitchesAddUp(idle)
  {
    hide Cyclic;
  }

  lemma HandleKeeps(st: State, reasons: set<Reason>)
    requires Invariant(st) && st.control == Waiting
    ensures Invariant(Handle(st, reasons))
  {
    if st.pending != NONE {
      ApplyKeeps(st.(pending := NONE), st.pending);
    }
  }

  /** What firing an action with a free latch leaves alone. */
  lemma FireIsQuiet(st: State, a: nat)
    requires Wellformed(st) && a < |st.actions| && !st.actions[a].fired
    ensures var end := FireStep(st, a);
            && Wellformed(end) && end.actions == st.actions[a := st.actions[a].(fired := true)]
            && end.pending == a && end.control == st.control
            && end.reasons == st.reasons + {ReasonOf(st.actions[a])} && end.tokens == st.tokens + 1
  {
  }

  lemma FireTaken(st: State, a: nat)
    requires Wellformed(st) && a < |st.actions| && st.actions[a].fired
    ensures FireStep(st, a) == st
  {
  }

  lemma FireKeeps(st: State, a: nat)
    requires Invariant(st) && a < |st.actions|
    ensures Invariant(FireStep(st, a))
  {
    if !st.actions[a].fired {
      hide Cyclic;
      WinKeeps(st, a);
      SwitchAllKeeps(Win(st, a), a);
      FireIsQuiet(st, a);
    }
  }

  /** The control thread has taken a token and the reasons with it. */
  ghost function Awoken(st: State): State
    requires st.tokens > 0
  {
    st.(tokens := st.tokens - 1, reasons := {},
        timerArmed := if Reload in st.reasons then st.timerEnabled else st.timerArmed)
  }

  lemma TimerKeeps(st: State)
    requires Invariant(st) && st.control == Waiting && !st.actions[0].fired
    ensures Invariant(Win(st, 0).(pending := 0))
  {
    hide Cyclic;
    WinKeeps(st, 0);
  }

  lemma NextKeeps(st: State, e: Event)
    requires Invariant(st) && Enabled(st, e)
    ensures Invariant(Next(st, e))
  {
    hide Apply, Handle, SwitchAll, Cyclic, FireStep;
    match e
    case Fire(a) => FireKeeps(st, a);
    case Signal =>
    case Wake => HandleKeeps(Awoken(st), st.reasons);
    case Timer =>
      var off := st.(timerArmed := false);
      if !(AlreadyEnded(st, 0) || st.actions[0].fired) {
        TimerKeeps(off);
        HandleKeeps(Win(off, 0).(pending := 0), {ReasonOf(st.actions[0])});
      }
    case Resume(byToken) =>
      ApplyKeeps(if byToken then st.(tokens := st.tokens - 1) else st, st.control.action);
  }

  // ---------- Runs ----------

  /** Every latch clear, nothing pending, nothing counted; any modes and any actions. */
  ghost predicate Initial(st: State) {
    && Wellformed(st) && st.pending == NONE && st.control == Waiting && st.reasons == {} && st.tokens == 0
    && (forall a :: 0 <= a < |st.actions| ==> !st.actions[a].fired && st.actions[a].generation == 0)
    && (forall a :: 0 <= a < |st.actions| ==> st.history.wins[a] == st.history.cycles[a] == 0)
    && (forall d :: 0 <= d < |st.domains| ==> !st.domains[d].switched && st.history.switches[d] == 0)
  }

  /** The state after a run; an event that is not enabled does not happen. */
  ghost function After(start: State, es: seq<Event>): State
    requires Wellformed(start)
  {
    if es == [] then start else
    var st := After(start, es[..|es| - 1]);
    if Wellformed(st) && Enabled(st, es[|es| - 1]) then Next(st, es[|es| - 1]) else st
  }

  lemma {:induction false} InvariantAfter(start: State, es: seq<Event>)
    requires Initial(start)
    ensures Invariant(After(start, es))
    decreases |es|
  {
    hide Next, LatchesAddUp, SwitchesAddUp, HeldByLatch, Enabled;
    if es == [] {
      InitialInvariant(start);
    } else {
      InvariantAfter(start, es[..|es| - 1]);
      var st := After(start, es[..|es| - 1]);
      if Enabled(st, es[|es| - 1]) {
        NextKeeps(st, es[|es| - 1]);
      }
    }
  }

  lemma InitialInvariant(st: State)
    requires Initial(st)
    ensures Invariant(st)
  {
  }

  /** Over every interleaving: an action wins its latch once for every cycle it completed, plus
      once if the latch is taken; its generation counts the cycles; a one-shot action wins once. */
  lemma LatchWins(start: State, es: seq<Event>, a: nat)
    requires Initial(start) && a < |After(start, es).actions|
    ensures Wellformed(After(start, es))
    ensures var st := After(start, es);
            && st.history.wins[a] == st.history.cycles[a] + LatchBit(st.actions[a].fired)
            && st.actions[a].generation == st.history.cycles[a] % UINT_RANGE
            && (!Cyclic(st.actions[a]) ==> st.history.wins[a] <= 1)
  {
    InvariantAfter(start, es);
  }

  /** Over every interleaving, even of count copies with the timer's own action: window ends switch
      a domain's mode at most once between two resets of its latch. */
  lemma SwitchedAtMostOnce(start: State, es: seq<Event>, d: nat)
    requires Initial(start) && d < |After(start, es).domains|
    ensures Wellformed(After(start, es))
    ensures After(start, es).history.switches[d] == LatchBit(After(start, es).domains[d].switched)
  {
    InvariantAfter(start, es);
  }

  // ---------- When is a wakeup lost? ----------

  /** A reason is waiting, but the control thread would sleep on the semaphore. */
  ghost predicate Lost(st: State) {
    st.control == Waiting && st.reasons != {} && st.tokens == 0
  }

  ghost predicate LostAfter(start: State, es: seq<Event>)
    requires Wellformed(start)
  {
    Lost(After(start, es))
  }

  ghost predicate NeverPauses(actions: seq<Action>) {
    forall a :: 0 <= a < |actions| ==> actions[a].pause == NoPause
  }

  ghost predicate AwakeInvariant(st: State) {
    Wellformed(st) && NeverPauses(st.actions) && st.control == Waiting && (st.reasons != {} ==> st.tokens > 0)
  }

  lemma ApplyIsQuiet(st: State, a: nat)
    requires Wellformed(st) && a < |st.actions|
    ensures var end := Apply(st, a);
            && Wellformed(end) && end.control == Waiting && end.reasons == st.reasons && end.tokens == st.tokens
            && end.pending == st.pending && |end.actions| == |st.actions| && end.history.wins == st.history.wins
            && (forall b :: 0 <= b < |st.actions| ==> end.actions[b].pause == st.actions[b].pause)
            && (forall b :: 0 <= b < |st.actions| ==> end.actions[b].target == st.actions[b].target)
            && (forall b :: 0 <= b < |st.actions| && b != a ==> end.actions[b] == st.actions[b])
            && end.actions[a].fired == (st.actions[a].fired && !Cyclic(st.actions[a]))
  {
    hide Cyclic;
  }

  lemma NextKeepsAwake(st: State, e: Event)
    requires AwakeInvariant(st) && Enabled(st, e)
    ensures AwakeInvariant(Next(st, e))
  {
    hide Apply, SwitchAll, FireStep;
    match e
    case Fire(a) => if !st.actions[a].fired { FireIsQuiet(st, a); } else { FireTaken(st, a); }
    case Signal =>
    case Wake => if st.pending != NONE { ApplyIsQuiet(Awoken(st).(pending := NONE), st.pending); }
    case Timer =>
      var off := st.(timerArmed := false);
      ApplyIsQuiet(Win(off, 0).(pending := 0).(pending := NONE), 0);
  }

  lemma {:induction false} AwakeAfter(start: State, es: seq<Event>)
    requires Initial(start) && NeverPauses(start.actions)
    ensures AwakeInvariant(After(start, es))
    decreases |es|
  {
    hide Next, Enabled;
    if es != [] {
      AwakeAfter(start, es[..|es| - 1]);
      var st := After(start, es[..|es| - 1]);
      if Enabled(st, es[|es| - 1]) {
        NextKeepsAwake(st, es[|es| - 1]);
      }
    }
  }

  /** The pause eats the token of a signal that arrives during it, and the signal's reason stays behind. */
  lemma PauseLoses(start: State, a: nat) returns (es: seq<Event>)
    requires Initial(start) && a < |start.actions| && start.actions[a].pause != NoPause
    ensures Lost(After(start, es))
  {
    hide Apply, SwitchAll, FireStep, Cyclic;
    FireIsQuiet(start, a);
    var fire, wake, signal, resume := [Fire(a)], [Fire(a), Wake], [Fire(a), Wake, Signal], [Fire(a), Wake, Signal, Resume(true)];
    assert fire[..0] == [] && wake[..1] == fire && signal[..2] == wake && resume[..3] == signal;
    var s1 := Next(start, Fire(a));
    assert After(start, fire) == s1;
    assert Introspect in s1.reasons && s1.pending == a && s1.tokens == 1;
    var s2 := Next(s1, Wake);
    assert After(start, wake) == s2;
    assert s2.control == Paused(a) && s2.tokens == 0 && s2.reasons == {};
    var s3 := Next(s2, Signal);
    assert After(start, signal) == s3;
    assert After(start, resume) == Next(s3, Resume(true));
    ApplyIsQuiet(s3.(tokens := 0), a);
    es := resume;
  }

  /** No wakeup is ever lost exactly when no action pauses the application. */
  lemma WakeupsAreKept(start: State)
    requires Initial(start)
    ensures NeverPauses(start.actions) <==> forall es: seq<Event> :: !LostAfter(start, es)
  {
    if NeverPauses(start.actions) {
      forall es: seq<Event> ensures !LostAfter(start, es) {
        AwakeAfter(start, es);
      }
    } else {
      var a: nat :| a < |start.actions| && start.actions[a].pause != NoPause;
      var es := PauseLoses(start, a);
      assert LostAfter(start, es);
    }
  }

  // ---------- When does a cyclic window stall? ----------

  /** The taken latch of a is about to be handled: its action is pending, with the token and the
      reason that make the control thread take it, or it is being handled. */
  ghost predicate OnItsWay(st: State, a: nat)
    requires a < |st.actions|
  {
    || (st.pending == a && st.control == Waiting && st.tokens > 0 && ReasonOf(st.actions[a]) in st.reasons)
    || st.control == Paused(a)
  }

  ghost predicate CyclesGoOn(st: State) {
    forall a: nat :: a < |st.actions| && st.actions[a].fired && Cyclic(st.actions[a]) ==> OnItsWay(st, a)
  }

  /** The latch of a is taken, and its action is neither pending nor being handled. */
  ghost predicate Stranded(st: State, a: nat) {
    a < |st.actions| && st.actions[a].fired && st.pending != a && st.control != Paused(a)
  }

  ghost predicate SoleInvariant(st: State) {
    Wellformed(st) && |st.actions| == 1 && CyclesGoOn(st) && (st.pending != NONE ==> OnItsWay(st, 0))
  }

  lemma NextKeepsSole(st: State, e: Event)
    requires SoleInvariant(st) && HeldByLatch(st) && Enabled(st, e)
    ensures SoleInvariant(Next(st, e))
  {
    hide Apply, SwitchAll, Cyclic, FireStep;
    match e
    case Fire(a) => if !st.actions[a].fired { FireIsQuiet(st, a); } else { FireTaken(st, a); }
    case Signal =>
    case Wake =>
      if st.pending != NONE {
        ApplyOpens(Awoken(st).(pending := NONE));
      }
    case Timer =>
      var off := st.(timerArmed := false);
      ApplyOpens(Win(off, 0).(pending := 0).(pending := NONE));
    case Resume(byToken) =>
      ApplyOpens(if byToken then st.(tokens := st.tokens - 1) else st);
  }

  lemma ApplyOpens(st: State)
    requires Wellformed(st) && |st.actions| == 1 && st.pending == NONE
    ensures SoleInvariant(Apply(st, 0))
  {
    ApplyIsQuiet(st, 0);
    SameTarget(st.actions[0], Apply(st, 0).actions[0]);
  }

  lemma {:induction false} SoleAfter(start: State, es: seq<Event>)
    requires Initial(start) && |start.actions| == 1
    ensures SoleInvariant(After(start, es))
    decreases |es|
  {
    hide Next, Enabled, CyclesGoOn, LatchesAddUp, SwitchesAddUp;
    if es == [] {
      InitialOpen(start);
    } else {
      SoleAfter(start, es[..|es| - 1]);
      InvariantAfter(start, es[..|es| - 1]);
      var st := After(start, es[..|es| - 1]);
      if Enabled(st, es[|es| - 1]) {
        NextKeepsSole(st, es[|es| - 1]);
      }
    }
  }

  lemma InitialOpen(st: State)
    requires Initial(st)
    ensures CyclesGoOn(st)
  {
  }

  /** Cyclic stays as configured. */
  lemma {:induction false} OneShotAfter(start: State, es: seq<Event>)
    requires Initial(start) && forall a :: 0 <= a < |start.actions| ==> !Cyclic(start.actions[a])
    ensures var st := After(start, es);
            Wellformed(st) && forall a :: 0 <= a < |st.actions| ==> !Cyclic(st.actions[a])
    decreases |es|
  {
    hide Cyclic;
    if es == [] {
    } else {
      OneShotAfter(start, es[..|es| - 1]);
      var st := After(start, es[..|es| - 1]);
      if Enabled(st, es[|es| - 1]) {
        TargetsStay(st, es[|es| - 1]);
        var end := Next(st, es[|es| - 1]);
        forall a | 0 <= a < |st.actions| ensures !Cyclic(end.actions[a]) {
          SameTarget(st.actions[a], end.actions[a]);
        }
      }
    }
  }

  lemma HandleIsQuiet(st: State, reasons: set<Reason>)
    requires Wellformed(st)
    ensures var end := Handle(st, reasons);
            && Wellformed(end) && |end.actions| == |st.actions|
            && forall a :: 0 <= a < |st.actions| ==> end.actions[a].target == st.actions[a].target
  {
    hide Apply;
    if st.pending != NONE {
      ApplyIsQuiet(st.(pending := NONE), st.pending);
    }
  }

  lemma TargetsStay(st: State, e: Event)
    requires Wellformed(st) && Enabled(st, e)
    ensures Wellformed(Next(st, e)) && |Next(st, e).actions| == |st.actions|
    ensures forall a :: 0 <= a < |st.actions| ==> Next(st, e).actions[a].target == st.actions[a].target
  {
    hide Apply, SwitchAll, Cyclic, FireStep, Handle;
    match e
    case Fire(a) => if !st.actions[a].fired { FireIsQuiet(st, a); } else { FireTaken(st, a); }
    case Signal =>
    case Wake => HandleIsQuiet(Awoken(st), st.reasons);
    case Timer =>
      HandleIsQuiet(st.(timerArmed := false), {});
      HandleIsQuiet(Win(st.(timerArmed := false), 0).(pending := 0), {ReasonOf(st.actions[0])});
    case Resume(byToken) =>
      ApplyIsQuiet(if byToken then st.(tokens := st.tokens - 1) else st, st.control.action);
  }

  // ---------- A stranded latch stays ----------

  lemma HandleKeepsStranded(st: State, reasons: set<Reason>, a: nat)
    requires Wellformed(st) && Stranded(st, a)
    ensures Stranded(Handle(st, reasons), a) && Handle(st, reasons).history.wins[a] == st.history.wins[a]
  {
    hide Apply, Cyclic;
    HandleIsQuiet(st, reasons);
    if st.pending != NONE {
      ApplyIsQuiet(st.(pending := NONE), st.pending);
    }
  }

  /** No step brings a stranded action back, or lets it fire. */
  lemma NextKeepsStranded(st: State, e: Event, a: nat)
    requires Wellformed(st) && Enabled(st, e) && Stranded(st, a)
    ensures Wellformed(Next(st, e)) && Stranded(Next(st, e), a)
    ensures Next(st, e).history.wins[a] == st.history.wins[a]
  {
    hide Apply, Handle, SwitchAll, Cyclic, FireStep;
    TargetsStay(st, e);
    match e
    case Fire(b) => if !st.actions[b].fired { FireIsQuiet(st, b); FireWins(st, b); } else { FireTaken(st, b); }
    case Signal =>
    case Wake => HandleKeepsStranded(Awoken(st), st.reasons, a);
    case Timer =>
      if !(AlreadyEnded(st, 0) || st.actions[0].fired) {
        HandleKeepsStranded(Win(st.(timerArmed := false), 0).(pending := 0), {ReasonOf(st.actions[0])}, a);
      }
    case Resume(byToken) =>
      ApplyIsQuiet(if byToken then st.(tokens := st.tokens - 1) else st, st.control.action);
  }

  lemma FireWins(st: State, a: nat)
    requires Wellformed(st) && a < |st.actions| && !st.actions[a].fired
    ensures FireStep(st, a).history.wins == st.history.wins[a := st.history.wins[a] + 1]
  {
  }

  lemma {:induction false} StrandedForever(st: State, es: seq<Event>, a: nat)
    requires Wellformed(st) && Stranded(st, a)
    ensures Wellformed(After(st, es)) && Stranded(After(st, es), a)
    ensures After(st, es).history.wins[a] == st.history.wins[a]
    decreases |es|
  {
    hide Next, Enabled, Stranded;
    if es != [] {
      StrandedForever(st, es[..|es| - 1], a);
      var mid := After(st, es[..|es| - 1]);
      if Enabled(mid, es[|es| - 1]) {
        NextKeepsStranded(mid, es[|es| - 1], a);
      }
    }
  }

  lemma {:induction false} AfterConcat(start: State, a: seq<Event>, b: seq<Event>)
    requires Wellformed(start) && Wellformed(After(start, a))
    ensures After(start, a + b) == After(After(start, a), b)
    decreases |b|
  {
    hide Next, Enabled;
    if b == [] {
      assert a + b == a;
    } else {
      assert (a + b)[..|a + b| - 1] == a + b[..|b| - 1];
      AfterConcat(start, a, b[..|b| - 1]);
    }
  }

  /** The run leaves action a latched for good: whatever follows, it never wins its latch again. */
  ghost predicate StallsForGood(start: State, es: seq<Event>, a: nat)
    requires Wellformed(start)
  {
    && Wellformed(After(start, es)) && Stranded(After(start, es), a) && Cyclic(After(start, es).actions[a])
    && forall more: seq<Event> :: LatchedAfter(start, es, more, a)
  }

  ghost predicate LatchedAfter(start: State, es: seq<Event>, more: seq<Event>, a: nat)
    requires Wellformed(start) && Wellformed(After(start, es)) && Stranded(After(start, es), a)
  {
    var end := After(start, es + more);
    Wellformed(end) && Stranded(end, a) && end.history.wins[a] == After(start, es).history.wins[a]
  }

  /** A second action fired before the handler runs takes the pending slot; the first stays latched
      in every continuation, so its window never ends again. */
  lemma CopyStalls(start: State, a: nat, b: nat) returns (es: seq<Event>)
    requires Initial(start) && a < |start.actions| && b < |start.actions| && a != b && Cyclic(start.actions[a])
    ensures StallsForGood(start, es, a)
  {
    hide Cyclic, FireStep;
    var first, both := [Fire(a)], [Fire(a), Fire(b)];
    assert first[..0] == [] && both[..1] == first;
    FireIsQuiet(start, a);
    FireIsQuiet(FireStep(start, a), b);
    assert After(start, first) == FireStep(start, a);
    assert After(start, both) == FireStep(FireStep(start, a), b);
    SameTarget(start.actions[a], After(start, both).actions[a]);
    es := both;
    forall more: seq<Event> ensures LatchedAfter(start, es, more, a) {
      AfterConcat(start, es, more);
      StrandedForever(After(start, es), more, a);
    }
  }

  ghost predicate SharedOrOneShot(actions: seq<Action>) {
    |actions| == 1 || forall a :: 0 <= a < |actions| ==> !Cyclic(actions[a])
  }

  /** Cyclic windows keep cycling exactly when no action is cyclic or the action is shared, not
      copied: then every taken latch of a cyclic action is about to be handled, in every state of
      every run; otherwise some run strands one for good. */
  lemma CyclesNeverStall(start: State)
    requires Initial(start)
    ensures SharedOrOneShot(start.actions) <==> forall es: seq<Event> :: CyclesGoOn(After(start, es))
    ensures SharedOrOneShot(start.actions) <==> !exists es: seq<Event>, a: nat :: StallsForGood(start, es, a)
  {
    hide Cyclic;
    if |start.actions| == 1 {
      forall es: seq<Event> ensures CyclesGoOn(After(start, es)) {
        SoleAfter(start, es);
      }
    } else if a: nat :| a < |start.actions| && Cyclic(start.actions[a]) {
      var es := CopyStalls(start, a, if a == 0 then 1 else 0);
      assert StallsForGood(start, es, a);
      assert !CyclesGoOn(After(start, es));
    } else {
      forall es: seq<Event> ensures CyclesGoOn(After(start, es)) {
        OneShotAfter(start, es);
      }
    }
    if SharedOrOneShot(start.actions) {
      forall es: seq<Event>, a: nat ensures !StallsForGood(start, es, a) {
        assert CyclesGoOn(After(start, es));
      }
    }
  }

  // ---------- Which mode a window end brings ----------

  /** The action whose modes a step puts into effect, or NONE: a fire that wins its latch and does
      not introspect, the timer's action, or the one the control thread handles, unless a pause
      comes first. */
  ghost function Actor(st: State, e: Event): (a: int)
    requires Wellformed(st) && Enabled(st, e)
    ensures a == NONE || 0 <= a < |st.actions|
  {
    match e
    case Fire(a) => if st.actions[a].fired || st.actions[a].introspect then NONE else a
    case Signal => NONE
    case Wake =>
      if st.pending == NONE || !(Introspect in st.reasons || ModeChange in st.reasons) then NONE
      else if Introspect in st.reasons && st.actions[st.pending].pause != NoPause then NONE
      else st.pending
    case Timer => if AlreadyEnded(st, 0) || st.actions[0].fired || st.actions[0].pause != NoPause then NONE else 0
    case Resume(_) => st.control.action
  }

  /** The step opens the next window: the control thread has handled a cyclic action. */
  ghost predicate Opens(st: State, e: Event)
    requires Wellformed(st) && Enabled(st, e)
  {
    Actor(st, e) != NONE && !e.Fire? && Cyclic(st.actions[Actor(st, e)])
  }

  /** A domain with a named target and a clear latch takes the target, any other keeps its mode; the
      mode it leaves is remembered. */
  ghost predicate TakesMode(target: Mode, before: Domain, after: Domain) {
    && after.mode == (if target == Unspecified || before.switched then before.mode else target)
    && after.lastMode == (if after.mode == before.mode then before.lastMode else before.mode)
  }

  /** Every domain after an action's switch; a new window clears the latches. */
  ghost predicate ModesTaken(target: seq<Mode>, before: seq<Domain>, renewed: bool, after: seq<Domain>) {
    && |target| == |before| == |after|
    && forall d :: 0 <= d < |before| ==>
         && TakesMode(target[d], before[d], after[d])
         && after[d].switched == (!renewed && (before[d].switched || after[d].mode != before[d].mode))
  }

  lemma SwitchAllModes(st: State, a: nat)
    requires Wellformed(st) && a < |st.actions|
    ensures var end := SwitchAll(st, a);
            && ModesTaken(st.actions[a].target, st.domains, false, end.domains)
            && end == st.(domains := end.domains, history := end.history)
            && Wellformed(end) && end.history.cycles == st.history.cycles
  {
  }

  lemma ApplyModes(st: State, a: nat)
    requires Wellformed(st) && a < |st.actions|
    ensures var end, renewed := Apply(st, a), Cyclic(st.actions[a]);
            && ModesTaken(st.actions[a].target, st.domains, renewed, end.domains)
            && |end.actions| == |st.actions| && (renewed ==> !end.actions[a].fired)
            && end.timerArmed == (if renewed then st.timerEnabled else st.timerArmed)
            && end.history.cycles == (if renewed then st.history.cycles[a := st.history.cycles[a] + 1] else st.history.cycles)
  {
    hide Cyclic, SwitchAll;
    SwitchAllModes(st.(control := Waiting), a);
  }

  /** What a step does to modes, cycles and the timer. */
  ghost predicate Moves(st: State, e: Event, end: State)
    requires Wellformed(st) && Enabled(st, e)
  {
    var a := Actor(st, e);
    && (if a == NONE then end.domains == st.domains
        else ModesTaken(st.actions[a].target, st.domains, Opens(st, e), end.domains))
    && (Opens(st, e) ==> a < |end.actions| && !end.actions[a].fired)
    && end.history.cycles == (if Opens(st, e) then st.history.cycles[a := st.history.cycles[a] + 1] else st.history.cycles)
    && end.timerArmed == (if Opens(st, e) || (e.Wake? && Reload in st.reasons) then st.timerEnabled
                          else st.timerArmed && !e.Timer?)
  }

  lemma FireMoves(st: State, a: nat)
    requires Wellformed(st) && a < |st.actions|
    ensures Moves(st, Fire(a), FireStep(st, a))
  {
    hide Cyclic, SwitchAll, ModesTaken;
    SwitchAllModes(Win(st, a), a);
  }

  lemma WakeMoves(st: State)
    requires Wellformed(st) && Enabled(st, Wake)
    ensures Moves(st, Wake, Handle(Awoken(st), st.reasons))
  {
    hide Cyclic, Apply, ModesTaken;
    if st.pending != NONE {
      ApplyModes(Awoken(st).(pending := NONE), st.pending);
    }
  }

  lemma TimerMoves(st: State)
    requires Wellformed(st) && Enabled(st, Timer)
    ensures Moves(st, Timer, Next(st, Timer))
  {
    hide Cyclic, Apply, ModesTaken, AlreadyEnded;
    var won := Win(st.(timerArmed := false), 0);
    SameTarget(st.actions[0], won.actions[0]);
    ApplyModes(won.(pending := 0).(pending := NONE), 0);
  }

  /** Every step: without an actor no domain changes; with one each domain takes its target. The next
      window opens exactly when the control thread has handled a cyclic action: then its latch is
      free, a cycle is complete, and the timer is armed as it is after a reload. */
  lemma StepModes(st: State, e: Event)
    requires Wellformed(st) && Enabled(st, e)
    ensures Moves(st, e, Next(st, e))
  {
    hide Apply, Cyclic, ModesTaken;
    match e
    case Fire(a) => FireMoves(st, a);
    case Signal =>
    case Wake => WakeMoves(st);
    case Timer => TimerMoves(st);
    case Resume(byToken) => ApplyModes(if byToken then st.(tokens := st.tokens - 1) else st, st.control.action);
  }

  /** A signal makes the control thread wake up and arm the timer anew, whatever else it handles then. */
  lemma SignalRearms(st: State)
    requires Wellformed(st) && st.control == Waiting
    ensures var signalled := Next(st, Signal);
            && Wellformed(signalled) && Enabled(signalled, Wake)
            && Next(signalled, Wake).timerArmed == st.timerEnabled && Next(signalled, Wake).tokens == st.tokens
  {
    hide Handle, Actor, Opens, Cyclic;
    var signalled := Next(st, Signal);
    StepModes(signalled, Wake);
    HandleKeepsTokens(Awoken(signalled), signalled.reasons);
  }

  lemma HandleKeepsTokens(st: State, reasons: set<Reason>)
    requires Wellformed(st)
    ensures Handle(st, reasons).tokens == st.tokens
  {
    hide Apply;
    if st.pending != NONE {
      ApplyIsQuiet(st.(pending := NONE), st.pending);
    }
  }

  // ---------- Modes over a run ----------

  lemma {:induction false} ShapeAfter(start: State, es: seq<Event>)
    requires Wellformed(start)
    ensures Wellformed(After(start, es)) && |After(start, es).domains| == |start.domains|
    decreases |es|
  {
    hide Next, Enabled, Wellformed, ModesTaken;
    if es != [] {
      var mid := After(start, es[..|es| - 1]);
      ShapeAfter(start, es[..|es| - 1]);
      if Enabled(mid, es[|es| - 1]) {
        StepShape(mid, es[|es| - 1]);
      }
    }
  }

  lemma StepShape(st: State, e: Event)
    requires Wellformed(st) && Enabled(st, e)
    ensures Wellformed(Next(st, e)) && |Next(st, e).domains| == |st.domains|
  {
    hide Next, Enabled, Actor, Opens;
    TargetsStay(st, e);
    StepModes(st, e);
  }

  /** Domain d after the first j events. */
  ghost function DomainAt(start: State, es: seq<Event>, j: nat, d: nat): Domain
    requires Wellformed(start) && j <= |es| && d < |start.domains|
  {
    ShapeAfter(start, es[..j]);
    After(start, es[..j]).domains[d]
  }

  /** From event `from` on the domain keeps its modes, and its latch if the run leaves it taken. */
  ghost predicate KeptFrom(start: State, es: seq<Event>, from: nat, d: nat)
    requires Wellformed(start) && d < |start.domains|
  {
    var end := DomainAt(start, es, |es|, d);
    forall j: nat :: from <= j <= |es| ==>
      var at := DomainAt(start, es, j, d);
      at.mode == end.mode && at.lastMode == end.lastMode && (end.switched ==> at.switched)
  }

  /** Event k put the domain into the mode its actor names; its latch was clear. */
  ghost predicate SwitchedAt(start: State, es: seq<Event>, k: nat, d: nat)
    requires Wellformed(start) && d < |start.domains|
  {
    k < |es| &&
    var st := After(start, es[..k]);
    && Wellformed(st) && Enabled(st, es[k]) && Actor(st, es[k]) != NONE
    && var before, after, a := DomainAt(start, es, k, d), DomainAt(start, es, k + 1, d), Actor(st, es[k]);
    && !before.switched && d < |st.actions[a].target|
    && after.mode == st.actions[a].target[d] != Unspecified
    && after.lastMode == before.mode != after.mode
  }

  /** The mode, the last mode and a taken latch are as before. */
  ghost predicate Stays(before: Domain, after: Domain) {
    after.mode == before.mode && after.lastMode == before.lastMode && (after.switched ==> before.switched)
  }

  lemma LastEvent(start: State, es: seq<Event>, d: nat)
    requires Wellformed(start) && d < |start.domains| && es != []
    ensures Stays(DomainAt(start, es, |es| - 1, d), DomainAt(start, es, |es|, d)) || SwitchedAt(start, es, |es| - 1, d)
  {
    hide Next, Enabled, Actor, Opens, Wellformed;
    var k := |es| - 1;
    var st := After(start, es[..k]);
    ShapeAfter(start, es[..k]);
    assert es[..k + 1] == es && es[..|es|] == es;
    if Enabled(st, es[k]) {
      StepModes(st, es[k]);
    }
  }

  lemma LongerRun(start: State, init: seq<Event>, e: Event, j: nat, d: nat)
    requires Wellformed(start) && d < |start.domains| && j <= |init|
    ensures DomainAt(start, init + [e], j, d) == DomainAt(start, init, j, d)
    ensures (init + [e])[..j] == init[..j]
  {
    hide After, Wellformed;
    assert (init + [e])[..j] == init[..j];
  }

  /** After any run a domain is in the mode it started in, or in the one named by the action of the
      last step that switched it, with the mode it was in then as its last mode; while its latch is
      taken nothing else has touched it since. */
  lemma {:induction false} ModeIsTarget(start: State, es: seq<Event>, d: nat)
    requires Wellformed(start) && d < |start.domains|
    ensures KeptFrom(start, es, 0, d) || exists k: nat :: SwitchedAt(start, es, k, d) && KeptFrom(start, es, k + 1, d)
    decreases |es|
  {
    if es != [] {
      hide After, Next, Enabled, Actor, Wellformed, DomainAt, SwitchedAt;
      var init := es[..|es| - 1];
      assert es == init + [es[|es| - 1]];
      LastEvent(start, es, d);
      if SwitchedAt(start, es, |es| - 1, d) {
        assert KeptFrom(start, es, |es|, d);
      } else {
        ModeIsTarget(start, init, d);
        if k: nat :| SwitchedAt(start, init, k, d) && KeptFrom(start, init, k + 1, d) {
          StillSwitched(start, init, es[|es| - 1], k, d);
          StillKept(start, init, es[|es| - 1], k + 1, d);
        } else {
          StillKept(start, init, es[|es| - 1], 0, d);
        }
      }
    }
  }

  lemma StillSwitched(start: State, init: seq<Event>, e: Event, k: nat, d: nat)
    requires Wellformed(start) && d < |start.domains| && SwitchedAt(start, init, k, d)
    ensures SwitchedAt(start, init + [e], k, d)
  {
    hide After, Next, Enabled, Actor, Wellformed, DomainAt;
    LongerRun(start, init, e, k, d);
    LongerRun(start, init, e, k + 1, d);
  }

  lemma StillKept(start: State, init: seq<Event>, e: Event, from: nat, d: nat)
    requires Wellformed(start) && d < |start.domains| && from <= |init| && KeptFrom(start, init, from, d)
    requires var es := init + [e]; Stays(DomainAt(start, es, |init|, d), DomainAt(start, es, |es|, d))
    ensures KeptFrom(start, init + [e], from, d)
  {
    hide DomainAt;
    forall j: nat | from <= j <= |init| ensures DomainAt(start, init + [e], j, d) == DomainAt(start, init, j, d) {
      LongerRun(start, init, e, j, d);
    }
  }

  /** Event j of the run opens the next window. */
  ghost predicate OpensAt(start: State, es: seq<Event>, j: nat)
    requires Wellformed(start)
  {
    j < |es| &&
    var st := After(start, es[..j]);
    Wellformed(st) && Enabled(st, es[j]) && Opens(st, es[j])
  }

  /** A taken latch holds a domain in its mode, whatever follows, until the next window opens. */
  lemma {:induction false} LatchHolds(start: State, es: seq<Event>, d: nat)
    requires Wellformed(start) && d < |start.domains| && start.domains[d].switched
    ensures Wellformed(After(start, es)) && d < |After(start, es).domains|
    ensures After(start, es).domains[d] == start.domains[d] || exists j: nat :: OpensAt(start, es, j)
    decreases |es|
  {
    ShapeAfter(start, es);
    if es != [] {
      hide Next, Enabled, Actor, Opens, Wellformed;
      var init, k := es[..|es| - 1], |es| - 1;
      LatchHolds(start, init, d);
      if j: nat :| OpensAt(start, init, j) {
        assert init[..j] == es[..j];
        assert OpensAt(start, es, j);
      } else if Enabled(After(start, init), es[k]) {
        StepModes(After(start, init), es[k]);
        if Opens(After(start, init), es[k]) {
          assert OpensAt(start, es, k);
        }
      }
    }
  }

  /** A fire that wins its latch and does not introspect puts every domain with a named target and a
      clear latch into that mode at once, and it stays there until the next window opens. */
  lemma WindowEnds(st: State, a: nat, es: seq<Event>, d: nat)
    requires Wellformed(st) && a < |st.actions| && d < |st.domains|
    requires !st.actions[a].fired && !st.actions[a].introspect && !st.domains[d].switched
    requires st.actions[a].target[d] != Unspecified && st.actions[a].target[d] != st.domains[d].mode
    ensures Wellformed(FireStep(st, a))
    ensures var target, fired := st.actions[a].target[d], FireStep(st, a);
            && fired.domains[d] == Domain(target, st.domains[d].mode, true)
            && Wellformed(After(fired, es)) && d < |After(fired, es).domains|
            && (After(fired, es).domains[d] == fired.domains[d] || exists j: nat :: OpensAt(fired, es, j))
  {
    hide FireStep;
    FireIsQuiet(st, a);
    FireMoves(st, a);
    LatchHolds(FireStep(st, a), es, d);
  }
}
