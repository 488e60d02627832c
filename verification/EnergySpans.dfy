/** Energy measured in armed spans (src/energy.c): arming, disarming and reconfiguring emit
    enter/exit events that share a span number. Counter readings, times, the resolved policy and
    the outcome of the node election are inputs of each call. */
module EnergySpans {
  import opened NodePolicies

  /** energy_enter or energy_exit: the span number, the time and the counters. */
  datatype Emit = Emit(exit: bool, span: nat, time: real, values: seq<int>)

  datatype State = State(armed: bool, everArmed: bool, span: nat, active: bool, latched: Policy, trace: seq<Emit>)

  /** What one call sees of its surroundings. */
  datatype Env = Env(policy: Policy, elected: bool, time: real, values: seq<int>)

  datatype Event = Arm(env: Env) | Disarm(env: Env) | Reconfigure(env: Env)

  function Start(): State { State(false, false, 0, false, PolicyOff, []) }

  function ArmStep(st: State, env: Env): State {
    if st.armed || env.policy == PolicyOff then st else
    var named := if st.everArmed then st else st.(latched := env.policy, active := env.elected, everArmed := true);
    var now := named.(armed := true);
    if now.active then now.(trace := now.trace + [Emit(false, now.span, env.time, env.values)]) else now
  }

  function DisarmStep(st: State, env: Env): State {
    if !st.armed then st else
    var now := st.(armed := false, span := st.span + 1);
    if now.active then now.(trace := now.trace + [Emit(true, st.span, env.time, env.values)]) else now
  }

  function ReconfigureStep(st: State, env: Env): State {
    if !st.armed then (if env.policy != PolicyOff then ArmStep(st, env) else st)
    else if env.policy == PolicyOff then DisarmStep(st, env) else st
  }

  function Step(st: State, e: Event): State {
    match e
    case Arm(env) => ArmStep(st, env)
    case Disarm(env) => DisarmStep(st, env)
    case Reconfigure(env) => ReconfigureStep(st, env)
  }

  function After(st: State, es: seq<Event>): State {
    if es == [] then st else Step(After(st, es[..|es| - 1]), es[|es| - 1])
  }

  /** The trace is enter(0), exit(0), enter(1), exit(1), ..., with one more enter while armed. */
  ghost predicate Alternates(st: State) {
    && (!st.active ==> st.trace == [])
    && (st.active ==> |st.trace| == 2 * st.span + (if st.armed then 1 else 0))
    && (forall k :: 0 <= k < |st.trace| ==> st.trace[k].span == k / 2 && (st.trace[k].exit <==> k % 2 == 1))
    && (!st.everArmed ==> !st.armed && !st.active && st.span == 0)
  }

  lemma StepAlternates(st: State, e: Event)
    requires Alternates(st)
    ensures Alternates(Step(st, e))
    ensures st.everArmed ==> Step(st, e).latched == st.latched && Step(st, e).active == st.active && Step(st, e).everArmed
  {
  }

  lemma {:induction false} RunAlternates(es: seq<Event>)
    ensures Alternates(After(Start(), es))
    decreases |es|
  {
    if es != [] {
      hide Step;
      RunAlternates(es[..|es| - 1]);
      StepAlternates(After(Start(), es[..|es| - 1]), es[|es| - 1]);
    }
  }

  /** Any run that ends in fini leaves complete spans only: on the measuring process
      enter(0), exit(0), ..., enter(n-1), exit(n-1), and nothing on any other. */
  lemma RunEmitsCompleteSpans(es: seq<Event>, env: Env)
    ensures var st := DisarmStep(After(Start(), es), env);
            && Alternates(st) && !st.armed
            && |st.trace| == (if st.active then 2 * st.span else 0)
            && forall s: nat :: s < |st.trace| / 2 ==>
                 st.trace[2 * s].span == s == st.trace[2 * s + 1].span && !st.trace[2 * s].exit && st.trace[2 * s + 1].exit
  {
    RunAlternates(es);
    StepAlternates(After(Start(), es), Disarm(env));
  }

  /** The first arm decides the variant and whether this process measures, for the whole run. */
  lemma {:induction false} VariantIsLatched(st: State, es: seq<Event>)
    requires st.everArmed
    ensures var end := After(st, es); end.everArmed && end.latched == st.latched && end.active == st.active
    decreases |es|
  {
    if es != [] {
      hide Step;
      VariantIsLatched(st, es[..|es| - 1]);
      StepKeepsVariant(After(st, es[..|es| - 1]), es[|es| - 1]);
    }
  }

  lemma StepKeepsVariant(st: State, e: Event)
    requires st.everArmed
    ensures Step(st, e).everArmed && Step(st, e).latched == st.latched && Step(st, e).active == st.active
  {
  }

  // ---------- Which events make the spans ----------

  /** Asks for measuring: an arm, or a reload, under a policy other than OFF. */
  predicate Opener(e: Event) {
    !e.Disarm? && e.env.policy != PolicyOff
  }

  /** Asks for an end: a disarm, or a reload with OFF. */
  predicate Closer(e: Event) {
    e.Disarm? || (e.Reconfigure? && e.env.policy == PolicyOff)
  }

  /** Would event e be a mark, after so many: an opener or a closer in turn? */
  predicate IsNext(e: Event, marks: nat) {
    if marks % 2 == 0 then Opener(e) else Closer(e)
  }

  /** The events that open and close the spans of a run: the first opener, the first closer after it,
      the first opener after that, and so on, by position. */
  function Marks(es: seq<Event>): (pos: seq<nat>)
    ensures forall j :: 0 <= j < |pos| ==> pos[j] < |es|
    ensures forall j :: 0 <= j < |pos| ==> IsNext(es[pos[j]], j)
    ensures forall j :: 0 < j < |pos| ==> pos[j - 1] < pos[j]
  {
    if es == [] then [] else
    var n := |es| - 1;
    var pos := Marks(es[..n]);
    if IsNext(es[n], |pos|) then pos + [n] else pos
  }

  /** What a run with these marks has done: the first one decides whether this process measures, and
      under which variant; on the measuring process entry j of the trace comes from mark j. */
  ghost predicate MadeBy(st: State, es: seq<Event>, pos: seq<nat>)
    requires forall j :: 0 <= j < |pos| ==> pos[j] < |es|
  {
    && st.span == |pos| / 2 && (st.armed <==> |pos| % 2 == 1) && (st.everArmed <==> pos != [])
    && (if pos == [] then !st.active && st.latched == PolicyOff
        else st.active == es[pos[0]].env.elected && st.latched == es[pos[0]].env.policy)
    && |st.trace| == (if st.active then |pos| else 0)
    && forall j :: 0 <= j < |st.trace| ==>
         st.trace[j] == Emit(j % 2 == 1, j / 2, es[pos[j]].env.time, es[pos[j]].env.values)
  }

  lemma NextMark(st: State, init: seq<Event>, e: Event, pos: seq<nat>)
    requires (forall j :: 0 <= j < |pos| ==> pos[j] < |init|) && MadeBy(st, init, pos) && IsNext(e, |pos|)
    ensures MadeBy(Step(st, e), init + [e], pos + [|init|])
  {
    var end, more := Step(st, e), pos + [|init|];
    assert end.armed == !st.armed && end.everArmed;
    assert end.trace == if end.active then st.trace + [Emit(st.armed, st.span, e.env.time, e.env.values)] else [];
  }

  lemma OtherEvent(st: State, init: seq<Event>, e: Event, pos: seq<nat>)
    requires (forall j :: 0 <= j < |pos| ==> pos[j] < |init|) && MadeBy(st, init, pos) && !IsNext(e, |pos|)
    ensures MadeBy(Step(st, e), init + [e], pos)
  {
    assert Step(st, e) == st;
  }

  /** Over every run the spans are those of its marks: the first of them decides whether this process
      measures, and each entry of the trace carries the time and the readings of its own mark. */
  lemma {:induction false} SpansOfRun(es: seq<Event>)
    ensures MadeBy(After(Start(), es), es, Marks(es))
    decreases |es|
  {
    if es != [] {
      hide Step, MadeBy;
      var init, e := es[..|es| - 1], es[|es| - 1];
      assert es == init + [e];
      SpansOfRun(init);
      if IsNext(e, |Marks(init)|) {
        NextMark(After(Start(), init), init, e, Marks(init));
      } else {
        OtherEvent(After(Start(), init), init, e, Marks(init));
      }
    } else {
      assert Marks(es) == [];
    }
  }

  /** A run has marks exactly when it has an opener; the first mark is its first opener. */
  lemma {:induction false} FirstMark(es: seq<Event>)
    ensures Marks(es) == [] <==> forall e :: e in es ==> !Opener(e)
    ensures Marks(es) != [] ==> forall e :: e in es[..Marks(es)[0]] ==> !Opener(e)
    decreases |es|
  {
    if es != [] {
      var n := |es| - 1;
      FirstMark(es[..n]);
      assert es == es[..n] + [es[n]];
      if Marks(es[..n]) != [] {
        assert es[..n][..Marks(es)[0]] == es[..Marks(es)[0]];
      }
    }
  }

  // ---------- The coordinator, updated in place ----------

  datatype Kind = Node | Cpu | Gpu

  /** A compiled-in backend, and whether its init finds something to read. */
  datatype Backend = Backend(kind: Kind, readable: bool)

  ghost predicate FirstReadable(all: seq<Backend>, kind: Kind, i: nat) {
    && i < |all| && all[i].kind == kind && all[i].readable
    && forall j :: 0 <= j < i ==> !(all[j].kind == kind && all[j].readable)
  }

  ghost predicate Readable(all: seq<Backend>, kind: Kind, n: nat) {
    exists j :: 0 <= j < n && j < |all| && all[j].kind == kind && all[j].readable
  }

  /** Backend i is used: a node backend if it is the first readable one; others only without a
      node backend, the first readable CPU and every readable GPU. */
  ghost predicate Used(all: seq<Backend>, i: nat) {
    i < |all| && all[i].readable &&
    match all[i].kind
    case Node => FirstReadable(all, Node, i)
    case Cpu => !Readable(all, Node, |all|) && FirstReadable(all, Cpu, i)
    case Gpu => !Readable(all, Node, |all|)
  }

  /** Exactly the used backends, in order, each once. */
  ghost predicate ChosenAre(all: seq<Backend>, chosen: seq<nat>) {
    && (forall i: nat :: i in chosen <==> Used(all, i))
    && (forall i, j :: 0 <= i < j < |chosen| ==> chosen[i] < chosen[j])
  }

  class Coordinator {
    var armed: bool
    var everArmed: bool
    var spanSeq: nat
    var measureActive: bool
    var latchedPolicy: Policy
    var backendsInited: bool
    var active: seq<nat>     // the chosen backends, by position
    var trace: seq<Emit>
    const backends: seq<Backend>

    ghost function Abs(): State
      reads this
    {
      State(armed, everArmed, spanSeq, measureActive, latchedPolicy, trace)
    }

    ghost predicate Valid()
      reads this
    {
      && Alternates(Abs())
      && (measureActive ==> backendsInited)
      && (backendsInited ==> ChosenAre(backends, active))
    }

    constructor (backends: seq<Backend>)
      ensures Valid() && Abs() == Start() && this.backends == backends && !backendsInited
    {
      this.backends := backends;
      armed, everArmed, spanSeq, measureActive, latchedPolicy := false, false, 0, false, PolicyOff;
      backendsInited, active, trace := false, [], [];
    }

    /** backends_init_once */
    method BackendsInitOnce()
      requires backendsInited ==> ChosenAre(backends, active)
      modifies this`backendsInited, this`active
      ensures backendsInited && ChosenAre(backends, active)
    {
      if backendsInited {
        return;
      }
      backendsInited := true;
      active := [];
      var nodeActive, cpuActive := false, false;
      for i := 0 to |backends|
        invariant backendsInited
        invariant nodeActive <==> Readable(backends, Node, i)
        invariant forall k: nat :: k in active <==> k < i && FirstReadable(backends, Node, k)
        invariant |active| == if nodeActive then 1 else 0
        invariant forall a :: 0 <= a < |active| ==> active[a] < i
      {
        if backends[i].kind == Node {
          if !nodeActive && backends[i].readable {
            active := active + [i];
            nodeActive := true;
          }
        }
      }
      if nodeActive {
        forall k: nat ensures k in active <==> Used(backends, k) {
          assert Readable(backends, Node, |backends|);
        }
        assert ChosenAre(backends, active);
      } else {
        for i := 0 to |backends|
          invariant backendsInited
          invariant cpuActive <==> Readable(backends, Cpu, i)
          invariant forall k: nat :: k in active <==> k < i && Used(backends, k)
          invariant forall a :: 0 <= a < |active| ==> active[a] < i
          invariant forall a, b :: 0 <= a < b < |active| ==> active[a] < active[b]
        {
          match backends[i].kind
          case Cpu =>
            if !cpuActive && backends[i].readable {
              active := active + [i];
              cpuActive := true;
            }
          case Gpu =>
            if backends[i].readable {
              active := active + [i];
            }
          case Node =>
        }
      }
    }

    method EmitEvent(exit: bool, span: nat, env: Env)
      modifies this`trace
      ensures trace == old(trace) + [Emit(exit, span, env.time, env.values)]
    {
      trace := trace + [Emit(exit, span, env.time, env.values)];
    }

    /** pinsight_energy_arm */
    method ArmSpan(env: Env)
      requires Valid()
      modifies this
      ensures Valid() && Abs() == ArmStep(old(Abs()), env)
    {
      StepAlternates(Abs(), Arm(env));
      if armed {
        return;
      }
      if env.policy == PolicyOff {
        return;
      }
      if !everArmed {
        latchedPolicy := env.policy;
        measureActive := env.elected;
        if measureActive {
          BackendsInitOnce();
        }
        everArmed := true;
      }
      armed := true;
      if !measureActive {
        return;
      }
      EmitEvent(false, spanSeq, env);
    }

    /** pinsight_energy_disarm */
    method DisarmSpan(env: Env)
      requires Valid()
      modifies this
      ensures Valid() && Abs() == DisarmStep(old(Abs()), env)
      ensures active == old(active)
    {
      StepAlternates(Abs(), Disarm(env));
      if !armed {
        return;
      }
      armed := false;
      var s := spanSeq;
      spanSeq := spanSeq + 1;
      if !measureActive {
        return;
      }
      EmitEvent(true, s, env);
    }

    /** pinsight_energy_apply_config */
    method ApplyConfig(env: Env)
      requires Valid()
      modifies this
      ensures Valid() && Abs() == ReconfigureStep(old(Abs()), env)
    {
      if !armed {
        if env.policy != PolicyOff {
          ArmSpan(env);
        }
        return;
      }
      if env.policy == PolicyOff {
        DisarmSpan(env);
      }
    }

    /** pinsight_energy_fini: close the open span, then drop the backends. */
    method Fini(env: Env) returns (finished: seq<nat>)
      requires Valid()
      modifies this
      ensures Abs() == DisarmStep(old(Abs()), env) && !armed
      ensures finished == old(active) && active == []
    {
      DisarmSpan(env);
      finished := active;
      active := [];
    }
  }
}
