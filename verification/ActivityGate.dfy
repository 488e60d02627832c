/** The live gate on GPU activity records: when this rank collects, and how collection is turned
    on and off without losing a record (src/roctracer_callback.c). The CUDA gate
    (src/cupti_callback.c) differs in that it has no pool to open: it only enables and disables,
    and waits for the first callback. Library calls succeed, and applying a decision is one step. */
module ActivityGate {
  import opened NodePolicies
  import opened Rotation

  datatype Mode = Off | Standby | Monitoring | Tracing

  /** A policy and its rotation period in milliseconds, if it names one. */
  datatype PolicyValue = PolicyValue(policy: Policy, param: int)

  /** The selection method is pinned by the first method-bearing policy seen. */
  datatype Pinned = Unpinned | Pinned(how: Policy, rotateMs: nat)

  datatype Vendor = Hip | Cuda

  /** What does not change during a run: the rank's place on its node (-1 or 0 when unknown) and
      the outcome of the node election. */
  datatype Place = Place(vendor: Vendor, localRank: int, ranksPerNode: int, elected: bool)

  type Record = nat

  /** applied: the last collect decision carried out. captured: every record the device produced
      while collection was enabled; pool: those the library still holds; emitted: those traced. */
  datatype Gate = Gate(
    mode: Mode, lastMode: Mode, policy: PolicyValue, pinned: Pinned,
    ready: bool, poolOpen: bool, enabled: bool, emit: bool, applied: bool, permanentlyOff: bool,
    pool: seq<Record>, emitted: seq<Record>, captured: seq<Record>)

  predicate Active(m: Mode) { m == Monitoring || m == Tracing }

  // ---------- The decision ----------

  function Pin(p: Pinned, v: PolicyValue): Pinned {
    if p.Pinned? || v.policy == PolicyOff || v.policy == PolicyOn then p
    else Pinned(v.policy, if v.param > 0 then v.param else 1000)
  }

  /** The method after a decision: only a decision taken in TRACING looks at the policy. */
  function PinNow(g: Gate): Pinned {
    if g.mode == Tracing then Pin(g.pinned, g.policy) else g.pinned
  }

  /** hip_should_collect_now / cuda_should_collect_now */
  predicate ShouldCollect(g: Gate, at: Place, nowMs: nat) {
    && g.mode == Tracing && g.policy.policy != PolicyOff
    && (g.policy.policy == PolicyOn || Selected(Pin(g.pinned, g.policy), at, nowMs))
  }

  predicate Selected(p: Pinned, at: Place, nowMs: nat) {
    if p.Pinned? && p.how == RotatePerNode && p.rotateMs > 0 && at.localRank >= 0 && at.ranksPerNode > 0
    then Collector(nowMs, p.rotateMs, at.ranksPerNode) == at.localRank
    else at.elected
  }

  // ---------- Steps ----------

  /** The buffer callback: the batch is traced if the flag says so, and gone either way. */
  function Flush(g: Gate): Gate {
    g.(emitted := if g.emit then g.emitted + g.pool else g.emitted, pool := [])
  }

  function TurnOn(g: Gate, at: Place): Gate {
    g.(poolOpen := at.vendor == Hip, enabled := true, emit := true)
  }

  /** Flush first, then clear the flag, stop the device, and close the pool. */
  function TurnOff(g: Gate): Gate {
    var flushed := Flush(g);
    flushed.(emit := false, enabled := false, poolOpen := false, pool := [])
  }

  /** apply_collect_state */
  function ApplyCollect(g: Gate, at: Place, nowMs: nat): Gate {
    if g.permanentlyOff || (at.vendor == Cuda && !g.ready) then g else
    var s := ShouldCollect(g, at, nowMs);
    var h := g.(pinned := PinNow(g));
    if s == g.applied then h
    else if s then TurnOn(h, at).(applied := true)
    else TurnOff(h).(applied := false)
  }

  /** apply_mode: activity first, then OFF is for good. */
  function ApplyMode(g: Gate, at: Place, nowMs: nat): Gate {
    if g.permanentlyOff || g.mode == g.lastMode then g else
    var h := ApplyCollect(g, at, nowMs);
    if g.mode != Off then h
    else if at.vendor == Cuda then (if Active(g.lastMode) then Flush(h) else h).(emit := false, permanentlyOff := true)
    else h.(permanentlyOff := true)
  }

  datatype Event =
    | SetMode(m: Mode)
    | SetPolicy(v: PolicyValue)
    | Apply(nowMs: nat)           // a rotation tick, or after a reload
    | ApplyNewMode(nowMs: nat)    // after a mode change
    | FirstCallback(nowMs: nat)   // CUDA: collection may start now
    | Produce(r: Record)          // the device finished an operation
    | BufferFull                  // the library hands over a batch, or the application resets the device

  function Step(g: Gate, at: Place, e: Event): Gate {
    match e
    case SetMode(m) => g.(lastMode := g.mode, mode := m)
    case SetPolicy(v) => g.(policy := v)
    case Apply(t) => ApplyCollect(g, at, t)
    case ApplyNewMode(t) => ApplyMode(g, at, t)
    case FirstCallback(t) =>
      if at.vendor == Hip || g.ready || g.permanentlyOff then g else
      var h := g.(ready := true, pinned := PinNow(g));
      if ShouldCollect(g, at, t) then TurnOn(h, at).(applied := true) else h
    case Produce(r) => if g.enabled then g.(pool := g.pool + [r], captured := g.captured + [r]) else g
    case BufferFull => if at.vendor == Cuda || g.poolOpen then Flush(g) else g
  }

  // ---------- What every run keeps ----------

  /** The flag, the device, the pool and the last decision agree, and no record is lost or doubled. */
  ghost predicate Consistent(g: Gate, at: Place) {
    && g.emit == g.applied == g.enabled
    && g.poolOpen == (g.emit && at.vendor == Hip)
    && (!g.emit ==> g.pool == [])
    && g.emitted + g.pool == g.captured
    && (g.permanentlyOff ==> !g.emit)
    && (at.vendor == Cuda && !g.ready ==> !g.emit)
    && (g.pinned.Pinned? ==> g.pinned.rotateMs > 0)
  }

  function Start(m: Mode, v: PolicyValue): Gate {
    Gate(m, m, v, Unpinned, false, false, false, false, false, m == Off, [], [], [])
  }

  lemma FlushKeeps(g: Gate, at: Place)
    requires Consistent(g, at)
    ensures Consistent(Flush(g), at)
  {
    assert (g.emitted + g.pool) + [] == g.captured;
  }

  lemma ApplyKeeps(g: Gate, at: Place, nowMs: nat)
    requires Consistent(g, at)
    ensures Consistent(ApplyCollect(g, at, nowMs), at)
    ensures var h := ApplyCollect(g, at, nowMs);
            g.permanentlyOff || (at.vendor == Cuda && !g.ready) || (h.applied <==> ShouldCollect(g, at, nowMs))
  {
    assert (g.emitted + g.pool) + [] == g.captured;
  }

  lemma StepKeeps(g: Gate, at: Place, e: Event)
    requires Consistent(g, at)
    ensures Consistent(Step(g, at, e), at)
  {
    match e
    case Apply(t) => ApplyKeeps(g, at, t);
    case ApplyNewMode(t) =>
      ApplyKeeps(g, at, t);
      FlushKeeps(ApplyCollect(g, at, t), at);
    case Produce(r) => assert g.emitted + (g.pool + [r]) == (g.emitted + g.pool) + [r];
    case BufferFull => FlushKeeps(g, at);
    case _ =>
  }

  function After(g: Gate, at: Place, es: seq<Event>): Gate {
    if es == [] then g else Step(After(g, at, es[..|es| - 1]), at, es[|es| - 1])
  }

  /** Over every run: the pool is open, the flag set and the device on exactly when the last
      decision was to collect; every captured record is traced exactly once, in order, and none is
      stranded when collection is off; permanently off means off. */
  lemma {:induction false} RunKeeps(m: Mode, v: PolicyValue, at: Place, es: seq<Event>)
    ensures var g := After(Start(m, v), at, es);
            && Consistent(g, at)
            && (!g.applied ==> g.emitted == g.captured && !g.poolOpen && !g.enabled)
            && (g.permanentlyOff ==> !g.applied)
    decreases |es|
  {
    var g := After(Start(m, v), at, es);
    if es != [] {
      hide Step;
      RunKeeps(m, v, at, es[..|es| - 1]);
      StepKeeps(After(Start(m, v), at, es[..|es| - 1]), at, es[|es| - 1]);
    }
    assert g.emitted + [] == g.emitted;
  }

  // ---------- Off for good ----------

  /** A mode change to OFF is applied. */
  ghost predicate TurnsOff(g: Gate, e: Event) {
    e.ApplyNewMode? && g.mode == Off && g.lastMode != Off
  }

  ghost predicate TurnsOffAt(g: Gate, at: Place, es: seq<Event>, k: nat) {
    k < |es| && TurnsOff(After(g, at, es[..k]), es[k])
  }

  lemma ApplyLeaves(g: Gate, at: Place, nowMs: nat)
    ensures var h := ApplyCollect(g, at, nowMs); h.permanentlyOff == g.permanentlyOff && h.mode == g.mode
  {
    hide ShouldCollect;
  }

  lemma StepTurnsOff(g: Gate, at: Place, e: Event)
    ensures Step(g, at, e).permanentlyOff <==> g.permanentlyOff || TurnsOff(g, e)
  {
    hide ShouldCollect, ApplyCollect;
    if e.Apply? || e.ApplyNewMode? {
      ApplyLeaves(g, at, e.nowMs);
    }
  }

  /** A gate is off for good exactly after it was started in OFF or applied a mode change to OFF. */
  lemma {:induction false} OffExactlyWhen(m: Mode, v: PolicyValue, at: Place, es: seq<Event>)
    ensures After(Start(m, v), at, es).permanentlyOff <==> m == Off || exists k: nat :: TurnsOffAt(Start(m, v), at, es, k)
    decreases |es|
  {
    if es != [] {
      hide Step;
      var g, init, n := Start(m, v), es[..|es| - 1], |es| - 1;
      OffExactlyWhen(m, v, at, init);
      StepTurnsOff(After(g, at, init), at, es[n]);
      forall k: nat | k < n ensures TurnsOffAt(g, at, es, k) <==> TurnsOffAt(g, at, init, k) {
        assert es[..k] == init[..k];
      }
      assert TurnsOffAt(g, at, es, n) <==> TurnsOff(After(g, at, init), es[n]);
    }
  }

  /** Closed, disabled and silent, with everything captured traced. */
  ghost predicate Silent(g: Gate) {
    !g.poolOpen && !g.enabled && !g.emit && g.emitted == g.captured
  }

  lemma StepStaysSilent(g: Gate, at: Place, e: Event)
    requires Consistent(g, at) && g.permanentlyOff
    ensures var h := Step(g, at, e); h.permanentlyOff && Silent(h) && h.captured == g.captured
  {
    hide ShouldCollect;
    assert g.emitted + [] == g.emitted;
  }

  /** From then on, whatever modes, policies, ticks and buffers follow, and for either vendor: nothing
      is opened, enabled, captured or traced again. */
  lemma {:induction false} OffIsForGood(g: Gate, at: Place, e: Event, es: seq<Event>)
    requires Consistent(g, at) && (g.permanentlyOff || TurnsOff(g, e))
    ensures var off, end := Step(g, at, e), After(Step(g, at, e), at, es);
            && Consistent(end, at) && end.permanentlyOff && Silent(off) && Silent(end)
            && end.emitted == off.emitted == off.captured == end.captured == g.captured
    decreases |es|
  {
    hide Step, Consistent;
    if es == [] {
      StepKeeps(g, at, e);
      StepTurnsOff(g, at, e);
      OffKeepsRecords(g, at, e);
    } else {
      OffIsForGood(g, at, e, es[..|es| - 1]);
      var mid := After(Step(g, at, e), at, es[..|es| - 1]);
      StepKeeps(mid, at, es[|es| - 1]);
      StepStaysSilent(mid, at, es[|es| - 1]);
    }
  }

  lemma OffKeepsRecords(g: Gate, at: Place, e: Event)
    requires Consistent(g, at) && (g.permanentlyOff || TurnsOff(g, e))
    ensures Silent(Step(g, at, e)) && Step(g, at, e).captured == g.captured
  {
    assert g.emitted + [] == g.emitted;
    if TurnsOff(g, e) {
      ApplyKeeps(g, at, e.nowMs);
    }
  }

  /** A step that takes a decision: a tick or reload, a mode change, the first CUDA callback. */
  predicate Decides(g: Gate, at: Place, e: Event) {
    && !g.permanentlyOff
    && match e
       case Apply(_) => at.vendor == Hip || g.ready
       case ApplyNewMode(_) => g.mode != g.lastMode && (at.vendor == Hip || g.ready)
       case FirstCallback(_) => at.vendor == Cuda && !g.ready
       case _ => false
  }

  lemma ApplyPins(g: Gate, at: Place, nowMs: nat)
    ensures ApplyCollect(g, at, nowMs).pinned ==
            if g.permanentlyOff || (at.vendor == Cuda && !g.ready) then g.pinned else PinNow(g)
  {
    hide ShouldCollect, PinNow;
  }

  /** A method is pinned exactly by the first decision taken in TRACING under a policy that names
      one, with its period or a second. */
  lemma StepPins(g: Gate, at: Place, e: Event)
    ensures Step(g, at, e).pinned ==
            if && g.pinned.Unpinned? && Decides(g, at, e) && g.mode == Tracing
               && g.policy.policy != PolicyOff && g.policy.policy != PolicyOn
            then Pinned(g.policy.policy, if g.policy.param > 0 then g.policy.param else 1000) else g.pinned
  {
    hide ShouldCollect, ApplyCollect;
    if e.Apply? || e.ApplyNewMode? {
      ApplyPins(g, at, e.nowMs);
    }
  }

  /** Once pinned, the selection method stays, whatever policies and modes follow. */
  lemma {:induction false} MethodIsPinned(g: Gate, at: Place, es: seq<Event>)
    requires g.pinned.Pinned?
    ensures After(g, at, es).pinned == g.pinned
    decreases |es|
  {
    if es != [] {
      hide Step;
      MethodIsPinned(g, at, es[..|es| - 1]);
      StepPins(After(g, at, es[..|es| - 1]), at, es[|es| - 1]);
    }
  }

  /** With a pinned method that does not rotate, or cannot for want of a place on the node, the
      decision is the node election's for the rest of the run; ON and OFF override it. */
  lemma ElectionDecides(g: Gate, at: Place, es: seq<Event>, nowMs: nat)
    requires g.pinned.Pinned? && (g.pinned.how != RotatePerNode || at.localRank < 0 || at.ranksPerNode <= 0)
    ensures var end := After(g, at, es);
            ShouldCollect(end, at, nowMs) <==>
            end.mode == Tracing && (end.policy.policy == PolicyOn || (end.policy.policy != PolicyOff && at.elected))
  {
    MethodIsPinned(g, at, es);
  }

  /** A decision is carried out in the step that takes it: the device, the flag and the pool follow. */
  lemma DecisionIsApplied(g: Gate, at: Place, e: Event)
    requires Consistent(g, at) && Decides(g, at, e)
    ensures var h, s := Step(g, at, e), ShouldCollect(g, at, e.nowMs);
            h.applied == h.enabled == h.emit == s && h.poolOpen == (s && at.vendor == Hip)
  {
    StepKeeps(g, at, e);
    if e.ApplyNewMode? {
      ApplyKeeps(g, at, e.nowMs);
    }
  }

  /** In TRACING, with rotation pinned and a policy that is neither on nor off. */
  ghost predicate Rotates(g: Gate, p: nat) {
    && g.mode == Tracing && g.pinned == Pinned(RotatePerNode, p)
    && g.policy.policy != PolicyOff && g.policy.policy != PolicyOn
  }

  /** The live decision of rank r of n. */
  ghost predicate Collects(g: Gate, vendor: Vendor, r: nat, n: nat, elected: bool, nowMs: nat) {
    ShouldCollect(g, Place(vendor, r, n, elected), nowMs)
  }

  /** With rotation on every rank of a node and a shared clock, at every millisecond the decision of
      exactly one rank is to collect. */
  lemma OneCollector(gates: seq<Gate>, elected: seq<bool>, vendor: Vendor, p: nat, nowMs: nat)
    requires |gates| == |elected| > 0 && p > 0
    requires forall r :: 0 <= r < |gates| ==> Rotates(gates[r], p)
    ensures exists r: nat ::
              && r < |gates| && Collects(gates[r], vendor, r, |gates|, elected[r], nowMs)
              && forall q: nat :: q < |gates| && Collects(gates[q], vendor, q, |gates|, elected[q], nowMs) ==> q == r
  {
    var n, r := |gates|, Collector(nowMs, p, |gates|);
    assert Rotates(gates[r], p);
    assert Collects(gates[r], vendor, r, n, elected[r], nowMs);
    forall q: nat | q < n && Collects(gates[q], vendor, q, n, elected[q], nowMs) ensures q == r {
      assert Rotates(gates[q], p);
    }
  }

  /** How many of the milliseconds from..from+len-1 the decision of rank r is to collect. */
  ghost function CollectedMs(g: Gate, vendor: Vendor, r: nat, n: nat, elected: bool, from: nat, len: nat): nat {
    if len == 0 then 0
    else CollectedMs(g, vendor, r, n, elected, from, len - 1) +
         (if Collects(g, vendor, r, n, elected, from + len - 1) then 1 else 0)
  }

  lemma {:induction false} CollectedIsShare(g: Gate, vendor: Vendor, r: nat, n: nat, elected: bool, p: nat, from: nat, len: nat)
    requires Rotates(g, p) && p > 0 && r < n
    ensures CollectedMs(g, vendor, r, n, elected, from, len) == Share(from, len, p, n, r)
  {
    if len > 0 {
      hide Collector;
      CollectedIsShare(g, vendor, r, n, elected, p, from, len - 1);
    }
  }

  /** Of any n * p consecutive milliseconds the decision of each rank is to collect in exactly p. */
  lemma FairCollection(g: Gate, vendor: Vendor, r: nat, n: nat, elected: bool, p: nat, from: nat)
    requires Rotates(g, p) && p > 0 && r < n
    ensures CollectedMs(g, vendor, r, n, elected, from, p * n) == p
  {
    CollectedIsShare(g, vendor, r, n, elected, p, from, p * n);
    FairShare(from, p, n, r);
  }

  // ---------- The HIP driver, updated in place ----------

  class HipGate {
    const at: Place
    var mode: Mode
    var lastMode: Mode
    var policy: PolicyValue
    var pinned: Pinned
    var poolOpen: bool
    var enabled: bool
    var emit: bool
    var collectState: bool
    var permanentlyOff: bool
    var pool: seq<Record>      // held by the library
    var emitted: seq<Record>   // the trace
    ghost var captured: seq<Record>

    ghost function Abs(): Gate
      reads this
    {
      Gate(mode, lastMode, policy, pinned, false, poolOpen, enabled, emit, collectState, permanentlyOff, pool, emitted, captured)
    }

    ghost predicate Valid()
      reads this
    {
      at.vendor == Hip && Consistent(Abs(), at)
    }

    /** LTTNG_ROCTRACER_Init: an active start applies the first decision. */
    constructor (at: Place, mode: Mode, policy: PolicyValue, nowMs: nat)
      requires at.vendor == Hip
      ensures Valid() && this.at == at
      ensures Abs() == if Active(mode) then ApplyCollect(Start(mode, policy), at, nowMs) else Start(mode, policy)
    {
      this.at, this.mode, this.lastMode, this.policy := at, mode, mode, policy;
      pinned, poolOpen, enabled, emit := Unpinned, false, false, false;
      collectState, permanentlyOff := false, mode == Off;
      pool, emitted, captured := [], [], [];
      new;
      if Active(mode) {
        ApplyCollectState(nowMs);
      }
    }

    /** hip_should_collect_now; it may pin the method. */
    method ShouldCollectNow(nowMs: nat) returns (s: bool)
      requires Valid()
      modifies this`pinned
      ensures Valid() && s == ShouldCollect(old(Abs()), at, nowMs)
      ensures Abs() == old(Abs()).(pinned := PinNow(old(Abs())))
    {
      if mode != Tracing {
        return false;
      }
      if policy.policy == PolicyOff {
        return false;
      }
      if policy.policy == PolicyOn {
        return true;
      }
      if pinned.Unpinned? {
        pinned := Pinned(policy.policy, if policy.param > 0 then policy.param else 1000);
      }
      if pinned.how == RotatePerNode {
        if at.localRank < 0 || at.ranksPerNode <= 0 {
          return at.elected;
        }
        return nowMs / pinned.rotateMs % at.ranksPerNode == at.localRank;
      }
      return at.elected;
    }

    /** The period to wake for: positive exactly while a pinned or pending rotation can move the collector. */
    method RotatePeriodMs() returns (ms: nat)
      requires Valid()
      ensures ms > 0 <==>
              && mode == Tracing && policy.policy != PolicyOff
              && (if pinned.Pinned? then pinned.how else policy.policy) == RotatePerNode
              && at.localRank >= 0 && at.ranksPerNode > 0
      ensures ms > 0 ==> PinNow(Abs()) == Pinned(RotatePerNode, ms)
    {
      if mode != Tracing {
        return 0;
      }
      var m := if pinned.Pinned? then pinned.how else policy.policy;
      if m != RotatePerNode {
        return 0;
      }
      if policy.policy == PolicyOff {
        return 0;
      }
      if at.localRank < 0 || at.ranksPerNode <= 0 {
        return 0;
      }
      return if pinned.Pinned? then pinned.rotateMs else if policy.param > 0 then policy.param else 1000;
    }

    /** roctracer_flush_activity_expl, which runs hip_activity_callback on the batch. */
    method FlushPool()
      modifies this`pool, this`emitted
      ensures Abs() == Flush(old(Abs()))
    {
      if emit {
        emitted := emitted + pool;
      }
      pool := [];
    }

    /** pinsight_control_hip_apply_collect_state */
    method ApplyCollectState(nowMs: nat)
      requires Valid()
      modifies this
      ensures Valid() && Abs() == ApplyCollect(old(Abs()), at, nowMs)
    {
      ApplyKeeps(Abs(), at, nowMs);
      if permanentlyOff {
        return;
      }
      var s := ShouldCollectNow(nowMs);
      if s == collectState {
        return;
      }
      if s {
        if !poolOpen {
          poolOpen := true;
        }
        enabled := true;
        emit := true;
      } else {
        if poolOpen {
          FlushPool();
        }
        emit := false;
        enabled := false;
        if poolOpen {
          poolOpen, pool := false, [];
        }
      }
      collectState := s;
    }

    /** pinsight_control_hip_apply_mode, without the host callbacks it also switches. */
    method ApplyNewModeNow(nowMs: nat)
      requires Valid()
      modifies this
      ensures Valid() && Abs() == ApplyMode(old(Abs()), at, nowMs)
      ensures permanentlyOff <==> old(permanentlyOff) || (mode == Off && lastMode != Off)
      ensures permanentlyOff ==> Silent(Abs())
    {
      StepKeeps(Abs(), at, ApplyNewMode(nowMs));
      if permanentlyOff {
        return;
      }
      if mode == lastMode {
        return;
      }
      ApplyCollectState(nowMs);
      if mode == Off {
        permanentlyOff := true;
      }
    }

    /** LTTNG_ROCTRACER_Fini: the last batch is traced, then everything is off for good. */
    method Fini()
      requires Valid()
      modifies this
      ensures permanentlyOff && !poolOpen && !emit && !enabled && emitted == captured == old(captured)
    {
      if permanentlyOff {
        assert emitted + [] == emitted;
        return;
      }
      if poolOpen {
        FlushPool();
        if emit {
          enabled := false;
        }
        poolOpen, pool := false, [];
      }
      emit := false;
      permanentlyOff := true;
      assert emitted + [] == emitted;
    }
  }
}
