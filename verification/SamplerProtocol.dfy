/** Registration, kicks, unregistration and the scheduling threads of the sampler
    (src/pinsight_sampler.c), as steps under the mutexes: an API call holds the registry mutex from
    its first step to its last, a scheduling thread gives up its context's mutex only around a
    probe's callback. */
module SamplerProtocol {
  type ProbeId = nat

  /** Where a context's thread is: not created, in its loop, in a probe's callback, or returned. */
  datatype Thread = NoThread | Looping | InCall(probe: ProbeId) | Exited

  datatype Sched = Sched(probes: seq<ProbeId>, created: bool, stop: bool, thread: Thread)

  /** The API call in progress: unregistration waits for the callback, then for the thread. */
  datatype Call = Idle | Draining(probe: ProbeId, at: nat) | Joining(probe: ProbeId, at: nat)

  /** Context 0 is shared; there is one more for each of the maxProbes probes. home is p->sched. */
  datatype State = State(maxProbes: nat, scheds: seq<Sched>, registered: nat, home: map<ProbeId, nat>, call: Call)

  datatype Event =
    | Register(p: ProbeId, own: bool)
    | Kick(spawn: set<nat>, failed: set<nat>)   // contexts whose enabled probes get them a thread, or would
    | StartCall(s: nat, i: nat)        // the thread of s runs its i-th probe
    | EndCall(s: nat)
    | Exit(s: nat)                     // the loop sees the stop flag
    | Unregister(p: ProbeId)
    | Remove                           // no callback of the probe is running: take it out
    | Join                             // the emptied context's thread has returned

  // ---------- Steps ----------

  predicate Free(s: Sched) { s.probes == [] && !s.created }

  /** The first free context of its own, or 0: the source's fallback. */
  function FirstFree(scheds: seq<Sched>, from: nat): (i: nat)
    requires from <= |scheds|
    ensures i == 0 || (from <= i < |scheds| && Free(scheds[i]))
    ensures i == 0 && from > 0 ==> forall j :: from <= j < |scheds| ==> !Free(scheds[j])
    decreases |scheds| - from
  {
    if from == |scheds| then 0
    else if Free(scheds[from]) && from > 0 then from
    else FirstFree(scheds, from + 1)
  }

  function IndexOf(ps: seq<ProbeId>, p: ProbeId): (i: nat)
    ensures i <= |ps|
    ensures i < |ps| ==> ps[i] == p
    ensures forall j :: 0 <= j < i ==> ps[j] != p
  {
    if ps == [] || ps[0] == p then 0 else IndexOf(ps[1..], p) + 1
  }

  /** The last element takes the removed one's place. */
  function SwapRemove(ps: seq<ProbeId>, p: ProbeId): seq<ProbeId> {
    var i := IndexOf(ps, p);
    if i == |ps| then ps else ps[i := ps[|ps| - 1]][..|ps| - 1]
  }

  ghost predicate Enabled(st: State, e: Event) {
    match e
    case Register(p, own) => st.call == Idle && p !in st.home && |st.scheds| > 0
    case Kick(spawn, failed) =>
      st.call == Idle && spawn !! failed &&
      forall s :: s in spawn || s in failed ==> s < |st.scheds| && st.scheds[s].probes != [] && !st.scheds[s].created
    case StartCall(s, i) => s < |st.scheds| && st.scheds[s].thread == Looping && i < |st.scheds[s].probes|
    case EndCall(s) => s < |st.scheds| && st.scheds[s].thread.InCall?
    case Exit(s) => s < |st.scheds| && st.scheds[s].thread == Looping && st.scheds[s].stop
    case Unregister(p) => st.call == Idle && p in st.home && st.home[p] < |st.scheds|
    case Remove => st.call.Draining? && st.call.at < |st.scheds| && st.scheds[st.call.at].thread != InCall(st.call.probe)
    case Join => st.call.Joining? && st.call.at < |st.scheds| && st.scheds[st.call.at].thread == Exited
  }

  ghost function Forget(st: State, p: ProbeId): State {
    st.(registered := if st.registered > 0 then st.registered - 1 else 0, home := st.home - {p}, call := Idle)
  }

  /** Also defined for a probe that is registered already, which the source does not refuse. */
  ghost function RegisterStep(st: State, p: ProbeId, own: bool): State
    requires |st.scheds| > 0
  {
    if st.registered >= st.maxProbes then st else
    var s := if own then FirstFree(st.scheds, 1) else 0;
    st.(scheds := st.scheds[s := st.scheds[s].(probes := st.scheds[s].probes + [p])],
        registered := st.registered + 1, home := st.home[p := s])
  }

  ghost function Next(st: State, e: Event): State
    requires Enabled(st, e)
  {
    match e
    case Register(p, own) => RegisterStep(st, p, own)
    case Kick(spawn, failed) =>
      st.(scheds := seq(|st.scheds|, s requires 0 <= s < |st.scheds| =>
        if s in spawn then st.scheds[s].(created := true, stop := false, thread := Looping)
        else if s in failed then st.scheds[s].(stop := false) else st.scheds[s]))
    case StartCall(s, i) => st.(scheds := st.scheds[s := st.scheds[s].(thread := InCall(st.scheds[s].probes[i]))])
    case EndCall(s) => st.(scheds := st.scheds[s := st.scheds[s].(thread := Looping)])
    case Exit(s) => st.(scheds := st.scheds[s := st.scheds[s].(thread := Exited)])
    case Unregister(p) => st.(call := Draining(p, st.home[p]))
    case Remove =>
      var p, s := st.call.probe, st.call.at;
      var sd := st.scheds[s].(probes := SwapRemove(st.scheds[s].probes, p));
      if sd.probes == [] && sd.created
      then st.(scheds := st.scheds[s := sd.(stop := true)], call := Joining(p, s))
      else Forget(st.(scheds := st.scheds[s := sd]), p)
    case Join =>
      var p, s := st.call.probe, st.call.at;
      Forget(st.(scheds := st.scheds[s := st.scheds[s].(created := false, thread := NoThread)]), p)
  }

  // ---------- The invariant ----------

  ghost function Total(scheds: seq<Sched>): nat {
    if scheds == [] then 0 else Total(scheds[..|scheds| - 1]) + |scheds[|scheds| - 1].probes|
  }

  /** The probe an unregistration has taken out of its context but not yet forgotten. */
  ghost function Leaving(st: State): set<ProbeId> {
    if st.call.Joining? then {st.call.probe} else {}
  }

  ghost predicate Distinct(ps: seq<ProbeId>) {
    forall i, j :: 0 <= i < j < |ps| ==> ps[i] != ps[j]
  }

  /** Context s holds probes whose home it is, each once, and not one that is leaving. */
  ghost predicate Holds(sd: Sched, s: nat, home: map<ProbeId, nat>, leaving: set<ProbeId>) {
    Distinct(sd.probes) && forall p :: p in sd.probes ==> p in home && home[p] == s && p !in leaving
  }

  ghost predicate AtHome(scheds: seq<Sched>, home: map<ProbeId, nat>, leaving: set<ProbeId>) {
    forall p :: p in home ==> home[p] < |scheds| && (p in leaving || p in scheds[home[p]].probes)
  }

  ghost predicate Listed(st: State) {
    && (forall s :: 0 <= s < |st.scheds| ==> Holds(st.scheds[s], s, st.home, Leaving(st)))
    && AtHome(st.scheds, st.home, Leaving(st))
  }

  /** A context's thread exists while it has probes; stopping it is the business of the call in progress. */
  ghost predicate SchedOk(sd: Sched, s: nat, joining: bool) {
    && (sd.created <==> sd.thread != NoThread)
    && (sd.thread.InCall? ==> sd.thread.probe in sd.probes)
    && (sd.created && sd.probes == [] <==> joining)
    && (sd.created && sd.stop ==> sd.probes == [])
    && (sd.thread == Exited ==> sd.stop)
    && (joining ==> sd.stop)
    && (s > 0 ==> |sd.probes| <= 1)
  }

  ghost predicate Staffed(st: State) {
    forall s :: 0 <= s < |st.scheds| ==> SchedOk(st.scheds[s], s, st.call.Joining? && st.call.at == s)
  }

  ghost predicate Invariant(st: State) {
    && |st.scheds| == st.maxProbes + 1
    && Listed(st) && Staffed(st)
    && st.registered == Total(st.scheds) + |Leaving(st)| <= st.maxProbes
    && (!st.call.Idle? ==> st.call.probe in st.home && st.home[st.call.probe] == st.call.at)
  }

  // ---------- Counting ----------

  lemma {:induction false} TotalUpdate(scheds: seq<Sched>, s: nat, sd: Sched)
    requires s < |scheds|
    ensures Total(scheds[s := sd]) == Total(scheds) - |scheds[s].probes| + |sd.probes|
  {
    var after := scheds[s := sd];
    if s == |scheds| - 1 {
      assert after[..|scheds| - 1] == scheds[..|scheds| - 1];
    } else {
      TotalUpdate(scheds[..|scheds| - 1], s, sd);
      assert after[..|scheds| - 1] == scheds[..|scheds| - 1][s := sd];
    }
  }

  lemma {:induction false} TotalSame(a: seq<Sched>, b: seq<Sched>)
    requires |a| == |b| && forall i :: 0 <= i < |a| ==> |a[i].probes| == |b[i].probes|
    ensures Total(a) == Total(b)
  {
    if a != [] {
      TotalSame(a[..|a| - 1], b[..|b| - 1]);
    }
  }

  lemma {:induction false} TotalAtLeast(scheds: seq<Sched>)
    requires |scheds| > 0 && forall i :: 1 <= i < |scheds| ==> scheds[i].probes != []
    ensures Total(scheds) >= |scheds| - 1
  {
    if |scheds| > 1 {
      TotalAtLeast(scheds[..|scheds| - 1]);
    }
  }

  /** While the registry has room there is a free context, so a probe that wants its own thread
      never falls back to the shared one. */
  lemma OwnSlotExists(st: State)
    requires Invariant(st) && st.call == Idle && st.registered < st.maxProbes
    ensures FirstFree(st.scheds, 1) > 0
  {
    if FirstFree(st.scheds, 1) == 0 {
      forall i | 1 <= i < |st.scheds| ensures st.scheds[i].probes != [] {
        assert !Free(st.scheds[i]);
      }
      TotalAtLeast(st.scheds);
    }
  }

  // ---------- Every step keeps the invariant ----------

  lemma RegisterKeeps(st: State, p: ProbeId, own: bool)
    requires Invariant(st) && Enabled(st, Register(p, own))
    ensures Invariant(Next(st, Register(p, own)))
  {
    hide Total, FirstFree;
    if st.registered < st.maxProbes {
      var s := if own then FirstFree(st.scheds, 1) else 0;
      if own {
        OwnSlotExists(st);
      }
      var sd := st.scheds[s].(probes := st.scheds[s].probes + [p]);
      TotalUpdate(st.scheds, s, sd);
      RegisterLists(st, p, s);
    }
  }

  lemma RegisterLists(st: State, p: ProbeId, s: nat)
    requires Listed(st) && s < |st.scheds| && p !in st.home && st.call == Idle
    ensures Listed(st.(scheds := st.scheds[s := st.scheds[s].(probes := st.scheds[s].probes + [p])],
                       registered := st.registered + 1, home := st.home[p := s]))
  {
    assert Holds(st.scheds[s], s, st.home, Leaving(st));
    forall t | 0 <= t < |st.scheds| ensures Holds(st.scheds[t], t, st.home[p := s], Leaving(st)) || t == s {
      assert Holds(st.scheds[t], t, st.home, Leaving(st));
    }
    assert p in (st.scheds[s].probes + [p]);
  }

  lemma KickLists(st: State, spawn: set<nat>, failed: set<nat>)
    requires Listed(st) && Enabled(st, Kick(spawn, failed))
    ensures Listed(Next(st, Kick(spawn, failed)))
  {
    hide Distinct;
    var end := Next(st, Kick(spawn, failed));
    forall s | 0 <= s < |end.scheds| ensures Holds(end.scheds[s], s, end.home, Leaving(end)) {
      assert Holds(st.scheds[s], s, st.home, Leaving(st));
    }
  }

  lemma KickKeeps(st: State, spawn: set<nat>, failed: set<nat>)
    requires Invariant(st) && Enabled(st, Kick(spawn, failed))
    ensures Invariant(Next(st, Kick(spawn, failed)))
  {
    hide Total, Listed;
    TotalSame(st.scheds, Next(st, Kick(spawn, failed)).scheds);
    KickLists(st, spawn, failed);
  }

  lemma ThreadKeeps(st: State, s: nat, thread: Thread)
    requires Invariant(st) && s < |st.scheds| && SchedOk(st.scheds[s].(thread := thread), s, st.call.Joining? && st.call.at == s)
    ensures Invariant(st.(scheds := st.scheds[s := st.scheds[s].(thread := thread)]))
  {
    hide Total, SchedOk;
    TotalUpdate(st.scheds, s, st.scheds[s].(thread := thread));
    var end := st.(scheds := st.scheds[s := st.scheds[s].(thread := thread)]);
    forall t | 0 <= t < |end.scheds| ensures Holds(end.scheds[t], t, end.home, Leaving(end)) {
      assert Holds(st.scheds[t], t, st.home, Leaving(st));
    }
  }

  lemma StartCallKeeps(st: State, s: nat, i: nat)
    requires Invariant(st) && Enabled(st, StartCall(s, i))
    ensures Invariant(Next(st, StartCall(s, i)))
  {
    assert st.scheds[s].probes[i] in st.scheds[s].probes;
    ThreadKeeps(st, s, InCall(st.scheds[s].probes[i]));
  }

  lemma EndCallKeeps(st: State, s: nat)
    requires Invariant(st) && Enabled(st, EndCall(s))
    ensures Invariant(Next(st, EndCall(s)))
  {
    ThreadKeeps(st, s, Looping);
  }

  lemma ExitKeeps(st: State, s: nat)
    requires Invariant(st) && Enabled(st, Exit(s))
    ensures Invariant(Next(st, Exit(s)))
  {
    ThreadKeeps(st, s, Exited);
  }

  lemma SwapRemoveIs(ps: seq<ProbeId>, p: ProbeId)
    requires p in ps && Distinct(ps)
    ensures var r := SwapRemove(ps, p);
            && |r| == |ps| - 1 && (forall q :: q in r <==> q in ps && q != p)
            && Distinct(r)
  {
    var i, r := IndexOf(ps, p), SwapRemove(ps, p);
    assert ps[i] == p;
    forall q ensures q in r <==> q in ps && q != p {
      if q in ps && q != p {
        var j :| 0 <= j < |ps| && ps[j] == q;
        if j == |ps| - 1 {
          assert r[i] == q;
        } else {
          assert r[j] == q;
        }
      }
    }
  }

  /** Taking a probe out leaves none of it exactly when it was listed at most once: a probe that was
      registered twice would still be run after it was unregistered. */
  lemma RemovalIsComplete(ps: seq<ProbeId>, p: ProbeId)
    ensures p !in SwapRemove(ps, p) <==> forall i, j :: 0 <= i < j < |ps| ==> ps[i] != p || ps[j] != p
  {
    var i, r := IndexOf(ps, p), SwapRemove(ps, p);
    if i < |ps| {
      if j :| i < j < |ps| && ps[j] == p {
        assert r[if j == |ps| - 1 then i else j] == p;
      }
    }
  }

  lemma RemoveKeeps(st: State)
    requires Invariant(st) && Enabled(st, Remove)
    ensures Invariant(Next(st, Remove))
  {
    hide Total, SwapRemove, Holds, AtHome;
    var p, s := st.call.probe, st.call.at;
    var ps := st.scheds[s].probes;
    RemoveLists(st);
    var sd := st.scheds[s].(probes := SwapRemove(ps, p));
    TotalUpdate(st.scheds, s, sd);
    TotalUpdate(st.scheds, s, sd.(stop := true));
  }

  lemma RemoveLists(st: State)
    requires Invariant(st) && Enabled(st, Remove)
    ensures Listed(Next(st, Remove))
    ensures var ps, r := st.scheds[st.call.at].probes, SwapRemove(st.scheds[st.call.at].probes, st.call.probe);
            |r| == |ps| - 1 && forall q :: q in r <==> q in ps && q != st.call.probe
  {
    hide Total, SwapRemove, Staffed;
    var p, s := st.call.probe, st.call.at;
    assert Holds(st.scheds[s], s, st.home, Leaving(st));
    SwapRemoveIs(st.scheds[s].probes, p);
    var end := Next(st, Remove);
    forall t | 0 <= t < |end.scheds| ensures Holds(end.scheds[t], t, end.home, Leaving(end)) {
      assert Holds(st.scheds[t], t, st.home, Leaving(st));
    }
  }

  lemma JoinKeeps(st: State)
    requires Invariant(st) && Enabled(st, Join)
    ensures Invariant(Next(st, Join))
  {
    hide Total, Holds, AtHome;
    TotalSame(st.scheds, Next(st, Join).scheds);
    JoinLists(st);
  }

  lemma JoinLists(st: State)
    requires Invariant(st) && Enabled(st, Join)
    ensures Listed(Next(st, Join))
  {
    hide Total, Staffed, Distinct;
    var end := Next(st, Join);
    forall t | 0 <= t < |end.scheds| ensures Holds(end.scheds[t], t, end.home, Leaving(end)) {
      assert Holds(st.scheds[t], t, st.home, Leaving(st));
    }
  }

  lemma NextKeeps(st: State, e: Event)
    requires Invariant(st) && Enabled(st, e)
    ensures Invariant(Next(st, e))
  {
    hide Listed, Staffed, Total;
    match e
    case Register(p, own) => RegisterKeeps(st, p, own);
    case Kick(spawn, failed) => KickKeeps(st, spawn, failed);
    case StartCall(s, i) => StartCallKeeps(st, s, i);
    case EndCall(s) => EndCallKeeps(st, s);
    case Exit(s) => ExitKeeps(st, s);
    case Unregister(p) => UnregisterKeeps(st, p);
    case Remove => RemoveKeeps(st);
    case Join => JoinKeeps(st);
  }

  lemma UnregisterKeeps(st: State, p: ProbeId)
    requires Invariant(st) && Enabled(st, Unregister(p))
    ensures Invariant(Next(st, Unregister(p)))
  {
  }

  // ---------- Runs ----------

  function Start(maxProbes: nat): State {
    State(maxProbes, seq(maxProbes + 1, _ => Sched([], false, false, NoThread)), 0, map[], Idle)
  }

  /** The state after a run; an event that is not enabled does not happen. */
  ghost function After(st: State, es: seq<Event>): State {
    if es == [] then st else
    var mid := After(st, es[..|es| - 1]);
    if Enabled(mid, es[|es| - 1]) then Next(mid, es[|es| - 1]) else mid
  }

  lemma {:induction false} StartTotal(n: nat)
    ensures Total(seq(n, _ => Sched([], false, false, NoThread))) == 0
  {
    if n > 0 {
      StartTotal(n - 1);
      assert seq(n, _ => Sched([], false, false, NoThread))[..n - 1] == seq(n - 1, _ => Sched([], false, false, NoThread));
    }
  }

  lemma {:induction false} RunKeeps(st: State, es: seq<Event>)
    requires Invariant(st)
    ensures Invariant(After(st, es))
    decreases |es|
  {
    hide Invariant, Enabled, Next;
    if es != [] {
      RunKeeps(st, es[..|es| - 1]);
      var mid := After(st, es[..|es| - 1]);
      if Enabled(mid, es[|es| - 1]) {
        NextKeeps(mid, es[|es| - 1]);
      }
    }
  }

  /** Every run from a fresh registry: each own context serves at most one probe, and a callback
      only ever runs for a probe that is registered there. */
  lemma ReachableStates(maxProbes: nat, es: seq<Event>)
    ensures var st := After(Start(maxProbes), es);
            && Invariant(st)
            && (forall s :: 0 < s < |st.scheds| ==> |st.scheds[s].probes| <= 1)
            && (forall s :: 0 <= s < |st.scheds| && st.scheds[s].thread.InCall? ==> st.scheds[s].thread.probe in st.home)
  {
    StartTotal(maxProbes + 1);
    RunKeeps(Start(maxProbes), es);
  }

  // ---------- After unregistration ----------

  /** p is not registered, in no context, and no thread is in its callback. */
  ghost predicate Quiet(st: State, p: ProbeId) {
    && p !in st.home
    && forall s :: 0 <= s < |st.scheds| ==> p !in st.scheds[s].probes && st.scheds[s].thread != InCall(p)
  }

  lemma UnregisteredIsQuiet(st: State, p: ProbeId)
    requires Invariant(st) && p !in st.home
    ensures Quiet(st, p)
  {
  }

  /** The step that ends an unregistration leaves the probe quiet. */
  lemma UnregisterEndsQuiet(st: State, e: Event)
    requires Invariant(st) && !st.call.Idle? && Enabled(st, e) && Next(st, e).call == Idle
    ensures Quiet(Next(st, e), st.call.probe)
  {
    NextKeeps(st, e);
    UnregisteredIsQuiet(Next(st, e), st.call.probe);
  }

  /** From then on, under any interleaving of loops, kicks and other calls, the probe's callback is
      neither running nor started, until the probe is registered again. */
  lemma {:induction false} StaysQuiet(st: State, es: seq<Event>, p: ProbeId)
    requires Invariant(st) && Quiet(st, p)
    requires forall e :: e in es ==> !(e.Register? && e.p == p)
    ensures Quiet(After(st, es), p)
    ensures forall k, s :: 0 <= k <= |es| && 0 <= s < |After(st, es[..k]).scheds| ==> After(st, es[..k]).scheds[s].thread != InCall(p)
    decreases |es|
  {
    if es == [] {
    } else {
      var rest := es[..|es| - 1];
      StaysQuiet(st, rest, p);
      RunKeeps(st, rest);
      var mid, e := After(st, rest), es[|es| - 1];
      assert e in es;
      if Enabled(mid, e) {
        NextKeeps(mid, e);
        HomeOnlyByRegister(mid, e, p);
        UnregisteredIsQuiet(Next(mid, e), p);
      }
      forall k, s | 0 <= k <= |es| && 0 <= s < |After(st, es[..k]).scheds| ensures After(st, es[..k]).scheds[s].thread != InCall(p) {
        if k < |es| {
          assert es[..k] == rest[..k];
        } else {
          assert es[..k] == es;
        }
      }
    }
  }

  lemma HomeOnlyByRegister(st: State, e: Event, p: ProbeId)
    requires Invariant(st) && Enabled(st, e) && p !in st.home && !(e.Register? && e.p == p)
    ensures p !in Next(st, e).home
  {
  }

  /** Every event of the run happens. */
  ghost predicate Happens(st: State, es: seq<Event>)
    decreases |es|
  {
    es == [] || (Happens(st, es[..|es| - 1]) && Enabled(After(st, es[..|es| - 1]), es[|es| - 1]))
  }

  lemma OneEvent(st: State, e: Event)
    requires Enabled(st, e)
    ensures Happens(st, [e]) && After(st, [e]) == Next(st, e)
  {
    hide Enabled, Next;
    assert [e][..0] == [];
    assert After(st, []) == st;
  }

  lemma Longer(st: State, es: seq<Event>, e: Event)
    requires Happens(st, es) && Enabled(After(st, es), e)
    ensures Happens(st, es + [e]) && After(st, es + [e]) == Next(After(st, es), e)
  {
    hide Enabled, Next;
    assert (es + [e])[..|es|] == es;
  }

  /** How far an unregistration is from its end, in steps. */
  ghost function Distance(st: State): nat {
    match st.call
    case Idle => 0
    case Draining(p, s) => if s < |st.scheds| && st.scheds[s].thread == InCall(p) then 4 else 3
    case Joining(p, s) => if s < |st.scheds| && st.scheds[s].thread == Exited then 1 else 2
  }

  /** A step of the unregistration, or of the thread it waits for, that brings it closer to its end. */
  lemma StepCloser(st: State) returns (e: Event)
    requires Invariant(st) && !st.call.Idle?
    ensures e in {Remove, Join, EndCall(st.call.at), Exit(st.call.at)}
    ensures Enabled(st, e) && Distance(Next(st, e)) < Distance(st)
    ensures var call := Next(st, e).call; call == Idle || (call.probe == st.call.probe && call.at == st.call.at)
  {
    hide Total, SwapRemove;
    var s := st.call.at;
    assert SchedOk(st.scheds[s], s, st.call.Joining?);
    if st.call.Draining? {
      e := if st.scheds[s].thread == InCall(st.call.probe) then EndCall(s) else Remove;
      NextKeeps(st, e);
      assert SchedOk(Next(st, e).scheds[s], s, Next(st, e).call.Joining?);
    } else {
      e := if st.scheds[s].thread == Exited then Join else Exit(s);
    }
  }

  /** From any state an unregistration in progress comes to its end in at most four steps of its own
      and of the thread it waits for, and then the probe is quiet. */
  lemma UnregisterCompletes(st: State) returns (es: seq<Event>)
    requires Invariant(st) && !st.call.Idle?
    ensures |es| <= 4 && Happens(st, es)
    ensures forall e :: e in es ==> e in {Remove, Join, EndCall(st.call.at), Exit(st.call.at)}
    ensures After(st, es).call == Idle && Quiet(After(st, es), st.call.probe)
  {
    hide Invariant, Enabled, Next, Quiet, After, Happens;
    es := [];
    EmptyRun(st);
    var mid := st;
    while mid.call != Idle
      invariant mid == After(st, es) && Happens(st, es) && Invariant(mid) && |es| + Distance(mid) <= 4
      invariant forall e :: e in es ==> e in {Remove, Join, EndCall(st.call.at), Exit(st.call.at)}
      invariant if mid.call == Idle then Quiet(mid, st.call.probe)
                else mid.call.probe == st.call.probe && mid.call.at == st.call.at
      decreases Distance(mid)
    {
      var e := StepCloser(mid);
      NextKeeps(mid, e);
      if Next(mid, e).call == Idle {
        UnregisterEndsQuiet(mid, e);
      }
      Longer(st, es, e);
      es, mid := es + [e], Next(mid, e);
    }
  }

  lemma EmptyRun(st: State)
    ensures After(st, []) == st && Happens(st, [])
  {
  }

  // ---------- A registered probe gets its thread ----------

  /** A kick gives every context it staffs a running thread; one whose thread cannot be created stays
      without, ready for the next kick; the rest of the registry stays. */
  lemma KickStaffs(st: State, spawn: set<nat>, failed: set<nat>, s: nat)
    requires Enabled(st, Kick(spawn, failed)) && s < |st.scheds|
    ensures var end := Next(st, Kick(spawn, failed));
            && |end.scheds| == |st.scheds| && end == st.(scheds := end.scheds)
            && end.scheds[s] == (if s in spawn then Sched(st.scheds[s].probes, true, false, Looping)
                                 else if s in failed then Sched(st.scheds[s].probes, false, false, st.scheds[s].thread)
                                 else st.scheds[s])
  {
  }

  /** After registering p with room, and a kick that staffs its context, its callback can start. */
  lemma RegisteredCanStart(st: State, p: ProbeId, own: bool, spawn: set<nat>, failed: set<nat>) returns (i: nat)
    requires Enabled(st, Register(p, own)) && st.registered < st.maxProbes
    requires Enabled(Next(st, Register(p, own)), Kick(spawn, failed)) && Next(st, Register(p, own)).home[p] in spawn
    ensures var listed := Next(st, Register(p, own));
            var s, end := listed.home[p], Next(listed, Kick(spawn, failed));
            && Enabled(end, StartCall(s, i)) && Next(end, StartCall(s, i)).scheds[s].thread == InCall(p)
  {
    var listed := Next(st, Register(p, own));
    var s := listed.home[p];
    KickStaffs(listed, spawn, failed, s);
    i := |st.scheds[s].probes|;
  }

  /** In every reachable state without a call in progress, a registered probe is at most two steps
      from its callback: its context's thread, created by a kick if there is none, starts it. */
  lemma EveryProbeCanRun(st: State, p: ProbeId) returns (es: seq<Event>)
    requires Invariant(st) && st.call == Idle && p in st.home
    ensures |es| <= 2 && Happens(st, es)
    ensures forall e :: e in es ==> e == Kick({st.home[p]}, {}) || e == EndCall(st.home[p]) || (e.StartCall? && e.s == st.home[p])
    ensures |After(st, es).scheds| == |st.scheds| && After(st, es).scheds[st.home[p]].thread == InCall(p)
  {
    hide Total;
    var s := st.home[p];
    assert SchedOk(st.scheds[s], s, false) && p in st.scheds[s].probes;
    var i: nat :| i < |st.scheds[s].probes| && st.scheds[s].probes[i] == p;
    if st.scheds[s].thread == Looping {
      es := [StartCall(s, i)];
      OneEvent(st, StartCall(s, i));
    } else {
      var e := if st.scheds[s].created then EndCall(s) else Kick({s}, {});
      es := [e, StartCall(s, i)];
      OneEvent(st, e);
      assert [e] + [StartCall(s, i)] == es;
      Longer(st, [e], StartCall(s, i));
    }
  }
}
