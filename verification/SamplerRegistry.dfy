/** The sampler's registry updated in place: pinsight_probe_register, the section of
    pinsight_probe_unregister that takes the probe out, and pinsight_sampler_kick
    (src/pinsight_sampler.c). Each is the step of the same name in SamplerProtocol.dfy. */
module SamplerRegistry {
  import opened SamplerProtocol

  lemma SomeRegistered(st: State)
    requires Invariant(st) && st.call.Draining?
    ensures st.registered > 0
  {
    var s := st.call.at;
    assert st.call.probe in st.scheds[s].probes;
    TotalUpdate(st.scheds, s, st.scheds[s].(probes := []));
  }

  /** The contexts that a kick tries to staff: those with probes, one of them enabled, and no thread
      yet; `can` tells those whose thread is created from those whose is not. */
  ghost function ToSpawn(scheds: seq<Sched>, wanted: seq<bool>, canCreate: seq<bool>, can: bool): (spawn: set<nat>)
    requires |wanted| == |canCreate| == |scheds|
    ensures forall s: nat :: s in spawn <==>
              s < |scheds| && wanted[s] && canCreate[s] == can && scheds[s].probes != [] && !scheds[s].created
  {
    set s: nat | s < |scheds| && wanted[s] && canCreate[s] == can && scheds[s].probes != [] && !scheds[s].created
  }

  /** What a kick does to one context. */
  function Kicked(sd: Sched, wanted: bool, canCreate: bool): Sched {
    if sd.probes == [] || sd.created || !wanted then sd
    else if canCreate then sd.(created := true, stop := false, thread := Looping)
    else sd.(stop := false)
  }

  /** The first n contexts have been kicked, the others not yet. */
  ghost predicate KickedTo(before: seq<Sched>, now: seq<Sched>, wanted: seq<bool>, canCreate: seq<bool>, n: nat)
    requires |wanted| == |canCreate| == |before|
  {
    && |now| == |before|
    && forall s :: 0 <= s < |before| ==> now[s] == if s < n then Kicked(before[s], wanted[s], canCreate[s]) else before[s]
  }

  lemma KickIs(st: State, now: seq<Sched>, wanted: seq<bool>, canCreate: seq<bool>)
    requires |wanted| == |canCreate| == |st.scheds| && st.call == Idle && KickedTo(st.scheds, now, wanted, canCreate, |st.scheds|)
    ensures var kick := Kick(ToSpawn(st.scheds, wanted, canCreate, true), ToSpawn(st.scheds, wanted, canCreate, false));
            Enabled(st, kick) && Next(st, kick) == st.(scheds := now)
  {
    var kick := Kick(ToSpawn(st.scheds, wanted, canCreate, true), ToSpawn(st.scheds, wanted, canCreate, false));
    assert Enabled(st, kick);
    var end := Next(st, kick);
    forall s: nat | s < |now| ensures end.scheds[s] == now[s] {
    }
    assert end.scheds == now;
  }

  /** Remove, spelled out for a registry that is not empty. */
  lemma RemoveIs(st: State)
    requires Enabled(st, Remove) && st.registered > 0
    ensures var p, s := st.call.probe, st.call.at;
            var sd := st.scheds[s].(probes := SwapRemove(st.scheds[s].probes, p));
            Next(st, Remove) ==
            if sd.probes == [] && sd.created then st.(scheds := st.scheds[s := sd.(stop := true)], call := Joining(p, s))
            else State(st.maxProbes, st.scheds[s := sd], st.registered - 1, st.home - {p}, Idle)
  {
    hide SwapRemove;
  }

  /** The removal loop: the last probe takes the place of p. */
  method SwapOut(probes: seq<ProbeId>, p: ProbeId) returns (ps: seq<ProbeId>)
    ensures ps == SwapRemove(probes, p)
  {
    ps := probes;
    for i := 0 to |probes|
      invariant forall j :: 0 <= j < i ==> probes[j] != p
      invariant ps == probes
    {
      if ps[i] == p {
        assert IndexOf(probes, p) == i;
        ps := ps[i := ps[|ps| - 1]];
        ps := ps[..|ps| - 1];
        return;
      }
    }
  }

  class Registry {
    const maxProbes: nat
    var scheds: seq<Sched>
    var numRegistered: nat
    ghost var home: map<ProbeId, nat>
    ghost var call: Call

    ghost function Abs(): State
      reads this
    {
      State(maxProbes, scheds, numRegistered, home, call)
    }

    ghost predicate Valid()
      reads this
    {
      Invariant(Abs())
    }

    constructor (maxProbes: nat)
      ensures Valid() && Abs() == Start(maxProbes)
    {
      this.maxProbes := maxProbes;
      scheds := seq(maxProbes + 1, _ => Sched([], false, false, NoThread));
      numRegistered, home, call := 0, map[], Idle;
      new;
      StartTotal(maxProbes + 1);
      assert Abs().scheds == Start(maxProbes).scheds;
    }

    /** pinsight_probe_register: -1 if the registry is full. A probe that wants its own thread
        always gets a context of its own. A probe that is registered already is listed again. */
    method RegisterProbe(p: ProbeId, own: bool) returns (rc: int, slot: nat)
      requires Valid() && call == Idle
      modifies this
      ensures Abs() == RegisterStep(old(Abs()), p, own)
      ensures p !in old(home) ==> Valid()
      ensures rc == if old(numRegistered) >= maxProbes then -1 else 0
      ensures rc == 0 ==> p in home && home[p] == slot && (own <==> slot > 0)
    {
      hide Listed, Staffed, Total;
      if p !in home {
        RegisterKeeps(Abs(), p, own);
      }
      slot := 0;
      if numRegistered >= maxProbes {
        return -1, 0;
      }
      if own {
        OwnSlotExists(Abs());
        var i := 1;
        while i < |scheds| && !(scheds[i].probes == [] && !scheds[i].created)
          invariant 1 <= i <= |scheds|
          invariant FirstFree(scheds, i) == FirstFree(scheds, 1)
        {
          i := i + 1;
        }
        if i < |scheds| {
          slot := i;
        }
      }
      scheds := scheds[slot := scheds[slot].(probes := scheds[slot].probes + [p])];
      home := home[p := slot];
      numRegistered := numRegistered + 1;
      rc := 0;
    }

    /** The unregistering thread holds both mutexes and no callback of the probe is running:
        swap-remove it, and decide whether its thread is to be joined. */
    method RemoveProbe(p: ProbeId, s: nat) returns (join: bool)
      requires Valid() && call == Draining(p, s) && Enabled(Abs(), Remove)
      modifies this
      ensures Valid() && Abs() == Next(old(Abs()), Remove)
      ensures join <==> call.Joining?
    {
      RemoveKeeps(Abs());
      SomeRegistered(Abs());
      RemoveIs(Abs());
      hide Invariant, SwapRemove, Next;
      var ps := SwapOut(scheds[s].probes, p);
      var sd := scheds[s].(probes := ps);
      join := sd.probes == [] && sd.created;
      if join {
        scheds := scheds[s := sd.(stop := true)];
        call := Joining(p, s);
      } else {
        scheds := scheds[s := sd];
        numRegistered := numRegistered - 1;
        home := home - {p};
        call := Idle;
      }
    }

    /** sched_spawn_locked for a context without a thread; creating it may fail. */
    method SpawnSched(s: nat, canCreate: bool)
      requires s < |scheds| && !scheds[s].created
      modifies this`scheds
      ensures scheds == old(scheds)[s := if canCreate then Sched(old(scheds)[s].probes, true, false, Looping)
                                         else old(scheds)[s].(stop := false)]
    {
      scheds := scheds[s := scheds[s].(stop := false)];
      if canCreate {
        scheds := scheds[s := scheds[s].(created := true, thread := Looping)];
      }
    }

    /** One turn of the kick's loop. */
    method KickSched(s: nat, wanted: bool, canCreate: bool)
      requires s < |scheds|
      modifies this`scheds
      ensures scheds == old(scheds)[s := Kicked(old(scheds)[s], wanted, canCreate)]
    {
      if scheds[s].probes == [] {
        return;
      }
      if !scheds[s].created && wanted {
        SpawnSched(s, canCreate);
      }
    }

    /** pinsight_sampler_kick: contexts with an enabled probe and no thread get one, unless
        creating it fails. */
    method KickAll(wanted: seq<bool>, canCreate: seq<bool>)
      requires Valid() && call == Idle && |wanted| == |canCreate| == |scheds|
      modifies this`scheds
      ensures Valid()
      ensures Abs() == Next(old(Abs()), Kick(ToSpawn(old(scheds), wanted, canCreate, true),
                                             ToSpawn(old(scheds), wanted, canCreate, false)))
      ensures |scheds| == |old(scheds)|
      ensures forall s :: 0 <= s < |scheds| ==>
                scheds[s] == if old(scheds)[s].probes == [] || old(scheds)[s].created || !wanted[s] then old(scheds)[s]
                             else if canCreate[s] then Sched(old(scheds)[s].probes, true, false, Looping)
                             else old(scheds)[s].(stop := false)
    {
      hide Invariant, Next, Enabled, ToSpawn;
      ghost var before := Abs();
      for s := 0 to |scheds|
        invariant |scheds| == |before.scheds| && KickedTo(before.scheds, scheds, wanted, canCreate, s)
      {
        KickSched(s, wanted[s], canCreate[s]);
      }
      KickIs(before, scheds, wanted, canCreate);
      KickKeeps(before, ToSpawn(before.scheds, wanted, canCreate, true), ToSpawn(before.scheds, wanted, canCreate, false));
    }
  }
}
