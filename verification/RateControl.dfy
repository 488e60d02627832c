/** The start / max / rate filter of a region: lexgion_begin's counters, the trace bit and
    lexgion_post_trace_update (src/pinsight.c, src/pinsight.h), as values. All counters are
    unsigned 32-bit. */
module RateControl {
  import opened Numbering

  type U32 = n: nat | n < UINT_RANGE

  /** max_num_traces == (unsigned)-1: no cap. */
  const UNLIMITED: U32 := 0xFFFF_FFFF

  function Inc(n: U32): U32 {
    (n + 1) % UINT_RANGE
  }

  function Dec(n: U32): U32 {
    (n + UINT_RANGE - 1) % UINT_RANGE
  }

  lemma IncBelow(n: U32)
    ensures n < UINT_RANGE - 1 ==> Inc(n) == n + 1
    ensures Dec(Inc(n)) == n
  {
  }

  /** trace_starts_at, max_num_traces, tracing_rate and the window generation of a config. */
  datatype Config = Config(startsAt: U32, maxTraces: U32, rate: U32, generation: U32)

  /** The counters of a region. */
  datatype Region = Region(counter: U32, traceCounter: U32, sinceTrace: U32, seenGeneration: U32, traceBit: bool,
                           firstTraced: U32, lastTraced: U32)

  /** lexgion_begin's part: one more execution. */
  function Enter(r: Region): Region {
    r.(sinceTrace := Inc(r.sinceTrace), counter := Inc(r.counter))
  }

  /** lexgion_set_rate_trace_bit */
  function SetTraceBit(r: Region, c: Config): Region {
    var kept := if c.maxTraces != UNLIMITED && r.seenGeneration != c.generation
                 then r.(traceCounter := 0, seenGeneration := c.generation) else r;
    kept.(traceBit :=
      && c.startsAt <= Dec(kept.counter)
      && (c.maxTraces == UNLIMITED || kept.traceCounter < c.maxTraces)
      && kept.sinceTrace >= c.rate)
  }

  /** lexgion_post_trace_update, without the window end it may fire. */
  function PostTrace(r: Region): Region {
    var t := Inc(r.traceCounter);
    r.(traceCounter := t, firstTraced := if t == 1 then Dec(r.counter) else r.firstTraced,
       sinceTrace := 0, lastTraced := Dec(r.counter))
  }

  /** The branch that ends a window: the region has just reached its cap. */
  predicate AtCap(r: Region, c: Config) {
    c.maxTraces != UNLIMITED && r.traceCounter >= c.maxTraces
  }

  /** A new region; the generation it has seen is whatever its slot held. */
  function Fresh(seen: U32): Region {
    Region(0, 0, 0, seen, false, 0, 0)
  }

  // ---------- Any interleaving of executions and generation steps ----------

  datatype Event = Execution | NextGeneration

  /** What a run adds up to: traces emitted, times the cap branch was taken, generation steps. */
  datatype Totals = Totals(traces: nat, capped: nat, steps: nat)

  datatype World = World(region: Region, config: Config, totals: Totals)

  /** One execution: begin, decide, and at the end account for the trace if there was one. */
  ghost function Step(w: World, e: Event): World {
    match e
    case NextGeneration =>
      World(w.region, w.config.(generation := Inc(w.config.generation)), w.totals.(steps := w.totals.steps + 1))
    case Execution =>
      var r := SetTraceBit(Enter(w.region), w.config);
      if !r.traceBit then w.(region := r) else
      var done := PostTrace(r);
      World(done, w.config, w.totals.(traces := w.totals.traces + 1,
                                      capped := w.totals.capped + (if AtCap(done, w.config) then 1 else 0)))
  }

  ghost function Steps(w: World, es: seq<Event>): World {
    if es == [] then w else Step(Steps(w, es[..|es| - 1]), es[|es| - 1])
  }

  lemma {:induction false} StepsConcat(w: World, a: seq<Event>, b: seq<Event>)
    ensures Steps(w, a + b) == Steps(Steps(w, a), b)
    decreases |b|
  {
    hide Step;
    if b == [] {
      assert a + b == a;
    } else {
      assert (a + b)[..|a + b| - 1] == a + b[..|b| - 1];
      StepsConcat(w, a, b[..|b| - 1]);
    }
  }

  ghost function Executions(n: nat): seq<Event> {
    seq(n, _ => Execution)
  }

  // ---------- One execution after another, from any counters ----------

  function Max(a: int, b: int): int { if a < b then b else a }

  /** The traces that count against the cap: those of another generation do not. */
  function Base(r: Region, c: Config): nat {
    if c.maxTraces != UNLIMITED && r.seenGeneration != c.generation then 0 else r.traceCounter
  }

  /** The first execution from r on that may be traced (counted from 1): late enough for the start
      and far enough from the last trace. */
  function First(r: Region, c: Config): (f: nat)
    ensures f > 0
  {
    Max(1, Max(c.startsAt + 1 - r.counter, c.rate - r.sinceTrace))
  }

  /** The distance between traced executions. */
  function Stride(c: Config): (s: nat)
    ensures s > 0
  {
    Max(c.rate, 1)
  }

  /** May one more execution be traced after t from r on? */
  predicate BelowCap(r: Region, c: Config, t: nat) {
    c.maxTraces == UNLIMITED || Base(r, c) + t < c.maxTraces
  }

  /** How many of the first n executions from r on the rate lets through. */
  function Due(r: Region, c: Config, n: nat): nat {
    if n < First(r, c) then 0 else (n - First(r, c)) / Stride(c) + 1
  }

  /** How many of them are traced. */
  function Traces(r: Region, c: Config, n: nat): nat {
    if !BelowCap(r, c, 0) then 0
    else if c.maxTraces != UNLIMITED && c.maxTraces < Base(r, c) + Due(r, c, n) then c.maxTraces - Base(r, c)
    else Due(r, c, n)
  }

  /** Is execution n (counted from 1) one of First, First + Stride, First + 2 * Stride, ... within the cap? */
  predicate IsTraced(r: Region, c: Config, n: nat) {
    && n >= First(r, c) && (n - First(r, c)) % Stride(c) == 0
    && BelowCap(r, c, (n - First(r, c)) / Stride(c))
  }

  lemma DivStep(a: nat, s: nat)
    requires s > 0
    ensures (a + 1) % s == 0 ==> (a + 1) / s == a / s + 1
    ensures (a + 1) % s != 0 ==> (a + 1) / s == a / s
    ensures (a + 1) % s == 0 <==> a % s == s - 1
  {
    var q, m := a / s, a % s;
    DivMod(a, s);
    if m == s - 1 {
      Distributes(q, 1, s);
      Commutes(q, s);
      Commutes(q + 1, s);
      DivModUnique(a + 1, s, q + 1, 0);
    } else {
      DivModUnique(a + 1, s, q, m + 1);
    }
  }

  /** The execution of the t-th trace. */
  function Nth(r: Region, c: Config, t: nat): nat
    requires t > 0
  {
    First(r, c) + (t - 1) * Stride(c)
  }

  /** Executions since the last trace. */
  ghost function Since(r: Region, c: Config, n: nat): int {
    if Traces(r, c, n) == 0 then r.sinceTrace + n else n - Nth(r, c, Traces(r, c, n))
  }

  lemma StepTraces(r: Region, c: Config, n: nat)
    requires n > 0
    ensures Traces(r, c, n) == Traces(r, c, n - 1) + (if IsTraced(r, c, n) then 1 else 0)
    ensures IsTraced(r, c, n) ==> Nth(r, c, Traces(r, c, n)) == n
  {
    hide First, Stride, Nth, Base;
    if n > First(r, c) {
      DivStep(n - 1 - First(r, c), Stride(c));
    } else {
      DivModUnique(0, Stride(c), 0, 0);
    }
    if IsTraced(r, c, n) {
      NthOfDistance(r, c, n - First(r, c));
    }
  }

  /** The trace that a distance from the first one belongs to. */
  lemma NthOfDistance(r: Region, c: Config, a: nat)
    ensures Nth(r, c, a / Stride(c) + 1) == First(r, c) + a - a % Stride(c)
  {
    hide First, Stride;
    DivMod(a, Stride(c));
    Commutes(a / Stride(c), Stride(c));
  }

  lemma {:induction false} TracesBound(r: Region, c: Config, n: nat)
    ensures Traces(r, c, n) <= n
    ensures Traces(r, c, n) > 0 ==> Nth(r, c, Traces(r, c, n)) <= n
  {
    if n > 0 {
      hide Nth, Traces, IsTraced;
      TracesBound(r, c, n - 1);
      StepTraces(r, c, n);
    } else {
      NoTraces(r, c);
    }
  }

  /** While the cap is not reached, the filter's counter tells the distance to the last trace. */
  lemma SinceBelowCap(r: Region, c: Config, n: nat)
    requires n >= First(r, c) && BelowCap(r, c, Traces(r, c, n))
    ensures Traces(r, c, n) == (n - First(r, c)) / Stride(c) + 1
    ensures Since(r, c, n) == (n - First(r, c)) % Stride(c)
  {
    hide First, Stride, Nth, Base;
    NthOfDistance(r, c, n - First(r, c));
  }

  lemma DueIff(r: Region, c: Config, n: nat)
    requires n > 0
    ensures IsTraced(r, c, n) <==>
            && c.startsAt <= r.counter + n - 1 && BelowCap(r, c, Traces(r, c, n - 1))
            && Since(r, c, n - 1) + 1 >= c.rate
  {
    if n <= First(r, c) {
      hide Stride, Nth, Base;
      DivModUnique(0, Stride(c), 0, 0);
    } else {
      hide Nth, Base;
      DivStep(n - 1 - First(r, c), Stride(c));
      if BelowCap(r, c, Traces(r, c, n - 1)) {
        SinceBelowCap(r, c, n - 1);
      }
    }
  }

  /** The counters of v after n executions from r on. */
  ghost predicate Closed(r: Region, c: Config, n: nat, v: Region) {
    var t := Traces(r, c, n);
    && v.counter == r.counter + n && v.sinceTrace == Since(r, c, n)
    && Base(v, c) == Base(r, c) + t
    && (n > 0 ==> v.traceCounter == Base(v, c) && (c.maxTraces != UNLIMITED ==> v.seenGeneration == c.generation))
    && v.firstTraced == (if t > 0 && Base(r, c) == 0 then r.counter + First(r, c) - 1 else r.firstTraced)
    && v.lastTraced == (if t > 0 then r.counter + Nth(r, c, t) - 1 else r.lastTraced)
  }

  /** The cap was reached, by a trace. */
  ghost predicate Filled(r: Region, c: Config, n: nat) {
    c.maxTraces != UNLIMITED && Traces(r, c, n) > 0 && !BelowCap(r, c, Traces(r, c, n))
  }

  ghost predicate ClosedWorld(w: World, n: nat, v: World) {
    && Closed(w.region, w.config, n, v.region) && v.config == w.config
    && v.totals == w.totals.(traces := w.totals.traces + Traces(w.region, w.config, n),
                             capped := w.totals.capped + (if Filled(w.region, w.config, n) then 1 else 0))
  }

  /** None of the counters wraps within n executions. */
  ghost predicate Room(r: Region, c: Config, n: nat) {
    r.counter + n < UINT_RANGE && r.sinceTrace + n < UINT_RANGE && Base(r, c) + n < UINT_RANGE
  }

  lemma ExecutionKeepsClosed(w: World, n: nat, v: World)
    requires n > 0 && Room(w.region, w.config, n) && ClosedWorld(w, n - 1, v)
    ensures ClosedWorld(w, n, Step(v, Execution))
    ensures Step(v, Execution).region.traceBit <==> IsTraced(w.region, w.config, n)
  {
    var r, c := w.region, w.config;
    hide IsTraced, Traces, First, Stride, Inc, Dec;
    IncBelow(v.region.counter);
    IncBelow(v.region.sinceTrace);
    IncBelow(Base(v.region, c));
    DueIff(r, c, n);
    StepTraces(r, c, n);
    TracesBound(r, c, n);
    TracesBound(r, c, n - 1);
    NthFirst(r, c);
  }

  /** From any counters, under a fixed config and generation, exactly the executions First,
      First + Stride, ... are traced, up to what the cap has left; the branch that ends a window is
      taken once, when the cap is reached. A count of another generation does not matter. */
  lemma {:induction false} TracesFixedConfig(w: World, n: nat)
    requires Room(w.region, w.config, n)
    ensures ClosedWorld(w, n, Steps(w, Executions(n)))
    ensures n > 0 ==> (Steps(w, Executions(n)).region.traceBit <==> IsTraced(w.region, w.config, n))
  {
    if n == 0 {
      NoTraces(w.region, w.config);
    } else {
      hide Step, IsTraced, Traces, Since, Room;
      assert Room(w.region, w.config, n - 1) by { RoomShrinks(w.region, w.config, n); }
      TracesFixedConfig(w, n - 1);
      assert Executions(n)[..n - 1] == Executions(n - 1);
      ExecutionKeepsClosed(w, n, Steps(w, Executions(n - 1)));
    }
  }

  lemma RoomShrinks(r: Region, c: Config, n: nat)
    requires n > 0 && Room(r, c, n)
    ensures Room(r, c, n - 1)
  {
  }

  lemma NoTraces(r: Region, c: Config)
    ensures Traces(r, c, 0) == 0
  {
  }

  lemma NthFirst(r: Region, c: Config)
    ensures Nth(r, c, 1) == First(r, c)
  {
  }

  // ---------- The cap over a run ----------

  ghost predicate Capped(w: World) {
    w.region.traceCounter <= w.config.maxTraces != UNLIMITED
  }

  lemma StepKeepsCapped(w: World, e: Event)
    requires Capped(w)
    ensures Capped(Step(w, e)) && Step(w, e).config.maxTraces == w.config.maxTraces
  {
  }

  lemma {:induction false} RunKeepsCapped(w: World, es: seq<Event>)
    requires Capped(w)
    ensures Capped(Steps(w, es)) && Steps(w, es).config.maxTraces == w.config.maxTraces
  {
    if es != [] {
      hide Step, Capped;
      RunKeepsCapped(w, es[..|es| - 1]);
      StepKeepsCapped(Steps(w, es[..|es| - 1]), es[|es| - 1]);
    }
  }

  /** v is reached from w by executions alone: nothing was traced yet, or the region counts the
      traces of this generation, and they are all that was added. */
  ghost predicate SameWindow(w: World, v: World) {
    var max := v.config.maxTraces;
    && Capped(v) && v.config == w.config && v.totals.steps == w.totals.steps
    && (|| v.totals == w.totals
        || (&& v.region.seenGeneration == v.config.generation
            && w.totals.traces <= v.totals.traces <= w.totals.traces + v.region.traceCounter
            && w.totals.capped <= v.totals.capped <= w.totals.capped + (if v.region.traceCounter == max then 1 else 0)))
  }

  lemma ExecutionKeepsWindow(w: World, v: World)
    requires SameWindow(w, v)
    ensures SameWindow(w, Step(v, Execution))
  {
  }

  lemma {:induction false} ExecutionsKeepWindow(w: World, es: seq<Event>)
    requires Capped(w) && NextGeneration !in es
    ensures SameWindow(w, Steps(w, es))
  {
    if es != [] {
      hide Step, SameWindow;
      var init, last := es[..|es| - 1], es[|es| - 1];
      assert es == init + [last];
      assert last in es;
      ExecutionsKeepWindow(w, init);
      ExecutionKeepsWindow(w, Steps(w, init));
    }
  }

  /** Wherever a run stands, the executions up to the next generation step emit at most max traces
      and reach the branch that ends a window at most once, however little came before them. */
  lemma CapPerGeneration(c: Config, seen: U32, before: seq<Event>, es: seq<Event>)
    requires c.maxTraces != UNLIMITED && NextGeneration !in es
    ensures var start := World(Fresh(seen), c, Totals(0, 0, 0));
            var mid, end := Steps(start, before), Steps(start, before + es);
            && mid.totals.traces <= end.totals.traces <= mid.totals.traces + c.maxTraces
            && mid.totals.capped <= end.totals.capped <= mid.totals.capped + 1
            && end.totals.steps == mid.totals.steps
  {
    var start := World(Fresh(seen), c, Totals(0, 0, 0));
    hide Steps, Step;
    StepsConcat(start, before, es);
    RunKeepsCapped(start, before);
    ExecutionsKeepWindow(Steps(start, before), es);
  }

  /** The last generation step of a run. */
  lemma LastStep(es: seq<Event>) returns (i: nat)
    requires NextGeneration in es
    ensures i < |es| && es[i] == NextGeneration && NextGeneration !in es[i + 1..]
  {
    i := |es| - 1;
    while es[i] != NextGeneration
      invariant i < |es| && NextGeneration !in es[i + 1..]
      invariant exists j :: 0 <= j <= i && es[j] == NextGeneration
      decreases i
    {
      assert es[i..] == [es[i]] + es[i + 1..];
      i := i - 1;
    }
  }

  /** Hence over a whole run at most max traces and one such visit for each generation in it. */
  lemma {:induction false} CapOverRun(c: Config, seen: U32, es: seq<Event>)
    requires c.maxTraces != UNLIMITED
    ensures var end := Steps(World(Fresh(seen), c, Totals(0, 0, 0)), es).totals;
            end.traces <= c.maxTraces * (end.steps + 1) && end.capped <= end.steps + 1
    decreases |es|
  {
    hide Steps, Step;
    var start := World(Fresh(seen), c, Totals(0, 0, 0));
    if NextGeneration in es {
      var i := LastStep(es);
      assert es == es[..i + 1] + es[i + 1..] && es[..i + 1] == es[..i] + [NextGeneration];
      CapOverRun(c, seen, es[..i]);
      OneGenerationMore(start, es[..i]);
      CapPerGeneration(c, seen, es[..i + 1], es[i + 1..]);
      MaxMore(c.maxTraces, Steps(start, es[..i]).totals.steps);
    } else {
      assert [] + es == es;
      NoSteps(start);
      CapPerGeneration(c, seen, [], es);
    }
  }

  lemma NoSteps(w: World)
    ensures Steps(w, []) == w
  {
  }

  lemma OneGenerationMore(w: World, es: seq<Event>)
    ensures var a, b := Steps(w, es).totals, Steps(w, es + [NextGeneration]).totals;
            b == a.(steps := a.steps + 1)
  {
    var more := es + [NextGeneration];
    assert more[..|more| - 1] == es;
  }

  lemma MaxMore(max: nat, steps: nat)
    ensures max * (steps + 2) == max * (steps + 1) + max
  {
  }

  // ---------- Every window starts afresh ----------

  /** The generation after k steps. */
  function GenerationAt(c: Config, k: nat): U32 {
    (c.generation + k) % UINT_RANGE
  }

  lemma GenerationsDiffer(c: Config, k: nat, m: nat)
    requires k < m < UINT_RANGE
    ensures GenerationAt(c, k) != GenerationAt(c, m)
  {
  }

  /** Fewer than 2^32 events have led to v: no counter has wrapped, and what the region has counted
      belongs to one of the generations so far. */
  ghost predicate Unwrapped(c: Config, events: nat, v: World) {
    && v.region.counter <= events && v.region.sinceTrace <= events && v.totals.steps <= events
    && v.config == c.(generation := GenerationAt(c, v.totals.steps))
    && (v.region.traceCounter == 0 || exists k: nat :: k <= v.totals.steps && v.region.seenGeneration == GenerationAt(c, k))
  }

  lemma StepStaysUnwrapped(c: Config, events: nat, v: World, e: Event)
    requires c.maxTraces != UNLIMITED && events + 1 < UINT_RANGE && Unwrapped(c, events, v)
    ensures Unwrapped(c, events + 1, Step(v, e))
  {
    IncBelow(v.region.counter);
    IncBelow(v.region.sinceTrace);
    var k := v.totals.steps;
    assert v.config.generation == GenerationAt(c, k);
    assert Inc(v.config.generation) == GenerationAt(c, k + 1);
  }

  lemma {:induction false} RunStaysUnwrapped(c: Config, seen: U32, es: seq<Event>)
    requires c.maxTraces != UNLIMITED && |es| < UINT_RANGE
    ensures Unwrapped(c, |es|, Steps(World(Fresh(seen), c, Totals(0, 0, 0)), es))
  {
    if es != [] {
      hide Step, Unwrapped;
      RunStaysUnwrapped(c, seen, es[..|es| - 1]);
      StepStaysUnwrapped(c, |es| - 1, Steps(World(Fresh(seen), c, Totals(0, 0, 0)), es[..|es| - 1]), es[|es| - 1]);
    }
  }

  /** The window after a generation step, whatever run led to it: the traces of earlier windows do
      not count, so n executions emit as many traces as the rate allows, up to the full cap, and
      reach the branch that ends the window exactly when they fill it. */
  lemma NextWindow(c: Config, seen: U32, before: seq<Event>, n: nat)
    requires c.maxTraces != UNLIMITED && |before| + 1 + n < UINT_RANGE
    ensures var start := World(Fresh(seen), c, Totals(0, 0, 0));
            var open, end := Steps(start, before + [NextGeneration]), Steps(start, before + [NextGeneration] + Executions(n));
            var due := Due(open.region, open.config, n);
            && end.totals.traces == open.totals.traces + (if due < c.maxTraces then due else c.maxTraces)
            && end.totals.capped == open.totals.capped + (if 0 < c.maxTraces <= due then 1 else 0)
  {
    var start := World(Fresh(seen), c, Totals(0, 0, 0));
    var step := before + [NextGeneration];
    hide *;
    StepsConcat(start, step, Executions(n));
    WindowOpens(c, seen, before, n);
    FullWindow(Steps(start, step), n);
  }

  /** Nothing counts against the cap after a generation step. */
  lemma WindowOpens(c: Config, seen: U32, before: seq<Event>, n: nat)
    requires c.maxTraces != UNLIMITED && |before| + 1 + n < UINT_RANGE
    ensures var open := Steps(World(Fresh(seen), c, Totals(0, 0, 0)), before + [NextGeneration]);
            && Base(open.region, open.config) == 0 && Room(open.region, open.config, n)
            && open.config == c.(generation := open.config.generation)
  {
    var start, step := World(Fresh(seen), c, Totals(0, 0, 0)), before + [NextGeneration];
    RunStaysUnwrapped(c, seen, before);
    RunStaysUnwrapped(c, seen, step);
    assert step[..|before|] == before;
    hide SetTraceBit, Base;
    NothingCounts(c, |before|, Steps(start, before));
  }

  lemma FullWindow(open: World, n: nat)
    requires Base(open.region, open.config) == 0 && open.config.maxTraces != UNLIMITED && Room(open.region, open.config, n)
    ensures var c, end := open.config, Steps(open, Executions(n));
            var due := Due(open.region, open.config, n);
            && end.totals.traces == open.totals.traces + (if due < c.maxTraces then due else c.maxTraces)
            && end.totals.capped == open.totals.capped + (if 0 < c.maxTraces <= due then 1 else 0)
  {
    hide Steps, Step, Executions, Closed, Room, First, Stride, Base, Due;
    TracesFixedConfig(open, n);
  }

  lemma NothingCounts(c: Config, events: nat, v: World)
    requires c.maxTraces != UNLIMITED && events + 1 < UINT_RANGE && Unwrapped(c, events, v)
    ensures Base(v.region, Step(v, NextGeneration).config) == 0
  {
    assert v.config.generation == GenerationAt(c, v.totals.steps);
    assert Inc(v.config.generation) == GenerationAt(c, v.totals.steps + 1);
    if v.region.traceCounter > 0 {
      var k: nat :| k <= v.totals.steps && v.region.seenGeneration == GenerationAt(c, k);
      GenerationsDiffer(c, k, v.totals.steps + 1);
    }
  }
}
