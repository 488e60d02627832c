/** The consumer of the energy spans (analysis/mpi_gpu_energy_report.py): events are gathered by
    span number, complete spans are summed per device, and each host is represented by the process
    that measured longest. Sums are exact reals. */
module EnergySummary {
  import opened EnergySpans
  import opened Numbering

  /** {'enter': (t, v), 'exit': (t, v)}, either of which may be missing. */
  datatype Mark = Missing | Mark(time: real, values: seq<int>)

  datatype Span = Span(enter: Mark, exit: Mark)

  type Spans = map<nat, Span>

  predicate Complete(s: Span) { s.enter.Mark? && s.exit.Mark? }

  // ---------- Gathering ----------

  function Put(spans: Spans, e: Emit): Spans {
    var s := if e.span in spans then spans[e.span] else Span(Missing, Missing);
    spans[e.span := if e.exit then s.(exit := Mark(e.time, e.values)) else s.(enter := Mark(e.time, e.values))]
  }

  function Gather(events: seq<Emit>): Spans {
    if events == [] then map[] else Put(Gather(events[..|events| - 1]), events[|events| - 1])
  }

  // ---------- Summing ----------

  function MinLen(a: seq<int>, b: seq<int>): nat { if |a| < |b| then |a| else |b| }

  /** [(b - a) / 1e6 for a, b in zip(v0, v1)] */
  function Delta(s: Span): seq<real>
    requires Complete(s)
  {
    seq(MinLen(s.enter.values, s.exit.values), i requires 0 <= i < MinLen(s.enter.values, s.exit.values) =>
      (s.exit.values[i] - s.enter.values[i]) as real / 1_000_000.0)
  }

  /** [x + y for x, y in zip(a, b)] */
  function AddZip(a: seq<real>, b: seq<real>): seq<real> {
    var n := if |a| < |b| then |a| else |b|;
    seq(n, i requires 0 <= i < n => a[i] + b[i])
  }

  datatype Joules = NoJoules | Joules(values: seq<real>)

  datatype Totals = Totals(joules: Joules, seconds: real, complete: nat, incomplete: nat)

  /** One turn of the loop over a process's spans. */
  function Account(acc: Totals, s: Span): Totals {
    if !Complete(s) then acc.(incomplete := acc.incomplete + 1)
    else Totals(match acc.joules case NoJoules => Joules(Delta(s)) case Joules(v) => Joules(AddZip(v, Delta(s))),
                acc.seconds + (s.exit.time - s.enter.time), acc.complete + 1, acc.incomplete)
  }

  /** The totals over the spans numbered below n, in order. */
  ghost function TotalsBelow(spans: Spans, n: nat): Totals {
    if n == 0 then Totals(NoJoules, 0.0, 0, 0)
    else
      var acc := TotalsBelow(spans, n - 1);
      if n - 1 in spans then Account(acc, spans[n - 1]) else acc
  }

  ghost predicate Bounds(spans: Spans, n: nat) {
    forall k :: k in spans ==> k < n
  }

  lemma {:induction false} NothingAbove(spans: Spans, lo: nat, hi: nat)
    requires lo <= hi && forall k :: k in spans && lo <= k ==> hi <= k
    ensures TotalsBelow(spans, hi) == TotalsBelow(spans, lo)
    decreases hi
  {
    if lo < hi {
      NothingAbove(spans, lo, hi - 1);
    }
  }

  /** The loop of energy_summary over one process: spans in ascending order. */
  method SumSpans(spans: Spans) returns (acc: Totals)
    ensures forall n: nat :: Bounds(spans, n) ==> acc == TotalsBelow(spans, n)
  {
    acc := Totals(NoJoules, 0.0, 0, 0);
    var rest := spans.Keys;
    ghost var done: nat := 0;
    while rest != {}
      invariant forall k :: k in rest <==> k in spans && done <= k
      invariant acc == TotalsBelow(spans, done)
      decreases rest
    {
      LeastExists(rest);
      var s :| s in rest && IsLeast(rest, s);
      NothingAbove(spans, done, s);
      acc := Account(acc, spans[s]);
      rest := rest - {s};
      done := s + 1;
    }
    forall n: nat | Bounds(spans, n) ensures acc == TotalsBelow(spans, n) {
      if done <= n {
        NothingAbove(spans, done, n);
      } else {
        NothingAbove(spans, n, done);
      }
    }
  }

  predicate IsLeast(s: set<nat>, m: nat) {
    m in s && forall k :: k in s ==> m <= k
  }

  lemma {:induction false} LeastExists(s: set<nat>)
    requires s != {}
    ensures exists m :: IsLeast(s, m)
  {
    var x :| x in s;
    if s == {x} {
      assert IsLeast(s, x);
    } else {
      var rest := s - {x};
      LeastExists(rest);
      var m :| IsLeast(rest, m);
      forall k | k in s ensures k == x || k in rest {
      }
      assert IsLeast(s, if x < m then x else m);
    }
  }

  // ---------- What the totals are ----------

  ghost predicate Uniform(spans: Spans, w: nat) {
    forall k :: k in spans ==>
      (spans[k].enter.Mark? ==> |spans[k].enter.values| == w) && (spans[k].exit.Mark? ==> |spans[k].exit.values| == w)
  }

  /** exit minus enter of device d, added over the complete spans numbered below n, in microjoules. */
  ghost function EnergyBelow(spans: Spans, n: nat, d: nat): int {
    if n == 0 then 0
    else EnergyBelow(spans, n - 1, d) +
         (if n - 1 in spans && Complete(spans[n - 1]) &&
             d < |spans[n - 1].enter.values| && d < |spans[n - 1].exit.values|
          then spans[n - 1].exit.values[d] - spans[n - 1].enter.values[d] else 0)
  }

  /** exit minus enter in time, added over the complete spans numbered below n. */
  ghost function TimeBelow(spans: Spans, n: nat): real {
    if n == 0 then 0.0
    else TimeBelow(spans, n - 1) +
         (if n - 1 in spans && Complete(spans[n - 1]) then spans[n - 1].exit.time - spans[n - 1].enter.time else 0.0)
  }

  ghost function CompleteBelow(spans: Spans, n: nat): set<nat> {
    set k: nat | k < n && k in spans && Complete(spans[k])
  }

  ghost function IncompleteBelow(spans: Spans, n: nat): set<nat> {
    set k: nat | k < n && k in spans && !Complete(spans[k])
  }

  /** Devices that every complete span below n has two readings of, and no others. */
  ghost predicate SharedDevices(spans: Spans, n: nat, w: nat) {
    && (forall k :: k in CompleteBelow(spans, n) ==> w <= Devices(spans, k))
    && (exists k :: k in CompleteBelow(spans, n) && w == Devices(spans, k))
  }

  ghost function Devices(spans: Spans, k: nat): nat
    requires k in spans && Complete(spans[k])
  {
    MinLen(spans[k].enter.values, spans[k].exit.values)
  }

  /** Complete spans and no others are summed, in time and for each device that all of them have
      readings of; the rest are counted. */
  lemma {:induction false} TotalsMean(spans: Spans, n: nat)
    ensures var acc := TotalsBelow(spans, n);
            && acc.complete == |CompleteBelow(spans, n)| && acc.incomplete == |IncompleteBelow(spans, n)|
            && acc.seconds == TimeBelow(spans, n)
            && (acc.joules.NoJoules? <==> acc.complete == 0)
            && (acc.joules.Joules? ==>
                && SharedDevices(spans, n, |acc.joules.values|)
                && forall d :: 0 <= d < |acc.joules.values| ==>
                     acc.joules.values[d] == EnergyBelow(spans, n, d) as real / 1_000_000.0)
            && (acc.complete == 0 ==> forall d: nat :: EnergyBelow(spans, n, d) == 0)
  {
    if n == 0 {
      assert CompleteBelow(spans, 0) == {} && IncompleteBelow(spans, 0) == {};
    } else {
      hide AddZip, CompleteBelow, IncompleteBelow, SharedDevices;
      TotalsMean(spans, n - 1);
      CountStep(spans, n);
      var acc := TotalsBelow(spans, n - 1);
      if n - 1 in spans && Complete(spans[n - 1]) {
        var v := if acc.joules.Joules? then acc.joules.values else Delta(spans[n - 1]);
        AddZipAt(v, Delta(spans[n - 1]));
        MoreDevices(spans, n, |v|, acc.joules.Joules?);
      } else {
        SameDevices(spans, n);
      }
    }
  }

  lemma MoreDevices(spans: Spans, n: nat, w: nat, some: bool)
    requires n > 0 && n - 1 in spans && Complete(spans[n - 1])
    requires if some then SharedDevices(spans, n - 1, w) else CompleteBelow(spans, n - 1) == {} && w == Devices(spans, n - 1)
    ensures SharedDevices(spans, n, if w < Devices(spans, n - 1) then w else Devices(spans, n - 1))
  {
    assert CompleteBelow(spans, n) == CompleteBelow(spans, n - 1) + {n - 1};
  }

  lemma SameDevices(spans: Spans, n: nat)
    requires n > 0 && !(n - 1 in spans && Complete(spans[n - 1]))
    ensures CompleteBelow(spans, n) == CompleteBelow(spans, n - 1)
    ensures forall w :: SharedDevices(spans, n, w) <==> SharedDevices(spans, n - 1, w)
  {
    assert CompleteBelow(spans, n) == CompleteBelow(spans, n - 1);
  }

  lemma UniformDevices(spans: Spans, n: nat, w: nat, v: nat)
    requires Uniform(spans, w) && SharedDevices(spans, n, v)
    ensures v == w
  {
  }

  lemma AddZipAt(a: seq<real>, b: seq<real>)
    ensures |AddZip(a, b)| == if |a| < |b| then |a| else |b|
    ensures forall i :: 0 <= i < |AddZip(a, b)| ==> AddZip(a, b)[i] == a[i] + b[i]
  {
  }

  lemma CountStep(spans: Spans, n: nat)
    requires n > 0
    ensures |CompleteBelow(spans, n)| == |CompleteBelow(spans, n - 1)| + (if n - 1 in spans && Complete(spans[n - 1]) then 1 else 0)
    ensures |IncompleteBelow(spans, n)| == |IncompleteBelow(spans, n - 1)| + (if n - 1 in spans && !Complete(spans[n - 1]) then 1 else 0)
  {
    var c, i := CompleteBelow(spans, n - 1), IncompleteBelow(spans, n - 1);
    if n - 1 in spans {
      if Complete(spans[n - 1]) {
        assert CompleteBelow(spans, n) == c + {n - 1} && IncompleteBelow(spans, n) == i;
      } else {
        assert CompleteBelow(spans, n) == c && IncompleteBelow(spans, n) == i + {n - 1};
      }
    } else {
      assert CompleteBelow(spans, n) == c && IncompleteBelow(spans, n) == i;
    }
  }

  // ---------- From the coordinator to the report ----------

  ghost predicate Has(events: seq<Emit>, e: Emit) { e in events }

  /** Every gathered mark was an event. */
  lemma {:induction false} GatherIsFromEvents(events: seq<Emit>)
    ensures forall k :: k in Gather(events) ==>
              && (Gather(events)[k].enter.Mark? ==> Has(events, Emit(false, k, Gather(events)[k].enter.time, Gather(events)[k].enter.values)))
              && (Gather(events)[k].exit.Mark? ==> Has(events, Emit(true, k, Gather(events)[k].exit.time, Gather(events)[k].exit.values)))
  {
    if events != [] {
      var init, last := events[..|events| - 1], events[|events| - 1];
      GatherIsFromEvents(init);
      assert events == init + [last];
      forall e | Has(init, e) ensures Has(events, e) {
      }
      assert Has(events, last);
    }
  }

  /** Every event left a mark, though perhaps a later event's. */
  lemma {:induction false} EventsAreGathered(events: seq<Emit>, e: Emit)
    requires e in events
    ensures e.span in Gather(events)
    ensures if e.exit then Gather(events)[e.span].exit.Mark? else Gather(events)[e.span].enter.Mark?
  {
    var init, last := events[..|events| - 1], events[|events| - 1];
    assert events == init + [last];
    if e in init {
      EventsAreGathered(init, e);
    }
  }

  /** The events of span k were both captured. */
  ghost predicate Captured(trace: seq<Emit>, sub: seq<Emit>, k: nat) {
    2 * k + 1 < |trace| && trace[2 * k] in sub && trace[2 * k + 1] in sub
  }

  /** Whatever part of an armed-span trace was captured, the spans with both events in it are
      exactly the complete ones, and their readings are the coordinator's. */
  lemma SubTraceSpans(st: State, sub: seq<Emit>, k: nat)
    requires Alternates(st) && forall e :: e in sub ==> e in st.trace
    ensures var spans := Gather(sub);
            && (k in spans && Complete(spans[k]) <==> Captured(st.trace, sub, k))
            && (Captured(st.trace, sub, k) ==>
                && spans[k].enter == Mark(st.trace[2 * k].time, st.trace[2 * k].values)
                && spans[k].exit == Mark(st.trace[2 * k + 1].time, st.trace[2 * k + 1].values))
  {
    var spans := Gather(sub);
    GatherIsFromEvents(sub);
    if Captured(st.trace, sub, k) {
      EventsAreGathered(sub, st.trace[2 * k]);
      EventsAreGathered(sub, st.trace[2 * k + 1]);
    }
    if k in spans && Complete(spans[k]) {
      var e := Emit(false, k, spans[k].enter.time, spans[k].enter.values);
      var f := Emit(true, k, spans[k].exit.time, spans[k].exit.values);
      assert Has(sub, e) && Has(sub, f);
      EventOfSpan(st, e);
      EventOfSpan(st, f);
    }
  }

  /** An alternating trace holds an event of a span at one place only. */
  lemma EventOfSpan(st: State, e: Emit)
    requires Alternates(st) && e in st.trace
    ensures var i := 2 * e.span + (if e.exit then 1 else 0);
            i < |st.trace| && st.trace[i] == e
  {
    var i :| 0 <= i < |st.trace| && st.trace[i] == e;
    assert i == 2 * e.span + (if e.exit then 1 else 0);
  }

  /** On the whole trace of a finished run no span is incomplete, and the summary counts them all. */
  lemma WholeTraceIsComplete(st: State, n: nat)
    requires Alternates(st) && !st.armed && st.active && n >= st.span
    ensures var spans := Gather(st.trace);
            && Bounds(spans, st.span)
            && CompleteBelow(spans, n) == (set k: nat | k < st.span && 2 * k < |st.trace|)
            && IncompleteBelow(spans, n) == {}
  {
    var spans := Gather(st.trace);
    forall k: nat ensures k in spans <==> k < st.span {
      GatherIsFromEvents(st.trace);
      if k < st.span {
        EventsAreGathered(st.trace, st.trace[2 * k]);
      }
      if k in spans {
        SomeMark(st.trace, k);
      }
    }
    forall k: nat | k < st.span ensures Complete(spans[k]) {
      SubTraceSpans(st, st.trace, k);
    }
  }

  lemma {:induction false} SomeMark(events: seq<Emit>, k: nat)
    requires k in Gather(events)
    ensures Gather(events)[k].enter.Mark? || Gather(events)[k].exit.Mark?
  {
    if events != [] && events[|events| - 1].span != k {
      SomeMark(events[..|events| - 1], k);
    }
  }

  ghost predicate Width(trace: seq<Emit>, w: nat) {
    forall e :: e in trace ==> |e.values| == w
  }

  /** exit minus enter of device d, added over the captured ones of the first n spans. */
  ghost function CapturedEnergy(trace: seq<Emit>, sub: seq<Emit>, n: nat, w: nat, d: nat): int
    requires Width(trace, w) && d < w
  {
    if n == 0 then 0
    else CapturedEnergy(trace, sub, n - 1, w, d) +
         (if Captured(trace, sub, n - 1) then Movement(trace, n - 1, w, d) else 0)
  }

  ghost function Movement(trace: seq<Emit>, k: nat, w: nat, d: nat): int
    requires Width(trace, w) && d < w && 2 * k + 1 < |trace|
  {
    assert trace[2 * k] in trace && trace[2 * k + 1] in trace;
    trace[2 * k + 1].values[d] - trace[2 * k].values[d]
  }

  /** exit minus enter in time, added over the captured ones of the first n spans. */
  ghost function CapturedTime(trace: seq<Emit>, sub: seq<Emit>, n: nat): real {
    if n == 0 then 0.0
    else CapturedTime(trace, sub, n - 1) +
         (if Captured(trace, sub, n - 1) then trace[2 * n - 1].time - trace[2 * n - 2].time else 0.0)
  }

  /** The gathered span k is complete exactly when it was captured, with the trace's readings. */
  ghost predicate Mirrors(spans: Spans, trace: seq<Emit>, sub: seq<Emit>, k: nat) {
    && (k in spans && Complete(spans[k]) <==> Captured(trace, sub, k))
    && (Captured(trace, sub, k) ==>
        && spans[k].enter == Mark(trace[2 * k].time, trace[2 * k].values)
        && spans[k].exit == Mark(trace[2 * k + 1].time, trace[2 * k + 1].values))
  }

  lemma {:induction false} EnergyIsCaptured(spans: Spans, trace: seq<Emit>, sub: seq<Emit>, n: nat, w: nat, d: nat)
    requires Width(trace, w) && d < w && forall k: nat :: k < n ==> Mirrors(spans, trace, sub, k)
    ensures EnergyBelow(spans, n, d) == CapturedEnergy(trace, sub, n, w, d)
  {
    if n > 0 {
      EnergyIsCaptured(spans, trace, sub, n - 1, w, d);
      assert Mirrors(spans, trace, sub, n - 1);
      if Captured(trace, sub, n - 1) {
        assert trace[2 * (n - 1)] in trace && trace[2 * (n - 1) + 1] in trace;
      }
    }
  }

  lemma {:induction false} TimeIsCaptured(spans: Spans, trace: seq<Emit>, sub: seq<Emit>, n: nat)
    requires forall k: nat :: k < n ==> Mirrors(spans, trace, sub, k)
    ensures TimeBelow(spans, n) == CapturedTime(trace, sub, n)
    ensures CompleteBelow(spans, n) == set k: nat | k < n && Captured(trace, sub, k)
  {
    if n > 0 {
      TimeIsCaptured(spans, trace, sub, n - 1);
      assert Mirrors(spans, trace, sub, n - 1);
    }
    forall k: nat ensures k in CompleteBelow(spans, n) <==> k < n && Captured(trace, sub, k) {
      assert k < n ==> Mirrors(spans, trace, sub, k);
    }
  }

  lemma {:induction false} GatherIsUniform(events: seq<Emit>, w: nat)
    requires Width(events, w)
    ensures Uniform(Gather(events), w)
  {
    if events != [] {
      var init, last := events[..|events| - 1], events[|events| - 1];
      assert events == init + [last];
      GatherIsUniform(init, w);
    }
  }

  /** A captured part of an alternating trace is summed exactly: the report counts the spans with
      both events in the part, and adds their time and, for each device, their counter movement. */
  lemma CapturedIsSummed(st: State, sub: seq<Emit>, w: nat, n: nat)
    requires Alternates(st) && Width(st.trace, w) && forall e :: e in sub ==> e in st.trace
    requires Bounds(Gather(sub), n)
    ensures var acc := TotalsBelow(Gather(sub), n);
            && acc.complete == |set k: nat | k < n && Captured(st.trace, sub, k)|
            && acc.seconds == CapturedTime(st.trace, sub, n)
            && (acc.joules.NoJoules? <==> acc.complete == 0)
            && (acc.joules.Joules? ==>
                && |acc.joules.values| == w
                && forall d :: 0 <= d < w ==>
                     acc.joules.values[d] == CapturedEnergy(st.trace, sub, n, w, d) as real / 1_000_000.0)
  {
    hide Gather, TotalsBelow, EnergyBelow, TimeBelow, CapturedEnergy, CapturedTime, Alternates, CompleteBelow, Uniform, SharedDevices;
    var spans := Gather(sub);
    GatherIsUniform(sub, w);
    TotalsMean(spans, n);
    var joules := TotalsBelow(spans, n).joules;
    if joules.Joules? {
      UniformDevices(spans, n, w, |joules.values|);
    }
    forall k: nat | k < n ensures Mirrors(spans, st.trace, sub, k) {
      SubTraceSpans(st, sub, k);
    }
    TimeIsCaptured(spans, st.trace, sub, n);
    forall d | 0 <= d < w ensures EnergyBelow(spans, n, d) == CapturedEnergy(st.trace, sub, n, w, d) {
      EnergyIsCaptured(spans, st.trace, sub, n, w, d);
    }
  }

  /** From end to end: whatever part is captured of the trace of any run of arming, reconfiguring
      and disarming that ends in fini, the summary adds exactly the spans with both events in it;
      of the whole trace these are all spans, and none is incomplete. */
  lemma RunIsSummed(es: seq<Event>, env: Env, sub: seq<Emit>, w: nat)
    requires var st := DisarmStep(After(Start(), es), env);
             st.active && Width(st.trace, w) && forall e :: e in sub ==> e in st.trace
    ensures var st := DisarmStep(After(Start(), es), env);
            var acc := TotalsBelow(Gather(sub), st.span);
            && Bounds(Gather(sub), st.span)
            && acc.complete == |set k: nat | k < st.span && Captured(st.trace, sub, k)|
            && acc.seconds == CapturedTime(st.trace, sub, st.span)
            && (acc.joules.NoJoules? <==> acc.complete == 0)
            && (acc.joules.Joules? ==>
                && |acc.joules.values| == w
                && forall d :: 0 <= d < w ==>
                     acc.joules.values[d] == CapturedEnergy(st.trace, sub, st.span, w, d) as real / 1_000_000.0)
            && (sub == st.trace ==> acc.complete == st.span && acc.incomplete == 0)
            && (sub == st.trace ==> forall k: nat :: k < st.span ==> Captured(st.trace, sub, k))
  {
    hide After, DisarmStep, Gather, TotalsBelow, CapturedEnergy, CapturedTime, Alternates;
    var st := DisarmStep(After(Start(), es), env);
    RunEmitsCompleteSpans(es, env);
    SpansAreBelow(st, sub);
    CapturedIsSummed(st, sub, w, st.span);
    if sub == st.trace {
      WholeTraceIsComplete(st, st.span);
      TotalsMean(Gather(sub), st.span);
      NumbersBelow(st.span);
      assert (set k: nat | k < st.span && Captured(st.trace, sub, k)) == Numbers(st.span);
    }
  }

  lemma SpansAreBelow(st: State, sub: seq<Emit>)
    requires Alternates(st) && !st.armed && st.active && forall e :: e in sub ==> e in st.trace
    ensures Bounds(Gather(sub), st.span)
  {
    GatherIsFromEvents(sub);
    forall k | k in Gather(sub) ensures k < st.span {
      SomeMark(sub, k);
      var m := Gather(sub)[k];
      if m.enter.Mark? {
        assert Has(sub, Emit(false, k, m.enter.time, m.enter.values));
        EventOfSpan(st, Emit(false, k, m.enter.time, m.enter.values));
      } else {
        assert Has(sub, Emit(true, k, m.exit.time, m.exit.values));
        EventOfSpan(st, Emit(true, k, m.exit.time, m.exit.values));
      }
    }
  }

  // ---------- One representative per host ----------

  datatype Process = Process(host: string, pid: int, spans: Spans)

  datatype Entry = Entry(pid: int, totals: Totals)

  ghost function EntryOf(p: Process): Entry
  {
    Entry(p.pid, TotalsBelow(p.spans, Bound(p.spans)))
  }

  ghost function Bound(spans: Spans): (n: nat)
    ensures Bounds(spans, n)
  {
    BoundExists(spans.Keys);
    var n :| Under(spans.Keys, n);
    n
  }

  ghost predicate Under(s: set<nat>, n: nat) {
    forall k :: k in s ==> k < n
  }

  lemma {:induction false} BoundExists(s: set<nat>)
    ensures exists n :: Under(s, n)
  {
    if s == {} {
      assert Under(s, 0);
    } else {
      var x :| x in s;
      BoundExists(s - {x});
      var n :| Under(s - {x}, n);
      forall k | k in s ensures k == x || k in s - {x} {
      }
      assert Under(s, if x < n then n else x + 1);
    }
  }

  /** Process i represents its host among the first n: it measured longest, and no earlier one as long. */
  ghost predicate Represents(ps: seq<Process>, n: nat, i: nat) {
    && i < n <= |ps|
    && forall j :: 0 <= j < n && ps[j].host == ps[i].host ==>
         EntryOf(ps[j]).totals.seconds <= EntryOf(ps[i]).totals.seconds
         && (j < i ==> EntryOf(ps[j]).totals.seconds < EntryOf(ps[i]).totals.seconds)
  }

  /** e is the entry of the process that represents host h among the first n. */
  ghost predicate Chosen(ps: seq<Process>, n: nat, h: string, e: Entry) {
    exists i: nat :: Represents(ps, n, i) && ps[i].host == h && e == EntryOf(ps[i])
  }

  lemma ChosenStays(ps: seq<Process>, n: nat, h: string, e: Entry)
    requires n < |ps| && Chosen(ps, n, h, e)
    requires ps[n].host != h || EntryOf(ps[n]).totals.seconds <= e.totals.seconds
    ensures Chosen(ps, n + 1, h, e)
  {
    hide EntryOf;
    var i: nat :| Represents(ps, n, i) && ps[i].host == h && e == EntryOf(ps[i]);
    assert Represents(ps, n + 1, i);
  }

  lemma ChosenAnew(ps: seq<Process>, n: nat, e: Entry)
    requires n < |ps|
    requires (forall j :: 0 <= j < n ==> ps[j].host != ps[n].host) ||
             (Chosen(ps, n, ps[n].host, e) && EntryOf(ps[n]).totals.seconds > e.totals.seconds)
    ensures Chosen(ps, n + 1, ps[n].host, EntryOf(ps[n]))
  {
    hide EntryOf;
    assert Represents(ps, n + 1, n);
  }

  /** energy_summary: each host is represented by the process that measured longest, the first of them. */
  method Summarize(ps: seq<Process>) returns (best: map<string, Entry>)
    ensures forall h :: h in best <==> exists i :: 0 <= i < |ps| && ps[i].host == h
    ensures forall h :: h in best ==> Chosen(ps, |ps|, h, best[h])
  {
    hide EntryOf, Chosen;
    best := map[];
    for n := 0 to |ps|
      invariant forall h :: h in best <==> exists i :: 0 <= i < n && ps[i].host == h
      invariant forall h :: h in best ==> Chosen(ps, n, h, best[h])
    {
      var p := ps[n];
      var totals := SumSpans(p.spans);
      EntryIs(p, totals);
      ghost var before := best;
      if p.host !in best || totals.seconds > best[p.host].totals.seconds {
        ChosenAnew(ps, n, if p.host in best then best[p.host] else EntryOf(p));
        best := best[p.host := Entry(p.pid, totals)];
      }
      forall h | h in before && (h != p.host || best[h] == before[h]) ensures Chosen(ps, n + 1, h, before[h]) || h == p.host {
        if h != p.host {
          ChosenStays(ps, n, h, before[h]);
        }
      }
      if p.host in before && totals.seconds <= before[p.host].totals.seconds {
        ChosenStays(ps, n, p.host, before[p.host]);
      }
    }
  }

  lemma EntryIs(p: Process, totals: Totals)
    requires forall n: nat :: Bounds(p.spans, n) ==> totals == TotalsBelow(p.spans, n)
    ensures Entry(p.pid, totals) == EntryOf(p)
  {
    assert Bounds(p.spans, Bound(p.spans));
  }
}
