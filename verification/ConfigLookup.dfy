/** Which trace config a region gets, how the answer is cached across config reloads, and the
    whole decision to trace an event of the region (src/pinsight.c,
    lexgion_set_top_trace_bit_domain_event; src/trace_config.c, domain_punit_set_match). */
module ConfigLookup {
  import opened Numbering
  import Punits = PunitText
  import Rate = RateControl

  // ---------- Configs and how a region finds its own ----------

  datatype Text = NoText | Text(s: string)

  /** The events of one domain that a config lets through. */
  datatype Events = AllEvents | Only(events: set<nat>)

  datatype Settings = Settings(events: seq<Events>, punitsSet: bool, punits: seq<Punits.DomainSet>, limits: Rate.Config)

  /** An entry for an address, or (address 0 and a name) for a named region; domain -1 is any. */
  datatype Entry = Entry(codeptr: nat, removed: bool, name: string, hint: string, domain: int, settings: Settings)

  /** domainDefaults: each domain's own default, if it has one. */
  datatype Tables = Tables(entries: seq<Entry>, domainDefaults: seq<Default>, global: Settings)

  datatype Default = NoDefault | Default(settings: Settings)

  /** What is known of a region: its address, and its name and file if the domain reported them. */
  datatype Subject = Subject(codeptr: nat, name: Text, hint: Text)

  datatype Found = ByEntry(i: nat) | ByDomain(d: nat) | ByGlobal

  predicate AtAddress(e: Entry, s: Subject) {
    e.codeptr == s.codeptr && !e.removed
  }

  predicate ForName(e: Entry, s: Subject, domain: nat) {
    && !e.removed && e.codeptr == 0 && e.name != ""
    && (e.domain == -1 || e.domain == domain)
    && (e.hint == "" || s.hint == NoText || e.hint <= s.hint.s)
    && s.name == Text(e.name)
  }

  ghost predicate FirstWhere(t: Tables, i: nat, p: Entry -> bool) {
    i < |t.entries| && p(t.entries[i]) && forall j :: 0 <= j < i ==> !p(t.entries[j])
  }

  ghost predicate NoneWhere(t: Tables, p: Entry -> bool) {
    forall j :: 0 <= j < |t.entries| ==> !p(t.entries[j])
  }

  /** The four levels: the first entry for the address, else the first for the name, else the
      domain's default, else the global one. */
  ghost predicate Resolves(t: Tables, s: Subject, domain: nat, f: Found) {
    var atAddress, forName := (e: Entry) => AtAddress(e, s), (e: Entry) => ForName(e, s, domain);
    match f
    case ByEntry(i) => FirstWhere(t, i, atAddress) || (NoneWhere(t, atAddress) && FirstWhere(t, i, forName))
    case ByDomain(d) =>
      NoneWhere(t, atAddress) && NoneWhere(t, forName) && d == domain < |t.domainDefaults| && t.domainDefaults[d].Default?
    case ByGlobal =>
      NoneWhere(t, atAddress) && NoneWhere(t, forName) && !(domain < |t.domainDefaults| && t.domainDefaults[domain].Default?)
  }

  /** There is exactly one answer. */
  lemma ResolvesOnce(t: Tables, s: Subject, domain: nat, f: Found, g: Found)
    requires Resolves(t, s, domain, f) && Resolves(t, s, domain, g)
    ensures f == g
  {
    hide AtAddress, ForName;
  }

  /** An entry serves a region of this name and file: for any domain or this one, for any file or one
      whose path it begins. */
  ghost predicate Serves(e: Entry, s: Subject, domain: nat) {
    && e.codeptr == 0 && e.name != "" && s.name == Text(e.name)
    && e.domain in {-1, domain as int}
    && (e.hint == "" || s.hint == NoText || (|e.hint| <= |s.hint.s| && s.hint.s[..|e.hint|] == e.hint))
  }

  /** A removed entry is never found; one that is found is at the address or serves the name; and the
      defaults are for regions without such an entry. */
  lemma WhatIsFound(t: Tables, s: Subject, domain: nat, f: Found)
    requires Resolves(t, s, domain, f)
    ensures f.ByEntry? ==>
              && f.i < |t.entries| && !t.entries[f.i].removed
              && (t.entries[f.i].codeptr == s.codeptr || Serves(t.entries[f.i], s, domain))
    ensures !f.ByEntry? ==> forall e :: e in t.entries && !e.removed ==> e.codeptr != s.codeptr && !Serves(e, s, domain)
    ensures f.ByEntry? && t.entries[f.i].codeptr != s.codeptr ==> forall e :: e in t.entries && !e.removed ==> e.codeptr != s.codeptr
  {
    var atAddress, forName := (e: Entry) => AtAddress(e, s), (e: Entry) => ForName(e, s, domain);
    forall e | e in t.entries
      ensures NoneWhere(t, atAddress) ==> !AtAddress(e, s)
      ensures NoneWhere(t, forName) ==> !ForName(e, s, domain)
    {
      var j :| 0 <= j < |t.entries| && t.entries[j] == e;
      assert NoneWhere(t, atAddress) ==> !atAddress(t.entries[j]);
      assert NoneWhere(t, forName) ==> !forName(t.entries[j]);
    }
    forall e ensures ForName(e, s, domain) <==> !e.removed && Serves(e, s, domain) {
      assert e.hint != "" && s.hint.Text? ==> (e.hint <= s.hint.s <==> |e.hint| <= |s.hint.s| && s.hint.s[..|e.hint|] == e.hint);
    }
  }

  /** Named entries have address 0, and so has a region reported without one: the first named entry
      in use is taken for it, whatever its name. With an address, a named entry is found only
      under its name. */
  lemma NamedEntriesNeedTheirName(s: Subject, domain: nat)
    ensures s.codeptr != 0 <==>
            forall t: Tables, i: nat ::
              domain < |t.domainDefaults| && Resolves(t, s, domain, ByEntry(i)) && i < |t.entries| && t.entries[i].codeptr == 0
              ==> ForName(t.entries[i], s, domain)
  {
    if s.codeptr == 0 {
      var settings := Settings([], false, [], Rate.Config(0, 0, 0, 0));
      var name := if s.name == Text("a") then "b" else "a";
      var t := Tables([Entry(0, false, name, "", -1, settings)], seq(domain + 1, _ => NoDefault), settings);
      assert Resolves(t, s, domain, ByEntry(0)) && !ForName(t.entries[0], s, domain);
    }
  }

  predicate InTables(t: Tables, f: Found) {
    match f
    case ByEntry(i) => i < |t.entries|
    case ByDomain(d) => d < |t.domainDefaults| && t.domainDefaults[d].Default?
    case ByGlobal => true
  }

  function SettingsOf(t: Tables, f: Found): Settings
    requires InTables(t, f)
  {
    match f
    case ByEntry(i) => t.entries[i].settings
    case ByDomain(d) => t.domainDefaults[d].settings
    case ByGlobal => t.global
  }

  /** The resolution loops. */
  method Resolve(t: Tables, s: Subject, domain: nat) returns (f: Found)
    requires domain < |t.domainDefaults|
    ensures Resolves(t, s, domain, f)
  {
    for i := 0 to |t.entries|
      invariant forall j :: 0 <= j < i ==> !AtAddress(t.entries[j], s)
    {
      if AtAddress(t.entries[i], s) {
        return ByEntry(i);
      }
    }
    if s.name.Text? {
      for i := 0 to |t.entries|
        invariant forall j :: 0 <= j < i ==> !ForName(t.entries[j], s, domain)
      {
        if ForName(t.entries[i], s, domain) {
          return ByEntry(i);
        }
      }
    }
    return if t.domainDefaults[domain].Default? then ByDomain(domain) else ByGlobal;
  }

  // ---------- The cache across reloads ----------

  datatype Cached = NotYet | Got(f: Found)

  /** One region's cache beside the tables and their change counter. */
  datatype World = World(tables: Tables, counter: Rate.U32, subject: Subject, domain: nat, cached: Cached, seen: Rate.U32)

  const FORCE: Rate.U32 := UINT_RANGE - 1   // (unsigned)-1, meant to match no counter

  datatype Event =
    | Reload(t: Tables)
    | Rename(name: Text, hint: Text)   // the domain reports the region's name anew
    | Ask

  /** The answer of one lookup. */
  ghost predicate Answers(w: World, f: Found) {
    if w.cached == NotYet || w.seen != w.counter then Resolves(w.tables, w.subject, w.domain, f) else w.cached == Got(f)
  }

  ghost predicate Steps(w: World, e: Event, v: World) {
    match e
    case Reload(t) => v == w.(tables := t, counter := Rate.Inc(w.counter))
    case Rename(name, hint) => v == w.(subject := Subject(w.subject.codeptr, name, hint), seen := FORCE)
    case Ask => v.cached.Got? && Answers(w, v.cached.f) && v == w.(cached := v.cached, seen := w.counter)
  }

  /** ws are the states of a run of events from a region's first sight on. */
  ghost predicate Run(ws: seq<World>, es: seq<Event>) {
    && |ws| == |es| + 1
    && ws[0].counter == 0 && ws[0].cached == NotYet && ws[0].seen == FORCE
    && forall i :: 0 <= i < |es| ==> Steps(ws[i], es[i], ws[i + 1])
  }

  ghost function Reloads(es: seq<Event>): nat {
    if es == [] then 0 else Reloads(es[..|es| - 1]) + (if es[|es| - 1].Reload? then 1 else 0)
  }

  /** Every lookup answers what the tables say now. */
  ghost predicate Coherent(w: World) {
    forall f :: Answers(w, f) ==> Resolves(w.tables, w.subject, w.domain, f)
  }

  ghost predicate CacheOk(w: World, reloads: nat) {
    && w.counter == reloads < FORCE && (w.seen <= reloads || w.seen == FORCE)
    && (w.cached.Got? && w.seen == w.counter ==> Resolves(w.tables, w.subject, w.domain, w.cached.f))
  }

  lemma StepKeepsCache(w: World, e: Event, v: World, reloads: nat)
    requires CacheOk(w, reloads) && Steps(w, e, v) && (e.Reload? ==> reloads + 1 < FORCE)
    ensures CacheOk(v, reloads + if e.Reload? then 1 else 0)
  {
    hide Resolves;
  }

  lemma {:induction false} RunKeepsCache(ws: seq<World>, es: seq<Event>)
    requires Run(ws, es) && Reloads(es) < FORCE
    ensures CacheOk(ws[|es|], Reloads(es))
    decreases |es|
  {
    hide Resolves, Steps;
    if es != [] {
      var n := |es| - 1;
      RunKeepsCache(ws[..n + 1], es[..n]);
      StepKeepsCache(ws[n], es[n], ws[n + 1], Reloads(es[..n]));
    }
  }

  /** The change counter that a long run of reloads brings up to the forced mismatch. */
  function Reloaded(w: World, t: Tables, n: nat): World {
    if n == 0 then w else w.(tables := t, counter := (w.counter + n) % UINT_RANGE)
  }

  /** One lookup, then n reloads, then a new name. */
  lemma StaleRun(t: Tables, u: Tables, s: Subject, domain: nat, f: Found, n: nat) returns (ws: seq<World>, es: seq<Event>)
    requires n < UINT_RANGE && Resolves(t, s, domain, f)
    ensures Run(ws, es) && Reloads(es) == n && |es| > 0
    ensures ws[|es|] == World(if n == 0 then t else u, n, Subject(s.codeptr, NoText, NoText), domain, Got(f), FORCE)
  {
    hide Resolves;
    var w := World(t, 0, s, domain, NotYet, FORCE);
    var v := World(t, 0, s, domain, Got(f), 0);
    var base, states := ReloadRun(w, v, u, n);
    es := base + [Rename(NoText, NoText)];
    ws := states + [Reloaded(v, u, n).(subject := Subject(s.codeptr, NoText, NoText), seen := FORCE)];
    assert es[..|es| - 1] == base;
    forall i | 0 <= i < |es| ensures Steps(ws[i], es[i], ws[i + 1]) {
      if i < |base| {
        assert Steps(states[i], base[i], states[i + 1]);
      }
    }
  }

  lemma {:induction false} ReloadRun(w: World, v: World, u: Tables, n: nat) returns (es: seq<Event>, ws: seq<World>)
    requires n < UINT_RANGE && w.counter == 0 && w.cached == NotYet && w.seen == FORCE && Steps(w, Ask, v)
    ensures Run(ws, es) && Reloads(es) == n && |es| == n + 1 && ws[|es|] == Reloaded(v, u, n)
  {
    hide Resolves;
    if n == 0 {
      es, ws := [Ask], [w, v];
      assert es[..0] == [];
    } else {
      var es', ws' := ReloadRun(w, v, u, n - 1);
      es, ws := es' + [Reload(u)], ws' + [Reloaded(v, u, n)];
      assert es[..|es| - 1] == es';
      forall i | 0 <= i < |es| ensures Steps(ws[i], es[i], ws[i + 1]) {
        if i < |es'| {
          assert Steps(ws'[i], es'[i], ws'[i + 1]);
        }
      }
    }
  }

  ghost predicate AlwaysCoherent(n: nat) {
    forall ws: seq<World>, es: seq<Event> :: Run(ws, es) && Reloads(es) <= n ==> Coherent(ws[|es|])
  }

  /** No run of lookups, renamings and reloads ever gets a stale answer, exactly as long as there
      are fewer than 2^32 - 1 reloads: then the counter reaches the value meant to match none. */
  lemma CacheIsCoherent(n: nat)
    ensures AlwaysCoherent(n) <==> n < FORCE
  {
    hide Resolves;
    if n < FORCE {
      forall ws: seq<World>, es: seq<Event> | Run(ws, es) && Reloads(es) <= n ensures Coherent(ws[|es|]) {
        RunKeepsCache(ws, es);
      }
    } else {
      var settings := Settings([], false, [], Rate.Config(0, 0, 0, 0));
      var t, u := Tables([], [NoDefault], settings), Tables([], [Default(settings)], settings);
      var s := Subject(1, NoText, NoText);
      EmptyTables(t, u, s);
      var ws, es := StaleRun(t, u, s, 0, ByGlobal, FORCE);
      assert Answers(ws[|es|], ByGlobal);
      assert !Coherent(ws[|es|]);
    }
  }

  lemma EmptyTables(t: Tables, u: Tables, s: Subject)
    requires t.entries == u.entries == [] && t.domainDefaults == [NoDefault]
    requires |u.domainDefaults| == 1 && u.domainDefaults[0].Default?
    ensures Resolves(t, s, 0, ByGlobal) && !Resolves(u, s, 0, ByGlobal)
  {
  }

  // ---------- The punits ----------

  ghost predicate Constrained(punits: seq<Punits.DomainSet>, d: int, k: int) {
    Punits.Slot(punits, d, k) && punits[d].flag && punits[d].kinds[k].flag
  }

  ghost predicate Accepts(it: Punits.Kind, ids: set<nat>, current: int) {
    it.low <= current <= it.high && current >= 0 && (current as nat) in ids
  }

  /** The punit ids the calling thread has now, kind by kind. */
  ghost predicate Current(table: seq<Punits.Domain>, current: seq<seq<int>>) {
    |current| == |table| && forall d :: 0 <= d < |table| ==> |current[d]| == |table[d].kinds|
  }

  /** Some kind is constrained, and every constrained kind's current id is accepted. */
  ghost predicate PunitsMatch(table: seq<Punits.Domain>, punits: seq<Punits.DomainSet>, current: seq<seq<int>>)
    requires Punits.Shape(table, punits) && Current(table, current)
  {
    && (exists d, k :: Constrained(punits, d, k))
    && (forall d, k :: Constrained(punits, d, k) ==> Accepts(table[d].kinds[k], punits[d].kinds[k].ids, current[d][k]))
  }

  /** domain_punit_set_match; a negative id becomes an index beyond every bitset. */
  method MatchPunits(table: seq<Punits.Domain>, punits: seq<Punits.DomainSet>, current: seq<seq<int>>) returns (matched: bool)
    requires Punits.Shape(table, punits) && Current(table, current)
    ensures matched == PunitsMatch(table, punits, current)
  {
    matched := false;
    for i := 0 to |table|
      invariant matched <==> exists d, k :: d < i && Constrained(punits, d, k)
      invariant forall d, k :: d < i && Constrained(punits, d, k) ==>
                  Accepts(table[d].kinds[k], punits[d].kinds[k].ids, current[d][k])
    {
      if punits[i].flag {
        for k := 0 to |table[i].kinds|
          invariant matched <==> exists d, l :: (d < i || (d == i && l < k)) && Constrained(punits, d, l)
          invariant forall d, l :: (d < i || (d == i && l < k)) && Constrained(punits, d, l) ==>
                      Accepts(table[d].kinds[l], punits[d].kinds[l].ids, current[d][l])
        {
          if punits[i].kinds[k].flag {
            assert Constrained(punits, i, k);
            var id := current[i][k];
            if id < table[i].kinds[k].low || id > table[i].kinds[k].high || id < 0 || id !in punits[i].kinds[k].ids {
              return false;
            }
            matched := true;
          }
        }
      }
    }
  }

  /** A punit set that constrains nothing, such as a fresh one, matches nothing; each further
      constraint can only refuse more. */
  lemma ConstraintsNarrow(table: seq<Punits.Domain>, a: seq<Punits.DomainSet>, b: seq<Punits.DomainSet>, current: seq<seq<int>>)
    requires Punits.Shape(table, a) && Punits.Shape(table, b) && Current(table, current)
    requires forall d, k :: Constrained(a, d, k) ==> Constrained(b, d, k) && b[d].kinds[k].ids <= a[d].kinds[k].ids
    ensures !PunitsMatch(table, Punits.Empty(table), current)
    ensures PunitsMatch(table, b, current) ==> PunitsMatch(table, a, current) || forall d, k :: !Constrained(a, d, k)
  {
  }

  /** The ids of a punit set that are inside their kind's limits. */
  ghost function Limited(table: seq<Punits.Domain>, punits: seq<Punits.DomainSet>): (r: seq<Punits.DomainSet>)
    requires Punits.Shape(table, punits)
    ensures Punits.Shape(table, r)
  {
    seq(|punits|, d requires 0 <= d < |punits| =>
      punits[d].(kinds := seq(|punits[d].kinds|, k requires 0 <= k < |punits[d].kinds| =>
        punits[d].kinds[k].(ids := set x | x in punits[d].kinds[k].ids && table[d].kinds[k].low <= x <= table[d].kinds[k].high))))
  }

  /** The parser's range check, and the id it misses, never change a match: ids outside the limits
      are refused again here. */
  lemma RangeCheckIsBackedUp(table: seq<Punits.Domain>, punits: seq<Punits.DomainSet>, current: seq<seq<int>>)
    requires Punits.Shape(table, punits) && Current(table, current)
    ensures PunitsMatch(table, punits, current) <==> PunitsMatch(table, Limited(table, punits), current)
  {
    var r := Limited(table, punits);
    forall d, k ensures Constrained(punits, d, k) <==> Constrained(r, d, k) {
    }
    forall d, k | Constrained(punits, d, k)
      ensures Accepts(table[d].kinds[k], punits[d].kinds[k].ids, current[d][k]) <==>
              Accepts(table[d].kinds[k], r[d].kinds[k].ids, current[d][k])
    {
    }
  }

  // ---------- The decision ----------

  ghost predicate EventEnabled(st: Settings, domain: nat, event: nat) {
    domain >= |st.events| || st.events[domain] == AllEvents || event in st.events[domain].events
  }

  /** Every config's punits are laid out like the table. */
  ghost predicate WellShaped(table: seq<Punits.Domain>, t: Tables) {
    && Punits.Shape(table, t.global.punits)
    && (forall i :: 0 <= i < |t.entries| ==> Punits.Shape(table, t.entries[i].settings.punits))
    && (forall d :: 0 <= d < |t.domainDefaults| && t.domainDefaults[d].Default? ==> Punits.Shape(table, t.domainDefaults[d].settings.punits))
  }

  lemma ResolvedIsInTables(t: Tables, s: Subject, domain: nat, f: Found)
    requires Resolves(t, s, domain, f)
    ensures InTables(t, f)
  {
    hide AtAddress, ForName;
  }

  lemma SettingsAreShaped(table: seq<Punits.Domain>, t: Tables, f: Found)
    requires WellShaped(table, t) && InTables(t, f)
    ensures Punits.Shape(table, SettingsOf(t, f).punits)
  {
    hide Punits.Shape;
  }

  /** The event is let through, and so are the punits if the config names any. */
  ghost predicate Due(st: Settings, table: seq<Punits.Domain>, domain: nat, event: nat, current: seq<seq<int>>)
    requires Punits.Shape(table, st.punits) && Current(table, current)
  {
    EventEnabled(st, domain, event) && (st.punitsSet ==> PunitsMatch(table, st.punits, current))
  }

  /** The two early returns. */
  method IsDue(st: Settings, table: seq<Punits.Domain>, domain: nat, event: nat, current: seq<seq<int>>) returns (due: bool)
    requires Punits.Shape(table, st.punits) && Current(table, current)
    ensures due == Due(st, table, domain, event, current)
    ensures var masked := domain < |st.events| && st.events[domain].Only? && event !in st.events[domain].events;
            (masked ==> !due) && (!st.punitsSet ==> due == !masked)
  {
    hide PunitsMatch;
    if domain < |st.events| && st.events[domain].Only? && event !in st.events[domain].events {
      return false;
    }
    if st.punitsSet {
      var matched := MatchPunits(table, st.punits, current);
      if !matched {
        return false;
      }
    }
    return true;
  }

  class Lookup {
    var tables: Tables           // shared, replaced by a reload
    var changeCounter: Rate.U32       // config_change_counter
    var subject: Subject
    var region: Rate.Region
    var cached: Cached
    var seen: Rate.U32

    ghost function Abs(domain: nat): World
      reads this
    {
      World(tables, changeCounter, subject, domain, cached, seen)
    }

    /** The cached config, looked up anew after a reload or a renaming. */
    method ResolveConfig(domain: nat) returns (f: Found)
      requires domain < |tables.domainDefaults|
      modifies this`cached, this`seen
      ensures Answers(old(Abs(domain)), f) && cached == Got(f)
      ensures Steps(old(Abs(domain)), Ask, Abs(domain))
    {
      hide Resolves;
      if cached.Got? && seen == changeCounter {
        return cached.f;
      }
      f := Resolve(tables, subject, domain);
      cached, seen := Got(f), changeCounter;
    }

    /** The rate filter, after the reset for a new window generation. */
    method ApplyRate(c: Rate.Config) returns (traced: bool)
      modifies this`region
      ensures region == Rate.SetTraceBit(old(region), c) && traced == region.traceBit
    {
      if c.maxTraces != Rate.UNLIMITED && region.seenGeneration != c.generation {
        region := region.(traceCounter := 0, seenGeneration := c.generation);
      }
      traced :=
        && c.startsAt <= Rate.Dec(region.counter)
        && (c.maxTraces == Rate.UNLIMITED || region.traceCounter < c.maxTraces)
        && region.sinceTrace >= c.rate;
      region := region.(traceBit := traced);
    }

    /** lexgion_set_top_trace_bit_domain_event: the event and the punits first, then the rate filter. */
    method SetTopTraceBit(table: seq<Punits.Domain>, domain: nat, event: nat, current: seq<seq<int>>) returns (traced: bool)
      requires domain < |tables.domainDefaults| && Current(table, current)
      requires WellShaped(table, tables)
      requires cached.Got? && seen == changeCounter ==> InTables(tables, cached.f)
      modifies this
      ensures cached.Got? && InTables(tables, cached.f) && Steps(old(Abs(domain)), Ask, Abs(domain))
      ensures Coherent(old(Abs(domain))) ==> Resolves(tables, subject, domain, cached.f)
      ensures var st := SettingsOf(tables, cached.f);
              && Punits.Shape(table, st.punits)
              && region == (if Due(st, table, domain, event, current) then Rate.SetTraceBit(old(region), st.limits)
                            else old(region).(traceBit := false))
      ensures traced == region.traceBit
      ensures var events := SettingsOf(tables, cached.f).events;
              domain < |events| && events[domain].Only? && event !in events[domain].events ==>
                !traced && region == old(region).(traceBit := false)
    {
      hide Resolves, WellShaped, Punits.Shape, Due, SettingsOf, Rate.SetTraceBit, Current;
      ghost var before := Abs(domain);
      var f := ResolveConfig(domain);
      if before.cached == NotYet || before.seen != before.counter {
        ResolvedIsInTables(tables, subject, domain, f);
      }
      SettingsAreShaped(table, tables, f);
      var st := SettingsOf(tables, f);
      var due := IsDue(st, table, domain, event, current);
      if !due {
        region := region.(traceBit := false);
        return false;
      }
      traced := ApplyRate(st.limits);
    }
  }
}
