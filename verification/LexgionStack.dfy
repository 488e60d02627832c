/** The lexgion directory and the record stack of one thread (src/pinsight.c), as values, and
    what they keep over every run of region begins and ends. ThreadData.dfy updates them in place. */
module LexgionStack {
  import opened Numbering

  /** The identity of a code region. */
  datatype Key = Key(cls: int, typ: int, codeptr: nat)

  /** A live instance of a region: which entry it belongs to and its record id. */
  datatype Frame = Frame(key: Key, recordId: nat)

  /** dir: the known regions, in order of first encounter. begins: every begin that was
      resolved to an entry, oldest first. frames: the record stack, top last. */
  datatype State = State(dir: seq<Key>, begins: seq<Key>, frames: seq<Frame>)

  datatype Limits = Limits(maxLexgions: nat, maxDepth: nat)

  ghost predicate Wellformed(st: State, lim: Limits) {
    && |st.dir| <= lim.maxLexgions && |st.frames| <= lim.maxDepth
    && (forall i, j :: 0 <= i < j < |st.dir| ==> st.dir[i] != st.dir[j])
    && (forall i :: 0 <= i < |st.frames| ==> st.frames[i].key in st.dir)
    && (forall k :: k in st.begins ==> k in st.dir)
  }

  // ---------- Steps ----------

  /** A begin is skipped when its region is new and the directory is full. */
  ghost predicate Skipped(st: State, k: Key, lim: Limits) {
    k !in st.dir && |st.dir| == lim.maxLexgions
  }

  ghost function Count(begins: seq<Key>, k: Key): nat {
    multiset(begins)[k]
  }

  /** lexgion_begin: resolve or add the region, count the begin, push a record if the stack has room. */
  ghost function Begin(st: State, k: Key, lim: Limits): State {
    if Skipped(st, k, lim) then st else
    var dir := if k in st.dir then st.dir else st.dir + [k];
    var begins := st.begins + [k];
    var frame := Frame(k, Count(begins, k) % UINT_RANGE);
    State(dir, begins, if |st.frames| == lim.maxDepth then st.frames else st.frames + [frame])
  }

  /** The position of the topmost record with this codeptr; the height of the stack if there is none. */
  ghost function TopMatch(frames: seq<Frame>, codeptr: nat): (n: nat)
    ensures n <= |frames|
    ensures n < |frames| ==> frames[n].key.codeptr == codeptr
    ensures forall i :: n < i < |frames| ==> frames[i].key.codeptr != codeptr
    ensures n == |frames| ==> forall i :: 0 <= i < |frames| ==> frames[i].key.codeptr != codeptr
  {
    if frames == [] then 0
    else if frames[|frames| - 1].key.codeptr == codeptr then |frames| - 1
    else
      var n := TopMatch(frames[..|frames| - 1], codeptr);
      if n == |frames| - 1 then |frames| else n
  }

  /** lexgion_end_match: pop down to and including the topmost match; pop nothing if there is none. */
  ghost function EndMatch(st: State, codeptr: nat): State {
    st.(frames := st.frames[..TopMatch(st.frames, codeptr)])
  }

  lemma BeginKeeps(st: State, k: Key, lim: Limits)
    requires Wellformed(st, lim)
    ensures Wellformed(Begin(st, k, lim), lim)
  {
  }

  lemma EndKeeps(st: State, codeptr: nat, lim: Limits)
    requires Wellformed(st, lim)
    ensures Wellformed(EndMatch(st, codeptr), lim)
  {
  }

  // ---------- Runs ----------

  /** One execution of a region: its begin, what happens inside, and its end, which may never come. */
  datatype Call = Call(key: Key, body: seq<Call>, ends: bool)

  ghost function Run(st: State, c: Call, lim: Limits): State
    decreases c, 1
  {
    var inside := RunAll(Begin(st, c.key, lim), c.body, lim);
    if c.ends then EndMatch(inside, c.key.codeptr) else inside
  }

  ghost function RunAll(st: State, cs: seq<Call>, lim: Limits): State
    decreases cs, 0
  {
    if cs == [] then st else RunAll(Run(st, cs[0], lim), cs[1..], lim)
  }

  /** The begin gets a record. */
  ghost predicate Recorded(st: State, k: Key, lim: Limits) {
    !Skipped(st, k, lim) && |st.frames| < lim.maxDepth
  }

  ghost predicate Absent(frames: seq<Frame>, codeptr: nat) {
    forall i :: 0 <= i < |frames| ==> frames[i].key.codeptr != codeptr
  }

  /** Every begin of the run that gets no record, for want of an entry or of room, finds no record
      of its codeptr on the stack. */
  ghost predicate Untangled(st: State, c: Call, lim: Limits)
    decreases c, 1
  {
    && (Recorded(st, c.key, lim) || Absent(st.frames, c.key.codeptr))
    && UntangledAll(Begin(st, c.key, lim), c.body, lim)
  }

  ghost predicate UntangledAll(st: State, cs: seq<Call>, lim: Limits)
    decreases cs, 0
  {
    cs == [] || (Untangled(st, cs[0], lim) && UntangledAll(Run(st, cs[0], lim), cs[1..], lim))
  }

  lemma BeginExtends(st: State, k: Key, lim: Limits)
    ensures st.dir <= Begin(st, k, lim).dir && st.frames <= Begin(st, k, lim).frames
  {
  }

  /** Nothing below the point where a run starts is ever popped by it. */
  lemma {:induction false} RunKeepsBase(st: State, c: Call, lim: Limits)
    requires Untangled(st, c, lim)
    ensures st.dir <= Run(st, c, lim).dir && st.frames <= Run(st, c, lim).frames
    decreases c, 1
  {
    var begun := Begin(st, c.key, lim);
    BeginExtends(st, c.key, lim);
    RunAllKeepsBase(begun, c.body, lim);
    EndInside(st, RunAll(begun, c.body, lim), c.key, lim);
  }

  lemma {:induction false} RunAllKeepsBase(st: State, cs: seq<Call>, lim: Limits)
    requires UntangledAll(st, cs, lim)
    ensures st.dir <= RunAll(st, cs, lim).dir && st.frames <= RunAll(st, cs, lim).frames
    decreases cs, 0
  {
    if cs != [] {
      RunKeepsBase(st, cs[0], lim);
      RunAllKeepsBase(Run(st, cs[0], lim), cs[1..], lim);
    }
  }

  /** Where the end of a region cuts: at its own record or at a stale one above it that shares its
      codeptr; without a record of its own, at such a stale one or not at all. */
  lemma EndInside(st: State, inside: State, k: Key, lim: Limits)
    requires Recorded(st, k, lim) || Absent(st.frames, k.codeptr)
    requires Begin(st, k, lim).frames <= inside.frames
    ensures |st.frames| <= TopMatch(inside.frames, k.codeptr)
    ensures Recorded(st, k, lim) ==> TopMatch(inside.frames, k.codeptr) < |inside.frames|
    ensures st.frames <= inside.frames[..TopMatch(inside.frames, k.codeptr)]
  {
    if Recorded(st, k, lim) {
      assert inside.frames[|st.frames|].key == k;
    } else {
      forall i | 0 <= i < |st.frames| ensures inside.frames[i].key.codeptr != k.codeptr {
        assert inside.frames[i] == st.frames[i];
      }
    }
  }

  /** The codeptrs of the executions that never end, at any depth. */
  ghost function Unended(c: Call): set<nat>
    decreases c, 1
  {
    (if c.ends then {} else {c.key.codeptr}) + UnendedAll(c.body)
  }

  ghost function UnendedAll(cs: seq<Call>): set<nat>
    decreases cs, 0
  {
    if cs == [] then {} else Unended(cs[0]) + UnendedAll(cs[1..])
  }

  /** The records a run leaves above its starting point belong to executions that never ended. */
  ghost predicate LeavesOnly(before: seq<Frame>, after: seq<Frame>, codeptrs: set<nat>) {
    before <= after && forall i :: |before| <= i < |after| ==> after[i].key.codeptr in codeptrs
  }

  lemma {:induction false} RunLeaves(st: State, c: Call, lim: Limits)
    requires Untangled(st, c, lim)
    ensures LeavesOnly(st.frames, Run(st, c, lim).frames, Unended(c))
    decreases c, 1
  {
    var begun := Begin(st, c.key, lim);
    BeginExtends(st, c.key, lim);
    RunAllKeepsBase(begun, c.body, lim);
    RunAllLeaves(begun, c.body, lim);
    EndInside(st, RunAll(begun, c.body, lim), c.key, lim);
  }

  lemma {:induction false} RunAllLeaves(st: State, cs: seq<Call>, lim: Limits)
    requires UntangledAll(st, cs, lim)
    ensures LeavesOnly(st.frames, RunAll(st, cs, lim).frames, UnendedAll(cs))
    decreases cs, 0
  {
    if cs != [] {
      RunKeepsBase(st, cs[0], lim);
      RunLeaves(st, cs[0], lim);
      RunAllLeaves(Run(st, cs[0], lim), cs[1..], lim);
    }
  }

  /** The exact condition, stale records allowed: the end of a recorded begin restores the stack iff
      no record left above the region's own has its codeptr; the end of a begin without a record
      pops nothing iff no record left behind inside has it. */
  lemma EndRestoresIff(st: State, c: Call, lim: Limits)
    requires Untangled(st, c, lim) && c.ends
    ensures var inside := RunAll(Begin(st, c.key, lim), c.body, lim).frames;
            if Recorded(st, c.key, lim)
            then Run(st, c, lim).frames == st.frames <==>
                 forall i :: |st.frames| < i < |inside| ==> inside[i].key.codeptr != c.key.codeptr
            else Run(st, c, lim).frames == inside <==>
                 forall i :: |st.frames| <= i < |inside| ==> inside[i].key.codeptr != c.key.codeptr
  {
    var begun := Begin(st, c.key, lim);
    BeginExtends(st, c.key, lim);
    RunAllKeepsBase(begun, c.body, lim);
    var inside := RunAll(begun, c.body, lim);
    EndInside(st, inside, c.key, lim);
    assert inside.frames[..|inside.frames|] == inside.frames;
  }

  /** A region that runs inside itself and never sees the inner end: the outer end takes the inner
      record for its own. */
  lemma StaleRecordMatches(k: Key, lim: Limits)
    requires lim.maxLexgions >= 1 && lim.maxDepth >= 2
    ensures var empty, c := State([], [], []), Call(k, [Call(k, [], false)], true);
            && Wellformed(empty, lim) && Untangled(empty, c, lim) && Recorded(empty, k, lim)
            && Run(empty, c, lim).frames == [Frame(k, 1)]
  {
    hide Run, RunAll, Untangled, UntangledAll, TopMatch;
    var empty, inner := State([], [], []), Call(k, [], false);
    var one := Begin(empty, k, lim);
    BeginsTwice(k, lim);
    Leaf(one, k, false, lim);
    Single(one, inner, lim);
    CallIs(empty, Call(k, [inner], true), lim);
    TopIs(one.frames, Frame(k, 2));
  }

  lemma BeginsTwice(k: Key, lim: Limits)
    requires lim.maxLexgions >= 1 && lim.maxDepth >= 2
    ensures var one := Begin(State([], [], []), k, lim);
            one == State([k], [k], [Frame(k, 1)]) && Begin(one, k, lim) == State([k], [k, k], one.frames + [Frame(k, 2)])
  {
    assert [k] + [k] == [k, k];
  }

  lemma TopIs(frames: seq<Frame>, top: Frame)
    ensures TopMatch(frames + [top], top.key.codeptr) == |frames| && (frames + [top])[..|frames|] == frames
  {
    hide TopMatch;
    assert (frames + [top])[|frames|] == top;
  }

  lemma Leaf(st: State, k: Key, ends: bool, lim: Limits)
    ensures Run(st, Call(k, [], ends), lim) ==
            if ends then EndMatch(Begin(st, k, lim), k.codeptr) else Begin(st, k, lim)
    ensures Untangled(st, Call(k, [], ends), lim) <==> Recorded(st, k, lim) || Absent(st.frames, k.codeptr)
  {
    hide Begin, EndMatch;
  }

  lemma Single(st: State, c: Call, lim: Limits)
    ensures RunAll(st, [c], lim) == Run(st, c, lim)
    ensures UntangledAll(st, [c], lim) <==> Untangled(st, c, lim)
  {
    hide Run, Untangled;
    assert [c][1..] == [];
  }

  lemma CallIs(st: State, c: Call, lim: Limits)
    ensures Run(st, c, lim) ==
            var inside := RunAll(Begin(st, c.key, lim), c.body, lim);
            if c.ends then EndMatch(inside, c.key.codeptr) else inside
    ensures Untangled(st, c, lim) <==>
            (Recorded(st, c.key, lim) || Absent(st.frames, c.key.codeptr)) && UntangledAll(Begin(st, c.key, lim), c.body, lim)
  {
    hide RunAll, UntangledAll, Begin;
  }

  /** The main result: when a region whose begin was recorded ends, the stack is exactly what it
      was before that begin, provided no execution inside that never ended shares its codeptr. */
  lemma EndRestores(st: State, c: Call, lim: Limits)
    requires Untangled(st, c, lim) && c.ends && Recorded(st, c.key, lim)
    requires c.key.codeptr !in UnendedAll(c.body)
    ensures Run(st, c, lim).frames == st.frames
  {
    hide Run, RunAll, Begin;
    var begun := Begin(st, c.key, lim);
    BeginExtends(st, c.key, lim);
    BeginRecords(st, c.key, lim);
    CallIs(st, c, lim);
    RunAllLeaves(begun, c.body, lim);
    EndRestoresIff(st, c, lim);
  }

  lemma BeginRecords(st: State, k: Key, lim: Limits)
    requires Recorded(st, k, lim)
    ensures |Begin(st, k, lim).frames| == |st.frames| + 1
  {
  }

  // ---------- Runs in which every end arrives ----------

  ghost predicate AllEnd(c: Call)
    decreases c, 1
  {
    c.ends && AllEndAll(c.body)
  }

  ghost predicate AllEndAll(cs: seq<Call>)
    decreases cs, 0
  {
    cs == [] || (AllEnd(cs[0]) && AllEndAll(cs[1..]))
  }

  /** Every execution in the run, at any depth, leaves the stack as it found it. */
  ghost predicate Restores(st: State, c: Call, lim: Limits)
    decreases c, 1
  {
    Run(st, c, lim).frames == st.frames && RestoresAll(Begin(st, c.key, lim), c.body, lim)
  }

  ghost predicate RestoresAll(st: State, cs: seq<Call>, lim: Limits)
    decreases cs, 0
  {
    cs == [] || (Restores(st, cs[0], lim) && RestoresAll(Run(st, cs[0], lim), cs[1..], lim))
  }

  lemma {:induction false} RunIsWellformed(st: State, c: Call, lim: Limits)
    requires Wellformed(st, lim)
    ensures Wellformed(Run(st, c, lim), lim)
    decreases c, 1
  {
    BeginKeeps(st, c.key, lim);
    RunsAreWellformed(Begin(st, c.key, lim), c.body, lim);
    EndKeeps(RunAll(Begin(st, c.key, lim), c.body, lim), c.key.codeptr, lim);
  }

  lemma {:induction false} RunsAreWellformed(st: State, cs: seq<Call>, lim: Limits)
    requires Wellformed(st, lim)
    ensures Wellformed(RunAll(st, cs, lim), lim)
    decreases cs, 0
  {
    if cs != [] {
      RunIsWellformed(st, cs[0], lim);
      RunsAreWellformed(Run(st, cs[0], lim), cs[1..], lim);
    }
  }

  /** When every end arrives, every execution is balanced exactly when the run is untangled:
      overflows of either table do no harm unless the region is already on the stack. */
  lemma {:induction false} BalancedRun(st: State, c: Call, lim: Limits)
    requires Wellformed(st, lim) && AllEnd(c)
    ensures Restores(st, c, lim) <==> Untangled(st, c, lim)
    decreases c, 1
  {
    var begun := Begin(st, c.key, lim);
    BeginKeeps(st, c.key, lim);
    BalancedRuns(begun, c.body, lim);
    if RestoresAll(begun, c.body, lim) {
      AllRestored(begun, c.body, lim);
      EndAfterBalance(st, RunAll(begun, c.body, lim), c.key, lim);
    }
  }

  lemma {:induction false} BalancedRuns(st: State, cs: seq<Call>, lim: Limits)
    requires Wellformed(st, lim) && AllEndAll(cs)
    ensures RestoresAll(st, cs, lim) <==> UntangledAll(st, cs, lim)
    decreases cs, 0
  {
    if cs != [] {
      BalancedRun(st, cs[0], lim);
      RunIsWellformed(st, cs[0], lim);
      BalancedRuns(Run(st, cs[0], lim), cs[1..], lim);
    }
  }

  lemma {:induction false} AllRestored(st: State, cs: seq<Call>, lim: Limits)
    requires RestoresAll(st, cs, lim)
    ensures RunAll(st, cs, lim).frames == st.frames
    decreases cs
  {
    if cs != [] {
      AllRestored(Run(st, cs[0], lim), cs[1..], lim);
    }
  }

  lemma EndAfterBalance(st: State, inside: State, k: Key, lim: Limits)
    requires |st.frames| <= lim.maxDepth && inside.frames == Begin(st, k, lim).frames
    ensures EndMatch(inside, k.codeptr).frames == st.frames <==> Recorded(st, k, lim) || Absent(st.frames, k.codeptr)
  {
    if Recorded(st, k, lim) {
      assert inside.frames[|st.frames|].key == k;
    }
    assert inside.frames[..|st.frames|] == st.frames;
  }

  /** At a full stack a begin and its end, with any balanced run between them, leave the stack
      alone exactly when no enclosing record has the codeptr (a recursive region has one). */
  lemma PairAtOverflow(st: State, c: Call, lim: Limits)
    requires Wellformed(st, lim) && |st.frames| == lim.maxDepth && AllEnd(c)
    requires UntangledAll(Begin(st, c.key, lim), c.body, lim)
    ensures Run(st, c, lim).frames == st.frames <==> Absent(st.frames, c.key.codeptr)
  {
    var begun := Begin(st, c.key, lim);
    BeginKeeps(st, c.key, lim);
    BalancedRuns(begun, c.body, lim);
    AllRestored(begun, c.body, lim);
    EndAfterBalance(st, RunAll(begun, c.body, lim), c.key, lim);
  }

  /** With room for one record, the inner of two nested executions of a region pops the outer's. */
  lemma OverflowPopsOuter(k: Key, lim: Limits)
    requires lim.maxLexgions >= 1 && lim.maxDepth == 1
    ensures var outer := Begin(State([], [], []), k, lim);
            outer.frames == [Frame(k, 1)] && Run(outer, Call(k, [], true), lim).frames == []
  {
    var outer := Begin(State([], [], []), k, lim);
    assert outer == State([k], [k], [Frame(k, 1)]);
    Leaf(outer, k, true, lim);
    assert TopMatch(outer.frames, k.codeptr) == 0;
  }

  // ---------- One class and type for each codeptr ----------

  /** The program's regions: one class and type for each codeptr. */
  type Program = map<nat, Key>

  ghost predicate Of(prog: Program, k: Key) {
    k.codeptr in prog && prog[k.codeptr] == k
  }

  ghost predicate CallOf(prog: Program, c: Call)
    decreases c, 1
  {
    Of(prog, c.key) && CallsOf(prog, c.body)
  }

  ghost predicate CallsOf(prog: Program, cs: seq<Call>)
    decreases cs, 0
  {
    cs == [] || (CallOf(prog, cs[0]) && CallsOf(prog, cs[1..]))
  }

  ghost predicate StateOf(prog: Program, st: State) {
    forall k :: k in st.dir ==> Of(prog, k)
  }

  /** No begin of the run finds the stack full. */
  ghost predicate Roomy(st: State, c: Call, lim: Limits)
    decreases c, 1
  {
    && (Skipped(st, c.key, lim) || |st.frames| < lim.maxDepth)
    && RoomyAll(Begin(st, c.key, lim), c.body, lim)
  }

  ghost predicate RoomyAll(st: State, cs: seq<Call>, lim: Limits)
    decreases cs, 0
  {
    cs == [] || (Roomy(st, cs[0], lim) && RoomyAll(Run(st, cs[0], lim), cs[1..], lim))
  }

  /** Programs with one class and type for each codeptr never get tangled while the stack has room,
      however many begins the full directory skips. */
  lemma {:induction false} RoomyIsUntangled(st: State, c: Call, prog: Program, lim: Limits)
    requires Wellformed(st, lim) && StateOf(prog, st) && CallOf(prog, c) && Roomy(st, c, lim)
    ensures Untangled(st, c, lim) && StateOf(prog, Run(st, c, lim))
    decreases c, 1
  {
    BeginKeeps(st, c.key, lim);
    if Skipped(st, c.key, lim) {
      forall i | 0 <= i < |st.frames| ensures st.frames[i].key.codeptr != c.key.codeptr {
        assert Of(prog, st.frames[i].key) && st.frames[i].key != c.key;
      }
    }
    RoomyAreUntangled(Begin(st, c.key, lim), c.body, prog, lim);
  }

  lemma {:induction false} RoomyAreUntangled(st: State, cs: seq<Call>, prog: Program, lim: Limits)
    requires Wellformed(st, lim) && StateOf(prog, st) && CallsOf(prog, cs) && RoomyAll(st, cs, lim)
    ensures UntangledAll(st, cs, lim) && StateOf(prog, RunAll(st, cs, lim))
    decreases cs, 0
  {
    if cs != [] {
      RoomyIsUntangled(st, cs[0], prog, lim);
      RunIsWellformed(st, cs[0], lim);
      RoomyAreUntangled(Run(st, cs[0], lim), cs[1..], prog, lim);
    }
  }
}
