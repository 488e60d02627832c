/** Which processes of a node act for it (src/trace_config.c, pinsight_node_role): the election of
    a node-wide measurer or collector, and the two small caches that make its outcome stick.
    The launcher's answers and the outcome of the lock attempt are inputs. */
module NodeRole {
  import opened NodePolicies

  datatype Status = Leader | NonLeader | Unknown

  const CACHE_SIZE: nat := 8
  const NAME_SIZE: nat := 32

  datatype Slot = Slot(name: string, value: bool)

  /** What a process decides when nothing is cached. */
  function Decide(policy: Policy, status: Status, claim: bool): bool {
    match policy
    case PolicyOff => false
    case PolicyOn => true
    case AnyonePerNode => claim
    case _ => if status == Leader then true else if status == NonLeader then false else claim
  }

  /** Does deciding take the lock? */
  predicate Claims(policy: Policy, status: Status) {
    policy == AnyonePerNode || ((policy == LeaderPerNode || policy == RotatePerNode) && status == Unknown)
  }

  function Lookup(cache: seq<Slot>, name: string, i: nat): (r: int)
    requires i <= |cache|
    ensures r == -1 || (i <= r < |cache| && cache[r].name == name)
    ensures forall j :: i <= j < (if r == -1 then |cache| else r) ==> cache[j].name != name
    decreases |cache| - i
  {
    if i == |cache| then -1 else if cache[i].name == name then i else Lookup(cache, name, i + 1)
  }

  /** Names are stored with room for 31 characters. */
  function Remember(cache: seq<Slot>, name: string, value: bool): seq<Slot> {
    if |cache| < CACHE_SIZE then cache + [Slot(if |name| < NAME_SIZE then name else name[..NAME_SIZE - 1], value)]
    else cache
  }

  datatype State = State(roles: seq<Slot>, claims: seq<Slot>)

  /** One call, and what its surroundings answer: the status, and whether the lock could be taken. */
  datatype Call = Call(name: string, policy: Policy, status: Status, won: bool)

  datatype Answer = Answer(role: bool, st: State)

  function Claim(st: State, c: Call): Answer {
    var i := Lookup(st.claims, c.name, 0);
    if i != -1 then Answer(st.claims[i].value, st)
    else Answer(c.won, st.(claims := Remember(st.claims, c.name, c.won)))
  }

  function Ask(st: State, c: Call): Answer {
    var i := Lookup(st.roles, c.name, 0);
    if i != -1 then Answer(st.roles[i].value, st) else
    var claim := if Claims(c.policy, c.status) then Claim(st, c) else Answer(false, st);
    var role := Decide(c.policy, c.status, claim.role);
    Answer(role, claim.st.(roles := Remember(st.roles, c.name, role)))
  }

  function After(st: State, calls: seq<Call>): State {
    if calls == [] then st else Ask(After(st, calls[..|calls| - 1]), calls[|calls| - 1]).st
  }

  // ---------- The outcome sticks ----------

  lemma AppendKeeps(cache: seq<Slot>, name: string, other: string, value: bool)
    requires Lookup(cache, name, 0) != -1
    ensures var more := Remember(cache, other, value);
            Lookup(more, name, 0) == Lookup(cache, name, 0) && more[Lookup(cache, name, 0)] == cache[Lookup(cache, name, 0)]
  {
  }

  /** A cached role is the answer for the rest of the run, whatever policy later calls ask for. */
  lemma {:induction false} RoleSticks(st: State, calls: seq<Call>, c: Call)
    requires Lookup(st.roles, c.name, 0) != -1
    ensures Lookup(After(st, calls).roles, c.name, 0) == Lookup(st.roles, c.name, 0)
    ensures Ask(After(st, calls), c).role == st.roles[Lookup(st.roles, c.name, 0)].value
    decreases |calls|
  {
    hide Lookup;
    if calls != [] {
      var init, last := calls[..|calls| - 1], calls[|calls| - 1];
      RoleSticks(st, init, c);
      var before := After(st, init);
      if Lookup(before.roles, last.name, 0) == -1 {
        var claim := if Claims(last.policy, last.status) then Claim(before, last) else Answer(false, before);
        AppendKeeps(before.roles, c.name, last.name, Decide(last.policy, last.status, claim.role));
      }
    }
  }

  /** A first answer is cached under its own name exactly when the name fits and a slot is free. */
  lemma FirstAnswerIsKept(st: State, c: Call)
    requires Lookup(st.roles, c.name, 0) == -1
    ensures var r := Ask(st, c);
            Lookup(r.st.roles, c.name, 0) != -1 <==> |st.roles| < CACHE_SIZE && |c.name| < NAME_SIZE
    ensures var r := Ask(st, c);
            Lookup(r.st.roles, c.name, 0) != -1 ==> r.st.roles[Lookup(r.st.roles, c.name, 0)].value == r.role
  {
    var more := Ask(st, c).st.roles;
    if |st.roles| < CACHE_SIZE {
      assert more[|st.roles|].name == if |c.name| < NAME_SIZE then c.name else c.name[..NAME_SIZE - 1];
    }
  }

  /** So is a cached claim: the lock of a name is tried at most once. */
  lemma {:induction false} ClaimSticks(st: State, calls: seq<Call>, c: Call)
    requires Lookup(st.claims, c.name, 0) != -1
    ensures Lookup(After(st, calls).claims, c.name, 0) == Lookup(st.claims, c.name, 0)
    ensures Claim(After(st, calls), c) == Answer(st.claims[Lookup(st.claims, c.name, 0)].value, After(st, calls))
    decreases |calls|
  {
    hide Lookup, Decide;
    if calls != [] {
      var init, last := calls[..|calls| - 1], calls[|calls| - 1];
      ClaimSticks(st, init, c);
      var before := After(st, init);
      if Lookup(before.claims, last.name, 0) == -1 {
        AppendKeeps(before.claims, c.name, last.name, last.won);
      }
    }
  }

  // ---------- A process's first call decides ----------

  ghost function Names(calls: seq<Call>): set<string> {
    set c | c in calls :: c.name
  }

  /** Names short enough for a slot, and no more of them than there are slots. */
  ghost predicate Fits(calls: seq<Call>) {
    |Names(calls)| <= CACHE_SIZE && forall c :: c in calls ==> |c.name| < NAME_SIZE
  }

  /** The first call of a name. */
  ghost function FirstCall(calls: seq<Call>, name: string): (c: Call)
    requires name in Names(calls)
    ensures c.name == name && c in calls
  {
    var init, last := calls[..|calls| - 1], calls[|calls| - 1];
    if name in Names(init) then FirstCall(init, name)
    else
      assert calls == init + [last];
      last
  }

  /** The role cache after the calls: one slot for each name, with what its first call decided. */
  ghost function RolesOf(calls: seq<Call>): seq<Slot> {
    if calls == [] then [] else
    var init, last := calls[..|calls| - 1], calls[|calls| - 1];
    if last.name in Names(init) then RolesOf(init)
    else RolesOf(init) + [Slot(last.name, Decide(last.policy, last.status, last.won))]
  }

  lemma NamesMore(init: seq<Call>, last: Call)
    ensures Names(init + [last]) == Names(init) + {last.name}
  {
    forall n ensures n in Names(init + [last]) <==> n in Names(init) || n == last.name {
      if n == last.name {
        assert last in init + [last];
      }
      if n in Names(init) {
        var c :| c in init && c.name == n;
        assert c in init + [last];
      }
    }
  }

  lemma RolesMore(init: seq<Call>, last: Call)
    ensures RolesOf(init + [last]) ==
            if last.name in Names(init) then RolesOf(init)
            else RolesOf(init) + [Slot(last.name, Decide(last.policy, last.status, last.won))]
    ensures last.name in Names(init + [last])
    ensures FirstCall(init + [last], last.name) == if last.name in Names(init) then FirstCall(init, last.name) else last
    ensures forall n :: n in Names(init) ==> n in Names(init + [last]) && FirstCall(init + [last], n) == FirstCall(init, n)
  {
    hide Decide;
    assert (init + [last])[..|init|] == init;
    NamesMore(init, last);
  }

  /** Slot i holds what the first call of its name decided. */
  ghost predicate HoldsFirst(calls: seq<Call>, slot: Slot) {
    slot.name in Names(calls) &&
    var c := FirstCall(calls, slot.name);
    slot.value == Decide(c.policy, c.status, c.won)
  }

  ghost predicate HasSlot(roles: seq<Slot>, name: string) {
    exists i :: 0 <= i < |roles| && roles[i].name == name
  }

  lemma {:induction false} RolesOfNames(calls: seq<Call>, roles: seq<Slot>)
    requires roles == RolesOf(calls)
    ensures |roles| == |Names(calls)|
    ensures forall i :: 0 <= i < |roles| ==> HoldsFirst(calls, roles[i])
    ensures forall n :: n in Names(calls) ==> HasSlot(roles, n)
  {
    if calls == [] {
      assert Names(calls) == {};
    } else {
      hide Decide, FirstCall, Names, RolesOf, HoldsFirst, HasSlot;
      var init, last := calls[..|calls| - 1], calls[|calls| - 1];
      assert calls == init + [last];
      RolesOfNames(init, RolesOf(init));
      RolesGrow(init, last, RolesOf(init), roles);
    }
  }

  lemma RolesGrow(init: seq<Call>, last: Call, before: seq<Slot>, roles: seq<Slot>)
    requires before == RolesOf(init) && roles == RolesOf(init + [last])
    requires |before| == |Names(init)|
    requires forall i :: 0 <= i < |before| ==> HoldsFirst(init, before[i])
    requires forall n :: n in Names(init) ==> HasSlot(before, n)
    ensures |roles| == |Names(init + [last])|
    ensures forall i :: 0 <= i < |roles| ==> HoldsFirst(init + [last], roles[i])
    ensures forall n :: n in Names(init + [last]) ==> HasSlot(roles, n)
  {
    hide Decide, FirstCall, Names, RolesOf, HoldsFirst, HasSlot;
    NamesMore(init, last);
    RolesMore(init, last);
    forall slot | HoldsFirst(init, slot) ensures HoldsFirst(init + [last], slot) {
      HoldsFirstMore(init, last, slot);
    }
    if last.name in Names(init) {
      assert Names(init) + {last.name} == Names(init);
    } else {
      var added := Slot(last.name, Decide(last.policy, last.status, last.won));
      NewSlot(init, last);
      assert roles == before + [added];
      forall n ensures HasSlot(roles, n) <==> HasSlot(before, n) || added.name == n {
        SlotsMore(before, added, n);
      }
    }
  }

  lemma HoldsFirstMore(init: seq<Call>, last: Call, slot: Slot)
    requires HoldsFirst(init, slot)
    ensures HoldsFirst(init + [last], slot)
  {
    hide Decide, FirstCall, Names;
    RolesMore(init, last);
  }

  lemma NewSlot(init: seq<Call>, last: Call)
    requires last.name !in Names(init)
    ensures HoldsFirst(init + [last], Slot(last.name, Decide(last.policy, last.status, last.won)))
  {
    hide Decide, FirstCall, Names;
    RolesMore(init, last);
  }

  lemma SlotsMore(before: seq<Slot>, added: Slot, n: string)
    ensures HasSlot(before + [added], n) <==> HasSlot(before, n) || added.name == n
  {
    var roles := before + [added];
    assert roles[|before|] == added;
    if i :| 0 <= i < |before| && before[i].name == n {
      assert roles[i].name == n;
    }
  }

  lemma LookupAnswers(calls: seq<Call>, name: string, r: int)
    requires r == Lookup(RolesOf(calls), name, 0)
    ensures r == -1 <==> name !in Names(calls)
    ensures r != -1 ==> HoldsFirst(calls, RolesOf(calls)[r])
  {
    hide Lookup, RolesOf, FirstCall, Names;
    RolesOfNames(calls, RolesOf(calls));
  }

  ghost predicate ClaimsOnly(claims: seq<Slot>, names: set<string>) {
    forall i :: 0 <= i < |claims| ==> claims[i].name in names
  }

  lemma FitsBefore(init: seq<Call>, last: Call)
    requires Fits(init + [last])
    ensures Fits(init) && |last.name| < NAME_SIZE
    ensures last.name !in Names(init) ==> |Names(init)| < CACHE_SIZE
  {
    NamesMore(init, last);
    assert last in init + [last];
    forall c | c in init ensures c in init + [last] {
    }
    if last.name in Names(init) {
      assert Names(init) + {last.name} == Names(init);
    }
  }

  /** What one call does to caches that hold exactly the earlier names. */
  lemma AskSteps(st: State, c: Call)
    requires |c.name| < NAME_SIZE
    ensures var i, a := Lookup(st.roles, c.name, 0), Ask(st, c);
            if i != -1 then a == Answer(st.roles[i].value, st)
            else
              Lookup(st.claims, c.name, 0) == -1 && |st.roles| < CACHE_SIZE ==>
                && a.role == Decide(c.policy, c.status, c.won)
                && a.st.roles == st.roles + [Slot(c.name, a.role)]
                && (a.st.claims == st.claims || a.st.claims == st.claims + [Slot(c.name, c.won)])
  {
    hide Lookup;
  }

  /** One call: a known name changes nothing; a new one is decided now and gets a slot. */
  lemma AskIs(st: State, init: seq<Call>, last: Call)
    requires st.roles == RolesOf(init) && ClaimsOnly(st.claims, Names(init)) && Fits(init + [last])
    ensures var a := Ask(st, last);
            && a.st.roles == RolesOf(init + [last]) && ClaimsOnly(a.st.claims, Names(init + [last]))
            && HoldsFirst(init + [last], Slot(last.name, a.role))
  {
    hide Ask, Decide, Lookup, FirstCall, Names, RolesOf, Fits;
    FitsBefore(init, last);
    NamesMore(init, last);
    RolesMore(init, last);
    RolesOfNames(init, st.roles);
    LookupAnswers(init, last.name, Lookup(st.roles, last.name, 0));
    AskSteps(st, last);
    if last.name !in Names(init) {
      assert Lookup(st.claims, last.name, 0) == -1;
    }
  }

  lemma {:induction false} RunIs(calls: seq<Call>)
    requires Fits(calls)
    ensures var st := After(State([], []), calls);
            st.roles == RolesOf(calls) && ClaimsOnly(st.claims, Names(calls))
  {
    if calls != [] {
      hide Ask, RolesOf, ClaimsOnly, Names;
      var init, last := calls[..|calls| - 1], calls[|calls| - 1];
      assert calls == init + [last];
      FitsBefore(init, last);
      RunIs(init);
      AskIs(After(State([], []), init), init, last);
    }
  }

  /** The answer to the last call of a process's run. */
  ghost function Role(calls: seq<Call>): bool
    requires calls != []
  {
    Ask(After(State([], []), calls[..|calls| - 1]), calls[|calls| - 1]).role
  }

  /** Whatever a process asked before, its role is what its first call of that name decided. */
  lemma FirstCallDecides(calls: seq<Call>)
    requires calls != [] && Fits(calls)
    ensures calls[|calls| - 1].name in Names(calls)
    ensures var c := FirstCall(calls, calls[|calls| - 1].name);
            Role(calls) == Decide(c.policy, c.status, c.won)
  {
    var init, last := calls[..|calls| - 1], calls[|calls| - 1];
    assert calls == init + [last];
    FitsBefore(init, last);
    RunIs(init);
    AskIs(After(State([], []), init), init, last);
  }

  // ---------- One process a node ----------

  ghost predicate AtMostOne(flags: seq<bool>) {
    forall i, j :: 0 <= i < j < |flags| ==> !flags[i] || !flags[j]
  }

  /** How a process that decides by this policy and status comes to its role. */
  datatype Lot = Never | Always | ByLock

  function LotOf(c: Call): (lot: Lot)
    ensures Decide(c.policy, c.status, c.won) == (lot == Always || (lot == ByLock && c.won))
  {
    if Claims(c.policy, c.status) then ByLock
    else if c.policy == PolicyOff || (c.policy != PolicyOn && c.status == NonLeader) then Never
    else Always
  }

  /** No two processes elect themselves, nor does one beside another that tries the lock. */
  ghost predicate Exclusive(lots: seq<Lot>) {
    forall i, j :: 0 <= i < |lots| && 0 <= j < |lots| && i != j && lots[i] == Always ==> lots[j] == Never
  }

  /** The run ends by asking for this name. */
  ghost predicate Asks(calls: seq<Call>, name: string) {
    calls != [] && calls[|calls| - 1].name == name && Fits(calls)
  }

  /** The same run, with the lock of this name to be had or not. */
  ghost function WithLock(calls: seq<Call>, name: string, won: bool): seq<Call> {
    seq(|calls|, i requires 0 <= i < |calls| => if calls[i].name == name then calls[i].(won := won) else calls[i])
  }

  lemma WithLockNames(calls: seq<Call>, name: string, won: bool)
    ensures Names(WithLock(calls, name, won)) == Names(calls)
    ensures Fits(calls) ==> Fits(WithLock(calls, name, won))
  {
    var other := WithLock(calls, name, won);
    forall n ensures n in Names(other) <==> n in Names(calls) {
      if c :| c in calls && c.name == n {
        var i :| 0 <= i < |calls| && calls[i] == c;
        assert other[i] in other && other[i].name == n;
      }
    }
  }

  lemma {:induction false} WithLockFirst(calls: seq<Call>, name: string, won: bool)
    requires name in Names(calls)
    ensures name in Names(WithLock(calls, name, won))
    ensures FirstCall(WithLock(calls, name, won), name) == FirstCall(calls, name).(won := won)
  {
    var init, other := calls[..|calls| - 1], WithLock(calls, name, won);
    WithLockNames(calls, name, won);
    WithLockNames(init, name, won);
    assert other[..|other| - 1] == WithLock(init, name, won);
    if name in Names(init) {
      WithLockFirst(init, name, won);
    } else {
      assert calls == init + [calls[|calls| - 1]];
      NamesMore(init, calls[|calls| - 1]);
    }
  }

  /** Each process's role, when these are the ones that can have the lock. */
  ghost function Roles(runs: seq<seq<Call>>, name: string, won: seq<bool>): seq<bool>
    requires |runs| == |won| && forall i :: 0 <= i < |runs| ==> runs[i] != []
  {
    seq(|runs|, i requires 0 <= i < |runs| && runs[i] != [] => Role(WithLock(runs[i], name, won[i])))
  }

  ghost function Lots(runs: seq<seq<Call>>, name: string): seq<Lot>
    requires forall i :: 0 <= i < |runs| ==> name in Names(runs[i])
  {
    seq(|runs|, i requires 0 <= i < |runs| => LotOf(FirstCall(runs[i], name)))
  }

  predicate Wins(lot: Lot, won: bool) {
    lot == Always || (lot == ByLock && won)
  }

  lemma RoleByLot(calls: seq<Call>, name: string, won: bool)
    requires Asks(calls, name) && name in Names(calls)
    ensures Role(WithLock(calls, name, won)) == Wins(LotOf(FirstCall(calls, name)), won)
  {
    hide Role, FirstCall, LotOf;
    WithLockNames(calls, name, won);
    WithLockFirst(calls, name, won);
    FirstCallDecides(WithLock(calls, name, won));
    LotIgnoresLock(FirstCall(calls, name), won);
  }

  lemma LotIgnoresLock(c: Call, won: bool)
    ensures LotOf(c.(won := won)) == LotOf(c)
  {
  }

  ghost function Outcome(lots: seq<Lot>, won: seq<bool>): seq<bool>
    requires |lots| == |won|
  {
    seq(|lots|, i requires 0 <= i < |lots| => Wins(lots[i], won[i]))
  }

  lemma LotsAreExclusive(lots: seq<Lot>)
    ensures (forall won: seq<bool> :: |won| == |lots| && AtMostOne(won) ==> AtMostOne(Outcome(lots, won)))
            <==> Exclusive(lots)
  {
    if i, j :| 0 <= i < |lots| && 0 <= j < |lots| && i != j && lots[i] == Always && lots[j] != Never {
      var won := seq(|lots|, k => k == j);
      assert Outcome(lots, won)[i] && Outcome(lots, won)[j];
      assert AtMostOne(won) && !AtMostOne(Outcome(lots, won));
    }
  }

  /** Whatever it asked before, a process gets the role exactly if its first call of the name found the
      policy ON, itself the leader under a leader policy, or a policy and status that leave it to
      the lock, and it has the lock. */
  lemma RoleOfRun(calls: seq<Call>, name: string, won: bool)
    requires Asks(calls, name) && name in Names(calls)
    ensures var c := FirstCall(calls, name);
            Role(WithLock(calls, name, won)) <==>
            || c.policy == PolicyOn
            || ((c.policy == LeaderPerNode || c.policy == RotatePerNode) && c.status == Leader)
            || ((c.policy == AnyonePerNode || (c.policy != PolicyOff && c.status == Unknown)) && won)
  {
    hide Role, FirstCall;
    RoleByLot(calls, name, won);
  }

  ghost predicate AllAsk(runs: seq<seq<Call>>, name: string) {
    forall i :: 0 <= i < |runs| ==> runs[i] != [] && Asks(runs[i], name) && name in Names(runs[i])
  }

  lemma RolesAreOutcome(runs: seq<seq<Call>>, name: string, won: seq<bool>)
    requires AllAsk(runs, name) && |won| == |runs|
    ensures Roles(runs, name, won) == Outcome(Lots(runs, name), won)
  {
    hide Role, LotOf, FirstCall, Names, Asks, WithLock;
    forall i | 0 <= i < |runs| ensures Roles(runs, name, won)[i] == Outcome(Lots(runs, name), won)[i] {
      RoleByLot(runs[i], name, won[i]);
    }
  }

  /** Processes of a node, each with its own earlier calls and its own policies, ask for the same
      role. However the lock falls, at most one gets it exactly when the first calls leave no process
      that elects itself beside another that may be elected. */
  lemma ElectionIsExclusive(runs: seq<seq<Call>>, name: string)
    requires AllAsk(runs, name)
    ensures (forall won: seq<bool> :: |won| == |runs| && AtMostOne(won) ==> AtMostOne(Roles(runs, name, won)))
            <==> Exclusive(Lots(runs, name))
  {
    hide Roles, Lots, Exclusive, AtMostOne, Outcome;
    assert |Lots(runs, name)| == |runs| by { LotsOfAll(runs, name); }
    LotsAreExclusive(Lots(runs, name));
    forall won: seq<bool> | |won| == |runs| ensures Roles(runs, name, won) == Outcome(Lots(runs, name), won) {
      RolesAreOutcome(runs, name, won);
    }
  }

  lemma LotsOfAll(runs: seq<seq<Call>>, name: string)
    requires AllAsk(runs, name)
    ensures |Lots(runs, name)| == |runs|
  {
  }

  /** For one common policy: at most one leader and no unknown status beside it, or a single process. */
  lemma ExclusivePolicies(cs: seq<Call>, policy: Policy)
    requires forall i :: 0 <= i < |cs| ==> cs[i].policy == policy
    ensures Exclusive(seq(|cs|, i requires 0 <= i < |cs| => LotOf(cs[i]))) <==>
            match policy
            case PolicyOff => true
            case PolicyOn => |cs| <= 1
            case AnyonePerNode => true
            case _ =>
              forall i, j :: 0 <= i < |cs| && 0 <= j < |cs| && i != j && cs[i].status == Leader ==> cs[j].status == NonLeader
  {
    var lots := seq(|cs|, i requires 0 <= i < |cs| => LotOf(cs[i]));
    if policy == PolicyOn && |cs| > 1 {
      assert lots[0] == Always && lots[1] == Always;
    }
    if policy == LeaderPerNode || policy == RotatePerNode {
      if i, j :| 0 <= i < |cs| && 0 <= j < |cs| && i != j && cs[i].status == Leader && cs[j].status != NonLeader {
        assert lots[i] == Always && lots[j] != Never;
      }
    }
  }

  // ---------- The caches, updated in place ----------

  class Process {
    var roles: seq<Slot>
    var claims: seq<Slot>

    ghost function Abs(): State
      reads this
    {
      State(roles, claims)
    }

    constructor ()
      ensures Abs() == State([], [])
    {
      roles, claims := [], [];
    }

    method FindSlot(cache: seq<Slot>, name: string) returns (r: int)
      ensures r == Lookup(cache, name, 0)
    {
      for i := 0 to |cache|
        invariant Lookup(cache, name, 0) == Lookup(cache, name, i)
      {
        if cache[i].name == name {
          return i;
        }
      }
      return -1;
    }

    /** claim_node_singleton; `c.won` is what flock answers. */
    method ClaimSingleton(c: Call) returns (won: bool)
      modifies this`claims
      ensures Answer(won, Abs()) == Claim(old(Abs()), c)
    {
      var i := FindSlot(claims, c.name);
      if i >= 0 {
        return claims[i].value;
      }
      won := c.won;
      claims := Remember(claims, c.name, won);
    }

    /** pinsight_node_role */
    method NodeRole(c: Call) returns (role: bool)
      modifies this
      ensures Answer(role, Abs()) == Ask(old(Abs()), c)
    {
      hide Lookup, Remember;
      var i := FindSlot(roles, c.name);
      if i >= 0 {
        return roles[i].value;
      }
      match c.policy {
        case PolicyOff => role := false;
        case PolicyOn => role := true;
        case AnyonePerNode => role := ClaimSingleton(c);
        case _ =>
          match c.status {
            case Leader => role := true;
            case NonLeader => role := false;
            case Unknown => role := ClaimSingleton(c);
          }
      }
      roles := Remember(roles, c.name, role);
    }
  }
}
