/** The sampler's set of code objects already written to the manifest (src/pysysmon_sampler.c):
    open addressing with wrap-around over a power-of-two table. Pointers are 64-bit numbers, NULL is 0. */
module CodeSet {
  import opened Numbering

  const CAPACITY: nat := 32768
  const LIMIT: nat := CAPACITY - CAPACITY / 8
  const ULONG_RANGE: nat := 0x1_0000_0000_0000_0000

  type Pointer = p: nat | p < ULONG_RANGE

  function Hash(p: Pointer): (h: nat)
    ensures h < CAPACITY
  {
    p / 16 * 2654435761 % ULONG_RANGE % CAPACITY
  }

  /** The slot looked at after `probe` steps from home slot h. */
  function Slot(h: nat, probe: nat): (i: nat)
    ensures i < CAPACITY
  {
    (h + probe) % CAPACITY
  }

  /** The number of steps from home slot h to slot i. */
  function Steps(h: nat, i: nat): (d: nat)
    requires h < CAPACITY && i < CAPACITY
    ensures d < CAPACITY && Slot(h, d) == i
  {
    if h <= i then i - h else CAPACITY + i - h
  }

  lemma SlotsDiffer(h: nat, d: nat, e: nat)
    requires h < CAPACITY && d < CAPACITY && e < CAPACITY
    ensures Slot(h, d) == Slot(h, e) <==> d == e
  {
  }

  /** Walking from p's home slot to slot i meets no empty slot. */
  ghost predicate Reachable(t: seq<Pointer>, p: Pointer, i: nat)
    requires |t| == CAPACITY && i < CAPACITY
  {
    forall q: nat :: q < Steps(Hash(p), i) ==> t[Slot(Hash(p), q)] != 0
  }

  ghost function Occupied(t: seq<Pointer>): set<nat> {
    set i: nat | i < |t| && t[i] != 0
  }

  ghost function Elements(t: seq<Pointer>): set<Pointer> {
    set i: nat | i < |t| && t[i] != 0 :: t[i]
  }

  ghost predicate Consistent(t: seq<Pointer>) {
    && |t| == CAPACITY
    && (forall i, j :: 0 <= i < j < |t| && t[i] != 0 ==> t[i] != t[j])
    && (forall i :: 0 <= i < |t| && t[i] != 0 ==> Reachable(t, t[i], i))
  }

  /** If the probe sequence of p reaches an empty slot without meeting p, then p is not in the table. */
  lemma EmptyMeansAbsent(t: seq<Pointer>, p: Pointer, probe: nat)
    requires Consistent(t) && p != 0 && probe < CAPACITY
    requires t[Slot(Hash(p), probe)] == 0
    requires forall q :: 0 <= q < probe ==> t[Slot(Hash(p), q)] != p
    ensures p !in Elements(t)
  {
    forall i: nat | i < |t| && t[i] != 0 ensures t[i] != p {
      assert Reachable(t, t[i], i);
      var d := Steps(Hash(t[i]), i);
      assert d < probe || d == probe || t[Slot(Hash(t[i]), probe)] != 0;
    }
  }

  lemma InsertKeepsConsistent(t: seq<Pointer>, p: Pointer, probe: nat)
    requires Consistent(t) && p != 0 && probe < CAPACITY && p !in Elements(t)
    requires t[Slot(Hash(p), probe)] == 0
    requires forall q :: 0 <= q < probe ==> t[Slot(Hash(p), q)] != 0
    ensures Consistent(t[Slot(Hash(p), probe) := p])
    ensures Elements(t[Slot(Hash(p), probe) := p]) == Elements(t) + {p}
    ensures Occupied(t[Slot(Hash(p), probe) := p]) == Occupied(t) + {Slot(Hash(p), probe)}
  {
    var at := Slot(Hash(p), probe);
    var u := t[at := p];
    SlotsDiffer(Hash(p), Steps(Hash(p), at), probe);
    forall i | 0 <= i < |u| && u[i] != 0 ensures Reachable(u, u[i], i) {
      if i != at {
        assert Reachable(t, t[i], i);
      }
    }
    forall x ensures x in Elements(u) <==> x in Elements(t) + {p} {
      if x == p {
        assert u[at] == p;
      } else if i: nat :| i < |t| && t[i] != 0 && t[i] == x {
        assert u[i] == x;
      }
    }
  }

  /** A probe sequence of full length visits every slot. */
  lemma FullWalk(t: seq<Pointer>, h: nat)
    requires |t| == CAPACITY && h < CAPACITY
    requires forall q :: 0 <= q < CAPACITY ==> t[Slot(h, q)] != 0
    ensures |Occupied(t)| == CAPACITY
  {
    forall i: nat | i < CAPACITY ensures t[i] != 0 {
      assert Slot(h, Steps(h, i)) == i;
    }
    assert Occupied(t) == Numbers(CAPACITY);
    NumbersBelow(CAPACITY);
  }

  class Table {
    const codeSet: array<Pointer>
    var count: nat
    var overflowWarned: bool

    ghost predicate Valid()
      reads this, codeSet
    {
      && Consistent(codeSet[..])
      && count == |Occupied(codeSet[..])| == |Stored()| <= LIMIT
    }

    ghost function Stored(): set<Pointer>
      reads codeSet
    {
      Elements(codeSet[..])
    }

    constructor ()
      ensures Valid() && Stored() == {} && count == 0 && fresh(codeSet)
    {
      codeSet := new Pointer[CAPACITY](_ => 0);
      count, overflowWarned := 0, false;
      new;
      assert Occupied(codeSet[..]) == {} && Elements(codeSet[..]) == {};
    }

    /** code_set_insert: 0 if the pointer is stored already (or NULL); otherwise 1, and the
        pointer is stored unless the table has reached its cap of seven eighths. */
    method Insert(ptr: Pointer) returns (isNew: int)
      requires Valid()
      modifies this, codeSet
      ensures Valid()
      ensures isNew == if ptr == 0 || ptr in old(Stored()) then 0 else 1
      ensures Stored() == if isNew == 1 && old(count) < LIMIT then old(Stored()) + {ptr} else old(Stored())
      ensures overflowWarned <==> old(overflowWarned) || (isNew == 1 && old(count) >= LIMIT)
    {
      var h := Hash(ptr);
      ghost var t := codeSet[..];
      for probe := 0 to CAPACITY
        invariant forall q :: 0 <= q < probe ==> t[Slot(h, q)] != 0 && t[Slot(h, q)] != ptr
        invariant codeSet[..] == t
      {
        var idx := Slot(h, probe);
        if codeSet[idx] == ptr {
          assert t[idx] == ptr;
          return 0;
        }
        if codeSet[idx] == 0 {
          EmptyMeansAbsent(t, ptr, probe);
          if count >= LIMIT {
            overflowWarned := true;
            return 1;
          }
          InsertKeepsConsistent(t, ptr, probe);
          codeSet[idx] := ptr;
          count := count + 1;
          assert codeSet[..] == t[idx := ptr];
          return 1;
        }
      }
      FullWalk(t, h);
      assert false;
    }

    /** At least an eighth of the slots is always empty. */
    lemma Spare()
      requires Valid()
      ensures |set i: nat | i < CAPACITY && codeSet[i] == 0| >= CAPACITY / 8
    {
      var t := codeSet[..];
      var empty := set i: nat | i < CAPACITY && codeSet[i] == 0;
      NumbersBelow(CAPACITY);
      assert Numbers(CAPACITY) == empty + Occupied(t);
      assert empty !! Occupied(t);
    }
  }

  /** The cap can be reached: after that many pointers the next one is called new but not stored. */
  method Saturate() returns (t: Table, answer: int)
    ensures t.Valid() && t.count == LIMIT && answer == 1 && LIMIT + 1 !in t.Stored() && t.overflowWarned
  {
    t := new Table();
    for p: int := 1 to LIMIT + 1
      invariant t.Valid() && fresh(t) && fresh(t.codeSet)
      invariant forall x: nat :: x in t.Stored() <==> 1 <= x < p
      invariant t.count == p - 1
    {
      var isNew := t.Insert(p);
      FromOne(t.Stored(), p);
    }
    answer := t.Insert(LIMIT + 1);
  }

  lemma FromOne(s: set<Pointer>, n: nat)
    requires n < ULONG_RANGE && forall x: nat :: x < ULONG_RANGE ==> (x in s <==> 1 <= x <= n)
    ensures |s| == n
  {
    NumbersBelow(n + 1);
    var all: set<nat> := set x | x in s;
    assert all == Numbers(n + 1) - {0};
    assert s == all;
  }
}
