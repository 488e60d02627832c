/** The text form of a set of indices, "0,2-4,11": how src/bitset.c reads it and writes it.
    The reader's loop is specified by `ParseFrom`; `ReaderDecides` says which strings it
    accepts, and as what, by a grammar of its own. */
module RangeText {
  const ULONG_MAX: nat := 0xFFFF_FFFF_FFFF_FFFF

  /** A C string: its characters before the terminating NUL. */
  predicate IsDigit(c: char) { '0' <= c <= '9' }

  predicate IsSpace(c: char) { c == ' ' || '\t' <= c <= '\r' }

  predicate IsSep(c: char) { IsSpace(c) || c == ',' }

  /** What the reader's inner loops run over. */
  datatype Class = Spaces | Seps | Nums

  predicate Is(f: Class, c: char) {
    match f
    case Spaces => IsSpace(c)
    case Seps => IsSep(c)
    case Nums => IsDigit(c)
  }

  // ---------- Sets of indices as ranges ----------

  /** The indices lo..hi, both included. */
  datatype Item = Item(lo: nat, hi: nat)

  ghost predicate Between(lo: nat, x: nat, hi: nat) { lo <= x <= hi }

  ghost function Span(lo: nat, hi: nat): set<nat> {
    set x: nat | lo <= x <= hi && Between(lo, x, hi)
  }

  ghost function Union(items: seq<Item>): set<nat> {
    if items == [] then {} else Span(items[0].lo, items[0].hi) + Union(items[1..])
  }

  lemma {:induction false} UnionConcat(a: seq<Item>, b: seq<Item>)
    ensures Union(a + b) == Union(a) + Union(b)
  {
    if a == [] {
      assert a + b == b;
    } else {
      assert (a + b)[1..] == a[1..] + b;
      UnionConcat(a[1..], b);
    }
  }

  ghost predicate InBounds(items: seq<Item>, nbits: nat) {
    forall i :: 0 <= i < |items| ==> items[i].lo <= items[i].hi <= nbits
  }

  /** The items are the maximal runs of consecutive indices of s, in increasing order. */
  ghost predicate MaximalRuns(items: seq<Item>, s: set<nat>) {
    && (forall i :: 0 <= i < |items| ==> items[i].lo <= items[i].hi)
    && (forall i :: 0 < i < |items| ==> items[i - 1].hi + 1 < items[i].lo)
    && Union(items) == s
  }

  lemma {:induction false} UnionHas(items: seq<Item>, i: nat)
    requires i < |items| && items[i].lo <= items[i].hi
    ensures items[i].lo in Union(items) && items[i].hi in Union(items)
  {
    if i > 0 {
      UnionHas(items[1..], i - 1);
    }
  }

  lemma {:induction false} UnionAbove(items: seq<Item>, x: nat)
    requires forall i :: 0 <= i < |items| ==> x < items[i].lo
    ensures forall y :: y in Union(items) ==> x < y
  {
    if items != [] {
      UnionAbove(items[1..], x);
    }
  }

  lemma {:induction false} UnionBelow(items: seq<Item>, x: nat)
    requires forall i :: 0 <= i < |items| ==> items[i].hi < x
    ensures forall y :: y in Union(items) ==> y < x
  {
    if items != [] {
      UnionBelow(items[1..], x);
    }
  }

  lemma {:induction false} RunsIncrease(items: seq<Item>, s: set<nat>, i: nat, j: nat)
    requires MaximalRuns(items, s) && i < j < |items|
    ensures items[i].hi + 1 < items[j].lo
  {
    if i + 1 < j {
      RunsIncrease(items, s, i, j - 1);
    }
  }

  /** Without the first run, the others are the runs of the rest. */
  lemma TailRuns(items: seq<Item>, s: set<nat>)
    requires MaximalRuns(items, s) && items != []
    ensures MaximalRuns(items[1..], s - Span(items[0].lo, items[0].hi))
    ensures forall x :: x in s ==> items[0].lo <= x
    ensures items[0].hi + 1 !in s && forall x: nat :: items[0].lo <= x <= items[0].hi ==> x in s
  {
    var rest := items[1..];
    forall i | 0 <= i < |rest| ensures items[0].hi + 1 < rest[i].lo {
      RunsIncrease(items, s, 0, i + 1);
    }
    UnionAbove(rest, items[0].hi + 1);
    assert s == Span(items[0].lo, items[0].hi) + Union(rest);
    assert Union(rest) == s - Span(items[0].lo, items[0].hi);
  }

  /** A set has one list of maximal runs. */
  lemma {:induction false} RunsAreUnique(a: seq<Item>, b: seq<Item>, s: set<nat>)
    requires MaximalRuns(a, s) && MaximalRuns(b, s)
    ensures a == b
    decreases |a|
  {
    hide Span;
    if a == [] || b == [] {
      if a != [] {
        UnionHas(a, 0);
      }
      if b != [] {
        UnionHas(b, 0);
      }
    } else {
      TailRuns(a, s);
      TailRuns(b, s);
      UnionHas(a, 0);
      UnionHas(b, 0);
      assert a[0] == b[0];
      RunsAreUnique(a[1..], b[1..], s - Span(a[0].lo, a[0].hi));
      assert a == [a[0]] + a[1..] && b == [b[0]] + b[1..];
    }
  }

  lemma AppendRun(items: seq<Item>, s: set<nat>, it: Item)
    requires MaximalRuns(items, s) && it.lo <= it.hi
    requires items != [] ==> items[|items| - 1].hi + 1 < it.lo
    ensures MaximalRuns(items + [it], s + Span(it.lo, it.hi))
  {
    UnionConcat(items, [it]);
    assert [it][1..] == [];
    assert Union([it]) == Span(it.lo, it.hi);
  }

  ghost predicate IsMax(s: set<nat>, m: nat) {
    m in s && forall x :: x in s ==> x <= m
  }

  lemma {:induction false} MaxExists(s: set<nat>) returns (m: nat)
    requires s != {}
    ensures IsMax(s, m)
  {
    m :| m in s;
    if s != {m} {
      var rest := s - {m};
      var k := MaxExists(rest);
      forall x | x in s ensures x == m || x in rest {
      }
      m := if m < k then k else m;
    }
  }

  lemma {:induction false} RunsExist(s: set<nat>) returns (items: seq<Item>)
    ensures MaximalRuns(items, s)
    decreases |s|
  {
    items := [];
    if s != {} {
      hide MaximalRuns;
      var m := MaxExists(s);
      items := RunsExist(s - {m});
      items := GrowRuns(items, s - {m}, m);
      assert s - {m} + {m} == s;
    }
  }

  /** An element above all others extends the last run or begins a new one. */
  lemma GrowRuns(items: seq<Item>, s: set<nat>, m: nat) returns (more: seq<Item>)
    requires MaximalRuns(items, s) && forall x :: x in s ==> x < m
    ensures MaximalRuns(more, s + {m})
  {
    if items == [] || items[|items| - 1].hi + 1 < m {
      AppendRun(items, s, Item(m, m));
      more := items + [Item(m, m)];
      assert Span(m, m) == {m};
    } else {
      more := ExtendLast(items, s, m);
    }
  }

  lemma ExtendLast(items: seq<Item>, s: set<nat>, m: nat) returns (more: seq<Item>)
    requires MaximalRuns(items, s) && items != []
    requires (forall x :: x in s ==> x < m) && items[|items| - 1].hi + 1 >= m
    ensures MaximalRuns(more, s + {m})
  {
    var init, last := items[..|items| - 1], items[|items| - 1];
    UnionHas(items, |items| - 1);
    DropLast(items, s);
    hide MaximalRuns, Union;
    assert Span(last.lo, m) == Span(last.lo, last.hi) + {m};
    assert Union(init) + Span(last.lo, m) == s + {m};
    AppendRun(init, Union(init), Item(last.lo, m));
    more := init + [Item(last.lo, m)];
  }

  lemma DropLast(items: seq<Item>, s: set<nat>)
    requires MaximalRuns(items, s) && items != []
    ensures var init, last := items[..|items| - 1], items[|items| - 1];
            && MaximalRuns(init, Union(init)) && s == Union(init) + Span(last.lo, last.hi)
            && (init != [] ==> init[|init| - 1].hi + 1 < last.lo)
  {
    hide Span;
    var init, last := items[..|items| - 1], items[|items| - 1];
    assert items == init + [last];
    UnionConcat(init, [last]);
    assert [last][1..] == [];
  }

  /** The maximal runs of a set, in increasing order. */
  ghost function Runs(s: set<nat>): (items: seq<Item>)
    ensures MaximalRuns(items, s)
  {
    assert exists items :: MaximalRuns(items, s) by {
      var items := RunsExist(s);
    }
    var items :| MaximalRuns(items, s);
    items
  }

  // ---------- Reading ----------

  function SkipWhile(s: string, p: nat, f: Class): (q: nat)
    requires p <= |s|
    ensures p <= q <= |s|
    ensures forall k :: p <= k < q ==> Is(f, s[k])
    ensures q == |s| || !Is(f, s[q])
    decreases |s| - p
  {
    if p < |s| && Is(f, s[p]) then SkipWhile(s, p + 1, f) else p
  }

  function DigitValue(c: char): nat
    requires IsDigit(c)
  {
    c as nat - '0' as nat
  }

  ghost predicate Digits(t: string) {
    forall k :: 0 <= k < |t| ==> IsDigit(t[k])
  }

  ghost function Value(t: string): nat
    requires Digits(t)
  {
    if t == "" then 0 else 10 * Value(t[..|t| - 1]) + DigitValue(t[|t| - 1])
  }

  datatype Number = NoNumber | Number(value: nat, pos: nat)

  /** parse_uint: the number read at p and the position after it. */
  ghost function ParseUint(s: string, p: nat): (r: Number)
    requires p <= |s|
    ensures r.Number? ==> p < r.pos <= |s|
  {
    var q := SkipWhile(s, p, Spaces);
    var r := SkipWhile(s, q, Nums);
    if q == r || Value(s[q..r]) > ULONG_MAX then NoNumber else Number(Value(s[q..r]), r)
  }

  /** Did the reader succeed, and which indices has it set. */
  datatype Outcome = Outcome(ok: bool, bits: set<nat>)

  /** The item the reader finds at p, where no separator stands. */
  ghost function ParseItem(s: string, p: nat): (r: (Number, nat))
    requires p <= |s|
    ensures r.0.Number? ==> p < r.0.pos <= |s|
  {
    var lo := ParseUint(s, p);
    if lo.NoNumber? then (NoNumber, 0) else
    var q := SkipWhile(s, lo.pos, Spaces);
    if q < |s| && s[q] == '-' then (ParseUint(s, SkipWhile(s, q + 1, Spaces)), lo.value)
    else (Number(lo.value, q), lo.value)
  }

  /** bitset_parse_ranges from position p on, with the indices `bits` already set. */
  ghost function ParseFrom(s: string, p: nat, nbits: nat, bits: set<nat>): Outcome
    requires p <= |s|
    decreases |s| - p
  {
    var a := SkipWhile(s, p, Seps);
    if a == |s| then Outcome(true, bits) else
    var (hi, lo) := ParseItem(s, a);
    if hi.NoNumber? || hi.value < lo || hi.value > nbits then Outcome(false, bits) else
    var more := bits + Span(lo, hi.value);
    var c := SkipWhile(s, hi.pos, Spaces);
    if c == |s| then Outcome(true, more)
    else if s[c] == ',' then ParseFrom(s, c + 1, nbits, more)
    else Outcome(false, more)
  }

  /** Nothing read is forgotten, even if a later item is refused: what was set stays set, and so does
      an item within bounds. */
  lemma {:induction false} ReadingAdds(s: string, p: nat, nbits: nat, bits: set<nat>)
    requires p <= |s|
    ensures bits <= ParseFrom(s, p, nbits, bits).bits
    ensures var a := SkipWhile(s, p, Seps);
            var (hi, lo) := ParseItem(s, a);
            a < |s| && hi.Number? && hi.value <= nbits ==> Span(lo, hi.value) <= ParseFrom(s, p, nbits, bits).bits
    decreases |s| - p
  {
    hide ParseItem, SkipWhile, Span;
    var a := SkipWhile(s, p, Seps);
    if a < |s| {
      var (hi, lo) := ParseItem(s, a);
      if hi.Number? && lo <= hi.value <= nbits {
        var c := SkipWhile(s, hi.pos, Spaces);
        if c < |s| && s[c] == ',' {
          ReadingAdds(s, c + 1, nbits, bits + Span(lo, hi.value));
        }
      } else if hi.Number? && hi.value < lo {
        EmptySpan(lo, hi.value);
      }
    }
  }

  lemma EmptySpan(lo: nat, hi: nat)
    requires hi < lo
    ensures Span(lo, hi) == {}
  {
  }

  // ---------- The grammar ----------

  ghost predicate All(s: string, p: nat, q: nat, f: Class) {
    p <= q <= |s| && forall k :: p <= k < q ==> Is(f, s[k])
  }

  /** s[p..q] is a decimal number that fits an unsigned long. */
  ghost predicate NumberAt(s: string, p: nat, q: nat, v: nat) {
    p < q && All(s, p, q, Nums) && Value(s[p..q]) == v && v <= ULONG_MAX
  }

  /** s[a..d] is "lo - hi", with any spaces around the dash; the dash is at c. */
  ghost predicate DashAt(s: string, a: nat, b: nat, c: nat, e: nat, d: nat, it: Item) {
    && NumberAt(s, a, b, it.lo) && All(s, b, c, Spaces) && c < |s| && s[c] == '-'
    && All(s, c + 1, e, Spaces) && NumberAt(s, e, d, it.hi)
  }

  /** s[a..d] spells one item. */
  ghost predicate ItemAt(s: string, a: nat, d: nat, it: Item) {
    || (it.lo == it.hi && NumberAt(s, a, d, it.lo))
    || exists b: nat, c: nat, e: nat :: DashAt(s, a, b, c, e, d, it)
  }

  /** s[p..]: separators, an item ending at d, spaces, and either the end or a comma at c and the remaining items. */
  ghost predicate SpellsVia(s: string, p: nat, items: seq<Item>, a: nat, d: nat, c: nat)
    requires items != []
    decreases |items|, 0
  {
    && All(s, p, a, Seps) && ItemAt(s, a, d, items[0]) && All(s, d, c, Spaces)
    && (|| (c == |s| && |items| == 1)
        || (c < |s| && s[c] == ',' && Spells(s, c + 1, items[1..])))
  }

  /** s[p..] spells the items: separated by commas, with spare spaces and commas anywhere between them. */
  ghost predicate Spells(s: string, p: nat, items: seq<Item>)
    decreases |items|, 1
  {
    if items == [] then All(s, p, |s|, Seps)
    else exists a: nat, d: nat, c: nat :: SpellsVia(s, p, items, a, d, c)
  }

  lemma {:induction false} SkipsTo(s: string, p: nat, q: nat, f: Class)
    requires All(s, p, q, f) && (q == |s| || !Is(f, s[q]))
    ensures SkipWhile(s, p, f) == q
    decreases q - p
  {
    if p < q {
      SkipsTo(s, p + 1, q, f);
    }
  }

  lemma ReadsNumber(s: string, p: nat, q: nat, v: nat)
    requires NumberAt(s, p, q, v) && (q == |s| || !IsDigit(s[q]))
    ensures ParseUint(s, p) == Number(v, q)
  {
    SkipsTo(s, p, p, Spaces);
    SkipsTo(s, p, q, Nums);
  }

  /** ParseItem finds `it` at a, and only spaces follow it up to c. */
  ghost predicate Reads(s: string, a: nat, c: nat, it: Item)
    requires a <= |s|
  {
    var (hi, lo) := ParseItem(s, a);
    lo == it.lo && hi.Number? && hi.value == it.hi && SkipWhile(s, hi.pos, Spaces) == c
  }

  lemma ReadsSingle(s: string, a: nat, d: nat, c: nat, v: nat)
    requires NumberAt(s, a, d, v) && All(s, d, c, Spaces) && (c == |s| || s[c] == ',')
    ensures Reads(s, a, c, Item(v, v))
  {
    ReadsNumber(s, a, d, v);
    SkipsTo(s, d, c, Spaces);
    SkipsTo(s, c, c, Spaces);
  }

  lemma ReadsDash(s: string, a: nat, b: nat, e: nat, f: nat, d: nat, c: nat, it: Item)
    requires DashAt(s, a, b, e, f, d, it) && All(s, d, c, Spaces) && (c == |s| || s[c] == ',')
    ensures Reads(s, a, c, it)
  {
    hide ParseUint, SkipWhile;
    ReadsNumber(s, a, b, it.lo);
    SkipsTo(s, b, e, Spaces);
    SkipsTo(s, e + 1, f, Spaces);
    ReadsNumber(s, f, d, it.hi);
    SkipsTo(s, d, c, Spaces);
  }

  /** The reader takes an item whole when spaces and then a comma or the end follow it. */
  lemma ReadsItem(s: string, a: nat, d: nat, c: nat, it: Item)
    requires ItemAt(s, a, d, it) && All(s, d, c, Spaces) && (c == |s| || s[c] == ',')
    ensures a < |s| && !IsSep(s[a])
    ensures Reads(s, a, c, it)
  {
    if it.lo == it.hi && NumberAt(s, a, d, it.lo) {
      ReadsSingle(s, a, d, c, it.lo);
    } else {
      var b: nat, e: nat, f: nat :| DashAt(s, a, b, e, f, d, it);
      ReadsDash(s, a, b, e, f, d, c, it);
    }
  }

  lemma ParseStep(s: string, p: nat, a: nat, c: nat, it: Item, nbits: nat, bits: set<nat>)
    requires All(s, p, a, Seps) && a < |s| && !IsSep(s[a]) && Reads(s, a, c, it)
    requires it.lo <= it.hi <= nbits && (c == |s| || s[c] == ',')
    ensures var more := bits + Span(it.lo, it.hi);
            ParseFrom(s, p, nbits, bits) ==
            if c == |s| then Outcome(true, more) else ParseFrom(s, c + 1, nbits, more)
  {
    hide ParseItem, SkipWhile;
    SkipsTo(s, p, a, Seps);
  }

  lemma ParseEnd(s: string, p: nat, nbits: nat, bits: set<nat>)
    requires All(s, p, |s|, Seps)
    ensures ParseFrom(s, p, nbits, bits) == Outcome(true, bits)
  {
    SkipsTo(s, p, |s|, Seps);
  }

  /** Every spelling of items within bounds is accepted, as their union. */
  lemma {:induction false} AcceptsSpelling(s: string, p: nat, items: seq<Item>, nbits: nat, bits: set<nat>)
    requires p <= |s| && Spells(s, p, items) && InBounds(items, nbits)
    ensures ParseFrom(s, p, nbits, bits) == Outcome(true, bits + Union(items))
    decreases |items|
  {
    hide ParseFrom, Reads, Union, ItemAt;
    if items == [] {
      ParseEnd(s, p, nbits, bits);
      NoItems();
    } else {
      var it := items[0];
      var a: nat, d: nat, c: nat :| SpellsVia(s, p, items, a, d, c);
      ReadsItem(s, a, d, c, it);
      ParseStep(s, p, a, c, it, nbits, bits);
      assert items == [it] + items[1..];
      ConsUnion(bits, it, items[1..]);
      if c == |s| {
        assert items[1..] == [];
        NoItems();
      } else {
        AcceptsSpelling(s, c + 1, items[1..], nbits, bits + Span(it.lo, it.hi));
      }
    }
  }

  lemma NumberWasThere(s: string, p: nat)
    requires p <= |s| && (p == |s| || !IsSpace(s[p]))
    ensures var n := ParseUint(s, p); n.Number? ==> NumberAt(s, p, n.pos, n.value)
  {
    SkipsTo(s, p, p, Spaces);
  }

  /** What the reader takes for an item is one. */
  lemma ItemWasThere(s: string, a: nat) returns (d: nat)
    requires a < |s| && !IsSep(s[a]) && ParseItem(s, a).0.Number?
    ensures var (hi, lo) := ParseItem(s, a);
            ItemAt(s, a, d, Item(lo, hi.value)) && All(s, d, SkipWhile(s, hi.pos, Spaces), Spaces)
  {
    hide ParseUint, SkipWhile;
    var (hi, lo) := ParseItem(s, a);
    var b := ParseUint(s, a).pos;
    var q := SkipWhile(s, b, Spaces);
    NumberWasThere(s, a);
    if q < |s| && s[q] == '-' {
      var e := SkipWhile(s, q + 1, Spaces);
      NumberWasThere(s, e);
      d := hi.pos;
      assert DashAt(s, a, b, q, e, d, Item(lo, hi.value));
    } else {
      d := b;
      SkipsTo(s, q, q, Spaces);
    }
  }

  /** What an accepting step of the reader saw: the end, or an item and the rest. */
  lemma AcceptedStep(s: string, p: nat, nbits: nat, bits: set<nat>) returns (a: nat, d: nat, c: nat, it: Item)
    requires p <= |s| && ParseFrom(s, p, nbits, bits).ok
    ensures All(s, p, a, Seps)
    ensures a == |s| ==> ParseFrom(s, p, nbits, bits).bits == bits
    ensures a < |s| ==>
              && ItemAt(s, a, d, it) && it.lo <= it.hi <= nbits && All(s, d, c, Spaces) && c > p
              && (c == |s| || s[c] == ',')
              && var more := bits + Span(it.lo, it.hi);
              if c == |s| then ParseFrom(s, p, nbits, bits).bits == more
              else ParseFrom(s, p, nbits, bits) == ParseFrom(s, c + 1, nbits, more)
  {
    hide ParseItem, SkipWhile, ItemAt;
    a := SkipWhile(s, p, Seps);
    d, c, it := a, a, Item(0, 0);
    if a < |s| {
      var (hi, lo) := ParseItem(s, a);
      it := Item(lo, hi.value);
      d := ItemWasThere(s, a);
      c := SkipWhile(s, hi.pos, Spaces);
    }
  }

  /** Whatever is accepted is a spelling of items within bounds, whose union was set. */
  lemma {:induction false} AcceptedIsSpelling(s: string, p: nat, nbits: nat, bits: set<nat>) returns (items: seq<Item>)
    requires p <= |s| && ParseFrom(s, p, nbits, bits).ok
    ensures Spells(s, p, items) && InBounds(items, nbits)
    ensures ParseFrom(s, p, nbits, bits).bits == bits + Union(items)
    decreases |s| - p
  {
    hide ParseFrom, ItemAt, Union;
    var a, d, c, it := AcceptedStep(s, p, nbits, bits);
    items := [];
    NoItems();
    if a < |s| {
      var rest := [];
      if c < |s| {
        rest := AcceptedIsSpelling(s, c + 1, nbits, bits + Span(it.lo, it.hi));
      }
      items := [it] + rest;
      ConsSpells(s, p, a, d, c, it, rest);
      ConsUnion(bits, it, rest);
    }
  }

  lemma ConsSpells(s: string, p: nat, a: nat, d: nat, c: nat, it: Item, rest: seq<Item>)
    requires All(s, p, a, Seps) && ItemAt(s, a, d, it) && All(s, d, c, Spaces)
    requires (c == |s| && rest == []) || (c < |s| && s[c] == ',' && Spells(s, c + 1, rest))
    ensures Spells(s, p, [it] + rest)
  {
    var items := [it] + rest;
    assert items[1..] == rest;
    assert SpellsVia(s, p, items, a, d, c);
  }

  lemma NoItems()
    ensures Union([]) == {}
  {
  }

  lemma ConsUnion(bits: set<nat>, it: Item, rest: seq<Item>)
    ensures bits + Union([it] + rest) == (bits + Span(it.lo, it.hi)) + Union(rest)
  {
    assert ([it] + rest)[1..] == rest;
  }

  /** The reader accepts exactly the spellings of items within 0..nbits, and sets their union. */
  lemma ReaderDecides(s: string, nbits: nat, bits: set<nat>)
    ensures ParseFrom(s, 0, nbits, {}) == Outcome(true, bits) <==>
            exists items :: Spells(s, 0, items) && InBounds(items, nbits) && Union(items) == bits
  {
    if ParseFrom(s, 0, nbits, {}) == Outcome(true, bits) {
      var items := AcceptedIsSpelling(s, 0, nbits, {});
      assert {} + Union(items) == Union(items);
    }
    if items :| Spells(s, 0, items) && InBounds(items, nbits) && Union(items) == bits {
      AcceptsSpelling(s, 0, items, nbits, {});
      assert {} + Union(items) == Union(items);
    }
  }

  // ---------- Writing ----------

  function DigitChar(d: nat): (c: char)
    requires d < 10
    ensures IsDigit(c) && DigitValue(c) == d
  {
    ('0' as nat + d) as char
  }

  /** "%d" of a nonnegative number. */
  function Decimal(n: nat): (t: string)
    ensures t != "" && Digits(t)
  {
    if n < 10 then [DigitChar(n)] else Decimal(n / 10) + [DigitChar(n % 10)]
  }

  lemma {:induction false} DecimalValue(n: nat)
    ensures Value(Decimal(n)) == n
  {
    var t := Decimal(n);
    if n < 10 {
      assert t[..0] == "";
    } else {
      DecimalValue(n / 10);
      assert t[..|t| - 1] == Decimal(n / 10);
    }
  }

  ghost function Pow10(k: nat): nat {
    if k == 0 then 1 else 10 * Pow10(k - 1)
  }

  lemma {:induction false} DecimalLength(n: nat, k: nat)
    requires k > 0 && n < Pow10(k)
    ensures |Decimal(n)| <= k
    decreases k
  {
    if n >= 10 {
      DecimalLength(n / 10, k - 1);
    }
  }

  function ItemText(it: Item): string {
    if it.lo == it.hi then Decimal(it.lo) else Decimal(it.lo) + "-" + Decimal(it.hi)
  }

  /** The items' texts, separated by commas. */
  function Join(items: seq<Item>): string {
    if items == [] then ""
    else Join(items[..|items| - 1]) + (if |items| == 1 then "" else ",") + ItemText(items[|items| - 1])
  }

  /** t stands in s from p to q. */
  ghost predicate TextAt(s: string, p: nat, t: string, q: nat) {
    q == p + |t| && q <= |s| && forall k :: 0 <= k < |t| ==> s[p + k] == t[k]
  }

  lemma TextSplits(s: string, p: nat, t: string, u: string, q: nat)
    requires TextAt(s, p, t + u, q)
    ensures TextAt(s, p, t, p + |t|) && TextAt(s, p + |t|, u, q)
  {
    assert forall k :: 0 <= k < |t| ==> (t + u)[k] == t[k];
    forall k | 0 <= k < |u| ensures s[p + |t| + k] == u[k] {
      assert s[p + (|t| + k)] == (t + u)[|t| + k];
    }
  }

  lemma NumberText(s: string, p: nat, n: nat, q: nat)
    requires TextAt(s, p, Decimal(n), q) && n <= ULONG_MAX
    ensures NumberAt(s, p, q, n)
  {
    DecimalValue(n);
    assert s[p..q] == Decimal(n);
    forall k | p <= k < q ensures IsDigit(s[k]) {
      assert s[p + (k - p)] == Decimal(n)[k - p];
    }
  }

  lemma ItemTextIsItem(s: string, p: nat, it: Item, q: nat)
    requires TextAt(s, p, ItemText(it), q) && it.lo <= it.hi <= ULONG_MAX
    ensures ItemAt(s, p, q, it)
  {
    var lo, hi := Decimal(it.lo), Decimal(it.hi);
    if it.lo == it.hi {
      NumberText(s, p, it.lo, q);
    } else {
      TextSplits(s, p, lo + "-", hi, q);
      var e := p + |lo + "-"|;
      TextSplits(s, p, lo, "-", e);
      NumberText(s, p, it.lo, p + |lo|);
      NumberText(s, e, it.hi, q);
      assert s[p + |lo| + 0] == "-"[0];
      assert DashAt(s, p, p + |lo|, p + |lo|, e, q, it);
    }
  }

  lemma Reassociate(a: string, m: string, z: string)
    ensures (a + "," + m) + "," + z == a + "," + (m + "," + z)
  {
  }

  lemma JoinLast(items: seq<Item>)
    requires |items| > 1
    ensures Join(items) == Join(items[..|items| - 1]) + "," + ItemText(items[|items| - 1])
  {
  }

  /** Join, read from the front. */
  lemma {:induction false} JoinFront(items: seq<Item>)
    requires |items| > 1
    ensures Join(items) == ItemText(items[0]) + "," + Join(items[1..])
  {
    hide Join, ItemText;
    var init, rest, last := items[..|items| - 1], items[1..], items[|items| - 1];
    JoinLast(items);
    if |items| == 2 {
      JoinOne(items[0]);
      JoinOne(items[1]);
      assert init == [items[0]] && rest == [items[1]];
    } else {
      JoinFront(init);
      JoinLast(rest);
      assert init[1..] == rest[..|rest| - 1];
      Reassociate(ItemText(items[0]), Join(init[1..]), ItemText(last));
    }
  }

  lemma JoinOne(it: Item)
    ensures Join([it]) == ItemText(it)
  {
    var one := [it];
    assert one[..0] == [];
  }

  lemma NoText(s: string, p: nat)
    requires TextAt(s, p, Join([]), |s|)
    ensures Spells(s, p, [])
  {
  }

  lemma {:induction false} JoinSpells(s: string, p: nat, items: seq<Item>)
    requires TextAt(s, p, Join(items), |s|) && InBounds(items, ULONG_MAX)
    ensures Spells(s, p, items)
    decreases |items|
  {
    hide Join, Spells, ItemText, ItemAt;
    if items == [] {
      NoText(s, p);
    } else {
      var it, rest := items[0], items[1..];
      var q := p + |ItemText(it)|;
      assert items == [it] + rest;
      if rest == [] {
        assert items == [it];
        JoinOne(it);
        ItemTextIsItem(s, p, it, q);
      } else {
        JoinFront(items);
        TextSplits(s, p, ItemText(it) + ",", Join(rest), |s|);
        TextSplits(s, p, ItemText(it), ",", q + 1);
        assert s[q + 0] == ","[0];
        ItemTextIsItem(s, p, it, q);
        JoinSpells(s, q + 1, rest);
      }
      ConsSpells(s, p, p, q, q, it, rest);
    }
  }

  /** The text form of a set: its maximal runs, in increasing order. */
  ghost function TextOf(bits: set<nat>): string {
    Join(Runs(bits))
  }

  /** Reading back the text of a set gives the set. */
  lemma RoundTrip(bits: set<nat>, nbits: nat)
    requires nbits <= ULONG_MAX && forall x :: x in bits ==> x <= nbits
    ensures ParseFrom(TextOf(bits), 0, nbits, {}) == Outcome(true, bits)
  {
    hide ParseFrom, Join, Spells;
    var items := Runs(bits);
    forall i | 0 <= i < |items| ensures items[i].lo <= items[i].hi <= nbits {
      UnionHas(items, i);
    }
    JoinSpells(Join(items), 0, items);
    AcceptsSpelling(Join(items), 0, items, nbits, {});
    assert {} + Union(items) == Union(items);
  }

  /** So different sets have different texts. */
  lemma TextIsInjective(a: set<nat>, b: set<nat>, nbits: nat)
    requires nbits <= ULONG_MAX && forall x :: x in a || x in b ==> x <= nbits
    ensures TextOf(a) == TextOf(b) <==> a == b
  {
    RoundTrip(a, nbits);
    RoundTrip(b, nbits);
  }
}
