/** A trace configuration's punit sets, updated in place by parse_punit_set_string
    (src/trace_config_parse.c) and printed by print_punit_set_filtered (src/trace_config.c). */
module PunitConfig {
  import opened RangeText
  import opened BitSets
  import opened PunitText

  /** The ids a bitset holds. */
  method Elements(bits: BitSet) returns (ids: set<nat>)
    requires bits.Valid() && bits.nbits == MAX_ID
    ensures ids == bits.Contents()
  {
    hide Members;
    ids := {};
    bits.WithinBounds();
    for k := 0 to MAX_ID + 1
      invariant forall x :: x in ids <==> x in bits.Contents() && x < k
    {
      if bits.Test(k) {
        ids := ids + {k};
      }
    }
  }

  /** A bitset that holds the given ids. */
  method Holding(ids: set<nat>) returns (bits: BitSet)
    requires forall x :: x in ids ==> x <= MAX_ID
    ensures fresh(bits) && bits.Valid() && bits.nbits == MAX_ID && bits.Contents() == ids
  {
    hide Members;
    bits := new BitSet(MAX_ID);
    for k := 0 to MAX_ID + 1
      invariant fresh(bits) && (bits.heap != null ==> fresh(bits.heap)) && bits.Valid() && bits.nbits == MAX_ID
      invariant forall x :: x in bits.Contents() <==> x in ids && x < k
    {
      if k in ids {
        bits.Set(k);
      }
    }
  }

  /** The range check: a warning and bitset_clear for each id outside the limits, up to 1023. */
  method DropOutside(bits: BitSet, low: int, high: int)
    requires bits.Valid() && bits.nbits == MAX_ID
    modifies bits, bits.heap
    ensures bits.Valid() && bits.nbits == MAX_ID && bits.Contents() == Kept(old(bits.Contents()), low, high)
  {
    hide Members;
    ghost var before := bits.Contents();
    for k := 0 to MAX_ID
      invariant bits.Valid() && bits.nbits == MAX_ID && bits.heap == old(bits.heap)
      invariant forall x :: x in bits.Contents() <==> x in before && (low <= x <= high || x >= k)
    {
      if bits.Test(k) {
        if k < low || k > high {
          bits.Clear(k);
        }
      }
    }
  }

  /** The ids that one piece lists, checked against the limits unless they do not parse. */
  method ReadIds(text: string, low: int, high: int) returns (ok: bool, ids: set<nat>)
    ensures var read := ParseFrom(text, 0, MAX_ID, {});
            ok == read.ok && ids == if read.ok then Kept(read.bits, low, high) else read.bits
  {
    hide ParseFrom, Kept, Members;
    var bits := new BitSet(MAX_ID);
    var rc := bits.ParseRanges(text);
    ok := rc == 0;
    if ok {
      DropOutside(bits, low, high);
    }
    ids := Elements(bits);
  }

  /** find_domain_index */
  method FindDomainIndex(table: seq<Domain>, name: string) returns (r: int)
    ensures r == DomainFrom(table, name, 0)
  {
    for i := 0 to |table|
      invariant DomainFrom(table, name, 0) == DomainFrom(table, name, i)
    {
      if table[i].name == name {
        return i;
      }
    }
    return -1;
  }

  /** find_punit_kind_index */
  method FindPunitKindIndex(kinds: seq<Kind>, name: string) returns (r: int)
    ensures r == KindFrom(kinds, name, 0)
  {
    for i := 0 to |kinds|
      invariant KindFrom(kinds, name, 0) == KindFrom(kinds, name, i)
    {
      if kinds[i].name == name {
        return i;
      }
    }
    return -1;
  }

  method SkipLeading(s: string, p: nat) returns (q: nat)
    requires p <= |s|
    ensures q == SkipLead(s, p)
  {
    q := p;
    while q < |s| && IsLead(s[q])
      invariant p <= q <= |s| && SkipLead(s, q) == SkipLead(s, p)
    {
      q := q + 1;
    }
  }

  /** strchr */
  method StrChr(s: string, p: nat, c: char) returns (q: nat)
    requires p <= |s|
    ensures q == Find(s, p, c)
  {
    q := p;
    while q < |s| && s[q] != c
      invariant p <= q <= |s| && Find(s, q, c) == Find(s, p, c)
    {
      q := q + 1;
    }
  }

  /** The delimiters of the piece that starts at a, each looked for after the one before. */
  method FindPiece(s: string, a: nat) returns (piece: Piece)
    requires a <= |s|
    ensures piece == PieceAt(s, a)
  {
    hide Find;
    var dot := StrChr(s, a, '.');
    if dot == |s| {
      return NoPiece;
    }
    var paren := StrChr(s, dot + 1, '(');
    if paren == |s| {
      return NoPiece;
    }
    var close := StrChr(s, paren + 1, ')');
    return if close == |s| then NoPiece else Piece(dot, paren, close);
  }

  class PunitSets {
    const table: seq<Domain>
    var sets: seq<DomainSet>

    ghost predicate Valid()
      reads this
    {
      Shape(table, sets) && WithinBitset(sets) && FlagsAgree(sets)
    }

    constructor (table: seq<Domain>)
      ensures Valid() && this.table == table && sets == Empty(table)
    {
      this.table := table;
      sets := Empty(table);
    }

    /** parse_punit_set_string: 0, or -1 with everything read before the fault kept. */
    method ParsePunitSet(spec: string) returns (rc: int)
      requires Valid()
      modifies this`sets
      ensures Valid() && (rc == 0 || rc == -1)
      ensures ParseSpec(table, spec, 0, old(sets)) == Parsed(rc == 0, sets)
    {
      hide ParseSpec, SkipLead, SkipWhile, PieceAt, Copied, Store, FlagsAgree, WithinBitset, AllInLimits;
      ParseKeeps(table, spec, 0, sets);
      var p := 0;
      while p < |spec|
        invariant p <= |spec| && Shape(table, sets)
        invariant ParseSpec(table, spec, p, sets) == ParseSpec(table, spec, 0, old(sets))
        decreases |spec| - p
      {
        SpecUnfold(table, spec, p, sets);
        var a := SkipLeading(spec, p);
        if a == |spec| {
          return 0;
        }
        var piece := FindPiece(spec, a);
        if piece.NoPiece? {
          return -1;
        }
        var ok := StoreIds(Copied(spec[a..piece.dot]), Copied(spec[piece.dot + 1..piece.paren]),
                           spec[piece.paren + 1..piece.close]);
        if !ok {
          return -1;
        }
        var q := Skip(spec, piece.close + 1, Spaces);
        if q < |spec| && spec[q] == ',' {
          q := q + 1;
        } else if q < |spec| {
          return -1;
        } else {
          return 0;
        }
        p := q;
      }
      SpecUnfold(table, spec, p, sets);
      return 0;
    }

    /** Look the names up and store the ids, flagging the kind and its domain. */
    method StoreIds(domain: string, kind: string, text: string) returns (ok: bool)
      requires Shape(table, sets)
      modifies this`sets
      ensures Parsed(ok, sets) == Store(table, domain, kind, text, old(sets))
      ensures (forall d, k :: 0 <= d < |table| && 0 <= k < |table[d].kinds| ==>
                 table[d].name != domain || table[d].kinds[k].name != kind) ==> ok && sets == old(sets)
    {
      hide ParseFrom, Kept;
      ok := true;
      var d := FindDomainIndex(table, domain);
      if d >= 0 {
        var k := FindPunitKindIndex(table[d].kinds, kind);
        if k >= 0 {
          var ids;
          ok, ids := ReadIds(text, table[d].kinds[k].low, table[d].kinds[k].high);
          sets := Put(sets, d, k, ids);
        }
      }
    }

    /** print_punit_set_filtered: `printed` is the caller's first_printed flag. */
    method PrintFiltered(printed: bool, filter: int, exclude: bool) returns (out: string, printedNow: bool)
      requires Valid()
      ensures out == Printed(table, sets, filter, exclude, printed)
      ensures printedNow == (printed || Entries(sets, filter, exclude, |sets|) != [])
    {
      hide FlagsAgree, WithinBitset, Text, InTable, KindEntries, Entries;
      out, printedNow := "", printed;
      ghost var es: seq<Entry> := [];
      NoEntries(table, sets, filter, exclude, printed);
      for di := 0 to |table|
        invariant es == Entries(sets, filter, exclude, di) && InTable(table, es)
        invariant out == Text(table, es, printed) && printedNow == (printed || es != [])
      {
        ghost var before := es;
        MoreEntries(sets, filter, exclude, di);
        if Shown(filter, exclude, di) && sets[di].flag {
          NoKinds(sets, di);
          assert before + [] == before;
          for pi := 0 to |table[di].kinds|
            invariant es == before + KindEntries(sets, di, pi) && InTable(table, es)
            invariant out == Text(table, es, printed) && printedNow == (printed || es != [])
          {
            MoreKinds(sets, di, pi);
            if sets[di].kinds[pi].flag {
              if !printedNow {
                printedNow := true;
              } else {
                out := out + ", ";
              }
              var runs := RunsText(di, pi);
              out := out + (table[di].name + "." + table[di].kinds[pi].name + "(" + runs + ")");
              ghost var e := Entry(di, pi, sets[di].kinds[pi].ids);
              MoreText(table, es, e, printed);
              assert es + [e] == before + (KindEntries(sets, di, pi) + [e]);
              es := es + [e];
            }
          }
        }
      }
    }

    /** bitset_to_rangestring of one kind's ids. */
    method RunsText(di: nat, pi: nat) returns (runs: string)
      requires WithinBitset(sets) && Slot(sets, di, pi)
      ensures runs == TextOf(sets[di].kinds[pi].ids)
    {
      hide TextOf;
      TextFits(sets[di].kinds[pi].ids, MAX_ID);
      var bits := Holding(sets[di].kinds[pi].ids);
      runs := bits.ToRangestring();
    }
  }

  lemma NoEntries(table: seq<Domain>, sets: seq<DomainSet>, filter: int, exclude: bool, more: bool)
    ensures Entries(sets, filter, exclude, 0) == [] && InTable(table, []) && Text(table, [], more) == ""
  {
  }

  lemma NoKinds(sets: seq<DomainSet>, d: nat)
    requires d < |sets|
    ensures KindEntries(sets, d, 0) == []
  {
  }

  lemma MoreKinds(sets: seq<DomainSet>, d: nat, k: nat)
    requires Slot(sets, d, k)
    ensures KindEntries(sets, d, k + 1) ==
            KindEntries(sets, d, k) + (if sets[d].kinds[k].flag then [Entry(d, k, sets[d].kinds[k].ids)] else [])
  {
  }

  lemma MoreEntries(sets: seq<DomainSet>, filter: int, exclude: bool, d: nat)
    requires d < |sets|
    ensures Entries(sets, filter, exclude, d + 1) ==
            Entries(sets, filter, exclude, d) +
            (if Shown(filter, exclude, d) && sets[d].flag then KindEntries(sets, d, |sets[d].kinds|) else [])
  {
  }

  lemma MoreText(table: seq<Domain>, es: seq<Entry>, e: Entry, printed: bool)
    requires InTable(table, es) && e.d < |table| && e.k < |table[e.d].kinds|
    ensures InTable(table, es + [e])
    ensures Text(table, es + [e], printed) ==
            Text(table, es, printed) + (if printed || es != [] then ", " else "") + PieceText(table, e)
  {
    hide PieceText;
    assert (es + [e])[..|es|] == es;
  }

  // ---------- Finding the configuration of a section ----------

  ghost predicate RowWithin(row: DomainSet) {
    forall k, x :: 0 <= k < |row.kinds| && x in row.kinds[k].ids ==> x <= MAX_ID
  }

  /** What find_exact_punit_config compares: the flags, and the flagged kinds' ids by bitset_equal. */
  ghost predicate Matches(a: DomainSet, b: DomainSet) {
    && a.flag && b.flag && |a.kinds| == |b.kinds|
    && forall k :: 0 <= k < |a.kinds| ==>
         && a.kinds[k].flag == b.kinds[k].flag
         && (a.kinds[k].flag ==> AgreeBelow(a.kinds[k].ids, b.kinds[k].ids, ComparedBits(MAX_ID)))
  }

  /** The same kinds with the same ids. */
  ghost predicate SameRow(a: DomainSet, b: DomainSet) {
    && a.flag && b.flag && |a.kinds| == |b.kinds|
    && forall k :: 0 <= k < |a.kinds| ==>
         && a.kinds[k].flag == b.kinds[k].flag
         && (a.kinds[k].flag ==> a.kinds[k].ids == b.kinds[k].ids)
  }

  ghost predicate AgreeOnLast(a: DomainSet, b: DomainSet) {
    forall k :: 0 <= k < |a.kinds| && k < |b.kinds| && a.kinds[k].flag ==>
      (MAX_ID in a.kinds[k].ids <==> MAX_ID in b.kinds[k].ids)
  }

  /** The comparison is exact up to the id 1024, which bitset_equal does not look at. */
  lemma MatchesExactly(a: DomainSet, b: DomainSet)
    requires RowWithin(a) && RowWithin(b)
    ensures SameRow(a, b) <==> Matches(a, b) && AgreeOnLast(a, b)
  {
    if Matches(a, b) && AgreeOnLast(a, b) {
      forall k | 0 <= k < |a.kinds| && a.kinds[k].flag ensures a.kinds[k].ids == b.kinds[k].ids {
        forall x ensures x in a.kinds[k].ids <==> x in b.kinds[k].ids {
          assert x < MAX_ID || x == MAX_ID || (x !in a.kinds[k].ids && x !in b.kinds[k].ids);
        }
      }
    }
  }

  /** Rows that differ in the id 1024 alone are taken for the same. */
  lemma LastIdIsMissed()
    ensures var a, b := DomainSet(true, [KindSet(true, {})]), DomainSet(true, [KindSet(true, {MAX_ID})]);
            Matches(a, b) && !SameRow(a, b)
  {
    var a, b := DomainSet(true, [KindSet(true, {})]), DomainSet(true, [KindSet(true, {MAX_ID})]);
    assert MAX_ID in b.kinds[0].ids && MAX_ID !in a.kinds[0].ids;
  }

  method SameIds(a: set<nat>, b: set<nat>) returns (same: bool)
    requires forall x :: x in a || x in b ==> x <= MAX_ID
    ensures same <==> AgreeBelow(a, b, ComparedBits(MAX_ID))
  {
    var x := Holding(a);
    var y := Holding(b);
    same := x.Equal(y);
  }

  /** One turn of the list walk, the loop over the kinds. */
  method RowsMatch(a: DomainSet, b: DomainSet) returns (matching: bool)
    requires RowWithin(a) && RowWithin(b) && |a.kinds| == |b.kinds|
    ensures matching <==> Matches(a, b)
  {
    if !(a.flag && b.flag) {
      return false;
    }
    for k := 0 to |a.kinds|
      invariant forall l :: 0 <= l < k ==>
                  && a.kinds[l].flag == b.kinds[l].flag
                  && (a.kinds[l].flag ==> AgreeBelow(a.kinds[l].ids, b.kinds[l].ids, ComparedBits(MAX_ID)))
    {
      if a.kinds[k].flag != b.kinds[k].flag {
        return false;
      }
      if a.kinds[k].flag {
        var same := SameIds(a.kinds[k].ids, b.kinds[k].ids);
        if !same {
          return false;
        }
      }
    }
    return true;
  }

  /** find_exact_punit_config: `configs` are the rows that the domain's configurations have for
      their own domain, in list order; the row of `target` compared is the domain's. */
  method FindExactPunitConfig(configs: seq<DomainSet>, domain: nat, target: seq<DomainSet>) returns (r: int)
    requires domain < |target| && RowWithin(target[domain])
    requires forall c :: c in configs ==> RowWithin(c) && |c.kinds| == |target[domain].kinds|
    ensures -1 <= r < |configs|
    ensures r >= 0 ==> Matches(configs[r], target[domain])
    ensures forall i :: 0 <= i < (if r == -1 then |configs| else r) ==> !Matches(configs[i], target[domain])
  {
    hide Matches, RowWithin;
    for i := 0 to |configs|
      invariant forall j :: 0 <= j < i ==> !Matches(configs[j], target[domain])
    {
      var same := RowsMatch(configs[i], target[domain]);
      if same {
        return i;
      }
    }
    return -1;
  }

  ghost predicate Finds(configs: seq<DomainSet>, domain: nat, target: seq<DomainSet>)
    requires domain < |target|
  {
    exists i :: 0 <= i < |configs| && Matches(configs[i], target[domain])
  }

  /** The section parser hands over the array from the row of its first domain on, so the row
      compared is twice as far down. It finds what it should, whatever the configurations, exactly
      when that row matches the domain's own. */
  lemma SectionFindsItsConfig(temp: seq<DomainSet>, d: nat)
    requires d + d < |temp| && temp[d].flag
    ensures (forall configs: seq<DomainSet> :: Finds(configs, d, temp[d..]) <==> Finds(configs, d, temp))
            <==> Matches(temp[d], temp[d + d])
  {
    assert temp[d..][d] == temp[d + d];
    if Matches(temp[d], temp[d + d]) {
      forall configs: seq<DomainSet> ensures Finds(configs, d, temp[d..]) <==> Finds(configs, d, temp) {
        forall i | 0 <= i < |configs| ensures Matches(configs[i], temp[d + d]) <==> Matches(configs[i], temp[d]) {
          MatchesIsEquivalence(configs[i], temp[d], temp[d + d]);
        }
      }
    } else {
      var own := [temp[d]];
      assert Matches(own[0], temp[d]);
      assert Finds(own, d, temp);
      assert !Finds(own, d, temp[d..]);
    }
  }

  lemma MatchesIsEquivalence(a: DomainSet, b: DomainSet, c: DomainSet)
    requires Matches(b, c)
    ensures Matches(a, b) <==> Matches(a, c)
  {
    hide AgreeBelow;
    forall x: set<nat>, y: set<nat>, z: set<nat>, n: nat | AgreeBelow(y, z, n) ensures AgreeBelow(x, y, n) <==> AgreeBelow(x, z, n) {
      AgreementTransfers(x, y, z, n);
    }
  }

  lemma AgreementTransfers(x: set<nat>, y: set<nat>, z: set<nat>, n: nat)
    requires AgreeBelow(y, z, n)
    ensures AgreeBelow(x, y, n) <==> AgreeBelow(x, z, n)
  {
  }

  /** A section that names one domain: it finds the configuration it opened exactly when the domain
      is the first of the table. */
  lemma OneDomainSection(temp: seq<DomainSet>, d: nat)
    requires d + d < |temp| && temp[d].flag && forall e :: 0 <= e < |temp| && e != d ==> !temp[e].flag
    ensures (forall configs: seq<DomainSet> :: Finds(configs, d, temp[d..]) <==> Finds(configs, d, temp)) <==> d == 0
    ensures d > 0 ==> forall configs: seq<DomainSet> :: !Finds(configs, d, temp[d..])
  {
    SectionFindsItsConfig(temp, d);
    assert temp[d..][d] == temp[d + d];
    assert Matches(temp[d], temp[d]);
  }

  /** The second of three domains: its configuration is there, and the section does not find it. */
  lemma SecondDomainIsMissed()
    ensures var off, row := DomainSet(false, [KindSet(false, {})]), DomainSet(true, [KindSet(true, {0})]);
            var temp, configs := [off, row, off], [row];
            Finds(configs, 1, temp) && !Finds(configs, 1, temp[1..])
  {
    var off, row := DomainSet(false, [KindSet(false, {})]), DomainSet(true, [KindSet(true, {0})]);
    var temp, configs := [off, row, off], [row];
    assert Matches(configs[0], temp[1]);
    assert temp[1..][1] == off;
  }
}
