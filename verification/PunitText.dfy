/** The text form of a punit set, "Domain.kind(0-3,8), Domain.kind(1)": how
    src/trace_config.c prints it and src/trace_config_parse.c reads it, on top of the ranges of
    src/bitset.c. A punit set's ids are kept here as the set that module BitSets shows a bitset to be. */
module PunitText {
  import opened RangeText
  import opened BitSets

  // ---------- The domain table and the sets ----------

  datatype Kind = Kind(name: string, low: int, high: int)

  datatype Domain = Domain(name: string, kinds: seq<Kind>)

  datatype KindSet = KindSet(flag: bool, ids: set<nat>)

  datatype DomainSet = DomainSet(flag: bool, kinds: seq<KindSet>)

  const MAX_ID: nat := 1024   // the size every punit bitset is created with
  const NAME_SIZE: nat := 32  // char domain_name[32], char punit_kind[32]

  ghost predicate Shape(table: seq<Domain>, sets: seq<DomainSet>) {
    && |sets| == |table|
    && forall d :: 0 <= d < |table| ==> |sets[d].kinds| == |table[d].kinds|
  }

  ghost predicate WithinBitset(sets: seq<DomainSet>) {
    forall d, k, x :: 0 <= d < |sets| && 0 <= k < |sets[d].kinds| && x in sets[d].kinds[k].ids ==> x <= MAX_ID
  }

  ghost predicate Slot(sets: seq<DomainSet>, d: int, k: int) {
    0 <= d < |sets| && 0 <= k < |sets[d].kinds|
  }

  function Empty(table: seq<Domain>): (sets: seq<DomainSet>)
    ensures Shape(table, sets) && WithinBitset(sets)
  {
    seq(|table|, d requires 0 <= d < |table| => DomainSet(false, seq(|table[d].kinds|, k => KindSet(false, {}))))
  }

  function Put(sets: seq<DomainSet>, d: nat, k: nat, ids: set<nat>): seq<DomainSet>
    requires Slot(sets, d, k)
  {
    sets[d := DomainSet(true, sets[d].kinds[k := KindSet(true, ids)])]
  }

  // ---------- Reading ----------

  predicate IsLead(c: char) { c == '.' || IsSpace(c) }

  function SkipLead(s: string, p: nat): (q: nat)
    requires p <= |s|
    ensures p <= q <= |s| && (q == |s| || !IsLead(s[q]))
    ensures forall k :: p <= k < q ==> IsLead(s[k])
    decreases |s| - p
  {
    if p < |s| && IsLead(s[p]) then SkipLead(s, p + 1) else p
  }

  /** strchr: the first c from p on, or the end of the string when there is none. */
  function Find(s: string, p: nat, c: char): (q: nat)
    requires p <= |s|
    ensures p <= q <= |s| && (q < |s| ==> s[q] == c)
    ensures forall k :: p <= k < q ==> s[k] != c
    decreases |s| - p
  {
    if p < |s| && s[p] != c then Find(s, p + 1, c) else p
  }

  /** A name as copied into its buffer. */
  function Copied(name: string): (r: string)
    ensures r <= name && |r| == if |name| < NAME_SIZE then |name| else NAME_SIZE - 1
  {
    if |name| >= NAME_SIZE then name[..NAME_SIZE - 1] else name
  }

  function DomainFrom(table: seq<Domain>, name: string, i: nat): (r: int)
    requires i <= |table|
    ensures r == -1 || (i <= r < |table| && table[r].name == name)
    ensures forall j :: i <= j < (if r == -1 then |table| else r) ==> table[j].name != name
    decreases |table| - i
  {
    if i == |table| then -1 else if table[i].name == name then i else DomainFrom(table, name, i + 1)
  }

  function KindFrom(kinds: seq<Kind>, name: string, i: nat): (r: int)
    requires i <= |kinds|
    ensures r == -1 || (i <= r < |kinds| && kinds[r].name == name)
    ensures forall j :: i <= j < (if r == -1 then |kinds| else r) ==> kinds[j].name != name
    decreases |kinds| - i
  {
    if i == |kinds| then -1 else if kinds[i].name == name then i else KindFrom(kinds, name, i + 1)
  }

  /** Where "domain.kind(ids)" has its delimiters, read from position a on. */
  datatype Piece = NoPiece | Piece(dot: nat, paren: nat, close: nat)

  function PieceAt(s: string, a: nat): (r: Piece)
    requires a <= |s|
    ensures r.Piece? ==> a <= r.dot < r.paren < r.close < |s|
  {
    var dot := Find(s, a, '.');
    if dot == |s| then NoPiece else
    var paren := Find(s, dot + 1, '(');
    if paren == |s| then NoPiece else
    var close := Find(s, paren + 1, ')');
    if close == |s| then NoPiece else Piece(dot, paren, close)
  }

  /** What the range check leaves of the listed ids. */
  ghost function Kept(ids: set<nat>, low: int, high: int): set<nat> {
    set x | x in ids && (low <= x <= high || x >= MAX_ID)
  }

  datatype Parsed = Parsed(ok: bool, sets: seq<DomainSet>)

  /** Store the ids of one piece; an unknown domain or kind is skipped. */
  ghost function Store(table: seq<Domain>, domain: string, kind: string, text: string, sets: seq<DomainSet>): (r: Parsed)
    requires Shape(table, sets)
    ensures Shape(table, r.sets)
  {
    var d := DomainFrom(table, domain, 0);
    if d == -1 then Parsed(true, sets) else
    var k := KindFrom(table[d].kinds, kind, 0);
    if k == -1 then Parsed(true, sets) else
    var read := ParseFrom(text, 0, MAX_ID, {});
    var it := table[d].kinds[k];
    Parsed(read.ok, Put(sets, d, k, if read.ok then Kept(read.bits, it.low, it.high) else read.bits))
  }

  ghost function StorePiece(table: seq<Domain>, s: string, a: nat, piece: Piece, sets: seq<DomainSet>): (r: Parsed)
    requires Shape(table, sets) && piece.Piece? && a <= piece.dot < piece.paren < piece.close < |s|
    ensures Shape(table, r.sets)
  {
    Store(table, Copied(s[a..piece.dot]), Copied(s[piece.dot + 1..piece.paren]), s[piece.paren + 1..piece.close], sets)
  }

  /** parse_punit_set_string from position p on. */
  ghost function ParseSpec(table: seq<Domain>, s: string, p: nat, sets: seq<DomainSet>): (r: Parsed)
    requires p <= |s| && Shape(table, sets)
    ensures Shape(table, r.sets)
    decreases |s| - p
  {
    var a := SkipLead(s, p);
    if a == |s| then Parsed(true, sets) else
    var piece := PieceAt(s, a);
    if piece.NoPiece? then Parsed(false, sets) else
    var next := StorePiece(table, s, a, piece, sets);
    if !next.ok then next else
    var q := SkipWhile(s, piece.close + 1, Spaces);
    if q == |s| then next
    else if s[q] == ',' then ParseSpec(table, s, q + 1, next.sets)
    else Parsed(false, next.sets)
  }

  // ---------- What reading keeps ----------

  ghost predicate SomeKind(row: DomainSet) {
    exists k :: 0 <= k < |row.kinds| && row.kinds[k].flag
  }

  /** A domain is flagged exactly when one of its kinds is, and only flagged kinds have ids. */
  ghost predicate FlagsAgree(sets: seq<DomainSet>) {
    && (forall d :: 0 <= d < |sets| ==> (sets[d].flag <==> SomeKind(sets[d])))
    && (forall d, k :: Slot(sets, d, k) ==> sets[d].kinds[k].flag || sets[d].kinds[k].ids == {})
  }

  ghost predicate InLimits(ids: set<nat>, it: Kind) {
    forall x :: x in ids ==> it.low <= x <= it.high
  }

  ghost predicate AllInLimits(table: seq<Domain>, sets: seq<DomainSet>)
    requires Shape(table, sets)
  {
    forall d, k :: Slot(sets, d, k) ==> InLimits(sets[d].kinds[k].ids - {MAX_ID}, table[d].kinds[k])
  }

  lemma ParsedWithin(text: string)
    ensures forall x :: x in ParseFrom(text, 0, MAX_ID, {}).bits ==> x <= MAX_ID
  {
    ParseStaysWithin(text, 0, MAX_ID, {});
  }

  lemma {:induction false} ParseStaysWithin(s: string, p: nat, nbits: nat, bits: set<nat>)
    requires p <= |s| && forall x :: x in bits ==> x <= nbits
    ensures forall x :: x in ParseFrom(s, p, nbits, bits).bits ==> x <= nbits
    decreases |s| - p
  {
    hide ParseItem, SkipWhile;
    ParseUnfold(s, p, nbits, bits);
    var a := SkipWhile(s, p, Seps);
    if a < |s| {
      var (hi, lo) := ParseItem(s, a);
      if hi.Number? && lo <= hi.value <= nbits {
        var c := SkipWhile(s, hi.pos, Spaces);
        if c < |s| && s[c] == ',' {
          ParseStaysWithin(s, c + 1, nbits, bits + Span(lo, hi.value));
        }
      }
    }
  }

  lemma StoreKeeps(table: seq<Domain>, domain: string, kind: string, text: string, sets: seq<DomainSet>)
    requires Shape(table, sets) && WithinBitset(sets) && FlagsAgree(sets)
    ensures var r := Store(table, domain, kind, text, sets);
            && WithinBitset(r.sets) && FlagsAgree(r.sets)
            && (r.ok && AllInLimits(table, sets) ==> AllInLimits(table, r.sets))
  {
    hide ParseFrom;
    ParsedWithin(text);
    var r := Store(table, domain, kind, text, sets);
    forall d | 0 <= d < |sets| ensures r.sets[d].flag <==> SomeKind(r.sets[d]) {
      if r.sets[d] != sets[d] {
        var k := KindFrom(table[d].kinds, kind, 0);
        assert r.sets[d].kinds[k].flag;
      }
    }
  }

  lemma StorePieceKeeps(table: seq<Domain>, s: string, a: nat, piece: Piece, sets: seq<DomainSet>)
    requires Shape(table, sets) && WithinBitset(sets) && FlagsAgree(sets)
    requires piece.Piece? && a <= piece.dot < piece.paren < piece.close < |s|
    ensures var r := StorePiece(table, s, a, piece, sets);
            && WithinBitset(r.sets) && FlagsAgree(r.sets)
            && (r.ok && AllInLimits(table, sets) ==> AllInLimits(table, r.sets))
  {
    hide Store, FlagsAgree, WithinBitset, AllInLimits, Copied;
    StoreKeeps(table, Copied(s[a..piece.dot]), Copied(s[piece.dot + 1..piece.paren]), s[piece.paren + 1..piece.close], sets);
  }

  /** One turn of the reader's loop. */
  lemma SpecUnfold(table: seq<Domain>, s: string, p: nat, sets: seq<DomainSet>)
    requires p <= |s| && Shape(table, sets)
    ensures var r, a := ParseSpec(table, s, p, sets), SkipLead(s, p);
            if a == |s| then r == Parsed(true, sets) else
            var piece := PieceAt(s, a);
            if piece.NoPiece? then r == Parsed(false, sets) else
            var next, q := StorePiece(table, s, a, piece, sets), SkipWhile(s, piece.close + 1, Spaces);
            r == if !next.ok || q == |s| then next
                 else if s[q] == ',' then ParseSpec(table, s, q + 1, next.sets)
                 else Parsed(false, next.sets)
  {
    hide SkipLead, PieceAt, StorePiece, SkipWhile;
  }

  /** Whatever the text, reading it keeps flags and kinds in step and ids inside the bitsets;
      an accepted text leaves only ids inside the kinds' limits, or the id 1024. */
  lemma {:induction false} ParseKeeps(table: seq<Domain>, s: string, p: nat, sets: seq<DomainSet>)
    requires p <= |s| && Shape(table, sets) && WithinBitset(sets) && FlagsAgree(sets)
    ensures var r := ParseSpec(table, s, p, sets);
            && WithinBitset(r.sets) && FlagsAgree(r.sets)
            && (r.ok && AllInLimits(table, sets) ==> AllInLimits(table, r.sets))
    decreases |s| - p
  {
    hide ParseSpec, SkipLead, SkipWhile, PieceAt, StorePiece, FlagsAgree, WithinBitset, AllInLimits;
    SpecUnfold(table, s, p, sets);
    var a := SkipLead(s, p);
    if a < |s| {
      var piece := PieceAt(s, a);
      if piece.Piece? {
        var next := StorePiece(table, s, a, piece, sets);
        StorePieceKeeps(table, s, a, piece, sets);
        var q := SkipWhile(s, piece.close + 1, Spaces);
        if next.ok && q < |s| && s[q] == ',' {
          ParseKeeps(table, s, q + 1, next.sets);
        }
      }
    }
  }

  ghost predicate FlagsStay(before: seq<DomainSet>, after: seq<DomainSet>) {
    forall d, k :: Slot(before, d, k) && before[d].kinds[k].flag ==> Slot(after, d, k) && after[d].kinds[k].flag
  }

  /** A piece with known names flags its kind and leaves the ids it lists: those that pass the range
      check, or all that were read when the list is faulty. Nothing else changes. */
  lemma StoredPiece(table: seq<Domain>, domain: string, kind: string, text: string, sets: seq<DomainSet>, d: nat, k: nat)
    requires Shape(table, sets) && Slot(sets, d, k) && table[d].name == domain && table[d].kinds[k].name == kind
    requires forall e :: 0 <= e < d ==> table[e].name != domain
    requires forall l :: 0 <= l < k ==> table[d].kinds[l].name != kind
    ensures var r, read := Store(table, domain, kind, text, sets), ParseFrom(text, 0, MAX_ID, {});
            && r.ok == read.ok && Slot(r.sets, d, k) && r.sets[d].flag && r.sets[d].kinds[k].flag
            && (forall x :: x in r.sets[d].kinds[k].ids <==>
                  x in read.bits && (!read.ok || x >= MAX_ID || table[d].kinds[k].low <= x <= table[d].kinds[k].high))
            && (forall e, l :: Slot(sets, e, l) && (e != d || l != k) ==> Slot(r.sets, e, l) && r.sets[e].kinds[l] == sets[e].kinds[l])
            && (forall e :: 0 <= e < |sets| && e != d ==> r.sets[e] == sets[e])
  {
    hide ParseFrom;
  }

  lemma StoreKeepsFlags(table: seq<Domain>, domain: string, kind: string, text: string, sets: seq<DomainSet>)
    requires Shape(table, sets)
    ensures FlagsStay(sets, Store(table, domain, kind, text, sets).sets)
  {
    hide ParseFrom, Kept;
  }

  /** Reading takes no flag back, even if a later piece is faulty. */
  lemma {:induction false} ReadingKeepsFlags(table: seq<Domain>, s: string, p: nat, sets: seq<DomainSet>)
    requires p <= |s| && Shape(table, sets)
    ensures FlagsStay(sets, ParseSpec(table, s, p, sets).sets)
    decreases |s| - p
  {
    hide ParseSpec, SkipLead, SkipWhile, PieceAt, Store, Copied;
    SpecUnfold(table, s, p, sets);
    var a := SkipLead(s, p);
    if a < |s| {
      var piece := PieceAt(s, a);
      if piece.Piece? {
        var next := StorePiece(table, s, a, piece, sets);
        StoreKeepsFlags(table, Copied(s[a..piece.dot]), Copied(s[piece.dot + 1..piece.paren]), s[piece.paren + 1..piece.close], sets);
        var q := SkipWhile(s, piece.close + 1, Spaces);
        if next.ok && q < |s| && s[q] == ',' {
          ReadingKeepsFlags(table, s, q + 1, next.sets);
        }
      }
    }
  }

  /** The range check does its work exactly when the id 1024 is not listed or is allowed: its
      loop stops at 1023, one short of the bitset's last index. */
  lemma LimitsHoldExactly(ids: set<nat>, it: Kind)
    requires forall x :: x in ids ==> x <= MAX_ID
    ensures InLimits(Kept(ids, it.low, it.high), it) <==> MAX_ID !in ids || it.low <= MAX_ID <= it.high
  {
    if MAX_ID in ids {
      assert MAX_ID in Kept(ids, it.low, it.high);
    }
  }

  // ---------- Which texts are read, and as what ----------

  /** "domain.kind(ids)", as written. */
  datatype Listed = Listed(domain: string, kind: string, ids: string)

  /** s[p..a] is dots and spaces. */
  ghost predicate Leads(s: string, p: nat, a: nat) {
    p <= a <= |s| && forall k :: p <= k < a ==> s[k] == '.' || IsSpace(s[k])
  }

  /** s[a..q] is free of c, and c follows. */
  ghost predicate UpTo(s: string, a: nat, q: nat, c: char) {
    a <= q < |s| && s[q] == c && forall k :: a <= k < q ==> s[k] != c
  }

  /** s[a..close + 1] is this piece. */
  ghost predicate PieceIs(s: string, a: nat, at: Piece, l: Listed) {
    && at.Piece? && UpTo(s, a, at.dot, '.') && UpTo(s, at.dot + 1, at.paren, '(') && UpTo(s, at.paren + 1, at.close, ')')
    && l == Listed(s[a..at.dot], s[at.dot + 1..at.paren], s[at.paren + 1..at.close])
  }

  /** s[p..]: dots and spaces, a piece that begins with neither, spaces, and either the end or a comma
      at c and the remaining pieces. */
  ghost predicate ListsVia(s: string, p: nat, ls: seq<Listed>, a: nat, at: Piece, c: nat)
    requires ls != []
    decreases |ls|, 0
  {
    && Leads(s, p, a) && a < |s| && s[a] != '.' && !IsSpace(s[a]) && PieceIs(s, a, at, ls[0])
    && All(s, at.close + 1, c, Spaces)
    && (|| (c == |s| && |ls| == 1)
        || (c < |s| && s[c] == ',' && Lists(s, c + 1, ls[1..])))
  }

  /** s[p..] lists these pieces, separated by commas. */
  ghost predicate Lists(s: string, p: nat, ls: seq<Listed>)
    decreases |ls|, 1
  {
    if ls == [] then Leads(s, p, |s|)
    else exists a: nat, at: Piece, c: nat :: ListsVia(s, p, ls, a, at, c)
  }

  /** Store the pieces one after another, up to the first with a faulty list of ids. */
  ghost function StoreAll(table: seq<Domain>, ls: seq<Listed>, sets: seq<DomainSet>): (r: Parsed)
    requires Shape(table, sets)
    ensures Shape(table, r.sets)
  {
    if ls == [] then Parsed(true, sets) else
    var r := StoreListed(table, ls[0], sets);
    if r.ok then StoreAll(table, ls[1..], r.sets) else r
  }

  ghost function StoreListed(table: seq<Domain>, l: Listed, sets: seq<DomainSet>): (r: Parsed)
    requires Shape(table, sets)
    ensures Shape(table, r.sets)
  {
    Store(table, Copied(l.domain), Copied(l.kind), l.ids, sets)
  }

  lemma FindsAtOnce(s: string, a: nat, q: nat, c: char)
    requires UpTo(s, a, q, c)
    ensures Find(s, a, c) == q
  {
    hide Find;
  }

  /** The reader finds the piece that is there. */
  lemma TurnFinds(s: string, p: nat, ls: seq<Listed>) returns (a: nat, at: Piece, c: nat)
    requires p <= |s| && ls != [] && Lists(s, p, ls)
    ensures a < |s| && SkipLead(s, p) == a && PieceAt(s, a) == at && PieceIs(s, a, at, ls[0])
    ensures at.close + 1 <= |s| && SkipWhile(s, at.close + 1, Spaces) == c
    ensures if c == |s| then ls[1..] == [] else s[c] == ',' && Lists(s, c + 1, ls[1..])
  {
    hide SkipLead, SkipWhile, Find;
    a, at, c :| ListsVia(s, p, ls, a, at, c);
    FindsAtOnce(s, a, at.dot, '.');
    FindsAtOnce(s, at.dot + 1, at.paren, '(');
    FindsAtOnce(s, at.paren + 1, at.close, ')');
  }

  /** One turn of the reader's loop, by the piece it finds. */
  lemma TurnReads(table: seq<Domain>, s: string, p: nat, a: nat, at: Piece, c: nat, l: Listed, sets: seq<DomainSet>)
    requires p <= |s| && Shape(table, sets) && SkipLead(s, p) == a < |s| && PieceAt(s, a) == at && PieceIs(s, a, at, l)
    requires SkipWhile(s, at.close + 1, Spaces) == c
    ensures var r, next := ParseSpec(table, s, p, sets), StoreListed(table, l, sets);
            r == if !next.ok || c == |s| then next
                 else if s[c] == ',' then ParseSpec(table, s, c + 1, next.sets)
                 else Parsed(false, next.sets)
  {
    hide ParseSpec, SkipLead, SkipWhile, PieceAt, Store, Copied, UpTo;
    SpecUnfold(table, s, p, sets);
  }

  lemma StoreCons(table: seq<Domain>, l: Listed, rest: seq<Listed>, sets: seq<DomainSet>)
    requires Shape(table, sets)
    ensures var first := StoreListed(table, l, sets);
            StoreAll(table, [l] + rest, sets) == if first.ok then StoreAll(table, rest, first.sets) else first
  {
    hide StoreListed;
    var ls := [l] + rest;
    assert ls[0] == l && ls[1..] == rest;
  }

  lemma NothingListed(table: seq<Domain>, s: string, p: nat, sets: seq<DomainSet>)
    requires p <= |s| && Shape(table, sets)
    ensures StoreAll(table, [], sets) == Parsed(true, sets)
    ensures Lists(s, p, []) ==> ParseSpec(table, s, p, sets) == Parsed(true, sets)
  {
    hide SkipLead, PieceAt, SkipWhile, Store;
  }

  lemma {:induction false} ReadsListed(table: seq<Domain>, s: string, p: nat, ls: seq<Listed>, sets: seq<DomainSet>)
    requires p <= |s| && Shape(table, sets) && Lists(s, p, ls) && StoreAll(table, ls, sets).ok
    ensures ParseSpec(table, s, p, sets) == StoreAll(table, ls, sets)
    decreases |ls|
  {
    hide *;
    if ls == [] {
      NothingListed(table, s, p, sets);
    } else {
      var a, at, c := TurnFinds(s, p, ls);
      TurnReads(table, s, p, a, at, c, ls[0], sets);
      assert ls == [ls[0]] + ls[1..];
      StoreCons(table, ls[0], ls[1..], sets);
      var next := StoreListed(table, ls[0], sets).sets;
      if c < |s| {
        ReadsListed(table, s, c + 1, ls[1..], next);
      } else {
        NothingListed(table, s, p, next);
      }
    }
  }

  /** The piece the reader has found. */
  ghost function PieceOf(s: string, a: nat, at: Piece): Listed
    requires at.Piece? && a <= at.dot < at.paren < at.close < |s|
  {
    Listed(s[a..at.dot], s[at.dot + 1..at.paren], s[at.paren + 1..at.close])
  }

  lemma FoundPiece(s: string, a: nat)
    requires a <= |s| && PieceAt(s, a).Piece?
    ensures PieceIs(s, a, PieceAt(s, a), PieceOf(s, a, PieceAt(s, a)))
  {
    hide Find;
  }

  lemma ConsLists(s: string, p: nat, a: nat, at: Piece, c: nat, l: Listed, rest: seq<Listed>)
    requires p <= |s| && SkipLead(s, p) == a < |s| && PieceIs(s, a, at, l) && SkipWhile(s, at.close + 1, Spaces) == c
    requires if c == |s| then rest == [] else s[c] == ',' && Lists(s, c + 1, rest)
    ensures Lists(s, p, [l] + rest)
  {
    hide SkipLead, SkipWhile, UpTo;
    var ls := [l] + rest;
    assert ls[1..] == rest;
    assert ListsVia(s, p, ls, a, at, c);
  }

  lemma AcceptedTurn(table: seq<Domain>, s: string, p: nat, sets: seq<DomainSet>)
    requires p <= |s| && Shape(table, sets) && ParseSpec(table, s, p, sets).ok
    ensures var a := SkipLead(s, p);
            if a == |s| then Lists(s, p, []) && ParseSpec(table, s, p, sets) == StoreAll(table, [], sets)
            else PieceAt(s, a).Piece? && PieceIs(s, a, PieceAt(s, a), PieceOf(s, a, PieceAt(s, a)))
  {
    hide ParseSpec, SkipLead, SkipWhile, PieceAt, PieceIs, StorePiece;
    SpecUnfold(table, s, p, sets);
    var a := SkipLead(s, p);
    if a < |s| {
      FoundPiece(s, a);
    }
  }

  lemma {:induction false} ReadIsListed(table: seq<Domain>, s: string, p: nat, sets: seq<DomainSet>) returns (ls: seq<Listed>)
    requires p <= |s| && Shape(table, sets) && ParseSpec(table, s, p, sets).ok
    ensures Lists(s, p, ls) && StoreAll(table, ls, sets) == ParseSpec(table, s, p, sets)
    decreases |s| - p
  {
    hide *;
    AcceptedTurn(table, s, p, sets);
    var a := SkipLead(s, p);
    ls := [];
    if a < |s| {
      var at := PieceAt(s, a);
      var l, c := PieceOf(s, a, at), SkipWhile(s, at.close + 1, Spaces);
      TurnReads(table, s, p, a, at, c, l, sets);
      var next := StoreListed(table, l, sets).sets;
      if c < |s| {
        ls := ReadIsListed(table, s, c + 1, next);
      } else {
        NothingListed(table, s, p, next);
      }
      ConsLists(s, p, a, at, c, l, ls);
      StoreCons(table, l, ls, sets);
      ls := [l] + ls;
    }
  }

  /** A text is accepted exactly when it lists pieces whose ids can be read, and then it stores them in
      order. */
  lemma SpecDecides(table: seq<Domain>, s: string, sets: seq<DomainSet>, r: seq<DomainSet>)
    requires Shape(table, sets)
    ensures ParseSpec(table, s, 0, sets) == Parsed(true, r) <==>
            exists ls :: Lists(s, 0, ls) && StoreAll(table, ls, sets) == Parsed(true, r)
  {
    hide ParseSpec, Lists, StoreAll;
    if ParseSpec(table, s, 0, sets) == Parsed(true, r) {
      var ls := ReadIsListed(table, s, 0, sets);
    }
    if ls :| Lists(s, 0, ls) && StoreAll(table, ls, sets) == Parsed(true, r) {
      ReadsListed(table, s, 0, ls, sets);
    }
  }

  // ---------- Writing ----------

  predicate Shown(filter: int, exclude: bool, d: int) {
    filter < 0 || (if exclude then d != filter else d == filter)
  }

  ghost predicate Wanted(sets: seq<DomainSet>, filter: int, exclude: bool, d: int, k: int) {
    Slot(sets, d, k) && Shown(filter, exclude, d) && sets[d].flag && sets[d].kinds[k].flag
  }

  /** A filter splits what is printed without one into the kinds of that domain and all others. */
  lemma FiltersSplit(sets: seq<DomainSet>, filter: nat, exclude: bool, d: nat, k: nat)
    ensures Wanted(sets, -1, exclude, d, k) <==> d < |sets| && k < |sets[d].kinds| && sets[d].flag && sets[d].kinds[k].flag
    ensures Wanted(sets, filter, false, d, k) <==> Wanted(sets, -1, exclude, d, k) && d == filter
    ensures Wanted(sets, filter, true, d, k) <==> Wanted(sets, -1, exclude, d, k) && d != filter
  {
  }

  /** A printed piece: which kind, and its ids. */
  datatype Entry = Entry(d: nat, k: nat, ids: set<nat>)

  ghost predicate Describes(sets: seq<DomainSet>, e: Entry) {
    Slot(sets, e.d, e.k) && e.ids == sets[e.d].kinds[e.k].ids
  }

  ghost predicate Mentions(es: seq<Entry>, d: int, k: int) {
    exists i :: 0 <= i < |es| && es[i].d == d && es[i].k == k
  }

  /** The flagged kinds of domain d below kind n. */
  ghost function KindEntries(sets: seq<DomainSet>, d: nat, n: nat): (es: seq<Entry>)
    requires d < |sets| && n <= |sets[d].kinds|
    ensures forall i :: 0 <= i < |es| ==> es[i].d == d && es[i].k < n
  {
    if n == 0 then []
    else KindEntries(sets, d, n - 1) +
         (if sets[d].kinds[n - 1].flag then [Entry(d, n - 1, sets[d].kinds[n - 1].ids)] else [])
  }

  /** The pieces to print: the flagged kinds of the shown, flagged domains below n, in table order. */
  ghost function Entries(sets: seq<DomainSet>, filter: int, exclude: bool, n: nat): (es: seq<Entry>)
    requires n <= |sets|
  {
    if n == 0 then []
    else Entries(sets, filter, exclude, n - 1) +
         (if Shown(filter, exclude, n - 1) && sets[n - 1].flag
          then KindEntries(sets, n - 1, |sets[n - 1].kinds|) else [])
  }

  lemma {:induction false} KindsListed(sets: seq<DomainSet>, d: nat, n: nat, es: seq<Entry>)
    requires d < |sets| && n <= |sets[d].kinds| && es == KindEntries(sets, d, n)
    ensures forall i :: 0 <= i < |es| ==> es[i].d == d && Describes(sets, es[i]) && sets[d].kinds[es[i].k].flag
    ensures forall k :: 0 <= k < n && sets[d].kinds[k].flag ==> Mentions(es, d, k)
  {
    if n > 0 {
      var init := KindEntries(sets, d, n - 1);
      KindsListed(sets, d, n - 1, init);
      forall k | 0 <= k < n && sets[d].kinds[k].flag ensures Mentions(es, d, k) {
        if k == n - 1 {
          assert es[|init|].d == d && es[|init|].k == k;
        } else {
          assert Mentions(init, d, k);
          MentionsPrefix(init, es, d, k);
        }
      }
    }
  }

  lemma MentionsPrefix(a: seq<Entry>, b: seq<Entry>, d: int, k: int)
    requires a <= b && Mentions(a, d, k)
    ensures Mentions(b, d, k)
  {
    var i :| 0 <= i < |a| && a[i].d == d && a[i].k == k;
    assert b[i].d == d && b[i].k == k;
  }

  lemma MentionsSuffix(a: seq<Entry>, b: seq<Entry>, d: int, k: int)
    requires Mentions(b, d, k)
    ensures Mentions(a + b, d, k)
  {
    var i :| 0 <= i < |b| && b[i].d == d && b[i].k == k;
    assert (a + b)[|a| + i].d == d && (a + b)[|a| + i].k == k;
  }

  /** Exactly the wanted kinds of the domains below n are printed, each with its ids. */
  lemma {:induction false} EntriesListed(sets: seq<DomainSet>, filter: int, exclude: bool, n: nat, es: seq<Entry>)
    requires n <= |sets| && es == Entries(sets, filter, exclude, n)
    ensures forall i :: 0 <= i < |es| ==> es[i].d < n && Describes(sets, es[i]) && Wanted(sets, filter, exclude, es[i].d, es[i].k)
    ensures forall d, k :: Wanted(sets, filter, exclude, d, k) && d < n ==> Mentions(es, d, k)
  {
    if n > 0 {
      hide KindEntries, Mentions;
      var init, kinds := Entries(sets, filter, exclude, n - 1), KindEntries(sets, n - 1, |sets[n - 1].kinds|);
      EntriesListed(sets, filter, exclude, n - 1, init);
      KindsListed(sets, n - 1, |sets[n - 1].kinds|, kinds);
      forall d, k | Wanted(sets, filter, exclude, d, k) && d < n ensures Mentions(es, d, k) {
        if d < n - 1 {
          MentionsPrefix(init, es, d, k);
        } else {
          MentionsSuffix(init, kinds, d, k);
        }
      }
    }
  }

  lemma EntriesFit(sets: seq<DomainSet>, filter: int, exclude: bool, es: seq<Entry>)
    requires es == Entries(sets, filter, exclude, |sets|)
    ensures forall i :: 0 <= i < |es| ==> Describes(sets, es[i])
    ensures forall i :: 0 <= i < |es| ==> es[i].d < |sets| && es[i].k < |sets[es[i].d].kinds|
    ensures forall d, k :: Mentions(es, d, k) <==> Wanted(sets, filter, exclude, d, k)
  {
    hide Entries;
    EntriesListed(sets, filter, exclude, |sets|, es);
  }

  ghost function PieceText(table: seq<Domain>, e: Entry): string
    requires e.d < |table| && e.k < |table[e.d].kinds|
  {
    table[e.d].name + "." + table[e.d].kinds[e.k].name + "(" + TextOf(e.ids) + ")"
  }

  ghost predicate InTable(table: seq<Domain>, es: seq<Entry>) {
    forall i :: 0 <= i < |es| ==> es[i].d < |table| && es[i].k < |table[es[i].d].kinds|
  }

  /** All the pieces; `more` says that something was printed before them. */
  ghost function Text(table: seq<Domain>, es: seq<Entry>, more: bool): string
    requires InTable(table, es)
  {
    if es == [] then "" else
    var n := |es| - 1;
    Text(table, es[..n], more) + (if more || n > 0 then ", " else "") + PieceText(table, es[n])
  }

  lemma TextLast(table: seq<Domain>, es: seq<Entry>, more: bool)
    requires InTable(table, es) && es != []
    ensures Text(table, es, more) ==
            Text(table, es[..|es| - 1], more) + (if more || |es| > 1 then ", " else "") + PieceText(table, es[|es| - 1])
  {
    hide PieceText;
  }

  lemma NoPieces(table: seq<Domain>, more: bool)
    ensures Text(table, [], more) == ""
  {
  }

  lemma SplitsLast(lead: string, first: string, mid: string, last: string)
    ensures (lead + first + mid) + ", " + last == lead + first + (mid + ", " + last)
  {
  }

  /** Text, read from the front. */
  lemma {:induction false} TextFront(table: seq<Domain>, es: seq<Entry>, more: bool)
    requires InTable(table, es) && es != []
    ensures Text(table, es, more) == (if more then ", " else "") + PieceText(table, es[0]) + Text(table, es[1..], true)
    decreases |es|
  {
    hide PieceText, Text;
    var n, rest, lead := |es| - 1, es[1..], if more then ", " else "";
    TextLast(table, es, more);
    if n == 0 {
      assert es[..0] == [] && rest == [];
      NoPieces(table, more);
      NoPieces(table, true);
    } else {
      TextFront(table, es[..n], more);
      TextLast(table, rest, true);
      assert es[..n][1..] == rest[..n - 1];
      SplitsLast(lead, PieceText(table, es[0]), Text(table, rest[..n - 1], true), PieceText(table, es[n]));
    }
  }

  // ---------- Reading what was written ----------

  /** Names that survive the trip: distinct, short enough for the buffers, and free of the delimiters. */
  ghost predicate GoodNames(table: seq<Domain>) {
    && (forall d :: 0 <= d < |table| ==> GoodDomain(table[d]))
    && (forall d, e :: 0 <= d < e < |table| ==> table[d].name != table[e].name)
  }

  ghost predicate GoodDomain(it: Domain) {
    && 0 < |it.name| < NAME_SIZE && !IsLead(it.name[0]) && '.' !in it.name
    && (forall k :: 0 <= k < |it.kinds| ==> |it.kinds[k].name| < NAME_SIZE && '(' !in it.kinds[k].name)
    && (forall k, l :: 0 <= k < l < |it.kinds| ==> it.kinds[k].name != it.kinds[l].name)
  }

  lemma {:induction false} RunsHaveNoParen(items: seq<Item>)
    ensures ')' !in Join(items)
  {
    if items != [] {
      RunsHaveNoParen(items[..|items| - 1]);
      var it := items[|items| - 1];
      assert ')' !in Decimal(it.lo) && ')' !in Decimal(it.hi);
    }
  }

  lemma FindsAt(s: string, p: nat, t: string, c: char, q: nat)
    requires TextAt(s, p, t, q) && c !in t && q < |s| && s[q] == c
    ensures Find(s, p, c) == q
  {
    forall k | p <= k < q ensures s[k] != c {
      assert s[p + (k - p)] == t[k - p];
    }
  }

  lemma CharAt(s: string, p: nat, c: char, q: nat)
    requires TextAt(s, p, [c], q)
    ensures s[p] == c
  {
    assert s[p + 0] == [c][0];
  }

  lemma TextIs(s: string, p: nat, t: string, q: nat)
    requires TextAt(s, p, t, q)
    ensures s[p..q] == t
  {
    forall k | 0 <= k < |t| ensures s[p..q][k] == t[k] {
    }
  }

  lemma WrittenParts(s: string, a: nat, name: string, kind: string, runs: string, b: nat)
    requires TextAt(s, a, name + "." + kind + "(" + runs + ")", b)
    ensures var dot := a + |name|;
            var paren := dot + 1 + |kind|;
            && paren + 1 + |runs| == b - 1 && b <= |s|
            && TextAt(s, a, name, dot) && TextAt(s, dot + 1, kind, paren) && TextAt(s, paren + 1, runs, b - 1)
            && s[dot] == '.' && s[paren] == '(' && s[b - 1] == ')'
  {
    var dot := a + |name|;
    var paren := dot + 1 + |kind|;
    hide TextAt;
    TextSplits(s, a, name + "." + kind + "(" + runs, ")", b);
    TextSplits(s, a, name + "." + kind + "(", runs, b - 1);
    TextSplits(s, a, name + "." + kind, "(", paren + 1);
    TextSplits(s, a, name + ".", kind, paren);
    TextSplits(s, a, name, ".", dot + 1);
    CharAt(s, dot, '.', dot + 1);
    CharAt(s, paren, '(', paren + 1);
    CharAt(s, b - 1, ')', b);
  }

  /** The delimiters of a written piece, and the three texts between them. */
  lemma WrittenPiece(table: seq<Domain>, s: string, a: nat, e: Entry, b: nat)
    requires GoodNames(table) && e.d < |table| && e.k < |table[e.d].kinds| && TextAt(s, a, PieceText(table, e), b)
    ensures a < b && !IsLead(s[a])
    ensures var r := PieceAt(s, a);
            && r.Piece? && r.close == b - 1 && s[a..r.dot] == table[e.d].name
            && s[r.dot + 1..r.paren] == table[e.d].kinds[e.k].name && s[r.paren + 1..r.close] == TextOf(e.ids)
  {
    hide Join, Find, Runs;
    var name, kind, runs := table[e.d].name, table[e.d].kinds[e.k].name, TextOf(e.ids);
    assert GoodDomain(table[e.d]);
    var dot := a + |name|;
    var paren := dot + 1 + |kind|;
    WrittenParts(s, a, name, kind, runs, b);
    assert s[a + 0] == name[0];
    RunsHaveNoParen(Runs(e.ids));
    FindsAt(s, a, name, '.', dot);
    FindsAt(s, dot + 1, kind, '(', paren);
    FindsAt(s, paren + 1, runs, ')', b - 1);
    TextIs(s, a, name, dot);
    TextIs(s, dot + 1, kind, paren);
    TextIs(s, paren + 1, runs, b - 1);
  }

  /** What one written piece stores. */
  ghost function Filled(table: seq<Domain>, sets: seq<DomainSet>, st: seq<DomainSet>, e: Entry): (r: seq<DomainSet>)
    requires Shape(table, sets) && Shape(table, st) && Slot(sets, e.d, e.k)
    ensures Shape(table, r)
  {
    var it := table[e.d].kinds[e.k];
    Put(st, e.d, e.k, Kept(sets[e.d].kinds[e.k].ids, it.low, it.high))
  }

  lemma StoresWritten(table: seq<Domain>, sets: seq<DomainSet>, st: seq<DomainSet>, e: Entry)
    requires GoodNames(table) && Shape(table, sets) && Shape(table, st) && WithinBitset(sets) && Describes(sets, e)
    ensures var (name, kind) := (table[e.d].name, table[e.d].kinds[e.k].name);
            Store(table, Copied(name), Copied(kind), TextOf(e.ids), st) == Parsed(true, Filled(table, sets, st, e))
  {
    hide ParseFrom, TextOf;
    assert GoodDomain(table[e.d]);
    RoundTrip(e.ids, MAX_ID);
  }

  /** Reading a piece that stands at a, where reading starts at p. */
  lemma ReadsPiece(table: seq<Domain>, s: string, p: nat, a: nat, e: Entry, b: nat,
                   sets: seq<DomainSet>, st: seq<DomainSet>)
    requires GoodNames(table) && Shape(table, sets) && Shape(table, st) && WithinBitset(sets) && Describes(sets, e)
    requires TextAt(s, a, PieceText(table, e), b) && (b == |s| || s[b] == ',')
    requires e.d < |table| && e.k < |table[e.d].kinds|
    requires p <= a <= |s| && forall k :: p <= k < a ==> IsLead(s[k])
    ensures ParseSpec(table, s, p, st) ==
            if b == |s| then Parsed(true, Filled(table, sets, st, e))
            else ParseSpec(table, s, b + 1, Filled(table, sets, st, e))
  {
    hide ParseSpec, PieceAt, Store, Filled, PieceText, Describes, WithinBitset, TextOf, SkipWhile, GoodNames, Copied;
    WrittenPiece(table, s, a, e, b);
    StoresWritten(table, sets, st, e);
    SkipsTo(s, b, b, Spaces);
    SpecUnfold(table, s, p, st);
    assert SkipLead(s, p) == a;
  }

  ghost function FilledAll(table: seq<Domain>, sets: seq<DomainSet>, st: seq<DomainSet>, es: seq<Entry>): (r: seq<DomainSet>)
    requires Shape(table, sets) && Shape(table, st) && InTable(table, es)
    ensures Shape(table, r)
    decreases |es|
  {
    if es == [] then st else FilledAll(table, sets, Filled(table, sets, st, es[0]), es[1..])
  }

  lemma {:induction false} ReadsText(table: seq<Domain>, s: string, p: nat, es: seq<Entry>, more: bool,
                                     sets: seq<DomainSet>, st: seq<DomainSet>)
    requires GoodNames(table) && Shape(table, sets) && Shape(table, st) && WithinBitset(sets)
    requires es != [] && InTable(table, es) && forall i :: 0 <= i < |es| ==> Describes(sets, es[i])
    requires TextAt(s, p, Text(table, es, more), |s|)
    ensures ParseSpec(table, s, if more then p + 1 else p, st) == Parsed(true, FilledAll(table, sets, st, es))
    decreases |es|
  {
    hide ParseSpec, Text, PieceText, Describes, WithinBitset, GoodNames, Filled;
    var lead, rest := if more then ", " else "", es[1..];
    TextFront(table, es, more);
    var a := p + |lead|;
    var b := a + |PieceText(table, es[0])|;
    TextSplits(s, p, lead + PieceText(table, es[0]), Text(table, rest, true), |s|);
    TextSplits(s, p, lead, PieceText(table, es[0]), b);
    if more {
      assert s[p + 0] == lead[0] && s[p + 1] == lead[1];
    }
    var next := Filled(table, sets, st, es[0]);
    if rest == [] {
      assert Text(table, rest, true) == "" by { NoPieces(table, true); }
      ReadsPiece(table, s, if more then p + 1 else p, a, es[0], b, sets, st);
    } else {
      TextFront(table, rest, true);
      assert Text(table, rest, true)[0] == ',' == s[b + 0];
      ReadsPiece(table, s, if more then p + 1 else p, a, es[0], b, sets, st);
      ReadsText(table, s, b, rest, true, sets, next);
    }
  }

  // ---------- The round trip ----------

  /** What survives printing: the flagged kinds of the shown domains, with the ids the reader keeps. */
  ghost function Survives(table: seq<Domain>, sets: seq<DomainSet>, filter: int, exclude: bool): (r: seq<DomainSet>)
    requires Shape(table, sets)
  {
    seq(|table|, d requires 0 <= d < |table| =>
      DomainSet(exists k :: Wanted(sets, filter, exclude, d, k),
                seq(|table[d].kinds|, k requires 0 <= k < |table[d].kinds| =>
                  if Wanted(sets, filter, exclude, d, k)
                  then KindSet(true, Kept(sets[d].kinds[k].ids, table[d].kinds[k].low, table[d].kinds[k].high))
                  else KindSet(false, {}))))
  }

  lemma {:induction false} FilledAt(table: seq<Domain>, sets: seq<DomainSet>, st: seq<DomainSet>, es: seq<Entry>, d: nat)
    requires Shape(table, sets) && Shape(table, st) && d < |table| && InTable(table, es)
    ensures var r := FilledAll(table, sets, st, es);
            && (r[d].flag <==> st[d].flag || exists k :: Mentions(es, d, k))
            && forall k :: 0 <= k < |table[d].kinds| ==>
                 r[d].kinds[k] == if Mentions(es, d, k)
                                  then KindSet(true, Kept(sets[d].kinds[k].ids, table[d].kinds[k].low, table[d].kinds[k].high))
                                  else st[d].kinds[k]
    decreases |es|
  {
    hide Kept;
    if es != [] {
      var e, rest := es[0], es[1..];
      var next := Filled(table, sets, st, e);
      FilledAt(table, sets, next, rest, d);
      MentionsCons(es);
      assert Mentions(es, e.d, e.k);
    }
  }

  lemma MentionsCons(es: seq<Entry>)
    requires es != []
    ensures forall d, k :: Mentions(es, d, k) <==> (es[0].d == d && es[0].k == k) || Mentions(es[1..], d, k)
  {
    forall d, k ensures Mentions(es, d, k) <==> (es[0].d == d && es[0].k == k) || Mentions(es[1..], d, k) {
      if i :| 0 <= i < |es[1..]| && es[1..][i].d == d && es[1..][i].k == k {
        assert es[i + 1].d == d;
      }
      if i :| 0 < i < |es| && es[i].d == d && es[i].k == k {
        assert es[1..][i - 1].d == d;
      }
    }
  }

  /** What print_punit_set_filtered writes; `more` says that something was printed before. */
  ghost function Printed(table: seq<Domain>, sets: seq<DomainSet>, filter: int, exclude: bool, more: bool): string
    requires Shape(table, sets)
  {
    var es := Entries(sets, filter, exclude, |sets|);
    EntriesFit(sets, filter, exclude, es);
    Text(table, es, more)
  }

  /** Reading the printed text into an empty array gives back exactly what survives. */
  lemma PrintedReadsBack(table: seq<Domain>, sets: seq<DomainSet>, filter: int, exclude: bool)
    requires GoodNames(table) && Shape(table, sets) && WithinBitset(sets)
    ensures ParseSpec(table, Printed(table, sets, filter, exclude, false), 0, Empty(table)) ==
            Parsed(true, Survives(table, sets, filter, exclude))
  {
    hide ParseSpec, Text, Kept, GoodNames, Entries, Mentions;
    var es := Entries(sets, filter, exclude, |sets|);
    EntriesFit(sets, filter, exclude, es);
    var st, s := Empty(table), Text(table, es, false);
    if es == [] {
      assert s == "" by { NoPieces(table, false); }
      SpecUnfold(table, s, 0, st);
    } else {
      ReadsText(table, s, 0, es, false, sets, st);
    }
    var r, want := FilledAll(table, sets, st, es), Survives(table, sets, filter, exclude);
    forall d | 0 <= d < |table| ensures r[d] == want[d] {
      FilledAt(table, sets, st, es, d);
      assert r[d].kinds == want[d].kinds;
    }
    assert r == want;
  }

  lemma KeepsAll(ids: set<nat>, it: Kind)
    requires InLimits(ids - {MAX_ID}, it)
    ensures Kept(ids, it.low, it.high) == ids
  {
    forall x | x in ids ensures x in Kept(ids, it.low, it.high) {
      assert x == MAX_ID || x in ids - {MAX_ID};
    }
  }

  /** The trip gives back the same punit set exactly when its flags are in step and its ids are in
      their kinds' limits; kinds with no ids at all included. */
  lemma TripIsExact(table: seq<Domain>, sets: seq<DomainSet>)
    requires Shape(table, sets) && WithinBitset(sets)
    ensures Survives(table, sets, -1, false) == sets <==> FlagsAgree(sets) && AllInLimits(table, sets)
  {
    var r := Survives(table, sets, -1, false);
    if FlagsAgree(sets) && AllInLimits(table, sets) {
      forall d | 0 <= d < |sets| ensures r[d] == sets[d] {
        forall k | 0 <= k < |sets[d].kinds| ensures r[d].kinds[k] == sets[d].kinds[k] {
          assert Slot(sets, d, k) && InLimits(sets[d].kinds[k].ids - {MAX_ID}, table[d].kinds[k]);
          KeepsAll(sets[d].kinds[k].ids, table[d].kinds[k]);
          assert Wanted(sets, -1, false, d, k) <==> sets[d].flag && sets[d].kinds[k].flag;
        }
        assert r[d].flag <==> SomeKind(sets[d]) by {
          if k :| 0 <= k < |sets[d].kinds| && sets[d].kinds[k].flag {
            assert Wanted(sets, -1, false, d, k);
          }
        }
      }
      assert r == sets;
    }
    if r == sets {
      forall d | 0 <= d < |sets| ensures sets[d].flag <==> SomeKind(sets[d]) {
        if k :| Wanted(sets, -1, false, d, k) {
          assert sets[d].kinds[k].flag;
        }
        if k :| 0 <= k < |sets[d].kinds| && sets[d].kinds[k].flag {
          assert r[d].kinds[k].flag;
        }
      }
      forall d, k | Slot(sets, d, k)
        ensures (sets[d].kinds[k].flag || sets[d].kinds[k].ids == {}) && InLimits(sets[d].kinds[k].ids - {MAX_ID}, table[d].kinds[k])
      {
        assert r[d].kinds[k] == sets[d].kinds[k];
      }
    }
  }

  // ---------- A text that escapes the range check ----------

  lemma Decimal1024()
    ensures Decimal(1024) == "1024"
  {
    assert Decimal(1) == "1" && Decimal(10) == "10" && Decimal(102) == "102";
  }

  lemma RunsOf1024()
    ensures Runs({1024}) == [Item(1024, 1024)]
  {
    var it := Item(1024, 1024);
    assert [it][1..] == [] && Span(1024, 1024) == {1024} && Union([it]) == {1024};
    RunsAreUnique(Runs({1024}), [it], {1024});
  }

  lemma TextOf1024()
    ensures TextOf({1024}) == "1024"
  {
    hide Runs, Decimal;
    RunsOf1024();
    JoinOne(Item(1024, 1024));
    Decimal1024();
  }

  /** One domain with one kind, whose ids are 0 to 3. */
  const SMALL_TABLE: seq<Domain> := [Domain("a", [Kind("b", 0, 3)])]

  const ESCAPED: seq<DomainSet> := [DomainSet(true, [KindSet(true, {1024})])]

  lemma EscapedIsOneEntry()
    ensures Entries(ESCAPED, -1, false, 1) == [Entry(0, 0, {1024})]
  {
    assert KindEntries(ESCAPED, 0, 0) == [];
    assert KindEntries(ESCAPED, 0, 1) == [Entry(0, 0, {1024})];
    assert Entries(ESCAPED, -1, false, 0) == [];
  }

  lemma OnePiece(table: seq<Domain>, e: Entry)
    requires e.d < |table| && e.k < |table[e.d].kinds|
    ensures InTable(table, [e]) && Text(table, [e], false) == PieceText(table, e)
  {
    hide PieceText;
    assert [e][..0] == [];
    assert Text(table, [], false) == "";
  }

  lemma EscapedIsPrinted()
    ensures Shape(SMALL_TABLE, ESCAPED) && Printed(SMALL_TABLE, ESCAPED, -1, false, false) == "a.b(1024)"
  {
    hide Text, Entries, TextOf;
    var e := Entry(0, 0, {1024});
    EscapedIsOneEntry();
    OnePiece(SMALL_TABLE, e);
    TextOf1024();
    assert PieceText(SMALL_TABLE, e) == "a.b(1024)";
  }

  lemma EscapedSurvives()
    ensures Shape(SMALL_TABLE, ESCAPED) && WithinBitset(ESCAPED) && GoodNames(SMALL_TABLE)
    ensures Survives(SMALL_TABLE, ESCAPED, -1, false) == ESCAPED
  {
    hide Survives;
    assert ESCAPED[0].kinds[0].flag;
    assert InLimits({1024} - {MAX_ID}, SMALL_TABLE[0].kinds[0]);
    TripIsExact(SMALL_TABLE, ESCAPED);
  }

  /** "a.b(1024)" is accepted, and leaves the kind the id 1024. */
  lemma EscapesTheCheck()
    ensures ParseSpec(SMALL_TABLE, "a.b(1024)", 0, Empty(SMALL_TABLE)) == Parsed(true, ESCAPED)
    ensures !InLimits(ESCAPED[0].kinds[0].ids, SMALL_TABLE[0].kinds[0])
  {
    hide ParseSpec, Printed, Survives, GoodNames;
    EscapedIsPrinted();
    EscapedSurvives();
    PrintedReadsBack(SMALL_TABLE, ESCAPED, -1, false);
    assert 1024 in ESCAPED[0].kinds[0].ids;
  }
}
