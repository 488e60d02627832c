/** src/bitset.c: a set of indices 0..nbits held in one inline word (nbits < 64) or in an
    array of words. Every operation is specified on the set, `Contents()`. */
module BitSets {
  import opened Words
  import opened RangeText

  // ---------- The set a sequence of words stands for ----------

  ghost predicate In(ws: seq<Word>, b: nat) {
    b / 64 < |ws| && Bit(ws[b / 64], b % 64)
  }

  ghost function Members(ws: seq<Word>): set<nat> {
    set b: nat | b < 64 * |ws| && In(ws, b)
  }

  /** m is the least element of s that is at least `from`. */
  ghost predicate IsLeastFrom(s: set<nat>, from: nat, m: nat) {
    m in s && from <= m && forall x :: x in s && from <= x ==> m <= x
  }

  /** What a search from `from` answers: the least element as an int, or -1. */
  ghost predicate Found(s: set<nat>, from: nat, r: int) {
    if exists x :: x in s && from <= x then exists m :: IsLeastFrom(s, from, m) && r == AsInt(m)
    else r == -1
  }

  /** The C conversion of an index to int: the index itself up to INT_MAX. */
  const INT_MAX: nat := 0x7FFF_FFFF

  function AsInt(n: nat): int {
    (n + 0x8000_0000) % 0x1_0000_0000 - 0x8000_0000
  }

  lemma MembersUpdate(ws: seq<Word>, i: nat, v: Word, b: nat)
    requires i < |ws|
    ensures In(ws[i := v], b) <==> if b / 64 == i then Bit(v, b % 64) else In(ws, b)
  {
  }

  /** Positions of word i, seen in the whole set. */
  lemma WordPosition(i: nat, c: nat)
    requires c < 64
    ensures (64 * i + c) / 64 == i && (64 * i + c) % 64 == c
  {
  }

  ghost function WordMembers(w: Word, i: nat): set<nat> {
    set c | c in Bits(w) :: 64 * i + c
  }

  lemma {:induction false} ShiftKeepsSize(s: set<nat>, k: nat)
    ensures |set c | c in s :: 64 * k + c| == |s|
  {
    if s != {} {
      var x :| x in s;
      ShiftKeepsSize(s - {x}, k);
      var rest := set c | c in s - {x} :: 64 * k + c;
      var all := set c | c in s :: 64 * k + c;
      forall y ensures y in all <==> y in rest || y == 64 * k + x {
        if y in all && y != 64 * k + x {
          var c :| c in s && y == 64 * k + c;
          assert c in s - {x};
        }
      }
      assert all == rest + {64 * k + x};
      assert 64 * k + x !in rest;
    } else {
      assert (set c | c in s :: 64 * k + c) == {};
    }
  }

  lemma MembersOfPrefix(ws: seq<Word>, i: nat)
    requires i < |ws|
    ensures |Members(ws[..i + 1])| == |Members(ws[..i])| + |Bits(ws[i])|
  {
    var before, here, now := Members(ws[..i]), WordMembers(ws[i], i), Members(ws[..i + 1]);
    forall b: nat ensures b in now <==> b in before || b in here {
      if b in here {
        var c :| c in Bits(ws[i]) && b == 64 * i + c;
        WordPosition(i, c);
      }
      if b in now && b / 64 == i {
        assert b == 64 * i + b % 64 && b % 64 in Bits(ws[i]);
      }
    }
    assert now == before + here;
    assert before !! here;
    ShiftKeepsSize(Bits(ws[i]), i);
  }

  class BitSet {
    var inlineWord: Word    // the bits, kept in the pointer's own value when nbits < 64
    var heap: array?<Word>  // the words when nbits >= 64
    var nbits: nat          // the largest index
    var nwords: nat

    ghost predicate Valid()
      reads this, heap
    {
      && (if nbits < 64 then heap == null && nwords == 1
          else heap != null && nwords == nbits / 64 + 1 == heap.Length)
      && forall b: nat :: In(Words(), b) ==> b <= nbits
    }

    ghost function Words(): (ws: seq<Word>)
      reads this, heap
    {
      if heap == null then [inlineWord] else heap[..]
    }

    ghost function Contents(): set<nat>
      reads this, heap
    {
      Members(Words())
    }

    constructor (nbits: nat)
      ensures Valid() && this.nbits == nbits && Contents() == {}
      ensures heap != null ==> fresh(heap)
    {
      this.nbits := nbits;
      inlineWord := 0;
      if nbits < 64 {
        nwords := 1;
        heap := null;
      } else {
        nwords := nbits / 64 + 1;
        heap := new Word[nbits / 64 + 1](_ => 0);
      }
      new;
      forall b: nat ensures !In(Words(), b) {
        ZeroBit(b % 64);
      }
    }

    function GetWord(index: nat): (w: Word)
      requires Valid()
      reads this, heap
      ensures w == if index < |Words()| then Words()[index] else 0
    {
      if nbits < 64 then
        if index > 0 then 0 else inlineWord
      else if index >= nwords then 0 else heap[index]
    }

    /** bitset_set_word; the caller keeps indices above nbits out. */
    method SetWord(index: nat, value: Word)
      requires Valid()
      requires forall c: nat :: c < 64 && Bit(value, c) ==> 64 * index + c <= nbits
      modifies this`inlineWord, heap
      ensures Valid()
      ensures Words() == if index < |old(Words())| then old(Words())[index := value] else old(Words())
    {
      if nbits < 64 {
        if index == 0 {
          inlineWord := value;
        }
      } else if index < nwords {
        heap[index] := value;
      }
      forall b: nat | In(Words(), b) ensures b <= nbits {
        if b / 64 == index {
          assert b == 64 * index + b % 64;
        } else {
          assert In(old(Words()), b);
        }
      }
    }

    method Reset()
      requires Valid()
      modifies this`inlineWord, heap
      ensures Valid() && Contents() == {}
    {
      if nbits < 64 {
        inlineWord := 0;
      } else {
        forall i | 0 <= i < nwords {
          heap[i] := 0;
        }
      }
      forall b: nat ensures !In(Words(), b) {
        ZeroBit(b % 64);
      }
    }

    method Set(bit: nat)
      requires Valid()
      modifies this`inlineWord, heap
      ensures Valid()
      ensures Contents() == if bit <= nbits then old(Contents()) + {bit} else old(Contents())
    {
      if bit > nbits {
        return;
      }
      var widx := bit / 64;
      var word := GetWord(widx);
      ghost var ws := Words();
      WordsStay(ws, widx);
      SetWord(widx, SetBit(word, bit % 64));
      forall b: nat ensures In(Words(), b) <==> In(ws, b) || b == bit {
        MembersUpdate(ws, widx, SetBit(word, bit % 64), b);
      }
    }

    /** Every bit of word i names an index up to nbits. */
    lemma WordsStay(ws: seq<Word>, i: nat)
      requires Valid() && ws == Words() && i < |ws|
      ensures forall c: nat :: c < 64 && Bit(ws[i], c) ==> 64 * i + c <= nbits
    {
      forall c: nat | c < 64 && Bit(ws[i], c) ensures 64 * i + c <= nbits {
        WordPosition(i, c);
        assert In(ws, 64 * i + c);
      }
    }

    method Clear(bit: nat)
      requires Valid()
      modifies this`inlineWord, heap
      ensures Valid()
      ensures Contents() == old(Contents()) - {bit}
    {
      if bit > nbits {
        return;
      }
      var widx := bit / 64;
      var word := GetWord(widx);
      ghost var ws := Words();
      WordsStay(ws, widx);
      SetWord(widx, ClearBit(word, bit % 64));
      forall b: nat ensures In(Words(), b) <==> In(ws, b) && b != bit {
        MembersUpdate(ws, widx, ClearBit(word, bit % 64), b);
      }
    }

    predicate Test(bit: nat)
      requires Valid()
      reads this, heap
      ensures Test(bit) <==> bit in Contents()
    {
      if bit > nbits then false
      else
        TestBit(GetWord(bit / 64), bit % 64)
    }

    method Count() returns (total: nat)
      requires Valid()
      ensures total == |Contents()|
    {
      total := 0;
      ghost var ws := Words();
      assert Members(ws[..0]) == {};
      for i := 0 to nwords
        invariant total == |Members(ws[..i])|
      {
        var w := GetWord(i);
        var n := PopCount(w);
        MembersOfPrefix(ws, i);
        total := total + n;
      }
      assert ws[..nwords] == ws;
    }

    /** The searches' inner loop: the least index of word wi at position b or above. */
    method ScanWord(word: Word, wi: nat, b: nat) returns (bit: int)
      requires Valid() && wi < nwords && b < 64
      requires forall c: nat | c < 64 :: Bit(word, c) <==> Bit(Words()[wi], c) && b <= c
      ensures if exists x :: x in Contents() && 64 * wi + b <= x < 64 * (wi + 1)
              then bit >= 0 && IsLeastFrom(Contents(), 64 * wi + b, bit)
              else bit == -1
    {
      ghost var ws := Words();
      bit := -1;
      for c := b to 64
        invariant forall k: nat | k < c :: !Bit(word, k)
      {
        if TestBit(word, c) {
          WordPosition(wi, c);
          ghost var m: nat := 64 * wi + c;
          assert In(ws, m) && m in Contents() && 64 * wi + b <= m < 64 * (wi + 1);
          bit := 64 * wi + c;
          forall x | x in Contents() && 64 * wi + b <= x ensures bit <= x {
            if x / 64 == wi {
              assert Bit(word, x % 64) && x == 64 * wi + x % 64;
            }
          }
          return;
        }
      }
      forall x | x in Contents() ensures !(64 * wi + b <= x < 64 * (wi + 1)) {
        if x / 64 == wi {
          assert Bit(ws[wi], x % 64) && x == 64 * wi + x % 64;
        }
      }
    }

    /** The searches' outer loop: the least index from word wi on, where none from `start` lies earlier. */
    method ScanWords(wi: nat, start: nat) returns (bit: int)
      requires Valid() && wi <= nwords && start <= 64 * wi
      requires forall x :: x in Contents() && start <= x ==> 64 * wi <= x
      ensures Found(Contents(), start, bit)
    {
      for wj := wi to nwords
        invariant forall x :: x in Contents() && start <= x ==> 64 * wj <= x
      {
        var word := GetWord(wj);
        if word != 0 {
          var r := ScanWord(word, wj, 0);
          if r != -1 {
            return AsInt(r);
          }
        } else {
          EmptyWord(wj);
        }
      }
      return -1;
    }

    method FirstSet() returns (bit: int)
      requires Valid()
      ensures Found(Contents(), 0, bit)
    {
      bit := ScanWords(0, 0);
    }

    lemma EmptyWord(wi: nat)
      requires Valid() && wi < nwords && Words()[wi] == 0
      ensures forall x :: x in Contents() ==> x < 64 * wi || 64 * (wi + 1) <= x
    {
      forall x | x in Contents() ensures x < 64 * wi || 64 * (wi + 1) <= x {
        ZeroBit(x % 64);
      }
    }

    method NextSet(prev: int) returns (bit: int)
      requires Valid()
      ensures Found(Contents(), if prev < 0 then 0 else prev + 1, bit)
    {
      if prev < 0 {
        bit := FirstSet();
        return;
      }
      var start := prev + 1;
      if start > nbits {
        return -1;
      }
      var wi := start / 64;
      var b := start % 64;
      var word := GetWord(wi);
      if b > 0 {
        word := KeepFrom(word, b);
      }
      if word != 0 {
        var r := ScanWord(word, wi, b);
        if r != -1 {
          return AsInt(r);
        }
      } else {
        forall x | x in Contents() && start <= x ensures 64 * (wi + 1) <= x {
          ZeroBit(x % 64);
        }
      }
      bit := ScanWords(wi + 1, start);
    }

    /** The operand is this set itself, or shares no storage with it. */
    ghost predicate Apart(other: BitSet)
      reads this, other
    {
      other == this || heap == null || other.heap != heap
    }

    method Or(a: BitSet, b: BitSet)
      requires Valid() && a.Valid() && b.Valid() && Apart(a) && Apart(b)
      modifies this`inlineWord, heap
      ensures Valid()
      ensures Contents() == if nbits == a.nbits == b.nbits then old(a.Contents()) + old(b.Contents()) else old(Contents())
    {
      if nbits != a.nbits || nbits != b.nbits {
        return;
      }
      hide OrWord, AndWord, Members, In;
      ghost var wa, wb := a.Words(), b.Words();
      for i := 0 to nwords
        invariant Valid() && a.Valid() && b.Valid() && |Words()| == nwords
        invariant forall j :: i <= j < nwords ==> a.Words()[j] == wa[j] && b.Words()[j] == wb[j]
        invariant forall j :: 0 <= j < i ==> Words()[j] == OrWord(wa[j], wb[j])
      {
        a.WordsStay(a.Words(), i);
        b.WordsStay(b.Words(), i);
        SetWord(i, OrWord(a.GetWord(i), b.GetWord(i)));
      }
      OrMembers(Words(), wa, wb);
    }

    method And(a: BitSet, b: BitSet)
      requires Valid() && a.Valid() && b.Valid() && Apart(a) && Apart(b)
      modifies this`inlineWord, heap
      ensures Valid()
      ensures Contents() == if nbits == a.nbits == b.nbits then old(a.Contents()) * old(b.Contents()) else old(Contents())
    {
      if nbits != a.nbits || nbits != b.nbits {
        return;
      }
      hide OrWord, AndWord, Members, In;
      ghost var wa, wb := a.Words(), b.Words();
      for i := 0 to nwords
        invariant Valid() && a.Valid() && b.Valid() && |Words()| == nwords
        invariant forall j :: i <= j < nwords ==> a.Words()[j] == wa[j] && b.Words()[j] == wb[j]
        invariant forall j :: 0 <= j < i ==> Words()[j] == AndWord(wa[j], wb[j])
      {
        a.WordsStay(a.Words(), i);
        b.WordsStay(b.Words(), i);
        SetWord(i, AndWord(a.GetWord(i), b.GetWord(i)));
      }
      AndMembers(Words(), wa, wb);
    }

    /** bitset_equal looks at (nbits + 63) / 64 words only. */
    method Equal(other: BitSet) returns (same: bool)
      requires Valid() && other.Valid()
      ensures same <==> nbits == other.nbits && AgreeBelow(Contents(), other.Contents(), ComparedBits(nbits))
    {
      if nbits != other.nbits {
        return false;
      }
      var wordsToCheck := (nbits + 63) / 64;
      ghost var va, vb := Words(), other.Words();
      if nbits < 64 {
        same := inlineWord == other.inlineWord;
        SameWords(va, vb, 1);
        assert same <==> va[0] == vb[0];
      } else {
        SameWords(va, vb, wordsToCheck);
        for i := 0 to wordsToCheck
          invariant forall j :: 0 <= j < i ==> va[j] == vb[j]
        {
          if heap[i] != other.heap[i] {
            return false;
          }
        }
        return true;
      }
    }

    /** The bits of start..end, set one by one. */
    method SetSpan(start: nat, end: nat)
      requires Valid() && start <= end <= nbits
      modifies this`inlineWord, heap
      ensures Valid() && Contents() == old(Contents()) + Span(start, end)
    {
      hide Members;
      ghost var before := Contents();
      for i := start to end + 1
        invariant Valid()
        invariant forall x :: x in Contents() <==> x in before || start <= x < i
      {
        Set(i);
      }
    }

    /** Reading the text form; the bits set before an error stay set. */
    method ParseRanges(spec: string) returns (rc: int)
      requires Valid()
      modifies this`inlineWord, heap
      ensures Valid() && (rc == 0 || rc == -1)
      ensures ParseFrom(spec, 0, nbits, {}) == Outcome(rc == 0, Contents())
    {
      hide Members, ParseFrom, ParseItem, SkipWhile, Span;
      Reset();
      var p := 0;
      while p < |spec|
        invariant p <= |spec| && Valid()
        invariant ParseFrom(spec, p, nbits, Contents()) == ParseFrom(spec, 0, nbits, {})
        decreases |spec| - p
      {
        ParseUnfold(spec, p, nbits, Contents());
        var a := Skip(spec, p, Seps);
        if a == |spec| {
          return 0;
        }
        var end, start := ReadItem(spec, a);
        if end.NoNumber? || end.value < start || end.value > nbits {
          return -1;
        }
        SetSpan(start, end.value);
        var c := Skip(spec, end.pos, Spaces);
        if c == |spec| {
          return 0;
        } else if spec[c] == ',' {
          p := c + 1;
        } else {
          return -1;
        }
      }
      ParseEnd(spec, p, nbits, Contents());
      return 0;
    }

    /** Writing the text form: the maximal runs in increasing order, exactly, whenever they fit the
        buffer of 6 characters an index. What a write beyond the buffer does is not modelled. */
    method ToRangestring() returns (text: string)
      requires Valid() && nbits <= INT_MAX
      ensures |TextOf(Contents())| < 6 * (nbits + 1) + 1 ==> text == TextOf(Contents())
    {
      hide Members, MaximalRuns, Union, Join, Decimal, ItemText, Runs;
      ghost var all := Contents();
      WithinBounds();
      var bufsize := (nbits + 1) * 6 + 1;
      text := "";
      ghost var items: seq<Item> := [];
      var idx := FirstSet();
      FoundIs(all, 0, idx);
      NoRuns(all, idx);
      while idx != -1
        invariant RunsBefore(items, all, idx) && -1 <= idx <= nbits
        invariant |Join(items)| < bufsize ==> text == Join(items)
        decreases if idx == -1 then 0 else nbits + 1 - idx
      {
        var start := idx;
        var end, next := RunEnd(start);
        assert Contents() == all;
        ghost var it := Item(start, end);
        JoinMore(items, it);
        if |text| > 0 && |text| < bufsize - 1 {
          text := text + ",";
        }
        text := text + ItemText(Item(start, end));
        RunsGrow(items, all, it, next);
        items := items + [it];
        idx := next;
      }
      AllRuns(items, all);
      RunsAreUnique(items, Runs(all), all);
    }

    /** Extend the run that begins at start; `next` is where the next run begins, or -1. */
    method RunEnd(start: nat) returns (end: nat, next: int)
      requires Valid() && nbits <= INT_MAX && start in Contents()
      ensures start <= end <= nbits && -1 <= next <= nbits
      ensures forall x: nat :: start <= x <= end ==> x in Contents()
      ensures next == -1 ==> forall x :: x in Contents() ==> x <= end
      ensures next != -1 ==> next > end + 1 && IsLeastFrom(Contents(), end + 1, next)
    {
      hide Members;
      ghost var all := Contents();
      WithinBounds();
      end := start;
      next := NextSet(end);
      FoundIs(all, end + 1, next);
      while next != -1 && next == end + 1
        invariant start <= end <= nbits && -1 <= next
        invariant forall x: nat :: start <= x <= end ==> x in all
        invariant next == -1 ==> forall x :: x in all ==> x <= end
        invariant next != -1 ==> IsLeastFrom(all, end + 1, next)
        decreases nbits - end
      {
        end := next;
        next := NextSet(end);
        FoundIs(all, end + 1, next);
      }
    }

    lemma WithinBounds()
      requires Valid()
      ensures forall x :: x in Contents() ==> x <= nbits
    {
    }
  }

  method Skip(s: string, p: nat, f: Class) returns (q: nat)
    requires p <= |s|
    ensures q == SkipWhile(s, p, f)
  {
    q := p;
    while q < |s| && Is(f, s[q])
      invariant p <= q <= |s| && SkipWhile(s, q, f) == SkipWhile(s, p, f)
    {
      q := q + 1;
    }
  }

  /** "start" or "start - end", as ParseItem specifies. */
  method ReadItem(s: string, p: nat) returns (end: Number, start: nat)
    requires p <= |s|
    ensures (end, start) == ParseItem(s, p)
  {
    hide ParseUint, SkipWhile;
    start := 0;
    end := ReadUint(s, p);
    if end.Number? {
      start := end.value;
      var q := Skip(s, end.pos, Spaces);
      if q < |s| && s[q] == '-' {
        q := Skip(s, q + 1, Spaces);
        end := ReadUint(s, q);
      } else {
        end := Number(start, q);
      }
    }
  }

  /** One turn of the reader's loop. */
  lemma ParseUnfold(s: string, p: nat, nbits: nat, bits: set<nat>)
    requires p <= |s|
    ensures var r, a := ParseFrom(s, p, nbits, bits), SkipWhile(s, p, Seps);
            if a == |s| then r == Outcome(true, bits) else
            var (hi, lo) := ParseItem(s, a);
            if hi.NoNumber? || hi.value < lo || hi.value > nbits then r == Outcome(false, bits) else
            var c, more := SkipWhile(s, hi.pos, Spaces), bits + Span(lo, hi.value);
            r == if c == |s| then Outcome(true, more)
                 else if s[c] == ',' then ParseFrom(s, c + 1, nbits, more)
                 else Outcome(false, more)
  {
    hide ParseItem, SkipWhile;
  }

  /** parse_uint, with the digit loop of strtoul. */
  method ReadUint(s: string, p: nat) returns (r: Number)
    requires p <= |s|
    ensures r == ParseUint(s, p)
  {
    var q := Skip(s, p, Spaces);
    if q == |s| || !IsDigit(s[q]) {
      return NoNumber;
    }
    var e, val := q, 0;
    while e < |s| && IsDigit(s[e])
      invariant q <= e <= |s| && SkipWhile(s, e, Nums) == SkipWhile(s, q, Nums)
      invariant Digits(s[q..e]) && val == Value(s[q..e])
    {
      assert s[q..e + 1][..e - q] == s[q..e];
      val := 10 * val + DigitValue(s[e]);
      e := e + 1;
    }
    if val > ULONG_MAX {
      return NoNumber;
    }
    return Number(val, e);
  }

  // ---------- The printer's loop ----------

  lemma FoundIs(s: set<nat>, from: nat, r: int)
    requires Found(s, from, r) && forall x :: x in s ==> x <= INT_MAX
    ensures r == -1 ==> forall x :: x in s ==> x < from
    ensures r == -1 && from == 0 ==> s == {}
    ensures r != -1 ==> r >= 0 && IsLeastFrom(s, from, r)
  {
  }

  /** items are the maximal runs of the elements before idx (of all elements, if idx is -1). */
  ghost predicate RunsBefore(items: seq<Item>, s: set<nat>, idx: int) {
    && (idx == -1 || (idx >= 0 && idx in s && (items != [] ==> items[|items| - 1].hi + 1 < idx)))
    && MaximalRuns(items, set x | x in s && (idx == -1 || x < idx))
  }

  lemma NoRuns(s: set<nat>, idx: int)
    requires if idx == -1 then s == {} else idx >= 0 && IsLeastFrom(s, 0, idx)
    ensures RunsBefore([], s, idx) && Join([]) == ""
  {
    assert (set x | x in s && (idx == -1 || x < idx)) == {};
  }

  lemma AllRuns(items: seq<Item>, s: set<nat>)
    requires RunsBefore(items, s, -1)
    ensures MaximalRuns(items, s)
  {
    assert (set x | x in s && (-1 == -1 || x < -1)) == s;
  }

  lemma RunsGrow(items: seq<Item>, s: set<nat>, it: Item, next: int)
    requires RunsBefore(items, s, it.lo) && it.lo <= it.hi
    requires forall x: nat :: it.lo <= x <= it.hi ==> x in s
    requires next == -1 ==> forall x :: x in s ==> x <= it.hi
    requires next != -1 ==> next > it.hi + 1 && IsLeastFrom(s, it.hi + 1, next)
    ensures RunsBefore(items + [it], s, next)
  {
    hide MaximalRuns;
    var before, now := set x | x in s && x < it.lo, set x | x in s && (next == -1 || x < next);
    assert before == set x | x in s && (it.lo as int == -1 || x < it.lo);
    forall x ensures x in now <==> x in before + Span(it.lo, it.hi) {
    }
    assert now == before + Span(it.lo, it.hi);
    AppendRun(items, before, it);
  }

  /** Every index up to the last one written has paid for 6 characters. */
  ghost predicate Fits(text: string, items: seq<Item>) {
    if items == [] then text == ""
    else text != "" && |text| + 1 <= 6 * (items[|items| - 1].hi + 1)
  }

  lemma ItemLength(it: Item)
    requires it.lo <= it.hi < 100_000_000
    ensures it.lo == it.hi ==> |ItemText(it)| <= if it.hi == 0 then 1 else 8
    ensures it.lo < it.hi ==> |ItemText(it)| <= if it.hi < 10_000 then 9 else 17
    ensures ItemText(it) != ""
  {
    hide Decimal;
    assert Pow10(4) == 10_000;
    assert Pow10(8) == 100_000_000;
    DecimalLength(it.lo, if it.hi == 0 then 1 else if it.hi < 10_000 then 4 else 8);
    DecimalLength(it.hi, if it.hi == 0 then 1 else if it.hi < 10_000 then 4 else 8);
  }

  lemma TextGrows(text: string, items: seq<Item>, it: Item)
    requires text == Join(items) && Fits(text, items)
    requires it.lo <= it.hi < 100_000_000
    requires items != [] ==> items[|items| - 1].hi + 1 < it.lo
    ensures var more := text + (if items == [] then "" else ",") + ItemText(it);
            more == Join(items + [it]) && Fits(more, items + [it])
  {
    hide ItemText, Join;
    ItemLength(it);
    JoinMore(items, it);
  }

  /** An item's text is not empty, and a comma goes before all but the first. */
  lemma JoinMore(items: seq<Item>, it: Item)
    ensures Join(items + [it]) == Join(items) + (if items == [] then "" else ",") + ItemText(it)
    ensures ItemText(it) != "" && (items == [] <==> Join(items) == "")
  {
    hide Decimal;
    assert (items + [it])[..|items|] == items;
  }

  lemma {:induction false} RunsFit(items: seq<Item>)
    requires forall i :: 0 <= i < |items| ==> items[i].lo <= items[i].hi < 100_000_000
    requires forall i :: 0 < i < |items| ==> items[i - 1].hi + 1 < items[i].lo
    ensures Fits(Join(items), items)
  {
    hide Join, ItemText, Fits;
    if items == [] {
      NothingFits();
    } else {
      var init, last := items[..|items| - 1], items[|items| - 1];
      assert items == init + [last];
      RunsFit(init);
      TextGrows(Join(init), init, last);
    }
  }

  lemma NothingFits()
    ensures Fits(Join([]), [])
  {
  }

  /** Up to eight-digit indices the buffer always suffices. */
  lemma TextFits(s: set<nat>, nbits: nat)
    requires nbits < 100_000_000 && forall x :: x in s ==> x <= nbits
    ensures |TextOf(s)| < 6 * (nbits + 1) + 1
  {
    hide Join;
    var items := Runs(s);
    forall i | 0 <= i < |items| ensures items[i].lo <= items[i].hi <= nbits {
      UnionHas(items, i);
    }
    RunsFit(items);
  }

  ghost predicate AgreeBelow(s: set<nat>, t: set<nat>, n: nat) {
    forall x: nat :: x < n ==> (x in s <==> x in t)
  }

  /** How many of the indices bitset_equal compares: whole words, but not the word that
      nbits alone occupies when it is a nonzero multiple of 64. */
  function ComparedBits(nbits: nat): nat {
    if nbits < 64 then 64 else 64 * ((nbits + 63) / 64)
  }

  lemma SameWords(va: seq<Word>, vb: seq<Word>, n: nat)
    requires n <= |va| && n <= |vb|
    ensures (forall j :: 0 <= j < n ==> va[j] == vb[j]) <==> AgreeBelow(Members(va), Members(vb), 64 * n)
  {
    if j :| 0 <= j < n && va[j] != vb[j] {
      Pow2Of63();
      var c := DifferingBit(va[j], vb[j], 64);
      WordPosition(j, c);
      assert 64 * j + c in Members(va) <==> In(va, 64 * j + c);
      assert 64 * j + c in Members(vb) <==> In(vb, 64 * j + c);
    } else {
      forall x: nat | x < 64 * n ensures x in Members(va) <==> x in Members(vb) {
        assert In(va, x) <==> In(vb, x);
      }
    }
  }

  lemma OrMembers(ws: seq<Word>, wa: seq<Word>, wb: seq<Word>)
    requires |ws| == |wa| == |wb| && forall j :: 0 <= j < |ws| ==> ws[j] == OrWord(wa[j], wb[j])
    ensures Members(ws) == Members(wa) + Members(wb)
  {
    forall x: nat ensures In(ws, x) <==> In(wa, x) || In(wb, x) {
    }
  }

  lemma AndMembers(ws: seq<Word>, wa: seq<Word>, wb: seq<Word>)
    requires |ws| == |wa| == |wb| && forall j :: 0 <= j < |ws| ==> ws[j] == AndWord(wa[j], wb[j])
    ensures Members(ws) == Members(wa) * Members(wb)
  {
    forall x: nat ensures In(ws, x) <==> In(wa, x) && In(wb, x) {
    }
  }

  /** bitset_equal decides equality of the sets exactly when nbits is 0 or not a multiple of 64. */
  lemma EqualDecides(nbits: nat)
    ensures (nbits == 0 || nbits % 64 != 0) <==>
            forall s: set<nat>, t: set<nat> ::
              (forall x :: x in s || x in t ==> x <= nbits) && AgreeBelow(s, t, ComparedBits(nbits)) ==> s == t
  {
    if nbits == 0 || nbits % 64 != 0 {
      assert nbits < ComparedBits(nbits);
      forall s: set<nat>, t: set<nat>
        | (forall x :: x in s || x in t ==> x <= nbits) && AgreeBelow(s, t, ComparedBits(nbits))
        ensures s == t
      {
        forall x ensures x in s <==> x in t {
        }
      }
    } else {
      var s, t: set<nat> := {nbits}, {};
      assert AgreeBelow(s, t, ComparedBits(nbits)) && s != t;
    }
  }
}
