/** The kernel-overlap detector of analysis/gpu_kernel_concurrency.py: the merged
    busy time, the sweep-line peak, and the verdict drawn from their ratio.
    Timestamps are integers (nanoseconds); an interval (s, e) covers s <= t < e.
    Intervals with e < s never reach these functions: `collect` drops them. */
module KernelOverlap {
  import opened Sorting

  type Interval = Pair

  ghost predicate WellFormed(ivs: seq<Interval>) {
    forall iv :: iv in ivs ==> iv.0 <= iv.1
  }

  // ---------- What is measured ----------

  /** How many intervals cover instant t. */
  ghost function Depth(ivs: seq<Interval>, t: int): nat {
    if ivs == [] then 0
    else Depth(ivs[..|ivs| - 1], t) + (if ivs[|ivs| - 1].0 <= t < ivs[|ivs| - 1].1 then 1 else 0)
  }

  ghost predicate Between(lo: int, t: int, hi: int) {
    lo <= t < hi
  }

  ghost function Range(lo: int, hi: int): set<int> {
    set t | lo <= t < hi && Between(lo, t, hi)
  }

  lemma {:induction false} RangeSize(lo: int, hi: int)
    requires lo <= hi
    ensures |Range(lo, hi)| == hi - lo
    decreases hi - lo
  {
    if lo < hi {
      RangeSize(lo, hi - 1);
      assert Range(lo, hi) == Range(lo, hi - 1) + {hi - 1};
    } else {
      assert Range(lo, hi) == {};
    }
  }

  /** The instants covered by at least one interval. */
  ghost function Busy(ivs: seq<Interval>): set<int> {
    set iv, t | iv in ivs && t in Range(iv.0, iv.1) :: t
  }

  ghost function SumDurations(ivs: seq<Interval>): int {
    if ivs == [] then 0 else SumDurations(ivs[..|ivs| - 1]) + ivs[|ivs| - 1].1 - ivs[|ivs| - 1].0
  }

  /** m is the largest number of intervals covering one instant. */
  ghost predicate IsPeak(ivs: seq<Interval>, m: nat) {
    && (forall t :: Depth(ivs, t) <= m)
    && (m == 0 || exists t :: Depth(ivs, t) == m)
  }

  lemma {:induction false} BusyIsDepth(ivs: seq<Interval>, t: int)
    ensures t in Busy(ivs) <==> Depth(ivs, t) > 0
  {
    if ivs != [] {
      var init, last := ivs[..|ivs| - 1], ivs[|ivs| - 1];
      BusyIsDepth(init, t);
      assert ivs == init + [last];
      if t in Busy(init) {
        var iv :| iv in init && t in Range(iv.0, iv.1);
        assert iv in ivs;
      }
      assert last in ivs;
      assert t in Range(last.0, last.1) <==> last.0 <= t < last.1;
    }
  }

  // ---------- Merging sorted intervals measures the union ----------

  /** The instants that ivs cover are the finished runs' instants, all before cs, plus the open run [cs, ce). */
  ghost predicate Merged(ivs: seq<Interval>, closed: set<int>, cs: int, ce: int) {
    && cs <= ce
    && (forall t :: t in closed ==> t < cs)
    && (forall t :: Depth(ivs, t) > 0 <==> t in closed || cs <= t < ce)
  }

  /** The next interval joins the open run or begins a new one. */
  lemma MergeStep(iv: seq<Interval>, i: nat, closed: set<int>, cs: int, ce: int)
    returns (runs: set<int>)
    requires i < |iv| && cs <= iv[i].0 <= iv[i].1 && Merged(iv[..i], closed, cs, ce)
    ensures iv[i].0 <= ce ==> Merged(iv[..i + 1], closed, cs, Max(ce, iv[i].1))
    ensures iv[i].0 > ce ==> Merged(iv[..i + 1], runs, iv[i].0, iv[i].1)
    ensures |runs| == |closed| + ce - cs
  {
    runs := closed + Range(cs, ce);
    RunSize(closed, cs, ce);
    var p, q := iv[..i], iv[..i + 1];
    assert q[..i] == p && q[i] == iv[i];
    forall t ensures Depth(q, t) > 0 <==> t in closed || cs <= t < ce || iv[i].0 <= t < iv[i].1 {
      assert Depth(q, t) == Depth(p, t) + (if iv[i].0 <= t < iv[i].1 then 1 else 0);
    }
  }

  lemma RunSize(closed: set<int>, cs: int, ce: int)
    requires cs <= ce && forall t :: t in closed ==> t < cs
    ensures |closed + Range(cs, ce)| == |closed| + ce - cs
  {
    RangeSize(cs, ce);
    assert closed !! Range(cs, ce);
  }

  lemma MergedSize(ivs: seq<Interval>, closed: set<int>, cs: int, ce: int)
    requires Merged(ivs, closed, cs, ce)
    ensures |Busy(ivs)| == |closed| + ce - cs
  {
    forall t ensures t in Busy(ivs) <==> t in closed + Range(cs, ce) {
      BusyIsDepth(ivs, t);
    }
    RunSize(closed, cs, ce);
    assert Busy(ivs) == closed + Range(cs, ce);
  }

  lemma BusyOfMembers(a: seq<Interval>, b: seq<Interval>)
    requires multiset(a) == multiset(b)
    ensures WellFormed(a) ==> WellFormed(b)
    ensures Busy(a) == Busy(b)
  {
    forall p ensures p in a <==> p in b {
      assert p in a <==> p in multiset(a);
    }
    forall t ensures t in Busy(a) <==> t in Busy(b) {
      DepthPermutes(a, b, t);
      BusyIsDepth(a, t);
      BusyIsDepth(b, t);
    }
  }

  method UnionNs(intervals: seq<Interval>) returns (busy: int)
    requires WellFormed(intervals)
    ensures busy == |Busy(intervals)|
  {
    if intervals == [] {
      return 0;
    }
    var iv := Sort(intervals);
    BusyOfMembers(intervals, iv);
    var total := 0;
    var cs, ce := iv[0].0, iv[0].1;
    ghost var closed: set<int> := {};
    assert iv[0] in iv;
    ghost var _ := MergeStep(iv, 0, closed, cs, cs);
    for i := 1 to |iv|
      invariant cs <= iv[i - 1].0 && Merged(iv[..i], closed, cs, ce)
      invariant |closed| == total
    {
      var s, e := iv[i].0, iv[i].1;
      assert LexLe(iv[i - 1], iv[i]) && iv[i] in iv;
      ghost var runs := MergeStep(iv, i, closed, cs, ce);
      if s > ce {
        closed := runs;
        total := total + (ce - cs);
        cs, ce := s, e;
      } else if e > ce {
        ce := e;
      }
    }
    assert iv[..|iv|] == iv;
    MergedSize(iv, closed, cs, ce);
    return total + (ce - cs);
  }

  // ---------- The sweep line finds the peak ----------

  /** The sweep's points: (s, 1) for a start and (e, 0) for an end. */
  function Points(ivs: seq<Interval>): seq<Pair> {
    if ivs == [] then []
    else Points(ivs[..|ivs| - 1]) + [(ivs[|ivs| - 1].0, 1), (ivs[|ivs| - 1].1, 0)]
  }

  /** Starts minus ends among the points no later than t. */
  ghost function Net(pts: seq<Pair>, t: int): int {
    if pts == [] then 0
    else Net(pts[..|pts| - 1], t) + Weight(pts[|pts| - 1], t)
  }

  ghost function Weight(p: Pair, t: int): int {
    if p.0 > t then 0 else if p.1 == 1 then 1 else -1
  }

  lemma {:induction false} NetConcat(a: seq<Pair>, b: seq<Pair>, t: int)
    ensures Net(a + b, t) == Net(a, t) + Net(b, t)
  {
    if b == [] {
      assert a + b == a;
    } else {
      assert (a + b)[..|a + b| - 1] == a + b[..|b| - 1];
      NetConcat(a, b[..|b| - 1], t);
    }
  }

  lemma NetRemove(s: seq<Pair>, j: nat, t: int)
    requires j < |s|
    ensures Net(s, t) == Net(s[..j] + s[j + 1..], t) + Weight(s[j], t)
  {
    var head := s[..j + 1];
    assert head[..j] == s[..j];
    assert s == head + s[j + 1..];
    NetConcat(head, s[j + 1..], t);
    NetConcat(s[..j], s[j + 1..], t);
  }

  lemma {:induction false} NetPermutes(a: seq<Pair>, b: seq<Pair>, t: int)
    requires multiset(a) == multiset(b)
    ensures Net(a, t) == Net(b, t)
  {
    if a == [] {
      assert |multiset(b)| == 0;
    } else {
      var j := MatchLast(a, b);
      NetPermutes(a[..|a| - 1], b[..j] + b[j + 1..], t);
      NetRemove(b, j, t);
    }
  }

  lemma {:induction false} NetIsDepth(ivs: seq<Interval>, t: int)
    requires WellFormed(ivs)
    ensures Net(Points(ivs), t) == Depth(ivs, t)
  {
    if ivs != [] {
      var init, x := ivs[..|ivs| - 1], ivs[|ivs| - 1];
      assert x in ivs;
      NetIsDepth(init, t);
      var two: seq<Pair> := [(x.0, 1), (x.1, 0)];
      NetConcat(Points(init), two, t);
      var one := two[..1];
      assert one == [(x.0, 1)] && one[..0] == [];
      assert Net(one, t) == Weight((x.0, 1), t);
    }
  }

  /** Once every point is no later than t, waiting longer changes nothing. */
  lemma {:induction false} NetSettled(pts: seq<Pair>, t: int, u: int)
    requires forall p :: p in pts ==> p.0 <= t && p.0 <= u
    ensures Net(pts, t) == Net(pts, u)
  {
    if pts != [] {
      assert pts[|pts| - 1] in pts;
      NetSettled(pts[..|pts| - 1], t, u);
    }
  }

  lemma {:induction false} NetOfStarts(pts: seq<Pair>, t: int)
    requires forall p :: p in pts && p.0 <= t ==> p.1 == 1
    ensures Net(pts, t) >= 0
    ensures (forall p :: p in pts ==> p.0 > t) ==> Net(pts, t) == 0
  {
    if pts != [] {
      assert pts[|pts| - 1] in pts;
      NetOfStarts(pts[..|pts| - 1], t);
    }
  }

  /** The sweep's counter after its first k points: all of them are no later than w. */
  ghost function Balance(pts: seq<Pair>, k: nat, w: int): int
    requires k <= |pts|
  {
    Net(pts[..k], w)
  }

  lemma BalanceStep(pts: seq<Pair>, k: nat, w: int)
    requires k < |pts|
    ensures Balance(pts, k + 1, w) == Balance(pts, k, w) + Weight(pts[k], w)
  {
    assert pts[..k + 1][..k] == pts[..k];
  }

  lemma SplitAt(pts: seq<Pair>, t: int) returns (k: nat)
    requires Sorted(pts)
    ensures k <= |pts|
    ensures forall p :: p in pts[..k] ==> p.0 <= t
    ensures forall p :: p in pts[k..] ==> p.0 > t
  {
    k := 0;
    while k < |pts| && pts[k].0 <= t
      invariant k <= |pts| && forall i :: 0 <= i < k ==> pts[i].0 <= t
    {
      k := k + 1;
    }
    forall i | k <= i < |pts| ensures pts[i].0 > t {
      assert k < i ==> LexLe(pts[k], pts[i]);
    }
  }

  /** pts are the sweep's points in processing order; no point is later than w. */
  ghost predicate Sweep(ivs: seq<Interval>, pts: seq<Pair>, w: int) {
    && WellFormed(ivs) && Sorted(pts) && multiset(pts) == multiset(Points(ivs))
    && forall p :: p in pts ==> p.0 <= w && (p.1 == 0 || p.1 == 1)
  }

  /** The depth at t splits over any cut of the processing order. */
  lemma DepthSplits(ivs: seq<Interval>, pts: seq<Pair>, k: nat, t: int, w: int)
    requires Sweep(ivs, pts, w) && k <= |pts|
    requires forall p :: p in pts[..k] ==> p.0 <= t
    ensures Depth(ivs, t) == Balance(pts, k, w) + Net(pts[k..], t)
  {
    NetIsDepth(ivs, t);
    NetPermutes(pts, Points(ivs), t);
    assert pts == pts[..k] + pts[k..];
    NetConcat(pts[..k], pts[k..], t);
    assert forall p :: p in pts[..k] ==> p in pts;
    NetSettled(pts[..k], t, w);
  }

  /** The counter just after a start is at most the depth at that start's time:
      ends come before starts at equal times, so only starts can still follow. */
  lemma StartBound(ivs: seq<Interval>, pts: seq<Pair>, i: nat, w: int)
    requires Sweep(ivs, pts, w) && i < |pts| && pts[i].1 == 1
    ensures Balance(pts, i + 1, w) <= Depth(ivs, pts[i].0)
  {
    var t := pts[i].0;
    forall p | p in pts[..i + 1] ensures p.0 <= t {
      var j :| 0 <= j < i + 1 && pts[j] == p;
      assert j < i ==> LexLe(pts[j], pts[i]);
    }
    forall p | p in pts[i + 1..] && p.0 <= t ensures p.1 == 1 {
      var j :| i + 1 <= j < |pts| && pts[j] == p;
      assert LexLe(pts[i], pts[j]) && pts[j] in pts;
    }
    DepthSplits(ivs, pts, i + 1, t, w);
    NetOfStarts(pts[i + 1..], t);
  }

  /** The depth at any time is one of the counter's values. */
  lemma DepthIsBalance(ivs: seq<Interval>, pts: seq<Pair>, t: int, w: int) returns (k: nat)
    requires Sweep(ivs, pts, w)
    ensures k <= |pts| && Depth(ivs, t) == Balance(pts, k, w)
  {
    k := SplitAt(pts, t);
    DepthSplits(ivs, pts, k, t, w);
    NetOfStarts(pts[k..], t);
  }

  lemma {:induction false} KindsOfPoints(ivs: seq<Interval>)
    ensures forall p :: p in Points(ivs) ==> p.1 == 0 || p.1 == 1
  {
    if ivs != [] {
      KindsOfPoints(ivs[..|ivs| - 1]);
    }
  }

  lemma SortedPointsSweep(ivs: seq<Interval>, pts: seq<Pair>, w: int)
    requires WellFormed(ivs) && Sorted(pts) && multiset(pts) == multiset(Points(ivs))
    requires pts == [] || w == pts[|pts| - 1].0
    ensures Sweep(ivs, pts, w)
  {
    KindsOfPoints(ivs);
    forall p | p in pts ensures p.0 <= w && (p.1 == 0 || p.1 == 1) {
      assert p in multiset(pts);
      var j :| 0 <= j < |pts| && pts[j] == p;
      assert j < |pts| - 1 ==> LexLe(pts[j], pts[|pts| - 1]);
    }
  }

  method MaxConcurrent(intervals: seq<Interval>) returns (peak: int)
    requires WellFormed(intervals)
    ensures peak >= 0 && IsPeak(intervals, peak)
  {
    var pts: seq<Pair> := [];
    for i := 0 to |intervals|
      invariant pts == Points(intervals[..i])
    {
      assert intervals[..i + 1][..i] == intervals[..i];
      pts := pts + [(intervals[i].0, 1)];
      pts := pts + [(intervals[i].1, 0)];
    }
    assert intervals[..|intervals|] == intervals;
    pts := Sort(pts);
    ghost var w := if pts == [] then 0 else pts[|pts| - 1].0;
    SortedPointsSweep(intervals, pts, w);
    ghost var i;
    peak, i := PeakBalance(pts, w);
    if peak > 0 {
      StartBound(intervals, pts, i, w);
    }
    PeakIsDepth(intervals, pts, w, peak);
  }

  lemma PeakIsDepth(ivs: seq<Interval>, pts: seq<Pair>, w: int, peak: nat)
    requires Sweep(ivs, pts, w)
    requires forall k :: 0 <= k <= |pts| ==> Balance(pts, k, w) <= peak
    requires peak == 0 || exists t :: Depth(ivs, t) >= peak
    ensures IsPeak(ivs, peak)
  {
    forall t ensures Depth(ivs, t) <= peak {
      var k := DepthIsBalance(ivs, pts, t, w);
    }
  }

  /** The sweep loop: the counter's largest value, reached just after start i if it is not 0. */
  method PeakBalance(pts: seq<Pair>, ghost w: int) returns (peak: int, ghost i: nat)
    requires forall p :: p in pts ==> p.0 <= w && (p.1 == 0 || p.1 == 1)
    ensures peak >= 0 && forall k :: 0 <= k <= |pts| ==> Balance(pts, k, w) <= peak
    ensures peak == 0 || (i < |pts| && pts[i].1 == 1 && Balance(pts, i + 1, w) == peak)
  {
    var cur := 0;
    peak, i := 0, 0;
    for j := 0 to |pts|
      invariant cur == Balance(pts, j, w)
      invariant 0 <= peak && forall k :: 0 <= k <= j ==> Balance(pts, k, w) <= peak
      invariant peak == 0 || (i < j && pts[i].1 == 1 && Balance(pts, i + 1, w) == peak)
    {
      BalanceStep(pts, j, w);
      assert pts[j] in pts;
      cur := cur + (if pts[j].1 != 0 then 1 else -1);
      if cur > peak {
        assert Balance(pts, j, w) <= peak;
        peak, i := cur, j;
      }
    }
  }

  // ---------- Joining the two: durations, union and peak ----------

  ghost function SumDepth(ivs: seq<Interval>, lo: int, hi: int): nat
    decreases hi - lo
  {
    if hi <= lo then 0 else SumDepth(ivs, lo, hi - 1) + Depth(ivs, hi - 1)
  }

  function Max(a: int, b: int): int { if a < b then b else a }

  function Min(a: int, b: int): int { if a < b then a else b }

  lemma {:induction false} SumDepthStep(ivs: seq<Interval>, lo: int, hi: int)
    requires ivs != []
    ensures SumDepth(ivs, lo, hi) ==
            SumDepth(ivs[..|ivs| - 1], lo, hi) + Max(0, Min(hi, ivs[|ivs| - 1].1) - Max(lo, ivs[|ivs| - 1].0))
    decreases hi - lo
  {
    if lo < hi {
      SumDepthStep(ivs, lo, hi - 1);
    }
  }

  /** Counting by instants and counting by intervals give the same total. */
  lemma {:induction false} DoubleCounting(ivs: seq<Interval>, lo: int, hi: int)
    requires forall iv :: iv in ivs ==> lo <= iv.0 <= iv.1 <= hi
    ensures SumDepth(ivs, lo, hi) == SumDurations(ivs)
    decreases |ivs|, hi - lo
  {
    if ivs != [] {
      assert ivs[|ivs| - 1] in ivs;
      DoubleCounting(ivs[..|ivs| - 1], lo, hi);
      SumDepthStep(ivs, lo, hi);
    } else if lo < hi {
      DoubleCounting(ivs, lo, hi - 1);
    }
  }

  ghost function BusyBefore(ivs: seq<Interval>, hi: int): set<int> {
    set t | t in Busy(ivs) && t < hi
  }

  ghost predicate OneAtATime(ivs: seq<Interval>, hi: int) {
    forall t :: t < hi ==> Depth(ivs, t) <= 1
  }

  lemma BusyBeforeStep(ivs: seq<Interval>, hi: int)
    ensures |BusyBefore(ivs, hi)| == |BusyBefore(ivs, hi - 1)| + (if Depth(ivs, hi - 1) > 0 then 1 else 0)
  {
    BusyIsDepth(ivs, hi - 1);
    var before, now := BusyBefore(ivs, hi - 1), BusyBefore(ivs, hi);
    if hi - 1 in Busy(ivs) {
      assert now == before + {hi - 1};
    } else {
      assert now == before;
    }
  }

  lemma NothingBefore(ivs: seq<Interval>, lo: int)
    requires forall iv :: iv in ivs ==> lo <= iv.0
    ensures BusyBefore(ivs, lo) == {} && OneAtATime(ivs, lo)
  {
    forall t ensures t < lo ==> Depth(ivs, t) == 0 {
      BusyIsDepth(ivs, t);
    }
  }

  lemma Distribute(m: nat, n: nat)
    ensures m * (n + 1) == m * n + m
  {
  }

  lemma {:induction false} BusyBounds(ivs: seq<Interval>, lo: int, hi: int, m: nat)
    requires forall iv :: iv in ivs ==> lo <= iv.0
    requires forall t :: Depth(ivs, t) <= m
    requires lo <= hi
    ensures |BusyBefore(ivs, hi)| <= SumDepth(ivs, lo, hi) <= m * |BusyBefore(ivs, hi)|
    ensures SumDepth(ivs, lo, hi) == |BusyBefore(ivs, hi)| <==> OneAtATime(ivs, hi)
    decreases hi - lo
  {
    if hi == lo {
      NothingBefore(ivs, lo);
    } else {
      BusyBounds(ivs, lo, hi - 1, m);
      BusyBeforeStep(ivs, hi);
      Distribute(m, |BusyBefore(ivs, hi - 1)|);
      assert OneAtATime(ivs, hi) <==> OneAtATime(ivs, hi - 1) && Depth(ivs, hi - 1) <= 1;
    }
  }

  lemma {:induction false} Bounds(ivs: seq<Interval>) returns (lo: int, hi: int)
    ensures lo <= hi && forall iv :: iv in ivs ==> lo <= iv.0 && iv.1 <= hi
  {
    lo, hi := 0, 0;
    for i := 0 to |ivs|
      invariant lo <= hi && forall j :: 0 <= j < i ==> lo <= ivs[j].0 && ivs[j].1 <= hi
    {
      lo, hi := Min(lo, ivs[i].0), Max(hi, ivs[i].1);
    }
  }

  /** The theorem the script's verdict rests on. */
  lemma OverlapTheorem(ivs: seq<Interval>, peak: nat)
    requires WellFormed(ivs) && IsPeak(ivs, peak)
    ensures |Busy(ivs)| <= SumDurations(ivs) <= peak * |Busy(ivs)|
    ensures SumDurations(ivs) == |Busy(ivs)| <==> peak <= 1
  {
    var lo, hi := Bounds(ivs);
    DoubleCounting(ivs, lo, hi);
    BusyBounds(ivs, lo, hi, peak);
    assert BusyBefore(ivs, hi) == Busy(ivs);
    if peak > 1 {
      var t :| Depth(ivs, t) == peak;
      BusyIsDepth(ivs, t);
      assert !OneAtATime(ivs, hi);
    }
  }

  /** The measures do not depend on the order the kernels were recorded in. */
  lemma OrderIrrelevant(a: seq<Interval>, b: seq<Interval>, m: nat)
    requires multiset(a) == multiset(b)
    ensures Busy(a) == Busy(b)
    ensures IsPeak(a, m) <==> IsPeak(b, m)
  {
    BusyOfMembers(a, b);
    forall t ensures Depth(a, t) == Depth(b, t) {
      DepthPermutes(a, b, t);
    }
  }

  lemma DepthRemove(s: seq<Interval>, j: nat, t: int)
    requires j < |s|
    ensures Depth(s, t) == Depth(s[..j] + s[j + 1..], t) + (if s[j].0 <= t < s[j].1 then 1 else 0)
  {
    var head := s[..j + 1];
    assert head[..j] == s[..j];
    assert s == head + s[j + 1..];
    DepthConcat(head, s[j + 1..], t);
    DepthConcat(s[..j], s[j + 1..], t);
  }

  lemma {:induction false} DepthPermutes(a: seq<Interval>, b: seq<Interval>, t: int)
    requires multiset(a) == multiset(b)
    ensures Depth(a, t) == Depth(b, t)
  {
    if a == [] {
      assert |multiset(b)| == 0;
    } else {
      var j := MatchLast(a, b);
      DepthPermutes(a[..|a| - 1], b[..j] + b[j + 1..], t);
      DepthRemove(b, j, t);
    }
  }

  lemma {:induction false} DepthConcat(a: seq<Interval>, b: seq<Interval>, t: int)
    ensures Depth(a + b, t) == Depth(a, t) + Depth(b, t)
  {
    if b == [] {
      assert a + b == a;
    } else {
      assert (a + b)[..|a + b| - 1] == a + b[..|b| - 1];
      DepthConcat(a, b[..|b| - 1], t);
    }
  }

  // ---------- The verdict ----------

  /** One physical device: its kernel intervals and how many streams they used. */
  datatype Device = Device(intervals: seq<Interval>, streams: nat)

  datatype Verdict = NoRecords | Serialized | Concurrent | Inconclusive

  const THRESHOLD: real := 1.001

  ghost function Overlap(ivs: seq<Interval>): real {
    if |Busy(ivs)| == 0 then 0.0 else SumDurations(ivs) as real / |Busy(ivs)| as real
  }

  /** Overlap factor 1.00 means strictly one kernel at a time, and conversely. */
  lemma OverlapIsOne(ivs: seq<Interval>, peak: nat)
    requires WellFormed(ivs) && IsPeak(ivs, peak)
    ensures peak <= 1 <==> Overlap(ivs) <= 1.0
    ensures peak == 1 <==> Overlap(ivs) == 1.0
    ensures Overlap(ivs) <= peak as real
  {
    OverlapTheorem(ivs, peak);
    var u, s := |Busy(ivs)|, SumDurations(ivs);
    if peak > 0 {
      var t :| Depth(ivs, t) == peak;
      BusyIsDepth(ivs, t);
      assert u > 0;
      RatioFacts(s, u, peak);
    } else {
      assert u == 0 by {
        if u > 0 {
          var t :| t in Busy(ivs);
          BusyIsDepth(ivs, t);
          assert false;
        }
      }
    }
  }

  lemma RatioFacts(s: int, u: int, p: int)
    requires u > 0 && s <= p * u
    ensures s as real / u as real <= p as real
    ensures s as real / u as real <= 1.0 <==> s <= u
    ensures s as real / u as real == 1.0 <==> s == u
  {
    assert (p * u) as real == p as real * u as real;
    DivideIsLe(s as real, u as real, p as real);
    DivideIsLe(s as real, u as real, 1.0);
    if s == u {
      assert s as real / u as real == 1.0;
    }
  }

  lemma DivideIsLe(s: real, u: real, p: real)
    requires u > 0.0
    ensures s / u <= p <==> s <= p * u
    ensures s / u == p ==> s == p * u
  {
    var q := s / u;
    assert q * u == s;
    if q <= p {
      assert (p - q) * u >= 0.0;
    } else {
      assert (q - p) * u > 0.0;
    }
  }

  method DurationTotal(ivs: seq<Interval>) returns (sum: int)
    ensures sum == SumDurations(ivs)
  {
    sum := 0;
    for i := 0 to |ivs|
      invariant sum == SumDurations(ivs[..i])
    {
      assert ivs[..i + 1][..i] == ivs[..i];
      sum := sum + (ivs[i].1 - ivs[i].0);
    }
    assert ivs[..|ivs|] == ivs;
  }

  /** The overlap factor reaches the threshold, in whole numbers. */
  ghost predicate Overlaps(ivs: seq<Interval>) {
    |Busy(ivs)| > 0 && 1000 * SumDurations(ivs) >= 1001 * |Busy(ivs)|
  }

  lemma OverlapsIs(ivs: seq<Interval>)
    ensures Overlaps(ivs) <==> Overlap(ivs) >= THRESHOLD
  {
    hide Busy, SumDurations;
    if |Busy(ivs)| > 0 {
      DivideIsGe(SumDurations(ivs) as real, |Busy(ivs)| as real, THRESHOLD);
    }
  }

  lemma DivideIsGe(s: real, u: real, p: real)
    requires u > 0.0
    ensures s / u >= p <==> s >= p * u
  {
    DivideIsLe(s, u, p);
  }

  /** `report` answers Serialized on these devices. */
  ghost predicate SaysSerialized(devs: seq<Device>) {
    && (forall d :: d in devs ==> WellFormed(d.intervals))
    && (exists d :: d in devs && d.streams > 1)
    && (exists d :: d in devs && !Overlaps(d.intervals))
  }

  /** The verdict of `report`. `worst` is the least overlap factor over the devices. */
  method Report(devs: seq<Device>) returns (v: Verdict)
    requires forall d :: d in devs ==> WellFormed(d.intervals)
    ensures v == NoRecords <==> devs == []
    ensures v == Concurrent <==> devs != [] && forall d :: d in devs ==> Overlaps(d.intervals)
    ensures v == Serialized <==> SaysSerialized(devs)
    ensures (forall d :: d in devs ==> d.streams <= 1) ==> v != Serialized
  {
    if devs == [] {
      return NoRecords;
    }
    var worst, multi := 0.0, false;
    for i := 0 to |devs|
      invariant multi <==> exists d :: d in devs[..i] && d.streams > 1
      invariant i > 0 ==> exists d :: d in devs[..i] && Overlap(d.intervals) == worst
      invariant forall d :: d in devs[..i] ==> worst <= Overlap(d.intervals)
    {
      var iv := devs[i].intervals;
      assert devs[..i + 1] == devs[..i] + [devs[i]];
      assert devs[i] in devs && devs[i] in devs[..i + 1];
      var ssum := DurationTotal(iv);
      var uni := UnionNs(iv);
      var ov := if uni != 0 then ssum as real / uni as real else 0.0;
      assert ov == Overlap(iv);
      if i == 0 || ov < worst {
        worst := ov;
      }
      if devs[i].streams > 1 {
        multi := true;
      }
    }
    assert devs[..|devs|] == devs;
    forall d | d in devs ensures Overlaps(d.intervals) <==> Overlap(d.intervals) >= THRESHOLD {
      OverlapsIs(d.intervals);
    }
    if multi && worst < THRESHOLD {
      v := Serialized;
    } else if worst >= THRESHOLD {
      v := Concurrent;
    } else {
      v := Inconclusive;
    }
  }

  /** A Concurrent verdict is never wrong: such a device had two kernels resident at once. */
  lemma ConcurrentIsSound(ivs: seq<Interval>, peak: nat)
    requires WellFormed(ivs) && IsPeak(ivs, peak) && Overlaps(ivs)
    ensures exists t :: Depth(ivs, t) >= 2
  {
    OverlapTheorem(ivs, peak);
    var t :| Depth(ivs, t) == peak;
    assert Depth(ivs, t) >= 2;
  }

  /** What the message of a Serialized verdict says of every device. */
  ghost predicate AllSerial(devs: seq<Device>) {
    forall d :: d in devs ==> !Overlaps(d.intervals)
  }

  /** The guard tests the least factor only, so the message "on every device" can be trusted
      exactly when there is a single device. */
  lemma SerializedMessage(n: nat)
    ensures n <= 1 <==> forall devs: seq<Device> | |devs| == n && SaysSerialized(devs) :: AllSerial(devs)
  {
    if n > 1 {
      var devs := OneParallelDevice(n);
      assert !AllSerial(devs);
    } else {
      forall devs: seq<Device> | |devs| == n && SaysSerialized(devs) ensures AllSerial(devs) {
        forall d | d in devs ensures d == devs[0] {
        }
      }
    }
  }

  /** One device runs its two kernels side by side, the others run theirs alone. */
  lemma OneParallelDevice(n: nat) returns (devs: seq<Device>)
    requires n > 1
    ensures |devs| == n && SaysSerialized(devs) && !AllSerial(devs)
  {
    var serial, parallel := [(0, 1)], [(0, 1), (0, 1)];
    devs := seq(n, i => if i == 0 then Device(parallel, 2) else Device(serial, 1));
    assert serial[..0] == [] && parallel[..1] == serial;
    assert serial[0] in serial && parallel[0] in parallel && 0 in Range(0, 1);
    assert Busy(serial) == {0};
    assert Busy(parallel) == {0};
    assert SumDurations(serial) == 1 && SumDurations(parallel) == 2;
    assert devs[0] in devs && devs[1] in devs;
    assert Overlaps(devs[0].intervals) && !Overlaps(devs[1].intervals);
  }

  lemma PeakExists(ivs: seq<Interval>) returns (peak: nat)
    ensures IsPeak(ivs, peak)
  {
    peak := |ivs|;
    forall t ensures Depth(ivs, t) <= |ivs| {
      DepthAtMost(ivs, t);
    }
    while peak > 0 && !exists t :: Depth(ivs, t) == peak
      invariant forall t :: Depth(ivs, t) <= peak
    {
      peak := peak - 1;
    }
  }

  lemma {:induction false} DepthAtMost(ivs: seq<Interval>, t: int)
    ensures Depth(ivs, t) <= |ivs|
  {
    if ivs != [] {
      DepthAtMost(ivs[..|ivs| - 1], t);
    }
  }
}
