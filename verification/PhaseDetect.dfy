/** Phase segmentation (analysis/phase_detect.py) in exact real arithmetic: the variance cost, the
    greedy binary segmentation, the averaging of bins, and the mapping of phases back to fine bins. */
module PhaseDetect {
  import opened Numbering
  import opened Sorting

  const FEATURES: nat := 8
  const MIN_SEG_BINS: nat := 8
  const MAX_PHASES: nat := 10
  const GAIN_FRAC: real := 0.04

  type Row = r: seq<real> | |r| == FEATURES witness [0.0, 0.0, 0.0, 0.0, 0.0, 0.0, 0.0, 0.0]

  type Segment = Pair

  // ---------- The cost of one feature ----------

  function Sum(z: seq<Row>, f: nat, a: nat, b: nat): real
    requires f < FEATURES && a <= b <= |z|
  {
    if a == b then 0.0 else Sum(z, f, a, b - 1) + z[b - 1][f]
  }

  function SumSq(z: seq<Row>, f: nat, a: nat, b: nat): real
    requires f < FEATURES && a <= b <= |z|
  {
    if a == b then 0.0 else SumSq(z, f, a, b - 1) + z[b - 1][f] * z[b - 1][f]
  }

  /** s2 - s * s / n */
  function FeatureCost(z: seq<Row>, f: nat, a: nat, b: nat): real
    requires f < FEATURES && a < b <= |z|
  {
    SumSq(z, f, a, b) - Sum(z, f, a, b) * Sum(z, f, a, b) / (b - a) as real
  }

  function CostUpTo(z: seq<Row>, a: nat, b: nat, f: nat): real
    requires f <= FEATURES && a < b <= |z|
  {
    if f == 0 then 0.0 else CostUpTo(z, a, b, f - 1) + FeatureCost(z, f - 1, a, b)
  }

  /** _cost: the within-segment cost of z[a:b], summed over the features. */
  function Cost(z: seq<Row>, a: nat, b: nat): real
    requires a <= b <= |z|
  {
    if b - a <= 1 then 0.0 else CostUpTo(z, a, b, FEATURES)
  }

  // ---------- What the cost means ----------

  function Sq(x: real): real { x * x }

  /** The squared deviations of a feature from m. */
  ghost function Deviation(z: seq<Row>, f: nat, a: nat, b: nat, m: real): real
    requires f < FEATURES && a <= b <= |z|
  {
    if a == b then 0.0 else Deviation(z, f, a, b - 1, m) + Sq(z[b - 1][f] - m)
  }

  lemma SqNonNegative(x: real)
    ensures Sq(x) >= 0.0
  {
  }

  lemma SqExpands(x: real, m: real)
    ensures Sq(x - m) == x * x - 2.0 * m * x + m * m
  {
  }

  lemma {:induction false} DeviationNonNegative(z: seq<Row>, f: nat, a: nat, b: nat, m: real)
    requires f < FEATURES && a <= b <= |z|
    ensures Deviation(z, f, a, b, m) >= 0.0
  {
    if a < b {
      DeviationNonNegative(z, f, a, b - 1, m);
      SqNonNegative(z[b - 1][f] - m);
    }
  }

  /** The sum of squared deviations from m, by the sums it expands to. */
  ghost function Expanded(s2: real, s: real, n: real, m: real): real {
    s2 - 2.0 * m * s + n * (m * m)
  }

  lemma {:induction false} DeviationExpands(z: seq<Row>, f: nat, a: nat, b: nat, m: real)
    requires f < FEATURES && a <= b <= |z|
    ensures Deviation(z, f, a, b, m) == Expanded(SumSq(z, f, a, b), Sum(z, f, a, b), (b - a) as real, m)
  {
    if a < b {
      hide Sq, Expanded;
      DeviationExpands(z, f, a, b - 1, m);
      Regroup(SumSq(z, f, a, b - 1), Sum(z, f, a, b - 1), (b - 1 - a) as real, m, z[b - 1][f]);
    }
  }

  lemma Regroup(s2: real, s: real, n: real, m: real, x: real)
    ensures Expanded(s2, s, n, m) + Sq(x - m) == Expanded(s2 + x * x, s + x, n + 1.0, m)
  {
    hide Sq;
    SqExpands(x, m);
    DistributeReal(2.0 * m, s, x);
    DistributeReal(m * m, n, 1.0);
    CommuteReal(m * m, n);
    CommuteReal(m * m, n + 1.0);
  }

  lemma CommuteReal(x: real, y: real)
    ensures x * y == y * x
  {
  }

  lemma DistributeReal(c: real, x: real, y: real)
    ensures c * (x + y) == c * x + c * y
  {
  }

  lemma {:induction false} DeviationSplits(z: seq<Row>, f: nat, a: nat, c: nat, b: nat, m: real)
    requires f < FEATURES && a <= c <= b <= |z|
    ensures Deviation(z, f, a, b, m) == Deviation(z, f, a, c, m) + Deviation(z, f, c, b, m)
    decreases b - c
  {
    if c < b {
      DeviationSplits(z, f, a, c, b - 1, m);
    }
  }

  lemma Square(s: real, s2: real, n: real, m: real)
    requires n > 0.0
    ensures Expanded(s2, s, n, m) == s2 - s * s / n + n * Sq(m - s / n)
  {
    var q := s / n;
    assert s == q * n;
    assert s * s / n == q * s by {
      assert s * s == (q * s) * n;
    }
    SqExpands(m, q);
    assert n * (m * m - 2.0 * q * m + q * q) == n * (m * m) - 2.0 * m * (q * n) + q * (q * n);
  }

  /** The cost is the sum of squared deviations from the mean, and the mean is the best centre. */
  lemma CostIsLeastDeviation(z: seq<Row>, f: nat, a: nat, b: nat, m: real)
    requires f < FEATURES && a < b <= |z|
    ensures FeatureCost(z, f, a, b) == Deviation(z, f, a, b, Sum(z, f, a, b) / (b - a) as real)
    ensures FeatureCost(z, f, a, b) <= Deviation(z, f, a, b, m)
    ensures FeatureCost(z, f, a, b) >= 0.0
  {
    hide Sq, Sum, SumSq, Deviation, Expanded;
    var s, s2, n := Sum(z, f, a, b), SumSq(z, f, a, b), (b - a) as real;
    var mean := s / n;
    DeviationExpands(z, f, a, b, m);
    DeviationExpands(z, f, a, b, mean);
    Square(s, s2, n, m);
    Square(s, s2, n, mean);
    SqNonNegative(m - mean);
    assert n * Sq(m - mean) >= 0.0;
    SqExpands(mean, mean);
    assert Sq(mean - mean) == 0.0;
    DeviationNonNegative(z, f, a, b, mean);
  }

  /** Cutting a segment never raises the cost of a feature. */
  lemma CutFeature(z: seq<Row>, f: nat, a: nat, c: nat, b: nat)
    requires f < FEATURES && a < c < b <= |z|
    ensures FeatureCost(z, f, a, c) + FeatureCost(z, f, c, b) <= FeatureCost(z, f, a, b)
  {
    hide FeatureCost;
    var mean := Sum(z, f, a, b) / (b - a) as real;
    CostIsLeastDeviation(z, f, a, b, mean);
    CostIsLeastDeviation(z, f, a, c, mean);
    CostIsLeastDeviation(z, f, c, b, mean);
    DeviationSplits(z, f, a, c, b, mean);
  }

  lemma {:induction false} CutUpTo(z: seq<Row>, a: nat, c: nat, b: nat, f: nat)
    requires f <= FEATURES && a < c < b <= |z|
    ensures CostUpTo(z, a, c, f) + CostUpTo(z, c, b, f) <= CostUpTo(z, a, b, f)
    ensures CostUpTo(z, a, b, f) >= 0.0 && CostUpTo(z, a, c, f) >= 0.0 && CostUpTo(z, c, b, f) >= 0.0
  {
    if f > 0 {
      hide FeatureCost;
      CutUpTo(z, a, c, b, f - 1);
      CutFeature(z, f - 1, a, c, b);
      CostIsLeastDeviation(z, f - 1, a, b, 0.0);
      CostIsLeastDeviation(z, f - 1, a, c, 0.0);
      CostIsLeastDeviation(z, f - 1, c, b, 0.0);
    }
  }

  ghost function Gain(z: seq<Row>, a: nat, c: nat, b: nat): real
    requires a <= c <= b <= |z|
  {
    Cost(z, a, b) - Cost(z, a, c) - Cost(z, c, b)
  }

  /** No cut has negative gain. */
  lemma GainNonNegative(z: seq<Row>, a: nat, c: nat, b: nat)
    requires a < c < b <= |z|
    ensures Gain(z, a, c, b) >= 0.0 && Cost(z, a, b) >= 0.0
  {
    CutUpTo(z, a, c, b, FEATURES);
  }

  // ---------- Segmentations ----------

  /** Contiguous segments from 0 to n. */
  ghost predicate Partition(segs: seq<Segment>, n: nat) {
    && segs != [] && segs[0].0 == 0 && segs[|segs| - 1].1 == n
    && (forall i :: 0 <= i < |segs| ==> 0 <= segs[i].0 <= segs[i].1 <= n)
    && (forall i :: 0 < i < |segs| ==> segs[i - 1].1 == segs[i].0)
  }

  ghost predicate LongEnough(segs: seq<Segment>) {
    |segs| > 1 ==> forall i :: 0 <= i < |segs| ==> segs[i].1 - segs[i].0 >= MIN_SEG_BINS
  }

  ghost function TotalCost(z: seq<Row>, segs: seq<Segment>): real
    requires forall i :: 0 <= i < |segs| ==> 0 <= segs[i].0 <= segs[i].1 <= |z|
  {
    if segs == [] then 0.0
    else TotalCost(z, segs[..|segs| - 1]) + Cost(z, segs[|segs| - 1].0, segs[|segs| - 1].1)
  }

  lemma {:induction false} TotalCostConcat(z: seq<Row>, s: seq<Segment>, t: seq<Segment>)
    requires forall i :: 0 <= i < |s| ==> 0 <= s[i].0 <= s[i].1 <= |z|
    requires forall i :: 0 <= i < |t| ==> 0 <= t[i].0 <= t[i].1 <= |z|
    ensures TotalCost(z, s + t) == TotalCost(z, s) + TotalCost(z, t)
  {
    hide Cost;
    if t == [] {
      assert s + t == s;
    } else {
      assert (s + t)[..|s + t| - 1] == s + t[..|t| - 1];
      TotalCostConcat(z, s, t[..|t| - 1]);
    }
  }

  /** A place where a segment may be cut. */
  ghost predicate Candidate(segs: seq<Segment>, si: nat, cut: int) {
    && si < |segs| && segs[si].1 - segs[si].0 >= 2 * MIN_SEG_BINS
    && segs[si].0 + MIN_SEG_BINS <= cut < segs[si].1 - MIN_SEG_BINS
  }

  ghost function GainAt(z: seq<Row>, segs: seq<Segment>, si: nat, cut: int): real
    requires Partition(segs, |z|) && Candidate(segs, si, cut)
  {
    Gain(z, segs[si].0, cut, segs[si].1)
  }

  /** Candidate (si, cut) comes before (sj, cut2) in the search. */
  predicate Earlier(si: nat, cut: int, sj: nat, cut2: int) {
    si < sj || (si == sj && cut < cut2)
  }

  datatype Best = None | Best(gain: real, si: nat, cut: nat)

  /** The first of the cuts with the largest gain among those searched, before (sj, cut). */
  ghost predicate IsBest(z: seq<Row>, segs: seq<Segment>, best: Best, sj: nat, cut: int)
    requires Partition(segs, |z|)
  {
    match best
    case None => forall i, c :: Candidate(segs, i, c) ==> !Earlier(i, c, sj, cut)
    case Best(gain, si, at) =>
      && Candidate(segs, si, at) && Earlier(si, at, sj, cut) && gain == GainAt(z, segs, si, at)
      && (forall i, c :: Candidate(segs, i, c) && Earlier(i, c, sj, cut) ==> GainAt(z, segs, i, c) <= gain)
      && (forall i, c :: Candidate(segs, i, c) && Earlier(i, c, si, at) ==> GainAt(z, segs, i, c) < gain)
  }

  /** The search over all segments and cuts. */
  method FindBest(z: seq<Row>, segs: seq<Segment>) returns (best: Best)
    requires Partition(segs, |z|)
    ensures IsBest(z, segs, best, |segs|, 0)
  {
    hide Cost;
    best := None;
    for si := 0 to |segs|
      invariant IsBest(z, segs, best, si, 0)
    {
      var a, b := segs[si].0, segs[si].1;
      if b - a >= 2 * MIN_SEG_BINS {
        var base := Cost(z, a, b);
        for cut := a + MIN_SEG_BINS to b - MIN_SEG_BINS
          invariant IsBest(z, segs, best, si, cut)
        {
          var gain := base - Cost(z, a, cut) - Cost(z, cut, b);
          assert gain == GainAt(z, segs, si, cut);
          if best == None || gain > best.gain {
            best := Best(gain, si, cut);
          }
        }
      }
    }
  }

  function MaxReal(x: real, y: real): real { if x < y then y else x }

  /** The gain a split must reach. */
  function Threshold(total: real): real {
    GAIN_FRAC * MaxReal(total, 0.000000000001)
  }

  /** segs[si:si + 1] = [(a, cut), (cut, b)] */
  function Split(segs: seq<Segment>, si: nat, cut: int): seq<Segment>
    requires si < |segs|
  {
    segs[..si] + [(segs[si].0, cut), (cut, segs[si].1)] + segs[si + 1..]
  }

  lemma SplitAt(segs: seq<Segment>, si: nat, cut: int)
    requires si < |segs|
    ensures var r := Split(segs, si, cut);
            && |r| == |segs| + 1
            && (forall i :: 0 <= i < si ==> r[i] == segs[i])
            && r[si] == (segs[si].0, cut) && r[si + 1] == (cut, segs[si].1)
            && (forall i :: si + 1 < i < |r| ==> r[i] == segs[i - 1])
  {
  }

  lemma SplitIsPartition(segs: seq<Segment>, si: nat, cut: int, n: nat)
    requires Partition(segs, n) && Candidate(segs, si, cut)
    ensures Partition(Split(segs, si, cut), n)
  {
    hide Split;
    SplitAt(segs, si, cut);
    var r := Split(segs, si, cut);
    forall i | 0 < i < |r| ensures r[i - 1].1 == r[i].0 {
      if i < si || i > si + 2 {
        assert segs[if i < si then i else i - 1] == r[i];
      }
    }
  }

  lemma SplitKeeps(z: seq<Row>, segs: seq<Segment>, si: nat, cut: int)
    requires Partition(segs, |z|) && LongEnough(segs) && Candidate(segs, si, cut)
    ensures Partition(Split(segs, si, cut), |z|) && LongEnough(Split(segs, si, cut))
    ensures |Split(segs, si, cut)| == |segs| + 1
  {
    hide Split, Partition;
    SplitIsPartition(segs, si, cut, |z|);
    SplitAt(segs, si, cut);
  }

  lemma SplitCost(z: seq<Row>, segs: seq<Segment>, si: nat, cut: int)
    requires Partition(segs, |z|) && Candidate(segs, si, cut) && Partition(Split(segs, si, cut), |z|)
    ensures TotalCost(z, Split(segs, si, cut)) == TotalCost(z, segs) - GainAt(z, segs, si, cut)
  {
    hide Cost, TotalCost;
    var (a, b) := segs[si];
    var left, right := segs[..si], segs[si + 1..];
    assert segs == left + [(a, b)] + right;
    TotalCostConcat(z, left, [(a, b)]);
    TotalCostConcat(z, left + [(a, b)], right);
    TotalCostConcat(z, left, [(a, cut), (cut, b)]);
    TotalCostConcat(z, left + [(a, cut), (cut, b)], right);
    assert [(a, cut), (cut, b)] == [(a, cut)] + [(cut, b)];
    TotalCostConcat(z, [(a, cut)], [(cut, b)]);
    CostOfOne(z, a, b);
    CostOfOne(z, a, cut);
    CostOfOne(z, cut, b);
  }

  lemma CostOfOne(z: seq<Row>, a: int, b: int)
    requires 0 <= a <= b <= |z|
    ensures TotalCost(z, [(a, b)]) == Cost(z, a, b)
  {
    hide Cost;
    var one: seq<Segment> := [(a, b)];
    assert one[..0] == [];
  }

  /** Segmentations are sorted lists, so sorting the result changes nothing. */
  lemma PartitionIsSorted(segs: seq<Segment>, n: nat)
    requires Partition(segs, n)
    ensures Sort(segs) == segs && forall i, j :: 0 <= i < j < |segs| ==> LexLe(segs[i], segs[j])
  {
    forall i, j | 0 <= i < j < |segs| ensures LexLe(segs[i], segs[j]) {
      Ordered(segs, n, i, j);
    }
    SortedIsUnique(Sort(segs), segs);
  }

  lemma {:induction false} Ordered(segs: seq<Segment>, n: nat, i: nat, j: nat)
    requires Partition(segs, n) && i < j < |segs|
    ensures segs[i].1 <= segs[j].0
  {
    if i + 1 < j {
      Ordered(segs, n, i, j - 1);
    }
  }

  /** What the loop keeps: a segmentation whose every cut has paid its threshold. */
  ghost predicate Segmented(z: seq<Row>, segs: seq<Segment>, total: real) {
    && Partition(segs, |z|) && LongEnough(segs)
    && TotalCost(z, segs) <= total - (|segs| - 1) as real * Threshold(total)
  }

  lemma SplitStep(z: seq<Row>, segs: seq<Segment>, total: real, best: Best)
    requires Segmented(z, segs, total) && IsBest(z, segs, best, |segs|, 0)
    requires best != None && best.gain >= Threshold(total)
    ensures best.si < |segs| && Segmented(z, Split(segs, best.si, best.cut), total)
    ensures |Split(segs, best.si, best.cut)| == |segs| + 1
  {
    hide Cost, GainAt, LongEnough, Split;
    SplitKeeps(z, segs, best.si, best.cut);
    SplitCost(z, segs, best.si, best.cut);
    OneMore(|segs| - 1, Threshold(total));
  }

  /** The search has found nothing worth cutting. */
  ghost predicate Settled(z: seq<Row>, segs: seq<Segment>, total: real)
    requires Partition(segs, |z|)
  {
    forall si, cut :: Candidate(segs, si, cut) ==> GainAt(z, segs, si, cut) < Threshold(total)
  }

  lemma NothingWorthIt(z: seq<Row>, segs: seq<Segment>, total: real, best: Best)
    requires Partition(segs, |z|) && IsBest(z, segs, best, |segs|, 0)
    requires best == None || best.gain < Threshold(total)
    ensures Settled(z, segs, total)
  {
    hide GainAt;
    forall si, cut | Candidate(segs, si, cut) ensures GainAt(z, segs, si, cut) < Threshold(total) {
      assert Earlier(si, cut, |segs|, 0);
    }
  }

  /** One more cut: the best one, and worth it. */
  ghost predicate BestCut(z: seq<Row>, before: seq<Segment>, after: seq<Segment>, total: real) {
    Partition(before, |z|) &&
    exists best: Best :: best != None && IsBest(z, before, best, |before|, 0) && best.gain >= Threshold(total)
                         && best.si < |before| && after == Split(before, best.si, best.cut)
  }

  /** The segmentations from the whole series on, each made from the one before by its best cut. */
  ghost predicate Greedy(z: seq<Row>, chain: seq<seq<Segment>>, total: real) {
    && chain != [] && chain[0] == [(0, |z|)]
    && forall i :: 0 < i < |chain| ==> BestCut(z, chain[i - 1], chain[i], total)
  }

  ghost predicate GreedyTo(z: seq<Row>, segs: seq<Segment>, total: real) {
    exists chain: seq<seq<Segment>> :: Greedy(z, chain, total) && chain[|chain| - 1] == segs
  }

  lemma GreedyMore(z: seq<Row>, segs: seq<Segment>, more: seq<Segment>, total: real)
    requires GreedyTo(z, segs, total) && BestCut(z, segs, more, total)
    ensures GreedyTo(z, more, total)
  {
    hide BestCut;
    var chain: seq<seq<Segment>> :| Greedy(z, chain, total) && chain[|chain| - 1] == segs;
    var longer := chain + [more];
    forall i | 0 < i < |longer| ensures BestCut(z, longer[i - 1], longer[i], total) {
      if i < |chain| {
        assert BestCut(z, chain[i - 1], chain[i], total);
      }
    }
    assert Greedy(z, longer, total);
  }

  /** `segment`: a partition into at most MAX_PHASES pieces, each long enough once there is more
      than one; every accepted cut is the best one, pays for itself, and the search ends only when
      the phases are used up or no cut is worth it. */
  method Segments(z: seq<Row>) returns (segs: seq<Segment>)
    ensures Partition(segs, |z|) && LongEnough(segs) && 1 <= |segs| <= MAX_PHASES
    ensures forall i, j :: 0 <= i < j < |segs| ==> LexLe(segs[i], segs[j])
    ensures TotalCost(z, segs) <= Cost(z, 0, |z|) - (|segs| - 1) as real * Threshold(Cost(z, 0, |z|))
    ensures |segs| == MAX_PHASES || Settled(z, segs, Cost(z, 0, |z|))
    ensures GreedyTo(z, segs, Cost(z, 0, |z|))
  {
    hide GreedyTo, BestCut, Cost, Segmented, IsBest, Threshold, Partition, LongEnough, TotalCost, Split, Settled, Sort;
    var total := Cost(z, 0, |z|);
    segs := [(0, |z|)];
    OneSegment(z, total);
    while |segs| < MAX_PHASES
      invariant Segmented(z, segs, total) && Partition(segs, |z|) && 1 <= |segs| <= MAX_PHASES
      invariant GreedyTo(z, segs, total)
      decreases MAX_PHASES - |segs|
    {
      var best := FindBest(z, segs);
      if best == None || best.gain < Threshold(total) {
        NothingWorthIt(z, segs, total, best);
        break;
      }
      SplitStep(z, segs, total, best);
      CutIsBest(z, segs, total, best);
      GreedyMore(z, segs, Split(segs, best.si, best.cut), total);
      segs := Split(segs, best.si, best.cut);
      SegmentedIs(z, segs, total);
    }
    PartitionIsSorted(segs, |z|);
    segs := Sort(segs);
    SegmentedIs(z, segs, total);
  }

  lemma CutIsBest(z: seq<Row>, segs: seq<Segment>, total: real, best: Best)
    requires Partition(segs, |z|) && IsBest(z, segs, best, |segs|, 0) && best != None && best.gain >= Threshold(total)
    requires best.si < |segs|
    ensures BestCut(z, segs, Split(segs, best.si, best.cut), total)
  {
    hide IsBest, Partition, Split, Threshold;
  }

  lemma SegmentedIs(z: seq<Row>, segs: seq<Segment>, total: real)
    requires Segmented(z, segs, total)
    ensures Partition(segs, |z|) && LongEnough(segs)
    ensures TotalCost(z, segs) <= total - (|segs| - 1) as real * Threshold(total)
  {
  }

  lemma OneSegment(z: seq<Row>, total: real)
    requires total == Cost(z, 0, |z|)
    ensures Partition([(0, |z|)], |z|) && Segmented(z, [(0, |z|)], total) && GreedyTo(z, [(0, |z|)], total)
  {
    hide Cost, Threshold;
    var whole: seq<Segment> := [(0, |z|)];
    assert Greedy(z, [whole], total);
    CostOfOne(z, 0, |z|);
    OneMore(-1, Threshold(total));
  }

  lemma OneMore(k: int, t: real)
    ensures (k + 1) as real * t == k as real * t + t
  {
  }

  /** What the loop's bound means over all phases: the cost is never negative, so the cuts made
      cannot together have gained more than the initial cost. */
  lemma {:induction false} TotalCostNonNegative(z: seq<Row>, segs: seq<Segment>)
    requires forall i :: 0 <= i < |segs| ==> 0 <= segs[i].0 <= segs[i].1 <= |z|
    ensures TotalCost(z, segs) >= 0.0
  {
    if segs != [] {
      hide CostUpTo;
      TotalCostNonNegative(z, segs[..|segs| - 1]);
      var (a, b) := segs[|segs| - 1];
      if b - a > 1 {
        GainNonNegative(z, a, a + 1, b);
      }
    }
  }

  /** A series without variation stays one phase. */
  lemma FlatSeries(z: seq<Row>, segs: seq<Segment>)
    requires Partition(segs, |z|) && Cost(z, 0, |z|) == 0.0
    requires TotalCost(z, segs) <= Cost(z, 0, |z|) - (|segs| - 1) as real * Threshold(Cost(z, 0, |z|))
    ensures segs == [(0, |z|)]
  {
    hide Cost, TotalCost;
    TotalCostNonNegative(z, segs);
    assert Threshold(0.0) > 0.0;
  }

  // ---------- Coarse bins ----------

  /** round(nb / 500): Python rounds a half to the even neighbour. */
  const TARGET_BINS: nat := 500

  function BinsPerCoarse(nb: nat): (k: nat)
    ensures k >= 1
    ensures nb > 0 ==> k <= nb
    ensures nb >= TARGET_BINS / 2 ==> -(TARGET_BINS as int) <= 2 * nb - 2 * k * TARGET_BINS <= TARGET_BINS
    ensures nb > TARGET_BINS / 2 ==>
              2 * nb - 2 * k * TARGET_BINS == TARGET_BINS || 2 * k * TARGET_BINS - 2 * nb == TARGET_BINS ==> k % 2 == 0
  {
    var q, r := nb / TARGET_BINS, nb % TARGET_BINS;
    var rounded := if 2 * r < TARGET_BINS || (2 * r == TARGET_BINS && q % 2 == 0) then q else q + 1;
    if rounded < 1 then 1 else rounded
  }

  /** The mean of a feature over one group of k base bins. */
  function GroupMean(series: seq<Row>, f: nat, i: nat, k: nat): real
    requires f < FEATURES && k > 0 && i + k <= |series|
  {
    Sum(series, f, i, i + k) / k as real
  }

  function GroupRow(series: seq<Row>, i: nat, k: nat): Row
    requires k > 0 && i + k <= |series|
  {
    seq(FEATURES, f requires 0 <= f < FEATURES => GroupMean(series, f, i, k))
  }

  /** Where coarse bin j begins. */
  function Offset(j: nat, k: nat): nat { j * k }

  lemma OffsetMore(j: nat, k: nat)
    ensures Offset(j + 1, k) == Offset(j, k) + k && Offset(0, k) == 0
  {
    Distributes(j, 1, k);
  }

  lemma GroupFits(j: nat, k: nat, n: nat)
    requires k > 0
    ensures Offset(j, k) + k <= n <==> j < n / k
  {
    var q := n / k;
    DivMod(n, k);
    Commutes(q, k);
    Distributes(j, 1, k);
    if j < q {
      ScaleMonotone(j + 1, q, k);
    } else {
      ScaleMonotone(q, j, k);
    }
  }

  /** _aggregate: one coarse bin for each full group of k base bins; a shorter rest is dropped. */
  method Aggregate(series: seq<Row>, k: nat) returns (out: seq<Row>)
    requires k > 0
    ensures |out| == |series| / k
    ensures forall j :: 0 <= j < |out| ==> Offset(j, k) + k <= |series| && out[j] == GroupRow(series, Offset(j, k), k)
  {
    hide GroupRow, Offset;
    out := [];
    var i := 0;
    OffsetMore(0, k);
    while i < |series| - k + 1
      invariant i == Offset(|out|, k) && |out| <= |series| / k
      invariant forall j :: 0 <= j < |out| ==> Offset(j, k) + k <= |series| && out[j] == GroupRow(series, Offset(j, k), k)
      decreases |series| - i
    {
      GroupFits(|out|, k, |series|);
      OffsetMore(|out|, k);
      out := out + [GroupRow(series, i, k)];
      i := i + k;
    }
    GroupFits(|out|, k, |series|);
  }

  lemma {:induction false} SumSplits(z: seq<Row>, f: nat, a: nat, c: nat, b: nat)
    requires f < FEATURES && a <= c <= b <= |z|
    ensures Sum(z, f, a, b) == Sum(z, f, a, c) + Sum(z, f, c, b)
    decreases b - c
  {
    if c < b {
      SumSplits(z, f, a, c, b - 1);
    }
  }

  /** k times x. */
  ghost function Scaled(x: real, k: nat): real { x * k as real }

  lemma ScaledAdds(x: real, y: real, k: nat)
    ensures Scaled(x + y, k) == Scaled(x, k) + Scaled(y, k) && Scaled(0.0, k) == 0.0
  {
  }

  lemma ScaledMean(series: seq<Row>, f: nat, i: nat, k: nat)
    requires f < FEATURES && k > 0 && i + k <= |series|
    ensures Scaled(GroupRow(series, i, k)[f], k) == Sum(series, f, i, i + k)
  {
    hide Sum;
  }

  lemma SumLast(z: seq<Row>, f: nat, b: nat)
    requires f < FEATURES && b <= |z|
    ensures Sum(z, f, 0, b) == if b == 0 then 0.0 else Sum(z, f, 0, b - 1) + z[b - 1][f]
  {
  }

  /** Averaging loses nothing of the bins it keeps: k times the coarse total is the fine total. */
  lemma {:induction false} AggregateConserves(series: seq<Row>, out: seq<Row>, k: nat, f: nat, j: nat)
    requires k > 0 && f < FEATURES && j <= |out|
    requires forall i :: 0 <= i < |out| ==> Offset(i, k) + k <= |series| && out[i] == GroupRow(series, Offset(i, k), k)
    ensures Offset(j, k) <= |series| && Scaled(Sum(out, f, 0, j), k) == Sum(series, f, 0, Offset(j, k))
  {
    hide Sum, GroupRow, Offset, Scaled;
    SumLast(out, f, j);
    if j == 0 {
      OffsetMore(0, k);
      ScaledAdds(0.0, 0.0, k);
      SumLast(series, f, 0);
    } else {
      AggregateConserves(series, out, k, f, j - 1);
      var at := Offset(j - 1, k);
      OffsetMore(j - 1, k);
      SumSplits(series, f, 0, at, at + k);
      ScaledMean(series, f, at, k);
      ScaledAdds(Sum(out, f, 0, j - 1), out[j - 1][f], k);
    }
  }

  /** A phase in coarse bins, mapped back to fine ones. */
  function ToFine(s: Segment, k: nat, nb: nat): Segment {
    (s.0 * k, if s.1 * k < nb then s.1 * k else nb)
  }

  function AllToFine(segs: seq<Segment>, k: nat, nb: nat): seq<Segment> {
    seq(|segs|, i requires 0 <= i < |segs| => ToFine(segs[i], k, nb))
  }

  /** The mapped phases are k times their coarse bins, contiguous, and cover the base bins that make up
      full groups; they cover the whole run exactly when k divides the number of base bins. */
  lemma PhasesCover(segs: seq<Segment>, k: nat, nb: nat)
    requires k > 0 && Partition(segs, nb / k)
    ensures Partition(AllToFine(segs, k, nb), nb / k * k)
    ensures Partition(AllToFine(segs, k, nb), nb) <==> nb % k == 0
    ensures forall i :: 0 <= i < |segs| ==> AllToFine(segs, k, nb)[i] == (segs[i].0 * k, segs[i].1 * k)
  {
    var fine, m := AllToFine(segs, k, nb), nb / k;
    assert nb == m * k + nb % k;
    forall i | 0 <= i < |segs| ensures fine[i] == (segs[i].0 * k, segs[i].1 * k) && 0 <= fine[i].0 <= fine[i].1 <= m * k {
      ScaleMonotone(0, segs[i].0, k);
      ScaleMonotone(segs[i].0, segs[i].1, k);
      ScaleMonotone(segs[i].1, m, k);
    }
  }

  /** What `analyze` does with nb bins: all of them are covered exactly when its coarse factor divides
      nb, and it always does below 750 bins, where the factor is 1. */
  lemma AnalysisCovers(segs: seq<Segment>, nb: nat)
    requires nb > 0 && Partition(segs, nb / BinsPerCoarse(nb))
    ensures var k := BinsPerCoarse(nb);
            && (Partition(AllToFine(segs, k, nb), nb) <==> nb % k == 0)
            && (k == 1 <==> nb < 750)
  {
    PhasesCover(segs, BinsPerCoarse(nb), nb);
  }

  /** With 751 bins the last one belongs to no phase. */
  lemma LastBinIsMissed(segs: seq<Segment>)
    requires Partition(segs, 375)
    ensures BinsPerCoarse(751) == 2 && Partition(AllToFine(segs, 2, 751), 750) && !Partition(AllToFine(segs, 2, 751), 751)
  {
    PhasesCover(segs, 2, 751);
  }
}
