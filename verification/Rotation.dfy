/** The rotating GPU-activity collector: which local rank the node-wide clock selects
    (src/roctracer_callback.c, src/cupti_callback.c), and when the control thread wakes for the
    next turn (src/pinsight_control_thread.c). Times are milliseconds of the monotonic clock. */
module Rotation {
  import opened Numbering
  import opened Timespec

  /** The local rank that collects at millisecond t, with n ranks and period p. */
  function Collector(t: nat, p: nat, n: nat): (r: nat)
    requires p > 0 && n > 0
    ensures r < n
  {
    t / p % n
  }

  /** How many of the milliseconds from..from+len-1 rank r collects. */
  ghost function Share(from: nat, len: nat, p: nat, n: nat, r: nat): nat
    requires p > 0 && n > 0
  {
    if len == 0 then 0
    else Share(from, len - 1, p, n, r) + (if Collector(from + len - 1, p, n) == r then 1 else 0)
  }

  lemma {:induction false} ShareSplits(from: nat, len: nat, more: nat, p: nat, n: nat, r: nat)
    requires p > 0 && n > 0
    ensures Share(from, len + more, p, n, r) == Share(from, len, p, n, r) + Share(from + len, more, p, n, r)
    decreases more
  {
    if more > 0 {
      ShareSplits(from, len, more - 1, p, n, r);
      assert from + len + more - 1 == from + (len + more) - 1;
    }
  }

  /** Within one slot the collector does not change. */
  lemma {:induction false} SlotShare(k: nat, len: nat, p: nat, n: nat, r: nat)
    requires p > 0 && n > 0 && len <= p
    ensures Share(p * k, len, p, n, r) == if k % n == r then len else 0
  {
    if len > 0 {
      SlotShare(k, len - 1, p, n, r);
      DivModUnique(p * k + len - 1, p, k, len - 1);
    }
  }

  /** The first j slots of a round give rank r its slot once j has passed r. */
  lemma {:induction false} RoundShare(j: nat, p: nat, n: nat, r: nat)
    requires p > 0 && r < n && j <= n
    ensures Share(0, p * j, p, n, r) == if r < j then p else 0
  {
    if j > 0 {
      RoundShare(j - 1, p, n, r);
      assert p * j == p * (j - 1) + p;
      ShareSplits(0, p * (j - 1), p, p, n, r);
      SlotShare(j - 1, p, p, n, r);
      DivModUnique(j - 1, n, 0, j - 1);
    } else {
      assert p * 0 == 0;
    }
  }

  /** The selection repeats after n slots. */
  lemma CollectorRepeats(t: nat, p: nat, n: nat)
    requires p > 0 && n > 0
    ensures Collector(t + p * n, p, n) == Collector(t, p, n)
  {
    AddMultiple(t, p, n);
    AddMultiple(t / p, n, 1);
  }

  lemma AddMultiple(a: nat, s: nat, k: nat)
    requires s > 0
    ensures (a + s * k) / s == a / s + k && (a + s * k) % s == a % s
  {
    assert s * (a / s + k) == s * (a / s) + s * k;
    DivModUnique(a + s * k, s, a / s + k, a % s);
  }

  /** Whatever millisecond a window of n * p of them starts at, each rank collects exactly p. */
  lemma {:induction false} FairShare(from: nat, p: nat, n: nat, r: nat)
    requires p > 0 && r < n
    ensures Share(from, p * n, p, n, r) == p
    decreases from
  {
    if from == 0 {
      RoundShare(n, p, n, r);
    } else {
      FairShare(from - 1, p, n, r);
      var len := p * n;
      ShareSplits(from - 1, len, 1, p, n, r);
      ShareSplits(from - 1, 1, len, p, n, r);
      OneMore(from - 1 + len, p, n, r);
      OneMore(from - 1, p, n, r);
      CollectorRepeats(from - 1, p, n);
    }
  }

  lemma OneMore(at: nat, p: nat, n: nat, r: nat)
    requires p > 0 && n > 0
    ensures Share(at, 1, p, n, r) == if Collector(at, p, n) == r then 1 else 0
  {
    assert Share(at, 0, p, n, r) == 0;
  }

  // ---------- The wake for the next turn ----------

  /** Milliseconds until the control thread's wake: past the next slot boundary by two. */
  function RemainingMs(monoMs: nat, p: nat): (ms: nat)
    requires p > 0
    ensures ms == p - monoMs % p + 2
  {
    p - monoMs % p + 2
  }

  /** The wake falls in the very next slot exactly when a slot is at least three milliseconds. */
  lemma WakesInNextSlot(monoMs: nat, p: nat)
    requires p > 0
    ensures (monoMs + RemainingMs(monoMs, p)) / p == monoMs / p + 1 <==> p >= 3
  {
    var q, m := monoMs / p, monoMs % p;
    assert monoMs == p * q + m;
    assert p * (q + 1) == p * q + p;
    var wake := monoMs + RemainingMs(monoMs, p);
    assert wake == p * (q + 1) + 2;
    if p >= 3 {
      DivModUnique(wake, p, q + 1, 2);
    } else if p == 2 {
      DivModUnique(wake, 2, q + 2, 0);
    } else {
      DivModUnique(wake, 1, q + 3, 0);
    }
  }

  /** The absolute deadline on the realtime clock, from the monotonic time and the period. */
  method RotateDeadline(mono: Timespec, rt: Timespec, p: nat) returns (deadline: Timespec)
    requires p > 0 && Normal(mono) && mono.sec >= 0 && Normal(rt)
    ensures Normal(deadline)
    ensures Ns(deadline) == Ns(rt) + RemainingMs(mono.sec * 1000 + mono.nsec / 1_000_000, p) * 1_000_000
  {
    var monoMs := mono.sec * 1000 + mono.nsec / 1_000_000;
    var remMs := p - monoMs % p + 2;
    var ns := rt.nsec + remMs % 1000 * 1_000_000;
    deadline := Timespec(rt.sec + remMs / 1000 + ns / NSEC_PER_SEC, ns % NSEC_PER_SEC);
  }
}
