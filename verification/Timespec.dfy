/** struct timespec and the helpers of src/pinsight_sampler.c and src/pinsight_control_thread.c. */
module Timespec {
  const NSEC_PER_SEC: int := 1_000_000_000

  datatype Timespec = Timespec(sec: int, nsec: int)

  /** The fraction is a proper one. */
  predicate Normal(t: Timespec) {
    0 <= t.nsec < NSEC_PER_SEC
  }

  /** The time in nanoseconds. */
  function Ns(t: Timespec): int {
    t.sec * NSEC_PER_SEC + t.nsec
  }

  /** ts_add_us */
  method AddUs(t: Timespec, us: nat) returns (r: Timespec)
    requires Normal(t)
    ensures Normal(r) && Ns(r) == Ns(t) + us * 1000
  {
    var sec := t.sec + us / 1_000_000;
    var nsec := t.nsec + us % 1_000_000 * 1000;
    if nsec >= NSEC_PER_SEC {
      sec := sec + 1;
      nsec := nsec - NSEC_PER_SEC;
    }
    r := Timespec(sec, nsec);
  }

  /** ts_diff_ns: a - b in nanoseconds. */
  function DiffNs(a: Timespec, b: Timespec): (d: int)
    ensures d == Ns(a) - Ns(b)
  {
    (a.sec - b.sec) * NSEC_PER_SEC + (a.nsec - b.nsec)
  }

  /** ts_before: the lexicographic comparison is the comparison of times. */
  predicate Before(a: Timespec, b: Timespec)
    requires Normal(a) && Normal(b)
    ensures Before(a, b) <==> Ns(a) < Ns(b)
  {
    a.sec < b.sec || (a.sec == b.sec && a.nsec < b.nsec)
  }
}
