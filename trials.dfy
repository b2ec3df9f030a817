/** The timing summary each benchmark prints: over the trials 1 .. NTIMES - 1
    (trial 0 is a warm-up and is skipped) it accumulates the total, the
    minimum starting from FLT_MAX and the maximum starting from 0, then
    divides the total by NTIMES - 1. Also the byte count that the best rate
    is computed from.

    Times are modelled as exact reals: the minimum and the maximum only need
    comparisons, and the average is stated for exact arithmetic. */
module Trials {
  import opened Config

  /** FLT_MAX of <float.h>, the start value of mintime. */
  const FLT_MAX: real := 340282346638528859811704183484516925440.0

  /** MIN(x, y) of shmem_tests.h: ((x) < (y) ? (x) : (y)). */
  function Min(x: real, y: real): (r: real)
    ensures r <= x && r <= y && (r == x || r == y)
  {
    if x < y then x else y
  }

  /** MAX(x, y) of shmem_tests.h: ((x) > (y) ? (x) : (y)). */
  function Max(x: real, y: real): (r: real)
    ensures r >= x && r >= y && (r == x || r == y)
  {
    if x > y then x else y
  }

  /** The total of the samples, added in order (avgtime before its
      division). */
  function Sum(s: seq<real>): real {
    if s == [] then 0.0 else Sum(s[..|s| - 1]) + s[|s| - 1]
  }

  /** mintime after folding MIN over the samples, starting from FLT_MAX: it
      never rises above its start value, and it stays at that value only
      when no sample is below it. */
  function RunningMin(s: seq<real>): (r: real)
    ensures r <= FLT_MAX
    ensures (exists k :: 0 <= k < |s| && s[k] < FLT_MAX) ==> r < FLT_MAX
  {
    if s == [] then FLT_MAX else Min(RunningMin(s[..|s| - 1]), s[|s| - 1])
  }

  /** maxtime after folding MAX over the samples, starting from 0: it never
      falls below its start value, and it leaves it whenever a sample is
      above it. */
  function RunningMax(s: seq<real>): (r: real)
    ensures r >= 0.0
    ensures (exists k :: 0 <= k < |s| && s[k] > 0.0) ==> r > 0.0
  {
    if s == [] then 0.0 else Max(RunningMax(s[..|s| - 1]), s[|s| - 1])
  }

  /** The trial times from the clock readings around each trial: trial k is
      read before (clock[2k]) and after (clock[2k + 1]) its copy. */
  function Elapsed(clock: seq<real>, ntimes: nat): (times: seq<real>)
    requires |clock| == 2 * ntimes
    ensures |times| == ntimes
  {
    seq(ntimes, k requires 0 <= k < ntimes => clock[2 * k + 1] - clock[2 * k])
  }

  /** The three figures printed for a benchmark. */
  datatype Summary = Summary(avg: real, min: real, max: real)

  /** The summary of all trials: the warm-up trial 0 is dropped and the
      average is taken over the NTIMES - 1 others. */
  function Summarize(times: seq<real>): (r: Summary)
    requires |times| >= 2
    ensures forall k :: 1 <= k < |times| ==> r.min <= times[k] <= r.max
    ensures r.min <= r.avg <= r.max
  {
    var s := times[1..];
    RunningMinBound(s);
    RunningMaxBound(s);
    MeanBetween(s);
    assert forall k :: 1 <= k < |times| ==> times[k] == s[k - 1];
    Summary(Sum(s) / ((|times| - 1) as real), RunningMin(s), RunningMax(s))
  }

  /** mintime is at most every sample and at most FLT_MAX, and it is either
      FLT_MAX or one of the samples. */
  lemma {:induction false} RunningMinBound(s: seq<real>)
    ensures RunningMin(s) <= FLT_MAX
    ensures forall k :: 0 <= k < |s| ==> RunningMin(s) <= s[k]
    ensures RunningMin(s) == FLT_MAX || exists k :: 0 <= k < |s| && RunningMin(s) == s[k]
  {
    if s != [] {
      var p := s[..|s| - 1];
      RunningMinBound(p);
      assert forall k :: 0 <= k < |p| ==> s[k] == p[k];
      if RunningMin(s) != FLT_MAX && RunningMin(s) != s[|s| - 1] {
        var k :| 0 <= k < |p| && RunningMin(p) == p[k];
        assert RunningMin(s) == s[k];
      }
    }
  }

  /** Given samples below FLT_MAX, mintime is the smallest sample. */
  lemma MinAttained(s: seq<real>)
    requires s != []
    requires forall k :: 0 <= k < |s| ==> s[k] < FLT_MAX
    ensures exists k :: 0 <= k < |s| && RunningMin(s) == s[k]
    ensures forall k :: 0 <= k < |s| ==> RunningMin(s) <= s[k]
  {
    RunningMinBound(s);
  }

  /** maxtime is at least every sample and at least 0, and it is either 0 or
      one of the samples. */
  lemma {:induction false} RunningMaxBound(s: seq<real>)
    ensures RunningMax(s) >= 0.0
    ensures forall k :: 0 <= k < |s| ==> RunningMax(s) >= s[k]
    ensures RunningMax(s) == 0.0 || exists k :: 0 <= k < |s| && RunningMax(s) == s[k]
  {
    if s != [] {
      var p := s[..|s| - 1];
      RunningMaxBound(p);
      assert forall k :: 0 <= k < |p| ==> s[k] == p[k];
      if RunningMax(s) != 0.0 && RunningMax(s) != s[|s| - 1] {
        var k :| 0 <= k < |p| && RunningMax(p) == p[k];
        assert RunningMax(s) == s[k];
      }
    }
  }

  /** Given a non-negative sample, maxtime is the largest sample. */
  lemma MaxAttained(s: seq<real>)
    requires exists k :: 0 <= k < |s| && s[k] >= 0.0
    ensures exists k :: 0 <= k < |s| && RunningMax(s) == s[k]
    ensures forall k :: 0 <= k < |s| ==> RunningMax(s) >= s[k]
  {
    RunningMaxBound(s);
  }

  /** The total lies between |s| times any lower bound and |s| times any
      upper bound of the samples. */
  lemma {:induction false} SumBetween(s: seq<real>, lo: real, hi: real)
    requires forall k :: 0 <= k < |s| ==> lo <= s[k] <= hi
    ensures (|s| as real) * lo <= Sum(s) <= (|s| as real) * hi
  {
    if s != [] {
      var p := s[..|s| - 1];
      assert forall k :: 0 <= k < |p| ==> p[k] == s[k];
      SumBetween(p, lo, hi);
      var x := s[|s| - 1];
      assert Sum(s) == Sum(p) + x;
      AddBetween(Sum(p), x, |p| as real, lo, hi);
    }
  }

  lemma AddBetween(a: real, x: real, n: real, lo: real, hi: real)
    requires n * lo <= a <= n * hi && lo <= x <= hi
    ensures (n + 1.0) * lo <= a + x <= (n + 1.0) * hi
  {
  }

  /** The average lies between mintime and maxtime. */
  lemma MeanBetween(s: seq<real>)
    requires s != []
    ensures RunningMin(s) <= Sum(s) / (|s| as real) <= RunningMax(s)
  {
    RunningMinBound(s);
    RunningMaxBound(s);
    MeanOfBounded(s, RunningMin(s), RunningMax(s));
  }

  /** The average of samples between lo and hi is itself between them. */
  lemma MeanOfBounded(s: seq<real>, lo: real, hi: real)
    requires s != []
    requires forall k :: 0 <= k < |s| ==> lo <= s[k] <= hi
    ensures lo <= Sum(s) / (|s| as real) <= hi
  {
    var total := Sum(s);
    SumBetween(s, lo, hi);
    DivideBetween(total, |s| as real, lo, hi);
  }

  lemma DivideBetween(a: real, n: real, lo: real, hi: real)
    requires n > 0.0 && n * lo <= a <= n * hi
    ensures lo <= a / n <= hi
  {
  }

  /** Trial 0 has no influence: any warm-up time gives the same summary. */
  lemma WarmupDiscarded(times: seq<real>, t0: real)
    requires |times| >= 2
    ensures Summarize(times[0 := t0]) == Summarize(times)
  {
    assert times[0 := t0][1..] == times[1..];
  }

  /** With two trials the one measured trial is the average, the minimum and,
      when it is not negative, the maximum. */
  lemma SingleMeasuredTrial(times: seq<real>)
    requires |times| == 2 && 0.0 <= times[1] < FLT_MAX
    ensures Summarize(times) == Summary(times[1], times[1], times[1])
  {
    var s := times[1..];
    assert s == [times[1]] && s[..0] == [];
    assert Sum(s) == times[1];
    assert RunningMin(s) == times[1];
    assert RunningMax(s) == times[1];
    assert Sum(s) / 1.0 == times[1];
  }

  /** The accumulation loop and the final division, on the array of trial
      times. */
  method Aggregate(times: array<real>) returns (avgtime: real, mintime: real, maxtime: real)
    requires times.Length >= 2
    ensures Summary(avgtime, mintime, maxtime) == Summarize(times[..])
    ensures forall k :: 1 <= k < times.Length ==> mintime <= times[k] <= maxtime
    ensures mintime <= avgtime <= maxtime
  {
    avgtime := 0.0;
    mintime := FLT_MAX;
    maxtime := 0.0;
    var k := 1;
    while k < times.Length
      invariant 1 <= k <= times.Length
      invariant avgtime == Sum(times[1..k])
      invariant mintime == RunningMin(times[1..k])
      invariant maxtime == RunningMax(times[1..k])
    {
      assert times[1..k + 1][..k - 1] == times[1..k];
      avgtime := avgtime + times[k];
      mintime := Min(mintime, times[k]);
      maxtime := Max(maxtime, times[k]);
      k := k + 1;
    }
    assert times[1..k] == times[..][1..];
    avgtime := avgtime / ((times.Length - 1) as real);
  }

  /** 2^64: size_t arithmetic wraps modulo this. */
  const SIZE_MAX_PLUS_ONE: nat := 0x1_0000_0000_0000_0000

  /** `factor * sizeof(double) * BUF_SIZE` evaluated in size_t. */
  function Bytes(factor: nat, doubleSize: nat, bufSize: nat): (b: nat)
    ensures b < SIZE_MAX_PLUS_ONE
    ensures factor * doubleSize * bufSize < SIZE_MAX_PLUS_ONE ==> b == factor * doubleSize * bufSize
  {
    BytesExact(factor * doubleSize, bufSize);
    ((factor * doubleSize) % SIZE_MAX_PLUS_ONE * bufSize) % SIZE_MAX_PLUS_ONE
  }

  /** A product that fits in size_t is not changed by reducing either step. */
  lemma BytesExact(a: nat, n: nat)
    ensures a * n < SIZE_MAX_PLUS_ONE ==> (a % SIZE_MAX_PLUS_ONE * n) % SIZE_MAX_PLUS_ONE == a * n
  {
    if a * n < SIZE_MAX_PLUS_ONE && n > 0 {
      assert a <= a * n by {
        assert a * n == a * (n - 1) + a;
      }
      assert a % SIZE_MAX_PLUS_ONE == a;
    }
  }

  /** With the configured sizes no size_t product wraps: the copy benchmarks
      count 8 * BUF_SIZE bytes of shmem_tests.h (BW_CONVENTION 1), and the
      POSIX reader counts 2 * 8 bytes of each of its own POSIX_BUF_SIZE
      doubles. */
  lemma ConfiguredBytes()
    ensures Bytes(BW_CONVENTION, DOUBLE_SIZE, BUF_SIZE) == 640000000
    ensures Bytes(2, DOUBLE_SIZE, POSIX_BUF_SIZE) == 160000000
  {
  }
}
