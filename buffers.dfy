/** The benchmarks' array loops: the fills that give every element its
    starting value, and the copies of one buffer into another that each timed
    trial performs (a scalar loop, the 4-wide AVX loop, or memcpy).

    The buffers hold doubles whose values (an index or -1) are exact, so they
    are modelled as arrays of integers. */
module Buffers {
  import opened Config
  import opened Trials

  /** The source's fill value that marks an element as not yet read. */
  const INVALID: int := -1

  /** `for (i = 0; i < BUF_SIZE; i++) a[i] = i;` */
  method FillIndex(a: array<int>)
    modifies a
    ensures forall i :: 0 <= i < a.Length ==> a[i] == i
  {
    var i := 0;
    while i < a.Length
      invariant 0 <= i <= a.Length
      invariant forall k :: 0 <= k < i ==> a[k] == k
    {
      a[i] := i;
      i := i + 1;
    }
  }

  /** `for (i = 0; i < BUF_SIZE; i++) b[i] = -1;` */
  method Invalidate(b: array<int>)
    modifies b
    ensures forall i :: 0 <= i < b.Length ==> b[i] == INVALID
  {
    var i := 0;
    while i < b.Length
      invariant 0 <= i <= b.Length
      invariant forall k :: 0 <= k < i ==> b[k] == INVALID
    {
      b[i] := INVALID;
      i := i + 1;
    }
  }

  /** The POSIX consumer's loop that sets both of its buffers to -1. */
  method InvalidateBoth(a: array<int>, b: array<int>)
    requires a.Length == b.Length
    modifies a, b
    ensures forall i :: 0 <= i < a.Length ==> a[i] == INVALID && b[i] == INVALID
  {
    var i := 0;
    while i < a.Length
      invariant 0 <= i <= a.Length
      invariant forall k :: 0 <= k < i ==> a[k] == INVALID && b[k] == INVALID
    {
      a[i] := INVALID;
      b[i] := INVALID;
      i := i + 1;
    }
  }

  /** The simple copy benchmark's set-up loop: `a[i] = i; b[i] = -1.0;`. The
      two static arrays are distinct. */
  method InitPair(a: array<int>, b: array<int>)
    requires a != b && a.Length == b.Length
    modifies a, b
    ensures forall i :: 0 <= i < a.Length ==> a[i] == i && b[i] == INVALID
  {
    var i := 0;
    while i < a.Length
      invariant 0 <= i <= a.Length
      invariant forall k :: 0 <= k < i ==> a[k] == k && b[k] == INVALID
    {
      a[i] := i;
      b[i] := INVALID;
      i := i + 1;
    }
  }

  /** The scalar copy `for (i = 0; i < BUF_SIZE; i++) dst[i] = src[i];`,
      used for the `omp simd` variant, the POSIX consumer's read of the shared
      buffer and the producer's write into it. */
  method Copy(dst: array<int>, src: array<int>)
    requires dst != src && dst.Length == src.Length
    modifies dst
    ensures dst[..] == src[..] && src[..] == old(src[..])
  {
    var i := 0;
    while i < dst.Length
      invariant 0 <= i <= dst.Length
      invariant dst[..i] == src[..i]
    {
      dst[i] := src[i];
      assert dst[..i + 1] == dst[..i] + [dst[i]];
      assert src[..i + 1] == src[..i] + [src[i]];
      i := i + 1;
    }
    assert dst[..dst.Length] == dst[..] && src[..src.Length] == src[..];
  }

  /** memcpy(dst, src, sizeof(double) * BUF_SIZE): the whole buffer at once,
      for non-overlapping buffers. */
  method Memcpy(dst: array<int>, src: array<int>)
    requires dst != src && dst.Length == src.Length
    modifies dst
    ensures dst[..] == src[..] && src[..] == old(src[..])
  {
    forall i | 0 <= i < dst.Length {
      dst[i] := src[i];
    }
  }

  /** A byte address is fit for an aligned 256-bit load or store. */
  predicate Aligned(addr: int) {
    addr % ALIGNMENT == 0
  }

  /** The byte address of element i of a buffer of doubles at base. */
  function ElementAddress(base: int, i: nat): int {
    base + DOUBLE_SIZE * i
  }

  /** A multiple of four elements from an aligned base stays aligned. */
  lemma AlignedStep(base: int, i: nat)
    requires Aligned(base) && i % LANES == 0
    ensures Aligned(ElementAddress(base, i))
  {
    var q := i / LANES;
    assert i == LANES * q;
    assert ElementAddress(base, i) == base + ALIGNMENT * q;
  }

  /** _mm256_load_pd(&src[i]): four elements read from an aligned address. */
  method Load4(src: array<int>, i: nat, ghost base: int) returns (v: seq<int>)
    requires i + LANES <= src.Length && Aligned(ElementAddress(base, i))
    ensures v == src[i..i + LANES]
  {
    v := [src[i], src[i + 1], src[i + 2], src[i + 3]];
  }

  /** _mm256_store_pd / _mm256_stream_pd(&dst[i], v): four elements written
      to an aligned address; both leave the same values in memory. */
  method Store4(dst: array<int>, i: nat, v: seq<int>, ghost base: int)
    requires i + LANES <= dst.Length && |v| == LANES && Aligned(ElementAddress(base, i))
    modifies dst
    ensures dst[..] == old(dst[..i]) + v + old(dst[i + LANES..])
  {
    dst[i] := v[0];
    dst[i + 1] := v[1];
    dst[i + 2] := v[2];
    dst[i + 3] := v[3];
  }

  /** The starting indices i = 0, 4, 8, ... of the vector loop below n. */
  function Blocks(n: nat): (r: seq<nat>)
    ensures |r| == (n + LANES - 1) / LANES
    ensures forall j :: 0 <= j < |r| ==> r[j] == LANES * j
  {
    seq((n + LANES - 1) / LANES, j => LANES * j)
  }

  /** The vector step that handles element k. */
  function BlockOf(k: nat): nat {
    k / LANES
  }

  /** When n is a multiple of 4 the blocks of four starting at each vector
      index cover every index below n exactly once and nothing beyond n. */
  lemma BlocksPartition(n: nat)
    requires n % LANES == 0
    ensures forall j :: 0 <= j < |Blocks(n)| ==> Blocks(n)[j] + LANES <= n
    ensures forall k :: 0 <= k < n ==>
      BlockOf(k) < |Blocks(n)| && Blocks(n)[BlockOf(k)] <= k < Blocks(n)[BlockOf(k)] + LANES
    ensures forall j, k :: 0 <= j < |Blocks(n)| && Blocks(n)[j] <= k < Blocks(n)[j] + LANES ==> j == BlockOf(k)
  {
    var b := Blocks(n);
    assert |b| == n / LANES;
  }

  /** The intrinsics loop `for (i = 0; i < BUF_SIZE; i += 4)` with one
      aligned load and one aligned store per step; both buffers come from
      posix_memalign(..., 32, ...). The ghost result lists the indices the
      stores start at. */
  method CopyBy4(dst: array<int>, src: array<int>, ghost dstBase: int, ghost srcBase: int)
      returns (ghost stores: seq<nat>)
    requires dst != src && dst.Length == src.Length && src.Length % LANES == 0
    requires Aligned(dstBase) && Aligned(srcBase)
    modifies dst
    ensures dst[..] == src[..] && src[..] == old(src[..])
    ensures stores == Blocks(src.Length)
  {
    var n := src.Length;
    var i := 0;
    stores := [];
    while i < n
      invariant 0 <= i <= n && i % LANES == 0
      invariant dst[..i] == src[..i]
      invariant stores == Blocks(i)
    {
      AlignedStep(srcBase, i);
      AlignedStep(dstBase, i);
      var v := Load4(src, i, srcBase);
      ghost var before := dst[..i];
      Store4(dst, i, v, dstBase);
      assert dst[..i + LANES] == before + v;
      assert src[..i + LANES] == src[..i] + src[i..i + LANES];
      assert Blocks(i + LANES) == Blocks(i) + [i];
      stores := stores + [i];
      i := i + LANES;
    }
    assert dst[..n] == dst[..] && src[..n] == src[..];
  }

  /** The copy a timed trial performs, as chosen at build time. */
  datatype Strategy =
    | Scalar      // USE_AVX: the `omp simd` loop
    | Intrinsics  // USE_INTRINSICS, with or without USE_STREAMING
    | Library     // neither: memcpy

  /** What a strategy needs of the buffers: distinct buffers of one length,
      and for the intrinsics loop a length in whole vectors and aligned
      bases. */
  predicate CopyFits(strategy: Strategy, n: nat, dstBase: int, srcBase: int) {
    strategy == Intrinsics ==> n % LANES == 0 && Aligned(dstBase) && Aligned(srcBase)
  }

  /** One trial's copy; every strategy leaves dst equal to src. */
  method CopyWith(strategy: Strategy, dst: array<int>, src: array<int>, ghost dstBase: int, ghost srcBase: int)
    requires dst != src && dst.Length == src.Length
    requires CopyFits(strategy, src.Length, dstBase, srcBase)
    modifies dst
    ensures dst[..] == src[..] && src[..] == old(src[..])
  {
    match strategy
    case Scalar => Copy(dst, src);
    case Intrinsics => var _ := CopyBy4(dst, src, dstBase, srcBase);
    case Library => Memcpy(dst, src);
  }

  /** The trial loop: `times[k] = mysecond(); copy; times[k] = mysecond() -
      times[k];` for k < ntimes. The clock is the parameter `clock`: the
      readings taken before and after trial k are clock[2k] and
      clock[2k + 1]. */
  method TimedCopies(strategy: Strategy, dst: array<int>, src: array<int>, ntimes: nat,
                     clock: seq<real>, ghost dstBase: int, ghost srcBase: int)
      returns (times: array<real>)
    requires dst != src && dst.Length == src.Length && |clock| == 2 * ntimes
    requires CopyFits(strategy, src.Length, dstBase, srcBase)
    modifies dst
    ensures fresh(times) && times.Length == ntimes
    ensures times[..] == Elapsed(clock, ntimes)
    ensures src[..] == old(src[..])
    ensures ntimes > 0 ==> dst[..] == src[..]
    ensures ntimes == 0 ==> dst[..] == old(dst[..])
  {
    times := new real[ntimes];
    var k := 0;
    while k < ntimes
      invariant 0 <= k <= ntimes
      invariant forall j :: 0 <= j < k ==> times[j] == clock[2 * j + 1] - clock[2 * j]
      invariant k > 0 ==> dst[..] == src[..]
      invariant k == 0 ==> dst[..] == old(dst[..])
      invariant src[..] == old(src[..])
    {
      times[k] := clock[2 * k];
      CopyWith(strategy, dst, src, dstBase, srcBase);
      times[k] := clock[2 * k + 1] - times[k];
      k := k + 1;
    }
    assert times[..] == Elapsed(clock, ntimes);
  }
}
