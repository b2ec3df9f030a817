/** The three programs' main bodies, run one step after another: the copy
    benchmark, the two-thread OpenMP reader and the two-process POSIX reader.

    What runs concurrently in the source (the two threads of the parallel
    region, the two processes after fork) is modelled in the order the
    synchronisation forces: both sides' set-up before the barrier or the end
    of the pipe, then the consumer's timed trials. The affinity system calls
    become the mask object itself, the clock becomes the readings `clock`,
    and the printed report becomes the returned values. */
module Harness {
  import opened Config
  import opened Decimal
  import opened CpuSet
  import opened CpuList
  import opened Trials
  import opened Buffers

  /** memset(clbuf, 0, 7 * CPU_SETSIZE); cpuset_to_cstr(mask, clbuf); and
      the text printf("%s", clbuf) shows. */
  method AffinityText(mask: CpuMask) returns (text: string)
    requires mask.Valid()
    ensures text == Format(mask.bits[..])
  {
    var clbuf := new char[7 * SETSIZE](_ => '\0');
    var len := CpusetToCstr(mask, clbuf);
    FormatHasNoNul(mask.bits[..]);
    CStringOfTerminated(clbuf[..], len);
    text := CString(clbuf[..]);
  }

  /** The texts the two sides print after pinning: the producer shows "0";
      the consumer shows CPU_COUNT(original) - 1, or nothing when the
      original mask is empty. */
  lemma PinnedTexts(original: seq<bool>)
    requires |original| == SETSIZE
    ensures Format(ParentMask()) == "0"
    ensures CountOf(original) >= 1 ==> Format(ChildMask(original)) == Dec(CountOf(original) - 1)
    ensures CountOf(original) == 0 ==> Format(ChildMask(original)) == ""
  {
    ParentMaskIsCpuZero();
    var p := ParentMask();
    assert forall i :: 0 <= i < |p| ==> p[i] == (i == 0) by {
      forall i | 0 <= i < |p| ensures p[i] == (i == 0) {
        assert p[i] <==> i in Members(p);
      }
    }
    FormatSingleCpu(p, 0);
    ChildMaskIsSingleCore(original);
    var c := ChildMask(original);
    if CountOf(original) >= 1 {
      var core := CountOf(original) - 1;
      forall i | 0 <= i < |c| ensures c[i] == (i == core) {
        assert c[i] <==> i in Members(c);
      }
      FormatSingleCpu(c, core);
    } else {
      FormatEmptyIffNoCpu(c);
    }
  }

  /** The text the consumer prints for its mask after pinning: the number
      CPU_COUNT - 1, or nothing for an empty original mask. It is what
      cpuset_to_cstr makes of the consumer's mask. */
  function ChildText(original: seq<bool>): (t: string)
    requires |original| == SETSIZE
    ensures t == Format(ChildMask(original))
  {
    PinnedTexts(original);
    if CountOf(original) >= 1 then Dec(CountOf(original) - 1) else ""
  }

  /** The consumer's side before it may read: CPU_COUNT, CPU_ZERO,
      CPU_SET(ncpus - 1) on the inherited mask, and the affinity it prints. */
  method PinAndShowChild(coremask: CpuMask) returns (text: string)
    requires coremask.Valid()
    modifies coremask.bits
    ensures coremask.bits[..] == ChildMask(old(coremask.bits[..]))
    ensures text == ChildText(old(coremask.bits[..]))
  {
    PinnedTexts(coremask.bits[..]);
    var ncpus := PinChild(coremask);
    text := AffinityText(coremask);
  }

  /** The producer's pinning to core 0 and the affinity it prints; uninit
      is whatever its uninitialised mask holds beforehand. */
  method PinAndShowParent(uninit: seq<bool>) returns (text: string)
    requires |uninit| == SETSIZE
    ensures text == "0"
  {
    PinnedTexts(EmptyMask());
    var parentMask := PinParent(uninit);
    text := AffinityText(parentMask);
  }

  /** The consumer's timed trials and the summary it prints. */
  method Measure(strategy: Strategy, dst: array<int>, src: array<int>, ntimes: nat,
                 clock: seq<real>, ghost dstBase: int, ghost srcBase: int)
      returns (summary: Summary)
    requires dst != src && dst.Length == src.Length && ntimes >= 2 && |clock| == 2 * ntimes
    requires CopyFits(strategy, src.Length, dstBase, srcBase)
    modifies dst
    ensures dst[..] == src[..] && summary == Summarize(Elapsed(clock, ntimes))
  {
    var times := TimedCopies(strategy, dst, src, ntimes, clock, dstBase, srcBase);
    var avgtime, mintime, maxtime := Aggregate(times);
    summary := Summary(avgtime, mintime, maxtime);
  }

  /** simple_stream.c: a[i] = i and b[i] = -1, then ntimes copies of a into
      b (the `omp simd` loop or memcpy), then the summary of the trials. */
  method SimpleCopy(strategy: Strategy, n: nat, ntimes: nat, clock: seq<real>)
      returns (a: array<int>, b: array<int>, summary: Summary, bytes: nat)
    requires strategy != Intrinsics && ntimes >= 2 && |clock| == 2 * ntimes
    ensures a.Length == n && b.Length == n
    ensures forall i :: 0 <= i < n ==> a[i] == i && b[i] == i
    ensures summary == Summarize(Elapsed(clock, ntimes))
    ensures bytes == Bytes(BW_CONVENTION, DOUBLE_SIZE, n)
  {
    a := new int[n];
    b := new int[n];
    InitPair(a, b);
    summary := Measure(strategy, b, a, ntimes, clock, 0, 0);
    bytes := Bytes(BW_CONVENTION, DOUBLE_SIZE, n);
  }

  /** Exit status of test_omp_read.c's main: -1 unless exactly two threads
      run the parallel region. */
  function OmpStatus(nthreads: int): (status: int)
    ensures status == 0 <==> nthreads == 2
    ensures status != 0 ==> status == -1
  {
    if nthreads == 2 then 0 else -1
  }

  /** test_omp_read.c. Thread 1 (the consumer) pins itself to core
      CPU_COUNT - 1 of the shared mask and sets b to -1; thread 0 (the
      producer) pins itself to core 0 and sets a[i] = i; after the barrier
      the consumer copies a into b ntimes. The buffers' byte addresses aBase
      and bBase come from posix_memalign(..., 32, ...); uninit is what the
      producer's uninitialised mask holds before CPU_ZERO. */
  method OmpRead(nthreads: int, original: seq<bool>, uninit: seq<bool>, strategy: Strategy, n: nat, ntimes: nat,
                 clock: seq<real>, ghost aBase: int, ghost bBase: int)
      returns (status: int, originalText: string, parentText: string, childText: string,
               a: array<int>, b: array<int>, summary: Summary, bytes: nat)
    requires |original| == SETSIZE && |uninit| == SETSIZE && ntimes >= 2 && |clock| == 2 * ntimes
    requires Aligned(aBase) && Aligned(bBase) && (strategy == Intrinsics ==> n % LANES == 0)
    ensures status == OmpStatus(nthreads)
    ensures status == 0 ==>
      && originalText == Format(original) && parentText == "0" && childText == ChildText(original)
      && a.Length == n && b.Length == n
      && (forall i :: 0 <= i < n ==> a[i] == i && b[i] == i)
      && summary == Summarize(Elapsed(clock, ntimes))
      && bytes == Bytes(BW_CONVENTION, DOUBLE_SIZE, n)
  {
    status, originalText, parentText, childText := 0, "", "", "";
    a, b := new int[0], new int[0];
    summary, bytes := Summary(0.0, 0.0, 0.0), 0;
    if nthreads != 2 {
      status := -1;
      return;
    }
    var coremask := new CpuMask(original);
    originalText := AffinityText(coremask);

    childText, b := ConsumerPrepare(coremask, n);
    parentText, a := ProducerPrepare(uninit, n);
    summary := Measure(strategy, b, a, ntimes, clock, bBase, aBase);
    bytes := Bytes(BW_CONVENTION, DOUBLE_SIZE, n);
  }

  /** Thread 1 of the OpenMP reader up to the barrier: pinning, the printed
      affinity, and b set to -1. */
  method ConsumerPrepare(coremask: CpuMask, n: nat) returns (text: string, b: array<int>)
    requires coremask.Valid()
    modifies coremask.bits
    ensures coremask.bits[..] == ChildMask(old(coremask.bits[..]))
    ensures fresh(b) && b.Length == n
    ensures forall i :: 0 <= i < n ==> b[i] == INVALID
    ensures text == ChildText(old(coremask.bits[..]))
  {
    text := PinAndShowChild(coremask);
    b := new int[n];
    Invalidate(b);
  }

  /** Thread 0 of the OpenMP reader up to the barrier: pinning to core 0 and
      a[i] = i. */
  method ProducerPrepare(uninit: seq<bool>, n: nat) returns (text: string, a: array<int>)
    requires |uninit| == SETSIZE
    ensures fresh(a) && a.Length == n
    ensures forall i :: 0 <= i < n ==> a[i] == i
    ensures text == "0"
  {
    text := PinAndShowParent(uninit);
    a := new int[n];
    FillIndex(a);
  }

  /** test_posix_read.c. After fork the child (the consumer) has its own
      copies of the mask and of the static arrays a and b; only the mapped
      buffer shm is shared. The child pins itself to core CPU_COUNT - 1 and
      sets its a and b to -1; the parent pins itself to core 0, sets its
      a[i] = i and copies a into shm, then closes the pipe; on end of file the
      child reads shm into its b ntimes. The program is built with its own
      sizes POSIX_BUF_SIZE and POSIX_NTIMES; uninit is what the parent's
      uninitialised mask holds before CPU_ZERO. */
  method PosixRead(original: seq<bool>, uninit: seq<bool>, n: nat, ntimes: nat, clock: seq<real>)
      returns (originalText: string, parentText: string, childText: string,
               parentA: array<int>, shm: array<int>, childA: array<int>, childB: array<int>,
               summary: Summary, bytes: nat)
    requires |original| == SETSIZE && |uninit| == SETSIZE && ntimes >= 2 && |clock| == 2 * ntimes
    ensures originalText == Format(original) && parentText == "0" && childText == ChildText(original)
    ensures parentA.Length == n && shm.Length == n && childA.Length == n && childB.Length == n
    ensures forall i :: 0 <= i < n ==> parentA[i] == i && shm[i] == i
    ensures forall i :: 0 <= i < n ==> childA[i] == INVALID && childB[i] == i
    ensures summary == Summarize(Elapsed(clock, ntimes))
    ensures bytes == Bytes(2, DOUBLE_SIZE, n)
  {
    var coremask := new CpuMask(original);
    originalText := AffinityText(coremask);
    shm := new int[n];
    childText, childA, childB := ChildPrepare(coremask, n);
    parentText, parentA := ParentPublish(uninit, shm);
    summary := Measure(Scalar, childB, shm, ntimes, clock, 0, 0);
    bytes := Bytes(2, DOUBLE_SIZE, n);
  }

  /** The POSIX consumer up to its read of the pipe: pinning, the printed
      affinity, and its own copies of a and b set to -1. */
  method ChildPrepare(coremask: CpuMask, n: nat) returns (text: string, a: array<int>, b: array<int>)
    requires coremask.Valid()
    modifies coremask.bits
    ensures coremask.bits[..] == ChildMask(old(coremask.bits[..]))
    ensures fresh(a) && fresh(b) && a != b && a.Length == n && b.Length == n
    ensures forall i :: 0 <= i < n ==> a[i] == INVALID && b[i] == INVALID
    ensures text == ChildText(old(coremask.bits[..]))
  {
    text := PinAndShowChild(coremask);
    a := new int[n];
    b := new int[n];
    InvalidateBoth(a, b);
  }

  /** The POSIX producer: pinning to core 0, its own a[i] = i, and the copy
      of a into the shared buffer before the pipe is closed. */
  method ParentPublish(uninit: seq<bool>, shm: array<int>) returns (text: string, a: array<int>)
    requires |uninit| == SETSIZE
    modifies shm
    ensures fresh(a) && a.Length == shm.Length
    ensures forall i :: 0 <= i < shm.Length ==> a[i] == i && shm[i] == i
    ensures text == "0"
  {
    text := PinAndShowParent(uninit);
    a := new int[shm.Length];
    FillIndex(a);
    Copy(shm, a);
    assert forall i :: 0 <= i < shm.Length ==> shm[i] == shm[..][i];
  }
}
