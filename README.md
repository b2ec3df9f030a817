# cma-test memory-bandwidth benchmarks in Dafny

This project models the sequential core of three small C benchmarks:

- `simple_stream.c` copies one buffer into another.
- `test_omp_read.c` has one OpenMP thread read a buffer that the other thread filled.
- `test_posix_read.c` has a forked child read a buffer that its parent wrote into shared memory.

The three programs share these pieces, each modelled once:

- **CPU affinity**:
  - the `cpu_set_t` mask and the CPU_ZERO / CPU_SET / CPU_ISSET / CPU_COUNT macros (`CpuSet`);
  - the single-core masks that producer and consumer pin themselves to (`CpuSet`);
  - `cpuset_to_cstr`, which prints a mask as a list of runs (`CpuList`). It appears identically in both reader programs.
  - `cpuset_to_cstr` is modelled twice:
    - a specification over the maximal runs of the mask (`Spans`, `Format`) with a reader for the text it produces (`Decode`);
    - the formatter itself (`CpusetToCstr`), written against a character buffer with the advancing `ptr`, the inner `run` scan and the jump of `i` past each run. It is proved to leave exactly `Format(mask)` in the buffer.
  - Decimal digits come from `Decimal.Dec`.
- **Array loops** (`Buffers`):
  - the fills `a[i] = i` and `b[i] = -1`;
  - the scalar copy loop;
  - the stride-4 AVX loop with aligned loads and stores;
  - memcpy;
  - the timed trial loop.
- **Timing summary** (`Trials`):
  - the warm-up-skipping accumulation of average, minimum (from FLT_MAX) and maximum (from 0), proved against fold functions;
  - the size_t byte count.
- **The programs' main bodies** (`Harness`). Each is run in the order its synchronisation enforces.
- **Constants** (`Config`, `CpuSet.SETSIZE`). The operations take buffer size and trial count as parameters; the constants record the values the sources define:
  - `shmem_tests.h`, which `simple_stream.c` and `test_omp_read.c` include: BUF_SIZE 80000000, NTIMES 20, BW_CONVENTION 1;
  - `test_posix_read.c`, which does not include that header: its own BUF_SIZE 10000000 and NTIMES 10 (`POSIX_BUF_SIZE`, `POSIX_NTIMES`);
  - from the platform and the code, not from any header: doubles of 8 bytes, 4-lane 32-byte AVX vectors, the 32-byte alignment asked of posix_memalign, and the GNU C library's CPU_SETSIZE 1024.

Modelling choices:

- **Times** are exact reals. Element values (an index or -1) are exact in a double, so buffers are arrays of integers.
- **Clock readings** become the parameter `clock`: trial k reads `clock[2k]` before its copy and `clock[2k+1]` after.
- **CPU_SET** of a CPU outside 0..1023 leaves the mask unchanged, as the GNU C library's bounds check does. The consumer of an empty mask therefore calls CPU_SET(-1), which does nothing.
- **Consumer's core**: the model assumes the consumer is meant to sit on the top CPU of the mask it inherited, away from the producer on CPU 0. The code computes the number of CPUs in the mask minus one, which is that CPU exactly when the mask is {0, ..., n-1}: `CpuSet.ChildCoreOfPrefixMask` proves the two agree on such masks, and `CpuSet.ChildCoreAgreesOnlyOnPrefix` that they agree on no other non-empty mask. The model follows the code; see Findings.
- **POSIX reader's byte count** uses the literal factor 2 (test_posix_read.c:168); that program defines no BW_CONVENTION. The other two programs use `BW_CONVENTION` from `shmem_tests.h`.

## Model

| member | source | states |
|---|---|---|
| Decimal.Dec | test_posix_read.c:65-71 | the `%d` text of a CPU number is a non-empty string of digits with no leading zero |
| Decimal.ValueOfDec | test_posix_read.c:65-71 | reading the digits of n back gives n |
| Decimal.DecLength | test_posix_read.c:112 | a number below 10^k has at most k digits (used for the buffer bound) |
| Decimal.DigitRun | test_posix_read.c:65-71 | the leading-digit count stays within the string, covers only digits and stops at a non-digit |
| CpuSet.CountOf | test_posix_read.c:129 | CPU_COUNT never exceeds the mask size |
| CpuSet.CountIsCardinality | test_posix_read.c:129 | CPU_COUNT equals the number of CPUs in the mask |
| CpuSet.EmptyMask | test_posix_read.c:130 | CPU_ZERO leaves a mask of CPU_SETSIZE bits with no CPU |
| CpuSet.WithCpu | test_posix_read.c:131 | CPU_SET sets exactly bit cpu when it is in range and changes nothing else |
| CpuSet.ParentMaskIsCpuZero | test_posix_read.c:193-194 | after CPU_ZERO; CPU_SET(0) the producer's mask is exactly {0} |
| CpuSet.ParentMask | test_posix_read.c:193-194 | the producer's mask has CPU_SETSIZE bits with bit 0 set and every other bit clear |
| CpuSet.ChildCore | test_posix_read.c:129-131 | the consumer's CPU number CPU_COUNT-1 lies in -1 .. CPU_SETSIZE-1 and is -1 exactly for an empty mask |
| CpuSet.ChildMask | test_posix_read.c:129-131 | the consumer's mask has the child core's bit set and every other bit clear |
| CpuSet.ChildMaskIsSingleCore | test_posix_read.c:129-131 | after CPU_ZERO; CPU_SET(ncpus-1) the consumer's mask is exactly {CPU_COUNT(original)-1}, or empty for an empty original mask |
| CpuSet.ChildCoreOutsideOriginal | test_posix_read.c:129-131 | for the mask {2,3} the consumer pins itself to CPU 1, which is not in the original mask |
| CpuSet.HighestBelow | test_posix_read.c:129-131 | the highest set bit below n, or -1 when there is none; every bit above it is clear |
| CpuSet.IntendedChildCoreInOriginal | test_posix_read.c:129-131 | pinning to the highest CPU keeps the consumer inside the original mask, on its top CPU |
| CpuSet.ChildCoreOfPrefixMask | test_omp_read.c:119-121 | for masks {0..n-1} CPU_COUNT-1 and the highest CPU coincide |
| CpuSet.ChildCoreAgreesOnlyOnPrefix | test_posix_read.c:129-131 | if CPU_COUNT-1 is the highest CPU of a non-empty mask, the mask is exactly {0, ..., that CPU} |
| CpuSet.CountOfPrefix | test_omp_read.c:119 | CPU_COUNT of a prefix of the mask {0..n-1} |
| CpuSet.CpuMask.constructor | test_posix_read.c:111-113 | a mask holding the bits sched_getaffinity reported |
| CpuSet.CpuMask.IsSet | test_posix_read.c:58 | CPU_ISSET is true exactly for the CPUs of the mask, and false out of range |
| CpuSet.CpuMask.Zero | test_omp_read.c:120 | CPU_ZERO clears every bit in place |
| CpuSet.CpuMask.Set | test_omp_read.c:121 | CPU_SET updates the bits in place as WithCpu says |
| CpuSet.CpuMask.Count | test_omp_read.c:119 | the counting loop returns CountOf of the bits |
| CpuSet.PinParent | test_omp_read.c:200-202 | whatever the uninitialised mask held, CPU_ZERO and CPU_SET(0) leave exactly ParentMask |
| CpuSet.PinChild | test_omp_read.c:119-121 | returns CPU_COUNT of the inherited mask and leaves it equal to ChildMask of its old bits |
| CpuSet.PinChildHighest | test_posix_read.c:129-131 | corrected pinning: finds the highest CPU by a downward scan and leaves the mask equal to IntendedChildMask |
| CpuList.Run | test_posix_read.c:61-64 | the inner scan counts the set bits from j up to the first clear bit or the end of the mask |
| CpuList.SpansFrom | test_posix_read.c:57-75 | the outer scan with its `i++` / `i += run` jumps lists at most one run per remaining bit |
| CpuList.Spans | test_posix_read.c:57-75 | the runs of the whole mask are at most as many as its bits |
| CpuList.Emitted | test_posix_read.c:57-75 | the text before the final comma is dropped: each run's text followed by a comma (its length is bounded by EmittedBound and tied to Join by EmittedIsJoin) |
| CpuList.SpanText | test_posix_read.c:65-72 | the text of one entry is non-empty and starts and ends with a digit |
| CpuList.Join | test_posix_read.c:56-78 | the joined text is empty exactly when there are no runs, and otherwise ends in a digit |
| CpuList.Format | test_posix_read.c:53-80 | the text cpuset_to_cstr leaves is empty exactly when the scan finds no run, and otherwise ends in a digit |
| CpuList.ReadNumber | test_posix_read.c:65-71 | reading a number consumes at least one character |
| CpuList.DecodeEntry | test_posix_read.c:65-72 | reading an entry consumes at least one character |
| CpuList.DecodeJoin | test_posix_read.c:57-78 | reading the joined run texts back gives exactly the CPUs of the runs, in order |
| CpuList.DecodeSpan | test_posix_read.c:65-72 | the text of one run followed by a well-formed tail reads as the run's CPUs followed by the tail's |
| CpuList.DecodePair | test_posix_read.c:67-69 | `i,i+1` reads as the two CPUs i and i+1 |
| CpuList.EntryOfRange | test_posix_read.c:70-72 | `i-j` reads as the CPUs i..j |
| CpuList.SpansFromShape | test_posix_read.c:57-75 | the outer scan lists only maximal runs, in increasing order with a gap between neighbours, and every set bit lies in a listed run |
| CpuList.SpansAreMaximalRuns | test_posix_read.c:57-75 | a span is listed if and only if it is a maximal run of set bits |
| CpuList.SpansIncreasing | test_omp_read.c:36-54 | entries appear in strictly increasing order, separated by at least one clear bit |
| CpuList.LoneCpuEntry | test_posix_read.c:65-66 | an isolated set bit i is listed and printed as `i` |
| CpuList.PairEntry | test_posix_read.c:67-69 | a maximal run of exactly two bits is printed as `i,i+1`, not as a range |
| CpuList.RangeEntry | test_posix_read.c:70-72 | a maximal run of three or more bits i..j is printed as `i-j` |
| CpuList.SetCpusFromSpec | test_omp_read.c:36-54 | the reference list of CPUs holds every set bit exactly once, in increasing order, and no clear bit |
| CpuList.ExpandSpansFrom | test_omp_read.c:36-54 | the CPUs the runs stand for are exactly the set bits, in order |
| CpuList.FormatRoundTrip | test_posix_read.c:53-80 | reading the printed text gives every CPU of the mask once, in increasing order, and no other |
| CpuList.FormatEmptyIffNoCpu | test_posix_read.c:56-78 | the text is empty exactly for the empty mask; otherwise it ends in a digit, so the last comma was removed |
| CpuList.FormatSingleCpu | test_omp_read.c:44-45 | a mask holding only CPU c prints as the number c |
| CpuList.EmittedBound | test_posix_read.c:112 | the text before the final comma is removed needs at most 5 characters per bit, so it fits the 7*CPU_SETSIZE buffer |
| CpuList.EmittedIsJoin | test_posix_read.c:77-78 | the emitted text is the final text plus the one comma that is dropped |
| CpuList.RunTextHasNoNul | test_posix_read.c:74 | an entry's text contains no NUL, so the scan for the NUL stops at its end |
| CpuList.FormatHasNoNul | test_posix_read.c:116 | the printed text contains no NUL |
| CpuList.CString | test_posix_read.c:116 | printing with `%s` shows the buffer's characters up to the first NUL |
| CpuList.CStringOfTerminated | test_posix_read.c:114-116 | a buffer whose k-th character is the first NUL shows exactly its first k characters |
| CpuList.Sprintf | test_posix_read.c:65-72 | sprintf writes the text and a NUL at ptr and leaves every other character as it was |
| CpuList.PrintRun | test_omp_read.c:44-52 | the three sprintf formats write exactly the entry's text and comma, then a NUL, and leave the rest of the buffer alone |
| CpuList.SkipToNul | test_omp_read.c:53 | the walk over characters that are not NUL stops on the NUL right after them |
| CpuList.RunAfter | test_omp_read.c:38-43 | the inner loop's run counter equals Run(mask, i + 1) |
| CpuList.WriteRun | test_omp_read.c:44-53 | one entry's sprintf with its comma, and the walk of ptr to the NUL that ends the text |
| CpuList.ScanStep | test_omp_read.c:37-54 | one set bit adds the next run of the list, and the text grows by exactly that run's text and comma |
| CpuList.EmitEntry | test_omp_read.c:37-54 | one outer-loop body keeps the scan invariant and leaves i on the last bit of the run |
| CpuList.ScanRuns | test_omp_read.c:36-55 | the outer loop writes the text of every run of the mask, each with a comma, leaves ptr on the NUL after them and sets entry_made exactly when a run was found |
| CpuList.ScanClearBit | test_omp_read.c:36-37 | a clear bit writes nothing and the scan invariant still holds at the next bit |
| CpuList.EndString | test_posix_read.c:77-78 | stepping back over the last comma and writing the NUL leaves the joined run texts, empty exactly when no run was found |
| CpuList.CpusetToCstr | test_posix_read.c:53-80 | the buffer holds Format(mask) followed by a NUL, and nothing beyond the written text changes |
| Trials.Min | shmem_tests.h:49 | MIN returns one of its arguments and is at most both |
| Trials.Max | shmem_tests.h:52 | MAX returns one of its arguments and is at least both |
| Trials.Sum | test_posix_read.c:163 | avgtime before its division: the samples added in order (bounded by SumBetween) |
| Trials.RunningMin | test_posix_read.c:164 | mintime never exceeds its start value FLT_MAX and falls below it once a sample does |
| Trials.RunningMax | test_posix_read.c:165 | maxtime never falls below its start value 0 and rises above it once a sample does |
| Trials.Summarize | test_posix_read.c:161-171 | the summary skips trial 0; min <= every retained sample <= max and min <= avg <= max |
| Trials.RunningMinBound | test_posix_read.c:99 | mintime is at most every sample and at most FLT_MAX, and equals FLT_MAX or a sample |
| Trials.MinAttained | simple_stream.c:20 | when all samples are below FLT_MAX, mintime is the smallest sample |
| Trials.RunningMaxBound | test_posix_read.c:100 | maxtime is at least every sample and at least 0, and equals 0 or a sample |
| Trials.MaxAttained | simple_stream.c:21 | given a non-negative sample, maxtime is the largest sample |
| Trials.SumBetween | simple_stream.c:46 | the total lies between n times a lower bound and n times an upper bound of the samples |
| Trials.MeanBetween | simple_stream.c:54 | the average over the retained samples lies between mintime and maxtime |
| Trials.MeanOfBounded | simple_stream.c:46-54 | the average of samples lying between two bounds lies between the same bounds |
| Trials.WarmupDiscarded | simple_stream.c:44 | changing trial 0 changes none of avgtime, mintime and maxtime |
| Trials.SingleMeasuredTrial | test_omp_read.c:164-174 | with two trials the one measured time is the average, the minimum and the maximum |
| Trials.Aggregate | test_omp_read.c:164-174 | the accumulation loop and final division give Summarize of the trial times, with min <= every retained sample <= max |
| Trials.Elapsed | test_omp_read.c:143-161 | one time per trial, from the clock readings before and after it |
| Trials.Bytes | test_omp_read.c:171 | the size_t byte count is below 2^64 and exact whenever the product fits |
| Trials.ConfiguredBytes | test_posix_read.c:168 | no size_t product wraps: the copy benchmarks count 640000000 bytes at BUF_SIZE 80000000, and the POSIX reader 160000000 at its own BUF_SIZE 10000000 |
| Config.ConfiguredSizes | shmem_tests.h:40-46 | BUF_SIZE is a whole number of 4-wide vectors, and both NTIMES values (20, and 10 in test_posix_read.c) leave a measured trial |
| Buffers.FillIndex | test_posix_read.c:201-203 | the fill leaves a[i] == i for every i |
| Buffers.Invalidate | test_omp_read.c:132-134 | the invalidation leaves b[i] == -1 for every i |
| Buffers.InvalidateBoth | test_posix_read.c:139-142 | the consumer's loop leaves both of its buffers at -1 |
| Buffers.InitPair | simple_stream.c:23-26 | set-up leaves a[i] == i and b[i] == -1 for every i |
| Buffers.Copy | test_posix_read.c:155-156 | the scalar loop leaves dst equal to src and src unchanged |
| Buffers.Memcpy | test_omp_read.c:159 | memcpy leaves dst equal to src and src unchanged |
| Buffers.AlignedStep | test_omp_read.c:150-151 | from a 32-byte-aligned base every fourth double is 32-byte aligned |
| Buffers.Load4 | test_omp_read.c:151 | an aligned load returns the four elements at i |
| Buffers.Store4 | test_omp_read.c:152-156 | an aligned store (streaming or not) replaces exactly the four elements at i |
| Buffers.BlocksPartition | test_omp_read.c:150 | with BUF_SIZE a multiple of 4 the vector steps cover every index exactly once and never pass the end |
| Buffers.CopyBy4 | test_omp_read.c:150-157 | the stride-4 loop stores at 0, 4, 8, ... and leaves b equal to a, a unchanged |
| Buffers.CopyWith | test_omp_read.c:145-160 | every build-time copy variant leaves dst equal to src |
| Buffers.TimedCopies | simple_stream.c:28-42 | the trial times are the clock differences and after any trial dst equals src |
| Harness.AffinityText | test_omp_read.c:88-92 | the printed affinity of a mask is Format of its bits |
| Harness.PinnedTexts | test_posix_read.c:129-135 | the producer prints "0"; the consumer prints CPU_COUNT-1, or nothing for an empty mask |
| Harness.ChildText | test_posix_read.c:133-135 | the consumer's printed affinity, CPU_COUNT-1 or nothing, is what cpuset_to_cstr makes of its mask |
| Harness.PinAndShowChild | test_posix_read.c:129-135 | the consumer's pinning and the affinity text it prints |
| Harness.PinAndShowParent | test_posix_read.c:192-198 | the producer's pinning prints "0", whatever its uninitialised mask held |
| Harness.Measure | test_posix_read.c:151-171 | the consumer's trials leave dst equal to src, and the summary is Summarize of the elapsed times |
| Harness.SimpleCopy | simple_stream.c:15-54 | a[i] == i and b[i] == i after the trials, the summary of the elapsed times, and the byte count |
| Harness.OmpStatus | test_omp_read.c:83-86 | the program returns 0 exactly when two threads run the parallel region, and -1 otherwise |
| Harness.OmpRead | test_omp_read.c:71-220 | status -1 unless two threads; otherwise the three affinity texts, a[i] == b[i] == i, the summary, and the byte count |
| Harness.ConsumerPrepare | test_omp_read.c:116-134 | thread 1 pins itself, prints CPU_COUNT-1 and sets a new b to -1 |
| Harness.ProducerPrepare | test_omp_read.c:199-214 | thread 0 pins itself to core 0, prints "0" and fills a new a with a[i] == i |
| Harness.PosixRead | test_posix_read.c:94-215 | the three affinity texts; producer's a and shm hold i; consumer's a holds -1 and its b holds i; the summary; a byte count of 2*8*n |
| Harness.ChildPrepare | test_posix_read.c:125-142 | the child pins itself, prints CPU_COUNT-1 and sets its own a and b to -1 |
| Harness.ParentPublish | test_posix_read.c:188-207 | the parent pins itself to core 0, prints "0", fills its a with a[i] == i and copies it into the shared buffer |

## Left out

- Process and IPC machinery. This covers `fork`, `pipe`, the end-of-file barrier, `wait`, and `shm_open` / `ftruncate` / `mmap` (test_posix_read.c:106-110, 119-123, 145-147, 210-212). The shared buffer is one more array.
- The "child didn't get EOF" message is left out, since the pipe carries no data.
- The OpenMP parallel regions and the barrier. Each thread's code runs in the order the barrier forces: both set-ups, then the consumer's trials. The thread count is the parameter of `OmpRead`.
- `sched_getaffinity` and `sched_setaffinity`, which are system calls. The original mask is a parameter; the mask set for the thread is the mask object.
- `mysecond` / `gettimeofday`. The clock is the parameter `clock`.
- The Kahan and naive checksums and the MB/s rate `1.0E-06 * bytes/mintime`. These are floating-point rounding behaviour, which exact reals do not capture.
- Trials.Summarize: the average is stated in exact real arithmetic, not in IEEE double rounding.
- AVX cache behaviour. Non-temporal (`_mm256_stream_pd`) and ordinary stores leave the same values, so both are Store4. Alignment is a precondition, and the addresses are ghost parameters.
- printf of the report lines and of the banner messages.
- sprintf in general: only the `%d,` / `%d,%d,` / `%d-%d,` writes of the formatter are modelled, through `Decimal.Dec`.
- Buffers.Copy, Memcpy, CopyBy4: they require distinct buffers. memcpy requires this, and the programs' buffers never overlap. Copying a buffer onto itself is not modelled.

## Findings

| source | as written | input that shows it | evidently intended | confidence | as-written member | corrected member |
|---|---|---|---|---|---|---|
| test_posix_read.c:129-131 (also test_omp_read.c:119-121) | the consumer pins itself to CPU number CPU_COUNT(mask) - 1 | an inherited mask {2, 3}: the consumer pins itself to CPU 1, which the mask does not contain, and the producer sits on CPU 0 outside it too | pin the consumer to the highest CPU of the inherited mask (the model's reading of the intent: the two agree exactly on masks {0, ..., n-1}) | medium, not executed | CpuSet.ChildCoreOutsideOriginal | CpuSet.PinChildHighest |

The program models in `Harness` keep the pinning as written, because that is what the programs do. `CpuSet.PinChildHighest` and `CpuSet.IntendedChildCoreInOriginal` state the corrected behaviour. `CpuSet.ChildCoreOfPrefixMask` and `CpuSet.ChildCoreAgreesOnlyOnPrefix` show that the two agree on the masks of the form {0..n-1} and on no other non-empty mask.
