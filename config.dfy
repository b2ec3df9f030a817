/** The benchmarks' configuration constants. BUF_SIZE, NTIMES and
    BW_CONVENTION come from shmem_tests.h, which simple_stream.c and
    test_omp_read.c include; test_posix_read.c does not include it and
    defines its own BUF_SIZE and NTIMES. The sizes of a double and of an AVX
    register and the alignment asked of posix_memalign are facts of the
    platform and of the code, not macros of any header. The operations take
    buffer size and trial count as parameters; these are the values the
    sources define. */
module Config {

  /** Number of doubles in each buffer (shmem_tests.h). */
  const BUF_SIZE: nat := 80000000

  /** Number of timed trials; the first one is a warm-up (shmem_tests.h). */
  const NTIMES: nat := 20

  /** test_posix_read.c's own BUF_SIZE. */
  const POSIX_BUF_SIZE: nat := 10000000

  /** test_posix_read.c's own NTIMES. */
  const POSIX_NTIMES: nat := 10

  /** Bandwidth convention (shmem_tests.h): 1 counts the bytes moved from a
      to b, 2 counts them as both read and written. */
  const BW_CONVENTION: nat := 1

  /** sizeof(double). */
  const DOUBLE_SIZE: nat := 8

  /** Elements a 256-bit AVX register holds. */
  const LANES: nat := 4

  /** Alignment in bytes that posix_memalign is asked for and that the
      aligned 256-bit loads and stores need. */
  const ALIGNMENT: nat := 32

  /** The shared buffer size splits into whole 4-element vectors, and both
      trial counts leave at least one measured trial after the warm-up. */
  lemma ConfiguredSizes()
    ensures BUF_SIZE % LANES == 0 && NTIMES >= 2 && POSIX_NTIMES >= 2
    ensures LANES * DOUBLE_SIZE == ALIGNMENT
  {
  }
}
