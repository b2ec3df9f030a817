/** The in-memory CPU affinity mask (`cpu_set_t`) and the macros the
    benchmarks use on it: CPU_ZERO, CPU_SET, CPU_ISSET and CPU_COUNT, plus
    the single-core masks the producer and the consumer pin themselves to. */
module CpuSet {

  /** CPU_SETSIZE of the GNU C library: the number of CPUs a mask describes. */
  const SETSIZE: nat := 1024

  /** The CPUs a mask contains. */
  function Members(m: seq<bool>): set<nat> {
    set i: nat | i < |m| && m[i]
  }

  /** CPU_COUNT: the number of set bits. */
  function CountOf(m: seq<bool>): (n: nat)
    ensures n <= |m|
  {
    if m == [] then 0 else CountOf(m[..|m| - 1]) + (if m[|m| - 1] then 1 else 0)
  }

  /** The mask after CPU_ZERO. */
  function EmptyMask(): (m: seq<bool>)
    ensures |m| == SETSIZE && Members(m) == {}
  {
    seq(SETSIZE, _ => false)
  }

  /** CPU_SET(cpu, m): the GNU C library converts cpu to size_t and sets the
      bit only when it lies inside the mask, so a negative or too large cpu
      leaves the mask as it was. */
  function WithCpu(m: seq<bool>, cpu: int): (r: seq<bool>)
    ensures |r| == |m|
    ensures forall i :: 0 <= i < |m| ==> r[i] == (m[i] || i == cpu)
  {
    if 0 <= cpu < |m| then m[cpu := true] else m
  }

  /** The mask the producer (parent) pins itself to: CPU_ZERO, CPU_SET(0),
      which holds CPU 0 and no other. */
  function ParentMask(): (m: seq<bool>)
    ensures |m| == SETSIZE && forall i :: 0 <= i < |m| ==> m[i] == (i == 0)
  {
    WithCpu(EmptyMask(), 0)
  }

  /** The CPU the consumer (child) pins itself to: CPU_COUNT of the original
      mask minus one. It lies inside the mask's range, and it is -1 exactly
      when the original mask is empty. */
  function ChildCore(original: seq<bool>): (c: int)
    ensures -1 <= c < |original|
    ensures c == -1 <==> Members(original) == {}
  {
    CountIsCardinality(original);
    CountOf(original) - 1
  }

  /** The consumer's mask: CPU_ZERO, CPU_SET(CPU_COUNT(original) - 1), which
      holds the child core and no other CPU. */
  function ChildMask(original: seq<bool>): (m: seq<bool>)
    ensures |m| == SETSIZE && forall i :: 0 <= i < |m| ==> m[i] == (i == ChildCore(original))
  {
    WithCpu(EmptyMask(), ChildCore(original))
  }

  /** CPU_COUNT agrees with the size of the set of CPUs in the mask. */
  lemma {:induction false} CountIsCardinality(m: seq<bool>)
    ensures CountOf(m) == |Members(m)|
  {
    if m != [] {
      var p := m[..|m| - 1];
      CountIsCardinality(p);
      var last := |m| - 1;
      if m[last] {
        assert Members(m) == Members(p) + {last};
        assert last !in Members(p);
      } else {
        assert Members(m) == Members(p);
      }
    }
  }

  /** The parent's mask holds exactly CPU 0. */
  lemma ParentMaskIsCpuZero()
    ensures |ParentMask()| == SETSIZE && Members(ParentMask()) == {0}
  {
    var m := ParentMask();
    assert m[0];
    assert forall i: nat :: i in Members(m) ==> i == 0;
  }

  /** The child's mask holds exactly CPU CPU_COUNT(original) - 1, which lies
      inside the mask because the count never exceeds the mask's size; when
      the original mask is empty CPU_SET(-1) is ignored and the mask stays
      empty. */
  lemma ChildMaskIsSingleCore(original: seq<bool>)
    requires |original| == SETSIZE
    ensures |ChildMask(original)| == SETSIZE
    ensures CountOf(original) >= 1 ==> Members(ChildMask(original)) == {CountOf(original) - 1}
    ensures CountOf(original) == 0 ==> Members(ChildMask(original)) == {}
  {
    var m := ChildMask(original);
    var c := ChildCore(original);
    if c >= 0 {
      assert m[c];
      assert forall i: nat :: i in Members(m) ==> i == c;
    } else {
      assert forall i: nat :: i in Members(m) ==> false;
    }
  }

  /** The mask {2, 3}, as left by `taskset -c 2,3`. */
  function CoresTwoAndThree(): seq<bool> {
    seq(SETSIZE, i => i == 2 || i == 3)
  }

  /** As written, the consumer's core is the number of CPUs minus one, not a
      CPU of the original mask: from {2, 3} it pins itself to CPU 1, which the
      original mask does not contain. */
  lemma ChildCoreOutsideOriginal()
    ensures CountOf(CoresTwoAndThree()) == 2 && ChildCore(CoresTwoAndThree()) == 1
    ensures !CoresTwoAndThree()[1]
    ensures Members(ChildMask(CoresTwoAndThree())) !! Members(CoresTwoAndThree())
  {
    var m := CoresTwoAndThree();
    assert Members(m) == {2, 3} by {
      assert m[2] && m[3];
      assert forall i: nat :: i in Members(m) ==> i == 2 || i == 3;
    }
    CountIsCardinality(m);
    ChildMaskIsSingleCore(m);
  }

  /** The highest CPU among the first n bits of m, or -1 when there is none. */
  function HighestBelow(m: seq<bool>, n: nat): (r: int)
    requires n <= |m|
    ensures -1 <= r < n
    ensures r >= 0 ==> m[r]
    ensures forall i :: r < i < n ==> !m[i]
  {
    if n == 0 then -1 else if m[n - 1] then n - 1 else HighestBelow(m, n - 1)
  }

  /** The highest-numbered CPU of the mask, or -1 for an empty mask: the core
      the consumer is meant to take. */
  function HighestCore(m: seq<bool>): int {
    HighestBelow(m, |m|)
  }

  /** The consumer's mask as intended: CPU_ZERO, CPU_SET(highest CPU). */
  function IntendedChildMask(original: seq<bool>): seq<bool> {
    WithCpu(EmptyMask(), HighestCore(original))
  }

  /** Pinned to the highest CPU of the original mask, the consumer stays
      inside that mask and on its top CPU. */
  lemma IntendedChildCoreInOriginal(original: seq<bool>)
    requires |original| == SETSIZE && Members(original) != {}
    ensures var c := HighestCore(original);
      0 <= c < SETSIZE && Members(IntendedChildMask(original)) == {c as nat}
      && c in Members(original)
      && forall i :: i in Members(original) ==> i <= c
  {
    var c := HighestCore(original);
    var i0 :| i0 in Members(original);
    assert c >= 0;
    var m := IntendedChildMask(original);
    assert m[c];
    assert forall i: nat :: i in Members(m) ==> i == c;
  }

  /** On the masks {0, ..., n - 1} the code was written for, the two
      choices agree. */
  lemma ChildCoreOfPrefixMask(original: seq<bool>, n: nat)
    requires |original| == SETSIZE && 1 <= n <= SETSIZE
    requires forall i :: 0 <= i < SETSIZE ==> original[i] == (i < n)
    ensures ChildCore(original) == HighestCore(original) == n - 1
  {
    CountOfPrefix(original, n, SETSIZE);
    assert original[..SETSIZE] == original;
    assert original[n - 1];
  }

  /** And only there: when CPU_COUNT - 1 is the highest CPU of a non-empty
      mask, the mask is {0, ..., that CPU}. */
  lemma ChildCoreAgreesOnlyOnPrefix(m: seq<bool>)
    requires |m| == SETSIZE && Members(m) != {} && ChildCore(m) == HighestCore(m)
    ensures forall i :: 0 <= i < |m| ==> m[i] == (i <= HighestCore(m))
  {
    var h := HighestCore(m);
    var i0 :| i0 in Members(m);
    assert h >= 0;
    CountOfClearTail(m, h + 1);
    var p := m[..h + 1];
    FullCount(p);
    forall i | 0 <= i < |m|
      ensures m[i] == (i <= h)
    {
      if i <= h {
        assert m[i] == p[i];
      }
    }
  }

  /** Clear bits after bit k add nothing to CPU_COUNT. */
  lemma {:induction false} CountOfClearTail(m: seq<bool>, k: nat)
    requires k <= |m| && forall i :: k <= i < |m| ==> !m[i]
    ensures CountOf(m) == CountOf(m[..k])
    decreases |m|
  {
    if |m| > k {
      var p := m[..|m| - 1];
      assert forall i :: k <= i < |p| ==> p[i] == m[i];
      CountOfClearTail(p, k);
      assert p[..k] == m[..k];
    } else {
      assert m[..k] == m;
    }
  }

  /** A mask whose every bit counts has every bit set. */
  lemma {:induction false} FullCount(m: seq<bool>)
    requires CountOf(m) == |m|
    ensures forall i :: 0 <= i < |m| ==> m[i]
  {
    if m != [] {
      var p := m[..|m| - 1];
      assert m[|m| - 1] && CountOf(p) == |p|;
      FullCount(p);
      assert forall i :: 0 <= i < |p| ==> m[i] == p[i];
    }
  }

  lemma {:induction false} CountOfPrefix(m: seq<bool>, n: nat, k: nat)
    requires k <= |m|
    requires forall i :: 0 <= i < |m| ==> m[i] == (i < n)
    ensures CountOf(m[..k]) == if k <= n then k else n
  {
    if k > 0 {
      CountOfPrefix(m, n, k - 1);
      assert m[..k][..k - 1] == m[..k - 1];
    }
  }

  /** A cpu_set_t: a fixed-size bit array updated in place by the macros. */
  class CpuMask {
    const bits: array<bool>

    ghost predicate Valid() {
      bits.Length == SETSIZE
    }

    /** A mask holding the given bits, as filled in by sched_getaffinity. */
    constructor (initial: seq<bool>)
      requires |initial| == SETSIZE
      ensures Valid() && fresh(bits) && bits[..] == initial
    {
      bits := new bool[SETSIZE](i requires 0 <= i < SETSIZE => initial[i]);
    }

    /** CPU_ISSET: true exactly for the CPUs of the mask, so out-of-range
        numbers are reported as not set. */
    predicate IsSet(cpu: int)
      reads bits
      ensures IsSet(cpu) <==> 0 <= cpu && cpu in Members(bits[..])
    {
      0 <= cpu < bits.Length && bits[cpu]
    }

    /** CPU_ZERO. */
    method Zero()
      requires Valid()
      modifies bits
      ensures bits[..] == EmptyMask()
    {
      forall i | 0 <= i < bits.Length {
        bits[i] := false;
      }
    }

    /** CPU_SET. */
    method Set(cpu: int)
      modifies bits
      ensures bits[..] == WithCpu(old(bits[..]), cpu)
    {
      if 0 <= cpu < bits.Length {
        bits[cpu] := true;
      }
    }

    /** CPU_COUNT, one bit at a time. */
    method Count() returns (n: nat)
      ensures n == CountOf(bits[..])
    {
      n := 0;
      var i := 0;
      while i < bits.Length
        invariant 0 <= i <= bits.Length
        invariant n == CountOf(bits[..i])
      {
        assert bits[..i + 1][..i] == bits[..i];
        if bits[i] {
          n := n + 1;
        }
        i := i + 1;
      }
      assert bits[..bits.Length] == bits[..];
    }
  }

  /** The producer's pinning: a mask declared without an initial value,
      whatever bits it happens to hold, then CPU_ZERO, CPU_SET(0). */
  method PinParent(uninit: seq<bool>) returns (coremask: CpuMask)
    requires |uninit| == SETSIZE
    ensures fresh(coremask) && fresh(coremask.bits) && coremask.Valid()
    ensures coremask.bits[..] == ParentMask()
  {
    coremask := new CpuMask(uninit);
    coremask.Zero();
    coremask.Set(0);
  }

  /** The consumer's pinning of the inherited mask: ncpus = CPU_COUNT,
      CPU_ZERO, CPU_SET(ncpus - 1). */
  method PinChild(coremask: CpuMask) returns (ncpus: nat)
    requires coremask.Valid()
    modifies coremask.bits
    ensures ncpus == CountOf(old(coremask.bits[..]))
    ensures coremask.bits[..] == ChildMask(old(coremask.bits[..]))
  {
    ncpus := coremask.Count();
    coremask.Zero();
    coremask.Set(ncpus - 1);
  }

  /** The consumer's pinning as intended: scan down from the top bit for the
      highest CPU of the inherited mask, then CPU_ZERO and CPU_SET(that CPU). */
  method PinChildHighest(coremask: CpuMask) returns (core: int)
    requires coremask.Valid()
    modifies coremask.bits
    ensures core == HighestCore(old(coremask.bits[..]))
    ensures coremask.bits[..] == IntendedChildMask(old(coremask.bits[..]))
  {
    ghost var m := coremask.bits[..];
    var i := coremask.bits.Length;
    while i > 0 && !coremask.bits[i - 1]
      invariant 0 <= i <= coremask.bits.Length
      invariant HighestBelow(m, i) == HighestCore(m)
    {
      i := i - 1;
    }
    core := i - 1;
    coremask.Zero();
    coremask.Set(core);
  }
}
