/** cpuset_to_cstr: the text form of a CPU mask as a comma-separated list in
    which every maximal run of set bits is one entry: a lone CPU as `i`, two
    adjacent CPUs as `i,i+1`, three or more as `i-j`.

    Spans gives the maximal runs of a mask, Format the text built from them,
    Decode reads such text back into CPU numbers, and CpusetToCstr is the
    formatter itself, writing through an advancing index into a character
    buffer. */
module CpuList {
  import opened Decimal
  import opened CpuSet

  datatype Option<T> = None | Some(value: T)

  /** The run of CPUs first, first + 1, ..., last. */
  datatype Span = Span(first: nat, last: nat)

  /** A run of set bits that cannot be extended on either side. */
  predicate IsMaximalRun(m: seq<bool>, sp: Span) {
    sp.first <= sp.last < |m|
    && (forall x :: sp.first <= x <= sp.last ==> m[x])
    && (sp.first == 0 || !m[sp.first - 1])
    && (sp.last + 1 == |m| || !m[sp.last + 1])
  }

  /** The number of consecutive set bits from j on: the `run` counter of the
      inner scan, which stops at the first clear bit or at the end. */
  function Run(m: seq<bool>, j: nat): (r: nat)
    requires j <= |m|
    ensures j + r <= |m|
    ensures forall k :: j <= k < j + r ==> m[k]
    ensures j + r < |m| ==> !m[j + r]
    decreases |m| - j
  {
    if j == |m| || !m[j] then 0 else 1 + Run(m, j + 1)
  }

  /** The runs found by the outer scan from bit i on: a set bit i starts a run
      of 1 + Run(m, i + 1) bits, and the scan resumes after it. Each run
      takes at least one bit, so there are no more runs than bits left. */
  function SpansFrom(m: seq<bool>, i: nat): (r: seq<Span>)
    requires i <= |m|
    ensures |r| <= |m| - i
    decreases |m| - i
  {
    if i == |m| then []
    else if !m[i] then SpansFrom(m, i + 1)
    else
      var run := Run(m, i + 1);
      [Span(i, i + run)] + SpansFrom(m, i + run + 1)
  }

  /** The runs of the whole mask, from bit 0. */
  function Spans(m: seq<bool>): (r: seq<Span>)
    ensures |r| <= |m|
  {
    SpansFrom(m, 0)
  }

  /** The text of one run, as one sprintf call writes it, less its comma. */
  function SpanText(sp: Span): (s: string)
    ensures |s| >= 1 && IsDigit(s[0]) && IsDigit(s[|s| - 1])
  {
    if sp.last == sp.first then Dec(sp.first)
    else if sp.last == sp.first + 1 then Dec(sp.first) + "," + Dec(sp.last)
    else Dec(sp.first) + "-" + Dec(sp.last)
  }

  /** The run texts separated by commas; a non-empty list ends in a digit,
      never in a comma. */
  function Join(sps: seq<Span>): (s: string)
    ensures s == [] <==> sps == []
    ensures s != [] ==> IsDigit(s[|s| - 1])
  {
    if sps == [] then ""
    else if |sps| == 1 then SpanText(sps[0])
    else SpanText(sps[0]) + "," + Join(sps[1..])
  }

  /** The string cpuset_to_cstr leaves in its buffer for mask m: empty
      exactly when the scan finds no run, and otherwise ending in a digit. */
  function Format(m: seq<bool>): (s: string)
    ensures s == [] <==> Spans(m) == []
    ensures s != [] ==> IsDigit(s[|s| - 1])
  {
    Join(Spans(m))
  }

  /** The text the formatter has written before it drops the final comma:
      every run's text followed by a comma. Each entry takes at least a
      digit and a comma. */
  function Emitted(sps: seq<Span>): (s: string)
  {
    if sps == [] then "" else SpanText(sps[0]) + "," + Emitted(sps[1..])
  }

  /** The CPUs of the mask in increasing order, from bit i on. */
  function SetCpusFrom(m: seq<bool>, i: nat): seq<nat>
    requires i <= |m|
    decreases |m| - i
  {
    if i == |m| then [] else (if m[i] then [i] else []) + SetCpusFrom(m, i + 1)
  }

  function SetCpus(m: seq<bool>): seq<nat> {
    SetCpusFrom(m, 0)
  }

  /** The numbers a, a + 1, ..., b. */
  function Interval(a: nat, b: nat): seq<nat>
    decreases b + 1 - a
  {
    if a > b then [] else [a] + Interval(a + 1, b)
  }

  /** The CPUs a list of runs stands for. */
  function Expand(sps: seq<Span>): seq<nat> {
    if sps == [] then [] else Interval(sps[0].first, sps[0].last) + Expand(sps[1..])
  }

  // ---------------------------------------------------------------------------
  // Reading the text back

  /** The number at the start of s and the text after it. */
  function ReadNumber(s: string): (r: Option<(nat, string)>)
    ensures r.Some? ==> |r.value.1| < |s|
  {
    var k := DigitRun(s);
    if k == 0 then None else Some((Value(s[..k]), s[k..]))
  }

  /** One entry at the start of s: a number, or a number, '-' and a number;
      gives the CPUs it stands for and the text after it. */
  function DecodeEntry(s: string): (r: Option<(seq<nat>, string)>)
    ensures r.Some? ==> |r.value.1| < |s|
  {
    match ReadNumber(s)
    case None => None
    case Some((a, t)) =>
      if t != [] && t[0] == '-' then
        match ReadNumber(t[1..])
        case None => None
        case Some((b, u)) => Some((Interval(a, b), u))
      else Some(([a], t))
  }

  /** A comma-separated list of entries, with no empty entry and no comma at
      either end, read into the CPUs it names. */
  function Decode(s: string): Option<seq<nat>>
    decreases |s|
  {
    if s == [] then Some([])
    else
      match DecodeEntry(s)
      case None => None
      case Some((xs, t)) =>
        if t == [] then Some(xs)
        else if t[0] == ',' && |t| > 1 then
          match Decode(t[1..])
          case None => None
          case Some(ys) => Some(xs + ys)
        else None
  }

  /** The text after an entry: either nothing, or a comma and a list that
      reads as ys. */
  ghost predicate TailDecodes(tail: string, ys: seq<nat>) {
    (tail == [] && ys == []) || (|tail| > 1 && tail[0] == ',' && Decode(tail[1..]) == Some(ys))
  }

  /** After an entry that reads as xs and ends at the text `tail`, the whole
      text reads as xs followed by what the tail reads as. */
  lemma DecodeAfterEntry(s: string, xs: seq<nat>, tail: string, ys: seq<nat>)
    requires s != [] && DecodeEntry(s) == Some((xs, tail))
    requires TailDecodes(tail, ys)
    ensures Decode(s) == Some(xs + ys)
  {
    if tail == [] {
      assert xs + ys == xs;
    }
  }

  /** The digits of n, followed by text that does not start with a digit,
      read as n. */
  lemma ReadDec(n: nat, t: string)
    requires t == [] || !IsDigit(t[0])
    ensures ReadNumber(Dec(n) + t) == Some((n, t))
  {
    DigitRunOfDec(n, t);
    ValueOfDec(n);
  }

  /** A number followed by nothing or a comma is an entry standing for that
      number alone. */
  lemma EntryOfNumber(n: nat, tail: string)
    requires tail == [] || tail[0] == ','
    ensures DecodeEntry(Dec(n) + tail) == Some(([n], tail))
  {
    ReadDec(n, tail);
  }

  /** `a-b` followed by nothing or a comma is an entry standing for a..b. */
  lemma EntryOfRange(a: nat, b: nat, tail: string)
    requires tail == [] || tail[0] == ','
    ensures DecodeEntry(Dec(a) + "-" + Dec(b) + tail) == Some((Interval(a, b), tail))
  {
    var u := Dec(b) + tail;
    var t := "-" + u;
    assert Dec(a) + "-" + Dec(b) + tail == Dec(a) + t;
    ReadDec(a, t);
    ReadDec(b, tail);
    EntryOfTwoNumbers(Dec(a) + t, a, b, t, u, tail);
  }

  lemma EntryOfTwoNumbers(s: string, a: nat, b: nat, t: string, u: string, tail: string)
    requires t == "-" + u
    requires ReadNumber(s) == Some((a, t)) && ReadNumber(u) == Some((b, tail))
    ensures DecodeEntry(s) == Some((Interval(a, b), tail))
  {
    assert t[1..] == u;
  }

  lemma DecodeSingle(n: nat, tail: string, ys: seq<nat>)
    requires TailDecodes(tail, ys)
    ensures Decode(Dec(n) + tail) == Some([n] + ys)
  {
    EntryOfNumber(n, tail);
    DecodeAfterEntry(Dec(n) + tail, [n], tail, ys);
  }

  lemma DecodeRange(a: nat, b: nat, tail: string, ys: seq<nat>)
    requires TailDecodes(tail, ys)
    ensures Decode(Dec(a) + "-" + Dec(b) + tail) == Some(Interval(a, b) + ys)
  {
    EntryOfRange(a, b, tail);
    DecodeAfterEntry(Dec(a) + "-" + Dec(b) + tail, Interval(a, b), tail, ys);
  }

  /** `a,a+1` followed by a well-formed tail reads as a, a + 1 and the
      tail's CPUs. */
  lemma DecodePair(a: nat, tail: string, ys: seq<nat>, s: string)
    requires TailDecodes(tail, ys)
    requires s == Dec(a) + "," + Dec(a + 1) + tail
    ensures Decode(s) == Some([a, a + 1] + ys)
  {
    DecodePairNested(a, tail, ys);
    PairTextShape(a, tail);
    PairList(a, ys);
  }

  lemma PairList(a: nat, ys: seq<nat>)
    ensures [a] + ([a + 1] + ys) == [a, a + 1] + ys
  {
  }

  lemma DecodePairNested(a: nat, tail: string, ys: seq<nat>)
    requires TailDecodes(tail, ys)
    ensures Decode(Dec(a) + ("," + (Dec(a + 1) + tail))) == Some([a] + ([a + 1] + ys))
  {
    var t1 := Dec(a + 1) + tail;
    DecodeSingle(a + 1, tail, ys);
    CommaTail(t1, [a + 1] + ys);
    DecodeSingle(a, "," + t1, [a + 1] + ys);
  }

  lemma PairTextShape(a: nat, tail: string)
    ensures Dec(a) + "," + Dec(a + 1) + tail == Dec(a) + ("," + (Dec(a + 1) + tail))
  {
  }

  lemma CommaTail(t: string, xs: seq<nat>)
    requires t != [] && Decode(t) == Some(xs)
    ensures TailDecodes("," + t, xs)
  {
    assert ("," + t)[1..] == t;
  }

  lemma IntervalPair(a: nat)
    ensures Interval(a, a + 1) == [a, a + 1]
  {
    assert Interval(a + 2, a + 1) == [];
    assert Interval(a + 1, a + 1) == [a + 1];
  }

  /** The text of one run, followed by a well-formed tail, reads as the run's
      CPUs followed by the tail's. */
  lemma DecodeSpan(sp: Span, tail: string, ys: seq<nat>)
    requires TailDecodes(tail, ys)
    ensures Decode(SpanText(sp) + tail) == Some(Interval(sp.first, sp.last) + ys)
  {
    if sp.last == sp.first {
      DecodeSingle(sp.first, tail, ys);
      assert Interval(sp.first, sp.last) == [sp.first];
    } else if sp.last == sp.first + 1 {
      DecodePair(sp.first, tail, ys, SpanText(sp) + tail);
      IntervalPair(sp.first);
    } else {
      DecodeRange(sp.first, sp.last, tail, ys);
    }
  }

  /** Reading a list of runs back gives exactly the CPUs the runs stand for. */
  lemma {:induction false} DecodeJoin(sps: seq<Span>)
    ensures Decode(Join(sps)) == Some(Expand(sps))
  {
    if sps != [] {
      var sp := sps[0];
      var rest := sps[1..];
      var tail := if rest == [] then "" else "," + Join(rest);
      assert TailDecodes(tail, Expand(rest)) by {
        if rest != [] {
          DecodeJoin(rest);
          assert tail[1..] == Join(rest);
        }
      }
      DecodeSpan(sp, tail, Expand(rest));
      JoinCons(sps);
    }
  }

  lemma JoinCons(sps: seq<Span>)
    requires sps != []
    ensures Join(sps) == SpanText(sps[0]) + (if |sps| == 1 then "" else "," + Join(sps[1..]))
  {
    if |sps| > 1 {
      ConcatAssoc(SpanText(sps[0]), ",", Join(sps[1..]));
    } else {
      assert SpanText(sps[0]) + "" == SpanText(sps[0]);
    }
  }

  // ---------------------------------------------------------------------------
  // The runs of a mask

  /** From a point where no run is under way, the scan lists maximal runs
      only, in increasing order with a clear bit between neighbours, and
      every set bit lies in one of them. */
  lemma SpansFromShape(m: seq<bool>, i: nat)
    requires i <= |m|
    requires i == 0 || i == |m| || !m[i - 1] || !m[i]
    ensures forall k :: 0 <= k < |SpansFrom(m, i)| ==>
      IsMaximalRun(m, SpansFrom(m, i)[k]) && i <= SpansFrom(m, i)[k].first
    ensures forall k, k' :: 0 <= k < k' < |SpansFrom(m, i)| ==>
      SpansFrom(m, i)[k].last + 1 < SpansFrom(m, i)[k'].first
    ensures forall x :: i <= x < |m| && m[x] ==>
      exists k :: 0 <= k < |SpansFrom(m, i)| && SpansFrom(m, i)[k].first <= x <= SpansFrom(m, i)[k].last
  {
    SpansFromAbove(m, i);
    SpansFromMaximal(m, i);
    SpansFromOrdered(m, i);
    SpansFromCover(m, i);
  }

  /** Every run listed from bit i on starts at a set bit at or after i. */
  lemma {:induction false} SpansFromAbove(m: seq<bool>, i: nat)
    requires i <= |m|
    ensures forall k :: 0 <= k < |SpansFrom(m, i)| ==>
      i <= SpansFrom(m, i)[k].first < |m| && m[SpansFrom(m, i)[k].first]
    decreases |m| - i
  {
    if i < |m| {
      if !m[i] {
        SpansFromAbove(m, i + 1);
        assert SpansFrom(m, i) == SpansFrom(m, i + 1);
      } else {
        var next := i + Run(m, i + 1) + 1;
        var rest := SpansFrom(m, next);
        SpansFromAbove(m, next);
        SpansFromSetBit(m, i, next - 1);
        var s := SpansFrom(m, i);
        forall k | 0 < k < |s|
          ensures i <= s[k].first < |m| && m[s[k].first]
        {
          assert s[k] == rest[k - 1];
        }
      }
    }
  }

  lemma {:induction false} SpansFromMaximal(m: seq<bool>, i: nat)
    requires i <= |m|
    requires i == 0 || i == |m| || !m[i - 1] || !m[i]
    ensures forall k :: 0 <= k < |SpansFrom(m, i)| ==> IsMaximalRun(m, SpansFrom(m, i)[k])
    decreases |m| - i
  {
    if i < |m| {
      if !m[i] {
        SpansFromMaximal(m, i + 1);
        assert SpansFrom(m, i) == SpansFrom(m, i + 1);
      } else {
        var run := Run(m, i + 1);
        var next := i + run + 1;
        var rest := SpansFrom(m, next);
        SpansFromMaximal(m, next);
        SpansFromSetBit(m, i, i + run);
        var s := SpansFrom(m, i);
        assert s[0] == Span(i, i + run);
        forall k | 0 < k < |s|
          ensures IsMaximalRun(m, s[k])
        {
          assert s[k] == rest[k - 1];
        }
      }
    }
  }

  lemma {:induction false} SpansFromOrdered(m: seq<bool>, i: nat)
    requires i <= |m|
    ensures forall k, k' :: 0 <= k < k' < |SpansFrom(m, i)| ==>
      SpansFrom(m, i)[k].last + 1 < SpansFrom(m, i)[k'].first
    decreases |m| - i
  {
    if i < |m| {
      if !m[i] {
        SpansFromOrdered(m, i + 1);
        assert SpansFrom(m, i) == SpansFrom(m, i + 1);
      } else {
        var run := Run(m, i + 1);
        var next := i + run + 1;
        var rest := SpansFrom(m, next);
        SpansFromOrdered(m, next);
        SpansFromAbove(m, next);
        SpansFromSetBit(m, i, i + run);
        var s := SpansFrom(m, i);
        forall k, k' | 0 <= k < k' < |s|
          ensures s[k].last + 1 < s[k'].first
        {
          assert s[k'] == rest[k' - 1];
          if k > 0 {
            assert s[k] == rest[k - 1];
          } else {
            assert s[k].last + 1 == next && m[s[k'].first];
          }
        }
      }
    }
  }

  lemma {:induction false} SpansFromCover(m: seq<bool>, i: nat)
    requires i <= |m|
    ensures forall x :: i <= x < |m| && m[x] ==>
      exists k :: 0 <= k < |SpansFrom(m, i)| && SpansFrom(m, i)[k].first <= x <= SpansFrom(m, i)[k].last
    decreases |m| - i
  {
    if i < |m| {
      if !m[i] {
        SpansFromCover(m, i + 1);
        assert SpansFrom(m, i) == SpansFrom(m, i + 1);
      } else {
        var run := Run(m, i + 1);
        var next := i + run + 1;
        var rest := SpansFrom(m, next);
        SpansFromCover(m, next);
        SpansFromSetBit(m, i, i + run);
        var s := SpansFrom(m, i);
        forall x | i <= x < |m| && m[x]
          ensures exists k :: 0 <= k < |s| && s[k].first <= x <= s[k].last
        {
          if x <= i + run {
            assert s[0].first <= x <= s[0].last;
          } else {
            var k :| 0 <= k < |rest| && rest[k].first <= x <= rest[k].last;
            assert s[k + 1] == rest[k];
          }
        }
      }
    }
  }

  /** Two maximal runs that share a CPU are the same run. */
  lemma MaximalRunsMeet(m: seq<bool>, a: Span, b: Span, x: nat)
    requires IsMaximalRun(m, a) && IsMaximalRun(m, b)
    requires a.first <= x <= a.last && b.first <= x <= b.last
    ensures a == b
  {
  }

  /** The runs listed for a mask are exactly its maximal runs. */
  lemma SpansAreMaximalRuns(m: seq<bool>, sp: Span)
    ensures sp in Spans(m) <==> IsMaximalRun(m, sp)
  {
    SpansFromShape(m, 0);
    var s := Spans(m);
    if IsMaximalRun(m, sp) {
      assert sp.first < |m| && m[sp.first];
      var k :| 0 <= k < |s| && s[k].first <= sp.first <= s[k].last;
      MaximalRunsMeet(m, s[k], sp, sp.first);
    }
  }

  /** The runs are listed in strictly increasing order, each separated from
      the next by at least one clear bit. */
  lemma SpansIncreasing(m: seq<bool>)
    ensures forall k, k' :: 0 <= k < k' < |Spans(m)| ==> Spans(m)[k].last + 1 < Spans(m)[k'].first
  {
    SpansFromShape(m, 0);
  }

  /** A set bit with clear neighbours is listed as the entry `i`. */
  lemma LoneCpuEntry(m: seq<bool>, i: nat)
    requires i < |m| && m[i]
    requires i == 0 || !m[i - 1]
    requires i + 1 == |m| || !m[i + 1]
    ensures Span(i, i) in Spans(m) && SpanText(Span(i, i)) == Dec(i)
  {
    SpansAreMaximalRuns(m, Span(i, i));
  }

  /** A maximal run of exactly two bits is listed as `i,i+1`, not as a range. */
  lemma PairEntry(m: seq<bool>, i: nat)
    requires i + 1 < |m| && m[i] && m[i + 1]
    requires i == 0 || !m[i - 1]
    requires i + 2 == |m| || !m[i + 2]
    ensures Span(i, i + 1) in Spans(m) && SpanText(Span(i, i + 1)) == Dec(i) + "," + Dec(i + 1)
  {
    SpansAreMaximalRuns(m, Span(i, i + 1));
  }

  /** A maximal run of three or more bits i..j is listed as the range `i-j`. */
  lemma RangeEntry(m: seq<bool>, i: nat, j: nat)
    requires i + 2 <= j < |m|
    requires forall x :: i <= x <= j ==> m[x]
    requires i == 0 || !m[i - 1]
    requires j + 1 == |m| || !m[j + 1]
    ensures Span(i, j) in Spans(m) && SpanText(Span(i, j)) == Dec(i) + "-" + Dec(j)
  {
    SpansAreMaximalRuns(m, Span(i, j));
  }

  /** The CPUs from bit i on are listed once each, in increasing order. */
  lemma {:induction false} SetCpusFromSpec(m: seq<bool>, i: nat)
    requires i <= |m|
    ensures forall x :: x in SetCpusFrom(m, i) <==> i <= x < |m| && m[x]
    ensures forall k, k' :: 0 <= k < k' < |SetCpusFrom(m, i)| ==> SetCpusFrom(m, i)[k] < SetCpusFrom(m, i)[k']
    decreases |m| - i
  {
    if i < |m| {
      SetCpusFromSpec(m, i + 1);
      var s := SetCpusFrom(m, i);
      var rest := SetCpusFrom(m, i + 1);
      if m[i] {
        assert s == [i] + rest;
        forall k, k' | 0 <= k < k' < |s| ensures s[k] < s[k'] {
          assert s[k'] == rest[k' - 1] && s[k'] in rest;
          if k > 0 {
            assert s[k] == rest[k - 1];
          }
        }
      }
    }
  }

  lemma {:induction false} SetCpusOfRun(m: seq<bool>, i: nat, r: nat)
    requires i + r < |m|
    requires forall k :: i <= k <= i + r ==> m[k]
    ensures SetCpusFrom(m, i) == Interval(i, i + r) + SetCpusFrom(m, i + r + 1)
    decreases r
  {
    var after := SetCpusFrom(m, i + r + 1);
    assert SetCpusFrom(m, i) == [i] + SetCpusFrom(m, i + 1);
    if r > 0 {
      SetCpusOfRun(m, i + 1, r - 1);
      ConcatAssoc([i], Interval(i + 1, i + r), after);
    } else {
      assert Interval(i, i) == [i];
    }
  }

  /** The runs stand for exactly the set bits. */
  lemma {:induction false} ExpandSpansFrom(m: seq<bool>, i: nat)
    requires i <= |m|
    ensures Expand(SpansFrom(m, i)) == SetCpusFrom(m, i)
    decreases |m| - i
  {
    if i == |m| {
      assert SpansFrom(m, i) == [] && SetCpusFrom(m, i) == [];
    } else if !m[i] {
      ExpandSpansFrom(m, i + 1);
      assert SpansFrom(m, i) == SpansFrom(m, i + 1);
      SetCpusFromClearBit(m, i);
    } else {
      var run := Run(m, i + 1);
      var rest := SpansFrom(m, i + run + 1);
      SpansFromSetBit(m, i, i + run);
      ExpandCons(SpansFrom(m, i), Span(i, i + run), rest);
      ExpandSpansFrom(m, i + run + 1);
      SetCpusOfRun(m, i, run);
    }
  }

  lemma SetCpusFromClearBit(m: seq<bool>, i: nat)
    requires i < |m| && !m[i]
    ensures SetCpusFrom(m, i) == SetCpusFrom(m, i + 1)
  {
    assert [] + SetCpusFrom(m, i + 1) == SetCpusFrom(m, i + 1);
  }

  lemma ExpandCons(sps: seq<Span>, sp: Span, rest: seq<Span>)
    requires sps == [sp] + rest
    ensures Expand(sps) == Interval(sp.first, sp.last) + Expand(rest)
  {
    assert sps[0] == sp && sps[1..] == rest;
  }

  // ---------------------------------------------------------------------------
  // Properties of the text

  /** Reading the formatted text back gives every CPU of the mask exactly
      once, in increasing order, and no CPU outside it. */
  lemma FormatRoundTrip(m: seq<bool>)
    ensures Decode(Format(m)) == Some(SetCpus(m))
    ensures forall x :: x in SetCpus(m) <==> 0 <= x < |m| && m[x]
    ensures forall k, k' :: 0 <= k < k' < |SetCpus(m)| ==> SetCpus(m)[k] < SetCpus(m)[k']
  {
    DecodeJoin(Spans(m));
    ExpandSpansFrom(m, 0);
    SetCpusFromSpec(m, 0);
  }

  /** The text is empty exactly for the empty mask; otherwise it ends in a
      digit, so the final comma has been removed. */
  lemma FormatEmptyIffNoCpu(m: seq<bool>)
    ensures Format(m) == "" <==> Members(m) == {}
    ensures Format(m) != "" ==> IsDigit(Format(m)[|Format(m)| - 1])
  {
    SpansFromShape(m, 0);
    var s := Spans(m);
    if s != [] {
      assert s[0].first in Members(m);
    }
    if Members(m) != {} {
      var x :| x in Members(m);
      assert s != [];
    }
  }

  /** A mask holding only CPU c is printed as the number c. */
  lemma FormatSingleCpu(m: seq<bool>, c: nat)
    requires c < |m|
    requires forall i :: 0 <= i < |m| ==> m[i] == (i == c)
    ensures Format(m) == Dec(c)
  {
    SkipClearBits(m, 0, c);
    SkipClearBits(m, c + 1, |m|);
    assert Run(m, c + 1) == 0;
    assert SpansFrom(m, c) == [Span(c, c)] + SpansFrom(m, c + 1);
  }

  lemma {:induction false} SkipClearBits(m: seq<bool>, i: nat, j: nat)
    requires i <= j <= |m|
    requires forall k :: i <= k < j ==> !m[k]
    ensures SpansFrom(m, i) == SpansFrom(m, j)
    decreases j - i
  {
    if i < j {
      SkipClearBits(m, i + 1, j);
    }
  }

  // ---------------------------------------------------------------------------
  // The formatter over a character buffer

  lemma {:induction false} EmittedAppend(a: seq<Span>, b: seq<Span>)
    ensures Emitted(a + b) == Emitted(a) + Emitted(b)
  {
    if a != [] {
      assert (a + b)[0] == a[0] && (a + b)[1..] == a[1..] + b;
      EmittedAppend(a[1..], b);
      var w := SpanText(a[0]) + ",";
      assert Emitted(a + b) == w + Emitted(a[1..] + b);
      assert Emitted(a) == w + Emitted(a[1..]);
      assert w + (Emitted(a[1..]) + Emitted(b)) == (w + Emitted(a[1..])) + Emitted(b);
    } else {
      assert a + b == b;
    }
  }

  lemma {:induction false} EmittedIsJoin(sps: seq<Span>)
    requires sps != []
    ensures Emitted(sps) == Join(sps) + ","
  {
    if |sps| > 1 {
      EmittedIsJoin(sps[1..]);
    }
  }

  /** Every scanned bit costs at most five characters: a CPU number below
      10000 has at most four digits, and a run of r + 1 bits writes at most
      two numbers and two separators. */
  lemma {:induction false} EmittedBound(m: seq<bool>, i: nat)
    requires i <= |m| <= 10000
    ensures |Emitted(SpansFrom(m, i))| <= 5 * (|m| - i)
    decreases |m| - i
  {
    if i < |m| {
      if !m[i] {
        EmittedBound(m, i + 1);
      } else {
        var run := Run(m, i + 1);
        var last := i + run;
        EmittedBound(m, last + 1);
        SpansFromSetBit(m, i, last);
        EmittedCons(SpansFrom(m, i), Span(i, last), SpansFrom(m, last + 1));
        RunTextLength(i, run);
      }
    }
  }

  /** A run of run + 1 bits starting below 10000 writes at most 5 * (run + 1)
      characters, its comma included. */
  lemma RunTextLength(i: nat, run: nat)
    requires i + run < 10000
    ensures |SpanText(Span(i, i + run)) + ","| <= 5 * (run + 1)
  {
    DecLength(i, 4);
    DecLength(i + run, 4);
  }

  predicate NoNul(s: string) {
    forall k :: 0 <= k < |s| ==> s[k] != '\0'
  }

  lemma RunTextHasNoNul(sp: Span)
    ensures NoNul(SpanText(sp) + ",")
  {
    var a := Dec(sp.first);
    var b := Dec(sp.last);
    assert NoNul(a) && NoNul(b) && NoNul(",") && NoNul("-");
    if sp.last == sp.first {
      NoNulConcat(a, ",");
    } else {
      var sep := if sp.last == sp.first + 1 then "," else "-";
      assert NoNul(sep);
      NoNulConcat(a, sep);
      NoNulConcat(a + sep, b);
      NoNulConcat(a + sep + b, ",");
    }
  }

  lemma NoNulConcat(a: string, b: string)
    requires NoNul(a) && NoNul(b)
    ensures NoNul(a + b)
  {
    forall k | 0 <= k < |a + b|
      ensures (a + b)[k] != '\0'
    {
      if k < |a| {
        assert (a + b)[k] == a[k];
      } else {
        assert (a + b)[k] == b[k - |a|];
      }
    }
  }

  /** One iteration that finds a set bit i: the run it writes is the next run
      of the list, the text grows by that run's text and comma, and the scan
      resumes after the run. */
  lemma ScanStep(m: seq<bool>, i: nat, done: seq<Span>, ptr: nat,
                  last: nat, done': seq<Span>, next: nat)
    requires i < |m| && m[i] && Scanned(m, i, done, ptr)
    requires last == i + Run(m, i + 1) && done' == done + [Span(i, last)]
    requires next == ptr + |SpanText(Span(i, last)) + ","|
    ensures next <= 5 * |m|
    ensures Emitted(done') == Emitted(done) + (SpanText(Span(i, last)) + ",")
    ensures Scanned(m, last + 1, done', next)
  {
    var sp := Span(i, last);
    var rest := SpansFrom(m, last + 1);
    var all := SpansFrom(m, i);
    SpansFromSetBit(m, i, last);
    EmittedCons(all, sp, rest);
    ConcatAssoc(done, [sp], rest);
    EmittedAppend(done, [sp]);
    EmittedCons([sp], sp, []);
  }

  /** At a set bit the spans start with the run there. */
  lemma SpansFromSetBit(m: seq<bool>, i: nat, last: nat)
    requires i < |m| && m[i] && last == i + Run(m, i + 1)
    ensures SpansFrom(m, i) == [Span(i, last)] + SpansFrom(m, last + 1)
  {
  }

  /** The text of a list that starts with sp starts with sp's text and a comma. */
  lemma EmittedCons(sps: seq<Span>, sp: Span, rest: seq<Span>)
    requires sps == [sp] + rest
    ensures Emitted(sps) == (SpanText(sp) + ",") + Emitted(rest)
    ensures |Emitted(sps)| == |SpanText(sp) + ","| + |Emitted(rest)|
  {
    assert sps[0] == sp && sps[1..] == rest;
  }

  /** Dropping the last character of the emitted text leaves the joined list. */
  lemma DropFinalComma(sps: seq<Span>)
    requires sps != []
    ensures |Emitted(sps)| >= 2 && Emitted(sps)[..|Emitted(sps)| - 1] == Join(sps)
  {
    EmittedIsJoin(sps);
  }

  lemma SplitAt<T>(s: seq<T>, a: nat, b: nat)
    requires a <= b <= |s|
    ensures s[..b] == s[..a] + s[a..b]
  {
  }

  lemma ConcatAssoc<T>(a: seq<T>, b: seq<T>, c: seq<T>)
    ensures (a + b) + c == a + (b + c)
  {
  }

  /** The characters of a buffer up to its first NUL: what printf("%s")
      shows of it. */
  function CString(s: string): (r: string)
    ensures |r| <= |s| && r == s[..|r|] && NoNul(r)
    ensures |r| < |s| ==> s[|r|] == '\0'
  {
    if s == [] || s[0] == '\0' then []
    else
      var r' := CString(s[1..]);
      assert [s[0]] + r' == s[..1 + |r'|];
      [s[0]] + r'
  }

  /** A buffer whose first k characters are not NUL and whose character k is
      NUL shows exactly those k characters. */
  lemma {:induction false} CStringOfTerminated(s: string, k: nat)
    requires k < |s| && NoNul(s[..k]) && s[k] == '\0'
    ensures CString(s) == s[..k]
  {
    if k > 0 {
      assert s[0] == s[..k][0];
      assert s[1..][..k - 1] == s[1..k];
      CStringOfTerminated(s[1..], k - 1);
    }
  }

  lemma {:induction false} EmittedHasNoNul(sps: seq<Span>)
    ensures NoNul(Emitted(sps))
  {
    if sps != [] {
      EmittedHasNoNul(sps[1..]);
      RunTextHasNoNul(sps[0]);
      var a := SpanText(sps[0]) + ",";
      assert Emitted(sps) == a + Emitted(sps[1..]);
    }
  }

  /** The text of a mask contains no NUL, so printing the buffer shows all of
      it. */
  lemma FormatHasNoNul(m: seq<bool>)
    ensures NoNul(Format(m))
  {
    var sps := Spans(m);
    if sps != [] {
      EmittedHasNoNul(sps);
      DropFinalComma(sps);
    }
  }

  /** sprintf(str + ptr, ...): the text followed by its terminating NUL. */
  method Sprintf(str: array<char>, ptr: nat, text: string)
    requires ptr + |text| < str.Length
    modifies str
    ensures str[..ptr] == old(str[..ptr])
    ensures str[ptr..ptr + |text|] == text && str[ptr + |text|] == '\0'
    ensures forall k :: ptr + |text| < k < str.Length ==> str[k] == old(str[k])
  {
    forall k | 0 <= k < |text| {
      str[ptr + k] := text[k];
    }
    str[ptr + |text|] := '\0';
  }

  /** The inner scan: the number of set bits straight after bit i. */
  method RunAfter(mask: CpuMask, i: nat) returns (run: nat)
    requires mask.Valid() && i < SETSIZE
    ensures run == Run(mask.bits[..], i + 1)
  {
    ghost var m := mask.bits[..];
    run := 0;
    var j := i + 1;
    while j < SETSIZE
      invariant i + 1 <= j <= SETSIZE
      invariant run == j - (i + 1)
      invariant Run(m, i + 1) == run + Run(m, j)
    {
      if mask.IsSet(j) {
        run := run + 1;
      } else {
        break;
      }
      j := j + 1;
    }
  }

  /** The sprintf of one entry: "%d," for a lone CPU, "%d,%d," for a pair
      and "%d-%d," for a longer run, written at ptr with its NUL. */
  method PrintRun(str: array<char>, ptr: nat, i: nat, run: nat)
    requires ptr + |SpanText(Span(i, i + run)) + ","| < str.Length
    modifies str
    ensures var text := SpanText(Span(i, i + run)) + ",";
      && str[..ptr] == old(str[..ptr])
      && str[ptr..ptr + |text|] == text && str[ptr + |text|] == '\0'
      && forall k :: ptr + |text| < k < str.Length ==> str[k] == old(str[k])
  {
    var text: string;
    if run == 0 {
      text := Dec(i) + ",";
    } else if run == 1 {
      text := Dec(i) + "," + Dec(i + 1) + ",";
    } else {
      text := Dec(i) + "-" + Dec(i + run) + ",";
    }
    assert text == SpanText(Span(i, i + run)) + ",";
    Sprintf(str, ptr, text);
  }

  /** `while (*ptr != 0) ptr++`: from ptr, over len characters that are not
      NUL, to the NUL that follows them. */
  method SkipToNul(str: array<char>, ptr: nat, ghost len: nat) returns (next: nat)
    requires ptr + len < str.Length && str[ptr + len] == '\0'
    requires forall k :: ptr <= k < ptr + len ==> str[k] != '\0'
    ensures next == ptr + len
  {
    next := ptr;
    while str[next] != '\0'
      invariant ptr <= next <= ptr + len
      decreases ptr + len - next
    {
      next := next + 1;
    }
  }

  /** One entry: the sprintf of the run starting at i with run further bits,
      then the walk of ptr to the written NUL. */
  method WriteRun(str: array<char>, ptr: nat, i: nat, run: nat) returns (next: nat)
    requires ptr + |SpanText(Span(i, i + run)) + ","| < str.Length
    modifies str
    ensures next == ptr + |SpanText(Span(i, i + run)) + ","|
    ensures str[..ptr] == old(str[..ptr])
    ensures str[ptr..next] == SpanText(Span(i, i + run)) + "," && str[next] == '\0'
    ensures forall k :: next < k < str.Length ==> str[k] == old(str[k])
  {
    ghost var text := SpanText(Span(i, i + run)) + ",";
    PrintRun(str, ptr, i, run);
    RunTextHasNoNul(Span(i, i + run));
    forall k | ptr <= k < ptr + |text|
      ensures str[k] != '\0'
    {
      assert str[k] == str[ptr..ptr + |text|][k - ptr] == text[k - ptr];
    }
    next := SkipToNul(str, ptr, |text|);
  }

  /** What the outer scan has done before bit i: the runs `done` are the
      spans of the mask found so far, their text with commas fills the first
      ptr characters, and what remains to be written still fits in five
      characters a bit. */
  ghost predicate Scanned(m: seq<bool>, i: nat, done: seq<Span>, ptr: nat) {
    i <= |m|
    && done + SpansFrom(m, i) == Spans(m)
    && ptr == |Emitted(done)|
    && ptr + |Emitted(SpansFrom(m, i))| <= 5 * |m|
  }

  /** The body of the outer loop when bit i is clear: nothing is written. */
  lemma ScanClearBit(m: seq<bool>, i: nat, done: seq<Span>, ptr: nat)
    requires Scanned(m, i, done, ptr) && i < |m| && !m[i]
    ensures Scanned(m, i + 1, done, ptr)
  {
    assert SpansFrom(m, i) == SpansFrom(m, i + 1);
  }

  /** The body of the outer loop when bit i is set: the inner scan, one
      sprintf, the walk of ptr to the new NUL, and the jump of i to the last
      bit of the run. */
  method EmitEntry(mask: CpuMask, str: array<char>, i: nat, ptr: nat, ghost done: seq<Span>)
      returns (last: nat, next: nat, ghost done': seq<Span>)
    requires mask.Valid() && i < SETSIZE && mask.bits[i] && str.Length >= 7 * SETSIZE
    requires Scanned(mask.bits[..], i, done, ptr) && str[..ptr] == Emitted(done)
    modifies str
    ensures last == i + Run(mask.bits[..], i + 1) && |done'| == |done| + 1
    ensures done' == done + [Span(i, last)]
    ensures i <= last < SETSIZE && done' != [] && ptr < next
    ensures Scanned(mask.bits[..], last + 1, done', next)
    ensures str[..next] == Emitted(done') && str[next] == '\0'
    ensures forall k :: next < k < str.Length ==> str[k] == old(str[k])
  {
    ghost var m := mask.bits[..];
    var run := RunAfter(mask, i);
    assert str[..] == old(str[..]) && run == Run(m, i + 1);
    last := i;
    if run == 1 {
      last := i + 1;
    } else if run > 1 {
      last := i + run;
    }
    assert last == i + run;
    ghost var sp := Span(i, i + run);
    ghost var text := SpanText(sp) + ",";
    done' := done + [sp];
    ScanStep(m, i, done, ptr, last, done', ptr + |text|);
    next := WriteRun(str, ptr, i, run);
    SplitAt(str[..], ptr, next);
    assert forall k :: next < k < str.Length ==> str[k] == old(str[k]);
  }

  /** The outer loop of cpuset_to_cstr: every run's text and comma are
      written from ptr 0 on, ptr ends on the NUL after the last one, and
      entry_made records whether any run was found. */
  method ScanRuns(mask: CpuMask, str: array<char>) returns (ptr: nat, entryMade: nat, ghost done: seq<Span>)
    requires mask.Valid() && str.Length >= 7 * SETSIZE
    modifies str
    ensures done == Spans(mask.bits[..]) && ptr == |Emitted(done)| && ptr <= 5 * SETSIZE
    ensures str[..ptr] == Emitted(done)
    ensures entryMade == if done == [] then 0 else 1
    ensures done != [] ==> str[ptr] == '\0'
    ensures forall k :: ptr < k < str.Length ==> str[k] == old(str[k])
  {
    ghost var m := mask.bits[..];
    done := [];
    ptr := 0;
    entryMade := 0;
    var i: nat := 0;
    EmittedBound(m, 0);
    while i < SETSIZE
      invariant mask.bits[..] == m && Scanned(m, i, done, ptr)
      invariant str[..ptr] == Emitted(done)
      invariant entryMade == if done == [] then 0 else 1
      invariant done != [] ==> str[ptr] == '\0'
      invariant forall k :: ptr < k < str.Length ==> str[k] == old(str[k])
    {
      if mask.IsSet(i) {
        entryMade := 1;
        i, ptr, done := EmitEntry(mask, str, i, ptr, done);
      } else {
        ScanClearBit(m, i, done, ptr);
      }
      i := i + 1;
    }
    assert done + SpansFrom(m, SETSIZE) == done;
  }

  /** `ptr -= entry_made; *ptr = 0;`: the last comma, when there is one, is
      overwritten by the terminating NUL; the buffer then holds the joined run
      texts. */
  method EndString(str: array<char>, ptr: nat, entryMade: nat, ghost done: seq<Span>) returns (len: nat)
    requires ptr == |Emitted(done)| && ptr + 1 < str.Length && str[..ptr] == Emitted(done)
    requires entryMade == if done == [] then 0 else 1
    requires done != [] ==> str[ptr] == '\0'
    modifies str
    ensures len + 1 < str.Length && str[..len] == Join(done) && str[len] == '\0'
    ensures len + entryMade == ptr && (len == 0 <==> done == [])
    ensures str[len + 1] == if len == 0 then old(str[len + 1]) else '\0'
    ensures forall k :: len + 1 < k < str.Length ==> str[k] == old(str[k])
  {
    ghost var scanned := str[..];
    if done != [] {
      DropFinalComma(done);
    }
    len := ptr - entryMade;
    str[len] := '\0';
    assert str[..] == scanned[len := '\0'];
    assert str[..len] == scanned[..len] == Emitted(done)[..len];
  }

  /** cpuset_to_cstr(mask, str): scans the bits, writing every run's text and
      a comma at ptr, then steps back over the last comma when an entry was
      written and ends the string there. The buffer holds 7 * CPU_SETSIZE
      characters. The result is the index of the terminating NUL. */
  method CpusetToCstr(mask: CpuMask, str: array<char>) returns (len: nat)
    requires mask.Valid() && str.Length >= 7 * SETSIZE
    modifies str
    ensures len < str.Length && str[..len] == Format(mask.bits[..]) && str[len] == '\0'
    ensures len + 1 < str.Length ==>
      str[len + 1] == if len == 0 then old(str[len + 1]) else '\0'
    ensures forall k :: len + 1 < k < str.Length ==> str[k] == old(str[k])
  {
    var ptr, entryMade, done := ScanRuns(mask, str);
    ghost var scanned := str[..];
    assert forall k :: ptr < k < str.Length ==> scanned[k] == old(str[k]);
    len := EndString(str, ptr, entryMade, done);
    assert forall k :: len + 1 < k < str.Length ==> str[k] == scanned[k];
  }

}
