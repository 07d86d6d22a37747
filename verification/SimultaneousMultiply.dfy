/**
 AbstractGroup::SimultaneousMultiply and ScalarMultiply: one base, many exponents.
 While the powers 2^k * base are walked once, every exponent drops its windows into
 buckets by digit; a running sum then weighs bucket j by 2j+1.
 */
module Simultaneous {
  import opened PowersOfTwo
  import opened Group
  import opened Window

  // ---------- Integer bookkeeping: what the buckets are worth ----------

  /** The sum of (2k+1) * c[k] for k >= j. */
  ghost function OddSum(c: seq<int>, j: nat): int
    requires j <= |c|
    decreases |c| - j
  {
    if j == |c| then 0 else (2 * j + 1) * c[j] + OddSum(c, j + 1)
  }

  ghost function SuffixSum(c: seq<int>, j: nat): int
    requires j <= |c|
    decreases |c| - j
  {
    if j == |c| then 0 else c[j] + SuffixSum(c, j + 1)
  }

  /** The sum of the suffix sums from j on. */
  ghost function RunSum(c: seq<int>, j: nat): int
    requires j <= |c|
    decreases |c| - j
  {
    if j == |c| then 0 else SuffixSum(c, j) + RunSum(c, j + 1)
  }

  /** Why one pass of running sums is enough. */
  lemma {:induction false} RunningSumsWeighOddly(c: seq<int>, j: nat)
    requires j < |c|
    ensures 2 * RunSum(c, j + 1) + (2 * j + 1) * SuffixSum(c, j) == OddSum(c, j)
    decreases |c| - j
  {
    if j + 1 < |c| {
      RunningSumsWeighOddly(c, j + 1);
      MulDistributes(c[j], SuffixSum(c, j + 1), 2 * j + 1);
      MulDistributes(2 * j + 1, 2, SuffixSum(c, j + 1));
    }
  }

  lemma {:induction false} OddSumUpdate(c: seq<int>, k: nat, d: int, j: nat)
    requires k < |c| && j <= |c|
    ensures OddSum(c[k := c[k] + d], j) == OddSum(c, j) + (if j <= k then (2 * k + 1) * d else 0)
    decreases |c| - j
  {
    if j < |c| {
      OddSumUpdate(c, k, d, j + 1);
      MulDistributes(c[k], d, 2 * k + 1);
    }
  }

  lemma {:induction false} OddSumOfZeros(c: seq<int>, j: nat)
    requires j <= |c| && forall k :: 0 <= k < |c| ==> c[k] == 0
    ensures OddSum(c, j) == 0
    decreases |c| - j
  {
    if j < |c| {
      OddSumOfZeros(c, j + 1);
    }
  }

  lemma {:induction false} SumsNonNegative(c: seq<int>, j: nat)
    requires j <= |c| && forall k :: 0 <= k < |c| ==> c[k] >= 0
    ensures SuffixSum(c, j) >= 0 && RunSum(c, j) >= 0 && OddSum(c, j) >= 0
    decreases |c| - j
  {
    if j < |c| {
      SumsNonNegative(c, j + 1);
      MulMonotone(0, c[j], 2 * j + 1);
    }
  }

  // ---------- Buckets ----------

  /** Bucket j holds c[j] * base. */
  ghost predicate Holds<T(!new)>(g: Group<T>, base: T, bucket: seq<T>, c: seq<int>)
    requires Lawful(g) && g.In(base)
  {
    && |bucket| == |c|
    && (forall j :: 0 <= j < |c| ==> Scalable(g, c[j]))
    && (forall j :: 0 <= j < |c| ==> bucket[j] == IntTimes(g, c[j], base))
  }

  lemma SumsScalable<T(!new)>(g: Group<T>, c: seq<int>, j: nat)
    requires j <= |c| && forall k :: 0 <= k < |c| ==> Scalable(g, c[k])
    ensures Scalable(g, SuffixSum(c, j)) && Scalable(g, RunSum(c, j)) && Scalable(g, OddSum(c, j))
  {
    if !g.inversionIsFast {
      assert forall k :: 0 <= k < |c| ==> Scalable(g, c[k]) ==> c[k] >= 0;
      SumsNonNegative(c, j);
    }
  }

  lemma LastSums(c: seq<int>)
    requires |c| >= 1
    ensures SuffixSum(c, |c| - 1) == RunSum(c, |c| - 1) == c[|c| - 1] && RunSum(c, |c|) == SuffixSum(c, |c|) == 0
  {
  }

  lemma SumSteps(c: seq<int>, j: nat)
    requires j < |c|
    ensures SuffixSum(c, j) == c[j] + SuffixSum(c, j + 1) && RunSum(c, j) == RunSum(c, j + 1) + SuffixSum(c, j)
  {
  }

  lemma DoubleScalable<T(!new)>(g: Group<T>, n: int)
    requires Scalable(g, n)
    ensures Scalable(g, 2 * n)
  {
  }

  /** The closing pass over one exponent's buckets. */
  method Combine<T(!new)>(g: Group<T>, ghost base: T, bucket: seq<T>, ghost c: seq<int>) returns (r: T)
    requires Lawful(g) && g.In(base) && Holds(g, base, bucket, c) && |bucket| >= 1
    ensures Scalable(g, OddSum(c, 0)) && r == IntTimes(g, OddSum(c, 0), base)
  {
    hide Lawful, IntTimes, SuffixSum, RunSum, OddSum, Scalable;
    var b := bucket;
    var n := |b|;
    LastSums(c);
    r := b[n-1];
    SumsScalable(g, c, 0);
    SumsScalable(g, c, n - 1);
    RunningSumsWeighOddly(c, 0);
    if n > 1 {
      var j := n - 2;
      while j >= 1
        invariant 0 <= j <= n - 2 && |b| == n
        invariant forall k :: 0 <= k <= j ==> b[k] == bucket[k]
        invariant Scalable(g, SuffixSum(c, j + 1)) && b[j+1] == IntTimes(g, SuffixSum(c, j + 1), base)
        invariant Scalable(g, RunSum(c, j + 1)) && r == IntTimes(g, RunSum(c, j + 1), base)
      {
        SumsScalable(g, c, j);
        SumSteps(c, j);
        IntTimesAdd(g, c[j], SuffixSum(c, j + 1), base);
        b := b[j := g.Add(b[j], b[j+1])];
        IntTimesAdd(g, RunSum(c, j + 1), SuffixSum(c, j), base);
        r := g.Add(r, b[j]);
        j := j - 1;
      }
      SumSteps(c, 0);
      SumsScalable(g, c, 1);
      DoubleScalable(g, RunSum(c, 1));
      IntTimesAdd(g, c[0], SuffixSum(c, 1), base);
      b := b[0 := g.Add(b[0], b[1])];
      IntTimesAdd(g, RunSum(c, 1), RunSum(c, 1), base);
      IntTimesAdd(g, 2 * RunSum(c, 1), SuffixSum(c, 0), base);
      r := g.Add(g.Double(r), b[0]);
    }
  }

  // ---------- One exponent while the powers of the base are walked ----------

  ghost predicate Bounded(ds: seq<Digit>, limit: nat) {
    forall d :: d in ds ==> d.position <= limit
  }

  /** The buckets and the windows still to come make up the exponent; none of the latter lies below pos. */
  ghost predicate Tracks<T(!new)>(g: Group<T>, base: T, s: WindowSlider, bucket: seq<T>, c: seq<int>,
                                  e: nat, pos: nat, limit: nat)
    requires Lawful(g) && g.In(base)
    reads s
  {
    && s.Valid() && !s.firstTime && s.fastNegate == g.inversionIsFast
    && |bucket| == Pow2(s.windowSize - 1)
    && Holds(g, base, bucket, c)
    && e == OddSum(c, 0) + DigitSum(s.Upcoming())
    && WellSpaced(s.Upcoming(), pos, s.windowSize, g.inversionIsFast)
    && Bounded(s.Upcoming(), limit)
  }

  method Start<T(!new)>(g: Group<T>, ghost base: T, e: nat, ghost limit: nat)
    returns (s: WindowSlider, bucket: seq<T>, ghost c: seq<int>)
    requires Lawful(g) && g.In(base) && e <= limit
    ensures fresh(s) && Tracks(g, base, s, bucket, c, e, 0, limit)
  {
    hide Recode;
    s := new WindowSlider(e, g.inversionIsFast, 0);
    RecodeExact(e, 0, s.windowSize, g.inversionIsFast);
    RecodeWellSpaced(e, 0, s.windowSize, g.inversionIsFast);
    RecodeBounded(e, 0, s.windowSize, g.inversionIsFast);
    s.FindNextWindow();
    bucket := seq(Pow2(s.windowSize - 1), _ => g.identity);
    c := seq(Pow2(s.windowSize - 1), _ => 0);
    OddSumOfZeros(c, 0);
  }

  /** The bucket of an odd digit. */
  lemma BucketInRange(d: Digit, w: nat, fast: bool)
    requires w >= 1 && GoodDigit(d, w, fast)
    ensures var m := if d.value < 0 then -d.value else d.value;
            m / 2 < Pow2(w - 1) && 2 * (m / 2) + 1 == m
  {
  }

  /** Adds the power of the base at hand, or its inverse, to bucket k. */
  method AddToBucket<T(!new)>(g: Group<T>, ghost base: T, bucket: seq<T>, k: nat, power: T, negate: bool,
                              ghost c: seq<int>, ghost p: nat)
    returns (bucket': seq<T>, ghost c': seq<int>)
    requires Lawful(g) && g.In(base) && Holds(g, base, bucket, c) && k < |bucket|
    requires power == Times(g, p, base) && (negate ==> g.inversionIsFast)
    ensures |bucket'| == |bucket| && Holds(g, base, bucket', c')
    ensures c' == c[k := c[k] + Signed(negate, p)]
  {
    hide Lawful, Times;
    ghost var step := Signed(negate, p);
    var term := if negate then g.Inverse(power) else power;
    if negate {
      InverseOfTimes(g, p, base);
    }
    IntTimesAdd(g, c[k], step, base);
    bucket' := bucket[k := g.Add(bucket[k], term)];
    c' := c[k := c[k] + step];
  }

  /** The walk meets a window: its digit goes to its bucket, and the next window is found. */
  method Deposit<T(!new)>(g: Group<T>, ghost base: T, s: WindowSlider, bucket: seq<T>, power: T, ghost c: seq<int>,
                          ghost e: nat, ghost limit: nat)
    returns (bucket': seq<T>, ghost c': seq<int>)
    requires Lawful(g) && g.In(base) && !s.finished
    requires Tracks(g, base, s, bucket, c, e, s.windowBegin, limit)
    requires power == Times(g, Pow2(s.windowBegin), base)
    modifies s
    ensures Tracks(g, base, s, bucket', c', e, old(s.windowBegin) + 1, limit)
  {
    hide Recode, Pow2, Lawful, Times, Holds;
    ghost var ds, p := s.Upcoming(), Pow2(s.windowBegin);
    assert ds[1..] == s.Pending();
    Later(ds, s.windowSize, g.inversionIsFast);
    BucketInRange(ds[0], s.windowSize, g.inversionIsFast);
    var k := s.expWindow / 2;
    HoldsLength(g, base, bucket, c);
    bucket', c' := AddToBucket(g, base, bucket, k, power, s.negateNext, c, p);
    OddSumUpdate(c, k, Signed(s.negateNext, p), 0);
    DigitWeight(k, s.expWindow, p, s.negateNext);
    s.FindNextWindow();
  }

  lemma HoldsLength<T(!new)>(g: Group<T>, base: T, bucket: seq<T>, c: seq<int>)
    requires Lawful(g) && g.In(base) && Holds(g, base, bucket, c)
    ensures |bucket| == |c|
  {
  }

  lemma DigitWeight(k: nat, m: nat, p: nat, negate: bool)
    requires m == 2 * k + 1
    ensures (2 * k + 1) * Signed(negate, p) == Signed(negate, m) * p
  {
  }

  lemma Later(ds: seq<Digit>, w: nat, fast: bool)
    requires w >= 1 && ds != [] && WellSpaced(ds, ds[0].position, w, fast)
    ensures WellSpaced(ds[1..], ds[0].position + 1, w, fast)
  {
  }

  /** A window not at the walk's position lies ahead of it, within the limit. */
  lemma NextIsAhead(ds: seq<Digit>, pos: nat, w: nat, fast: bool, limit: nat)
    requires ds != [] && Bounded(ds, limit)
    requires (WellSpaced(ds, pos, w, fast) && ds[0].position != pos) || WellSpaced(ds, pos + 1, w, fast)
    ensures WellSpaced(ds, pos + 1, w, fast) && pos + 1 <= limit
  {
    assert ds[0] in ds;
  }

  /** One exponent at one position of the walk. */
  method Serve<T(!new)>(g: Group<T>, ghost base: T, s: WindowSlider, bucket: seq<T>, power: T, pos: nat,
                        ghost c: seq<int>, ghost e: nat, ghost limit: nat)
    returns (bucket': seq<T>, ghost c': seq<int>)
    requires Lawful(g) && g.In(base) && Tracks(g, base, s, bucket, c, e, pos, limit)
    requires power == Times(g, Pow2(pos), base)
    modifies s
    ensures Tracks(g, base, s, bucket', c', e, pos + 1, limit)
    ensures !s.finished ==> pos + 1 <= limit
  {
    hide Lawful, Times, Holds, Pow2, Recode;
    if !s.finished && pos == s.windowBegin {
      bucket', c' := Deposit(g, base, s, bucket, power, c, e, limit);
    } else {
      bucket', c' := bucket, c;
    }
    if !s.finished {
      NextIsAhead(s.Upcoming(), pos, s.windowSize, g.inversionIsFast, limit);
    }
  }

  // ---------- All exponents together ----------

  /** Every exponent is tracked; those below done have been served at the current position already. */
  ghost predicate AllTrack<T(!new)>(g: Group<T>, base: T, sliders: seq<WindowSlider>, buckets: seq<seq<T>>,
                                    cs: seq<seq<int>>, exps: seq<nat>, pos: nat, done: nat, limit: nat)
    requires Lawful(g) && g.In(base)
    reads sliders
  {
    && |sliders| == |buckets| == |cs| == |exps|
    && (forall i, j :: 0 <= i < j < |sliders| ==> sliders[i] != sliders[j])
    && (forall i :: 0 <= i < |exps| ==>
          Tracks(g, base, sliders[i], buckets[i], cs[i], exps[i], if i < done then pos + 1 else pos, limit))
  }

  /** One position of the walk: every exponent whose next window starts here is served. */
  method Pass<T(!new)>(g: Group<T>, ghost base: T, sliders: seq<WindowSlider>, buckets: seq<seq<T>>, power: T,
                       pos: nat, ghost cs: seq<seq<int>>, ghost exps: seq<nat>, ghost limit: nat)
    returns (buckets': seq<seq<T>>, notDone: bool, ghost cs': seq<seq<int>>)
    requires Lawful(g) && g.In(base) && AllTrack(g, base, sliders, buckets, cs, exps, pos, 0, limit)
    requires power == Times(g, Pow2(pos), base)
    modifies sliders
    ensures AllTrack(g, base, sliders, buckets', cs', exps, pos + 1, 0, limit)
    ensures notDone ==> pos + 1 <= limit
    ensures !notDone ==> forall i :: 0 <= i < |sliders| ==> sliders[i].finished
  {
    hide Lawful, Times, Tracks, Pow2;
    notDone := false;
    buckets', cs' := buckets, cs;
    for i := 0 to |sliders|
      invariant AllTrack(g, base, sliders, buckets', cs', exps, pos, i, limit)
      invariant notDone ==> pos + 1 <= limit
      invariant !notDone ==> forall k :: 0 <= k < i ==> sliders[k].finished
    {
      var s := sliders[i];
      var bucket;
      ghost var c;
      bucket, c := Serve(g, base, s, buckets'[i], power, pos, cs'[i], exps[i], limit);
      buckets', cs' := buckets'[i := bucket], cs'[i := c];
      notDone := notDone || !s.finished;
    }
  }

  ghost function Total(exps: seq<nat>): nat {
    if exps == [] then 0 else exps[0] + Total(exps[1..])
  }

  lemma {:induction false} AtMostTotal(exps: seq<nat>, i: nat)
    requires i < |exps|
    ensures exps[i] <= Total(exps)
  {
    if i > 0 {
      AtMostTotal(exps[1..], i - 1);
    }
  }

  method StartAll<T(!new)>(g: Group<T>, ghost base: T, exps: seq<nat>, ghost limit: nat)
    returns (sliders: seq<WindowSlider>, buckets: seq<seq<T>>, ghost cs: seq<seq<int>>)
    requires Lawful(g) && g.In(base) && forall i :: 0 <= i < |exps| ==> exps[i] <= limit
    ensures fresh(set s | s in sliders)
    ensures AllTrack(g, base, sliders, buckets, cs, exps, 0, 0, limit)
  {
    hide Lawful, Tracks;
    sliders, buckets, cs := [], [], [];
    for i := 0 to |exps|
      invariant fresh(set s | s in sliders)
      invariant AllTrack(g, base, sliders, buckets, cs, exps[..i], 0, 0, limit)
    {
      var s, bucket;
      ghost var c;
      s, bucket, c := Start(g, base, exps[i], limit);
      assert s !in sliders;
      sliders, buckets, cs := sliders + [s], buckets + [bucket], cs + [c];
    }
    assert exps[..|exps|] == exps;
  }

  /** An exponent with no window to come is what its buckets are worth. */
  lemma FinishedIsOddSum<T(!new)>(g: Group<T>, base: T, s: WindowSlider, bucket: seq<T>, c: seq<int>,
                                  e: nat, pos: nat, limit: nat)
    requires Lawful(g) && g.In(base) && Tracks(g, base, s, bucket, c, e, pos, limit) && s.finished
    ensures Holds(g, base, bucket, c) && |bucket| >= 1 && e == OddSum(c, 0)
  {
  }

  /** Every result is its exponent times the base, in every group, whether or not inversion is fast. */
  method SimultaneousMultiply<T(!new)>(g: Group<T>, base: T, exps: seq<nat>) returns (results: seq<T>)
    requires Lawful(g) && g.In(base)
    ensures |results| == |exps|
    ensures forall i :: 0 <= i < |exps| ==> results[i] == Times(g, exps[i], base)
  {
    hide Lawful, Tracks, Times;
    ghost var limit := Total(exps);
    forall i | 0 <= i < |exps| ensures exps[i] <= limit {
      AtMostTotal(exps, i);
    }
    var sliders, buckets;
    ghost var cs;
    sliders, buckets, cs := StartAll(g, base, exps, limit);

    var expBitPosition, power, notDone := 0, base, true;
    ghost var position: nat := 0;
    TimesOne(g, base);
    while notDone
      invariant AllTrack(g, base, sliders, buckets, cs, exps, position, 0, limit)
      invariant notDone ==> position == expBitPosition
      invariant notDone ==> expBitPosition <= limit
      invariant notDone ==> power == Times(g, Pow2(expBitPosition), base)
      invariant !notDone ==> forall i :: 0 <= i < |sliders| ==> sliders[i].finished
      decreases notDone, limit as int - expBitPosition
    {
      buckets, notDone, cs := Pass(g, base, sliders, buckets, power, expBitPosition, cs, exps, limit);
      ghost var next := expBitPosition + 1;
      if notDone {
        TimesAdd(g, Pow2(expBitPosition), Pow2(expBitPosition), base);
        power := g.Double(power);
        expBitPosition := expBitPosition + 1;
      }
      position := next;
    }

    results := CombineAll(g, base, sliders, buckets, cs, exps, position, limit);
  }

  method CombineAll<T(!new)>(g: Group<T>, ghost base: T, ghost sliders: seq<WindowSlider>, buckets: seq<seq<T>>,
                             ghost cs: seq<seq<int>>, ghost exps: seq<nat>, ghost pos: nat, ghost limit: nat)
    returns (results: seq<T>)
    requires Lawful(g) && g.In(base) && AllTrack(g, base, sliders, buckets, cs, exps, pos, 0, limit)
    requires forall i :: 0 <= i < |sliders| ==> sliders[i].finished
    ensures |results| == |exps|
    ensures forall i :: 0 <= i < |exps| ==> results[i] == Times(g, exps[i], base)
  {
    hide Lawful, Tracks, Times;
    results := [];
    for i := 0 to |buckets|
      invariant |results| == i
      invariant forall k :: 0 <= k < i ==> results[k] == Times(g, exps[k], base)
    {
      FinishedIsOddSum(g, base, sliders[i], buckets[i], cs[i], exps[i], pos, limit);
      var r := Combine(g, base, buckets[i], cs[i]);
      results := results + [r];
    }
  }

  lemma TimesOne<T(!new)>(g: Group<T>, x: T)
    requires Lawful(g) && g.In(x)
    ensures Times(g, 1, x) == x
  {
    assert Times(g, 0, x) == g.identity;
  }

  method ScalarMultiply<T(!new)>(g: Group<T>, base: T, exponent: nat) returns (result: T)
    requires Lawful(g) && g.In(base)
    ensures result == Times(g, exponent, base)
  {
    var results := SimultaneousMultiply(g, base, [exponent]);
    result := results[0];
  }
}
