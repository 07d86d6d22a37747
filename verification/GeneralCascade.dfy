/** GeneralCascadeMultiplication: the sum of exponent * base over any number of pairs, by Euclidean steps on a heap. */
module GeneralCascade {
  import opened Group
  import opened Heap
  import opened Simultaneous
  import opened Cascade
  import opened PowersOfTwo

  ghost predicate AllIn<T>(g: Group<T>, s: seq<BaseAndExponent<T>>) {
    forall i :: 0 <= i < |s| ==> g.In(s[i].base)
  }

  /** The sum of exponent * base. */
  ghost function WeightedSum<T(!new)>(g: Group<T>, s: seq<BaseAndExponent<T>>): (r: T)
    requires Lawful(g) && AllIn(g, s)
    ensures g.In(r)
  {
    if s == [] then g.identity else g.Add(Times(g, s[0].exponent, s[0].base), WeightedSum(g, s[1..]))
  }

  ghost function ExponentSum<T>(s: seq<BaseAndExponent<T>>): nat {
    if s == [] then 0 else s[0].exponent + ExponentSum(s[1..])
  }

  lemma {:induction false} SumOfConcat<T(!new)>(g: Group<T>, s: seq<BaseAndExponent<T>>, t: seq<BaseAndExponent<T>>)
    requires Lawful(g) && AllIn(g, s) && AllIn(g, t)
    ensures AllIn(g, s + t)
    ensures WeightedSum(g, s + t) == g.Add(WeightedSum(g, s), WeightedSum(g, t))
    ensures ExponentSum(s + t) == ExponentSum(s) + ExponentSum(t)
  {
    if s == [] {
      assert s + t == t;
    } else {
      SumOfConcat(g, s[1..], t);
      assert (s + t)[1..] == s[1..] + t;
      assert Regroups(g, Times(g, s[0].exponent, s[0].base), WeightedSum(g, s[1..]), WeightedSum(g, t));
    }
  }

  lemma SumOfOne<T(!new)>(g: Group<T>, p: BaseAndExponent<T>)
    requires Lawful(g) && g.In(p.base)
    ensures WeightedSum(g, [p]) == Times(g, p.exponent, p.base) && ExponentSum([p]) == p.exponent
  {
    assert WeightedSum(g, []) == g.identity;
  }

  /** An element taken from the middle can be added in front. */
  lemma PullOut<T(!new)>(g: Group<T>, s: seq<BaseAndExponent<T>>, j: nat)
    requires Lawful(g) && Commutative(g) && AllIn(g, s) && j < |s|
    ensures AllIn(g, s[..j] + s[j+1..])
    ensures WeightedSum(g, s) == g.Add(Times(g, s[j].exponent, s[j].base), WeightedSum(g, s[..j] + s[j+1..]))
    ensures ExponentSum(s) == s[j].exponent + ExponentSum(s[..j] + s[j+1..])
  {
    hide Lawful, WeightedSum;
    var u, v, p := s[..j], s[j+1..], [s[j]];
    assert s == u + (p + v);
    SumOfOne(g, s[j]);
    SumOfConcat(g, p, v);
    SumOfConcat(g, u, p + v);
    SumOfConcat(g, u, v);
    var a, b, c := WeightedSum(g, u), WeightedSum(g, p), WeightedSum(g, v);
    Rotate(g, a, b, c);
  }

  lemma Rotate<T(!new)>(g: Group<T>, a: T, b: T, c: T)
    requires Lawful(g) && Commutative(g) && g.In(a) && g.In(b) && g.In(c)
    ensures g.Add(a, g.Add(b, c)) == g.Add(b, g.Add(a, c))
  {
    assert Regroups(g, a, b, c) && Commute(g, a, b) && Regroups(g, b, a, c);
  }

  /** The sums do not depend on the order of the pairs. */
  lemma {:induction false} SumOfPermutation<T(!new)>(g: Group<T>, s: seq<BaseAndExponent<T>>,
                                                     t: seq<BaseAndExponent<T>>)
    requires Lawful(g) && Commutative(g) && AllIn(g, s) && multiset(s) == multiset(t)
    ensures AllIn(g, t) && WeightedSum(g, s) == WeightedSum(g, t) && ExponentSum(s) == ExponentSum(t)
    decreases |s|
  {
    hide Lawful, Times;
    PermutationKeepsBases(g, s, t);
    assert |multiset(s)| == |s| && |multiset(t)| == |t|;
    if s != [] {
      assert s[0] in multiset(t);
      var j :| 0 <= j < |t| && t[j] == s[0];
      WithoutOne(s, t, j);
      PullOut(g, t, j);
      SumOfPermutation(g, s[1..], t[..j] + t[j+1..]);
    }
  }

  lemma WithoutOne<T>(s: seq<T>, t: seq<T>, j: nat)
    requires s != [] && j < |t| && t[j] == s[0] && multiset(s) == multiset(t)
    ensures multiset(s[1..]) == multiset(t[..j] + t[j+1..])
  {
    assert s == [s[0]] + s[1..] && t == t[..j] + ([t[j]] + t[j+1..]);
    assert multiset(t) == multiset(t[..j]) + multiset(t[j+1..]) + multiset{t[j]};
    CancelMultiset(multiset(s[1..]), multiset(t[..j] + t[j+1..]), multiset{s[0]});
  }

  lemma PermutationKeepsBases<T(!new)>(g: Group<T>, s: seq<BaseAndExponent<T>>, t: seq<BaseAndExponent<T>>)
    requires AllIn(g, s) && multiset(s) == multiset(t)
    ensures AllIn(g, t)
  {
    forall i | 0 <= i < |t| ensures g.In(t[i].base) {
      assert t[i] in multiset(t);
      assert t[i] in s;
    }
  }

  lemma {:induction false} SumOfZeros<T(!new)>(g: Group<T>, s: seq<BaseAndExponent<T>>)
    requires Lawful(g) && AllIn(g, s) && forall i :: 0 <= i < |s| ==> s[i].exponent == 0
    ensures WeightedSum(g, s) == g.identity
  {
    if s != [] {
      SumOfZeros(g, s[1..]);
    }
  }

  // ---------- The Euclidean step ----------

  /** The pairs after the remainder has replaced the last exponent and the quotient has gone into the first base. */
  ghost function Stepped<T(!new)>(g: Group<T>, s: seq<BaseAndExponent<T>>): seq<BaseAndExponent<T>>
    requires Lawful(g) && |s| >= 2 && AllIn(g, s) && s[0].exponent > 0
  {
    var l, f := s[|s|-1], s[0];
    s[0 := BaseAndExponent(g.Add(f.base, Times(g, l.exponent / f.exponent, l.base)), f.exponent)]
     [|s|-1 := BaseAndExponent(l.base, l.exponent % f.exponent)]
  }

  /** e0 * (b0 + q*b) + r*b is e0*b0 + (q*e0 + r)*b. */
  lemma Redistribute<T(!new)>(g: Group<T>, e0: nat, b0: T, e: nat, b: T)
    requires Lawful(g) && Commutative(g) && g.In(b0) && g.In(b) && e0 > 0
    ensures g.Add(Times(g, e0, g.Add(b0, Times(g, e / e0, b))), Times(g, e % e0, b)) ==
            g.Add(Times(g, e0, b0), Times(g, e, b))
  {
    hide Lawful;
    var q, r := e / e0, e % e0;
    TimesDistributes(g, e0, b0, Times(g, q, b));
    TimesMul(g, e0, q, b);
    DivModLaw(e, e0);
    assert e == e0 * q + r;
    TimesAdd(g, e0 * q, r, b);
    Associate(g, Times(g, e0, b0), Times(g, e0 * q, b), Times(g, r, b));
  }

  lemma Associate<T(!new)>(g: Group<T>, a: T, b: T, c: T)
    requires Lawful(g) && g.In(a) && g.In(b) && g.In(c)
    ensures g.Add(g.Add(a, b), c) == g.Add(a, g.Add(b, c))
  {
    assert Regroups(g, a, b, c);
  }

  /** First + middle + last, with the outer two brought together. */
  lemma OuterAndMiddle<T(!new)>(g: Group<T>, s: seq<BaseAndExponent<T>>)
    requires Lawful(g) && Commutative(g) && AllIn(g, s) && |s| >= 2
    ensures AllIn(g, s[1..|s|-1])
    ensures WeightedSum(g, s) ==
            g.Add(g.Add(Times(g, s[0].exponent, s[0].base), Times(g, s[|s|-1].exponent, s[|s|-1].base)),
                  WeightedSum(g, s[1..|s|-1]))
    ensures ExponentSum(s) == s[0].exponent + s[|s|-1].exponent + ExponentSum(s[1..|s|-1])
  {
    hide Lawful, WeightedSum, Times;
    PullOut(g, s, 0);
    var rest := s[..0] + s[1..];
    PullOut(g, rest, |rest| - 1);
    assert rest[..|rest|-1] + rest[|rest|..] == s[1..|s|-1];
    Associate(g, Times(g, s[0].exponent, s[0].base), Times(g, s[|s|-1].exponent, s[|s|-1].base),
              WeightedSum(g, s[1..|s|-1]));
  }

  /** A heap step leaves the weighted sum alone and lowers the sum of the exponents. */
  lemma StepPreservesSum<T(!new)>(g: Group<T>, s: seq<BaseAndExponent<T>>)
    requires Lawful(g) && Commutative(g) && AllIn(g, s) && |s| >= 2
    requires 0 < s[0].exponent <= s[|s|-1].exponent
    ensures AllIn(g, Stepped(g, s))
    ensures WeightedSum(g, Stepped(g, s)) == WeightedSum(g, s)
    ensures ExponentSum(Stepped(g, s)) < ExponentSum(s)
  {
    SteppedIn(g, s);
    hide Lawful, WeightedSum, Times;
    var t := Stepped(g, s);
    OuterAndMiddle(g, s);
    OuterAndMiddle(g, t);
    assert t[1..|t|-1] == s[1..|s|-1];
    Redistribute(g, s[0].exponent, s[0].base, s[|s|-1].exponent, s[|s|-1].base);
    DivModLaw(s[|s|-1].exponent, s[0].exponent);
  }

  lemma SteppedIn<T(!new)>(g: Group<T>, s: seq<BaseAndExponent<T>>)
    requires Lawful(g) && AllIn(g, s) && |s| >= 2 && s[0].exponent > 0
    ensures AllIn(g, Stepped(g, s))
  {
  }

  // ---------- The algorithm ----------

  /** The body of the loop, before the heap is restored. */
  method EuclideanStep<T(!new)>(g: Group<T>, a: array<BaseAndExponent<T>>)
    requires Lawful(g) && Commutative(g) && a.Length >= 2 && AllIn(g, a[..]) && a[0].exponent > 0
    modifies a
    ensures a[..] == Stepped(g, old(a[..]))
  {
    hide Lawful, Times;
    var last := a.Length - 1;
    var t := a[last].exponent;
    var q := t / a[0].exponent;
    TimesOne(g, a[last].base);
    a[last] := BaseAndExponent(a[last].base, t % a[0].exponent);
    if q == 1 {
      a[0] := BaseAndExponent(g.Add(a[0].base, a[last].base), a[0].exponent);
    } else {
      var m := ScalarMultiply(g, a[last].base, q);
      a[0] := BaseAndExponent(g.Add(a[0].base, m), a[0].exponent);
    }
  }

  /** One round of the loop: the pair with the largest exponent is reduced by the next largest. */
  method HeapStep<T(!new)>(g: Group<T>, a: array<BaseAndExponent<T>>)
    requires Lawful(g) && Commutative(g) && a.Length >= 2 && AllIn(g, a[..]) && IsHeap(a[..], a.Length - 1)
    requires 0 < a[0].exponent <= a[a.Length-1].exponent
    modifies a
    ensures AllIn(g, a[..]) && AllIn(g, old(a[..])) && WeightedSum(g, a[..]) == WeightedSum(g, old(a[..]))
    ensures ExponentSum(a[..]) < ExponentSum(old(a[..]))
    ensures IsHeap(a[..], a.Length - 1) && a[0].exponent <= a[a.Length-1].exponent
  {
    hide Lawful, WeightedSum, IsHeap, ExponentSum, Stepped;
    ghost var before := a[..];
    StepPreservesSum(g, before);
    StepKeepsHeap(g, before);
    EuclideanStep(g, a);
    ghost var stepped := a[..];
    PushHeap(a, a.Length);
    PopHeap(a, a.Length);
    SumOfPermutation(g, stepped, a[..]);
  }

  /** A heap whose root is zero holds nothing but zeros. */
  lemma OnlyLastCounts<T(!new)>(g: Group<T>, s: seq<BaseAndExponent<T>>)
    requires Lawful(g) && AllIn(g, s) && |s| >= 2 && IsHeap(s, |s| - 1) && s[0].exponent == 0
    ensures WeightedSum(g, s) == Times(g, s[|s|-1].exponent, s[|s|-1].base)
  {
    var front, last := s[..|s|-1], s[|s|-1];
    forall i | 0 <= i < |front| ensures front[i].exponent == 0 {
      RootIsLargest(s, |s| - 1, i);
    }
    SumOfZeros(g, front);
    SumOfOne(g, last);
    SumOfConcat(g, front, [last]);
    assert s == front + [last];
  }

  /** For one or more pairs of a commutative group, the returned element is the sum of exponent * base. */
  method GeneralCascadeMultiplication<T(!new)>(g: Group<T>, a: array<BaseAndExponent<T>>, blank: T) returns (r: T)
    requires Lawful(g) && Commutative(g) && a.Length >= 1 && AllIn(g, a[..])
    modifies a
    ensures AllIn(g, old(a[..])) && r == WeightedSum(g, old(a[..]))
  {
    hide Lawful, WeightedSum, IsHeap;
    ghost var s := a[..];
    if a.Length == 1 {
      SumOfOne(g, s[0]);
      assert s == [s[0]];
      r := ScalarMultiply(g, a[0].base, a[0].exponent);
    } else if a.Length == 2 {
      SumOfOne(g, s[0]);
      SumOfOne(g, s[1]);
      SumOfConcat(g, [s[0]], [s[1]]);
      assert s == [s[0]] + [s[1]];
      r := CascadeScalarMultiply(g, a[0].base, a[0].exponent, a[1].base, a[1].exponent, blank);
    } else {
      MakeHeap(a);
      PopHeap(a, a.Length);
      SumOfPermutation(g, s, a[..]);
      while a[0].exponent != 0
        invariant AllIn(g, a[..]) && WeightedSum(g, a[..]) == WeightedSum(g, s)
        invariant IsHeap(a[..], a.Length - 1)
        invariant a[0].exponent <= a[a.Length-1].exponent
        decreases ExponentSum(a[..])
      {
        HeapStep(g, a);
      }
      OnlyLastCounts(g, a[..]);
      r := ScalarMultiply(g, a[a.Length-1].base, a[a.Length-1].exponent);
    }
  }

  /** The step changes the first pair's base only, so the heap below the last pair stands. */
  lemma StepKeepsHeap<T(!new)>(g: Group<T>, s: seq<BaseAndExponent<T>>)
    requires Lawful(g) && AllIn(g, s) && |s| >= 2 && s[0].exponent > 0 && IsHeap(s, |s| - 1)
    ensures |Stepped(g, s)| == |s| && IsHeap(Stepped(g, s), |s| - 1)
  {
  }
}
