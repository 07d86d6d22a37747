/**
 The binary max-heap operations of the C++ standard library that multi-exponentiation
 calls on its range of base/exponent pairs (BaseAndExponent compares by exponent).
 */
module Heap {

  datatype BaseAndExponent<T> = BaseAndExponent(base: T, exponent: nat)

  function Parent(i: nat): nat
    requires i >= 1
  {
    (i - 1) / 2
  }

  /** No element of the first n exceeds its parent. */
  ghost predicate IsHeap<T>(s: seq<BaseAndExponent<T>>, n: nat)
    requires n <= |s|
  {
    forall i :: 1 <= i < n ==> s[Parent(i)].exponent >= s[i].exponent
  }

  /** A heap but for element k, which may exceed its parent; its children still respect that parent. */
  ghost predicate HeapExceptUp<T>(s: seq<BaseAndExponent<T>>, n: nat, k: nat)
    requires n <= |s|
  {
    && (forall i :: 1 <= i < n && i != k ==> s[Parent(i)].exponent >= s[i].exponent)
    && (k >= 1 ==> forall i :: 1 <= i < n && Parent(i) == k ==> s[Parent(k)].exponent >= s[i].exponent)
  }

  /** A heap but for element k, whose children may exceed it; they still respect its parent. */
  ghost predicate HeapExceptDown<T>(s: seq<BaseAndExponent<T>>, n: nat, k: nat)
    requires n <= |s|
  {
    && (forall i :: 1 <= i < n && Parent(i) != k ==> s[Parent(i)].exponent >= s[i].exponent)
    && (k >= 1 ==> forall i :: 1 <= i < n && Parent(i) == k ==> s[Parent(k)].exponent >= s[i].exponent)
  }

  lemma {:induction false} RootIsLargest<T>(s: seq<BaseAndExponent<T>>, n: nat, i: nat)
    requires n <= |s| && IsHeap(s, n) && i < n
    ensures s[0].exponent >= s[i].exponent
  {
    if i > 0 {
      RootIsLargest(s, n, Parent(i));
    }
  }

  ghost function Swapped<T>(s: seq<T>, i: nat, j: nat): (r: seq<T>)
    requires i < |s| && j < |s|
    ensures |r| == |s|
  {
    s[i := s[j]][j := s[i]]
  }

  lemma SwapPermutes<T>(s: seq<T>, i: nat, j: nat)
    requires i < |s| && j < |s|
    ensures multiset(Swapped(s, i, j)) == multiset(s)
  {
  }

  method Swap<T>(a: array<T>, i: nat, j: nat)
    requires i < a.Length && j < a.Length
    modifies a
    ensures a[..] == Swapped(old(a[..]), i, j)
  {
    a[i], a[j] := a[j], a[i];
  }

  lemma SiftUpStep<T>(s: seq<BaseAndExponent<T>>, n: nat, k: nat)
    requires n <= |s| && 1 <= k < n && HeapExceptUp(s, n, k) && s[Parent(k)].exponent < s[k].exponent
    ensures HeapExceptUp(Swapped(s, k, Parent(k)), n, Parent(k))
  {
    var p := Parent(k);
    var t := Swapped(s, k, p);
    forall i | 1 <= i < n && i != p ensures t[Parent(i)].exponent >= t[i].exponent {
      assert i != k ==> s[Parent(i)].exponent >= s[i].exponent;
    }
  }

  /** std::push_heap: the last of the first n elements joins the heap formed by those before it. */
  method PushHeap<T>(a: array<BaseAndExponent<T>>, n: nat)
    requires 1 <= n <= a.Length && IsHeap(a[..], n - 1)
    modifies a
    ensures IsHeap(a[..], n)
    ensures multiset(a[..]) == multiset(old(a[..]))
    ensures a[n..] == old(a[n..])
  {
    var k := n - 1;
    while k > 0 && a[Parent(k)].exponent < a[k].exponent
      invariant 0 <= k < n
      invariant HeapExceptUp(a[..], n, k)
      invariant multiset(a[..]) == multiset(old(a[..]))
      invariant a[n..] == old(a[n..])
    {
      SiftUpStep(a[..], n, k);
      SwapPermutes(a[..], k, Parent(k));
      Swap(a, k, Parent(k));
      k := Parent(k);
    }
  }

  lemma SiftDownStep<T>(s: seq<BaseAndExponent<T>>, n: nat, k: nat, c: nat)
    requires n <= |s| && k < c < n && Parent(c) == k && HeapExceptDown(s, n, k)
    requires forall i :: 1 <= i < n && Parent(i) == k ==> s[c].exponent >= s[i].exponent
    requires s[k].exponent < s[c].exponent
    ensures HeapExceptDown(Swapped(s, k, c), n, c)
  {
    var t := Swapped(s, k, c);
    forall i | 1 <= i < n && Parent(i) != c ensures t[Parent(i)].exponent >= t[i].exponent {
      assert Parent(i) != k ==> s[Parent(i)].exponent >= s[i].exponent;
    }
  }

  /** The larger child of k, if k has one. */
  method LargerChild<T>(a: array<BaseAndExponent<T>>, n: nat, k: nat) returns (c: nat)
    requires n <= a.Length && 2 * k + 1 < n
    ensures k < c < n && Parent(c) == k
    ensures forall i :: 1 <= i < n && Parent(i) == k ==> a[c].exponent >= a[i].exponent
  {
    c := 2 * k + 1;
    if c + 1 < n && a[c].exponent < a[c+1].exponent {
      c := c + 1;
    }
  }

  method SiftDown<T>(a: array<BaseAndExponent<T>>, n: nat)
    requires 1 <= n <= a.Length && HeapExceptDown(a[..], n, 0)
    modifies a
    ensures IsHeap(a[..], n)
    ensures multiset(a[..]) == multiset(old(a[..]))
    ensures a[n..] == old(a[n..])
  {
    var k := 0;
    while 2 * k + 1 < n
      invariant 0 <= k < n
      invariant HeapExceptDown(a[..], n, k)
      invariant multiset(a[..]) == multiset(old(a[..]))
      invariant a[n..] == old(a[n..])
      decreases n - k
    {
      var c := LargerChild(a, n, k);
      if a[c].exponent <= a[k].exponent {
        return;
      }
      SiftDownStep(a[..], n, k, c);
      SwapPermutes(a[..], k, c);
      Swap(a, k, c);
      k := c;
    }
  }

  lemma PopLeavesHole<T>(s: seq<BaseAndExponent<T>>, n: nat)
    requires 2 <= n <= |s| && IsHeap(s, n)
    ensures HeapExceptDown(Swapped(s, 0, n - 1), n - 1, 0)
  {
    var t := Swapped(s, 0, n - 1);
    forall i | 1 <= i < n - 1 && Parent(i) != 0 ensures t[Parent(i)].exponent >= t[i].exponent {
      assert s[Parent(i)].exponent >= s[i].exponent;
    }
  }

  /** std::pop_heap: the largest of the first n elements moves to their end; the others form a heap. */
  method PopHeap<T>(a: array<BaseAndExponent<T>>, n: nat)
    requires 2 <= n <= a.Length && IsHeap(a[..], n)
    modifies a
    ensures IsHeap(a[..], n - 1)
    ensures forall i :: 0 <= i < n ==> a[i].exponent <= a[n-1].exponent
    ensures multiset(a[..]) == multiset(old(a[..]))
    ensures a[n..] == old(a[n..])
  {
    ghost var s := a[..];
    PopLeavesHole(s, n);
    SwapPermutes(s, 0, n - 1);
    Swap(a, 0, n - 1);
    SiftDown(a, n - 1);
    forall i | 0 <= i < n - 1 ensures a[i].exponent <= a[n-1].exponent {
      PopMax(s, a[..], n, i);
    }
  }

  lemma CancelMultiset<T>(a: multiset<T>, b: multiset<T>, c: multiset<T>)
    requires a + c == b + c
    ensures a == b
  {
    assert a == (a + c) - c && b == (b + c) - c;
  }

  lemma PopMax<T>(s: seq<BaseAndExponent<T>>, t: seq<BaseAndExponent<T>>, n: nat, i: nat)
    requires 2 <= n <= |s| && |t| == |s| && IsHeap(s, n) && i < n - 1
    requires multiset(t) == multiset(s)
    requires t[n-1] == s[0] && t[n..] == s[n..]
    ensures t[i].exponent <= t[n-1].exponent
  {
    assert t == t[..n] + t[n..] && s == s[..n] + s[n..];
    assert multiset(t[..n]) + multiset(t[n..]) == multiset(t) == multiset(s) == multiset(s[..n]) + multiset(s[n..]);
    CancelMultiset(multiset(t[..n]), multiset(s[..n]), multiset(s[n..]));
    assert t[i] in multiset(t[..n]) by { assert t[..n][i] == t[i]; }
    assert t[i] in s[..n];
    var j :| 0 <= j < n && s[j] == t[i];
    RootIsLargest(s, n, j);
  }

  /** std::make_heap. */
  method MakeHeap<T>(a: array<BaseAndExponent<T>>)
    modifies a
    ensures IsHeap(a[..], a.Length)
    ensures multiset(a[..]) == multiset(old(a[..]))
  {
    if a.Length > 0 {
      for n := 1 to a.Length
        invariant IsHeap(a[..], n)
        invariant multiset(a[..]) == multiset(old(a[..]))
      {
        PushHeap(a, n + 1);
      }
    }
  }
}
