/**
 The AbstractGroup interface. A group is a record of operations on a carrier; an
 algorithm written against it is proved for every record that obeys the laws.
 Inverses are demanded only when inversion is declared fast: otherwise the
 algorithms never call Inverse, and the multiplicative monoid of a ring, whose
 elements need not be units, is an instance.
 */
module Group {

  datatype Group<!T> = Group(
    carrier: T -> bool,
    identity: T,
    add: (T, T) -> T,
    inverse: T -> T,
    inversionIsFast: bool)
  {
    predicate In(a: T) {
      carrier(a)
    }

    function Add(a: T, b: T): T {
      add(a, b)
    }

    function Double(a: T): T {
      Add(a, a)
    }

    function Inverse(a: T): T {
      inverse(a)
    }
  }

  ghost predicate Closed<T(!new)>(g: Group<T>) {
    && g.In(g.identity)
    && (forall a: T, b: T {:trigger g.Add(a, b)} :: g.In(a) && g.In(b) ==> g.In(g.Add(a, b)))
  }

  ghost predicate Regroups<T>(g: Group<T>, a: T, b: T, c: T) {
    g.Add(g.Add(a, b), c) == g.Add(a, g.Add(b, c))
  }

  ghost predicate Associative<T(!new)>(g: Group<T>) {
    forall a: T, b: T, c: T {:trigger Regroups(g, a, b, c)} ::
      g.In(a) && g.In(b) && g.In(c) ==> Regroups(g, a, b, c)
  }

  ghost predicate HasIdentity<T(!new)>(g: Group<T>) {
    forall a: T {:trigger g.In(a)} :: g.In(a) ==> g.Add(g.identity, a) == a && g.Add(a, g.identity) == a
  }

  ghost predicate HasInverses<T(!new)>(g: Group<T>) {
    forall a: T {:trigger g.Inverse(a)} :: g.In(a) ==>
      g.In(g.Inverse(a)) && g.Add(a, g.Inverse(a)) == g.identity && g.Add(g.Inverse(a), a) == g.identity
  }

  /** The laws every algorithm relies on. */
  ghost predicate Lawful<T(!new)>(g: Group<T>) {
    && Closed(g)
    && Associative(g)
    && HasIdentity(g)
    && (g.inversionIsFast ==> HasInverses(g))
  }

  ghost predicate Commute<T>(g: Group<T>, a: T, b: T) {
    g.Add(a, b) == g.Add(b, a)
  }

  ghost predicate Commutative<T(!new)>(g: Group<T>) {
    forall a: T, b: T {:trigger Commute(g, a, b)} :: g.In(a) && g.In(b) ==> Commute(g, a, b)
  }

  /** n * x: plain repeated addition, the reference for every fast form. */
  ghost function Times<T(!new)>(g: Group<T>, n: nat, x: T): (r: T)
    requires Lawful(g) && g.In(x)
    ensures g.In(r)
  {
    if n == 0 then g.identity else g.Add(Times(g, n - 1, x), x)
  }

  lemma {:induction false} TimesAdd<T(!new)>(g: Group<T>, m: nat, n: nat, x: T)
    requires Lawful(g) && g.In(x)
    ensures Times(g, m + n, x) == g.Add(Times(g, m, x), Times(g, n, x))
  {
    if n > 0 {
      TimesAdd(g, m, n - 1, x);
      assert m + n - 1 == m + (n - 1);
      assert Regroups(g, Times(g, m, x), Times(g, n - 1, x), x);
    }
  }

  lemma {:induction false} TimesMul<T(!new)>(g: Group<T>, m: nat, n: nat, x: T)
    requires Lawful(g) && g.In(x)
    ensures m * n >= 0 && Times(g, m * n, x) == Times(g, m, Times(g, n, x))
  {
    if m > 0 {
      TimesMul(g, m - 1, n, x);
      assert m * n == (m - 1) * n + n;
      TimesAdd(g, (m - 1) * n, n, x);
    }
  }

  lemma {:induction false} TimesDistributes<T(!new)>(g: Group<T>, n: nat, x: T, y: T)
    requires Lawful(g) && Commutative(g) && g.In(x) && g.In(y)
    ensures Times(g, n, g.Add(x, y)) == g.Add(Times(g, n, x), Times(g, n, y))
  {
    if n > 0 {
      TimesDistributes(g, n - 1, x, y);
      Interchange(g, Times(g, n - 1, x), Times(g, n - 1, y), x, y);
    }
  }

  lemma Interchange<T(!new)>(g: Group<T>, a: T, b: T, c: T, d: T)
    requires Lawful(g) && Commutative(g) && g.In(a) && g.In(b) && g.In(c) && g.In(d)
    ensures g.Add(g.Add(a, b), g.Add(c, d)) == g.Add(g.Add(a, c), g.Add(b, d))
  {
    assert Regroups(g, a, b, g.Add(c, d)) && Regroups(g, b, c, d);
    assert Commute(g, b, c);
    assert Regroups(g, c, b, d) && Regroups(g, a, c, g.Add(b, d));
  }

  // Integer multiples; a negative one exists only where inversion is available.

  ghost predicate Scalable<T>(g: Group<T>, n: int) {
    n >= 0 || g.inversionIsFast
  }

  ghost function IntTimes<T(!new)>(g: Group<T>, n: int, x: T): (r: T)
    requires Lawful(g) && g.In(x) && Scalable(g, n)
    ensures g.In(r)
  {
    if n >= 0 then Times(g, n, x) else Times(g, -n, g.Inverse(x))
  }

  /** Adding x to an integer multiple of x is the next multiple. */
  lemma IntTimesSucc<T(!new)>(g: Group<T>, n: int, x: T)
    requires Lawful(g) && g.In(x) && Scalable(g, n)
    ensures g.Add(IntTimes(g, n, x), x) == IntTimes(g, n + 1, x)
  {
    if n < 0 {
      var y := g.Inverse(x);
      var t := Times(g, -n - 1, y);
      assert Times(g, -n, y) == g.Add(t, y);
      assert Regroups(g, t, y, x);
    }
  }

  lemma IntTimesPred<T(!new)>(g: Group<T>, n: int, x: T)
    requires Lawful(g) && g.In(x) && g.inversionIsFast
    ensures g.Add(IntTimes(g, n, x), g.Inverse(x)) == IntTimes(g, n - 1, x)
  {
    IntTimesSucc(g, n - 1, x);
    var p, y := IntTimes(g, n - 1, x), g.Inverse(x);
    assert Regroups(g, p, x, y);
  }

  /** Scalar multiplication turns integer addition into the group operation. */
  lemma {:induction false} IntTimesAdd<T(!new)>(g: Group<T>, m: int, n: int, x: T)
    requires Lawful(g) && g.In(x) && Scalable(g, m) && Scalable(g, n)
    ensures g.Add(IntTimes(g, m, x), IntTimes(g, n, x)) == IntTimes(g, m + n, x)
    decreases if n < 0 then -n else n
  {
    if n > 0 {
      IntTimesAdd(g, m, n - 1, x);
      IntTimesSucc(g, n - 1, x);
      IntTimesSucc(g, m + n - 1, x);
      var a, b := IntTimes(g, m, x), IntTimes(g, n - 1, x);
      assert Regroups(g, a, b, x);
    } else if n < 0 {
      IntTimesAdd(g, m, n + 1, x);
      IntTimesPred(g, n + 1, x);
      IntTimesPred(g, m + n + 1, x);
      var a, b, y := IntTimes(g, m, x), IntTimes(g, n + 1, x), g.Inverse(x);
      assert Regroups(g, a, b, y);
    }
  }

  /** The inverse of a multiple is the opposite multiple. */
  lemma InverseOfTimes<T(!new)>(g: Group<T>, n: nat, x: T)
    requires Lawful(g) && g.In(x) && g.inversionIsFast
    ensures g.Inverse(Times(g, n, x)) == IntTimes(g, 0 - n, x)
  {
    var a, b := IntTimes(g, n, x), IntTimes(g, 0 - n, x);
    IntTimesAdd(g, n, 0 - n, x);
    var i := g.Inverse(a);
    assert Regroups(g, i, a, b);
  }
}
