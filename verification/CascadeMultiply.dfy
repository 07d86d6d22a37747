/**
 AbstractGroup::CascadeScalarMultiply: e1 * x + e2 * y by one walk over both exponents,
 with a table of small combinations of which only the slots that can be read are filled.
 */
module Cascade {
  import opened PowersOfTwo
  import opened Group
  import opened Simultaneous

  /** a * x + b * y. */
  ghost function Combo<T(!new)>(g: Group<T>, a: nat, x: T, b: nat, y: T): (r: T)
    requires Lawful(g) && g.In(x) && g.In(y)
    ensures g.In(r)
  {
    g.Add(Times(g, a, x), Times(g, b, y))
  }

  lemma ComboAdd<T(!new)>(g: Group<T>, a: nat, c: nat, x: T, b: nat, d: nat, y: T)
    requires Lawful(g) && Commutative(g) && g.In(x) && g.In(y)
    ensures g.Add(Combo(g, a, x, b, y), Combo(g, c, x, d, y)) == Combo(g, a + c, x, b + d, y)
  {
    hide Lawful;
    TimesAdd(g, a, c, x);
    TimesAdd(g, b, d, y);
    Interchange(g, Times(g, a, x), Times(g, b, y), Times(g, c, x), Times(g, d, y));
  }

  lemma ComboUnits<T(!new)>(g: Group<T>, n: nat, x: T, y: T)
    requires Lawful(g) && g.In(x) && g.In(y)
    ensures Combo(g, n, x, 0, y) == Times(g, n, x) && Combo(g, 0, x, n, y) == Times(g, n, y)
    ensures Combo(g, 1, x, 0, y) == x && Combo(g, 0, x, 1, y) == y
  {
    TimesOne(g, x);
    TimesOne(g, y);
    assert Times(g, 0, x) == Times(g, 0, y) == g.identity;
  }

  lemma {:induction false} ComboScale<T(!new)>(g: Group<T>, n: nat, a: nat, x: T, b: nat, y: T)
    requires Lawful(g) && Commutative(g) && g.In(x) && g.In(y)
    ensures n * a >= 0 && n * b >= 0
    ensures Times(g, n, Combo(g, a, x, b, y)) == Combo(g, n * a, x, n * b, y)
  {
    hide Lawful;
    TimesDistributes(g, n, Times(g, a, x), Times(g, b, y));
    TimesMul(g, n, a, x);
    TimesMul(g, n, b, y);
  }

  // ---------- The table ----------

  /** The slot of p1 * x + p2 * y. */
  function Slot(p1: nat, p2: nat, size: nat): nat {
    p2 * size + p1
  }

  lemma SlotInRange(p1: nat, p2: nat, size: nat)
    requires p1 < size && p2 < size
    ensures Slot(p1, p2, size) < size * size
  {
    MulMonotone(p2 + 1, size, size);
    MulDistributes(p2, 1, size);
  }

  lemma SlotInjective(p1: nat, p2: nat, q1: nat, q2: nat, size: nat)
    requires p1 < size && q1 < size && Slot(p1, p2, size) == Slot(q1, q2, size)
    ensures p1 == q1 && p2 == q2
  {
    DivModUnique(Slot(p1, p2, size), size, p2, p1);
    DivModUnique(Slot(p1, p2, size), size, q2, q1);
  }

  ghost predicate Filled<T(!new)>(g: Group<T>, x: T, y: T, table: seq<T>, size: nat, p1: nat, p2: nat)
    requires Lawful(g) && g.In(x) && g.In(y)
  {
    Slot(p1, p2, size) < |table| && table[Slot(p1, p2, size)] == Combo(g, p1, x, p2, y)
  }

  /** The table has its full size, and every slot filled before is still filled. */
  ghost predicate Extends<T(!new)>(g: Group<T>, x: T, y: T, before: seq<T>, after: seq<T>, size: nat)
    requires Lawful(g) && g.In(x) && g.In(y)
  {
    && |before| == |after| == size * size
    && forall q1: nat, q2: nat
         {:trigger Filled(g, x, y, after, size, q1, q2)} {:trigger Filled(g, x, y, before, size, q1, q2)} ::
         q1 < size && Filled(g, x, y, before, size, q1, q2) ==> Filled(g, x, y, after, size, q1, q2)
  }

  /** Writing one combination fills its slot and disturbs no other. */
  lemma Fill<T(!new)>(g: Group<T>, x: T, y: T, table: seq<T>, size: nat, p1: nat, p2: nat, v: T)
    requires Lawful(g) && g.In(x) && g.In(y)
    requires |table| == size * size && p1 < size && p2 < size && v == Combo(g, p1, x, p2, y)
    ensures Slot(p1, p2, size) < |table|
    ensures Filled(g, x, y, table[Slot(p1, p2, size) := v], size, p1, p2)
    ensures Extends(g, x, y, table, table[Slot(p1, p2, size) := v], size)
  {
    hide Lawful, Combo;
    SlotInRange(p1, p2, size);
    var t := table[Slot(p1, p2, size) := v];
    forall q1: nat, q2: nat | q1 < size && Filled(g, x, y, table, size, q1, q2)
      ensures Filled(g, x, y, t, size, q1, q2)
    {
      if Slot(q1, q2, size) == Slot(p1, p2, size) {
        SlotInjective(p1, p2, q1, q2, size);
      }
    }
  }

  lemma SlotStep(p1: nat, p2: nat, d: nat, size: nat)
    ensures Slot(p1, p2 + d, size) == Slot(p1, p2, size) + d * size
  {
    MulDistributes(p2, d, size);
  }

  lemma ExtendsTrans<T(!new)>(g: Group<T>, x: T, y: T, a: seq<T>, b: seq<T>, c: seq<T>, size: nat)
    requires Lawful(g) && g.In(x) && g.In(y) && Extends(g, x, y, a, b, size) && Extends(g, x, y, b, c, size)
    ensures Extends(g, x, y, a, c, size)
  {
    hide Lawful, Filled;
  }

  lemma ExtendsSelf<T(!new)>(g: Group<T>, x: T, y: T, a: seq<T>, size: nat)
    requires Lawful(g) && g.In(x) && g.In(y) && |a| == size * size
    ensures Extends(g, x, y, a, a, size)
  {
    hide Lawful, Filled;
  }

  lemma Still<T(!new)>(g: Group<T>, x: T, y: T, a: seq<T>, b: seq<T>, size: nat, p1: nat, p2: nat)
    requires Lawful(g) && g.In(x) && g.In(y) && Extends(g, x, y, a, b, size) && p1 < size
    requires Filled(g, x, y, a, size, p1, p2)
    ensures Filled(g, x, y, b, size, p1, p2) && |b| == |a| == size * size
  {
    hide Lawful, Filled;
  }

  lemma Entry<T(!new)>(g: Group<T>, x: T, y: T, t: seq<T>, size: nat, p1: nat, p2: nat)
    requires Lawful(g) && g.In(x) && g.In(y) && Filled(g, x, y, t, size, p1, p2)
    ensures Slot(p1, p2, size) < |t| && t[Slot(p1, p2, size)] == Combo(g, p1, x, p2, y)
  {
  }

  // What is filled so far, as the four loops go.

  ghost predicate OddRow<T(!new)>(g: Group<T>, x: T, y: T, t: seq<T>, size: nat, n: nat)
    requires Lawful(g) && g.In(x) && g.In(y)
  {
    forall p1: nat :: p1 < n && p1 < size && p1 % 2 == 1 ==> Filled(g, x, y, t, size, p1, 0)
  }

  ghost predicate OddColumn<T(!new)>(g: Group<T>, x: T, y: T, t: seq<T>, size: nat, n: nat)
    requires Lawful(g) && g.In(x) && g.In(y)
  {
    forall p2: nat :: p2 < n && p2 < size && p2 % 2 == 1 ==> Filled(g, x, y, t, size, 0, p2)
  }

  ghost predicate ColumnTo<T(!new)>(g: Group<T>, x: T, y: T, t: seq<T>, size: nat, p1: nat, n: nat)
    requires Lawful(g) && g.In(x) && g.In(y)
  {
    forall p2: nat :: p2 < n ==> Filled(g, x, y, t, size, p1, p2)
  }

  ghost predicate OddColumns<T(!new)>(g: Group<T>, x: T, y: T, t: seq<T>, size: nat, n: nat)
    requires Lawful(g) && g.In(x) && g.In(y)
  {
    forall p1: nat, p2: nat :: p1 < n && p1 < size && p2 < size && p1 % 2 == 1 ==> Filled(g, x, y, t, size, p1, p2)
  }

  /** Row r is filled below column n, and at every odd column. */
  ghost predicate RowTo<T(!new)>(g: Group<T>, x: T, y: T, t: seq<T>, size: nat, r: nat, n: nat)
    requires Lawful(g) && g.In(x) && g.In(y)
  {
    forall p1: nat :: p1 < size && (p1 < n || p1 % 2 == 1) ==> Filled(g, x, y, t, size, p1, r)
  }

  ghost predicate OddRows<T(!new)>(g: Group<T>, x: T, y: T, t: seq<T>, size: nat, n: nat)
    requires Lawful(g) && g.In(x) && g.In(y)
  {
    forall p1: nat, p2: nat :: p1 < size && p2 < n && p2 < size && p2 % 2 == 1 ==> Filled(g, x, y, t, size, p1, p2)
  }

  /** One more odd slot of row 0, and of column 0. */
  lemma MoreOdd<T(!new)>(g: Group<T>, x: T, y: T, a: seq<T>, b: seq<T>, size: nat, n: nat)
    requires Lawful(g) && g.In(x) && g.In(y) && Extends(g, x, y, a, b, size) && n % 2 == 1 && size > 0
    ensures OddRow(g, x, y, a, size, n) && (n < size ==> Filled(g, x, y, b, size, n, 0)) ==>
              OddRow(g, x, y, b, size, n + 2)
    ensures OddColumn(g, x, y, a, size, n) && (n < size ==> Filled(g, x, y, b, size, 0, n)) ==>
              OddColumn(g, x, y, b, size, n + 2)
  {
    hide Lawful, Filled;
  }

  lemma MoreColumn<T(!new)>(g: Group<T>, x: T, y: T, a: seq<T>, b: seq<T>, size: nat, p1: nat, n: nat)
    requires Lawful(g) && g.In(x) && g.In(y) && Extends(g, x, y, a, b, size) && p1 < size
    requires ColumnTo(g, x, y, a, size, p1, n) && Filled(g, x, y, b, size, p1, n)
    ensures ColumnTo(g, x, y, b, size, p1, n + 1)
  {
    hide Lawful, Filled;
  }

  lemma MoreColumns<T(!new)>(g: Group<T>, x: T, y: T, a: seq<T>, b: seq<T>, size: nat, n: nat)
    requires Lawful(g) && g.In(x) && g.In(y) && Extends(g, x, y, a, b, size) && n % 2 == 1
    requires OddColumns(g, x, y, a, size, n) && ColumnTo(g, x, y, b, size, n, size)
    ensures OddColumns(g, x, y, b, size, n + 2)
  {
    hide Lawful, Filled;
  }

  lemma MoreRow<T(!new)>(g: Group<T>, x: T, y: T, a: seq<T>, b: seq<T>, size: nat, r: nat, n: nat)
    requires Lawful(g) && g.In(x) && g.In(y) && Extends(g, x, y, a, b, size) && n % 2 == 0
    requires RowTo(g, x, y, a, size, r, n) && Filled(g, x, y, b, size, n, r)
    ensures RowTo(g, x, y, b, size, r, n + 2)
  {
    hide Lawful, Filled;
  }

  lemma MoreRows<T(!new)>(g: Group<T>, x: T, y: T, a: seq<T>, b: seq<T>, size: nat, r: nat)
    requires Lawful(g) && g.In(x) && g.In(y) && Extends(g, x, y, a, b, size) && r % 2 == 1
    requires OddRows(g, x, y, a, size, r) && RowTo(g, x, y, b, size, r, size)
    ensures OddRows(g, x, y, b, size, r + 2)
  {
    hide Lawful, Filled;
  }

  /** The odd multiples of x, in row 0. */
  method FillOddRow<T(!new)>(g: Group<T>, x: T, y: T, table: seq<T>, size: nat) returns (t: seq<T>)
    requires Lawful(g) && Commutative(g) && g.In(x) && g.In(y) && |table| == size * size && size >= 4
    requires Filled(g, x, y, table, size, 1, 0) && Filled(g, x, y, table, size, 2, 0)
    ensures Extends(g, x, y, table, t, size) && OddRow(g, x, y, t, size, size)
  {
    hide Lawful, Combo, Extends, Filled;
    ExtendsSelf(g, x, y, table, size);
    t := table;
    var i: nat := 3;
    assert OddRow(g, x, y, t, size, 3);
    while i < size
      invariant i % 2 == 1 && i >= 3 && Extends(g, x, y, table, t, size) && OddRow(g, x, y, t, size, i)
    {
      assert Filled(g, x, y, t, size, i - 2, 0);
      hide OddRow;
      Still(g, x, y, table, t, size, 2, 0);
      Entry(g, x, y, t, size, i - 2, 0);
      Entry(g, x, y, t, size, 2, 0);
      ComboAdd(g, i - 2, 2, x, 0, 0, y);
      var v := g.Add(t[i-2], t[2]);
      Fill(g, x, y, t, size, i, 0, v);
      MoreOdd(g, x, y, t, t[i := v], size, i);
      ExtendsTrans(g, x, y, table, t, t[i := v], size);
      t := t[i := v];
      i := i + 2;
    }
  }

  /** Adding y repeatedly fills the column of an odd multiple of x. */
  method FillColumn<T(!new)>(g: Group<T>, x: T, y: T, table: seq<T>, size: nat, i: nat) returns (t: seq<T>)
    requires Lawful(g) && Commutative(g) && g.In(x) && g.In(y) && |table| == size * size
    requires i < size && Filled(g, x, y, table, size, i, 0)
    ensures Extends(g, x, y, table, t, size) && ColumnTo(g, x, y, t, size, i, size)
  {
    hide Lawful, Combo, Extends, Filled;
    ExtendsSelf(g, x, y, table, size);
    t := table;
    ghost var r := 1;
    SlotStep(i, 0, 1, size);
    var j := i + size;
    while j < size * size
      invariant 1 <= r <= size && j == Slot(i, r, size) && |t| == size * size
      invariant Extends(g, x, y, table, t, size) && ColumnTo(g, x, y, t, size, i, r)
      decreases size * size - j
    {
      RowBound(i, r, size);
      SlotStep(i, r - 1, 1, size);
      SlotStep(i, r, 1, size);
      assert Filled(g, x, y, t, size, i, r - 1);
      hide ColumnTo, Slot;
      Entry(g, x, y, t, size, i, r - 1);
      ComboUnits(g, 1, x, y);
      ComboAdd(g, i, 0, x, r - 1, 1, y);
      var v := g.Add(t[j-size], y);
      Fill(g, x, y, t, size, i, r, v);
      MoreColumn(g, x, y, t, t[j := v], size, i, r);
      ExtendsTrans(g, x, y, table, t, t[j := v], size);
      t := t[j := v];
      j, r := j + size, r + 1;
    }
    ColumnDone(i, r, size);
  }

  lemma RowBound(p1: nat, p2: nat, size: nat)
    requires Slot(p1, p2, size) < size * size
    ensures p2 < size
  {
    if p2 >= size {
      MulMonotone(size, p2, size);
    }
  }

  lemma ColumnDone(p1: nat, p2: nat, size: nat)
    requires p1 < size && p2 <= size && Slot(p1, p2, size) >= size * size
    ensures p2 == size
  {
    if p2 < size {
      SlotInRange(p1, p2, size);
    }
  }

  /** The columns of all odd multiples of x. */
  method FillOddColumns<T(!new)>(g: Group<T>, x: T, y: T, table: seq<T>, size: nat) returns (t: seq<T>)
    requires Lawful(g) && Commutative(g) && g.In(x) && g.In(y) && |table| == size * size
    requires OddRow(g, x, y, table, size, size)
    ensures Extends(g, x, y, table, t, size) && OddColumns(g, x, y, t, size, size)
  {
    hide Lawful, Filled, Extends;
    ExtendsSelf(g, x, y, table, size);
    t := table;
    var i: nat := 1;
    while i < size
      invariant i % 2 == 1 && |t| == size * size
      invariant Extends(g, x, y, table, t, size) && OddColumns(g, x, y, t, size, i)
    {
      assert Filled(g, x, y, table, size, i, 0);
      hide OddColumns, ColumnTo, OddRow;
      Still(g, x, y, table, t, size, i, 0);
      var t' := FillColumn(g, x, y, t, size, i);
      MoreColumns(g, x, y, t, t', size, i);
      ExtendsTrans(g, x, y, table, t, t', size);
      Still(g, x, y, table, t', size, i, 0);
      t := t';
      i := i + 2;
    }
  }

  /** The odd multiples of y, in column 0. */
  method FillOddMultiplesOfY<T(!new)>(g: Group<T>, x: T, y: T, table: seq<T>, size: nat) returns (t: seq<T>)
    requires Lawful(g) && Commutative(g) && g.In(x) && g.In(y) && |table| == size * size && size >= 4
    requires Filled(g, x, y, table, size, 0, 1) && Filled(g, x, y, table, size, 0, 2)
    ensures Extends(g, x, y, table, t, size) && OddColumn(g, x, y, t, size, size)
  {
    hide Lawful, Combo, Extends, Filled;
    ExtendsSelf(g, x, y, table, size);
    t := table;
    ghost var r: nat := 3;
    assert OddColumn(g, x, y, t, size, 3);
    var i := 3 * size;
    while i < size * size
      invariant r % 2 == 1 && r >= 3 && i == Slot(0, r, size) && |t| == size * size
      invariant Extends(g, x, y, table, t, size) && OddColumn(g, x, y, t, size, r)
      decreases size * size - i
    {
      RowBound(0, r, size);
      SlotStep(0, r - 2, 2, size);
      SlotStep(0, r, 2, size);
      SlotStep(0, 0, 2, size);
      assert Filled(g, x, y, t, size, 0, r - 2);
      assert Slot(0, 0, size) == 0;
      hide OddColumn, Slot;
      Still(g, x, y, table, t, size, 0, 2);
      Entry(g, x, y, t, size, 0, r - 2);
      Entry(g, x, y, t, size, 0, 2);
      ComboAdd(g, 0, 0, x, r - 2, 2, y);
      var v := g.Add(t[i - 2 * size], t[2 * size]);
      Fill(g, x, y, t, size, 0, r, v);
      MoreOdd(g, x, y, t, t[i := v], size, r);
      ExtendsTrans(g, x, y, table, t, t[i := v], size);
      t := t[i := v];
      i, r := i + 2 * size, r + 2;
    }
    PastLastRow(0, r, size);
  }

  lemma PastLastRow(p1: nat, p2: nat, size: nat)
    requires p1 < size && Slot(p1, p2, size) >= size * size
    ensures p2 >= size
  {
    if p2 < size {
      SlotInRange(p1, p2, size);
    }
  }

  /** Adding x to its left neighbour fills every even slot of an odd row. */
  method FillEvenOfRow<T(!new)>(g: Group<T>, x: T, y: T, table: seq<T>, size: nat, i: nat, ghost r: nat)
    returns (t: seq<T>)
    requires Lawful(g) && Commutative(g) && g.In(x) && g.In(y) && |table| == size * size
    requires r < size && i == Slot(0, r, size) && RowTo(g, x, y, table, size, r, 2)
    ensures Extends(g, x, y, table, t, size) && RowTo(g, x, y, t, size, r, size)
  {
    hide Lawful, Combo, Extends, Filled;
    ExtendsSelf(g, x, y, table, size);
    t := table;
    var j := i + 2;
    while j < i + size
      invariant j >= i + 2 && (j - i) % 2 == 0 && |t| == size * size
      invariant Extends(g, x, y, table, t, size) && RowTo(g, x, y, t, size, r, j - i)
    {
      var c := j - i;
      assert Filled(g, x, y, t, size, c - 1, r);
      hide RowTo;
      Entry(g, x, y, t, size, c - 1, r);
      ComboUnits(g, 1, x, y);
      ComboAdd(g, c - 1, 1, x, r, 0, y);
      var v := g.Add(t[j-1], x);
      Fill(g, x, y, t, size, c, r, v);
      MoreRow(g, x, y, t, t[j := v], size, r, c);
      ExtendsTrans(g, x, y, table, t, t[j := v], size);
      t := t[j := v];
      j := j + 2;
    }
  }

  method FillOddRows<T(!new)>(g: Group<T>, x: T, y: T, table: seq<T>, size: nat) returns (t: seq<T>)
    requires Lawful(g) && Commutative(g) && g.In(x) && g.In(y) && |table| == size * size && size > 0
    requires OddColumns(g, x, y, table, size, size) && OddColumn(g, x, y, table, size, size)
    ensures Extends(g, x, y, table, t, size) && OddRows(g, x, y, t, size, size)
  {
    hide Lawful, Filled, Extends;
    ExtendsSelf(g, x, y, table, size);
    t := table;
    ghost var r: nat := 1;
    var i := size;
    while i < size * size
      invariant r % 2 == 1 && i == Slot(0, r, size) && |t| == size * size
      invariant Extends(g, x, y, table, t, size) && OddRows(g, x, y, t, size, r)
      decreases size * size - i
    {
      RowBound(0, r, size);
      SlotStep(0, r, 2, size);
      hide OddRows, Slot;
      StartOfRow(g, x, y, table, t, size, r);
      var t' := FillEvenOfRow(g, x, y, t, size, i, r);
      MoreRows(g, x, y, t, t', size, r);
      ExtendsTrans(g, x, y, table, t, t', size);
      Lengths(g, x, y, t, t', size);
      t := t';
      i, r := i + 2 * size, r + 2;
    }
    PastLastRow(0, r, size);
  }

  lemma Lengths<T(!new)>(g: Group<T>, x: T, y: T, a: seq<T>, b: seq<T>, size: nat)
    requires Lawful(g) && g.In(x) && g.In(y) && Extends(g, x, y, a, b, size)
    ensures |a| == |b| == size * size
  {
  }

  /** Before an odd row is taken, its odd slots and its first are filled. */
  lemma StartOfRow<T(!new)>(g: Group<T>, x: T, y: T, table: seq<T>, t: seq<T>, size: nat, r: nat)
    requires Lawful(g) && g.In(x) && g.In(y) && Extends(g, x, y, table, t, size) && r < size && r % 2 == 1
    requires OddColumns(g, x, y, table, size, size) && OddColumn(g, x, y, table, size, size)
    ensures RowTo(g, x, y, t, size, r, 2)
  {
    hide Lawful, Filled;
    forall p1: nat | p1 < size && (p1 < 2 || p1 % 2 == 1) ensures Filled(g, x, y, t, size, p1, r) {
      assert Filled(g, x, y, table, size, p1, r);
    }
  }

  /** The slots the walk can ask for: at least one of the two multiples is odd. */
  ghost predicate Ready<T(!new)>(g: Group<T>, x: T, y: T, table: seq<T>, size: nat)
    requires Lawful(g) && g.In(x) && g.In(y)
  {
    forall p1: nat, p2: nat :: p1 < size && p2 < size && (p1 % 2 == 1 || p2 % 2 == 1) ==>
      Filled(g, x, y, table, size, p1, p2)
  }

  /** blank is the value of a default-constructed element; whatever it is, it is never read back. */
  method BuildTable<T(!new)>(g: Group<T>, x: T, y: T, w: nat, blank: T) returns (t: seq<T>)
    requires Lawful(g) && Commutative(g) && g.In(x) && g.In(y) && 1 <= w <= 3
    ensures Ready(g, x, y, t, Pow2(w))
  {
    hide Lawful, Filled;
    var size := Pow2(w);
    assert size == (if w == 1 then 2 else if w == 2 then 4 else 8) by {
      assert Pow2(0) == 1 && Pow2(1) == 2 && Pow2(2) == 4;
    }
    t := seq(size * size, _ => blank);
    ComboUnits(g, 1, x, y);
    t := Write(g, x, y, t, size, 1, 0, x);
    t := Write(g, x, y, t, size, 0, 1, y);
    if w == 1 {
      ComboAdd(g, 1, 0, x, 0, 1, y);
      t := Write(g, x, y, t, size, 1, 1, g.Add(x, y));
    } else {
      ComboAdd(g, 1, 1, x, 0, 0, y);
      ComboAdd(g, 0, 0, x, 1, 1, y);
      t := Write(g, x, y, t, size, 2, 0, g.Double(x));
      t := Write(g, x, y, t, size, 0, 2, g.Double(y));
      t := FillOddRow(g, x, y, t, size);
      t := FillOddColumns(g, x, y, t, size);
      t := FillOddMultiplesOfY(g, x, y, t, size);
      t := FillOddRows(g, x, y, t, size);
    }
  }

  method Write<T(!new)>(g: Group<T>, ghost x: T, ghost y: T, table: seq<T>, size: nat, p1: nat, p2: nat, v: T)
    returns (t: seq<T>)
    requires Lawful(g) && g.In(x) && g.In(y)
    requires |table| == size * size && p1 < size && p2 < size && v == Combo(g, p1, x, p2, y)
    ensures Filled(g, x, y, t, size, p1, p2) && Extends(g, x, y, table, t, size)
  {
    Fill(g, x, y, table, size, p1, p2, v);
    t := table[Slot(p1, p2, size) := v];
  }

  // ---------- The walk over the bits ----------

  method DoubleRepeatedly<T(!new)>(g: Group<T>, r: T, n: nat) returns (d: T)
    requires Lawful(g) && g.In(r)
    ensures d == Times(g, Pow2(n), r)
  {
    hide Lawful, Times;
    d := r;
    TimesOne(g, r);
    for i := 0 to n
      invariant d == Times(g, Pow2(i), r)
    {
      TimesAdd(g, Pow2(i), Pow2(i), r);
      d := g.Double(d);
    }
  }

  /** Common factors of two move from the window to the doublings after it; there are always enough before it. */
  method StripZeros(power1: nat, power2: nat, before: nat) returns (p1: nat, p2: nat, before': nat, after: nat)
    requires power1 < Pow2(before + 1) && power2 < Pow2(before + 1)
    ensures power1 == p1 * Pow2(after) && power2 == p2 * Pow2(after) && before == before' + after
    ensures p1 <= power1 && p2 <= power2
    ensures p1 % 2 == 1 || p2 % 2 == 1 || (power1 == 0 && power2 == 0 && after == 0)
  {
    p1, p2, before', after := power1, power2, before, 0;
    while (p1 > 0 || p2 > 0) && p1 % 2 == 0 && p2 % 2 == 0
      invariant power1 == p1 * Pow2(after) && power2 == p2 * Pow2(after) && before == before' + after
      invariant p1 <= power1 && p2 <= power2
      invariant p1 < Pow2(before' + 1) && p2 < Pow2(before' + 1)
      invariant after > 0 ==> p1 > 0 || p2 > 0
      decreases p1 + p2
    {
      assert Pow2(1) == 2;
      MulAssoc(p1 / 2, 2, Pow2(after));
      MulAssoc(p2 / 2, 2, Pow2(after));
      p1, p2, before', after := p1 / 2, p2 / 2, before' - 1, after + 1;
    }
  }

  lemma ScaleUp(a: nat, p: nat, power: nat, before: nat, after: nat)
    requires power == p * Pow2(after)
    ensures Pow2(after) * (Pow2(before) * a + p) == a * Pow2(before + after) + power
  {
    Pow2Add(after, before);
    MulDistributes(Pow2(before) * a, p, Pow2(after));
    MulAssoc(Pow2(after), Pow2(before), a);
  }

  /** One window: doublings, an addition from the table, and the doublings that were held back. */
  method Absorb<T(!new)>(g: Group<T>, ghost x: T, ghost y: T, table: seq<T>, w: nat, result: T, firstTime: bool,
                         power1: nat, power2: nat, squaresBefore: nat, ghost a: nat, ghost b: nat)
    returns (r: T)
    requires Lawful(g) && Commutative(g) && g.In(x) && g.In(y) && Ready(g, x, y, table, Pow2(w))
    requires power1 < Pow2(w) && power2 < Pow2(w)
    requires power1 < Pow2(squaresBefore + 1) && power2 < Pow2(squaresBefore + 1)
    requires if firstTime then a == b == 0 && (power1 > 0 || power2 > 0) else result == Combo(g, a, x, b, y)
    ensures r == Combo(g, a * Pow2(squaresBefore) + power1, x, b * Pow2(squaresBefore) + power2, y)
  {
    hide Lawful, Times, Combo, Pow2;
    var p1, p2, before, after := StripZeros(power1, power2, squaresBefore);
    if firstTime {
      assert Filled(g, x, y, table, Pow2(w), p1, p2);
      r := table[Slot(p1, p2, Pow2(w))];
    } else {
      r := DoubleRepeatedly(g, result, before);
      ComboScale(g, Pow2(before), a, x, b, y);
      if p1 > 0 || p2 > 0 {
        assert Filled(g, x, y, table, Pow2(w), p1, p2);
        ComboAdd(g, Pow2(before) * a, p1, x, Pow2(before) * b, p2, y);
        r := g.Add(r, table[Slot(p1, p2, Pow2(w))]);
      }
    }
    assert Pow2(before) * a + p1 >= 0 && Pow2(before) * b + p2 >= 0;
    assert r == Combo(g, Pow2(before) * a + p1, x, Pow2(before) * b + p2, y);
    ComboScale(g, Pow2(after), Pow2(before) * a + p1, x, Pow2(before) * b + p2, y);
    ScaleUp(a, p1, power1, before, after);
    ScaleUp(b, p2, power2, before, after);
    r := DoubleRepeatedly(g, r, after);
  }

  /** What the bits of e down to k are split into: the part in the result, and the open window. */
  ghost predicate Split(e: nat, prev: nat, k: nat, power: nat, firstTime: bool) {
    if firstTime then power == Shr(e, k)
    else k <= prev && Shr(e, k) == Shr(e, prev) * Pow2(prev - k) + power && power < Pow2(prev - k)
  }

  lemma SplitStep(e: nat, prev: nat, i: nat, power: nat, firstTime: bool)
    requires Split(e, prev, i + 1, power, firstTime)
    ensures Split(e, prev, i, 2 * power + Bit(e, i), firstTime)
  {
    ShrStep(e, i);
    if !firstTime {
      MulAssoc(Shr(e, prev), 2, Pow2(prev - i - 1));
    }
  }

  lemma SplitStart(e: nat, expLen: nat)
    requires BitCount(e) <= expLen && 0 < expLen
    ensures Split(e, expLen - 1, expLen, 0, true)
    ensures BitCount(e) > 0 ==> e > 0
  {
    BitCountTop(e, expLen);
  }

  lemma SplitFresh(e: nat, i: nat)
    ensures Split(e, i, i, 0, false)
  {
    assert Pow2(0) == 1;
  }

  function Absorbed(e: nat, prev: nat, firstTime: bool): nat {
    if firstTime then 0 else Shr(e, prev)
  }

  /** A window never holds more than the doublings before it can make room for. */
  lemma WindowFits(e: nat, prev: nat, i: nat, power: nat, firstTime: bool, expLen: nat)
    requires Split(e, prev, i, power, firstTime) && BitCount(e) <= expLen && i < expLen
    requires firstTime ==> prev == expLen - 1
    ensures i <= prev && power < Pow2(prev - i + 1)
    ensures Shr(e, i) == Absorbed(e, prev, firstTime) * Pow2(prev - i) + power
    ensures firstTime && i == 0 ==> power == e
  {
    ShrZero(e);
    if firstTime {
      BitCountTop(e, expLen);
      ShrLow(e, i);
      Pow2Add(expLen - i, i);
      if Shr(e, i) >= Pow2(expLen - i) {
        MulMonotone(Pow2(expLen - i), Shr(e, i), Pow2(i));
      }
    }
  }

  /** The variables of the walk. */
  datatype Walk<T> = Walk(result: T, power1: nat, power2: nat, prevPosition: nat, firstTime: bool)

  /** The bits from i up have been read: they are in the result or in the open window. */
  ghost predicate WalkedTo<T(!new)>(g: Group<T>, x: T, e1: nat, y: T, e2: nat, expLen: nat, w: nat, i: nat,
                                    walk: Walk<T>)
    requires Lawful(g) && g.In(x) && g.In(y) && w >= 1
  {
    && walk.prevPosition < expLen
    && (walk.firstTime ==> walk.prevPosition == expLen - 1)
    && Split(e1, walk.prevPosition, i, walk.power1, walk.firstTime)
    && Split(e2, walk.prevPosition, i, walk.power2, walk.firstTime)
    && walk.power1 < Pow2(w - 1) && walk.power2 < Pow2(w - 1)
    && (!walk.firstTime ==> walk.result == Combo(g, Shr(e1, walk.prevPosition), x, Shr(e2, walk.prevPosition), y))
    && (i == 0 ==> !walk.firstTime && walk.prevPosition == 0)
  }

  /** Closes the window at position i. */
  method CloseWindow<T(!new)>(g: Group<T>, ghost x: T, ghost e1: nat, ghost y: T, ghost e2: nat, ghost expLen: nat,
                              w: nat, table: seq<T>, walk: Walk<T>, i: nat)
    returns (result: T)
    requires Lawful(g) && Commutative(g) && g.In(x) && g.In(y) && Ready(g, x, y, table, Pow2(w))
    requires BitCount(e1) <= expLen && BitCount(e2) <= expLen && i < expLen && (e1 > 0 || e2 > 0)
    requires walk.firstTime ==> walk.prevPosition == expLen - 1
    requires Split(e1, walk.prevPosition, i, walk.power1, walk.firstTime)
    requires Split(e2, walk.prevPosition, i, walk.power2, walk.firstTime)
    requires walk.power1 < Pow2(w) && walk.power2 < Pow2(w)
    requires i == 0 || walk.power1 > 0 || walk.power2 > 0
    requires !walk.firstTime ==> walk.result == Combo(g, Shr(e1, walk.prevPosition), x, Shr(e2, walk.prevPosition), y)
    ensures result == Combo(g, Shr(e1, i), x, Shr(e2, i), y)
  {
    hide Lawful, Combo, Pow2, Shr, BitCount, Split, Ready;
    WindowFits(e1, walk.prevPosition, i, walk.power1, walk.firstTime, expLen);
    WindowFits(e2, walk.prevPosition, i, walk.power2, walk.firstTime, expLen);
    result := Absorb(g, x, y, table, w, walk.result, walk.firstTime, walk.power1, walk.power2, walk.prevPosition - i,
                     Absorbed(e1, walk.prevPosition, walk.firstTime), Absorbed(e2, walk.prevPosition, walk.firstTime));
  }

  /** One turn of the loop: bit i of both exponents joins the window, which closes when full or at the last bit. */
  method ReadBit<T(!new)>(g: Group<T>, ghost x: T, e1: nat, ghost y: T, e2: nat, ghost expLen: nat,
                          w: nat, table: seq<T>, walk: Walk<T>, i: nat)
    returns (walk': Walk<T>)
    requires Lawful(g) && Commutative(g) && g.In(x) && g.In(y) && w >= 1 && Ready(g, x, y, table, Pow2(w))
    requires BitCount(e1) <= expLen && BitCount(e2) <= expLen && i < expLen && (e1 > 0 || e2 > 0)
    requires WalkedTo(g, x, e1, y, e2, expLen, w, i + 1, walk)
    ensures WalkedTo(g, x, e1, y, e2, expLen, w, i, walk')
  {
    hide Lawful, Combo, Pow2, Shr, Bit, BitCount, Split, Ready;
    HalfTable(w);
    SplitStep(e1, walk.prevPosition, i, walk.power1, walk.firstTime);
    SplitStep(e2, walk.prevPosition, i, walk.power2, walk.firstTime);
    walk' := walk.(power1 := 2 * walk.power1 + Bit(e1, i), power2 := 2 * walk.power2 + Bit(e2, i));
    var tableSize := Pow2(w);
    if i == 0 || 2 * walk'.power1 >= tableSize || 2 * walk'.power2 >= tableSize {
      var result := CloseWindow(g, x, e1, y, e2, expLen, w, table, walk', i);
      SplitFresh(e1, i);
      SplitFresh(e2, i);
      walk' := Walk(result, 0, 0, i, false);
    }
  }

  /** For any two bases of a commutative group and any two exponents, the walk yields e1 * x + e2 * y. */
  method CascadeScalarMultiply<T(!new)>(g: Group<T>, x: T, e1: nat, y: T, e2: nat, blank: T) returns (result: T)
    requires Lawful(g) && Commutative(g) && g.In(x) && g.In(y)
    ensures result == g.Add(Times(g, e1, x), Times(g, e2, y))
  {
    hide Lawful, Times, Pow2, Shr, BitCount, Split, Ready;
    var expLen := if BitCount(e1) > BitCount(e2) then BitCount(e1) else BitCount(e2);
    if expLen == 0 {
      NoBits(g, x, e1, y, e2);
      return g.identity;
    }
    var w := if expLen <= 46 then 1 else if expLen <= 260 then 2 else 3;
    var powerTable := BuildTable(g, x, y, w, blank);
    SplitStart(e1, expLen);
    SplitStart(e2, expLen);
    var walk := Walk(blank, 0, 0, expLen - 1, true);
    var i: nat := expLen;
    while i > 0
      invariant i <= expLen && WalkedTo(g, x, e1, y, e2, expLen, w, i, walk)
    {
      i := i - 1;
      walk := ReadBit(g, x, e1, y, e2, expLen, w, powerTable, walk, i);
    }
    ShrZero(e1);
    ShrZero(e2);
    result := walk.result;
  }

  lemma NoBits<T(!new)>(g: Group<T>, x: T, e1: nat, y: T, e2: nat)
    requires Lawful(g) && g.In(x) && g.In(y) && BitCount(e1) == BitCount(e2) == 0
    ensures e1 == e2 == 0 && g.Add(Times(g, e1, x), Times(g, e2, y)) == g.identity
  {
  }

  lemma HalfTable(w: nat)
    requires w >= 1
    ensures Pow2(w) == 2 * Pow2(w - 1)
  {
  }
}
