/** CAST-256: six quad rounds forward and six backward; decryption takes the rows of subkeys in the opposite order. */
module Cast256 {
  import opened Words
  import opened Cast128

  datatype Quad = Quad(a: Word, b: Word, c: Word, d: Word)

  const ROWS: nat := 12

  /** Entry j of row i. */
  function At(k: seq<Word>, i: nat, j: nat): Word
    requires |k| == 8 * ROWS && i < ROWS && j < 8
  {
    k[8 * i + j]
  }

  /** The masking and the rotation keys of a row. */
  function Km(k: seq<Word>, i: nat, j: nat): Word
    requires |k| == 8 * ROWS && i < ROWS && j < 4
  {
    At(k, i, 4 + j)
  }

  function Kr(k: seq<Word>, i: nat, j: nat): Word
    requires |k| == 8 * ROWS && i < ROWS && j < 4
  {
    At(k, i, j)
  }

  /** Q(i): four rounds, each changing one word by the one after it. */
  function Q(f: RoundFunctions, k: seq<Word>, i: nat, s: Quad): Quad
    requires |k| == 8 * ROWS && i < ROWS
  {
    var c := Xor(s.c, f.f1(s.d, Km(k, i, 0), Kr(k, i, 0)));
    var b := Xor(s.b, f.f2(c, Km(k, i, 1), Kr(k, i, 1)));
    var a := Xor(s.a, f.f3(b, Km(k, i, 2), Kr(k, i, 2)));
    Quad(a, b, c, Xor(s.d, f.f1(a, Km(k, i, 3), Kr(k, i, 3))))
  }

  /** QBar(i): the same rounds from the last to the first. */
  function QBar(f: RoundFunctions, k: seq<Word>, i: nat, s: Quad): Quad
    requires |k| == 8 * ROWS && i < ROWS
  {
    var d := Xor(s.d, f.f1(s.a, Km(k, i, 3), Kr(k, i, 3)));
    var a := Xor(s.a, f.f3(s.b, Km(k, i, 2), Kr(k, i, 2)));
    var b := Xor(s.b, f.f2(s.c, Km(k, i, 1), Kr(k, i, 1)));
    Quad(a, b, Xor(s.c, f.f1(d, Km(k, i, 0), Kr(k, i, 0))), d)
  }

  lemma QuadUndone(f: RoundFunctions, k: seq<Word>, i: nat, s: Quad)
    requires |k| == 8 * ROWS && i < ROWS
    ensures QBar(f, k, i, Q(f, k, i, s)) == s && Q(f, k, i, QBar(f, k, i, s)) == s
  {
    hide Xor, Km, Kr;
    var q, r := Q(f, k, i, s), QBar(f, k, i, s);
    XorTwice(s.d, f.f1(q.a, Km(k, i, 3), Kr(k, i, 3)));
    XorTwice(s.a, f.f3(q.b, Km(k, i, 2), Kr(k, i, 2)));
    XorTwice(s.b, f.f2(q.c, Km(k, i, 1), Kr(k, i, 1)));
    XorTwice(s.c, f.f1(s.d, Km(k, i, 0), Kr(k, i, 0)));
    XorTwice(s.c, f.f1(r.d, Km(k, i, 0), Kr(k, i, 0)));
    XorTwice(s.b, f.f2(s.c, Km(k, i, 1), Kr(k, i, 1)));
    XorTwice(s.a, f.f3(s.b, Km(k, i, 2), Kr(k, i, 2)));
    XorTwice(s.d, f.f1(s.a, Km(k, i, 3), Kr(k, i, 3)));
  }

  /** Six quad rounds forward, then six backward. */
  function Step(f: RoundFunctions, k: seq<Word>, i: nat, s: Quad): Quad
    requires |k| == 8 * ROWS && i < ROWS
  {
    if i < 6 then Q(f, k, i, s) else QBar(f, k, i, s)
  }

  function Run(f: RoundFunctions, k: seq<Word>, s: Quad, n: nat): Quad
    requires |k| == 8 * ROWS && n <= ROWS
  {
    if n == 0 then s else Step(f, k, n - 1, Run(f, k, s, n - 1))
  }

  /** The four rounds of Q(i), in the words' own places. */
  method ForwardQuad(f: RoundFunctions, k: seq<Word>, i: nat, input: Quad) returns (output: Quad)
    requires |k| == 8 * ROWS && i < ROWS
    ensures output == Q(f, k, i, input)
  {
    hide Xor;
    var block0, block1, block2, block3 := input.a, input.b, input.c, input.d;
    block2 := Xor(block2, f.f1(block3, k[8 * i + 4], k[8 * i]));
    block1 := Xor(block1, f.f2(block2, k[8 * i + 5], k[8 * i + 1]));
    block0 := Xor(block0, f.f3(block1, k[8 * i + 6], k[8 * i + 2]));
    block3 := Xor(block3, f.f1(block0, k[8 * i + 7], k[8 * i + 3]));
    output := Quad(block0, block1, block2, block3);
  }

  method BackwardQuad(f: RoundFunctions, k: seq<Word>, i: nat, input: Quad) returns (output: Quad)
    requires |k| == 8 * ROWS && i < ROWS
    ensures output == QBar(f, k, i, input)
  {
    hide Xor;
    var block0, block1, block2, block3 := input.a, input.b, input.c, input.d;
    block3 := Xor(block3, f.f1(block0, k[8 * i + 7], k[8 * i + 3]));
    block0 := Xor(block0, f.f3(block1, k[8 * i + 6], k[8 * i + 2]));
    block1 := Xor(block1, f.f2(block2, k[8 * i + 5], k[8 * i + 1]));
    block2 := Xor(block2, f.f1(block3, k[8 * i + 4], k[8 * i]));
    output := Quad(block0, block1, block2, block3);
  }

  /** ProcessAndXorBlock. */
  method ProcessBlock(f: RoundFunctions, k: seq<Word>, input: Quad) returns (output: Quad)
    requires |k| == 8 * ROWS
    ensures output == Run(f, k, input, ROWS)
  {
    hide Q, QBar;
    output := input;
    for i := 0 to 6
      invariant output == Run(f, k, input, i)
    {
      output := ForwardQuad(f, k, i, output);
    }
    for i := 6 to 12
      invariant output == Run(f, k, input, i)
    {
      output := BackwardQuad(f, k, i, output);
    }
  }

  // ---------- The order of the rows ----------

  predicate RowsReversed(k: seq<Word>, r: seq<Word>) {
    && |k| == 8 * ROWS && |r| == 8 * ROWS
    && forall i, j :: 0 <= i < ROWS && 0 <= j < 8 ==> At(r, i, j) == At(k, ROWS - 1 - i, j)
  }

  /** A quad round on the mirrored row is the same on the row itself, so it undoes the other kind. */
  lemma StepUndone(f: RoundFunctions, k: seq<Word>, r: seq<Word>, i: nat, s: Quad)
    requires RowsReversed(k, r) && i < ROWS
    ensures Step(f, r, ROWS - 1 - i, Step(f, k, i, s)) == s
  {
    hide Q, QBar;
    SameQuad(f, k, r, i, Step(f, k, i, s));
    QuadUndone(f, k, i, s);
  }

  lemma SameQuad(f: RoundFunctions, k: seq<Word>, r: seq<Word>, i: nat, s: Quad)
    requires RowsReversed(k, r) && i < ROWS
    ensures Q(f, r, ROWS - 1 - i, s) == Q(f, k, i, s) && QBar(f, r, ROWS - 1 - i, s) == QBar(f, k, i, s)
  {
    SameRow(k, r, i);
    hide Km, Kr, RowsReversed, Xor;
  }

  lemma SameRow(k: seq<Word>, r: seq<Word>, i: nat)
    requires RowsReversed(k, r) && i < ROWS
    ensures forall j :: 0 <= j < 4 ==> Km(r, ROWS - 1 - i, j) == Km(k, i, j) && Kr(r, ROWS - 1 - i, j) == Kr(k, i, j)
  {
    var m := ROWS - 1 - i;
    forall j | 0 <= j < 4 ensures Km(r, m, j) == Km(k, i, j) && Kr(r, m, j) == Kr(k, i, j) {
      assert At(r, m, j) == At(k, ROWS - 1 - m, j);
      assert At(r, m, 4 + j) == At(k, ROWS - 1 - m, 4 + j);
    }
  }

  lemma {:induction false} RunBack(f: RoundFunctions, k: seq<Word>, r: seq<Word>, s: Quad, m: nat)
    requires RowsReversed(k, r) && m <= ROWS
    ensures Run(f, r, Run(f, k, s, ROWS), m) == Run(f, k, s, ROWS - m)
    decreases m
  {
    hide Step, RowsReversed;
    assert |k| == 8 * ROWS && |r| == 8 * ROWS by { Sizes(k, r); }
    if m > 0 {
      RunBack(f, k, r, s, m - 1);
      StepUndone(f, k, r, ROWS - m, Run(f, k, s, ROWS - m));
    }
  }

  lemma Sizes(k: seq<Word>, r: seq<Word>)
    requires RowsReversed(k, r)
    ensures |k| == 8 * ROWS && |r| == 8 * ROWS
  {
  }

  // ---------- UncheckedSetKey ----------

  /** The constants of the key schedule. */
  datatype Constants = Constants(tm: (nat, nat) -> Word, tr: (nat, nat) -> Word)

  /** Omega: eight rounds over the eight words of the key. */
  function Omega(f: RoundFunctions, t: Constants, i: nat, x: seq<Word>): (r: seq<Word>)
    requires |x| == 8
    ensures |r| == 8
  {
    var x6 := Xor(x[6], f.f1(x[7], t.tm(0, i), t.tr(0, i)));
    var x5 := Xor(x[5], f.f2(x6, t.tm(1, i), t.tr(1, i)));
    var x4 := Xor(x[4], f.f3(x5, t.tm(2, i), t.tr(2, i)));
    var x3 := Xor(x[3], f.f1(x4, t.tm(3, i), t.tr(3, i)));
    var x2 := Xor(x[2], f.f2(x3, t.tm(4, i), t.tr(4, i)));
    var x1 := Xor(x[1], f.f3(x2, t.tm(5, i), t.tr(5, i)));
    var x0 := Xor(x[0], f.f1(x1, t.tm(6, i), t.tr(6, i)));
    [x0, x1, x2, x3, x4, x5, x6, Xor(x[7], f.f2(x0, t.tm(7, i), t.tr(7, i)))]
  }

  /** The key words after n rows. */
  function Kappa(f: RoundFunctions, t: Constants, key: seq<Word>, n: nat): (r: seq<Word>)
    requires |key| == 8
    ensures |r| == 8
  {
    if n == 0 then key else Omega(f, t, 2 * (n - 1) + 1, Omega(f, t, 2 * (n - 1), Kappa(f, t, key, n - 1)))
  }

  function FiveBits(x: Word): Word {
    And(x, Word(0, 0, 0, 31))
  }

  /** A row: four rotation keys, then four masking keys. */
  function RowOf(x: seq<Word>): (r: seq<Word>)
    requires |x| == 8
    ensures |r| == 8
  {
    [FiveBits(x[0]), FiveBits(x[2]), FiveBits(x[4]), FiveBits(x[6]), x[7], x[5], x[3], x[1]]
  }

  function RowsOf(f: RoundFunctions, t: Constants, key: seq<Word>, n: nat): (r: seq<Word>)
    requires |key| == 8
    ensures |r| == 8 * n
  {
    if n == 0 then [] else RowsOf(f, t, key, n - 1) + RowOf(Kappa(f, t, key, n))
  }

  /** Omega on the words of the key, one after the other. */
  method StirKappa(kappa: seq<Word>, f: RoundFunctions, t: Constants, i: nat) returns (r: seq<Word>)
    requires |kappa| == 8
    ensures r == Omega(f, t, i, kappa)
  {
    hide Xor;
    var k0, k1, k2, k3 := kappa[0], kappa[1], kappa[2], kappa[3];
    var k4, k5, k6, k7 := kappa[4], kappa[5], kappa[6], kappa[7];
    k6 := Xor(k6, f.f1(k7, t.tm(0, i), t.tr(0, i)));
    k5 := Xor(k5, f.f2(k6, t.tm(1, i), t.tr(1, i)));
    k4 := Xor(k4, f.f3(k5, t.tm(2, i), t.tr(2, i)));
    k3 := Xor(k3, f.f1(k4, t.tm(3, i), t.tr(3, i)));
    k2 := Xor(k2, f.f2(k3, t.tm(4, i), t.tr(4, i)));
    k1 := Xor(k1, f.f3(k2, t.tm(5, i), t.tr(5, i)));
    k0 := Xor(k0, f.f1(k1, t.tm(6, i), t.tr(6, i)));
    k7 := Xor(k7, f.f2(k0, t.tm(7, i), t.tr(7, i)));
    r := [k0, k1, k2, k3, k4, k5, k6, k7];
  }

  /** The key schedule of RFC 2612 names the words of x A to H. */
  method StoreRow(k: array<Word>, i: nat, x: seq<Word>)
    requires k.Length == 8 * ROWS && i < ROWS && |x| == 8
    modifies k
    ensures k[..8 * i] == old(k[..8 * i]) && k[8 * i..8 * i + 8] == RowOf(x)
  {
    hide And;
    var five := Word(0, 0, 0, 31);
    k[8 * i] := And(x[0], five);
    k[8 * i + 1] := And(x[2], five);
    k[8 * i + 2] := And(x[4], five);
    k[8 * i + 3] := And(x[6], five);
    k[8 * i + 4] := x[7];
    k[8 * i + 5] := x[5];
    k[8 * i + 6] := x[3];
    k[8 * i + 7] := x[1];
  }

  method FillRows(k: array<Word>, f: RoundFunctions, t: Constants, key: seq<Word>)
    requires k.Length == 8 * ROWS && |key| == 8
    modifies k
    ensures k[..] == RowsOf(f, t, key, ROWS)
  {
    hide Omega, RowOf;
    var kappa := key;
    for i := 0 to ROWS
      invariant kappa == Kappa(f, t, key, i) && k[..8 * i] == RowsOf(f, t, key, i)
    {
      kappa := StirKappa(kappa, f, t, 2 * i);
      kappa := StirKappa(kappa, f, t, 2 * i + 1);
      StoreRow(k, i, kappa);
      assert k[..8 * (i + 1)] == k[..8 * i] + k[8 * i..8 * i + 8];
    }
    assert k[..] == k[..8 * ROWS];
  }

  lemma {:induction false} RowAt(f: RoundFunctions, t: Constants, key: seq<Word>, n: nat, i: nat)
    requires |key| == 8 && i < n <= ROWS
    ensures RowsOf(f, t, key, n)[8 * i..8 * i + 8] == RowOf(Kappa(f, t, key, i + 1))
    decreases n
  {
    hide RowOf, Kappa;
    if i < n - 1 {
      RowAt(f, t, key, n - 1, i);
      assert RowsOf(f, t, key, n)[8 * i..8 * i + 8] == RowsOf(f, t, key, n - 1)[8 * i..8 * i + 8];
    }
  }

  /**
   The key schedule of RFC 2612: with the key words A to H after two octaves, the rotation keys are the five low bits of
   A, C, E and G, and the masking keys are H, F, D and B.
   */
  lemma RowPublished(f: RoundFunctions, t: Constants, key: seq<Word>, i: nat)
    requires |key| == 8 && i < ROWS
    ensures var x := Kappa(f, t, key, i + 1);
            var a, b, c, d, e, f', g, h := x[0], x[1], x[2], x[3], x[4], x[5], x[6], x[7];
            RowsOf(f, t, key, ROWS)[8 * i..8 * i + 8] ==
            [LowFive(a), LowFive(c), LowFive(e), LowFive(g), h, f', d, b]
  {
    hide RowsOf, Kappa, FiveBits, LowFive;
    RowAt(f, t, key, ROWS, i);
    var x := Kappa(f, t, key, i + 1);
    LowFiveIs(x[0]);
    LowFiveIs(x[2]);
    LowFiveIs(x[4]);
    LowFiveIs(x[6]);
  }

  function LowFive(x: Word): Word {
    Word(0, 0, 0, x.b0 % 32)
  }

  lemma LowFiveIs(x: Word)
    ensures FiveBits(x) == LowFive(x)
  {
  }

  /** The row that row i comes from when the first n rows and the last n have changed places. */
  function Origin(i: nat, n: nat): (r: nat)
    requires i < ROWS
    ensures r < ROWS
  {
    if i < n || i >= ROWS - n then ROWS - 1 - i else i
  }

  predicate SwappedRows(k: seq<Word>, was: seq<Word>, n: nat) {
    && |k| == 8 * ROWS && |was| == 8 * ROWS && n <= 6
    && forall i, j :: 0 <= i < ROWS && 0 <= j < 8 ==> At(k, i, j) == At(was, Origin(i, n), j)
  }

  /** Two entries change places, and no other. */
  function Swapped(k: seq<Word>, p: nat, q: nat): (r: seq<Word>)
    requires p < q < |k|
    ensures |r| == |k|
  {
    k[p := k[q]][q := k[p]]
  }

  method SwapEntries(k: array<Word>, p: nat, q: nat)
    requires p < q < k.Length
    modifies k
    ensures k[..] == Swapped(old(k[..]), p, q)
  {
    k[p], k[q] := k[q], k[p];
  }

  /**
   The place an entry comes from when columns below n, of both kinds of keys, of the rows at p and q have changed
   places.
   */
  function ColumnOrigin(x: nat, p: nat, q: nat, n: nat): (r: nat)
    requires p + 8 <= q && n <= 4
    ensures x < q + 8 ==> r < q + 8
    ensures x >= q + 8 ==> r == x
  {
    if p <= x < p + n || p + 4 <= x < p + 4 + n then x + (q - p)
    else if q <= x < q + n || q + 4 <= x < q + 4 + n then x - (q - p)
    else x
  }

  predicate SwappedColumns(k: seq<Word>, was: seq<Word>, p: nat, q: nat, n: nat) {
    && |k| == |was| && p + 8 <= q && q + 8 <= |k| && n <= 4
    && forall x :: 0 <= x < |k| ==> k[x] == was[ColumnOrigin(x, p, q, n)]
  }

  lemma NextColumn(k: seq<Word>, was: seq<Word>, p: nat, q: nat, n: nat)
    requires SwappedColumns(k, was, p, q, n) && n < 4
    ensures SwappedColumns(Swapped(Swapped(k, p + n, q + n), p + n + 4, q + n + 4), was, p, q, n + 1)
  {
    var k2 := Swapped(Swapped(k, p + n, q + n), p + n + 4, q + n + 4);
    forall x | 0 <= x < |k| ensures k2[x] == was[ColumnOrigin(x, p, q, n + 1)] {
      var y: nat :=
        if x == p + n || x == p + n + 4 then x + (q - p)
        else if x == q + n || x == q + n + 4 then x - (q - p)
        else x;
      TwoSwaps(k, p + n, q + n, x);
      assert k[y] == was[ColumnOrigin(y, p, q, n)];
      assert ColumnOrigin(y, p, q, n) == ColumnOrigin(x, p, q, n + 1);
    }
  }

  lemma TwoSwaps(k: seq<Word>, a: nat, b: nat, x: nat)
    requires a + 8 <= b && b + 4 < |k| && x < |k|
    ensures Swapped(Swapped(k, a, b), a + 4, b + 4)[x] ==
            k[if x == a || x == a + 4 then x + (b - a) else if x == b || x == b + 4 then x - (b - a) else x]
  {
  }

  /** The inner loop: rotation and masking keys of two rows, a column of each at a time. */
  method SwapRows(k: array<Word>, j: nat)
    requires k.Length == 8 * ROWS && j < 6
    modifies k
    ensures SwappedColumns(k[..], old(k[..]), 8 * j, 8 * (11 - j), 4)
  {
    hide SwappedColumns, Swapped;
    NoColumns(k[..], 8 * j, 8 * (11 - j));
    for i := 0 to 4
      invariant SwappedColumns(k[..], old(k[..]), 8 * j, 8 * (11 - j), i)
    {
      var i1, i2 := 8 * j + i, 8 * (11 - j) + i;
      Columns(k[..], old(k[..]), 8 * j, 8 * (11 - j), i);
      NextColumn(k[..], old(k[..]), 8 * j, 8 * (11 - j), i);
      SwapEntries(k, i1, i2);
      SwapEntries(k, i1 + 4, i2 + 4);
    }
  }

  lemma Columns(k: seq<Word>, was: seq<Word>, p: nat, q: nat, n: nat)
    requires SwappedColumns(k, was, p, q, n)
    ensures |k| == |was| && p + 8 <= q && q + 8 <= |k| && n <= 4
  {
  }

  lemma NoColumns(k: seq<Word>, p: nat, q: nat)
    requires p + 8 <= q && q + 8 <= |k|
    ensures SwappedColumns(k, k, p, q, 0)
  {
  }

  lemma NextRows(k: seq<Word>, k': seq<Word>, was: seq<Word>, n: nat)
    requires SwappedRows(k, was, n) && n < 6 && SwappedColumns(k', k, 8 * n, 8 * (11 - n), 4)
    ensures SwappedRows(k', was, n + 1)
  {
    forall i, j | 0 <= i < ROWS && 0 <= j < 8
      ensures At(k', i, j) == At(was, Origin(i, n + 1), j)
    {
      RowMoved(k, k', n, i, j);
      var m: nat := if i == n then 11 - n else if i == 11 - n then n else i;
      assert At(k, m, j) == At(was, Origin(m, n), j);
      assert Origin(m, n) == Origin(i, n + 1);
    }
  }

  lemma RowMoved(k: seq<Word>, k': seq<Word>, n: nat, i: nat, j: nat)
    requires |k| == 8 * ROWS && n < 6 && SwappedColumns(k', k, 8 * n, 8 * (11 - n), 4) && i < ROWS && j < 8
    ensures At(k', i, j) == At(k, if i == n then 11 - n else if i == 11 - n then n else i, j)
  {
    assert k'[8 * i + j] == k[ColumnOrigin(8 * i + j, 8 * n, 8 * (11 - n), 4)];
  }

  /** For decryption the rows change places in pairs, until their order is reversed. */
  method UncheckedSetKey(f: RoundFunctions, t: Constants, key: seq<Word>, forward: bool) returns (k: array<Word>)
    requires |key| == 8
    ensures fresh(k) && k.Length == 8 * ROWS
    ensures forward ==> k[..] == RowsOf(f, t, key, ROWS)
    ensures !forward ==> RowsReversed(RowsOf(f, t, key, ROWS), k[..])
  {
    hide RowsOf, SwappedColumns, RowsReversed, SwappedRows;
    k := new Word[8 * ROWS](_ => Word(0, 0, 0, 0));
    FillRows(k, f, t, key);
    ghost var was := k[..];
    if !forward {
      NoRows(was);
      for j := 0 to 6
        invariant SwappedRows(k[..], was, j)
      {
        ghost var before := k[..];
        SwapRows(k, j);
        NextRows(before, k[..], was, j);
      }
      AllRows(k[..], was);
    }
  }

  lemma NoRows(k: seq<Word>)
    requires |k| == 8 * ROWS
    ensures SwappedRows(k, k, 0)
  {
  }

  lemma AllRows(k: seq<Word>, was: seq<Word>)
    requires SwappedRows(k, was, 6)
    ensures RowsReversed(was, k)
  {
  }

  /** Under every key, the decryption object undoes the encryption object on every block. */
  method EncryptThenDecrypt(f: RoundFunctions, t: Constants, key: seq<Word>, input: Quad) returns (output: Quad)
    requires |key| == 8
    ensures output == input
  {
    hide RowsOf, RowsReversed, Step;
    var e := UncheckedSetKey(f, t, key, true);
    var d := UncheckedSetKey(f, t, key, false);
    var c := ProcessBlock(f, e[..], input);
    output := ProcessBlock(f, d[..], c);
    RunBack(f, e[..], d[..], input, ROWS);
  }
}
