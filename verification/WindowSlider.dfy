/** Signed sliding-window recoding of an exponent (struct WindowSlider of algebra.cpp). */
module Window {
  import opened PowersOfTwo

  /** One window: the bit position it starts at and its signed value. */
  datatype Digit = Digit(position: nat, value: int)

  // ---------- What the recoding should be, independently of the mutable slider ----------

  /** The digit taken when the low bit of e is set. */
  function LowDigit(e: nat, w: nat, fast: bool): int {
    if fast && Bit(e, w) == 1 then Low(e, w) - Pow2(w) else Low(e, w)
  }

  /** What is left above the window once the digit has been taken out of e. */
  function Rest(e: nat, w: nat, fast: bool): nat {
    if fast && Bit(e, w) == 1 then Shr(e, w) + 1 else Shr(e, w)
  }

  lemma RestShrinks(e: nat, w: nat, fast: bool)
    requires e % 2 == 1 && w >= 1
    ensures Rest(e, w, fast) < e
    ensures Rest(e, w, fast) > 0 ==> Rest(e, w, fast) + w <= e
  {
    var h := Shr(e, w);
    ShrLow(e, w);
    Pow2AboveLinear(w);
    LowBitOfMod(e, w);
    if h > 0 {
      MulMonotone(w + 1, Pow2(w), h);
      MulDistributes(w, 1, h);
      MulMonotone(1, h, w);
    }
  }

  lemma {:induction false} Pow2AboveLinear(w: nat)
    ensures w + 1 <= Pow2(w)
  {
    if w > 0 {
      Pow2AboveLinear(w - 1);
    }
  }

  /** Reducing modulo a positive power of two keeps the low bit. */
  lemma LowBitOfMod(e: nat, w: nat)
    requires w >= 1
    ensures Low(e, w) % 2 == e % 2 && Low(e, w) < Pow2(w) && Pow2(w) % 2 == 0
  {
    var half := Pow2(w - 1);
    assert Pow2(w) == 2 * half && Low(e, w) == e % (2 * half);
    hide Pow2, Low;
    ShrLow(e, w);
    ModEvenParity(e, half);
  }

  /** The windows of e, whose low bit sits at position p: zero bits are skipped, then a digit is taken. */
  function Recode(e: nat, p: nat, w: nat, fast: bool): seq<Digit>
    requires w >= 1
    decreases e
  {
    if e == 0 then []
    else if e % 2 == 0 then Recode(e / 2, p + 1, w, fast)
    else
      RestShrinks(e, w, fast);
      [Digit(p, LowDigit(e, w, fast))] + Recode(Rest(e, w, fast), p + w, w, fast)
  }

  /** The number a list of windows stands for. */
  function DigitSum(ds: seq<Digit>): int {
    if ds == [] then 0 else ds[0].value * Pow2(ds[0].position) + DigitSum(ds[1..])
  }

  lemma LowDigitExact(e: nat, w: nat, fast: bool)
    ensures e == LowDigit(e, w, fast) + Rest(e, w, fast) * Pow2(w)
  {
    ShrLow(e, w);
    MulDistributes(Shr(e, w), 1, Pow2(w));
  }

  /** Recoding is exact: the signed windows add up to the exponent. */
  lemma {:induction false} RecodeExact(e: nat, p: nat, w: nat, fast: bool)
    requires w >= 1
    ensures DigitSum(Recode(e, p, w, fast)) == e * Pow2(p)
    decreases e
  {
    if e > 0 && e % 2 == 0 {
      RecodeExact(e / 2, p + 1, w, fast);
      MulAssoc(e / 2, 2, Pow2(p));
    } else if e > 0 {
      RestShrinks(e, w, fast);
      var d, r := LowDigit(e, w, fast), Rest(e, w, fast);
      RecodeExact(r, p + w, w, fast);
      LowDigitExact(e, w, fast);
      Pow2Add(w, p);
      MulAssoc(r, Pow2(w), Pow2(p));
      MulDistributes(d, r * Pow2(w), Pow2(p));
    }
  }

  /** A digit of a recoding: odd, smaller than the window, negative only where negation is fast. */
  predicate GoodDigit(d: Digit, w: nat, fast: bool) {
    d.value % 2 == 1 && 0 - Pow2(w) < d.value < Pow2(w) && (fast || d.value > 0)
  }

  /** The distance consecutive windows keep: one more than the window where negation is fast. */
  function Gap(w: nat, fast: bool): nat {
    if fast then w + 1 else w
  }

  /** Good digits only, the first at p or later, consecutive ones at least a gap apart. */
  predicate WellSpaced(ds: seq<Digit>, p: nat, w: nat, fast: bool) {
    ds == [] ||
    (&& GoodDigit(ds[0], w, fast)
     && ds[0].position >= p
     && WellSpaced(ds[1..], ds[0].position + Gap(w, fast), w, fast))
  }

  lemma LowDigitGood(e: nat, p: nat, w: nat, fast: bool)
    requires w >= 1 && e % 2 == 1
    ensures GoodDigit(Digit(p, LowDigit(e, w, fast)), w, fast)
    ensures fast ==> Rest(e, w, fast) % 2 == 0
  {
    LowBitOfMod(e, w);
    ShrLow(e, w);
    ParityOfSum(Pow2(w - 1), Low(e, w) - Pow2(w), Low(e, w));
  }

  /** Every window is good and consecutive windows never overlap. */
  lemma {:induction false} RecodeWellSpaced(e: nat, p: nat, w: nat, fast: bool)
    requires w >= 1
    ensures WellSpaced(Recode(e, p, w, fast), p, w, fast)
    decreases e
  {
    if e > 0 && e % 2 == 0 {
      RecodeWellSpaced(e / 2, p + 1, w, fast);
    } else if e > 0 {
      RestShrinks(e, w, fast);
      LowDigitGood(e, p, w, fast);
      var r := Rest(e, w, fast);
      if fast && r > 0 {
        RecodeWellSpaced(r / 2, p + w + 1, w, fast);
      } else {
        RecodeWellSpaced(r, p + w, w, fast);
      }
    }
  }

  lemma {:induction false} OnlyZeroHasNoWindows(e: nat, p: nat, w: nat, fast: bool)
    requires w >= 1
    ensures Recode(e, p, w, fast) == [] <==> e == 0
  {
    if e > 0 && e % 2 == 0 {
      OnlyZeroHasNoWindows(e / 2, p + 1, w, fast);
    }
  }

  /** Positions stay within a bound fixed by the exponent, so scanning upwards ends. */
  lemma {:induction false} RecodeBounded(e: nat, p: nat, w: nat, fast: bool)
    requires w >= 1
    ensures forall d :: d in Recode(e, p, w, fast) ==> d.position <= p + e
    decreases e
  {
    if e > 0 && e % 2 == 0 {
      RecodeBounded(e / 2, p + 1, w, fast);
    } else if e > 0 {
      RestShrinks(e, w, fast);
      RecodeBounded(Rest(e, w, fast), p + w, w, fast);
    }
  }

  /** Skipping a zero bit loses no window. */
  lemma SkipZero(e: nat, skip: nat, p: nat, w: nat, fast: bool)
    requires w >= 1 && Bit(e, skip) == 0
    ensures Recode(Shr(e, skip), p, w, fast) == Recode(Shr(e, skip + 1), p + 1, w, fast)
  {
    ShrStep(e, skip);
  }

  lemma TakeDigit(e: nat, p: nat, w: nat, fast: bool)
    requires w >= 1 && e % 2 == 1
    ensures Recode(e, p, w, fast) == [Digit(p, LowDigit(e, w, fast))] + Recode(Rest(e, w, fast), p + w, w, fast)
  {
    RestShrinks(e, w, fast);
  }

  lemma ShrCarry(e: nat, w: nat)
    ensures Shr(e + Pow2(w), w) == Shr(e, w) + 1
  {
    ShrLow(e, w);
    MulDistributes(Shr(e, w), 1, Pow2(w));
    DivModUnique(e + Pow2(w), Pow2(w), Shr(e, w) + 1, Low(e, w));
  }

  // ---------- The mutable slider ----------

  const WORD_BITS := 64

  /** Integer::WordCount. */
  function WordCount(e: nat): (n: nat)
    ensures BitCount(e) <= n * WORD_BITS < BitCount(e) + WORD_BITS
  {
    (BitCount(e) + WORD_BITS - 1) / WORD_BITS
  }

  function Signed(negate: bool, n: nat): int {
    if negate then 0 - n else n
  }

  /** How many of the limits are below n. */
  function Passed(n: nat, limits: seq<nat>): (r: nat)
    ensures r <= |limits|
  {
    if limits == [] then 0 else Passed(n, limits[1..]) + if n > limits[0] then 1 else 0
  }

  /** The window width chosen when the caller passes 0: one more for every limit that the exponent's length passes. */
  function DefaultWindowSize(expLen: nat): (w: nat)
    ensures 1 <= w <= 7
  {
    1 + Passed(expLen, [17, 24, 70, 197, 539, 1434])
  }

  lemma WidthIs(n: nat, w: nat)
    requires w == if n <= 17 then 1 else if n <= 24 then 2 else if n <= 70 then 3
                  else if n <= 197 then 4 else if n <= 539 then 5 else if n <= 1434 then 6 else 7
    ensures w == DefaultWindowSize(n)
  {
    assert [17, 24, 70, 197, 539, 1434][1..] == [24, 70, 197, 539, 1434];
    assert [24, 70, 197, 539, 1434][1..] == [70, 197, 539, 1434] && [70, 197, 539, 1434][1..] == [197, 539, 1434];
    assert [197, 539, 1434][1..] == [539, 1434] && [539, 1434][1..] == [1434] && [1434][1..] == [];
    assert Passed(n, [1434]) == Passed(n, []) + if n > 1434 then 1 else 0;
    assert Passed(n, [539, 1434]) == Passed(n, [1434]) + if n > 539 then 1 else 0;
    assert Passed(n, [197, 539, 1434]) == Passed(n, [539, 1434]) + if n > 197 then 1 else 0;
    assert Passed(n, [70, 197, 539, 1434]) == Passed(n, [197, 539, 1434]) + if n > 70 then 1 else 0;
    assert Passed(n, [24, 70, 197, 539, 1434]) == Passed(n, [70, 197, 539, 1434]) + if n > 24 then 1 else 0;
  }

  class WindowSlider {
    var exp: nat
    var windowModulus: nat
    var windowSize: nat
    var windowBegin: nat
    var expWindow: nat
    var fastNegate: bool
    var negateNext: bool
    var firstTime: bool
    var finished: bool

    constructor (expIn: nat, fast: bool, windowSizeIn: nat)
      ensures Valid() && !finished && firstTime && fastNegate == fast
      ensures windowSizeIn > 0 ==> windowSize == windowSizeIn
      ensures windowSizeIn == 0 ==> windowSize == DefaultWindowSize(BitCount(expIn))
      ensures Pending() == Recode(expIn, 0, windowSize, fast)
    {
      exp := expIn;
      windowBegin, expWindow := 0, 0;
      fastNegate, negateNext, firstTime, finished := fast, false, true, false;
      var size := windowSizeIn;
      if size == 0 {
        var expLen := BitCount(expIn);
        size := if expLen <= 17 then 1 else if expLen <= 24 then 2 else if expLen <= 70 then 3
                else if expLen <= 197 then 4 else if expLen <= 539 then 5 else if expLen <= 1434 then 6 else 7;
        WidthIs(expLen, size);
      }
      windowSize := size;
      windowModulus := Pow2(size);
    }

    ghost predicate Valid()
      reads this
    {
      && windowSize >= 1
      && windowModulus == Pow2(windowSize)
      && (finished ==> !firstTime && Pending() == [])
    }

    /** The windows FindNextWindow has yet to find. */
    ghost function Pending(): seq<Digit>
      reads this
      requires windowSize >= 1
    {
      if firstTime then Recode(exp, windowBegin, windowSize, fastNegate)
      else Recode(Shr(exp, windowSize), windowBegin + windowSize, windowSize, fastNegate)
    }

    /** The window last found. */
    ghost function Current(): Digit
      reads this
    {
      Digit(windowBegin, Signed(negateNext, expWindow))
    }

    /** The window last found and those still to come. */
    ghost function Upcoming(): seq<Digit>
      reads this
      requires windowSize >= 1
    {
      if finished then [] else [Current()] + Pending()
    }

    /** Each call moves exactly one window from Pending to Current, or reports that none is left. */
    method FindNextWindow()
      requires Valid()
      modifies this
      ensures Valid() && !firstTime
      ensures windowSize == old(windowSize) && fastNegate == old(fastNegate)
      ensures old(Pending()) == Upcoming()
    {
      hide Recode, Shr, Low, Pow2;
      var expLen := WordCount(exp) * WORD_BITS;
      var skipCount, found := SkipZeros(exp, expLen, if firstTime then 0 else windowSize,
                                        windowBegin, windowSize, fastNegate);
      ShrZero(exp);
      if found {
        TakeWindow(skipCount);
      } else {
        BitCountTop(0, windowSize);
        OnlyZeroHasNoWindows(0, windowBegin, windowSize, fastNegate);
        OnlyZeroHasNoWindows(0, windowBegin + windowSize, windowSize, fastNegate);
        firstTime, finished := false, true;
      }
    }

    /** The second half of FindNextWindow: the window starting at a set bit becomes the current one. */
    method TakeWindow(skipCount: nat)
      requires windowSize >= 1 && windowModulus == Pow2(windowSize) && Bit(exp, skipCount) == 1
      modifies `exp, `windowBegin, `expWindow, `negateNext, `firstTime
      ensures !firstTime
      ensures [Current()] + Pending() ==
              Recode(Shr(old(exp), skipCount), old(windowBegin) + skipCount, windowSize, fastNegate)
    {
      hide Recode, Shr, Low, Pow2;
      firstTime := false;
      exp := Shr(exp, skipCount);
      TakeDigit(exp, windowBegin + skipCount, windowSize, fastNegate);
      windowBegin := windowBegin + skipCount;
      expWindow := Low(exp, windowSize);
      negateNext := fastNegate && Bit(exp, windowSize) == 1;
      if negateNext {
        expWindow := Pow2(windowSize) - expWindow;
        ShrCarry(exp, windowSize);
        exp := exp + windowModulus;
      }
    }
  }

  /** The inner scan of FindNextWindow: the first set bit of e at position start or above, if there is one. */
  method SkipZeros(e: nat, expLen: nat, start: nat, ghost p: nat, ghost w: nat, ghost fast: bool)
    returns (skipCount: nat, found: bool)
    requires BitCount(e) <= expLen && w >= 1
    ensures found ==> Bit(e, skipCount) == 1
    ensures found ==> Recode(Shr(e, start), p + start, w, fast) == Recode(Shr(e, skipCount), p + skipCount, w, fast)
    ensures !found ==> Shr(e, start) == 0
  {
    skipCount := start;
    while Bit(e, skipCount) == 0
      invariant Recode(Shr(e, start), p + start, w, fast) == Recode(Shr(e, skipCount), p + skipCount, w, fast)
      decreases expLen - skipCount
    {
      if skipCount >= expLen {
        BitCountTop(e, skipCount);
        OnlyZeroHasNoWindows(Shr(e, start), p + start, w, fast);
        return skipCount, false;
      }
      SkipZero(e, skipCount, p + skipCount, w, fast);
      skipCount := skipCount + 1;
    }
    found := true;
  }
}
