/** The quantizer of jcdctmgr.c: rounded division by multiplication with a reciprocal, for DCT elements of w
    bits. */
module Quantizer {
  import opened Shifts
  import opened BitStrings
  import opened WordArithmetic
  import opened Coefficients
  import opened ReciprocalDivision

  /** Division rounded to the nearest integer, halves away from zero: what the quantizer is for. */
  function RoundedQuotient(t: int, d: nat): int
    requires d > 0
  {
    if t < 0 then -((-t + d / 2) / d) else (t + d / 2) / d
  }

  /** It is the number of the same sign whose multiple of d is no farther from t than d / 2, and of two such
      numbers the one farther from zero. */
  lemma NearestMultiple(t: int, d: nat, q: int)
    requires d > 0
    ensures q == RoundedQuotient(t, d) <==>
      && (t >= 0 ==> q >= 0) && (t <= 0 ==> q <= 0)
      && 2 * Times(d, Abs(q)) <= 2 * Abs(t) + d && 2 * Abs(t) < 2 * Times(d, Abs(q)) + d
  {
    hide Times;
    var x := Abs(t) + d / 2;
    Division(x, d);
    TimesAdd(Abs(q), 1, d);
    TimesOne(d);
    TimesCommutes(d, Abs(q));
    if Times(Abs(q), d) <= x < Times(Abs(q) + 1, d) {
      QuotientIs(x, d, Abs(q));
    }
    TimesZero(d);
    if t == 0 {
      QuotientIs(x, d, 0);
    }
  }

  /** A conversion to a signed type of w bits. */
  function ToSigned(v: int, w: nat): int
    requires w > 0
  {
    var u := Masked(v, w);
    if u >= Pow2(w - 1) then u - Pow2(w) else u
  }

  lemma SignedAndBack(v: nat, w: nat)
    requires w > 0 && v < Pow2(w)
    ensures Masked(ToSigned(v, w), w) == v
    ensures v < Pow2(w - 1) ==> ToSigned(v, w) == v
  {
    MaskedValue(v, w);
    MaskedValue(if v >= Pow2(w - 1) then v - Pow2(w) else v, w);
  }

  lemma SignedInRange(v: int, w: nat)
    requires w > 0 && -(Pow2(w - 1) as int) <= v < Pow2(w - 1)
    ensures ToSigned(v, w) == v
  {
    MaskedValue(v, w);
  }

  /** A quotient is no larger than the dividend, so that it fits 16 bits if the dividend does. */
  lemma QuotientFits(t: int, d: nat)
    requires d > 0 && -0x8000 <= t < 0x8000
    ensures Abs(RoundedQuotient(t, d)) <= Abs(t)
    ensures ToSigned(RoundedQuotient(t, d), 16) == RoundedQuotient(t, d)
  {
    hide ToSigned, Pow2, RoundedQuotient;
    QuotientIsSmaller(t, d);
    Pow2Values();
    SignedInRange(RoundedQuotient(t, d), 16);
  }

  lemma Pow2Values()
    ensures Pow2(15) == 0x8000
  {
    hide Shl;
    ShlValues(1);
    Pow2Next(15);
  }

  lemma QuotientIsSmaller(t: int, d: nat)
    requires d > 0
    ensures var q := RoundedQuotient(t, d); Abs(q) <= Abs(t) && (t >= 0 ==> q >= 0) && (t <= 0 ==> q <= 0)
  {
    hide Times, RoundedQuotient;
    var q := RoundedQuotient(t, d);
    NearestMultiple(t, d, q);
    if Abs(q) > Abs(t) {
      TimesAdd(d - 1, 1, Abs(q));
      TimesOne(Abs(q));
      TimesOrder(1, Abs(q), d - 1);
      TimesOne(d - 1);
    }
  }

  // ---------- the highest bit ----------

  lemma NBitsDouble(v: nat)
    requires v > 0
    ensures NBits(2 * v) == NBits(v) + 1
  {
    hide NBits, Shl, Pow2;
    var n := NBits(v);
    Pow2Next(n);
    Pow2Next(n - 1);
    NBitsAtMost(2 * v, n + 1);
    NBitsAtMost(2 * v, n);
  }

  lemma NBitsScaled(v: nat)
    requires v > 0
    ensures NBits(2 * v) == NBits(v) + 1 && NBits(4 * v) == NBits(v) + 2
    ensures NBits(0x10 * v) == NBits(v) + 4 && NBits(0x100 * v) == NBits(v) + 8
  {
    hide NBits, Shl, Pow2;
    NBitsDouble(v);
    NBitsDouble(2 * v);
    NBitsDouble(4 * v);
    NBitsDouble(8 * v);
    NBitsDouble(0x10 * v);
    NBitsDouble(0x20 * v);
    NBitsDouble(0x40 * v);
    NBitsDouble(0x80 * v);
  }

  /** Find the highest bit of a 16-bit number through binary search. */
  method Flss(val0: nat) returns (bit: nat)
    requires val0 < 0x1_0000
    ensures bit == NBits(val0)
  {
    hide NBits, Shl, Pow2;
    var val := val0;
    bit := 16;
    if val == 0 {
      ZeroBits();
      return 0;
    }
    if val < 0x100 {  // no bit of 0xff00 is set
      NBitsScaled(val);
      bit := bit - 8;
      val := 0x100 * val;
    }
    if val < 0x1000 {  // no bit of 0xf000 is set
      NBitsScaled(val);
      bit := bit - 4;
      val := 0x10 * val;
    }
    if val < 0x4000 {  // no bit of 0xc000 is set
      NBitsScaled(val);
      bit := bit - 2;
      val := 4 * val;
    }
    if val < 0x8000 {  // no bit of 0x8000 is set
      NBitsScaled(val);
      bit := bit - 1;
      val := 2 * val;
    }
    SixteenBits(val);
  }

  lemma ZeroBits()
    ensures NBits(0) == 0
  {
  }

  lemma SixteenBits(v: nat)
    requires 0x8000 <= v < 0x1_0000
    ensures NBits(v) == 16
  {
    hide NBits, Shl;
    ShlValues(1);
    Pow2Next(15);
    NBitsAtMost(v, 16);
    NBitsAtMost(v, 15);
  }

  // ---------- the reciprocal ----------

  /** Multiply and shift. */
  function MultiplyShift(t: nat, corr: nat, recip: nat, r: nat): nat {
    Shr(Times(t + corr, recip), r)
  }

  /** The reciprocal, the correction and the total shift stand for division by d: they fit words of w bits,
      the sums do not overflow w bits, and every quotient is exact. */
  ghost predicate StandsFor(d: nat, w: nat, recip: nat, corr: nat, r: nat)
    requires d > 0
  {
    && recip < Pow2(w) && corr < Pow2(w)
    && forall t: nat :: 2 * t < Pow2(w) ==>
         t + corr < Pow2(w) && MultiplyShift(t, corr, recip, r) == (t + d / 2) / d
  }

  /** An odd number that divides a power of two is 1. */
  lemma {:induction false} OddDivisor(f: nat, d: nat, k: nat)
    requires Times(f, d) == Pow2(k) && f % 2 == 1
    ensures f == 1
    decreases k
  {
    if k == 0 {
      Pow2Small();
      assert f * d == 1;
      if f > 1 {
        TimesOrder(2, f, d);
      }
    } else {
      Pow2Next(k - 1);
      OddTimes(f, d, Pow2(k - 1));
      OddDivisor(f, d / 2, k - 1);
    }
  }

  lemma OddTimes(f: nat, d: nat, p: nat)
    requires Times(f, d) == 2 * p && f % 2 == 1
    ensures Times(f, d / 2) == p
  {
    assert f == 2 * (f / 2) + 1;
    assert Times(f, d) == 2 * (f / 2 * d) + d;
    assert d == 2 * (d / 2);
    assert f * (2 * (d / 2)) == 2 * (f * (d / 2));
  }

  /** Divisor 1: the identity. */
  lemma StandsForOne(w: nat)
    requires w > 0
    ensures StandsFor(1, w, 1, 0, 0)
  {
    hide Shl;
    Pow2Next(w - 1);
    forall t: nat | 2 * t < Pow2(w) ensures MultiplyShift(t, 0, 1, 0) == (t + 1 / 2) / 1 {
      TimesOne(t);
    }
  }

  /** The sizes of things: the divisor has b + 1 bits, and w bits hold it. */
  ghost predicate Sized(d: nat, w: nat, b: nat) {
    b < w && Pow2(b) <= d < Pow2(b + 1)
  }

  /** Dividends with the rounding term fit w bits with room to spare. */
  lemma DividendFits(d: nat, w: nat, b: nat, t: nat)
    requires Sized(d, w, b) && 2 * t < Pow2(w)
    ensures t + d / 2 + 1 < Pow2(w) && d / 2 < Pow2(b) && Pow2(b) + Pow2(b) <= Pow2(w)
  {
    Pow2Next(b);
    Pow2Next(w - 1);
    Pow2Order(b, w - 1);
  }

  lemma {:induction false} Pow2Order(j: nat, k: nat)
    requires j <= k
    ensures Pow2(j) <= Pow2(k)
  {
    if j < k {
      Pow2Order(j, k - 1);
      Pow2Next(k - 1);
    }
  }

  /** An exact reciprocal has one bit too many; halved, it is still exact. */
  lemma StandsForExact(d: nat, w: nat, b: nat, f: nat)
    requires Sized(d, w, b) && Pow2(w + b) == Times(f, d) && w + b > 0
    ensures StandsFor(d, w, f / 2, d / 2, w + b - 1)
  {
    hide Times, Pow2, Shl, Shr;
    var p := Pow2(w + b);
    Pow2Next(w + b - 1);
    Pow2Sum(w, b);
    assert Pow2(w) * Pow2(b) == Times(Pow2(w), Pow2(b)) by { TimesIs(Pow2(w), Pow2(b)); }
    TimesOrder(Pow2(b), d, Pow2(w));
    TimesCommutes(Pow2(w), d);
    TimesOrder(f, Pow2(w), d);
    if f % 2 == 1 {
      OddDivisor(f, d, w + b);
      TimesOne(d);
      Pow2Next(b);
      Pow2Order(b + 1, w + b);
    }
    forall t: nat | 2 * t < Pow2(w)
      ensures t + d / 2 < Pow2(w) && MultiplyShift(t, d / 2, f / 2, w + b - 1) == (t + d / 2) / d
    {
      DividendFits(d, w, b, t);
      var n := t + d / 2;
      TimesZero(n);
      RoundedUp(p, d, f, 0, n);
      TimesAdd(f / 2, f / 2, n);
      ShrIsQuotient(Times(n, f / 2), w + b - 1);
      HalvedQuotient(Times(n, f / 2), Pow2(w + b - 1));
    }
    DividendFits(d, w, b, 0);
  }

  lemma HalvedQuotient(x: nat, p: nat)
    requires p > 0
    ensures (2 * x) / (2 * p) == x / p
  {
    hide Times;
    var q := x / p;
    Division(x, p);
    TimesAdd(p, p, q);
    TimesAdd(p, p, q + 1);
    TimesAdd(q, 1, p);
    TimesOne(p);
    TimesCommutes(q, 2 * p);
    TimesCommutes(q + 1, 2 * p);
    TimesCommutes(q, p);
    TimesCommutes(q + 1, p);
    QuotientIs(2 * x, 2 * p, q);
  }

  /** A remainder of at most half the divisor: round the reciprocal down, and correct the dividend. */
  lemma StandsForDown(d: nat, w: nat, b: nat, f: nat, e: nat)
    requires Sized(d, w, b) && Pow2(w + b) == Times(f, d) + e && 0 < e <= d / 2
    ensures StandsFor(d, w, f, d / 2 + 1, w + b)
  {
    hide Times, Pow2, Shl, Shr;
    Pow2Sum(w, b);
    assert Pow2(w + b) == Times(Pow2(w), Pow2(b)) by { TimesIs(Pow2(w), Pow2(b)); }
    TimesOrder(Pow2(b), d, Pow2(w));
    TimesOrder(f, Pow2(w), d);
    forall t: nat | 2 * t < Pow2(w)
      ensures t + (d / 2 + 1) < Pow2(w) && MultiplyShift(t, d / 2 + 1, f, w + b) == (t + d / 2) / d
    {
      DividendFits(d, w, b, t);
      var n := t + d / 2;
      TimesOrder(n + 1, Pow2(w), e);
      TimesOrder(e, Pow2(b), Pow2(w));
      RoundedDown(Pow2(w + b), d, f, e, n);
      ShrIsQuotient(Times(n + 1, f), w + b);
    }
    DividendFits(d, w, b, 0);
  }

  /** A divisor with a remainder is not a power of two, so its reciprocal fits even when rounded up. */
  lemma RoundedUpFits(d: nat, w: nat, b: nat, f: nat, e: nat)
    requires Sized(d, w, b) && Pow2(w + b) == Times(f, d) + e && d / 2 < e < d
    ensures f + 1 < Pow2(w)
  {
    hide Times, Pow2, Shl;
    DividendFits(d, w, b, 0);
    Pow2Sum(w, b);
    assert Pow2(w + b) == Times(Pow2(w), Pow2(b)) by { TimesIs(Pow2(w), Pow2(b)); }
    TimesAdd(f, 1, d);
    TimesOne(d);
    TimesCommutes(Pow2(w), Pow2(b));
    TimesCommutes(Pow2(w), d);
    TimesOrder(Pow2(b), d, Pow2(w));
    TimesOrder(Pow2(w), f + 1, d);
    TimesOrder(f, Pow2(w), d);
  }

  /** A larger remainder: round the reciprocal up. */
  lemma StandsForUp(d: nat, w: nat, b: nat, f: nat, e: nat)
    requires Sized(d, w, b) && Pow2(w + b) == Times(f, d) + e && d / 2 < e < d
    ensures StandsFor(d, w, f + 1, d / 2, w + b)
  {
    hide Times, Pow2, Shl, Shr;
    var e' := d - e;
    RoundedUpFits(d, w, b, f, e);
    Pow2Sum(w, b);
    assert Pow2(w + b) == Times(Pow2(w), Pow2(b)) by { TimesIs(Pow2(w), Pow2(b)); }
    DividendFits(d, w, b, 0);
    TimesAdd(f, 1, d);
    TimesOne(d);
    forall t: nat | 2 * t < Pow2(w)
      ensures t + d / 2 < Pow2(w) && MultiplyShift(t, d / 2, f + 1, w + b) == (t + d / 2) / d
    {
      DividendFits(d, w, b, t);
      var n := t + d / 2;
      TimesOrder(n, Pow2(w), e');
      TimesOrder(e', Pow2(b), Pow2(w));
      TimesCommutes(Pow2(w), Pow2(b));
      TimesCommutes(Pow2(w), e');
      RoundedUp(Pow2(w + b), d, f + 1, e', n);
      ShrIsQuotient(Times(n, f + 1), w + b);
    }
  }

  // ---------- the divisor table ----------

  /** What stands for division by `divisor`, stored as elements of w bits. */
  method ComputeReciprocal(divisor: nat, dtbl: array<int>, i: nat, w: nat) returns (simd: bool)
    requires 1 <= divisor < 0x1_0000 && (w == 16 || w == 32) && dtbl.Length == 256 && i < 64
    modifies dtbl
    ensures StoredFor(divisor, w, dtbl[i], dtbl[i + 64], dtbl[i + 192])
    ensures forall k :: 0 <= k < 256 && k % 64 != i ==> dtbl[k] == old(dtbl[k])
    ensures simd <==> dtbl[i + 192] + w > 16
  {
    hide NBits, Pow2, Shl, ToSigned, Times, StoredFor;
    if divisor == 1 {
      dtbl[i] := 1;
      dtbl[i + 64] := 0;
      dtbl[i + 128] := 1;
      dtbl[i + 192] := -(w as int);
      StandsForOne(w);
      OneIsStored(w);
      return false;
    }
    var recip, corr, r := Reciprocal(divisor, w);
    IsStored(divisor, w, recip, corr, r);
    dtbl[i] := ToSigned(recip, w);
    dtbl[i + 64] := ToSigned(corr, w);
    dtbl[i + 128] := 1;
    dtbl[i + 192] := r - w;
    simd := r > 16;
  }

  method Reciprocal(divisor: nat, w: nat) returns (fq: nat, c: nat, r: nat)
    requires 2 <= divisor < 0x1_0000 && (w == 16 || w == 32)
    ensures StandsFor(divisor, w, fq, c, r)
  {
    hide NBits, Pow2, Shl, Times, StandsFor;
    var flss := Flss(divisor);
    DivisorSize(divisor, w);
    var b := flss - 1;
    r := w + b;
    fq := Pow2(r) / divisor;
    var fr := Pow2(r) % divisor;
    Division(Pow2(r), divisor);
    c := divisor / 2;
    if fr == 0 {
      StandsForExact(divisor, w, b, fq);
      fq := fq / 2;
      r := r - 1;
    } else if fr <= divisor / 2 {
      StandsForDown(divisor, w, b, fq, fr);
      c := c + 1;
    } else {
      StandsForUp(divisor, w, b, fq, fr);
      fq := fq + 1;
    }
  }

  lemma DivisorSize(d: nat, w: nat)
    requires 2 <= d < 0x1_0000 && w >= 16
    ensures NBits(d) >= 2 && Sized(d, w, NBits(d) - 1)
  {
    hide Shl;
    NBitsAtMost(d, 16);
    NBitsAtMost(d, 1);
    ShlValues(1);
    Pow2Small();
  }

  /** The stored values, read as unsigned elements, stand for the divisor. */
  ghost predicate StoredFor(d: nat, w: nat, recip: int, corr: int, shift: int)
    requires d > 0
  {
    shift + w >= 0 && StandsFor(d, w, Masked(recip, w), Masked(corr, w), shift + w)
  }

  lemma IsStored(d: nat, w: nat, recip: nat, corr: nat, r: nat)
    requires d > 0 && w > 0 && StandsFor(d, w, recip, corr, r)
    ensures StoredFor(d, w, ToSigned(recip, w), ToSigned(corr, w), r - w)
  {
    hide Masked, ToSigned, MultiplyShift;
    SignedAndBack(recip, w);
    SignedAndBack(corr, w);
  }

  lemma OneIsStored(w: nat)
    requires w >= 2 && StandsFor(1, w, 1, 0, 0)
    ensures StoredFor(1, w, 1, 0, -(w as int))
  {
    hide StandsFor, Masked;
    Pow2Next(0);
    Pow2Order(1, w);
    MaskedValue(1, w);
    MaskedValue(0, w);
  }

  // ---------- quantization ----------

  /** A quotient is no larger than its dividend. */
  lemma QuotientShrinks(t: nat, d: nat)
    requires d > 0
    ensures (t + d / 2) / d <= t
  {
    hide Times;
    var q := (t + d / 2) / d;
    Division(t + d / 2, d);
    TimesOrder(t + 1, q, d);
    TimesAdd(t, 1, d);
    TimesOne(d);
    TimesOne(t);
    TimesOrder(1, d, t);
    TimesCommutes(t, d);
  }

  lemma WrapSmall(v: nat, n: nat)
    requires v < Pow2(n)
    ensures Wrap(v, n) == v
  {
    FromToBits(v, n);
  }

  /** One magnitude: the sum in 32 bits, the product in 2 * w bits, the result in w bits. */
  method Descale(temp: nat, recip: nat, corr: nat, shift: int, w: nat, ghost d: nat) returns (q: int)
    requires (w == 16 || w == 32) && d > 0 && 2 * temp < Pow2(w)
    requires shift + w >= 0 && StandsFor(d, w, recip, corr, shift + w)
    ensures q == (temp + d / 2) / d
  {
    hide Pow2, Shl, Shr, Times, Wrap;
    var sum := Wrap(temp + corr, 32);
    Pow2Order(w, 32);
    WrapSmall(temp + corr, 32);
    var product := Wrap(Times(sum, recip), 2 * w);
    ProductFits(sum, recip, w);
    WrapSmall(Times(sum, recip), 2 * w);
    var shifted := Shr(product, shift + w);
    assert shifted == MultiplyShift(temp, corr, recip, shift + w);
    q := ToSigned(shifted, w);
    QuotientShrinks(temp, d);
    Pow2Next(w - 1);
    SignedInRange(shifted, w);
  }

  lemma ProductFits(x: nat, y: nat, w: nat)
    requires x < Pow2(w) && y < Pow2(w)
    ensures Times(x, y) < Pow2(2 * w)
  {
    hide Times, Pow2;
    var p := Pow2(w);
    Pow2Sum(w, w);
    TimesIs(p, p);
    TimesOrder(x, p, y);
    TimesOrder(y, p, p);
    TimesCommutes(y, p);
    if y == 0 {
      TimesZero(x);
    }
  }

  /** Quantize a block.  Every coefficient is the rounded quotient by its divisor, as the plain form below
      computes it, as far as a 16-bit coefficient holds it. */
  method Quantize(coefBlock: array<int>, divisors: array<int>, workspace: array<int>, w: nat, ghost d: seq<nat>)
    requires (w == 16 || w == 32) && coefBlock.Length == workspace.Length == 64 && divisors.Length == 256
    requires coefBlock != divisors && coefBlock != workspace
    requires |d| == 64 && forall i :: 0 <= i < 64 ==>
      d[i] > 0 && StoredFor(d[i], w, divisors[i], divisors[i + 64], divisors[i + 192])
    requires forall i :: 0 <= i < 64 ==> 2 * Abs(workspace[i]) < Pow2(w)
    modifies coefBlock
    ensures forall i :: 0 <= i < 64 ==> coefBlock[i] == ToSigned(RoundedQuotient(workspace[i], d[i]), 16)
  {
    hide Pow2, StandsFor, Masked, ToSigned;
    var i := 0;
    while i < 64
      invariant 0 <= i <= 64
      invariant forall j :: 0 <= j < i ==> coefBlock[j] == ToSigned(RoundedQuotient(workspace[j], d[j]), 16)
    {
      var temp := workspace[i];
      var recip, corr, shift := Masked(divisors[i], w), Masked(divisors[i + 64], w), divisors[i + 192];
      if temp < 0 {
        temp := Descale(-temp, recip, corr, shift, w, d[i]);
        temp := -temp;
      } else {
        temp := Descale(temp, recip, corr, shift, w, d[i]);
      }
      coefBlock[i] := ToSigned(temp, 16);
      i := i + 1;
    }
  }

  /** The plain form, by division. */
  method QuantizePlain(coefBlock: array<int>, divisors: array<nat>, workspace: array<int>)
    requires coefBlock.Length == workspace.Length == divisors.Length == 64
    requires coefBlock != workspace && (coefBlock as object) != (divisors as object)
    requires forall i :: 0 <= i < 64 ==> divisors[i] > 0
    modifies coefBlock
    ensures forall i :: 0 <= i < 64 ==> coefBlock[i] == ToSigned(RoundedQuotient(workspace[i], divisors[i]), 16)
  {
    hide ToSigned;
    var i := 0;
    while i < 64
      invariant 0 <= i <= 64
      invariant forall j :: 0 <= j < i ==> coefBlock[j] == ToSigned(RoundedQuotient(workspace[j], divisors[j]), 16)
    {
      var qval := divisors[i];
      var temp := workspace[i];
      if temp < 0 {
        temp := -temp + qval / 2;
        if temp >= qval { temp := temp / qval; } else { SmallDividend(temp, qval); temp := 0; }
        temp := -temp;
      } else {
        temp := temp + qval / 2;
        if temp >= qval { temp := temp / qval; } else { SmallDividend(temp, qval); temp := 0; }
      }
      coefBlock[i] := ToSigned(temp, 16);
      i := i + 1;
    }
  }

  lemma SmallDividend(t: nat, d: nat)
    requires t < d
    ensures t / d == 0
  {
  }
}
