/** Machine-word operations on naturals, described by the bits they leave. */
module WordArithmetic {
  import opened Shifts
  import opened BitStrings

  function Zeros(n: nat): (b: Bits)
    ensures |b| == n && forall i :: 0 <= i < n ==> !b[i]
  {
    seq(n, _ => false)
  }

  /** Right shift. */
  function Shr(v: nat, k: nat): nat
    decreases k
  {
    if k == 0 then v else Shr(v, k - 1) / 2
  }

  /** Bitwise or. */
  function Or(x: nat, y: nat): nat {
    if x == 0 && y == 0 then 0
    else 2 * Or(x / 2, y / 2) + if x % 2 == 1 || y % 2 == 1 then 1 else 0
  }

  /** The low n bits: truncation to n bits, or masking with 2^n - 1. */
  function Wrap(v: nat, n: nat): nat {
    FromBits(ToBits(v, n))
  }

  /** The low n bits of a number that may be negative (two's complement). */
  function Masked(v: int, n: nat): (r: nat)
    ensures r < Pow2(n)
  {
    FromBitsBelow(ToBits(if v < 0 then -v - 1 else v, n));
    if v < 0 then Pow2(n) - 1 - Wrap(-v - 1, n) else Wrap(v, n)
  }

  lemma MaskedValue(v: int, n: nat)
    requires -(Pow2(n) as int) <= v < Pow2(n)
    ensures Masked(v, n) == if v < 0 then v + Pow2(n) else v
  {
    FromToBits(if v < 0 then -v - 1 else v, n);
  }

  lemma {:induction false} ShrHalf(v: nat, k: nat)
    ensures Shr(v / 2, k) == Shr(v, k) / 2
  {
    if k > 0 {
      ShrHalf(v, k - 1);
    }
  }

  /** High bits, then low bits. */
  lemma {:induction false} ToBitsSplit(v: nat, a: nat, b: nat)
    ensures ToBits(v, a + b) == ToBits(Shr(v, b), a) + ToBits(v, b)
  {
    if b == 0 {
      assert ToBits(v, 0) == [];
    } else {
      ToBitsSplit(v / 2, a, b - 1);
      ShrHalf(v, b - 1);
    }
  }

  lemma {:induction false} ToBitsShl(v: nat, n: nat, k: nat)
    ensures ToBits(Shl(v, k), n + k) == ToBits(v, n) + Zeros(k)
  {
    if k == 0 {
    } else {
      ToBitsShl(v, n, k - 1);
      assert Shl(v, k) / 2 == Shl(v, k - 1) && Shl(v, k) % 2 == 0;
      assert Zeros(k) == Zeros(k - 1) + [false];
    }
  }

  lemma {:induction false} ToBitsSmall(v: nat, n: nat, k: nat)
    requires v < Pow2(k)
    ensures ToBits(v, n + k) == Zeros(n) + ToBits(v, k)
  {
    if k == 0 {
      Pow2Small();
      ToBitsZero(n);
    } else {
      Pow2Next(k - 1);
      ToBitsSmall(v / 2, n, k - 1);
    }
  }

  lemma {:induction false} ToBitsZero(n: nat)
    ensures ToBits(0, n) == Zeros(n)
  {
    if n > 0 {
      ToBitsZero(n - 1);
    }
  }

  lemma {:induction false} ToBitsOr(x: nat, y: nat, n: nat)
    ensures forall i :: 0 <= i < n ==> ToBits(Or(x, y), n)[i] == (ToBits(x, n)[i] || ToBits(y, n)[i])
  {
    if n > 0 {
      var z := Or(x, y);
      assert z / 2 == Or(x / 2, y / 2) && (z % 2 == 1 <==> x % 2 == 1 || y % 2 == 1);
      ToBitsOr(x / 2, y / 2, n - 1);
    }
  }

  /** The last bits of a longer spelling are the shorter spelling. */
  lemma ToBitsTail(v: nat, n: nat, k: nat)
    requires k <= n
    ensures ToBits(v, n)[n - k..] == ToBits(v, k)
  {
    hide *;
    ToBitsSplit(v, n - k, k);
    assert n - k + k == n;
  }

  /** The low bits of a number are unaffected by truncation above them. */
  lemma WrapBits(v: nat, n: nat, k: nat)
    requires k <= n
    ensures ToBits(Wrap(v, n), k) == ToBits(v, k)
    ensures Wrap(v, n) < Pow2(n)
  {
    hide FromBits, Shr, Pow2, Shl;
    ToFromBits(ToBits(v, n));
    FromBitsBelow(ToBits(v, n));
    ToBitsTail(v, n, k);
    ToBitsTail(Wrap(v, n), n, k);
  }

  /** The complement within n bits flips every bit. */
  lemma {:induction false} ComplementBits(v: nat, n: nat, k: nat)
    requires k <= n && v < Pow2(n)
    ensures forall i :: 0 <= i < k ==> ToBits(Pow2(n) - 1 - v, k)[i] == !ToBits(v, k)[i]
  {
    if k > 0 {
      Pow2Next(n - 1);
      ComplementBits(v / 2, n - 1, k - 1);
      var c := Pow2(n) - 1 - v;
      assert c / 2 == Pow2(n - 1) - 1 - v / 2 && (c % 2 == 1 <==> v % 2 == 0);
    }
  }

  /** The low bits of a number do not depend on the word it is converted to. */
  lemma MaskedBits(v: int, n: nat, k: nat)
    requires k <= n
    ensures ToBits(Masked(v, n), k) == ToBits(Masked(v, k), k)
  {
    hide ToBits, Pow2, Wrap;
    var u := if v < 0 then -v - 1 else v;
    WrapBits(u, n, k);
    WrapBits(u, k, k);
    if v < 0 {
      ComplementBits(Wrap(u, n), n, k);
      ComplementBits(Wrap(u, k), k, k);
      var x, y := ToBits(Masked(v, n), k), ToBits(Masked(v, k), k);
      assert forall i :: 0 <= i < k ==> x[i] == !ToBits(u, k)[i] == y[i];
    }
  }

  /** Shift in a field from the right, in a word of w bits. */
  lemma ShiftIn(v: nat, n: nat, code: nat, size: nat, w: nat)
    requires n + size <= w && code < Pow2(size)
    ensures ToBits(Or(Wrap(Shl(v, size), w), code), n + size) == ToBits(v, n) + ToBits(code, size)
  {
    var s := Wrap(Shl(v, size), w);
    WrapBits(Shl(v, size), w, n + size);
    ToBitsShl(v, n, size);
    ToBitsSmall(code, n, size);
    ToBitsOr(s, code, n + size);
  }

  /** Shift in a field that does not fit: the oldest bits fall out of the word. */
  lemma ShiftInOver(v: nat, n: nat, code: nat, size: nat, w: nat)
    requires size <= w <= n + size && n <= w && code < Pow2(size)
    ensures ToBits(Or(Wrap(Shl(v, size), w), code), n + size)
         == Zeros(n + size - w) + ToBits(v, w - size) + ToBits(code, size)
  {
    var s := Wrap(Shl(v, size), w);
    var over := n + size - w;
    WrapBits(Shl(v, size), w, w);
    ToBitsSmall(s, over, w);
    ToBitsShl(v, w - size, size);
    ToBitsSmall(code, n, size);
    ToBitsOr(s, code, n + size);
  }

  /** Merging a field between zeros with what stands before it. */
  lemma MergeField(x: nat, y: nat, w: nat, before: Bits, field: Bits, gap: nat)
    requires |before| + |field| + gap == w
    requires ToBits(x, w) == Zeros(|before|) + field + Zeros(gap)
    requires ToBits(y, w) == before + Zeros(|field| + gap)
    ensures ToBits(Or(x, y), w) == before + field + Zeros(gap)
  {
    hide ToBits, Or;
    ToBitsOr(x, y, w);
    var z := ToBits(Or(x, y), w);
    forall i | 0 <= i < w ensures z[i] == (before + field + Zeros(gap))[i] {
      assert z[i] == (ToBits(x, w)[i] || ToBits(y, w)[i]);
    }
  }

  /** Shift in a field behind the pending bits, left-justified in a word of w bits. */
  lemma ShiftInLeft(buffer: nat, pending: Bits, code: nat, size: nat, w: nat)
    requires |pending| + size <= w
    requires ToBits(buffer, w) == pending + Zeros(w - |pending|)
    ensures var n := |pending| + size;
      ToBits(Or(Shl(Wrap(code, size), w - n), buffer), w) == pending + ToBits(code, size) + Zeros(w - n)
  {
    hide *;
    var n := |pending| + size;
    var c := Wrap(code, size);
    WrapBits(code, size, size);
    ToBitsShl(c, n, w - n);
    ToBitsSmall(c, |pending|, size);
    assert size + (w - n) == w - |pending| && n + (w - n) == w;
    MergeField(Shl(c, w - n), buffer, w, pending, ToBits(code, size), w - n);
  }
}
