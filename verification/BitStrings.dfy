/** Bit strings, most significant bit first, and the numbers they spell. */
module BitStrings {
  import opened Shifts

  type Bits = seq<bool>

  function ToBits(v: nat, n: nat): (b: Bits)
    ensures |b| == n
    decreases n
  {
    if n == 0 then [] else ToBits(v / 2, n - 1) + [v % 2 == 1]
  }

  function FromBits(b: Bits): nat {
    if b == [] then 0 else 2 * FromBits(b[..|b| - 1]) + if b[|b| - 1] then 1 else 0
  }

  function Ones(n: nat): (b: Bits)
    ensures |b| == n && forall i :: 0 <= i < n ==> b[i]
  {
    seq(n, _ => true)
  }

  lemma FromBitsSnoc(b: Bits, x: bool)
    ensures FromBits(b + [x]) == 2 * FromBits(b) + if x then 1 else 0
  {
    assert (b + [x])[..|b|] == b;
  }

  lemma {:induction false} FromBitsBelow(b: Bits)
    ensures FromBits(b) < Pow2(|b|)
  {
    if b != [] {
      FromBitsBelow(b[..|b| - 1]);
      Pow2Next(|b| - 1);
    } else {
      Pow2Small();
    }
  }

  lemma {:induction false} FromToBits(v: nat, n: nat)
    requires v < Pow2(n)
    ensures FromBits(ToBits(v, n)) == v
  {
    hide ToBits, FromBits, Shl;
    ToBitsAt(v, n);
    if n == 0 {
      Pow2Small();
      FromNothing();
    } else {
      Pow2Next(n - 1);
      FromToBits(v / 2, n - 1);
      FromBitsSnoc(ToBits(v / 2, n - 1), v % 2 == 1);
    }
  }

  lemma ToBitsAt(v: nat, n: nat)
    ensures ToBits(v, n) == if n == 0 then [] else ToBits(v / 2, n - 1) + [v % 2 == 1]
  {
  }

  lemma FromNothing()
    ensures FromBits([]) == 0
  {
  }

  lemma {:induction false} ToFromBits(b: Bits)
    ensures ToBits(FromBits(b), |b|) == b
  {
    if b != [] {
      ToFromBits(b[..|b| - 1]);
    }
  }

  lemma {:induction false} FromBitsAppend(a: Bits, b: Bits)
    ensures FromBits(a + b) == Shl(FromBits(a), |b|) + FromBits(b)
  {
    if b == [] {
      assert a + b == a;
    } else {
      var n := |b| - 1;
      FromBitsAppend(a, b[..n]);
      assert a + b == a + b[..n] + [b[n]];
      FromBitsSnoc(a + b[..n], b[n]);
    }
  }

  lemma {:induction false} FromOnes(n: nat)
    ensures FromBits(Ones(n)) + 1 == Pow2(n)
  {
    if n == 0 {
      Pow2Small();
    } else {
      FromOnes(n - 1);
      assert Ones(n) == Ones(n - 1) + [true];
      FromBitsSnoc(Ones(n - 1), true);
      Pow2Next(n - 1);
    }
  }
}
