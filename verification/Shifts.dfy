/** Left shifts of unbounded naturals.  The definition doubles step by step, so that the facts below
    need no multiplication of two unknowns. */
module Shifts {

  function Shl(v: nat, k: nat): (r: nat)
    ensures v > 0 ==> r > 0
    decreases k
  {
    if k == 0 then v else 2 * Shl(v, k - 1)
  }

  function Pow2(k: nat): (p: nat)
    ensures p > 0
  {
    Shl(1, k)
  }

  lemma {:induction false} ShlAdd(x: nat, y: nat, k: nat)
    ensures Shl(x + y, k) == Shl(x, k) + Shl(y, k)
  {
    if k != 0 {
      ShlAdd(x, y, k - 1);
    }
  }

  lemma {:induction false} ShlShl(v: nat, j: nat, k: nat)
    ensures Shl(Shl(v, j), k) == Shl(v, j + k)
  {
    if k != 0 {
      ShlShl(v, j, k - 1);
    }
  }

  lemma {:induction false} ShlDouble(v: nat, k: nat)
    ensures Shl(2 * v, k) == Shl(v, k + 1)
  {
    if k != 0 {
      ShlDouble(v, k - 1);
    }
  }

  lemma ShlNone(v: nat)
    ensures Shl(v, 0) == v
  {
  }

  lemma {:induction false} ShlZero(k: nat)
    ensures Shl(0, k) == 0
  {
    if k > 0 {
      ShlZero(k - 1);
    }
  }

  lemma Pow2Small()
    ensures Pow2(0) == 1 && Pow2(1) == 2
  {
  }

  lemma Pow2Next(k: nat)
    ensures Pow2(k + 1) == 2 * Pow2(k)
  {
  }

  lemma {:induction false} ShlGrows(v: nat, k: nat)
    ensures v <= Shl(v, k)
  {
    if k != 0 {
      ShlGrows(v, k - 1);
    }
  }

  lemma {:induction false} ShlOrder(x: nat, y: nat, k: nat)
    ensures x < y <==> Shl(x, k) < Shl(y, k)
    ensures x <= y <==> Shl(x, k) <= Shl(y, k)
  {
    if k != 0 {
      ShlOrder(x, y, k - 1);
    }
  }

  lemma Pow2Byte()
    ensures Pow2(7) == 128 && Pow2(8) == 256
  {
    ShlByte(1);
  }

  lemma ShlByte(v: nat)
    ensures Shl(v, 3) == 8 * v && Shl(v, 5) == 0x20 * v && Shl(v, 8) == 0x100 * v
  {
  }

  lemma ShlValues(v: nat)
    ensures Shl(v, 5) == 0x20 * v && Shl(v, 8) == 0x100 * v && Shl(v, 11) == 0x800 * v
    ensures Shl(v, 16) == 0x1_0000 * v && Shl(v, 19) == 0x8_0000 * v && Shl(v, 27) == 0x800_0000 * v
  {
    hide Shl;
    ShlByte(v);
    ShlShl(v, 8, 3);
    ShlByte(Shl(v, 8));
    ShlShl(v, 8, 8);
    ShlShl(v, 16, 3);
    ShlByte(Shl(v, 16));
    ShlShl(v, 19, 8);
    ShlByte(Shl(v, 19));
  }
}
