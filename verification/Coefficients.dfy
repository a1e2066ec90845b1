/** Coefficient magnitudes, their additional bits, and the zigzag order
    (sections F.1.2 and F.2.2 of ITU-T T.81). */
module Coefficients {
  import opened Shifts
  import opened WordArithmetic

  function Abs(v: int): nat { if v < 0 then -v else v }

  /** The number of bits of a magnitude. */
  function NBits(v: nat): (n: nat)
    ensures v < Pow2(n)
    ensures n > 0 ==> Pow2(n - 1) <= v
    ensures n == 0 <==> v == 0
  {
    if v == 0 then 0 else 1 + NBits(v / 2)
  }

  lemma {:induction false} NBitsAtMost(v: nat, n: nat)
    ensures NBits(v) <= n <==> v < Pow2(n)
    decreases n
  {
    if n > 0 {
      NBitsAtMost(v / 2, n - 1);
    }
  }

  /** What follows the category: a positive coefficient as it is, and of a negative one the magnitude with all
      bits inverted. */
  function ExtraBits(v: int): (r: nat)
    ensures r < Pow2(NBits(Abs(v)))
  {
    Masked(if v < 0 then v - 1 else v, NBits(Abs(v)))
  }

  /** Table F.1 of ITU-T T.81: n bits are the fewest that hold the magnitude; and x is the value itself if it is
      positive, and otherwise counts up from the least value of the category. */
  ghost predicate InCategory(v: int, n: nat, x: nat) {
    if v == 0 then n == 0 && x == 0
    else n > 0 && Pow2(n - 1) <= Abs(v) < Pow2(n) && x == if v > 0 then v else v + Pow2(n) - 1
  }

  /** The number of bits and the additional bits are those of the table. */
  lemma CategoryOf(v: int, n: nat, x: nat)
    ensures InCategory(v, n, x) <==> n == NBits(Abs(v)) && x == ExtraBits(v)
  {
    hide NBits, Pow2, ExtraBits;
    ExtraBitsAre(v);
    Pow2Small();
    if InCategory(v, n, x) && v != 0 {
      NBitsAtMost(Abs(v), n);
      NBitsAtMost(Abs(v), n - 1);
    }
  }

  lemma ExtraBitsAre(v: int)
    ensures ExtraBits(v) == if v > 0 then v else v + Pow2(NBits(Abs(v))) - 1
  {
    hide NBits, Pow2, Masked;
    MaskedValue(if v < 0 then v - 1 else v, NBits(Abs(v)));
    Pow2Small();
  }

  /** HUFF_EXTEND: the coefficient of category n with the given additional bits. */
  function Extend(x: nat, n: nat): int {
    if n == 0 then 0 else if x < Pow2(n - 1) then x - Pow2(n) + 1 else x
  }

  /** Category and additional bits determine the coefficient. */
  lemma ExtendInverts(v: int)
    ensures Extend(ExtraBits(v), NBits(Abs(v))) == v
  {
    var n := NBits(Abs(v));
    if n > 0 {
      MaskedValue(if v < 0 then v - 1 else v, n);
    }
  }

  /** The position in a block of the k-th coefficient in zigzag order. */
  function NaturalOrder(k: nat): (p: nat)
    requires k < 64
    ensures p < 64
  {
    match k
    case 0 => 0 case 1 => 1 case 2 => 8 case 3 => 16 case 4 => 9 case 5 => 2 case 6 => 3 case 7 => 10
    case 8 => 17 case 9 => 24 case 10 => 32 case 11 => 25 case 12 => 18 case 13 => 11 case 14 => 4 case 15 => 5
    case 16 => 12 case 17 => 19 case 18 => 26 case 19 => 33 case 20 => 40 case 21 => 48 case 22 => 41 case 23 => 34
    case 24 => 27 case 25 => 20 case 26 => 13 case 27 => 6 case 28 => 7 case 29 => 14 case 30 => 21 case 31 => 28
    case 32 => 35 case 33 => 42 case 34 => 49 case 35 => 56 case 36 => 57 case 37 => 50 case 38 => 43 case 39 => 36
    case 40 => 29 case 41 => 22 case 42 => 15 case 43 => 23 case 44 => 30 case 45 => 37 case 46 => 44 case 47 => 51
    case 48 => 58 case 49 => 59 case 50 => 52 case 51 => 45 case 52 => 38 case 53 => 31 case 54 => 39 case 55 => 46
    case 56 => 53 case 57 => 60 case 58 => 61 case 59 => 54 case 60 => 47 case 61 => 55 case 62 => 62 case _ => 63
  }

  /** From one position to the next: along the diagonals, upwards on those where row and column have an even sum and
      downwards on the others, and along the edge of the block where a diagonal ends. */
  ghost predicate ZigzagStep(p: nat, q: nat) {
    var row, col := p / 8, p % 8;
    if (row + col) % 2 == 0 then
      if col == 7 then q == p + 8 else if row == 0 then q == p + 1 else q == p - 7
    else
      if row == 7 then q == p + 1 else if col == 0 then q == p + 8 else q == p + 7
  }

  /** The order is the zigzag from the first position on. */
  lemma OrderIsZigzag(k: nat)
    requires k < 63
    ensures NaturalOrder(0) == 0 && ZigzagStep(NaturalOrder(k), NaturalOrder(k + 1))
  {
    if k < 16 {
      ZigzagFrom0(k);
    } else if k < 32 {
      ZigzagFrom16(k);
    } else if k < 48 {
      ZigzagFrom32(k);
    } else {
      ZigzagFrom48(k);
    }
  }

  lemma ZigzagFrom0(k: nat)
    requires k < 16
    ensures ZigzagStep(NaturalOrder(k), NaturalOrder(k + 1))
  {
  }

  lemma ZigzagFrom16(k: nat)
    requires 16 <= k < 32
    ensures ZigzagStep(NaturalOrder(k), NaturalOrder(k + 1))
  {
  }

  lemma ZigzagFrom32(k: nat)
    requires 32 <= k < 48
    ensures ZigzagStep(NaturalOrder(k), NaturalOrder(k + 1))
  {
  }

  lemma ZigzagFrom48(k: nat)
    requires 48 <= k < 63
    ensures ZigzagStep(NaturalOrder(k), NaturalOrder(k + 1))
  {
  }

  function Place0To15(p: nat): (k: nat)
    requires 0 <= p < 16
    ensures k < 64 && NaturalOrder(k) == p
  {
    match p
    case 0 => 0 case 1 => 1 case 2 => 5 case 3 => 6 case 4 => 14 case 5 => 15 case 6 => 27 case 7 => 28
    case 8 => 2 case 9 => 4 case 10 => 7 case 11 => 13 case 12 => 16 case 13 => 26 case 14 => 29 case _ => 42
  }

  function Place16To31(p: nat): (k: nat)
    requires 16 <= p < 32
    ensures k < 64 && NaturalOrder(k) == p
  {
    match p
    case 16 => 3 case 17 => 8 case 18 => 12 case 19 => 17 case 20 => 25 case 21 => 30 case 22 => 41 case 23 => 43
    case 24 => 9 case 25 => 11 case 26 => 18 case 27 => 24 case 28 => 31 case 29 => 40 case 30 => 44 case _ => 53
  }

  function Place32To47(p: nat): (k: nat)
    requires 32 <= p < 48
    ensures k < 64 && NaturalOrder(k) == p
  {
    match p
    case 32 => 10 case 33 => 19 case 34 => 23 case 35 => 32 case 36 => 39 case 37 => 45 case 38 => 52 case 39 => 54
    case 40 => 20 case 41 => 22 case 42 => 33 case 43 => 38 case 44 => 46 case 45 => 51 case 46 => 55 case _ => 60
  }

  function Place48To63(p: nat): (k: nat)
    requires 48 <= p < 64
    ensures k < 64 && NaturalOrder(k) == p
  {
    match p
    case 48 => 21 case 49 => 34 case 50 => 37 case 51 => 47 case 52 => 50 case 53 => 56 case 54 => 59 case 55 => 61
    case 56 => 35 case 57 => 36 case 58 => 48 case 59 => 49 case 60 => 57 case 61 => 58 case 62 => 62 case _ => 63
  }

  /** The place of a position in zigzag order. */
  function ZigzagIndex(p: nat): (k: nat)
    requires p < 64
    ensures k < 64 && NaturalOrder(k) == p
  {
    if p < 16 then Place0To15(p) else if p < 32 then Place16To31(p)
    else if p < 48 then Place32To47(p) else Place48To63(p)
  }

  type Block = b: seq<int> | |b| == 64 witness seq(64, _ => 0)

  /** A block's coefficients in zigzag order, and back. */
  function Zigzag(b: Block): Block {
    seq(64, k requires 0 <= k < 64 => b[NaturalOrder(k)])
  }

  function Unzigzag(z: Block): Block {
    seq(64, p requires 0 <= p < 64 => z[ZigzagIndex(p)])
  }

  lemma ZigzagAt(b: Block, k: nat)
    requires k < 64
    ensures Zigzag(b)[k] == b[NaturalOrder(k)]
  {
  }

  /** The zigzag order visits every position, so a block can be recovered from it. */
  lemma ZigzagIsInvertible(b: Block)
    ensures Unzigzag(Zigzag(b)) == b
  {
    forall p: nat | p < 64 ensures Unzigzag(Zigzag(b))[p] == b[p] {
      assert NaturalOrder(ZigzagIndex(p)) == p;
    }
  }
}
