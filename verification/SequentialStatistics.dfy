/** The statistics pass of the sequential encoder (jchuff.c): trial encoding that only counts symbols. */
module SequentialStatistics {
  import opened Shifts
  import opened EntropyItems
  import opened Coefficients
  import opened SequentialBlock

  const MAX_COEF_BITS := 10

  /** DC tables are numbered 0 to 3, AC tables 4 to 7. */
  const NUM_HUFF_TBLS := 4

  /** Symbols that coefficients in range can lead to: a DC symbol is a category of at most 11 bits, the low
      half of an AC symbol one of at most 10 bits.  Fields fit their size. */
  ghost predicate Proper(i: Item) {
    match i
    case Symbol(t, s) =>
      t < 2 * NUM_HUFF_TBLS && if t < NUM_HUFF_TBLS then s <= MAX_COEF_BITS + 1 else s < 256 && s % 16 <= MAX_COEF_BITS
    case Extra(x, n) => x < Pow2(n)
  }

  /** Symbol counts for each table. */
  class Statistics {
    const counts: array2<nat>
    ghost var seen: Items

    /** The counts are those of the items seen. */
    ghost predicate Valid()
      reads this, counts
    {
      && counts.Length0 == 2 * NUM_HUFF_TBLS && counts.Length1 == 256
      && (forall i <- seen :: Proper(i))
      && forall t, s :: 0 <= t < 2 * NUM_HUFF_TBLS && 0 <= s < 256 ==> counts[t, s] == Uses(seen, t, s)
    }

    constructor ()
      ensures Valid() && fresh(counts) && seen == []
    {
      counts := new nat[2 * NUM_HUFF_TBLS, 256]((_, _) => 0);
      seen := [];
    }

    method Count(t: nat, s: nat)
      requires Valid() && Proper(Symbol(t, s))
      modifies this, counts
      ensures Valid() && seen == old(seen) + [Symbol(t, s)]
    {
      counts[t, s] := counts[t, s] + 1;
      hide Uses, Proper;
      forall u: nat, v: nat
        ensures Uses(seen + [Symbol(t, s)], u, v) == Uses(seen, u, v) + if u == t && v == s then 1 else 0
      {
        UsesSnoc(seen, Symbol(t, s), u, v);
      }
      seen := seen + [Symbol(t, s)];
    }

    /** Additional bits are not counted. */
    ghost method Skip(x: nat, n: nat)
      requires Valid() && x < Pow2(n)
      modifies `seen
      ensures Valid() && seen == old(seen) + [Extra(x, n)]
    {
      forall u: nat, v: nat ensures Uses(seen + [Extra(x, n)], u, v) == Uses(seen, u, v) {
        UsesSnoc(seen, Extra(x, n), u, v);
      }
      seen := seen + [Extra(x, n)];
    }

    /** Count the symbols for one AC coefficient `temp`, the k-th in zigzag order `z`, after r0 zeros. */
    method CountCoefficient(temp: int, r0: nat, ac: nat, ghost z: Block, ghost k: nat) returns (r: nat, ok: bool)
      requires Valid() && NUM_HUFF_TBLS <= ac < 2 * NUM_HUFF_TBLS && k < 64 && temp == z[k]
      modifies this, counts
      ensures Valid() && r <= r0 + 1
      ensures ok <==> NBits(Abs(temp)) <= MAX_COEF_BITS
      ensures ok ==> seen + AcItems(z, k + 1, r, ac) == old(seen) + AcItems(z, k, r0, ac)
    {
      hide NBits, Abs, ExtraBits, AcItems, Uses, Valid;
      r := r0;
      AcItemsAt(z, k, r, ac);
      if temp == 0 {
        ZeroHasNoBits();
        return r + 1, true;
      }
      ghost var all := old(seen) + AcItems(z, k, r0, ac);
      while r > 15
        invariant 0 <= r <= r0 && Valid() && seen + AcItems(z, k, r, ac) == all
      {
        AcItemsAt(z, k, r, ac);
        ghost var more := AcItems(z, k, r - 16, ac);
        assert seen + ([Symbol(ac, 0xF0)] + more) == seen + [Symbol(ac, 0xF0)] + more;
        Count(ac, 0xF0);
        r := r - 16;
      }
      AcItemsAt(z, k, r, ac);
      var nbits := CountBits(temp);
      if nbits > MAX_COEF_BITS {
        return r, false;
      }
      ghost var more := AcItems(z, k + 1, 0, ac);
      ghost var s, x := Symbol(ac, 16 * r + nbits), Extra(ExtraBits(temp), nbits);
      assert seen + ([s, x] + more) == seen + [s] + [x] + more;
      Count(ac, 16 * r + nbits);
      Skip(ExtraBits(temp), nbits);
      return 0, true;
    }

    method CountDc(diff: int, dc: nat) returns (ok: bool)
      requires Valid() && dc < NUM_HUFF_TBLS
      modifies this, counts
      ensures Valid()
      ensures ok <==> NBits(Abs(diff)) <= MAX_COEF_BITS + 1
      ensures ok ==> seen == old(seen) + DcItems(diff, dc)
    {
      hide NBits, Abs, ExtraBits, Uses, Valid;
      var nbits := CountBits(diff);
      if nbits > MAX_COEF_BITS + 1 {
        return false;
      }
      Count(dc, nbits);
      Skip(ExtraBits(diff), nbits);
      return true;
    }

    /** Count a block's symbols.  Coefficients out of range are an error. */
    method HtestOneBlock(b: Block, lastDc: int, dc: nat, ac: nat) returns (ok: bool)
      requires Valid() && dc < NUM_HUFF_TBLS <= ac < 2 * NUM_HUFF_TBLS
      modifies this, counts
      ensures Valid()
      ensures ok <==> CoefficientsFit(b, lastDc)
      ensures ok ==> seen == old(seen) + BlockItems(b, lastDc, dc, ac)
    {
      hide NBits, Abs, ExtraBits, AcItems, DcItems, Uses, Valid, Zigzag;
      ghost var z, start := Zigzag(b), seen;
      ZigzagKeepsRange(b, MAX_COEF_BITS);
      ok := CountDc(b[0] - lastDc, dc);
      if !ok {
        return false;
      }
      ghost var all := BlockItems(b, lastDc, dc, ac);
      Associative(start, DcItems(b[0] - lastDc, dc), AcItems(z, 1, 0, ac));
      var r, k := 0, 1;
      while k < 64
        invariant 1 <= k <= 64 && Valid() && r >= 0
        invariant forall i: nat :: 1 <= i < k ==> NBits(Abs(z[i])) <= MAX_COEF_BITS
        invariant seen + AcItems(z, k, r, ac) == start + all
      {
        ZigzagAt(b, k);
        r, ok := CountCoefficient(b[NaturalOrder(k)], r, ac, z, k);
        if !ok {
          return false;
        }
        k := k + 1;
      }
      LastItems(z, r, ac);
      if r > 0 {
        Count(ac, 0);
      }
      return true;
    }
  }

  lemma ZeroHasNoBits()
    ensures NBits(Abs(0)) == 0
  {
  }

  /** A DC difference of at most 11 bits, and AC coefficients of at most 10. */
  ghost predicate CoefficientsFit(b: Block, lastDc: int) {
    && NBits(Abs(b[0] - lastDc)) <= MAX_COEF_BITS + 1
    && forall i :: 1 <= i < 64 ==> NBits(Abs(b[i])) <= MAX_COEF_BITS
  }

  /** In figures: AC coefficients of magnitude up to 1023, and DC differences up to 2047. */
  lemma FitsMeans(b: Block, lastDc: int)
    ensures CoefficientsFit(b, lastDc) <==>
      -2048 < b[0] - lastDc < 2048 && forall i :: 1 <= i < 64 ==> -1024 < b[i] < 1024
  {
    hide NBits, Pow2;
    PowersOfTwo();
    NBitsAtMost(Abs(b[0] - lastDc), 11);
    forall i | 1 <= i < 64 ensures NBits(Abs(b[i])) <= 10 <==> -1024 < b[i] < 1024 {
      NBitsAtMost(Abs(b[i]), 10);
    }
  }

  lemma PowersOfTwo()
    ensures Pow2(10) == 1024 && Pow2(11) == 2048
  {
    hide Shl;
    ShlValues(1);
    Pow2Next(10);
  }

  method CountBits(v: int) returns (nbits: nat)
    ensures nbits == NBits(Abs(v))
  {
    var temp := if v < 0 then -v else v;
    nbits := 0;
    while temp != 0
      invariant temp >= 0 && nbits + NBits(temp) == NBits(Abs(v))
    {
      nbits := nbits + 1;
      temp := temp / 2;
    }
  }
}
