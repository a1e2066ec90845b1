/** One block of an AC first scan (section G.1.2.2 of ITU-T T.81): what is written for it, the decoder, and
    the round trip between them.  A block is given in zigzag order. */
module FirstBlock {
  import opened Shifts
  import opened BitStrings
  import opened HuffmanDerive
  import opened EntropyItems
  import opened Coefficients
  import opened EobRuns
  import opened ReciprocalDivision
  import opened RefineBlock

  /** The coefficient after the point transform: divided by 2^al, rounded toward zero. */
  function Transformed(v: int, al: nat): int {
    var m: int := Mag(v, al);
    if v < 0 then -m else m
  }

  // ---------- encoder ----------

  /** The items of the coefficients from position k on, r zeros having been passed before it. */
  function FirstItems(z: Block, k: nat, r: nat, b: Band, ac: nat): Items
    requires b.Valid() && k <= b.se + 1
    decreases b.se + 1 - k, r
  {
    if k > b.se then []
    else if Mag(z[k], b.al) == 0 then FirstItems(z, k + 1, r + 1, b, ac)
    else if r > 15 then [Symbol(ac, 0xF0)] + FirstItems(z, k, r - 16, b, ac)
    else
      var n := NBits(Mag(z[k], b.al));
      [Symbol(ac, 16 * r + n), Extra(ExtraBits(Transformed(z[k], b.al)), n)] + FirstItems(z, k + 1, 0, b, ac)
  }

  /** The number of zeros at the end of the band, r zeros having been passed before position k. */
  function TrailingZeros(z: Block, k: nat, r: nat, b: Band): (n: nat)
    requires b.Valid() && k <= b.se + 1
    ensures n <= r + (b.se + 1 - k)
    ensures forall j :: b.se + 1 - n <= j <= b.se && k <= j ==> Mag(z[j], b.al) == 0
    decreases b.se + 1 - k
  {
    if k > b.se then r
    else if Mag(z[k], b.al) == 0 then TrailingZeros(z, k + 1, r + 1, b)
    else TrailingZeros(z, k + 1, 0, b)
  }

  /** One step of both. */
  lemma FirstItemsAt(z: Block, k: nat, r: nat, b: Band, ac: nat)
    requires b.Valid() && k <= b.se + 1
    ensures k > b.se ==> FirstItems(z, k, r, b, ac) == [] && TrailingZeros(z, k, r, b) == r
    ensures k <= b.se && Mag(z[k], b.al) == 0 ==>
      && FirstItems(z, k, r, b, ac) == FirstItems(z, k + 1, r + 1, b, ac)
      && TrailingZeros(z, k, r, b) == TrailingZeros(z, k + 1, r + 1, b)
    ensures k <= b.se && Mag(z[k], b.al) != 0 ==> TrailingZeros(z, k, r, b) == TrailingZeros(z, k + 1, 0, b)
  {
    hide Mag, NBits, ExtraBits, Transformed;
  }

  function FirstPart(z: Block, b: Band, ac: nat): Part
    requires b.Valid()
  {
    Part(FirstItems(z, b.ss, 0, b, ac), [], TrailingZeros(z, b.ss, 0, b) > 0)
  }

  /** Magnitudes that fit the four bits a symbol has for their category, with those of the original's limit. */
  ghost predicate BandInRange(z: Block, b: Band) {
    b.Valid() && forall j :: b.ss <= j <= b.se ==> NBits(Mag(z[j], b.al)) <= 10
  }

  // ---------- decoder ----------

  /** LEFT_SHIFT: the coefficient at its full size. */
  function Scaled(x: int, al: nat): int {
    var m: int := Shl(Abs(x), al);
    if x < 0 then -m else m
  }

  /** Decode the band from position k on, outside a run. */
  ghost function DecodeFirst(t: Derived, y: Block, k: nat, b: Band, bits: Bits): Option<(Block, nat, Bits)>
    requires b.Valid()
    decreases 64 - k
  {
    if k > b.se then Some((y, 0, bits))
    else
      match ReadSymbol(t, bits)
      case None => None
      case Some((s, rest)) =>
        var r, n := s / 16, s % 16;
        if n != 0 then
          if k + r > b.se then None
          else
            match ReadBits(n, rest)
            case None => None
            case Some((x, more)) => DecodeFirst(t, y[k + r := Scaled(Extend(x, n), b.al)], k + r + 1, b, more)
        else if r == 15 then DecodeFirst(t, y, k + 16, b, rest)
        else
          match ReadRun(r, rest)
          case None => None
          case Some((run, more)) => Some((y, run - 1, more))
  }

  // ---------- the items, in the terms of section G.1.2.2 of ITU-T T.81 ----------

  lemma {:induction false} FirstAfterZeros(z: Block, k: nat, r: nat, j: nat, n: nat, x: nat, b: Band, ac: nat)
    requires b.Valid() && k <= j <= b.se && Mag(z[j], b.al) != 0 && InCategory(Transformed(z[j], b.al), n, x)
    requires forall i :: k <= i < j ==> Mag(z[i], b.al) == 0
    ensures var run := r + (j - k);
      && TrailingZeros(z, k, r, b) == TrailingZeros(z, j + 1, 0, b)
      && FirstItems(z, k, r, b, ac)
         == seq(run / 16, _ => Symbol(ac, 0xF0)) + [Symbol(ac, 16 * (run % 16) + n), Extra(x, n)]
            + FirstItems(z, j + 1, 0, b, ac)
    decreases j - k, r
  {
    hide FirstItems, InCategory, NBits, ExtraBits, Mag, Transformed, TrailingZeros;
    FirstItemsAt(z, k, r, b, ac);
    if k < j {
      FirstAfterZeros(z, k + 1, r + 1, j, n, x, b, ac);
    } else if r > 15 {
      FirstAfterZeros(z, k, r - 16, j, n, x, b, ac);
      FirstZeroRun(z, k, r, b, ac);
      var m := r / 16;
      assert seq(m, _ => Symbol(ac, 0xF0)) == [Symbol(ac, 0xF0)] + seq(m - 1, _ => Symbol(ac, 0xF0));
    } else {
      FirstPair(z, k, r, n, x, b, ac);
    }
  }

  lemma FirstZeroRun(z: Block, k: nat, r: nat, b: Band, ac: nat)
    requires b.Valid() && k <= b.se && Mag(z[k], b.al) != 0 && r > 15
    ensures FirstItems(z, k, r, b, ac) == [Symbol(ac, 0xF0)] + FirstItems(z, k, r - 16, b, ac)
  {
    hide Mag, NBits, ExtraBits, Transformed;
  }

  lemma FirstPair(z: Block, k: nat, r: nat, n: nat, x: nat, b: Band, ac: nat)
    requires b.Valid() && k <= b.se && Mag(z[k], b.al) != 0 && r <= 15 && InCategory(Transformed(z[k], b.al), n, x)
    ensures FirstItems(z, k, r, b, ac) == [Symbol(ac, 16 * r + n), Extra(x, n)] + FirstItems(z, k + 1, 0, b, ac)
  {
    hide NBits, ExtraBits, InCategory;
    CategoryOf(Transformed(z[k], b.al), n, x);
    TransformedIs(z[k], b.al);
  }

  lemma {:induction false} FirstZerosLeft(z: Block, k: nat, r: nat, b: Band, ac: nat)
    requires b.Valid() && k <= b.se + 1 && forall i :: k <= i <= b.se ==> Mag(z[i], b.al) == 0
    ensures FirstItems(z, k, r, b, ac) == [] && TrailingZeros(z, k, r, b) == r + (b.se + 1 - k)
    decreases b.se + 1 - k
  {
    hide Mag, FirstItems;
    FirstItemsAt(z, k, r, b, ac);
    if k <= b.se {
      FirstZerosLeft(z, k + 1, r + 1, b, ac);
    }
  }

  /** A coefficient that is not zero at precision al, behind a run of coefficients that are: 0xF0 for each sixteen of
      them, then the rest of the run and the category in one symbol, and the additional bits.  Nothing for those
      up to the end of the band. */
  lemma FirstItemsAre(z: Block, k: nat, j: nat, n: nat, x: nat, b: Band, ac: nat)
    requires b.Valid() && k <= j <= b.se + 1 && forall i :: k <= i < j ==> Mag(z[i], b.al) == 0
    ensures j > b.se ==> FirstItems(z, k, 0, b, ac) == []
    ensures j <= b.se && Mag(z[j], b.al) != 0 && InCategory(Transformed(z[j], b.al), n, x) ==>
      FirstItems(z, k, 0, b, ac) ==
        seq((j - k) / 16, _ => Symbol(ac, 0xF0))
        + [Symbol(ac, 16 * ((j - k) % 16) + n), Extra(x, n)] + FirstItems(z, j + 1, 0, b, ac)
  {
    hide FirstItems, InCategory, Mag, Transformed, TrailingZeros;
    if j > b.se {
      FirstZerosLeft(z, k, 0, b, ac);
    } else if Mag(z[j], b.al) != 0 && InCategory(Transformed(z[j], b.al), n, x) {
      FirstAfterZeros(z, k, 0, j, n, x, b, ac);
    }
  }

  /** The band of a block begins with the items from its first coefficient on, and the block is part of an end-of-band
      run exactly if its last coefficient is zero at precision al. */
  lemma FirstPartIs(z: Block, b: Band, ac: nat)
    requires b.Valid()
    ensures FirstPart(z, b, ac).head == FirstItems(z, b.ss, 0, b, ac) && FirstPart(z, b, ac).tail == []
    ensures FirstPart(z, b, ac).open <==> Abs(z[b.se]) < Pow2(b.al)
  {
    hide FirstItems, Mag, TrailingZeros, Pow2;
    EndsInZero(z, b.ss, 0, b);
    MagIsZero(z[b.se], b.al);
  }

  lemma MagIsZero(v: int, al: nat)
    ensures Mag(v, al) == 0 <==> Abs(v) < Pow2(al)
  {
    hide Mag, Pow2;
    PointIs(v, al);
    Division(Abs(v), Pow2(al));
    TimesIs(Abs(v) / Pow2(al), Pow2(al));
    if Mag(v, al) > 0 {
      TimesOrder(1, Mag(v, al), Pow2(al));
      TimesOne(Pow2(al));
    }
  }

  lemma {:induction false} EndsInZero(z: Block, k: nat, r: nat, b: Band)
    requires b.Valid() && k <= b.se
    ensures TrailingZeros(z, k, r, b) > 0 <==> Mag(z[b.se], b.al) == 0
    decreases b.se - k
  {
    hide Mag;
    if k < b.se {
      EndsInZero(z, k + 1, if Mag(z[k], b.al) == 0 then r + 1 else 0, b);
    }
  }

  // ---------- round trip ----------

  /** Nothing of the band is known yet. */
  ghost predicate Unknown(y0: Block, b: Band) {
    b.Valid() && forall j :: b.ss <= j <= b.se ==> y0[j] == 0
  }

  /** The transformed coefficient keeps category and sign, and scaled up it is the coefficient at precision al. */
  lemma TransformedIs(v: int, al: nat)
    ensures Abs(Transformed(v, al)) == Mag(v, al)
    ensures Scaled(Transformed(v, al), al) == Point(v, al)
    ensures Mag(v, al) == 0 ==> Point(v, al) == 0
  {
    ShlZero(al);
  }

  /** Zeros leave the block as it is. */
  lemma ZerosAreKnown(z: Block, y0: Block, j: nat, k: nat, b: Band)
    requires Unknown(y0, b) && j <= k <= b.se + 1
    requires forall i :: j <= i < k && b.ss <= i ==> Mag(z[i], b.al) == 0
    ensures Refined(z, y0, j, b) == Refined(z, y0, k, b)
  {
    hide Mag, Point;
    forall i: nat | i < 64 ensures Refined(z, y0, j, b)[i] == Refined(z, y0, k, b)[i] {
      TransformedIs(z[i], b.al);
    }
  }

  /** The decoder's step over a run of zeros and the coefficient behind it. */
  lemma CoefficientIsDecoded(z: Block, y0: Block, k: nat, r: nat, b: Band, ac: nat, d: Tables, rest: Bits)
    requires Unknown(y0, b) && b.ss + r <= k <= b.se && r <= 15 && Mag(z[k], b.al) != 0 && BandInRange(z, b)
    requires Decodable(d) && ac < |d|
    requires forall i :: k - r <= i < k ==> Mag(z[i], b.al) == 0
    requires Encodable(FirstItems(z, k, r, b, ac), d)
    ensures Encodable(FirstItems(z, k + 1, 0, b, ac), d)
    ensures DecodeFirst(d[ac], Refined(z, y0, k - r, b), k - r, b, ItemBits(FirstItems(z, k, r, b, ac), d) + rest)
         == DecodeFirst(d[ac], Refined(z, y0, k + 1, b), k + 1, b, ItemBits(FirstItems(z, k + 1, 0, b, ac), d) + rest)
  {
    hide ItemBits, ReadSymbol, ReadBits, ExtraBits, Extend, NBits, Encodable, Decodable, Mag, Transformed, Scaled,
      Refined, Point;
    var n := NBits(Mag(z[k], b.al));
    var x := Transformed(z[k], b.al);
    TransformedIs(z[k], b.al);
    PositiveCategory(Mag(z[k], b.al));
    PairIsReadFirst(d, ac, 16 * r + n, ExtraBits(x), n, FirstItems(z, k + 1, 0, b, ac), rest);
    ExtendInverts(x);
    ZerosAreKnown(z, y0, k - r, k, b);
    OneMoreKnown(z, y0, k, b);
  }

  lemma PositiveCategory(m: nat)
    requires m != 0
    ensures NBits(m) > 0
  {
  }

  lemma OneMoreKnown(z: Block, y0: Block, k: nat, b: Band)
    requires b.Valid() && b.ss <= k <= b.se
    ensures Refined(z, y0, k + 1, b) == Refined(z, y0, k, b)[k := Point(z[k], b.al)]
  {
  }

  /** Everything but the zeros at the end of the band is decoded. */
  lemma {:induction false} FirstIsDecoded(z: Block, y0: Block, k: nat, r: nat, b: Band, ac: nat, d: Tables, rest: Bits)
    requires Unknown(y0, b) && b.ss + r <= k <= b.se + 1 && BandInRange(z, b) && Decodable(d) && ac < |d|
    requires forall i :: k - r <= i < k ==> Mag(z[i], b.al) == 0
    requires Encodable(FirstItems(z, k, r, b, ac), d)
    ensures var s := b.se + 1 - TrailingZeros(z, k, r, b);
      b.ss <= s &&
      DecodeFirst(d[ac], Refined(z, y0, k - r, b), k - r, b, ItemBits(FirstItems(z, k, r, b, ac), d) + rest)
      == DecodeFirst(d[ac], Refined(z, y0, s, b), s, b, rest)
    decreases b.se + 1 - k, r
  {
    hide ItemBits, ReadSymbol, ReadBits, ExtraBits, Extend, NBits, Encodable, Decodable, Mag, Transformed, Scaled,
      Refined, BandInRange, DecodeFirst, FirstItems, TrailingZeros;
    FirstItemsAt(z, k, r, b, ac);
    if k > b.se {
      NothingSpelled(d, rest);
    } else if Mag(z[k], b.al) == 0 {
      FirstIsDecoded(z, y0, k + 1, r + 1, b, ac, d, rest);
    } else if r > 15 {
      ZeroRunIsSkipped(z, y0, k, r, b, ac, d, rest);
      FirstItemsAt(z, k, r - 16, b, ac);
      FirstIsDecoded(z, y0, k, r - 16, b, ac, d, rest);
    } else {
      CoefficientIsDecoded(z, y0, k, r, b, ac, d, rest);
      FirstIsDecoded(z, y0, k + 1, 0, b, ac, d, rest);
    }
  }

  lemma ZeroRunIsSkipped(z: Block, y0: Block, k: nat, r: nat, b: Band, ac: nat, d: Tables, rest: Bits)
    requires Unknown(y0, b) && b.ss + r <= k <= b.se && r > 15 && Mag(z[k], b.al) != 0
    requires Decodable(d) && ac < |d|
    requires forall i :: k - r <= i < k ==> Mag(z[i], b.al) == 0
    requires Encodable(FirstItems(z, k, r, b, ac), d)
    ensures Encodable(FirstItems(z, k, r - 16, b, ac), d)
    ensures DecodeFirst(d[ac], Refined(z, y0, k - r, b), k - r, b, ItemBits(FirstItems(z, k, r, b, ac), d) + rest)
         == DecodeFirst(d[ac], Refined(z, y0, k - r + 16, b), k - r + 16, b,
              ItemBits(FirstItems(z, k, r - 16, b, ac), d) + rest)
  {
    hide ItemBits, ReadSymbol, ReadBits, NBits, Encodable, Decodable, Mag, Refined;
    SymbolIsReadFirst(d, ac, 0xF0, FirstItems(z, k, r - 16, b, ac), rest);
    ZerosAreKnown(z, y0, k - r, k - r + 16, b);
  }
}
