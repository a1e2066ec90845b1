/** One block of an AC refinement scan (section G.1.2.3 of ITU-T T.81): what is written for it, the decoder,
    and the round trip between them.  A block is given in zigzag order. */
module RefineBlock {
  import opened Shifts
  import opened BitStrings
  import opened WordArithmetic
  import opened HuffmanDerive
  import opened EntropyItems
  import opened Coefficients
  import opened EobRuns
  import opened ReciprocalDivision

  /** The spectral band and the bit position of an AC scan, and whether it is the first one for the band. */
  datatype Band = Band(ss: nat, se: nat, al: nat, first: bool) {
    ghost predicate Valid() {
      1 <= ss <= se <= 63
    }
  }

  /** The magnitude after the point transform. */
  function Mag(v: int, al: nat): nat { Shr(Abs(v), al) }

  /** The coefficient known at precision al: rounded toward zero to a multiple of 2^al. */
  function Point(v: int, al: nat): int {
    var m: int := Shl(Mag(v, al), al);
    if v < 0 then -m else m
  }

  /** The point transform divides the magnitude by 2^al, and what is known then is the coefficient without the bits
      below 2^al, with its sign. */
  lemma PointIs(v: int, al: nat)
    ensures Mag(v, al) == Abs(v) / Pow2(al)
    ensures Abs(Point(v, al)) == Abs(v) - Abs(v) % Pow2(al)
    ensures (v >= 0 ==> Point(v, al) >= 0) && (v <= 0 ==> Point(v, al) <= 0)
  {
    hide Pow2, Shl, Shr;
    var q := Abs(v) / Pow2(al);
    ShrIsQuotient(Abs(v), al);
    ShlIsProduct(q, al);
    Division(Abs(v), Pow2(al));
    TimesIs(q, Pow2(al));
  }

  /** A bit more precision adds the correction bit, with the coefficient's sign. */
  lemma PointRefines(v: int, al: nat)
    ensures Mag(v, al + 1) == Mag(v, al) / 2
    ensures var bit := if Mag(v, al) % 2 == 1 then Pow2(al) else 0;
      Point(v, al) == Point(v, al + 1) + if v < 0 then -bit else bit
    ensures Point(v, al + 1) == 0 <==> Mag(v, al) <= 1
    ensures Point(v, al + 1) > 0 ==> v >= 0
    ensures Point(v, al + 1) < 0 ==> v < 0
    ensures Mag(v, al) == 0 ==> Point(v, al) == 0
  {
    var m := Mag(v, al);
    ShlDouble(m / 2, al);
    ShlAdd(2 * (m / 2), m % 2, al);
    ShlZero(al);
    ShlZero(al + 1);
    assert 2 * (m / 2) + m % 2 == m;
    assert Shl(m / 2, al + 1) == Shl(2 * (m / 2), al);
  }

  // ---------- encoder ----------

  /** The position of the last coefficient before k that becomes nonzero in this scan, or 0. */
  function LastNew(z: Block, ss: nat, k: nat, al: nat): (r: nat)
    requires k <= 64
    ensures r != 0 ==> ss <= r < k && Mag(z[r], al) == 1
    ensures forall j :: ss <= j < k && r < j ==> Mag(z[j], al) != 1
  {
    if k <= ss then 0 else if Mag(z[k - 1], al) == 1 then k - 1 else LastNew(z, ss, k - 1, al)
  }

  /** Correction bits of the coefficients from i up to j that are already nonzero. */
  function Corrections(z: Block, i: nat, j: nat, al: nat): Items
    requires j <= 64
    decreases j - i
  {
    if i >= j then []
    else (if Mag(z[i], al) > 1 then [Extra(Mag(z[i], al) % 2, 1)] else []) + Corrections(z, i + 1, j, al)
  }

  /** The number of coefficients from i up to j that stay zero. */
  function Zeros0(z: Block, i: nat, j: nat, al: nat): nat
    requires j <= 64
    decreases j - i
  {
    if i >= j then 0 else (if Mag(z[i], al) == 0 then 1 else 0) + Zeros0(z, i + 1, j, al)
  }

  lemma {:induction false} CorrectionsSnoc(z: Block, i: nat, j: nat, al: nat)
    requires i <= j < 64
    ensures Corrections(z, i, j + 1, al)
         == Corrections(z, i, j, al) + if Mag(z[j], al) > 1 then [Extra(Mag(z[j], al) % 2, 1)] else []
    ensures Zeros0(z, i, j + 1, al) == Zeros0(z, i, j, al) + if Mag(z[j], al) == 0 then 1 else 0
    ensures |Corrections(z, i, j, al)| <= j - i
    decreases j - i
  {
    hide Mag, Corrections, Zeros0;
    CorrectionsStep(z, i, j + 1, al);
    if i < j {
      CorrectionsSnoc(z, i + 1, j, al);
      CorrectionsStep(z, i, j, al);
    } else {
      CorrectionsEnd(z, i, al);
      CorrectionsEnd(z, i + 1, al);
    }
  }

  /** One step of the definitions of Corrections and Zeros0. */
  lemma CorrectionsStep(z: Block, i: nat, j: nat, al: nat)
    requires i < j <= 64
    ensures Corrections(z, i, j, al)
         == (if Mag(z[i], al) > 1 then [Extra(Mag(z[i], al) % 2, 1)] else []) + Corrections(z, i + 1, j, al)
    ensures Zeros0(z, i, j, al) == (if Mag(z[i], al) == 0 then 1 else 0) + Zeros0(z, i + 1, j, al)
  {
    hide Mag;
  }

  lemma CorrectionsEnd(z: Block, i: nat, al: nat)
    requires i <= 64
    ensures Corrections(z, i, i, al) == [] && Zeros0(z, i, i, al) == 0
  {
  }

  function Sign(v: int): Item {
    Extra(if v < 0 then 0 else 1, 1)
  }

  /** What is written for the coefficients from k to `last`, in the order in which a decoder wants it; the
      coefficients from k0 on have been passed over since something was last written. */
  function HeadItems(z: Block, k0: nat, k: nat, last: nat, al: nat, ac: nat): Items
    requires last < 64
    decreases last + 1 - k
  {
    if k > last then []
    else
      var r := Zeros0(z, k0, k, al);
      var passed := Corrections(z, k0, k, al);
      if Mag(z[k], al) == 1 then
        [Symbol(ac, 16 * r + 1), Sign(z[k])] + (passed + HeadItems(z, k + 1, k + 1, last, al, ac))
      else if Mag(z[k], al) == 0 && r == 15 then
        [Symbol(ac, 0xF0)] + (passed + HeadItems(z, k + 1, k + 1, last, al, ac))
      else HeadItems(z, k0, k + 1, last, al, ac)
  }

  /** Where the end of the band begins: behind the last coefficient that becomes nonzero. */
  function TailStart(z: Block, b: Band): (s: nat)
    requires b.Valid()
    ensures b.ss <= s <= b.se + 1
  {
    var last := LastNew(z, b.ss, b.se + 1, b.al);
    if last == 0 then b.ss else last + 1
  }

  function RefinePart(z: Block, b: Band, ac: nat): Part
    requires b.Valid()
  {
    var s := TailStart(z, b);
    Part(HeadItems(z, b.ss, b.ss, LastNew(z, b.ss, b.se + 1, b.al), b.al, ac),
      Corrections(z, s, b.se + 1, b.al), s <= b.se)
  }

  // ---------- the items, in the terms of section G.1.2.3 of ITU-T T.81 ----------

  /** Something is written when coefficient j has been passed: it is newly nonzero, or the sixteenth zero since k0. */
  ghost predicate Due(z: Block, k0: nat, j: nat, al: nat)
    requires j < 64
  {
    Mag(z[j], al) == 1 || (Mag(z[j], al) == 0 && Zeros0(z, k0, j, al) == 15)
  }

  lemma {:induction false} HeadUptoDue(z: Block, k0: nat, k: nat, j: nat, last: nat, al: nat, ac: nat)
    requires k0 <= k <= j <= last < 64 && forall i :: k <= i < j ==> !Due(z, k0, i, al)
    ensures HeadItems(z, k0, k, last, al, ac) == HeadItems(z, k0, j, last, al, ac)
    decreases j - k
  {
    hide Mag, Zeros0, Corrections;
    if k < j {
      HeadUptoDue(z, k0, k + 1, j, last, al, ac);
      assert !Due(z, k0, k, al);
    }
  }

  /** A newly nonzero coefficient: one symbol for the zeros passed and for category 1, and a sign bit, 1 if it is
      positive; a sixteenth zero: 0xF0.  In both cases the correction bits of the coefficients passed come behind. */
  lemma HeadItemsAre(z: Block, k0: nat, j: nat, last: nat, al: nat, ac: nat)
    requires k0 <= j <= last < 64 && Due(z, k0, j, al) && forall i :: k0 <= i < j ==> !Due(z, k0, i, al)
    ensures HeadItems(z, k0, k0, last, al, ac) ==
      (if Mag(z[j], al) == 1 then [Symbol(ac, 16 * Zeros0(z, k0, j, al) + 1), Extra(if z[j] > 0 then 1 else 0, 1)]
       else [Symbol(ac, 0xF0)])
      + Corrections(z, k0, j, al) + HeadItems(z, j + 1, j + 1, last, al, ac)
    ensures HeadItems(z, last + 1, last + 1, last, al, ac) == []
  {
    HeadUptoDue(z, k0, k0, j, last, al, ac);
    HeadAtDue(z, k0, j, last, al, ac);
  }

  lemma HeadAtDue(z: Block, k0: nat, j: nat, last: nat, al: nat, ac: nat)
    requires k0 <= j <= last < 64 && Due(z, k0, j, al)
    ensures HeadItems(z, k0, j, last, al, ac) ==
      (if Mag(z[j], al) == 1 then [Symbol(ac, 16 * Zeros0(z, k0, j, al) + 1), Extra(if z[j] > 0 then 1 else 0, 1)]
       else [Symbol(ac, 0xF0)])
      + Corrections(z, k0, j, al) + HeadItems(z, j + 1, j + 1, last, al, ac)
  {
    hide Mag, Zeros0, Corrections;
    NoMagnitude(al);
  }

  lemma NoMagnitude(al: nat)
    ensures Mag(0, al) == 0
  {
    hide Mag;
    PointIs(0, al);
  }

  /** What the block contributes: everything up to the last newly nonzero coefficient l on its own, and the correction
      bits behind that to an end-of-band run, which it is part of unless l ends the band.  With no newly nonzero
      coefficient all of it goes into the run. */
  lemma RefinePartIs(z: Block, l: nat, b: Band, ac: nat)
    requires b.Valid()
    ensures b.ss <= l <= b.se && Mag(z[l], b.al) == 1 && (forall j :: l < j <= b.se ==> Mag(z[j], b.al) != 1) ==>
      RefinePart(z, b, ac)
      == Part(HeadItems(z, b.ss, b.ss, l, b.al, ac), Corrections(z, l + 1, b.se + 1, b.al), l < b.se)
    ensures (forall j :: b.ss <= j <= b.se ==> Mag(z[j], b.al) != 1) ==>
      RefinePart(z, b, ac) == Part([], Corrections(z, b.ss, b.se + 1, b.al), true)
  {
    hide Mag, Corrections, LastNew;
    var last := LastNew(z, b.ss, b.se + 1, b.al);
    if last != 0 {
      assert Mag(z[last], b.al) == 1;
    }
  }

  // ---------- decoder ----------

  /** Read the length of a run, whose symbol has been read. */
  ghost function ReadRun(r: nat, bits: Bits): Option<(nat, Bits)> {
    match ReadBits(r, bits)
    case None => None
    case Some((x, rest)) => Some((Pow2(r) + x, rest))
  }

  /** Read a correction bit for coefficient k, which is nonzero. */
  ghost function CorrectOne(y: Block, k: nat, al: nat, bits: Bits): Option<(Block, Bits)>
    requires k < 64
  {
    match ReadBits(1, bits)
    case None => None
    case Some((x, rest)) =>
      Some((if x == 0 then y else y[k := if y[k] > 0 then y[k] + Pow2(al) else y[k] - Pow2(al)], rest))
  }

  /** Read correction bits for the nonzero coefficients from k to the end of the band. */
  ghost function Correct(y: Block, k: nat, b: Band, bits: Bits): Option<(Block, Bits)>
    requires b.Valid()
    decreases 64 - k
  {
    if k > b.se then Some((y, bits))
    else if y[k] == 0 then Correct(y, k + 1, b, bits)
    else
      match CorrectOne(y, k, b.al, bits)
      case None => None
      case Some((y', rest)) => Correct(y', k + 1, b, rest)
  }

  /** Pass over nonzero coefficients, reading their correction bits, and over r zeros; stop at the next
      zero or at the end of the band. */
  ghost function Advance(y: Block, k: nat, r: nat, b: Band, bits: Bits): (res: Option<(nat, Block, Bits)>)
    requires b.Valid()
    ensures res.Some? ==> res.value.0 >= k
    decreases 64 - k
  {
    if k > b.se then Some((k, y, bits))
    else if y[k] == 0 then
      if r == 0 then Some((k, y, bits)) else Advance(y, k + 1, r - 1, b, bits)
    else
      match CorrectOne(y, k, b.al, bits)
      case None => None
      case Some((y', rest)) => Advance(y', k + 1, r, b, rest)
  }

  /** Decode the band from position k on, outside a run.  Returns the number of bands to come that end
      early. */
  ghost function DecodeBand(t: Derived, y: Block, k: nat, b: Band, bits: Bits): Option<(Block, nat, Bits)>
    requires b.Valid()
    decreases 64 - k
  {
    if k > b.se then Some((y, 0, bits))
    else
      match ReadSymbol(t, bits)
      case None => None
      case Some((s, rest)) =>
        var r, n := s / 16, s % 16;
        if n == 0 && r < 15 then
          match ReadRun(r, rest)
          case None => None
          case Some((run, more)) =>
            match Correct(y, k, b, more)
            case None => None
            case Some((y', end)) => Some((y', run - 1, end))
        else
          match ReadBits(if n == 0 then 0 else 1, rest)
          case None => None
          case Some((x, more)) =>
            match Advance(y, k, r, b, more)
            case None => None
            case Some((k', y', end)) =>
              if n == 0 then DecodeBand(t, y', k' + 1, b, end)
              else if k' > b.se then None
              else DecodeBand(t, y'[k' := if x == 1 then Pow2(b.al) else -(Pow2(b.al) as int)], k' + 1, b, end)
  }

  // ---------- round trip ----------

  /** `y0` holds the band of `z` at the precision of the earlier scans. */
  ghost predicate Coarse(z: Block, y0: Block, b: Band) {
    b.Valid() && forall j :: b.ss <= j <= b.se ==> y0[j] == Point(z[j], b.al + 1)
  }

  /** `y0` with the band refined up to position k. */
  function Refined(z: Block, y0: Block, k: nat, b: Band): Block {
    seq(64, j requires 0 <= j < 64 => if b.ss <= j < k then Point(z[j], b.al) else y0[j])
  }

  lemma RefinedNext(z: Block, y0: Block, k: nat, b: Band)
    requires Coarse(z, y0, b) && b.ss <= k <= b.se
    ensures Refined(z, y0, k, b)[k] == Point(z[k], b.al + 1)
    ensures Refined(z, y0, k + 1, b) == Refined(z, y0, k, b)[k := Point(z[k], b.al)]
    ensures Mag(z[k], b.al) == 0 ==> Refined(z, y0, k + 1, b) == Refined(z, y0, k, b)
  {
    hide Point;
    PointRefines(z[k], b.al);
  }

  lemma FromOneBit(x: nat, more: Items, d: Tables, rest: Bits)
    requires x < 2
    ensures ReadBits(1, ItemBits([Extra(x, 1)] + more, d) + rest) == Some((x, ItemBits(more, d) + rest))
  {
    hide ItemBits, ReadBits;
    ItemBitsCons(Extra(x, 1), more, d);
    Pow2Small();
    BitsAreRead(x, 1, ItemBits(more, d) + rest);
    assert ToBits(x, 1) + ItemBits(more, d) + rest == ToBits(x, 1) + (ItemBits(more, d) + rest);
  }

  /** The step over a coefficient that is already nonzero. */
  lemma CorrectionIsRead(z: Block, y0: Block, k: nat, b: Band, more: Items, d: Tables, rest: Bits)
    requires Coarse(z, y0, b) && b.ss <= k <= b.se && Mag(z[k], b.al) > 1
    ensures var y := Refined(z, y0, k, b);
      && y[k] != 0
      && CorrectOne(y, k, b.al, ItemBits([Extra(Mag(z[k], b.al) % 2, 1)] + more, d) + rest)
         == Some((Refined(z, y0, k + 1, b), ItemBits(more, d) + rest))
  {
    hide ItemBits, ReadBits, Refined, Mag, Pow2, Point;
    RefinedNext(z, y0, k, b);
    PointRefines(z[k], b.al);
    FromOneBit(Mag(z[k], b.al) % 2, more, d, rest);
    var y := Refined(z, y0, k, b);
    assert y[k := y[k]] == y;
  }

  lemma {:induction false} CorrectionsAreRead(z: Block, y0: Block, k: nat, b: Band, d: Tables, rest: Bits)
    requires Coarse(z, y0, b) && b.ss <= k <= b.se + 1
    requires forall j :: k <= j <= b.se ==> Mag(z[j], b.al) != 1
    ensures Correct(Refined(z, y0, k, b), k, b, ItemBits(Corrections(z, k, b.se + 1, b.al), d) + rest)
         == Some((Refined(z, y0, b.se + 1, b), rest))
    decreases 64 - k
  {
    hide ItemBits, ReadBits, Refined, Mag, Pow2, Point, CorrectOne;
    if k > b.se {
      NothingSpelled(d, rest);
    } else {
      CorrectionsAreRead(z, y0, k + 1, b, d, rest);
      RefinedNext(z, y0, k, b);
      PointRefines(z[k], b.al);
      if Mag(z[k], b.al) > 1 {
        CorrectionIsRead(z, y0, k, b, Corrections(z, k + 1, b.se + 1, b.al), d, rest);
      } else {
        assert [] + Corrections(z, k + 1, b.se + 1, b.al) == Corrections(z, k + 1, b.se + 1, b.al);
      }
    }
  }

  /** Passing over coefficients up to position k, the next to become nonzero or to stay zero. */
  lemma {:induction false} PassedIsRead(z: Block, y0: Block, k0: nat, k: nat, b: Band, more: Items, d: Tables, rest: Bits)
    requires Coarse(z, y0, b) && b.ss <= k0 <= k <= b.se && Mag(z[k], b.al) <= 1
    requires forall j :: k0 <= j < k ==> Mag(z[j], b.al) != 1
    ensures Advance(Refined(z, y0, k0, b), k0, Zeros0(z, k0, k, b.al), b,
              ItemBits(Corrections(z, k0, k, b.al) + more, d) + rest)
         == Some((k, Refined(z, y0, k, b), ItemBits(more, d) + rest))
    decreases k - k0
  {
    hide ItemBits, ReadBits, Refined, Mag, Pow2, Point, CorrectOne;
    RefinedNext(z, y0, k0, b);
    PointRefines(z[k0], b.al);
    var passed := Corrections(z, k0, k, b.al);
    if k0 == k {
      assert passed + more == more;
    } else {
      var later := Corrections(z, k0 + 1, k, b.al);
      PassedIsRead(z, y0, k0 + 1, k, b, more, d, rest);
      if Mag(z[k0], b.al) > 1 {
        CorrectionIsRead(z, y0, k0, b, later + more, d, rest);
        assert passed + more == [Extra(Mag(z[k0], b.al) % 2, 1)] + (later + more);
      } else {
        assert passed + more == later + more;
      }
    }
  }

  /** Everything up to the last coefficient that becomes nonzero is decoded; k0 is where the decoder stands
      when the encoder has looked at the coefficients up to k. */
  lemma {:induction false} HeadIsDecoded(
    z: Block, y0: Block, k0: nat, k: nat, last: nat, b: Band, ac: nat, d: Tables, rest: Bits)
    requires Coarse(z, y0, b) && b.ss <= k0 <= k <= last + 1 <= b.se + 1 && (k == last + 1 ==> k0 == k)
    requires Mag(z[last], b.al) == 1 && forall j :: k0 <= j < k ==> Mag(z[j], b.al) != 1
    requires Zeros0(z, k0, k, b.al) <= 15
    requires Decodable(d) && ac < |d| && Encodable(HeadItems(z, k0, k, last, b.al, ac), d)
    ensures DecodeBand(d[ac], Refined(z, y0, k0, b), k0, b,
              ItemBits(HeadItems(z, k0, k, last, b.al, ac), d) + rest)
         == DecodeBand(d[ac], Refined(z, y0, last + 1, b), last + 1, b, rest)
    decreases last + 1 - k
  {
    hide ItemBits, ReadSymbol, ReadBits, Refined, Mag, Pow2, Point, Advance, DecodeBand, Decodable, Encodable,
      Correct, Corrections, Zeros0;
    if k > last {
      NothingSpelled(d, rest);
    } else {
      var r := Zeros0(z, k0, k, b.al);
      var passed := Corrections(z, k0, k, b.al);
      var more := HeadItems(z, k + 1, k + 1, last, b.al, ac);
      CorrectionsSnoc(z, k0, k, b.al);
      NoZeros(z, k + 1, b.al);
      if Mag(z[k], b.al) == 1 {
        NewCoefficientIsDecoded(z, y0, k0, k, b, ac, more, d, rest);
        HeadIsDecoded(z, y0, k + 1, k + 1, last, b, ac, d, rest);
      } else if Mag(z[k], b.al) == 0 && r == 15 {
        assert k < last;
        ZeroRunIsDecoded(z, y0, k0, k, b, ac, more, d, rest);
        HeadIsDecoded(z, y0, k + 1, k + 1, last, b, ac, d, rest);
      } else {
        HeadIsDecoded(z, y0, k0, k + 1, last, b, ac, d, rest);
      }
    }
  }

  lemma NoZeros(z: Block, k: nat, al: nat)
    requires k <= 64
    ensures Zeros0(z, k, k, al) == 0
  {
  }

  /** The decoder's step up to a coefficient that becomes nonzero. */
  lemma NewCoefficientIsDecoded(
    z: Block, y0: Block, k0: nat, k: nat, b: Band, ac: nat, more: Items, d: Tables, rest: Bits)
    requires Coarse(z, y0, b) && b.ss <= k0 <= k <= b.se && Mag(z[k], b.al) == 1
    requires Zeros0(z, k0, k, b.al) <= 15 && forall j :: k0 <= j < k ==> Mag(z[j], b.al) != 1
    requires Decodable(d) && ac < |d|
    requires var r := Zeros0(z, k0, k, b.al);
      Encodable([Symbol(ac, 16 * r + 1), Sign(z[k])] + (Corrections(z, k0, k, b.al) + more), d)
    ensures Encodable(more, d)
    ensures var r := Zeros0(z, k0, k, b.al);
      var items := [Symbol(ac, 16 * r + 1), Sign(z[k])] + (Corrections(z, k0, k, b.al) + more);
      DecodeBand(d[ac], Refined(z, y0, k0, b), k0, b, ItemBits(items, d) + rest)
      == DecodeBand(d[ac], Refined(z, y0, k + 1, b), k + 1, b, ItemBits(more, d) + rest)
  {
    hide ItemBits, ReadSymbol, ReadBits, Refined, Mag, Pow2, Advance, Decodable, Encodable, Correct, Corrections,
      Zeros0, Point;
    var r := Zeros0(z, k0, k, b.al);
    var passed := Corrections(z, k0, k, b.al);
    PairIsReadFirst(d, ac, 16 * r + 1, Sign(z[k]).value, 1, passed + more, rest);
    EncodableAppend(passed, more, d);
    PassedIsRead(z, y0, k0, k, b, more, d, rest);
    NewPoint(z[k], b.al);
    RefinedNext(z, y0, k, b);
  }

  lemma NewPoint(v: int, al: nat)
    requires Mag(v, al) == 1
    ensures Point(v, al) == if v < 0 then -(Pow2(al) as int) else Pow2(al)
  {
    PointRefines(v, al);
  }

  /** The decoder's step over a run of sixteen zeros. */
  lemma ZeroRunIsDecoded(
    z: Block, y0: Block, k0: nat, k: nat, b: Band, ac: nat, more: Items, d: Tables, rest: Bits)
    requires Coarse(z, y0, b) && b.ss <= k0 <= k <= b.se && Mag(z[k], b.al) == 0
    requires Zeros0(z, k0, k, b.al) == 15 && forall j :: k0 <= j < k ==> Mag(z[j], b.al) != 1
    requires Decodable(d) && ac < |d|
    requires Encodable([Symbol(ac, 0xF0)] + (Corrections(z, k0, k, b.al) + more), d)
    ensures Encodable(more, d)
    ensures var items := [Symbol(ac, 0xF0)] + (Corrections(z, k0, k, b.al) + more);
      DecodeBand(d[ac], Refined(z, y0, k0, b), k0, b, ItemBits(items, d) + rest)
      == DecodeBand(d[ac], Refined(z, y0, k + 1, b), k + 1, b, ItemBits(more, d) + rest)
  {
    hide ItemBits, ReadSymbol, Refined, Mag, Pow2, Advance, Decodable, Encodable, Correct, Corrections, Zeros0, Point,
      FromBits;
    var passed := Corrections(z, k0, k, b.al);
    SymbolIsReadFirst(d, ac, 0xF0, passed + more, rest);
    EncodableAppend(passed, more, d);
    PassedIsRead(z, y0, k0, k, b, more, d, rest);
    RefinedNext(z, y0, k, b);
    var bits := ItemBits(passed + more, d) + rest;
    assert bits[..0] == [] && bits[0..] == bits;
  }
}
