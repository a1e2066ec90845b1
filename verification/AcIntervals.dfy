/** A restart interval of an AC scan, first or refining: end-of-band runs that span blocks, and the round trip
    through them. */
module AcIntervals {
  import opened Shifts
  import opened BitStrings
  import opened HuffmanDerive
  import opened EntropyItems
  import opened Coefficients
  import opened EobRuns
  import opened RefineBlock
  import opened FirstBlock

  /** What a block contributes to the scan. */
  function BandPart(z: Block, b: Band, ac: nat): Part
    requires b.Valid()
  {
    if b.first then FirstPart(z, b, ac) else RefinePart(z, b, ac)
  }

  /** What is known of a block before the scan: nothing of the band, or the band at a lower precision. */
  ghost predicate Prior(z: Block, y0: Block, b: Band) {
    if b.first then Unknown(y0, b) && BandInRange(z, b) else Coarse(z, y0, b)
  }

  /** Where the end of the band begins. */
  function EndStart(z: Block, b: Band): (s: nat)
    requires b.Valid()
  {
    if b.first then b.se + 1 - TrailingZeros(z, b.ss, 0, b) else TailStart(z, b)
  }

  /** Decode the band from position k on, outside a run. */
  ghost function DecodeFrom(t: Derived, y: Block, k: nat, b: Band, bits: Bits): Option<(Block, nat, Bits)>
    requires b.Valid()
  {
    if b.first then DecodeFirst(t, y, k, b, bits) else DecodeBand(t, y, k, b, bits)
  }

  /** Decode one block, given the number of bands to come that end early. */
  ghost function DecodeBlockAt(t: Derived, run: nat, y: Block, b: Band, bits: Bits): Option<(Block, nat, Bits)>
    requires b.Valid()
  {
    if run == 0 then DecodeFrom(t, y, b.ss, b, bits)
    else if b.first then Some((y, run - 1, bits))
    else
      match Correct(y, b.ss, b, bits)
      case None => None
      case Some((y', rest)) => Some((y', run - 1, rest))
  }

  function BandParts(zs: seq<Block>, b: Band, ac: nat): (ps: seq<Part>)
    requires b.Valid()
    ensures |ps| == |zs|
  {
    seq(|zs|, i requires 0 <= i < |zs| => BandPart(zs[i], b, ac))
  }

  /** What is written for the blocks of one interval. */
  function BandItems(zs: seq<Block>, b: Band, ac: nat): Items
    requires b.Valid()
  {
    RunItems(BandParts(zs, b, ac), ac)
  }

  /** Decode the blocks of one interval, given the number of bands to come that end early. */
  ghost function DecodeBlocks(t: Derived, run: nat, ys: seq<Block>, b: Band, bits: Bits)
    : Option<(seq<Block>, nat, Bits)>
    requires b.Valid()
    decreases |ys|
  {
    if ys == [] then Some(([], run, bits))
    else
      match DecodeBlockAt(t, run, ys[0], b, bits)
      case None => None
      case Some((y, run', rest)) =>
        match DecodeBlocks(t, run', ys[1..], b, rest)
        case None => None
        case Some((more, last, end)) => Some(([y] + more, last, end))
  }

  ghost predicate AllPrior(zs: seq<Block>, ys: seq<Block>, b: Band) {
    |zs| == |ys| && b.Valid() && forall i :: 0 <= i < |zs| ==> Prior(zs[i], ys[i], b)
  }

  /** The blocks known so far, with the band at the precision of this scan. */
  function AllRefined(zs: seq<Block>, ys: seq<Block>, b: Band): (r: seq<Block>)
    requires |zs| == |ys|
  {
    seq(|zs|, i requires 0 <= i < |zs| => Refined(zs[i], ys[i], b.se + 1, b))
  }

  lemma {:induction false} HeadNotEmpty(z: Block, k0: nat, k: nat, last: nat, al: nat, ac: nat)
    requires k <= last < 64 && Mag(z[last], al) == 1
    ensures HeadItems(z, k0, k, last, al, ac) != []
    decreases last - k
  {
    if k < last {
      HeadNotEmpty(z, k0, k + 1, last, al, ac);
    }
  }

  lemma {:induction false} CorrectionsFew(z: Block, i: nat, j: nat, al: nat)
    requires j <= 64
    ensures |Corrections(z, i, j, al)| <= if i < j then j - i else 0
    decreases j - i
  {
    if i < j {
      CorrectionsFew(z, i + 1, j, al);
    }
  }

  /** The shape of a refined block's contribution. */
  lemma RefineShape(z: Block, b: Band, ac: nat)
    requires b.Valid()
    ensures var p := RefinePart(z, b, ac);
      && Plausible(p)
      && (p.head == [] <==> LastNew(z, b.ss, b.se + 1, b.al) == 0)
      && forall j :: TailStart(z, b) <= j <= b.se ==> Mag(z[j], b.al) != 1
  {
    hide Mag, Corrections;
    var last := LastNew(z, b.ss, b.se + 1, b.al);
    var s := TailStart(z, b);
    if last != 0 {
      HeadNotEmpty(z, b.ss, b.ss, last, b.al, ac);
    }
    CorrectionsFew(z, s, b.se + 1, b.al);
  }

  /** The shape of a first block's contribution: without a head, all of the band is zero. */
  lemma {:induction false} FirstShape(z: Block, k: nat, r: nat, b: Band, ac: nat)
    requires b.Valid() && k <= b.se + 1
    ensures FirstItems(z, k, r, b, ac) == [] ==>
      TrailingZeros(z, k, r, b) == r + (b.se + 1 - k) && forall j :: k <= j <= b.se ==> Mag(z[j], b.al) == 0
    decreases b.se + 1 - k
  {
    hide Mag, NBits, ExtraBits;
    if k <= b.se && Mag(z[k], b.al) == 0 {
      FirstShape(z, k + 1, r + 1, b, ac);
    }
  }

  lemma PartShape(z: Block, b: Band, ac: nat)
    requires b.Valid()
    ensures Plausible(BandPart(z, b, ac))
  {
    hide FirstItems, TrailingZeros, RefinePart;
    if b.first {
      FirstShape(z, b.ss, 0, b, ac);
    } else {
      RefineShape(z, b, ac);
    }
  }

  lemma PartsShape(zs: seq<Block>, b: Band, ac: nat)
    requires b.Valid()
    ensures forall p <- BandParts(zs, b, ac) :: Plausible(p)
  {
    hide BandPart;
    forall i | 0 <= i < |zs| ensures Plausible(BandParts(zs, b, ac)[i]) {
      PartShape(zs[i], b, ac);
    }
  }

  // ---------- the head of a block ----------

  /** The decoder gets to where the end of the band begins. */
  lemma HeadIsRead(z: Block, y0: Block, b: Band, ac: nat, d: Tables, rest: Bits)
    requires Prior(z, y0, b) && Decodable(d) && ac < |d| && Encodable(BandPart(z, b, ac).head, d)
    ensures var s := EndStart(z, b);
      && b.ss <= s <= b.se + 1 && (BandPart(z, b, ac).open <==> s <= b.se)
      && DecodeFrom(d[ac], y0, b.ss, b, ItemBits(BandPart(z, b, ac).head, d) + rest)
         == DecodeFrom(d[ac], Refined(z, y0, s, b), s, b, rest)
  {
    hide ItemBits, Refined, Mag, Decodable, Encodable, DecodeBand, DecodeFirst, HeadItems, Corrections, LastNew,
      FirstItems, TrailingZeros;
    NothingRefined(z, y0, b);
    if b.first {
      FirstIsDecoded(z, y0, b.ss, 0, b, ac, d, rest);
    } else {
      RefineShape(z, b, ac);
      var last := LastNew(z, b.ss, b.se + 1, b.al);
      if last != 0 {
        NoZeros(z, b.ss, b.al);
        HeadIsDecoded(z, y0, b.ss, b.ss, last, b, ac, d, rest);
      } else {
        NothingSpelled(d, rest);
      }
    }
  }

  lemma NothingRefined(z: Block, y0: Block, b: Band)
    ensures Refined(z, y0, b.ss, b) == y0
  {
  }

  lemma BandIsFinished(t: Derived, z: Block, y0: Block, b: Band, bits: Bits)
    requires b.Valid()
    ensures DecodeFrom(t, Refined(z, y0, b.se + 1, b), b.se + 1, b, bits)
         == Some((Refined(z, y0, b.se + 1, b), 0, bits))
  {
  }

  // ---------- the end of a band ----------

  /** The length of a run, read where the end of a band begins. */
  lemma RunIsRead(n: nat, ac: nat, more: Items, d: Tables, rest: Bits)
    requires 0 < n <= MAX_EOBRUN && Decodable(d) && ac < |d| && Encodable(EobItems(n, ac) + more, d)
    ensures Encodable(more, d)
    ensures var first := ReadSymbol(d[ac], ItemBits(EobItems(n, ac) + more, d) + rest);
      && first.Some? && first.value.0 % 16 == 0 && first.value.0 / 16 < 15
      && ReadRun(first.value.0 / 16, first.value.1) == Some((n, ItemBits(more, d) + rest))
  {
    hide ItemBits, ReadSymbol, Pow2, Decodable, Encodable, FromBits;
    RunCategory(n);
    var c := NBits(n) - 1;
    if c > 0 {
      assert EobItems(n, ac) == [Symbol(ac, 16 * c), Extra(n - Pow2(c), c)];
      PairIsReadFirst(d, ac, 16 * c, n - Pow2(c), c, more, rest);
    } else {
      assert EobItems(n, ac) == [Symbol(ac, 0)];
      SymbolIsReadFirst(d, ac, 0, more, rest);
      assert n == 1 && Pow2(0) == 1 by { Pow2Small(); }
      NoBitsRead(ItemBits(more, d) + rest);
    }
  }

  lemma NoBitsRead(bits: Bits)
    ensures ReadBits(0, bits) == Some((0, bits))
  {
    assert bits[..0] == [] && bits[0..] == bits;
  }

  /** The end of a band, in or out of a run, has only correction bits. */
  lemma EndIsRead(z: Block, y0: Block, b: Band, ac: nat, more: Items, d: Tables, rest: Bits)
    requires Prior(z, y0, b) && b.ss <= EndStart(z, b) <= b.se && Encodable(BandPart(z, b, ac).tail + more, d)
    ensures Encodable(more, d)
    ensures var bits := ItemBits(BandPart(z, b, ac).tail + more, d) + rest;
      var s := EndStart(z, b);
      if b.first then bits == ItemBits(more, d) + rest && Refined(z, y0, s, b) == Refined(z, y0, b.se + 1, b)
      else Correct(Refined(z, y0, s, b), s, b, bits) == Some((Refined(z, y0, b.se + 1, b), ItemBits(more, d) + rest))
  {
    hide ItemBits, Refined, Mag, Encodable, Correct, HeadItems, Corrections, LastNew, FirstItems;
    var tail := BandPart(z, b, ac).tail;
    EncodableAppend(tail, more, d);
    ItemBitsAppend(tail, more, d);
    if b.first {
      assert tail + more == more;
      ZerosAreKnown(z, y0, EndStart(z, b), b.se + 1, b);
    } else {
      RefineShape(z, b, ac);
      Associative(ItemBits(tail, d), ItemBits(more, d), rest);
      CorrectionsAreRead(z, y0, TailStart(z, b), b, d, ItemBits(more, d) + rest);
    }
  }

  /** A run that begins with the end of this band. */
  lemma RunIsDecoded(z: Block, y0: Block, n: nat, b: Band, ac: nat, more: Items, d: Tables, rest: Bits)
    requires Prior(z, y0, b) && b.ss <= EndStart(z, b) <= b.se && 0 < n <= MAX_EOBRUN && Decodable(d) && ac < |d|
    requires Encodable(EobItems(n, ac) + (BandPart(z, b, ac).tail + more), d)
    ensures Encodable(more, d)
    ensures var s := EndStart(z, b);
      DecodeFrom(d[ac], Refined(z, y0, s, b), s, b,
        ItemBits(EobItems(n, ac) + (BandPart(z, b, ac).tail + more), d) + rest)
      == Some((Refined(z, y0, b.se + 1, b), n - 1, ItemBits(more, d) + rest))
  {
    hide ItemBits, ReadSymbol, Refined, Correct, Decodable, Encodable, Advance, BandPart, EobItems, ReadRun, ReadBits,
      Prior, EndStart;
    assert b.Valid() by { PriorIsValid(z, y0, b); }
    var tail := BandPart(z, b, ac).tail;
    RunIsRead(n, ac, tail + more, d, rest);
    EndIsRead(z, y0, b, ac, more, d, rest);
  }

  lemma PriorIsValid(z: Block, y0: Block, b: Band)
    requires Prior(z, y0, b)
    ensures b.Valid()
  {
  }

  /** One block outside a run: its head, and the run that its end begins. */
  lemma BlockIsDecoded(
    z: Block, y0: Block, parts: seq<Part>, b: Band, ac: nat, d: Tables, rest: Bits)
    requires b.Valid() && Prior(z, y0, b) && Decodable(d) && ac < |d| && forall p <- parts :: Plausible(p)
    requires Encodable(Rest(NO_RUN, [BandPart(z, b, ac)] + parts, ac), d)
    ensures var p := BandPart(z, b, ac);
      var m := if p.open then Ahead(Run(1, p.tail), parts) else 0;
      && Encodable(Remaining(m, parts, ac), d)
      && (forall i :: 0 <= i < m ==> parts[i].head == [])
      && DecodeBlockAt(d[ac], 0, y0, b, ItemBits(Rest(NO_RUN, [p] + parts, ac), d) + rest)
         == Some((Refined(z, y0, b.se + 1, b), m, ItemBits(Remaining(m, parts, ac), d) + rest))
  {
    hide ItemBits, Refined, Decodable, Encodable, DecodeFrom, Remaining, EobItems, Ahead, Rest, After, BandPart,
      EndStart, Prior;
    var p := BandPart(z, b, ac);
    PartShape(z, b, ac);
    RestOfOne(p, parts, ac);
    var tail := After(Absorb(NO_RUN, p), parts, ac);
    EncodableAppend(p.head, tail, d);
    ItemBitsAppend(p.head, tail, d);
    Associative(ItemBits(p.head, d), ItemBits(tail, d), rest);
    HeadIsRead(z, y0, b, ac, d, ItemBits(tail, d) + rest);
    if p.open {
      RunIsWrittenWhole(Run(1, p.tail), parts, ac);
      var m := Ahead(Run(1, p.tail), parts);
      RunIsDecoded(z, y0, 1 + m, b, ac, Remaining(m, parts, ac), d, rest);
    } else {
      RemainingNone(parts, ac);
      AfterNothing(parts, ac);
      BandIsFinished(d[ac], z, y0, b, ItemBits(tail, d) + rest);
    }
  }

  lemma RestOfOne(p: Part, parts: seq<Part>, ac: nat)
    ensures Rest(NO_RUN, [p] + parts, ac) == p.head + After(Absorb(NO_RUN, p), parts, ac)
    ensures Absorb(NO_RUN, p) == if p.open then Run(1, p.tail) else NO_RUN
  {
    hide After;
    assert ([p] + parts)[1..] == parts;
    assert [] + p.head == p.head && [] + p.tail == p.tail;
    if p.head == [] {
      assert [] + After(Absorb(NO_RUN, p), parts, ac) == p.head + After(Absorb(NO_RUN, p), parts, ac);
    }
  }

  lemma AfterNothing(parts: seq<Part>, ac: nat)
    ensures After(NO_RUN, parts, ac) == Rest(NO_RUN, parts, ac)
  {
  }

  /** A block without a head is all end. */
  lemma AllEnd(z: Block, b: Band, ac: nat)
    requires b.Valid() && BandPart(z, b, ac).head == []
    ensures EndStart(z, b) == b.ss
  {
    hide FirstItems, TrailingZeros;
    if b.first {
      FirstShape(z, b.ss, 0, b, ac);
    } else {
      RefineShape(z, b, ac);
    }
  }

  /** A block covered by a run. */
  lemma CoveredIsDecoded(z: Block, y0: Block, m: nat, more: Items, b: Band, ac: nat, d: Tables, rest: Bits)
    requires b.Valid() && Prior(z, y0, b) && m > 0 && BandPart(z, b, ac).head == []
    requires Encodable(BandPart(z, b, ac).tail + more, d)
    ensures Encodable(more, d)
    ensures forall t :: DecodeBlockAt(t, m, y0, b, ItemBits(BandPart(z, b, ac).tail + more, d) + rest)
                     == Some((Refined(z, y0, b.se + 1, b), m - 1, ItemBits(more, d) + rest))
  {
    hide ItemBits, Refined, Encodable, Correct, BandPart, EndStart, Prior;
    AllEnd(z, b, ac);
    NothingRefined(z, y0, b);
    EndIsRead(z, y0, b, ac, more, d, rest);
  }

  /** Decoding a scan from what was known of the blocks before gives them at the scan's precision, for any
      number of blocks, and with m of them still covered by a run that was read before. */
  lemma {:induction false} BlocksRoundTrip(
    zs: seq<Block>, ys: seq<Block>, m: nat, b: Band, ac: nat, d: Tables, rest: Bits)
    requires AllPrior(zs, ys, b) && Decodable(d) && ac < |d| && m <= |zs|
    requires var parts := BandParts(zs, b, ac);
      && (forall i :: 0 <= i < m ==> parts[i].head == [])
      && Encodable(Remaining(m, parts, ac), d)
    ensures DecodeBlocks(d[ac], m, ys, b, ItemBits(Remaining(m, BandParts(zs, b, ac), ac), d) + rest)
         == Some((AllRefined(zs, ys, b), 0, rest))
    decreases |zs|
  {
    hide ItemBits, Refined, Decodable, Encodable, Remaining, Prior, BandPart, DecodeBlockAt, Ahead, Rest;
    var parts := BandParts(zs, b, ac);
    if zs == [] {
      NothingRemains(ac);
      NothingSpelled(d, rest);
      assert parts == [] && AllRefined(zs, ys, b) == [];
      assert ys == [] && m == 0;
    } else {
      var z, y := zs[0], ys[0];
      var more := BandParts(zs[1..], b, ac);
      assert parts == [BandPart(z, b, ac)] + more;
      PartShape(z, b, ac);
      PartsShape(zs[1..], b, ac);
      assert AllRefined(zs, ys, b) == [Refined(z, y, b.se + 1, b)] + AllRefined(zs[1..], ys[1..], b);
      if m == 0 {
        RemainingNone(parts, ac);
        BlockIsDecoded(z, y, more, b, ac, d, rest);
        var p := BandPart(z, b, ac);
        BlocksRoundTrip(zs[1..], ys[1..], if p.open then Ahead(Run(1, p.tail), more) else 0, b, ac, d, rest);
      } else {
        RemainingStep(m, parts, ac);
        assert parts[1..] == more;
        forall i | 0 <= i < m - 1 ensures more[i].head == [] {
          assert parts[i + 1].head == [];
        }
        CoveredIsDecoded(z, y, m, Remaining(m - 1, more, ac), b, ac, d, rest);
        BlocksRoundTrip(zs[1..], ys[1..], m - 1, b, ac, d, rest);
      }
    }
  }

  lemma NothingRemains(ac: nat)
    ensures Remaining(0, [], ac) == []
  {
  }

  /** Round trip of a whole restart interval. */
  lemma IntervalRoundTrip(zs: seq<Block>, ys: seq<Block>, b: Band, ac: nat, d: Tables, rest: Bits)
    requires AllPrior(zs, ys, b) && Decodable(d) && ac < |d| && Encodable(BandItems(zs, b, ac), d)
    ensures DecodeBlocks(d[ac], 0, ys, b, ItemBits(BandItems(zs, b, ac), d) + rest)
         == Some((AllRefined(zs, ys, b), 0, rest))
  {
    hide ItemBits, Decodable, Encodable, Remaining, RunItems, Rest, DecodeBlocks, BandParts, AllRefined, Prior;
    var parts := BandParts(zs, b, ac);
    RunItemsLookAhead(parts, ac);
    RemainingNone(parts, ac);
    BlocksRoundTrip(zs, ys, 0, b, ac, d, rest);
  }

  // ---------- from scan to scan ----------

  /** What a scan leaves is what the next, one bit lower, builds upon. */
  lemma ReadyForNextScan(z: Block, y0: Block, b: Band)
    requires b.Valid() && b.al > 0
    ensures Prior(z, Refined(z, y0, b.se + 1, b), Band(b.ss, b.se, b.al - 1, false))
  {
    hide Point;
  }

  /** After the scan of the lowest bit the band is exact. */
  lemma LastScanIsExact(z: Block, y0: Block, b: Band)
    requires b.Valid() && b.al == 0
    ensures forall j :: b.ss <= j <= b.se ==> Refined(z, y0, b.se + 1, b)[j] == z[j]
  {
  }
}
