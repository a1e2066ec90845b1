/** One block of the sequential mode: its symbols and additional bits (section F.1.2 of ITU-T T.81),
    the decoder (section F.2.2), and the round trip between them. */
module SequentialBlock {
  import opened BitStrings
  import opened HuffmanDerive
  import opened EntropyItems
  import opened Coefficients

  function DcItems(diff: int, dc: nat): Items {
    var n := NBits(Abs(diff));
    [Symbol(dc, n), Extra(ExtraBits(diff), n)]
  }

  /** The items of the coefficients from position k on, r zeros having been skipped before it. */
  function AcItems(z: Block, k: nat, r: nat, ac: nat): Items
    requires k <= 64
    decreases 64 - k, r
  {
    if k == 64 then if r > 0 then [Symbol(ac, 0)] else []
    else if z[k] == 0 then AcItems(z, k + 1, r + 1, ac)
    else if r > 15 then [Symbol(ac, 0xF0)] + AcItems(z, k, r - 16, ac)
    else
      var n := NBits(Abs(z[k]));
      [Symbol(ac, 16 * r + n), Extra(ExtraBits(z[k]), n)] + AcItems(z, k + 1, 0, ac)
  }

  function BlockItems(b: Block, lastDc: int, dc: nat, ac: nat): Items {
    DcItems(b[0] - lastDc, dc) + AcItems(Zigzag(b), 1, 0, ac)
  }

  /** Coefficients whose categories fit the four bits that a symbol has for them. */
  ghost predicate InRange(b: Block, lastDc: int) {
    && NBits(Abs(b[0] - lastDc)) <= 15
    && forall i :: 1 <= i < 64 ==> NBits(Abs(b[i])) <= 15
  }

  /** One step of the definition of AcItems. */
  lemma AcItemsAt(z: Block, k: nat, r: nat, ac: nat)
    requires k < 64
    ensures z[k] == 0 ==> AcItems(z, k, r, ac) == AcItems(z, k + 1, r + 1, ac)
    ensures z[k] != 0 && r > 15 ==> AcItems(z, k, r, ac) == [Symbol(ac, 0xF0)] + AcItems(z, k, r - 16, ac)
    ensures var n := NBits(Abs(z[k]));
      z[k] != 0 && r <= 15 ==>
        AcItems(z, k, r, ac) == [Symbol(ac, 16 * r + n), Extra(ExtraBits(z[k]), n)] + AcItems(z, k + 1, 0, ac)
  {
    hide NBits, Abs, ExtraBits;
  }

  lemma LastItems(z: Block, r: nat, ac: nat)
    ensures AcItems(z, 64, r, ac) == if r > 0 then [Symbol(ac, 0)] + [] else []
  {
  }

  // ---------- the items, in the terms of section F.1.2 of ITU-T T.81 ----------

  lemma {:induction false} AfterZeros(z: Block, k: nat, r: nat, j: nat, n: nat, x: nat, ac: nat)
    requires k <= j < 64 && z[j] != 0 && InCategory(z[j], n, x) && forall i :: k <= i < j ==> z[i] == 0
    ensures var run := r + (j - k);
      AcItems(z, k, r, ac) ==
        seq(run / 16, _ => Symbol(ac, 0xF0))
        + [Symbol(ac, 16 * (run % 16) + n), Extra(x, n)] + AcItems(z, j + 1, 0, ac)
    decreases j - k, r
  {
    hide AcItems, InCategory, NBits, ExtraBits;
    AcItemsAt(z, k, r, ac);
    if k < j {
      AfterZeros(z, k + 1, r + 1, j, n, x, ac);
    } else if r > 15 {
      AfterZeros(z, k, r - 16, j, n, x, ac);
      var m := r / 16;
      assert seq(m, _ => Symbol(ac, 0xF0)) == [Symbol(ac, 0xF0)] + seq(m - 1, _ => Symbol(ac, 0xF0));
    } else {
      CategoryOf(z[j], n, x);
    }
  }

  lemma {:induction false} OnlyZerosLeft(z: Block, k: nat, r: nat, ac: nat)
    requires k <= 64 && forall i :: k <= i < 64 ==> z[i] == 0
    ensures AcItems(z, k, r, ac) == if k < 64 || r > 0 then [Symbol(ac, 0)] else []
    decreases 64 - k
  {
    if k < 64 {
      OnlyZerosLeft(z, k + 1, r + 1, ac);
    }
  }

  /** The DC coefficient goes ahead as its difference to the prediction: the category, and the additional bits. */
  lemma BlockBeginsWithDc(b: Block, lastDc: int, n: nat, x: nat, dc: nat, ac: nat)
    requires InCategory(b[0] - lastDc, n, x)
    ensures BlockItems(b, lastDc, dc, ac) == [Symbol(dc, n), Extra(x, n)] + AcItems(Zigzag(b), 1, 0, ac)
  {
    hide AcItems, Zigzag, InCategory;
    CategoryOf(b[0] - lastDc, n, x);
  }

  /** A nonzero coefficient behind a run of zeros: 0xF0 for each sixteen of them, then the rest of the run and the
      category in one symbol, and the additional bits.  Zeros up to the end of the block: symbol 0. */
  lemma AcItemsAre(z: Block, k: nat, j: nat, n: nat, x: nat, ac: nat)
    requires k <= j <= 64 && forall i :: k <= i < j ==> z[i] == 0
    ensures j == 64 ==> AcItems(z, k, 0, ac) == if k < 64 then [Symbol(ac, 0)] else []
    ensures j < 64 && z[j] != 0 && InCategory(z[j], n, x) ==>
      AcItems(z, k, 0, ac) ==
        seq((j - k) / 16, _ => Symbol(ac, 0xF0))
        + [Symbol(ac, 16 * ((j - k) % 16) + n), Extra(x, n)] + AcItems(z, j + 1, 0, ac)
  {
    hide AcItems, InCategory;
    if j == 64 {
      OnlyZerosLeft(z, k, 0, ac);
    } else if z[j] != 0 && InCategory(z[j], n, x) {
      AfterZeros(z, k, 0, j, n, x, ac);
    }
  }

  // ---------- decoder ----------

  ghost function DecodeAc(t: Derived, k: nat, z: Block, bits: Bits): Option<(Block, Bits)>
    decreases 64 - k
  {
    if k >= 64 then Some((z, bits))
    else
      match ReadSymbol(t, bits)
      case None => None
      case Some((s, rest)) =>
        var r, n := s / 16, s % 16;
        if n == 0 then
          if r == 15 then DecodeAc(t, k + 16, z, rest) else Some((z, rest))
        else if k + r >= 64 then None
        else
          match ReadBits(n, rest)
          case None => None
          case Some((x, more)) => DecodeAc(t, k + r + 1, z[k + r := Extend(x, n)], more)
  }

  ghost function DecodeBlock(dct: Derived, act: Derived, lastDc: int, bits: Bits): Option<(Block, Bits)> {
    match ReadSymbol(dct, bits)
    case None => None
    case Some((n, rest)) =>
      match ReadBits(n, rest)
      case None => None
      case Some((x, more)) =>
        match DecodeAc(act, 1, seq(64, _ => 0)[0 := lastDc + Extend(x, n)], more)
        case None => None
        case Some((z, end)) => Some((Unzigzag(z), end))
  }

  // ---------- round trip ----------

  /** `z` up to position k, and zeros from there on. */
  function Upto(z: Block, k: nat): Block
    requires k <= 64
  {
    z[..k] + seq(64 - k, _ => 0)
  }

  lemma DecodeAcEnds(t: Derived, k: nat, z: Block, bits: Bits)
    ensures k >= 64 ==> DecodeAc(t, k, z, bits) == Some((z, bits))
    ensures var read := ReadSymbol(t, bits);
      k < 64 && read.Some? ==>
        && (read.value.0 == 0 ==> DecodeAc(t, k, z, bits) == Some((z, read.value.1)))
        && (read.value.0 == 0xF0 ==> DecodeAc(t, k, z, bits) == DecodeAc(t, k + 16, z, read.value.1))
  {
    hide ReadSymbol, ReadBits, Extend;
  }

  lemma DecodeAcPair(t: Derived, at: nat, r: nat, n: nat, x: nat, z: Block, bits: Bits)
    requires at + r < 64 && r <= 15 && 0 < n <= 15
    requires ReadSymbol(t, bits).Some? && ReadSymbol(t, bits).value.0 == 16 * r + n
    requires var after := ReadBits(n, ReadSymbol(t, bits).value.1); after.Some? && after.value.0 == x
    ensures var more := ReadBits(n, ReadSymbol(t, bits).value.1).value.1;
      DecodeAc(t, at, z, bits) == DecodeAc(t, at + r + 1, z[at + r := Extend(x, n)], more)
  {
    hide ReadSymbol, ReadBits, Extend;
  }

  /** The decoder's step over a run of zeros and the coefficient behind it. */
  lemma CoefficientIsDecoded(z: Block, k: nat, r: nat, ac: nat, d: Tables, rest: Bits)
    requires r < k < 64 && r <= 15 && z[k] != 0 && NBits(Abs(z[k])) <= 15
    requires Decodable(d) && ac < |d|
    requires forall i :: k - r <= i < k ==> z[i] == 0
    requires Encodable(AcItems(z, k, r, ac), d)
    ensures var more := AcItems(z, k + 1, 0, ac);
      && Encodable(more, d)
      && DecodeAc(d[ac], k - r, Upto(z, k - r), ItemBits(AcItems(z, k, r, ac), d) + rest)
         == DecodeAc(d[ac], k + 1, Upto(z, k + 1), ItemBits(more, d) + rest)
  {
    hide ItemBits, ReadSymbol, ReadBits, ExtraBits, Extend, NBits, Abs, Encodable, Decodable, AcItems, DecodeAc;
    var n, x := NBits(Abs(z[k])), ExtraBits(z[k]);
    var items, more := AcItems(z, k, r, ac), AcItems(z, k + 1, 0, ac);
    NonzeroCategory(z[k]);
    AcItemsAt(z, k, r, ac);
    PairIsReadFirst(d, ac, 16 * r + n, x, n, more, rest);
    ExtendInverts(z[k]);
    DecodeAcPair(d[ac], k - r, r, n, x, Upto(z, k - r), ItemBits(items, d) + rest);
    assert Upto(z, k + 1) == Upto(z, k - r)[k := z[k]];
  }

  lemma {:induction false} AcRoundTrip(z: Block, k: nat, r: nat, ac: nat, d: Tables, rest: Bits)
    requires k <= 64 && r < k && Decodable(d) && ac < |d|
    requires forall i :: 1 <= i < 64 ==> NBits(Abs(z[i])) <= 15
    requires forall i :: k - r <= i < k ==> z[i] == 0
    requires Encodable(AcItems(z, k, r, ac), d)
    ensures DecodeAc(d[ac], k - r, Upto(z, k - r), ItemBits(AcItems(z, k, r, ac), d) + rest) == Some((z, rest))
    decreases 64 - k, r
  {
    hide ItemBits, ReadSymbol, ReadBits, ExtraBits, Extend, NBits, Abs, Encodable, Decodable, AcItems, DecodeAc;
    var at := k - r;
    var items := AcItems(z, k, r, ac);
    if k == 64 {
      assert Upto(z, at) == z;
      NothingSpelled(d, rest);
      LastItems(z, r, ac);
      DecodeAcEnds(d[ac], at, z, ItemBits(items, d) + rest);
      if r > 0 {
        assert items == [Symbol(ac, 0)] + [];
        SymbolIsReadFirst(d, ac, 0, [], rest);
      }
    } else if z[k] == 0 {
      AcItemsAt(z, k, r, ac);
      AcRoundTrip(z, k + 1, r + 1, ac, d, rest);
    } else if r > 15 {
      AcItemsAt(z, k, r, ac);
      DecodeAcEnds(d[ac], at, Upto(z, at), ItemBits(items, d) + rest);
      SymbolIsReadFirst(d, ac, 0xF0, AcItems(z, k, r - 16, ac), rest);
      AcRoundTrip(z, k, r - 16, ac, d, rest);
      assert Upto(z, at + 16) == Upto(z, at);
    } else {
      CoefficientIsDecoded(z, k, r, ac, d, rest);
      AcRoundTrip(z, k + 1, 0, ac, d, rest);
    }
  }

  lemma NonzeroCategory(v: int)
    requires v != 0
    ensures NBits(Abs(v)) > 0
  {
  }

  /** Decoding a block's bits gives the block back and leaves what follows untouched. */
  lemma BlockRoundTrip(b: Block, lastDc: int, dc: nat, ac: nat, d: Tables, rest: Bits)
    requires InRange(b, lastDc) && Decodable(d) && dc < |d| && ac < |d|
    requires Encodable(BlockItems(b, lastDc, dc, ac), d)
    ensures DecodeBlock(d[dc], d[ac], lastDc, ItemBits(BlockItems(b, lastDc, dc, ac), d) + rest) == Some((b, rest))
  {
    hide DecodeBlock, DecodeAc, ItemBits, AcItems, Zigzag, NBits, Encodable, Decodable;
    var z := Zigzag(b);
    DcDecodes(b, lastDc, dc, ac, d, rest);
    ZigzagKeepsRange(b, 15);
    AcRoundTrip(z, 1, 0, ac, d, rest);
    ZigzagIsInvertible(b);
  }

  /** The DC difference is decoded, and the AC coefficients are left. */
  lemma DcDecodes(b: Block, lastDc: int, dc: nat, ac: nat, d: Tables, rest: Bits)
    requires Decodable(d) && dc < |d| && ac < |d|
    requires Encodable(BlockItems(b, lastDc, dc, ac), d)
    ensures var more := AcItems(Zigzag(b), 1, 0, ac);
      && Encodable(more, d)
      && DecodeBlock(d[dc], d[ac], lastDc, ItemBits(BlockItems(b, lastDc, dc, ac), d) + rest)
         == match DecodeAc(d[ac], 1, Upto(Zigzag(b), 1), ItemBits(more, d) + rest)
            case None => None
            case Some((z, end)) => Some((Unzigzag(z), end))
  {
    hide ItemBits, ReadSymbol, ReadBits, ExtraBits, Extend, NBits, HasCode, DecodeAc, AcItems, Unzigzag;
    var diff := b[0] - lastDc;
    var n := NBits(Abs(diff));
    var head, more := DcItems(diff, dc), AcItems(Zigzag(b), 1, 0, ac);
    PairIsReadFirst(d, dc, n, ExtraBits(diff), n, more, rest);
    ExtendInverts(diff);
    assert Zigzag(b)[0] == b[0];
    assert Upto(Zigzag(b), 1) == seq(64, _ => 0)[0 := b[0]];
  }

  /** The AC coefficients are the same in both orders. */
  lemma ZigzagKeepsRange(b: Block, m: nat)
    ensures (forall i :: 1 <= i < 64 ==> NBits(Abs(Zigzag(b)[i])) <= m) <==>
            (forall i :: 1 <= i < 64 ==> NBits(Abs(b[i])) <= m)
  {
    hide NBits, NaturalOrder, Abs;
    var z := Zigzag(b);
    forall i: nat | 1 <= i < 64 ensures NaturalOrder(i) != 0 && ZigzagIndex(i) != 0 && z[ZigzagIndex(i)] == b[i] {
      OnlyDcFirst(i);
      OnlyDcFirst(ZigzagIndex(i));
    }
  }

  lemma OnlyDcFirst(k: nat)
    requires k < 64
    ensures NaturalOrder(k) == 0 <==> k == 0
  {
  }
}
