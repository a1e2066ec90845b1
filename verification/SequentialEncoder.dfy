/** The sequential Huffman encoder of jchuff.c: encoding a block, gathering its statistics, and the
    agreement of the two. */
module SequentialEncoder {
  import opened Shifts
  import opened BitStrings
  import opened ByteStreams
  import opened WordArithmetic
  import opened BitPacking
  import opened MacroPacking
  import opened EntropyItems
  import opened Coefficients
  import opened SequentialBlock
  import opened SequentialPending

  /** The branchless absolute value, and the value that the additional bits are taken from. */
  method SplitSign(value: int) returns (magnitude: nat, temp2: int)
    ensures magnitude == Abs(value)
    ensures Masked(temp2, NBits(Abs(value))) == ExtraBits(value)
  {
    var temp3 := if value < 0 then -1 else 0;
    var flipped := if temp3 == -1 then -value - 1 else value;
    magnitude := flipped - temp3;
    temp2 := value + temp3;
  }

  /** The kloop macro: one coefficient `temp`, the k-th in zigzag order `z`, after r zeros. */
  method KLoop(p: MacroPacker, temp: int, r0: nat, d: Tables, ac: nat, ghost z: Block, ghost k: nat) returns (r: nat)
    requires p.Valid() && Decodable(d) && ac < |d|
    requires k < 64 && temp == z[k] && NBits(Abs(temp)) <= 15 && Encodable(AcItems(z, k, r0, ac), d)
    modifies p
    ensures p.Valid() && p.trace.before == old(p.trace.before)
    ensures r <= r0 + 1 && Encodable(AcItems(z, k + 1, r, ac), d)
    ensures p.trace.sent + ItemBits(AcItems(z, k + 1, r, ac), d)
         == old(p.trace.sent) + ItemBits(AcItems(z, k, r0, ac), d)
    ensures AcPending(z, k + 1, r, d[ac], p.word, p.putBits) == AcPending(z, k, r0, d[ac], p.word, old(p.putBits))
  {
    hide ItemBits, NBits, Abs, Encodable, Decodable, ExtraBits, Masked, ToBits, Unpack, Stuff, Pow2, AcItems,
      AcPending, AfterField, AfterCode;
    AcItemsAt(z, k, r0, ac);
    AcPendingAt(z, k, r0, d[ac], p.word, p.putBits);
    if temp == 0 {
      return r0 + 1;
    }
    var magnitude, temp2 := SplitSign(temp);
    var nbits := NBits(magnitude);
    r := EmitZeroRuns(p, r0, d, ac, z, k);
    AcItemsAt(z, k, r, ac);
    AcPendingAt(z, k, r, d[ac], p.word, p.putBits);
    var s := 16 * r + nbits;
    PairBits(d, ac, s, ExtraBits(temp), nbits, AcItems(z, k + 1, 0, ac));
    p.EmitCode(d[ac].ehufco[s], d[ac].ehufsi[s], temp2, nbits);
    r := 0;
  }

  /** Special codes for runs of sixteen zeros, while more than fifteen are pending. */
  method EmitZeroRuns(p: MacroPacker, r0: nat, d: Tables, ac: nat, ghost z: Block, ghost k: nat) returns (r: nat)
    requires p.Valid() && Decodable(d) && ac < |d|
    requires k < 64 && z[k] != 0 && Encodable(AcItems(z, k, r0, ac), d)
    modifies p
    ensures r <= 15 && r <= r0 && p.Valid() && p.trace.before == old(p.trace.before)
    ensures Encodable(AcItems(z, k, r, ac), d)
    ensures p.trace.sent + ItemBits(AcItems(z, k, r, ac), d) == old(p.trace.sent) + ItemBits(AcItems(z, k, r0, ac), d)
    ensures AcPending(z, k, r, d[ac], p.word, p.putBits) == AcPending(z, k, r0, d[ac], p.word, old(p.putBits))
  {
    hide ItemBits, NBits, Abs, Encodable, Decodable, ExtraBits, Masked, ToBits, Unpack, Stuff, Pow2, AcItems,
      AcPending, AfterField;
    r := r0;
    while r > 15
      invariant r <= r0 && p.Valid() && p.trace.before == old(p.trace.before)
      invariant Encodable(AcItems(z, k, r, ac), d)
      invariant p.trace.sent + ItemBits(AcItems(z, k, r, ac), d)
             == old(p.trace.sent) + ItemBits(AcItems(z, k, r0, ac), d)
      invariant AcPending(z, k, r, d[ac], p.word, p.putBits) == AcPending(z, k, r0, d[ac], p.word, old(p.putBits))
    {
      AcItemsAt(z, k, r, ac);
      AcPendingAt(z, k, r, d[ac], p.word, p.putBits);
      SymbolBits(d, ac, 0xF0, AcItems(z, k, r - 16, ac));
      p.EmitBits(d[ac].ehufco[0xF0], d[ac].ehufsi[0xF0]);
      r := r - 16;
    }
  }

  /** Emit one block's coefficients.  Each symbol needed must have a code. */
  method EncodeOneBlock(p: MacroPacker, b: Block, lastDc: int, d: Tables, dc: nat, ac: nat)
    requires p.Valid() && Decodable(d) && dc < |d| && ac < |d|
    requires InRange(b, lastDc) && Encodable(BlockItems(b, lastDc, dc, ac), d)
    modifies p
    ensures p.Valid() && p.trace.before == old(p.trace.before)
    ensures p.trace.sent == old(p.trace.sent) + ItemBits(BlockItems(b, lastDc, dc, ac), d)
    ensures p.putBits == BlockPending(b, lastDc, d[dc], d[ac], p.word, old(p.putBits))
  {
    hide ItemBits, NBits, Abs, Encodable, Decodable, ExtraBits, Masked, ToBits, Unpack, Stuff, Pow2, AcItems,
      AcPending, DcPending, AfterField;
    ghost var z := Zigzag(b);
    ZigzagKeepsRange(b, 15);
    EncodeDc(p, b, lastDc, d, dc, ac);
    var r := 0;
    var k := 1;
    while k < 64
      invariant 1 <= k <= 64 && 0 <= r < k
      invariant p.Valid() && p.trace.before == old(p.trace.before)
      invariant Encodable(AcItems(z, k, r, ac), d)
      invariant p.trace.sent + ItemBits(AcItems(z, k, r, ac), d)
             == old(p.trace.sent) + ItemBits(BlockItems(b, lastDc, dc, ac), d)
      invariant AcPending(z, k, r, d[ac], p.word, p.putBits)
             == BlockPending(b, lastDc, d[dc], d[ac], p.word, old(p.putBits))
    {
      OnlyDcFirst(k);
      r := KLoop(p, b[NaturalOrder(k)], r, d, ac, z, k);
      k := k + 1;
    }
    NothingSpelled(d, []);
    LastItems(z, r, ac);
    LastPending(z, r, d[ac], p.word, p.putBits);
    if r > 0 {
      SymbolBits(d, ac, 0, []);
      p.EmitBits(d[ac].ehufco[0], d[ac].ehufsi[0]);
    }
  }

  method EncodeDc(p: MacroPacker, b: Block, lastDc: int, d: Tables, dc: nat, ghost ac: nat)
    requires p.Valid() && Decodable(d) && dc < |d|
    requires InRange(b, lastDc) && Encodable(BlockItems(b, lastDc, dc, ac), d)
    modifies p
    ensures var more := AcItems(Zigzag(b), 1, 0, ac);
      && p.Valid() && p.trace.before == old(p.trace.before)
      && Encodable(more, d)
      && p.trace.sent + ItemBits(more, d) == old(p.trace.sent) + ItemBits(BlockItems(b, lastDc, dc, ac), d)
    ensures p.putBits == DcPending(b[0] - lastDc, d[dc], p.word, old(p.putBits))
  {
    hide AfterField, ItemBits, NBits, Abs, Encodable, Decodable, ExtraBits, Masked, ToBits, Unpack, Stuff, Pow2,
      AcItems;
    var magnitude, temp2 := SplitSign(b[0] - lastDc);
    var nbits := NBits(magnitude);
    PairBits(d, dc, nbits, ExtraBits(b[0] - lastDc), nbits, AcItems(Zigzag(b), 1, 0, ac));
    p.EmitBits(d[dc].ehufco[nbits], d[dc].ehufsi[nbits]);
    p.EmitBits(Masked(temp2, nbits), nbits);
  }

  /** The bits of a symbol followed by more. */
  lemma SymbolBits(d: Tables, t: nat, s: nat, more: Items)
    requires Decodable(d) && t < |d| && Encodable([Symbol(t, s)] + more, d)
    ensures Encodable(more, d) && s < |d[t].ehufco| && s < |d[t].ehufsi|
    ensures d[t].ehufsi[s] <= 16 && d[t].ehufco[s] < Pow2(d[t].ehufsi[s])
    ensures ItemBits([Symbol(t, s)] + more, d) == ToBits(d[t].ehufco[s], d[t].ehufsi[s]) + ItemBits(more, d)
  {
    hide ItemBits, Encodable, ToBits, Pow2;
    EncodableSymbol(d, t, s, more);
    SpellSymbol(d, t, s);
    ItemBitsCons(Symbol(t, s), more, d);
  }

  /** The bits of a symbol and its additional bits, followed by more. */
  lemma PairBits(d: Tables, t: nat, s: nat, x: nat, n: nat, more: Items)
    requires Decodable(d) && t < |d| && Encodable([Symbol(t, s), Extra(x, n)] + more, d)
    ensures Encodable(more, d) && s < |d[t].ehufco| && s < |d[t].ehufsi|
    ensures d[t].ehufsi[s] <= 16 && d[t].ehufco[s] < Pow2(d[t].ehufsi[s])
    ensures ItemBits([Symbol(t, s), Extra(x, n)] + more, d)
         == ToBits(d[t].ehufco[s], d[t].ehufsi[s]) + (ToBits(x, n) + ItemBits(more, d))
  {
    hide ItemBits, Encodable, ToBits, Pow2, Decodable;
    assert [Symbol(t, s), Extra(x, n)] + more == [Symbol(t, s)] + ([Extra(x, n)] + more);
    SymbolBits(d, t, s, [Extra(x, n)] + more);
    EncodableField(d, x, n, more);
    ItemBitsCons(Extra(x, n), more, d);
  }
}
