/** A block after which flushing a 64-bit word corrupts the stream (jchuff.c).  It takes codes of 16 bits for
    everything, the end of the block included, which tables may well have. */
module FlushOverrun {
  import opened Shifts
  import opened BitStrings
  import opened ByteStreams
  import opened WordArithmetic
  import opened BitPacking
  import opened MacroPacking
  import opened HuffmanLimit
  import opened HuffmanGenerate
  import opened HuffmanDerive
  import opened EntropyItems
  import opened Coefficients
  import opened SequentialBlock
  import opened SequentialPending
  import opened SequentialEncoder

  /** One code of each length; the last is that of category 8. */
  function DcTable(): (t: HuffTable)
    ensures |t.bits| == 17 && |t.huffval| == 16
  {
    HuffTable([0, 1, 1, 1, 1, 1, 1, 1, 1, 1, 1, 1, 1, 1, 1, 1, 1],
      [0, 1, 2, 3, 4, 5, 6, 7, 9, 10, 11, 12, 13, 14, 15, 8])
  }

  /** One code of each length up to 14; category 5 without zeros and the end of the block have 16 bits. */
  function AcTable(): (t: HuffTable)
    ensures |t.bits| == 17 && |t.huffval| == 16
  {
    HuffTable([0, 1, 1, 1, 1, 1, 1, 1, 1, 1, 1, 1, 1, 1, 1, 0, 2],
      [1, 2, 3, 4, 6, 7, 8, 9, 10, 17, 18, 19, 20, 21, 5, 0])
  }

  /** With one code of each length, all but one of the words of a length are taken. */
  lemma {:induction false} OneOfEach(bits: seq<nat>, l: nat)
    requires l < |bits| && forall k :: 1 <= k <= l ==> bits[k] == 1
    ensures Total(bits, l) == l && Taken(bits, l) + 1 == Pow2(l)
  {
    if l == 0 {
      Pow2Small();
    } else {
      OneOfEach(bits, l - 1);
      Pow2Next(l - 1);
    }
  }

  /** The code at a place of the longest length. */
  lemma LastCode(bits: seq<nat>, p: nat)
    requires |bits| == 17 && Total(bits, 15) <= p < Total(bits, 16)
    ensures SizeAt(bits, p, 16) == 16 && CodeAt(bits, p) == 2 * Taken(bits, 15) + (p - Total(bits, 15))
  {
    hide Total, Taken, SizeAt;
    SizeUnique(bits, p, 16);
  }

  lemma DcCounts(bits: seq<nat>)
    requires |bits| == 17 && forall k :: 1 <= k <= 16 ==> bits[k] == 1
    ensures Total(bits, 16) == 16 && Taken(bits, 16) < Pow2(16)
    ensures SizeAt(bits, 15, 16) == 16 && CodeAt(bits, 15) == 0xFFFE
  {
    hide Total, Taken, SizeAt, CodeAt, Shl;
    OneOfEach(bits, 15);
    OneOfEach(bits, 16);
    ShlValues(1);
    Pow2Next(15);
    LastCode(bits, 15);
  }

  lemma AcCounts(bits: seq<nat>)
    requires |bits| == 17 && (forall k :: 1 <= k <= 14 ==> bits[k] == 1) && bits[15] == 0 && bits[16] == 2
    ensures Total(bits, 16) == 16 && Taken(bits, 16) < Pow2(16)
    ensures SizeAt(bits, 14, 16) == 16 && CodeAt(bits, 14) == 0xFFFC
    ensures SizeAt(bits, 15, 16) == 16 && CodeAt(bits, 15) == 0xFFFD
  {
    hide Total, Taken, SizeAt, CodeAt, Shl;
    OneOfEach(bits, 14);
    TotalAt(bits, 15);
    TotalAt(bits, 16);
    ShlValues(1);
    Pow2Next(14);
    Pow2Next(15);
    LastCode(bits, 14);
    LastCode(bits, 15);
  }

  lemma TotalAt(bits: seq<nat>, l: nat)
    requires 1 <= l < |bits|
    ensures Total(bits, l) == Total(bits, l - 1) + bits[l]
    ensures Taken(bits, l) == 2 * Taken(bits, l - 1) + bits[l]
  {
  }

  /** DC coefficient 128, a second one of 16, and zeros. */
  function Steep(): Block {
    seq(64, i => if i == 0 then 128 else if i == 1 then 16 else 0)
  }

  lemma SteepInZigzag()
    ensures var z := Zigzag(Steep());
      z[1] == 16 && forall k :: 2 <= k < 64 ==> z[k] == 0
  {
    forall k: nat | 2 <= k < 64
      ensures Zigzag(Steep())[k] == 0
    {
      OnlyDcFirst(k);
      assert NaturalOrder(k) != 1;
    }
  }

  lemma Categories()
    ensures NBits(Abs(128)) == 8 && NBits(Abs(16)) == 5 && NBits(Abs(0)) == 0
    ensures ExtraBits(128) == 128 && ExtraBits(16) == 16
  {
    hide Masked;
    Pow2Byte();
    ShlByte(1);
    MaskedValue(128, 8);
    MaskedValue(16, 5);
  }

  lemma {:induction false} ZeroItems(z: Block, k: nat, r: nat, ac: nat)
    requires 1 <= k < 64 && forall i :: k <= i < 64 ==> z[i] == 0
    ensures AcItems(z, k, r, ac) == [Symbol(ac, 0)]
    decreases 64 - k
  {
    AcItemsAt(z, k, r, ac);
    if k == 63 {
      LastItems(z, r + 1, ac);
    } else {
      ZeroItems(z, k + 1, r + 1, ac);
    }
  }

  /** The block's items, and the bits pending behind them. */
  lemma SteepItems(d: Tables, word: nat)
    requires |d| == 2 && word == 64
    requires CodeSize(d[0], 8) == CodeSize(d[1], 5) == CodeSize(d[1], 0) == 16
    ensures BlockItems(Steep(), 0, 0, 1) == [Symbol(0, 8), Extra(128, 8), Symbol(1, 5), Extra(16, 5), Symbol(1, 0)]
    ensures BlockPending(Steep(), 0, d[0], d[1], word, 0) == 61
    ensures InRange(Steep(), 0)
  {
    hide NBits, Abs, AcItems, AcPending, CodeSize, ExtraBits;
    var z := Zigzag(Steep());
    SteepInZigzag();
    Categories();
    AcItemsAt(z, 1, 0, 1);
    ZeroItems(z, 2, 0, 1);
    AcPendingAt(z, 1, 0, d[1], word, 24);
    ZerosPending(z, 2, 0, d[1], word, 45);
    assert NBits(Abs(Steep()[0] - 0)) == 8;
    forall i | 1 <= i < 64
      ensures NBits(Abs(Steep()[i])) <= 15
    {
      assert Steep()[i] == 16 || Steep()[i] == 0;
    }
  }

  // ---------- the bytes ----------

  /** The code words, spelled out. */
  lemma CodeBits()
    ensures ToBits(0xFFFE, 16) == Ones(15) + [false]
    ensures ToBits(0xFFFC, 16) == Ones(14) + [false, false]
    ensures ToBits(0xFFFD, 16) == Ones(14) + [false, true]
  {
    hide ToBits, FromBits, Shl;
    ShlValues(1);
    Pow2Next(15);
    Pow2Next(14);
    FromOnes(14);
    FromOnes(15);
    var a, b := Ones(15), Ones(14) + [false];
    FromBitsSnoc(a, false);
    FromBitsSnoc(Ones(14), false);
    FromBitsSnoc(b, false);
    FromBitsSnoc(b, true);
    ToFromBits(a + [false]);
    ToFromBits(b + [false]);
    ToFromBits(b + [true]);
    assert b + [false] == Ones(14) + [false, false] && b + [true] == Ones(14) + [false, true];
  }

  function Bit(x: bool): nat { if x then 1 else 0 }

  lemma FourOf(b: Bits, x: bool, y: bool, z: bool, w: bool)
    ensures FromBits(b + [x, y, z, w]) == 16 * FromBits(b) + 8 * Bit(x) + 4 * Bit(y) + 2 * Bit(z) + Bit(w)
  {
    hide FromBits;
    var c := b + [x] + [y] + [z];
    FromBitsSnoc(b, x);
    FromBitsSnoc(b + [x], y);
    FromBitsSnoc(b + [x] + [y], z);
    FromBitsSnoc(c, w);
    assert b + [x, y, z, w] == c + [w];
  }

  lemma EightOf(v: nat, b: Bits)
    requires |b| == 8
    requires v == 16 * (8 * Bit(b[0]) + 4 * Bit(b[1]) + 2 * Bit(b[2]) + Bit(b[3]))
                + 8 * Bit(b[4]) + 4 * Bit(b[5]) + 2 * Bit(b[6]) + Bit(b[7])
    ensures ToBits(v, 8) == b
  {
    hide ToBits, FromBits;
    FromNothing();
    FourOf([], b[0], b[1], b[2], b[3]);
    FourOf([] + [b[0], b[1], b[2], b[3]], b[4], b[5], b[6], b[7]);
    assert b == [] + [b[0], b[1], b[2], b[3]] + [b[4], b[5], b[6], b[7]];
    ToFromBits(b);
  }

  lemma ByteBits()
    ensures ToBits(0xFF, 8) == Ones(8) && ToBits(0xFE, 8) == Ones(7) + [false]
    ensures ToBits(0xFC, 8) == Ones(6) + [false, false] && ToBits(0x0F, 8) == Zeros(4) + Ones(4)
    ensures ToBits(0x87, 8) == [true] + Zeros(4) + Ones(3) && ToBits(0xEF, 8) == Ones(3) + [false] + Ones(4)
    ensures ToBits(16, 5) == [true] + Zeros(4)
  {
    hide ToBits;
    EightOf(0xFF, Ones(8));
    EightOf(0xFE, Ones(7) + [false]);
    EightOf(0xFC, Ones(6) + [false, false]);
    EightOf(0x0F, Zeros(4) + Ones(4));
    EightOf(0x87, [true] + Zeros(4) + Ones(3));
    EightOf(0xEF, Ones(3) + [false] + Ones(4));
    EightOf(16, Zeros(3) + ([true] + Zeros(4)));
    ToBitsTailOf(16, 3, 5, [true] + Zeros(4));
  }

  /** The last m of n + m bits. */
  lemma ToBitsTailOf(v: nat, n: nat, m: nat, tail: Bits)
    requires |tail| == m && ToBits(v, n + m) == Zeros(n) + tail
    ensures ToBits(v, m) == tail
  {
    hide ToBits;
    ToBitsSplit(v, n, m);
    assert ToBits(v, n + m)[n..] == tail;
  }

  /** The bits of the block. */
  function SteepBits(): (r: Bits)
    ensures |r| == 61
  {
    ToBits(0xFFFE, 16) + ToBits(128, 8) + ToBits(0xFFFC, 16) + ToBits(16, 5) + ToBits(0xFFFD, 16)
  }

  /** Eight bytes, the first of which is given. */
  function Eight(first: Byte): seq<Byte> {
    [first, 0xFE, 0x80, 0xFF, 0xFC, 0x87, 0xFF, 0xEF]
  }

  lemma EightBits(first: Byte)
    ensures Unpack(Eight(first)) == ToBits(first as int, 8) + ToBits(0xFE, 8) + ToBits(0x80, 8) + ToBits(0xFF, 8)
                                    + ToBits(0xFC, 8) + ToBits(0x87, 8) + ToBits(0xFF, 8) + ToBits(0xEF, 8)
  {
    hide ToBits, Unpack;
    var s := [first];
    assert s == [] + [first] && Unpack([]) == [] by {
      EmptyTrace(0);
    }
    UnpackSnoc([], first);
    UnpackSnoc(s, 0xFE);
    UnpackSnoc(s + [0xFE], 0x80);
    UnpackSnoc(s + [0xFE] + [0x80], 0xFF);
    UnpackSnoc(s + [0xFE] + [0x80] + [0xFF], 0xFC);
    UnpackSnoc(s + [0xFE] + [0x80] + [0xFF] + [0xFC], 0x87);
    UnpackSnoc(s + [0xFE] + [0x80] + [0xFF] + [0xFC] + [0x87], 0xFF);
    UnpackSnoc(s + [0xFE] + [0x80] + [0xFF] + [0xFC] + [0x87] + [0xFF], 0xEF);
    assert Eight(first) == s + [0xFE] + [0x80] + [0xFF] + [0xFC] + [0x87] + [0xFF] + [0xEF];
  }

  /** The bits of the block, cut into bytes: three more are missing. */
  lemma SteepBytes()
    ensures SteepBits() + Ones(3) == ToBits(0xFF, 8) + ToBits(0xFE, 8) + ToBits(0x80, 8) + ToBits(0xFF, 8)
                                     + ToBits(0xFC, 8) + ToBits(0x87, 8) + ToBits(0xFF, 8) + ToBits(0xEF, 8)
    ensures Kept(SteepBits(), 61, 57) + Ones(3)
         == ToBits(0x0F, 8) + ToBits(0xFE, 8) + ToBits(0x80, 8) + ToBits(0xFF, 8)
            + ToBits(0xFC, 8) + ToBits(0x87, 8) + ToBits(0xFF, 8) + ToBits(0xEF, 8)
  {
    hide ToBits;
    CodeBits();
    ByteBits();
    var sent := SteepBits();
    var rest := ToBits(0xFE, 8) + ToBits(0x80, 8) + ToBits(0xFF, 8) + ToBits(0xFC, 8) + ToBits(0x87, 8)
                + ToBits(0xFF, 8) + ToBits(0xEF, 8);
    assert ToBits(0xFFFE, 16) == ToBits(0xFF, 8) + ToBits(0xFE, 8);
    assert ToBits(0xFFFC, 16) == ToBits(0xFF, 8) + ToBits(0xFC, 8);
    assert ToBits(16, 5) + ToBits(0xFFFD, 16) + Ones(3) == ToBits(0x87, 8) + ToBits(0xFF, 8) + ToBits(0xEF, 8);
    assert sent + Ones(3) == ToBits(0xFF, 8) + rest by {
      hide *;
    }
    KeptIs(sent, rest);
  }

  lemma KeptIs(sent: Bits, rest: Bits)
    requires |sent| == 61 && sent + Ones(3) == Ones(8) + rest
    ensures Kept(sent, 61, 57) + Ones(3) == Zeros(4) + Ones(4) + rest
  {
    assert sent[4..] + Ones(3) == (sent + Ones(3))[4..] == Ones(4) + rest;
    assert Kept(sent, 61, 57) == Zeros(4) + sent[4..];
    assert Zeros(4) + sent[4..] + Ones(3) == Zeros(4) + (sent[4..] + Ones(3));
  }

  /** What the block should be packed to, and what it is packed to with four bits lost. */
  lemma SteepPacked()
    ensures Pack(SteepBits()) == Eight(0xFF)
    ensures Pack(Kept(SteepBits(), 61, 57)) == Eight(0x0F)
  {
    hide ToBits, Unpack, Pack, Kept, SteepBits, Eight;
    SteepBytes();
    EightBits(0xFF);
    EightBits(0x0F);
    PacksUniquely(Eight(0xFF), SteepBits());
    PacksUniquely(Eight(0x0F), Kept(SteepBits(), 61, 57));
  }

  lemma Stuffed(first: Byte)
    ensures Stuff(Eight(first))
         == (if first == 255 then [255, 0] else [first]) + [0xFE, 0x80, 0xFF, 0, 0xFC, 0x87, 0xFF, 0, 0xEF]
  {
    hide Stuff;
    NothingStuffed();
    StuffFour(first, 0xFE, 0x80, 0xFF, []);
    StuffFour(0xFC, 0x87, 0xFF, 0xEF, []);
    StuffFour(first, 0xFE, 0x80, 0xFF, [0xFC, 0x87, 0xFF, 0xEF]);
    assert Eight(first) == [first, 0xFE, 0x80, 0xFF] + [0xFC, 0x87, 0xFF, 0xEF];
    assert [0xFC, 0x87, 0xFF, 0xEF] == [0xFC, 0x87, 0xFF, 0xEF] + [];
  }

  function Sent(b: Byte): seq<Byte> { if b == 255 then [255, 0] else [b] }

  lemma StuffFour(a: Byte, b: Byte, c: Byte, d: Byte, rest: seq<Byte>)
    ensures Stuff([a, b, c, d] + rest) == Sent(a) + Sent(b) + Sent(c) + Sent(d) + Stuff(rest)
  {
    hide Stuff, Sent;
    var s := [a, b, c, d] + rest;
    StuffOne(s);
    StuffOne(s[1..]);
    StuffOne(s[2..]);
    StuffOne(s[3..]);
    assert s[1..][1..] == s[2..] && s[2..][1..] == s[3..] && s[3..][1..] == rest;
  }

  lemma StuffOne(s: seq<Byte>)
    requires s != []
    ensures Stuff(s) == Sent(s[0]) + Stuff(s[1..])
  {
    hide Stuff;
    StuffCons(s);
  }

  // ---------- the run ----------

  /** Derive the codes, encode the block, and flush.  The first byte written is 0x0F instead of a stuffed
      0xFF; the others are right. */
  method FlushLosesBits() returns (d: Tables, out: seq<Byte>)
    ensures |d| == 2 && Decodable(d) && Canonical(DcTable(), d[0]) && Canonical(AcTable(), d[1])
    ensures InRange(Steep(), 0) && Encodable(BlockItems(Steep(), 0, 0, 1), d)
    ensures Stuff(Pack(ItemBits(BlockItems(Steep(), 0, 0, 1), d)))
         == [0xFF, 0, 0xFE, 0x80, 0xFF, 0, 0xFC, 0x87, 0xFF, 0, 0xEF]
    ensures out == [0x0F, 0xFE, 0x80, 0xFF, 0, 0xFC, 0x87, 0xFF, 0, 0xEF]
  {
    hide *;
    DcIsAcceptable();
    AcIsAcceptable();
    var dct := MakeDerivedTable(DcTable(), true);
    var act := MakeDerivedTable(AcTable(), false);
    d := [dct.value, act.value];
    TableCodes(d);
    SteepItems(d, 64);
    SteepSpelled(d);
    var p := new MacroPacker(64);
    BothDecodable(d);
    EncodeOneBlock(p, Steep(), 0, d, 0, 1);
    assert p.trace.before == [] && p.trace.sent == [] + SteepBits() == SteepBits() && p.putBits == 61;
    p.FlushBits();
    out := p.out;
    assert out == [] + Stuff(Pack(Kept(SteepBits(), 61, 57))) == Stuff(Pack(Kept(SteepBits(), 61, 57)));
    SteepPacked();
    Stuffed(0xFF);
    Stuffed(0x0F);
  }

  lemma BothDecodable(d: Tables)
    requires |d| == 2 && PrefixCode(d[0]) && PrefixCode(d[1])
    ensures Decodable(d)
  {
  }

  lemma DcIsAcceptable()
    ensures Acceptable(DcTable(), true) && Total(DcTable().bits, 16) == 16
  {
    hide Total, Taken, SizeAt, CodeAt, Shl;
    var t := DcTable();
    assert |t.bits| == 17 && forall k :: 1 <= k <= 16 ==> t.bits[k] == 1;
    DcCounts(t.bits);
    DcSymbols(t.huffval);
  }

  lemma DcSymbols(s: seq<nat>)
    requires s == DcTable().huffval
    ensures forall p :: 0 <= p < 16 ==> s[p] <= 15
    ensures forall p, q :: 0 <= p < q < 16 ==> s[p] != s[q]
  {
    assert s[15] == 8 && forall p :: 0 <= p < 15 ==> s[p] == if p < 8 then p else p + 1;
  }

  lemma AcIsAcceptable()
    ensures Acceptable(AcTable(), false) && Total(AcTable().bits, 16) == 16
  {
    hide Total, Taken, SizeAt, CodeAt, Shl;
    var t := AcTable();
    assert |t.bits| == 17 && forall k :: 1 <= k <= 14 ==> t.bits[k] == 1;
    AcCounts(t.bits);
    AcSymbols(t.huffval);
  }

  lemma AcSymbols(s: seq<nat>)
    requires s == AcTable().huffval
    ensures forall p :: 0 <= p < 16 ==> s[p] <= 255
    ensures forall p, q :: 0 <= p < q < 16 ==> s[p] != s[q]
  {
    assert s[14] == 5 && s[15] == 0;
    assert forall p :: 0 <= p < 14 ==> s[p] == p + if p < 4 then 1 else if p < 9 then 2 else 8;
  }

  /** The code words that the block needs. */
  lemma TableCodes(d: Tables)
    requires |d| == 2 && Canonical(DcTable(), d[0]) && Canonical(AcTable(), d[1])
    ensures |d[0].ehufco| == |d[0].ehufsi| == |d[1].ehufco| == |d[1].ehufsi| == 256
    ensures d[0].ehufsi[8] == 16 && d[0].ehufco[8] == 0xFFFE
    ensures d[1].ehufsi[5] == 16 && d[1].ehufco[5] == 0xFFFC
    ensures d[1].ehufsi[0] == 16 && d[1].ehufco[0] == 0xFFFD
    ensures CodeSize(d[0], 8) == CodeSize(d[1], 5) == CodeSize(d[1], 0) == 16
  {
    hide Total, Taken, SizeAt, CodeAt, Shl;
    DcCounts(DcTable().bits);
    AcCounts(AcTable().bits);
    assert DcTable().huffval[15] == 8 && AcTable().huffval[14] == 5 && AcTable().huffval[15] == 0;
  }

  lemma SteepSpelled(d: Tables)
    requires |d| == 2
    requires |d[0].ehufco| == |d[0].ehufsi| == |d[1].ehufco| == |d[1].ehufsi| == 256
    requires d[0].ehufsi[8] == 16 && d[0].ehufco[8] == 0xFFFE
    requires d[1].ehufsi[5] == 16 && d[1].ehufco[5] == 0xFFFC
    requires d[1].ehufsi[0] == 16 && d[1].ehufco[0] == 0xFFFD
    ensures var items := [Symbol(0, 8), Extra(128, 8), Symbol(1, 5), Extra(16, 5), Symbol(1, 0)];
      Encodable(items, d) && ItemBits(items, d) == SteepBits()
  {
    hide ToBits, ItemBits, Shl;
    var last: Items := [Symbol(1, 0)];
    var four := [Extra(16, 5)] + last;
    var three := [Symbol(1, 5)] + four;
    var two := [Extra(128, 8)] + three;
    NothingSpelled(d, []);
    assert last == [Symbol(1, 0)] + [];
    ItemBitsCons(Symbol(1, 0), [], d);
    ItemBitsCons(Extra(16, 5), last, d);
    ItemBitsCons(Symbol(1, 5), four, d);
    ItemBitsCons(Extra(128, 8), three, d);
    ItemBitsCons(Symbol(0, 8), two, d);
    assert [Symbol(0, 8), Extra(128, 8), Symbol(1, 5), Extra(16, 5), Symbol(1, 0)] == [Symbol(0, 8)] + two;
    Pow2Byte();
    ShlByte(1);
  }
}
