/** A whole scan of the sequential mode, with restart intervals: the bytes it consists of, and the
    decoder that recovers the blocks. */
module SequentialScan {
  import opened BitStrings
  import opened ByteStreams
  import opened HuffmanDerive
  import opened EntropyItems
  import opened RestartIntervals
  import opened Coefficients
  import opened SequentialBlock

  /** A block and the index of its component in the scan. */
  datatype McuBlock = McuBlock(ci: nat, block: Block)

  type Mcu = seq<McuBlock>

  /** Restart interval in MCUs (0 for none), and the tables that each component uses. */
  datatype ScanConfig = ScanConfig(restartInterval: nat, dcTbl: seq<nat>, acTbl: seq<nat>) {
    ghost predicate Valid(tables: nat) {
      && |dcTbl| == |acTbl|
      && forall ci :: 0 <= ci < |dcTbl| ==> dcTbl[ci] < tables && acTbl[ci] < tables
    }

    /** The DC predictions at the start of an interval. */
    function NoDc(): (dc: seq<int>)
      ensures |dc| == |dcTbl|
    {
      seq(|dcTbl|, _ => 0)
    }
  }

  // ---------- blocks in sequence ----------

  ghost predicate BlocksOf(c: ScanConfig, bs: seq<McuBlock>) {
    forall b <- bs :: b.ci < |c.dcTbl|
  }

  /** The DC predictions after the blocks. */
  function DcAfter(c: ScanConfig, bs: seq<McuBlock>, dc: seq<int>): (r: seq<int>)
    requires BlocksOf(c, bs) && |dc| == |c.dcTbl|
    ensures |r| == |dc|
  {
    if bs == [] then dc else DcAfter(c, bs[1..], dc[bs[0].ci := bs[0].block[0]])
  }

  function BlocksItems(c: ScanConfig, bs: seq<McuBlock>, dc: seq<int>): Items
    requires BlocksOf(c, bs) && |dc| == |c.dcTbl| == |c.acTbl|
  {
    if bs == [] then []
    else
      BlockItems(bs[0].block, dc[bs[0].ci], c.dcTbl[bs[0].ci], c.acTbl[bs[0].ci])
      + BlocksItems(c, bs[1..], dc[bs[0].ci := bs[0].block[0]])
  }

  ghost predicate BlocksInRange(c: ScanConfig, bs: seq<McuBlock>, dc: seq<int>)
    requires BlocksOf(c, bs) && |dc| == |c.dcTbl|
  {
    bs != [] ==>
      && InRange(bs[0].block, dc[bs[0].ci])
      && BlocksInRange(c, bs[1..], dc[bs[0].ci := bs[0].block[0]])
  }

  lemma BlocksOfBoth(c: ScanConfig, a: seq<McuBlock>, b: seq<McuBlock>)
    requires BlocksOf(c, a) && BlocksOf(c, b)
    ensures BlocksOf(c, a + b)
  {
  }

  lemma {:induction false} BlocksAppend(c: ScanConfig, a: seq<McuBlock>, b: seq<McuBlock>, dc: seq<int>)
    requires BlocksOf(c, a) && BlocksOf(c, b) && |dc| == |c.dcTbl| == |c.acTbl|
    ensures BlocksOf(c, a + b)
    ensures DcAfter(c, a + b, dc) == DcAfter(c, b, DcAfter(c, a, dc))
    ensures BlocksItems(c, a + b, dc) == BlocksItems(c, a, dc) + BlocksItems(c, b, DcAfter(c, a, dc))
    ensures BlocksInRange(c, a + b, dc) <==> BlocksInRange(c, a, dc) && BlocksInRange(c, b, DcAfter(c, a, dc))
  {
    hide BlockItems, InRange;
    BlocksOfBoth(c, a, b);
    if a == [] {
      assert a + b == b;
      assert [] + BlocksItems(c, b, dc) == BlocksItems(c, b, dc);
    } else {
      var dc' := dc[a[0].ci := a[0].block[0]];
      BlocksAppend(c, a[1..], b, dc');
      assert a + b != [] && (a + b)[0] == a[0] && (a + b)[1..] == a[1..] + b;
      Associative(BlockItems(a[0].block, dc[a[0].ci], c.dcTbl[a[0].ci], c.acTbl[a[0].ci]),
        BlocksItems(c, a[1..], dc'), BlocksItems(c, b, DcAfter(c, a, dc)));
    }
  }

  lemma OneBlock(c: ScanConfig, b: McuBlock, dc: seq<int>)
    requires BlocksOf(c, [b]) && |dc| == |c.dcTbl| == |c.acTbl|
    ensures b.ci < |dc|
    ensures BlocksItems(c, [b], dc) == BlockItems(b.block, dc[b.ci], c.dcTbl[b.ci], c.acTbl[b.ci])
    ensures BlocksInRange(c, [b], dc) <==> InRange(b.block, dc[b.ci])
    ensures DcAfter(c, [b], dc) == dc[b.ci := b.block[0]]
  {
    hide BlockItems, InRange;
    assert b in [b];
    assert [b][1..] == [];
  }

  /** The prediction for a component's next block: the DC coefficient of its last block, or what it was before. */
  lemma {:induction false} LastOfComponent(c: ScanConfig, bs: seq<McuBlock>, dc: seq<int>, ci: nat, j: nat)
    requires BlocksOf(c, bs) && |dc| == |c.dcTbl| && ci < |dc| && j <= |bs|
    requires forall i :: j < i < |bs| ==> bs[i].ci != ci
    requires j < |bs| ==> bs[j].ci == ci
    requires j == |bs| ==> forall i :: 0 <= i < |bs| ==> bs[i].ci != ci
    ensures DcAfter(c, bs, dc)[ci] == if j < |bs| then bs[j].block[0] else dc[ci]
    decreases |bs|
  {
    if bs != [] {
      var dc' := dc[bs[0].ci := bs[0].block[0]];
      var more := bs[1..];
      LastOfComponent(c, more, dc', ci, if j > 0 then j - 1 else |more|);
    }
  }

  /** Block number i of an interval, after the blocks before it, is encoded with the tables of its component, and its
      DC coefficient as the difference to that of the last block of the same component, number j of the interval;
      without one (j == i), to zero. */
  lemma BlockIsPredicted(c: ScanConfig, bs: seq<McuBlock>, i: nat, j: nat)
    requires BlocksOf(c, bs) && |c.dcTbl| == |c.acTbl| && j <= i < |bs|
    requires forall m :: j < m < i ==> bs[m].ci != bs[i].ci
    requires j < i ==> bs[j].ci == bs[i].ci
    requires j == i ==> forall m :: 0 <= m < i ==> bs[m].ci != bs[i].ci
    ensures var prediction := if j < i then bs[j].block[0] else 0;
      var b := bs[i];
      BlocksItems(c, bs[..i + 1], c.NoDc())
      == BlocksItems(c, bs[..i], c.NoDc()) + BlockItems(b.block, prediction, c.dcTbl[b.ci], c.acTbl[b.ci])
  {
    hide BlockItems;
    var b := bs[i];
    var before, dc := bs[..i], c.NoDc();
    assert bs[..i + 1] == before + [b];
    BlocksAppend(c, before, [b], dc);
    LastOfComponent(c, before, dc, b.ci, j);
    OneBlock(c, b, DcAfter(c, before, dc));
  }

  predicate KnownComponents(c: ScanConfig, cis: seq<nat>) {
    forall i :: 0 <= i < |cis| ==> cis[i] < |c.dcTbl|
  }

  ghost function DecodeBlocks(c: ScanConfig, d: Tables, cis: seq<nat>, dc: seq<int>, bits: Bits)
    : Option<(seq<McuBlock>, Bits)>
    requires c.Valid(|d|) && |dc| == |c.dcTbl| && KnownComponents(c, cis)
  {
    if cis == [] then Some(([], bits))
    else
      match DecodeBlock(d[c.dcTbl[cis[0]]], d[c.acTbl[cis[0]]], dc[cis[0]], bits)
      case None => None
      case Some((b, rest)) =>
        match DecodeBlocks(c, d, cis[1..], dc[cis[0] := b[0]], rest)
        case None => None
        case Some((bs, end)) => Some(([McuBlock(cis[0], b)] + bs, end))
  }

  function Membership(bs: seq<McuBlock>): (cis: seq<nat>)
    ensures |cis| == |bs|
  {
    seq(|bs|, i requires 0 <= i < |bs| => bs[i].ci)
  }

  lemma {:induction false} BlocksRoundTrip(c: ScanConfig, d: Tables, bs: seq<McuBlock>, dc: seq<int>, rest: Bits)
    requires c.Valid(|d|) && Decodable(d) && BlocksOf(c, bs) && |dc| == |c.dcTbl|
    requires BlocksInRange(c, bs, dc) && Encodable(BlocksItems(c, bs, dc), d)
    ensures DecodeBlocks(c, d, Membership(bs), dc, ItemBits(BlocksItems(c, bs, dc), d) + rest) == Some((bs, rest))
  {
    hide ItemBits, BlockItems, DecodeBlock, InRange, Decodable, Encodable;
    if bs == [] {
      NothingSpelled(d, rest);
    } else {
      var b := bs[0];
      var dc' := dc[b.ci := b.block[0]];
      var head, more := BlockItems(b.block, dc[b.ci], c.dcTbl[b.ci], c.acTbl[b.ci]), BlocksItems(c, bs[1..], dc');
      EncodableAppend(head, more, d);
      ItemBitsAppend(head, more, d);
      var tail := ItemBits(more, d) + rest;
      assert ItemBits(head, d) + ItemBits(more, d) + rest == ItemBits(head, d) + tail;
      BlockRoundTrip(b.block, dc[b.ci], c.dcTbl[b.ci], c.acTbl[b.ci], d, tail);
      BlocksRoundTrip(c, d, bs[1..], dc', rest);
      assert Membership(bs)[1..] == Membership(bs[1..]);
      assert bs == [b] + bs[1..];
    }
  }

  // ---------- intervals ----------

  /** The blocks of a sequence of MCUs. */
  function Flat(mcus: seq<Mcu>): seq<McuBlock> {
    if mcus == [] then [] else Flat(mcus[..|mcus| - 1]) + mcus[|mcus| - 1]
  }

  lemma FlatSnoc(mcus: seq<Mcu>, mcu: Mcu)
    ensures Flat(mcus + [mcu]) == Flat(mcus) + mcu
    ensures Flat([]) == []
  {
    assert (mcus + [mcu])[..|mcus|] == mcus;
  }

  lemma {:induction false} FlatAppend(a: seq<Mcu>, b: seq<Mcu>)
    ensures Flat(a + b) == Flat(a) + Flat(b)
  {
    if b == [] {
      assert a + b == a;
    } else {
      var n := |b| - 1;
      FlatAppend(a, b[..n]);
      var all := a + b;
      assert all[..|all| - 1] == a + b[..n] && all[|all| - 1] == b[n];
      Associative(Flat(a), Flat(b[..n]), b[n]);
    }
  }

  /** What the encoder asks of the blocks of one interval: known components, coefficients in range, and a
      code for every symbol. */
  ghost predicate Ready(c: ScanConfig, d: Tables, bs: seq<McuBlock>) {
    && c.Valid(|d|) && Decodable(d) && BlocksOf(c, bs)
    && BlocksInRange(c, bs, c.NoDc())
    && Encodable(BlocksItems(c, bs, c.NoDc()), d)
  }

  ghost predicate AllReady(c: ScanConfig, d: Tables, f: seq<seq<Mcu>>) {
    forall i :: 0 <= i < |f| ==> Ready(c, d, Flat(f[i]))
  }

  /** The component indexes are those of the scan. */
  ghost predicate Known(c: ScanConfig, f: seq<seq<Mcu>>) {
    |c.acTbl| == |c.dcTbl| && forall i :: 0 <= i < |f| ==> BlocksOf(c, Flat(f[i]))
  }

  /** The bits of one interval. */
  function IntervalBits(c: ScanConfig, d: Tables, mcus: seq<Mcu>): Bits
    requires BlocksOf(c, Flat(mcus)) && |c.acTbl| == |c.dcTbl|
  {
    ItemBits(BlocksItems(c, Flat(mcus), c.NoDc()), d)
  }

  function AllBits(c: ScanConfig, d: Tables, f: seq<seq<Mcu>>): (r: seq<Bits>)
    requires Known(c, f)
    ensures |r| == |f|
  {
    seq(|f|, i requires 0 <= i < |f| => IntervalBits(c, d, f[i]))
  }

  /** The bytes of a scan. */
  function ScanBytes(c: ScanConfig, d: Tables, h: History<Mcu>): seq<Byte>
    requires Known(c, Intervals(h))
  {
    FramedBytes(AllBits(c, d, Intervals(h)))
  }

  // ---------- decoding a scan ----------

  /** Decode intervals whose MCUs have the given component memberships. */
  ghost function DecodeIntervals(c: ScanConfig, d: Tables, shapes: seq<seq<seq<nat>>>, bits: seq<Bits>)
    : Option<seq<McuBlock>>
    requires c.Valid(|d|) && |shapes| == |bits|
  {
    if bits == [] then Some([])
    else
      var cis := Joined(shapes[0]);
      if !KnownComponents(c, cis) then None
      else
        match DecodeBlocks(c, d, cis, c.NoDc(), bits[0])
        case None => None
        case Some((bs, left)) =>
          if !(|left| < 8 && left == Ones(|left|)) then None
          else
            match DecodeIntervals(c, d, shapes[1..], bits[1..])
            case None => None
            case Some(more) => Some(bs + more)
  }

  /** Decode a scan whose MCUs have the given component memberships. */
  ghost function DecodeScan(c: ScanConfig, d: Tables, shapes: seq<seq<nat>>, s: seq<Byte>): Option<seq<McuBlock>>
    requires c.Valid(|d|)
  {
    var parts := Chunks(c.restartInterval, shapes);
    match Unframe(s, 0, |parts|)
    case None => None
    case Some(bits) => if |bits| == |parts| then DecodeIntervals(c, d, parts, bits) else None
  }

  function Joined(shapes: seq<seq<nat>>): seq<nat> {
    if shapes == [] then [] else Joined(shapes[..|shapes| - 1]) + shapes[|shapes| - 1]
  }

  function Shapes(mcus: seq<Mcu>): (r: seq<seq<nat>>)
    ensures |r| == |mcus|
  {
    seq(|mcus|, i requires 0 <= i < |mcus| => Membership(mcus[i]))
  }

  function AllShapes(f: seq<seq<Mcu>>): (r: seq<seq<seq<nat>>>)
    ensures |r| == |f|
  {
    seq(|f|, i requires 0 <= i < |f| => Shapes(f[i]))
  }

  lemma {:induction false} ShapesJoin(mcus: seq<Mcu>)
    ensures Joined(Shapes(mcus)) == Membership(Flat(mcus))
  {
    if mcus != [] {
      var n := |mcus| - 1;
      ShapesJoin(mcus[..n]);
      assert Shapes(mcus)[..n] == Shapes(mcus[..n]);
    }
  }

  lemma {:induction false} ShapesChunk(interval: nat, mcus: seq<Mcu>)
    ensures Chunks(interval, Shapes(mcus)) == AllShapes(Chunks(interval, mcus))
    decreases |mcus|
  {
    hide Membership;
    if interval != 0 && |mcus| > interval {
      ShapesChunk(interval, mcus[interval..]);
      assert Shapes(mcus)[..interval] == Shapes(mcus[..interval]);
      assert Shapes(mcus)[interval..] == Shapes(mcus[interval..]);
    }
  }

  /** One interval is decoded from its bits. */
  lemma IntervalRoundTrip(c: ScanConfig, d: Tables, mcus: seq<Mcu>)
    requires Ready(c, d, Flat(mcus))
    ensures KnownComponents(c, Joined(Shapes(mcus)))
    ensures var r := DecodeBlocks(c, d, Joined(Shapes(mcus)), c.NoDc(), Padded(IntervalBits(c, d, mcus)));
      r.Some? && r.value.0 == Flat(mcus) && |r.value.1| < 8 && r.value.1 == Ones(|r.value.1|)
  {
    hide ItemBits, BlocksItems, DecodeBlocks, Flat, Joined, Shapes, Encodable, Decodable, BlocksInRange, Padded;
    var bits := IntervalBits(c, d, mcus);
    PaddedIs(bits);
    var k: nat :| k < 8 && Padded(bits) == bits + Ones(k);
    ShapesJoin(mcus);
    BlocksRoundTrip(c, d, Flat(mcus), c.NoDc(), Ones(k));
  }

  lemma {:induction false} IntervalsRoundTrip(c: ScanConfig, d: Tables, f: seq<seq<Mcu>>)
    requires c.Valid(|d|) && AllReady(c, d, f) && Known(c, f)
    ensures DecodeIntervals(c, d, AllShapes(f), PaddedAll(AllBits(c, d, f))) == Some(Flat(InOrder(f)))
  {
    hide DecodeBlocks, Flat, Joined, Shapes, Padded, Ready, IntervalBits, ScanConfig.Valid, InOrder, BlocksOf;
    if f == [] {
      InOrderNothing<Mcu>();
      FlatSnoc([], []);
    } else {
      var x, g := f[0], f[1..];
      IntervalRoundTrip(c, d, x);
      IntervalsRoundTrip(c, d, g);
      assert AllShapes(f)[1..] == AllShapes(g);
      assert PaddedAll(AllBits(c, d, f))[1..] == PaddedAll(AllBits(c, d, g));
      assert f == [x] + g;
      InOrderCons(x, g);
      FlatAppend(x, InOrder(g));
    }
  }

  lemma ReadyIsKnown(c: ScanConfig, d: Tables, f: seq<seq<Mcu>>)
    requires AllReady(c, d, f) && f != []
    ensures c.Valid(|d|) && Known(c, f) && Decodable(d)
  {
    assert Ready(c, d, Flat(f[0]));
  }

  /** Decoding the bytes of a scan, up to the marker that follows it, gives its blocks back in order,
      whatever the restart interval. */
  lemma ScanRoundTrip(c: ScanConfig, d: Tables, mcus: seq<Mcu>, tail: seq<Byte>)
    requires mcus != [] && AtMarker(tail) && AllReady(c, d, Intervals(HistoryOf(c.restartInterval, mcus)))
    ensures c.Valid(|d|) && Known(c, Intervals(HistoryOf(c.restartInterval, mcus)))
    ensures DecodeScan(c, d, Shapes(mcus), ScanBytes(c, d, HistoryOf(c.restartInterval, mcus)) + tail)
         == Some(Flat(mcus))
  {
    hide Flat, HistoryOf, Shapes, AllShapes, IntervalBits, Unframe, DecodeIntervals, Chunks, Known, AllReady, InOrder,
      ScanConfig.Valid, FramedBytes, PaddedAll, Intervals, Divided;
    var h := HistoryOf(c.restartInterval, mcus);
    HistoryHoldsAll(c.restartInterval, mcus);
    SomeInterval(h);
    ReadyIsKnown(c, d, Intervals(h));
    ChunksAreIntervals(c.restartInterval, h);
    ShapesChunk(c.restartInterval, mcus);
    UnframeInverts(AllBits(c, d, Intervals(h)), tail);
    IntervalsRoundTrip(c, d, Intervals(h));
  }

  lemma SomeInterval<T>(h: History<T>)
    ensures Intervals(h) != []
  {
  }
}
