/** A whole AC scan, first or refining: its bytes, its statistics, and the decoder that adds it to what is
    known of the blocks from the earlier scans. */
module ProgressiveScan {
  import opened BitStrings
  import opened ByteStreams
  import opened HuffmanDerive
  import opened EntropyItems
  import opened Coefficients
  import opened SequentialStatistics
  import opened SequentialOptimize
  import opened RestartIntervals
  import opened EobRuns
  import opened RefineBlock
  import opened FirstBlock
  import opened AcIntervals
  import opened ProgressiveEmitter
  import opened ProgressiveEncoder

  /** What is written for each restart interval of a scan. */
  function ScanItems(zs: seq<Block>, b: Band, ac: nat, interval: nat): seq<Items>
    requires b.Valid()
    decreases |zs|
  {
    if interval == 0 || |zs| <= interval then [BandItems(zs, b, ac)]
    else [BandItems(zs[..interval], b, ac)] + ScanItems(zs[interval..], b, ac, interval)
  }

  function AllZigzag(blocks: seq<Block>): (zs: seq<Block>)
    ensures |zs| == |blocks|
  {
    seq(|blocks|, i requires 0 <= i < |blocks| => Zigzag(blocks[i]))
  }

  // ---------- decoder ----------

  ghost function DecodeIntervals(t: Derived, b: Band, ys: seq<seq<Block>>, bits: seq<Bits>): Option<seq<Block>>
    requires b.Valid() && |ys| == |bits|
  {
    if ys == [] then Some([])
    else
      match DecodeBlocks(t, 0, ys[0], b, bits[0])
      case None => None
      case Some((zs, run, left)) =>
        if run != 0 || |left| >= 8 || left != Ones(|left|) then None
        else
          match DecodeIntervals(t, b, ys[1..], bits[1..])
          case None => None
          case Some(more) => Some(zs + more)
  }

  /** Decode an AC scan, given what is known of the blocks before. */
  ghost function DecodeAcScan(t: Derived, b: Band, interval: nat, ys: seq<Block>, s: seq<Byte>): Option<seq<Block>>
    requires b.Valid()
  {
    var parts := Chunks(interval, ys);
    match Unframe(s, 0, |parts|)
    case None => None
    case Some(bits) => if |bits| == |parts| then DecodeIntervals(t, b, parts, bits) else None
  }

  lemma PaddedIntervalRoundTrip(zs: seq<Block>, ys: seq<Block>, b: Band, ac: nat, d: Tables)
    requires AllPrior(zs, ys, b) && Decodable(d) && ac < |d| && Encodable(BandItems(zs, b, ac), d)
    ensures var r := DecodeBlocks(d[ac], 0, ys, b, Padded(ItemBits(BandItems(zs, b, ac), d)));
      && r.Some? && r.value.0 == AllRefined(zs, ys, b) && r.value.1 == 0
      && |r.value.2| < 8 && r.value.2 == Ones(|r.value.2|)
  {
    hide ItemBits, DecodeBlocks, Encodable, Decodable, BandItems, AllRefined, Padded, Prior;
    var bits := ItemBits(BandItems(zs, b, ac), d);
    PaddedIs(bits);
    var k: nat :| k < 8 && Padded(bits) == bits + Ones(k);
    IntervalRoundTrip(zs, ys, b, ac, d, Ones(k));
  }

  lemma {:induction false} IntervalsRoundTrip(
    zs: seq<Block>, ys: seq<Block>, b: Band, ac: nat, d: Tables, interval: nat)
    requires AllPrior(zs, ys, b) && Decodable(d) && ac < |d|
    requires forall i :: 0 <= i < |ScanItems(zs, b, ac, interval)| ==> Encodable(ScanItems(zs, b, ac, interval)[i], d)
    ensures |Chunks(interval, ys)| == |ScanItems(zs, b, ac, interval)|
    ensures DecodeIntervals(d[ac], b, Chunks(interval, ys), PaddedAll(Spelled(ScanItems(zs, b, ac, interval), d)))
         == Some(AllRefined(zs, ys, b))
    decreases |zs|
  {
    hide ItemBits, DecodeBlocks, Encodable, Decodable, BandItems, Refined, Padded, Prior, Unframe;
    var all := ScanItems(zs, b, ac, interval);
    var bits := PaddedAll(Spelled(all, d));
    if interval == 0 || |zs| <= interval {
      assert Encodable(all[0], d);
      PaddedIntervalRoundTrip(zs, ys, b, ac, d);
      assert bits[1..] == [] && Chunks(interval, ys)[1..] == [];
      assert AllRefined(zs, ys, b) + [] == AllRefined(zs, ys, b);
    } else {
      var x, y, zs', ys' := zs[..interval], ys[..interval], zs[interval..], ys[interval..];
      var more := ScanItems(zs', b, ac, interval);
      assert Encodable(all[0], d);
      assert forall i :: 0 <= i < |more| ==> more[i] == all[i + 1];
      PaddedIntervalRoundTrip(x, y, b, ac, d);
      IntervalsRoundTrip(zs', ys', b, ac, d, interval);
      assert bits[1..] == PaddedAll(Spelled(more, d));
      assert Chunks(interval, ys)[1..] == Chunks(interval, ys');
      assert AllRefined(zs, ys, b) == AllRefined(x, y, b) + AllRefined(zs', ys', b);
    }
  }

  /** Decoding the bytes of an AC scan, up to the marker that follows it, gives the blocks at the scan's
      precision, whatever the restart interval. */
  lemma ScanRoundTrip(
    zs: seq<Block>, ys: seq<Block>, b: Band, ac: nat, d: Tables, interval: nat, tail: seq<Byte>)
    requires AllPrior(zs, ys, b) && Decodable(d) && ac < |d| && AtMarker(tail)
    requires Encodable(InOrder(ScanItems(zs, b, ac, interval)), d)
    ensures ScanItems(zs, b, ac, interval) != []
    ensures DecodeAcScan(d[ac], b, interval, ys, FramedBytes(Spelled(ScanItems(zs, b, ac, interval), d)) + tail)
         == Some(AllRefined(zs, ys, b))
  {
    hide ItemBits, Encodable, Decodable, BandItems, AllRefined, FramedBytes, Unframe, DecodeIntervals, Prior, Chunks;
    var all := ScanItems(zs, b, ac, interval);
    EachEncodable(all, d);
    IntervalsRoundTrip(zs, ys, b, ac, d, interval);
    UnframeInverts(Spelled(all, d), tail);
  }

  lemma {:induction false} EachEncodable(f: seq<Items>, d: Tables)
    requires Encodable(InOrder(f), d)
    ensures forall i :: 0 <= i < |f| ==> Encodable(f[i], d)
  {
    hide Encodable;
    if f != [] {
      var n := |f| - 1;
      EncodableAppend(InOrder(f[..n]), f[n], d);
      EachEncodable(f[..n], d);
    }
  }

  // ---------- the encoder's passes ----------

  lemma {:induction false} ItemsOfChunks(zs: seq<Block>, b: Band, ac: nat, interval: nat)
    requires b.Valid()
    ensures AllRunItems(Chunks(interval, BandParts(zs, b, ac)), ac) == ScanItems(zs, b, ac, interval)
    decreases |zs|
  {
    hide RunItems, BandPart;
    var ps := BandParts(zs, b, ac);
    if interval != 0 && |zs| > interval {
      ItemsOfChunks(zs[interval..], b, ac, interval);
      assert ps[..interval] == BandParts(zs[..interval], b, ac);
      assert ps[interval..] == BandParts(zs[interval..], b, ac);
    }
  }

  /** The intervals that the encoder goes through. */
  lemma HistoryItems(zs: seq<Block>, b: Band, ac: nat, interval: nat)
    requires b.Valid() && zs != []
    ensures AllRunItems(Intervals(HistoryOf(interval, BandParts(zs, b, ac))), ac) == ScanItems(zs, b, ac, interval)
  {
    hide AllRunItems, BandPart, Intervals, Divided, InOrder;
    var ps := BandParts(zs, b, ac);
    HistoryHoldsAll(interval, ps);
    ChunksAreIntervals(interval, HistoryOf(interval, ps));
    ItemsOfChunks(zs, b, ac, interval);
  }

  /** The coefficients of a first scan are in range. */
  ghost predicate AllInRange(zs: seq<Block>, b: Band) {
    b.first ==> forall i :: 0 <= i < |zs| ==> BandInRange(zs[i], b)
  }

  /** Feed the blocks of a scan to the encoder.  A coefficient out of range is an error. */
  method EncodeBlocks(a: AcEncoder, blocks: seq<Block>) returns (ok: bool)
    requires a.Valid() && a.band.Valid() && a.history == History([], [])
    modifies a.Repr()
    ensures ok <==> AllInRange(AllZigzag(blocks), a.band)
    ensures ok ==> a.Valid()
    ensures ok ==> a.history == HistoryOf(a.restartInterval, BandParts(AllZigzag(blocks), a.band, a.e.table))
  {
    hide AcEncoder.Valid, BandPart, Zigzag, BandInRange;
    ghost var zs := AllZigzag(blocks);
    ghost var ps := BandParts(zs, a.band, a.e.table);
    var i := 0;
    while i < |blocks|
      invariant i <= |blocks| && a.Valid() && a.history == HistoryOf(a.restartInterval, ps[..i])
      invariant a.band.first ==> forall j :: 0 <= j < i ==> BandInRange(zs[j], a.band)
    {
      assert zs[i] == Zigzag(blocks[i]);
      if a.band.first {
        ok := a.EncodeMcuAcFirst(blocks[i]);
        if !ok {
          return;
        }
      } else {
        a.EncodeMcuAcRefine(blocks[i]);
      }
      assert ps[..i + 1][..i] == ps[..i] && ps[i] == BandPart(zs[i], a.band, a.e.table);
      i := i + 1;
    }
    assert ps[..i] == ps;
    ok := true;
  }

  /** An output pass.  It fails exactly if a coefficient of a first scan is out of range, or a symbol has no
      code; otherwise a decoder that knows what there was before obtains the blocks at the scan's precision. */
  method EncodeAcScan(d: Tables, table: nat, band: Band, interval: nat, blocks: seq<Block>)
    returns (out: seq<Byte>, ok: bool)
    requires NUM_HUFF_TBLS <= table < 2 * NUM_HUFF_TBLS && band.Valid() && blocks != []
    requires table < |d| && Decodable(d)
    ensures ok <==> AllInRange(AllZigzag(blocks), band)
                    && Encodable(InOrder(ScanItems(AllZigzag(blocks), band, table, interval)), d)
    ensures ok ==>
      forall ys, tail | AllPrior(AllZigzag(blocks), ys, band) && AtMarker(tail) ::
        DecodeAcScan(d[table], band, interval, ys, out + tail) == Some(AllRefined(AllZigzag(blocks), ys, band))
  {
    hide AcEncoder.Valid, AllRunItems, BandParts, AllZigzag, InOrder, Encodable, Decodable, ScanItems, FramedBytes,
      DecodeAcScan, Prior, AllRefined, HistoryOf, Intervals, Spelled, AllInRange;
    var a := new AcEncoder(false, d, table, band, interval);
    ok := EncodeBlocks(a, blocks);
    if !ok {
      return [], false;
    }
    ghost var zs := AllZigzag(blocks);
    HistoryItems(zs, band, table, interval);
    out := a.FinishPass();
    ok := !a.e.failed;
    if ok {
      forall ys, tail | AllPrior(zs, ys, band) && AtMarker(tail)
        ensures DecodeAcScan(d[table], band, interval, ys, out + tail) == Some(AllRefined(zs, ys, band))
      {
        ScanRoundTrip(zs, ys, band, table, d, interval, tail);
      }
    }
  }

  /** A statistics pass counts exactly the symbols that the output pass emits. */
  method GatherAcScan(table: nat, band: Band, interval: nat, blocks: seq<Block>)
    returns (counts: array2<nat>, ok: bool)
    requires NUM_HUFF_TBLS <= table < 2 * NUM_HUFF_TBLS && band.Valid() && blocks != []
    ensures ok <==> AllInRange(AllZigzag(blocks), band)
    ensures ok ==> counts.Length0 == 2 * NUM_HUFF_TBLS && counts.Length1 == 256
    ensures ok ==>
      var items := InOrder(ScanItems(AllZigzag(blocks), band, table, interval));
        && (forall i <- items :: Proper(i))
        && forall t, s :: 0 <= t < 2 * NUM_HUFF_TBLS && 0 <= s < 256 ==> counts[t, s] == Uses(items, t, s)
  {
    hide AcEncoder.Valid, AllRunItems, BandParts, AllZigzag, InOrder, ScanItems, HistoryOf, Intervals, Uses, Proper,
      AllInRange;
    var a := new AcEncoder(true, [], table, band, interval);
    counts := a.e.stats.counts;
    ok := EncodeBlocks(a, blocks);
    if ok {
      HistoryItems(AllZigzag(blocks), band, table, interval);
      a.FinishPassGather();
    }
  }

  /** Gather, make a table, encode: with the table made for a scan, its encoding succeeds whenever the
      statistics could be gathered, and a decoder obtains the blocks at the scan's precision. */
  method EncodeAcOptimized(table: nat, band: Band, interval: nat, blocks: seq<Block>)
    returns (d: Tables, out: Option<seq<Byte>>)
    requires NUM_HUFF_TBLS <= table < 2 * NUM_HUFF_TBLS && band.Valid() && blocks != []
    requires AllInRange(AllZigzag(blocks), band)
    requires Countable(InOrder(ScanItems(AllZigzag(blocks), band, table, interval)))
    ensures Few(InOrder(ScanItems(AllZigzag(blocks), band, table, interval))) ==> out.Some?
    ensures out.Some? ==> table < |d|
    ensures out.Some? ==>
      AllMadeFor(InOrder(ScanItems(AllZigzag(blocks), band, table, interval)), d)
    ensures out.Some? ==>
      forall ys, tail | AllPrior(AllZigzag(blocks), ys, band) && AtMarker(tail) ::
        DecodeAcScan(d[table], band, interval, ys, out.value + tail)
        == Some(AllRefined(AllZigzag(blocks), ys, band))
  {
    hide AllZigzag, InOrder, ScanItems, Uses, Proper, Encodable, Decodable, Countable, Few, AllMadeFor, DecodeAcScan,
      AllRefined, Prior, AllInRange;
    var counts, ok := GatherAcScan(table, band, interval, blocks);
    var tables := OptimalTables(counts, InOrder(ScanItems(AllZigzag(blocks), band, table, interval)));
    if tables.None? {
      return [], None;
    }
    d := tables.value;
    var bytes, encoded := EncodeAcScan(d, table, band, interval, blocks);
    out := Some(bytes);
  }
}
