/** From transformed blocks to the bytes of a scan: the coefficient buffer controller (jccoefct.c) hands each MCU
    that it has put together to the Huffman encoder (jchuff.c), which suspends it whenever the destination is
    short of space. */
module ScanPipeline {
  import opened ByteStreams
  import opened HuffmanDerive
  import opened EntropyItems
  import opened ReciprocalDivision
  import opened CoefficientGeometry
  import opened CoefficientController
  import opened ScanCoverage
  import opened RestartIntervals
  import opened SequentialScan
  import opened SequentialStatistics
  import opened SequentialRange
  import opened SequentialFlushes
  import opened SequentialPasses
  import opened SequentialOptimize
  import opened EntropyEncoders

  /** The MCUs of the scan. */
  function ScanMcus(s: Scan, dct: Dct): seq<Mcu>
    requires s.Valid()
  {
    AllTagged(s, AllMcus(s, dct))
  }

  lemma SomeMcus(s: Scan, dct: Dct)
    requires s.Valid()
    ensures AllMcus(s, dct) != [] && ScanMcus(s, dct) != []
  {
    hide DoneMcus, RowMcus, Tagged;
    FirstRowIsThere(s, dct);
    WithinRow(s, dct, 0, 0, 0);
    DonePrefix(s, dct, 1, s.rows);
  }

  lemma {:induction false} ComponentExists(s: Scan, n: nat, i: nat)
    requires 0 < n <= |s.comps|
    ensures ComponentAt(s, n, i) < n
  {
    hide McuSize;
    if n > 1 && McuSize(s, n - 1) > i {
      ComponentExists(s, n - 1, i);
    }
  }

  /** The blocks belong to the components of the scan. */
  lemma ScanBlocksOf(s: Scan, dct: Dct, c: ScanConfig)
    requires s.Valid() && |c.dcTbl| == |s.comps|
    ensures forall m <- ScanMcus(s, dct) :: BlocksOf(c, m)
  {
    hide AllMcus, ComponentAt;
    forall m, b | m in ScanMcus(s, dct) && b in m
      ensures b.ci < |c.dcTbl|
    {
      var k :| 0 <= k < |AllMcus(s, dct)| && m == Tagged(s, AllMcus(s, dct)[k]);
      var i :| 0 <= i < |m| && m[i] == b;
      ComponentExists(s, |s.comps|, i);
    }
  }

  /** What the MCUs of a scan consist of: every block of every component of the image, at a place that no other
      block has, and tagged with its component. */
  lemma EveryBlockIsSent(s: Scan, dct: Dct, ci: nat, i: nat, y: nat, m: nat, x: nat)
    requires s.Valid() && ci < |s.comps| && IsBlock(s.comps[ci], i, y, m, x)
    ensures |ScanMcus(s, dct)| == if |s.comps| == 1 then s.comps[0].width * s.comps[0].height else s.columns * s.rows
    ensures var (n, k) := Place(s, ci, i, y, m, x);
      && n < |ScanMcus(s, dct)| && k < |ScanMcus(s, dct)[n]|
      && ScanMcus(s, dct)[n][k] == McuBlock(ci, dct(ci, i, 8 * y, 8 * (m * s.comps[ci].h + x)))
  {
    hide Times, AllMcus, Tagged;
    var mcus := AllMcus(s, dct);
    var (n, k) := Place(s, ci, i, y, m, x);
    EveryBlockIsThere(s, dct, ci, i, y, m, x);
    PlaceOfComponent(s, ci, i, y, m, x);
    CountOfMcus(s, dct);
    TaggedPart(s, mcus, mcus);
    BlockCarries(s, mcus[n], ci, k);
  }

  /** The bytes of a scan decode to it, unless a flush has shifted out a one. */
  lemma EmittedDecodes(c: ScanConfig, d: Tables, word: nat, mcus: seq<Mcu>)
    requires c.Valid(|d|) && ScanReady(c, d, mcus) && mcus != [] && word >= 7
    ensures Known(c, Intervals(HistoryOf(c.restartInterval, mcus)))
    ensures var h := HistoryOf(c.restartInterval, mcus);
      EmittedBytes(c, d, word, h) == ScanBytes(c, d, h) <==> AllFlushWell(c, d, Intervals(h), word)
    ensures AllFlushWell(c, d, Intervals(HistoryOf(c.restartInterval, mcus)), word) ==>
      forall tail | AtMarker(tail) ::
        DecodeScan(c, d, Shapes(mcus), EmittedBytes(c, d, word, HistoryOf(c.restartInterval, mcus)) + tail)
        == Some(Flat(mcus))
  {
    hide ScanReady, ScanConfig.Valid, Known, EmittedBytes, AllFlushWell, DecodeScan, Shapes, Flat, ScanBytes, HistoryOf,
      AllReady;
    var h := HistoryOf(c.restartInterval, mcus);
    ScanReadyIsAllReady(c, d, mcus);
    ReadyIsKnown(c, d, Intervals(h));
    EmittedIsScan(c, d, word, h);
    forall tail | AtMarker(tail)
      ensures DecodeScan(c, d, Shapes(mcus), ScanBytes(c, d, h) + tail) == Some(Flat(mcus))
    {
      ScanRoundTrip(c, d, mcus, tail);
    }
  }

  /** The end of an output pass: the last bytes, unless there were not enough attempts. */
  method FinishScan(e: EntropyEncoder, c: ScanConfig, d: Tables, ghost mcus: seq<Mcu>, done: bool)
    returns (out: Option<seq<Byte>>)
    requires e.Valid() && e.huff != null && e.huff.c == c && e.huff.d == d && c.Valid(|d|)
    requires mcus == AllTagged(e.s, e.plan) && mcus != []
    requires if done then e.mcus == e.plan else e.Finished() && |e.mcus| < |mcus|
    modifies e.huff.saved.p
    ensures Known(c, Intervals(HistoryOf(c.restartInterval, mcus))) && e.word >= 7
    ensures out.Some? ==> done && out.value == e.huff.saved.p.out
    ensures out.Some? ==> out.value == EmittedBytes(c, d, e.word, HistoryOf(c.restartInterval, mcus))
    ensures out.None? ==> AmpleOffers(c, d, e.word, mcus, e.offers) < |mcus|
  {
    hide *;
    e.AttemptsMade();
    EmittedDecodes(c, d, e.word, mcus);
    if !done {
      StillUnfinished(e);
      return None;
    }
    var bytes := e.Finish();
    out := Some(bytes);
  }

  lemma StillUnfinished(e: EntropyEncoder)
    requires e.Finished() && !e.failed
    ensures e.attempts == |e.offers|
  {
  }

  /** The destination has received these bytes from the encoder to which the controller has handed its MCUs. */
  ghost predicate Sent(ctl: CoefController, s: Scan, dct: Dct, bytes: seq<Byte>)
    reads ctl, ctl.entropy, ctl.entropy.huff, if ctl.entropy.huff == null then {} else {ctl.entropy.huff.saved.p}
  {
    && ctl.s == s && ctl.dct == dct && ctl.iMcuRowNum == s.rows
    && s.Valid() && ctl.mcus == ctl.entropy.mcus == AllMcus(s, dct)
    && ctl.entropy.huff != null && bytes == ctl.entropy.huff.saved.p.out
  }

  /** A scan, to a destination with room for `offers[k]` bytes at the k-th attempt to encode an MCU.  A refused
      MCU suspends the controller, which is called again and builds it anew.  If that comes to an end, the
      bytes are those that the MCUs of the image call for, dummy blocks included, and unless a flush shifts
      out a one a decoder recovers their blocks; as many ample offers as there are MCUs are enough. */
  method CompressScan(s: Scan, dct: Dct, c: ScanConfig, d: Tables, word: nat, offers: seq<nat>)
    returns (ctl: CoefController, out: Option<seq<Byte>>)
    requires s.Valid() && McuSize(s, |s.comps|) <= C_MAX_BLOCKS_IN_MCU
    requires c.Valid(|d|) && (word == 32 || word == 64) && ScanReady(c, d, ScanMcus(s, dct))
    ensures Known(c, Intervals(HistoryOf(c.restartInterval, ScanMcus(s, dct))))
    ensures out.Some? ==> Sent(ctl, s, dct, out.value)
    ensures out.Some? ==>
      var h := HistoryOf(c.restartInterval, ScanMcus(s, dct));
      && out.value == EmittedBytes(c, d, word, h)
      && (out.value == ScanBytes(c, d, h) <==> AllFlushWell(c, d, Intervals(h), word))
    ensures out.Some? && AllFlushWell(c, d, Intervals(HistoryOf(c.restartInterval, ScanMcus(s, dct))), word) ==>
      forall tail | AtMarker(tail) ::
        DecodeScan(c, d, Shapes(ScanMcus(s, dct)), out.value + tail) == Some(Flat(ScanMcus(s, dct)))
    ensures out.None? ==> AmpleOffers(c, d, word, ScanMcus(s, dct), offers) < |ScanMcus(s, dct)|
  {
    hide HuffEncoder.Valid, ScanReady, ScanConfig.Valid, AmpleOffers, Known, EmittedBytes, AllFlushWell, DecodeScan,
      Shapes, Flat, ScanBytes, CoefController.Valid, CoefController.Served, DoneMcus, McuSize, AllTagged,
      EntropyEncoder.Valid, AllMcus, HistoryOf;
    SomeMcus(s, dct);
    ghost var mcus := ScanMcus(s, dct);
    EmittedDecodes(c, d, word, mcus);
    var e := new HuffEncoder(c, d, word);
    var entropy := new EntropyEncoder.Output(s, AllMcus(s, dct), e, offers);
    ctl := new CoefController(s, dct, false, entropy);
    ctl.SinglePass();
    Encoded(ctl);
    out := FinishScan(entropy, c, d, mcus, ctl.iMcuRowNum == s.rows);
  }

  /** What a pass leaves. */
  lemma Encoded(ctl: CoefController)
    requires ctl.Valid() && ctl.Served() && ctl.Ended()
    ensures var e := ctl.entropy;
      && e.Valid() && e.plan == AllMcus(ctl.s, ctl.dct) && (e.huff != null ==> e.huff.saved.p in e.Repr)
      && if ctl.iMcuRowNum == ctl.s.rows then e.mcus == e.plan && !e.failed
         else e.Finished() && |e.mcus| < |e.plan|
  {
    hide EntropyEncoder.Writing, EntropyEncoder.Counting, DoneMcus, CoefController.Valid;
  }

  /** What a statistics pass leaves: the counts of the symbols of the scan, or an error if it does not fit. */
  lemma Counted(e: EntropyEncoder)
    requires e.Valid() && e.stat != null
    ensures e.Finished() ==> !ScanFits(e.stat.c, AllTagged(e.s, e.plan))
    ensures !e.failed && e.mcus == e.plan ==>
      var c, mcus, counts := e.stat.c, AllTagged(e.s, e.plan), e.stat.stats.counts;
      && TablesNumbered(c) && (forall m <- mcus :: BlocksOf(c, m)) && ScanFits(c, mcus)
      && counts.Length0 == 2 * NUM_HUFF_TBLS && counts.Length1 == 256
      && (forall i <- AllItems(c, mcus) :: Proper(i))
      && forall t, s :: 0 <= t < 2 * NUM_HUFF_TBLS && 0 <= s < 256 ==> counts[t, s] == Uses(AllItems(c, mcus), t, s)
  {
    hide ScanFits, AllTagged, Uses, Proper, BlocksOf, Located, ScanItems, DcAfter, Flat, CurrentFits, HistoryOf;
  }

  /** The items of the scan. */
  ghost function ImageItems(c: ScanConfig, s: Scan, dct: Dct): Items
    requires s.Valid() && |c.acTbl| == |c.dcTbl| == |s.comps|
  {
    ScanBlocksOf(s, dct, c);
    AllItems(c, ScanMcus(s, dct))
  }

  lemma TablesMatch(c: ScanConfig)
    requires TablesNumbered(c)
    ensures |c.acTbl| == |c.dcTbl|
  {
  }

  /** A first pass over the image, which stores its blocks and counts the symbols of its MCUs. */
  method GatherPass(s: Scan, dct: Dct, c: ScanConfig)
    returns (ctl: CoefController, counts: array2<nat>, inRange: bool)
    requires s.Valid() && McuSize(s, |s.comps|) <= C_MAX_BLOCKS_IN_MCU
    requires TablesNumbered(c) && |c.dcTbl| == |s.comps|
    ensures fresh(ctl) && fresh(ctl.mcuBuffer) && ctl.s == s && ctl.dct == dct
    ensures inRange <==> ScanFits(c, ScanMcus(s, dct))
    ensures inRange ==> ctl.Wired() && ctl.Allocated() && ctl.StoredUpto(s.rows)
    ensures inRange ==> counts.Length0 == 2 * NUM_HUFF_TBLS && counts.Length1 == 256
    ensures inRange ==>
      && (forall i <- ImageItems(c, s, dct) :: Proper(i))
      && forall t, y :: 0 <= t < 2 * NUM_HUFF_TBLS && 0 <= y < 256 ==> counts[t, y] == Uses(ImageItems(c, s, dct), t, y)
  {
    hide HuffEncoder.Valid, GatherEncoder.Valid, ScanReady, ScanConfig.Valid, AmpleOffers, Known, EmittedBytes,
      AllFlushWell, DecodeScan, Shapes, Flat, ScanBytes, CoefController.Served, DoneMcus, McuSize, AllTagged,
      EntropyEncoder.Valid, AllMcus, HistoryOf, ScanFits, TablesNumbered, BlocksOf, Uses, Proper,
      CoefController.StoredUpto, CoefController.Allocated;
    TablesMatch(c);
    ScanBlocksOf(s, dct, c);
    var stat := new GatherEncoder(c);
    var entropy := new EntropyEncoder.Statistics(s, AllMcus(s, dct), stat);
    ctl := new CoefController(s, dct, true, entropy);
    ctl.FirstPass();
    Encoded(ctl);
    Counted(entropy);
    counts := stat.stats.counts;
    inRange := ctl.iMcuRowNum == s.rows;
  }

  /** A pass over the stored blocks, which writes their MCUs. */
  method OutputPass(ctl: CoefController, c: ScanConfig, d: Tables, word: nat, offers: seq<nat>)
    returns (out: Option<seq<Byte>>)
    requires ctl.Wired() && ctl.Allocated() && ctl.StoredUpto(ctl.s.rows)
    requires c.Valid(|d|) && (word == 32 || word == 64) && ScanReady(c, d, ScanMcus(ctl.s, ctl.dct))
    modifies ctl, ctl.mcuBuffer
    ensures out.Some? ==> Sent(ctl, ctl.s, ctl.dct, out.value)
    ensures Known(c, Intervals(HistoryOf(c.restartInterval, ScanMcus(ctl.s, ctl.dct))))
    ensures out.Some? ==>
      out.value == EmittedBytes(c, d, word, HistoryOf(c.restartInterval, ScanMcus(ctl.s, ctl.dct)))
    ensures out.None? ==> AmpleOffers(c, d, word, ScanMcus(ctl.s, ctl.dct), offers) < |ScanMcus(ctl.s, ctl.dct)|
  {
    hide HuffEncoder.Valid, GatherEncoder.Valid, ScanReady, ScanConfig.Valid, AmpleOffers, Known, EmittedBytes,
      AllFlushWell, DecodeScan, Shapes, Flat, ScanBytes, CoefController.Served, DoneMcus, McuSize, AllTagged,
      EntropyEncoder.Valid, AllMcus, HistoryOf, ScanFits, TablesNumbered, BlocksOf, Uses, Proper,
      CoefController.StoredUpto, CoefController.Allocated;
    SomeMcus(ctl.s, ctl.dct);
    var e := new HuffEncoder(c, d, word);
    var entropy := new EntropyEncoder.Output(ctl.s, AllMcus(ctl.s, ctl.dct), e, offers);
    ctl.StartPass(entropy);
    ctl.LaterPass();
    Encoded(ctl);
    out := FinishScan(entropy, c, d, ScanMcus(ctl.s, ctl.dct), ctl.iMcuRowNum == ctl.s.rows);
  }

  /** Statistics first.  A first pass over the image stores its blocks and counts the symbols of its MCUs; then
      tables are made for them; and a pass over the stored blocks writes them.  A coefficient out of range is
      an error.  Otherwise the result is that of encoding the MCUs of the image with tables of least cost. */
  method CompressOptimized(s: Scan, dct: Dct, c: ScanConfig, word: nat, offers: seq<nat>)
    returns (ctl: CoefController, inRange: bool, d: Option<Tables>, out: Option<seq<Byte>>)
    requires s.Valid() && McuSize(s, |s.comps|) <= C_MAX_BLOCKS_IN_MCU
    requires TablesNumbered(c) && |c.dcTbl| == |s.comps| && (word == 32 || word == 64)
    requires ScanFits(c, ScanMcus(s, dct)) ==> Countable(ImageItems(c, s, dct))
    ensures inRange <==> ScanFits(c, ScanMcus(s, dct))
    ensures inRange && Few(ImageItems(c, s, dct)) ==> d.Some?
    ensures d.Some? ==> inRange && c.Valid(|d.value|) && Decodable(d.value)
    ensures d.Some? ==> AllMadeFor(ImageItems(c, s, dct), d.value)
    ensures d.Some? && AmpleOffers(c, d.value, word, ScanMcus(s, dct), offers) >= |ScanMcus(s, dct)| ==> out.Some?
    ensures Known(c, Intervals(HistoryOf(c.restartInterval, ScanMcus(s, dct))))
    ensures out.Some? ==> Sent(ctl, s, dct, out.value)
    ensures out.Some? ==>
      var h := HistoryOf(c.restartInterval, ScanMcus(s, dct));
      && d.Some? && out.value == EmittedBytes(c, d.value, word, h)
      && (out.value == ScanBytes(c, d.value, h) <==> AllFlushWell(c, d.value, Intervals(h), word))
      && (word == 32 || ShortEob(c, d.value) ==> AllFlushWell(c, d.value, Intervals(h), word))
    ensures out.Some? && AllFlushWell(c, d.value, Intervals(HistoryOf(c.restartInterval, ScanMcus(s, dct))), word) ==>
      forall tail | AtMarker(tail) ::
        DecodeScan(c, d.value, Shapes(ScanMcus(s, dct)), out.value + tail) == Some(Flat(ScanMcus(s, dct)))
  {
    hide *;
    TablesMatch(c);
    SomeMcus(s, dct);
    ScanBlocksOf(s, dct, c);
    ghost var mcus := ScanMcus(s, dct);
    var counts;
    ctl, counts, inRange := GatherPass(s, dct, c);
    ImageIsKnown(c, s, dct);
    if !inRange {
      return ctl, false, None, None;
    }
    d := OptimalTables(counts, ImageItems(c, s, dct));
    if d.None? {
      return ctl, true, None, None;
    }
    CountedScanIsReady(c, d.value, mcus);
    EmittedDecodes(c, d.value, word, mcus);
    if word == 32 || ShortEob(c, d.value) {
      ScanHasSmallAc(c, mcus);
      ShortEobFlushesWell(c, d.value, word, mcus);
    }
    out := OutputPass(ctl, c, d.value, word, offers);
  }

  lemma ImageIsKnown(c: ScanConfig, s: Scan, dct: Dct)
    requires s.Valid() && |c.acTbl| == |c.dcTbl| == |s.comps|
    ensures forall m <- ScanMcus(s, dct) :: BlocksOf(c, m)
    ensures var h := HistoryOf(c.restartInterval, ScanMcus(s, dct));
      && Known(c, Intervals(h)) && Located(c, h) && ImageItems(c, s, dct) == ScanItems(c, h)
  {
    hide ScanMcus, HistoryOf, Located, Known;
    ScanBlocksOf(s, dct, c);
    HistoryIsLocated(c, ScanMcus(s, dct));
    LocatedIsKnown(c, HistoryOf(c.restartInterval, ScanMcus(s, dct)));
  }
}
