/** Two-pass sequential coding (jchuff.c): gather statistics over a scan, make optimal tables from
    them, encode with these tables.  What the first pass counts is what the second pass emits. */
module SequentialOptimize {
  import opened Shifts
  import opened ByteStreams
  import opened HuffmanTheory
  import opened HuffmanDepth
  import opened HuffmanMerge
  import opened HuffmanLimit
  import opened HuffmanGenerate
  import opened HuffmanDerive
  import opened EntropyItems
  import opened Coefficients
  import opened SequentialBlock
  import opened SequentialStatistics
  import opened SequentialRange
  import opened RestartIntervals
  import opened SequentialScan
  import opened SequentialPending
  import opened SequentialFlushes
  import opened SequentialPasses

  // ---------- the items of a scan ----------

  function FinishedItems(c: ScanConfig, f: seq<seq<Mcu>>): Items
    requires Known(c, f)
  {
    if f == [] then []
    else
      var n := |f| - 1;
      FinishedItems(c, f[..n]) + BlocksItems(c, Flat(f[n]), c.NoDc())
  }

  ghost predicate Located(c: ScanConfig, h: History<Mcu>) {
    Known(c, h.finished) && BlocksOf(c, Flat(h.current))
  }

  /** The symbols and additional bits of a scan, restarts included. */
  function ScanItems(c: ScanConfig, h: History<Mcu>): Items
    requires Located(c, h)
  {
    FinishedItems(c, h.finished) + BlocksItems(c, Flat(h.current), c.NoDc())
  }

  /** One more MCU appends its items, encoded with the predictions it finds. */
  lemma NextItems(c: ScanConfig, h: History<Mcu>, mcu: Mcu)
    requires Located(c, h) && BlocksOf(c, mcu)
    ensures var n := Next(h, c.restartInterval, mcu);
      && Located(c, n)
      && ScanItems(c, n) == ScanItems(c, h) + BlocksItems(c, mcu, DcBefore(c, h))
      && DcAfter(c, Flat(n.current), c.NoDc()) == DcAfter(c, mcu, DcBefore(c, h))
  {
    hide BlocksItems, DcAfter, BlocksInRange, Flat, BlocksOf;
    FlatSnoc(h.current, mcu);
    FlatSnoc([], mcu);
    assert [] + [mcu] == [mcu] && [] + mcu == mcu;
    if Full(c, h) {
      assert (h.finished + [h.current])[..|h.finished|] == h.finished;
    } else {
      BlocksAppend(c, Flat(h.current), mcu, c.NoDc());
    }
  }

  // ---------- the statistics pass ----------

  /** The components use DC tables 0 to 3 and AC tables 4 to 7. */
  ghost predicate TablesNumbered(c: ScanConfig) {
    && |c.dcTbl| == |c.acTbl|
    && forall ci :: 0 <= ci < |c.dcTbl| ==> c.dcTbl[ci] < NUM_HUFF_TBLS <= c.acTbl[ci] < 2 * NUM_HUFF_TBLS
  }

  class GatherEncoder {
    const c: ScanConfig
    const stats: Statistics
    var lastDc: seq<int>
    var restartsToGo: nat
    ghost var history: History<Mcu>

    ghost predicate Valid()
      reads this, stats, stats.counts
    {
      && stats.Valid() && TablesNumbered(c) && Located(c, history)
      && lastDc == DcAfter(c, Flat(history.current), c.NoDc())
      && stats.seen == ScanItems(c, history)
      && CurrentFits(c, history)
      && Counting(history)
    }

    ghost predicate Counting(h: History<Mcu>)
      reads `restartsToGo
    {
      if c.restartInterval == 0 then h.finished == [] else restartsToGo + |h.current| == c.restartInterval
    }

    constructor (c: ScanConfig)
      requires TablesNumbered(c)
      ensures Valid() && fresh(stats) && fresh(stats.counts) && history == History([], []) && this.c == c
    {
      this.c := c;
      stats := new Statistics();
      lastDc := c.NoDc();
      restartsToGo := c.restartInterval;
      history := History([], []);
      new;
      NothingFits(c, c.NoDc());
    }

    /** Count the blocks of one MCU.  It is an error exactly if one does not fit against its prediction. */
    method CountBlocks(mcu: Mcu) returns (ok: bool)
      requires stats.Valid() && TablesNumbered(c) && BlocksOf(c, mcu) && |lastDc| == |c.dcTbl|
      modifies this`lastDc, stats, stats.counts
      ensures ok ==>
        && stats.Valid()
        && stats.seen == old(stats.seen) + BlocksItems(c, mcu, old(lastDc))
        && lastDc == DcAfter(c, mcu, old(lastDc))
      ensures ok <==> BlocksFit(c, mcu, old(lastDc))
    {
      hide BlocksItems, DcAfter, BlocksInRange, BlockItems, InRange, CoefficientsFit, Statistics.Valid, BlocksFit,
        BlocksOf;
      var dc := lastDc;
      var i := 0;
      NoBlocks(c, dc);
      NothingFits(c, dc);
      assert mcu[..0] == [];
      ok := true;
      while i < |mcu|
        invariant i <= |mcu| && |lastDc| == |c.dcTbl| && stats.Valid() && BlocksOf(c, mcu[..i])
        invariant stats.seen == old(stats.seen) + BlocksItems(c, mcu[..i], dc)
        invariant lastDc == DcAfter(c, mcu[..i], dc) && BlocksFit(c, mcu[..i], dc)
      {
        var b := mcu[i];
        ghost var done, rest := mcu[..i], mcu[i + 1..];
        assert mcu == done + [b] + rest && done + [b] == mcu[..i + 1];
        BlocksOfParts(c, done + [b], rest);
        BlocksOfParts(c, done, [b]);
        BlocksAppend(c, done, [b], dc);
        FitAppend(c, done, [b], dc);
        FitAppend(c, done + [b], rest, dc);
        OneBlock(c, b, lastDc);
        OneFits(c, b, lastDc);
        ok := stats.HtestOneBlock(b.block, lastDc[b.ci], c.dcTbl[b.ci], c.acTbl[b.ci]);
        if !ok {
          return false;
        }
        lastDc := lastDc[b.ci := b.block[0]];
        i := i + 1;
      }
      assert mcu[..i] == mcu;
    }

    /** The predictions restart where an interval is full. */
    method CountRestarts()
      requires |c.dcTbl| == |c.acTbl| && Counting(history)
      requires BlocksOf(c, Flat(history.current)) && lastDc == DcAfter(c, Flat(history.current), c.NoDc())
      modifies `lastDc, `restartsToGo
      ensures forall mcu :: Counting(Next(history, c.restartInterval, mcu))
      ensures lastDc == DcBefore(c, history)
    {
      hide DcAfter, Flat, BlocksOf;
      if c.restartInterval != 0 {
        if restartsToGo == 0 {
          lastDc := c.NoDc();
          restartsToGo := c.restartInterval;
        }
        restartsToGo := restartsToGo - 1;
      }
    }

    /** Trial-encode one MCU.  There is no restart marker, but the predictions restart. */
    method EncodeMcuGather(mcu: Mcu) returns (ok: bool)
      requires Valid() && BlocksOf(c, mcu)
      modifies this, stats, stats.counts
      ensures ok ==> Valid() && history == Next(old(history), c.restartInterval, mcu)
      ensures ok <==> CurrentFits(c, Next(old(history), c.restartInterval, mcu))
    {
      ghost var h := history;
      ValidParts();
      hide *;
      NextFits(c, h, mcu);
      CountRestarts();
      ok := CountBlocks(mcu);
      history := Next(h, c.restartInterval, mcu);
      if ok {
        StepIsValid(h, mcu);
      }
    }

    lemma ValidParts()
      requires Valid()
      ensures stats.Valid() && TablesNumbered(c) && |c.dcTbl| == |c.acTbl| && |lastDc| == |c.dcTbl|
      ensures Located(c, history) && CurrentFits(c, history) && Counting(history)
      ensures BlocksOf(c, Flat(history.current)) && lastDc == DcAfter(c, Flat(history.current), c.NoDc())
      ensures stats.seen == ScanItems(c, history)
    {
      hide BlocksItems, DcAfter, Statistics.Valid, BlocksFit, ScanItems, Flat, BlocksOf;
    }

    /** Counting one more MCU. */
    lemma StepIsValid(h: History<Mcu>, mcu: Mcu)
      requires Located(c, h) && CurrentFits(c, h) && BlocksOf(c, mcu) && TablesNumbered(c) && stats.Valid()
      requires |c.dcTbl| == |c.acTbl| && history == Next(h, c.restartInterval, mcu) && Counting(history)
      requires BlocksOf(c, Flat(h.current)) && BlocksFit(c, mcu, DcBefore(c, h))
      requires stats.seen == ScanItems(c, h) + BlocksItems(c, mcu, DcBefore(c, h))
      requires lastDc == DcAfter(c, mcu, DcBefore(c, h))
      ensures Valid()
    {
      hide BlocksItems, DcAfter, DcBefore, Statistics.Valid, BlocksFit, ScanItems, Flat, Located, CurrentFits, BlocksOf,
        TablesNumbered, Next, Counting;
      NextItems(c, h, mcu);
      NextFits(c, h, mcu);
    }
  }

  lemma NoBlocks(c: ScanConfig, dc: seq<int>)
    requires |dc| == |c.dcTbl| == |c.acTbl|
    ensures BlocksOf(c, []) && BlocksItems(c, [], dc) == [] && DcAfter(c, [], dc) == dc && BlocksInRange(c, [], dc)
  {
  }

  /** The statistics pass over a whole scan counts exactly the symbols of the scan's items.  It fails exactly if
      the scan does not fit. */
  method GatherScan(c: ScanConfig, mcus: seq<Mcu>) returns (counts: array2<nat>, ok: bool)
    requires TablesNumbered(c) && forall m <- mcus :: BlocksOf(c, m)
    ensures ok <==> ScanFits(c, mcus)
    ensures ok ==> Located(c, HistoryOf(c.restartInterval, mcus))
    ensures ok ==> counts.Length0 == 2 * NUM_HUFF_TBLS && counts.Length1 == 256
    ensures ok ==>
      var items := ScanItems(c, HistoryOf(c.restartInterval, mcus));
        && (forall i <- items :: Proper(i))
        && forall t, s :: 0 <= t < 2 * NUM_HUFF_TBLS && 0 <= s < 256 ==> counts[t, s] == Uses(items, t, s)
  {
    hide ScanItems, Located, CurrentFits, Flat, Uses, DcAfter, Proper, BlocksOf;
    var e := new GatherEncoder(c);
    counts := e.stats.counts;
    var i := 0;
    ok := true;
    while i < |mcus|
      invariant i <= |mcus| && e.Valid() && e.c == c && e.stats.counts == counts
      invariant fresh(e) && fresh(e.stats) && fresh(counts)
      invariant e.history == HistoryOf(c.restartInterval, mcus[..i])
      invariant forall n :: 0 < n <= i ==> CurrentFits(c, HistoryOf(c.restartInterval, mcus[..n]))
    {
      assert mcus[..i + 1][..i] == mcus[..i];
      assert mcus[i] in mcus;
      ok := e.EncodeMcuGather(mcus[i]);
      assert ok <==> CurrentFits(c, HistoryOf(c.restartInterval, mcus[..i + 1]));
      if !ok {
        return;
      }
      i := i + 1;
    }
    assert mcus[..i] == mcus;
  }

  // ---------- optimal tables for the second pass ----------

  /** The counts that a table is made from: one per symbol, and one for the pseudo-symbol. */
  function Row(items: Items, t: nat): (f: seq<nat>)
    ensures |f| == SYMBOLS
  {
    seq(SYMBOLS, s requires 0 <= s < SYMBOLS => if s == PSEUDO then 1 else Uses(items, t, s))
  }

  /** The search for the smallest count starts from a value that is large enough. */
  ghost predicate Countable(items: Items) {
    forall t: nat :: t < 2 * NUM_HUFF_TBLS ==> Sum(Row(items, t)) <= LIMIT
  }

  /** Few enough counts that no code can exceed 32 bits. */
  ghost predicate Few(items: Items) {
    forall t: nat :: t < 2 * NUM_HUFF_TBLS ==> Sum(Row(items, t)) < DEEP
  }

  function NoTable(): Derived {
    Derived(seq(256, _ => 0), seq(256, _ => 0))
  }

  /** A table for a row of counts: the one that a best table leads to, unless there is nothing to code. */
  ghost predicate MadeFor(row: seq<nat>, d: Derived)
    requires |row| == SYMBOLS
  {
    if forall s :: 0 <= s < PSEUDO ==> row[s] == 0 then d == NoTable()
    else exists size: Lengths, t: HuffTable :: GoodSizes(row, size) && Fits(size, t) && Canonical(t, d)
  }

  /** Make a table for one row of counts.  A symbol has a code if it was counted. */
  method TableFor(row: seq<nat>, isDC: bool) returns (r: Option<Derived>)
    requires |row| == SYMBOLS && row[PSEUDO] == 1 && Sum(row) <= LIMIT && UsedCount(row) <= 255
    requires forall s :: MaxSymbol(isDC) < s < PSEUDO ==> row[s] == 0
    ensures r.Some? ==> PrefixCode(r.value) && forall s: nat :: s < PSEUDO && row[s] > 0 ==> HasCode(r.value, s)
    ensures r.Some? ==> MadeFor(row, r.value)
    ensures r.None? ==> exists size :: GoodSizes(row, size) && exists s :: 0 <= s < SYMBOLS && size[s] > MAX_CLEN
    ensures Sum(row) < DEEP ==> r.Some?
  {
    hide Sum, Taken, Total, Shl, OptimalSizes, Counts, Lists, UsedCount, PrefixCode, Canonical, Acceptable, Fits;
    if s :| 0 <= s < PSEUDO && row[s] > 0 {
      var freq := new nat[SYMBOLS](i requires 0 <= i < SYMBOLS => row[i]);
      assert freq[..] == row && row[PSEUDO := 1] == row;
      assert freq[s] > 0;
      var g, size := GenOptimalTable(freq);
      if g.ClenOverflow? {
        return None;
      }
      FitsShape(size, g.table);
      r := MakeDerivedTable(g.table, isDC);
      GeneratedIsAcceptable(size, g.table, isDC);
      assert r.Some?;
      PrefixCodeShape(r.value);
    } else {
      r := Some(NoTable());
      NoTableIsPrefixCode();
    }
  }

  lemma NoTableIsPrefixCode()
    ensures PrefixCode(NoTable())
  {
  }

  lemma FitsShape(size: Lengths, t: HuffTable)
    requires |size| == SYMBOLS && Fits(size, t)
    ensures |t.bits| == 17 && Total(t.bits, 16) == |t.huffval|
  {
  }

  lemma PrefixCodeShape(d: Derived)
    requires PrefixCode(d)
    ensures |d.ehufsi| == 256
  {
  }

  /** The tables for all rows of counts: those of best codes, with a code for every item. */
  method OptimalTables(counts: array2<nat>, ghost items: Items) returns (r: Option<Tables>)
    requires counts.Length0 == 2 * NUM_HUFF_TBLS && counts.Length1 == 256
    requires Countable(items) && forall i <- items :: Proper(i)
    requires forall t, s :: 0 <= t < 2 * NUM_HUFF_TBLS && 0 <= s < 256 ==> counts[t, s] == Uses(items, t, s)
    ensures r.Some? ==> |r.value| == 2 * NUM_HUFF_TBLS && Decodable(r.value) && Encodable(items, r.value)
    ensures r.Some? ==> AllMadeFor(items, r.value)
    ensures Few(items) ==> r.Some?
  {
    hide Sum, UsedCount, PrefixCode, Uses, GoodSizes, HasCode, MadeFor;
    var d: Tables := [];
    while |d| < 2 * NUM_HUFF_TBLS
      invariant |d| <= 2 * NUM_HUFF_TBLS && forall t <- d :: PrefixCode(t)
      invariant forall t: nat, s: nat :: t < |d| && s < 256 && Uses(items, t, s) > 0 ==> HasCode(d[t], s)
      invariant AllMadeFor(items, d)
    {
      var t := |d|;
      var row: seq<nat> := [];
      while |row| < PSEUDO
        invariant |row| <= PSEUDO && forall s :: 0 <= s < |row| ==> row[s] == Uses(items, t, s)
      {
        row := row + [counts[t, |row|]];
      }
      row := row + [1];
      assert row == Row(items, t);
      SymbolsInUse(items, t);
      var one := TableFor(row, t < NUM_HUFF_TBLS);
      if one.None? {
        return None;
      }
      d := d + [one.value];
    }
    r := Some(d);
    CountedIsEncodable(items, d);
  }

  ghost predicate AllMadeFor(items: Items, d: Tables) {
    forall t :: 0 <= t < |d| ==> MadeFor(Row(items, t), d[t])
  }

  /** Few enough symbols can be counted at all: none with a category beyond what coefficients have. */
  lemma SymbolsInUse(items: Items, t: nat)
    requires forall i <- items :: Proper(i)
    ensures forall s :: MaxSymbol(t < NUM_HUFF_TBLS) < s < PSEUDO ==> Row(items, t)[s] == 0
    ensures UsedCount(Row(items, t)) <= 255
  {
    forall s: nat | (t < NUM_HUFF_TBLS && s > 15) || s == 12 || s == 13 ensures Uses(items, t, s) == 0 {
      UsedWhenPresent(items, t, s);
    }
    UsedWithoutTwo(Row(items, t), 12, 13);
  }

  /** If every counted symbol has a code, then the items can be encoded. */
  lemma CountedIsEncodable(items: Items, d: Tables)
    requires |d| == 2 * NUM_HUFF_TBLS && forall i <- items :: Proper(i)
    requires forall t: nat, s: nat :: t < |d| && s < 256 && Uses(items, t, s) > 0 ==> HasCode(d[t], s)
    ensures Encodable(items, d)
  {
    hide Uses, HasCode;
    forall i | i in items && i.Symbol? ensures i.table < |d| && HasCode(d[i.table], i.symbol) {
      UsedWhenPresent(items, i.table, i.symbol);
    }
  }

  lemma {:induction false} HistoryIsLocated(c: ScanConfig, mcus: seq<Mcu>)
    requires |c.acTbl| == |c.dcTbl| && forall m <- mcus :: BlocksOf(c, m)
    ensures Located(c, HistoryOf(c.restartInterval, mcus))
  {
    hide BlocksOf, Located;
    if mcus == [] {
      NothingLocated(c);
    } else {
      var n := |mcus| - 1;
      assert mcus[n] in mcus;
      HistoryIsLocated(c, mcus[..n]);
      NextItems(c, HistoryOf(c.restartInterval, mcus[..n]), mcus[n]);
    }
  }

  lemma NothingLocated(c: ScanConfig)
    requires |c.acTbl| == |c.dcTbl|
    ensures Located(c, History([], []))
  {
  }

  lemma EarlierIsEncodable(c: ScanConfig, h: History<Mcu>, mcu: Mcu, d: Tables)
    requires Located(c, h) && BlocksOf(c, mcu)
    ensures var n := Next(h, c.restartInterval, mcu);
      Located(c, n) && (Encodable(ScanItems(c, n), d) ==> Encodable(ScanItems(c, h), d))
  {
    hide Encodable, BlocksItems, DcAfter, BlocksInRange, Flat, ScanItems, BlocksOf;
    var n := Next(h, c.restartInterval, mcu);
    NextItems(c, h, mcu);
    EncodableAppend(ScanItems(c, h), BlocksItems(c, mcu, DcBefore(c, h)), d);
  }

  /** Tables for the items of the whole scan serve every part of it. */
  lemma {:induction false} PartsAreEncodable(c: ScanConfig, d: Tables, mcus: seq<Mcu>, n: nat)
    requires |c.acTbl| == |c.dcTbl| && (forall m <- mcus :: BlocksOf(c, m)) && n <= |mcus|
    requires Located(c, HistoryOf(c.restartInterval, mcus))
    requires Encodable(ScanItems(c, HistoryOf(c.restartInterval, mcus)), d)
    ensures Located(c, HistoryOf(c.restartInterval, mcus[..n]))
    ensures Encodable(ScanItems(c, HistoryOf(c.restartInterval, mcus[..n])), d)
    decreases |mcus|
  {
    hide BlocksOf, Located, Encodable, ScanItems, BlocksItems, DcAfter, BlocksInRange, Flat;
    if n == |mcus| {
      assert mcus[..n] == mcus;
    } else {
      var m := mcus[..|mcus| - 1];
      var last := mcus[|mcus| - 1];
      assert last in mcus;
      HistoryIsLocated(c, m);
      var h := HistoryOf(c.restartInterval, m);
      EarlierIsEncodable(c, h, last, d);
      PartsAreEncodable(c, d, m, n);
      assert m[..n] == mcus[..n];
    }
  }

  lemma CountedScanIsReady(c: ScanConfig, d: Tables, mcus: seq<Mcu>)
    requires TablesNumbered(c) && |d| == 2 * NUM_HUFF_TBLS && Decodable(d)
    requires (forall m <- mcus :: BlocksOf(c, m)) && ScanFits(c, mcus)
    requires Located(c, HistoryOf(c.restartInterval, mcus))
    requires Encodable(ScanItems(c, HistoryOf(c.restartInterval, mcus)), d)
    ensures c.Valid(|d|) && ScanReady(c, d, mcus)
  {
    hide Encodable, Decodable, BlocksItems, BlocksInRange, BlocksFit, Flat, FinishedItems, BlocksOf;
    forall n | 0 < n <= |mcus| ensures Ready(c, d, Flat(HistoryOf(c.restartInterval, mcus[..n]).current)) {
      var h := HistoryOf(c.restartInterval, mcus[..n]);
      PartsAreEncodable(c, d, mcus, n);
      assert CurrentFits(c, h);
      FitIsInRange(c, Flat(h.current), c.NoDc());
      EncodableAppend(FinishedItems(c, h.finished), BlocksItems(c, Flat(h.current), c.NoDc()), d);
    }
  }

  /** The end-of-block codes have at most 10 bits. */
  ghost predicate ShortEob(c: ScanConfig, d: Tables) {
    forall ci :: 0 <= ci < |c.acTbl| ==> CodeSize(TableAt(d, c.acTbl[ci]), 0) <= 10
  }

  /** Then no flush loses anything. */
  lemma ShortEobFlushesWell(c: ScanConfig, d: Tables, word: nat, mcus: seq<Mcu>)
    requires word == 32 || word == 64
    requires mcus != [] && ScanReady(c, d, mcus) && Known(c, Intervals(HistoryOf(c.restartInterval, mcus)))
    requires forall m <- mcus, b <- m :: AcFits(b.block)
    requires word == 32 || ShortEob(c, d)
    ensures AllFlushWell(c, d, Intervals(HistoryOf(c.restartInterval, mcus)), word)
  {
    hide ScanReady, AllReady, Ready, AcFits, Flat, HistoryOf, CodeSize, TableAt;
    var f := Intervals(HistoryOf(c.restartInterval, mcus));
    ScanReadyIsAllReady(c, d, mcus);
    if word == 64 {
      forall i | 0 <= i < |f|
        ensures Short(c, d, Flat(f[i]))
      {
        assert BlocksOf(c, Flat(f[i])) && |c.acTbl| == |c.dcTbl|;
        HistoryHoldsAll(c.restartInterval, mcus);
        PartOfAll(f, i);
        forall b | b in Flat(f[i])
          ensures b.ci < |c.acTbl| && ShortEnough(TableAt(d, c.acTbl[b.ci]), b.block)
        {
          var m := FlatHolds(f[i], b);
          SmallAcIsShort(TableAt(d, c.acTbl[b.ci]), b.block);
        }
      }
    }
    ShortFlushesWell(c, d, f, word);
  }

  lemma SmallAcIsShort(t: Derived, b: Block)
    requires AcFits(b) && CodeSize(t, 0) <= 10
    ensures ShortEnough(t, b)
  {
    hide NBits;
  }

  /** The units of an interval are units of the scan. */
  lemma {:induction false} PartOfAll<T>(f: seq<seq<T>>, i: nat)
    requires i < |f|
    ensures forall x :: x in f[i] ==> x in InOrder(f)
  {
    var n := |f| - 1;
    if i < n {
      PartOfAll(f[..n], i);
    }
  }

  /** A block of a sequence of MCUs is in one of them. */
  lemma {:induction false} FlatHolds(mcus: seq<Mcu>, b: McuBlock) returns (m: Mcu)
    requires b in Flat(mcus)
    ensures m in mcus && b in m
  {
    var n := |mcus| - 1;
    m := mcus[n];
    if b !in m {
      m := FlatHolds(mcus[..n], b);
    }
  }

  /** The items of a whole scan. */
  function AllItems(c: ScanConfig, mcus: seq<Mcu>): Items
    requires |c.acTbl| == |c.dcTbl| && forall m <- mcus :: BlocksOf(c, m)
  {
    HistoryIsLocated(c, mcus);
    ScanItems(c, HistoryOf(c.restartInterval, mcus))
  }

  lemma LocatedIsKnown(c: ScanConfig, h: History<Mcu>)
    requires Located(c, h)
    ensures Known(c, Intervals(h))
  {
    hide Flat;
  }

  /** Gather, make tables, encode.  A coefficient out of range is an error.  Otherwise the tables are those of
      best codes, and exist unless millions of symbols are counted for one of them; there are bytes unless the
      destination refuses too often.  The bytes are those of the scan exactly if no flush shifts out a one, in
      particular with a 32-bit word or short end-of-block codes, and then a decoder recovers the blocks. */
  method EncodeOptimized(c: ScanConfig, mcus: seq<Mcu>, word: nat, offers: seq<nat>)
    returns (inRange: bool, d: Option<Tables>, out: Option<seq<Byte>>)
    requires TablesNumbered(c) && (word == 32 || word == 64) && mcus != []
    requires forall m <- mcus :: BlocksOf(c, m)
    requires ScanFits(c, mcus) ==> Countable(AllItems(c, mcus))
    ensures inRange <==> ScanFits(c, mcus)
    ensures inRange && Few(AllItems(c, mcus)) ==> d.Some?
    ensures d.Some? ==> inRange && c.Valid(|d.value|) && Decodable(d.value)
    ensures d.Some? ==> AllMadeFor(AllItems(c, mcus), d.value)
    ensures d.Some? && AmpleOffers(c, d.value, word, mcus, offers) >= |mcus| ==> out.Some?
    ensures Known(c, Intervals(HistoryOf(c.restartInterval, mcus)))
    ensures out.Some? ==>
      var h := HistoryOf(c.restartInterval, mcus);
      && d.Some? && out.value == EmittedBytes(c, d.value, word, h)
      && (out.value == ScanBytes(c, d.value, h) <==> AllFlushWell(c, d.value, Intervals(h), word))
      && (word == 32 || ShortEob(c, d.value) ==> AllFlushWell(c, d.value, Intervals(h), word))
    ensures out.Some? && AllFlushWell(c, d.value, Intervals(HistoryOf(c.restartInterval, mcus)), word) ==>
      forall tail | AtMarker(tail) :: DecodeScan(c, d.value, Shapes(mcus), out.value + tail) == Some(Flat(mcus))
  {
    hide Located, ScanItems, Countable, Few, Decodable, Encodable, AcFits, ScanReady, DecodeScan, Shapes, Flat,
      ShortEob, HistoryOf, BlocksOf, Uses, Proper, ScanConfig.Valid, ScanFits, AmpleOffers, AllMadeFor,
      AllFlushWell, EmittedBytes, ScanBytes, Known;
    ghost var items := AllItems(c, mcus);
    HistoryIsLocated(c, mcus);
    LocatedIsKnown(c, HistoryOf(c.restartInterval, mcus));
    var counts;
    counts, inRange := GatherScan(c, mcus);
    if !inRange {
      return false, None, None;
    }
    d := OptimalTables(counts, items);
    if d.None? {
      return true, None, None;
    }
    CountedScanIsReady(c, d.value, mcus);
    out := EncodeScan(c, d.value, word, mcus, offers);
    if word == 32 || ShortEob(c, d.value) {
      ScanHasSmallAc(c, mcus);
      ShortEobFlushesWell(c, d.value, word, mcus);
    }
  }
}
