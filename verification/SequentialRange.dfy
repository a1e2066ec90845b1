/** The range of coefficients that the statistics pass of the sequential encoder (jchuff.c) accepts: of a DC
    coefficient it is the difference to the prediction that counts. */
module SequentialRange {
  import opened Shifts
  import opened RestartIntervals
  import opened Coefficients
  import opened SequentialScan
  import opened SequentialStatistics

  /** AC coefficients of at most 10 bits. */
  ghost predicate AcFits(b: Block) {
    forall i :: 1 <= i < 64 ==> NBits(Abs(b[i])) <= MAX_COEF_BITS
  }

  /** Each block fits, given the predictions it finds. */
  ghost predicate BlocksFit(c: ScanConfig, bs: seq<McuBlock>, dc: seq<int>)
    requires BlocksOf(c, bs) && |dc| == |c.dcTbl|
  {
    bs != [] ==>
      && CoefficientsFit(bs[0].block, dc[bs[0].ci])
      && BlocksFit(c, bs[1..], dc[bs[0].ci := bs[0].block[0]])
  }

  lemma NothingFits(c: ScanConfig, dc: seq<int>)
    requires |dc| == |c.dcTbl|
    ensures BlocksOf(c, []) && BlocksFit(c, [], dc)
  {
  }

  lemma OneFits(c: ScanConfig, b: McuBlock, dc: seq<int>)
    requires BlocksOf(c, [b]) && |dc| == |c.dcTbl|
    ensures b.ci < |dc| && (BlocksFit(c, [b], dc) <==> CoefficientsFit(b.block, dc[b.ci]))
  {
    hide CoefficientsFit;
    assert b in [b];
    assert [b][1..] == [];
  }

  lemma {:induction false} FitAppend(c: ScanConfig, a: seq<McuBlock>, b: seq<McuBlock>, dc: seq<int>)
    requires BlocksOf(c, a) && BlocksOf(c, b) && |dc| == |c.dcTbl|
    ensures BlocksOf(c, a + b)
    ensures BlocksFit(c, a + b, dc) <==> BlocksFit(c, a, dc) && BlocksFit(c, b, DcAfter(c, a, dc))
  {
    hide CoefficientsFit;
    BlocksOfBoth(c, a, b);
    if a == [] {
      assert a + b == b;
    } else {
      FitAppend(c, a[1..], b, dc[a[0].ci := a[0].block[0]]);
      assert a + b != [] && (a + b)[0] == a[0] && (a + b)[1..] == a[1..] + b;
    }
  }

  /** What fits can be encoded. */
  lemma {:induction false} FitIsInRange(c: ScanConfig, bs: seq<McuBlock>, dc: seq<int>)
    requires BlocksOf(c, bs) && |dc| == |c.dcTbl| && BlocksFit(c, bs, dc)
    ensures BlocksInRange(c, bs, dc)
  {
    hide NBits;
    if bs != [] {
      FitIsInRange(c, bs[1..], dc[bs[0].ci := bs[0].block[0]]);
    }
  }

  lemma {:induction false} FitHasSmallAc(c: ScanConfig, bs: seq<McuBlock>, dc: seq<int>)
    requires BlocksOf(c, bs) && |dc| == |c.dcTbl| && BlocksFit(c, bs, dc)
    ensures forall b <- bs :: AcFits(b.block)
  {
    hide NBits;
    if bs != [] {
      FitHasSmallAc(c, bs[1..], dc[bs[0].ci := bs[0].block[0]]);
      assert bs == [bs[0]] + bs[1..];
    }
  }

  // ---------- eight-bit data ----------

  /** The coefficients of eight-bit images.  A black block has DC coefficient -1024 with divisor 1: that takes 11
      bits, and no difference of two DC coefficients takes more. */
  ghost predicate EightBit(b: Block) {
    -1024 <= b[0] < 1024 && AcFits(b)
  }

  ghost predicate SmallDc(dc: seq<int>) {
    forall i :: 0 <= i < |dc| ==> -1024 <= dc[i] < 1024
  }

  lemma EightBitFits(b: Block, lastDc: int)
    requires EightBit(b) && -1024 <= lastDc < 1024
    ensures CoefficientsFit(b, lastDc)
  {
    hide NBits;
    NBitsAtMost(Abs(b[0] - lastDc), 11);
    ShlValues(1);
  }

  lemma {:induction false} EightBitBlocksFit(c: ScanConfig, bs: seq<McuBlock>, dc: seq<int>)
    requires BlocksOf(c, bs) && |dc| == |c.dcTbl| && SmallDc(dc) && forall b <- bs :: EightBit(b.block)
    ensures BlocksFit(c, bs, dc)
  {
    hide AcFits, CoefficientsFit;
    if bs != [] {
      EightBitFits(bs[0].block, dc[bs[0].ci]);
      EightBitBlocksFit(c, bs[1..], dc[bs[0].ci := bs[0].block[0]]);
    }
  }

  // ---------- scans ----------

  /** The current interval fits. */
  ghost predicate CurrentFits(c: ScanConfig, h: History<Mcu>) {
    BlocksOf(c, Flat(h.current)) && BlocksFit(c, Flat(h.current), c.NoDc())
  }

  /** So does each interval, as far as it got. */
  ghost predicate ScanFits(c: ScanConfig, mcus: seq<Mcu>) {
    forall n :: 0 < n <= |mcus| ==> CurrentFits(c, HistoryOf(c.restartInterval, mcus[..n]))
  }

  /** The next MCU opens a new interval. */
  predicate Full(c: ScanConfig, h: History<Mcu>) {
    c.restartInterval > 0 && |h.current| == c.restartInterval
  }

  /** The predictions that the next MCU finds. */
  function DcBefore(c: ScanConfig, h: History<Mcu>): (dc: seq<int>)
    requires BlocksOf(c, Flat(h.current))
    ensures |dc| == |c.dcTbl|
  {
    if Full(c, h) then c.NoDc() else DcAfter(c, Flat(h.current), c.NoDc())
  }

  /** One more MCU fits if its blocks fit the predictions it finds. */
  lemma NextFits(c: ScanConfig, h: History<Mcu>, mcu: Mcu)
    requires CurrentFits(c, h) && BlocksOf(c, mcu)
    ensures CurrentFits(c, Next(h, c.restartInterval, mcu)) <==> BlocksFit(c, mcu, DcBefore(c, h))
  {
    hide DcAfter, Flat, BlocksOf, BlocksFit;
    FlatSnoc(h.current, mcu);
    FlatSnoc([], mcu);
    assert [] + [mcu] == [mcu] && [] + mcu == mcu;
    if !Full(c, h) {
      FitAppend(c, Flat(h.current), mcu, c.NoDc());
    }
  }

  /** A scan that fits has small AC coefficients. */
  lemma ScanHasSmallAc(c: ScanConfig, mcus: seq<Mcu>)
    requires ScanFits(c, mcus) && forall m <- mcus :: BlocksOf(c, m)
    ensures forall m <- mcus, b <- m :: AcFits(b.block)
  {
    hide BlocksOf, Flat, BlocksFit, AcFits, CurrentFits, HistoryOf;
    forall m, b | m in mcus && b in m
      ensures AcFits(b.block)
    {
      var n :| 0 <= n < |mcus| && mcus[n] == m;
      CurrentHolds(c, mcus, n);
      var h := HistoryOf(c.restartInterval, mcus[..n + 1]);
      CurrentSmallAc(c, h);
    }
  }

  lemma CurrentSmallAc(c: ScanConfig, h: History<Mcu>)
    requires CurrentFits(c, h)
    ensures forall b <- Flat(h.current) :: AcFits(b.block)
  {
    FitHasSmallAc(c, Flat(h.current), c.NoDc());
  }

  /** The MCU encoded last is in the current interval. */
  lemma CurrentHolds(c: ScanConfig, mcus: seq<Mcu>, n: nat)
    requires n < |mcus|
    ensures forall b <- mcus[n] :: b in Flat(HistoryOf(c.restartInterval, mcus[..n + 1]).current)
  {
    hide Flat;
    assert mcus[..n + 1][..n] == mcus[..n];
    var h := HistoryOf(c.restartInterval, mcus[..n]);
    FlatSnoc(h.current, mcus[n]);
    FlatSnoc([], mcus[n]);
    assert [] + [mcus[n]] == [mcus[n]];
  }

  /** A scan of eight-bit data fits. */
  lemma {:induction false} EightBitScanFits(c: ScanConfig, mcus: seq<Mcu>)
    requires forall m <- mcus :: BlocksOf(c, m)
    requires forall m <- mcus, b <- m :: EightBit(b.block)
    ensures ScanFits(c, mcus)
  {
    hide BlocksOf, Flat, BlocksFit, EightBit, SmallDc;
    forall n | 0 < n <= |mcus|
      ensures CurrentFits(c, HistoryOf(c.restartInterval, mcus[..n]))
    {
      var h := HistoryOf(c.restartInterval, mcus[..n]);
      CurrentIsOfScan(c, mcus[..n]);
      NoDcIsSmall(c);
      EightBitBlocksFit(c, Flat(h.current), c.NoDc());
    }
  }

  lemma NoDcIsSmall(c: ScanConfig)
    ensures SmallDc(c.NoDc())
  {
  }

  /** The blocks of the current interval are blocks of the scan. */
  lemma {:induction false} CurrentIsOfScan(c: ScanConfig, mcus: seq<Mcu>)
    requires forall m <- mcus :: BlocksOf(c, m)
    ensures var h := HistoryOf(c.restartInterval, mcus);
      BlocksOf(c, Flat(h.current)) && forall b <- Flat(h.current) :: exists m <- mcus :: b in m
  {
    hide Flat, BlocksOf;
    if mcus == [] {
      FlatNothing(c);
    } else {
      var n := |mcus| - 1;
      var h := HistoryOf(c.restartInterval, mcus[..n]);
      assert mcus[n] in mcus;
      CurrentIsOfScan(c, mcus[..n]);
      FlatSnoc(h.current, mcus[n]);
      FlatSnoc([], mcus[n]);
      BlocksOfBoth(c, Flat(h.current), mcus[n]);
      assert [] + [mcus[n]] == [mcus[n]] && [] + mcus[n] == mcus[n];
      forall b | b in Flat(h.current) + mcus[n]
        ensures exists m <- mcus :: b in m
      {
        if b !in mcus[n] {
          var m :| m in mcus[..n] && b in m;
          assert m in mcus;
        }
      }
    }
  }

  lemma FlatNothing(c: ScanConfig)
    ensures Flat([]) == [] && BlocksOf(c, [])
  {
  }
}
