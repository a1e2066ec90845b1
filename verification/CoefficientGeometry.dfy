/** How a scan is divided into MCUs (jcmaster.c), and which blocks an MCU consists of, dummy blocks at the
    right and bottom edges included (jccoefct.c). */
module CoefficientGeometry {
  import opened Coefficients
  import opened ReciprocalDivision

  function DivRoundUp(a: nat, b: nat): nat
    requires b > 0
  {
    (a + b - 1) / b
  }

  /** A component: its sampling factors, and its size in blocks. */
  datatype Component = Component(h: nat, v: nat, width: nat, height: nat)

  /** The components in a scan, and the number of MCU columns and rows when all are interleaved. */
  datatype Scan = Scan(comps: seq<Component>, columns: nat, rows: nat) {
    /** More than one component: the scan is interleaved. */
    predicate Interleaved() {
      |comps| > 1
    }

    ghost predicate Valid() {
      && comps != [] && columns > 0 && rows > 0
      && forall ci :: 0 <= ci < |comps| ==> Fits(comps[ci])
    }

    /** A component fills all MCU columns but the last, and all MCU rows but the last. */
    ghost predicate Fits(c: Component)
      requires columns > 0 && rows > 0
    {
      && c.h > 0 && c.v > 0
      && Times(columns - 1, c.h) < c.width <= Times(columns, c.h)
      && Times(rows - 1, c.v) < c.height <= Times(rows, c.v)
    }

    function McuWidth(c: Component): nat { if Interleaved() then c.h else 1 }

    function McuHeight(c: Component): nat { if Interleaved() then c.v else 1 }

    /** MCUs in a row of the scan. */
    function McusPerRow(): nat
      requires comps != []
    {
      if Interleaved() then columns else comps[0].width
    }

    /** MCU rows in an interleaved MCU row. */
    function RowsIn(i: nat): nat
      requires comps != [] && comps[0].v > 0
    {
      if Interleaved() then 1 else if i + 1 < rows then comps[0].v else LastHeight(comps[0])
    }
  }

  /** What does not fill up a multiple of n, or n. */
  function Remainder(size: nat, n: nat): (r: nat)
    requires n > 0
    ensures 1 <= r <= n
  {
    if size % n == 0 then n else size % n
  }

  /** Non-dummy blocks of a component in the last MCU column and row. */
  function LastWidth(c: Component): nat
    requires c.h > 0
  {
    Remainder(c.width, c.h)
  }

  function LastHeight(c: Component): nat
    requires c.v > 0
  {
    Remainder(c.height, c.v)
  }

  /** The size in blocks computed from the image, as against the number of MCUs computed from the image. */
  lemma RoundingsAgree(size: nat, factor: nat, maxFactor: nat)
    requires size > 0 && 0 < factor <= maxFactor
    ensures var mcus := DivRoundUp(size, maxFactor * 8);
      var blocks := DivRoundUp(size * factor, maxFactor * 8);
      mcus > 0 && Times(mcus - 1, factor) < blocks <= Times(mcus, factor)
  {
    hide Times;
    var unit := maxFactor * 8;
    var mcus, blocks := DivRoundUp(size, unit), DivRoundUp(size * factor, unit);
    TimesIs(size, factor);
    RoundUp(size, unit);
    RoundUp(size * factor, unit);
    // mcus - 1 < size / unit <= mcus, and the same times factor
    TimesOrder(Times(mcus - 1, unit), size, factor);
    TimesOrder(size, Times(mcus, unit), factor);
    TimesSwap(mcus - 1, unit, factor);
    TimesSwap(mcus, unit, factor);
    TimesOrder(Times(mcus - 1, factor), blocks, unit);
    TimesOrder(blocks - 1, Times(mcus, factor), unit);
  }

  lemma RoundUp(a: nat, b: nat)
    requires a > 0 && b > 0
    ensures DivRoundUp(a, b) > 0
    ensures Times(DivRoundUp(a, b) - 1, b) < a <= Times(DivRoundUp(a, b), b)
  {
    hide Times;
    var q := DivRoundUp(a, b);
    Division(a + b - 1, b);
    if q == 0 {
      TimesZero(b);
    }
    TimesAdd(q - 1, 1, b);
    TimesOne(b);
  }

  /** The last column or row holds what does not fill up a multiple. */
  lemma RemainderFits(size: nat, n: nat, count: nat)
    requires n > 0 && count > 0 && Times(count - 1, n) < size <= Times(count, n)
    ensures size == Times(count - 1, n) + Remainder(size, n)
  {
    hide Times;
    var q := size / n;
    Division(size, n);
    TimesAdd(count - 1, 1, n);
    TimesAdd(q, 1, n);
    TimesOne(n);
    TimesOrder(count - 1, q + 1, n);
    TimesOrder(q, count, n);
  }

  /** The scan that an image of the given size has, with all its components interleaved or with a single one. */
  function PerScanSetup(width: nat, height: nat, factors: seq<(nat, nat)>, maxH: nat, maxV: nat): (s: Scan)
    requires maxH > 0 && maxV > 0
    ensures |s.comps| == |factors|
  {
    Scan(seq(|factors|, ci requires 0 <= ci < |factors| =>
               Component(factors[ci].0, factors[ci].1,
                 DivRoundUp(width * factors[ci].0, maxH * 8), DivRoundUp(height * factors[ci].1, maxV * 8))),
      DivRoundUp(width, maxH * 8), DivRoundUp(height, maxV * 8))
  }

  /** Whatever the size of the image, the components fit the MCUs. */
  lemma SetupIsValid(width: nat, height: nat, factors: seq<(nat, nat)>, maxH: nat, maxV: nat)
    requires width > 0 && height > 0 && factors != [] && maxH > 0 && maxV > 0
    requires forall f <- factors :: 0 < f.0 <= maxH && 0 < f.1 <= maxV
    ensures PerScanSetup(width, height, factors, maxH, maxV).Valid()
  {
    hide Times, DivRoundUp;
    var s := PerScanSetup(width, height, factors, maxH, maxV);
    RoundingsAgree(width, maxH, maxH);
    RoundingsAgree(height, maxV, maxV);
    forall ci | 0 <= ci < |s.comps| ensures s.Fits(s.comps[ci]) {
      assert factors[ci] in factors;
      RoundingsAgree(width, factors[ci].0, maxH);
      RoundingsAgree(height, factors[ci].1, maxV);
    }
  }

  /** n is the least number of units that reach as far as size. */
  ghost predicate LeastCover(n: nat, unit: nat, size: nat) {
    n > 0 && (n - 1) * unit < size <= n * unit
  }

  /** The interleaved MCUs, of 8 * maxH columns and 8 * maxV rows of samples, are as many as it takes to cover the
      image; and the blocks of a component, of 8 columns and rows each, as many as it takes to cover its part of
      the samples. */
  lemma SetupCoversImage(width: nat, height: nat, factors: seq<(nat, nat)>, maxH: nat, maxV: nat, ci: nat)
    requires width > 0 && height > 0 && maxH > 0 && maxV > 0
    requires ci < |factors| && factors[ci].0 > 0 && factors[ci].1 > 0
    ensures var s := PerScanSetup(width, height, factors, maxH, maxV);
      var c := s.comps[ci];
      && |s.comps| == |factors| && c.h == factors[ci].0 && c.v == factors[ci].1
      && LeastCover(s.columns, 8 * maxH, width) && LeastCover(s.rows, 8 * maxV, height)
      && LeastCover(c.width, 8 * maxH, width * c.h) && LeastCover(c.height, 8 * maxV, height * c.v)
  {
    hide DivRoundUp, LeastCover;
    Covers(width, 1, maxH);
    Covers(height, 1, maxV);
    Covers(width, factors[ci].0, maxH);
    Covers(height, factors[ci].1, maxV);
  }

  lemma Covers(size: nat, factor: nat, maxFactor: nat)
    requires size > 0 && factor > 0 && maxFactor > 0
    ensures LeastCover(DivRoundUp(size * factor, maxFactor * 8), 8 * maxFactor, size * factor)
  {
    hide Times, DivRoundUp;
    var unit := maxFactor * 8;
    TimesIs(size, factor);
    TimesOrder(0, size, factor);
    RoundUp(size * factor, unit);
    var q := DivRoundUp(size * factor, unit);
    TimesIs(q - 1, unit);
    TimesIs(q, unit);
  }

  // ---------- the blocks of an MCU ----------

  /** The quantized DCT: component, row of MCUs, and sample position within it, to a block. */
  type Dct = (nat, nat, nat, nat) -> Block

  /** A dummy block: no AC coefficients, and the given DC coefficient. */
  function Dummy(dc: int): Block {
    seq(64, _ => 0)[0 := dc]
  }

  /** Block rows of a component that are not dummies, in the i-th row of interleaved MCUs. */
  function RealRows(s: Scan, c: Component, i: nat): (n: nat)
    requires c.v > 0
    ensures 1 <= n <= c.v
  {
    if i + 1 < s.rows then c.v else LastHeight(c)
  }

  /** Blocks of a component that are not dummies, in a row of the m-th interleaved MCU. */
  function RealCols(s: Scan, c: Component, m: nat): (n: nat)
    requires c.h > 0
    ensures 1 <= n <= c.h
  {
    if m + 1 < s.columns then c.h else LastWidth(c)
  }

  /** Block xi in row y of the m-th interleaved MCU.  A dummy repeats the DC coefficient of the last block
      before it: at the right edge that of the last real block in the row, at the bottom edge that of the last
      block in the row above. */
  function PaddedAt(s: Scan, dct: Dct, ci: nat, i: nat, y: nat, m: nat, xi: nat): Block
    requires ci < |s.comps| && s.comps[ci].h > 0 && s.comps[ci].v > 0
    decreases y
  {
    var c := s.comps[ci];
    if y < RealRows(s, c, i) then
      var col := if xi < RealCols(s, c, m) then xi else RealCols(s, c, m) - 1;
      var b := dct(ci, i, 8 * y, 8 * (Times(m, c.h) + col));
      if xi < RealCols(s, c, m) then b else Dummy(b[0])
    else Dummy(PaddedAt(s, dct, ci, i, y - 1, m, c.h - 1)[0])
  }

  /** Dummy blocks repeat the DC coefficient of the block before them. */
  lemma DummyRepeats(s: Scan, dct: Dct, ci: nat, i: nat, y: nat, m: nat, xi: nat)
    requires ci < |s.comps| && s.comps[ci].h > 0 && s.comps[ci].v > 0
    ensures var c := s.comps[ci];
      && (y < RealRows(s, c, i) && xi < RealCols(s, c, m) ==>
            PaddedAt(s, dct, ci, i, y, m, xi) == dct(ci, i, 8 * y, 8 * (Times(m, c.h) + xi)))
      && (y < RealRows(s, c, i) && xi >= RealCols(s, c, m) ==>
            PaddedAt(s, dct, ci, i, y, m, xi) == Dummy(PaddedAt(s, dct, ci, i, y, m, xi - 1)[0]))
      && (y >= RealRows(s, c, i) ==>
            PaddedAt(s, dct, ci, i, y, m, xi) == Dummy(PaddedAt(s, dct, ci, i, y - 1, m, c.h - 1)[0]))
  {
    hide Times;
  }

  /** The blocks of an MCU row by row.  In a scan of one component an MCU is one real block. */
  function McuBlock(s: Scan, dct: Dct, ci: nat, i: nat, y: nat, m: nat, xi: nat): Block
    requires ci < |s.comps| && s.comps[ci].h > 0 && s.comps[ci].v > 0
  {
    if s.Interleaved() then PaddedAt(s, dct, ci, i, y, m, xi) else dct(ci, i, 8 * y, 8 * m)
  }

  function RowBlocks(s: Scan, dct: Dct, ci: nat, i: nat, y: nat, m: nat, n: nat): (r: seq<Block>)
    requires ci < |s.comps| && s.comps[ci].h > 0 && s.comps[ci].v > 0
    ensures |r| == n
  {
    seq(n, xi requires 0 <= xi < n => McuBlock(s, dct, ci, i, y, m, xi))
  }

  function CompBlocks(s: Scan, dct: Dct, ci: nat, i: nat, yoffset: nat, m: nat, rows: nat): (r: seq<Block>)
    requires ci < |s.comps| && s.comps[ci].h > 0 && s.comps[ci].v > 0
  {
    if rows == 0 then []
    else
      CompBlocks(s, dct, ci, i, yoffset, m, rows - 1)
      + RowBlocks(s, dct, ci, i, yoffset + rows - 1, m, s.McuWidth(s.comps[ci]))
  }

  /** The m-th MCU in row `yoffset` of the i-th row of interleaved MCUs: its first `comps` components. */
  function McuBlocks(s: Scan, dct: Dct, i: nat, yoffset: nat, m: nat, comps: nat): (r: seq<Block>)
    requires s.Valid() && comps <= |s.comps|
  {
    if comps == 0 then []
    else
      McuBlocks(s, dct, i, yoffset, m, comps - 1)
      + CompBlocks(s, dct, comps - 1, i, yoffset, m, s.McuHeight(s.comps[comps - 1]))
  }

  /** The first n MCUs of a row. */
  function RowMcus(s: Scan, dct: Dct, i: nat, yoffset: nat, n: nat): (r: seq<seq<Block>>)
    requires s.Valid()
    ensures |r| == n
  {
    if n == 0 then []
    else RowMcus(s, dct, i, yoffset, n - 1) + [McuBlocks(s, dct, i, yoffset, n - 1, |s.comps|)]
  }

  /** The MCUs of the scan before row `yoffset` of the i-th row of interleaved MCUs. */
  function DoneMcus(s: Scan, dct: Dct, i: nat, yoffset: nat): seq<seq<Block>>
    requires s.Valid()
    decreases i, yoffset
  {
    if yoffset > 0 then DoneMcus(s, dct, i, yoffset - 1) + RowMcus(s, dct, i, yoffset - 1, s.McusPerRow())
    else if i == 0 then []
    else DoneMcus(s, dct, i - 1, s.RowsIn(i - 1))
  }

  /** The MCUs of the whole scan. */
  function AllMcus(s: Scan, dct: Dct): seq<seq<Block>>
    requires s.Valid()
  {
    DoneMcus(s, dct, s.rows, 0)
  }

  /** Blocks in an MCU: of its first n components. */
  function McuSize(s: Scan, n: nat): nat
    requires n <= |s.comps|
  {
    if n == 0 then 0
    else McuSize(s, n - 1) + Times(s.McuHeight(s.comps[n - 1]), s.McuWidth(s.comps[n - 1]))
  }

  lemma {:induction false} McuSizeGrows(s: Scan, n: nat, k: nat)
    requires n <= k <= |s.comps|
    ensures McuSize(s, n) <= McuSize(s, k)
  {
    hide Times;
    if n < k {
      McuSizeGrows(s, n, k - 1);
    }
  }
}
