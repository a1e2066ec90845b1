/** Where the blocks of an image stand in a scan, as section A.2 of ITU-T T.81 has it, in terms of the sizes of the
    components alone: nothing is lost at the edges, nothing is coded twice, and what fills up the MCUs repeats. */
module ScanCoverage {
  import opened ReciprocalDivision
  import opened CoefficientGeometry

  // ---------- within an MCU ----------

  /** Two numbers in a mixed base have the same value only if they have the same digits. */
  lemma SameDigits(a: nat, b: nat, a': nat, b': nat, n: nat)
    requires b < n && b' < n && Times(a, n) + b == Times(a', n) + b'
    ensures a == a' && b == b'
  {
    hide Times;
    TimesOrder(a, a', n);
    TimesOrder(a', a, n);
  }

  lemma {:induction false} CompBlocksAt(s: Scan, dct: Dct, ci: nat, i: nat, yoffset: nat, m: nat, rows: nat,
      y: nat, x: nat)
    requires ci < |s.comps| && s.comps[ci].h > 0 && s.comps[ci].v > 0
    ensures var w := s.McuWidth(s.comps[ci]);
      var blocks := CompBlocks(s, dct, ci, i, yoffset, m, rows);
      && |blocks| == Times(rows, w)
      && (y < rows && x < w ==>
            Times(y, w) + x < |blocks| && blocks[Times(y, w) + x] == McuBlock(s, dct, ci, i, yoffset + y, m, x))
  {
    hide Times, McuBlock;
    var w := s.McuWidth(s.comps[ci]);
    if rows == 0 {
      TimesZero(w);
    } else {
      CompBlocksAt(s, dct, ci, i, yoffset, m, rows - 1, y, x);
      TimesAdd(rows - 1, 1, w);
      TimesOne(w);
      TimesOrder(y, rows, w);
      TimesOrder(rows - 1, y, w);
    }
  }

  lemma {:induction false} McuBlocksAt(s: Scan, dct: Dct, i: nat, yoffset: nat, m: nat, n: nat, ci: nat, k: nat)
    requires s.Valid() && n <= |s.comps|
    ensures var blocks := McuBlocks(s, dct, i, yoffset, m, n);
      && |blocks| == McuSize(s, n)
      && (ci < n && k < Times(s.McuHeight(s.comps[ci]), s.McuWidth(s.comps[ci])) ==>
            var part := CompBlocks(s, dct, ci, i, yoffset, m, s.McuHeight(s.comps[ci]));
            && McuSize(s, ci) + k < |blocks| && k < |part| && blocks[McuSize(s, ci) + k] == part[k])
  {
    hide Times, CompBlocks;
    if n > 0 {
      McuBlocksAt(s, dct, i, yoffset, m, n - 1, ci, k);
      assert s.Fits(s.comps[n - 1]);
      CompBlocksAt(s, dct, n - 1, i, yoffset, m, s.McuHeight(s.comps[n - 1]), 0, 0);
    }
  }

  /** A row of an MCU, of any component. */
  lemma McuHas(s: Scan, dct: Dct, i: nat, yoffset: nat, m: nat, ci: nat, y: nat, x: nat)
    requires s.Valid() && ci < |s.comps|
    requires y < s.McuHeight(s.comps[ci]) && x < s.McuWidth(s.comps[ci])
    ensures s.Fits(s.comps[ci])
    ensures var mcu := McuBlocks(s, dct, i, yoffset, m, |s.comps|);
      var k := McuSize(s, ci) + Times(y, s.McuWidth(s.comps[ci])) + x;
      |mcu| == McuSize(s, |s.comps|) && k < |mcu| && mcu[k] == McuBlock(s, dct, ci, i, yoffset + y, m, x)
  {
    hide Times, McuBlock, CompBlocks, McuBlocks, McuSize;
    var c := s.comps[ci];
    CompBlocksAt(s, dct, ci, i, yoffset, m, s.McuHeight(c), y, x);
    McuBlocksAt(s, dct, i, yoffset, m, |s.comps|, ci, Times(y, s.McuWidth(c)) + x);
  }

  lemma {:induction false} RowMcusAt(s: Scan, dct: Dct, i: nat, yoffset: nat, n: nat, m: nat)
    requires s.Valid() && m < n
    ensures RowMcus(s, dct, i, yoffset, n)[m] == McuBlocks(s, dct, i, yoffset, m, |s.comps|)
  {
    hide McuBlocks;
    if m < n - 1 {
      RowMcusAt(s, dct, i, yoffset, n - 1, m);
    }
  }

  // ---------- one component ----------

  /** The blocks of a component before block row y of the n-th row of interleaved MCUs. */
  lemma {:induction false} SingleDone(s: Scan, dct: Dct, n: nat, y: nat, i: nat, z: nat, k: nat)
    requires s.Valid() && |s.comps| == 1 && s.Fits(s.comps[0]) && n <= s.rows
    requires if n < s.rows then y <= RealRows(s, s.comps[0], n) else y == 0
    requires z < s.comps[0].v && k < s.comps[0].width
    ensures var c := s.comps[0];
      var rows := if n < s.rows then Times(n, c.v) + y else c.height;
      var r := Times(i, c.v) + z;
      var mcus := DoneMcus(s, dct, n, y);
      && |mcus| == Times(rows, c.width)
      && (r < rows ==>
            Times(r, c.width) + k < |mcus| && mcus[Times(r, c.width) + k] == McuBlocks(s, dct, i, z, k, 1))
    decreases n, y
  {
    hide Times, McuBlocks, RowMcus;
    var c := s.comps[0];
    var r := Times(i, c.v) + z;
    if y > 0 {
      var rows := Times(n, c.v) + y;
      SingleDone(s, dct, n, y - 1, i, z, k);
      TimesAdd(rows - 1, 1, c.width);
      TimesOne(c.width);
      if r < rows {
        TimesOrder(r, rows, c.width);
        if r == rows - 1 {
          SameDigits(i, z, n, y - 1, c.v);
          RowMcusAt(s, dct, i, z, c.width, k);
        } else {
          TimesOrder(r, rows - 1, c.width);
        }
      }
    } else if n == 0 {
      TimesZero(c.v);
      TimesZero(c.width);
    } else {
      SingleDone(s, dct, n - 1, RealRows(s, c, n - 1), i, z, k);
      TimesAdd(n - 1, 1, c.v);
      TimesOne(c.v);
      RemainderFits(c.height, c.v, s.rows);
    }
  }

  lemma SingleMcu(s: Scan, dct: Dct, i: nat, y: nat, k: nat)
    requires s.Valid() && |s.comps| == 1
    ensures McuBlocks(s, dct, i, y, k, 1) == [dct(0, i, 8 * y, 8 * k)]
  {
    hide Times, McuBlock;
    McuHas(s, dct, i, y, k, 0, 0, 0);
    TimesOne(1);
    TimesZero(1);
    SingleBlock(s, dct, i, y, k);
    assert McuSize(s, 1) == McuSize(s, 0) + 1;
  }

  lemma SingleBlock(s: Scan, dct: Dct, i: nat, y: nat, k: nat)
    requires s.Valid() && |s.comps| == 1
    ensures s.Fits(s.comps[0])
    ensures McuBlock(s, dct, 0, i, y, k, 0) == dct(0, i, 8 * y, 8 * k)
  {
    hide Times;
  }

  /** A scan of one component: its blocks row by row, one in each MCU, all of them and no dummies.  Block row
      number i * v + y is row y of the i-th row of interleaved MCUs. */
  lemma OneComponent(s: Scan, dct: Dct, i: nat, y: nat, k: nat)
    requires s.Valid() && |s.comps| == 1 && y < s.comps[0].v && k < s.comps[0].width
    requires i * s.comps[0].v + y < s.comps[0].height
    ensures var c := s.comps[0];
      var n := (i * c.v + y) * c.width + k;
      && |AllMcus(s, dct)| == c.height * c.width
      && n < |AllMcus(s, dct)| && AllMcus(s, dct)[n] == [dct(0, i, 8 * y, 8 * k)]
  {
    hide Times, DoneMcus, McuBlocks;
    var c := s.comps[0];
    assert s.Fits(c);
    TimesIs(i, c.v);
    SingleDone(s, dct, s.rows, 0, i, y, k);
    SingleMcu(s, dct, i, y, k);
    TimesIs(c.height, c.width);
    TimesIs(Times(i, c.v) + y, c.width);
  }

  // ---------- several components ----------

  lemma {:induction false} InterleavedDone(s: Scan, dct: Dct, n: nat, i: nat, m: nat)
    requires s.Valid() && s.Interleaved()
    ensures var mcus := DoneMcus(s, dct, n, 0);
      && |mcus| == Times(n, s.columns)
      && (i < n && m < s.columns ==>
            Times(i, s.columns) + m < |mcus|
            && mcus[Times(i, s.columns) + m] == McuBlocks(s, dct, i, 0, m, |s.comps|))
  {
    hide Times, McuBlocks, RowMcus;
    if n == 0 {
      TimesZero(s.columns);
    } else {
      InterleavedDone(s, dct, n - 1, i, m);
      TimesAdd(n - 1, 1, s.columns);
      TimesOne(s.columns);
      if i < n && m < s.columns {
        TimesOrder(i, n, s.columns);
        if i == n - 1 {
          RowMcusAt(s, dct, i, 0, s.columns, m);
        } else {
          TimesOrder(i, n - 1, s.columns);
        }
      }
    }
  }

  /** What is real in an MCU is what lies within the size of the component. */
  lemma RealIsWithin(count: nat, size: nat, n: nat, i: nat, y: nat)
    requires n > 0 && count > 0 && Times(count - 1, n) < size <= Times(count, n) && i < count && y < n
    ensures y < (if i + 1 < count then n else Remainder(size, n)) <==> Times(i, n) + y < size
  {
    hide Times;
    RemainderFits(size, n, count);
    TimesOrder(i, count - 1, n);
  }

  /** The block at a place of a padded MCU: real, or without AC coefficients and with the DC coefficient of the
      block before it. */
  lemma PaddedIs(s: Scan, dct: Dct, ci: nat, i: nat, m: nat, y: nat, x: nat)
    requires s.Valid() && s.Interleaved() && i < s.rows && m < s.columns
    requires ci < |s.comps| && s.Fits(s.comps[ci]) && y < s.comps[ci].v && x < s.comps[ci].h
    ensures var c := s.comps[ci];
      var b := PaddedAt(s, dct, ci, i, y, m, x);
      if Times(i, c.v) + y < c.height && Times(m, c.h) + x < c.width
        then b == dct(ci, i, 8 * y, 8 * (Times(m, c.h) + x))
      else if x > 0 then b == Dummy(PaddedAt(s, dct, ci, i, y, m, x - 1)[0])
      else y > 0 && b == Dummy(PaddedAt(s, dct, ci, i, y - 1, m, c.h - 1)[0])
  {
    hide Times, PaddedAt;
    var c := s.comps[ci];
    RealIsWithin(s.rows, c.height, c.v, i, y);
    RealIsWithin(s.columns, c.width, c.h, m, x);
    DummyRepeats(s, dct, ci, i, y, m, x);
    if x > 0 {
      DummyRepeats(s, dct, ci, i, y, m, x - 1);
    }
  }

  /** A scan of several components: MCU number i * columns + m consists, component after component, of the blocks
      in h columns and v rows; those beyond the edges of the component have no AC coefficients, and the DC
      coefficient of the block before them. */
  lemma SeveralComponents(s: Scan, dct: Dct, i: nat, m: nat, ci: nat, y: nat, x: nat)
    requires s.Valid() && |s.comps| > 1 && i < s.rows && m < s.columns
    requires ci < |s.comps| && y < s.comps[ci].v && x < s.comps[ci].h
    ensures |AllMcus(s, dct)| == s.rows * s.columns && Times(i, s.columns) + m < |AllMcus(s, dct)|
    ensures var c := s.comps[ci];
      var mcu := AllMcus(s, dct)[Times(i, s.columns) + m];
      var k := McuSize(s, ci) + Times(y, c.h) + x;
      && |mcu| == McuSize(s, |s.comps|) && k < |mcu|
      && if Times(i, c.v) + y < c.height && Times(m, c.h) + x < c.width
         then mcu[k] == dct(ci, i, 8 * y, 8 * (Times(m, c.h) + x))
         else k > McuSize(s, ci) && mcu[k][0] == mcu[k - 1][0] && forall j :: 0 < j < 64 ==> mcu[k][j] == 0
  {
    hide Times, DoneMcus, McuBlocks, PaddedAt, McuSize;
    var c := s.comps[ci];
    InterleavedDone(s, dct, s.rows, i, m);
    McuHas(s, dct, i, 0, m, ci, y, x);
    PaddedIs(s, dct, ci, i, m, y, x);
    if x > 0 {
      McuHas(s, dct, i, 0, m, ci, y, x - 1);
    } else if y > 0 {
      McuHas(s, dct, i, 0, m, ci, y - 1, c.h - 1);
      TimesAdd(y - 1, 1, c.h);
      TimesOne(c.h);
    }
    TimesIs(s.rows, s.columns);
  }

  // ---------- all blocks ----------

  /** The place of the block in column m * h + x and row i * v + y of its component: the number of an MCU, and the
      number of a block in it. */
  function Place(s: Scan, ci: nat, i: nat, y: nat, m: nat, x: nat): (nat, nat)
    requires ci < |s.comps|
  {
    var c := s.comps[ci];
    if |s.comps| == 1 then (Times(Times(i, c.v) + y, c.width) + Times(m, c.h) + x, 0)
    else (Times(i, s.columns) + m, McuSize(s, ci) + Times(y, c.h) + x)
  }

  /** A block of a component. */
  ghost predicate IsBlock(c: Component, i: nat, y: nat, m: nat, x: nat) {
    y < c.v && x < c.h && Times(i, c.v) + y < c.height && Times(m, c.h) + x < c.width
  }

  /** Every block of every component stands at its place. */
  lemma EveryBlockIsThere(s: Scan, dct: Dct, ci: nat, i: nat, y: nat, m: nat, x: nat)
    requires s.Valid() && ci < |s.comps| && IsBlock(s.comps[ci], i, y, m, x)
    ensures var (n, k) := Place(s, ci, i, y, m, x);
      && n < |AllMcus(s, dct)| && k < |AllMcus(s, dct)[n]|
      && AllMcus(s, dct)[n][k] == dct(ci, i, 8 * y, 8 * (m * s.comps[ci].h + x))
  {
    hide Times, AllMcus, McuSize;
    var c := s.comps[ci];
    assert s.Fits(c);
    TimesIs(i, c.v);
    TimesIs(m, c.h);
    if |s.comps| == 1 {
      OneComponent(s, dct, i, y, Times(m, c.h) + x);
      TimesIs(Times(i, c.v) + y, c.width);
    } else {
      TimesOrder(i, s.rows, c.v);
      TimesOrder(m, s.columns, c.h);
      SeveralComponents(s, dct, i, m, ci, y, x);
    }
  }

  /** The places of the blocks of a component end where those of the next one begin. */
  lemma PlaceWithin(s: Scan, ci: nat, y: nat, x: nat)
    requires |s.comps| > 1 && ci < |s.comps| && y < s.comps[ci].v && x < s.comps[ci].h
    ensures McuSize(s, ci) <= McuSize(s, ci) + Times(y, s.comps[ci].h) + x < McuSize(s, ci + 1)
  {
    hide Times;
    TimesOrder(y, s.comps[ci].v, s.comps[ci].h);
  }

  lemma PlaceOfComponent(s: Scan, ci: nat, i: nat, y: nat, m: nat, x: nat)
    requires ci < |s.comps| && IsBlock(s.comps[ci], i, y, m, x)
    ensures McuSize(s, ci) <= Place(s, ci, i, y, m, x).1 < McuSize(s, ci + 1)
  {
    hide Times;
    if |s.comps| == 1 {
      TimesOne(1);
    } else {
      PlaceWithin(s, ci, y, x);
    }
  }

  /** MCUs in a scan. */
  lemma CountOfMcus(s: Scan, dct: Dct)
    requires s.Valid()
    ensures |AllMcus(s, dct)| == if |s.comps| == 1 then s.comps[0].width * s.comps[0].height else s.columns * s.rows
  {
    hide Times, DoneMcus;
    assert s.Fits(s.comps[0]);
    TimesIs(s.comps[0].height, s.comps[0].width);
    TimesIs(s.rows, s.columns);
    if |s.comps| == 1 {
      SingleDone(s, dct, s.rows, 0, 0, 0, 0);
    } else {
      InterleavedDone(s, dct, s.rows, 0, 0);
    }
  }

  /** No two blocks have the same place. */
  lemma PlacesDiffer(s: Scan, ci: nat, i: nat, y: nat, m: nat, x: nat, ci': nat, i': nat, y': nat, m': nat, x': nat)
    requires s.Valid() && ci < |s.comps| && IsBlock(s.comps[ci], i, y, m, x)
    requires ci' < |s.comps| && IsBlock(s.comps[ci'], i', y', m', x')
    requires Place(s, ci, i, y, m, x) == Place(s, ci', i', y', m', x')
    ensures (ci, i, y, m, x) == (ci', i', y', m', x')
  {
    hide Times, McuSize;
    var c, c' := s.comps[ci], s.comps[ci'];
    assert s.Fits(c) && s.Fits(c');
    if |s.comps| == 1 {
      SameDigits(Times(i, c.v) + y, Times(m, c.h) + x, Times(i', c.v) + y', Times(m', c.h) + x', c.width);
      SameDigits(i, y, i', y', c.v);
      SameDigits(m, x, m', x', c.h);
    } else {
      PlaceWithin(s, ci, y, x);
      PlaceWithin(s, ci', y', x');
      if ci < ci' {
        McuSizeGrows(s, ci + 1, ci');
      } else if ci' < ci {
        McuSizeGrows(s, ci' + 1, ci);
      }
      SameDigits(y, x, y', x', c.h);
      TimesOrder(m, s.columns, c.h);
      TimesOrder(m', s.columns, c'.h);
      SameDigits(i, m, i', m', s.columns);
    }
  }
}
