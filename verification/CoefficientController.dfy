/** The coefficient buffer controller (jccoefct.c): single-pass and multi-pass operation, both of which must
    hand the entropy encoder the same MCUs, whenever it refuses one for the time being. */
module CoefficientController {
  import opened Coefficients
  import opened ReciprocalDivision
  import opened CoefficientGeometry
  import opened EntropyEncoders

  const C_MAX_BLOCKS_IN_MCU := 10

  /** Full-image buffers, one for each component: block rows, by row of MCUs and row within it. */
  method VirtualArrays(s: Scan) returns (image: seq<array2<seq<Block>>>)
    ensures |image| == |s.comps| && forall ci :: 0 <= ci < |image| ==> fresh(image[ci])
    ensures forall ci :: 0 <= ci < |image| ==> image[ci].Length0 == s.rows && image[ci].Length1 == s.comps[ci].v
    ensures forall ci, cj :: 0 <= ci < cj < |image| ==> image[ci] != image[cj]
  {
    image := [];
    while |image| < |s.comps|
      invariant |image| <= |s.comps| && forall ci :: 0 <= ci < |image| ==> fresh(image[ci])
      invariant forall ci :: 0 <= ci < |image| ==> image[ci].Length0 == s.rows && image[ci].Length1 == s.comps[ci].v
      invariant forall ci, cj :: 0 <= ci < cj < |image| ==> image[ci] != image[cj]
    {
      var strip := new seq<Block>[s.rows, s.comps[|image|].v];
      image := image + [strip];
    }
  }

  class CoefController {
    const s: Scan
    const dct: Dct
    const mcuBuffer: array<Block>
    const wholeImage: seq<array2<seq<Block>>>  // block rows by component, row of MCUs, and row within it
    var iMcuRowNum: nat
    var mcuCtr: nat
    var mcuVertOffset: nat
    var mcuRowsPerIMcuRow: nat
    var entropy: EntropyEncoder
    var mcus: seq<seq<Block>>             // MCUs that it has accepted

    ghost predicate Wired() {
      && s.Valid() && mcuBuffer.Length == C_MAX_BLOCKS_IN_MCU && McuSize(s, |s.comps|) <= C_MAX_BLOCKS_IN_MCU
    }

    /** What the entropy encoder has accepted is what comes before the current position. */
    ghost predicate At(yoffset: nat, m: nat)
      reads `iMcuRowNum, `mcus
    {
      && s.Valid() && iMcuRowNum < s.rows
      && mcus == DoneMcus(s, dct, iMcuRowNum, yoffset) + RowMcus(s, dct, iMcuRowNum, yoffset, m)
    }

    /** An entropy encoder shares nothing with the controller. */
    ghost predicate Apart(e: EntropyEncoder)
      reads e
    {
      this !in e.Repr && mcuBuffer !in e.Repr && forall a <- wholeImage :: a !in e.Repr
    }

    /** That of the current pass is ready for the MCUs of the scan. */
    ghost predicate Fed()
      reads `entropy, `mcus, entropy, entropy.Repr
    {
      entropy.Valid() && entropy.mcus == mcus && s.Valid() && entropy.plan == AllMcus(s, dct)
    }

    ghost predicate Served()
      reads `entropy, `mcus, entropy, entropy.Repr
    {
      Fed() && Apart(entropy)
    }

    /** The state between two calls: some rows of MCUs are finished, and the next one is begun. */
    ghost predicate Valid()
      reads this
    {
      && Wired() && iMcuRowNum <= s.rows
      && if iMcuRowNum == s.rows then mcus == DoneMcus(s, dct, s.rows, 0)
         else At(mcuVertOffset, mcuCtr) && mcuRowsPerIMcuRow == s.RowsIn(iMcuRowNum)
              && mcuVertOffset < mcuRowsPerIMcuRow && mcuCtr < s.McusPerRow()
    }

    /** Initialize the controller, for a single pass or with virtual arrays for several. */
    constructor (s: Scan, dct: Dct, needFullBuffer: bool, entropy: EntropyEncoder)
      requires s.Valid() && McuSize(s, |s.comps|) <= C_MAX_BLOCKS_IN_MCU
      ensures Valid() && fresh(mcuBuffer) && forall ci :: 0 <= ci < |wholeImage| ==> fresh(wholeImage[ci])
      ensures this.s == s && this.dct == dct && this.entropy == entropy && iMcuRowNum == 0 && mcus == []
      ensures entropy.Valid() && entropy.plan == AllMcus(s, dct) && entropy.mcus == [] ==> Served()
      ensures needFullBuffer ==> Allocated() && StoredUpto(0)
    {
      hide McuSize, Times, EntropyEncoder.Valid, DoneMcus;
      var image := [];
      if needFullBuffer {
        image := VirtualArrays(s);
      }
      this.s := s;
      this.dct := dct;
      mcuBuffer := new Block[C_MAX_BLOCKS_IN_MCU];
      wholeImage := image;
      iMcuRowNum := 0;
      this.entropy := entropy;
      mcus := [];
      new;
      IMcuRowDone(s, dct, 0);
      FirstRowIsThere(s, dct);
      StartIMcuRow();
    }

    /** Begin a pass: nothing has been handed over yet. */
    method StartPass(entropy: EntropyEncoder)
      requires Wired()
      modifies this
      ensures Valid() && iMcuRowNum == 0 && mcus == [] && this.entropy == entropy
      ensures entropy.Valid() && entropy.plan == AllMcus(s, dct) && entropy.mcus == [] && Apart(entropy) ==> Served()
    {
      hide McuSize, EntropyEncoder.Valid, DoneMcus;
      this.entropy := entropy;
      iMcuRowNum := 0;
      mcus := [];
      FirstRowIsThere(s, dct);
      StartIMcuRow();
    }

    /** Reset the counters within a row of interleaved MCUs. */
    method StartIMcuRow()
      requires s.Valid()
      modifies `mcuRowsPerIMcuRow, `mcuCtr, `mcuVertOffset
      ensures mcuCtr == 0 && mcuVertOffset == 0
      ensures iMcuRowNum < s.rows ==> mcuRowsPerIMcuRow == s.RowsIn(iMcuRowNum)
    {
      assert s.Fits(s.comps[0]);
      if s.Interleaved() {
        mcuRowsPerIMcuRow := 1;
      } else if iMcuRowNum + 1 < s.rows {
        mcuRowsPerIMcuRow := s.comps[0].v;
      } else {
        mcuRowsPerIMcuRow := LastHeight(s.comps[0]);
      }
      mcuCtr := 0;
      mcuVertOffset := 0;
    }

    /** Hand the MCU in the buffer to the entropy encoder. */
    method EncodeMcu(yoffset: nat, m: nat) returns (ok: bool)
      requires Wired() && At(yoffset, m) && Served() && !entropy.failed
      requires yoffset < s.RowsIn(iMcuRowNum) && m < s.McusPerRow()
      requires mcuBuffer[..McuSize(s, |s.comps|)] == McuBlocks(s, dct, iMcuRowNum, yoffset, m, |s.comps|)
      modifies `mcus, entropy.Repr
      ensures At(yoffset, if ok then m + 1 else m) && old(mcus) <= mcus
      ensures Served() && fresh(entropy.Repr - old(entropy.Repr))
      ensures entropy.Answered(ok, old(entropy.attempts))
    {
      hide McuSize, McuBlocks, DoneMcus, RowMcus, EntropyEncoder.Valid;
      McuDone(s, dct, iMcuRowNum, yoffset, m);
      NextIsPlanned(s, dct, iMcuRowNum, yoffset, m);
      var mcu := mcuBuffer[..McuSize(s, |s.comps|)];
      ok := entropy.EncodeMcu(mcu);
      if ok {
        mcus := mcus + [mcu];
      }
    }

    // ---------- single pass ----------

    /** The first n blocks of a row of the current MCU are in place, behind `before`. */
    ghost predicate Built(before: seq<Block>, ci: nat, y: nat, m: nat, n: nat)
      requires s.Valid() && ci < |s.comps|
      reads `iMcuRowNum, mcuBuffer
    {
      && s.Fits(s.comps[ci]) && |before| + n <= mcuBuffer.Length
      && mcuBuffer[..|before| + n] == before + RowBlocks(s, dct, ci, iMcuRowNum, y, m, n)
    }

    /** Place one more block. */
    method Place(ghost before: seq<Block>, blkn: nat, b: Block, ghost ci: nat, ghost y: nat, ghost m: nat, n: nat)
      requires s.Valid() && ci < |s.comps| && Built(before, ci, y, m, n) && blkn == |before| + n < mcuBuffer.Length
      requires b == McuBlock(s, dct, ci, iMcuRowNum, y, m, n)
      modifies mcuBuffer
      ensures Built(before, ci, y, m, n + 1) && mcuBuffer[blkn] == b
    {
      hide McuBlock;
      mcuBuffer[blkn] := b;
      assert mcuBuffer[..blkn + 1] == mcuBuffer[..blkn] + [b];
      assert RowBlocks(s, dct, ci, iMcuRowNum, y, m, n + 1) == RowBlocks(s, dct, ci, iMcuRowNum, y, m, n) + [b];
    }

    /** One block row of a component in an MCU: transformed blocks, and dummies beyond the right edge. */
    method BuildRealRow(ci: nat, y: nat, m: nat, blkn: nat)
      requires Wired() && ci < |s.comps| && iMcuRowNum < s.rows && m < s.McusPerRow()
      requires blkn + s.McuWidth(s.comps[ci]) <= mcuBuffer.Length && s.Fits(s.comps[ci])
      requires y < RealRows(s, s.comps[ci], iMcuRowNum)
      modifies mcuBuffer
      ensures Built(old(mcuBuffer[..blkn]), ci, y, m, s.McuWidth(s.comps[ci]))
    {
      hide Times, McuSize, PaddedAt, RowBlocks, Built;
      var c := s.comps[ci];
      var w := s.McuWidth(c);
      ghost var before := mcuBuffer[..blkn];
      NothingBuilt(before, ci, y, m);
      var blockcnt := if !s.Interleaved() then 1 else if m + 1 < s.McusPerRow() then w else LastWidth(c);
      TimesOne(m);
      var bi := 0;
      while bi < blockcnt
        invariant 0 <= bi <= blockcnt && Built(before, ci, y, m, bi)
        invariant bi > 0 ==> mcuBuffer[blkn + bi - 1] == McuBlock(s, dct, ci, iMcuRowNum, y, m, bi - 1)
      {
        DummyRepeats(s, dct, ci, iMcuRowNum, y, m, bi);
        Place(before, blkn + bi, dct(ci, iMcuRowNum, 8 * y, 8 * (Times(m, w) + bi)), ci, y, m, bi);
        bi := bi + 1;
      }
      while bi < w
        invariant blockcnt <= bi <= w && Built(before, ci, y, m, bi)
        invariant mcuBuffer[blkn + bi - 1] == McuBlock(s, dct, ci, iMcuRowNum, y, m, bi - 1)
      {
        DummyRepeats(s, dct, ci, iMcuRowNum, y, m, bi);
        Place(before, blkn + bi, Dummy(mcuBuffer[blkn + bi - 1][0]), ci, y, m, bi);
        bi := bi + 1;
      }
    }

    lemma NothingBuilt(before: seq<Block>, ci: nat, y: nat, m: nat)
      requires s.Valid() && ci < |s.comps| && |before| <= mcuBuffer.Length && before == mcuBuffer[..|before|]
      ensures s.Fits(s.comps[ci]) && Built(before, ci, y, m, 0)
    {
    }

    /** One block row of a component in an MCU, below the last real one. */
    method BuildDummyRow(ci: nat, y: nat, m: nat, blkn: nat)
      requires Wired() && ci < |s.comps| && iMcuRowNum < s.rows && s.Interleaved()
      requires 0 < blkn && blkn + s.McuWidth(s.comps[ci]) <= mcuBuffer.Length && s.Fits(s.comps[ci])
      requires y >= RealRows(s, s.comps[ci], iMcuRowNum)
      requires mcuBuffer[blkn - 1] == McuBlock(s, dct, ci, iMcuRowNum, y - 1, m, s.McuWidth(s.comps[ci]) - 1)
      modifies mcuBuffer
      ensures Built(old(mcuBuffer[..blkn]), ci, y, m, s.McuWidth(s.comps[ci]))
    {
      hide Times, McuSize, PaddedAt, RowBlocks, Built;
      var w := s.McuWidth(s.comps[ci]);
      ghost var before := mcuBuffer[..blkn];
      NothingBuilt(before, ci, y, m);
      var bi := 0;
      while bi < w
        invariant 0 <= bi <= w && Built(before, ci, y, m, bi) && mcuBuffer[blkn - 1] == before[blkn - 1]
      {
        DummyRepeats(s, dct, ci, iMcuRowNum, y, m, bi);
        Place(before, blkn + bi, Dummy(mcuBuffer[blkn - 1][0]), ci, y, m, bi);
        StillBefore(before, ci, y, m, bi + 1);
        bi := bi + 1;
      }
    }

    lemma StillBefore(before: seq<Block>, ci: nat, y: nat, m: nat, n: nat)
      requires s.Valid() && ci < |s.comps| && Built(before, ci, y, m, n) && before != []
      ensures |before| <= mcuBuffer.Length && mcuBuffer[|before| - 1] == before[|before| - 1]
    {
      assert mcuBuffer[..|before| + n][|before| - 1] == before[|before| - 1];
    }

    /** The first `rows` rows of a component's blocks are in place, behind `before`. */
    ghost predicate CompBuilt(before: seq<Block>, ci: nat, yoffset: nat, m: nat, rows: nat, blkn: nat)
      requires s.Valid() && ci < |s.comps|
      reads `iMcuRowNum, mcuBuffer
    {
      && s.Fits(s.comps[ci]) && blkn <= mcuBuffer.Length
      && mcuBuffer[..blkn] == before + CompBlocks(s, dct, ci, iMcuRowNum, yoffset, m, rows)
      && blkn == |before| + Times(rows, s.McuWidth(s.comps[ci]))
    }

    /** One more row of a component. */
    lemma RowAdded(before: seq<Block>, so: seq<Block>, ci: nat, yoffset: nat, m: nat, rows: nat)
      requires s.Valid() && ci < |s.comps| && s.Fits(s.comps[ci])
      requires so == before + CompBlocks(s, dct, ci, iMcuRowNum, yoffset, m, rows)
      requires |so| == |before| + Times(rows, s.McuWidth(s.comps[ci]))
      requires Built(so, ci, yoffset + rows, m, s.McuWidth(s.comps[ci]))
      ensures CompBuilt(before, ci, yoffset, m, rows + 1, |so| + s.McuWidth(s.comps[ci]))
    {
      hide RowBlocks, Times;
      var w := s.McuWidth(s.comps[ci]);
      TimesAdd(rows, 1, w);
      TimesOne(w);
    }

    /** Where the last block of the row above is. */
    lemma RowAbove(before: seq<Block>, ci: nat, yoffset: nat, m: nat, rows: nat, blkn: nat)
      requires s.Valid() && ci < |s.comps| && CompBuilt(before, ci, yoffset, m, rows, blkn) && rows > 0
      ensures var w := s.McuWidth(s.comps[ci]);
        blkn > 0 && mcuBuffer[blkn - 1] == McuBlock(s, dct, ci, iMcuRowNum, yoffset + rows - 1, m, w - 1)
    {
      hide Times, McuBlock;
      var w := s.McuWidth(s.comps[ci]);
      TimesAdd(rows - 1, 1, w);
      TimesOne(w);
      assert mcuBuffer[blkn - 1] == mcuBuffer[..blkn][blkn - 1];
    }

    /** There is room for a component's blocks. */
    lemma RoomFor(ci: nat, rows: nat)
      requires Wired() && ci < |s.comps| && rows < s.McuHeight(s.comps[ci])
      ensures s.Fits(s.comps[ci])
      ensures var w := s.McuWidth(s.comps[ci]);
        McuSize(s, ci) + Times(rows, w) + w <= McuSize(s, ci + 1) <= mcuBuffer.Length
    {
      hide Times;
      var c := s.comps[ci];
      McuSizeGrows(s, ci + 1, |s.comps|);
      TimesAdd(rows, 1, s.McuWidth(c));
      TimesOne(s.McuWidth(c));
      TimesOrder(rows + 1, s.McuHeight(c), s.McuWidth(c));
    }

    /** The blocks of one component of an MCU. */
    method BuildComp(ci: nat, yoffset: nat, m: nat, blkn0: nat) returns (blkn: nat)
      requires Wired() && ci < |s.comps| && iMcuRowNum < s.rows && m < s.McusPerRow() && blkn0 == McuSize(s, ci)
      requires blkn0 <= mcuBuffer.Length && yoffset < s.RowsIn(iMcuRowNum)
      modifies mcuBuffer
      ensures CompBuilt(old(mcuBuffer[..blkn0]), ci, yoffset, m, s.McuHeight(s.comps[ci]), blkn)
    {
      hide Times, McuSize, RowBlocks, McuBlock, Built;
      ghost var before := mcuBuffer[..blkn0];
      var c := s.comps[ci];
      assert s.Fits(c);
      blkn := blkn0;
      TimesZero(s.McuWidth(c));
      var yindex := 0;
      while yindex < s.McuHeight(c)
        invariant 0 <= yindex <= s.McuHeight(c) && CompBuilt(before, ci, yoffset, m, yindex, blkn)
      {
        RoomFor(ci, yindex);
        ghost var so := mcuBuffer[..blkn];
        if yoffset + yindex < RealRows(s, c, iMcuRowNum) {
          BuildRealRow(ci, yoffset + yindex, m, blkn);
        } else {
          RowAbove(before, ci, yoffset, m, yindex, blkn);
          BuildDummyRow(ci, yoffset + yindex, m, blkn);
        }
        RowAdded(before, so, ci, yoffset, m, yindex);
        blkn := blkn + s.McuWidth(c);
        yindex := yindex + 1;
      }
    }

    /** Put together MCU number m of a row. */
    method BuildMcu(yoffset: nat, m: nat)
      requires Wired() && iMcuRowNum < s.rows && m < s.McusPerRow() && yoffset < s.RowsIn(iMcuRowNum)
      modifies mcuBuffer
      ensures McuSize(s, |s.comps|) <= mcuBuffer.Length
      ensures mcuBuffer[..McuSize(s, |s.comps|)] == McuBlocks(s, dct, iMcuRowNum, yoffset, m, |s.comps|)
    {
      hide Times, CompBlocks;
      var blkn := 0;
      var ci := 0;
      while ci < |s.comps|
        invariant ci <= |s.comps| && blkn == McuSize(s, ci) <= mcuBuffer.Length
        invariant mcuBuffer[..blkn] == McuBlocks(s, dct, iMcuRowNum, yoffset, m, ci)
      {
        blkn := BuildComp(ci, yoffset, m, blkn);
        ci := ci + 1;
      }
    }

    /** Build an MCU, and hand it over. */
    method CompressMcu(yoffset: nat, m: nat) returns (ok: bool)
      requires Wired() && At(yoffset, m) && Served() && !entropy.failed
      requires yoffset < s.RowsIn(iMcuRowNum) && m < s.McusPerRow()
      modifies `mcus, mcuBuffer, entropy.Repr
      ensures At(yoffset, if ok then m + 1 else m) && old(mcus) <= mcus
      ensures Served() && fresh(entropy.Repr - old(entropy.Repr))
      ensures entropy.Answered(ok, old(entropy.attempts))
    {
      assert iMcuRowNum < s.rows;
      hide McuSize, McuBlocks, DoneMcus, RowMcus, IMcuRowStored, Fed, EntropyEncoder.Valid, EntropyEncoder.Answered,
        At;
      BuildMcu(yoffset, m);
      ok := EncodeMcu(yoffset, m);
    }

    /** One row of MCUs, from where the entropy encoder last refused one. */
    method CompressRow(yoffset: nat) returns (m: nat, ok: bool)
      requires Wired() && At(yoffset, mcuCtr) && mcuCtr < s.McusPerRow() && yoffset < s.RowsIn(iMcuRowNum)
      requires Served() && !entropy.failed
      modifies `mcus, mcuBuffer, entropy.Repr
      ensures At(yoffset, m) && m <= s.McusPerRow() && (ok <==> m == s.McusPerRow()) && old(mcus) <= mcus
      ensures Served() && fresh(entropy.Repr - old(entropy.Repr))
      ensures entropy.Answered(ok, old(entropy.attempts))
    {
      assert iMcuRowNum < s.rows;
      hide McuSize, McuBlocks, DoneMcus, RowMcus, Fed, EntropyEncoder.Valid, At;
      m := mcuCtr;
      while m < s.McusPerRow()
        invariant mcuCtr <= m <= s.McusPerRow() && At(yoffset, m) && old(mcus) <= mcus
        invariant Served() && !entropy.failed && fresh(entropy.Repr - old(entropy.Repr))
        invariant old(entropy.attempts) <= entropy.attempts
      {
        ok := CompressMcu(yoffset, m);
        if !ok {
          return;
        }
        m := m + 1;
      }
      ok := true;
    }

    /** Single-pass operation: hand over the rest of the current row of interleaved MCUs, unless the entropy
        encoder refuses one of them. */
    method CompressData() returns (complete: bool)
      requires Valid() && iMcuRowNum < s.rows
      requires Served() && !entropy.failed
      modifies `iMcuRowNum, `mcuCtr, `mcuVertOffset, `mcuRowsPerIMcuRow, `mcus, mcuBuffer, entropy.Repr
      ensures Valid() && old(mcus) <= mcus
      ensures Served() && fresh(entropy.Repr - old(entropy.Repr))
      ensures entropy.Answered(complete, old(entropy.attempts))
      ensures iMcuRowNum == old(iMcuRowNum) + if complete then 1 else 0
    {
      hide McuSize, DoneMcus, RowMcus, Fed, EntropyEncoder.Valid;
      var yoffset := mcuVertOffset;
      while yoffset < mcuRowsPerIMcuRow
        invariant yoffset <= mcuRowsPerIMcuRow == s.RowsIn(iMcuRowNum) && iMcuRowNum == old(iMcuRowNum)
        invariant Served() && !entropy.failed && fresh(entropy.Repr - old(entropy.Repr))
        invariant old(entropy.attempts) <= entropy.attempts && old(mcus) <= mcus
        invariant At(yoffset, mcuCtr) && mcuCtr < s.McusPerRow() && (yoffset == mcuRowsPerIMcuRow ==> mcuCtr == 0)
      {
        var m, ok := CompressRow(yoffset);
        if !ok {
          mcuVertOffset, mcuCtr := yoffset, m;
          return false;
        }
        RowDone(s, dct, iMcuRowNum, yoffset);
        mcuCtr := 0;
        yoffset := yoffset + 1;
      }
      IMcuRowDone(s, dct, iMcuRowNum);
      iMcuRowNum := iMcuRowNum + 1;
      StartIMcuRow();
      return true;
    }

    // ---------- several passes ----------

    ghost predicate Allocated() {
      && Wired() && |wholeImage| == |s.comps|
      && (forall ci :: 0 <= ci < |s.comps| ==>
            wholeImage[ci].Length0 == s.rows && wholeImage[ci].Length1 == s.comps[ci].v)
      && forall ci, cj :: 0 <= ci < cj < |s.comps| ==> wholeImage[ci] != wholeImage[cj]
    }

    /** Row y of a component is in the virtual array, padded at the edges. */
    ghost predicate RowStored(ci: nat, i: nat, y: nat)
      requires Allocated() && ci < |s.comps| && i < s.rows && y < s.comps[ci].v
      reads wholeImage[ci]
    {
      && s.Fits(s.comps[ci])
      && wholeImage[ci][i, y] == PaddedRow(s, dct, ci, i, y, s.columns)
    }

    /** So are all rows of all components. */
    ghost predicate IMcuRowStored(i: nat)
      requires Allocated() && i < s.rows
      reads wholeImage
    {
      forall ci, y :: 0 <= ci < |s.comps| && 0 <= y < s.comps[ci].v ==> RowStored(ci, i, y)
    }

    /** Store one block row of a component: transformed blocks, padded to whole MCUs. */
    method StoreRealRow(ci: nat, y: nat)
      requires Allocated() && ci < |s.comps| && iMcuRowNum < s.rows && s.Fits(s.comps[ci])
      requires y < RealRows(s, s.comps[ci], iMcuRowNum)
      modifies wholeImage[ci]
      ensures RowStored(ci, iMcuRowNum, y)
      ensures forall i, z :: 0 <= i < s.rows && 0 <= z < s.comps[ci].v && !(i == iMcuRowNum && z == y) ==>
        wholeImage[ci][i, z] == old(wholeImage[ci][i, z])
    {
      var c := s.comps[ci];
      var blocksAcross := c.width;
      var ndummy := blocksAcross % c.h;
      if ndummy > 0 {
        ndummy := c.h - ndummy;
      }
      var row: seq<Block> := [];
      while |row| < blocksAcross
        invariant |row| <= blocksAcross && forall x :: 0 <= x < |row| ==> row[x] == dct(ci, iMcuRowNum, 8 * y, 8 * x)
      {
        row := row + [dct(ci, iMcuRowNum, 8 * y, 8 * |row|)];
      }
      var lastDC := row[blocksAcross - 1][0];
      var bi := 0;
      while bi < ndummy
        invariant 0 <= bi <= ndummy && |row| == blocksAcross + bi
        invariant forall x :: 0 <= x < blocksAcross ==> row[x] == dct(ci, iMcuRowNum, 8 * y, 8 * x)
        invariant forall x :: blocksAcross <= x < |row| ==> row[x] == Dummy(lastDC)
      {
        row := row + [Dummy(lastDC)];
        bi := bi + 1;
      }
      PaddedRowIs(s, dct, ci, iMcuRowNum, y, row);
      wholeImage[ci][iMcuRowNum, y] := row;
    }

    /** Store one block row below the last real one.  The DC coefficients are those of the last block that the
        same MCU has in the row above. */
    method StoreDummyRow(ci: nat, y: nat)
      requires Allocated() && ci < |s.comps| && iMcuRowNum < s.rows && s.Fits(s.comps[ci])
      requires RealRows(s, s.comps[ci], iMcuRowNum) <= y < s.comps[ci].v && RowStored(ci, iMcuRowNum, y - 1)
      modifies wholeImage[ci]
      ensures RowStored(ci, iMcuRowNum, y)
      ensures forall i, z :: 0 <= i < s.rows && 0 <= z < s.comps[ci].v && !(i == iMcuRowNum && z == y) ==>
        wholeImage[ci][i, z] == old(wholeImage[ci][i, z])
    {
      hide Times, PaddedAt, PaddedBlocks;
      var h := s.comps[ci].h;
      var above := wholeImage[ci][iMcuRowNum, y - 1];
      var row: seq<Block> := [];
      var m, start := 0, 0;
      TimesZero(h);
      while m < s.columns
        modifies {}
        invariant 0 <= m <= s.columns && start == Times(m, h)
        invariant row == PaddedRow(s, dct, ci, iMcuRowNum, y, m)
      {
        PaddedRowAt(s, dct, ci, iMcuRowNum, y - 1, s.columns, m, h - 1);
        var lastDC := above[start + h - 1][0];
        var mcu := seq(h, _ => Dummy(lastDC));
        DummyMcu(s, dct, ci, iMcuRowNum, y, m, mcu);
        row := row + mcu;
        TimesAdd(m, 1, h);
        TimesOne(h);
        m, start := m + 1, start + h;
      }
      wholeImage[ci][iMcuRowNum, y] := row;
    }

    /** The strip of one component: real rows, and dummy rows at the end of the image. */
    method StoreComp(ci: nat)
      requires Allocated() && ci < |s.comps| && iMcuRowNum < s.rows
      modifies wholeImage[ci]
      ensures forall y :: 0 <= y < s.comps[ci].v ==> RowStored(ci, iMcuRowNum, y)
      ensures forall i, z :: 0 <= i < s.rows && 0 <= z < s.comps[ci].v && i != iMcuRowNum ==>
        wholeImage[ci][i, z] == old(wholeImage[ci][i, z])
    {
      hide Times, PaddedRow;
      var c := s.comps[ci];
      assert s.Fits(c);
      var blockRows := RealRows(s, c, iMcuRowNum);
      var y := 0;
      while y < c.v
        invariant 0 <= y <= c.v && forall z :: 0 <= z < y ==> RowStored(ci, iMcuRowNum, z)
        invariant forall i, z :: 0 <= i < s.rows && 0 <= z < s.comps[ci].v && i != iMcuRowNum ==>
          wholeImage[ci][i, z] == old(wholeImage[ci][i, z])
      {
        label Before:
        if y < blockRows {
          StoreRealRow(ci, y);
        } else {
          StoreDummyRow(ci, y);
        }
        forall z: nat | z < y ensures RowStored(ci, iMcuRowNum, z) {
          assert old@Before(RowStored(ci, iMcuRowNum, z));
          assert wholeImage[ci][iMcuRowNum, z] == old@Before(wholeImage[ci][iMcuRowNum, z]);
        }
        y := y + 1;
      }
    }

    /** All rows of interleaved MCUs before the i-th are in the virtual arrays. */
    ghost predicate StoredUpto(i: nat)
      requires Allocated() && i <= s.rows
      reads wholeImage
    {
      forall k :: 0 <= k < i ==> IMcuRowStored(k)
    }

    /** Store all block rows of the current row of interleaved MCUs. */
    method StoreStrip()
      requires Allocated() && iMcuRowNum < s.rows && StoredUpto(iMcuRowNum)
      modifies wholeImage
      ensures StoredUpto(iMcuRowNum + 1)
    {
      hide Times, PaddedRow, Wired;
      ghost var i := iMcuRowNum;
      var ci := 0;
      while ci < |s.comps|
        invariant 0 <= ci <= |s.comps| && Allocated() && i == iMcuRowNum
        invariant forall cj, y :: 0 <= cj < ci && 0 <= y < s.comps[cj].v ==> RowStored(cj, i, y)
        invariant StoredUpto(i)
      {
        label Before:
        StoreComp(ci);
        forall k: nat, cj: nat, y: nat | k <= i && cj < |s.comps| && y < s.comps[cj].v && (k < i || cj < ci)
          ensures RowStored(cj, k, y)
        {
          assert k < i ==> old@Before(IMcuRowStored(k));
          assert old@Before(RowStored(cj, k, y));
          if cj == ci {
            assert wholeImage[ci][k, y] == old@Before(wholeImage[ci][k, y]);
          } else {
            assert wholeImage[cj] != wholeImage[ci];
          }
        }
        ci := ci + 1;
      }
      assert IMcuRowStored(i);
    }

    /** The blocks of one component of an MCU, from the virtual arrays. */
    method LoadComp(ci: nat, yoffset: nat, m: nat, blkn0: nat) returns (blkn: nat)
      requires Allocated() && ci < |s.comps| && iMcuRowNum < s.rows && m < s.McusPerRow() && blkn0 == McuSize(s, ci)
      requires blkn0 <= mcuBuffer.Length && yoffset < s.RowsIn(iMcuRowNum) && IMcuRowStored(iMcuRowNum)
      modifies mcuBuffer
      ensures CompBuilt(old(mcuBuffer[..blkn0]), ci, yoffset, m, s.McuHeight(s.comps[ci]), blkn)
    {
      hide Times, McuSize, RowBlocks, McuBlock, Built, PaddedRow, PaddedAt;
      ghost var before := mcuBuffer[..blkn0];
      var c := s.comps[ci];
      assert s.Fits(c);
      var w := s.McuWidth(c);
      var startCol := Times(m, w);
      blkn := blkn0;
      TimesZero(w);
      var yindex := 0;
      while yindex < s.McuHeight(c)
        invariant 0 <= yindex <= s.McuHeight(c) && CompBuilt(before, ci, yoffset, m, yindex, blkn)
      {
        RoomFor(ci, yindex);
        ghost var so := mcuBuffer[..blkn];
        var y := yoffset + yindex;
        assert RowStored(ci, iMcuRowNum, y);
        NothingBuilt(so, ci, y, m);
        var xindex := 0;
        while xindex < w
          invariant 0 <= xindex <= w && Built(so, ci, y, m, xindex)
        {
          LoadedIs(s, dct, ci, iMcuRowNum, y, m, xindex);
          Place(so, blkn + xindex, wholeImage[ci][iMcuRowNum, y][startCol + xindex], ci, y, m, xindex);
          xindex := xindex + 1;
        }
        RowAdded(before, so, ci, yoffset, m, yindex);
        blkn := blkn + w;
        yindex := yindex + 1;
      }
    }

    /** Take an MCU from the virtual arrays, and hand it over. */
    method OutputMcu(yoffset: nat, m: nat) returns (ok: bool)
      requires Wired() && At(yoffset, m) && Served() && !entropy.failed
      requires Allocated() && IMcuRowStored(iMcuRowNum)
      requires yoffset < s.RowsIn(iMcuRowNum) && m < s.McusPerRow()
      modifies `mcus, mcuBuffer, entropy.Repr
      ensures At(yoffset, if ok then m + 1 else m) && old(mcus) <= mcus
      ensures Served() && fresh(entropy.Repr - old(entropy.Repr))
      ensures entropy.Answered(ok, old(entropy.attempts))
    {
      assert iMcuRowNum < s.rows;
      hide McuSize, McuBlocks, DoneMcus, RowMcus, IMcuRowStored, Fed, EntropyEncoder.Valid, EntropyEncoder.Answered,
        At;
      LoadMcu(yoffset, m);
      ok := EncodeMcu(yoffset, m);
    }

    /** The list of blocks belonging to an MCU. */
    method LoadMcu(yoffset: nat, m: nat)
      requires Allocated() && iMcuRowNum < s.rows && m < s.McusPerRow() && yoffset < s.RowsIn(iMcuRowNum)
      requires IMcuRowStored(iMcuRowNum)
      modifies mcuBuffer
      ensures McuSize(s, |s.comps|) <= mcuBuffer.Length
      ensures mcuBuffer[..McuSize(s, |s.comps|)] == McuBlocks(s, dct, iMcuRowNum, yoffset, m, |s.comps|)
    {
      hide Times, CompBlocks, RowStored;
      var blkn := 0;
      var ci := 0;
      while ci < |s.comps|
        invariant ci <= |s.comps| && blkn == McuSize(s, ci) <= mcuBuffer.Length
        invariant mcuBuffer[..blkn] == McuBlocks(s, dct, iMcuRowNum, yoffset, m, ci)
      {
        blkn := LoadComp(ci, yoffset, m, blkn);
        ci := ci + 1;
      }
    }

    method OutputRow(yoffset: nat) returns (m: nat, ok: bool)
      requires Allocated() && At(yoffset, mcuCtr) && mcuCtr < s.McusPerRow() && yoffset < s.RowsIn(iMcuRowNum)
      requires IMcuRowStored(iMcuRowNum)
      requires Served() && !entropy.failed
      modifies `mcus, mcuBuffer, entropy.Repr
      ensures At(yoffset, m) && m <= s.McusPerRow() && (ok <==> m == s.McusPerRow()) && old(mcus) <= mcus
      ensures Served() && fresh(entropy.Repr - old(entropy.Repr))
      ensures entropy.Answered(ok, old(entropy.attempts))
    {
      assert iMcuRowNum < s.rows;
      hide McuSize, McuBlocks, DoneMcus, RowMcus, IMcuRowStored, Fed, EntropyEncoder.Valid, At;
      m := mcuCtr;
      while m < s.McusPerRow()
        invariant mcuCtr <= m <= s.McusPerRow() && At(yoffset, m) && old(mcus) <= mcus
        invariant Served() && !entropy.failed && fresh(entropy.Repr - old(entropy.Repr))
        invariant old(entropy.attempts) <= entropy.attempts
      {
        ok := OutputMcu(yoffset, m);
        if !ok {
          return;
        }
        m := m + 1;
      }
      ok := true;
    }

    /** Process one whole row of interleaved MCUs from the virtual arrays.  It hands over the same MCUs as
        CompressData: both go through the sequence that Valid prescribes. */
    method CompressOutput() returns (complete: bool)
      requires Valid() && Allocated() && iMcuRowNum < s.rows && IMcuRowStored(iMcuRowNum)
      requires Served() && !entropy.failed
      modifies `iMcuRowNum, `mcuCtr, `mcuVertOffset, `mcuRowsPerIMcuRow, `mcus, mcuBuffer, entropy.Repr
      ensures Valid() && old(mcus) <= mcus
      ensures Served() && fresh(entropy.Repr - old(entropy.Repr))
      ensures entropy.Answered(complete, old(entropy.attempts))
      ensures iMcuRowNum == old(iMcuRowNum) + if complete then 1 else 0
    {
      hide McuSize, DoneMcus, RowMcus, IMcuRowStored, Fed, EntropyEncoder.Valid;
      var yoffset := mcuVertOffset;
      while yoffset < mcuRowsPerIMcuRow
        invariant yoffset <= mcuRowsPerIMcuRow == s.RowsIn(iMcuRowNum) && iMcuRowNum == old(iMcuRowNum)
        invariant Served() && !entropy.failed && fresh(entropy.Repr - old(entropy.Repr))
        invariant old(entropy.attempts) <= entropy.attempts && old(mcus) <= mcus
        invariant At(yoffset, mcuCtr) && mcuCtr < s.McusPerRow() && (yoffset == mcuRowsPerIMcuRow ==> mcuCtr == 0)
      {
        var m, ok := OutputRow(yoffset);
        if !ok {
          mcuVertOffset, mcuCtr := yoffset, m;
          return false;
        }
        RowDone(s, dct, iMcuRowNum, yoffset);
        mcuCtr := 0;
        yoffset := yoffset + 1;
      }
      IMcuRowDone(s, dct, iMcuRowNum);
      iMcuRowNum := iMcuRowNum + 1;
      StartIMcuRow();
      return true;
    }

    /** The first pass: load the current strip, redoing it after a refusal, and emit it. */
    method CompressFirstPass() returns (complete: bool)
      requires Valid() && Allocated() && iMcuRowNum < s.rows && StoredUpto(iMcuRowNum)
      requires Served() && !entropy.failed
      modifies `iMcuRowNum, `mcuCtr, `mcuVertOffset, `mcuRowsPerIMcuRow, `mcus, mcuBuffer, wholeImage, entropy.Repr
      ensures Valid() && old(mcus) <= mcus
      ensures Served() && fresh(entropy.Repr - old(entropy.Repr))
      ensures entropy.Answered(complete, old(entropy.attempts))
      ensures iMcuRowNum == old(iMcuRowNum) + if complete then 1 else 0
      ensures StoredUpto(iMcuRowNum)
    {
      hide DoneMcus, RowMcus, IMcuRowStored, McuSize, Fed, EntropyEncoder.Valid;
      StoreStrip();
      complete := CompressOutput();
    }

    /** A single pass.  After a refusal the controller is called again, until the pass is complete, or the
        encoder fails, or there are no more attempts. */
    method SinglePass()
      requires Valid() && Served() && !entropy.failed
      modifies `iMcuRowNum, `mcuCtr, `mcuVertOffset, `mcuRowsPerIMcuRow, `mcus, mcuBuffer, entropy.Repr
      ensures Valid() && Served() && fresh(entropy.Repr - old(entropy.Repr))
      ensures Ended()
    {
      hide McuSize, DoneMcus, RowMcus, At, EntropyEncoder.Valid;
      entropy.ValidBounds();
      while iMcuRowNum < s.rows && !entropy.Finished()
        invariant Valid() && Served() && fresh(entropy.Repr - old(entropy.Repr))
        invariant entropy.attempts <= |entropy.offers|
        invariant iMcuRowNum == s.rows ==> !entropy.failed
        decreases s.rows - iMcuRowNum, |entropy.offers| - entropy.attempts, !entropy.failed
      {
        var complete := CompressData();
        entropy.ValidBounds();
      }
      Standing();
    }

    /** The calls of a first pass. */
    method FirstPass()
      requires Valid() && Served() && !entropy.failed && Allocated() && StoredUpto(iMcuRowNum)
      modifies `iMcuRowNum, `mcuCtr, `mcuVertOffset, `mcuRowsPerIMcuRow, `mcus, mcuBuffer, wholeImage, entropy.Repr
      ensures Valid() && Served() && fresh(entropy.Repr - old(entropy.Repr))
      ensures Ended() && StoredUpto(iMcuRowNum)
    {
      hide McuSize, DoneMcus, RowMcus, At, EntropyEncoder.Valid, IMcuRowStored;
      entropy.ValidBounds();
      while iMcuRowNum < s.rows && !entropy.Finished()
        invariant Valid() && Served() && fresh(entropy.Repr - old(entropy.Repr))
        invariant entropy.attempts <= |entropy.offers| && StoredUpto(iMcuRowNum)
        invariant iMcuRowNum == s.rows ==> !entropy.failed
        decreases s.rows - iMcuRowNum, |entropy.offers| - entropy.attempts, !entropy.failed
      {
        var complete := CompressFirstPass();
        entropy.ValidBounds();
      }
      Standing();
    }

    /** The calls of a pass over the virtual arrays. */
    method LaterPass()
      requires Valid() && Served() && !entropy.failed && Allocated() && StoredUpto(s.rows)
      modifies `iMcuRowNum, `mcuCtr, `mcuVertOffset, `mcuRowsPerIMcuRow, `mcus, mcuBuffer, entropy.Repr
      ensures Valid() && Served() && fresh(entropy.Repr - old(entropy.Repr))
      ensures Ended() && StoredUpto(s.rows)
    {
      hide McuSize, DoneMcus, RowMcus, At, EntropyEncoder.Valid, IMcuRowStored;
      entropy.ValidBounds();
      while iMcuRowNum < s.rows && !entropy.Finished()
        invariant Valid() && Served() && fresh(entropy.Repr - old(entropy.Repr))
        invariant entropy.attempts <= |entropy.offers| && StoredUpto(s.rows)
        invariant iMcuRowNum == s.rows ==> !entropy.failed
        decreases s.rows - iMcuRowNum, |entropy.offers| - entropy.attempts, !entropy.failed
      {
        var complete := CompressOutput();
        entropy.ValidBounds();
      }
      Standing();
    }

    /** A pass over the stored strips, for another entropy encoder. */
    method NextPass(later: EntropyEncoder)
      requires Wired() && Allocated() && StoredUpto(s.rows)
      requires later.Valid() && later.plan == AllMcus(s, dct) && later.mcus == [] && !later.failed && Apart(later)
      modifies this, mcuBuffer, later.Repr
      ensures Valid() && Served() && Ended() && entropy == later
    {
      hide McuSize, DoneMcus, RowMcus, At, EntropyEncoder.Valid, IMcuRowStored;
      StartPass(later);
      LaterPass();
    }

    /** A first pass, and then a pass over the virtual arrays with another entropy encoder: both hand over the
        same MCUs, namely those that a single pass does. */
    method TwoPasses(later: EntropyEncoder) returns (first: seq<seq<Block>>)
      requires Valid() && Served() && !entropy.failed && Allocated() && iMcuRowNum == 0
      requires later.Valid() && later.plan == AllMcus(s, dct) && later.mcus == [] && !later.failed
      requires later.Repr !! entropy.Repr && Apart(later)
      modifies this, mcuBuffer, wholeImage, entropy.Repr, later.Repr
      ensures Valid() && Served() && Ended()
      ensures first == AllMcus(s, dct) <==> entropy == later
      ensures first == AllMcus(s, dct) && iMcuRowNum == s.rows ==> mcus == first
    {
      assert later in later.Repr && later != entropy;
      hide McuSize, DoneMcus, RowMcus, EntropyEncoder.Valid, Allocated, StoredUpto, Valid;
      FirstPass();
      first := mcus;
      if iMcuRowNum == s.rows {
        NextPass(later);
      }
    }

    /** Where the controller is between two calls. */
    lemma Standing()
      requires Valid()
      ensures mcus <= AllMcus(s, dct)
      ensures if iMcuRowNum == s.rows then mcus == AllMcus(s, dct) else |mcus| < |AllMcus(s, dct)|
    {
      hide DoneMcus, RowMcus, McuSize;
      if iMcuRowNum < s.rows {
        WithinRow(s, dct, iMcuRowNum, mcuVertOffset, mcuCtr);
        DonePrefix(s, dct, iMcuRowNum + 1, s.rows);
      }
    }

    /** A pass has come to its end: either all MCUs of the scan were accepted, or the encoder failed, or all
        attempts were made. */
    ghost predicate Ended()
      requires s.Valid()
      reads this, entropy
    {
      if iMcuRowNum == s.rows then mcus == AllMcus(s, dct) && !entropy.failed
      else entropy.Finished() && |mcus| < |AllMcus(s, dct)|
    }
  }

  lemma McuDone(s: Scan, dct: Dct, i: nat, yoffset: nat, m: nat)
    requires s.Valid()
    ensures DoneMcus(s, dct, i, yoffset) + RowMcus(s, dct, i, yoffset, m) + [McuBlocks(s, dct, i, yoffset, m, |s.comps|)]
         == DoneMcus(s, dct, i, yoffset) + RowMcus(s, dct, i, yoffset, m + 1)
  {
    hide DoneMcus, McuBlocks;
  }

  lemma RowDone(s: Scan, dct: Dct, i: nat, yoffset: nat)
    requires s.Valid()
    ensures DoneMcus(s, dct, i, yoffset) + RowMcus(s, dct, i, yoffset, s.McusPerRow())
         == DoneMcus(s, dct, i, yoffset + 1) + RowMcus(s, dct, i, yoffset + 1, 0)
    ensures s.McusPerRow() > 0
  {
    hide McuBlocks, Times;
    assert s.Fits(s.comps[0]);
  }

  lemma IMcuRowDone(s: Scan, dct: Dct, i: nat)
    requires s.Valid()
    ensures s.Fits(s.comps[0])
    ensures DoneMcus(s, dct, i, s.RowsIn(i)) + RowMcus(s, dct, i, s.RowsIn(i), 0)
         == DoneMcus(s, dct, i + 1, 0) == DoneMcus(s, dct, i + 1, 0) + RowMcus(s, dct, i + 1, 0, 0)
    ensures s.RowsIn(i + 1) > 0 && s.McusPerRow() > 0
  {
    hide McuBlocks, Times;
    assert s.Fits(s.comps[0]);
  }

  // ---------- positions in the sequence of MCUs ----------

  lemma {:induction false} RowPrefix(s: Scan, dct: Dct, i: nat, yoffset: nat, m: nat, n: nat)
    requires s.Valid() && m <= n
    ensures RowMcus(s, dct, i, yoffset, m) <= RowMcus(s, dct, i, yoffset, n)
  {
    hide McuBlocks;
    if m < n {
      RowPrefix(s, dct, i, yoffset, m, n - 1);
    }
  }

  lemma {:induction false} RowsPrefix(s: Scan, dct: Dct, i: nat, y: nat, z: nat)
    requires s.Valid() && y <= z
    ensures DoneMcus(s, dct, i, y) <= DoneMcus(s, dct, i, z)
  {
    hide RowMcus;
    if y < z {
      RowsPrefix(s, dct, i, y, z - 1);
    }
  }

  lemma {:induction false} DonePrefix(s: Scan, dct: Dct, i: nat, j: nat)
    requires s.Valid() && i <= j
    ensures DoneMcus(s, dct, i, 0) <= DoneMcus(s, dct, j, 0)
  {
    if i < j {
      DonePrefix(s, dct, i, j - 1);
      RowsPrefix(s, dct, j - 1, 0, s.RowsIn(j - 1));
    }
  }

  /** A position within a row of interleaved MCUs comes before its end, and so does the next MCU. */
  lemma WithinRow(s: Scan, dct: Dct, i: nat, yoffset: nat, m: nat)
    requires s.Valid() && yoffset < s.RowsIn(i) && m < s.McusPerRow()
    ensures var so := DoneMcus(s, dct, i, yoffset) + RowMcus(s, dct, i, yoffset, m);
      so <= DoneMcus(s, dct, i + 1, 0) && |so| < |DoneMcus(s, dct, i + 1, 0)|
    ensures DoneMcus(s, dct, i, yoffset) + RowMcus(s, dct, i, yoffset, m + 1) <= DoneMcus(s, dct, i + 1, 0)
  {
    hide DoneMcus, RowMcus;
    RowPrefix(s, dct, i, yoffset, m, s.McusPerRow());
    RowPrefix(s, dct, i, yoffset, m + 1, s.McusPerRow());
    RowDone(s, dct, i, yoffset);
    NoneInRow(s, dct, i, yoffset + 1);
    RowsPrefix(s, dct, i, yoffset + 1, s.RowsIn(i));
    IMcuRowDone(s, dct, i);
    NoneInRow(s, dct, i, s.RowsIn(i));
    var before, row := DoneMcus(s, dct, i, yoffset), RowMcus(s, dct, i, yoffset, s.McusPerRow());
    assert before + row == DoneMcus(s, dct, i, yoffset + 1) <= DoneMcus(s, dct, i + 1, 0);
    assert before + RowMcus(s, dct, i, yoffset, m) <= before + row;
    assert before + RowMcus(s, dct, i, yoffset, m + 1) <= before + row;
  }

  lemma NoneInRow(s: Scan, dct: Dct, i: nat, yoffset: nat)
    requires s.Valid()
    ensures RowMcus(s, dct, i, yoffset, 0) == []
  {
  }

  lemma NextIsPlanned(s: Scan, dct: Dct, i: nat, yoffset: nat, m: nat)
    requires s.Valid() && i < s.rows && yoffset < s.RowsIn(i) && m < s.McusPerRow()
    ensures DoneMcus(s, dct, i, yoffset) + RowMcus(s, dct, i, yoffset, m + 1) <= AllMcus(s, dct)
  {
    hide DoneMcus, RowMcus;
    WithinRow(s, dct, i, yoffset, m);
    DonePrefix(s, dct, i + 1, s.rows);
  }

  // ---------- padded rows ----------

  function PaddedBlocks(s: Scan, dct: Dct, ci: nat, i: nat, y: nat, m: nat): (r: seq<Block>)
    requires ci < |s.comps| && s.comps[ci].h > 0 && s.comps[ci].v > 0
    ensures |r| == s.comps[ci].h
  {
    seq(s.comps[ci].h, xi requires 0 <= xi < s.comps[ci].h => PaddedAt(s, dct, ci, i, y, m, xi))
  }

  /** A row of blocks as it is stored: the blocks of the first n MCUs. */
  function PaddedRow(s: Scan, dct: Dct, ci: nat, i: nat, y: nat, n: nat): (r: seq<Block>)
    requires ci < |s.comps| && s.comps[ci].h > 0 && s.comps[ci].v > 0
  {
    if n == 0 then [] else PaddedRow(s, dct, ci, i, y, n - 1) + PaddedBlocks(s, dct, ci, i, y, n - 1)
  }

  lemma {:induction false} PaddedRowSize(s: Scan, dct: Dct, ci: nat, i: nat, y: nat, n: nat)
    requires ci < |s.comps| && s.comps[ci].h > 0 && s.comps[ci].v > 0
    ensures |PaddedRow(s, dct, ci, i, y, n)| == Times(n, s.comps[ci].h)
  {
    hide Times, PaddedBlocks;
    var h := s.comps[ci].h;
    if n == 0 {
      TimesZero(h);
    } else {
      PaddedRowSize(s, dct, ci, i, y, n - 1);
      TimesAdd(n - 1, 1, h);
      TimesOne(h);
    }
  }

  lemma {:induction false} PaddedRowAt(s: Scan, dct: Dct, ci: nat, i: nat, y: nat, n: nat, m: nat, xi: nat)
    requires ci < |s.comps| && s.comps[ci].h > 0 && s.comps[ci].v > 0 && m < n && xi < s.comps[ci].h
    ensures var row := PaddedRow(s, dct, ci, i, y, n);
      var x := Times(m, s.comps[ci].h) + xi;
      x < |row| && row[x] == PaddedAt(s, dct, ci, i, y, m, xi)
  {
    hide Times, PaddedAt;
    var h := s.comps[ci].h;
    PaddedRowSize(s, dct, ci, i, y, n - 1);
    PaddedRowSize(s, dct, ci, i, y, n);
    TimesAdd(n - 1, 1, h);
    TimesOne(h);
    if m < n - 1 {
      PaddedRowAt(s, dct, ci, i, y, n - 1, m, xi);
    }
  }

  /** A row of real blocks, followed by dummies with the DC coefficient of the last one. */
  lemma PaddedRowIs(s: Scan, dct: Dct, ci: nat, i: nat, y: nat, row: seq<Block>)
    requires s.Valid() && ci < |s.comps| && s.Fits(s.comps[ci]) && y < RealRows(s, s.comps[ci], i)
    requires var c := s.comps[ci];
      && |row| == c.width + (if c.width % c.h > 0 then c.h - c.width % c.h else 0)
      && (forall x :: 0 <= x < c.width ==> row[x] == dct(ci, i, 8 * y, 8 * x))
      && (forall x :: c.width <= x < |row| ==> row[x] == Dummy(row[c.width - 1][0]))
    ensures row == PaddedRow(s, dct, ci, i, y, s.columns)
  {
    hide Times, PaddedRow, Dummy, PaddedAt, LastWidth;
    var c := s.comps[ci];
    var padded := PaddedRow(s, dct, ci, i, y, s.columns);
    RowIsFull(c.width, c.h, s.columns);
    PaddedRowSize(s, dct, ci, i, y, s.columns);
    forall x: nat | x < |row| ensures row[x] == padded[x] {
      var m, xi := ColumnOf(x, c.h, s.columns);
      PaddedRowAt(s, dct, ci, i, y, s.columns, m, xi);
      PaddedBlockIs(s, dct, ci, i, y, m, xi);
    }
  }

  lemma RowIsFull(width: nat, h: nat, columns: nat)
    requires h > 0 && columns > 0 && Times(columns - 1, h) < width <= Times(columns, h)
    ensures width + (if width % h > 0 then h - width % h else 0) == Times(columns, h)
  {
    hide Times;
    RemainderFits(width, h, columns);
    TimesAdd(columns - 1, 1, h);
    TimesOne(h);
  }

  /** A block of the padded row: transformed, or a dummy if it is beyond the last real one. */
  lemma PaddedBlockIs(s: Scan, dct: Dct, ci: nat, i: nat, y: nat, m: nat, xi: nat)
    requires s.Valid() && ci < |s.comps| && s.Fits(s.comps[ci]) && y < RealRows(s, s.comps[ci], i)
    requires m < s.columns && xi < s.comps[ci].h
    requires var c := s.comps[ci]; m + 1 < s.columns ==> Times(m, c.h) + xi < Times(s.columns - 1, c.h)
    ensures var c := s.comps[ci];
      var x := Times(m, c.h) + xi;
      && (x < c.width ==> PaddedAt(s, dct, ci, i, y, m, xi) == dct(ci, i, 8 * y, 8 * x))
      && (x >= c.width ==> PaddedAt(s, dct, ci, i, y, m, xi) == Dummy(dct(ci, i, 8 * y, 8 * (c.width - 1))[0]))
  {
    hide Times, Dummy, LastWidth;
    var c := s.comps[ci];
    LastColumn(c, s.columns);
  }

  lemma LastColumn(c: Component, columns: nat)
    requires c.h > 0 && columns > 0 && Times(columns - 1, c.h) < c.width <= Times(columns, c.h)
    ensures c.width == Times(columns - 1, c.h) + LastWidth(c)
  {
    hide Times;
    RemainderFits(c.width, c.h, columns);
  }

  /** The MCU column of a block. */
  lemma ColumnOf(x: nat, h: nat, columns: nat) returns (m: nat, xi: nat)
    requires h > 0 && columns > 0 && x < Times(columns, h)
    ensures m < columns && x == Times(m, h) + xi && xi < h
    ensures m + 1 < columns ==> x < Times(columns - 1, h)
  {
    hide Times;
    m, xi := x / h, x % h;
    Division(x, h);
    TimesOrder(columns, m, h);
    TimesOrder(m + 1, columns - 1, h);
    TimesAdd(m, 1, h);
    TimesOne(h);
  }

  lemma DummyMcu(s: Scan, dct: Dct, ci: nat, i: nat, y: nat, m: nat, mcu: seq<Block>)
    requires ci < |s.comps| && s.comps[ci].h > 0 && s.comps[ci].v > 0 && y >= RealRows(s, s.comps[ci], i)
    requires |mcu| == s.comps[ci].h
    requires forall xi :: 0 <= xi < |mcu| ==> mcu[xi] == Dummy(PaddedAt(s, dct, ci, i, y - 1, m, s.comps[ci].h - 1)[0])
    ensures mcu == PaddedBlocks(s, dct, ci, i, y, m)
  {
    hide Times;
    forall xi: nat | xi < |mcu| ensures mcu[xi] == PaddedBlocks(s, dct, ci, i, y, m)[xi] {
      DummyRepeats(s, dct, ci, i, y, m, xi);
    }
  }

  /** The block that an MCU takes from a stored row. */
  lemma LoadedIs(s: Scan, dct: Dct, ci: nat, i: nat, y: nat, m: nat, xi: nat)
    requires s.Valid() && ci < |s.comps| && s.Fits(s.comps[ci]) && i < s.rows && m < s.McusPerRow()
    requires xi < s.McuWidth(s.comps[ci]) && (!s.Interleaved() ==> y < RealRows(s, s.comps[ci], i))
    ensures var row := PaddedRow(s, dct, ci, i, y, s.columns);
      var x := Times(m, s.McuWidth(s.comps[ci])) + xi;
      x < |row| && row[x] == McuBlock(s, dct, ci, i, y, m, xi)
  {
    hide Times, PaddedRow, PaddedAt;
    var c := s.comps[ci];
    if s.Interleaved() {
      PaddedRowAt(s, dct, ci, i, y, s.columns, m, xi);
    } else {
      TimesOne(m);
      RemainderFits(c.width, c.h, s.columns);
      var k, x := m / c.h, m % c.h;
      Division(m, c.h);
      TimesOrder(s.columns, k, c.h);
      TimesOrder(s.columns - 1, k, c.h);
      TimesOrder(k + 1, s.columns - 1, c.h);
      TimesAdd(k, 1, c.h);
      TimesOne(c.h);
      PaddedRowAt(s, dct, ci, i, y, s.columns, k, x);
      DummyRepeats(s, dct, ci, i, y, k, x);
    }
  }

  lemma FirstRowIsThere(s: Scan, dct: Dct)
    requires s.Valid()
    ensures DoneMcus(s, dct, 0, 0) + RowMcus(s, dct, 0, 0, 0) == []
    ensures s.Fits(s.comps[0]) && s.RowsIn(0) > 0 && s.McusPerRow() > 0
  {
    hide Times;
    assert s.Fits(s.comps[0]);
  }
}
