/** From a script to the coefficients: what a decoder knows of a component after the AC scans of a progressive
    script (jcmaster.c, jcparam.c, jcphuff.c), whichever valid script it is. */
module ScriptDecoding {
  import opened Shifts
  import opened WordArithmetic
  import opened ByteStreams
  import opened HuffmanDerive
  import opened Coefficients
  import opened SequentialStatistics
  import opened SequentialOptimize
  import opened RestartIntervals
  import opened RefineBlock
  import opened AcIntervals
  import opened ProgressiveScan
  import opened ScanScripts
  import opened SimpleProgression

  /** An AC scan of component c. */
  predicate IsFor(s: ScanInfo, c: int) {
    s.ss != 0 && c in s.comps
  }

  function BandOf(s: ScanInfo): (b: Band)
    requires s.RangesOk() && s.ss != 0
    ensures b.Valid()
  {
    Band(s.ss, s.se, s.al, s.ah == 0)
  }

  // ---------- what is known after the scans of a script ----------

  function KnownAt(v: int, al: int): int {
    if al < 0 then 0 else Point(v, al)
  }

  /** Each AC coefficient is known down to the last bit position sent, and is zero if it was not sent. */
  ghost predicate KnownTo(zs: seq<Block>, ys: seq<Block>, scans: Script, c: int) {
    |ys| == |zs| && forall i :: 0 <= i < |zs| ==> BlockKnownTo(zs[i], ys[i], scans, c)
  }

  ghost predicate BlockKnownTo(z: Block, y: Block, scans: Script, c: int) {
    forall k :: 1 <= k < 64 ==> y[k] == KnownAt(z[k], LastBitpos(scans, c, k))
  }

  /** AC coefficients of at most 10 bits. */
  ghost predicate SmallAc(zs: seq<Block>) {
    forall i, k :: 0 <= i < |zs| && 1 <= k < 64 ==> NBits(Abs(zs[i][k])) <= MAX_COEF_BITS
  }

  lemma {:induction false} ShrShrinks(v: nat, al: nat)
    ensures Shr(v, al) <= v
    decreases al
  {
    if al > 0 {
      ShrShrinks(v, al - 1);
    }
  }

  lemma MagIsSmall(v: int, al: nat)
    requires NBits(Abs(v)) <= 10
    ensures NBits(Mag(v, al)) <= 10
  {
    hide NBits, Shl;
    ShrShrinks(Abs(v), al);
    NBitsAtMost(Abs(v), 10);
    NBitsAtMost(Mag(v, al), 10);
  }

  /** A valid script never asks more of a scan than the scans before it provide. */
  lemma NextIsPrior(z: Block, y: Block, scans: Script, s: ScanInfo, n: nat, c: int)
    requires ProgressivePart(scans + [s], n) && 0 <= c < n && IsFor(s, c) && s.RangesOk()
    requires BlockKnownTo(z, y, scans, c)
    requires forall k :: 1 <= k < 64 ==> NBits(Abs(z[k])) <= MAX_COEF_BITS
    ensures Prior(z, y, BandOf(s))
    ensures BlockKnownTo(z, Refined(z, y, s.se + 1, BandOf(s)), scans + [s], c)
  {
    hide ProgressivePart, Sent, LastBitpos, NBits, Mag, Point;
    ScanFollows(scans, s, n);
    forall k | 1 <= k < 64
      ensures s.ss <= k <= s.se ==> (if s.ah == 0 then y[k] == 0 else y[k] == Point(z[k], s.al + 1))
      ensures NBits(Mag(z[k], s.al)) <= 10
      ensures LastBitpos(scans + [s], c, k) == if s.ss <= k <= s.se then s.al else LastBitpos(scans, c, k)
    {
      MagIsSmall(z[k], s.al);
      SentSnoc(scans, s, c, k);
      assert s.Covers(c, k) ==> FollowsAt(scans, s, c, k);
    }
  }

  lemma ScanFollows(scans: Script, s: ScanInfo, n: nat)
    requires ProgressivePart(scans + [s], n)
    ensures Follows(scans, s)
  {
    hide DcFirst, Sent, LastBitpos;
    assert (scans + [s])[..|scans|] == scans && (scans + [s])[|scans|] == s;
    PartsAreValid(scans + [s], n, |scans|);
    ExtendPart(scans, s, n);
  }

  lemma NextScan(zs: seq<Block>, ys: seq<Block>, scans: Script, s: ScanInfo, n: nat, c: int)
    requires ProgressivePart(scans + [s], n) && 0 <= c < n && IsFor(s, c) && s.RangesOk()
    requires KnownTo(zs, ys, scans, c) && SmallAc(zs)
    ensures AllPrior(zs, ys, BandOf(s))
    ensures KnownTo(zs, AllRefined(zs, ys, BandOf(s)), scans + [s], c)
  {
    hide ProgressivePart, Prior, BlockKnownTo, Refined, NBits;
    forall i | 0 <= i < |zs|
      ensures Prior(zs[i], ys[i], BandOf(s))
      ensures BlockKnownTo(zs[i], Refined(zs[i], ys[i], s.se + 1, BandOf(s)), scans + [s], c)
    {
      NextIsPrior(zs[i], ys[i], scans, s, n, c);
    }
  }

  /** A scan of DC coefficients, or of another component, does not matter. */
  lemma OtherScan(zs: seq<Block>, ys: seq<Block>, scans: Script, s: ScanInfo, c: int)
    requires KnownTo(zs, ys, scans, c) && !IsFor(s, c) && s.RangesOk()
    ensures KnownTo(zs, ys, scans + [s], c)
  {
    hide Sent, LastBitpos, KnownAt;
    forall k | 1 <= k < 64
      ensures LastBitpos(scans + [s], c, k) == LastBitpos(scans, c, k)
    {
      SentSnoc(scans, s, c, k);
    }
    forall i | 0 <= i < |zs|
      ensures BlockKnownTo(zs[i], ys[i], scans + [s], c)
    {
      assert BlockKnownTo(zs[i], ys[i], scans, c);
    }
  }

  // ---------- decoding the scans of a script ----------

  /** The blocks of component c after the AC scans, in the order of the script. */
  ghost function DecodeScript(
    scans: Script, c: int, interval: nat, ts: seq<Derived>, files: seq<seq<Byte>>, ys: seq<Block>): Option<seq<Block>>
    requires |ts| == |files| == |scans|
  {
    if scans == [] then Some(ys)
    else
      var n := |scans| - 1;
      var s := scans[n];
      match DecodeScript(scans[..n], c, interval, ts[..n], files[..n], ys)
      case None => None
      case Some(now) =>
        if !s.RangesOk() then None
        else if IsFor(s, c) then DecodeAcScan(ts[n], BandOf(s), interval, now, files[n])
        else Some(now)
  }

  /** The bytes decode to the blocks at the scan's precision, from whatever a scan may build upon. */
  ghost predicate Decodes(zs: seq<Block>, s: ScanInfo, t: Derived, interval: nat, file: seq<Byte>)
    requires s.RangesOk() && s.ss != 0
  {
    forall ys | AllPrior(zs, ys, BandOf(s)) ::
      DecodeAcScan(t, BandOf(s), interval, ys, file) == Some(AllRefined(zs, ys, BandOf(s)))
  }

  /** Whatever the script: a decoder that starts with zeros ends with what was sent. */
  lemma {:induction false} ScriptRoundTrip(zs: seq<Block>, ys: seq<Block>, scans: Script, n: nat, c: int,
    interval: nat, ts: seq<Derived>, files: seq<seq<Byte>>)
    requires ProgressivePart(scans, n) && 0 <= c < n && SmallAc(zs)
    requires |ys| == |zs| && forall i, k :: 0 <= i < |ys| && 1 <= k < 64 ==> ys[i][k] == 0
    requires |ts| == |files| == |scans|
    requires forall j :: 0 <= j < |scans| && IsFor(scans[j], c) ==> Decodes(zs, scans[j], ts[j], interval, files[j])
    ensures var r := DecodeScript(scans, c, interval, ts, files, ys);
      r.Some? && KnownTo(zs, r.value, scans, c)
    decreases |scans|
  {
    hide SmallAc, KnownTo, ProgressivePart, DecodeAcScan, Decodes, AllPrior, AllRefined;
    if scans == [] {
      NothingKnown(zs, ys, c);
    } else {
      var m := |scans| - 1;
      var s := scans[m];
      assert scans == scans[..m] + [s];
      PartsAreValid(scans, n, m);
      ScanIsOk(scans, n, m);
      ScriptRoundTrip(zs, ys, scans[..m], n, c, interval, ts[..m], files[..m]);
      var now := DecodeScript(scans[..m], c, interval, ts[..m], files[..m], ys).value;
      if IsFor(s, c) {
        NextScan(zs, now, scans[..m], s, n, c);
        DecodesFrom(zs, s, ts[m], interval, files[m], now);
      } else {
        OtherScan(zs, now, scans[..m], s, c);
      }
    }
  }

  lemma ScanIsOk(scans: Script, n: nat, i: nat)
    requires ProgressivePart(scans, n) && i < |scans|
    ensures scans[i].RangesOk() && scans[i].ComponentsOk(n)
  {
  }

  lemma DecodesFrom(zs: seq<Block>, s: ScanInfo, t: Derived, interval: nat, file: seq<Byte>, ys: seq<Block>)
    requires s.RangesOk() && s.ss != 0 && Decodes(zs, s, t, interval, file) && AllPrior(zs, ys, BandOf(s))
    ensures |zs| == |ys|
    ensures DecodeAcScan(t, BandOf(s), interval, ys, file) == Some(AllRefined(zs, ys, BandOf(s)))
  {
  }

  lemma NothingKnown(zs: seq<Block>, ys: seq<Block>, c: int)
    requires |ys| == |zs| && forall i, k :: 0 <= i < |ys| && 1 <= k < 64 ==> ys[i][k] == 0
    ensures KnownTo(zs, ys, [], c)
  {
    NothingSentYet();
  }

  /** Once every AC coefficient was sent down to the lowest bit, it is exact. */
  lemma CompleteIsExact(zs: seq<Block>, ys: seq<Block>, scans: Script, c: int)
    requires KnownTo(zs, ys, scans, c) && forall k :: 1 <= k < 64 ==> LastBitpos(scans, c, k) == 0
    ensures forall i, k :: 0 <= i < |zs| && 1 <= k < 64 ==> ys[i][k] == zs[i][k]
  {
    hide LastBitpos;
    forall i, k | 0 <= i < |zs| && 1 <= k < 64
      ensures ys[i][k] == zs[i][k]
    {
      assert BlockKnownTo(zs[i], ys[i], scans, c);
    }
  }

  // ---------- encoding them ----------

  ghost predicate CountableScan(zs: seq<Block>, s: ScanInfo, table: nat, interval: nat) {
    s.RangesOk() && s.ss != 0 ==> Countable(InOrder(ProgressiveScan.ScanItems(zs, BandOf(s), table, interval)))
  }

  ghost predicate FewInScan(zs: seq<Block>, s: ScanInfo, table: nat, interval: nat) {
    s.RangesOk() && s.ss != 0 ==> Few(InOrder(ProgressiveScan.ScanItems(zs, BandOf(s), table, interval)))
  }

  /** Encode the AC scans of one component, each with the table made for it. */
  method EncodeScript(scans: Script, ghost n: nat, c: int, table: nat, interval: nat, blocks: seq<Block>)
    returns (ts: seq<Derived>, files: seq<seq<Byte>>, ok: bool)
    requires ProgressivePart(scans, n) && 0 <= c < n && blocks != [] && SmallAc(AllZigzag(blocks))
    requires NUM_HUFF_TBLS <= table < 2 * NUM_HUFF_TBLS
    requires forall s <- scans :: CountableScan(AllZigzag(blocks), s, table, interval)
    ensures (forall s <- scans :: FewInScan(AllZigzag(blocks), s, table, interval)) ==> ok
    ensures ok ==> |ts| == |files| == |scans|
    ensures ok ==> forall j :: 0 <= j < |scans| && IsFor(scans[j], c) ==>
      scans[j].RangesOk() && Decodes(AllZigzag(blocks), scans[j], ts[j], interval, files[j])
  {
    hide ProgressivePart, SmallAc, AllZigzag, Countable, Few, Decodes, AllInRange, AllPrior,
      ProgressiveScan.ScanItems, AllRefined, DecodeAcScan, AllMadeFor;
    ts, files, ok := [], [], true;
    while |files| < |scans|
      invariant |ts| == |files| <= |scans|
      invariant forall j :: 0 <= j < |files| && IsFor(scans[j], c) ==>
        scans[j].RangesOk() && Decodes(AllZigzag(blocks), scans[j], ts[j], interval, files[j])
    {
      var s := scans[|files|];
      assert s in scans;
      var t, file := NoTable(), [];
      if IsFor(s, c) {
        ScanIsOk(scans, n, |files|);
        SmallIsInRange(AllZigzag(blocks), BandOf(s));
        var d, out := EncodeAcOptimized(table, BandOf(s), interval, blocks);
        if out.None? {
          return ts, files, false;
        }
        t, file := d[table], out.value;
        EncodedDecodes(AllZigzag(blocks), s, t, interval, file);
      }
      ts, files := ts + [t], files + [file];
    }
  }

  lemma SmallIsInRange(zs: seq<Block>, b: Band)
    requires SmallAc(zs) && b.Valid()
    ensures AllInRange(zs, b)
  {
    hide NBits, Mag;
    forall i, j | 0 <= i < |zs| && b.ss <= j <= b.se
      ensures NBits(Mag(zs[i][j], b.al)) <= 10
    {
      MagIsSmall(zs[i][j], b.al);
    }
  }

  lemma EncodedDecodes(zs: seq<Block>, s: ScanInfo, t: Derived, interval: nat, file: seq<Byte>)
    requires s.RangesOk() && s.ss != 0
    requires forall ys, tail | AllPrior(zs, ys, BandOf(s)) && AtMarker(tail) ::
      DecodeAcScan(t, BandOf(s), interval, ys, file + tail) == Some(AllRefined(zs, ys, BandOf(s)))
    ensures Decodes(zs, s, t, interval, file)
  {
    hide AllPrior, DecodeAcScan, AllRefined;
    var tail: seq<Byte> := [];
    assert AtMarker(tail) && file + tail == file;
  }

  /** The recommended script for a number of components: encoding its AC scans of one of them, and decoding
      them in order, restores every AC coefficient exactly. */
  method SimpleProgressionRoundTrip(ncomps: nat, ycc: bool, c: int, table: nat, interval: nat, blocks: seq<Block>)
    returns (scans: Script, ts: seq<Derived>, files: seq<seq<Byte>>, ok: bool)
    requires 0 <= c < ncomps && blocks != [] && SmallAc(AllZigzag(blocks))
    requires NUM_HUFF_TBLS <= table < 2 * NUM_HUFF_TBLS
    requires forall s <- SimpleScript(ncomps, ycc) :: CountableScan(AllZigzag(blocks), s, table, interval)
    ensures scans == SimpleScript(ncomps, ycc) && ValidScript(scans, ncomps) && |scans| == ScanCount(ncomps, ycc)
    ensures (forall s <- scans :: FewInScan(AllZigzag(blocks), s, table, interval)) ==> ok
    ensures ok ==> |ts| == |files| == |scans|
    ensures ok ==>
      forall ys | |ys| == |blocks| && forall i, k :: 0 <= i < |ys| && 1 <= k < 64 ==> ys[i][k] == 0 ::
        var r := DecodeScript(scans, c, interval, ts, files, ys);
        r.Some? && |r.value| == |blocks|
        && forall i, k :: 0 <= i < |blocks| && 1 <= k < 64 ==> r.value[i][k] == Zigzag(blocks[i])[k]
  {
    hide SmallAc, CountableScan, FewInScan, SimpleScript, DecodeScript, KnownTo, LastBitpos, ProgressivePart, Zigzag,
      Decodes;
    var space := new ScanInfo[ScanCount(ncomps, ycc)](_ => ScanInfo([], 0, 0, 0, 0));
    var nscans := MakeSimpleProgression(space, ncomps, ycc);
    scans := space[..nscans];
    ts, files, ok := EncodeScript(scans, ncomps, c, table, interval, blocks);
    var zs := AllZigzag(blocks);
    if ok {
      forall ys: seq<Block> | |ys| == |blocks| && forall i, k :: 0 <= i < |ys| && 1 <= k < 64 ==> ys[i][k] == 0
        ensures var r := DecodeScript(scans, c, interval, ts, files, ys);
          r.Some? && |r.value| == |blocks|
          && forall i, k :: 0 <= i < |blocks| && 1 <= k < 64 ==> r.value[i][k] == Zigzag(blocks[i])[k]
      {
        ScriptRoundTrip(zs, ys, scans, ncomps, c, interval, ts, files);
        var now := DecodeScript(scans, c, interval, ts, files, ys).value;
        KnownLength(zs, now, scans, c);
        CompleteIsExact(zs, now, scans, c);
      }
    }
  }

  lemma KnownLength(zs: seq<Block>, ys: seq<Block>, scans: Script, c: int)
    requires KnownTo(zs, ys, scans, c)
    ensures |ys| == |zs|
  {
  }
}
