/** The recommended progressive scripts (jcparam.c): the generator fills in exactly the entries it counts, its
    scripts are valid, and they send every bit of every coefficient. */
module SimpleProgression {
  import opened ScanScripts

  // ---------- the scripts ----------

  /** A scan of the same band and bits for each of n components. */
  function Scans(n: nat, ss: int, se: int, ah: int, al: int): (r: Script)
    ensures |r| == n
  {
    seq(n, ci => ScanInfo([ci], ss, se, ah, al))
  }

  /** DC scans: a single interleaved one if possible. */
  function DcScans(n: nat, ah: int, al: int): Script {
    if n <= MAX_COMPS_IN_SCAN then [ScanInfo(seq(n, ci => ci), 0, 0, ah, al)] else Scans(n, 0, 0, ah, al)
  }

  /** All-purpose script: successive approximation for all components alike. */
  function GeneralScript(n: nat): Script {
    GeneralStart(n) + Scans(n, 1, 63, 2, 1) + DcScans(n, 1, 0) + Scans(n, 1, 63, 1, 0)
  }

  function GeneralStart(n: nat): Script {
    DcScans(n, 0, 1) + Scans(n, 1, 5, 0, 2) + Scans(n, 6, 63, 0, 2)
  }

  /** Custom script for color images: most scans are spent on the luminance. */
  function YCbCrScript(): Script {
    YCbCrStart() + [ScanInfo([0], 6, 63, 0, 2)] + [ScanInfo([0], 1, 63, 2, 1)]
    + DcScans(3, 1, 0) + [ScanInfo([2], 1, 63, 1, 0)] + [ScanInfo([1], 1, 63, 1, 0)] + [ScanInfo([0], 1, 63, 1, 0)]
  }

  function YCbCrStart(): Script {
    DcScans(3, 0, 1) + [ScanInfo([0], 1, 5, 0, 2)] + [ScanInfo([2], 1, 63, 0, 1)] + [ScanInfo([1], 1, 63, 0, 1)]
  }

  /** The general script in the order of its scans.  Component ci has one scan each of its first five AC coefficients
      and of the others, both down to bit position 2, and two that refine all of them by a bit; the DC coefficients,
      of all components at once if there are not more than four, are sent down to bit position 1 and refined. */
  lemma GeneralScriptIs(n: nat, ci: nat)
    requires ci < n
    ensures var g := GeneralScript(n);
      var d := if n <= 4 then 1 else n;
      && |g| == 2 * d + 4 * n
      && g[d + ci] == ScanInfo([ci], 1, 5, 0, 2) && g[d + n + ci] == ScanInfo([ci], 6, 63, 0, 2)
      && g[d + 2 * n + ci] == ScanInfo([ci], 1, 63, 2, 1) && g[2 * d + 3 * n + ci] == ScanInfo([ci], 1, 63, 1, 0)
      && if n <= 4
         then g[0] == ScanInfo(seq(n, c => c), 0, 0, 0, 1) && g[1 + 3 * n] == ScanInfo(seq(n, c => c), 0, 0, 1, 0)
         else g[ci] == ScanInfo([ci], 0, 0, 0, 1) && g[d + 3 * n + ci] == ScanInfo([ci], 0, 0, 1, 0)
  {
  }

  /** The script for YCbCr, scan by scan. */
  lemma YCbCrScriptIs()
    ensures YCbCrScript() ==
      [ScanInfo([0, 1, 2], 0, 0, 0, 1), ScanInfo([0], 1, 5, 0, 2), ScanInfo([2], 1, 63, 0, 1),
       ScanInfo([1], 1, 63, 0, 1), ScanInfo([0], 6, 63, 0, 2), ScanInfo([0], 1, 63, 2, 1),
       ScanInfo([0, 1, 2], 0, 0, 1, 0), ScanInfo([2], 1, 63, 1, 0), ScanInfo([1], 1, 63, 1, 0),
       ScanInfo([0], 1, 63, 1, 0)]
  {
    AllThree(0, 1);
    AllThree(1, 0);
  }

  lemma AllThree(ah: int, al: int)
    ensures DcScans(3, ah, al) == [ScanInfo([0, 1, 2], 0, 0, ah, al)]
  {
    assert seq(3, ci => ci) == [0, 1, 2];
  }

  function SimpleScript(n: nat, ycc: bool): Script {
    if n == 3 && ycc then YCbCrScript() else GeneralScript(n)
  }

  // ---------- filling them in ----------

  /** The last bit position of each coefficient after a scan of components `cs` has been added. */
  ghost predicate Advanced(before: Script, after: Script, n: nat, lo: int, hi: int, s: ScanInfo) {
    forall c, k :: 0 <= c < n && 0 <= k < 64 ==>
      LastBitpos(after, c, k) == if lo <= c < hi && s.ss <= k <= s.se then s.al else LastBitpos(before, c, k)
  }

  /** The coefficients of components from lo to hi in a band are ready to be sent from ah down to al. */
  ghost predicate Waiting(scans: Script, lo: int, hi: int, ss: int, se: int, ah: int, al: int) {
    && 0 <= ss <= se < 64 && 0 <= al <= MAX_AH_AL && 0 <= ah <= MAX_AH_AL && (ss == 0 ==> se == 0)
    && (ah > 0 ==> al == ah - 1)
    && forall c, k :: lo <= c < hi && ss <= k <= se ==>
         LastBitpos(scans, c, k) == (if ah == 0 then -1 else ah) && (ss != 0 ==> LastBitpos(scans, c, 0) >= 0)
  }

  /** A part of a script in the buffer, and one more scan behind it. */
  method AddScan(space: array<ScanInfo>, scanptr: nat, s: ScanInfo, ghost n: nat, ghost lo: int, ghost hi: int)
    requires scanptr < space.Length && ProgressivePart(space[..scanptr], n) && s.ComponentsOk(n)
    requires forall c :: c in s.comps <==> lo <= c < hi
    requires s.ss != 0 ==> |s.comps| == 1
    requires 0 <= lo <= hi <= n && Waiting(space[..scanptr], lo, hi, s.ss, s.se, s.ah, s.al)
    modifies space
    ensures space[..scanptr + 1] == old(space[..scanptr]) + [s]
    ensures ProgressivePart(space[..scanptr + 1], n)
    ensures Advanced(old(space[..scanptr]), space[..scanptr + 1], n, lo, hi, s)
  {
    hide LastBitpos, ProgressivePart;
    ghost var scans := space[..scanptr];
    space[scanptr] := s;
    assert space[..scanptr + 1] == scans + [s];
    ExtendPart(scans, s, n);
    forall c, k | 0 <= c < n && 0 <= k < 64
      ensures LastBitpos(scans + [s], c, k) == if lo <= c < hi && s.ss <= k <= s.se then s.al else LastBitpos(scans, c, k)
    {
      SentSnoc(scans, s, c, k);
    }
  }

  /** Generate one scan for a component. */
  method FillAScan(space: array<ScanInfo>, scanptr: nat, ci: nat, ss: int, se: int, ah: int, al: int, ghost n: nat)
    returns (next: nat)
    requires scanptr < space.Length && ProgressivePart(space[..scanptr], n) && ci < n
    requires Waiting(space[..scanptr], ci, ci + 1, ss, se, ah, al)
    modifies space
    ensures next == scanptr + 1 && ProgressivePart(space[..next], n)
    ensures space[..next] == old(space[..scanptr]) + [ScanInfo([ci], ss, se, ah, al)]
    ensures Advanced(old(space[..scanptr]), space[..next], n, ci, ci + 1, ScanInfo([ci], ss, se, ah, al))
  {
    hide ProgressivePart, Advanced, Waiting;
    AddScan(space, scanptr, ScanInfo([ci], ss, se, ah, al), n, ci, ci + 1);
    next := scanptr + 1;
  }

  /** A scan of the same band and bits for every component. */
  method FillScans(space: array<ScanInfo>, scanptr: nat, ncomps: nat, ss: int, se: int, ah: int, al: int)
    returns (next: nat)
    requires scanptr + ncomps <= space.Length && ProgressivePart(space[..scanptr], ncomps)
    requires Waiting(space[..scanptr], 0, ncomps, ss, se, ah, al)
    modifies space
    ensures next == scanptr + ncomps && ProgressivePart(space[..next], ncomps)
    ensures space[..next] == old(space[..scanptr]) + Scans(ncomps, ss, se, ah, al)
    ensures Advanced(old(space[..scanptr]), space[..next], ncomps, 0, ncomps, ScanInfo([], ss, se, ah, al))
  {
    hide ProgressivePart, LastBitpos, Advanced, Waiting;
    ghost var start := space[..scanptr];
    next := scanptr;
    var ci := 0;
    NothingAdvanced(start, ncomps, ScanInfo([], ss, se, ah, al));
    while ci < ncomps
      invariant ci <= ncomps && next == scanptr + ci && ProgressivePart(space[..next], ncomps)
      invariant space[..next] == start + Scans(ci, ss, se, ah, al)
      invariant Advanced(start, space[..next], ncomps, 0, ci, ScanInfo([], ss, se, ah, al))
    {
      ghost var before := space[..next];
      StillWaiting(start, before, ncomps, ci, ss, se, ah, al);
      next := FillAScan(space, next, ci, ss, se, ah, al, ncomps);
      assert Scans(ci + 1, ss, se, ah, al) == Scans(ci, ss, se, ah, al) + [ScanInfo([ci], ss, se, ah, al)];
      AdvancedByOne(start, before, space[..next], ncomps, ci, ss, se, ah, al);
      ci := ci + 1;
    }
  }

  lemma NothingAdvanced(start: Script, n: nat, s: ScanInfo)
    ensures Advanced(start, start, n, 0, 0, s)
  {
  }

  /** The next component is not affected by the scans of the others. */
  lemma StillWaiting(start: Script, now: Script, n: nat, ci: nat, ss: int, se: int, ah: int, al: int)
    requires Waiting(start, 0, n, ss, se, ah, al) && ci < n
    requires Advanced(start, now, n, 0, ci, ScanInfo([], ss, se, ah, al))
    ensures Waiting(now, ci, ci + 1, ss, se, ah, al)
  {
    hide LastBitpos;
    forall c, k | ci <= c < ci + 1 && ss <= k <= se
      ensures LastBitpos(now, c, k) == (if ah == 0 then -1 else ah) && (ss != 0 ==> LastBitpos(now, c, 0) >= 0)
    {
      UnchangedAt(start, now, n, ci, c, k, ScanInfo([], ss, se, ah, al));
      UnchangedAt(start, now, n, ci, c, 0, ScanInfo([], ss, se, ah, al));
      assert LastBitpos(start, c, k) == (if ah == 0 then -1 else ah) && (ss != 0 ==> LastBitpos(start, c, 0) >= 0);
    }
  }

  lemma UnchangedAt(start: Script, now: Script, n: nat, ci: nat, c: int, k: int, s: ScanInfo)
    requires Advanced(start, now, n, 0, ci, s) && ci <= c < n && 0 <= k < 64
    ensures LastBitpos(now, c, k) == LastBitpos(start, c, k)
  {
    hide LastBitpos;
  }

  lemma AdvancedByOne(start: Script, before: Script, now: Script, n: nat, ci: nat, ss: int, se: int, ah: int, al: int)
    requires Advanced(start, before, n, 0, ci, ScanInfo([], ss, se, ah, al))
    requires Advanced(before, now, n, ci, ci + 1, ScanInfo([ci], ss, se, ah, al))
    ensures Advanced(start, now, n, 0, ci + 1, ScanInfo([], ss, se, ah, al))
  {
    hide LastBitpos;
    forall c, k | 0 <= c < n && 0 <= k < 64
      ensures LastBitpos(now, c, k) == if 0 <= c < ci + 1 && ss <= k <= se then al else LastBitpos(start, c, k)
    {
      assert LastBitpos(before, c, k) == if 0 <= c < ci && ss <= k <= se then al else LastBitpos(start, c, k);
      assert LastBitpos(now, c, k) == if ci <= c < ci + 1 && ss <= k <= se then al else LastBitpos(before, c, k);
    }
  }

  /** The DC scan of all components, or one for each if they are too many for a scan. */
  method FillDcScans(space: array<ScanInfo>, scanptr: nat, ncomps: nat, ah: int, al: int) returns (next: nat)
    requires ncomps > 0 && scanptr + (if ncomps <= MAX_COMPS_IN_SCAN then 1 else ncomps) <= space.Length
    requires ProgressivePart(space[..scanptr], ncomps) && Waiting(space[..scanptr], 0, ncomps, 0, 0, ah, al)
    modifies space
    ensures next == scanptr + (if ncomps <= MAX_COMPS_IN_SCAN then 1 else ncomps)
    ensures ProgressivePart(space[..next], ncomps)
    ensures space[..next] == old(space[..scanptr]) + DcScans(ncomps, ah, al)
    ensures Advanced(old(space[..scanptr]), space[..next], ncomps, 0, ncomps, ScanInfo([], 0, 0, ah, al))
  {
    hide ProgressivePart, LastBitpos, Waiting;
    if ncomps <= MAX_COMPS_IN_SCAN {
      var comps: seq<int> := [];
      while |comps| < ncomps
        modifies {}
        invariant |comps| <= ncomps && forall i :: 0 <= i < |comps| ==> comps[i] == i
      {
        comps := comps + [|comps|];
      }
      forall c | 0 <= c < ncomps ensures c in comps {
        assert comps[c] == c;
      }
      AddScan(space, scanptr, ScanInfo(comps, 0, 0, ah, al), ncomps, 0, ncomps);
      assert comps == seq(ncomps, ci => ci);
      next := scanptr + 1;
    } else {
      next := FillScans(space, scanptr, ncomps, 0, 0, ah, al);
    }
  }

  /** The number of scans in the script. */
  function ScanCount(ncomps: nat, ycc: bool): nat {
    if ncomps == 3 && ycc then 10
    else if ncomps > MAX_COMPS_IN_SCAN then 6 * ncomps
    else 2 + 4 * ncomps
  }

  /** Where the coefficients of components from lo to hi stand: DC, the first five AC, and the others. */
  ghost predicate Standing(scans: Script, lo: int, hi: int, dc: int, low: int, high: int) {
    forall c, k :: lo <= c < hi && 0 <= k < 64 ==>
      LastBitpos(scans, c, k) == if k == 0 then dc else if k <= 5 then low else high
  }

  /** Fill in the all-purpose script, up to the first refinement. */
  method FillGeneralStart(space: array<ScanInfo>, ncomps: nat) returns (scanptr: nat)
    requires 0 < ncomps && ScanCount(ncomps, false) <= space.Length
    modifies space
    ensures scanptr == ScanCount(ncomps, false) - 2 * ncomps - (if ncomps <= MAX_COMPS_IN_SCAN then 1 else ncomps)
    ensures space[..scanptr] == GeneralStart(ncomps)
    ensures ProgressivePart(space[..scanptr], ncomps) && Standing(space[..scanptr], 0, ncomps, 1, 2, 2)
  {
    hide ProgressivePart, LastBitpos, Scans, DcScans;
    NothingSent(ncomps);
    assert space[..0] == [];
    scanptr := FillDcScans(space, 0, ncomps, 0, 1);
    assert Standing(space[..scanptr], 0, ncomps, 1, -1, -1);
    scanptr := FillScans(space, scanptr, ncomps, 1, 5, 0, 2);
    assert Standing(space[..scanptr], 0, ncomps, 1, 2, -1);
    scanptr := FillScans(space, scanptr, ncomps, 6, 63, 0, 2);
  }

  /** Fill in the all-purpose script. */
  method FillGeneral(space: array<ScanInfo>, ncomps: nat) returns (scanptr: nat)
    requires 0 < ncomps && ScanCount(ncomps, false) <= space.Length
    modifies space
    ensures scanptr == ScanCount(ncomps, false) && space[..scanptr] == GeneralScript(ncomps)
    ensures ProgressivePart(space[..scanptr], ncomps) && Standing(space[..scanptr], 0, ncomps, 0, 0, 0)
    ensures IsProgressive(space[..scanptr])
  {
    hide ProgressivePart, LastBitpos, Scans, DcScans, GeneralStart;
    scanptr := FillGeneralStart(space, ncomps);
    scanptr := FillScans(space, scanptr, ncomps, 1, 63, 2, 1);
    assert Standing(space[..scanptr], 0, ncomps, 1, 1, 1);
    scanptr := FillDcScans(space, scanptr, ncomps, 1, 0);
    assert Standing(space[..scanptr], 0, ncomps, 0, 1, 1);
    scanptr := FillScans(space, scanptr, ncomps, 1, 63, 1, 0);
    DcApart(space[..scanptr], ncomps);
  }

  /** No scan of a progressive script sends whole blocks. */
  lemma DcApart(scans: Script, n: nat)
    requires scans != [] && ProgressivePart(scans, n)
    ensures IsProgressive(scans)
  {
  }

  /** Fill in the script for color images, as far as something of all coefficients of the chrominance is sent. */
  method FillYCbCrStart(space: array<ScanInfo>) returns (scanptr: nat)
    requires ScanCount(3, true) <= space.Length
    modifies space
    ensures scanptr == 4 && space[..scanptr] == YCbCrStart() && ProgressivePart(space[..scanptr], 3)
    ensures Standing(space[..scanptr], 0, 1, 1, 2, -1) && Standing(space[..scanptr], 1, 3, 1, 1, 1)
  {
    hide ProgressivePart, LastBitpos, DcScans;
    NothingSent(3);
    assert space[..0] == [];
    scanptr := FillDcScans(space, 0, 3, 0, 1);
    assert Standing(space[..scanptr], 0, 3, 1, -1, -1);
    scanptr := FillAScan(space, scanptr, 0, 1, 5, 0, 2, 3);
    assert Standing(space[..scanptr], 0, 1, 1, 2, -1) && Standing(space[..scanptr], 1, 3, 1, -1, -1);
    scanptr := FillAScan(space, scanptr, 2, 1, 63, 0, 1, 3);
    assert Standing(space[..scanptr], 0, 1, 1, 2, -1) && Standing(space[..scanptr], 2, 3, 1, 1, 1);
    assert Standing(space[..scanptr], 1, 2, 1, -1, -1);
    scanptr := FillAScan(space, scanptr, 1, 1, 63, 0, 1, 3);
  }

  /** The last scans: the lowest bit of everything. */
  method FillYCbCrEnd(space: array<ScanInfo>, start: nat) returns (scanptr: nat)
    requires start + 4 <= space.Length && ProgressivePart(space[..start], 3) && Standing(space[..start], 0, 3, 1, 1, 1)
    modifies space
    ensures scanptr == start + 4 && ProgressivePart(space[..scanptr], 3)
    ensures space[..scanptr] == old(space[..start]) + DcScans(3, 1, 0)
      + [ScanInfo([2], 1, 63, 1, 0)] + [ScanInfo([1], 1, 63, 1, 0)] + [ScanInfo([0], 1, 63, 1, 0)]
    ensures Standing(space[..scanptr], 0, 3, 0, 0, 0)
  {
    hide ProgressivePart, LastBitpos, DcScans;
    scanptr := FillDcScans(space, start, 3, 1, 0);
    assert Standing(space[..scanptr], 0, 3, 0, 1, 1);
    scanptr := FillAScan(space, scanptr, 2, 1, 63, 1, 0, 3);
    assert Standing(space[..scanptr], 0, 2, 0, 1, 1) && Standing(space[..scanptr], 2, 3, 0, 0, 0);
    scanptr := FillAScan(space, scanptr, 1, 1, 63, 1, 0, 3);
    assert Standing(space[..scanptr], 0, 1, 0, 1, 1) && Standing(space[..scanptr], 1, 3, 0, 0, 0);
    scanptr := FillAScan(space, scanptr, 0, 1, 63, 1, 0, 3);
  }

  /** Fill in the script for color images. */
  method FillYCbCr(space: array<ScanInfo>) returns (scanptr: nat)
    requires ScanCount(3, true) <= space.Length
    modifies space
    ensures scanptr == ScanCount(3, true) && space[..scanptr] == YCbCrScript()
    ensures ProgressivePart(space[..scanptr], 3) && Standing(space[..scanptr], 0, 3, 0, 0, 0)
    ensures IsProgressive(space[..scanptr])
  {
    hide ProgressivePart, LastBitpos, DcScans, YCbCrStart;
    scanptr := FillYCbCrStart(space);
    scanptr := FillAScan(space, scanptr, 0, 6, 63, 0, 2, 3);
    assert Standing(space[..scanptr], 0, 1, 1, 2, 2) && Standing(space[..scanptr], 1, 3, 1, 1, 1);
    scanptr := FillAScan(space, scanptr, 0, 1, 63, 2, 1, 3);
    assert Standing(space[..scanptr], 0, 3, 1, 1, 1);
    scanptr := FillYCbCrEnd(space, scanptr);
    DcApart(space[..scanptr], 3);
  }

  /** Create a recommended script: exactly the counted number of entries, valid, progressive, and with every
      coefficient sent down to its lowest bit. */
  method MakeSimpleProgression(space: array<ScanInfo>, ncomps: nat, ycc: bool) returns (nscans: nat)
    requires 0 < ncomps && ScanCount(ncomps, ycc) <= space.Length
    modifies space
    ensures nscans == ScanCount(ncomps, ycc) && space[..nscans] == SimpleScript(ncomps, ycc)
    ensures ValidScript(space[..nscans], ncomps) && IsProgressive(space[..nscans])
    ensures forall c, k :: 0 <= c < ncomps && 0 <= k < 64 ==> LastBitpos(space[..nscans], c, k) == 0
  {
    hide ProgressivePart, LastBitpos, GeneralScript, YCbCrScript;
    if ncomps == 3 && ycc {
      nscans := FillYCbCr(space);
    } else {
      nscans := FillGeneral(space, ncomps);
    }
    DcIsSent(space[..nscans], ncomps);
  }

  lemma DcIsSent(scans: Script, n: nat)
    requires ProgressivePart(scans, n) && Standing(scans, 0, n, 0, 0, 0)
    ensures ValidProgressive(scans, n)
  {
    hide LastBitpos, Sent, Descends, DcFirst;
    forall c | 0 <= c < n ensures Sent(scans, c, 0) != [] {
      BitposKnown(scans, c, 0);
    }
  }
}
