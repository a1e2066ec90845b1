/** The master controller's passes (jcmaster.c) and the loop that drives them (jcapimin.c): which passes are
    made over the scans of a script, and which headers are written when. */
module PassControl {
  import opened ScanScripts

  datatype PassType = MainPass | HuffOptPass | OutputPass

  /** What the passes do, in order: headers, statistics over a scan, output of a scan, the trailer. */
  datatype Event = FrameHeader | ScanHeader(scan: nat) | Gather(scan: nat) | Output(scan: nat) | Trailer

  /** A Huffman-coded DC refinement scan needs no table. */
  predicate NeedsNoTable(s: ScanInfo, arithCode: bool) {
    s.ss == 0 && s.ah != 0 && !arithCode
  }

  // ---------- what is to happen ----------

  /** The events for one scan: statistics first, unless they are not wanted or not needed. */
  function ScanEvents(scans: Script, i: nat, optimize: bool, arithCode: bool): seq<Event>
    requires i < |scans|
  {
    (if optimize && !NeedsNoTable(scans[i], arithCode) then [Gather(i)] else [])
    + (if i == 0 then [FrameHeader] else [])
    + [ScanHeader(i), Output(i)]
  }

  /** The events for the first n scans. */
  function Events(scans: Script, n: nat, optimize: bool, arithCode: bool): seq<Event>
    requires n <= |scans|
  {
    if n == 0 then [] else Events(scans, n - 1, optimize, arithCode) + ScanEvents(scans, n - 1, optimize, arithCode)
  }

  // ---------- the controller ----------

  class Master {
    const scans: Script
    const optimizeCoding: bool
    const arithCode: bool
    const totalPasses: nat
    var passType: PassType
    var passNumber: nat
    var scanNumber: nat
    var currentScan: nat          // the scan whose parameters are selected
    var gathering: bool           // what the entropy encoder was started for
    var isLastPass: bool
    var callPassStartup: bool
    var events: seq<Event>

    /** A script whose first scan is sent from the top. */
    ghost predicate Wired() {
      && scans != [] && scans[0].ah == 0
      && totalPasses == if optimizeCoding then 2 * |scans| else |scans|
    }

    /** The arithmetic encoder has no statistics to gather. */
    ghost predicate Possible() {
      !(optimizeCoding && arithCode)
    }

    /** Before a pass: the scans before the current one are output, and the current one is gathered if it is
        to be output now. */
    ghost predicate Between()
      reads this
    {
      && Wired() && (passType != MainPass ==> Possible()) && passNumber < totalPasses && scanNumber < |scans|
      && match passType
         case MainPass => passNumber == 0 && scanNumber == 0 && events == []
         case HuffOptPass => optimizeCoding && passNumber == 2 * scanNumber > 0 && events == EventsTo(scanNumber)
         case OutputPass =>
           if optimizeCoding then passNumber == 2 * scanNumber + 1 && currentScan == scanNumber
             && !NeedsNoTable(scans[scanNumber], arithCode) && events == EventsTo(scanNumber) + [Gather(scanNumber)]
           else passNumber == scanNumber > 0 && events == EventsTo(scanNumber)
    }

    ghost function EventsTo(n: nat): seq<Event>
      requires n <= |scans|
    {
      Events(scans, n, optimizeCoding, arithCode)
    }

    /** Within a pass over the current scan. */
    ghost predicate Within()
      reads this
    {
      && Wired() && Possible() && passNumber < totalPasses && scanNumber < |scans| && currentScan == scanNumber
      && isLastPass == (passNumber == totalPasses - 1)
      && (callPassStartup ==> passType == MainPass)
      && match passType
         case MainPass => passNumber == 0 && scanNumber == 0 && events == [] && gathering == optimizeCoding
                          && callPassStartup == !optimizeCoding
         case HuffOptPass => optimizeCoding && passNumber == 2 * scanNumber > 0 && gathering
                             && !NeedsNoTable(scans[scanNumber], arithCode) && events == EventsTo(scanNumber)
         case OutputPass =>
           && !gathering && events + [Output(scanNumber)] == EventsTo(scanNumber + 1)
           && passNumber == if optimizeCoding then 2 * scanNumber + 1 else scanNumber
    }

    /** After the last pass. */
    ghost predicate Done()
      reads this
    {
      Wired() && passNumber == totalPasses && events == EventsTo(|scans|)
    }

    constructor (scans: Script, optimizeCoding: bool, arithCode: bool)
      requires scans != [] && scans[0].ah == 0
      ensures Between() && passType == MainPass
      ensures this.scans == scans && this.optimizeCoding == optimizeCoding && this.arithCode == arithCode
    {
      this.scans := scans;
      this.optimizeCoding := optimizeCoding;
      this.arithCode := arithCode;
      totalPasses := if optimizeCoding then 2 * |scans| else |scans|;
      passType := MainPass;
      passNumber := 0;
      scanNumber := 0;
      currentScan := 0;
      gathering := false;
      isLastPass := false;
      callPassStartup := false;
      events := [];
    }

    /** Take the components and the parameters of the scan whose turn it is. */
    method SelectScanParameters()
      modifies `currentScan
      ensures currentScan == scanNumber
    {
      currentScan := scanNumber;
    }

    method StartOutput()
      requires Wired() && scanNumber < |scans|
      modifies `currentScan, `gathering, `events, `callPassStartup
      ensures currentScan == if optimizeCoding then old(currentScan) else scanNumber
      ensures !gathering && !callPassStartup
      ensures events == old(events) + (if scanNumber == 0 then [FrameHeader] else []) + [ScanHeader(currentScan)]
    {
      if !optimizeCoding {
        SelectScanParameters();
      }
      gathering := false;
      if scanNumber == 0 {
        events := events + [FrameHeader];
      }
      events := events + [ScanHeader(currentScan)];
      callPassStartup := false;
    }

    /** Set up a pass.  It is an error if the arithmetic encoder is to gather statistics, which shows before
        anything is written. */
    method PrepareForPass() returns (ok: bool)
      requires Between()
      modifies this
      ensures ok <==> Possible()
      ensures !ok ==> events == []
      ensures ok ==> Within() && scanNumber == old(scanNumber)
      ensures ok ==> old(passNumber) <= passNumber
      ensures ok ==> (passType == MainPass <==> old(passType) == MainPass)
    {
      if passType == MainPass {
        SelectScanParameters();
        gathering := optimizeCoding;
        if gathering && arithCode {
          return false;
        }
        callPassStartup := !optimizeCoding;
      } else if passType == HuffOptPass {
        SelectScanParameters();
        var s := scans[currentScan];
        if s.ss != 0 || s.ah == 0 || arithCode {
          gathering := true;
          callPassStartup := false;
        } else {
          passType := OutputPass;
          passNumber := passNumber + 1;
          StartOutput();
        }
      } else {
        StartOutput();
      }
      isLastPass := passNumber == totalPasses - 1;
      ok := true;
    }

    /** The hook called with the first scanlines: the headers are written now. */
    method PassStartup()
      requires Within() && callPassStartup
      modifies `callPassStartup, `events
      ensures !callPassStartup && events == [FrameHeader, ScanHeader(0)]
    {
      callPassStartup := false;
      events := events + [FrameHeader, ScanHeader(currentScan)];
    }

    /** All data of the pass has gone through the entropy encoder, which wrote it or counted it. */
    method FinishPass()
      requires passType != MainPass ==> Within()
      requires passType == MainPass ==>
        && Wired() && Possible() && passNumber == scanNumber == currentScan == 0 && gathering == optimizeCoding
        && events == (if optimizeCoding then [] else [FrameHeader, ScanHeader(0)])
        && isLastPass == (passNumber == totalPasses - 1)
      modifies this
      ensures isLastPass == old(isLastPass) && passNumber == old(passNumber) + 1 && passType != MainPass
      ensures if isLastPass then Done() else Between()
    {
      FirstScan(scans, optimizeCoding, arithCode);
      events := events + [if gathering then Gather(currentScan) else Output(currentScan)];
      match passType {
        case MainPass =>
          passType := OutputPass;
          if !optimizeCoding {
            scanNumber := scanNumber + 1;
          }
        case HuffOptPass =>
          passType := OutputPass;
        case OutputPass =>
          if optimizeCoding {
            passType := HuffOptPass;
          }
          scanNumber := scanNumber + 1;
      }
      passNumber := passNumber + 1;
    }

    /** A whole compression: the first pass, and then jpeg_finish_compress, which ends after the last pass.
        Every scan is output exactly once and in order, with its statistics gathered right before if they
        are needed; the frame header is written once, before any scan header.  Statistics for arithmetic
        coding are the one error. */
    method Compress() returns (ok: bool)
      requires Between() && passType == MainPass
      modifies this
      ensures ok <==> Possible()
      ensures events == if ok then EventsTo(|scans|) + [Trailer] else []
      ensures ok ==> passNumber == totalPasses
    {
      ok := PrepareForPass();
      if !ok {
        return;
      }
      if callPassStartup {
        PassStartup();
      }
      FinishPass();
      while !isLastPass
        invariant ok && Possible() && if isLastPass then Done() else Between() && passType != MainPass
        decreases totalPasses - passNumber
      {
        ok := PrepareForPass();
        FinishPass();
      }
      events := events + [Trailer];
    }
  }

  lemma FirstScan(scans: Script, optimize: bool, arithCode: bool)
    requires scans != [] && scans[0].ah == 0
    ensures Events(scans, 0, optimize, arithCode) == []
    ensures Events(scans, 1, optimize, arithCode)
         == (if optimize then [Gather(0)] else []) + [FrameHeader, ScanHeader(0), Output(0)]
  {
    assert Events(scans, 1, optimize, arithCode)
        == Events(scans, 0, optimize, arithCode) + ScanEvents(scans, 0, optimize, arithCode);
  }

  /** The first scan of a valid script sends its coefficients from the top. */
  lemma FirstScanFromTop(scans: Script, n: nat)
    requires ValidScript(scans, n)
    ensures scans[0].ah == 0
  {
    if IsProgressive(scans) {
      hide ProgressivePart;
      PartsAreValid(scans, n, 1);
      assert scans[..1] == [scans[0]];
      LoneScanFromTop(scans[0], n);
    }
  }

  lemma LoneScanFromTop(s: ScanInfo, n: nat)
    requires ProgressivePart([s], n)
    ensures s.ah == 0
  {
    hide Sent, DcFirst, Descends;
    assert [s][0] == s && s.ComponentsOk(n) && s.RangesOk();
    var c := s.comps[0];
    assert [s] == [] + [s];
    SentSnoc([], s, c, s.ss);
    NothingSentYet();
    assert s.Covers(c, s.ss) && Sent([s], c, s.ss) == [(s.ah, s.al)];
    assert Descends(Sent([s], c, s.ss));
    FirstFromTop((s.ah, s.al));
  }

  lemma FirstFromTop(x: (int, int))
    requires Descends([x])
    ensures x.0 == 0
  {
    assert DescendsAt([x], 0);
  }

  /** Initialize master control: the script must be valid; progressive Huffman coding always optimizes its
      tables. */
  method InitMasterControl(scans: Script, n: nat, optimizeCoding: bool, arithCode: bool) returns (m: Master?)
    ensures m != null <==> ValidScript(scans, n)
    ensures m != null ==> fresh(m) && m.Between() && m.passType == MainPass && m.scans == scans
    ensures m != null ==> m.arithCode == arithCode
    ensures m != null ==> m.optimizeCoding == (optimizeCoding || (IsProgressive(scans) && !arithCode))
  {
    var ok, progressiveMode := ValidateScript(scans, n);
    if !ok {
      return null;
    }
    FirstScanFromTop(scans, n);
    m := new Master(scans, optimizeCoding || (progressiveMode && !arithCode), arithCode);
  }

  // ---------- what the events say ----------

  function Count(events: seq<Event>, e: Event): nat {
    if events == [] then 0 else Count(events[..|events| - 1], e) + if events[|events| - 1] == e then 1 else 0
  }

  lemma {:induction false} CountAppend(a: seq<Event>, b: seq<Event>, e: Event)
    ensures Count(a + b, e) == Count(a, e) + Count(b, e)
  {
    if b == [] {
      assert a + b == a;
    } else {
      CountAppend(a, b[..|b| - 1], e);
      assert (a + b)[..|a + b| - 1] == a + b[..|b| - 1];
    }
  }

  lemma NoEvents(e: Event)
    ensures Count([], e) == 0
  {
  }

  /** Where a scan stands: behind the events of the scans before it come its statistics, unless it is a DC refinement
      scan in Huffman coding, the frame header if it is the first, its own header, and its data. */
  lemma {:induction false} EventsOfScan(scans: Script, n: nat, i: nat, optimize: bool, arithCode: bool)
    requires i < n <= |scans|
    ensures Events(scans, 0, optimize, arithCode) == []
    ensures Events(scans, i, optimize, arithCode)
      + (if optimize && (scans[i].ss != 0 || scans[i].ah == 0 || arithCode) then [Gather(i)] else [])
      + (if i == 0 then [FrameHeader] else []) + [ScanHeader(i), Output(i)] <= Events(scans, n, optimize, arithCode)
  {
    if i + 1 < n {
      EventsOfScan(scans, n - 1, i, optimize, arithCode);
    }
  }

  /** In optimized Huffman coding a scan with symbols, that is, any scan of AC coefficients and any first scan of
      DC coefficients, is output with tables for its own statistics: wherever it is output, they were gathered last,
      with nothing but headers in between. */
  lemma {:induction false} TablesAreItsOwn(scans: Script, n: nat, i: nat, p: nat)
    requires i < |scans| && n <= |scans| && (scans[i].ss > 0 || scans[i].ah == 0)
    requires p < |Events(scans, n, true, false)| && Events(scans, n, true, false)[p] == Output(i)
    ensures var es := Events(scans, n, true, false);
      && p >= 2 && es[p - 1] == ScanHeader(i)
      && if i == 0 then p >= 3 && es[p - 2] == FrameHeader && es[p - 3] == Gather(i) else es[p - 2] == Gather(i)
  {
    if p < |Events(scans, n - 1, true, false)| {
      TablesAreItsOwn(scans, n - 1, i, p);
    }
  }

  /** Every scan is output once, and gathered at most once, exactly if statistics are wanted and needed; there
      is one frame header. */
  lemma {:induction false} EveryScanOnce(scans: Script, n: nat, i: nat, optimize: bool, arithCode: bool)
    requires n <= |scans| && i < |scans|
    ensures var es := Events(scans, n, optimize, arithCode);
      && Count(es, Output(i)) == Count(es, ScanHeader(i)) == (if i < n then 1 else 0)
      && Count(es, Gather(i))
         == (if i < n && optimize && (scans[i].ss != 0 || scans[i].ah == 0 || arithCode) then 1 else 0)
      && Count(es, FrameHeader) == (if n > 0 then 1 else 0)
  {
    hide Count, ScanEvents;
    if n == 0 {
      NoEvents(Output(i));
      NoEvents(ScanHeader(i));
      NoEvents(Gather(i));
      NoEvents(FrameHeader);
    } else {
      EveryScanOnce(scans, n - 1, i, optimize, arithCode);
      var before, now := Events(scans, n - 1, optimize, arithCode), ScanEvents(scans, n - 1, optimize, arithCode);
      OneScan(scans, n - 1, i, optimize, arithCode);
      CountAppend(before, now, Output(i));
      CountAppend(before, now, ScanHeader(i));
      CountAppend(before, now, Gather(i));
      CountAppend(before, now, FrameHeader);
    }
  }

  lemma OneScan(scans: Script, n: nat, i: nat, optimize: bool, arithCode: bool)
    requires n < |scans| && i < |scans|
    ensures var es := ScanEvents(scans, n, optimize, arithCode);
      && Count(es, Output(i)) == Count(es, ScanHeader(i)) == (if i == n then 1 else 0)
      && Count(es, Gather(i)) == (if i == n && optimize && !NeedsNoTable(scans[i], arithCode) then 1 else 0)
      && Count(es, FrameHeader) == (if n == 0 then 1 else 0)
  {
    var a := if optimize && !NeedsNoTable(scans[n], arithCode) then [Gather(n)] else [];
    var b := if n == 0 then [FrameHeader] else [];
    var c, d := [ScanHeader(n)], [Output(n)];
    assert c + d == [ScanHeader(n), Output(n)];
    forall e ensures Count(a + b + (c + d), e) == Count(a, e) + Count(b, e) + Count(c, e) + Count(d, e) {
      CountAppend(a + b, c + d, e);
      CountAppend(a, b, e);
      CountAppend(c, d, e);
    }
    forall x, e ensures Count([x], e) == if x == e then 1 else 0 {
    }
  }
}
