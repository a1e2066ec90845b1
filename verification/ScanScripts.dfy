/** Scan scripts: which ones validate_script (jcmaster.c) accepts, and that those made by
    jpeg_simple_progression (jcparam.c) are among them. */
module ScanScripts {

  const MAX_COMPS_IN_SCAN := 4
  const MAX_AH_AL := 10

  datatype ScanInfo = ScanInfo(comps: seq<int>, ss: int, se: int, ah: int, al: int) {
    predicate Covers(c: int, k: int) {
      c in comps && ss <= k <= se
    }

    /** One to four components, known, and in ascending order. */
    predicate ComponentsOk(n: nat) {
      && 0 < |comps| <= MAX_COMPS_IN_SCAN
      && (forall i :: 0 <= i < |comps| ==> 0 <= comps[i] < n)
      && forall i :: 0 < i < |comps| ==> comps[i - 1] < comps[i]
    }

    /** Progression parameters in range; DC and AC not together; AC for one component only. */
    predicate RangesOk() {
      && 0 <= ss <= se < 64 && 0 <= ah <= MAX_AH_AL && 0 <= al <= MAX_AH_AL
      && if ss == 0 then se == 0 else |comps| == 1
    }
  }

  type Script = seq<ScanInfo>

  /** The bit positions at which a coefficient is sent, from and to, in order. */
  function Sent(scans: Script, c: int, k: int): seq<(int, int)> {
    if scans == [] then []
    else
      var s := scans[|scans| - 1];
      Sent(scans[..|scans| - 1], c, k) + if s.Covers(c, k) then [(s.ah, s.al)] else []
  }

  /** The bit position down to which a coefficient has been sent, or -1. */
  function LastBitpos(scans: Script, c: int, k: int): int {
    var p := Sent(scans, c, k);
    if p == [] then -1 else p[|p| - 1].1
  }

  lemma SentSnoc(scans: Script, s: ScanInfo, c: int, k: int)
    ensures Sent(scans + [s], c, k) == Sent(scans, c, k) + if s.Covers(c, k) then [(s.ah, s.al)] else []
    ensures LastBitpos(scans + [s], c, k) == if s.Covers(c, k) then s.al else LastBitpos(scans, c, k)
  {
    assert (scans + [s])[..|scans|] == scans;
  }

  // ---------- what a valid script is ----------

  /** A coefficient is first sent whole, and then one bit lower each time. */
  ghost predicate Descends(p: seq<(int, int)>) {
    forall j :: 0 <= j < |p| ==> DescendsAt(p, j)
  }

  ghost predicate DescendsAt(p: seq<(int, int)>, j: int)
    requires 0 <= j < |p|
  {
    if j == 0 then p[j].0 == 0 else p[j].0 == p[j - 1].1 && p[j].1 == p[j].0 - 1
  }

  /** Every AC scan of a component comes after a DC scan of it. */
  ghost predicate DcFirst(scans: Script) {
    forall i :: 0 <= i < |scans| && scans[i].ss != 0 ==>
      forall c <- scans[i].comps :: Sent(scans[..i], c, 0) != []
  }

  ghost predicate ProgressivePart(scans: Script, n: nat) {
    && (forall i :: 0 <= i < |scans| ==> scans[i].ComponentsOk(n) && scans[i].RangesOk())
    && (forall c, k :: 0 <= c < n && 0 <= k < 64 ==> Descends(Sent(scans, c, k)))
    && DcFirst(scans)
  }

  /** A valid progressive script: its scans are well formed, every coefficient is refined bit by bit, AC
      never precedes DC, and every component's DC coefficients are sent. */
  ghost predicate ValidProgressive(scans: Script, n: nat) {
    ProgressivePart(scans, n) && forall c :: 0 <= c < n ==> Sent(scans, c, 0) != []
  }

  /** A valid sequential script: whole blocks only, and every component exactly once. */
  ghost predicate ValidSequential(scans: Script, n: nat) {
    && (forall i :: 0 <= i < |scans| ==> scans[i].ComponentsOk(n) && Whole(scans[i]))
    && forall c :: 0 <= c < n ==> |Sent(scans, c, 0)| == 1
  }

  predicate Whole(s: ScanInfo) {
    s.ss == 0 && s.se == 63 && s.ah == 0 && s.al == 0
  }

  /** The first scan decides about the mode. */
  predicate IsProgressive(scans: Script)
    requires scans != []
  {
    scans[0].ss != 0 || scans[0].se != 63
  }

  ghost predicate ValidScript(scans: Script, n: nat) {
    scans != [] && if IsProgressive(scans) then ValidProgressive(scans, n) else ValidSequential(scans, n)
  }

  // ---------- one more scan ----------

  /** What the validator checks of one coefficient in a scan, against the last bit positions. */
  ghost predicate FollowsAt(scans: Script, s: ScanInfo, c: int, k: int) {
    && (s.ss != 0 ==> LastBitpos(scans, c, 0) >= 0)
    && if LastBitpos(scans, c, k) < 0 then s.ah == 0 else s.ah == LastBitpos(scans, c, k) && s.al == s.ah - 1
  }

  ghost predicate Follows(scans: Script, s: ScanInfo) {
    forall c, k :: s.Covers(c, k) ==> FollowsAt(scans, s, c, k)
  }

  lemma {:induction false} BitposKnown(scans: Script, c: int, k: int)
    requires forall i :: 0 <= i < |scans| ==> scans[i].RangesOk()
    ensures LastBitpos(scans, c, k) >= 0 <==> Sent(scans, c, k) != []
  {
    if scans != [] {
      BitposKnown(scans[..|scans| - 1], c, k);
    }
  }

  lemma DescendsSnoc(p: seq<(int, int)>, x: (int, int))
    ensures Descends(p + [x]) <==>
      Descends(p) && if p == [] then x.0 == 0 else x.0 == p[|p| - 1].1 && x.1 == x.0 - 1
  {
    var q := p + [x];
    assert q[|p|] == x;
    forall j | 0 <= j < |p| ensures DescendsAt(q, j) <==> DescendsAt(p, j) {
      assert q[j] == p[j] && (j > 0 ==> q[j - 1] == p[j - 1]);
    }
    assert DescendsAt(q, |p|) <==> if p == [] then x.0 == 0 else x.0 == p[|p| - 1].1 && x.1 == x.0 - 1;
    if Descends(q) {
      assert forall j :: 0 <= j < |p| ==> DescendsAt(q, j);
    }
  }

  lemma DcFirstSnoc(scans: Script, s: ScanInfo)
    ensures DcFirst(scans + [s]) <==> DcFirst(scans) && (s.ss != 0 ==> forall c <- s.comps :: Sent(scans, c, 0) != [])
  {
    hide Sent;
    var all := scans + [s];
    assert forall i :: 0 <= i < |scans| ==> all[..i] == scans[..i] && all[i] == scans[i];
    assert all[..|scans|] == scans && all[|scans|] == s;
  }

  /** One coefficient, one more scan. */
  lemma ExtendAt(scans: Script, s: ScanInfo, n: nat, c: int, k: int)
    requires ProgressivePart(scans, n) && 0 <= c < n && 0 <= k < 64
    requires s.ss != 0 ==> LastBitpos(scans, c, 0) >= 0
    ensures Descends(Sent(scans + [s], c, k)) <==> (s.Covers(c, k) ==> FollowsAt(scans, s, c, k))
  {
    hide Sent, Descends;
    SentSnoc(scans, s, c, k);
    BitposKnown(scans, c, k);
    DescendsSnoc(Sent(scans, c, k), (s.ah, s.al));
    assert Sent(scans, c, k) + [] == Sent(scans, c, k);
  }

  /** A well-formed scan extends a valid part of a script exactly if it follows what was sent before. */
  lemma ExtendPart(scans: Script, s: ScanInfo, n: nat)
    requires ProgressivePart(scans, n) && s.ComponentsOk(n) && s.RangesOk()
    ensures ProgressivePart(scans + [s], n) <==> Follows(scans, s)
  {
    hide Sent, Descends, LastBitpos;
    var all := scans + [s];
    DcFirstSnoc(scans, s);
    forall c | c in s.comps ensures LastBitpos(scans, c, 0) >= 0 <==> Sent(scans, c, 0) != [] {
      BitposKnown(scans, c, 0);
    }
    assert forall i :: 0 <= i < |scans| ==> all[i] == scans[i];
    if s.ss != 0 && exists c <- s.comps :: LastBitpos(scans, c, 0) < 0 {
      var c :| c in s.comps && LastBitpos(scans, c, 0) < 0;
      assert s.Covers(c, s.ss) && !FollowsAt(scans, s, c, s.ss);
    } else {
      forall c, k | 0 <= c < n && 0 <= k < 64
        ensures Descends(Sent(all, c, k)) <==> (s.Covers(c, k) ==> FollowsAt(scans, s, c, k))
      {
        if c in s.comps {
          ExtendAt(scans, s, n, c, k);
        } else {
          SentSnoc(scans, s, c, k);
          assert Sent(scans, c, k) + [] == Sent(scans, c, k);
        }
      }
      if ProgressivePart(all, n) {
        forall c, k | s.Covers(c, k) ensures FollowsAt(scans, s, c, k) {
          assert 0 <= c < n && 0 <= k < 64 && Descends(Sent(all, c, k));
        }
      }
    }
  }

  // ---------- the rules, in terms of the scans ----------

  /** The last bit position is that of the last scan of the coefficient. */
  lemma {:induction false} LastSent(scans: Script, c: int, k: int, j: nat)
    requires j < |scans| && c in scans[j].comps && scans[j].ss <= k <= scans[j].se
    requires forall i :: j < i < |scans| ==> !(c in scans[i].comps && scans[i].ss <= k <= scans[i].se)
    ensures LastBitpos(scans, c, k) == scans[j].al
  {
    var n := |scans| - 1;
    SentSnoc(scans[..n], scans[n], c, k);
    assert scans == scans[..n] + [scans[n]];
    if j < n {
      LastSent(scans[..n], c, k, j);
    }
  }

  /** Before there is one, it is -1. */
  lemma {:induction false} NeverSent(scans: Script, c: int, k: int)
    requires forall i :: 0 <= i < |scans| ==> !(c in scans[i].comps && scans[i].ss <= k <= scans[i].se)
    ensures LastBitpos(scans, c, k) == -1
  {
    if scans != [] {
      var n := |scans| - 1;
      SentSnoc(scans[..n], scans[n], c, k);
      assert scans == scans[..n] + [scans[n]];
      NeverSent(scans[..n], c, k);
    }
  }

  /** The rules for a scan on its own. */
  ghost predicate WellFormed(s: ScanInfo, n: nat) {
    && 1 <= |s.comps| <= 4
    && (forall c <- s.comps :: 0 <= c < n) && (forall i, j :: 0 <= i < j < |s.comps| ==> s.comps[i] < s.comps[j])
    && 0 <= s.ss <= s.se <= 63 && 0 <= s.ah <= 10 && 0 <= s.al <= 10
    && (s.ss == 0 ==> s.se == 0) && (s.ss > 0 ==> |s.comps| == 1)
  }

  /** The rules for a scan after others: a coefficient never sent is sent from the top; one sent down to a bit
      position is continued from there, by one bit; and AC coefficients come after DC coefficients. */
  ghost predicate Continues(scans: Script, s: ScanInfo) {
    forall c, k | c in s.comps && s.ss <= k <= s.se :: ContinuesAt(scans, s, c, k)
  }

  ghost predicate ContinuesAt(scans: Script, s: ScanInfo, c: int, k: int) {
    && (s.ss > 0 ==> LastBitpos(scans, c, 0) != -1)
    && if LastBitpos(scans, c, k) == -1 then s.ah == 0 else s.ah == LastBitpos(scans, c, k) && s.al == s.ah - 1
  }

  lemma {:induction false} Ascending(comps: seq<int>, ci: nat)
    requires ci < |comps| && forall i :: 0 < i < |comps| ==> comps[i - 1] < comps[i]
    ensures forall j :: 0 <= j < ci ==> comps[j] < comps[ci]
  {
    if ci > 0 {
      Ascending(comps, ci - 1);
    }
  }

  lemma WellFormedIs(s: ScanInfo, n: nat)
    ensures WellFormed(s, n) <==> s.ComponentsOk(n) && s.RangesOk()
  {
    if s.ComponentsOk(n) {
      forall j | 0 <= j < |s.comps| ensures forall i :: 0 <= i < j ==> s.comps[i] < s.comps[j] {
        Ascending(s.comps, j);
      }
    } else if WellFormed(s, n) {
      assert forall i :: 0 <= i < |s.comps| ==> s.comps[i] in s.comps;
    }
  }

  lemma {:induction false} BitposRange(scans: Script, c: int, k: int)
    requires forall i :: 0 <= i < |scans| ==> scans[i].RangesOk()
    ensures LastBitpos(scans, c, k) >= -1
  {
    if scans != [] {
      BitposRange(scans[..|scans| - 1], c, k);
    }
  }

  lemma RangesStart(s: ScanInfo)
    requires s.RangesOk()
    ensures s.ss >= 0
  {
  }

  lemma ContinuesIs(scans: Script, s: ScanInfo)
    requires s.ss >= 0 && forall i :: 0 <= i < |scans| ==> scans[i].RangesOk()
    ensures Continues(scans, s) <==> Follows(scans, s)
  {
    hide LastBitpos, ContinuesAt, FollowsAt, ScanInfo.RangesOk;
    forall c, k ensures ContinuesAt(scans, s, c, k) <==> FollowsAt(scans, s, c, k) {
      BitposRange(scans, c, k);
      BitposRange(scans, c, 0);
      SameRule(scans, s, c, k);
    }
  }

  lemma SameRule(scans: Script, s: ScanInfo, c: int, k: int)
    requires s.ss >= 0 && LastBitpos(scans, c, k) >= -1 && LastBitpos(scans, c, 0) >= -1
    ensures ContinuesAt(scans, s, c, k) <==> FollowsAt(scans, s, c, k)
  {
    hide LastBitpos;
  }

  /** A progressive script is one in which every scan is well formed and continues the scans before it, and the DC
      coefficients of every component are sent. */
  lemma ProgressiveIs(scans: Script, n: nat)
    ensures ValidProgressive(scans, n) <==>
      && (forall i :: 0 <= i < |scans| ==> WellFormed(scans[i], n) && Continues(scans[..i], scans[i]))
      && forall c :: 0 <= c < n ==> LastBitpos(scans, c, 0) != -1
  {
    hide ProgressivePart, WellFormed, Continues, Sent, LastBitpos;
    PartIs(scans, n);
    if ProgressivePart(scans, n) {
      PartInRange(scans, n);
      forall c ensures LastBitpos(scans, c, 0) != -1 <==> Sent(scans, c, 0) != [] {
        BitposKnown(scans, c, 0);
        BitposRange(scans, c, 0);
      }
    }
  }

  lemma PartInRange(scans: Script, n: nat)
    requires ProgressivePart(scans, n)
    ensures forall i :: 0 <= i < |scans| ==> scans[i].ComponentsOk(n) && scans[i].RangesOk()
  {
    hide ScanInfo.ComponentsOk, ScanInfo.RangesOk, DcFirst, Descends, Sent;
  }

  lemma {:induction false} PartIs(scans: Script, n: nat)
    ensures ProgressivePart(scans, n) <==>
      forall i :: 0 <= i < |scans| ==> WellFormed(scans[i], n) && Continues(scans[..i], scans[i])
  {
    hide ProgressivePart, WellFormed, Continues, Follows, ScanInfo.ComponentsOk, ScanInfo.RangesOk;
    if scans == [] {
      NothingSent(n);
    } else {
      var m := |scans| - 1;
      var before, s := scans[..m], scans[m];
      assert scans == before + [s];
      PartIs(before, n);
      assert forall i :: 0 <= i < m ==> before[i] == scans[i] && before[..i] == scans[..i];
      if ProgressivePart(before, n) {
        WellFormedIs(s, n);
        PartInRange(before, n);
        if s.RangesOk() {
          RangesStart(s);
          ContinuesIs(before, s);
        }
        if ProgressivePart(scans, n) {
          PartInRange(scans, n);
        }
        if s.ComponentsOk(n) && s.RangesOk() {
          ExtendPart(before, s, n);
        }
      } else {
        if ProgressivePart(scans, n) {
          PartsAreValid(scans, n, m);
        }
        var i :| 0 <= i < m && !(WellFormed(before[i], n) && Continues(before[..i], before[i]));
        assert !(WellFormed(scans[i], n) && Continues(scans[..i], scans[i]));
      }
    }
  }

  /** In a sequential script every scan is of whole blocks, and every component is in exactly one of them. */
  lemma SequentialIs(scans: Script, n: nat)
    ensures ValidSequential(scans, n) <==>
      && (forall i :: 0 <= i < |scans| ==>
            && scans[i].ComponentsOk(n)
            && scans[i].ss == 0 && scans[i].se == 63 && scans[i].ah == 0 && scans[i].al == 0)
      && forall c :: 0 <= c < n ==> InOne(scans, c)
  {
    hide Sent, InOne, ScanInfo.ComponentsOk;
    if forall i :: 0 <= i < |scans| ==> Whole(scans[i]) {
      forall c ensures |Sent(scans, c, 0)| == 1 <==> InOne(scans, c) {
        SentOnce(scans, c);
      }
    }
  }

  ghost predicate InOne(scans: Script, c: int) {
    exists i :: 0 <= i < |scans| && c in scans[i].comps && NotElsewhere(scans, c, i)
  }

  ghost predicate NotElsewhere(scans: Script, c: int, i: int) {
    forall j :: 0 <= j < |scans| && c in scans[j].comps ==> j == i
  }

  lemma NotElsewhereMore(before: Script, s: ScanInfo, c: int, i: int)
    requires c !in s.comps
    ensures NotElsewhere(before + [s], c, i) <==> NotElsewhere(before, c, i)
  {
    var scans := before + [s];
    assert forall j :: 0 <= j < |before| ==> scans[j] == before[j];
    if NotElsewhere(scans, c, i) {
      forall j | 0 <= j < |before| && c in before[j].comps ensures j == i {
        assert c in scans[j].comps;
      }
    }
  }

  lemma InOneMore(before: Script, s: ScanInfo, c: int)
    requires c !in s.comps
    ensures InOne(before + [s], c) <==> InOne(before, c)
  {
    hide NotElsewhere;
    var scans := before + [s];
    forall i ensures NotElsewhere(scans, c, i) <==> NotElsewhere(before, c, i) {
      NotElsewhereMore(before, s, c, i);
    }
    assert forall i :: 0 <= i < |before| ==> scans[i] == before[i];
  }

  lemma InLast(before: Script, s: ScanInfo, c: int)
    requires c in s.comps
    ensures InOne(before + [s], c) <==> forall i :: 0 <= i < |before| ==> c !in before[i].comps
  {
    var scans := before + [s];
    assert scans[|before|] == s;
    assert forall i :: 0 <= i < |before| ==> scans[i] == before[i];
    if forall i :: 0 <= i < |before| ==> c !in before[i].comps {
      assert NotElsewhere(scans, c, |before|);
    }
  }

  lemma {:induction false} SentOnce(scans: Script, c: int)
    requires forall i :: 0 <= i < |scans| ==> Whole(scans[i])
    ensures |Sent(scans, c, 0)| == 0 <==> forall i :: 0 <= i < |scans| ==> c !in scans[i].comps
    ensures |Sent(scans, c, 0)| == 1 <==> InOne(scans, c)
  {
    hide InOne, Sent;
    if scans == [] {
      NothingSentYet();
      NotIn(c);
    } else {
      var m := |scans| - 1;
      var before := scans[..m];
      SentOnce(before, c);
      SentSnoc(before, scans[m], c, 0);
      if c in scans[m].comps {
        InLast(before, scans[m], c);
      } else {
        InOneMore(before, scans[m], c);
      }
      assert scans == before + [scans[m]];
    }
  }

  lemma NotIn(c: int)
    ensures !InOne([], c)
  {
  }

  // ---------- the validator ----------

  /** The table holds the last bit positions of all coefficients. */
  ghost predicate Tabled(last: array2<int>, scans: Script, n: nat)
    reads last
  {
    && last.Length0 == n && last.Length1 == 64
    && forall c, k :: 0 <= c < n && 0 <= k < 64 ==> last[c, k] == LastBitpos(scans, c, k)
  }

  /** Check one component of a scan, and enter its new bit positions. */
  method CheckComponent(last: array2<int>, ghost scans: Script, s: ScanInfo, n: nat, c: int) returns (ok: bool)
    requires 0 <= c < n && s.RangesOk() && last.Length0 == n && last.Length1 == 64
    requires forall k :: 0 <= k < 64 ==> last[c, k] == LastBitpos(scans, c, k)
    modifies last
    ensures ok <==> forall k :: s.ss <= k <= s.se ==> FollowsAt(scans, s, c, k)
    ensures ok ==> forall k :: 0 <= k < 64 ==> last[c, k] == if s.ss <= k <= s.se then s.al else LastBitpos(scans, c, k)
    ensures forall c', k :: 0 <= c' < n && 0 <= k < 64 && c' != c ==> last[c', k] == old(last[c', k])
  {
    hide LastBitpos;
    if s.ss != 0 && last[c, 0] < 0 {
      assert !FollowsAt(scans, s, c, s.ss);
      return false;
    }
    var coefi := s.ss;
    while coefi <= s.se
      invariant s.ss <= coefi <= s.se + 1
      invariant forall k :: s.ss <= k < coefi ==> FollowsAt(scans, s, c, k)
      invariant forall k :: 0 <= k < 64 ==> last[c, k] == if s.ss <= k < coefi then s.al else LastBitpos(scans, c, k)
      invariant forall c', k :: 0 <= c' < n && 0 <= k < 64 && c' != c ==> last[c', k] == old(last[c', k])
    {
      if last[c, coefi] < 0 {
        if s.ah != 0 {
          assert !FollowsAt(scans, s, c, coefi);
          return false;
        }
      } else if s.ah != last[c, coefi] || s.al != s.ah - 1 {
        assert !FollowsAt(scans, s, c, coefi);
        return false;
      }
      last[c, coefi] := s.al;
      coefi := coefi + 1;
    }
    return true;
  }

  /** Check a scan of a progressive script against what was sent before. */
  method CheckScan(last: array2<int>, ghost scans: Script, s: ScanInfo, n: nat) returns (ok: bool)
    requires s.ComponentsOk(n) && s.RangesOk() && Tabled(last, scans, n)
    modifies last
    ensures ok <==> Follows(scans, s)
    ensures ok ==> Tabled(last, scans + [s], n)
  {
    hide LastBitpos, FollowsAt;
    var ci := 0;
    while ci < |s.comps|
      invariant 0 <= ci <= |s.comps|
      invariant forall j, k :: 0 <= j < ci && s.ss <= k <= s.se ==> FollowsAt(scans, s, s.comps[j], k)
      invariant forall c, k :: 0 <= c < n && 0 <= k < 64 ==>
        last[c, k] == if c in s.comps[..ci] && s.ss <= k <= s.se then s.al else LastBitpos(scans, c, k)
    {
      var c := s.comps[ci];
      Ascending(s.comps, ci);
      assert s.comps[..ci + 1] == s.comps[..ci] + [c];
      ok := CheckComponent(last, scans, s, n, c);
      if !ok {
        ghost var k :| s.ss <= k <= s.se && !FollowsAt(scans, s, c, k);
        assert s.Covers(c, k);
        return;
      }
      ci := ci + 1;
    }
    assert s.comps[..ci] == s.comps;
    forall c, k | 0 <= c < n && 0 <= k < 64 ensures last[c, k] == LastBitpos(scans + [s], c, k) {
      SentSnoc(scans, s, c, k);
    }
    return true;
  }

  /** The component indexes of a scan. */
  method CheckComponents(s: ScanInfo, n: nat) returns (ok: bool)
    ensures ok <==> s.ComponentsOk(n)
  {
    var ncomps := |s.comps|;
    if ncomps <= 0 || ncomps > MAX_COMPS_IN_SCAN {
      return false;
    }
    var ci := 0;
    while ci < ncomps
      invariant 0 <= ci <= ncomps
      invariant forall i :: 0 <= i < ci ==> 0 <= s.comps[i] < n
      invariant forall i :: 0 < i < ci ==> s.comps[i - 1] < s.comps[i]
    {
      var thisi := s.comps[ci];
      if thisi < 0 || thisi >= n || (ci > 0 && thisi <= s.comps[ci - 1]) {
        return false;
      }
      ci := ci + 1;
    }
    return true;
  }

  /** The progressive part of the validator. */
  method ValidateProgressive(scans: Script, n: nat) returns (ok: bool)
    ensures ok <==> ValidProgressive(scans, n)
  {
    hide LastBitpos, Sent, Descends, DcFirst, Follows, ScanInfo.ComponentsOk, ScanInfo.RangesOk;
    var last := new int[n, 64]((_, _) => -1);
    NothingSent(n);
    assert scans[..0] == [];
    var i := 0;
    while i < |scans|
      invariant 0 <= i <= |scans| && Tabled(last, scans[..i], n) && ProgressivePart(scans[..i], n)
    {
      var s := scans[i];
      assert scans[..i + 1] == scans[..i] + [s];
      ok := CheckComponents(s, n);
      if !ok {
        return;
      }
      if !s.RangesOk() {
        return false;
      }
      ExtendPart(scans[..i], s, n);
      ok := CheckScan(last, scans[..i], s, n);
      if !ok {
        if ProgressivePart(scans, n) {
          PartsAreValid(scans, n, i + 1);
        }
        return;
      }
      i := i + 1;
    }
    assert scans[..i] == scans;
    var ci := 0;
    while ci < n
      invariant 0 <= ci <= n && Tabled(last, scans, n)
      invariant forall c :: 0 <= c < ci ==> Sent(scans, c, 0) != []
    {
      BitposKnown(scans, ci, 0);
      if last[ci, 0] < 0 {
        return false;
      }
      ci := ci + 1;
    }
    return true;
  }

  lemma NothingSent(n: nat)
    ensures ProgressivePart([], n) && forall c, k :: LastBitpos([], c, k) == -1
  {
  }

  lemma {:induction false} PartsAreValid(scans: Script, n: nat, i: nat)
    requires i <= |scans| && ProgressivePart(scans, n)
    ensures ProgressivePart(scans[..i], n)
    decreases |scans|
  {
    hide Sent, Descends;
    if i == |scans| {
      assert scans[..i] == scans;
    } else {
      var m := |scans| - 1;
      var front := scans[..m];
      assert scans == front + [scans[m]];
      DcFirstSnoc(front, scans[m]);
      forall c, k | 0 <= c < n && 0 <= k < 64 ensures Descends(Sent(front, c, k)) {
        SentSnoc(front, scans[m], c, k);
        DescendsSnoc(Sent(front, c, k), (scans[m].ah, scans[m].al));
        assert Sent(front, c, k) + [] == Sent(front, c, k);
      }
      PartsAreValid(front, n, i);
      assert front[..i] == scans[..i];
    }
  }

  lemma {:induction false} SentGrows(scans: Script, i: nat, c: int, k: int)
    requires i <= |scans|
    ensures |Sent(scans[..i], c, k)| <= |Sent(scans, c, k)|
    decreases |scans|
  {
    if i == |scans| {
      assert scans[..i] == scans;
    } else {
      var m := |scans| - 1;
      SentGrows(scans[..m], i, c, k);
      assert scans[..m][..i] == scans[..i];
    }
  }

  lemma OneMoreSent(scans: Script, s: ScanInfo, c: int)
    requires Whole(s)
    ensures |Sent(scans + [s], c, 0)| == |Sent(scans, c, 0)| + if c in s.comps then 1 else 0
  {
    hide Sent;
    SentSnoc(scans, s, c, 0);
  }

  /** The flags say which components were sent, each of them once. */
  ghost predicate Flagged(scans: Script, sent: seq<bool>) {
    forall c :: 0 <= c < |sent| ==> |Sent(scans, c, 0)| == if sent[c] then 1 else 0
  }

  lemma NoneTwice(scans: Script, s: ScanInfo, was: seq<bool>, now: seq<bool>)
    requires Whole(s) && Flagged(scans, was) && |now| == |was|
    requires forall c :: 0 <= c < |was| ==> now[c] == (was[c] || c in s.comps) && !(was[c] && c in s.comps)
    ensures Flagged(scans + [s], now)
  {
    hide Sent, Whole;
    forall c | 0 <= c < |was| ensures |Sent(scans + [s], c, 0)| == if now[c] then 1 else 0 {
      OneMoreSent(scans, s, c);
    }
  }

  /** Enter the components of a sequential scan, unless one was sent before. */
  method MarkSent(sent: array<bool>, ghost scans: Script, s: ScanInfo, n: nat) returns (ok: bool)
    requires s.ComponentsOk(n) && Whole(s) && sent.Length == n && Flagged(scans, sent[..])
    modifies sent
    ensures ok <==> forall c :: 0 <= c < n ==> |Sent(scans + [s], c, 0)| <= 1
    ensures ok ==> Flagged(scans + [s], sent[..])
  {
    hide Sent, Whole;
    ghost var was := sent[..];
    var ci := 0;
    while ci < |s.comps|
      invariant 0 <= ci <= |s.comps|
      invariant forall c :: 0 <= c < n ==> sent[c] == (was[c] || c in s.comps[..ci])
      invariant forall j :: 0 <= j < ci ==> !was[s.comps[j]]
    {
      var thisi := s.comps[ci];
      Ascending(s.comps, ci);
      assert s.comps[..ci + 1] == s.comps[..ci] + [thisi];
      if sent[thisi] {
        assert thisi !in s.comps[..ci];
        OneMoreSent(scans, s, thisi);
        return false;
      }
      sent[thisi] := true;
      ci := ci + 1;
    }
    assert s.comps[..ci] == s.comps;
    NoneTwice(scans, s, was, sent[..]);
    return true;
  }

  /** The sequential part of the validator. */
  method ValidateSequential(scans: Script, n: nat) returns (ok: bool)
    ensures ok <==> ValidSequential(scans, n)
  {
    hide Sent, ScanInfo.ComponentsOk, Whole;
    var sent := new bool[n](_ => false);
    NothingSentYet();
    assert scans[..0] == [];
    var i := 0;
    while i < |scans|
      invariant 0 <= i <= |scans| && forall j :: 0 <= j < i ==> scans[j].ComponentsOk(n) && Whole(scans[j])
      invariant Flagged(scans[..i], sent[..])
    {
      var s := scans[i];
      assert scans[..i + 1] == scans[..i] + [s];
      ok := CheckComponents(s, n);
      if !ok {
        return;
      }
      if !Whole(s) {
        return false;
      }
      ok := MarkSent(sent, scans[..i], s, n);
      if !ok {
        ghost var c :| 0 <= c < n && |Sent(scans[..i] + [s], c, 0)| > 1;
        SentGrows(scans, i + 1, c, 0);
        return;
      }
      i := i + 1;
    }
    assert scans[..i] == scans;
    var ci := 0;
    while ci < n
      invariant 0 <= ci <= n && forall c :: 0 <= c < ci ==> sent[c]
      invariant forall c :: 0 <= c < n ==> |Sent(scans, c, 0)| == if sent[c] then 1 else 0
    {
      if !sent[ci] {
        return false;
      }
      ci := ci + 1;
    }
    return true;
  }

  lemma NothingSentYet()
    ensures forall c: int, k: int :: Sent([], c, k) == []
  {
  }

  /** Decide about a whole script, and about the mode.  Exactly the valid scripts are accepted. */
  method ValidateScript(scans: Script, n: nat) returns (ok: bool, progressiveMode: bool)
    ensures ok <==> ValidScript(scans, n)
    ensures ok ==> progressiveMode == IsProgressive(scans)
  {
    hide ValidProgressive, ValidSequential;
    if |scans| <= 0 {
      return false, false;
    }
    if scans[0].ss != 0 || scans[0].se != 63 {
      ok := ValidateProgressive(scans, n);
      return ok, true;
    } else {
      ok := ValidateSequential(scans, n);
      return ok, false;
    }
  }
}
