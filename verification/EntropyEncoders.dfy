/** The entropy encoder as the coefficient controller calls it (jchuff.c): one MCU at a time, which it writes,
    only counts, or refuses for the time being. */
module EntropyEncoders {
  import opened ByteStreams
  import opened Coefficients
  import opened CoefficientGeometry
  import opened RestartIntervals
  import opened SequentialScan
  import opened SequentialRange
  import opened SequentialFlushes
  import opened SequentialPasses
  import opened SequentialOptimize

  // ---------- which component a block belongs to ----------

  /** MCU_membership: the component, of the first n, that block number i of an MCU belongs to. */
  function ComponentAt(s: Scan, n: nat, i: nat): nat
    requires n <= |s.comps|
  {
    if n == 0 then 0
    else if n == 1 || McuSize(s, n - 1) <= i then n - 1
    else ComponentAt(s, n - 1, i)
  }

  /** The blocks of an MCU with their components. */
  function Tagged(s: Scan, mcu: seq<Block>): (r: Mcu)
    ensures |r| == |mcu|
  {
    seq(|mcu|, i requires 0 <= i < |mcu| => SequentialScan.McuBlock(ComponentAt(s, |s.comps|, i), mcu[i]))
  }

  /** The blocks of a component are tagged with it, and with no other. */
  lemma {:induction false} Membership(s: Scan, n: nat, ci: nat, i: nat)
    requires ci < n <= |s.comps| && McuSize(s, ci) <= i && (i < McuSize(s, ci + 1) || ci + 1 == n)
    ensures ComponentAt(s, n, i) == ci
  {
    hide McuSize;
    if ci + 1 < n {
      McuSizeGrows(s, ci + 1, n - 1);
      Membership(s, n - 1, ci, i);
    }
  }

  /** Block number k of an MCU carries the component whose blocks begin at or before k and end behind it. */
  lemma BlockCarries(s: Scan, mcu: seq<Block>, ci: nat, k: nat)
    requires ci < |s.comps| && McuSize(s, ci) <= k < McuSize(s, ci + 1) && k < |mcu|
    ensures Tagged(s, mcu)[k] == SequentialScan.McuBlock(ci, mcu[k])
  {
    hide McuSize, ComponentAt;
    Membership(s, |s.comps|, ci, k);
  }

  function AllTagged(s: Scan, mcus: seq<seq<Block>>): (r: seq<Mcu>)
    ensures |r| == |mcus|
  {
    seq(|mcus|, i requires 0 <= i < |mcus| => Tagged(s, mcus[i]))
  }

  lemma TaggedPart(s: Scan, a: seq<seq<Block>>, b: seq<seq<Block>>)
    requires a <= b
    ensures AllTagged(s, b)[..|a|] == AllTagged(s, a)
    ensures forall i :: 0 <= i < |b| ==> AllTagged(s, b)[i] == Tagged(s, b[i])
  {
    hide Tagged;
  }

  // ---------- attempts ----------

  /** The offers that are not zero. */
  function Positive(offers: seq<nat>): nat {
    if offers == [] then 0 else Positive(offers[..|offers| - 1]) + if offers[|offers| - 1] > 0 then 1 else 0
  }

  lemma PositiveNext(offers: seq<nat>, k: nat)
    requires k < |offers|
    ensures Positive(offers[..k + 1]) == Positive(offers[..k]) + if offers[k] > 0 then 1 else 0
  {
    assert offers[..k + 1][..k] == offers[..k];
  }

  /** One attempt to write MCU number m of a scan, for which there is room for `offers[k]` bytes. */
  method Attempt(e: HuffEncoder, mcu: Mcu, ghost mcus: seq<Mcu>, ghost m: nat, offers: seq<nat>, k: nat)
    returns (ok: bool)
    requires m < |mcus| && mcus[m] == mcu && k < |offers|
    requires e.Valid() && e.history == HistoryOf(e.c.restartInterval, mcus[..m])
    requires ScanReady(e.c, e.d, mcus) && e.saved.p.word >= 7
    modifies e
    ensures e.Valid() && e.saved.p.word == old(e.saved.p.word)
    ensures (e.saved == old(e.saved) && !ok) || (fresh(e.saved) && fresh(e.saved.p))
    ensures e.history == HistoryOf(e.c.restartInterval, mcus[..if ok then m + 1 else m])
    ensures AmpleOffers(e.c, e.d, e.saved.p.word, mcus, offers[..k + 1])
         <= AmpleOffers(e.c, e.d, e.saved.p.word, mcus, offers[..k]) + if ok then 1 else 0
  {
    hide Ready, HuffEncoder.Valid, AmpleOffers, Known, EmittedBytes;
    ghost var word := e.saved.p.word;
    NextOffer(e.c, e.d, word, mcus, offers, k);
    assert mcus[..m + 1][..m] == mcus[..m];
    assert Next(e.history, e.c.restartInterval, mcus[m]) == HistoryOf(e.c.restartInterval, mcus[..m + 1]);
    ok := e.EncodeMcu(mcu, offers[k]);
    assert !ok ==> !Ample(e.c, e.d, word, mcus, offers[k]);
  }

  class EntropyEncoder {
    const s: Scan
    ghost const plan: seq<seq<Block>>  // the MCUs of the scan
    ghost const word: nat
    const huff: HuffEncoder?           // in an output pass
    const stat: GatherEncoder?         // in a statistics pass
    const offers: seq<nat>             // bytes free at the first attempt to write an MCU, at the second, ...
    var attempts: nat
    var failed: bool                   // a coefficient was out of range
    var mcus: seq<seq<Block>>          // MCUs accepted

    ghost var Repr: set<object>

    /** What was written stands for the MCUs accepted; only offers that are not ample were in vain. */
    ghost predicate Writing()
      requires huff != null
      reads this, huff, huff.saved, huff.saved.p
    {
      && huff.Valid() && huff.history == HistoryOf(huff.c.restartInterval, AllTagged(s, mcus))
      && ScanReady(huff.c, huff.d, AllTagged(s, plan)) && huff.saved.p.word == word >= 7
      && attempts <= |offers|
      && AmpleOffers(huff.c, huff.d, word, AllTagged(s, plan), offers[..attempts]) <= |mcus|
    }

    /** What was counted are the symbols of the MCUs accepted, all of which fit. */
    ghost predicate Counting()
      requires stat != null
      reads this, stat, stat.stats, stat.stats.counts
    {
      && stat.Valid() && stat.history == HistoryOf(stat.c.restartInterval, AllTagged(s, mcus))
      && (forall m <- AllTagged(s, plan) :: BlocksOf(stat.c, m))
      && ScanFits(stat.c, AllTagged(s, mcus))
    }

    ghost predicate Valid()
      reads this, Repr
    {
      && this in Repr && (huff != null ==> huff in Repr && huff.saved in Repr && huff.saved.p in Repr)
      && (stat != null ==> {stat, stat.stats, stat.stats.counts} <= Repr)
      && attempts <= |offers| && mcus <= plan && (huff == null || stat == null)
      && if failed then stat != null && !ScanFits(stat.c, AllTagged(s, plan))
         else if huff != null then Writing()
         else if stat != null then Counting()
         else Positive(offers[..attempts]) <= |mcus|
    }

    /** An MCU was accepted; or it was refused, which takes an attempt unless none is left, or is an error. */
    ghost predicate Answered(ok: bool, before: nat)
      reads this
    {
      && before <= attempts
      && if ok then !failed else failed || (stat == null && (before < attempts || attempts == |offers|))
    }

    /** No MCU will be accepted any more. */
    predicate Finished()
      reads this
    {
      failed || (stat == null && attempts == |offers|)
    }

    lemma ValidBounds()
      requires Valid()
      ensures attempts <= |offers|
    {
      hide Writing, Counting;
    }

    /** An output pass. */
    constructor Output(s: Scan, ghost plan: seq<seq<Block>>, huff: HuffEncoder, offers: seq<nat>)
      requires huff.Valid() && huff.history == History([], []) && huff.saved.p.word >= 7
      requires ScanReady(huff.c, huff.d, AllTagged(s, plan))
      ensures Valid() && !failed && mcus == [] && attempts == 0
      ensures this.s == s && this.plan == plan && this.huff == huff && stat == null && this.offers == offers
      ensures word == huff.saved.p.word && Repr == {this, huff, huff.saved, huff.saved.p}
    {
      this.s := s;
      this.plan := plan;
      this.huff := huff;
      this.stat := null;
      this.offers := offers;
      word := huff.saved.p.word;
      attempts := 0;
      failed := false;
      mcus := [];
      Repr := {this, huff, huff.saved, huff.saved.p};
      new;
      hide HuffEncoder.Valid, ScanReady, AmpleOffers;
      NoOffers(huff.c, huff.d, word, AllTagged(s, plan), offers);
    }

    /** A statistics pass. */
    constructor Statistics(s: Scan, ghost plan: seq<seq<Block>>, stat: GatherEncoder)
      requires stat.Valid() && stat.history == History([], [])
      requires forall m <- AllTagged(s, plan) :: BlocksOf(stat.c, m)
      ensures Valid() && !failed && mcus == [] && attempts == 0
      ensures this.s == s && this.plan == plan && this.stat == stat && huff == null && offers == []
      ensures Repr == {this, stat, stat.stats, stat.stats.counts}
    {
      this.s := s;
      this.plan := plan;
      this.huff := null;
      this.stat := stat;
      this.offers := [];
      word := 0;
      attempts := 0;
      failed := false;
      mcus := [];
      Repr := {this, stat, stat.stats, stat.stats.counts};
      new;
      hide GatherEncoder.Valid;
    }

    /** An encoder of which it is only known which attempts it refuses: those that are offered nothing. */
    constructor Other(s: Scan, ghost plan: seq<seq<Block>>, offers: seq<nat>)
      ensures Valid() && !failed && mcus == [] && attempts == 0
      ensures this.s == s && this.plan == plan && huff == null && stat == null && this.offers == offers
      ensures Repr == {this}
    {
      this.s := s;
      this.plan := plan;
      this.huff := null;
      this.stat := null;
      this.offers := offers;
      word := 0;
      attempts := 0;
      failed := false;
      mcus := [];
      Repr := {this};
    }

    /** Write an MCU, or refuse it. */
    method WriteMcu(mcu: seq<Block>) returns (ok: bool)
      requires huff != null && Valid() && !failed && mcus + [mcu] <= plan && attempts < |offers|
      modifies `attempts, `mcus, `Repr, huff
      ensures Valid() && !failed && fresh(Repr - old(Repr)) && attempts == old(attempts) + 1
      ensures mcus == old(mcus) + if ok then [mcu] else []
    {
      hide HuffEncoder.Valid, ScanReady, AmpleOffers, AllTagged, Tagged, HistoryOf;
      ghost var more := mcus + [mcu];
      TaggedPart(s, mcus, plan);
      TaggedPart(s, more, plan);
      assert plan[|mcus|] == more[|mcus|];
      ok := Attempt(huff, Tagged(s, mcu), AllTagged(s, plan), |mcus|, offers, attempts);
      attempts := attempts + 1;
      Repr := Repr + {huff.saved, huff.saved.p};
      if ok {
        mcus := mcus + [mcu];
      }
    }

    /** Count the symbols of an MCU.  It is an error if a coefficient is out of range. */
    method CountMcu(mcu: seq<Block>) returns (ok: bool)
      requires stat != null && Valid() && !failed && mcus + [mcu] <= plan
      modifies `failed, `mcus, stat, stat.stats, stat.stats.counts
      ensures Valid() && failed == !ok && Repr == old(Repr)
      ensures mcus == old(mcus) + if ok then [mcu] else []
    {
      hide GatherEncoder.Valid, CurrentFits, AllTagged, Tagged, HistoryOf, BlocksOf;
      ghost var more, all := mcus + [mcu], AllTagged(s, plan);
      TaggedPart(s, mcus, plan);
      TaggedPart(s, more, plan);
      assert plan[|mcus|] == more[|mcus|];
      assert all[|mcus|] == Tagged(s, mcu) && all[|mcus|] in all;
      FitsNext(stat.c, all, |mcus|);
      ok := stat.EncodeMcuGather(Tagged(s, mcu));
      if ok {
        mcus := mcus + [mcu];
      } else {
        failed := true;
      }
    }

    /** The end of an output pass: the bytes are those of the MCUs accepted. */
    method Finish() returns (bytes: seq<Byte>)
      requires Valid() && huff != null
      modifies huff.saved.p
      ensures Known(huff.c, Intervals(HistoryOf(huff.c.restartInterval, AllTagged(s, mcus)))) && word >= 7
      ensures bytes == huff.saved.p.out
      ensures bytes == EmittedBytes(huff.c, huff.d, word, HistoryOf(huff.c.restartInterval, AllTagged(s, mcus)))
    {
      hide HuffEncoder.Valid, ScanReady, AmpleOffers, AllTagged, HistoryOf, Known, EmittedBytes, AllFlushWell;
      bytes := huff.FinishPass();
    }

    /** After all attempts, those with ample offers were not in vain. */
    lemma AttemptsMade()
      requires Valid() && huff != null
      ensures word >= 7 && ScanReady(huff.c, huff.d, AllTagged(s, plan)) && !failed
      ensures attempts == |offers| ==> AmpleOffers(huff.c, huff.d, word, AllTagged(s, plan), offers) <= |mcus|
    {
      hide HuffEncoder.Valid, ScanReady, AmpleOffers, AllTagged, HistoryOf;
      assert offers[..|offers|] == offers;
    }

    /** Called with each MCU in turn, until it is accepted. */
    method EncodeMcu(mcu: seq<Block>) returns (ok: bool)
      requires Valid() && !failed && mcus + [mcu] <= plan
      modifies Repr
      ensures Valid() && fresh(Repr - old(Repr))
      ensures mcus == old(mcus) + if ok then [mcu] else []
      ensures Answered(ok, old(attempts))
    {
      hide Writing, Counting, ScanFits;
      if stat != null {
        ok := CountMcu(mcu);
      } else if attempts == |offers| {
        ok := false;
      } else if huff != null {
        ok := WriteMcu(mcu);
      } else {
        PositiveNext(offers, attempts);
        ok := offers[attempts] > 0;
        attempts := attempts + 1;
        if ok {
          mcus := mcus + [mcu];
        }
      }
    }
  }

  /** One more MCU. */
  lemma FitsNext(c: ScanConfig, mcus: seq<Mcu>, m: nat)
    requires m < |mcus|
    ensures HistoryOf(c.restartInterval, mcus[..m + 1])
         == Next(HistoryOf(c.restartInterval, mcus[..m]), c.restartInterval, mcus[m])
    ensures ScanFits(c, mcus[..m + 1]) <==>
      ScanFits(c, mcus[..m]) && CurrentFits(c, HistoryOf(c.restartInterval, mcus[..m + 1]))
    ensures ScanFits(c, mcus) ==> ScanFits(c, mcus[..m + 1])
  {
    hide CurrentFits;
    var before, now := mcus[..m], mcus[..m + 1];
    assert now[..m] == before && now[..m + 1] == now;
    forall n | 0 < n <= m
      ensures CurrentFits(c, HistoryOf(c.restartInterval, now[..n]))
          <==> CurrentFits(c, HistoryOf(c.restartInterval, before[..n]))
    {
      assert now[..n] == before[..n];
    }
    if ScanFits(c, now) {
      assert CurrentFits(c, HistoryOf(c.restartInterval, now[..m + 1]));
    }
    forall n | 0 < n <= m + 1
      ensures CurrentFits(c, HistoryOf(c.restartInterval, now[..n]))
          <==> CurrentFits(c, HistoryOf(c.restartInterval, mcus[..n]))
    {
      assert now[..n] == mcus[..n];
    }
  }
}
