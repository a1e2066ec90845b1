/** What the flushes of the sequential encoder (jchuff.c) do to a scan: the bytes that are written exactly, and
    when they are those of the scan. */
module SequentialFlushes {
  import opened BitStrings
  import opened ByteStreams
  import opened MacroPacking
  import opened HuffmanDerive
  import opened EntropyItems
  import opened RestartIntervals
  import opened SequentialBlock
  import opened SequentialPending
  import opened SequentialScan

  function TableAt(d: Tables, t: nat): Derived {
    if t < |d| then d[t] else Derived([], [])
  }

  /** Bits pending after the blocks. */
  function BlocksPending(c: ScanConfig, d: Tables, bs: seq<McuBlock>, dc: seq<int>, word: nat, p: nat): nat
    requires BlocksOf(c, bs) && |dc| == |c.dcTbl| == |c.acTbl|
  {
    if bs == [] then p
    else
      var b := bs[0];
      BlocksPending(c, d, bs[1..], dc[b.ci := b.block[0]], word,
        BlockPending(b.block, dc[b.ci], TableAt(d, c.dcTbl[b.ci]), TableAt(d, c.acTbl[b.ci]), word, p))
  }

  /** One more block. */
  lemma {:induction false} PendingSnoc(
    c: ScanConfig, d: Tables, a: seq<McuBlock>, b: McuBlock, dc: seq<int>, word: nat, p: nat)
    requires BlocksOf(c, a) && b.ci < |c.dcTbl| && |dc| == |c.dcTbl| == |c.acTbl|
    ensures BlocksOf(c, a + [b])
    ensures BlocksPending(c, d, a + [b], dc, word, p)
         == BlockPending(b.block, DcAfter(c, a, dc)[b.ci], TableAt(d, c.dcTbl[b.ci]), TableAt(d, c.acTbl[b.ci]),
              word, BlocksPending(c, d, a, dc, word, p))
  {
    hide BlockPending, TableAt;
    assert BlocksOf(c, a + [b]);
    if a == [] {
      assert a + [b] == [b] && [b][1..] == [];
    } else {
      var p1 := BlockPending(a[0].block, dc[a[0].ci], TableAt(d, c.dcTbl[a[0].ci]), TableAt(d, c.acTbl[a[0].ci]), word, p);
      PendingSnoc(c, d, a[1..], b, dc[a[0].ci := a[0].block[0]], word, p1);
      assert (a + [b])[1..] == a[1..] + [b];
    }
  }

  lemma TableFits(d: Tables, t: nat)
    requires Decodable(d) && t < |d|
    ensures TableAt(d, t) == d[t] && SizesFit(d[t])
  {
    PrefixCodeFits(d[t]);
  }

  lemma {:induction false} PendingFits(
    c: ScanConfig, d: Tables, bs: seq<McuBlock>, dc: seq<int>, word: nat, p: nat)
    requires c.Valid(|d|) && BlocksOf(c, bs) && |dc| == |c.dcTbl|
    requires Decodable(d) && BlocksInRange(c, bs, dc)
    requires (word == 32 || word == 64) && p <= if word == 32 then 15 else 63
    ensures BlocksPending(c, d, bs, dc, word, p) <= if word == 32 then 15 else 63
  {
    hide BlockPending, TableAt, SizesFit, InRange, Decodable;
    if bs != [] {
      var b := bs[0];
      TableFits(d, c.dcTbl[b.ci]);
      TableFits(d, c.acTbl[b.ci]);
      var dct, act := TableAt(d, c.dcTbl[b.ci]), TableAt(d, c.acTbl[b.ci]);
      BlockPendingFits(b.block, dc[b.ci], dct, act, word, p);
      PendingFits(c, d, bs[1..], dc[b.ci := b.block[0]], word, BlockPending(b.block, dc[b.ci], dct, act, word, p));
    }
  }

  /** AC coefficients and end-of-block codes of at most 10 bits. */
  ghost predicate Short(c: ScanConfig, d: Tables, bs: seq<McuBlock>) {
    forall b <- bs :: b.ci < |c.acTbl| && ShortEnough(TableAt(d, c.acTbl[b.ci]), b.block)
  }

  /** What is ready up to its last block. */
  lemma ReadyBeforeLast(c: ScanConfig, d: Tables, a: seq<McuBlock>, b: McuBlock)
    requires Ready(c, d, a + [b])
    ensures c.Valid(|d|) && Decodable(d) && BlocksOf(c, a) && b.ci < |c.dcTbl| == |c.acTbl|
    ensures c.dcTbl[b.ci] < |d| && c.acTbl[b.ci] < |d|
    ensures BlocksInRange(c, a, c.NoDc()) && InRange(b.block, DcAfter(c, a, c.NoDc())[b.ci])
  {
    hide Decodable, Encodable, InRange, BlocksItems;
    assert b in a + [b];
    assert BlocksOf(c, a) && BlocksOf(c, [b]) by {
      forall x | x in a
        ensures x.ci < |c.dcTbl|
      {
        assert x in a + [b];
      }
    }
    BlocksAppend(c, a, [b], c.NoDc());
    assert [b][1..] == [];
  }

  lemma LastPendingShort(c: ScanConfig, d: Tables, a: seq<McuBlock>, b: McuBlock, word: nat)
    requires word == 64 && Ready(c, d, a + [b])
    requires b.ci < |c.acTbl| && ShortEnough(TableAt(d, c.acTbl[b.ci]), b.block)
    ensures BlocksPending(c, d, a + [b], c.NoDc(), word, 0) <= 57
  {
    hide Ready, BlockPending, BlocksPending, SizesFit, InRange, Decodable, ShortEnough, TableAt, BlocksInRange,
      DcAfter;
    ReadyBeforeLast(c, d, a, b);
    PendingSnoc(c, d, a, b, c.NoDc(), word, 0);
    PendingFits(c, d, a, c.NoDc(), word, 0);
    TableFits(d, c.dcTbl[b.ci]);
    TableFits(d, c.acTbl[b.ci]);
    BlockPendingShort(b.block, DcAfter(c, a, c.NoDc())[b.ci], TableAt(d, c.dcTbl[b.ci]), TableAt(d, c.acTbl[b.ci]), word,
      BlocksPending(c, d, a, c.NoDc(), word, 0));
  }

  lemma PendingShort(c: ScanConfig, d: Tables, bs: seq<McuBlock>, word: nat)
    requires word == 64 && Ready(c, d, bs) && Short(c, d, bs)
    ensures BlocksPending(c, d, bs, c.NoDc(), word, 0) <= 57
  {
    hide Ready, ShortEnough, TableAt, BlocksOf;
    if bs != [] {
      var a, b := bs[..|bs| - 1], bs[|bs| - 1];
      assert bs == a + [b] && b in bs;
      LastPendingShort(c, d, a, b, word);
    }
  }

  // ---------- whole intervals ----------

  function IntervalPending(c: ScanConfig, d: Tables, mcus: seq<Mcu>, word: nat): nat
    requires BlocksOf(c, Flat(mcus)) && |c.acTbl| == |c.dcTbl|
  {
    BlocksPending(c, d, Flat(mcus), c.NoDc(), word, 0)
  }

  /** The bits of an interval that its flush writes. */
  function FlushedBits(c: ScanConfig, d: Tables, mcus: seq<Mcu>, word: nat): Bits
    requires BlocksOf(c, Flat(mcus)) && |c.acTbl| == |c.dcTbl| && word >= 7
  {
    Kept(IntervalBits(c, d, mcus), IntervalPending(c, d, mcus, word), word - 7)
  }

  /** The flush of an interval shifts out only zeros. */
  ghost predicate FlushesWell(c: ScanConfig, d: Tables, mcus: seq<Mcu>, word: nat)
    requires BlocksOf(c, Flat(mcus)) && |c.acTbl| == |c.dcTbl| && word >= 7
  {
    Lossless(IntervalBits(c, d, mcus), IntervalPending(c, d, mcus, word), word - 7)
  }

  function AllFlushed(c: ScanConfig, d: Tables, f: seq<seq<Mcu>>, word: nat): (r: seq<Bits>)
    requires Known(c, f) && word >= 7
    ensures |r| == |f|
  {
    seq(|f|, i requires 0 <= i < |f| => FlushedBits(c, d, f[i], word))
  }

  ghost predicate AllFlushWell(c: ScanConfig, d: Tables, f: seq<seq<Mcu>>, word: nat)
    requires Known(c, f) && word >= 7
  {
    forall i :: 0 <= i < |f| ==> FlushesWell(c, d, f[i], word)
  }

  /** The bytes that the encoder writes. */
  function EmittedBytes(c: ScanConfig, d: Tables, word: nat, h: History<Mcu>): seq<Byte>
    requires Known(c, Intervals(h)) && word >= 7
  {
    FramedBytes(AllFlushed(c, d, Intervals(h), word))
  }

  /** They are the bytes of the scan exactly if each flush shifts out only zeros. */
  lemma EmittedIsScan(c: ScanConfig, d: Tables, word: nat, h: History<Mcu>)
    requires Known(c, Intervals(h)) && word >= 7
    ensures EmittedBytes(c, d, word, h) == ScanBytes(c, d, h) <==> AllFlushWell(c, d, Intervals(h), word)
  {
    hide FramedBytes, Kept, Lossless, IntervalBits, IntervalPending;
    var f := Intervals(h);
    forall i | 0 <= i < |f|
      ensures |AllFlushed(c, d, f, word)[i]| == |AllBits(c, d, f)[i]|
      ensures AllFlushed(c, d, f, word)[i] == AllBits(c, d, f)[i] <==> FlushesWell(c, d, f[i], word)
    {
      KeptIsAll(IntervalBits(c, d, f[i]), IntervalPending(c, d, f[i], word), word - 7);
    }
    if EmittedBytes(c, d, word, h) == ScanBytes(c, d, h) {
      FramedInjective(AllFlushed(c, d, f, word), AllBits(c, d, f));
    }
    if AllFlushWell(c, d, f, word) {
      assert AllFlushed(c, d, f, word) == AllBits(c, d, f);
    }
  }

  /** 32-bit words always flush well; so do 64-bit words after short codes. */
  lemma ShortFlushesWell(c: ScanConfig, d: Tables, f: seq<seq<Mcu>>, word: nat)
    requires AllReady(c, d, f) && Known(c, f) && (word == 32 || word == 64)
    requires word == 64 ==> forall i :: 0 <= i < |f| ==> Short(c, d, Flat(f[i]))
    ensures AllFlushWell(c, d, f, word)
  {
    hide Short, BlocksPending, Decodable, Encodable, BlocksInRange, Flat;
    forall i | 0 <= i < |f|
      ensures FlushesWell(c, d, f[i], word)
    {
      assert Ready(c, d, Flat(f[i]));
      if word == 64 {
        PendingShort(c, d, Flat(f[i]), word);
      } else {
        PendingFits(c, d, Flat(f[i]), c.NoDc(), word, 0);
      }
    }
  }
}
