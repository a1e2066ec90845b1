/** The passes of the sequential encoder over a scan (jchuff.c): the output pass with its restart
    markers, and the statistics pass, which must agree with it. */
module SequentialPasses {
  import opened BitStrings
  import opened ByteStreams
  import opened BitPacking
  import opened MacroPacking
  import opened HuffmanDerive
  import opened EntropyItems
  import opened SequentialBlock
  import opened SequentialEncoder
  import opened RestartIntervals
  import opened SequentialScan
  import opened SequentialPending
  import opened SequentialFlushes

  /** One more block: what it adds, and what it needs. */
  lemma NextBlock(c: ScanConfig, d: Tables, a: seq<McuBlock>, b: McuBlock, more: seq<McuBlock>)
    requires Ready(c, d, a + [b] + more)
    ensures BlocksOf(c, a) && BlocksOf(c, a + [b]) && b.ci < |c.dcTbl| && c.Valid(|d|) && Decodable(d)
    ensures var dc := DcAfter(c, a, c.NoDc());
      var items := BlockItems(b.block, dc[b.ci], c.dcTbl[b.ci], c.acTbl[b.ci]);
      && InRange(b.block, dc[b.ci]) && Encodable(items, d)
      && BlocksItems(c, a + [b], c.NoDc()) == BlocksItems(c, a, c.NoDc()) + items
      && DcAfter(c, a + [b], c.NoDc()) == dc[b.ci := b.block[0]]
  {
    hide BlockItems, InRange, Encodable, Decodable, Ready, BlocksOf, ScanConfig.Valid;
    ReadyMeans(c, d, a + [b] + more);
    BlocksOfParts(c, a + [b], more);
    BlocksOfParts(c, a, [b]);
    BlocksAppend(c, a + [b], more, c.NoDc());
    BlocksAppend(c, a, [b], c.NoDc());
    EncodableAppend(BlocksItems(c, a + [b], c.NoDc()), BlocksItems(c, more, DcAfter(c, a + [b], c.NoDc())), d);
    var dc := DcAfter(c, a, c.NoDc());
    OneBlock(c, b, dc);
    EncodableAppend(BlocksItems(c, a, c.NoDc()), BlocksItems(c, [b], dc), d);
  }

  lemma ReadyMeans(c: ScanConfig, d: Tables, bs: seq<McuBlock>)
    requires Ready(c, d, bs)
    ensures c.Valid(|d|) && |c.dcTbl| == |c.acTbl| && Decodable(d) && BlocksOf(c, bs)
    ensures BlocksInRange(c, bs, c.NoDc()) && Encodable(BlocksItems(c, bs, c.NoDc()), d)
  {
  }

  lemma BlocksOfParts(c: ScanConfig, a: seq<McuBlock>, b: seq<McuBlock>)
    requires BlocksOf(c, a + b)
    ensures BlocksOf(c, a) && BlocksOf(c, b)
  {
    assert (forall x <- a :: x in a + b) && (forall x <- b :: x in a + b);
  }

  /** The state that changes within an MCU: the bit buffer, the bytes behind it and the DC predictions.
      An MCU is encoded on a copy, which is kept only if the destination could take all of its bytes. */
  class WorkingState {
    const c: ScanConfig
    const d: Tables
    const p: MacroPacker
    var lastDc: seq<int>

    /** The state that the blocks `bs` of the current interval, after the finished ones, lead to. */
    ghost predicate Reached(finished: seq<seq<Mcu>>, bs: seq<McuBlock>)
      reads this, p
    {
      && p.Valid() && Known(c, finished) && BlocksOf(c, bs)
      && lastDc == DcAfter(c, bs, c.NoDc())
      && p.trace.before == FinishedBytes(AllFlushed(c, d, finished, p.word))
      && p.trace.sent == ItemBits(BlocksItems(c, bs, c.NoDc()), d)
      && p.putBits == BlocksPending(c, d, bs, c.NoDc(), p.word, 0)
    }

    constructor (c: ScanConfig, d: Tables, word: nat)
      requires c.Valid(|d|) && (word == 32 || word == 64)
      ensures fresh(p) && Reached([], [])
      ensures this.c == c && this.d == d && p.word == word && p.out == []
    {
      this.c := c;
      this.d := d;
      p := new MacroPacker(word);
      lastDc := c.NoDc();
    }

    /** Load up a working state. */
    constructor Load(saved: WorkingState)
      requires saved.p.Valid()
      ensures fresh(p) && c == saved.c && d == saved.d && lastDc == saved.lastDc
      ensures p.Valid() && p.word == saved.p.word && p.putBits == saved.p.putBits
      ensures p.out == saved.p.out && p.trace == saved.p.trace
    {
      c := saved.c;
      d := saved.d;
      p := new MacroPacker(saved.p.word);
      lastDc := saved.lastDc;
      new;
      hide Unpack, ToBits, Stuff;
      p.putBuffer := saved.p.putBuffer;
      p.putBits := saved.p.putBits;
      p.out := saved.p.out;
      p.trace := saved.p.trace;
    }

    /** Emit a restart marker and resynchronize the predictions. */
    method EmitRestart(num: nat, ghost f: seq<seq<Mcu>>, ghost cur: seq<Mcu>)
      requires Reached(f, Flat(cur)) && num == |f| % 8
      modifies this, p
      ensures Reached(f + [cur], [])
    {
      hide ItemBits, BlocksItems, Stuff, Pack, ToBits, Unpack, DcAfter, Flat, Known, BlocksOf, FinishedBytes,
        AllFlushed, Kept, RestartMarker, BlocksPending;
      MarkerIs(|f|);
      OneMoreInterval(c, d, f, cur, p.word);
      p.FlushBits();
      p.EmitMarker((0xD0 + num) as Byte);
      lastDc := c.NoDc();
    }

    /** Encode the blocks of one MCU, after the blocks `before` of the same interval. */
    method EncodeBlocks(mcu: Mcu, ghost finished: seq<seq<Mcu>>, ghost before: seq<McuBlock>)
      requires Reached(finished, before) && Ready(c, d, before + mcu)
      modifies this`lastDc, p
      ensures Reached(finished, before + mcu)
    {
      hide ItemBits, BlocksItems, BlockItems, DcAfter, Ready, InRange, Encodable, Decodable, BlocksPending,
        BlockPending, AllFlushed, TableAt, FinishedBytes, BlocksOf, MacroPacker.Valid, Known, ScanConfig.Valid;
      var i := 0;
      assert before + mcu[..0] == before;
      while i < |mcu|
        invariant i <= |mcu| && Reached(finished, before + mcu[..i])
      {
        var b := mcu[i];
        ghost var done := before + mcu[..i];
        assert before + mcu == done + [b] + mcu[i + 1..];
        NextBlock(c, d, done, b, mcu[i + 1..]);
        TablesExist(c, d, b.ci);
        PendingSnoc(c, d, done, b, c.NoDc(), p.word, 0);
        EncodeOneBlock(p, b.block, lastDc[b.ci], d, c.dcTbl[b.ci], c.acTbl[b.ci]);
        lastDc := lastDc[b.ci := b.block[0]];
        ItemBitsAppend(BlocksItems(c, done, c.NoDc()),
          BlockItems(b.block, DcAfter(c, done, c.NoDc())[b.ci], c.dcTbl[b.ci], c.acTbl[b.ci]), d);
        assert done + [b] == before + mcu[..i + 1];
        i := i + 1;
      }
      assert before + mcu[..i] == before + mcu;
    }

    /** Write one MCU, with a restart marker before it if one is due. */
    method WriteMcu(mcu: Mcu, due: bool, num: nat, ghost h: History<Mcu>)
      requires Reached(h.finished, Flat(h.current))
      requires due <==> c.restartInterval > 0 && |h.current| == c.restartInterval
      requires due ==> num == |h.finished| % 8
      requires Ready(c, d, Flat(Next(h, c.restartInterval, mcu).current))
      modifies this, p
      ensures var n := Next(h, c.restartInterval, mcu); Reached(n.finished, Flat(n.current))
    {
      hide Flat, Ready, Reached;
      FlatSnoc(h.current, mcu);
      FlatSnoc([], mcu);
      assert [] + [mcu] == [mcu] && [] + mcu == mcu;
      ghost var before, finished := Flat(h.current), h.finished;
      if due {
        EmitRestart(num, h.finished, h.current);
        before, finished := [], finished + [h.current];
      }
      EncodeBlocks(mcu, finished, before);
    }

    lemma ReachedIsValid(finished: seq<seq<Mcu>>, bs: seq<McuBlock>)
      requires Reached(finished, bs)
      ensures p.Valid()
    {
    }

    lemma SameReached(w: WorkingState, finished: seq<seq<Mcu>>, bs: seq<McuBlock>)
      requires w.Reached(finished, bs) && p.Valid() && c == w.c && d == w.d
      requires lastDc == w.lastDc && p.trace == w.p.trace && p.putBits == w.p.putBits && p.word == w.p.word
      ensures Reached(finished, bs)
    {
      hide ItemBits, BlocksItems, FinishedBytes, DcAfter, MacroPacker.Valid, AllFlushed, BlocksPending;
    }

    /** The bytes written are no more than those of a scan that ends here. */
    lemma WrittenSoFar(h: History<Mcu>)
      requires Reached(h.finished, Flat(h.current))
      ensures Known(c, Intervals(h)) && |p.out| <= |EmittedBytes(c, d, p.word, h)|
    {
      hide ItemBits, BlocksItems, Stuff, Pack, ToBits, Unpack, DcAfter, Flat, FinishedBytes, AllFlushed,
        BlocksPending, IntervalPending;
      LastInterval(c, d, h, p.word);
      FlushWritesMore(p.trace.written, ToBits(p.putBuffer, p.putBits), p.trace.sent, p.word - 7);
    }
  }

  /** A flush writes what is already written, and more. */
  lemma FlushWritesMore(written: seq<Byte>, pending: Bits, sent: Bits, room: nat)
    requires Unpack(written) + pending == sent
    ensures |Stuff(written)| <= |Stuff(Pack(Kept(sent, |pending|, room)))|
  {
    hide Stuff, Pack, Unpack;
    var kept := Kept(sent, |pending|, room);
    var n := |sent| - |pending|;
    assert sent[..n] == Unpack(written);
    assert kept[..n] == sent[..n];
    assert kept == kept[..n] + kept[n..];
    WrittenIsPacked(written, kept[n..], kept);
  }

  /** The output pass. */
  class HuffEncoder {
    const c: ScanConfig
    const d: Tables
    var saved: WorkingState
    var restartsToGo: nat
    var nextRestartNum: nat
    ghost var history: History<Mcu>

    ghost predicate Counting()
      reads this
    {
      if c.restartInterval == 0 then history.finished == []
      else restartsToGo + |history.current| == c.restartInterval && nextRestartNum == |history.finished| % 8
    }

    ghost predicate Valid()
      reads this, saved, saved.p
    {
      && saved.c == c && saved.d == d
      && saved.Reached(history.finished, Flat(history.current)) && Counting()
    }

    constructor (c: ScanConfig, d: Tables, word: nat)
      requires c.Valid(|d|) && (word == 32 || word == 64)
      ensures Valid() && fresh(saved) && fresh(saved.p) && history == History([], [])
      ensures this.c == c && this.d == d && saved.p.word == word && saved.p.out == []
    {
      this.c := c;
      this.d := d;
      saved := new WorkingState(c, d, word);
      restartsToGo := c.restartInterval;
      nextRestartNum := 0;
      history := History([], []);
    }

    /** Encode one MCU, with a restart marker before it if one is due.  The destination has `room` bytes
        free and then refuses: unless the MCU fits with a byte to spare, nothing changes. */
    method EncodeMcu(mcu: Mcu, room: nat) returns (ok: bool)
      requires Valid() && Ready(c, d, Flat(Next(history, c.restartInterval, mcu).current))
      modifies this
      ensures Valid() && saved.p.word == old(saved.p.word)
      ensures ok ==> fresh(saved) && fresh(saved.p)
      ensures ok ==> history == Next(old(history), c.restartInterval, mcu)
      ensures ok ==> |saved.p.out| < |old(saved.p.out)| + room
      ensures !ok ==> saved == old(saved) && history == old(history)
      ensures !ok ==> restartsToGo == old(restartsToGo) && nextRestartNum == old(nextRestartNum)
      ensures !ok ==>
        var h := Next(history, c.restartInterval, mcu);
        Known(c, Intervals(h)) && |saved.p.out| + room <= |EmittedBytes(c, d, saved.p.word, h)|
    {
      hide Flat, Ready, WorkingState.Reached, MacroPacker.Valid, Known, EmittedBytes, BlocksOf, ScanConfig.Valid,
        ItemBits, BlocksItems, BlocksPending, AllFlushed, FinishedBytes, DcAfter;
      saved.ReachedIsValid(history.finished, Flat(history.current));
      var state := new WorkingState.Load(saved);
      state.SameReached(saved, history.finished, Flat(history.current));
      state.WriteMcu(mcu, c.restartInterval != 0 && restartsToGo == 0, nextRestartNum, history);
      ghost var h := Next(history, c.restartInterval, mcu);
      state.WrittenSoFar(h);
      if |state.p.out| >= |saved.p.out| + room {
        return false;
      }
      saved := state;
      history := h;
      if c.restartInterval != 0 {
        if restartsToGo == 0 {
          restartsToGo := c.restartInterval;
          nextRestartNum := (nextRestartNum + 1) % 8;
        }
        restartsToGo := restartsToGo - 1;
      }
      ok := true;
    }

    /** Finish the scan.  The bytes are those of the scan exactly if no flush has shifted out a one. */
    method FinishPass() returns (out: seq<Byte>)
      requires Valid()
      modifies saved.p
      ensures Known(c, Intervals(history))
      ensures out == saved.p.out == EmittedBytes(c, d, saved.p.word, history)
      ensures out == ScanBytes(c, d, history) <==> AllFlushWell(c, d, Intervals(history), saved.p.word)
    {
      LastInterval(c, d, history, saved.p.word);
      EmittedIsScan(c, d, saved.p.word, history);
      hide ItemBits, BlocksItems, Stuff, Pack, ToBits, Unpack, DcAfter, Flat, Kept, FinishedBytes, AllFlushed,
        EmittedBytes, ScanBytes, AllFlushWell, BlocksPending;
      saved.p.FlushBits();
      out := saved.p.out;
    }
  }

  lemma TablesExist(c: ScanConfig, d: Tables, ci: nat)
    requires c.Valid(|d|) && ci < |c.dcTbl|
    ensures |c.acTbl| == |c.dcTbl| && c.dcTbl[ci] < |d| && c.acTbl[ci] < |d|
    ensures TableAt(d, c.dcTbl[ci]) == d[c.dcTbl[ci]] && TableAt(d, c.acTbl[ci]) == d[c.acTbl[ci]]
  {
  }

  lemma MarkerIs(num: nat)
    ensures RestartMarker(num) == [255, (0xD0 + num % 8) as Byte]
  {
  }

  /** Finishing an interval appends what its flush writes, and a restart marker. */
  lemma OneMoreInterval(c: ScanConfig, d: Tables, f: seq<seq<Mcu>>, cur: seq<Mcu>, word: nat)
    requires Known(c, f) && BlocksOf(c, Flat(cur)) && word >= 7
    ensures Known(c, f + [cur]) && BlocksOf(c, [])
    ensures FinishedBytes(AllFlushed(c, d, f + [cur], word))
         == FinishedBytes(AllFlushed(c, d, f, word)) + Stuff(Pack(Flushed(c, d, cur, word))) + RestartMarker(|f|)
    ensures DcAfter(c, [], c.NoDc()) == c.NoDc() && BlocksPending(c, d, [], c.NoDc(), word, 0) == 0
    ensures BlocksItems(c, [], c.NoDc()) == [] && ItemBits([], d) == []
  {
    hide FlushedBits, FinishedBytes, Flat, Stuff, Pack;
    assert AllFlushed(c, d, f + [cur], word) == AllFlushed(c, d, f, word) + [FlushedBits(c, d, cur, word)];
    FinishedSnoc(AllFlushed(c, d, f, word), FlushedBits(c, d, cur, word));
  }

  /** The last interval is not followed by a marker. */
  lemma LastInterval(c: ScanConfig, d: Tables, h: History<Mcu>, word: nat)
    requires Known(c, h.finished) && BlocksOf(c, Flat(h.current)) && word >= 7
    ensures Known(c, Intervals(h))
    ensures EmittedBytes(c, d, word, h)
         == FinishedBytes(AllFlushed(c, d, h.finished, word)) + Stuff(Pack(Flushed(c, d, h.current, word)))
  {
    hide FlushedBits, FinishedBytes, Flat, Stuff, Pack;
    var all := AllFlushed(c, d, Intervals(h), word);
    assert all[..|all| - 1] == AllFlushed(c, d, h.finished, word);
  }

  /** The bits that a flush writes, spelled out. */
  function Flushed(c: ScanConfig, d: Tables, cur: seq<Mcu>, word: nat): (r: Bits)
    requires BlocksOf(c, Flat(cur)) && |c.acTbl| == |c.dcTbl| && word >= 7
    ensures r == Kept(ItemBits(BlocksItems(c, Flat(cur), c.NoDc()), d),
                   BlocksPending(c, d, Flat(cur), c.NoDc(), word, 0), word - 7)
  {
    FlushedBits(c, d, cur, word)
  }

  /** What the encoder asks of a scan: each interval, as far as it has got, is ready. */
  ghost predicate ScanReady(c: ScanConfig, d: Tables, mcus: seq<Mcu>) {
    forall n :: 0 < n <= |mcus| ==> Ready(c, d, Flat(HistoryOf(c.restartInterval, mcus[..n]).current))
  }

  lemma {:induction false} ScanReadyIsAllReady(c: ScanConfig, d: Tables, mcus: seq<Mcu>)
    requires ScanReady(c, d, mcus) && mcus != []
    ensures AllReady(c, d, Intervals(HistoryOf(c.restartInterval, mcus)))
  {
    hide Ready, Flat;
    assert mcus[..|mcus|] == mcus;
    if |mcus| > 1 {
      var m := mcus[..|mcus| - 1];
      forall n | 0 < n <= |m| ensures Ready(c, d, Flat(HistoryOf(c.restartInterval, m[..n]).current)) {
        assert m[..n] == mcus[..n];
      }
      ScanReadyIsAllReady(c, d, m);
      var g := Intervals(HistoryOf(c.restartInterval, m));
      forall i | 0 <= i < |Intervals(HistoryOf(c.restartInterval, mcus))|
        ensures Ready(c, d, Flat(Intervals(HistoryOf(c.restartInterval, mcus))[i]))
      {
        assert i < |g| ==> Ready(c, d, Flat(g[i]));
      }
    } else {
      assert mcus[..0] == [];
    }
  }

  /** Bytes enough for any part of the scan. */
  ghost predicate Ample(c: ScanConfig, d: Tables, word: nat, mcus: seq<Mcu>, room: nat)
    requires word >= 7
  {
    forall n :: 0 < n <= |mcus| && Known(c, Intervals(HistoryOf(c.restartInterval, mcus[..n]))) ==>
      |EmittedBytes(c, d, word, HistoryOf(c.restartInterval, mcus[..n]))| < room
  }

  ghost function AmpleOffers(c: ScanConfig, d: Tables, word: nat, mcus: seq<Mcu>, offers: seq<nat>): nat
    requires word >= 7
  {
    if offers == [] then 0
    else
      var n := |offers| - 1;
      AmpleOffers(c, d, word, mcus, offers[..n]) + if Ample(c, d, word, mcus, offers[n]) then 1 else 0
  }

  lemma NoOffers(c: ScanConfig, d: Tables, word: nat, mcus: seq<Mcu>, offers: seq<nat>)
    requires word >= 7
    ensures AmpleOffers(c, d, word, mcus, offers[..0]) == 0
  {
  }

  lemma NextOffer(c: ScanConfig, d: Tables, word: nat, mcus: seq<Mcu>, offers: seq<nat>, k: nat)
    requires k < |offers| && word >= 7
    ensures AmpleOffers(c, d, word, mcus, offers[..k + 1])
         == AmpleOffers(c, d, word, mcus, offers[..k]) + if Ample(c, d, word, mcus, offers[k]) then 1 else 0
  {
    assert offers[..k + 1][..k] == offers[..k];
  }

  /** Encode a whole scan, offering each MCU until the destination takes it; at the k-th attempt there is
      room for `offers[k]` bytes.  Whatever was refused in between, the bytes depend only on the scan.  They
      are those of the scan exactly if no flush shifts out a one, and then a decoder recovers its blocks.
      As many ample offers as there are MCUs are enough. */
  method EncodeScan(c: ScanConfig, d: Tables, word: nat, mcus: seq<Mcu>, offers: seq<nat>)
    returns (out: Option<seq<Byte>>)
    requires c.Valid(|d|) && (word == 32 || word == 64) && mcus != [] && ScanReady(c, d, mcus)
    ensures Known(c, Intervals(HistoryOf(c.restartInterval, mcus)))
    ensures out.Some? ==>
      var h := HistoryOf(c.restartInterval, mcus);
      && out.value == EmittedBytes(c, d, word, h)
      && (out.value == ScanBytes(c, d, h) <==> AllFlushWell(c, d, Intervals(h), word))
    ensures out.Some? && AllFlushWell(c, d, Intervals(HistoryOf(c.restartInterval, mcus)), word) ==>
      forall tail | AtMarker(tail) :: DecodeScan(c, d, Shapes(mcus), out.value + tail) == Some(Flat(mcus))
    ensures out.None? ==> AmpleOffers(c, d, word, mcus, offers) < |mcus|
  {
    hide Ready, DecodeScan, Shapes, Flat, ScanBytes, HuffEncoder.Valid, ScanConfig.Valid, AmpleOffers, Known,
      EmittedBytes, AllFlushWell;
    ScanReadyIsAllReady(c, d, mcus);
    ReadyIsKnown(c, d, Intervals(HistoryOf(c.restartInterval, mcus)));
    var e := new HuffEncoder(c, d, word);
    var i, k := 0, 0;
    NoOffers(c, d, word, mcus, offers);
    while i < |mcus| && k < |offers|
      invariant i <= |mcus| && k <= |offers| && fresh(e) && fresh(e.saved) && fresh(e.saved.p)
      invariant e.Valid() && e.c == c && e.d == d && e.saved.p.word == word
      invariant e.history == HistoryOf(c.restartInterval, mcus[..i])
      invariant AmpleOffers(c, d, word, mcus, offers[..k]) <= i
    {
      assert mcus[..i + 1][..i] == mcus[..i];
      NextOffer(c, d, word, mcus, offers, k);
      var ok := e.EncodeMcu(mcus[i], offers[k]);
      assert !ok ==> !Ample(c, d, word, mcus, offers[k]) by {
        assert Next(HistoryOf(c.restartInterval, mcus[..i]), c.restartInterval, mcus[i])
            == HistoryOf(c.restartInterval, mcus[..i + 1]);
      }
      if ok {
        i := i + 1;
      }
      k := k + 1;
    }
    if i < |mcus| {
      assert offers[..k] == offers;
      return None;
    }
    assert mcus[..i] == mcus;
    var bytes := e.FinishPass();
    out := Some(bytes);
    forall tail | AtMarker(tail)
      ensures bytes == ScanBytes(c, d, HistoryOf(c.restartInterval, mcus)) ==>
                DecodeScan(c, d, Shapes(mcus), bytes + tail) == Some(Flat(mcus))
    {
      ScanRoundTrip(c, d, mcus, tail);
    }
  }
}
