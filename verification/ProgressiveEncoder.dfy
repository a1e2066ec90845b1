/** The AC scans of the progressive Huffman encoder (jcphuff.c): the first pass over a block's band, its
    refinement, and end-of-band runs with their buffered correction bits. */
module ProgressiveEncoder {
  import opened Shifts
  import opened BitStrings
  import opened ByteStreams
  import opened ProgressivePacking
  import opened WordArithmetic
  import opened EntropyItems
  import opened Coefficients
  import opened SequentialStatistics
  import opened RestartIntervals
  import opened EobRuns
  import opened RefineBlock
  import opened FirstBlock
  import opened AcIntervals
  import opened ProgressiveEmitter
  import opened ArithTable

  /** Buffered correction bits as items. */
  function BitItems(s: seq<Bit>): (r: Items)
    ensures |r| == |s|
  {
    seq(|s|, i requires 0 <= i < |s| => Extra(s[i], 1))
  }

  lemma OneBit(x: Bit)
    ensures (x as nat) < Pow2(1)
  {
    Pow2Small();
  }

  /** Appending bits to the pending ones. */
  lemma BitItemsAppend(s: seq<Bit>, t: seq<Bit>)
    ensures BitItems(s + t) == BitItems(s) + BitItems(t)
  {
  }

  /** How far the encoder has got within a block: where something was last written, and what. */
  datatype Progress = Progress(k0: nat, head: Items)

  /** More than fifteen zeros can be pending only if no correction bit came after the sixteenth. */
  ghost predicate Late(z: Block, k0: nat, k: nat, al: nat)
    requires k <= 64
  {
    forall j :: k0 <= j < k && Mag(z[j], al) > 1 ==> Zeros0(z, k0, j, al) <= 15
  }

  /** What is known of the coefficients passed over since something was last written. */
  ghost predicate Passed(z: Block, b: Band, ac: nat, k: nat, r: nat, bits: Items, last: nat, g: Progress)
  {
    && b.Valid() && k <= b.se + 1
    && b.ss <= g.k0 <= k && last <= b.se
    && (forall j :: g.k0 <= j < k ==> Mag(z[j], b.al) != 1)
    && r == Zeros0(z, g.k0, k, b.al) && bits == Corrections(z, g.k0, k, b.al)
    && (k <= last ==> Late(z, g.k0, k, b.al))
    && (k > last ==> g.k0 == if last == 0 then b.ss else last + 1)
    && g.head + HeadItems(z, g.k0, g.k0, last, b.al, ac) == HeadItems(z, b.ss, b.ss, last, b.al, ac)
  }

  /** As long as fewer than sixteen zeros are passed, nothing is due. */
  lemma {:induction false} NothingDue(z: Block, k0: nat, k: nat, last: nat, al: nat, ac: nat)
    requires k0 <= k <= last < 64 && Zeros0(z, k0, k, al) <= 15
    requires forall j :: k0 <= j < k ==> Mag(z[j], al) != 1
    ensures HeadItems(z, k0, k0, last, al, ac) == HeadItems(z, k0, k, last, al, ac)
    decreases k - k0
  {
    hide Mag, Corrections, Zeros0;
    if k > k0 {
      CorrectionsSnoc(z, k0, k - 1, al);
      NothingDue(z, k0, k - 1, last, al, ac);
    }
  }

  /** The sixteenth zero, after which only zeros were passed. */
  lemma {:induction false} SixteenthZero(z: Block, k0: nat, k: nat, al: nat) returns (p: nat)
    requires k0 <= k < 64 && Zeros0(z, k0, k, al) > 15 && Late(z, k0, k, al)
    requires forall j :: k0 <= j < k ==> Mag(z[j], al) != 1
    ensures k0 <= p < k && Mag(z[p], al) == 0 && Zeros0(z, k0, p, al) == 15
    ensures Zeros0(z, p + 1, k, al) == Zeros0(z, k0, k, al) - 16
    ensures Corrections(z, k0, p, al) == Corrections(z, k0, k, al) && Corrections(z, p + 1, k, al) == []
    ensures forall j :: p < j < k ==> Mag(z[j], al) == 0
    decreases k - k0
  {
    hide Mag, Corrections, Zeros0;
    if k == k0 {
      NoZeros(z, k0, al);
    } else {
      CorrectionsSnoc(z, k0, k - 1, al);
      if Zeros0(z, k0, k - 1, al) == 15 {
        p := k - 1;
        NoZeros(z, k, al);
        NoCorrections(z, k, al);
      } else {
        p := SixteenthZero(z, k0, k - 1, al);
        CorrectionsSnoc(z, p + 1, k - 1, al);
      }
    }
  }

  lemma NoCorrections(z: Block, k: nat, al: nat)
    requires k <= 64
    ensures Corrections(z, k, k, al) == []
  {
  }

  /** The start of a block. */
  lemma NothingPassed(z: Block, b: Band, ac: nat)
    requires b.Valid()
    ensures Passed(z, b, ac, b.ss, 0, [], LastNew(z, b.ss, b.se + 1, b.al), Progress(b.ss, []))
  {
    hide Mag, HeadItems;
    NoZeros(z, b.ss, b.al);
    NoCorrections(z, b.ss, b.al);
    var head := HeadItems(z, b.ss, b.ss, LastNew(z, b.ss, b.se + 1, b.al), b.al, ac);
    assert [] + head == head;
  }

  /** Passing over a coefficient that stays zero, or was nonzero already. */
  lemma PassOne(z: Block, b: Band, ac: nat, k: nat, r: nat, bits: Items, last: nat, g: Progress)
    requires Passed(z, b, ac, k, r, bits, last, g) && k <= b.se && Mag(z[k], b.al) != 1
    requires last == LastNew(z, b.ss, b.se + 1, b.al)
    requires Mag(z[k], b.al) > 1 && k <= last ==> r <= 15
    ensures Passed(z, b, ac, k + 1, if Mag(z[k], b.al) == 0 then r + 1 else r,
              if Mag(z[k], b.al) == 0 then bits else bits + [Extra(Mag(z[k], b.al) % 2, 1)], last, g)
  {
    hide Mag, HeadItems, Corrections, Zeros0;
    CorrectionsSnoc(z, g.k0, k, b.al);
  }

  /** A run of sixteen zeros is written. */
  lemma PassZeroRun(z: Block, b: Band, ac: nat, k: nat, r: nat, bits: Items, last: nat, g: Progress) returns (h: Progress)
    requires Passed(z, b, ac, k, r, bits, last, g) && k <= last && r > 15
    ensures h.head == g.head + ([Symbol(ac, 0xF0)] + bits)
    ensures Passed(z, b, ac, k, r - 16, [], last, h)
  {
    hide Mag, Corrections, Zeros0;
    var p := SixteenthZero(z, g.k0, k, b.al);
    NothingDue(z, g.k0, p, last, b.al, ac);
    h := Progress(p + 1, g.head + ([Symbol(ac, 0xF0)] + bits));
    var more := HeadItems(z, p + 1, p + 1, last, b.al, ac);
    assert g.head + ([Symbol(ac, 0xF0)] + (bits + more)) == h.head + more;
  }

  /** A coefficient that becomes nonzero is written. */
  lemma PassNew(z: Block, b: Band, ac: nat, k: nat, r: nat, bits: Items, last: nat, g: Progress) returns (h: Progress)
    requires Passed(z, b, ac, k, r, bits, last, g) && k <= b.se && Mag(z[k], b.al) == 1 && r <= 15
    requires last == LastNew(z, b.ss, b.se + 1, b.al)
    ensures h.head == g.head + ([Symbol(ac, 16 * r + 1), Sign(z[k])] + bits)
    ensures Passed(z, b, ac, k + 1, 0, [], last, h)
  {
    hide Mag, Corrections, Zeros0;
    NothingDue(z, g.k0, k, last, b.al, ac);
    h := Progress(k + 1, g.head + ([Symbol(ac, 16 * r + 1), Sign(z[k])] + bits));
    var more := HeadItems(z, k + 1, k + 1, last, b.al, ac);
    NoZeros(z, k + 1, b.al);
    NoCorrections(z, k + 1, b.al);
    assert g.head + ([Symbol(ac, 16 * r + 1), Sign(z[k])] + (bits + more)) == h.head + more;
  }

  /** The end of a block: everything due has been written, and the rest is the block's tail. */
  lemma AllPassed(z: Block, b: Band, ac: nat, r: nat, bits: Items, g: Progress)
    requires b.Valid()
    requires Passed(z, b, ac, b.se + 1, r, bits, LastNew(z, b.ss, b.se + 1, b.al), g)
    ensures RefinePart(z, b, ac) == Part(g.head, bits, r > 0 || bits != [])
    ensures g.head == HeadItems(z, b.ss, b.ss, LastNew(z, b.ss, b.se + 1, b.al), b.al, ac)
  {
    hide Mag, Corrections, Zeros0, LastNew;
    var last := LastNew(z, b.ss, b.se + 1, b.al);
    assert g.k0 == TailStart(z, b);
    HeadBeyond(z, g.k0, last, b.al, ac);
    ZerosAndBits(z, g.k0, b.se + 1, b.al);
  }

  lemma HeadBeyond(z: Block, k: nat, last: nat, al: nat, ac: nat)
    requires last < 64 && k > last
    ensures HeadItems(z, k, k, last, al, ac) == []
  {
  }

  lemma {:induction false} ZerosAndBits(z: Block, i: nat, j: nat, al: nat)
    requires j <= 64 && forall k :: i <= k < j ==> Mag(z[k], al) != 1
    ensures Zeros0(z, i, j, al) + |Corrections(z, i, j, al)| == if i < j then j - i else 0
    decreases j - i
  {
    hide Mag;
    if i < j {
      ZerosAndBits(z, i + 1, j, al);
    }
  }

  /** The items of the intervals whose blocks contributed the given parts. */
  function AllRunItems(f: seq<seq<Part>>, ac: nat): (r: seq<Items>)
    ensures |r| == |f|
  {
    seq(|f|, i requires 0 <= i < |f| => RunItems(f[i], ac))
  }

  /** The state of an AC scan. */
  class AcEncoder {
    const e: Emitter
    const band: Band
    const restartInterval: nat
    const bitBuffer: array<Bit>
    var eobRun: nat
    var be: nat
    var restartsToGo: nat
    var nextRestartNum: nat
    ghost var history: History<Part>

    function Repr(): set<object> {
      {this, e, e.packer, e.stats, e.stats.counts, bitBuffer}
    }

    /** The emitter works, and the pending run fits the counter and the buffer. */
    ghost predicate Sound()
      reads Repr()
    {
      && e.Valid() && bitBuffer.Length == MAX_CORR_BITS && band.Valid()
      && eobRun <= MAX_EOBRUN && be <= MAX_CORR_BITS && (eobRun == 0 ==> be == 0)
    }

    function PendingRun(): Run
      requires be <= bitBuffer.Length
      reads this, bitBuffer
    {
      Run(eobRun, BitItems(bitBuffer[..be]))
    }

    ghost predicate Counting()
      reads this
    {
      if restartInterval == 0 then history.finished == []
      else restartsToGo + |history.current| == restartInterval && nextRestartNum == |history.finished| % 8
    }

    /** The state between two blocks: what was written and what is pending is what the blocks call for. */
    ghost predicate Valid()
      reads Repr()
    {
      && Encoded(history.current) && Counting()
      && e.finished == AllRunItems(history.finished, e.table)
    }

    constructor (gatherStatistics: bool, d: Tables, table: nat, band: Band, restartInterval: nat)
      requires NUM_HUFF_TBLS <= table < 2 * NUM_HUFF_TBLS && band.Valid()
      requires gatherStatistics || (table < |d| && Decodable(d))
      ensures Valid() && fresh(Repr()) && history == History([], [])
      ensures e.gatherStatistics == gatherStatistics && e.d == d && e.table == table
      ensures this.band == band && this.restartInterval == restartInterval
    {
      e := new Emitter(gatherStatistics, d, table);
      this.band := band;
      this.restartInterval := restartInterval;
      bitBuffer := new Bit[MAX_CORR_BITS];
      eobRun := 0;
      be := 0;
      restartsToGo := restartInterval;
      nextRestartNum := 0;
      history := History([], []);
      new;
      hide Emitter.Valid, Valid;
      FreshEncoder();
    }

    lemma FreshEncoder()
      requires e.Valid() && e.log == [] && e.finished == [] && band.Valid()
      requires bitBuffer.Length == MAX_CORR_BITS && eobRun == 0 && be == 0
      requires restartsToGo == restartInterval && nextRestartNum == 0 && history == History([], [])
      ensures Valid()
    {
      hide Emitter.Valid, Fold;
      FoldNothing(e.table);
      assert bitBuffer[..0] == [];
    }

    /** Emit bits from the correction bit buffer. */
    method EmitBufferedBits(start: nat, nbits: nat)
      requires e.Valid() && start + nbits <= bitBuffer.Length
      modifies e`failed, e`log, e.packer, e.stats, e.stats.counts
      ensures e.Valid() && e.log == old(e.log) + BitItems(bitBuffer[start..start + nbits])
    {
      hide Emitter.Valid, ToBits, Pow2;
      var i := 0;
      while i < nbits
        invariant i <= nbits && e.Valid() && e.log == old(e.log) + BitItems(bitBuffer[start..start + i])
      {
        var bit := bitBuffer[start + i];
        OneBit(bit);
        e.EmitBits(bit, 1, bit);
        i := i + 1;
      }
    }

    /** Emit the symbol of the pending run.  Its category is always at most 14. */
    method EmitRunSymbol()
      requires Sound() && eobRun > 0
      modifies e`failed, e`log, e.packer, e.stats, e.stats.counts
      ensures e.Valid() && e.log == old(e.log) + EobItems(eobRun, e.table)
    {
      hide Emitter.Valid, ToBits, Pow2, NBits;
      var nbits := CountRunBits(eobRun);
      RunCategory(eobRun);
      assert nbits <= 14;
      e.EmitSymbol(16 * nbits);
      if nbits > 0 {
        LowBits(eobRun);
        e.EmitBits(eobRun, nbits, eobRun - Pow2(nbits));
      }
    }

    /** Emit any pending run and its correction bits. */
    method EmitEobRun()
      requires Sound()
      modifies this`eobRun, this`be, e`failed, e`log, e.packer, e.stats, e.stats.counts
      ensures Sound() && eobRun == 0 && be == 0
      ensures e.log == old(e.log) + Pending(old(PendingRun()), e.table)
    {
      hide Emitter.Valid, EobItems;
      if eobRun > 0 {
        EmitRunSymbol();
        eobRun := 0;
        EmitBufferedBits(0, be);
        assert bitBuffer[0..be] == bitBuffer[..be];
        be := 0;
      }
    }

    /** Within a block, before coefficient k: r zeros and br correction bits have been passed since something
        was last written; before the block, `log0` was written and `run0` pending. */
    ghost predicate InBlock(z: Block, k: nat, r: nat, br: nat, last: nat, g: Progress, log0: Items, run0: Run)
      reads Repr()
    {
      && Sound() && band.ss <= k && be + br <= MAX_CORR_BITS - 64 + 1 + (k - band.ss) && k <= band.se + 1
      && Passed(z, band, e.table, k, r, BitItems(bitBuffer[be..be + br]), last, g)
      && if g.head == [] then e.log == log0 && PendingRun() == run0
         else e.log == log0 + Pending(run0, e.table) + g.head && eobRun == 0
    }

    /** Write the pending run, a symbol with its sign bit if it has one, and the last br correction bits. */
    method WriteHead(s: nat, sign: seq<Bit>, br: nat)
      requires Sound() && s < 256 && s % 16 <= MAX_COEF_BITS && |sign| <= 1 && be + br <= MAX_CORR_BITS
      modifies this`eobRun, this`be, e`failed, e`log, e.packer, e.stats, e.stats.counts
      ensures Sound() && eobRun == 0 && be == 0
      ensures e.log == old(e.log) + Pending(old(PendingRun()), e.table)
                       + ([Symbol(e.table, s)] + BitItems(sign) + BitItems(old(bitBuffer[be..be + br])))
    {
      hide Emitter.Valid, ToBits, Pow2, Pending;
      var brBuffer := be;
      EmitEobRun();
      ghost var log := e.log;
      e.EmitSymbol(s);
      if |sign| == 1 {
        OneBit(sign[0]);
        e.EmitBits(sign[0], 1, sign[0]);
      }
      EmitBufferedBits(brBuffer, br);
      assert e.log == log + ([Symbol(e.table, s)] + BitItems(sign) + BitItems(bitBuffer[brBuffer..brBuffer + br]));
    }

    /** Runs of sixteen zeros that cannot be folded into the end of the band. */
    method WriteZeroRuns(k: nat, r0: nat, br0: nat, last: nat, ghost z: Block, ghost g0: Progress,
                         ghost log0: Items, ghost run0: Run)
      returns (r: nat, br: nat, ghost g: Progress)
      requires InBlock(z, k, r0, br0, last, g0, log0, run0)
      modifies this`eobRun, this`be, e`failed, e`log, e.packer, e.stats, e.stats.counts
      ensures InBlock(z, k, r, br, last, g, log0, run0) && !(r > 15 && k <= last)
    {
      hide Emitter.Valid, Passed, Pending;
      r, br, g := r0, br0, g0;
      while r > 15 && k <= last
        invariant r >= 0 && br >= 0 && InBlock(z, k, r, br, last, g, log0, run0)
      {
        ghost var bits := BitItems(bitBuffer[be..be + br]);
        ghost var h := PassZeroRun(z, band, e.table, k, r, bits, last, g);
        ghost var log, run := e.log, PendingRun();
        WriteHead(0xF0, [], br);
        Written(log0, run0, log, run, g.head, [Symbol(e.table, 0xF0)] + BitItems([]) + bits, e.table);
        assert [Symbol(e.table, 0xF0)] + BitItems([]) + bits == [Symbol(e.table, 0xF0)] + bits;
        r, br, g := r - 16, 0, h;
        assert BitItems(bitBuffer[be..be + br]) == [];
      }
    }

    /** A coefficient that is already known to be nonzero: buffer the bit that makes its magnitude more precise. */
    method BufferCorrection(temp: nat, k: nat, r: nat, br0: nat, last: nat,
                            ghost z: Block, ghost g: Progress, ghost log0: Items, ghost run0: Run)
      returns (br: nat)
      requires InBlock(z, k, r, br0, last, g, log0, run0) && k <= band.se && (k <= last ==> r <= 15)
      requires temp == Mag(z[k], band.al) > 1 && last == LastNew(z, band.ss, band.se + 1, band.al)
      modifies bitBuffer
      ensures InBlock(z, k + 1, r, br, last, g, log0, run0)
    {
      hide Emitter.Valid, Passed, Pending, LastNew, Mag;
      ghost var buffered, pending := bitBuffer[be..be + br0], bitBuffer[..be];
      PassOne(z, band, e.table, k, r, BitItems(buffered), last, g);
      bitBuffer[be + br0] := temp % 2;
      br := br0 + 1;
      assert bitBuffer[be..be + br] == buffered + [temp % 2] && bitBuffer[..be] == pending;
      BitItemsAppend(buffered, [temp % 2]);
      assert BitItems([temp % 2]) == [Extra(temp % 2, 1)];
    }

    /** A coefficient that becomes nonzero: its run of zeros, its sign, and the buffered correction bits. */
    method WriteNew(negative: bool, k: nat, r: nat, br: nat, last: nat,
                    ghost z: Block, ghost g: Progress, ghost log0: Items, ghost run0: Run)
      returns (ghost h: Progress)
      requires InBlock(z, k, r, br, last, g, log0, run0) && k <= band.se && r <= 15
      requires Mag(z[k], band.al) == 1 && negative == (z[k] < 0) && last == LastNew(z, band.ss, band.se + 1, band.al)
      modifies this`eobRun, this`be, e`failed, e`log, e.packer, e.stats, e.stats.counts
      ensures InBlock(z, k + 1, 0, 0, last, h, log0, run0)
    {
      hide Emitter.Valid, Passed, Pending, LastNew, Mag;
      ghost var bits := BitItems(bitBuffer[be..be + br]);
      h := PassNew(z, band, e.table, k, r, bits, last, g);
      ghost var log, run := e.log, PendingRun();
      var sign := if negative then 0 else 1;
      WriteHead(16 * r + 1, [sign], br);
      ghost var more := [Symbol(e.table, 16 * r + 1)] + BitItems([sign]) + bits;
      Written(log0, run0, log, run, g.head, more, e.table);
      assert more == [Symbol(e.table, 16 * r + 1), Sign(z[k])] + bits;
      assert BitItems(bitBuffer[be..be + 0]) == [];
    }

    /** One coefficient of the band, with the given magnitude. */
    method RefineCoefficient(temp: nat, negative: bool, k: nat, r0: nat, br0: nat, last: nat,
                             ghost z: Block, ghost g0: Progress, ghost log0: Items, ghost run0: Run)
      returns (r: nat, br: nat, ghost g: Progress)
      requires InBlock(z, k, r0, br0, last, g0, log0, run0) && k <= band.se
      requires temp == Mag(z[k], band.al) && negative == (z[k] < 0) && last == LastNew(z, band.ss, band.se + 1, band.al)
      modifies this`eobRun, this`be, e`failed, e`log, e.packer, e.stats, e.stats.counts, bitBuffer
      ensures InBlock(z, k + 1, r, br, last, g, log0, run0)
    {
      hide Emitter.Valid, Passed, Pending, LastNew, Mag;
      if temp == 0 {
        PassOne(z, band, e.table, k, r0, BitItems(bitBuffer[be..be + br0]), last, g0);
        return r0 + 1, br0, g0;
      }
      r, br, g := WriteZeroRuns(k, r0, br0, last, z, g0, log0, run0);
      if temp > 1 {
        br := BufferCorrection(temp, k, r, br, last, z, g, log0, run0);
      } else {
        NewIsNotBeyond(z, band, k);
        g := WriteNew(negative, k, r, br, last, z, g, log0, run0);
        r, br := 0, 0;
      }
    }

    /** The pre-pass: magnitudes after the point transform, and the last one that is newly nonzero. */
    method Prepare(block: Block) returns (absvalues: array<nat>, last: nat)
      requires band.Valid()
      ensures fresh(absvalues) && absvalues.Length == 64
      ensures forall k :: band.ss <= k <= band.se ==> absvalues[k] == Mag(Zigzag(block)[k], band.al)
      ensures last == LastNew(Zigzag(block), band.ss, band.se + 1, band.al)
    {
      hide Zigzag, NaturalOrder;
      absvalues := new nat[64];
      last := 0;
      var k := band.ss;
      while k <= band.se
        invariant band.ss <= k <= band.se + 1
        invariant forall j :: band.ss <= j < k ==> absvalues[j] == Mag(Zigzag(block)[j], band.al)
        invariant last == LastNew(Zigzag(block), band.ss, k, band.al)
      {
        ZigzagAt(block, k);
        var temp := block[NaturalOrder(k)];
        if temp < 0 {
          temp := -temp;
        }
        temp := Shr(temp, band.al);
        absvalues[k] := temp;
        if temp == 1 {
          last := k;
        }
        k := k + 1;
      }
    }

    /** The main pass over the band. */
    method RefineBand(block: Block, ghost z: Block) returns (r: nat, br: nat, ghost g: Progress)
      requires Sound() && Bounded(PendingRun()) && z == Zigzag(block)
      modifies this`eobRun, this`be, e`failed, e`log, e.packer, e.stats, e.stats.counts, bitBuffer
      ensures InBlock(z, band.se + 1, r, br, LastNew(z, band.ss, band.se + 1, band.al), g,
                old(e.log), old(PendingRun()))
    {
      hide Emitter.Valid, Passed, Pending, LastNew, Mag, Zigzag, NaturalOrder;
      ghost var log0, run0 := e.log, PendingRun();
      var absvalues, last := Prepare(block);
      NothingPassed(z, band, e.table);
      r, br, g := 0, 0, Progress(band.ss, []);
      assert BitItems(bitBuffer[be..be + br]) == [];
      var k := band.ss;
      while k <= band.se
        invariant band.ss <= k <= band.se + 1 && InBlock(z, k, r, br, last, g, log0, run0)
        invariant forall j :: band.ss <= j <= band.se ==> absvalues[j] == Mag(z[j], band.al)
      {
        ZigzagAt(block, k);
        r, br, g := RefineCoefficient(absvalues[k], block[NaturalOrder(k)] < 0, k, r, br, last, z, g, log0, run0);
        k := k + 1;
      }
    }

    /** The end of a refined block: if anything is left, the band ends early. */
    method FinishBlock(r: nat, br: nat, ghost z: Block, ghost g: Progress, ghost log0: Items, ghost run0: Run)
      requires band.Valid() && Bounded(run0)
      requires InBlock(z, band.se + 1, r, br, LastNew(z, band.ss, band.se + 1, band.al), g, log0, run0)
      modifies this`eobRun, this`be, e`failed, e`log, e.packer, e.stats, e.stats.counts
      ensures Sound() && Coded(e.log, PendingRun()) == Step(Coded(log0, run0), RefinePart(z, band, e.table), e.table)
    {
      hide Emitter.Valid, Passed, Pending, LastNew, RefinePart;
      ghost var bits, pending := bitBuffer[be..be + br], bitBuffer[..be];
      AllPassed(z, band, e.table, r, BitItems(bits), g);
      if r > 0 || br > 0 {
        assert bitBuffer[..be + br] == pending + bits;
        BitItemsAppend(pending, bits);
        eobRun := eobRun + 1;
        be := be + br;
        assert PendingRun() == Absorb(run0, RefinePart(z, band, e.table));
        if eobRun == MAX_EOBRUN || be > MAX_CORR_BITS - 64 + 1 {
          EmitEobRun();
          assert BitItems(bitBuffer[..be]) == [];
        }
      }
    }

    /** Emit a restart marker and resynchronize: the pending run ends here. */
    method EmitRestart(num: nat)
      requires Valid() && num == |history.finished| % 8
      modifies this`eobRun, this`be, e`failed, e`log, e`finished, e.packer, e.stats, e.stats.counts
      ensures Sound() && e.log == [] && PendingRun() == NO_RUN
      ensures e.finished == AllRunItems(history.finished + [history.current], e.table)
    {
      hide Emitter.Valid, Pending, Fold;
      EmitEobRun();
      e.NextInterval(num);
      eobRun := 0;
      be := 0;
      assert BitItems(bitBuffer[..be]) == [];
      assert e.finished == AllRunItems(history.finished + [history.current], e.table);
    }

    /** What was written and what is pending is what the given parts of the current interval call for. */
    ghost predicate Encoded(current: seq<Part>)
      reads Repr()
    {
      && Sound() && (forall p <- current :: Plausible(p))
      && Fold(current, e.table) == Coded(e.log, PendingRun())
    }

    /** Refine the band of one block. */
    method RefineBlockBand(block: Block, ghost current: seq<Part>)
      requires Encoded(current) && !band.first
      modifies this`eobRun, this`be, e`failed, e`log, e.packer, e.stats, e.stats.counts, bitBuffer
      ensures Encoded(current + [BandPart(Zigzag(block), band, e.table)])
    {
      hide Emitter.Valid, Pending, RefinePart, Zigzag, Step, InBlock;
      ghost var z := Zigzag(block);
      RunStaysBounded(current, e.table);
      PartShape(z, band, e.table);
      ghost var log0, run0 := e.log, PendingRun();
      var r, br, g := RefineBand(block, z);
      FinishBlock(r, br, z, g, log0, run0);
      assert (current + [RefinePart(z, band, e.table)])[..|current|] == current;
    }

    /** Within a block of a first scan, before coefficient k: r zeros have been passed since something was last
        written, and `head` is what was written for the block. */
    ghost predicate InFirst(z: Block, k: nat, r: nat, head: Items, log0: Items, run0: Run)
      reads Repr()
    {
      && Sound() && band.ss <= k <= band.se + 1
      && head + FirstItems(z, k, r, band, e.table) == FirstItems(z, band.ss, 0, band, e.table)
      && TrailingZeros(z, k, r, band) == TrailingZeros(z, band.ss, 0, band)
      && if head == [] then e.log == log0 && PendingRun() == run0
         else e.log == log0 + Pending(run0, e.table) + head && eobRun == 0
    }

    /** The same, once the pending run has been written. */
    ghost predicate Begun(z: Block, k: nat, r: nat, head: Items, log0: Items, run0: Run)
      reads Repr()
    {
      && Sound() && band.ss <= k <= band.se + 1
      && head + FirstItems(z, k, r, band, e.table) == FirstItems(z, band.ss, 0, band, e.table)
      && TrailingZeros(z, k, r, band) == TrailingZeros(z, band.ss, 0, band)
      && e.log == log0 + Pending(run0, e.table) + head && eobRun == 0
    }

    /** Emit any pending run. */
    method BeginFirst(ghost z: Block, ghost k: nat, ghost r: nat, ghost head: Items, ghost log0: Items, ghost run0: Run)
      requires InFirst(z, k, r, head, log0, run0)
      modifies this`eobRun, this`be, e`failed, e`log, e.packer, e.stats, e.stats.counts
      ensures Begun(z, k, r, head, log0, run0)
    {
      hide Emitter.Valid, EobItems, FirstItems, TrailingZeros;
      Written(log0, run0, e.log, PendingRun(), head, [], e.table);
      assert head + [] == head;
      if eobRun > 0 {
        EmitEobRun();
      }
      assert e.log == e.log + [];
    }

    /** Write items of the current block. */
    method WriteZeroRun(k: nat, r: nat, ghost z: Block, ghost head: Items, ghost log0: Items, ghost run0: Run)
      returns (ghost more: Items)
      requires Begun(z, k, r, head, log0, run0) && k <= band.se && Mag(z[k], band.al) != 0 && r > 15
      modifies e`failed, e`log, e.packer, e.stats, e.stats.counts
      ensures Begun(z, k, r - 16, more, log0, run0)
    {
      hide Emitter.Valid, Pending, Mag, NBits, ExtraBits, Transformed;
      ghost var zrl := [Symbol(e.table, 0xF0)];
      e.EmitSymbol(0xF0);
      Associative(log0 + Pending(run0, e.table), head, zrl);
      Associative(head, zrl, FirstItems(z, k, r - 16, band, e.table));
      TrailingIgnores(z, k, r, r - 16, band);
      more := head + zrl;
    }

    /** One nonzero coefficient of a first scan.  A magnitude out of range is an error. */
    method FirstCoefficient(temp: nat, temp2: int, k: nat, r0: nat,
                            ghost z: Block, ghost head0: Items, ghost log0: Items, ghost run0: Run)
      returns (ok: bool, ghost head: Items)
      requires InFirst(z, k, r0, head0, log0, run0) && k <= band.se && temp == Mag(z[k], band.al) != 0
      requires temp2 == if z[k] < 0 then -(temp as int) - 1 else temp
      modifies this`eobRun, this`be, e`failed, e`log, e.packer, e.stats, e.stats.counts
      ensures ok <==> NBits(temp) <= MAX_COEF_BITS
      ensures ok ==> InFirst(z, k + 1, 0, head, log0, run0)
    {
      hide Emitter.Valid, Pending, Mag, NBits, ExtraBits, Transformed, ToBits, Pow2, Masked, FirstItems,
        TrailingZeros;
      var r := r0;
      head := head0;
      BeginFirst(z, k, r, head, log0, run0);
      while r > 15
        invariant 0 <= r <= r0 && Begun(z, k, r, head, log0, run0)
      {
        head := WriteZeroRun(k, r, z, head, log0, run0);
        r := r - 16;
      }
      var nbits := CountMagnitude(temp);
      if nbits > MAX_COEF_BITS {
        return false, head;
      }
      head := WriteFirst(temp2, nbits, k, r, z, head, log0, run0);
      ok := true;
    }

    /** Write the symbol and the additional bits of a coefficient. */
    method WriteFirst(temp2: int, nbits: nat, k: nat, r: nat,
                      ghost z: Block, ghost head: Items, ghost log0: Items, ghost run0: Run)
      returns (ghost more: Items)
      requires Begun(z, k, r, head, log0, run0) && k <= band.se && r <= 15
      requires Mag(z[k], band.al) > 0 && nbits == NBits(Mag(z[k], band.al)) <= MAX_COEF_BITS
      requires temp2 == if z[k] < 0 then -(Mag(z[k], band.al) as int) - 1 else Mag(z[k], band.al)
      modifies e`failed, e`log, e.packer, e.stats, e.stats.counts
      ensures InFirst(z, k + 1, 0, more, log0, run0)
    {
      hide Emitter.Valid, Pending, Mag, NBits, ExtraBits, Transformed, ToBits, Pow2, Masked;
      ghost var x := ExtraBits(Transformed(z[k], band.al));
      ghost var field := [Symbol(e.table, 16 * r + nbits), Extra(x, nbits)];
      ghost var log := e.log;
      TransformedField(z[k], band.al, temp2, nbits);
      e.EmitSymbol(16 * r + nbits);
      e.EmitBits(Masked(temp2, 32), nbits, x);
      assert e.log == log + field;
      Associative(log0 + Pending(run0, e.table), head, field);
      Associative(head, field, FirstItems(z, k + 1, 0, band, e.table));
      TrailingIgnores(z, k, r, 0, band);
      more := head + field;
    }

    /** The end of a block of a first scan: if zeros are left, the band ends early. */
    method FinishFirst(r: nat, ghost z: Block, ghost head: Items, ghost log0: Items, ghost run0: Run)
      requires InFirst(z, band.se + 1, r, head, log0, run0) && Bounded(run0)
      modifies this`eobRun, this`be, e`failed, e`log, e.packer, e.stats, e.stats.counts
      ensures Sound() && Coded(e.log, PendingRun()) == Step(Coded(log0, run0), FirstPart(z, band, e.table), e.table)
    {
      hide Emitter.Valid, Pending;
      ghost var p := FirstPart(z, band, e.table);
      assert head + [] == head;
      assert run0.bits + [] == run0.bits && NO_RUN.bits + [] == [];
      if r > 0 {
        eobRun := eobRun + 1;
        assert PendingRun() == Absorb(run0, p);
        if eobRun == MAX_EOBRUN {
          EmitEobRun();
          assert BitItems(bitBuffer[..be]) == [];
        }
      }
    }

    /** The first pass over the band of one block. */
    method FirstBlockBand(block: Block, ghost current: seq<Part>) returns (ok: bool)
      requires Encoded(current) && band.first
      modifies this`eobRun, this`be, e`failed, e`log, e.packer, e.stats, e.stats.counts
      ensures ok <==> BandInRange(Zigzag(block), band)
      ensures ok ==> Encoded(current + [BandPart(Zigzag(block), band, e.table)])
    {
      hide Emitter.Valid, Pending, FirstPart, Zigzag, Step, InFirst, Mag, NBits, NaturalOrder;
      ghost var z := Zigzag(block);
      RunStaysBounded(current, e.table);
      PartShape(z, band, e.table);
      ghost var log0, run0 := e.log, PendingRun();
      ghost var head: Items := [];
      FirstStart(z, log0, run0);
      ZeroHasNoBits();
      var r := 0;
      var k := band.ss;
      while k <= band.se
        invariant band.ss <= k <= band.se + 1 && r >= 0 && InFirst(z, k, r, head, log0, run0)
        invariant forall j: nat :: band.ss <= j < k ==> NBits(Mag(z[j], band.al)) <= MAX_COEF_BITS
      {
        ZigzagAt(block, k);
        var temp := block[NaturalOrder(k)];
        var negative := temp < 0;
        if negative {
          temp := -temp;
        }
        temp := Shr(temp, band.al);
        MagIs(z[k], band.al);
        if temp == 0 {
          FirstZero(z, k, r, head, log0, run0);
          r := r + 1;
        } else {
          ok, head := FirstCoefficient(temp, if negative then -temp - 1 else temp, k, r, z, head, log0, run0);
          if !ok {
            return;
          }
          r := 0;
        }
        k := k + 1;
      }
      InFirstIsSound(z, k, r, head, log0, run0);
      FinishFirst(r, z, head, log0, run0);
      assert (current + [FirstPart(z, band, e.table)])[..|current|] == current;
      ok := true;
    }

    lemma FirstStart(z: Block, log0: Items, run0: Run)
      requires Sound() && log0 == e.log && run0 == PendingRun()
      ensures InFirst(z, band.ss, 0, [], log0, run0)
    {
      hide FirstItems, TrailingZeros;
      var all := FirstItems(z, band.ss, 0, band, e.table);
      assert [] + all == all;
    }

    lemma FirstZero(z: Block, k: nat, r: nat, head: Items, log0: Items, run0: Run)
      requires InFirst(z, k, r, head, log0, run0) && k <= band.se && Mag(z[k], band.al) == 0
      ensures InFirst(z, k + 1, r + 1, head, log0, run0)
    {
      hide Mag;
    }

    lemma InFirstIsSound(z: Block, k: nat, r: nat, head: Items, log0: Items, run0: Run)
      requires InFirst(z, k, r, head, log0, run0)
      ensures Sound()
    {
    }

    /** Bookkeeping after an MCU. */
    method CountMcu(ghost finished: seq<seq<Part>>, ghost current: seq<Part>, ghost part: Part)
      requires Encoded(current + [part]) && e.finished == AllRunItems(finished, e.table)
      requires Counting()
      requires if restartInterval != 0 && restartsToGo == 0
        then finished == history.finished + [history.current] && current == []
        else finished == history.finished && current == history.current
      modifies `history, `restartsToGo, `nextRestartNum
      ensures Valid() && history == Next(old(history), restartInterval, part)
    {
      hide Emitter.Valid, Fold, RunItems;
      history := Next(history, restartInterval, part);
      assert [] + [part] == [part];
      if restartInterval != 0 {
        if restartsToGo == 0 {
          restartsToGo := restartInterval;
          nextRestartNum := (nextRestartNum + 1) % 8;
        }
        restartsToGo := restartsToGo - 1;
      }
    }

    /** Encode one MCU of an AC first scan.  A coefficient out of range is an error. */
    method EncodeMcuAcFirst(block: Block) returns (ok: bool)
      requires Valid() && band.first
      modifies Repr()
      ensures ok <==> BandInRange(Zigzag(block), band)
      ensures ok ==> Valid() && history == Next(old(history), restartInterval, BandPart(Zigzag(block), band, e.table))
    {
      hide Emitter.Valid, BandPart, Zigzag, Fold, RunItems;
      ghost var finished, current := history.finished, history.current;
      if restartInterval != 0 && restartsToGo == 0 {
        EmitRestart(nextRestartNum);
        finished, current := finished + [current], [];
        NothingFolded(e.table);
      }
      ok := FirstBlockBand(block, current);
      if ok {
        CountMcu(finished, current, BandPart(Zigzag(block), band, e.table));
      }
    }

    /** Encode one MCU of an AC refinement scan. */
    method EncodeMcuAcRefine(block: Block)
      requires Valid() && !band.first
      modifies Repr()
      ensures Valid()
      ensures history == Next(old(history), restartInterval, BandPart(Zigzag(block), band, e.table))
    {
      hide Emitter.Valid, BandPart, Zigzag, Fold, RunItems;
      ghost var finished, current := history.finished, history.current;
      if restartInterval != 0 && restartsToGo == 0 {
        EmitRestart(nextRestartNum);
        finished, current := finished + [current], [];
        NothingFolded(e.table);
      }
      RefineBlockBand(block, current);
      CountMcu(finished, current, BandPart(Zigzag(block), band, e.table));
    }

    /** Finish an output pass. */
    method FinishPass() returns (out: seq<Byte>)
      requires Valid() && !e.gatherStatistics
      modifies Repr()
      ensures e.failed <==> !Encodable(InOrder(AllRunItems(Intervals(old(history)), e.table)), e.d)
      ensures !e.failed ==> out == FramedBytes(Spelled(AllRunItems(Intervals(old(history)), e.table), e.d))
    {
      hide Pending, Fold, ProgressivePacker.Valid, InOrder, Encodable, Decodable, FinishedBytes, ItemBits,
        FramedBytes;
      EmitEobRun();
      assert e.log == RunItems(history.current, e.table);
      AllIntervals(history, e.table);
      InOrderSnoc(e.finished, e.log);
      out := e.FinishPass();
    }

    /** Finish a statistics pass: the counts are those of the items. */
    method FinishPassGather()
      requires Valid() && e.gatherStatistics
      modifies Repr()
      ensures e.Counted() && e.stats.seen == InOrder(AllRunItems(Intervals(old(history)), e.table))
    {
      hide Pending, Fold, ProgressivePacker.Valid, InOrder, Statistics.Valid;
      EmitEobRun();
      assert e.log == RunItems(history.current, e.table);
      AllIntervals(history, e.table);
      InOrderSnoc(e.finished, e.log);
    }
  }

  lemma NothingFolded(ac: nat)
    ensures Fold([], ac) == Coded([], NO_RUN)
  {
  }

  lemma AllIntervals(h: History<Part>, ac: nat)
    ensures AllRunItems(Intervals(h), ac) == AllRunItems(h.finished, ac) + [RunItems(h.current, ac)]
  {
    hide RunItems;
  }

  lemma NewIsNotBeyond(z: Block, b: Band, k: nat)
    requires b.Valid() && b.ss <= k <= b.se
    ensures Mag(z[k], b.al) == 1 ==> k <= LastNew(z, b.ss, b.se + 1, b.al)
  {
    hide Mag;
  }

  /** Writing more of a block's head, the pending run first. */
  lemma Written(log0: Items, run0: Run, log: Items, run: Run, head: Items, more: Items, ac: nat)
    requires if head == [] then log == log0 && run == run0 else log == log0 + Pending(run0, ac) + head && run.count == 0
    ensures log + Pending(run, ac) + more == log0 + Pending(run0, ac) + (head + more)
  {
    hide EobItems;
    if head == [] {
      assert head + more == more;
    } else {
      assert log + Pending(run, ac) == log;
      Associative(log0 + Pending(run0, ac), head, more);
    }
  }

  method CountRunBits(n: nat) returns (nbits: nat)
    requires n > 0
    ensures nbits == NBits(n) - 1
  {
    var temp := n / 2;
    nbits := 0;
    while temp != 0
      invariant temp >= 0 && nbits + NBits(temp) == NBits(n) - 1
    {
      nbits := nbits + 1;
      temp := temp / 2;
    }
  }

  /** Below its top bit, a number is spelled like its remainder. */
  lemma LowBits(n: nat)
    requires n > 0
    ensures var k := NBits(n) - 1;
      && Pow2(k) <= n < 2 * Pow2(k) && ToBits(n, k) == ToBits(n - Pow2(k), k)
  {
    var k := NBits(n) - 1;
    Pow2Next(k);
    AddHighBit(n - Pow2(k), k);
  }

  lemma {:induction false} AddHighBit(x: nat, k: nat)
    ensures ToBits(x + Pow2(k), k) == ToBits(x, k)
  {
    if k > 0 {
      Pow2Next(k - 1);
      AddHighBit(x / 2, k - 1);
      assert (x + Pow2(k)) / 2 == x / 2 + Pow2(k - 1) && (x + Pow2(k)) % 2 == x % 2;
    }
  }

  method CountMagnitude(temp0: nat) returns (nbits: nat)
    requires temp0 > 0
    ensures nbits == NBits(temp0)
  {
    nbits := CountRunBits(temp0);
    nbits := nbits + 1;
  }

  lemma MagIs(v: int, al: nat)
    ensures Mag(v, al) == Shr(if v < 0 then -v else v, al)
  {
  }

  /** A zero run in front of a nonzero coefficient does not matter for the zeros at the end. */
  lemma TrailingIgnores(z: Block, k: nat, r: nat, r': nat, b: Band)
    requires b.Valid() && k <= b.se && Mag(z[k], b.al) != 0
    ensures TrailingZeros(z, k, r, b) == TrailingZeros(z, k, r', b) == TrailingZeros(z, k + 1, 0, b)
  {
    hide Mag;
  }

  /** The additional bits of a transformed coefficient are the low bits of temp2. */
  lemma TransformedField(v: int, al: nat, temp2: int, nbits: nat)
    requires Mag(v, al) > 0 && nbits == NBits(Mag(v, al)) <= 10
    requires temp2 == if v < 0 then -(Mag(v, al) as int) - 1 else Mag(v, al)
    ensures var x := ExtraBits(Transformed(v, al));
      0 < nbits && x < Pow2(nbits) && ToBits(Masked(temp2, 32), nbits) == ToBits(x, nbits)
  {
    hide Masked, ToBits, Pow2, Shr, NBits;
    TransformedIs(v, al);
    PositiveCategory(Mag(v, al));
    MaskedBits(temp2, 32, nbits);
  }
}
