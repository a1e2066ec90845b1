/** Where the progressive encoder's symbols and bits go (jcphuff.c): to the statistics while they are being
    gathered, otherwise to the bit packer. */
module ProgressiveEmitter {
  import opened Shifts
  import opened BitStrings
  import opened ByteStreams
  import opened BitPacking
  import opened MacroPacking
  import opened ProgressivePacking
  import opened HuffmanDerive
  import opened EntropyItems
  import opened SequentialStatistics
  import opened RestartIntervals

  /** The bits of each interval's items. */
  function Spelled(f: seq<Items>, d: Tables): (r: seq<Bits>)
    ensures |r| == |f|
  {
    seq(|f|, i requires 0 <= i < |f| => ItemBits(f[i], d))
  }

  class Emitter {
    const gatherStatistics: bool
    const d: Tables
    const table: nat
    const packer: ProgressivePacker
    const stats: Statistics
    var failed: bool                   // a symbol without a code was to be emitted
    ghost var finished: seq<Items>     // what was emitted in each finished restart interval
    ghost var log: Items               // what was emitted in the current one

    ghost predicate Counted()
      reads this, stats, stats.counts
    {
      stats.Valid() && stats.seen == InOrder(finished) + log
    }

    ghost predicate Written()
      reads this, packer
    {
      && table < |d| && Decodable(d)
      && (failed <==> !Encodable(InOrder(finished) + log, d))
      && (!failed ==>
            && packer.trace.before == FinishedBytes(Spelled(finished, d))
            && packer.trace.sent == ItemBits(log, d))
    }

    ghost predicate Valid()
      reads this, packer, stats, stats.counts
    {
      && NUM_HUFF_TBLS <= table < 2 * NUM_HUFF_TBLS
      && packer.Valid() && packer.gatherStatistics == gatherStatistics
      && if gatherStatistics then Counted() && packer.trace.sent == [] else Written()
    }

    constructor (gatherStatistics: bool, d: Tables, table: nat)
      requires NUM_HUFF_TBLS <= table < 2 * NUM_HUFF_TBLS
      requires gatherStatistics || (table < |d| && Decodable(d))
      ensures Valid() && fresh(packer) && fresh(stats) && fresh(stats.counts)
      ensures finished == [] && log == []
      ensures this.gatherStatistics == gatherStatistics && this.d == d && this.table == table
    {
      this.gatherStatistics := gatherStatistics;
      this.d := d;
      this.table := table;
      packer := new ProgressivePacker(gatherStatistics);
      stats := new Statistics();
      failed := false;
      finished := [];
      log := [];
      new;
      InOrderNothing<Item>();
    }

    /** A symbol: its code word, or one more use of it. */
    method EmitSymbol(s: nat)
      requires Valid() && s < 256 && s % 16 <= MAX_COEF_BITS
      modifies this`failed, this`log, packer, stats, stats.counts
      ensures Valid() && log == old(log) + [Symbol(table, s)]
    {
      hide ItemBits, FinishedBytes, Encodable, Decodable, ToBits, InOrder, ProgressivePacker.Valid, Statistics.Valid;
      ghost var i := Symbol(table, s);
      if gatherStatistics {
        Associative(InOrder(finished), log, [i]);
        stats.Count(table, s);
      } else {
        TableShape(d, table, s);
        LoggedNext(finished, log, i, d);
        var ok := packer.EmitBits(d[table].ehufco[s], d[table].ehufsi[s]);
        if !ok {
          failed := true;
        }
      }
      log := log + [i];
    }

    /** Emit the low `size` bits of `code`, whose value is x, unless statistics are gathered. */
    method EmitBits(code: nat, size: nat, ghost x: nat)
      requires Valid() && 0 < size <= 16 && x < Pow2(size) && ToBits(code, size) == ToBits(x, size)
      modifies this`failed, this`log, packer, stats, stats.counts
      ensures Valid() && log == old(log) + [Extra(x, size)]
    {
      hide ItemBits, FinishedBytes, Encodable, Decodable, ToBits, InOrder, ProgressivePacker.Valid, Statistics.Valid,
        Pow2;
      ghost var i := Extra(x, size);
      if gatherStatistics {
        Associative(InOrder(finished), log, [i]);
        stats.Skip(x, size);
      } else {
        LoggedNext(finished, log, i, d);
      }
      var ok := packer.EmitBits(code, size);
      log := log + [i];
    }

    /** Begin a new restart interval: flush, and write a restart marker. */
    method NextInterval(num: nat)
      requires Valid() && num == |finished| % 8
      modifies this`finished, this`log, packer
      ensures Valid() && finished == old(finished) + [old(log)] && log == []
    {
      hide ItemBits, FinishedBytes, Encodable, Decodable, ToBits, InOrder, Statistics.Valid, Stuff, Pack, Unpack;
      InOrderSnoc(finished, log);
      assert InOrder(finished) + log + [] == InOrder(finished) + log;
      if !gatherStatistics {
        SpelledSnoc(finished, log, d);
        packer.FlushBits();
        packer.EmitMarker((0xD0 + num) as Byte);
      }
      finished := finished + [log];
      log := [];
    }

    /** End the last interval. */
    method FinishPass() returns (out: seq<Byte>)
      requires Valid()
      modifies packer
      ensures !gatherStatistics && !failed ==> out == FramedBytes(Spelled(finished + [log], d))
    {
      hide ItemBits, FinishedBytes, Encodable, Decodable, ToBits, InOrder, Statistics.Valid, Stuff, Pack, Unpack;
      packer.FlushBits();
      out := packer.out;
      SpelledSnoc(finished, log, d);
      ghost var all := Spelled(finished + [log], d);
      assert all[..|all| - 1] == Spelled(finished, d);
    }
  }

  lemma SpelledSnoc(f: seq<Items>, log: Items, d: Tables)
    ensures Spelled(f + [log], d) == Spelled(f, d) + [ItemBits(log, d)]
    ensures FinishedBytes(Spelled(f + [log], d))
         == FinishedBytes(Spelled(f, d)) + Stuff(Pack(ItemBits(log, d))) + RestartMarker(|f|)
    ensures ItemBits([], d) == []
  {
    hide FinishedBytes;
    FinishedSnoc(Spelled(f, d), ItemBits(log, d));
  }

  lemma TableShape(d: Tables, t: nat, s: nat)
    requires Decodable(d) && t < |d| && s < 256
    ensures |d[t].ehufco| == |d[t].ehufsi| == 256 && d[t].ehufsi[s] <= 16
    ensures Spell(Symbol(t, s), d) == ToBits(d[t].ehufco[s], d[t].ehufsi[s])
    ensures d[t].ehufsi[s] > 0 <==> HasCode(d[t], s)
  {
    assert PrefixCode(d[t]);
  }

  /** One more item in the log. */
  lemma LoggedNext(f: seq<Items>, log: Items, i: Item, d: Tables)
    ensures ItemBits(log + [i], d) == ItemBits(log, d) + Spell(i, d)
    ensures Encodable(InOrder(f) + (log + [i]), d) <==>
      Encodable(InOrder(f) + log, d) && HasSpelling(i, d)
  {
    hide Encodable, InOrder, Spell;
    ItemBitsAppend(log, [i], d);
    assert ItemBits([i], d) == Spell(i, d) by {
      assert [i][1..] == [];
    }
    Associative(InOrder(f), log, [i]);
    EncodableAppend(InOrder(f) + log, [i], d);
    OneEncodable(i, d);
  }

  lemma OneEncodable(i: Item, d: Tables)
    ensures Encodable([i], d) <==> HasSpelling(i, d)
  {
    assert i in [i];
  }
}
