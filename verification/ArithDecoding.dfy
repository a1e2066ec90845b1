/** The register-level arithmetic decoder of jdarith.c, and the round trip through encoder,
    byte stuffing, terminating marker and decoder. */
module ArithDecoding {
  import opened Shifts
  import opened ByteStreams
  import opened ArithTable
  import opened IntervalCoding
  import opened ArithEncoding

  /** `fetched` bytes of the stream and C say how far the stream is above the low end of the interval. */
  ghost predicate Tracks(data: seq<Byte>, iv: Interval, fetched: nat, c: nat, ct: nat) {
    && ct < 8
    && 8 * fetched == 16 + iv.n + ct
    && c + Shl(iv.low, ct) == Val(Ext(data, fetched))
    && c < Shl(iv.a, ct)
  }

  /** The first two bytes: every stream lies in the initial interval. */
  lemma TracksStart(data: seq<Byte>)
    ensures Tracks(data, UNIT, 2, At(data, 0) as nat * 0x100 + At(data, 1) as nat, 0)
  {
    ExtSnoc(data, 0);
    ExtSnoc(data, 1);
    assert Ext(data, 0) == [];
  }

  lemma TracksDoubled(data: seq<Byte>, iv: Interval, fetched: nat, c: nat, ct: nat)
    requires Tracks(data, iv, fetched, c, ct)
    ensures ct > 0 ==> Tracks(data, Doubled(iv), fetched, c, ct - 1)
    ensures ct == 0 ==> Tracks(data, Doubled(iv), fetched + 1, 0x100 * c + At(data, fetched) as nat, 7)
  {
    hide Val, Ext;
    if ct > 0 {
      ShlDouble(iv.low, ct - 1);
      ShlDouble(iv.a, ct - 1);
    } else {
      ExtSnoc(data, fetched);
      ShlDouble(iv.low, 7);
      ShlDouble(iv.a, 7);
      ShlByte(iv.low);
      ShlByte(iv.a);
    }
  }

  /** Comparing C with the shifted cut point is comparing the stream with the cut. */
  lemma TracksCut(data: seq<Byte>, iv: Interval, fetched: nat, c: nat, ct: nat, sv: Bin, bit: Bit)
    requires Tracks(data, iv, fetched, c, ct) && 0x8000 <= iv.a
    requires bit == DecodedBit(data, iv, sv)
    ensures AboveCut(data, iv, sv) <==> c >= Shl(iv.a - Qe(sv), ct)
    ensures var cut := Cut(iv, sv, bit);
      var t := if AboveCut(data, iv, sv) then Shl(iv.a - Qe(sv), ct) else 0;
      c >= t && Tracks(data, cut, fetched, c - t, ct)
  {
    hide Val, Ext, Qe, Shl;
    assert fetched == BytesFor(iv.n);
    ShlAdd(iv.low, iv.a - Qe(sv), ct);
    ShlAdd(iv.a - Qe(sv), Qe(sv), ct);
    assert iv.low + (iv.a - Qe(sv)) == iv.low + iv.a - Qe(sv);
  }

  /** What is decoded, what is left of the interval and what becomes of the bin, by where the
      stream lies and which part of the interval is the larger one. */
  lemma DecodedOutcome(data: seq<Byte>, iv: Interval, sv: Bin)
    requires 0x8000 <= iv.a <= 0x10000
    ensures var bit, qe := DecodedBit(data, iv, sv), Qe(sv);
      var a, cut, next := iv.a - qe, Cut(iv, sv, bit), Adapt(iv, sv, bit);
      && 0 < cut.a <= 0x10000
      && cut.a == (if AboveCut(data, iv, sv) then qe else a)
      && (bit == Mps(sv) <==> (AboveCut(data, iv, sv) <==> a < qe))
      && next == if bit != Mps(sv) then AfterLps(sv) else if a < 0x8000 then AfterMps(sv) else sv
  {
  }

  /** Fill bytes 0xFF, then the code of a marker. */
  ghost predicate CodeAhead(s: seq<Byte>) {
    s != [] && (if s[0] == 0xFF then CodeAhead(s[1..]) else s[0] != 0)
  }

  /** What ends an entropy-coded segment. */
  ghost predicate MarkerAhead(s: seq<Byte>) {
    s != [] && s[0] == 0xFF && CodeAhead(s[1..])
  }

  /** What was asked of a decoder and what it answered. */
  datatype Answers = Answers(bins: seq<Bin>, asked: seq<nat>, bits: seq<Bit>)
  {
    ghost predicate Valid(data: seq<Byte>) {
      && (forall i :: 0 <= i < |asked| ==> asked[i] < |bins|)
      && Decode(data, bins, asked).1 == bits
    }

    ghost function Decoded(data: seq<Byte>): (m: Model)
      requires Valid(data)
      ensures Normal(m.iv) && |m.bins| == |bins|
    {
      Decode(data, bins, asked).0
    }

    function Add(bin: nat, bit: Bit): Answers {
      Answers(bins, asked + [bin], bits + [bit])
    }

    lemma AddValid(data: seq<Byte>, bin: nat, bit: Bit)
      requires Valid(data) && bin < |bins|
      requires var m := Decoded(data); bit == DecodedBit(data, m.iv, m.bins[bin])
      ensures Add(bin, bit).Valid(data)
      ensures Add(bin, bit).Decoded(data) == Code(Decoded(data), Decision(bin, bit))
    {
      DecodeNext(data, bins, asked, bin);
    }
  }

  class ArithDecoder {
    var c: nat       // the stream relative to the low end of the interval
    var a: nat       // size of the interval; 0 before the first decision
    var ct: int      // bit shift counter; negative until two initial bytes were read
    var unreadMarker: Byte  // nonzero once a marker was hit: from then on zeros are supplied
    var pos: nat            // index of the next byte of `input`
    var stats: array<Bin>   // all statistics areas
    const input: seq<Byte>

    ghost const data: seq<Byte>  // the segment before stuffing
    ghost const tail: seq<Byte>  // what follows the segment in `input`
    ghost var fetched: nat       // bytes of the zero-extended segment shifted into C
    ghost var iv: Interval       // the interval of A and C, not yet renormalized
    ghost var log: Answers

    /** The segment is followed by a marker. */
    ghost predicate Source()
      reads `pos, `fetched, `unreadMarker
    {
      if unreadMarker != 0 then fetched >= |data|
      else
        && fetched <= |data| && pos <= |input|
        && input[pos..] == Stuff(data[fetched..]) + tail
        && MarkerAhead(tail)
    }

    ghost predicate Ready()
      reads `a, `c, `ct, `iv, `fetched
    {
      0 < a <= 0x10000 && iv.a == a && iv.low + iv.a <= Pow2(16 + iv.n)
      && 0 <= ct && Tracks(data, iv, fetched, c, ct)
    }

    /** The registers stand for `goal` once renormalized; the first two rounds of the first
        renormalization read the initial bytes. */
    ghost predicate Leads(goal: Interval)
      reads `a, `c, `ct, `iv, `fetched
    {
      if a == 0 then
        && ct == -16 + 8 * fetched && fetched < 2 && goal == UNIT
        && c == if fetched == 0 then 0 else At(data, 0) as nat
      else Ready() && Renorm(iv) == goal
    }

    ghost predicate Valid()
      reads this, stats
    {
      && Source()
      && log.Valid(data)
      && stats[..] == log.Decoded(data).bins
      && Leads(log.Decoded(data).iv)
    }

    /** Initialization for a scan, at a segment that ends with a marker. */
    constructor (ghost data: seq<Byte>, ghost tail: seq<Byte>, input: seq<Byte>, stats: array<Bin>)
      requires input == Stuff(data) + tail && MarkerAhead(tail)
      ensures Valid() && this.stats == stats && this.data == data && this.input == input
      ensures log == Answers(stats[..], [], [])
    {
      c := 0;
      a := 0;
      ct := -16;
      unreadMarker := 0;
      pos := 0;
      this.stats := stats;
      this.input := input;
      this.data := data;
      this.tail := tail;
      fetched := 0;
      log := Answers(stats[..], [], []);
      new;
      assert data[0..] == data && input[0..] == input;
    }

    /** The next byte belongs to the data, or it begins a marker. */
    lemma SplitSource()
      requires Source() && unreadMarker == 0
      ensures fetched == |data| ==> MarkerAhead(input[pos..])
      ensures fetched < |data| ==>
        var b := data[fetched];
        input[pos..] == (if b == 255 then [255, 0] else [b]) + (Stuff(data[fetched + 1..]) + tail)
    {
      var rest := data[fetched..];
      if rest == [] {
        assert input[pos..] == tail;
      } else {
        StuffCons(rest);
        assert rest[1..] == data[fetched + 1..];
      }
    }

    method GetByte() returns (b: Byte)
      requires pos < |input|
      modifies `pos
      ensures pos == old(pos) + 1 && b == input[pos - 1]
    {
      b := input[pos];
      pos := pos + 1;
    }

    /** Read the next data byte: a stuffed zero is discarded, a marker ends the data. */
    method NextByte() returns (b: Byte)
      requires Source()
      modifies `pos, `unreadMarker, `fetched
      ensures Source()
      ensures b == At(data, old(fetched)) && fetched == old(fetched) + 1
    {
      if unreadMarker != 0 {
        b := 0;
      } else {
        ghost var rest := data[fetched..];
        SplitSource();
        b := GetByte();
        if b == 0xFF {
          b := GetByte();
          while b == 0xFF
            invariant fetched == old(fetched) && unreadMarker == 0 && pos <= |input|
            invariant if |rest| > 0 then b == 0 && input[pos..] == Stuff(rest[1..]) + tail
                      else CodeAhead([b] + input[pos..])
            decreases |input| - pos
          {
            assert ([b] + input[pos..])[1..] == input[pos..];
            b := GetByte();
          }
          if b == 0 {
            b := 0xFF;
          } else {
            unreadMarker := b;
            b := 0;
          }
        }
      }
      fetched := fetched + 1;
    }

    /** One round of renormalization & data input. */
    method Shift(ghost goal: Interval)
      requires Source() && Leads(goal) && a < 0x8000
      modifies this
      ensures Source() && Leads(goal)
      ensures stats == old(stats) && log == old(log)
      ensures if old(a) == 0 then a == 0x1_0000 || (a == 0 && fetched == old(fetched) + 1) else a == 2 * old(a)
    {
      hide Tracks, Source, Shl, At;
      ghost var starting, r := a == 0, iv;
      if !starting {
        TracksDoubled(data, iv, fetched, c, ct);
        Pow2Next(16 + iv.n);
        r := Doubled(iv);
      }
      ct := ct - 1;
      if ct < 0 {
        var b := NextByte();
        c := 0x100 * c + b as nat;
        ct := ct + 8;
        if ct < 0 {
          ct := ct + 1;
          if ct == 0 {
            a := 0x8000;
            TracksStart(data);
            ShlValues(1);
            r := UNIT;
          }
        }
      }
      a := 2 * a;
      iv := r;
    }

    /** Renormalization & data input, done before the next decision. */
    method Renormalize(ghost goal: Interval)
      requires Source() && Leads(goal)
      modifies this
      ensures Source() && Ready() && 0x8000 <= a && iv == goal
      ensures stats == old(stats) && log == old(log)
    {
      hide Tracks, Source, Shl;
      while a < 0x8000
        invariant Source() && Leads(goal) && stats == old(stats) && log == old(log)
        decreases if a == 0 then 0x1_0002 - fetched else 0x1_0000 - a
      {
        Shift(goal);
      }
    }

    /** Decode one binary decision with the statistics bin `st`. */
    method DecodeBit(st: nat) returns (bit: Bit)
      requires Valid() && st < stats.Length
      modifies this, stats
      ensures Valid() && stats == old(stats)
      ensures log == old(log).Add(st, bit)
    {
      hide Shl, DecodedBit, AboveCut, Cut, Adapt, AfterLps, AfterMps, Answers.Valid, Source, Tracks, Qe, Mps, Decode,
        Renorm;
      Renormalize(log.Decoded(data).iv);
      var sv: Bin := stats[st];
      ghost var bins, bit' := stats[..], DecodedBit(data, iv, sv);
      log.AddValid(data, st, bit');
      TracksCut(data, iv, fetched, c, ct, sv, bit');
      DecodedOutcome(data, iv, sv);
      bit := Mps(sv);
      var next := sv;
      var qe := Qe(sv);
      var temp := a - qe;
      a := temp;
      temp := Shl(temp, ct);
      if c >= temp {
        c := c - temp;
        // The upper part was coded: which symbol that is depends on the sizes
        if a < qe {
          next := AfterMps(sv);
        } else {
          next := AfterLps(sv);
          bit := 1 - bit;
        }
        a := qe;
      } else if a < 0x8000 {
        // The lower part was coded, and the bin is due for estimation
        if a < qe {
          next := AfterLps(sv);
          bit := 1 - bit;
        } else {
          next := AfterMps(sv);
        }
      }
      assert bit == bit' && next == Adapt(iv, sv, bit');
      iv := Cut(iv, sv, bit');
      log := log.Add(st, bit');
      stats[st] := next;
      assert stats[..] == bins[st := next];
    }
  }

  /** The bits that a segment, with the marker that follows it, stands for. */
  ghost function DecodeBytes(segment: seq<Byte>, bins: seq<Bin>, asked: seq<nat>): seq<Bit>
    requires forall i :: 0 <= i < |asked| ==> asked[i] < |bins|
  {
    Decode(ReadEntropy(segment).0, bins, asked).1
  }

  /** Decode a segment that is followed by a marker. */
  method DecodeSegment(bins: seq<Bin>, asked: seq<nat>, segment: seq<Byte>) returns (bits: seq<Bit>)
    requires forall i :: 0 <= i < |asked| ==> asked[i] < |bins|
    requires MarkerAhead(ReadEntropy(segment).1)
    ensures bits == DecodeBytes(segment, bins, asked)
  {
    hide Decode, ArithDecoder.Source, ArithDecoder.Leads, ReadEntropy, Stuff;
    ghost var (data, tail) := ReadEntropy(segment);
    EntropyWasStuffed(segment);
    var stats := new Bin[|bins|](i requires 0 <= i < |bins| => bins[i]);
    assert stats[..] == bins;
    var d := new ArithDecoder(data, tail, segment, stats);
    bits := [];
    for i := 0 to |asked|
      invariant fresh(d) && d.Valid() && d.stats == stats && d.data == data
      invariant d.log == Answers(bins, asked[..i], bits)
    {
      var bit := d.DecodeBit(asked[i]);
      bits := bits + [bit];
      assert asked[..i + 1] == asked[..i] + [asked[i]];
    }
    assert asked[..|asked|] == asked;
  }

  /** A marker ends the data. */
  lemma MarkerEndsData(data: seq<Byte>, tail: seq<Byte>)
    requires MarkerAhead(tail)
    ensures ReadEntropy(Stuff(data) + tail) == (data, tail)
  {
    EntropyIsRead(data, tail);
  }

  /** Whatever is coded in a segment, behind whatever was written before: the bytes in the file decode to it,
      whichever marker follows, and that is what the register decoder obtains. */
  method RoundTrip(bins: seq<Bin>, ds: seq<Decision>, before: seq<Byte>, marker: Byte)
    returns (out: seq<Byte>, bits: seq<Bit>)
    requires InRange(ds, |bins|)
    requires marker != 0 && marker != 255
    ensures before <= out
    ensures forall tail | MarkerAhead(tail) :: DecodeBytes(out[|before|..] + tail, bins, Asked(ds)) == Bits(ds)
    ensures bits == Bits(ds)
  {
    hide Decode, Run, In, ReadEntropy, Stuff;
    out := EncodeSegment(bins, ds, before);
    ghost var data := ReadEntropy(out[|before|..]).0;
    assert out[|before|..] == Stuff(data);
    forall tail | MarkerAhead(tail)
      ensures ReadEntropy(out[|before|..] + tail) == (data, tail)
    {
      MarkerEndsData(data, tail);
    }
    assert MarkerAhead([0xFF, marker]) by {
      assert [0xFF, marker][1..][0] == marker;
    }
    bits := DecodeSegment(bins, Asked(ds), out[|before|..] + [0xFF, marker]);
  }
}
