/** The register-level arithmetic encoder of jcarith.c: carry propagation through stacked 0xFF
    bytes, pending zeros, and termination that drops trailing zero bytes. */
module ArithEncoding {
  import opened Shifts
  import opened ByteStreams
  import opened ArithTable
  import opened IntervalCoding

  const SPACE: nat := 0x900_0000  // 2^27 + 2^24: what C + A can reach, in units of a byte time

  /** The complete bytes and C together are the low end of the interval; A is its size; and C + A
      stays inside the 3 spacer bits however many shifts are left. */
  ghost predicate Registers(iv: Interval, pending: seq<Byte>, c: nat, a: nat, ct: nat) {
    && ct <= 11
    && iv.a == a
    && 0 < a <= 0x10000
    && iv.low + iv.a <= Pow2(16 + iv.n)
    && iv.n + ct == 8 * |pending| + 11
    && iv.low == Shl(Val(pending), 27 - ct) + c
    && Shl(c + a, ct) <= SPACE
  }

  lemma RegistersStart(iv: Interval, pending: seq<Byte>, c: nat, a: nat, ct: nat)
    requires iv == UNIT && pending == [] && c == 0 && a == 0x10000 && ct == 11
    ensures Registers(iv, pending, c, a, ct)
  {
    ShlValues(1);
    ShlValues(Val(pending));
    ShlValues(a);
  }

  lemma RegistersShift(iv: Interval, pending: seq<Byte>, c: nat, a: nat, ct: nat)
    requires Registers(iv, pending, c, a, ct) && a < 0x8000 && 0 < ct
    ensures Registers(Doubled(iv), pending, 2 * c, 2 * a, ct - 1)
  {
    ShlDouble(c + a, ct - 1);
    assert 2 * c + 2 * a == 2 * (c + a);
  }

  lemma RegistersByte(iv: Interval, pending: seq<Byte>, c: nat, a: nat, pending': seq<Byte>)
    requires Registers(iv, pending, c, a, 0)
    requires |pending'| == |pending| + 1 && Val(pending') == Val(pending) * 256 + c / 0x8_0000
    ensures Registers(iv, pending', c % 0x8_0000, a, 8)
  {
    hide Shl, Val;
    ShlValues(Val(pending));
    ShlValues(Val(pending'));
    ShlValues(c % 0x8_0000 + a);
    ShlNone(c + a);
  }

  /** A byte overflows by at most 1, and not at all with nothing but 0xFF bytes before it: the low
      end of the interval is below 1. */
  lemma RegistersCarry(iv: Interval, pending: seq<Byte>, c: nat, a: nat)
    requires Registers(iv, pending, c, a, 0)
    ensures c / 0x8_0000 <= 0x11F
    ensures pending == Rep(255, |pending|) ==> c / 0x8_0000 <= 0xFF
  {
    hide Shl, Val, Rep;
    ShlNone(c + a);
    if pending == Rep(255, |pending|) {
      ValAllOnes(|pending|);
      ShlShl(1, 8 * |pending|, 27);
      ShlValues(Pow2(8 * |pending|));
      ShlValues(Val(pending));
    }
  }

  lemma RegistersCut(iv: Interval, pending: seq<Byte>, c: nat, a: nat, ct: nat, sv: Bin, bit: Bit)
    requires Registers(iv, pending, c, a, ct) && 0x8000 <= a
    ensures var cut := Cut(iv, sv, bit);
      cut.low >= iv.low && Registers(cut, pending, c + (cut.low - iv.low), cut.a, ct)
  {
    hide Shl, Val, Mps, Qe;
    var cut := Cut(iv, sv, bit);
    ShlOrder(c + (cut.low - iv.low) + cut.a, c + a, ct);
  }

  /** The number that stands for the interval in the end: in it, and a multiple of half a unit. */
  function FinalC(c: nat, a: nat): (r: nat)
    requires 0x8000 <= a <= 0x10000
    ensures c <= r < c + a && r % 0x8000 == 0
  {
    var q := (a - 1 + c) / 0x1_0000;
    HalfUnits(q);
    var temp := 0x1_0000 * q;
    if temp < c then temp + 0x8000 else temp
  }

  /** It is the multiple of a whole unit, if there is one from c up to c + a - 1; then it ends in 16 zero bits. */
  lemma FinalIsRound(c: nat, a: nat, r: nat)
    requires 0x8000 <= a <= 0x10000
    requires c <= r < c + a && r % 0x1_0000 == 0
    ensures FinalC(c, a) == r
  {
    assert r == 0x1_0000 * (r / 0x1_0000);
    assert (a - 1 + c) / 0x1_0000 == r / 0x1_0000;
  }

  lemma HalfUnits(q: nat)
    ensures 0x1_0000 * q % 0x8000 == 0 && (0x1_0000 * q + 0x8000) % 0x8000 == 0
  {
  }

  /** The final C, shifted into place, ends in 11 zero bits, and overflows like a byte does. */
  lemma RegistersFinal(iv: Interval, pending: seq<Byte>, c: nat, a: nat, ct: nat)
    requires Registers(iv, pending, c, a, ct) && 0x8000 <= a
    ensures a <= 0x10000
    ensures var r := Shl(FinalC(c, a), ct);
      r < SPACE && r % 0x800 == 0 && (pending == Rep(255, |pending|) ==> r < 0x800_0000)
  {
    var r := FinalC(c, a);
    ShlOrder(r, c + a, ct);
    FinalShifted(r, ct);
    if pending == Rep(255, |pending|) {
      FinalBelowOne(iv, pending, c, a, ct);
    }
  }

  lemma FinalShifted(c: nat, ct: nat)
    requires c % 0x8000 == 0
    ensures Shl(c, ct) % 0x800 == 0
  {
    hide Shl;
    var k := 16 * (c / 0x8000);
    ShlValues(k);
    ShlShl(k, 11, ct);
    ShlShl(k, ct, 11);
    ShlValues(Shl(k, ct));
    assert Shl(c, ct) == 0x800 * Shl(k, ct);
  }

  /** The exact number that is sent, before it is cut into bytes. */
  lemma FinalNumber(iv: Interval, pending: seq<Byte>, c: nat, a: nat, ct: nat, x: nat)
    requires Registers(iv, pending, c, a, ct) && 0x8000 <= a
    requires x == Shl(Val(pending), 27 - ct) + FinalC(c, a)
    ensures iv.low <= x < iv.low + iv.a
    ensures Shl(x, ct) == 0x800_0000 * Val(pending) + Shl(FinalC(c, a), ct)
  {
    hide Shl, Val, FinalC;
    ShlAdd(Shl(Val(pending), 27 - ct), FinalC(c, a), ct);
    ShlShl(Val(pending), 27 - ct, ct);
    ShlValues(Val(pending));
  }

  lemma FinalBelowOne(iv: Interval, pending: seq<Byte>, c: nat, a: nat, ct: nat)
    requires Registers(iv, pending, c, a, ct) && 0x8000 <= a
    requires pending == Rep(255, |pending|)
    ensures Shl(FinalC(c, a), ct) < 0x800_0000
  {
    hide Shl, Val, FinalC, Rep;
    var x := Shl(Val(pending), 27 - ct) + FinalC(c, a);
    FinalNumber(iv, pending, c, a, ct, x);
    ShlOrder(x, Pow2(16 + iv.n), ct);
    ShlShl(1, 16 + iv.n, ct);
    ValAllOnes(|pending|);
    ShlShl(1, 8 * |pending|, 27);
    ShlValues(Pow2(8 * |pending|));
  }

  lemma FinalBytes(r: nat, v: nat, hi: nat, lo: nat)
    requires r % 0x800 == 0 && hi == r / 0x8_0000 % 0x100 && lo == r / 0x800 % 0x100
    ensures 0x800 * (((v + r / 0x800_0000) * 0x100 + hi) * 0x100 + lo) == 0x800_0000 * v + r
  {
    var z := r / 0x800;
    assert r == 0x800 * z && r / 0x8_0000 == z / 0x100 && r / 0x800_0000 == z / 0x1_0000;
    assert z / 0x100 / 0x100 == z / 0x1_0000;
  }

  /** Cut into bytes, the final number is a stream inside the interval. */
  lemma FinalInside(iv: Interval, pending: seq<Byte>, c: nat, a: nat, ct: nat, full: seq<Byte>)
    requires Registers(iv, pending, c, a, ct) && 0x8000 <= a
    requires |full| == |pending| + 2
    requires 0x800 * Val(full) == 0x800_0000 * Val(pending) + Shl(FinalC(c, a), ct)
    ensures In(full, iv)
  {
    hide Shl, Val, FinalC, In;
    var r := |full| + 2;
    var x := Shl(Val(pending), 27 - ct) + FinalC(c, a);
    FinalNumber(iv, pending, c, a, ct, x);
    assert Ext(full, r) == full + Rep(0, 2);
    ValZeros(full, 2);
    ShlValues(Val(full));
    ShlShl(x, ct, 5);
    ShlValues(Shl(x, ct));
    assert Val(Ext(full, r)) == Shl(x, ct + 5);
    ShlOrder(iv.low, x, ct + 5);
    ShlOrder(x, iv.low + iv.a, ct + 5);
    assert 8 * r - 16 - iv.n == ct + 5;
    InAnywhere(full, iv, r);
  }

  /** The destination and the statistics as they were when a segment was started, and the
      decisions coded since. */
  datatype Segment = Segment(base: seq<Byte>, bins: seq<Bin>, decisions: seq<Decision>)
  {
    ghost predicate Valid() { InRange(decisions, |bins|) }

    ghost function Coded(): Model
      requires Valid()
    {
      Run(bins, decisions)
    }
  }

  class ArithEncoder {
    var c: nat        // low end of the interval, as far as it is not in bytes yet
    var a: nat        // size of the interval
    var sc: nat       // stacked 0xFF bytes that might still overflow
    var zc: nat       // zero bytes held back: they are not written if nothing follows
    var ct: nat       // shifts left until the next byte is complete
    var buffer: int   // the byte before the stacked ones; -1 before the first
    var stats: array<Bin>   // all statistics areas, the fixed bin included
    var out: seq<Byte>      // what the destination has received

    ghost var seg: Segment            // where the current segment began, and what was coded in it
    ghost var sent: seq<Byte>         // bytes of this segment in `out`, before stuffing
    ghost var pending: seq<Byte>      // bytes complete so far, sent or held back

    ghost predicate Sending()
      reads `out, `seg, `sent
    {
      NoTrailingZero(sent) && out == seg.base + Stuff(sent)
    }

    ghost predicate Output()
      reads `out, `seg, `sent, `pending, `zc, `sc, `buffer
    {
      && -1 <= buffer < 255
      && (buffer == -1 ==> zc == 0 && sent == [])
      && NoTrailingZero(sent)
      && out == seg.base + Stuff(sent)
      && pending == sent + Rep(0, zc) + (if buffer >= 0 then [buffer as Byte] else []) + Rep(255, sc)
    }

    /** Bytes and registers together hold the exact interval. */
    ghost predicate Represents(iv: Interval)
      reads this
    {
      Output() && Registers(iv, pending, c, a, ct)
    }

    ghost predicate Coded(m: Model)
      reads this, stats
    {
      Represents(m.iv) && stats[..] == m.bins && 0x8000 <= a && 0 < ct
    }

    ghost predicate Valid()
      reads this, stats
    {
      seg.Valid() && Coded(seg.Coded())
    }

    constructor (stats: array<Bin>, out: seq<Byte>)
      ensures Valid() && this.stats == stats && this.out == out
      ensures seg == Segment(out, stats[..], [])
    {
      this.stats := stats;
      this.out := out;
      new;
      Start();
    }

    /** Initialization of a pass, and of a restart interval after its marker was written. */
    method Start()
      modifies this
      ensures Valid()
      ensures stats == old(stats) && out == old(out)
      ensures seg == Segment(out, stats[..], [])
    {
      hide *;
      c := 0;
      a := 0x10000;
      sc := 0;
      zc := 0;
      ct := 11;
      buffer := -1;
      seg, sent, pending := Segment(out, stats[..], []), [], [];
      FreshSegment();
    }

    lemma FreshSegment()
      requires c == 0 && a == 0x10000 && sc == 0 && zc == 0 && ct == 11 && buffer == -1
      requires seg == Segment(out, stats[..], []) && sent == [] && pending == []
      ensures Valid()
    {
      hide Registers;
      RegistersStart(seg.Coded().iv, pending, c, a, ct);
    }

    method EmitByte(val: Byte)
      modifies `out
      ensures out == old(out) + [val]
    {
      out := out + [val];
    }

    /** Write a data byte, with the zero that must follow 0xFF. */
    method EmitStuffed(val: Byte)
      requires out == seg.base + Stuff(sent)
      modifies `out, `sent
      ensures sent == old(sent) + [val]
      ensures out == seg.base + Stuff(sent)
    {
      EmitByte(val);
      if val == 0xFF {
        EmitByte(0x00);
      }
      StuffSnoc(sent, val);
      sent := sent + [val];
    }

    method EmitZeros()
      requires out == seg.base + Stuff(sent)
      modifies `out, `sent, `zc
      ensures zc == 0 && sent == old(sent) + Rep(0, old(zc))
      ensures out == seg.base + Stuff(sent)
    {
      ghost var k := 0;
      while zc > 0
        invariant zc + k == old(zc) && sent == old(sent) + Rep(0, k)
        invariant out == seg.base + Stuff(sent)
        decreases zc
      {
        EmitStuffed(0x00);
        zc := zc - 1;
        k := k + 1;
      }
    }

    method EmitStacked()
      requires out == seg.base + Stuff(sent)
      modifies `out, `sent, `sc
      ensures sc == 0 && sent == old(sent) + Rep(255, old(sc))
      ensures out == seg.base + Stuff(sent)
    {
      ghost var k := 0;
      while sc > 0
        invariant sc + k == old(sc) && sent == old(sent) + Rep(255, k)
        invariant out == seg.base + Stuff(sent)
        decreases sc
      {
        EmitStuffed(0xFF);
        sc := sc - 1;
        k := k + 1;
      }
    }

    /** Overflow: the carry goes into `buffer` and turns the stacked 0xFF bytes into zeros. */
    method Carry()
      requires Output()
      modifies `out, `sent, `zc, `sc
      ensures Sending() && sc == 0
      ensures buffer >= 0 ==> |sent| + zc == |pending|
      ensures buffer >= 0 ==> Val(sent + Rep(0, zc)) == Val(pending) + 1
    {
      hide Stuff, Rep, Val;
      NoBytes(0);
      NoBytes(255);
      if buffer >= 0 {
        CarryRipples(sent + Rep(0, zc), buffer as Byte, sc);
        if zc != 0 {
          EmitZeros();
        }
        EmitStuffed((buffer + 1) as Byte);
        assert sent == old(sent + Rep(0, zc)) + [(buffer + 1) as Byte];
      }
      zc := zc + sc;
      sc := 0;
    }

    /** No overflow: everything held back is final, zeros at the end excepted. */
    method Release()
      requires Output()
      modifies `out, `sent, `zc, `sc
      ensures Sending() && sc == 0
      ensures sent + Rep(0, zc) == pending
    {
      hide Stuff, Rep;
      NoBytes(0);
      NoBytes(255);
      RepNext(0, zc);
      ghost var middle := sent + Rep(0, zc) + if buffer >= 0 then [buffer as Byte] else [];
      if buffer == 0 {
        zc := zc + 1;
      } else if buffer > 0 {
        if zc != 0 {
          EmitZeros();
        }
        EmitStuffed(buffer as Byte);
      }
      assert sent + Rep(0, zc) == middle;
      if sc != 0 {
        if zc != 0 {
          EmitZeros();
        }
        EmitStacked();
        RepAt(255, old(sc), old(sc) - 1);
      }
      assert sent + Rep(0, zc) == middle + Rep(255, old(sc));
    }

    /** Hand a complete byte on.  0xFF bytes are stacked until it is known whether they overflow;
        a carry is at most 1, finds a byte to go into, and never leaves 0xFF in `buffer`. */
    method ByteOut(temp: nat)
      requires Output() && temp <= 0x11F
      requires temp > 0xFF && buffer == -1 ==> pending != Rep(255, |pending|)
      modifies `out, `sent, `pending, `zc, `sc, `buffer
      ensures Output()
      ensures Val(pending) == Val(old(pending)) * 256 + temp
      ensures |pending| == |old(pending)| + 1
    {
      hide Stuff, Val, Rep, NoTrailingZero;
      NoBytes(0);
      NoBytes(255);
      RepNext(255, sc);
      ghost var p := pending;
      ghost var carry := if temp > 0xFF then 1 else 0;
      ghost var b := (temp - 0x100 * carry) as Byte;
      if temp > 0xFF {
        assert pending == Rep(255, sc) || buffer >= 0;
        Carry();
        buffer := temp % 0x100;
        pending := sent + Rep(0, zc);
      } else if temp == 0xFF {
        sc := sc + 1;
      } else {
        Release();
        buffer := temp;
      }
      assert Val(pending) == Val(p) + carry && |pending| == |p|;
      ValSnoc(pending, b);
      pending := pending + [b];
    }

    /** One round of renormalization. */
    method Shift(ghost iv: Interval)
      requires Represents(iv) && a < 0x8000 && 0 < ct
      modifies this
      ensures Represents(Doubled(iv)) && 0 < ct && a == 2 * old(a)
      ensures stats == old(stats) && seg == old(seg)
    {
      hide Output, Rep, Shl;
      RegistersShift(iv, pending, c, a, ct);
      a := 2 * a;
      c := 2 * c;
      ct := ct - 1;
      if ct == 0 {
        RegistersCarry(Doubled(iv), pending, c, a);
        ghost var p := pending;
        ByteOut(c / 0x8_0000);
        RegistersByte(Doubled(iv), p, c, a, pending);
        c := c % 0x8_0000;
        ct := ct + 8;
      }
    }

    method Renormalize(ghost iv: Interval)
      requires Represents(iv) && a < 0x8000 && 0 < ct
      modifies this
      ensures Represents(Renorm(iv)) && 0x8000 <= a && 0 < ct
      ensures stats == old(stats) && seg == old(seg)
    {
      ghost var r := iv;
      var again := true;
      while again
        invariant Represents(r) && 0 < ct
        invariant again <==> a < 0x8000
        invariant Renorm(r) == Renorm(iv)
        invariant stats == old(stats) && seg == old(seg)
        decreases 0x1_0000 - a
      {
        Shift(r);
        r := Doubled(r);
        again := a < 0x8000;
      }
    }

    method CodeDecision(ghost m: Model, st: nat, val: Bit)
      requires Coded(m) && Normal(m.iv) && st < stats.Length
      modifies this, stats
      ensures Coded(Code(m, Decision(st, val)))
      ensures stats == old(stats) && seg == old(seg)
    {
      hide Shl, Output, Qe, Mps, AfterLps, AfterMps, Val;
      var sv := stats[st];
      var qe := Qe(sv);
      RegistersCut(m.iv, pending, c, a, ct, sv, val);
      a := a - qe;
      if val != Mps(sv) {
        // The upper part, unless that is the larger one
        if a >= qe {
          c := c + a;
          a := qe;
        }
        stats[st] := AfterLps(sv);
      } else {
        // The lower part, unless that is the smaller one
        if a >= 0x8000 {
          return;
        }
        if a < qe {
          c := c + a;
          a := qe;
        }
        stats[st] := AfterMps(sv);
      }
      Renormalize(Cut(m.iv, sv, val));
    }

    /** Code one binary decision with the statistics bin `st`. */
    method Encode(st: nat, val: Bit)
      requires Valid() && st < stats.Length
      modifies this, stats
      ensures Valid() && stats == old(stats)
      ensures seg == old(seg).(decisions := old(seg.decisions) + [Decision(st, val)])
    {
      ghost var m := seg.Coded();
      CodeDecision(m, st, val);
      ghost var d := Decision(st, val);
      RunNext(seg.bins, seg.decisions, d);
      seg := seg.(decisions := seg.decisions + [d]);
    }

    /** Terminate a segment.  The bytes sent for it decode to what was coded, and
        none of them is a zero byte that could have been left out. */
    method Finish()
      requires Valid()
      modifies this
      ensures stats == old(stats) && seg == old(seg)
      ensures out == seg.base + Stuff(sent)
      ensures NoTrailingZero(sent)
      ensures In(sent, seg.Coded().iv)
      ensures Decode(sent, seg.bins, Asked(seg.decisions)) == (seg.Coded(), Bits(seg.decisions))
    {
      hide Shl, Val, Registers, FinalC, In, Stuff, Rep, Decode, Bits, Asked;
      ghost var iv, p, c0 := seg.Coded().iv, pending, c;
      RegistersFinal(iv, pending, c, a, ct);
      c := FinalC(c, a);
      c := Shl(c, ct);
      if c / 0x800_0000 != 0 {
        // The final number carries
        assert pending == Rep(255, sc) || buffer >= 0;
        Carry();
      } else {
        Release();
      }
      ghost var q := sent + Rep(0, zc);
      assert Val(q) == Val(p) + c / 0x800_0000 && |q| == |p|;
      var hi, lo := (c / 0x8_0000 % 0x100) as Byte, (c / 0x800 % 0x100) as Byte;
      ValSnoc(q, hi);
      ValSnoc(q + [hi], lo);
      FinalBytes(c, Val(p), hi as nat, lo as nat);
      FinalInside(iv, p, c0, a, ct, q + [hi] + [lo]);
      FinalOutput(hi, lo);
      ghost var k :| q + [hi] + [lo] == sent + Rep(0, k);
      InTrailingZeros(sent, k, iv);
      DecodingInvertsCoding(sent, seg.bins, seg.decisions);
    }

    /** The last two bytes, zeros at the end left out.  Of the two masks of the original the first
        selects both bytes, the second one the second byte. */
    method FinalOutput(hi: Byte, lo: Byte)
      requires Sending()
      modifies `out, `sent, `zc
      ensures Sending()
      ensures exists k: nat :: old(sent + Rep(0, zc)) + [hi] + [lo] == sent + Rep(0, k)
    {
      hide Stuff, Rep;
      ghost var q := sent + Rep(0, zc);
      ghost var k := zc + 2;
      NoBytes(0);
      RepNext(0, 0);
      RepNext(0, zc);
      RepNext(0, zc + 1);
      if hi != 0 || lo != 0 {
        if zc != 0 {
          EmitZeros();
        }
        EmitStuffed(hi);
        k := 1;
        if lo != 0 {
          EmitStuffed(lo);
          k := 0;
        }
      }
      assert q + [hi] + [lo] == sent + Rep(0, k);
    }
  }

  /** Code a whole segment behind what the destination already holds.  The bytes of the segment, unstuffed,
      are a stream inside the final interval. */
  method EncodeSegment(bins: seq<Bin>, ds: seq<Decision>, before: seq<Byte>) returns (out: seq<Byte>)
    requires InRange(ds, |bins|)
    ensures before <= out
    ensures var data := ReadEntropy(out[|before|..]).0;
      && out == before + Stuff(data) && NoTrailingZero(data)
      && In(data, Run(bins, ds).iv)
      && Decode(data, bins, Asked(ds)) == (Run(bins, ds), Bits(ds))
  {
    hide Decode, In, Run, ArithEncoder.Coded, ReadEntropy, Stuff;
    var stats := new Bin[|bins|](i requires 0 <= i < |bins| => bins[i]);
    assert stats[..] == bins;
    var e := new ArithEncoder(stats, before);
    for i := 0 to |ds|
      invariant fresh(e) && e.Valid() && e.stats == stats
      invariant e.seg == Segment(before, bins, ds[..i])
    {
      e.Encode(ds[i].bin, ds[i].bit);
      assert ds[..i + 1] == ds[..i] + [ds[i]];
    }
    assert ds[..|ds|] == ds;
    e.Finish();
    out := e.out;
    assert out[|before|..] == Stuff(e.sent) + [];
    EntropyIsRead(e.sent, []);
  }
}
