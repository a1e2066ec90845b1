/** The binary arithmetic coder of ITU-T T.81, section D.1, over unbounded integers: no register
    width, no carries, no output.  The register-level encoder and decoder refine it. */
module IntervalCoding {
  import opened Shifts
  import opened ByteStreams
  import opened ArithTable

  datatype Decision = Decision(bin: nat, bit: Bit)

  /** The interval [low, low + a) in units of 2^-(16 + n). */
  datatype Interval = Interval(low: nat, a: nat, n: nat)

  const UNIT := Interval(0, 0x10000, 0)

  ghost predicate Normal(s: Interval) {
    0x8000 <= s.a <= 0x10000 && s.low + s.a <= Pow2(16 + s.n)
  }

  /** The current interval is cut into a lower part of size a - Qe and an upper part of size Qe;
      the more probable symbol gets the larger one. */
  predicate TakesUpper(s: Interval, sv: Bin, bit: Bit) {
    (bit == Mps(sv)) == (s.a - Qe(sv) < Qe(sv))
  }

  function Cut(s: Interval, sv: Bin, bit: Bit): (r: Interval)
    requires 0x8000 <= s.a
    ensures 0 < r.a && s.low <= r.low && r.low + r.a <= s.low + s.a && r.n == s.n
  {
    if TakesUpper(s, sv, bit) then Interval(s.low + s.a - Qe(sv), Qe(sv), s.n)
    else Interval(s.low, s.a - Qe(sv), s.n)
  }

  function Renorm(s: Interval): (r: Interval)
    requires 0 < s.a <= 0x10000 && s.low + s.a <= Pow2(16 + s.n)
    ensures Normal(r)
    decreases 0x8000 - s.a
  {
    if s.a >= 0x8000 then s else Renorm(Doubled(s))
  }

  /** The bin after coding `bit`: estimation happens only when the decision forces a renormalization. */
  function Adapt(s: Interval, sv: Bin, bit: Bit): Bin {
    if bit != Mps(sv) then AfterLps(sv)
    else if s.a - Qe(sv) >= 0x8000 then sv
    else AfterMps(sv)
  }

  datatype Model = Model(iv: Interval, bins: seq<Bin>)

  function Code(m: Model, d: Decision): (r: Model)
    requires Normal(m.iv) && d.bin < |m.bins|
    ensures Normal(r.iv) && |r.bins| == |m.bins|
  {
    var sv := m.bins[d.bin];
    Model(Renorm(Cut(m.iv, sv, d.bit)), m.bins[d.bin := Adapt(m.iv, sv, d.bit)])
  }

  /** The parts of both symbols tile the interval, the upper one has size Qe, and the more probable symbol, named
      by bit 7 of the bin, has the larger part. */
  lemma PartsTile(s: Interval, sv: Bin)
    requires 0x8000 <= s.a
    ensures var qe := TableRow(sv % 0x80).qe;
      var lower := Interval(s.low, s.a - qe, s.n);
      var upper := Interval(s.low + lower.a, qe, s.n);
      var mps := Cut(s, sv, if sv >= 0x80 then 1 else 0);
      var lps := Cut(s, sv, if sv >= 0x80 then 0 else 1);
      mps.a >= lps.a && ((mps, lps) == (lower, upper) || (mps, lps) == (upper, lower))
  {
    hide TableRow, AriTab;
    QeIsOfRow(sv);
    SenseIsBit7(sv);
  }

  /** What a decision does to the statistics: nothing as long as its part need not be renormalized. If it must be,
      a more probable symbol moves its bin to the next row for that case and never touches the sense, while a less
      probable one moves it to the other next row and changes the sense exactly if the row says so. */
  lemma BinsFollow(m: Model, d: Decision)
    requires Normal(m.iv) && d.bin < |m.bins|
    ensures var sv := m.bins[d.bin];
      var row := TableRow(sv % 0x80);
      var sense := if sv >= 0x80 then 1 else 0;
      var r := Code(m, d).bins;
      && (forall j :: 0 <= j < |m.bins| && j != d.bin ==> r[j] == m.bins[j])
      && (if Cut(m.iv, sv, d.bit).a >= 0x8000 then d.bit == sense && r[d.bin] == sv
          else if d.bit == sense then r[d.bin] % 0x80 == row.nextMps && (r[d.bin] >= 0x80 <==> sv >= 0x80)
          else r[d.bin] % 0x80 == row.nextLps && ((r[d.bin] >= 0x80 <==> sv >= 0x80) <==> row.switchMps == 0))
  {
    hide TableRow, AriTab, Qe, AfterMps, AfterLps;
    var sv := m.bins[d.bin];
    QeIsOfRow(sv);
    SenseIsBit7(sv);
    SenseIsBit7(AfterMps(sv));
    SenseIsBit7(AfterLps(sv));
    MpsKeepsSense(sv);
    LpsMayChangeSense(sv);
  }

  ghost predicate InRange(ds: seq<Decision>, size: nat) {
    forall i :: 0 <= i < |ds| ==> ds[i].bin < size
  }

  /** The coder after a whole sequence of decisions. */
  function Run(bins: seq<Bin>, ds: seq<Decision>): (m: Model)
    requires InRange(ds, |bins|)
    ensures Normal(m.iv) && |m.bins| == |bins|
  {
    if ds == [] then
      ShlValues(1);
      Model(UNIT, bins)
    else
      Code(Run(bins, ds[..|ds| - 1]), ds[|ds| - 1])
  }

  /** Renormalizing doubles the interval, as often as it takes to get its size into [0x8000, 0x10000]. */
  lemma {:induction false} RenormDoubles(s: Interval)
    requires 0 < s.a <= 0x10000 && s.low + s.a <= Pow2(16 + s.n)
    ensures var r := Renorm(s);
      r.n >= s.n && r.low == Shl(s.low, r.n - s.n) && r.a == Shl(s.a, r.n - s.n) && 0x8000 <= r.a <= 0x10000
    decreases 0x8000 - s.a
  {
    if s.a < 0x8000 {
      var t := Doubled(s);
      RenormDoubles(t);
      var k := Renorm(s).n - t.n;
      ShlDouble(s.low, k);
      ShlDouble(s.a, k);
    } else {
      ShlNone(s.low);
      ShlNone(s.a);
    }
  }

  lemma RunNext(bins: seq<Bin>, ds: seq<Decision>, d: Decision)
    requires InRange(ds, |bins|) && d.bin < |bins|
    ensures InRange(ds + [d], |bins|)
    ensures Run(bins, ds + [d]) == Code(Run(bins, ds), d)
  {
    assert (ds + [d])[..|ds|] == ds;
  }

  // ---------- byte streams that lie in an interval ----------

  /** How many bytes reach at least as far as the interval's own precision. */
  function BytesFor(n: nat): (r: nat)
    ensures 8 * r - 8 < 16 + n <= 8 * r
  {
    (16 + n + 7) / 8
  }

  ghost predicate InAt(data: seq<Byte>, s: Interval, r: nat)
    requires 16 + s.n <= 8 * r
  {
    var k := 8 * r - 16 - s.n;
    Shl(s.low, k) <= Val(Ext(data, r)) < Shl(s.low + s.a, k)
  }

  /** `data`, read as a binary fraction with endless zeros behind it, lies in the interval. */
  ghost predicate In(data: seq<Byte>, s: Interval) {
    InAt(data, s, BytesFor(s.n))
  }

  lemma InAtNext(data: seq<Byte>, s: Interval, r: nat)
    requires 16 + s.n <= 8 * r
    ensures InAt(data, s, r) <==> InAt(data, s, r + 1)
  {
    hide Shl, Val, Ext;
    var k := 8 * r - 16 - s.n;
    ExtSnoc(data, r);
    ShlShl(s.low, k, 8);
    ShlShl(s.low + s.a, k, 8);
    ShlValues(Shl(s.low, k));
    ShlValues(Shl(s.low + s.a, k));
  }

  lemma {:induction false} InAtFrom(data: seq<Byte>, s: Interval, r: nat, r': nat)
    requires 16 + s.n <= 8 * r && r <= r'
    ensures InAt(data, s, r) <==> InAt(data, s, r')
    decreases r' - r
  {
    if r < r' {
      InAtNext(data, s, r);
      InAtFrom(data, s, r + 1, r');
    }
  }

  /** The number of bytes looked at does not matter. */
  lemma InAnywhere(data: seq<Byte>, s: Interval, r: nat)
    requires 16 + s.n <= 8 * r
    ensures InAt(data, s, r) <==> In(data, s)
  {
    InAtFrom(data, s, BytesFor(s.n), r);
  }

  lemma InTrailingZeros(data: seq<Byte>, k: nat, s: Interval)
    ensures In(data + Rep(0, k), s) <==> In(data, s)
  {
    ExtTrailingZeros(data, k, BytesFor(s.n));
  }

  function Doubled(s: Interval): Interval {
    Interval(2 * s.low, 2 * s.a, s.n + 1)
  }

  lemma InAtDoubled(data: seq<Byte>, s: Interval, r: nat)
    requires 17 + s.n <= 8 * r
    ensures InAt(data, s, r) <==> InAt(data, Doubled(s), r)
  {
    ShlDouble(s.low, 8 * r - 17 - s.n);
    ShlDouble(s.low + s.a, 8 * r - 17 - s.n);
    assert 2 * (s.low + s.a) == 2 * s.low + 2 * s.a;
  }

  lemma InDoubled(data: seq<Byte>, s: Interval)
    ensures In(data, s) <==> In(data, Doubled(s))
  {
    var r := BytesFor(s.n + 1);
    InAnywhere(data, s, r);
    InAtDoubled(data, s, r);
  }

  lemma {:induction false} InRenorm(data: seq<Byte>, s: Interval)
    requires 0 < s.a <= 0x10000 && s.low + s.a <= Pow2(16 + s.n)
    ensures In(data, Renorm(s)) <==> In(data, s)
    decreases 0x8000 - s.a
  {
    if s.a < 0x8000 {
      InDoubled(data, s);
      InRenorm(data, Doubled(s));
    }
  }

  // ---------- decoding ----------

  /** Section D.2: compare the stream with the point where the interval is cut. */
  ghost predicate AboveCut(data: seq<Byte>, s: Interval, sv: Bin)
    requires 0x8000 <= s.a
  {
    var r := BytesFor(s.n);
    Shl(s.low + s.a - Qe(sv), 8 * r - 16 - s.n) <= Val(Ext(data, r))
  }

  ghost function DecodedBit(data: seq<Byte>, s: Interval, sv: Bin): Bit
    requires 0x8000 <= s.a
  {
    if AboveCut(data, s, sv) == TakesUpper(s, sv, Mps(sv)) then Mps(sv) else 1 - Mps(sv)
  }

  /** A stream inside the sub-interval of a decision is inside the interval it was cut from,
      and the decoder recognizes the decision. */
  lemma CutIsDecodable(data: seq<Byte>, s: Interval, sv: Bin, bit: Bit)
    requires 0x8000 <= s.a && In(data, Cut(s, sv, bit))
    ensures In(data, s) && DecodedBit(data, s, sv) == bit
  {
    hide Shl, Val, Ext, Qe;
    var r := BytesFor(s.n);
    var k := 8 * r - 16 - s.n;
    var m := s.low + s.a - Qe(sv);
    ShlOrder(s.low, m, k);
    ShlOrder(m, s.low + s.a, k);
  }

  ghost function Decode(data: seq<Byte>, bins: seq<Bin>, asked: seq<nat>): (r: (Model, seq<Bit>))
    requires forall i :: 0 <= i < |asked| ==> asked[i] < |bins|
    ensures Normal(r.0.iv) && |r.0.bins| == |bins|
  {
    if asked == [] then (Run(bins, []), [])
    else
      var (m, bits) := Decode(data, bins, asked[..|asked| - 1]);
      var bin := asked[|asked| - 1];
      var bit := DecodedBit(data, m.iv, m.bins[bin]);
      (Code(m, Decision(bin, bit)), bits + [bit])
  }

  lemma DecodeNext(data: seq<Byte>, bins: seq<Bin>, asked: seq<nat>, bin: nat)
    requires bin < |bins| && forall i :: 0 <= i < |asked| ==> asked[i] < |bins|
    ensures var (m, bits) := Decode(data, bins, asked);
      var bit := DecodedBit(data, m.iv, m.bins[bin]);
      Decode(data, bins, asked + [bin]) == (Code(m, Decision(bin, bit)), bits + [bit])
  {
    assert (asked + [bin])[..|asked|] == asked;
  }

  function Asked(ds: seq<Decision>): (r: seq<nat>)
    ensures |r| == |ds| && forall i :: 0 <= i < |ds| ==> r[i] == ds[i].bin
  {
    seq(|ds|, i requires 0 <= i < |ds| => ds[i].bin)
  }

  function Bits(ds: seq<Decision>): (r: seq<Bit>)
    ensures |r| == |ds| && forall i :: 0 <= i < |ds| ==> r[i] == ds[i].bit
  {
    seq(|ds|, i requires 0 <= i < |ds| => ds[i].bit)
  }

  lemma SplitLast(ds: seq<Decision>)
    requires ds != []
    ensures Asked(ds) == Asked(ds[..|ds| - 1]) + [ds[|ds| - 1].bin]
    ensures Bits(ds) == Bits(ds[..|ds| - 1]) + [ds[|ds| - 1].bit]
  {
  }

  lemma LastDecision(data: seq<Byte>, m: Model, d: Decision)
    requires Normal(m.iv) && d.bin < |m.bins|
    requires In(data, Code(m, d).iv)
    ensures In(data, m.iv) && DecodedBit(data, m.iv, m.bins[d.bin]) == d.bit
  {
    InRenorm(data, Cut(m.iv, m.bins[d.bin], d.bit));
    CutIsDecodable(data, m.iv, m.bins[d.bin], d.bit);
  }

  /** Later intervals lie inside earlier ones. */
  lemma {:induction false} IntervalsNest(data: seq<Byte>, bins: seq<Bin>, ds: seq<Decision>, i: nat)
    requires InRange(ds, |bins|) && i <= |ds|
    requires In(data, Run(bins, ds).iv)
    ensures In(data, Run(bins, ds[..i]).iv)
    decreases |ds|
  {
    if i == |ds| {
      assert ds[..i] == ds;
    } else {
      var ds' := ds[..|ds| - 1];
      LastDecision(data, Run(bins, ds'), ds[|ds| - 1]);
      IntervalsNest(data, bins, ds', i);
      assert ds'[..i] == ds[..i];
    }
  }

  /** Any stream inside the final interval decodes to the decisions that produced the interval. */
  lemma {:induction false} DecodingInvertsCoding(data: seq<Byte>, bins: seq<Bin>, ds: seq<Decision>)
    requires InRange(ds, |bins|)
    requires In(data, Run(bins, ds).iv)
    ensures Decode(data, bins, Asked(ds)) == (Run(bins, ds), Bits(ds))
  {
    if ds == [] {
    } else {
      var ds' := ds[..|ds| - 1];
      var m := Run(bins, ds');
      var d := ds[|ds| - 1];
      LastDecision(data, m, d);
      DecodingInvertsCoding(data, bins, ds');
      DecodeNext(data, bins, Asked(ds'), d.bin);
      SplitLast(ds);
    }
  }
}
