/** Scans cut into restart intervals: which units of data belong to which interval, how the entropy-coded
    bits of the intervals are framed by restart markers (section B.1.1.5 and E.1.4 of ITU-T T.81), and how
    a decoder separates them again. */
module RestartIntervals {
  import opened BitStrings
  import opened ByteStreams
  import opened BitPacking
  import opened HuffmanDerive
  import opened EntropyItems
  import opened ReciprocalDivision

  // ---------- which units belong to which interval ----------

  /** The units of the finished restart intervals, and those of the current one. */
  datatype History<T> = History(finished: seq<seq<T>>, current: seq<T>)

  /** One more unit: it opens a new interval if the current one is full. */
  function Next<T>(h: History<T>, interval: nat, unit: T): History<T> {
    if interval > 0 && |h.current| == interval then History(h.finished + [h.current], [unit])
    else History(h.finished, h.current + [unit])
  }

  function HistoryOf<T>(interval: nat, units: seq<T>): History<T> {
    if units == [] then History([], [])
    else Next(HistoryOf(interval, units[..|units| - 1]), interval, units[|units| - 1])
  }

  /** The units of all intervals in order. */
  function InOrder<T>(intervals: seq<seq<T>>): seq<T> {
    if intervals == [] then [] else InOrder(intervals[..|intervals| - 1]) + intervals[|intervals| - 1]
  }

  function Intervals<T>(h: History<T>): seq<seq<T>> {
    h.finished + [h.current]
  }

  /** Every interval but the last is full; the last is not empty. */
  ghost predicate Divided<T>(interval: nat, h: History<T>) {
    && h.current != []
    && (interval > 0 ==> |h.current| <= interval)
    && (h.finished != [] ==> interval > 0)
    && forall s <- h.finished :: |s| == interval
  }

  lemma InOrderSnoc<T>(f: seq<seq<T>>, x: seq<T>)
    ensures InOrder(f + [x]) == InOrder(f) + x
  {
    assert (f + [x])[..|f|] == f;
  }

  lemma {:induction false} InOrderCons<T>(x: seq<T>, f: seq<seq<T>>)
    ensures InOrder([x] + f) == x + InOrder(f)
  {
    if f == [] {
      assert [x] + f == [] + [x];
      InOrderSnoc([], x);
    } else {
      var g, y := f[..|f| - 1], f[|f| - 1];
      InOrderCons(x, g);
      assert f == g + [y];
      Associative([x], g, [y]);
      InOrderSnoc([x] + g, y);
      InOrderSnoc(g, y);
      Associative(x, InOrder(g), y);
    }
  }

  /** The intervals hold all units in order. */
  lemma {:induction false} HistoryHoldsAll<T>(interval: nat, units: seq<T>)
    ensures InOrder(Intervals(HistoryOf(interval, units))) == units
    ensures units != [] ==> Divided(interval, HistoryOf(interval, units))
  {
    hide InOrder;
    if units == [] {
      InOrderSnoc<T>([], []);
      InOrderNothing<T>();
    } else {
      var n := |units| - 1;
      var h := HistoryOf(interval, units[..n]);
      HistoryHoldsAll(interval, units[..n]);
      InOrderSnoc(h.finished, h.current);
      InOrderSnoc(h.finished, h.current + [units[n]]);
      InOrderSnoc(h.finished + [h.current], [units[n]]);
      assert units == units[..n] + [units[n]];
      Associative(InOrder(h.finished), h.current, [units[n]]);
    }
  }

  /** The intervals as a decoder knows them from the number of units alone. */
  function Chunks<T>(interval: nat, units: seq<T>): (r: seq<seq<T>>)
    ensures r != []
    decreases |units|
  {
    if interval == 0 || |units| <= interval then [units]
    else [units[..interval]] + Chunks(interval, units[interval..])
  }

  /** Unit number q * interval + r stands in interval number q, at place r; and without restarts there is one
      interval. */
  lemma {:induction false} UnitStandsIn<T>(interval: nat, units: seq<T>, q: nat, r: nat)
    requires r < interval && Times(q, interval) + r < |units|
    ensures Chunks(0, units) == [units]
    ensures var parts := Chunks(interval, units);
      q < |parts| && r < |parts[q]| <= interval && parts[q][r] == units[Times(q, interval) + r]
    decreases q
  {
    hide Times;
    TimesZero(interval);
    if q > 0 {
      TimesAdd(q - 1, 1, interval);
      TimesOne(interval);
      assert interval < |units|;
      UnitStandsIn(interval, units[interval..], q - 1, r);
    } else if |units| > interval {
      assert units[..interval][r] == units[r];
    }
  }

  lemma {:induction false} ChunksAreIntervals<T>(interval: nat, h: History<T>)
    requires Divided(interval, h)
    ensures Chunks(interval, InOrder(Intervals(h))) == Intervals(h)
    decreases |h.finished|
  {
    hide InOrder;
    var f := Intervals(h);
    if h.finished == [] {
      assert f == [] + [h.current];
      InOrderSnoc([], h.current);
      InOrderNothing<T>();
      assert [] + h.current == h.current;
    } else {
      var x := f[0];
      var g := History(h.finished[1..], h.current);
      assert x in h.finished && f == [x] + Intervals(g);
      InOrderCons(x, Intervals(g));
      ChunksAreIntervals(interval, g);
      MoreToCome(interval, g);
      var all := x + InOrder(Intervals(g));
      assert all[..interval] == x && all[interval..] == InOrder(Intervals(g));
    }
  }

  lemma InOrderNothing<T>()
    ensures InOrder<T>([]) == []
  {
  }

  lemma MoreToCome<T>(interval: nat, h: History<T>)
    requires Divided(interval, h)
    ensures InOrder(Intervals(h)) != []
  {
    InOrderSnoc(h.finished, h.current);
  }

  // ---------- framing ----------

  /** The marker after the interval with the given number. */
  function RestartMarker(num: nat): seq<Byte> {
    [255, (0xD0 + num % 8) as Byte]
  }

  /** The bytes of finished intervals, each followed by its restart marker. */
  function FinishedBytes(f: seq<Bits>): seq<Byte> {
    if f == [] then []
    else
      var n := |f| - 1;
      FinishedBytes(f[..n]) + Stuff(Pack(f[n])) + RestartMarker(n)
  }

  lemma FinishedSnoc(f: seq<Bits>, x: Bits)
    ensures FinishedBytes(f + [x]) == FinishedBytes(f) + Stuff(Pack(x)) + RestartMarker(|f|)
  {
    assert (f + [x])[..|f|] == f;
  }

  /** The bytes of a scan with the given intervals. */
  function FramedBytes(f: seq<Bits>): seq<Byte>
    requires f != []
  {
    FinishedBytes(f[..|f| - 1]) + Stuff(Pack(f[|f| - 1]))
  }

  /** What a scan consists of: the stuffed bytes of its first interval, and between any two intervals the marker
      0xFFD0 to 0xFFD7 with the number of the first of the two, modulo 8. */
  lemma ScanIsFramed(f: seq<Bits>, x: Bits)
    ensures FramedBytes([x]) == Stuff(Pack(x))
    ensures f != [] ==>
      FramedBytes(f + [x]) == FramedBytes(f) + [0xFF, (0xD0 + (|f| - 1) % 8) as Byte] + Stuff(Pack(x))
  {
    hide Stuff, Pack;
    assert (f + [x])[..|f|] == f;
    if f != [] {
      FinishedSnoc(f[..|f| - 1], f[|f| - 1]);
      assert f == f[..|f| - 1] + [f[|f| - 1]];
    }
  }

  // ---------- separating the intervals ----------

  /** The bits of `count` intervals, numbered from `num`, each with the padding of its last byte. */
  ghost function Unframe(s: seq<Byte>, num: nat, count: nat): Option<seq<Bits>>
    decreases count
  {
    var (payload, rest) := ReadEntropy(s);
    if count <= 1 then Some([Unpack(payload)])
    else if RestartMarker(num) <= rest then
      match Unframe(rest[2..], num + 1, count - 1)
      case None => None
      case Some(more) => Some([Unpack(payload)] + more)
    else None
  }

  /** The bits with the ones that fill up the last byte. */
  function Padded(bits: Bits): Bits {
    Unpack(Pack(bits))
  }

  lemma PaddedIs(bits: Bits)
    ensures exists k: nat :: k < 8 && Padded(bits) == bits + Ones(k)
  {
    PackPacks(bits);
    var k: nat := 8 * |Pack(bits)| - |bits|;
    assert Padded(bits) == bits + Ones(k);
  }

  function PaddedAll(f: seq<Bits>): (r: seq<Bits>)
    ensures |r| == |f|
  {
    seq(|f|, i requires 0 <= i < |f| => Padded(f[i]))
  }

  /** The bytes of a scan from some interval on. */
  ghost function RestBytes(f: seq<Bits>, num: nat): seq<Byte>
    requires f != []
  {
    if |f| == 1 then Stuff(Pack(f[0]))
    else Stuff(Pack(f[0])) + (RestartMarker(num) + RestBytes(f[1..], num + 1))
  }

  lemma {:induction false} FramedIsRest(f: seq<Bits>, k: nat)
    requires k < |f|
    ensures FinishedBytes(f[..k]) + RestBytes(f[k..], k) == RestBytes(f, 0)
  {
    hide Stuff, Pack;
    if k == 0 {
      assert f[0..] == f;
    } else {
      FramedIsRest(f, k - 1);
      assert f[..k][..k - 1] == f[..k - 1] && f[k - 1..][1..] == f[k..];
      var head, x := FinishedBytes(f[..k - 1]), Stuff(Pack(f[k - 1]));
      var tail := RestBytes(f[k..], k);
      Associative(head, x, RestartMarker(k - 1) + tail);
      Associative(head + x, RestartMarker(k - 1), tail);
    }
  }

  lemma {:induction false} RestIsUnframed(f: seq<Bits>, num: nat, tail: seq<Byte>)
    requires f != [] && AtMarker(tail)
    ensures Unframe(RestBytes(f, num) + tail, num, |f|) == Some(PaddedAll(f))
  {
    hide Stuff, Pack, Unpack, ReadEntropy;
    if |f| == 1 {
      EntropyIsRead(Pack(f[0]), tail);
      assert PaddedAll(f) == [Padded(f[0])];
    } else {
      var more := RestBytes(f[1..], num + 1);
      var behind := RestartMarker(num) + (more + tail);
      Associative(Stuff(Pack(f[0])), RestartMarker(num) + more, tail);
      Associative(RestartMarker(num), more, tail);
      EntropyIsRead(Pack(f[0]), behind);
      RestIsUnframed(f[1..], num + 1, tail);
      assert behind[2..] == more + tail;
      assert PaddedAll(f) == [Padded(f[0])] + PaddedAll(f[1..]);
    }
  }

  /** A decoder separates the intervals of a scan, up to the marker that follows it. */
  lemma UnframeInverts(f: seq<Bits>, tail: seq<Byte>)
    requires f != [] && AtMarker(tail)
    ensures Unframe(FramedBytes(f) + tail, 0, |f|) == Some(PaddedAll(f))
  {
    hide Unframe, PaddedAll;
    var k := |f| - 1;
    FramedIsRest(f, k);
    assert f[k..] == [f[k]];
    RestIsUnframed(f, 0, tail);
  }

  /** Scans whose intervals have the same lengths consist of the same bytes only if they are the same. */
  lemma FramedInjective(f: seq<Bits>, g: seq<Bits>)
    requires f != [] && |f| == |g| && forall i :: 0 <= i < |f| ==> |f[i]| == |g[i]|
    requires FramedBytes(f) == FramedBytes(g)
    ensures f == g
  {
    hide Unframe, FramedBytes, Pack, Unpack;
    UnframeInverts(f, []);
    UnframeInverts(g, []);
    forall i | 0 <= i < |f|
      ensures f[i] == g[i]
    {
      assert PaddedAll(f)[i] == PaddedAll(g)[i];
      UnpackInjective(Pack(f[i]), Pack(g[i]));
      PackInjective(f[i], g[i]);
    }
  }
}
