/** End-of-band runs (sections G.1.2.2 and G.1.2.3 of ITU-T T.81).  A block whose band ends early adds to
    a pending run of such blocks; the run is written before the next block that has something to say. */
module EobRuns {
  import opened Shifts
  import opened EntropyItems
  import opened Coefficients

  const MAX_CORR_BITS := 1000
  const MAX_EOBRUN := 0x7FFF

  /** What one block contributes: items to write at once; correction bits that go with the end of its
      band; and whether the band ends early. */
  datatype Part = Part(head: Items, tail: Items, open: bool)

  /** A pending run: how many bands end early, and their correction bits. */
  datatype Run = Run(count: nat, bits: Items)

  const NO_RUN := Run(0, [])

  /** Only bands that end early have correction bits left, and few of them; a band without a head always ends
      early. */
  ghost predicate Plausible(p: Part) {
    && (!p.open ==> p.tail == [] && p.head != [])
    && |p.tail| < 64
  }

  /** The symbol for a run of n bands, and its additional bits. */
  function EobItems(n: nat, ac: nat): Items
    requires n > 0
  {
    var k := NBits(n) - 1;
    [Symbol(ac, 16 * k)] + if k > 0 then [Extra(n - Pow2(k), k)] else []
  }

  /** Table G.1 of ITU-T T.81: a run of 2^k up to 2^(k + 1) - 1 blocks is symbol 16 * k, and k bits that count on from
      2^k. */
  lemma EobItemsAre(n: nat, k: nat, ac: nat)
    requires Pow2(k) <= n < Pow2(k + 1)
    ensures EobItems(n, ac) == [Symbol(ac, 16 * k)] + if k == 0 then [] else [Extra(n - Pow2(k), k)]
  {
    hide Pow2, NBits;
    NBitsAtMost(n, k);
    NBitsAtMost(n, k + 1);
  }

  function Pending(r: Run, ac: nat): Items {
    if r.count == 0 then [] else EobItems(r.count, ac) + r.bits
  }

  /** The run after a block. */
  function Absorb(r: Run, p: Part): Run {
    var base := if p.head == [] then r else NO_RUN;
    if p.open then Run(base.count + 1, base.bits + p.tail) else base
  }

  /** The run must be written now, or the counter or the bit buffer might overflow. */
  predicate Full(r: Run) {
    r.count == MAX_EOBRUN || |r.bits| > MAX_CORR_BITS - 64 + 1
  }

  /** A run is written at the latest with 0x7FFF blocks, or with so many correction bits that those of another block
      might not fit 1000. */
  lemma FullAt(r: Run)
    ensures Full(r) <==> r.count == 0x7FFF || |r.bits| + 63 > 1000
  {
  }

  /** What holds of the pending run between two blocks. */
  ghost predicate Bounded(r: Run) {
    r.count < MAX_EOBRUN && |r.bits| <= MAX_CORR_BITS - 64 + 1 && (r.count == 0 ==> r.bits == [])
  }

  /** Items written, and the run pending. */
  datatype Coded = Coded(done: Items, run: Run)

  function Step(s: Coded, p: Part, ac: nat): Coded {
    var done := if p.head == [] then s.done else s.done + Pending(s.run, ac) + p.head;
    var run := Absorb(s.run, p);
    if Full(run) then Coded(done + Pending(run, ac), NO_RUN) else Coded(done, run)
  }

  function Fold(parts: seq<Part>, ac: nat): Coded {
    if parts == [] then Coded([], NO_RUN)
    else Step(Fold(parts[..|parts| - 1], ac), parts[|parts| - 1], ac)
  }

  /** The items of a whole restart interval. */
  function RunItems(parts: seq<Part>, ac: nat): Items {
    Fold(parts, ac).done + Pending(Fold(parts, ac).run, ac)
  }

  /** Between two blocks the run counter is below its maximum, the buffer has room for another block, and
      without a run there are no bits: so the run's symbol always has a category of at most 14. */
  lemma {:induction false} RunStaysBounded(parts: seq<Part>, ac: nat)
    requires forall p <- parts :: Plausible(p)
    ensures Bounded(Fold(parts, ac).run)
  {
    hide Pending;
    if parts != [] {
      var p := parts[|parts| - 1];
      assert p in parts;
      RunStaysBounded(parts[..|parts| - 1], ac);
    }
  }

  lemma RunCategory(n: nat)
    requires 0 < n <= MAX_EOBRUN
    ensures NBits(n) - 1 <= 14
  {
    NBitsAtMost(n, 15);
    ShlValues(1);
    ShlShl(1, 8, 7);
    Pow2Byte();
    assert Shl(256, 7) == 0x8000;
  }

  // ---------- the same items, looking ahead ----------

  /** The items still to come after the pending run r. */
  function Rest(r: Run, parts: seq<Part>, ac: nat): Items
    decreases |parts|, 0
  {
    if parts == [] then Pending(r, ac)
    else
      var p := parts[0];
      (if p.head == [] then [] else Pending(r, ac) + p.head) + After(Absorb(r, p), parts[1..], ac)
  }

  function After(r: Run, parts: seq<Part>, ac: nat): Items
    decreases |parts|, 1
  {
    if Full(r) then Pending(r, ac) + Rest(NO_RUN, parts, ac) else Rest(r, parts, ac)
  }

  lemma {:induction false} FoldThenRest(a: seq<Part>, b: seq<Part>, ac: nat)
    ensures Fold(a, ac).done + Rest(Fold(a, ac).run, b, ac) == RunItems(a + b, ac)
    decreases |b|
  {
    hide Pending, Absorb, Full;
    if b == [] {
      assert a + b == a;
    } else {
      var p, more := b[0], b[1..];
      FoldThenRest(a + [p], more, ac);
      assert (a + [p])[..|a|] == a;
      assert a + [p] + more == a + b;
      var s, t := Fold(a, ac), Fold(a + [p], ac);
      var run := Absorb(s.run, p);
      var head := if p.head == [] then [] else Pending(s.run, ac) + p.head;
      assert s.done + head == if p.head == [] then s.done else s.done + Pending(s.run, ac) + p.head;
      Associative(s.done, head, After(run, more, ac));
      Associative(s.done + head, Pending(run, ac), Rest(NO_RUN, more, ac));
    }
  }

  lemma RunItemsLookAhead(parts: seq<Part>, ac: nat)
    ensures RunItems(parts, ac) == Rest(NO_RUN, parts, ac)
  {
    hide Rest, RunItems, Fold;
    FoldNothing(ac);
    FoldThenRest([], parts, ac);
    assert [] + parts == parts;
    assert [] + Rest(NO_RUN, parts, ac) == Rest(NO_RUN, parts, ac);
  }

  lemma FoldNothing(ac: nat)
    ensures Fold([], ac).done == [] && Fold([], ac).run == NO_RUN
  {
  }

  /** How many more blocks the pending run will cover. */
  function Ahead(r: Run, parts: seq<Part>): (m: nat)
    ensures m <= |parts|
    decreases |parts|
  {
    if Full(r) || parts == [] || parts[0].head != [] then 0
    else 1 + Ahead(Absorb(r, parts[0]), parts[1..])
  }

  function Tails(parts: seq<Part>): Items {
    if parts == [] then [] else parts[0].tail + Tails(parts[1..])
  }

  /** The items still to come when a decoder knows that the next m blocks belong to the current run. */
  function Remaining(m: nat, parts: seq<Part>, ac: nat): Items
    requires m <= |parts|
  {
    Tails(parts[..m]) + Rest(NO_RUN, parts[m..], ac)
  }

  lemma RemainingStep(m: nat, parts: seq<Part>, ac: nat)
    requires 0 < m <= |parts|
    ensures Remaining(m, parts, ac) == parts[0].tail + Remaining(m - 1, parts[1..], ac)
  {
    hide Rest;
    assert parts[..m][1..] == parts[1..][..m - 1] && parts[m..] == parts[1..][m - 1..];
    Associative(parts[0].tail, Tails(parts[1..][..m - 1]), Rest(NO_RUN, parts[m..], ac));
  }

  lemma RemainingNone(parts: seq<Part>, ac: nat)
    ensures Remaining(0, parts, ac) == Rest(NO_RUN, parts, ac)
  {
    hide Rest;
    assert parts[0..] == parts && parts[..0] == [];
    assert [] + Rest(NO_RUN, parts, ac) == Rest(NO_RUN, parts, ac);
  }

  /** A run that has begun is written with its final length, followed by the correction bits of its blocks
      in order. */
  lemma {:induction false} RunIsWrittenWhole(r: Run, parts: seq<Part>, ac: nat)
    requires 0 < r.count <= MAX_EOBRUN && forall p <- parts :: Plausible(p)
    ensures var m := Ahead(r, parts);
      && r.count + m <= MAX_EOBRUN
      && (forall i :: 0 <= i < m ==> parts[i].head == [])
      && After(r, parts, ac) == EobItems(r.count + m, ac) + (r.bits + Remaining(m, parts, ac))
    decreases |parts|
  {
    hide EobItems, Remaining;
    var m := Ahead(r, parts);
    if Full(r) || parts == [] {
      RemainingNone(parts, ac);
      Associative(EobItems(r.count, ac), r.bits, Rest(NO_RUN, parts, ac));
      assert parts == [] ==> r.bits + Rest(NO_RUN, parts, ac) == r.bits;
    } else if parts[0].head != [] {
      RemainingNone(parts, ac);
      var p := parts[0];
      var rest := After(Absorb(NO_RUN, p), parts[1..], ac);
      assert Rest(NO_RUN, parts, ac) == p.head + rest by { assert [] + p.head == p.head; }
      Associative(EobItems(r.count, ac), r.bits, p.head + rest);
      Associative(Pending(r, ac), p.head, rest);
    } else {
      var p := parts[0];
      assert p in parts;
      RunIsWrittenWhole(Absorb(r, p), parts[1..], ac);
      RemainingStep(m, parts, ac);
      Associative(r.bits, p.tail, Remaining(m - 1, parts[1..], ac));
      assert [] + After(Absorb(r, p), parts[1..], ac) == After(Absorb(r, p), parts[1..], ac);
      assert forall i :: 1 <= i < m ==> parts[i] == parts[1..][i - 1];
    }
  }
}
