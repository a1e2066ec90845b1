/** jpeg_gen_optimal_table as a whole. */
module HuffmanGenerate {
  import opened Shifts
  import opened HuffmanTheory
  import opened HuffmanDepth
  import opened HuffmanMerge
  import opened HuffmanLimit

  /** A JPEG Huffman table: bits[k] symbols have codes of length k; huffval lists them. */
  datatype HuffTable = HuffTable(bits: seq<UInt8>, huffval: seq<UInt8>)

  /** The outcome of table generation: the table, the exit for code lengths over 32, or counts that have
      wrapped around, with which the source goes on although they are wrong. */
  datatype Generated = Table(table: HuffTable) | ClenOverflow | CountsWrapped

  /** The counts of a complete code with no code longer than l. */
  ghost predicate CompleteCode(b: seq<nat>, l: nat) {
    && 1 <= l < |b| && b[0] == 0
    && Taken(b, l) == Pow2(l) && Total(b, l) <= SYMBOLS
    && forall k :: l < k < |b| ==> b[k] == 0
  }

  /** And all of them fit eight bits. */
  ghost predicate CompleteCounts(b: seq<nat>, l: nat) {
    CompleteCode(b, l) && forall k :: 0 <= k < |b| ==> b[k] <= 255
  }

  // ---------- counts that do not fit eight bits ----------

  lemma Pow2Grows(a: nat, b: nat)
    requires a <= b
    ensures Pow2(a) <= Pow2(b)
  {
    hide Shl;
    ShlShl(1, a, b - a);
    ShlGrows(Pow2(a), b - a);
  }

  lemma {:induction false} TakenApart(b: seq<nat>, k: nat, l: nat)
    requires 1 <= k <= l < |b|
    ensures Taken(b, l) == Taken(b[k := 0], l) + Shl(b[k], l - k)
    ensures Total(b, l) == Total(b[k := 0], l) + b[k]
    decreases l
  {
    hide Shl;
    if k == l {
      TakenSame(b, b[k := 0], l - 1);
      ShlNone(b[k]);
    } else {
      TakenApart(b, k, l - 1);
      ShlShl(b[k], l - 1 - k, 1);
      ShlNext(b[k], l - 1 - k);
    }
  }

  lemma ShlNext(v: nat, k: nat)
    ensures Shl(v, k + 1) == 2 * Shl(v, k)
  {
  }

  /** What a single code takes. */
  lemma {:induction false} TakenByOne(b: seq<nat>, l: nat) returns (j: nat)
    requires l < |b| && Total(b, l) <= 1
    ensures Total(b, l) == 0 ==> Taken(b, l) == 0 && forall k :: 1 <= k <= l ==> b[k] == 0
    ensures Total(b, l) == 1 ==>
      1 <= j <= l && b[j] == 1 && Taken(b, l) == Pow2(l - j) && forall k :: 1 <= k <= l && k != j ==> b[k] == 0
  {
    hide Shl;
    if l == 0 {
      return 0;
    }
    j := TakenByOne(b, l - 1);
    if Total(b, l - 1) == 1 {
      ShlNext(1, l - 1 - j);
    } else {
      j := l;
      ShlNone(1);
    }
  }

  /** In a complete code of at most 257 symbols, 256 of them have codes of the same length only if there is
      nothing but the codes of length 8, or a single code of length 1 beside those of length 9. */
  lemma FullLength(b: seq<nat>, i: nat, k: nat)
    requires CompleteCode(b, i) && 1 <= k <= i && b[k] > 255
    ensures b[k] == 256
    ensures (k == 8 && forall m :: 1 <= m <= i && m != 8 ==> b[m] == 0)
         || (k == 9 && b[1] == 1 && forall m :: 1 < m <= i && m != 9 ==> b[m] == 0)
  {
    hide Shl, Taken, Total;
    var rest := b[k := 0];
    TakenApart(b, k, i);
    var j := TakenByOne(rest, i);
    ShlByte(1);
    ShlShl(1, 8, i - k);
    ShlOrder(256, b[k], i - k);
    if k <= 8 {
      Pow2Grows(i, 8 + i - k);
      assert Taken(rest, i) == 0 && Shl(b[k], i - k) == Pow2(i) == Pow2(8 + i - k);
      if k < 8 {
        Pow2Grows(i + 1, 8 + i - k);
        Pow2Next(i);
        assert false;
      }
      assert forall m :: 1 <= m <= i && m != 8 ==> b[m] == rest[m];
    } else {
      Pow2Next(i - 1);
      Pow2Grows(8 + i - k, i - 1);
      if b[k] == 257 {
        Pow2Next(8 + i - k);
        ShlShl(1, 9, i - k);
        ShlNext(1, 8);
        ShlOrder(257, 512, i - k);
        assert false;
      }
      if k > 9 {
        Pow2Next(i - 2);
        Pow2Grows(8 + i - k, i - 2);
        Pow2Grows(i - j, i - 1);
      } else if Total(rest, i) == 1 && j > 1 {
        Pow2Grows(i - j, i - 2);
        Pow2Next(i - 2);
      }
      assert b[k] == 256 && Total(rest, i) == 1 && k == 9 && j == 1;
      assert b[1] == rest[1] && forall m :: 1 < m <= i && m != 9 ==> b[m] == rest[m];
    }
  }

  /** Codes of the greatest length come in pairs, and, beyond 16 bits, there is a code at least two
      bits shorter. */
  lemma LongestArePaired(b: seq<nat>, i: nat)
    requires CompleteCounts(b, i) && i > 16
    ensures b[i] % 2 == 0
    ensures exists j :: 1 <= j <= i - 2 && b[j] > 0
  {
    Pow2Next(i - 1);
    if forall j :: 1 <= j <= i - 2 ==> b[j] == 0 {
      TakenZero(b, i - 2);
      assert Taken(b, i - 1) == b[i - 1];
      ShlShl(1, 16, i - 16);
      ShlGrows(Pow2(16), i - 16);
      ShlValues(1);
    }
  }

  /** Remove two codes of length i, put one at length i - 1, and make a code of length j a prefix of
      two codes one bit longer. */
  function Adjusted(b: seq<nat>, i: nat, j: nat): (r: seq<nat>)
    requires 1 <= j <= i - 2 < |b| - 2 && b[i] >= 2 && b[j] > 0
    ensures |r| == |b|
  {
    var b1 := b[i := b[i] - 2];
    var b2 := b1[i - 1 := b1[i - 1] + 1];
    var b3 := b2[j + 1 := b2[j + 1] + 2];
    b3[j := b3[j] - 1]
  }

  lemma AdjustmentTakes(b: seq<nat>, i: nat, j: nat)
    requires 1 <= j <= i - 2 < |b| - 2 && b[i] >= 2 && b[j] > 0
    ensures Taken(Adjusted(b, i, j), i) == Taken(b, i) && Total(Adjusted(b, i, j), i) == Total(b, i)
  {
    hide Taken, Total, Shl, Adjusted;
    var b1 := Removed(b, i);
    var b2 := b1[i - 1 := b1[i - 1] + 1];
    var b3 := Split(b2, j);
    assert Adjusted(b, i, j) == b3 by {
      AdjustedInSteps(b, i, j);
    }
    TwoRemoved(b, i);
    TakenMore(b1, i - 1, i);
    assert b2[j] > 0;
    OneSplit(b2, j, i);
    Pow2Small();
  }

  function Removed(b: seq<nat>, i: nat): (r: seq<nat>)
    requires i < |b| && b[i] >= 2
    ensures |r| == |b| && forall k :: 0 <= k < |b| && k != i ==> r[k] == b[k]
  {
    b[i := b[i] - 2]
  }

  function Split(b: seq<nat>, j: nat): (r: seq<nat>)
    requires j + 1 < |b| && b[j] > 0
    ensures |r| == |b|
  {
    var b' := b[j + 1 := b[j + 1] + 2];
    b'[j := b'[j] - 1]
  }

  lemma AdjustedInSteps(b: seq<nat>, i: nat, j: nat)
    requires 1 <= j <= i - 2 < |b| - 2 && b[i] >= 2 && b[j] > 0
    ensures var b1 := Removed(b, i);
      var b2 := b1[i - 1 := b1[i - 1] + 1];
      Adjusted(b, i, j) == Split(b2, j)
  {
  }

  lemma TwoRemoved(b: seq<nat>, i: nat)
    requires 1 <= i < |b| && b[i] >= 2
    ensures Taken(Removed(b, i), i) + 2 == Taken(b, i) && Total(Removed(b, i), i) + 2 == Total(b, i)
  {
    hide Taken, Total, Shl;
    var a := b[i := b[i] - 1];
    TakenLess(b, i, i);
    TakenLess(a, i, i);
    assert a[i := a[i] - 1] == Removed(b, i);
    Pow2Small();
  }

  /** A code word becomes the prefix of two that are one bit longer. */
  lemma OneSplit(b: seq<nat>, j: nat, l: nat)
    requires 1 <= j < l < |b| && b[j] > 0
    ensures Taken(Split(b, j), l) == Taken(b, l) && Total(Split(b, j), l) == Total(b, l) + 1
  {
    hide Taken, Total, Shl;
    var a := b[j + 1 := b[j + 1] + 1];
    var c := a[j + 1 := a[j + 1] + 1];
    TakenMore(b, j + 1, l);
    TakenMore(a, j + 1, l);
    TakenLess(c, j, l);
    assert c[j := c[j] - 1] == Split(b, j);
    Pow2Next(l - j - 1);
  }

  /** An adjustment keeps the code complete and loses no symbol. */
  lemma AdjustmentIsComplete(b: seq<nat>, i: nat, j: nat)
    requires CompleteCounts(b, i) && 16 < i && 1 <= j <= i - 2 && b[i] >= 2 && b[j] > 0
    ensures CompleteCounts(Adjusted(b, i, j), i)
    ensures Total(Adjusted(b, i, j), i) == Total(b, i)
  {
    hide Taken, Total, Shl, Adjusted;
    var r := Adjusted(b, i, j);
    AdjustmentTakes(b, i, j);
    AdjustedAt(b, i, j);
    forall k | 1 <= k <= i && r[k] > 255
      ensures false
    {
      FullLength(r, i, k);
    }
  }

  lemma AdjustedAt(b: seq<nat>, i: nat, j: nat)
    requires 1 <= j <= i - 2 < |b| - 2 && b[i] >= 2 && b[j] > 0
    ensures Adjusted(b, i, j)[i - 1] > 0 && Adjusted(b, i, j)[0] == b[0]
    ensures forall k :: i < k < |b| ==> Adjusted(b, i, j)[k] == b[k]
  {
  }

  /** One adjustment of section K.2 of ITU-T T.81: of the greatest length i in use, which is above 16, two symbols
      are taken, one of which gets a code one bit shorter; the other one goes beside a symbol of the greatest length
      in use up to i - 2, both of them one bit longer than that. */
  ghost predicate Shortened(b: seq<nat>, c: seq<nat>) {
    |b| == |c| && exists i, j :: ShortenedAt(b, c, i, j)
  }

  ghost predicate ShortenedAt(b: seq<nat>, c: seq<nat>, i: nat, j: nat)
    requires |b| == |c|
  {
    && 16 < i < |b| && j <= i - 2 && b[i] > 0 && b[j] > 0
    && (forall k :: i < k < |b| ==> b[k] == 0) && (forall k :: j < k <= i - 2 ==> b[k] == 0)
    && forall k :: 0 <= k < |b| ==>
         c[k] + (if k == i then 2 else 0) + (if k == j then 1 else 0)
         == b[k] + (if k == i - 1 then 1 else 0) + (if k == j + 1 then 2 else 0)
  }

  /** Some number of adjustments. */
  ghost predicate Limits(b: seq<nat>, c: seq<nat>) {
    exists steps: seq<seq<nat>> :: Leads(steps, b, c)
  }

  ghost predicate Leads(steps: seq<seq<nat>>, b: seq<nat>, c: seq<nat>) {
    && steps != [] && steps[0] == b && steps[|steps| - 1] == c
    && forall k :: 0 < k < |steps| ==> Shortened(steps[k - 1], steps[k])
  }

  lemma NothingToLimit(b: seq<nat>)
    ensures Limits(b, b)
  {
    assert Leads([b], b, b);
  }

  lemma LimitsNext(b: seq<nat>, c: seq<nat>, i: nat, j: nat)
    requires Limits(b, c)
    requires 16 < i < |c| && 1 <= j <= i - 2 && c[i] >= 2 && c[j] > 0
    requires (forall k :: i < k < |c| ==> c[k] == 0) && forall k :: j < k <= i - 2 ==> c[k] == 0
    ensures Limits(b, Adjusted(c, i, j)) && Adjusted(c, i, j)[i] < c[i]
  {
    var steps :| Leads(steps, b, c);
    AdjustedInAll(c, i, j);
    hide Adjusted, ShortenedAt;
    assert Shortened(c, Adjusted(c, i, j));
    assert Leads(steps + [Adjusted(c, i, j)], b, Adjusted(c, i, j));
  }

  lemma AdjustedInAll(b: seq<nat>, i: nat, j: nat)
    requires 16 < i < |b| && 1 <= j <= i - 2 && b[i] >= 2 && b[j] > 0
    requires (forall k :: i < k < |b| ==> b[k] == 0) && forall k :: j < k <= i - 2 ==> b[k] == 0
    ensures |Adjusted(b, i, j)| == |b| && ShortenedAt(b, Adjusted(b, i, j), i, j)
  {
  }

  /** JPEG allows no codes over 16 bits. */
  method LimitLengths(bits: array<UInt8>)
    requires bits.Length == MAX_CLEN + 1 && CompleteCounts(bits[..], MAX_CLEN)
    modifies bits
    ensures CompleteCounts(bits[..], 16)
    ensures Limits(old(bits[..]), bits[..]) && forall k :: 16 < k <= MAX_CLEN ==> bits[k] == 0
    ensures Total(bits[..], 16) == Total(old(bits[..]), MAX_CLEN)
    ensures (forall k :: 16 < k <= MAX_CLEN ==> old(bits[k]) == 0) ==> bits[..] == old(bits[..])
  {
    hide Taken, Total, Shl, Limits, Adjusted;
    NothingToLimit(bits[..]);
    var i := MAX_CLEN;
    while i > 16
      invariant 16 <= i <= MAX_CLEN
      invariant CompleteCounts(bits[..], i)
      invariant Limits(old(bits[..]), bits[..])
      invariant Total(bits[..], i) == Total(old(bits[..]), MAX_CLEN)
      invariant (forall k :: 16 < k <= MAX_CLEN ==> old(bits[k]) == 0) ==> bits[..] == old(bits[..])
    {
      while bits[i] > 0
        invariant CompleteCounts(bits[..], i)
        invariant Limits(old(bits[..]), bits[..])
        invariant Total(bits[..], i) == Total(old(bits[..]), MAX_CLEN)
        invariant (forall k :: 16 < k <= MAX_CLEN ==> old(bits[k]) == 0) ==> bits[..] == old(bits[..])
        decreases bits[i]
      {
        ghost var b := bits[..];
        LongestArePaired(b, i);
        var j := i - 2;
        while bits[j] == 0
          invariant j <= i - 2 && exists k :: 1 <= k <= j && b[k] > 0
          invariant forall k :: j < k <= i - 2 ==> b[k] == 0
          decreases j
        {
          j := j - 1;
        }
        AdjustmentIsComplete(b, i, j);
        LimitsNext(old(bits[..]), b, i, j);
        AdjustBits(bits, i, j);
      }
      CompleteAt(bits[..], i - 1, i);
      i := i - 1;
    }
  }

  method AdjustBits(bits: array<UInt8>, i: nat, j: nat)
    requires 1 <= j <= i - 2 < bits.Length - 2 && bits[i] >= 2 && bits[j] > 0
    requires forall k :: 0 <= k < bits.Length ==> Adjusted(bits[..], i, j)[k] <= 255
    modifies bits
    ensures bits[..] == Adjusted(old(bits[..]), i, j)
  {
    ghost var r := Adjusted(bits[..], i, j);
    assert r[j + 1] <= 255 && r[i - 1] <= 255;
    bits[i] := bits[i] - 2;          // two siblings of this length
    bits[i - 1] := bits[i - 1] + 1;  // its sibling is shortened by one bit
    bits[j + 1] := bits[j + 1] + 2;  // it goes below a shorter code word, beside the symbol found there
    bits[j] := bits[j] - 1;          // that code word is given up
  }
  // ---------- counting, dropping the pseudo-symbol, listing ----------

  /** How many symbols have each code length.  The counts are kept in eight bits: 256 symbols of one length
      wrap around to none, which `wrapped` records for the specification. */
  method CountLengths(codesize: array<nat>) returns (bits: array<UInt8>, overflow: bool, wrapped: bool)
    requires codesize.Length == SYMBOLS
    ensures fresh(bits) && bits.Length == MAX_CLEN + 1
    ensures overflow <==> exists i :: 0 <= i < SYMBOLS && codesize[i] > MAX_CLEN
    ensures !overflow ==> bits[0] == 0
    ensures !overflow ==> forall l :: 1 <= l <= MAX_CLEN ==> bits[l] == CountOf(codesize[..], l) % 256
    ensures !overflow ==> (wrapped <==> FullCounts(codesize[..]))
  {
    hide CountOf, FullCounts;
    bits := new UInt8[MAX_CLEN + 1](_ => 0);
    overflow, wrapped := false, false;
    NothingCounted();
    for i := 0 to SYMBOLS
      invariant !overflow && forall k :: 0 <= k < i ==> codesize[k] <= MAX_CLEN
      invariant CountedMod(bits[..], codesize[..i])
      invariant wrapped <==> FullCounts(codesize[..i])
    {
      assert codesize[..i + 1][..i] == codesize[..i];
      ghost var b := bits[..];
      CountedNext(b, codesize[..i + 1]);
      if codesize[i] != 0 {
        var k := codesize[i];
        if k > MAX_CLEN {
          overflow := true;
          return;
        }
        FullNext(codesize[..i + 1], bits[k]);
        wrapped := wrapped || bits[k] == 255;
        bits[k] := if bits[k] == 255 then 0 else bits[k] + 1;
        assert bits[..] == b[k := bits[k]];
      } else {
        FullNext(codesize[..i + 1], 0);
      }
    }
    assert codesize[..SYMBOLS] == codesize[..];
  }

  /** The counts modulo 256. */
  ghost predicate CountedMod(bits: seq<UInt8>, size: Lengths) {
    |bits| == MAX_CLEN + 1 && bits[0] == 0 && forall l :: 1 <= l <= MAX_CLEN ==> bits[l] == CountOf(size, l) % 256
  }

  lemma NothingCounted()
    ensures CountedMod(seq(MAX_CLEN + 1, _ => 0), []) && !FullCounts([])
  {
  }

  lemma CountedNext(bits: seq<UInt8>, size: Lengths)
    requires size != [] && CountedMod(bits, size[..|size| - 1])
    ensures var k := size[|size| - 1];
      if k == 0 || k > MAX_CLEN then CountedMod(bits, size)
      else CountedMod(bits[k := if bits[k] == 255 then 0 else bits[k] + 1], size)
  {
  }

  /** 256 of the symbols have codes of the same length. */
  ghost predicate FullCounts(size: Lengths) {
    exists l :: 1 <= l <= MAX_CLEN && CountOf(size, l) > 255
  }

  lemma FullNext(size: Lengths, count: nat)
    requires size != [] && size[|size| - 1] <= MAX_CLEN
    requires var k := size[|size| - 1]; k > 0 ==> count == CountOf(size[..|size| - 1], k) % 256
    ensures FullCounts(size) <==>
      FullCounts(size[..|size| - 1]) || (size[|size| - 1] > 0 && count == 255)
  {
    var n := |size| - 1;
    var old', k := size[..n], size[n];
    if FullCounts(old') {
      var l :| 1 <= l <= MAX_CLEN && CountOf(old', l) > 255;
      assert CountOf(size, l) > 255;
    }
    if FullCounts(size) {
      var l :| 1 <= l <= MAX_CLEN && CountOf(size, l) > 255;
      assert CountOf(old', l) > 255 || (l == k && CountOf(old', k) == 255);
    }
    if k > 0 && count == 255 {
      assert CountOf(size, k) > 255;
    }
  }

  /** Leave out one of the longest codes: that of the pseudo-symbol. */
  method DropPseudo(bits: array<UInt8>) returns (longest: nat)
    requires bits.Length == MAX_CLEN + 1 && CompleteCounts(bits[..], 16)
    modifies bits
    ensures 1 <= longest <= 16 && old(bits[longest]) > 0
    ensures forall k :: longest < k <= MAX_CLEN ==> old(bits[k]) == 0
    ensures bits[..] == old(bits[..])[longest := old(bits[longest]) - 1]
    ensures Taken(bits[..], 16) + Pow2(16 - longest) == Pow2(16)
    ensures Total(bits[..], 16) + 1 == Total(old(bits[..]), 16)
  {
    hide Taken, Total, Shl;
    var i := 16;
    SomeLength(bits[..]);
    while bits[i] == 0
      invariant i <= 16
      invariant exists k :: 1 <= k <= i && bits[k] > 0
      invariant forall k :: i < k <= MAX_CLEN ==> bits[k] == 0
      decreases i
    {
      i := i - 1;
    }
    TakenLess(bits[..], i, 16);
    bits[i] := bits[i] - 1;
    longest := i;
  }

  lemma SomeLength(b: seq<nat>)
    requires CompleteCounts(b, 16)
    ensures exists k :: 1 <= k <= 16 && b[k] > 0
  {
    if forall k :: 1 <= k <= 16 ==> b[k] == 0 {
      TakenZero(b, 16);
    }
  }

  /** `v` lists the real symbols that have a code, each once, in order of their code sizes. */
  ghost predicate Lists(size: seq<nat>, v: seq<UInt8>) {
    && (forall p :: 0 <= p < |v| ==> v[p] < |size| && v[p] < PSEUDO && size[v[p]] > 0)
    && (forall p, q :: 0 <= p < q < |v| ==> size[v[p]] <= size[v[q]] && v[p] != v[q])
    && (forall j :: 0 <= j < PSEUDO && j < |size| && size[j] > 0 ==> j in v)
  }

  function Append(v: seq<UInt8>, j: UInt8): (r: seq<UInt8>)
    ensures r == v + [j] && j in r && forall k :: k in v ==> k in r
  {
    assert forall k :: k in v ==> k in v + [j];
    v + [j]
  }

  lemma CountOfNone(i: nat)
    ensures CountOf([], i) == 0
  {
  }

  lemma CountOfNext(size: seq<nat>, j: nat, i: nat)
    requires j < |size|
    ensures CountOf(size[..j + 1], i) == CountOf(size[..j], i) + if size[j] == i then 1 else 0
  {
    assert size[..j + 1][..j] == size[..j];
  }

  /** `v` lists the real symbols with sizes below i and, of those with size i, the ones below j. */
  ghost predicate ListedTo(size: seq<nat>, v: seq<UInt8>, i: nat, j: nat)
    requires |size| == SYMBOLS
  {
    ListsOnly(size, v, i, j) && InOrderOfSize(size, v) && ListsAll(size, v, i, j)
  }

  ghost predicate ListsOnly(size: seq<nat>, v: seq<UInt8>, i: nat, j: nat)
    requires |size| == SYMBOLS
  {
    forall p :: 0 <= p < |v| ==> v[p] < PSEUDO && 0 < size[v[p]] <= i && (size[v[p]] == i ==> v[p] < j)
  }

  ghost predicate InOrderOfSize(size: seq<nat>, v: seq<UInt8>)
    requires |size| == SYMBOLS
  {
    forall p, q :: 0 <= p < q < |v| ==> size[v[p]] <= size[v[q]] && v[p] != v[q]
  }

  ghost predicate ListsAll(size: seq<nat>, v: seq<UInt8>, i: nat, j: nat)
    requires |size| == SYMBOLS
  {
    forall k :: 0 <= k < PSEUDO && (0 < size[k] < i || (k < j && size[k] == i)) ==> k in v
  }

  lemma ListedNext(size: seq<nat>, v: seq<UInt8>, i: nat, j: nat)
    requires |size| == SYMBOLS && i > 0 && j < PSEUDO && ListedTo(size, v, i, j)
    ensures ListedTo(size, if size[j] == i then Append(v, j) else v, i, j + 1)
  {
    hide ListsOnly, InOrderOfSize, ListsAll;
    if size[j] == i {
      OnlyNext(size, v, i, j);
      OrderNext(size, v, i, j);
    } else {
      OnlyStill(size, v, i, j);
    }
    AllNext(size, v, i, j);
  }

  lemma OnlyNext(size: seq<nat>, v: seq<UInt8>, i: nat, j: nat)
    requires |size| == SYMBOLS && j < PSEUDO && size[j] == i > 0 && ListsOnly(size, v, i, j)
    ensures ListsOnly(size, Append(v, j), i, j + 1)
  {
  }

  lemma OnlyStill(size: seq<nat>, v: seq<UInt8>, i: nat, j: nat)
    requires |size| == SYMBOLS && ListsOnly(size, v, i, j)
    ensures ListsOnly(size, v, i, j + 1)
  {
  }

  lemma OrderNext(size: seq<nat>, v: seq<UInt8>, i: nat, j: nat)
    requires |size| == SYMBOLS && j < PSEUDO && size[j] == i
    requires ListsOnly(size, v, i, j) && InOrderOfSize(size, v)
    ensures InOrderOfSize(size, Append(v, j))
  {
    var w := Append(v, j);
    forall p, q | 0 <= p < q < |w|
      ensures size[w[p]] <= size[w[q]] && w[p] != w[q]
    {
      assert w[p] == v[p] && v[p] < PSEUDO;
    }
  }

  lemma AllNext(size: seq<nat>, v: seq<UInt8>, i: nat, j: nat)
    requires |size| == SYMBOLS && j < PSEUDO && ListsAll(size, v, i, j)
    ensures ListsAll(size, if size[j] == i then Append(v, j) else v, i, j + 1)
  {
    var w := if size[j] == i then Append(v, j) else v;
    forall k | 0 <= k < PSEUDO && (0 < size[k] < i || (k < j + 1 && size[k] == i))
      ensures k in w
    {
      if k != j {
        assert k in v;
      }
    }
  }

  method ListLength(codesize: array<nat>, i: nat, listed: seq<UInt8>) returns (v: seq<UInt8>)
    requires codesize.Length == SYMBOLS && i > 0
    requires ListedTo(codesize[..], listed, i, 0)
    ensures ListedTo(codesize[..], v, i, PSEUDO)
    ensures |v| == |listed| + CountOf(codesize[..PSEUDO], i)
  {
    hide CountOf, ListedTo;
    v := listed;
    CountOfNone(i);
    for j := 0 to PSEUDO
      invariant ListedTo(codesize[..], v, i, j)
      invariant |v| == |listed| + CountOf(codesize[..j], i)
    {
      CountOfNext(codesize[..], j, i);
      ListedNext(codesize[..], v, i, j);
      assert codesize[..][..j] == codesize[..j] && codesize[..][..j + 1] == codesize[..j + 1];
      if codesize[j] == i {
        v := Append(v, j);
      }
    }
  }

  /** The symbols that have codes, shorter ones first. */
  method ListSymbols(codesize: array<nat>) returns (v: seq<UInt8>)
    requires codesize.Length == SYMBOLS
    requires forall i :: 0 <= i < SYMBOLS ==> codesize[i] <= MAX_CLEN
    ensures Lists(codesize[..], v)
    ensures |v| == Total(Counts(codesize[..PSEUDO], MAX_CLEN), MAX_CLEN)
  {
    v := [];
    ghost var b := Counts(codesize[..PSEUDO], MAX_CLEN);
    for i := 1 to MAX_CLEN + 1
      invariant |v| == Total(b, i - 1)
      invariant ListedTo(codesize[..], v, i, 0)
    {
      v := ListLength(codesize, i, v);
    }
  }

  // ---------- the whole function ----------

  /** What a table made for the frequencies `f` with the code sizes `size` promises. */
  ghost predicate Fits(size: Lengths, t: HuffTable)
    requires |size| == SYMBOLS
  {
    && |t.bits| == 17 && t.bits[0] == 0
    && Lists(size, t.huffval)
    && Total(t.bits, 16) == |t.huffval|
    && (exists l :: LeavesOne(t.bits, l) && Limits(Counts(size, MAX_CLEN), WithOneMore(t.bits, l)))
    && ((forall i :: 0 <= i < SYMBOLS ==> size[i] <= 16) ==>
          forall l :: 1 <= l <= 16 ==> t.bits[l] == CountOf(size[..PSEUDO], l))
  }

  /** The counts with the symbol of length l that was left out, and no lengths above 16. */
  ghost function WithOneMore(bits: seq<nat>, l: nat): seq<nat>
    requires |bits| == 17 && l <= 16
  {
    bits[l := bits[l] + 1] + seq(16, _ => 0)
  }

  /** Exactly one code word, of the greatest length l, is left over. */
  ghost predicate LeavesOne(bits: seq<nat>, l: nat)
    requires |bits| == 17
  {
    && 1 <= l <= 16 && Taken(bits, 16) + Pow2(16 - l) == Pow2(16)
    && forall k :: l < k <= 16 ==> bits[k] == 0
  }

  /** The code sizes that Huffman's procedure finds for the frequencies `f`. */
  ghost predicate GoodSizes(f: Freq, size: Lengths) {
    && |f| == |size| == SYMBOLS
    && OptimalSizes(f, size)
    && (forall i :: 0 <= i < SYMBOLS ==> size[i] <= size[PSEUDO])
    && (forall i :: 0 <= i < SYMBOLS ==> (f[i] > 0 <==> size[i] > 0))
  }

  lemma {:induction false} UsedCountSame(f: Freq, size: Lengths)
    requires |f| == |size| && forall i :: 0 <= i < |f| ==> (f[i] > 0 <==> size[i] > 0)
    ensures UsedCount(f) == UsedCount(size)
  {
    if f != [] {
      UsedCountSame(f[..|f| - 1], size[..|f| - 1]);
    }
  }

  lemma {:induction false} UsedAtMost(size: seq<nat>)
    ensures UsedCount(size) <= |size|
  {
    if size != [] {
      UsedAtMost(size[..|size| - 1]);
    }
  }

  /** Each symbol that is not in use makes one less. */
  lemma {:induction false} UsedWithoutTwo(size: seq<nat>, i: nat, j: nat)
    requires i < j < |size| && size[i] == size[j] == 0
    ensures UsedCount(size) <= |size| - 2
  {
    var n := |size| - 1;
    if j < n {
      UsedWithoutTwo(size[..n], i, j);
    } else {
      UsedWithoutOne(size[..n], i);
    }
  }

  lemma {:induction false} UsedWithoutOne(size: seq<nat>, i: nat)
    requires i < |size| && size[i] == 0
    ensures UsedCount(size) <= |size| - 1
  {
    var n := |size| - 1;
    if i < n {
      UsedWithoutOne(size[..n], i);
    } else {
      UsedAtMost(size[..n]);
    }
  }

  /** That takes at least 256 symbols in use, and leaves two shapes of the code. */
  lemma FullCountsShape(f: Freq, size: Lengths)
    requires GoodSizes(f, size) && FullCounts(size)
    requires forall i :: 0 <= i < SYMBOLS ==> size[i] <= MAX_CLEN
    ensures UsedCount(f) >= 256
    ensures (CountOf(size, 8) == 256 && forall l :: 1 <= l <= MAX_CLEN && l != 8 ==> CountOf(size, l) == 0)
         || (CountOf(size, 9) == 256 && CountOf(size, 1) == 1
             && forall l :: 1 < l <= MAX_CLEN && l != 9 ==> CountOf(size, l) == 0)
  {
    hide Taken, Total, Shl, OptimalSizes;
    var l :| 1 <= l <= MAX_CLEN && CountOf(size, l) > 255;
    CountsComplete(f, size);
    FullLength(Counts(size, MAX_CLEN), MAX_CLEN, l);
    CountOfUsed(size, l);
    UsedCountSame(f, size);
  }

  lemma {:induction false} CountOfWitness(size: seq<nat>, l: nat)
    ensures CountOf(size, l) > 0 <==> l in size
  {
    if size != [] {
      CountOfWitness(size[..|size| - 1], l);
      assert size == size[..|size| - 1] + [size[|size| - 1]];
    }
  }

  /** The counts of sizes that are at most 32 are those of a complete code. */
  lemma CountsComplete(f: Freq, size: Lengths)
    requires GoodSizes(f, size)
    requires forall i :: 0 <= i < SYMBOLS ==> size[i] <= MAX_CLEN
    ensures CompleteCode(Counts(size, MAX_CLEN), MAX_CLEN)
    ensures Total(Counts(size, MAX_CLEN), MAX_CLEN) == UsedCount(size)
  {
    hide Sum, Shl;
    UsedAtMost(size);
    KraftIsSizeKraft(f, size, SYMBOLS);
    SizeKraftComplete(size, MAX_CLEN, SYMBOLS);
    CountsTake(size, MAX_CLEN);
    UsedCountSame(f, size);
  }

  lemma RealCount(size: Lengths)
    requires |size| == SYMBOLS && size[PSEUDO] > 0
    requires forall i :: 0 <= i < SYMBOLS ==> size[i] <= MAX_CLEN
    ensures Total(Counts(size[..PSEUDO], MAX_CLEN), MAX_CLEN) + 1 == UsedCount(size)
    ensures forall l :: CountOf(size, l) == CountOf(size[..PSEUDO], l) + if size[PSEUDO] == l then 1 else 0
  {
    CountsTake(size[..PSEUDO], MAX_CLEN);
    assert size[..|size| - 1] == size[..PSEUDO];
  }

  /** Without limiting, it is the pseudo-symbol's own code that is dropped. */
  lemma DroppedIsPseudo(size: Lengths, longest: nat)
    requires |size| == SYMBOLS && 1 <= longest <= 16
    requires forall i :: 0 <= i < SYMBOLS ==> size[i] <= size[PSEUDO] <= 16
    requires CountOf(size, longest) > 0
    requires forall k :: longest < k <= MAX_CLEN ==> CountOf(size, k) == 0
    ensures longest == size[PSEUDO]
  {
    CountOfWitness(size, longest);
    CountOfWitness(size, size[PSEUDO]);
  }

  /** From the counts of the symbols to a table.  At least one real symbol must have been counted, and the counts
      must stay within the value that the search for the smallest starts from.  Unless 256 symbols get codes of
      the same length, or a code exceeds 32 bits, the table is as it should be. */
  method GenOptimalTable(freq: array<nat>) returns (r: Generated, ghost size: Lengths)
    requires freq.Length == SYMBOLS
    requires exists x :: 0 <= x < PSEUDO && freq[x] > 0
    requires Sum(freq[..][PSEUDO := 1]) <= LIMIT
    modifies freq
    ensures GoodSizes(old(freq[..])[PSEUDO := 1], size)
    ensures DepthBounded(old(freq[..])[PSEUDO := 1], size)
    ensures r.ClenOverflow? <==> exists i :: 0 <= i < SYMBOLS && size[i] > MAX_CLEN
    ensures r.CountsWrapped? <==> !r.ClenOverflow? && FullCounts(size)
    ensures r.Table? ==> Fits(size, r.table)
    ensures Sum(old(freq[..])[PSEUDO := 1]) < DEEP ==> !r.ClenOverflow?
    ensures UsedCount(old(freq[..])[PSEUDO := 1]) <= 255 ==> !r.CountsWrapped?
  {
    hide Sum, Taken, Total, Shl, OptimalSizes, Counts, CountOf, Lists, DepthBounded, UsedCount, GoodSizes,
      CompleteCode, Limits;
    ghost var f := freq[..][PSEUDO := 1];
    ghost var x :| 0 <= x < PSEUDO && freq[x] > 0;
    assert f[x] > 0;
    freq[PSEUDO] := 1;
    assert freq[..] == f;
    var codesize := MergeAll(freq);
    size := codesize[..];
    SizesAreGood(f, size);
    GoodSizesShape(f, size);
    if Sum(f) < DEEP {
      CodesStayShort(f, size);
    }
    var bits, overflow, wrapped := CountLengths(codesize);
    if overflow {
      return ClenOverflow, size;
    }
    if wrapped {
      FullCountsShape(f, size);
      return CountsWrapped, size;
    }
    CountsComplete(f, size);
    CountsFit(size, bits[..]);
    var t := MakeTable(codesize, bits);
    r := Table(t);
  }

  lemma CountsFit(size: Lengths, bits: seq<UInt8>)
    requires CompleteCode(Counts(size, MAX_CLEN), MAX_CLEN) && !FullCounts(size)
    requires |bits| == MAX_CLEN + 1 && bits[0] == 0
    requires forall l :: 1 <= l <= MAX_CLEN ==> bits[l] == CountOf(size, l) % 256
    ensures bits == Counts(size, MAX_CLEN) && CompleteCounts(bits, MAX_CLEN)
  {
    hide Taken, Total, Shl, CountOf;
    assert forall l :: 1 <= l <= MAX_CLEN ==> bits[l] == Counts(size, MAX_CLEN)[l];
  }

  /** From the counts of the lengths to the table. */
  method MakeTable(codesize: array<nat>, bits: array<UInt8>) returns (t: HuffTable)
    requires codesize.Length == SYMBOLS && bits.Length == MAX_CLEN + 1
    requires forall i :: 0 <= i < SYMBOLS ==> codesize[i] <= codesize[PSEUDO] <= MAX_CLEN
    requires codesize[PSEUDO] > 0
    requires bits[..] == Counts(codesize[..], MAX_CLEN) && CompleteCounts(bits[..], MAX_CLEN)
    modifies bits
    ensures Fits(codesize[..], t)
  {
    hide Taken, Total, Shl, Counts, Lists, CountOf, Limits;
    ghost var size, counts := codesize[..], bits[..];
    CountsTake(size, MAX_CLEN);
    RealCount(size);
    LimitLengths(bits);
    ghost var limited := bits[..];
    var longest := DropPseudo(bits);
    var v := ListSymbols(codesize);
    t := HuffTable(bits[..17], v);
    TakenSame(t.bits, bits[..], 16);
    assert LeavesOne(t.bits, longest);
    assert WithOneMore(t.bits, longest) == limited;
    if forall i :: 0 <= i < SYMBOLS ==> size[i] <= 16 {
      NothingAbove(size);
      assert limited == counts;
      CountsUnlimited(size, limited, longest);
    }
  }

  lemma GoodSizesShape(f: Freq, size: Lengths)
    requires GoodSizes(f, size) && f[PSEUDO] == 1
    ensures forall i :: 0 <= i < |f| && f[i] == 0 ==> size[i] == 0
    ensures |size| == SYMBOLS && size[PSEUDO] > 0
  {
    hide OptimalSizes;
  }

  lemma SizesAreGood(f: Freq, size: Lengths)
    requires |f| == |size| == SYMBOLS && OptimalSizes(f, size) && f[PSEUDO] == 1
    requires exists x :: 0 <= x < PSEUDO && f[x] > 0
    requires forall i :: 0 <= i < SYMBOLS ==> size[i] <= size[PSEUDO]
    ensures GoodSizes(f, size)
  {
    hide Kraft, Cost;
    var x :| 0 <= x < PSEUDO && f[x] > 0;
    CompleteSizes(f, size, SYMBOLS, x, PSEUDO);
  }

  lemma NothingAbove(size: Lengths)
    requires forall i :: 0 <= i < |size| ==> size[i] <= 16
    ensures forall k :: 16 < k <= MAX_CLEN ==> Counts(size, MAX_CLEN)[k] == 0
  {
    forall k | 16 < k <= MAX_CLEN
      ensures Counts(size, MAX_CLEN)[k] == 0
    {
      CountOfWitness(size, k);
    }
  }

  lemma CountsUnlimited(size: Lengths, b: seq<nat>, longest: nat)
    requires |size| == SYMBOLS && |b| == MAX_CLEN + 1 && 1 <= longest <= 16
    requires forall i :: 0 <= i < SYMBOLS ==> size[i] <= size[PSEUDO] <= 16
    requires b == Counts(size, MAX_CLEN)
    requires b[longest] > 0 && forall k :: longest < k <= MAX_CLEN ==> b[k] == 0
    ensures forall l :: 1 <= l <= 16 ==> b[longest := b[longest] - 1][l] == CountOf(size[..PSEUDO], l)
  {
    DroppedIsPseudo(size, longest);
    assert size[..|size| - 1] == size[..PSEUDO];
  }
}
