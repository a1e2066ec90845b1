/** Counts with which jpeg_gen_optimal_table goes wrong.  If 256 symbols, the pseudo-symbol among them, are about
    equally frequent, then all of their codes have eight bits, which is one code more of a length than an
    eight-bit count can hold. */
module HuffmanWrap {
  import opened Shifts
  import opened HuffmanTheory
  import opened HuffmanMerge
  import opened HuffmanLimit
  import opened HuffmanGenerate

  // ---------- what the counts have to be like ----------

  predicate InUse(f: Freq, i: int) {
    0 <= i < |f| && f[i] > 0
  }

  predicate Distinct(a: int, b: int, x: int) {
    a != b && a != x && b != x
  }

  /** No symbol is more frequent than two others together. */
  ghost predicate Balanced(f: Freq) {
    forall a, b, x :: InUse(f, a) && InUse(f, b) && InUse(f, x) && Distinct(a, b, x) ==> f[a] + f[b] >= f[x]
  }

  /** Each is less frequent. */
  ghost predicate StrictlyBalanced(f: Freq) {
    forall a, b, x :: InUse(f, a) && InUse(f, b) && InUse(f, x) && Distinct(a, b, x) ==> f[a] + f[b] > f[x]
  }

  // ---------- other lengths do not cost less ----------

  /** Changing the lengths of three symbols within the same code space. */
  lemma ThreeMoved(f: Freq, l: Lengths, a: nat, b: nat, x: nat, u: nat, v: nat, w: nat)
    requires OptimalSizes(f, l) && InUse(f, a) && InUse(f, b) && InUse(f, x) && Distinct(a, b, x)
    requires u <= SYMBOLS && v <= SYMBOLS && w <= SYMBOLS
    requires l[a] <= SYMBOLS && l[b] <= SYMBOLS && l[x] <= SYMBOLS
    requires Pow2(SYMBOLS - u) + Pow2(SYMBOLS - v) + Pow2(SYMBOLS - w)
          == Pow2(SYMBOLS - l[a]) + Pow2(SYMBOLS - l[b]) + Pow2(SYMBOLS - l[x])
    ensures f[a] * l[a] + f[b] * l[b] + f[x] * l[x] <= f[a] * u + f[b] * v + f[x] * w
  {
    hide Shl, Sum, Cost, Kraft;
    var l1 := l[a := u];
    var l2 := l1[b := v];
    KraftUpdate(f, l, SYMBOLS, a, u);
    KraftUpdate(f, l1, SYMBOLS, b, v);
    KraftUpdate(f, l2, SYMBOLS, x, w);
    CostUpdate(f, l, a, u);
    CostUpdate(f, l1, b, v);
    CostUpdate(f, l2, x, w);
    assert Feasible(f, l2[x := w], SYMBOLS);
  }

  /** If all 256 codes have eight bits, then no symbol is more frequent than two others together: it could have
      seven bits, and they nine. */
  lemma FlatIsBalanced(f: Freq, size: Lengths)
    requires OptimalSizes(f, size) && forall i :: InUse(f, i) ==> size[i] == 8
    ensures Balanced(f)
  {
    hide Shl, OptimalSizes;
    forall a, b, x | InUse(f, a) && InUse(f, b) && InUse(f, x) && Distinct(a, b, x)
      ensures f[a] + f[b] >= f[x]
    {
      Pow2Next(SYMBOLS - 8);
      Pow2Next(SYMBOLS - 9);
      ThreeMoved(f, size, a, b, x, 9, 9, 7);
    }
  }

  lemma NotBetter(f: Freq, size: Lengths, l: Lengths, m: nat)
    requires OptimalSizes(f, size) && Feasible(f, l, m)
    ensures |f| == |size| && Cost(f, size) <= Cost(f, l)
  {
    hide Cost, Kraft;
  }

  /** A lone longest code can do with one bit less. */
  lemma LoneIsShortened(f: Freq, size: Lengths, x: nat)
    requires InUse(f, x) && x < |size| && size[x] > 0 && Feasible(f, size, size[x])
    requires forall i :: 0 <= i < |f| && f[i] > 0 && size[i] == size[x] ==> i == x
    ensures var l := size[x := size[x] - 1];
      Feasible(f, l, size[x]) && Cost(f, l) < Cost(f, size)
  {
    hide Shl, Sum, Cost;
    var top := size[x];
    ShortenLone(f, size, top, x);
    CostUpdate(f, size, x, top - 1);
    assert f[x] * (top - 1) == f[x] * top - f[x];
  }

  lemma FeasibleAtTop(f: Freq, size: Lengths)
    requires GoodSizes(f, size) && InUse(f, PSEUDO)
    ensures size[PSEUDO] > 0 && Feasible(f, size, size[PSEUDO])
  {
    hide Shl, Sum, Cost;
    KraftIsSizeKraft(f, size, SYMBOLS);
    SizeKraftComplete(size, size[PSEUDO], SYMBOLS);
    KraftIsSizeKraft(f, size, size[PSEUDO]);
  }

  /** The longest codes have company. */
  lemma NoLoneLongest(f: Freq, size: Lengths) returns (a: nat)
    requires GoodSizes(f, size) && InUse(f, PSEUDO)
    ensures InUse(f, a) && a != PSEUDO && size[a] == size[PSEUDO]
  {
    hide Shl, Cost, OptimalSizes, Feasible;
    var top := size[PSEUDO];
    if forall i :: 0 <= i < |f| && f[i] > 0 && size[i] == top ==> i == PSEUDO {
      FeasibleAtTop(f, size);
      LoneIsShortened(f, size, PSEUDO);
      NotBetter(f, size, size[PSEUDO := top - 1], top);
      assert false;
    }
    a :| 0 <= a < |f| && f[a] > 0 && size[a] == top && a != PSEUDO;
  }

  /** In a strictly balanced code the lengths differ by one at most: a symbol two bits shorter could give one bit
      to one of the longest, and get another to be shortened by one. */
  lemma TwoLevels(f: Freq, size: Lengths, x: nat)
    requires GoodSizes(f, size) && StrictlyBalanced(f) && InUse(f, PSEUDO) && InUse(f, x)
    ensures size[x] + 1 >= size[PSEUDO]
  {
    hide Shl, OptimalSizes;
    var top, low := size[PSEUDO], size[x];
    if low + 1 < top {
      var a := NoLoneLongest(f, size);
      SizesWithin(f, size);
      assert Distinct(a, PSEUDO, x);
      Pow2Next(SYMBOLS - low - 1);
      Pow2Next(SYMBOLS - top);
      ThreeMoved(f, size, a, PSEUDO, x, low + 1, top - 1, low + 1);
      MovedGain(f[a], f[PSEUDO], f[x], top, low);
      assert false;
    }
  }

  lemma SizesWithin(f: Freq, size: Lengths)
    requires GoodSizes(f, size)
    ensures forall i :: InUse(f, i) ==> size[i] <= SYMBOLS
    ensures Within(f, size, SYMBOLS) && Kraft(f, size, SYMBOLS) == Pow2(SYMBOLS)
  {
    hide Kraft, Cost;
  }

  lemma MovedGain(a: nat, p: nat, x: nat, top: nat, low: nat)
    requires low + 1 < top
    requires a * top + p * top + x * low <= a * (low + 1) + p * (top - 1) + x * (low + 1)
    ensures a + p <= x
  {
    var d := top - low - 2;
    assert a * top == a * (low + 1) + a + a * d;
    assert 0 <= a * d;
    assert p * top == p * (top - 1) + p && x * (low + 1) == x * low + x;
  }

  // ---------- 256 codes of two lengths ----------

  lemma PowerAbove(l: nat)
    requires 256 <= Pow2(l) < 512
    ensures l == 8
  {
    hide Shl;
    ShlByte(1);
    Pow2Next(8);
    if l < 8 {
      Pow2Order(l, 8);
    } else if l > 8 {
      Pow2Order(8, l);
      if l > 9 {
        Pow2Order(9, l);
      }
    }
  }

  lemma {:induction false} Pow2Order(j: nat, k: nat)
    requires j < k
    ensures Pow2(j) < Pow2(k)
  {
    Pow2Next(k - 1);
    if j < k - 1 {
      Pow2Order(j, k - 1);
    }
  }

  /** A complete code with 256 codes, of lengths top and top - 1, has eight bits for all. */
  lemma FlatCounts(b: seq<nat>, top: nat)
    requires 1 <= top < |b| && Taken(b, top) == Pow2(top) && Total(b, top) == 256 && b[top] > 0
    requires forall k :: 1 <= k < top - 1 ==> b[k] == 0
    ensures top == 8 && b[8] == 256
  {
    hide Shl;
    if top > 1 {
      TakenZero(b, top - 2);
    }
    PowerAbove(top);
    ShlByte(1);
  }

  lemma {:induction false} CountOfNone(size: seq<nat>, l: nat)
    requires forall i :: 0 <= i < |size| ==> size[i] != l
    ensures CountOf(size, l) == 0
  {
    if size != [] {
      CountOfNone(size[..|size| - 1], l);
    }
  }

  /** Codes for strictly balanced counts of 256 symbols. */
  lemma StrictlyBalancedIsFlat(f: Freq, size: Lengths)
    requires GoodSizes(f, size) && f[PSEUDO] > 0 && StrictlyBalanced(f) && UsedCount(f) == 256
    ensures CountOf(size, 8) == 256 && forall i :: 0 <= i < SYMBOLS ==> size[i] <= 8
  {
    hide Shl, OptimalSizes, StrictlyBalanced, Taken, Total, CountOf;
    var top := size[PSEUDO];
    SizesComplete(f, size);
    var b := Counts(size, top);
    forall k | 1 <= k < top - 1
      ensures b[k] == 0
    {
      forall i | 0 <= i < |size|
        ensures size[i] != k
      {
        if InUse(f, i) {
          TwoLevels(f, size, i);
        }
      }
      CountOfNone(size, k);
    }
    CountOfWitness(size, top);
    FlatCounts(b, top);
  }

  lemma SizesComplete(f: Freq, size: Lengths)
    requires GoodSizes(f, size) && f[PSEUDO] > 0
    ensures var top := size[PSEUDO];
      && top >= 1 && Taken(Counts(size, top), top) == Pow2(top)
      && Total(Counts(size, top), top) == UsedCount(f)
  {
    hide Sum, Shl, Cost;
    var top := size[PSEUDO];
    KraftIsSizeKraft(f, size, SYMBOLS);
    SizeKraftComplete(size, top, SYMBOLS);
    CountsTake(size, top);
    UsedCountSame(f, size);
  }

  /** With 256 symbols in use, whether a count wraps around depends on how frequent they are: it does if any two
      are more frequent than any third, and it does not if a third is more frequent than some two. */
  lemma WrapsWhenBalanced(f: Freq, size: Lengths)
    requires GoodSizes(f, size) && f[PSEUDO] > 0 && UsedCount(f) == 256
    ensures StrictlyBalanced(f) ==> FullCounts(size) && forall i :: 0 <= i < SYMBOLS ==> size[i] <= MAX_CLEN
    ensures FullCounts(size) && (forall i :: 0 <= i < SYMBOLS ==> size[i] <= MAX_CLEN) ==> Balanced(f)
  {
    hide OptimalSizes, StrictlyBalanced, Balanced, UsedCount;
    if StrictlyBalanced(f) {
      StrictlyBalancedIsFlat(f, size);
      assert CountOf(size, 8) > 255;
    }
    if FullCounts(size) && forall i :: 0 <= i < SYMBOLS ==> size[i] <= MAX_CLEN {
      FullCountsShape(f, size);
      EachHasEight(f, size);
      FlatIsBalanced(f, size);
    }
  }

  lemma EachHasEight(f: Freq, size: Lengths)
    requires GoodSizes(f, size) && f[PSEUDO] > 0 && UsedCount(f) == 256
    requires forall i :: 0 <= i < SYMBOLS ==> size[i] <= MAX_CLEN
    requires (CountOf(size, 8) == 256 && forall l :: 1 <= l <= MAX_CLEN && l != 8 ==> CountOf(size, l) == 0)
          || (CountOf(size, 9) == 256 && CountOf(size, 1) == 1
              && forall l :: 1 < l <= MAX_CLEN && l != 9 ==> CountOf(size, l) == 0)
    ensures forall i :: InUse(f, i) ==> size[i] == 8
  {
    hide OptimalSizes, UsedCount, CountOf;
    UsedCountSame(f, size);
    if CountOf(size, 9) == 256 {
      TwoCountsUsed(size, 1, 9);
    }
    forall i | InUse(f, i)
      ensures size[i] == 8
    {
      CountOfWitness(size, size[i]);
      assert size[i] in size;
    }
  }

  lemma {:induction false} TwoCountsUsed(size: Lengths, j: nat, k: nat)
    requires 0 < j < k
    ensures CountOf(size, j) + CountOf(size, k) <= UsedCount(size)
  {
    if size != [] {
      TwoCountsUsed(size[..|size| - 1], j, k);
    }
  }

  // ---------- a run ----------

  /** Each symbol but 255 is counted once. */
  function EqualCounts(): (f: Freq)
    ensures |f| == SYMBOLS && f[PSEUDO] == 1
  {
    seq(SYMBOLS, i => if i == 255 then 0 else 1)
  }

  lemma {:induction false} SumOfOnes(s: seq<int>)
    requires forall i :: 0 <= i < |s| ==> s[i] == 1
    ensures Sum(s) == |s|
  {
    if s != [] {
      SumOfOnes(s[..|s| - 1]);
    }
  }

  lemma {:induction false} UsedOfOnes(s: seq<nat>)
    requires forall i :: 0 <= i < |s| ==> s[i] == 1
    ensures UsedCount(s) == |s|
  {
    if s != [] {
      UsedOfOnes(s[..|s| - 1]);
    }
  }

  lemma EqualCountsUsed()
    ensures Sum(EqualCounts()) == 256 && UsedCount(EqualCounts()) == 256 && StrictlyBalanced(EqualCounts())
  {
    var f := EqualCounts();
    var s: seq<int> := f;
    SumOfOnes(s[255 := 1]);
    SumUpdate(s, 255, 1);
    UsedOfOnes(f[..255]);
    assert f[..257] == f && f[..257][..256] == f[..256] && f[..256][..255] == f[..255];
    assert UsedCount(f[..256]) == 255 && UsedCount(f) == 256;
  }

  /** The eight-bit counts wrap around: no length is left with a code. */
  method EqualCountsWrap() returns (r: Generated)
    ensures r == CountsWrapped
  {
    hide Sum, UsedCount, GoodSizes, StrictlyBalanced, Balanced, FullCounts;
    EqualCountsUsed();
    var f := EqualCounts();
    var freq := new nat[SYMBOLS](i requires 0 <= i < SYMBOLS => f[i]);
    assert freq[0] > 0;
    assert freq[..] == f && freq[..][PSEUDO := 1] == f;
    ghost var size;
    r, size := GenOptimalTable(freq);
    WrapsWhenBalanced(f, size);
  }
}
