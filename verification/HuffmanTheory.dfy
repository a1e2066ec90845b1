/** Code lengths, their cost and their Kraft sum, and why merging two least frequent symbols loses
    nothing: the theory behind section K.2 of ITU-T T.81. */
module HuffmanTheory {
  import opened Shifts

  // ---------- finite sums ----------

  function Sum(s: seq<int>): int {
    if s == [] then 0 else Sum(s[..|s| - 1]) + s[|s| - 1]
  }

  lemma {:induction false} SumUpdate(s: seq<int>, i: nat, v: int)
    requires i < |s|
    ensures Sum(s[i := v]) == Sum(s) - s[i] + v
  {
    var n := |s| - 1;
    if i < n {
      SumUpdate(s[..n], i, v);
      assert s[i := v][..n] == s[..n][i := v];
    } else {
      assert s[i := v][..n] == s[..n];
    }
  }

  /** A relation that holds of all terms holds of the sums. */
  lemma {:induction false} SumLinear(a: seq<int>, b: seq<int>, c: seq<int>, k: int)
    requires |a| == |b| == |c|
    requires forall i :: 0 <= i < |a| ==> c[i] == a[i] + k * b[i]
    ensures Sum(c) == Sum(a) + k * Sum(b)
  {
    var n := |a| - 1;
    if n >= 0 {
      SumLinear(a[..n], b[..n], c[..n], k);
      Distribute(k, Sum(b[..n]), b[n]);
    }
  }

  lemma Distribute(k: int, x: int, y: int)
    ensures k * (x + y) == k * x + k * y
  {
  }

  lemma {:induction false} SumNonNegative(s: seq<int>)
    requires forall i :: 0 <= i < |s| ==> 0 <= s[i]
    ensures 0 <= Sum(s)
    ensures forall i :: 0 <= i < |s| ==> s[i] <= Sum(s)
  {
    if s != [] {
      SumNonNegative(s[..|s| - 1]);
    }
  }

  /** If the terms are at least 0 and two of them are at least 1, the sum is at least 2. */
  lemma SumTwo(s: seq<int>, i: nat, j: nat)
    requires forall k :: 0 <= k < |s| ==> 0 <= s[k]
    requires i < |s| && j < |s| && i != j && s[i] >= 1 && s[j] >= 1
    ensures Sum(s) >= s[i] + s[j]
  {
    SumUpdate(s, i, 0);
    SumNonNegative(s[i := 0]);
    assert s[i := 0][j] == s[j];
  }

  // ---------- frequencies and code lengths ----------

  /** One entry per symbol; a symbol is in use when its frequency is not zero. */
  type Freq = seq<nat>
  type Lengths = seq<nat>

  function CostTerms(f: Freq, l: Lengths): (t: seq<int>)
    requires |f| == |l|
    ensures |t| == |f|
    ensures forall i :: 0 <= i < |f| ==> t[i] == f[i] * l[i]
  {
    seq(|f|, i requires 0 <= i < |f| => f[i] * l[i])
  }

  /** Total size of the coded symbols. */
  function Cost(f: Freq, l: Lengths): int
    requires |f| == |l|
  {
    Sum(CostTerms(f, l))
  }

  function KraftTerms(f: Freq, l: Lengths, m: nat): (t: seq<int>)
    requires |f| == |l|
    requires forall i :: 0 <= i < |f| && f[i] > 0 ==> l[i] <= m
    ensures |t| == |f|
    ensures forall i :: 0 <= i < |f| ==> t[i] == if f[i] > 0 then Pow2(m - l[i]) else 0
  {
    seq(|f|, i requires 0 <= i < |f| => if f[i] > 0 then Pow2(m - l[i]) else 0)
  }

  ghost predicate Within(f: Freq, l: Lengths, m: nat) {
    |f| == |l| && forall i :: 0 <= i < |f| && f[i] > 0 ==> l[i] <= m
  }

  /** The Kraft sum in units of 2^-m. */
  function Kraft(f: Freq, l: Lengths, m: nat): int
    requires Within(f, l, m)
  {
    Sum(KraftTerms(f, l, m))
  }

  /** Lengths for which a prefix code exists. */
  ghost predicate Feasible(f: Freq, l: Lengths, m: nat) {
    Within(f, l, m) && Kraft(f, l, m) <= Pow2(m)
  }

  lemma CostUpdate(f: Freq, l: Lengths, i: nat, v: nat)
    requires |f| == |l| && i < |f|
    ensures Cost(f, l[i := v]) == Cost(f, l) - f[i] * l[i] + f[i] * v
  {
    SumUpdate(CostTerms(f, l), i, f[i] * v);
    assert CostTerms(f, l[i := v]) == CostTerms(f, l)[i := f[i] * v];
  }

  lemma CostNonNegative(f: Freq, l: Lengths)
    requires |f| == |l|
    ensures 0 <= Cost(f, l)
  {
    hide Sum;
    forall i | 0 <= i < |f|
      ensures 0 <= CostTerms(f, l)[i]
    {
      MulMonotone(f[i], 0, l[i]);
    }
    SumNonNegative(CostTerms(f, l));
  }

  lemma KraftUpdate(f: Freq, l: Lengths, m: nat, i: nat, v: nat)
    requires Within(f, l, m) && i < |f| && f[i] > 0 && v <= m
    ensures Within(f, l[i := v], m)
    ensures Kraft(f, l[i := v], m) == Kraft(f, l, m) - Pow2(m - l[i]) + Pow2(m - v)
  {
    hide Sum, Shl;
    SumUpdate(KraftTerms(f, l, m), i, Pow2(m - v));
    assert KraftTerms(f, l[i := v], m) == KraftTerms(f, l, m)[i := Pow2(m - v)];
  }

  // ---------- the exchange argument ----------

  /** How many symbols have length m. */
  function LongestTerms(f: Freq, l: Lengths, m: nat): (t: seq<int>)
    requires |f| == |l|
    ensures |t| == |f|
    ensures forall i :: 0 <= i < |f| ==> t[i] == if f[i] > 0 && l[i] == m then 1 else 0
  {
    seq(|f|, i requires 0 <= i < |f| => if f[i] > 0 && l[i] == m then 1 else 0)
  }

  function Shorter(f: Freq, l: Lengths, m: nat): (g: Freq)
    requires |f| == |l|
    ensures |g| == |f|
    ensures forall i :: 0 <= i < |f| ==> g[i] == if l[i] < m then f[i] else 0
  {
    seq(|f|, i requires 0 <= i < |f| => if l[i] < m then f[i] else 0)
  }

  /** The longest codes, and twice the Kraft sum of the rest one level up. */
  lemma KraftSplit(f: Freq, l: Lengths, m: nat)
    requires m > 0 && Within(f, l, m)
    ensures Within(Shorter(f, l, m), l, m - 1)
    ensures Kraft(f, l, m) == Sum(LongestTerms(f, l, m)) + 2 * Kraft(Shorter(f, l, m), l, m - 1)
  {
    var g := Shorter(f, l, m);
    var a, b, c := LongestTerms(f, l, m), KraftTerms(g, l, m - 1), KraftTerms(f, l, m);
    forall i | 0 <= i < |f|
      ensures c[i] == a[i] + 2 * b[i]
    {
    }
    SumLinear(a, b, c, 2);
  }

  /** Exactly one code of the greatest length can be shortened: the Kraft sum has room for it. */
  lemma ShortenLone(f: Freq, l: Lengths, m: nat, x: nat)
    requires m > 0 && Feasible(f, l, m)
    requires x < |f| && f[x] > 0 && l[x] == m
    requires forall i :: 0 <= i < |f| && f[i] > 0 && l[i] == m ==> i == x
    ensures Feasible(f, l[x := m - 1], m)
    ensures Cost(f, l[x := m - 1]) <= Cost(f, l)
  {
    hide Sum, Cost, Kraft, Shl;
    KraftSplit(f, l, m);
    LoneSum(f, l, m, x);
    KraftUpdate(f, l, m, x, m - 1);
    Pow2Next(m - 1);
    Pow2Small();
    CostUpdate(f, l, x, m - 1);
    MulMonotone(f[x], m - 1, m);
  }

  lemma MulMonotone(k: nat, x: int, y: int)
    requires x <= y
    ensures k * x <= k * y
  {
  }

  lemma LoneSum(f: Freq, l: Lengths, m: nat, x: nat)
    requires |f| == |l| && x < |f| && f[x] > 0 && l[x] == m
    requires forall i :: 0 <= i < |f| && f[i] > 0 && l[i] == m ==> i == x
    ensures Sum(LongestTerms(f, l, m)) == 1
  {
    var ones := LongestTerms(f, l, m);
    SumUpdate(ones, x, 0);
    AllZero(ones[x := 0]);
  }

  lemma {:induction false} AllZero(s: seq<int>)
    requires forall i :: 0 <= i < |s| ==> s[i] == 0
    ensures Sum(s) == 0
  {
    if s != [] {
      AllZero(s[..|s| - 1]);
    }
  }

  lemma KraftLess(f: Freq, l: Lengths, m: nat)
    requires m > 0 && Feasible(f, l, m)
    requires forall i :: 0 <= i < |f| && f[i] > 0 ==> l[i] < m
    ensures Feasible(f, l, m - 1)
  {
    KraftSplit(f, l, m);
    AllZero(LongestTerms(f, l, m));
    assert Shorter(f, l, m) == f by {
      assert forall i :: 0 <= i < |f| ==> Shorter(f, l, m)[i] == f[i];
    }
    Pow2Next(m - 1);
  }
  /** Exchanging the lengths of two symbols in use keeps the Kraft sum; it costs nothing if the more
      frequent one gets the shorter code. */
  lemma Exchange(f: Freq, l: Lengths, m: nat, i: nat, j: nat)
    requires Feasible(f, l, m) && i < |f| && j < |f|
    requires 0 < f[i] <= f[j] && l[i] <= l[j]
    ensures Feasible(f, l[i := l[j]][j := l[i]], m)
    ensures Cost(f, l[i := l[j]][j := l[i]]) <= Cost(f, l)
  {
    hide Sum, Cost, Kraft, Shl;
    if i == j {
      assert l[i := l[j]][j := l[i]] == l;
    } else {
      var l' := l[i := l[j]];
      KraftUpdate(f, l, m, i, l[j]);
      KraftUpdate(f, l', m, j, l[i]);
      CostUpdate(f, l, i, l[j]);
      CostUpdate(f, l', j, l[i]);
      ExchangeGain(f[i], f[j], l[i], l[j]);
    }
  }

  lemma ExchangeGain(fi: nat, fj: nat, li: nat, lj: nat)
    requires fi <= fj && li <= lj
    ensures fi * lj + fj * li <= fi * li + fj * lj
  {
    var d, e := fj - fi, lj - li;
    assert 0 <= d * e;
    assert d * e == d * lj - d * li;
    assert d * lj == fj * lj - fi * lj && d * li == fj * li - fi * li;
  }

  /** c1 and c2 are in use, and no other symbol in use is less frequent than either. */
  ghost predicate LeastTwo(f: Freq, c1: nat, c2: nat) {
    && c1 < |f| && c2 < |f| && c1 != c2
    && 0 < f[c1] <= f[c2]
    && forall i :: 0 <= i < |f| && f[i] > 0 && i != c1 ==> f[c2] <= f[i]
  }

  function Merged(f: Freq, c1: nat, c2: nat): (g: Freq)
    requires c1 < |f| && c2 < |f| && c1 != c2
    ensures |g| == |f|
  {
    f[c1 := f[c1] + f[c2]][c2 := 0]
  }

  /** With both symbols at the greatest length, one code a bit shorter can stand for the pair. */
  lemma MergePair(f: Freq, l: Lengths, m: nat, c1: nat, c2: nat)
    requires m > 0 && Feasible(f, l, m)
    requires c1 < |f| && c2 < |f| && c1 != c2 && f[c1] > 0 && f[c2] > 0 && l[c1] == m && l[c2] == m
    ensures var r := l[c1 := m - 1];
      Feasible(Merged(f, c1, c2), r, m)
      && Cost(Merged(f, c1, c2), r) + f[c1] + f[c2] == Cost(f, l)
  {
    hide Sum, Shl;
    PairKraft(f, l, m, c1, c2);
    PairCost(f, l, m, c1, c2);
  }

  lemma PairKraft(f: Freq, l: Lengths, m: nat, c1: nat, c2: nat)
    requires m > 0 && Within(f, l, m)
    requires c1 < |f| && c2 < |f| && c1 != c2 && f[c1] > 0 && f[c2] > 0 && l[c1] == m && l[c2] == m
    ensures Within(Merged(f, c1, c2), l[c1 := m - 1], m)
    ensures Kraft(Merged(f, c1, c2), l[c1 := m - 1], m) == Kraft(f, l, m)
  {
    hide Sum, Shl;
    var kf, kg := KraftTerms(f, l, m), KraftTerms(Merged(f, c1, c2), l[c1 := m - 1], m);
    SumUpdate(kf, c1, Pow2(1));
    SumUpdate(kf[c1 := Pow2(1)], c2, 0);
    assert kg == kf[c1 := Pow2(1)][c2 := 0];
    Pow2Small();
  }

  lemma PairCost(f: Freq, l: Lengths, m: nat, c1: nat, c2: nat)
    requires m > 0 && |f| == |l|
    requires c1 < |f| && c2 < |f| && c1 != c2 && l[c1] == m && l[c2] == m
    ensures Cost(Merged(f, c1, c2), l[c1 := m - 1]) + f[c1] + f[c2] == Cost(f, l)
  {
    hide Sum;
    var tf, tg := CostTerms(f, l), CostTerms(Merged(f, c1, c2), l[c1 := m - 1]);
    var v := (f[c1] + f[c2]) * (m - 1);
    SumUpdate(tf, c1, v);
    SumUpdate(tf[c1 := v], c2, 0);
    assert tg == tf[c1 := v][c2 := 0];
    Distribute(m, f[c1], f[c2]);
    Distribute(f[c1] + f[c2], m, -1);
  }

  lemma NotAllEmpty(f: Freq, l: Lengths, c1: nat, c2: nat)
    requires LeastTwo(f, c1, c2)
    ensures !Feasible(f, l, 0)
  {
    if Within(f, l, 0) {
      Pow2Small();
      SumTwo(KraftTerms(f, l, 0), c1, c2);
    }
  }

  /** Two symbols at the greatest length make room there for the two least frequent ones. */
  lemma BringDown(f: Freq, l: Lengths, m: nat, c1: nat, c2: nat, x: nat, y: nat) returns (r: Lengths)
    requires LeastTwo(f, c1, c2) && Feasible(f, l, m)
    requires x < |f| && y < |f| && x != y && f[x] > 0 && f[y] > 0 && l[x] == m && l[y] == m
    ensures Feasible(f, r, m) && r[c1] == m && r[c2] == m
    ensures Cost(f, r) <= Cost(f, l)
  {
    hide Cost, Kraft;
    var l1, w := l, if x == c1 then y else x;
    if l[c1] != m {
      var z := if x == c2 then y else x;
      w := if x == c2 then x else y;
      Exchange(f, l, m, c1, z);
      l1 := l[c1 := l[z]][z := l[c1]];
    }
    Exchange(f, l1, m, c2, w);
    r := l1[c2 := l1[w]][w := l1[c2]];
  }

  /** Any code for the symbols can be turned into one for the merged symbols that is cheaper by at
      least the frequencies of the merged pair. */
  lemma {:induction false} MergeKeepsOptimum(f: Freq, l: Lengths, m: nat, c1: nat, c2: nat)
    returns (r: Lengths, m': nat)
    requires LeastTwo(f, c1, c2) && Feasible(f, l, m)
    ensures Feasible(Merged(f, c1, c2), r, m')
    ensures Cost(Merged(f, c1, c2), r) + f[c1] + f[c2] <= Cost(f, l)
    decreases m
  {
    hide Cost, Kraft;
    if m == 0 {
      NotAllEmpty(f, l, c1, c2);
    } else if x :| 0 <= x < |f| && f[x] > 0 && l[x] == m {
      if y :| 0 <= y < |f| && f[y] > 0 && l[y] == m && y != x {
        var l' := BringDown(f, l, m, c1, c2, x, y);
        MergePair(f, l', m, c1, c2);
        r, m' := l'[c1 := m - 1], m;
      } else {
        ShortenLone(f, l, m, x);
        KraftLess(f, l[x := m - 1], m);
        r, m' := MergeKeepsOptimum(f, l[x := m - 1], m - 1, c1, c2);
      }
    } else {
      KraftLess(f, l, m);
      r, m' := MergeKeepsOptimum(f, l, m - 1, c1, c2);
    }
  }
}
