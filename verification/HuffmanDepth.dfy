/** How deep the trees of the merge loop can get: a symbol at depth n takes a tree whose weight is at
    least a Fibonacci number, so only very large counts lead to very long codes. */
module HuffmanDepth {
  import opened HuffmanTheory
  import opened HuffmanForest

  function Fib(n: nat): (f: nat)
    ensures n > 0 ==> f > 0
  {
    if n < 2 then n else Fib(n - 1) + Fib(n - 2)
  }

  lemma {:induction false} FibGrows(m: nat, n: nat)
    requires m <= n
    ensures Fib(m) <= Fib(n)
    decreases n - m
  {
    if m < n {
      FibGrows(m + 1, n);
    }
  }

  lemma FibStep(n: nat)
    ensures Fib(n + 2) == Fib(n + 1) + Fib(n)
    ensures Fib(0) == 0 && Fib(1) == Fib(2) == 1
  {
  }

  /** No root is lighter than `least`, the heavier tree of the last merge. */
  ghost predicate AllAtLeast(f: Freq, least: nat) {
    forall r :: 0 <= r < |f| && f[r] > 0 ==> least <= f[r]
  }

  /** A symbol's depth: `least` grows with it, and the weight of a tree is one step ahead. */
  ghost predicate HeavyAt(least: nat, depth: nat, weight: nat) {
    Fib(depth + 1) <= least && Fib(depth + 2) <= weight
  }

  ghost predicate Heavy(t: Forest, least: nat)
    requires t.Shape()
  {
    AllAtLeast(t.freq, least) &&
    forall i :: 0 <= i < t.N() && t.start[i] > 0 ==> HeavyAt(least, t.size[i], t.freq[t.owner[i]])
  }

  lemma SingletonsHeavy(start: Freq)
    requires Singletons(start).Shape()
    ensures Heavy(Singletons(start), 1)
  {
    hide Fib, Forest.Shape, Sum;
    FibStep(0);
  }

  /** Where a symbol is after a merge. */
  lemma MergedAt(t: Forest, c1: nat, c2: nat, i: nat)
    requires t.Shape() && LeastTwo(t.freq, c1, c2) && i < t.N() && t.start[i] > 0
    ensures var t', o := t.Merge(c1, c2), t.owner[i];
      && o < t.N() && t'.owner[i] < t.N() && t.freq[o] > 0
      && if o == c1 || o == c2 then t'.size[i] == t.size[i] + 1 && t'.freq[t'.owner[i]] == t.freq[c1] + t.freq[c2]
         else t'.size[i] == t.size[i] && t'.freq[t'.owner[i]] == t.freq[o]
  {
  }

  lemma MergedAtLeast(f: Freq, c1: nat, c2: nat)
    requires LeastTwo(f, c1, c2)
    ensures AllAtLeast(Merged(f, c1, c2), f[c2])
  {
  }

  /** One merge makes a symbol at most one deeper, below a root that is heavier by `least` at the least. */
  lemma Heavier(least: nat, depth: nat, w: nat, w1: nat, w2: nat)
    requires HeavyAt(least, depth, w) && least <= w1 <= w2
    ensures w == w1 || w == w2 ==> HeavyAt(w2, depth + 1, w1 + w2)
    ensures HeavyAt(w2, depth, w)
  {
    hide Fib;
    FibStep(depth + 1);
  }

  lemma LeastOfTwo(f: Freq, least: nat, c1: nat, c2: nat)
    requires AllAtLeast(f, least) && LeastTwo(f, c1, c2)
    ensures least <= f[c1] <= f[c2]
  {
  }

  lemma MergeHeavy(t: Forest, least: nat, c1: nat, c2: nat)
    requires t.Shape() && Heavy(t, least) && LeastTwo(t.freq, c1, c2)
    requires t.Merge(c1, c2).Shape()
    ensures Heavy(t.Merge(c1, c2), t.freq[c2])
  {
    hide HeavyAt;
    var t' := t.Merge(c1, c2);
    LeastOfTwo(t.freq, least, c1, c2);
    MergedAtLeast(t.freq, c1, c2);
    forall i | 0 <= i < t.N() && t.start[i] > 0
      ensures HeavyAt(t.freq[c2], t'.size[i], t'.freq[t'.owner[i]])
    {
      hide Forest.Shape, Forest.Merge, LeastTwo;
      MergedAt(t, c1, c2, i);
      Heavier(least, t.size[i], t.freq[t.owner[i]], t.freq[c1], t.freq[c2]);
    }
  }

  /** A root weighs no more than all symbols together. */
  lemma RootAtMostAll(t: Forest, r: nat)
    requires t.Shape() && t.Weights() && r < t.N()
    ensures t.freq[r] <= Sum(t.start)
  {
    hide Sum;
    var rest := seq(t.N(), i requires 0 <= i < t.N() => if t.In(i, r) then 0 else t.start[i]);
    SumLinear(t.WeightTerms(r), rest, t.start, 1);
    SumNonNegative(rest);
  }

  /** The codes of the symbols in `f` are as short as the sum of the counts demands. */
  ghost predicate DepthBounded(f: Freq, size: Lengths) {
    |f| == |size| && forall i :: 0 <= i < |f| && f[i] > 0 ==> Fib(size[i] + 2) <= Sum(f)
  }

  lemma HeavyIsBounded(t: Forest, least: nat)
    requires t.Shape() && t.Weights() && Heavy(t, least)
    ensures DepthBounded(t.start, t.size)
  {
    forall i | 0 <= i < t.N() && t.start[i] > 0
      ensures Fib(t.size[i] + 2) <= Sum(t.start)
    {
      RootAtMostAll(t, t.owner[i]);
    }
  }

  /** The counts from which on a code may be longer than 32 bits. */
  const DEEP: nat := 9227465

  lemma DeepIsFibonacci()
    ensures Fib(35) == DEEP
  {
    assert Fib(10) == 55 && Fib(11) == 89;
    assert Fib(20) == 6765 && Fib(21) == 10946;
    assert Fib(28) == 317811 && Fib(29) == 514229;
  }

  lemma BoundedAt(f: Freq, size: Lengths, i: nat)
    requires DepthBounded(f, size) && i < |f| && f[i] > 0
    ensures Fib(size[i] + 2) <= Sum(f)
  {
  }

  /** With fewer counts than that, no code exceeds 32 bits. */
  lemma CodesStayShort(f: Freq, size: Lengths)
    requires DepthBounded(f, size) && Sum(f) < DEEP
    requires forall i :: 0 <= i < |f| && f[i] == 0 ==> size[i] == 0
    ensures forall i :: 0 <= i < |f| ==> size[i] <= 32
  {
    hide Fib, Sum;
    forall i | 0 <= i < |f|
      ensures size[i] <= 32
    {
      hide DepthBounded;
      if size[i] > 32 {
        BoundedAt(f, size, i);
        DeepIsFibonacci();
        FibGrows(35, size[i] + 2);
      }
    }
  }
}
