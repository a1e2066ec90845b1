/** The merge loop of jpeg_gen_optimal_table on its arrays: frequencies, code sizes and the chains
    that link the symbols of each tree. */
module HuffmanMerge {
  import opened Shifts
  import opened HuffmanTheory
  import opened HuffmanForest
  import opened HuffmanDepth

  const SYMBOLS: nat := 257    // 256 real symbols and the pseudo-symbol
  const PSEUDO: nat := 256
  const LIMIT: nat := 1000000000

  /** The order in which the loop picks symbols: the less frequent first, and of equally frequent
      ones the larger symbol. */
  predicate Before(f: Freq, a: nat, b: nat)
    requires a < |f| && b < |f|
  {
    f[a] < f[b] || (f[a] == f[b] && a > b)
  }

  ghost predicate First(f: Freq, c: nat, skip: int) {
    c < |f| && f[c] > 0 && c != skip
    && forall i :: 0 <= i < |f| && f[i] > 0 && i != skip && i != c ==> Before(f, c, i)
  }

  // ---------- the pseudo-symbol gets a code of the greatest length ----------

  /** The tree of the pseudo-symbol p is still untouched, or `mark`, of frequency `weight`, was the
      second of the two trees it was last made from. */
  datatype Trail = Fresh | Joined(weight: nat, mark: nat)

  /** No symbol is deeper than p, and trees as deep as p's are only picked after it. */
  ghost predicate Deepest(t: Forest, p: nat, trail: Trail)
    requires t.Shape()
  {
    && p < t.N() && t.start[p] > 0
    && var T, h := t.owner[p], t.size[p];
    && (forall i :: 0 <= i < t.N() && t.start[i] > 0 ==>
          t.size[i] < h || (t.size[i] == h && (t.owner[i] == T || Before(t.freq, T, t.owner[i]))))
    && match trail
       case Fresh => First(t.freq, T, -1)
       case Joined(y, mark) =>
         && y < t.freq[T] <= 2 * y
         && (t.freq[T] == 2 * y ==> mark < T)
         && forall r :: 0 <= r < t.N() && t.freq[r] > 0 && r != T ==>
              y < t.freq[r] || (y == t.freq[r] && mark > r)
  }

  lemma SingletonsDeepest(start: Freq, p: nat)
    requires p + 1 == |start| && start[p] == 1
    ensures Deepest(Singletons(start), p, Fresh)
  {
  }

  function NextTrail(t: Forest, p: nat, trail: Trail, c1: nat, c2: nat): Trail
    requires t.Shape() && p < t.N() && c2 < t.N()
  {
    if t.owner[p] == c1 || t.owner[p] == c2 then Joined(t.freq[c2], c2) else trail
  }

  lemma MergeDeepest(t: Forest, p: nat, trail: Trail, c1: nat, c2: nat)
    requires t.Shape() && Deepest(t, p, trail)
    requires First(t.freq, c1, -1) && First(t.freq, c2, c1)
    requires t.Merge(c1, c2).Shape()
    ensures Deepest(t.Merge(c1, c2), p, NextTrail(t, p, trail, c1, c2))
  {
    hide Forest.Merge;
    if t.owner[p] == c1 || t.owner[p] == c2 {
      MergeOfDeepest(t, p, trail, c1, c2);
    } else {
      MergeOfOthers(t, p, trail, c1, c2);
    }
  }

  lemma MergeOfDeepest(t: Forest, p: nat, trail: Trail, c1: nat, c2: nat)
    requires t.Shape() && Deepest(t, p, trail)
    requires First(t.freq, c1, -1) && First(t.freq, c2, c1)
    requires t.Merge(c1, c2).Shape()
    requires t.owner[p] == c1 || t.owner[p] == c2
    ensures Deepest(t.Merge(c1, c2), p, Joined(t.freq[c2], c2))
  {
    var t' := t.Merge(c1, c2);
    assert t'.owner[p] == c1 && t'.size[p] == t.size[p] + 1;
    forall i | 0 <= i < t.N() && t.start[i] > 0
      ensures t'.size[i] < t'.size[p] || (t'.size[i] == t'.size[p] && t'.owner[i] == c1)
    {
    }
  }

  /** Two trees picked before p's are less deep, and what they make is picked after p's. */
  lemma MergeOfOthers(t: Forest, p: nat, trail: Trail, c1: nat, c2: nat)
    requires t.Shape() && Deepest(t, p, trail)
    requires First(t.freq, c1, -1) && First(t.freq, c2, c1)
    requires t.Merge(c1, c2).Shape()
    requires t.owner[p] != c1 && t.owner[p] != c2
    ensures Deepest(t.Merge(c1, c2), p, trail)
  {
    var t', T := t.Merge(c1, c2), t.owner[p];
    OthersArePicked(t, p, trail, c1, c2);
    assert t'.owner[p] == T && t'.size[p] == t.size[p];
    forall i | 0 <= i < t.N() && t.start[i] > 0
      ensures t'.size[i] < t'.size[p]
        || (t'.size[i] == t'.size[p] && (t'.owner[i] == T || Before(t'.freq, T, t'.owner[i])))
    {
      OtherDepth(t, T, t.size[p], c1, c2, i);
    }
  }

  /** The two that are picked are not p's tree, nor picked after it; their sum is. */
  lemma OthersArePicked(t: Forest, p: nat, trail: Trail, c1: nat, c2: nat)
    requires t.Shape() && Deepest(t, p, trail)
    requires First(t.freq, c1, -1) && First(t.freq, c2, c1)
    requires t.owner[p] != c1 && t.owner[p] != c2
    ensures trail.Joined? && !Before(t.freq, t.owner[p], c1) && !Before(t.freq, t.owner[p], c2)
    ensures Before(t.Merge(c1, c2).freq, t.owner[p], c1)
  {
    hide Forest.Merge;
    var T := t.owner[p];
    assert Before(t.freq, c1, T) && Before(t.freq, c2, T);
  }

  /** What the merge of two trees does to the depth of symbol i, tree T being picked after both. */
  lemma OtherDepth(t: Forest, T: nat, h: nat, c1: nat, c2: nat, i: nat)
    requires t.Shape() && i < t.N() && t.start[i] > 0 && T < t.N()
    requires c1 < t.N() && c2 < t.N() && c1 != c2 && T != c1 && T != c2
    requires t.size[i] < h || (t.size[i] == h && (t.owner[i] == T || Before(t.freq, T, t.owner[i])))
    requires !Before(t.freq, T, c1) && !Before(t.freq, T, c2)
    requires Before(t.Merge(c1, c2).freq, T, c1)
    ensures var t' := t.Merge(c1, c2);
      t'.owner[i] < t.N() &&
      (t'.size[i] < h || (t'.size[i] == h && (t'.owner[i] == T || Before(t'.freq, T, t'.owner[i]))))
  {
    hide Forest.Merge;
  }

  // ---------- the arrays ----------

  /** `chain` is the list that starts at its first symbol and follows `others`. */
  ghost predicate Linked(others: seq<int>, chain: seq<nat>) {
    && chain != []
    && (forall k :: 0 <= k < |chain| ==> chain[k] < |others|)
    && (forall k :: 0 <= k < |chain| - 1 ==> others[chain[k]] == chain[k + 1])
    && others[chain[|chain| - 1]] == -1
    && (forall j, k :: 0 <= j < k < |chain| ==> chain[j] != chain[k])
  }

  /** The chain of a root holds exactly the symbols of its tree. */
  ghost predicate OneChain(t: Forest, others: seq<int>, chain: seq<nat>, r: nat)
    requires t.Shape()
  {
    && Linked(others, chain) && chain[0] == r
    && forall i :: 0 <= i < t.N() ==> (i in chain <==> t.In(i, r))
  }

  ghost predicate Chained(t: Forest, others: seq<int>, chains: seq<seq<nat>>)
    requires t.Shape()
  {
    && |others| == |chains| == t.N()
    && forall r :: 0 <= r < t.N() && t.freq[r] > 0 ==> OneChain(t, others, chains[r], r)
  }

  /** The symbol, other than `skip`, that is picked first, or -1 if all counts are zero. */
  method FindSmallest(freq: array<nat>, skip: int) returns (c: int)
    requires freq.Length == SYMBOLS
    requires forall i :: 0 <= i < SYMBOLS ==> freq[i] <= LIMIT
    ensures -1 <= c < SYMBOLS
    ensures c == -1 ==> forall i :: 0 <= i < SYMBOLS && i != skip ==> freq[i] == 0
    ensures c != -1 ==> First(freq[..], c, skip)
  {
    c := -1;
    var v := LIMIT;
    for i := 0 to SYMBOLS
      invariant -1 <= c < i && v <= LIMIT
      invariant c == -1 ==> v == LIMIT && forall k :: 0 <= k < i && k != skip ==> freq[k] == 0
      invariant c != -1 ==> c != skip && freq[c] == v > 0
      invariant c != -1 ==>
        forall k :: 0 <= k < i && freq[k] > 0 && k != skip && k != c ==> Before(freq[..], c, k)
    {
      if freq[i] != 0 && freq[i] <= v && i != skip {
        v := freq[i];
        c := i;
      }
    }
  }

  lemma LinkStep(others: seq<int>, chain: seq<nat>, k: nat)
    requires Linked(others, chain) && k < |chain|
    ensures others[chain[k]] == if k + 1 < |chain| then chain[k + 1] else -1
  {
  }

  /** Increment the code size of everything in the tree of `root`; return the end of its chain. */
  method Deepen(codesize: array<nat>, others: array<int>, root: nat, ghost chain: seq<nat>) returns (c: nat)
    requires codesize.Length == others.Length && (codesize as object) != (others as object)
    requires Linked(others[..], chain) && chain[0] == root
    modifies codesize
    ensures c == chain[|chain| - 1]
    ensures forall i :: 0 <= i < codesize.Length ==>
      codesize[i] == old(codesize[i]) + if i in chain then 1 else 0
  {
    ghost var k, links := 0, others[..];
    c := root;
    codesize[c] := codesize[c] + 1;
    while others[c] >= 0
      invariant others[..] == links
      invariant k < |chain| && c == chain[k]
      invariant forall i :: 0 <= i < codesize.Length ==>
        codesize[i] == old(codesize[i]) + if i in chain[..k + 1] then 1 else 0
      decreases |chain| - k
    {
      LinkStep(links, chain, k);
      c := others[c];
      k := k + 1;
      assert chain[..k + 1] == chain[..k] + [c] && c !in chain[..k];
      codesize[c] := codesize[c] + 1;
    }
    LinkStep(links, chain, k);
    assert k == |chain| - 1 && chain[..k + 1] == chain;
  }
  /** What the arrays stand for between two merges. */
  ghost predicate Stands(t: Forest, freq: seq<nat>, codesize: seq<nat>, others: seq<int>, chains: seq<seq<nat>>) {
    && t.N() == SYMBOLS
    && t.Shape()
    && freq == t.freq && codesize == t.size
    && Chained(t, others, chains)
  }

  ghost predicate LastRoot(t: Forest, r: nat)
    requires |t.freq| == t.N()
  {
    r < t.N() && t.freq[r] > 0 && forall i :: 0 <= i < t.N() && t.freq[i] > 0 ==> i == r
  }

  ghost function RootCount(t: Forest): int {
    if |t.freq| == t.N() then Sum(t.RootTerms()) else 0
  }

  lemma DeepestHasRoot(t: Forest, p: nat, trail: Trail)
    requires t.Shape() && Deepest(t, p, trail)
    ensures t.owner[p] < t.N() && t.freq[t.owner[p]] > 0
  {
  }

  lemma DeepestLast(t: Forest, p: nat, trail: Trail, r: nat)
    requires t.Shape() && Deepest(t, p, trail) && LastRoot(t, r)
    ensures forall i :: 0 <= i < t.N() ==> t.size[i] <= t.size[p]
    ensures forall i :: 0 <= i < t.N() && t.start[i] == 0 ==> t.size[i] == 0
  {
  }

  lemma SingleChains(f: Freq, others: seq<int>, chains: seq<seq<nat>>)
    requires |f| == |others| == |chains|
    requires forall i :: 0 <= i < |f| ==> others[i] == -1 && chains[i] == [i]
    ensures Singletons(f).Shape() && Chained(Singletons(f), others, chains)
  {
  }

  function Joined2(chains: seq<seq<nat>>, c1: nat, c2: nat): (r: seq<seq<nat>>)
    requires c1 < |chains| && c2 < |chains|
  {
    chains[c1 := chains[c1] + chains[c2]]
  }

  lemma MergeChains(t: Forest, others: seq<int>, chains: seq<seq<nat>>, c1: nat, c2: nat)
    requires t.Shape() && Chained(t, others, chains) && LeastTwo(t.freq, c1, c2)
    requires t.Merge(c1, c2).Shape()
    ensures chains[c1][|chains[c1]| - 1] < |others|
    ensures Chained(t.Merge(c1, c2), others[chains[c1][|chains[c1]| - 1] := c2], Joined2(chains, c1, c2))
  {
    hide OneChain;
    var t' := t.Merge(c1, c2);
    ChainMerged(t, others, chains[c1], chains[c2], c1, c2);
    var last := chains[c1][|chains[c1]| - 1];
    forall r | 0 <= r < t.N() && t'.freq[r] > 0
      ensures OneChain(t', others[last := c2], Joined2(chains, c1, c2)[r], r)
    {
      if r != c1 {
        ChainKept(t, others, chains[r], c1, c2, r, last);
      }
    }
  }

  lemma ChainMerged(t: Forest, others: seq<int>, a: seq<nat>, b: seq<nat>, c1: nat, c2: nat)
    requires t.Shape() && |others| == t.N() && LeastTwo(t.freq, c1, c2) && t.Merge(c1, c2).Shape()
    requires OneChain(t, others, a, c1) && OneChain(t, others, b, c2)
    ensures a != [] && a[|a| - 1] < t.N() && t.In(a[|a| - 1], c1)
    ensures OneChain(t.Merge(c1, c2), others[a[|a| - 1] := c2], a + b, c1)
  {
    hide Linked;
    LinkedEnd(others, a);
    LinkedEnd(others, b);
    assert forall i :: i in a ==> i !in b;
    JoinLinked(others, a, b, c2);
    assert forall i :: i in a + b <==> i in a || i in b;
  }

  lemma ChainKept(t: Forest, others: seq<int>, chain: seq<nat>, c1: nat, c2: nat, r: nat, last: nat)
    requires t.Shape() && |others| == t.N() && LeastTwo(t.freq, c1, c2) && t.Merge(c1, c2).Shape()
    requires OneChain(t, others, chain, r) && r != c1 && r != c2
    requires last < t.N() && t.In(last, c1)
    ensures OneChain(t.Merge(c1, c2), others[last := c2], chain, r)
  {
    hide Linked;
    LinkedEnd(others, chain);
    LinkedUpdate(others, chain, last, c2);
  }

  lemma LinkedEnd(others: seq<int>, chain: seq<nat>)
    requires Linked(others, chain)
    ensures chain != [] && chain[|chain| - 1] in chain
    ensures forall i :: i in chain ==> i < |others|
  {
  }

  lemma LinkedUpdate(others: seq<int>, chain: seq<nat>, i: nat, v: int)
    requires Linked(others, chain) && i < |others| && i !in chain
    ensures Linked(others[i := v], chain)
  {
    assert forall k :: 0 <= k < |chain| ==> chain[k] in chain;
  }

  lemma JoinLinked(others: seq<int>, a: seq<nat>, b: seq<nat>, c2: nat)
    requires Linked(others, a) && Linked(others, b) && b[0] == c2
    requires forall i :: i in a ==> i !in b
    ensures Linked(others[a[|a| - 1] := c2], a + b)
  {
    var c := a + b;
    assert a[|a| - 1] in a;
    forall k | 0 <= k < |c|
      ensures c[k] == if k < |a| then a[k] else b[k - |a|]
      ensures if k < |a| then c[k] in a else c[k] in b
    {
    }
  }
  lemma FirstTwoAreLeast(f: Freq, c1: nat, c2: nat)
    requires First(f, c1, -1) && First(f, c2, c1)
    ensures LeastTwo(f, c1, c2)
  {
  }

  /** Merge the two counts and trees. */
  method MergeOnce(freq: array<nat>, codesize: array<nat>, others: array<int>, first: nat, second: nat,
      ghost t: Forest, ghost chains: seq<seq<nat>>)
    requires freq != codesize && (freq as object) != (others as object) && (codesize as object) != (others as object)
    requires Stands(t, freq[..], codesize[..], others[..], chains) && LeastTwo(t.freq, first, second)
    requires t.Merge(first, second).Shape()
    modifies freq, codesize, others
    ensures first < |chains| && second < |chains|
    ensures Stands(t.Merge(first, second), freq[..], codesize[..], others[..], Joined2(chains, first, second))
  {
    hide Chained, Linked, Forest.Shape, LeastTwo;
    TwoChains(t, others[..], chains, first, second);
    MergeChains(t, others[..], chains, first, second);
    ghost var links, a, b := others[..], chains[first], chains[second];
    freq[first] := freq[first] + freq[second];
    freq[second] := 0;
    assert freq[..] == Merged(t.freq, first, second);
    assert codesize[..] == t.size && others[..] == links;
    var c1 := Deepen(codesize, others, first, a);
    LinkedUpdate(links, b, c1, second);
    assert others[..] == links;
    others[c1] := second;
    assert others[..] == links[c1 := second];
    ghost var middle := codesize[..];
    assert forall i :: 0 <= i < SYMBOLS ==> middle[i] == t.size[i] + if i in a then 1 else 0;
    var c2 := Deepen(codesize, others, second, b);
    assert others[..] == links[c1 := second];
    assert codesize[..] == t.Merge(first, second).size;
  }

  lemma TwoChains(t: Forest, others: seq<int>, chains: seq<seq<nat>>, c1: nat, c2: nat)
    requires t.Shape() && Chained(t, others, chains) && LeastTwo(t.freq, c1, c2)
    ensures c1 < t.N() && c2 < t.N() && c1 != c2
    ensures |t.freq| == |t.size| == |t.owner| == |others| == |chains| == t.N()
    ensures var a, b := chains[c1], chains[c2];
      && Linked(others, a) && Linked(others, b) && a != [] && b != [] && a[0] == c1 && b[0] == c2
      && a[|a| - 1] < |others| && a[|a| - 1] !in b
      && forall i :: 0 <= i < t.N() ==> (i in a <==> t.In(i, c1)) && (i in b <==> t.In(i, c2))
  {
    assert OneChain(t, others, chains[c1], c1) && OneChain(t, others, chains[c2], c2);
    assert chains[c1][|chains[c1]| - 1] in chains[c1];
  }

  /** What the code sizes found for the frequencies `f` are good for. */
  ghost predicate OptimalSizes(f: Freq, size: Lengths) {
    && Within(f, size, SYMBOLS)
    && Kraft(f, size, SYMBOLS) == Pow2(SYMBOLS)
    && (forall l: Lengths, m: nat :: Feasible(f, l, m) ==> Cost(f, size) <= Cost(f, l))
    && (forall i :: 0 <= i < |f| && f[i] == 0 ==> size[i] == 0)
  }

  /** What is promised of them. */
  ghost predicate Finished(f: Freq, size: Lengths) {
    && |size| == SYMBOLS && OptimalSizes(f, size) && DepthBounded(f, size)
    && forall i :: 0 <= i < SYMBOLS ==> size[i] <= size[PSEUDO]
  }

  lemma FinishedSizes(f: Freq, size: Lengths)
    requires Finished(f, size)
    ensures |size| == SYMBOLS && OptimalSizes(f, size) && DepthBounded(f, size)
    ensures forall i :: 0 <= i < SYMBOLS ==> size[i] <= size[PSEUDO]
  {
    hide OptimalSizes, DepthBounded;
  }

  /** What holds between two merges. */
  ghost predicate Running(t: Forest, trail: Trail, least: nat, f: Freq) {
    t.start == f && t.Valid() && t.Best() && Deepest(t, PSEUDO, trail) && Heavy(t, least)
  }

  lemma RunningStart(f: Freq)
    requires |f| == SYMBOLS && f[PSEUDO] == 1
    ensures Running(Singletons(f), Fresh, 1, f)
  {
    SingletonsValid(f);
    SingletonsDeepest(f, PSEUDO);
    SingletonsHeavy(f);
  }

  lemma RunningBounds(t: Forest, trail: Trail, least: nat, f: Freq)
    requires Running(t, trail, least, f) && Sum(f) <= LIMIT
    ensures t.Shape() && 0 <= RootCount(t)
    ensures forall r :: 0 <= r < t.N() ==> t.freq[r] <= LIMIT
  {
    forall r | 0 <= r < t.N()
      ensures t.freq[r] <= LIMIT
    {
      RootAtMostAll(t, r);
    }
  }

  lemma RunningMerge(t: Forest, trail: Trail, least: nat, f: Freq, c1: nat, c2: nat)
    requires Running(t, trail, least, f) && First(t.freq, c1, -1) && First(t.freq, c2, c1)
    ensures LeastTwo(t.freq, c1, c2) && t.Shape() && t.Merge(c1, c2).Shape()
    ensures Running(t.Merge(c1, c2), NextTrail(t, PSEUDO, trail, c1, c2), t.freq[c2], f)
    ensures 0 <= RootCount(t.Merge(c1, c2)) < RootCount(t)
  {
    hide Sum, Heavy;
    FirstTwoAreLeast(t.freq, c1, c2);
    MergeValid(t, c1, c2);
    MergeShape(t, c1, c2);
    MergeDeepest(t, PSEUDO, trail, c1, c2);
    MergeHeavy(t, least, c1, c2);
  }

  /** If all but the first choice are zero, a single tree is left. */
  lemma RunningEnd(t: Forest, trail: Trail, least: nat, f: Freq, c1: int)
    requires Running(t, trail, least, f)
    requires forall i :: 0 <= i < t.N() && i != c1 ==> t.freq[i] == 0
    ensures t.N() == SYMBOLS ==> Finished(f, t.size)
  {
    hide Sum, Kraft, Cost, DepthBounded, Heavy;
    DeepestHasRoot(t, PSEUDO, trail);
    LastTree(t, t.owner[PSEUDO]);
    DeepestLast(t, PSEUDO, trail, t.owner[PSEUDO]);
    HeavyIsBounded(t, least);
  }

  /** Merge until one tree is left.  The code is complete, no
      code for the same frequencies is cheaper, and the pseudo-symbol is as deep as any.  How deep a
      symbol can be depends on the sum of the counts. */
  method MergeAll(freq: array<nat>) returns (codesize: array<nat>)
    requires freq.Length == SYMBOLS && freq[PSEUDO] == 1
    requires Sum(freq[..]) <= LIMIT
    modifies freq
    ensures fresh(codesize) && codesize.Length == SYMBOLS
    ensures OptimalSizes(old(freq[..]), codesize[..])
    ensures forall i :: 0 <= i < SYMBOLS ==> codesize[i] <= codesize[PSEUDO]
    ensures DepthBounded(old(freq[..]), codesize[..])
  {
    hide Sum, Running, Chained, OptimalSizes, Forest.Shape, DepthBounded, Forest.Merge, NextTrail, Joined2, Finished,
      First, Before;
    codesize := new nat[SYMBOLS](_ => 0);
    var others := new int[SYMBOLS](_ => -1);
    ghost var f := freq[..];
    ghost var t, trail, least: nat := Singletons(f), Fresh, 1;
    ghost var chains: seq<seq<nat>> := seq(SYMBOLS, i requires 0 <= i < SYMBOLS => [i]);
    RunningStart(f);
    SingleChains(f, others[..], chains);
    assert codesize[..] == t.size;
    var done := false;
    while !done
      invariant Stands(t, freq[..], codesize[..], others[..], chains) && Running(t, trail, least, f)
      invariant done ==> Finished(f, t.size)
      decreases !done, RootCount(t)
    {
      RunningBounds(t, trail, least, f);
      assert freq[..] == t.freq;
      var c1 := FindSmallest(freq, -1);
      var c2 := FindSmallest(freq, c1);
      if c2 < 0 {
        RunningEnd(t, trail, least, f, c1);
        done := true;
      } else {
        RunningMerge(t, trail, least, f, c1, c2);
        MergeOnce(freq, codesize, others, c1, c2, t, chains);
        chains := Joined2(chains, c1, c2);
        trail := NextTrail(t, PSEUDO, trail, c1, c2);
        least := t.freq[c2];
        t := t.Merge(c1, c2);
      }
    }
    FinishedSizes(f, t.size);
  }
}
