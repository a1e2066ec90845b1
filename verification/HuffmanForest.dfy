/** The forest that the merge loop of jpeg_gen_optimal_table works on: which tree each symbol is in,
    how deep it is there, and what one merge does to all of it. */
module HuffmanForest {
  import opened Shifts
  import opened HuffmanTheory

  /** `start` holds the original frequencies, `freq` those of the roots; `owner` is the root of a
      symbol's tree and `size` its depth in it. */
  datatype Forest = Forest(start: Freq, freq: Freq, owner: seq<nat>, size: Lengths)
  {
    function N(): nat { |start| }

    predicate In(i: nat, r: nat)
      requires i < |start| && |owner| == |start|
    {
      start[i] > 0 && owner[i] == r
    }

    ghost predicate Shape() {
      && |freq| == |owner| == |size| == N()
      && (forall i :: 0 <= i < N() && start[i] > 0 ==> owner[i] < N() && freq[owner[i]] > 0)
      && (forall i :: 0 <= i < N() && start[i] == 0 ==> freq[i] == 0 && size[i] == 0)
      && (forall r :: 0 <= r < N() && freq[r] > 0 ==> owner[r] == r)
    }

    function WeightTerms(r: nat): (t: seq<int>)
      requires |owner| == N()
      ensures |t| == N()
      ensures forall i :: 0 <= i < N() ==> t[i] == if In(i, r) then start[i] else 0
    {
      seq(N(), i requires 0 <= i < N() => if In(i, r) then start[i] else 0)
    }

    function KraftTermsOf(r: nat): (t: seq<int>)
      requires Shape() && Shallow()
      ensures |t| == N()
      ensures forall i :: 0 <= i < N() ==> t[i] == if In(i, r) then Pow2(N() - size[i]) else 0
    {
      seq(N(), i requires 0 <= i < N() => if In(i, r) then Pow2(N() - size[i]) else 0)
    }

    function RootTerms(): (t: seq<int>)
      requires |freq| == N()
      ensures |t| == N()
      ensures forall i :: 0 <= i < N() ==> t[i] == if freq[i] > 0 then 1 else 0
    {
      seq(N(), i requires 0 <= i < N() => if freq[i] > 0 then 1 else 0)
    }

    /** Every merge makes codes one longer and roots one fewer. */
    ghost predicate Shallow()
      requires Shape()
    {
      0 <= Sum(RootTerms()) && forall i :: 0 <= i < N() ==> size[i] + Sum(RootTerms()) <= N()
    }

    ghost predicate Weights()
      requires Shape()
    {
      forall r :: 0 <= r < N() ==> freq[r] == Sum(WeightTerms(r))
    }

    /** Each tree is a complete code of its own. */
    ghost predicate Complete()
      requires Shape() && Shallow()
    {
      forall r :: 0 <= r < N() && freq[r] > 0 ==> Sum(KraftTermsOf(r)) == Pow2(N())
    }

    ghost predicate Valid() {
      Shape() && Shallow() && Weights() && Complete()
    }

    /** Whatever code the original symbols are given, the trees cost at most that much, with a
        suitable code for the roots. */
    ghost predicate Best()
      requires Shape()
    {
      forall l: Lengths, m: nat :: Feasible(start, l, m) ==> Matched(Cost(start, l))
    }

    ghost predicate Matched(bound: int)
      requires Shape()
    {
      exists r: Lengths, m: nat :: Feasible(freq, r, m) && Cost(freq, r) + Cost(start, size) <= bound
    }

    function Merge(c1: nat, c2: nat): (t: Forest)
      requires |freq| == |owner| == |size| == N()
      requires c1 < N() && c2 < N() && c1 != c2
      ensures t.start == start && t.freq == Merged(freq, c1, c2)
      ensures |t.owner| == |t.size| == N()
      ensures forall i :: 0 <= i < N() ==> t.owner[i] == if owner[i] == c2 then c1 else owner[i]
      ensures forall i :: 0 <= i < N() ==> t.size[i] == size[i] + if In(i, c1) || In(i, c2) then 1 else 0
    {
      Forest(start, Merged(freq, c1, c2),
             seq(N(), i requires 0 <= i < N() => if owner[i] == c2 then c1 else owner[i]),
             seq(N(), i requires 0 <= i < N() => size[i] + if In(i, c1) || In(i, c2) then 1 else 0))
    }
  }

  function Singletons(start: Freq): (t: Forest)
    ensures t.start == start && t.freq == start && |t.owner| == |t.size| == |start|
    ensures forall i :: 0 <= i < |start| ==> t.owner[i] == i && t.size[i] == 0
  {
    Forest(start, start, seq(|start|, i requires 0 <= i < |start| => i), seq(|start|, i => 0))
  }

  lemma LoneTerm(t: seq<int>, r: nat)
    requires r < |t| && forall i :: 0 <= i < |t| && i != r ==> t[i] == 0
    ensures Sum(t) == t[r]
  {
    SumUpdate(t, r, 0);
    AllZero(t[r := 0]);
  }

  lemma {:induction false} SumAtMost(t: seq<int>)
    requires forall i :: 0 <= i < |t| ==> 0 <= t[i] <= 1
    ensures 0 <= Sum(t) <= |t|
  {
    if t != [] {
      SumAtMost(t[..|t| - 1]);
    }
  }

  lemma SingletonsValid(start: Freq)
    ensures Singletons(start).Valid() && Singletons(start).Best()
  {
    hide Sum, Shl;
    var t := Singletons(start);
    SumAtMost(t.RootTerms());
    forall r | 0 <= r < t.N()
      ensures t.freq[r] == Sum(t.WeightTerms(r))
    {
      LoneTerm(t.WeightTerms(r), r);
    }
    forall r | 0 <= r < t.N() && t.freq[r] > 0
      ensures Sum(t.KraftTermsOf(r)) == Pow2(t.N())
    {
      LoneTerm(t.KraftTermsOf(r), r);
    }
    AllZero(CostTerms(t.start, t.size));
  }

  // ---------- one merge ----------

  lemma MergeShape(t: Forest, c1: nat, c2: nat)
    requires t.Shape() && LeastTwo(t.freq, c1, c2)
    ensures t.Merge(c1, c2).Shape()
    ensures Sum(t.Merge(c1, c2).RootTerms()) == Sum(t.RootTerms()) - 1
  {
    hide Sum;
    var t' := t.Merge(c1, c2);
    SumUpdate(t.RootTerms(), c2, 0);
    assert t'.RootTerms() == t.RootTerms()[c2 := 0];
  }

  lemma MergeWeights(t: Forest, c1: nat, c2: nat)
    requires t.Shape() && t.Weights() && LeastTwo(t.freq, c1, c2)
    requires t.Merge(c1, c2).Shape()
    ensures t.Merge(c1, c2).Weights()
  {
    hide Sum;
    var t' := t.Merge(c1, c2);
    forall r | 0 <= r < t.N()
      ensures t'.freq[r] == Sum(t'.WeightTerms(r))
    {
      if r == c1 {
        SumLinear(t.WeightTerms(c1), t.WeightTerms(c2), t'.WeightTerms(c1), 1);
      } else if r == c2 {
        AllZero(t'.WeightTerms(c2));
      } else {
        assert t'.WeightTerms(r) == t.WeightTerms(r);
      }
    }
  }

  lemma MergeComplete(t: Forest, c1: nat, c2: nat)
    requires t.Shape() && t.Shallow() && t.Complete() && LeastTwo(t.freq, c1, c2)
    requires t.Merge(c1, c2).Shape() && t.Merge(c1, c2).Shallow()
    ensures t.Merge(c1, c2).Complete()
  {
    hide Sum, Shl;
    var t' := t.Merge(c1, c2);
    forall r | 0 <= r < t.N() && t'.freq[r] > 0
      ensures Sum(t'.KraftTermsOf(r)) == Pow2(t.N())
    {
      if r == c1 {
        MergedKraft(t, c1, c2);
      } else {
        assert t'.KraftTermsOf(r) == t.KraftTermsOf(r);
      }
    }
  }

  lemma MergedKraft(t: Forest, c1: nat, c2: nat)
    requires t.Shape() && t.Shallow() && t.Complete() && LeastTwo(t.freq, c1, c2)
    requires t.Merge(c1, c2).Shape() && t.Merge(c1, c2).Shallow()
    ensures Sum(t.Merge(c1, c2).KraftTermsOf(c1)) == Pow2(t.N())
  {
    hide Sum, Shl;
    var t' := t.Merge(c1, c2);
    var a, b, c := t.KraftTermsOf(c1), t.KraftTermsOf(c2), t'.KraftTermsOf(c1);
    var zero, both := seq(t.N(), i => 0), seq(t.N(), i requires 0 <= i < t.N() => a[i] + b[i]);
    SumLinear(a, b, both, 1);
    forall i | 0 <= i < t.N()
      ensures both[i] == zero[i] + 2 * c[i]
    {
      if t'.In(i, c1) {
        Pow2Next(t.N() - t'.size[i]);
      }
    }
    SumLinear(zero, c, both, 2);
    AllZero(zero);
  }

  lemma MergeCost(t: Forest, c1: nat, c2: nat)
    requires t.Shape() && t.Weights() && LeastTwo(t.freq, c1, c2)
    ensures Cost(t.start, t.Merge(c1, c2).size) == Cost(t.start, t.size) + t.freq[c1] + t.freq[c2]
  {
    hide Sum;
    var t' := t.Merge(c1, c2);
    var a, b, c := CostTerms(t.start, t.size), t.WeightTerms(c1), CostTerms(t.start, t'.size);
    var mid := seq(t.N(), i requires 0 <= i < t.N() => a[i] + b[i]);
    SumLinear(a, b, mid, 1);
    forall i | 0 <= i < t.N()
      ensures c[i] == mid[i] + 1 * t.WeightTerms(c2)[i]
    {
      Distribute(t.start[i], t.size[i], 1);
    }
    SumLinear(mid, t.WeightTerms(c2), c, 1);
  }

  lemma MergeBest(t: Forest, c1: nat, c2: nat)
    requires t.Shape() && t.Weights() && t.Best() && LeastTwo(t.freq, c1, c2)
    requires t.Merge(c1, c2).Shape()
    ensures t.Merge(c1, c2).Best()
  {
    hide Cost, Kraft, Forest.Weights;
    var t' := t.Merge(c1, c2);
    MergeCost(t, c1, c2);
    forall l: Lengths, m: nat | Feasible(t.start, l, m)
      ensures t'.Matched(Cost(t.start, l))
    {
      assert t.Matched(Cost(t.start, l));
      var r, k :| Feasible(t.freq, r, k) && Cost(t.freq, r) + Cost(t.start, t.size) <= Cost(t.start, l);
      var r', k' := MergeKeepsOptimum(t.freq, r, k, c1, c2);
      assert Feasible(t'.freq, r', k');
    }
  }

  lemma MergeValid(t: Forest, c1: nat, c2: nat)
    requires t.Valid() && t.Best() && LeastTwo(t.freq, c1, c2)
    ensures t.Merge(c1, c2).Valid() && t.Merge(c1, c2).Best()
  {
    hide Sum, Shl, Forest.Weights, Forest.Complete, Forest.Best;
    MergeShape(t, c1, c2);
    MergeWeights(t, c1, c2);
    SumNonNegative(t.Merge(c1, c2).RootTerms());
    MergeComplete(t, c1, c2);
    MergeBest(t, c1, c2);
  }

  /** When a single tree is left, its depths are a complete code, and no code is cheaper. */
  lemma LastTree(t: Forest, r: nat)
    requires t.Valid() && t.Best()
    requires r < t.N() && t.freq[r] > 0 && forall i :: 0 <= i < t.N() && t.freq[i] > 0 ==> i == r
    ensures Within(t.start, t.size, t.N()) && Kraft(t.start, t.size, t.N()) == Pow2(t.N())
    ensures forall l: Lengths, m: nat :: Feasible(t.start, l, m) ==> Cost(t.start, t.size) <= Cost(t.start, l)
  {
    hide Sum, Shl, Cost, Forest.Weights;
    assert KraftTerms(t.start, t.size, t.N()) == t.KraftTermsOf(r);
    forall l: Lengths, m: nat | Feasible(t.start, l, m)
      ensures Cost(t.start, t.size) <= Cost(t.start, l)
    {
      assert t.Matched(Cost(t.start, l));
      MatchedBound(t, Cost(t.start, l));
    }
  }

  lemma MatchedBound(t: Forest, bound: int)
    requires t.Shape() && t.Matched(bound)
    ensures Cost(t.start, t.size) <= bound
  {
    hide Cost, Kraft;
    var r, m :| Feasible(t.freq, r, m) && Cost(t.freq, r) + Cost(t.start, t.size) <= bound;
    CostNonNegative(t.freq, r);
  }
}
