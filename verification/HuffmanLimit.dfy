/** From code sizes to a JPEG Huffman table: counting the lengths, limiting them to 16 bits, dropping
    the pseudo-symbol and listing the symbols by length. */
module HuffmanLimit {
  import opened Shifts
  import opened HuffmanTheory

  type UInt8 = x: nat | x < 256

  const MAX_CLEN: nat := 32   // lengths that can be counted

  // ---------- how much of the code space the counts of each length take ----------

  /** Code words of length l that are used up by codes of length at most l. */
  function Taken(b: seq<nat>, l: nat): nat
    requires l < |b|
  {
    if l == 0 then 0 else 2 * Taken(b, l - 1) + b[l]
  }

  /** Number of codes of length 1 to l. */
  function Total(b: seq<nat>, l: nat): nat
    requires l < |b|
  {
    if l == 0 then 0 else Total(b, l - 1) + b[l]
  }

  lemma {:induction false} TakenSame(b: seq<nat>, b': seq<nat>, l: nat)
    requires l < |b| && l < |b'| && forall k :: 1 <= k <= l ==> b[k] == b'[k]
    ensures Taken(b, l) == Taken(b', l) && Total(b, l) == Total(b', l)
  {
    if l > 0 {
      TakenSame(b, b', l - 1);
    }
  }

  /** One code more of length k. */
  lemma {:induction false} TakenMore(b: seq<nat>, k: nat, l: nat)
    requires 1 <= k <= l < |b|
    ensures Taken(b[k := b[k] + 1], l) == Taken(b, l) + Pow2(l - k)
    ensures Total(b[k := b[k] + 1], l) == Total(b, l) + 1
  {
    if k == l {
      TakenSame(b, b[k := b[k] + 1], l - 1);
      Pow2Small();
    } else {
      TakenMore(b, k, l - 1);
      Pow2Next(l - 1 - k);
    }
  }

  lemma TakenLess(b: seq<nat>, k: nat, l: nat)
    requires 1 <= k <= l < |b| && b[k] > 0
    ensures Taken(b[k := b[k] - 1], l) + Pow2(l - k) == Taken(b, l)
    ensures Total(b[k := b[k] - 1], l) + 1 == Total(b, l)
  {
    TakenMore(b[k := b[k] - 1], k, l);
    assert b[k := b[k] - 1][k := b[k]] == b;
  }

  lemma {:induction false} TakenZero(b: seq<nat>, l: nat)
    requires l < |b| && forall k :: 1 <= k <= l ==> b[k] == 0
    ensures Taken(b, l) == 0 && Total(b, l) == 0
  {
    if l > 0 {
      TakenZero(b, l - 1);
    }
  }

  /** A complete code without codes longer than i is complete at length i. */
  lemma {:induction false} CompleteAt(b: seq<nat>, i: nat, l: nat)
    requires i <= l < |b| && Taken(b, l) == Pow2(l)
    requires forall k :: i < k <= l ==> b[k] == 0
    ensures Taken(b, i) == Pow2(i) && Total(b, i) == Total(b, l)
    decreases l
  {
    if i < l {
      Pow2Next(l - 1);
      CompleteAt(b, i, l - 1);
    }
  }

  // ---------- counting ----------

  function CountOf(size: seq<nat>, l: nat): nat {
    if size == [] then 0
    else CountOf(size[..|size| - 1], l) + if size[|size| - 1] == l then 1 else 0
  }

  function UsedCount(size: seq<nat>): nat {
    if size == [] then 0
    else UsedCount(size[..|size| - 1]) + if size[|size| - 1] > 0 then 1 else 0
  }

  function Counts(size: seq<nat>, m: nat): (b: seq<nat>)
    ensures |b| == m + 1 && forall l :: 0 <= l <= m ==> b[l] == if l == 0 then 0 else CountOf(size, l)
  {
    seq(m + 1, l requires 0 <= l <= m => if l == 0 then 0 else CountOf(size, l))
  }

  /** The Kraft sum by sizes alone. */
  function SizeKraft(size: seq<nat>, m: nat): nat
    requires forall i :: 0 <= i < |size| ==> size[i] <= m
  {
    if size == [] then 0
    else
      var n := |size| - 1;
      SizeKraft(size[..n], m) + if size[n] > 0 then Pow2(m - size[n]) else 0
  }

  lemma {:induction false} CountsTake(size: seq<nat>, m: nat)
    requires forall i :: 0 <= i < |size| ==> size[i] <= m
    ensures Taken(Counts(size, m), m) == SizeKraft(size, m)
    ensures Total(Counts(size, m), m) == UsedCount(size)
  {
    if size == [] {
      TakenZero(Counts(size, m), m);
    } else {
      var n := |size| - 1;
      CountsTake(size[..n], m);
      var b, k := Counts(size[..n], m), size[n];
      if k > 0 {
        TakenMore(b, k, m);
        assert Counts(size, m) == b[k := b[k] + 1];
      } else {
        assert Counts(size, m) == b;
      }
    }
  }

  lemma {:induction false} CountOfUsed(size: seq<nat>, l: nat)
    requires l > 0
    ensures CountOf(size, l) <= UsedCount(size)
  {
    if size != [] {
      CountOfUsed(size[..|size| - 1], l);
    }
  }

  lemma {:induction false} SizeKraftNext(size: seq<nat>, m: nat)
    requires forall i :: 0 <= i < |size| ==> size[i] <= m
    ensures SizeKraft(size, m + 1) == 2 * SizeKraft(size, m)
  {
    if size != [] {
      var n := |size| - 1;
      SizeKraftNext(size[..n], m);
      if size[n] > 0 {
        Pow2Next(m - size[n]);
      }
    }
  }

  /** Being complete does not depend on the unit. */
  lemma {:induction false} SizeKraftComplete(size: seq<nat>, m: nat, m': nat)
    requires m <= m' && forall i :: 0 <= i < |size| ==> size[i] <= m
    ensures SizeKraft(size, m') == Pow2(m') <==> SizeKraft(size, m) == Pow2(m)
    decreases m' - m
  {
    if m < m' {
      SizeKraftNext(size, m);
      Pow2Next(m);
      SizeKraftComplete(size, m + 1, m');
    }
  }

  lemma {:induction false} KraftIsSizeKraft(f: Freq, size: Lengths, m: nat)
    requires Within(f, size, m)
    requires forall i :: 0 <= i < |f| ==> (f[i] > 0 <==> size[i] > 0)
    ensures Kraft(f, size, m) == SizeKraft(size, m)
  {
    if f != [] {
      var n := |f| - 1;
      KraftIsSizeKraft(f[..n], size[..n], m);
      assert KraftTerms(f, size, m)[..n] == KraftTerms(f[..n], size[..n], m);
    }
  }

  /** With two symbols in use every symbol in use has a code. */
  lemma CompleteSizes(f: Freq, size: Lengths, m: nat, x: nat, y: nat)
    requires Within(f, size, m) && Kraft(f, size, m) == Pow2(m)
    requires x < |f| && y < |f| && x != y && f[x] > 0 && f[y] > 0
    ensures forall i :: 0 <= i < |f| && f[i] > 0 ==> size[i] > 0
  {
    hide Sum, Shl;
    forall i | 0 <= i < |f| && f[i] > 0
      ensures size[i] > 0
    {
      if size[i] == 0 {
        var j := if i == x then y else x;
        SumTwo(KraftTerms(f, size, m), i, j);
      }
    }
  }
}
