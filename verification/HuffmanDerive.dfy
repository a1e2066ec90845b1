/** jpeg_make_c_derived_tbl: canonical codes from a JPEG Huffman table (section C.2 of ITU-T T.81),
    and which tables it accepts. */
module HuffmanDerive {
  import opened Shifts
  import opened BitStrings
  import opened HuffmanLimit
  import opened HuffmanGenerate

  /** The code word of each symbol, and its length, which is 0 if there is none. */
  datatype Derived = Derived(ehufco: seq<nat>, ehufsi: seq<nat>)

  datatype Option<+T> = None | Some(value: T)

  // ---------- canonical codes, defined by position ----------

  /** The length of the p-th code. */
  function SizeAt(bits: seq<nat>, p: nat, l: nat): (r: nat)
    requires |bits| == 17 && l <= 16 && p < Total(bits, l)
    ensures 1 <= r <= l && bits[r] > 0
    ensures Total(bits, r - 1) <= p < Total(bits, r)
  {
    if Total(bits, l - 1) <= p then l else SizeAt(bits, p, l - 1)
  }

  /** The p-th code: codes of each length count up from twice what the shorter ones take. */
  function CodeAt(bits: seq<nat>, p: nat): nat
    requires |bits| == 17 && p < Total(bits, 16)
  {
    var l := SizeAt(bits, p, 16);
    2 * Taken(bits, l - 1) + (p - Total(bits, l - 1))
  }

  lemma {:induction false} TotalMonotone(bits: seq<nat>, k: nat, l: nat)
    requires k <= l < |bits|
    ensures Total(bits, k) <= Total(bits, l)
    ensures Shl(Taken(bits, k), l - k) <= Taken(bits, l)
  {
    if k < l {
      TotalMonotone(bits, k, l - 1);
    }
  }

  lemma SizeUnique(bits: seq<nat>, p: nat, l: nat)
    requires |bits| == 17 && 1 <= l <= 16
    requires Total(bits, l - 1) <= p < Total(bits, l)
    ensures p < Total(bits, 16) && SizeAt(bits, p, 16) == l
  {
    TotalMonotone(bits, l, 16);
    var r := SizeAt(bits, p, 16);
    if r < l {
      TotalMonotone(bits, r, l - 1);
    } else if r > l {
      TotalMonotone(bits, l, r - 1);
    }
  }

  /** A code that leaves one word of 16 bits over leaves one over at every length. */
  lemma {:induction false} RoomAtAllLengths(bits: seq<nat>, k: nat, l: nat)
    requires k <= l < |bits| && Taken(bits, l) < Pow2(l)
    ensures Taken(bits, k) < Pow2(k)
    decreases l
  {
    if k < l {
      Pow2Next(l - 1);
      RoomAtAllLengths(bits, k, l - 1);
    }
  }

  /** Codes fit their lengths, and none is all ones. */
  lemma CodeFits(bits: seq<nat>, p: nat)
    requires |bits| == 17 && p < Total(bits, 16) && Taken(bits, 16) < Pow2(16)
    ensures CodeAt(bits, p) + 1 < Pow2(SizeAt(bits, p, 16))
    ensures CodeAt(bits, p) + 1 <= Taken(bits, SizeAt(bits, p, 16))
  {
    RoomAtAllLengths(bits, SizeAt(bits, p, 16), 16);
  }

  /** Later codes are not shorter, and lie beyond everything that begins with an earlier one. */
  lemma CodesAscend(bits: seq<nat>, p: nat, q: nat)
    requires |bits| == 17 && p < q < Total(bits, 16) && Taken(bits, 16) < Pow2(16)
    ensures var l, m := SizeAt(bits, p, 16), SizeAt(bits, q, 16);
      l <= m && Shl(CodeAt(bits, p) + 1, m - l) <= CodeAt(bits, q)
  {
    hide Taken, Total;
    var l, m := SizeAt(bits, p, 16), SizeAt(bits, q, 16);
    if m < l {
      TotalMonotone(bits, m, l - 1);
      assert false;
    }
    CodeFits(bits, p);
    if l < m {
      TotalMonotone(bits, l, m - 1);
      ShlOrder(CodeAt(bits, p) + 1, Taken(bits, l), m - l);
    }
  }

  lemma {:induction false} NoneBetween(bits: seq<nat>, k: nat, l: nat)
    requires k <= l < |bits| && Total(bits, k) == Total(bits, l)
    ensures Taken(bits, l) == Shl(Taken(bits, k), l - k)
  {
    if k < l {
      TotalMonotone(bits, k, l - 1);
      NoneBetween(bits, k, l - 1);
      ShlNext(Taken(bits, k), l - 1 - k);
    } else {
      ShlNone(Taken(bits, k));
    }
  }

  /** Section C.2 of ITU-T T.81: the first code is zero; each code is the one before plus one, with as many zeros
      appended as it is longer; and there are bits[l] codes of each length l, shorter ones first. */
  lemma CodesCount(bits: seq<nat>, p: nat)
    requires |bits| == 17 && p < Total(bits, 16)
    ensures CodeAt(bits, 0) == 0
    ensures var l := SizeAt(bits, p, 16);
      Total(bits, l - 1) <= p < Total(bits, l) && Total(bits, l) == Total(bits, l - 1) + bits[l]
    ensures p + 1 < Total(bits, 16) ==>
      var l, m := SizeAt(bits, p, 16), SizeAt(bits, p + 1, 16);
      l <= m && CodeAt(bits, p + 1) == Shl(CodeAt(bits, p) + 1, m - l)
  {
    FirstIsZero(bits);
    if p + 1 < Total(bits, 16) {
      NextCode(bits, p);
    }
  }

  lemma NextCode(bits: seq<nat>, p: nat)
    requires |bits| == 17 && p + 1 < Total(bits, 16)
    ensures var l, m := SizeAt(bits, p, 16), SizeAt(bits, p + 1, 16);
      l <= m && CodeAt(bits, p + 1) == Shl(CodeAt(bits, p) + 1, m - l)
  {
    hide SizeAt, Taken, Total, Shl;
    var l, m := SizeAt(bits, p, 16), SizeAt(bits, p + 1, 16);
    if m < l {
      TotalMonotone(bits, m, l - 1);
    } else if m == l {
      ShlNone(CodeAt(bits, p) + 1);
    } else {
      TotalMonotone(bits, l, m - 1);
      LastOfLength(bits, l);
      NoneBetween(bits, l, m - 1);
      ShlNext(Taken(bits, l), m - 1 - l);
    }
  }

  lemma LastOfLength(bits: seq<nat>, l: nat)
    requires 0 < l < |bits|
    ensures Total(bits, l) == Total(bits, l - 1) + bits[l]
    ensures 2 * Taken(bits, l - 1) + bits[l] == Taken(bits, l)
  {
  }

  lemma FirstIsZero(bits: seq<nat>)
    requires |bits| == 17 && Total(bits, 16) > 0
    ensures CodeAt(bits, 0) == 0
  {
    hide SizeAt;
    var l := SizeAt(bits, 0, 16);
    TotalMonotone(bits, 0, l - 1);
    NoneBetween(bits, 0, l - 1);
    ShlZero(l - 1);
  }

  // ---------- what a derived table is good for ----------

  ghost predicate Shaped(d: Derived) {
    && |d.ehufco| == |d.ehufsi| == 256
    && forall s :: 0 <= s < 256 ==> d.ehufsi[s] <= 16
  }

  /** The code word of a symbol. */
  function Word(d: Derived, s: nat): Bits
    requires s < |d.ehufco| && s < |d.ehufsi|
  {
    ToBits(d.ehufco[s], d.ehufsi[s])
  }

  ghost predicate HasCode(d: Derived, s: nat) {
    s < 256 && s < |d.ehufsi| && d.ehufsi[s] > 0
  }

  /** Codes fit their sizes, no code word begins with another one, and none consists of ones only. */
  ghost predicate PrefixCode(d: Derived) {
    && Shaped(d)
    && (forall s: nat, t: nat :: HasCode(d, s) && HasCode(d, t) && s != t ==> !(Word(d, s) <= Word(d, t)))
    && (forall s: nat :: HasCode(d, s) ==> Word(d, s) != Ones(d.ehufsi[s]))
    && (forall s: nat :: HasCode(d, s) ==> d.ehufco[s] < Pow2(d.ehufsi[s]))
  }

  /** `d` assigns the canonical codes to the listed symbols, and no codes to others. */
  ghost predicate Canonical(t: HuffTable, d: Derived) {
    && |t.bits| == 17 && Total(t.bits, 16) <= |t.huffval|
    && Shaped(d)
    && (forall p :: 0 <= p < Total(t.bits, 16) ==>
          d.ehufsi[t.huffval[p]] == SizeAt(t.bits, p, 16) && d.ehufco[t.huffval[p]] == CodeAt(t.bits, p))
    && (forall s: nat :: HasCode(d, s) ==> s in t.huffval[..Total(t.bits, 16)])
  }

  lemma WordValue(t: HuffTable, d: Derived, p: nat)
    requires Canonical(t, d) && Taken(t.bits, 16) < Pow2(16) && p < Total(t.bits, 16)
    ensures FromBits(Word(d, t.huffval[p])) == CodeAt(t.bits, p)
    ensures |Word(d, t.huffval[p])| == SizeAt(t.bits, p, 16)
    ensures Word(d, t.huffval[p]) != Ones(SizeAt(t.bits, p, 16))
  {
    CodeFits(t.bits, p);
    FromToBits(CodeAt(t.bits, p), SizeAt(t.bits, p, 16));
    FromOnes(SizeAt(t.bits, p, 16));
  }

  lemma NotPrefix(t: HuffTable, d: Derived, p: nat, q: nat)
    requires Canonical(t, d) && Taken(t.bits, 16) < Pow2(16)
    requires p < Total(t.bits, 16) && q < Total(t.bits, 16) && p != q
    ensures !(Word(d, t.huffval[p]) <= Word(d, t.huffval[q]))
  {
    hide Taken, Total, CodeAt, FromBits, Word;
    var a, b := Word(d, t.huffval[p]), Word(d, t.huffval[q]);
    WordValue(t, d, p);
    WordValue(t, d, q);
    if a <= b {
      var rest := b[|a|..];
      assert b == a + rest;
      FromBitsAppend(a, rest);
      FromBitsBelow(rest);
      ShlAdd(FromBits(a), 1, |rest|);
      if p < q {
        CodesAscend(t.bits, p, q);
      } else {
        CodesAscend(t.bits, q, p);
      }
    }
  }

  /** The codes derived from a table with room for one more code form a prefix code. */
  lemma CanonicalIsPrefixCode(t: HuffTable, d: Derived)
    requires Canonical(t, d) && Taken(t.bits, 16) < Pow2(16)
    ensures PrefixCode(d)
  {
    hide Taken, Total, CodeAt, SizeAt, Word;
    var n := Total(t.bits, 16);
    forall s: nat, u: nat | HasCode(d, s) && HasCode(d, u) && s != u
      ensures !(Word(d, s) <= Word(d, u))
    {
      var p :| 0 <= p < n && t.huffval[p] == s;
      var q :| 0 <= q < n && t.huffval[q] == u;
      NotPrefix(t, d, p, q);
    }
    forall s: nat | HasCode(d, s)
      ensures Word(d, s) != Ones(d.ehufsi[s]) && d.ehufco[s] < Pow2(d.ehufsi[s])
    {
      var p :| 0 <= p < n && t.huffval[p] == s;
      WordValue(t, d, p);
      CodeFits(t.bits, p);
    }
  }
  // ---------- the derivation itself ----------

  function MaxSymbol(isDC: bool): nat { if isDC then 15 else 255 }

  /** The tables that pass validation. */
  ghost predicate Acceptable(t: HuffTable, isDC: bool)
    requires |t.bits| == 17
  {
    && Total(t.bits, 16) <= 256
    && Taken(t.bits, 16) < Pow2(16)
    && Total(t.bits, 16) <= |t.huffval|
    && (forall p :: 0 <= p < Total(t.bits, 16) ==> t.huffval[p] <= if isDC then 15 else 255)
    && (forall p, q :: 0 <= p < q < Total(t.bits, 16) ==> t.huffval[p] != t.huffval[q])
  }

  /** List the code lengths, place by place, with a zero behind them (Figure C.1). */
  method FillSizes(bits: seq<UInt8>) returns (huffsize: array<nat>, lastp: nat, ok: bool)
    requires |bits| == 17
    ensures ok <==> Total(bits, 16) <= 256
    ensures fresh(huffsize)
    ensures ok ==> huffsize.Length == 257 && lastp == Total(bits, 16) && huffsize[lastp] == 0
    ensures ok ==> forall p :: 0 <= p < lastp ==> huffsize[p] == SizeAt(bits, p, 16)
  {
    hide Taken;
    huffsize := new nat[257](_ => 0);
    var p := 0;
    ok := true;
    lastp := 0;
    for l := 1 to 17
      invariant p == Total(bits, l - 1) <= 256
      invariant forall k :: 0 <= k < p ==> k < Total(bits, 16) && huffsize[k] == SizeAt(bits, k, 16)
    {
      TotalMonotone(bits, l, 16);
      var i := bits[l];
      if p + i > 256 {
        return huffsize, 0, false;
      }
      while i > 0
        invariant p + i == Total(bits, l) && Total(bits, l - 1) <= p
        invariant forall k :: 0 <= k < p ==> k < Total(bits, 16) && huffsize[k] == SizeAt(bits, k, 16)
      {
        SizeUnique(bits, p, l);
        huffsize[p] := l;
        p := p + 1;
        i := i - 1;
      }
    }
    huffsize[p] := 0;
    lastp := p;
  }

  lemma {:induction false} NothingTaken(bits: seq<nat>, l: nat)
    requires l < |bits| && Total(bits, l) == 0
    ensures Taken(bits, l) == 0
  {
    if l > 0 {
      NothingTaken(bits, l - 1);
    }
  }

  /** Lengths without codes leave the room there is. */
  lemma {:induction false} NoMoreTaken(bits: seq<nat>, k: nat, l: nat)
    requires k <= l < |bits| && Total(bits, k) == Total(bits, l) && Taken(bits, k) < Pow2(k)
    ensures Taken(bits, l) < Pow2(l)
    decreases l
  {
    if k < l {
      TotalMonotone(bits, k, l - 1);
      NoMoreTaken(bits, k, l - 1);
      Pow2Next(l - 1);
    }
  }

  /** The entries of `huffsize`: sizes of the codes, and a zero behind them. */
  ghost predicate Sized(bits: seq<UInt8>, huffsize: seq<nat>) {
    && |bits| == 17 && |huffsize| == 257 && Total(bits, 16) <= 256
    && huffsize[Total(bits, 16)] == 0
    && forall p :: 0 <= p < Total(bits, 16) ==> huffsize[p] == SizeAt(bits, p, 16)
  }

  lemma RunOfSize(bits: seq<UInt8>, huffsize: seq<nat>, p: nat, si: nat)
    requires Sized(bits, huffsize) && 1 <= si <= 16
    requires Total(bits, si - 1) <= p <= Total(bits, si)
    ensures p <= Total(bits, 16)
    ensures huffsize[p] == si <==> p < Total(bits, si)
  {
    TotalMonotone(bits, si, 16);
    if p < Total(bits, si) {
      SizeUnique(bits, p, si);
    }
  }

  /** Number the codes in canonical order (Figure C.2), as long as there are code words left of each length. */
  method FillCodes(bits: seq<UInt8>, huffsize: array<nat>) returns (huffcode: array<nat>, ok: bool)
    requires huffsize.Length == 257 && Sized(bits, huffsize[..])
    ensures ok <==> Taken(bits, 16) < Pow2(16)
    ensures fresh(huffcode) && huffcode.Length == 257
    ensures ok ==> forall p :: 0 <= p < Total(bits, 16) ==> huffcode[p] == CodeAt(bits, p)
  {
    hide Taken, Total, Shl;
    huffcode := new nat[257](_ => 0);
    ok := true;
    ghost var lastp := Total(bits, 16);
    var code := 0;
    var si: int := huffsize[0];
    var p := 0;
    FirstSize(bits, huffsize[..]);
    while huffsize[p] != 0
      invariant 0 < lastp ==> 1 <= si <= 17 && p == Total(bits, si - 1)
      invariant 0 < lastp ==> code == 2 * Taken(bits, si - 1) && Taken(bits, si - 1) < Pow2(si - 1)
      invariant p <= lastp
      invariant forall k :: 0 <= k < p ==> huffcode[k] == CodeAt(bits, k)
      decreases 17 - si
    {
      TotalStep(bits, si);
      RunOfSize(bits, huffsize[..], p, si);
      while huffsize[p] == si
        invariant Total(bits, si - 1) <= p <= Total(bits, si) && p <= lastp
        invariant huffsize[p] == si <==> p < Total(bits, si)
        invariant code == 2 * Taken(bits, si - 1) + (p - Total(bits, si - 1))
        invariant forall k :: 0 <= k < p ==> huffcode[k] == CodeAt(bits, k)
        decreases lastp - p
      {
        huffcode[p] := code;
        p := p + 1;
        code := code + 1;
        RunOfSize(bits, huffsize[..], p, si);
      }
      // More code words were given out than there are of this length
      if code >= Pow2(si) {
        if Taken(bits, 16) < Pow2(16) {
          RoomAtAllLengths(bits, si, 16);
        }
        return huffcode, false;
      }
      code := 2 * code;
      si := si + 1;
    }
    if 0 < lastp {
      NoMoreTaken(bits, si - 1, 16);
    }
  }

  lemma TotalStep(bits: seq<nat>, l: nat)
    requires 1 <= l < |bits|
    ensures Total(bits, l) == Total(bits, l - 1) + bits[l]
    ensures Taken(bits, l) == 2 * Taken(bits, l - 1) + bits[l]
  {
  }

  lemma FirstSize(bits: seq<UInt8>, huffsize: seq<nat>)
    requires Sized(bits, huffsize)
    ensures Total(bits, 16) == 0 ==> huffsize[0] == 0 && Taken(bits, 16) < Pow2(16)
    ensures Total(bits, 16) > 0 ==>
      var l := huffsize[0];
      1 <= l <= 16 && Total(bits, l - 1) == 0 && Taken(bits, l - 1) == 0 && 0 < Pow2(l - 1)
  {
    if Total(bits, 16) == 0 {
      NothingTaken(bits, 16);
    } else {
      NothingTaken(bits, huffsize[0] - 1);
    }
  }
  ghost predicate Assigned(t: HuffTable, d: Derived, p: nat)
    requires |t.bits| == 17 && p <= Total(t.bits, 16) <= |t.huffval|
  {
    && Shaped(d)
    && (forall k :: 0 <= k < p ==>
          d.ehufsi[t.huffval[k]] == SizeAt(t.bits, k, 16) && d.ehufco[t.huffval[k]] == CodeAt(t.bits, k))
    && (forall s: nat :: HasCode(d, s) ==> s in t.huffval[..p])
  }

  /** Look the places up by symbol (Figure C.3).  It fails at the first symbol that is too large or listed before. */
  method FillTable(t: HuffTable, isDC: bool, huffsize: array<nat>, huffcode: array<nat>, lastp: nat)
    returns (r: Option<Derived>)
    requires huffsize.Length == huffcode.Length == 257 && Sized(t.bits, huffsize[..])
    requires lastp == Total(t.bits, 16) <= |t.huffval|
    requires forall p :: 0 <= p < lastp ==> huffcode[p] == CodeAt(t.bits, p)
    ensures r.Some? <==>
      && (forall p :: 0 <= p < Total(t.bits, 16) ==> t.huffval[p] <= MaxSymbol(isDC))
      && (forall p, q :: 0 <= p < q < Total(t.bits, 16) ==> t.huffval[p] != t.huffval[q])
    ensures r.Some? ==> Canonical(t, r.value)
  {
    hide Total, Taken, CodeAt;
    var d := Derived(seq(256, _ => 0), seq(256, _ => 0));
    var p := 0;
    while p < lastp
      invariant p <= lastp && Assigned(t, d, p)
      invariant forall k :: 0 <= k < p ==> t.huffval[k] <= MaxSymbol(isDC)
      invariant forall j, k :: 0 <= j < k < p ==> t.huffval[j] != t.huffval[k]
      decreases lastp - p
    {
      var i := t.huffval[p];
      if i > MaxSymbol(isDC) || d.ehufsi[i] != 0 {
        if d.ehufsi[i] != 0 {
          assert HasCode(d, i);
          var k :| 0 <= k < p && t.huffval[k] == i;
        }
        return None;
      }
      AssignNext(t, d, p);
      d := Derived(d.ehufco[i := huffcode[p]], d.ehufsi[i := huffsize[p]]);
      p := p + 1;
    }
    r := Some(d);
  }

  lemma AssignNext(t: HuffTable, d: Derived, p: nat)
    requires |t.bits| == 17 && p < Total(t.bits, 16) <= |t.huffval| && Assigned(t, d, p)
    requires d.ehufsi[t.huffval[p]] == 0
    ensures forall k :: 0 <= k < p ==> t.huffval[k] != t.huffval[p]
    ensures var i := t.huffval[p];
      Assigned(t, Derived(d.ehufco[i := CodeAt(t.bits, p)], d.ehufsi[i := SizeAt(t.bits, p, 16)]), p + 1)
  {
    hide Total, CodeAt;
    var i := t.huffval[p];
    var d' := Derived(d.ehufco[i := CodeAt(t.bits, p)], d.ehufsi[i := SizeAt(t.bits, p, 16)]);
    assert forall s :: s in t.huffval[..p + 1] <==> s in t.huffval[..p] || s == i;
    forall s: nat | HasCode(d', s)
      ensures s in t.huffval[..p + 1]
    {
      assert s == i || HasCode(d, s);
    }
  }

  /** From a table as it is written to the file to the code words.  A table is accepted exactly if it is
      acceptable, and then the codes are a prefix code. */
  method MakeDerivedTable(t: HuffTable, isDC: bool) returns (r: Option<Derived>)
    requires |t.bits| == 17
    requires Total(t.bits, 16) <= 256 ==> Total(t.bits, 16) <= |t.huffval|
    ensures r.Some? <==> Acceptable(t, isDC)
    ensures r.Some? ==> Canonical(t, r.value) && PrefixCode(r.value)
  {
    hide Total, Taken, CodeAt, Canonical, PrefixCode;
    var huffsize, lastp, ok := FillSizes(t.bits);
    if !ok {
      return None;
    }
    assert Sized(t.bits, huffsize[..]);
    var huffcode;
    huffcode, ok := FillCodes(t.bits, huffsize);
    if !ok {
      return None;
    }
    r := FillTable(t, isDC, huffsize, huffcode, lastp);
    if r.Some? {
      CanonicalIsPrefixCode(t, r.value);
    }
  }

  /** Every table made by GenOptimalTable from symbols in range is accepted; every symbol that was
      counted gets a code of length 1 to 16. */
  lemma GeneratedIsAcceptable(size: seq<nat>, t: HuffTable, isDC: bool)
    requires |size| == 257 && Fits(size, t)
    requires forall i :: MaxSymbol(isDC) < i < 256 ==> size[i] == 0
    ensures Acceptable(t, isDC)
    ensures forall d, s :: Canonical(t, d) && 0 <= s < 256 && size[s] > 0 ==> 1 <= d.ehufsi[s] <= 16
  {
    hide Total, Taken, CodeAt;
    ListFits(t.huffval, size);
    forall d, s | Canonical(t, d) && 0 <= s < 256 && size[s] > 0
      ensures 1 <= d.ehufsi[s] <= 16
    {
      var p :| 0 <= p < |t.huffval| && t.huffval[p] == s;
    }
  }

  /** A list of distinct bytes has at most 256 entries. */
  lemma ListFits(v: seq<UInt8>, size: seq<nat>)
    requires |size| == 257 && Lists(size, v)
    ensures |v| <= 256
  {
    DistinctBelow(v, 256);
  }

  lemma {:induction false} DistinctBelow(v: seq<nat>, n: nat)
    requires forall p :: 0 <= p < |v| ==> v[p] < n
    requires forall p, q :: 0 <= p < q < |v| ==> v[p] != v[q]
    ensures |v| <= n
  {
    if v != [] {
      assert v[0] < n;
      if k :| 0 <= k < |v| && v[k] == n - 1 {
        DistinctBelow(v[..k] + v[k + 1..], n - 1);
      } else {
        DistinctBelow(v, n - 1);
      }
    }
  }
}
