/** How many bits the macros of the sequential encoder (jchuff.c) leave pending in their word after a block,
    as a function of the block and the code sizes.  Whether a flush loses bits depends on that number. */
module SequentialPending {
  import opened MacroPacking
  import opened HuffmanDerive
  import opened Coefficients
  import opened SequentialBlock

  function CodeSize(t: Derived, s: nat): nat {
    if s < |t.ehufsi| then t.ehufsi[s] else 0
  }

  /** Bits pending at the end of the block, if `p` are before the coefficient at position k, and r zeros have
      been skipped in front of it. */
  function AcPending(z: Block, k: nat, r: nat, t: Derived, word: nat, p: nat): nat
    requires k <= 64
    decreases 64 - k, r
  {
    if k == 64 then if r > 0 then AfterField(word, p, CodeSize(t, 0)) else p
    else if z[k] == 0 then AcPending(z, k + 1, r + 1, t, word, p)
    else if r > 15 then AcPending(z, k, r - 16, t, word, AfterField(word, p, CodeSize(t, 0xF0)))
    else
      var n := NBits(Abs(z[k]));
      AcPending(z, k + 1, 0, t, word, AfterCode(word, p, CodeSize(t, 16 * r + n), n))
  }

  function DcPending(diff: int, t: Derived, word: nat, p: nat): nat {
    var n := NBits(Abs(diff));
    AfterField(word, AfterField(word, p, CodeSize(t, n)), n)
  }

  function BlockPending(b: Block, lastDc: int, dct: Derived, act: Derived, word: nat, p: nat): nat {
    AcPending(Zigzag(b), 1, 0, act, word, DcPending(b[0] - lastDc, dct, word, p))
  }

  /** One step of the definition of AcPending. */
  lemma AcPendingAt(z: Block, k: nat, r: nat, t: Derived, word: nat, p: nat)
    requires k < 64
    ensures z[k] == 0 ==> AcPending(z, k, r, t, word, p) == AcPending(z, k + 1, r + 1, t, word, p)
    ensures z[k] != 0 && r > 15 ==>
      AcPending(z, k, r, t, word, p) == AcPending(z, k, r - 16, t, word, AfterField(word, p, CodeSize(t, 0xF0)))
    ensures var n := NBits(Abs(z[k]));
      z[k] != 0 && r <= 15 ==>
        AcPending(z, k, r, t, word, p)
        == AcPending(z, k + 1, 0, t, word, AfterCode(word, p, CodeSize(t, 16 * r + n), n))
  {
    hide NBits, Abs, AfterField, AfterCode, CodeSize;
  }

  lemma LastPending(z: Block, r: nat, t: Derived, word: nat, p: nat)
    ensures AcPending(z, 64, r, t, word, p) == if r > 0 then AfterField(word, p, CodeSize(t, 0)) else p
  {
  }

  /** Zeros up to the end of the block. */
  lemma {:induction false} ZerosPending(z: Block, k: nat, r: nat, t: Derived, word: nat, p: nat)
    requires k < 64 && forall i :: k <= i < 64 ==> z[i] == 0
    ensures AcPending(z, k, r, t, word, p) == AfterField(word, p, CodeSize(t, 0))
    decreases 64 - k
  {
    hide AfterField;
    AcPendingAt(z, k, r, t, word, p);
    if k == 63 {
      LastPending(z, r + 1, t, word, p);
    } else {
      ZerosPending(z, k + 1, r + 1, t, word, p);
    }
  }

  /** Codes of at most 16 bits, as every derived table has them. */
  ghost predicate SizesFit(t: Derived) {
    forall s: nat :: CodeSize(t, s) <= 16
  }

  lemma PrefixCodeFits(t: Derived)
    requires PrefixCode(t)
    ensures SizesFit(t)
  {
  }

  lemma FieldFits(word: nat, p: nat, size: nat)
    requires (word == 32 || word == 64) && size <= 16 && p <= if word == 32 then 15 else 63
    ensures AfterField(word, p, size) <= if word == 32 then 15 else 63
    ensures word == 64 ==> AfterField(word, p, size) <= 47 + size
  {
  }

  lemma CodeFieldsFit(word: nat, p: nat, size: nat, n: nat)
    requires (word == 32 || word == 64) && size <= 16 && n <= 15 && p <= if word == 32 then 15 else 63
    ensures AfterCode(word, p, size, n) <= if word == 32 then 15 else 63
    ensures word == 64 ==> AfterCode(word, p, size, n) <= 31 + size + n
  {
    hide AfterField;
    if word == 32 {
      FieldFits(word, p, size);
      FieldFits(word, AfterField(word, p, size), n);
    }
  }

  lemma SizeFits(t: Derived, s: nat)
    requires SizesFit(t)
    ensures CodeSize(t, s) <= 16
  {
  }

  /** At most 15 bits are left pending in a 32-bit word, and at most 63 in a 64-bit word. */
  lemma {:induction false} AcPendingFits(z: Block, k: nat, r: nat, t: Derived, word: nat, p: nat)
    requires k <= 64 && SizesFit(t) && (word == 32 || word == 64)
    requires forall i :: k <= i < 64 ==> NBits(Abs(z[i])) <= 15
    requires p <= if word == 32 then 15 else 63
    ensures AcPending(z, k, r, t, word, p) <= if word == 32 then 15 else 63
    decreases 64 - k, r
  {
    hide NBits, Abs, CodeSize, AcPending, AfterField, AfterCode, SizesFit;
    if k == 64 {
      LastPending(z, r, t, word, p);
      SizeFits(t, 0);
      FieldFits(word, p, CodeSize(t, 0));
    } else {
      AcPendingAt(z, k, r, t, word, p);
      if z[k] == 0 {
        AcPendingFits(z, k + 1, r + 1, t, word, p);
      } else if r > 15 {
        SizeFits(t, 0xF0);
        FieldFits(word, p, CodeSize(t, 0xF0));
        AcPendingFits(z, k, r - 16, t, word, AfterField(word, p, CodeSize(t, 0xF0)));
      } else {
        var n := NBits(Abs(z[k]));
        SizeFits(t, 16 * r + n);
        CodeFieldsFit(word, p, CodeSize(t, 16 * r + n), n);
        AcPendingFits(z, k + 1, 0, t, word, AfterCode(word, p, CodeSize(t, 16 * r + n), n));
      }
    }
  }

  lemma DcPendingFits(diff: int, t: Derived, word: nat, p: nat)
    requires SizesFit(t) && (word == 32 || word == 64) && NBits(Abs(diff)) <= 15
    requires p <= if word == 32 then 15 else 63
    ensures DcPending(diff, t, word, p) <= if word == 32 then 15 else 63
  {
    hide NBits, Abs, CodeSize, AfterField, SizesFit;
    var n := NBits(Abs(diff));
    SizeFits(t, n);
    FieldFits(word, p, CodeSize(t, n));
    FieldFits(word, AfterField(word, p, CodeSize(t, n)), n);
  }

  lemma BlockPendingFits(b: Block, lastDc: int, dct: Derived, act: Derived, word: nat, p: nat)
    requires SizesFit(dct) && SizesFit(act) && (word == 32 || word == 64) && InRange(b, lastDc)
    requires p <= if word == 32 then 15 else 63
    ensures BlockPending(b, lastDc, dct, act, word, p) <= if word == 32 then 15 else 63
  {
    hide NBits, Abs, CodeSize, AcPending, DcPending, SizesFit;
    ZigzagKeepsRange(b, 15);
    DcPendingFits(b[0] - lastDc, dct, word, p);
    AcPendingFits(Zigzag(b), 1, 0, act, word, DcPending(b[0] - lastDc, dct, word, p));
  }

  /** With coefficients of at most 10 bits, as in 8-bit images, and an end-of-block code that is no longer,
      at most 57 bits are left pending. */
  lemma {:induction false} AcPendingShort(z: Block, k: nat, r: nat, t: Derived, word: nat, p: nat)
    requires word == 64 && k <= 64 && SizesFit(t) && CodeSize(t, 0) <= 10 && p <= 63
    requires forall i :: k <= i < 64 ==> NBits(Abs(z[i])) <= 10
    requires k < 64 || r > 0 || p <= 57
    ensures AcPending(z, k, r, t, word, p) <= 57
    decreases 64 - k, r
  {
    hide NBits, Abs, CodeSize, AcPending, AfterField, AfterCode, SizesFit;
    if k == 64 {
      LastPending(z, r, t, word, p);
      FieldFits(word, p, CodeSize(t, 0));
    } else {
      AcPendingAt(z, k, r, t, word, p);
      if z[k] == 0 {
        AcPendingShort(z, k + 1, r + 1, t, word, p);
      } else if r > 15 {
        SizeFits(t, 0xF0);
        FieldFits(word, p, CodeSize(t, 0xF0));
        AcPendingShort(z, k, r - 16, t, word, AfterField(word, p, CodeSize(t, 0xF0)));
      } else {
        var n := NBits(Abs(z[k]));
        SizeFits(t, 16 * r + n);
        CodeFieldsFit(word, p, CodeSize(t, 16 * r + n), n);
        AcPendingShort(z, k + 1, 0, t, word, AfterCode(word, p, CodeSize(t, 16 * r + n), n));
      }
    }
  }

  /** AC coefficients and an end-of-block code of at most 10 bits. */
  ghost predicate ShortEnough(act: Derived, b: Block) {
    CodeSize(act, 0) <= 10 && forall i :: 1 <= i < 64 ==> NBits(Abs(b[i])) <= 10
  }

  lemma BlockPendingShort(b: Block, lastDc: int, dct: Derived, act: Derived, word: nat, p: nat)
    requires word == 64 && SizesFit(dct) && SizesFit(act) && InRange(b, lastDc) && ShortEnough(act, b) && p <= 63
    ensures BlockPending(b, lastDc, dct, act, word, p) <= 57
  {
    hide NBits, Abs, CodeSize, AcPending, DcPending, SizesFit;
    ZigzagKeepsRange(b, 10);
    DcPendingFits(b[0] - lastDc, dct, word, p);
    AcPendingShort(Zigzag(b), 1, 0, act, word, DcPending(b[0] - lastDc, dct, word, p));
  }
}
