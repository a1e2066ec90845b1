/** Why rounded division can be done by a multiplication and a shift: the arithmetic behind
    compute_reciprocal in jcdctmgr.c. */
module ReciprocalDivision {
  import opened Shifts
  import opened WordArithmetic

  // ---------- shifts as products and quotients ----------

  lemma {:induction false} ShlIsProduct(v: nat, k: nat)
    ensures Shl(v, k) == v * Pow2(k)
  {
    if k == 0 {
      Pow2Small();
    } else {
      ShlIsProduct(v, k - 1);
      Pow2Next(k - 1);
      assert 2 * (v * Pow2(k - 1)) == v * (2 * Pow2(k - 1));
    }
  }

  lemma Pow2Sum(j: nat, k: nat)
    ensures Pow2(j + k) == Pow2(j) * Pow2(k)
  {
    ShlShl(1, j, k);
    ShlIsProduct(Pow2(j), k);
  }

  // ---------- products, with their laws one at a time ----------

  function Times(a: nat, b: nat): nat { a * b }

  lemma TimesIs(a: nat, b: nat)
    ensures Times(a, b) == a * b
  {
  }

  lemma TimesZero(a: nat)
    ensures Times(0, a) == 0 == Times(a, 0)
  {
  }

  lemma TimesAdd(a: nat, b: nat, c: nat)
    ensures Times(a + b, c) == Times(a, c) + Times(b, c)
    ensures Times(c, a + b) == Times(c, a) + Times(c, b)
  {
  }

  lemma TimesSwap(a: nat, b: nat, c: nat)
    ensures Times(Times(a, b), c) == Times(a, Times(b, c)) == Times(Times(a, c), b)
  {
  }

  lemma TimesOrder(a: nat, b: nat, c: nat)
    ensures a <= b ==> Times(a, c) <= Times(b, c) && Times(c, a) <= Times(c, b)
    ensures a < b ==> Times(a, c) + c <= Times(b, c)
    ensures c > 0 && Times(a, c) <= Times(b, c) ==> a <= b
    ensures Times(a, c) < Times(b, c) ==> a < b
  {
    if a < b {
      TimesAdd(a + 1, b - a - 1, c);
    } else if b < a {
      TimesAdd(b + 1, a - b - 1, c);
    }
  }

  lemma TimesOne(a: nat)
    ensures Times(1, a) == a == Times(a, 1)
  {
  }

  lemma Division(x: nat, p: nat)
    requires p > 0
    ensures Times(x / p, p) + x % p == x && x % p < p
  {
  }

  /** A quotient is known by its bounds. */
  lemma QuotientIs(x: nat, p: nat, q: nat)
    requires p > 0 && Times(q, p) <= x < Times(q + 1, p)
    ensures x / p == q
  {
    hide Times;
    var e := x / p;
    Division(x, p);
    TimesAdd(e, 1, p);
    TimesOne(p);
    TimesOrder(e + 1, q, p);
    TimesOrder(q + 1, e, p);
  }

  lemma {:induction false} ShrIsQuotient(v: nat, k: nat)
    ensures Shr(v, k) == v / Pow2(k)
  {
    hide Pow2;
    if k == 0 {
      Pow2Small();
      assert v / 1 == v;
    } else {
      ShrIsQuotient(v, k - 1);
      Pow2Next(k - 1);
      HalfOfQuotient(v, Pow2(k - 1));
    }
  }

  lemma HalfOfQuotient(v: nat, p: nat)
    requires p > 0
    ensures v / p / 2 == v / (2 * p)
  {
    hide Times;
    var e := v / p;
    var q := e / 2;
    Division(v, p);
    TimesAdd(q, q, p);
    TimesAdd(p, p, q);
    TimesAdd(q + 1, q + 1, p);
    TimesAdd(p, p, q + 1);
    TimesAdd(e, 1, p);
    TimesOne(p);
    TimesOrder(q + q, e, p);
    TimesOrder(e + 1, q + 1 + q + 1, p);
    TimesCommutes(q, 2 * p);
    TimesCommutes(q + 1, 2 * p);
    TimesCommutes(q, p);
    TimesCommutes(q + 1, p);
    QuotientIs(v, 2 * p, q);
  }

  lemma TimesCommutes(a: nat, b: nat)
    ensures Times(a, b) == Times(b, a)
  {
  }

  // ---------- the two roundings of the reciprocal ----------

  /** (q * d + s) * p, with the quotient in front. */
  lemma Regroup(q: nat, d: nat, s: nat, p: nat)
    ensures Times(Times(q, d) + s, p) == Times(Times(q, p), d) + Times(s, p)
    ensures Times(Times(q + 1, p), d) == Times(Times(q, p), d) + Times(d, p)
  {
    hide Times;
    TimesAdd(Times(q, d), s, p);
    TimesSwap(q, d, p);
    TimesAdd(q, 1, p);
    TimesOne(p);
    TimesAdd(Times(q, p), p, d);
    TimesCommutes(p, d);
  }

  /** The reciprocal f of d, rounded down by e, and the dividend increased by one. */
  lemma RoundedDown(p: nat, d: nat, f: nat, e: nat, n: nat)
    requires d > 0 && p == Times(f, d) + e && 0 < e && Times(n + 1, e) < p
    ensures Times(n + 1, f) / p == n / d
  {
    hide Times;
    var q, s := n / d, n % d;
    Division(n, d);
    var x := Times(n + 1, f);
    TimesSwap(n + 1, f, d);
    TimesAdd(Times(f, d), e, n + 1);
    Regroup(q, d, s + 1, p);
    TimesOrder(s + 1, d, p);
    TimesOrder(1, s + 1, p);
    TimesOne(p);
    TimesOrder(1, n + 1, e);
    TimesOne(e);
    TimesOrder(Times(q, p), x, d);
    TimesOrder(x, Times(q + 1, p), d);
    QuotientIs(x, p, q);
  }

  /** The reciprocal f of d, rounded up by e. */
  lemma RoundedUp(p: nat, d: nat, f: nat, e: nat, n: nat)
    requires d > 0 && p > 0 && Times(f, d) == p + e && Times(n, e) < p
    ensures Times(n, f) / p == n / d
  {
    hide Times;
    var q, s := n / d, n % d;
    Division(n, d);
    var x := Times(n, f);
    TimesSwap(n, f, d);
    TimesAdd(p, e, n);
    Regroup(q, d, s, p);
    TimesOrder(s, d, p);
    TimesOrder(Times(q, p), x, d);
    TimesOrder(x, Times(q + 1, p), d);
    QuotientIs(x, p, q);
  }
}
