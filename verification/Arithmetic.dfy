/** Products and rounded quotients. `Times` keeps products linear for the verifier: one unfolding
    adds one unit, and only the lemmas of this module look at it as a multiplication. */
module Arithmetic {

  /** `count * unit`; see `TimesIsProduct`. */
  function Times(count: nat, unit: nat): nat {
    if count == 0 then 0 else Times(count - 1, unit) + unit
  }

  lemma {:induction false} TimesIsProduct(count: nat, unit: nat)
    ensures Times(count, unit) == count * unit
  {
    if count > 0 {
      TimesIsProduct(count - 1, unit);
      assert count * unit == (count - 1) * unit + unit;
    }
  }

  lemma {:induction false} TimesMonotone(a: nat, b: nat, unit: nat)
    requires a <= b
    ensures Times(a, unit) <= Times(b, unit)
    ensures a < b ==> Times(a, unit) + unit <= Times(b, unit)
  {
    if a < b {
      TimesMonotone(a, b - 1, unit);
    }
  }

  lemma {:induction false} TimesDistributes(count: nat, a: nat, b: nat)
    ensures Times(count, a + b) == Times(count, a) + Times(count, b)
  {
    if count > 0 {
      TimesDistributes(count - 1, a, b);
    }
  }

  lemma {:induction false} TimesAtLeast(count: nat, unit: nat)
    requires unit > 0
    ensures Times(count, unit) >= count
  {
    if count > 0 {
      TimesAtLeast(count - 1, unit);
    }
  }

  function Quotient(a: nat, unit: nat): nat
    requires unit > 0
  {
    a / unit
  }

  /** The quotient counts the whole units below `a`. */
  lemma QuotientBounds(a: nat, unit: nat)
    requires unit > 0
    ensures Times(Quotient(a, unit), unit) <= a < Times(Quotient(a, unit), unit) + unit
    ensures a == Times(Quotient(a, unit), unit) + a % unit
  {
    TimesIsProduct(a / unit, unit);
  }

  /** The quotient is the only such count. */
  lemma QuotientUnique(a: nat, unit: nat, q: nat)
    requires unit > 0
    requires Times(q, unit) <= a < Times(q, unit) + unit
    ensures q == Quotient(a, unit)
  {
    QuotientBounds(a, unit);
    if q < Quotient(a, unit) {
      TimesMonotone(q, Quotient(a, unit), unit);
    } else if q > Quotient(a, unit) {
      TimesMonotone(Quotient(a, unit), q, unit);
    }
  }

  /** `a.div_ceil(unit)`. */
  function DivCeil(a: nat, unit: nat): nat
    requires unit > 0
  {
    if a % unit == 0 then a / unit else a / unit + 1
  }

  lemma DivCeilBounds(a: nat, unit: nat)
    requires unit > 0
    ensures var c := DivCeil(a, unit);
      && a <= Times(c, unit)
      && c <= a
      && (a > 0 ==> c >= 1 && Times(c - 1, unit) < a)
  {
    QuotientBounds(a, unit);
    TimesAtLeast(Quotient(a, unit), unit);
  }

  /** Number of segments of a message of `length` plaintext bytes: an empty message still has one. */
  function CanonicalCount(length: nat, unit: nat): (r: nat)
    requires unit > 0
    ensures r >= 1
  {
    var count := DivCeil(length, unit);
    if count < 1 then 1 else count
  }

  lemma CanonicalCountBounds(length: nat, unit: nat)
    requires unit > 0
    ensures var c := CanonicalCount(length, unit);
      && Times(c - 1, unit) <= length <= Times(c, unit)
      && (c > 1 ==> Times(c - 1, unit) < length)
      && c <= length + 1
  {
    DivCeilBounds(length, unit);
  }

  /** The canonical count is the only one whose last unit is neither overfull nor needlessly empty. */
  lemma CanonicalCountUnique(length: nat, unit: nat, c: nat)
    requires unit > 0 && c >= 1
    requires Times(c - 1, unit) <= length <= Times(c, unit)
    requires c > 1 ==> Times(c - 1, unit) < length
    ensures c == CanonicalCount(length, unit)
    ensures length > 0 ==> c == DivCeil(length, unit)
  {
    CanonicalCountBounds(length, unit);
    DivCeilBounds(length, unit);
    var d := CanonicalCount(length, unit);
    if c < d {
      TimesMonotone(c, d - 1, unit);
    } else if d < c {
      TimesMonotone(d, c - 1, unit);
    }
  }

  /** A count that admits `length` is canonical, or one too many with an empty last unit. */
  lemma RecountLastUnit(length: nat, unit: nat, count: nat)
    requires unit > 0 && count >= 1
    requires Times(count - 1, unit) <= length <= Times(count, unit)
    ensures CanonicalCount(length, unit) == if count > 1 && length == Times(count - 1, unit) then count - 1 else count
  {
    if count > 1 && length == Times(count - 1, unit) {
      CanonicalCountUnique(length, unit, count - 1);
    } else {
      CanonicalCountUnique(length, unit, count);
    }
  }

  lemma CountLimit(length: nat, unit: nat, limit: nat)
    requires unit > 0 && limit >= 1
    ensures CanonicalCount(length, unit) > limit <==> length > Times(limit, unit)
  {
    CanonicalCountBounds(length, unit);
    var c := CanonicalCount(length, unit);
    if c > limit {
      TimesMonotone(limit, c - 1, unit);
    } else {
      TimesMonotone(c, limit, unit);
    }
  }
}
