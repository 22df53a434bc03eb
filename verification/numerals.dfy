/** Fixed-width positional numerals, most significant digit first: the arithmetic under
    base 58 blocks, big-endian integers and decimal text. */
module Numerals {

  function Pow(base: nat, exponent: nat): nat {
    if exponent == 0 then 1 else base * Pow(base, exponent - 1)
  }

  ghost predicate InBase(digits: seq<nat>, base: nat) {
    forall i :: 0 <= i < |digits| ==> digits[i] < base
  }

  function Value(digits: seq<nat>, base: nat): nat {
    if digits == [] then 0
    else Value(digits[..|digits| - 1], base) * base + digits[|digits| - 1]
  }

  function Quotient(n: nat, base: nat): (q: nat)
    requires base > 0
  {
    n / base
  }

  function Remainder(n: nat, base: nat): (r: nat)
    requires base > 0
    ensures r < base
  {
    n % base
  }

  function Digits(n: nat, width: nat, base: nat): (digits: seq<nat>)
    requires base > 0
    ensures |digits| == width
    decreases width
  {
    if width == 0 then [] else Digits(Quotient(n, base), width - 1, base) + [Remainder(n, base)]
  }

  lemma {:induction false} DigitsInBase(n: nat, width: nat, base: nat)
    requires base > 0
    ensures InBase(Digits(n, width, base), base)
    decreases width
  {
    if width > 0 {
      DigitsInBase(Quotient(n, base), width - 1, base);
    }
  }

  lemma {:induction false} ValueBound(digits: seq<nat>, base: nat)
    requires InBase(digits, base)
    ensures Value(digits, base) < Pow(base, |digits|)
  {
    if digits != [] {
      var init := digits[..|digits| - 1];
      ValueBound(init, base);
      StepBound(Value(init, base), digits[|digits| - 1], Pow(base, |init|), base);
    }
  }

  lemma {:induction false} DigitsOfValue(digits: seq<nat>, base: nat)
    requires base > 0 && InBase(digits, base)
    ensures Digits(Value(digits, base), |digits|, base) == digits
  {
    if digits != [] {
      var init, last := digits[..|digits| - 1], digits[|digits| - 1];
      DigitsOfValue(init, base);
      DivModUnique(Value(init, base), last, base);
      assert digits == init + [last];
    }
  }

  lemma {:induction false} ValueOfDigits(n: nat, width: nat, base: nat)
    requires base > 0 && n < Pow(base, width)
    ensures Value(Digits(n, width, base), base) == n
    decreases width
  {
    if width > 0 {
      QuotientBound(n, Pow(base, width - 1), base);
      ValueOfDigits(Quotient(n, base), width - 1, base);
      DivModSplit(n, base);
      assert Digits(n, width, base)[..width - 1] == Digits(Quotient(n, base), width - 1, base);
    }
  }

  // The non-linear steps, one fact each.

  lemma DivModSplit(n: nat, base: nat)
    requires base > 0
    ensures Quotient(n, base) * base + Remainder(n, base) == n
  {}

  lemma DivModUnique(q: nat, r: nat, base: nat)
    requires r < base
    ensures Quotient(q * base + r, base) == q && Remainder(q * base + r, base) == r
  {
    var n := q * base + r;
    DivModSplit(n, base);
    SameSplit(q, r, Quotient(n, base), Remainder(n, base), base);
  }

  lemma SameSplit(q: nat, r: nat, q': nat, r': nat, base: nat)
    requires r < base && r' < base && q * base + r == q' * base + r'
    ensures q == q' && r == r'
  {
    if q < q' {
      MulGap(q, q', base);
    } else if q' < q {
      MulGap(q', q, base);
    }
  }

  lemma MulGap(a: nat, b: nat, base: nat)
    requires a < b
    ensures a * base + base <= b * base
  {
    MulMonotone(a + 1, b, base);
    assert (a + 1) * base == a * base + base;
  }

  lemma {:induction false} MulMonotone(a: nat, b: nat, base: nat)
    requires a <= b
    ensures a * base <= b * base
    decreases b - a
  {
    if a < b {
      MulMonotone(a + 1, b, base);
      assert (a + 1) * base == a * base + base;
    }
  }

  lemma StepBound(v: nat, d: nat, p: nat, base: nat)
    requires v < p && d < base
    ensures v * base + d < base * p
  {
    MulGap(v, p, base);
  }

  lemma QuotientBound(n: nat, p: nat, base: nat)
    requires base > 0 && n < base * p
    ensures Quotient(n, base) < p
  {
    DivModSplit(n, base);
    if Quotient(n, base) >= p {
      MulMonotone(p, Quotient(n, base), base);
      assert false;
    }
  }
}
