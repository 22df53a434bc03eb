/** Decimal text of natural numbers, and reading it back. */
module DecimalText {
  import opened Numerals

  predicate IsDigit(c: char) { '0' <= c <= '9' }

  predicate AllDigits(s: string) {
    forall i :: 0 <= i < |s| ==> IsDigit(s[i])
  }

  function DigitChar(d: nat): (c: char)
    requires d < 10
    ensures IsDigit(c) && DigitValue(c) == d
  {
    '0' + d as char
  }

  function DigitValue(c: char): (d: nat)
    ensures d < 10
  {
    if IsDigit(c) then (c - '0') as nat else 0
  }

  /** The shortest decimal text, as str() of an integer gives it. */
  function Decimal(n: nat): (s: string)
    ensures |s| >= 1 && AllDigits(s)
  {
    if n < 10 then [DigitChar(n)] else Decimal(n / 10) + [DigitChar(n % 10)]
  }

  function Parse(s: string): nat {
    if s == "" then 0 else Parse(s[..|s| - 1]) * 10 + DigitValue(s[|s| - 1])
  }

  function Zeros(n: nat): (s: string)
    ensures |s| == n && AllDigits(s)
  {
    seq(n, i => '0')
  }

  lemma {:induction false} ParseDecimal(n: nat)
    ensures Parse(Decimal(n)) == n
  {
    if n >= 10 {
      ParseDecimal(n / 10);
      assert Decimal(n)[..|Decimal(n)| - 1] == Decimal(n / 10);
    }
  }

  lemma DecimalInjective(a: nat, b: nat)
    requires Decimal(a) == Decimal(b)
    ensures a == b
  {
    ParseDecimal(a);
    ParseDecimal(b);
  }

  lemma {:induction false} ParseAppend(a: string, b: string)
    ensures Parse(a + b) == Parse(a) * Pow(10, |b|) + Parse(b)
  {
    if b == "" {
      assert a + b == a;
    } else {
      var init := b[..|b| - 1];
      ParseAppend(a, init);
      assert (a + b)[..|a + b| - 1] == a + init;
      Regroup(Parse(a), Pow(10, |init|), Parse(init), DigitValue(b[|b| - 1]));
    }
  }

  lemma Regroup(a: nat, p: nat, i: nat, d: nat)
    ensures (a * p + i) * 10 + d == a * (10 * p) + (i * 10 + d)
  {}

  lemma {:induction false} ParseZeros(n: nat)
    ensures Parse(Zeros(n)) == 0
  {
    if n > 0 {
      ParseZeros(n - 1);
      assert Zeros(n)[..n - 1] == Zeros(n - 1);
    }
  }
}
