/** Exact decimal fractions: numbers printed as "digits.digits" and parsed back, without rounding. */
module Decimals {
  import opened Outcomes
  import opened Sequences
  import opened Text

  predicate AllDigits(s: string) {
    forall c :: c in s ==> IsDigit(c)
  }

  /** The value of the digits behind a decimal point. */
  function Fraction(s: string): real
    requires AllDigits(s)
  {
    if s == "" then 0.0 else (DigitValue(s[0]) as real + Fraction(s[1..])) / 10.0
  }

  /** An unsigned decimal with a point: the only form that is parsed here. */
  function ParseFloat(s: string): Option<real> {
    var parts := Split(s, '.');
    if |parts| == 2 && IsNumber(parts[0]) && IsNumber(parts[1]) then Some(Value(parts[0]) as real + Fraction(parts[1]))
    else None
  }

  /** Printing "%d.%d". */
  function PrintPair(whole: nat, part: nat): string {
    Decimal(whole) + "." + Decimal(part)
  }

  lemma ParsePrintedPair(whole: nat, part: nat)
    ensures AllDigits(Decimal(part))
    ensures ParseFloat(PrintPair(whole, part)) == Some(whole as real + Fraction(Decimal(part)))
  {
    ValueOfDecimal(whole);
    ValueOfDecimal(part);
    SplitConcat(Decimal(whole), '.', Decimal(part));
    SplitNothing(Decimal(whole), '.');
    SplitNothing(Decimal(part), '.');
  }

  lemma {:induction false} FractionBounds(s: string)
    requires AllDigits(s)
    ensures 0.0 <= Fraction(s) < 1.0
  {
    if s != "" {
      FractionBounds(s[1..]);
      assert IsDigit(s[0]) && DigitValue(s[0]) as real <= 9.0;
    }
  }

  function PowTen(n: nat): (p: nat)
    ensures p > 0
  {
    if n == 0 then 1 else 10 * PowTen(n - 1)
  }

  /** x divided by the n-th power of ten, kept linear for the proofs below. */
  function Tenths(x: real, n: nat): real {
    if n == 0 then x else Tenths(x, n - 1) / 10.0
  }

  lemma {:induction false} TenthsIsQuotient(x: real, n: nat)
    ensures Tenths(x, n) == x / PowTen(n) as real
  {
    if n > 0 {
      TenthsIsQuotient(x, n - 1);
      DivideTwice(x, PowTen(n - 1));
    }
  }

  lemma DivideTwice(x: real, p: nat)
    requires p > 0
    ensures x / p as real / 10.0 == x / (10 * p) as real
  {
    assert (10 * p) as real == 10.0 * p as real;
  }

  lemma {:induction false} TenthsAdd(x: real, y: real, n: nat)
    ensures Tenths(x + y, n) == Tenths(x, n) + Tenths(y, n)
  {
    if n > 0 {
      TenthsAdd(x, y, n - 1);
    }
  }

  lemma {:induction false} TenthsOfTen(x: real, n: nat)
    ensures Tenths(10.0 * x, n + 1) == Tenths(x, n)
  {
    if n > 0 {
      TenthsOfTen(x, n - 1);
    }
  }

  /** Another digit behind the others is worth its value in that place. */
  lemma {:induction false} FractionNext(s: string, c: char)
    requires AllDigits(s) && IsDigit(c)
    ensures Fraction(s + [c]) == Fraction(s) + Tenths(DigitValue(c) as real, |s| + 1)
  {
    if s != "" {
      FractionNext(s[1..], c);
      assert (s + [c])[1..] == s[1..] + [c];
    } else {
      assert Tenths(DigitValue(c) as real, 0) == DigitValue(c) as real && ("" + [c])[1..] == "";
    }
  }

  /** Behind the point, n digits are their number divided by ten to the n. */
  lemma {:induction false} FractionIsValue(s: string)
    requires AllDigits(s)
    ensures Fraction(s) == Tenths(Value(s) as real, |s|)
  {
    if s != "" {
      var init, d := Init(s), DigitValue(Last(s));
      assert s == init + [Last(s)];
      FractionIsValue(init);
      FractionNext(init, Last(s));
      TenthsOfTen(Value(init) as real, |init|);
      TenthsAdd(10.0 * Value(init) as real, d as real, |s|);
      assert Value(s) as real == 10.0 * Value(init) as real + d as real;
    }
  }

  /** A number below ten to the n, and not below ten to the n - 1 unless it is zero, is printed with n digits. */
  lemma {:induction false} DigitCount(n: nat)
    ensures |Decimal(n)| > 0 && n < PowTen(|Decimal(n)|)
    ensures n > 0 ==> PowTen(|Decimal(n)| - 1) <= n
  {
    if n >= 10 {
      DigitCount(n / 10);
    }
  }

  lemma PrintedFraction(part: nat)
    ensures AllDigits(Decimal(part))
    ensures Fraction(Decimal(part)) == part as real / PowTen(|Decimal(part)|) as real
  {
    ValueOfDecimal(part);
    FractionIsValue(Decimal(part));
    TenthsIsQuotient(part as real, |Decimal(part)|);
  }

  /** A printed "a.b" parses to a plus b divided by ten to the number of digits of b. */
  lemma PrintedPairValue(whole: nat, part: nat)
    ensures ParseFloat(PrintPair(whole, part)) ==
            Some(whole as real + part as real / PowTen(|Decimal(part)|) as real)
  {
    ParsePrintedPair(whole, part);
    PrintedFraction(part);
  }

  /** The first digit decides the fraction up to a tenth. */
  lemma FractionFirstDigit(s: string)
    requires AllDigits(s) && s != ""
    ensures DigitValue(s[0]) as real / 10.0 <= Fraction(s) < (DigitValue(s[0]) + 1) as real / 10.0
  {
    FractionBounds(s[1..]);
  }

  /** The first digit of a printed number. */
  function LeadingDigit(n: nat): nat {
    if n < 10 then n else LeadingDigit(n / 10)
  }

  lemma {:induction false} LeadingDigitPrinted(n: nat)
    ensures LeadingDigit(n) < 10 && (n > 0 ==> LeadingDigit(n) > 0)
    ensures Decimal(n) != "" && Decimal(n)[0] == Digit(LeadingDigit(n))
  {
    if n >= 10 {
      LeadingDigitPrinted(n / 10);
    }
  }

  // --------------------------------------------------------- trailing zeros

  function Zeros(k: nat): string {
    if k == 0 then "" else Zeros(k - 1) + "0"
  }

  /** n times the k-th power of ten. */
  function Scaled(n: nat, k: nat): nat {
    if k == 0 then n else 10 * Scaled(n, k - 1)
  }

  lemma {:induction false} ValueWithZeros(s: string, k: nat)
    requires AllDigits(s)
    ensures AllDigits(s + Zeros(k)) && Value(s + Zeros(k)) == Scaled(Value(s), k)
  {
    if k == 0 {
      assert s + Zeros(0) == s;
    } else {
      ValueWithZeros(s, k - 1);
      assert s + Zeros(k) == (s + Zeros(k - 1)) + "0";
      assert Init((s + Zeros(k - 1)) + "0") == s + Zeros(k - 1);
    }
  }

  lemma {:induction false} DecimalOfScaled(n: nat, k: nat)
    requires n > 0
    ensures Scaled(n, k) > 0 && Decimal(Scaled(n, k)) == Decimal(n) + Zeros(k)
  {
    if k == 0 {
      assert Decimal(n) + Zeros(0) == Decimal(n);
    } else {
      DecimalOfScaled(n, k - 1);
      var m := Scaled(n, k - 1);
      assert (10 * m) / 10 == m && (10 * m) % 10 == 0;
      assert Decimal(10 * m) == Decimal(m) + "0";
      ConcatAssociative(Decimal(n), Zeros(k - 1), "0");
    }
  }

  lemma {:induction false} FractionOfZeros(s: string)
    requires AllDigits(s)
    ensures Fraction(s) == 0.0 <==> s == Zeros(|s|)
  {
    if s != "" {
      FractionBounds(s[1..]);
      FractionOfZeros(s[1..]);
      ZeroFirst(|s| - 1);
      assert s == [s[0]] + s[1..];
      if s == Zeros(|s|) {
        assert s[1..] == Zeros(|s| - 1);
      }
    }
  }

  lemma {:induction false} ZeroFirst(k: nat)
    ensures Zeros(k + 1) == "0" + Zeros(k) && |Zeros(k)| == k
  {
    if k > 0 {
      ZeroFirst(k - 1);
      ConcatAssociative("0", Zeros(k - 1), "0");
    }
  }

  /** Two digit strings are the same fraction only if they differ in trailing zeros alone. */
  lemma {:induction false} SameFraction(s: string, u: string)
    requires AllDigits(s) && AllDigits(u) && Fraction(s) == Fraction(u) && |s| <= |u|
    ensures u == s + Zeros(|u| - |s|)
  {
    if s == "" {
      FractionOfZeros(u);
    } else {
      FractionBounds(s[1..]);
      FractionBounds(u[1..]);
      assert DigitValue(s[0]) == DigitValue(u[0]);
      SameFraction(s[1..], u[1..]);
      assert s == [s[0]] + s[1..] && u == [u[0]] + u[1..];
      ConcatAssociative([s[0]], s[1..], Zeros(|u| - |s|));
    }
  }

  lemma {:induction false} FractionWithZeros(s: string, k: nat)
    requires AllDigits(s)
    ensures AllDigits(s + Zeros(k)) && Fraction(s + Zeros(k)) == Fraction(s)
  {
    ValueWithZeros(s, k);
    if s == "" {
      assert "" + Zeros(k) == Zeros(k);
      ZeroFirst(k);
      FractionOfZeros(Zeros(k));
    } else {
      FractionWithZeros(s[1..], k);
      assert (s + Zeros(k))[1..] == s[1..] + Zeros(k);
    }
  }

  /** Two positive numbers printed behind the point give the same fraction iff one is the other times a power of ten. */
  lemma SameFractionIff(p: nat, q: nat)
    requires p > 0 && q > 0
    ensures AllDigits(Decimal(p)) && AllDigits(Decimal(q))
    ensures Fraction(Decimal(p)) == Fraction(Decimal(q)) <==> exists k: nat :: p == Scaled(q, k) || q == Scaled(p, k)
  {
    ValueOfDecimal(p);
    ValueOfDecimal(q);
    if Fraction(Decimal(p)) == Fraction(Decimal(q)) {
      if |Decimal(p)| <= |Decimal(q)| {
        SameFractionScales(p, q);
      } else {
        SameFractionScales(q, p);
      }
    }
    if k: nat :| p == Scaled(q, k) || q == Scaled(p, k) {
      if p == Scaled(q, k) {
        DecimalOfScaled(q, k);
        FractionWithZeros(Decimal(q), k);
      } else {
        DecimalOfScaled(p, k);
        FractionWithZeros(Decimal(p), k);
      }
    }
  }

  lemma SameFractionScales(p: nat, q: nat)
    requires AllDigits(Decimal(p)) && AllDigits(Decimal(q)) && |Decimal(p)| <= |Decimal(q)|
    requires Fraction(Decimal(p)) == Fraction(Decimal(q))
    ensures q == Scaled(p, |Decimal(q)| - |Decimal(p)|)
  {
    SameFraction(Decimal(p), Decimal(q));
    ValueWithZeros(Decimal(p), |Decimal(q)| - |Decimal(p)|);
    ValueOfDecimal(p);
    ValueOfDecimal(q);
  }
}
