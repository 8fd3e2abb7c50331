/**
 Factorials, binomial coefficients and Stirling numbers of the second kind (lib/math): loops and quotients, against
 the recurrences that define the numbers.
 */
module Stirling {
  function Fact(n: nat): (f: nat)
    ensures f >= 1
  {
    if n == 0 then 1 else n * Fact(n - 1)
  }

  /** The number of k-element subsets of n elements, by Pascal's rule. */
  function Choose(n: nat, k: nat): nat {
    if k == 0 then 1 else if n == 0 then 0 else Choose(n - 1, k) + Choose(n - 1, k - 1)
  }

  /** The number of partitions of n elements into k non-empty blocks. */
  function S2(n: nat, k: nat): nat {
    if n == 0 then (if k == 0 then 1 else 0)
    else if k == 0 then 0
    else k * S2(n - 1, k) + S2(n - 1, k - 1)
  }

  function Pow(b: nat, e: nat): nat {
    if e == 0 then 1 else b * Pow(b, e - 1)
  }

  function Sign(i: nat): int {
    if i % 2 == 0 then 1 else -1
  }

  // ---------------------------------------------------------------- the methods

  /** Factorial: of a negative number, the negated factorial of its absolute value. */
  method Factorial(n: int) returns (f: int)
    ensures n >= 0 ==> f == Fact(n)
    ensures n < 0 ==> f == 0 - Fact(-n)
  {
    var m := n;
    if m >= 0 {
      f := 1;
    } else {
      f := -1;
      m := m * -1;
    }
    ghost var sign, total := f, m;
    while m > 0
      invariant 0 <= m <= total
      invariant f * Fact(m) == sign * Fact(total)
    {
      FactStep(f, m);
      f := f * m;
      m := m - 1;
    }
  }

  lemma FactStep(f: int, m: nat)
    requires m > 0
    ensures f * Fact(m) == f * m * Fact(m - 1)
  {
  }

  /** Factorial of any number. */
  function SignedFact(n: int): (f: int)
    ensures f != 0 && (f > 0 <==> n >= 0)
  {
    if n >= 0 then Fact(n) else 0 - Fact(-n)
  }

  /** Division that rounds towards zero. */
  function Quotient(a: int, b: int): int
    requires b != 0
  {
    var x, y := if a < 0 then -a else a, if b < 0 then -b else b;
    if (a < 0) == (b < 0) then x / y else -(x / y)
  }

  /** BinomialCoefficient: the quotient of factorials, which is exact when k is not negative. */
  method BinomialCoefficient(n: int, k: int) returns (b: int)
    ensures 0 <= k && 0 <= n ==> b == Choose(n, k)
    ensures b == if k > n then 0 else Quotient(SignedFact(n), SignedFact(n - k) * SignedFact(k))
  {
    if k > n {
      if n >= 0 {
        ChooseZero(n, k);
      }
      return 0;
    }
    var f := Factorial(n);
    var g := Factorial(n - k);
    var h := Factorial(k);
    NotZero(g, h);
    if k >= 0 {
      ChooseFactorials(n, k);
      Exact(f, Choose(n, k), g * h);
    }
    b := Quotient(f, g * h);
  }

  lemma NotZero(a: int, b: int)
    requires a != 0 && b != 0
    ensures a * b != 0 && (a * b > 0 <==> (a > 0 <==> b > 0))
  {
    if a > 0 && b > 0 {
      assert a * b > 0;
    } else if a < 0 && b < 0 {
      assert -a * -b > 0;
    } else if a > 0 {
      assert a * -b > 0;
    } else {
      assert -a * b > 0;
    }
  }

  /** A product of d divides by d without rest. */
  lemma Exact(p: int, q: int, d: int)
    requires d > 0 && p == q * d
    ensures p / d == q
  {
    var r := p / d;
    assert p == r * d + p % d && 0 <= p % d < d;
    assert (q - r) * d == p % d;
    Between(q - r, d);
  }

  lemma Between(m: int, d: int)
    requires d > 0 && 0 <= m * d < d
    ensures m == 0
  {
    assert m >= 1 ==> m * d >= d;
    assert m <= -1 ==> m * d <= -d;
  }

  lemma {:induction false} ChooseZero(n: nat, k: nat)
    requires k > n
    ensures Choose(n, k) == 0
  {
    if n > 0 {
      ChooseZero(n - 1, k);
      ChooseZero(n - 1, k - 1);
    }
  }

  lemma {:induction false} ChooseAll(n: nat)
    ensures Choose(n, n) == 1
  {
    if n > 0 {
      ChooseAll(n - 1);
      ChooseZero(n - 1, n);
    }
  }

  /** n! == C(n, k) (n - k)! k! */
  lemma {:induction false} ChooseFactorials(n: nat, k: nat)
    requires k <= n
    ensures Fact(n) == Choose(n, k) * (Fact(n - k) * Fact(k))
    ensures Fact(n - k) * Fact(k) > 0
  {
    var a, b := Fact(n - k), Fact(k);
    assert a * b > 0;
    if k == 0 {
    } else if k == n {
      ChooseAll(n);
    } else {
      ChooseFactorials(n - 1, k);
      ChooseFactorials(n - 1, k - 1);
      PascalFactorials(n, k, Choose(n - 1, k), Choose(n - 1, k - 1), Fact(n - 1), Fact(n - 1 - k), Fact(k - 1));
    }
  }

  lemma PascalFactorials(n: nat, k: nat, c: nat, d: nat, f: nat, g: nat, h: nat)
    requires 0 < k < n
    requires f == c * (g * (k * h)) && f == d * ((n - k) * g * h)
    ensures n * f == (c + d) * ((n - k) * g * (k * h))
  {
    var m := n - k;
    assert (c + d) * (m * g * (k * h)) == c * (m * g * (k * h)) + d * (m * g * (k * h));
    assert c * (m * g * (k * h)) == m * (c * (g * (k * h)));
    assert d * (m * g * (k * h)) == k * (d * (m * g * h));
    assert m * f + k * f == n * f;
  }

  /** One term of the inclusion-exclusion sum. */
  function Term(n: nat, k: nat, i: nat): int
    requires i <= k
  {
    Sign(i) * Choose(k, i) * Pow(k - i, n)
  }

  /** The terms from i on. */
  function SumFrom(n: nat, k: nat, i: nat): int
    requires i <= k + 1
    decreases k + 1 - i
  {
    if i > k then 0 else Term(n, k, i) + SumFrom(n, k, i + 1)
  }

  /** (-1)^i and powers are exact integers here; the source computes them in floating point. */
  method StirlingS2(n: int, k: int) returns (s: int)
    requires n >= 0 || k < 0 || k == 1 || n == k
    ensures n >= 0 && k >= 0 ==> s == if n == 0 && k == 1 then 1 else S2(n, k)
    ensures n >= 0 && k >= 0 ==> (s == S2(n, k) <==> !(n == 0 && k == 1))
    ensures n < 0 || k < 0 ==> s == if k == 1 || n == k then 1 else 0
  {
    if k == 1 || n == k {
      if n >= 0 {
        OneBlock(n);
        AllAlone(n);
      }
      return 1;
    }
    var sum, i := 0, 0;
    while i <= k
      invariant k < 0 ==> i == 0 && sum == 0
      invariant k >= 0 ==> i <= k + 1 && sum + SumFrom(n, k, i) == SumFrom(n, k, 0)
    {
      var b := BinomialCoefficient(k, i);
      sum := sum + Sign(i) * b * Pow(k - i, n);
      i := i + 1;
    }
    var f := Factorial(k);
    if k >= 0 {
      InclusionExclusion(n, k);
      Exact(sum, S2(n, k), f);
    }
    s := Quotient(sum, f);
  }

  lemma {:induction false} OneBlock(n: nat)
    ensures n >= 1 ==> S2(n, 1) == 1
  {
    if n >= 2 {
      OneBlock(n - 1);
    }
  }

  lemma {:induction false} TooFew(n: nat, k: nat)
    requires k > n
    ensures S2(n, k) == 0
  {
    if n > 0 {
      TooFew(n - 1, k);
      TooFew(n - 1, k - 1);
    }
  }

  lemma {:induction false} AllAlone(n: nat)
    ensures S2(n, n) == 1
  {
    if n > 0 {
      AllAlone(n - 1);
      TooFew(n - 1, n);
    }
  }

  /** The closed formula: the sum is k! times the Stirling number, so the division is exact. */
  lemma {:induction false} InclusionExclusion(n: nat, k: nat)
    ensures SumFrom(n, k, 0) == S2(n, k) * Fact(k)
    decreases n, k
  {
    if n == 0 {
      Alternating(k, 0);
    } else if k == 0 {
      assert Pow(0, n) == 0;
      assert SumFrom(n, 0, 1) == 0;
    } else {
      InclusionExclusion(n - 1, k);
      InclusionExclusion(n - 1, k - 1);
      SumRecurrence(n, k, 0);
      StirlingStep(k, S2(n - 1, k), S2(n - 1, k - 1), Fact(k - 1));
    }
  }

  lemma StirlingStep(k: nat, a: nat, b: nat, f: nat)
    ensures k * (a * (k * f)) + k * (b * f) == (k * a + b) * (k * f)
  {
  }

  /** With no elements only the last term survives the alternating sum of binomials. */
  lemma {:induction false} Alternating(k: nat, i: nat)
    requires i <= k
    ensures SumFrom(0, k, i) == if i == 0 then (if k == 0 then 1 else 0) else Sign(i) * Choose(k - 1, i - 1)
    decreases k - i
  {
    assert Term(0, k, i) == Sign(i) * Choose(k, i);
    if i < k {
      Alternating(k, i + 1);
      assert Sign(i + 1) == -Sign(i);
      if i > 0 {
        assert Choose(k, i) == Choose(k - 1, i) + Choose(k - 1, i - 1);
        Distribute(Sign(i), Choose(k - 1, i), Choose(k - 1, i - 1));
      }
    } else {
      assert SumFrom(0, k, k + 1) == 0;
      if k > 0 {
        ChooseZero(k - 1, k);
      }
    }
  }

  lemma Distribute(s: int, a: int, b: int)
    ensures s * (a + b) + -s * a == s * b
  {
  }

  /** (k - i) C(k, i) == k C(k - 1, i) */
  lemma Absorb(k: nat, i: nat)
    requires 0 < k && i <= k
    ensures (k - i) * Choose(k, i) == k * Choose(k - 1, i)
  {
    hide Choose;
    if i == k {
      ChooseZero(k - 1, k);
    } else {
      ChooseFactorials(k, i);
      ChooseFactorials(k - 1, i);
      Cancel(k, k - i, Choose(k, i), Choose(k - 1, i), Fact(k - 1), Fact(k - 1 - i), Fact(i));
    }
  }

  lemma Cancel(k: nat, m: nat, c: nat, d: nat, f: nat, g: nat, h: nat)
    requires k * f == c * (m * g * h) && f == d * (g * h) && g * h > 0
    ensures m * c == k * d
  {
    Regroup(c, m, g, h);
    assert k * (d * (g * h)) == (k * d) * (g * h);
    assert (m * c) * (g * h) == (k * d) * (g * h);
    assert (m * c - k * d) * (g * h) == 0;
    Between(m * c - k * d, g * h);
  }

  lemma Regroup(c: nat, m: nat, g: nat, h: nat)
    ensures c * (m * g * h) == (m * c) * (g * h)
  {
  }

  /** The tails of the sums follow the recurrence of the numbers, but for one term at the seam. */
  lemma {:induction false} SumRecurrence(n: nat, k: nat, i: nat)
    requires n > 0 && k > 0 && i <= k + 1
    ensures SumFrom(n, k, i)
         == k * SumFrom(n - 1, k, i) + k * (if i == 0 then SumFrom(n - 1, k - 1, 0) else SumFrom(n - 1, k - 1, i - 1))
    decreases k + 1 - i
  {
    if i <= k {
      SumRecurrence(n, k, i + 1);
      TermRecurrence(n, k, i);
      if i > 0 {
        ThreeSums(k, Term(n - 1, k, i), SumFrom(n - 1, k, i + 1), Term(n - 1, k - 1, i - 1), SumFrom(n - 1, k - 1, i));
      } else {
        ThreeSums(k, Term(n - 1, k, 0), SumFrom(n - 1, k, 1), 0, SumFrom(n - 1, k - 1, 0));
      }
    }
  }

  lemma ThreeSums(k: nat, a: int, b: int, c: int, d: int)
    ensures k * (a + c) + (k * b + k * d) == k * (a + b) + k * (c + d)
  {
  }

  lemma TermRecurrence(n: nat, k: nat, i: nat)
    requires n > 0 && k > 0 && i <= k
    ensures Term(n, k, i) == k * (Term(n - 1, k, i) + if i == 0 then 0 else Term(n - 1, k - 1, i - 1))
  {
    hide Term, Choose, Pow, Sign;
    TermFalls(n, k, i);
    TermRises(n, k, i);
  }

  /** A term for n elements, by those for one element less. */
  lemma TermFalls(n: nat, k: nat, i: nat)
    requires n > 0 && k > 0 && i <= k
    ensures Term(n, k, i) == k * (Sign(i) * Choose(k - 1, i) * Pow(k - i, n - 1))
  {
    hide Choose, Sign;
    Absorb(k, i);
    PowStep(k - i, n);
    TermProduct(Sign(i), Choose(k, i), k - i, Pow(k - i, n - 1), k, Choose(k - 1, i));
  }

  lemma PowStep(b: nat, e: nat)
    requires e > 0
    ensures Pow(b, e) == b * Pow(b, e - 1)
  {
  }

  /** Two neighbouring terms, by Pascal's rule. */
  lemma TermRises(n: nat, k: nat, i: nat)
    requires n > 0 && k > 0 && i <= k
    ensures Term(n - 1, k, i) + (if i == 0 then 0 else Term(n - 1, k - 1, i - 1))
         == Sign(i) * Choose(k - 1, i) * Pow(k - i, n - 1)
  {
    hide Pow;
    if i > 0 {
      assert Choose(k, i) == Choose(k - 1, i) + Choose(k - 1, i - 1);
      assert Sign(i - 1) == -Sign(i) && k - 1 - (i - 1) == k - i;
      TermSplit(Sign(i), Choose(k - 1, i), Choose(k - 1, i - 1), Pow(k - i, n - 1));
    }
  }

  lemma TermProduct(s: int, c: nat, m: nat, p: nat, k: nat, d: nat)
    requires m * c == k * d
    ensures s * c * (m * p) == k * (s * d * p)
  {
    assert s * c * (m * p) == s * p * (m * c);
    assert k * (s * d * p) == s * p * (k * d);
  }

  lemma TermSplit(s: int, a: nat, b: nat, p: nat)
    ensures s * (a + b) * p + -s * b * p == s * a * p
  {
    assert s * (a + b) == s * a + s * b;
    assert (s * a + s * b) * p == s * a * p + s * b * p;
    assert -s * b * p == -(s * b * p);
  }
}
