// The binomial coefficient as a product of fractions, in exact arithmetic.
module InetMath {

  // Pascal's triangle.
  function Binomial(n: nat, k: nat): nat {
    if k == 0 then 1
    else if n == 0 then 0
    else Binomial(n - 1, k - 1) + Binomial(n - 1, k)
  }

  lemma {:induction false} BeyondIsZero(n: nat, k: nat)
    requires k > n
    ensures Binomial(n, k) == 0
  {
    if n > 0 {
      BeyondIsZero(n - 1, k - 1);
      BeyondIsZero(n - 1, k);
    }
  }

  lemma {:induction false} Symmetric(n: nat, k: nat)
    requires k <= n
    ensures Binomial(n, k) == Binomial(n, n - k)
  {
    if k == 0 || k == n {
      LastIsOne(n);
    } else {
      Symmetric(n - 1, k - 1);
      Symmetric(n - 1, k);
    }
  }

  lemma {:induction false} LastIsOne(n: nat)
    ensures Binomial(n, n) == 1
  {
    if n > 0 {
      LastIsOne(n - 1);
      BeyondIsZero(n - 1, n);
    }
  }

  lemma {:induction false} Absorption(n: nat, k: nat)
    requires n > 0 && k > 0
    ensures k * Binomial(n, k) == n * Binomial(n - 1, k - 1)
  {
    if n == 1 {
      if k > 1 {
        BeyondIsZero(0, k - 1);
        BeyondIsZero(0, k);
      }
    } else if k == 1 {
      Absorption(n - 1, 1);
    } else {
      Absorption(n - 1, k - 1);
      Absorption(n - 1, k);
      AddedUp(n, k, Binomial(n - 2, k - 2), Binomial(n - 2, k - 1), Binomial(n - 1, k));
    }
  }

  lemma AddedUp(n: int, k: int, a: int, b: int, e: int)
    requires (k - 1) * (a + b) == (n - 1) * a && k * e == (n - 1) * b
    ensures k * (a + b + e) == n * (a + b)
  {
    assert k * (a + b) == (k - 1) * (a + b) + (a + b);
    assert k * (a + b + e) == k * (a + b) + k * e;
    assert (n - 1) * a + (n - 1) * b == n * (a + b) - (a + b);
  }

  // The division of a step leaves no fraction.
  lemma StepIsExact(m: nat, i: nat)
    requires i > 0
    ensures Binomial(m + i - 1, i - 1) as real * (m + i) as real / i as real == Binomial(m + i, i) as real
  {
    Absorption(m + i, i);
    hide Binomial;
    Fraction(Binomial(m + i - 1, i - 1), m + i, Binomial(m + i, i), i);
  }

  lemma Fraction(x: nat, n: nat, y: nat, i: nat)
    requires i > 0 && i * y == n * x
    ensures x as real * n as real / i as real == y as real
  {
    assert (x * n) as real == (y * i) as real;
    Products(x, n);
    Products(y, i);
    RealQuotient(x as real * n as real, i as real, y as real);
  }

  lemma Products(x: nat, y: nat)
    ensures (x * y) as real == x as real * y as real
  {
  }

  lemma RealQuotient(a: real, b: real, q: real)
    requires b > 0.0 && a == q * b
    ensures a / b == q
  {
  }

  // For a negative k the result is not the coefficient but 1, unless n is smaller still.
  method NChooseK(n: int, k: int) returns (r: real)
    ensures n < k ==> r == 0.0
    ensures 0 <= k <= n ==> r == Binomial(n, k) as real
    ensures k < 0 && k <= n ==> r == 1.0
  {
    if n < k {
      return 0.0;
    }
    var iK := if k * 2 > n then n - k else k;
    var dNSubK := (n - iK) as real;
    var i := 1;
    r := if i > iK then 1.0 else dNSubK + i as real;
    i := i + 1;
    if k >= 0 {
      Symmetric(n, k);
      Started(n - iK, iK, r);
    }
    hide *;
    while i <= iK
      invariant i >= 2
      invariant k < 0 ==> iK < 0 && r == 1.0
      invariant k >= 0 ==> 0 <= iK <= n && Reached(r, n - iK, iK, i)
    {
      Step(r, n - iK, iK, i, dNSubK + i as real);
      r := Scaled(r, dNSubK + i as real, i);
      i := i + 1;
    }
    if k >= 0 {
      Finished(r, n - iK, iK, i);
    }
  }

  // One multiplication and one division.
  function Scaled(r: real, factor: real, i: int): real
    requires i > 0
  {
    r * factor / i as real
  }

  // Before step i the accumulator is the coefficient of i - 1.
  predicate Reached(r: real, m: nat, iK: nat, i: nat)
    requires i >= 2
  {
    if i <= iK + 1 then r == Binomial(m + i - 1, i - 1) as real else r == Binomial(m + iK, iK) as real
  }

  lemma Started(m: nat, iK: nat, r: real)
    requires r == if iK < 1 then 1.0 else m as real + 1.0
    ensures Reached(r, m, iK, 2)
  {
    Absorption(m + 1, 1);
  }

  lemma Step(r: real, m: nat, iK: nat, i: nat, factor: real)
    requires 2 <= i <= iK && Reached(r, m, iK, i) && factor == m as real + i as real
    ensures Reached(Scaled(r, factor, i), m, iK, i + 1)
  {
    StepIsExact(m, i);
    assert factor == (m + i) as real;
  }

  lemma Finished(r: real, m: nat, iK: nat, i: nat)
    requires i >= 2 && i > iK && Reached(r, m, iK, i)
    ensures r == Binomial(m + iK, iK) as real
  {
  }
}
