// Machine words as mathematical integers: powers of two, wrap-around, and the
// bitwise operators on non-negative numbers.
module Words {
  import opened Powers

  const WORD: int := 0x1_0000_0000_0000_0000
  const HALF: int := 0x8000_0000_0000_0000

  type uint64 = x: int | 0 <= x < WORD
  type int64 = x: int | -HALF <= x < HALF

  // Conversion to uint64_t and to int64_t.
  function U64(x: int): (r: uint64) {
    x % WORD
  }

  function S64(x: int): (r: int64) {
    (x + HALF) % WORD - HALF
  }

  // x << n and x >> n, the latter extending the sign.
  function Shl(x: int, n: nat): (r: int)
    ensures x >= 0 ==> r >= 0
  {
    x * Pow2(n)
  }

  function Shr(x: int, n: nat): (r: int)
    ensures x >= 0 ==> 0 <= r <= x
    ensures x < 0 ==> x <= r < 0
  {
    QuotientRange(x, Pow2(n));
    x / Pow2(n)
  }

  function Bit(x: int, n: nat): (b: int)
    ensures b == 0 || b == 1
  {
    x / Pow2(n) % 2
  }

  function And(x: nat, y: nat): (r: nat)
    decreases x
  {
    if x == 0 then 0 else 2 * And(x / 2, y / 2) + x % 2 * (y % 2)
  }

  function Or(x: nat, y: nat): (r: nat)
    decreases x + y
  {
    if x == 0 then y
    else if y == 0 then x
    else 2 * Or(x / 2, y / 2) + (if x % 2 == 1 || y % 2 == 1 then 1 else 0)
  }

  // ----- Division by a positive number -----

  lemma DivUnique(a: int, m: int, q: int, r: int)
    requires m > 0 && a == q * m + r && 0 <= r < m
    ensures a / m == q && a % m == r
  {
    var d := a / m - q;
    assert d * m == r - a % m by {
      assert a == a / m * m + a % m;
      assert d * m == a / m * m - q * m;
    }
    Magnitude(d, m);
  }

  lemma Magnitude(d: int, m: int)
    requires m > 0
    ensures d >= 1 ==> d * m >= m
    ensures d <= -1 ==> d * m <= -m
  {
    if d >= 1 {
      assert (d - 1) * m >= 0;
    } else if d <= -1 {
      assert (-d - 1) * m >= 0;
    }
  }

  lemma TwiceProduct(a: int, p: int)
    ensures a * (2 * p) == 2 * (a * p)
  {
  }

  lemma MulGe(a: int, b: int, m: nat)
    requires a >= b
    ensures a * m >= b * m
  {
    assert (a - b) * m >= 0;
  }

  lemma QuotientRange(x: int, p: int)
    requires p > 0
    ensures x >= 0 ==> 0 <= x / p <= x
    ensures x < 0 ==> x <= x / p < 0
  {
    var q, r := x / p, x % p;
    Quotient(x, p);
    QuotientBound(x, p, q, r);
  }

  lemma Quotient(x: int, p: int)
    requires p > 0
    ensures x == x / p * p + x % p && 0 <= x % p < p
  {
  }

  lemma QuotientBound(x: int, p: int, q: int, r: int)
    requires p > 0 && x == q * p + r && 0 <= r < p
    ensures x >= 0 ==> 0 <= q <= x
    ensures x < 0 ==> x <= q < 0
  {
    if q >= 0 {
      MulGe(p, 1, q);
    } else {
      MulGe(p, 1, -1 - q);
      assert (-1 - q) * p == -p - q * p;
    }
  }

  lemma QuotientSmaller(n: nat, d: nat)
    requires n > 0 && d >= 2
    ensures 0 <= n / d < n
  {
    QuotientRange(n, d);
    Quotient(n, d);
    MulGe(d, 2, n / d);
  }

  // Dividing twice is dividing by the product.
  lemma DivDiv(a: int, m: int, n: int)
    requires m > 0 && n > 0
    ensures m * n > 0 && a / m / n == a / (m * n)
  {
    var q, r := a / m, a % m;
    var s, t := q / n, q % n;
    assert a == q * m + r;
    assert q == s * n + t;
    assert q * m == s * (m * n) + t * m by {
      assert (s * n + t) * m == s * n * m + t * m;
      assert s * n * m == s * (m * n);
    }
    assert a == s * (m * n) + (t * m + r);
    assert t * m <= (n - 1) * m by { MulGe(n - 1, t, m); }
    assert (n - 1) * m == m * n - m;
    assert m * n > 0;
    DivUnique(a, m * n, s, t * m + r);
  }

  lemma DivMul(a: int, m: int)
    requires m > 0
    ensures a * m / m == a && a * m % m == 0
  {
    DivUnique(a * m, m, a, 0);
  }

  lemma PowWord(n: nat)
    requires n <= 64
    ensures Pow2(n) * Pow2(64 - n) == WORD
    ensures Pow2(n) <= WORD
  {
    PowAdd(n, 64 - n);
    PowMono(n, 64);
    Pow64();
  }

  lemma Pow64()
    ensures Pow2(63) == HALF && Pow2(64) == WORD
  {
    assert Pow2(16) == 0x1_0000;
    PowAdd(16, 16);
    PowAdd(32, 31);
    assert Pow2(15) == 0x8000;
    PowAdd(16, 15);
  }

  // The remainder by an even number, from the remainder of the half.
  lemma HalfMod(x: int, p: int)
    requires p > 0
    ensures x % (2 * p) == 2 * (x / 2 % p) + x % 2
  {
    var q, r := x / 2 / p, x / 2 % p;
    assert x / 2 == q * p + r;
    assert q * (2 * p) == 2 * (q * p);
    DivUnique(x, 2 * p, q, 2 * r + x % 2);
  }

  lemma HalfOf(x: int, n: nat)
    requires n > 0
    ensures x / Pow2(n) == x / 2 / Pow2(n - 1)
  {
    DivDiv(x, 2, Pow2(n - 1));
  }

  // ----- Bitwise operators with masks, single bits and disjoint operands -----

  lemma {:induction false} AndPow(x: nat, n: nat)
    ensures And(x, Pow2(n)) == Bit(x, n) * Pow2(n)
    decreases n
  {
    if n == 0 {
      AndZero(x / 2);
      AndOdd(x, 0);
      assert Pow2(0) == 1 && x / 1 == x;
    } else {
      assert Pow2(n) == 2 * Pow2(n - 1);
      hide And, Bit, Pow2;
      AndPow(x / 2, n - 1);
      AndEven(x, Pow2(n - 1));
      BitOfHalf(x, n);
      TwiceProduct(Bit(x, n), Pow2(n - 1));
    }
  }

  lemma {:induction false} AndZero(x: nat)
    ensures And(x, 0) == 0
  {
    if x > 0 {
      AndZero(x / 2);
    }
  }

  lemma {:induction false} AndLow(x: nat, n: nat)
    ensures And(x, Pow2(n) - 1) == x % Pow2(n)
    decreases n
  {
    if n == 0 {
      AndZero(x);
    } else if x == 0 {
      DivUnique(0, Pow2(n), 0, 0);
    } else {
      AndLow(x / 2, n - 1);
      var p := Pow2(n - 1);
      assert (2 * p - 1) / 2 == p - 1 && (2 * p - 1) % 2 == 1;
      HalfMod(x, p);
    }
  }

  // A mask with every bit set keeps the number.
  lemma {:induction false} AndAll(x: nat, w: nat)
    requires x < Pow2(w)
    ensures And(x, Pow2(w) - 1) == x
  {
    AndLow(x, w);
    DivUnique(x, Pow2(w), 0, x);
  }

  // The mask with bits n to w - 1 set clears the low n bits.
  lemma {:induction false} AndHigh(x: nat, n: nat, w: nat)
    requires n <= w && x < Pow2(w)
    ensures Pow2(n) <= Pow2(w)
    ensures And(x, Pow2(w) - Pow2(n)) == x - x % Pow2(n)
    decreases n
  {
    PowMono(n, w);
    if n == 0 {
      AndAll(x, w);
    } else if x == 0 {
      DivUnique(0, Pow2(n), 0, 0);
    } else {
      var p, m := Pow2(n - 1), Pow2(w - 1);
      assert x / 2 < m;
      AndHigh(x / 2, n - 1, w - 1);
      AndEven(x, m - p);
      assert Pow2(w) - Pow2(n) == 2 * (m - p);
      HalfMod(x, p);
    }
  }

  lemma AndOdd(x: nat, y: nat)
    ensures And(x, 2 * y + 1) == 2 * And(x / 2, y) + x % 2
  {
    assert (2 * y + 1) / 2 == y && (2 * y + 1) % 2 == 1;
  }

  lemma AndEven(x: nat, y: nat)
    ensures And(x, 2 * y) == 2 * And(x / 2, y)
  {
    assert (2 * y) / 2 == y && (2 * y) % 2 == 0;
  }

  // The complement of a single bit clears that bit.
  lemma {:induction false} AndNotPow(x: nat, n: nat, w: nat)
    requires n < w && x < Pow2(w)
    ensures Pow2(n) < Pow2(w)
    ensures And(x, Pow2(w) - 1 - Pow2(n)) == x - Bit(x, n) * Pow2(n)
    decreases n
  {
    PowMono(n, w - 1);
    var m := Pow2(w - 1);
    assert x / 2 < m && Pow2(w) == 2 * m;
    if n == 0 {
      hide And;
      AndEven(x, m - 1);
      AndAll(x / 2, w - 1);
      assert Pow2(0) == 1 && x / 1 == x;
    } else {
      var p := Pow2(n - 1);
      assert Pow2(n) == 2 * p;
      hide And, Bit, Pow2;
      AndNotPow(x / 2, n - 1, w - 1);
      AndOdd(x, m - 1 - p);
      BitOfHalf(x, n);
      TwiceProduct(Bit(x, n), p);
    }
  }

  lemma BitOfHalf(x: int, n: nat)
    requires n > 0
    ensures Bit(x, n) == Bit(x / 2, n - 1)
  {
    HalfOf(x, n);
  }

  lemma {:induction false} OrPow(x: nat, n: nat)
    ensures Or(x, Pow2(n)) == x + (1 - Bit(x, n)) * Pow2(n)
    decreases n
  {
    if x == 0 {
      DivUnique(0, Pow2(n), 0, 0);
    } else if n == 0 {
      assert Pow2(0) == 1;
      assert Or(x / 2, 0) == x / 2;
    } else {
      OrPow(x / 2, n - 1);
      HalfOf(x, n);
      assert Pow2(n) / 2 == Pow2(n - 1) && Pow2(n) % 2 == 0;
      TwiceProduct(1 - Bit(x, n), Pow2(n - 1));
    }
  }

  // Operands that share no bit are added.
  lemma {:induction false} OrDisjoint(x: nat, y: nat, n: nat)
    requires x % Pow2(n) == 0 && y < Pow2(n)
    ensures Or(x, y) == x + y
    decreases n
  {
    if x > 0 && y > 0 {
      if n == 0 {
        assert false;
      } else {
        var p := Pow2(n - 1);
        var q := x / (2 * p);
        assert x == q * (2 * p);
        assert q * (2 * p) == 2 * (q * p);
        DivMul(q, p);
        assert x / 2 == q * p;
        OrDisjoint(x / 2, y / 2, n - 1);
      }
    }
  }

  lemma {:induction false} OrCommutes(x: nat, y: nat)
    ensures Or(x, y) == Or(y, x)
    decreases x + y
  {
    if x > 0 && y > 0 {
      OrCommutes(x / 2, y / 2);
    }
  }

  lemma {:induction false} OrBound(x: nat, y: nat, w: nat)
    requires x < Pow2(w) && y < Pow2(w)
    ensures Or(x, y) < Pow2(w)
    decreases w
  {
    if w > 0 {
      OrBound(x / 2, y / 2, w - 1);
    }
  }

  // ----- Changing one bit -----

  lemma BitAt(x: int, e: int, n: nat)
    requires 0 <= Bit(x, n) + e <= 1
    ensures Bit(x + e * Pow2(n), n) == Bit(x, n) + e
    ensures (x + e * Pow2(n)) / Pow2(n) / 2 == x / Pow2(n) / 2
  {
    var p := Pow2(n);
    Quotient(x, p);
    assert (x / p + e) * p == x / p * p + e * p;
    DivUnique(x + e * p, p, x / p + e, x % p);
  }

  // Adding a multiple of a higher power of two keeps a bit.
  lemma BitKept(x: int, j: int, m: nat, k: nat)
    requires k < m
    ensures Bit(x + j * Pow2(m), k) == Bit(x, k)
  {
    PowAdd(k, m - k - 1);
    assert Pow2(m) == 2 * Pow2(m - 1);
    EvenMultiple(x, j, Pow2(k), Pow2(m - k - 1));
  }

  lemma EvenMultiple(x: int, j: int, p: int, q: int)
    requires p > 0
    ensures (x + j * (2 * (p * q))) / p % 2 == x / p % 2
  {
    MultipleAdded(x, p, 2 * (j * q));
    Rearranged(j, p, q);
  }

  lemma Rearranged(j: int, p: int, q: int)
    ensures j * (2 * (p * q)) == 2 * (j * q) * p
  {
    assert j * (p * q) == j * q * p;
  }

  lemma MultipleAdded(x: int, p: int, k: int)
    requires p > 0
    ensures (x + k * p) / p == x / p + k
  {
    Quotient(x, p);
    assert (x / p + k) * p == x / p * p + k * p;
    DivUnique(x + k * p, p, x / p + k, x % p);
  }

  lemma HigherBit(x: int, y: int, n: nat, k: nat)
    requires n < k && x / Pow2(n) / 2 == y / Pow2(n) / 2
    ensures Bit(x, k) == Bit(y, k)
  {
    DivDiv(x, Pow2(n), 2);
    DivDiv(y, Pow2(n), 2);
    PowAdd(n + 1, k - n - 1);
    DivDiv(x, Pow2(n + 1), Pow2(k - n - 1));
    DivDiv(y, Pow2(n + 1), Pow2(k - n - 1));
  }
}
