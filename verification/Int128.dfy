// A signed 128-bit integer held in two machine words: in-place arithmetic against
// mathematical integers modulo 2^128.
module Int128Arithmetic {
  import opened Powers
  import opened Texts
  import opened Words

  const SIZE: int := 0x1_0000_0000_0000_0000_0000_0000_0000_0000
  const LIMIT: int := 0x8000_0000_0000_0000_0000_0000_0000_0000
  const UINT_SIZE: int := 0x1_0000_0000

  // The 128-bit two's complement number congruent to x.
  function Wrap(x: int): (r: int)
    ensures -LIMIT <= r < LIMIT
    ensures -LIMIT <= x < LIMIT ==> r == x
  {
    (x + LIMIT) % SIZE - LIMIT
  }

  // q and r are quotient and remainder of a by d, rounding toward zero.
  predicate Truncated(a: int, d: int, q: int, r: int) {
    && a == q * d + r
    && -Abs(d) < r < Abs(d)
    && (r != 0 ==> (r < 0 <==> a < 0))
  }

  function Abs(x: int): (r: int)
    ensures r >= 0
  {
    if x < 0 then -x else x
  }

  lemma TruncatedUnique(a: int, d: int, q: int, r: int, q': int, r': int)
    requires d != 0 && Truncated(a, d, q, r) && Truncated(a, d, q', r')
    ensures q == q' && r == r'
  {
    assert (q - q') * d == r' - r;
    if d > 0 {
      Magnitude(q - q', d);
    } else {
      assert (q' - q) * -d == r' - r;
      Magnitude(q' - q, -d);
    }
  }

  lemma TruncatedSigns(a: int, d: int, q: int, r: int)
    requires d != 0 && Truncated(Abs(a), Abs(d), q, r)
    ensures Truncated(a, d, if (a < 0) != (d < 0) then -q else q, if a < 0 then -r else r)
  {
    assert -q * d == -(q * d);
    assert q * -d == -(q * d);
  }

  // ----- Wrap is a ring homomorphism -----

  lemma WrapUnique(x: int, y: int, k: int)
    requires x == y + k * SIZE
    ensures Wrap(x) == Wrap(y)
  {
  }

  lemma WrapAdd(x: int, y: int)
    ensures Wrap(Wrap(x) + Wrap(y)) == Wrap(x + y)
  {
  }

  lemma WrapTwice(x: int)
    ensures Wrap(Wrap(x)) == Wrap(x)
  {
  }

  lemma WrapNegate(x: int)
    ensures Wrap(0 - Wrap(x)) == Wrap(-x)
  {
  }

  lemma WrapTimes(x: int, y: int)
    ensures Wrap(Wrap(x) * y) == Wrap(x * y)
  {
    var k := (x + LIMIT) / SIZE;
    assert Wrap(x) == x - k * SIZE;
    assert Wrap(x) * y == x * y - k * SIZE * y;
    assert k * SIZE * y == k * y * SIZE;
    WrapUnique(Wrap(x) * y, x * y, -k * y);
  }

  // ----- Two words and their value -----

  function Join(hi: int, lo: int): int {
    hi * WORD + lo
  }

  lemma SignedLow(x: int)
    ensures exists k :: S64(x) == x + k * WORD
  {
    assert S64(x) == x + -((x + HALF) / WORD) * WORD;
  }

  lemma JoinWraps(x: int, hi: int, lo: uint64)
    requires exists k :: x == Join(hi, lo) + k * SIZE
    ensures Join(S64(hi), lo) == Wrap(x)
  {
    SignedLow(hi);
    var k :| x == Join(hi, lo) + k * SIZE;
    var j :| S64(hi) == hi + j * WORD;
    WrapUnique(x, Join(S64(hi), lo), k - j);
  }

  lemma JoinAdd(hi: int64, lo: uint64, bhi: int64, blo: uint64)
    ensures var low := U64(lo + blo);
            Join(if low < lo then S64(S64(hi + bhi) + 1) else S64(hi + bhi), low)
            == Wrap(Join(hi, lo) + Join(bhi, blo))
  {
    var low := U64(lo + blo);
    var carry := if low < lo then 1 else 0;
    assert lo + blo == low + carry * WORD;
    hide S64, U64, Wrap;
    CarryAdded(hi + bhi, carry);
    assert Join(hi, lo) + Join(bhi, blo) == Join(hi + bhi + carry, low) + 0 * SIZE;
    JoinWraps(Join(hi, lo) + Join(bhi, blo), hi + bhi + carry, low);
  }

  lemma CarryAdded(x: int, carry: int)
    ensures S64(S64(x) + carry) == S64(x + carry)
    ensures S64(S64(x)) == S64(x)
  {
  }

  lemma JoinNegate(hi: int64, lo: uint64)
    ensures Join(if lo == 0 then S64(0 - hi) else -1 - hi, U64(0 - lo)) == Wrap(-Join(hi, lo))
  {
  }

  // ----- Shifts -----

  lemma JoinShiftLeft(hi: int64, lo: uint64, n: nat)
    requires n < 64
    ensures var carried := Shr(And(lo, U64(0 - Pow2(64 - n))), 64 - n);
            Join(S64(Or(U64(S64(Shl(hi, n))), carried)), U64(Shl(lo, n))) == Wrap(Join(hi, lo) * Pow2(n))
  {
    hide U64, S64, And, Or, Pow2, Join, Wrap;
    var p, q := Pow2(n), Pow2(64 - n);
    PowWord(n);
    CarriedBits(lo, n);
    LowShifted(lo, p, q);
    HighMultiple(hi, p, q);
    OrDisjoint(U64(hi * p), lo / q, n);
    ShiftedSum(hi, lo, p, q);
  }

  // The bits that leave the low word are its quotient by 2^(64 - n).
  lemma CarriedBits(lo: uint64, n: nat)
    requires n < 64
    ensures Shr(And(lo, U64(0 - Pow2(64 - n))), 64 - n) == lo / Pow2(64 - n)
  {
    hide And, Pow2, U64;
    var q: int := Pow2(64 - n);
    Pow64();
    PowMono(64 - n, 64);
    AndHigh(lo, 64 - n, 64);
    U64Negative(q);
    Quotient(lo, q);
    DivMul(lo / q, q);
  }

  lemma U64Negative(q: int)
    requires 0 < q <= WORD
    ensures U64(0 - q) == WORD - q
  {
  }

  lemma LowShifted(lo: uint64, p: nat, q: nat)
    requires p > 0 && q > 0 && p * q == WORD
    ensures lo / q < p
    ensures U64(lo * p) == lo * p - lo / q * WORD
  {
    var c, r := lo / q, lo % q;
    assert lo == c * q + r;
    if c >= p {
      MulGe(c, p, q);
      assert false;
    }
    assert lo * p == c * WORD + r * p by {
      assert (c * q + r) * p == c * q * p + r * p;
      assert c * q * p == c * (p * q);
    }
    MulGe(q - 1, r, p);
    assert (q - 1) * p == WORD - p;
    DivUnique(lo * p, WORD, c, r * p);
  }

  lemma HighMultiple(hi: int, p: nat, q: nat)
    requires p > 0 && q > 0 && p * q == WORD
    ensures U64(hi * p) % p == 0
    ensures U64(S64(hi * p)) == U64(hi * p)
  {
    WordMod(hi * p, p, q);
    DivMul(hi, p);
    SameWord(hi * p);
  }

  lemma SameWord(x: int)
    ensures U64(S64(x)) == U64(x)
  {
  }

  lemma ShiftedSum(hi: int64, lo: uint64, p: nat, q: nat)
    requires p > 0 && q > 0 && p * q == WORD
    requires U64(lo * p) == lo * p - lo / q * WORD
    ensures Join(S64(U64(hi * p) + lo / q), U64(lo * p)) == Wrap(Join(hi, lo) * p)
  {
    var k := hi * p / WORD;
    var h := U64(hi * p);
    assert h == hi * p - k * WORD;
    assert Join(hi, lo) * p == hi * p * WORD + lo * p by {
      assert (hi * WORD + lo) * p == hi * WORD * p + lo * p;
      assert hi * WORD * p == hi * p * WORD;
    }
    assert Join(hi, lo) * p == Join(h + lo / q, U64(lo * p)) + k * SIZE;
    JoinWraps(Join(hi, lo) * p, h + lo / q, U64(lo * p));
  }

  lemma JoinShiftLeftWord(hi: int64, lo: uint64, n: nat)
    requires 64 <= n < 128
    ensures Join(S64(Shl(lo, n - 64)), 0) == Wrap(Join(hi, lo) * Pow2(n))
  {
    hide S64, Pow2, Wrap;
    var p := Pow2(n - 64);
    PowAdd(64, n - 64);
    Pow64();
    ScaledJoin(hi, lo, p);
    JoinWraps(Join(hi, lo) * (WORD * p), lo * p, 0);
  }

  lemma ScaledJoin(hi: int, lo: int, p: int)
    ensures Join(hi, lo) * (WORD * p) == Join(lo * p, 0) + hi * p * SIZE
  {
    assert Join(hi, lo) * (WORD * p) == hi * WORD * (WORD * p) + lo * (WORD * p);
    assert hi * WORD * (WORD * p) == hi * p * (WORD * WORD);
  }

  lemma ShiftedOut(x: int, n: nat)
    requires n >= 128
    ensures Wrap(x * Pow2(n)) == 0
  {
    hide Pow2, Wrap;
    var p := Pow2(n - 128);
    PowAdd(128, n - 128);
    Pow128();
    assert x * (SIZE * p) == x * p * SIZE;
    WrapUnique(x * (SIZE * p), 0, x * p);
  }

  lemma Pow128()
    ensures Pow2(127) == LIMIT && Pow2(128) == SIZE
  {
    Pow64();
    PowAdd(64, 64);
    PowAdd(64, 63);
  }

  lemma JoinShiftRight(hi: int64, lo: uint64, n: nat)
    requires n < 64
    ensures var low := Or(Shr(lo, n), U64(Shl(And(U64(hi), Pow2(n) - 1), 64 - n)));
            low < WORD && Join(Shr(hi, n), low) == Join(hi, lo) / Pow2(n)
  {
    hide U64, And, Or, Pow2, Join;
    var p, q := Pow2(n), Pow2(64 - n);
    PowWord(n);
    AndLow(U64(hi), n);
    WordMod(hi, p, q);
    LowShifted(lo, q, p);
    LoweredBits(hi % p, lo / p, p, q);
    OrCommutes(lo / p, hi % p * q);
    OrDisjoint(hi % p * q, lo / p, 64 - n);
    ShiftRightSum(hi, lo, p, q);
  }

  // The bits that leave the high word fill the top of the low word.
  lemma LoweredBits(c: int, l: int, p: nat, q: nat)
    requires p > 0 && q > 0 && p * q == WORD
    requires 0 <= c < p && 0 <= l < q
    ensures 0 <= c * q && c * q + l < WORD
    ensures U64(c * q) == c * q && c * q % q == 0
  {
    MulGe(p - 1, c, q);
    assert (p - 1) * q == WORD - q;
    MulGe(c, 0, q);
    DivMul(c, q);
  }

  lemma WordMod(x: int, p: nat, q: nat)
    requires p > 0 && q > 0 && p * q == WORD
    ensures U64(x) % p == x % p
  {
    var k := x / WORD;
    assert U64(x) == x - k * WORD;
    var c, r := x / p, x % p;
    assert x == c * p + r;
    assert k * WORD == k * q * p by {
      assert k * (p * q) == k * q * p;
    }
    assert U64(x) == (c - k * q) * p + r;
    DivUnique(U64(x), p, c - k * q, r);
  }

  lemma ShiftRightSum(hi: int64, lo: uint64, p: nat, q: nat)
    requires p > 0 && q > 0 && p * q == WORD
    ensures Join(hi, lo) / p == Join(hi / p, lo / p + hi % p * q)
  {
    var h, c := hi / p, hi % p;
    var l, r := lo / p, lo % p;
    assert hi == h * p + c && lo == l * p + r;
    assert hi * WORD == h * WORD * p + c * q * p by {
      assert (h * p + c) * WORD == h * p * WORD + c * WORD;
      assert c * (p * q) == c * q * p;
    }
    assert Join(hi, lo) == (h * WORD + c * q + l) * p + r;
    DivUnique(Join(hi, lo), p, h * WORD + c * q + l, r);
  }

  lemma JoinShiftRightWord(hi: int64, lo: uint64, n: nat)
    requires 64 <= n < 128
    ensures Join(if hi < 0 then -1 else 0, U64(Shr(hi, n - 64))) == Join(hi, lo) / Pow2(n)
  {
    var p := Pow2(n - 64);
    PowAdd(64, n - 64);
    Pow64();
    DivDiv(Join(hi, lo), WORD, p);
    DivUnique(Join(hi, lo), WORD, hi, lo);
    QuotientRange(hi, p);
  }

  lemma SignOnly(x: int, n: nat)
    requires n >= 127 && -LIMIT <= x < LIMIT
    ensures x / Pow2(n) == if x < 0 then -1 else 0
  {
    Pow128();
    PowMono(127, n);
    if x < 0 {
      DivUnique(x, Pow2(n), -1, x + Pow2(n));
    } else {
      DivUnique(x, Pow2(n), 0, x);
    }
  }

  // ----- Single bits -----

  lemma BitOfJoin(hi: int64, lo: uint64, n: nat)
    requires n < 128
    ensures n < 64 ==> (And(lo, Pow2(n)) != 0 <==> Bit(Join(hi, lo), n) == 1)
    ensures n >= 64 ==> (And(U64(hi), Pow2(n - 64)) != 0 <==> Bit(Join(hi, lo), n) == 1)
  {
    hide And, Pow2, U64, Bit, Join;
    if n < 64 {
      LowBit(hi, lo, n);
      AndTests(lo, n);
    } else {
      HighBit(hi, lo, n);
      AndTests(U64(hi), n - 64);
    }
  }

  lemma LowMaskOne(lo: uint64)
    ensures And(lo, 1) == lo % 2
  {
    assert Pow2(1) == 2;
    AndLow(lo, 1);
  }

  lemma JoinParity(hi: int64, lo: uint64)
    ensures Join(hi, lo) % 2 == lo % 2
  {
    assert Pow2(0) == 1;
    LowBit(hi, lo, 0);
  }

  lemma AndTests(x: nat, n: nat)
    ensures And(x, Pow2(n)) != 0 <==> Bit(x, n) == 1
  {
    AndPow(x, n);
  }

  // Multiples of the word size do not reach the low 64 bits.
  lemma LowBit(h: int, l: int, n: nat)
    requires n < 64
    ensures Bit(Join(h, l), n) == Bit(l, n)
  {
    Pow64();
    BitKept(l, h, 64, n);
  }

  lemma HighBit(hi: int64, lo: uint64, n: nat)
    requires 64 <= n < 128
    ensures Bit(Join(hi, lo), n) == Bit(U64(hi), n - 64)
  {
    hide Pow2;
    PowAdd(64, n - 64);
    Pow64();
    DivDiv(Join(hi, lo), WORD, Pow2(n - 64));
    DivUnique(Join(hi, lo), WORD, hi, lo);
    WordBit(hi, n - 64);
  }

  lemma WordBit(hi: int64, n: nat)
    requires n < 64
    ensures Bit(U64(hi), n) == Bit(hi, n)
  {
    hide Pow2;
    assert U64(hi) == Join(if hi < 0 then 1 else 0, hi);
    LowBit(if hi < 0 then 1 else 0, hi, n);
  }

  // The low word with bit n set or cleared.
  function WithBit(x: uint64, n: nat, val: bool): (r: uint64)
    requires n < 64
    ensures r == x + ((if val then 1 else 0) - Bit(x, n)) * Pow2(n)
  {
    OneBit(x, n);
    if val then Or(x, Pow2(n)) else And(x, WORD - 1 - Pow2(n))
  }

  lemma OneBit(x: uint64, n: nat)
    requires n < 64
    ensures Pow2(n) < WORD
    ensures Or(x, Pow2(n)) == x + (1 - Bit(x, n)) * Pow2(n) < WORD
    ensures And(x, WORD - 1 - Pow2(n)) == x + (0 - Bit(x, n)) * Pow2(n) <= x
  {
    hide *;
    Pow64();
    PowMono(n, 63);
    HalfWord();
    OrPow(x, n);
    OrBound(x, Pow2(n), 64);
    AndNotPow(x, n, 64);
    AndBound(x, WORD - 1 - Pow2(n));
    NegatedProduct(Bit(x, n), Pow2(n));
  }

  lemma HalfWord()
    ensures HALF < WORD
  {
  }

  lemma NegatedProduct(b: int, p: int)
    ensures (0 - b) * p == -(b * p)
  {
  }

  lemma {:induction false} AndBound(x: nat, y: nat)
    ensures And(x, y) <= x
    decreases x
  {
    if x > 0 {
      AndBound(x / 2, y / 2);
    }
  }

  // The 128-bit number that differs from x in bit n only.
  function Replaced(x: int, n: nat, val: bool): (r: int)
    ensures -LIMIT <= r < LIMIT
  {
    Wrap(x + ((if val then 1 else 0) - Bit(x, n)) * Pow2(n))
  }

  lemma ReplacedBits(x: int, n: nat, val: bool, k: nat)
    requires n < 128 && k < 128
    ensures Bit(Replaced(x, n, val), k) == if k == n then (if val then 1 else 0) else Bit(x, k)
  {
    var e := (if val then 1 else 0) - Bit(x, n);
    var y := x + e * Pow2(n);
    Pow128();
    WrapSteps(y);
    BitKept(y, -((y + LIMIT) / SIZE), 128, k);
    if k < n {
      BitKept(x, e, n, k);
    } else {
      BitAt(x, e, n);
      if k > n {
        HigherBit(x, y, n, k);
      }
    }
  }

  lemma WrapSteps(y: int)
    ensures Wrap(y) == y + -((y + LIMIT) / SIZE) * SIZE
  {
  }

  lemma JoinWithBit(hi: int64, lo: uint64, n: nat, val: bool)
    requires n < 128
    ensures (if n < 64 then Join(hi, WithBit(lo, n, val)) else Join(S64(WithBit(U64(hi), n - 64, val)), lo))
            == Replaced(Join(hi, lo), n, val)
  {
    hide Bit, Pow2, WithBit, S64, U64, Wrap;
    var v := if val then 1 else 0;
    if n < 64 {
      LowBit(hi, lo, n);
      JoinInRange(hi, WithBit(lo, n, val));
    } else {
      HighBit(hi, lo, n);
      PowAdd(64, n - 64);
      Pow64();
      JoinHigh(hi, lo, (v - Bit(U64(hi), n - 64)), Pow2(n - 64));
    }
  }

  lemma JoinHigh(hi: int64, lo: uint64, d: int, p: int)
    ensures Join(S64(U64(hi) + d * p), lo) == Wrap(Join(hi, lo) + d * (WORD * p))
  {
    hide S64, Wrap;
    var k := if hi < 0 then 1 else 0;
    var e := d * p;
    assert d * (WORD * p) == e * WORD;
    assert U64(hi) == hi + k * WORD;
    assert Join(hi, lo) + e * WORD == Join(U64(hi) + e, lo) + -k * SIZE;
    JoinWraps(Join(hi, lo) + e * WORD, U64(hi) + e, lo);
  }

  lemma JoinInRange(hi: int64, lo: uint64)
    ensures Wrap(Join(hi, lo)) == Join(hi, lo)
  {
  }

  // operator< as written: equal negative high words compare the low words as signed.
  predicate WordsLess(ahi: int64, alo: uint64, bhi: int64, blo: uint64) {
    if ahi == bhi then
      if ahi < 0 then S64(alo) < S64(blo) else alo < blo
    else
      ahi < bhi
  }

  lemma LessExactly(ahi: int64, alo: uint64, bhi: int64, blo: uint64)
    ensures (WordsLess(ahi, alo, bhi, blo) <==> Join(ahi, alo) < Join(bhi, blo))
            <==> !(ahi == bhi && ahi < 0 && (alo < HALF) != (blo < HALF))
  {
    if ahi < bhi {
      assert Join(ahi, alo) < Join(bhi, blo);
    } else if bhi < ahi {
      assert Join(bhi, blo) < Join(ahi, alo);
    }
  }

  // ----- Multiplication -----

  // The product of m and the low i bits of n.
  function Partial(m: int, n: int, i: nat): int {
    Wrap(m * (n - n / Pow2(i) * Pow2(i)))
  }

  lemma PartialStart(m: int, n: int)
    ensures Partial(m, n, 0) == 0 && n / Pow2(0) == n
  {
    assert Pow2(0) == 1;
    assert n / 1 * 1 == n;
  }

  lemma PartialStep(m: int, n: int, i: nat)
    ensures n / Pow2(i + 1) == n / Pow2(i) / 2
    ensures Partial(m, n, i + 1)
            == if n / Pow2(i) % 2 == 1 then Wrap(Partial(m, n, i) + Wrap(m * Pow2(i))) else Partial(m, n, i)
  {
    var p, t := Pow2(i), n / Pow2(i);
    DivDiv(n, p, 2);
    assert Pow2(i + 1) == 2 * p;
    hide Pow2, Wrap;
    assert t / 2 * (2 * p) == t * p - t % 2 * p by {
      assert t / 2 * 2 == t - t % 2;
      assert t / 2 * 2 * p == t / 2 * (2 * p);
    }
    if t % 2 == 1 {
      assert m * (n - t * p + p) == m * (n - t * p) + m * p;
      WrapAdd(m * (n - t * p), m * p);
    }
  }

  lemma PartialEnd(m: int, n: int)
    ensures Partial(m, n, 128) == Wrap(m * n)
  {
    Pow128();
    hide Pow2, Wrap;
    var t := n / SIZE;
    assert m * (n - t * SIZE) == m * n + -(m * t) * SIZE;
    WrapUnique(m * (n - t * SIZE), m * n, -(m * t));
  }

  // ----- Division -----

  lemma PowTwo()
    ensures Pow2(1) == 2
  {
  }

  // Setting the lowest bit of an even number adds one.
  lemma LowestSet(hi: int64, lo: uint64)
    requires Join(hi, lo) % 2 == 0
    ensures Or(lo, 1) == lo + 1 < WORD && Join(hi, lo + 1) == Join(hi, lo) + 1
  {
    JoinParity(hi, lo);
    OrPow(lo, 0);
    assert Pow2(0) == 1 && lo / 1 == lo;
  }

  // The quotient found so far is k * 2^b, and r is what is left of the bits above b.
  predicate LongDivision(d: int, s: int, q: int, r: int, k: int, b: nat) {
    && 0 <= k && q == k * Pow2(b)
    && 0 <= r < 2 * s
    && r + k * s == d / Pow2(b)
    && (r >= s ==> k % 2 == 0)
  }

  lemma NextBit(d: int, b: nat)
    ensures d / Pow2(b) == 2 * (d / Pow2(b + 1)) + Bit(d, b)
  {
    DivDiv(d, Pow2(b), 2);
  }

  lemma ShiftedBelow(d: int, b: nat)
    requires d >= 0
    ensures 0 <= d / Pow2(b) <= d
  {
    QuotientRange(d, Pow2(b));
  }

  // ++ and -- on an unsigned int.
  function Increment(b: nat): nat {
    if b == UINT_SIZE - 1 then 0 else b + 1
  }

  function Decrement(b: nat): nat {
    if b == 0 then UINT_SIZE - 1 else b - 1
  }

  lemma NoShift(d: int)
    ensures d / Pow2(0) == d
  {
  }

  // r holds the bits of d from n on, and the divisor fits in r at most once.
  predicate Aligned(d: int, s: int, r: int, n: nat) {
    0 < s <= d < LIMIT && n <= 128 && r == d / Pow2(n) && 0 <= r < 2 * s
  }

  lemma AlignStart(d: int, s: int)
    requires 0 < s <= d < LIMIT
    ensures Aligned(d, s, 0, 128)
  {
    SignOnly(d, 128);
  }

  lemma AlignStep(d: int, s: int, r: int, b: nat)
    requires Aligned(d, s, r, Increment(b)) && r < s
    ensures b <= 127 && Increment(b) == b + 1 && Increment(Decrement(b)) == b
    ensures 0 <= 2 * r && 2 * r + 1 < LIMIT && Aligned(d, s, 2 * r + Bit(d, b), b)
  {
    NoShift(d);
    NextBit(d, b);
    ShiftedBelow(d, b);
  }

  lemma AlignEnd(d: int, s: int, r: int, n: nat)
    requires Aligned(d, s, r, n) && r >= s
    ensures n <= 127 && r == d / Pow2(n) && r < 2 * s
  {
    SignOnly(d, 128);
  }

  lemma DivisionStart(d: int, s: int, r: int, b: nat)
    requires r == d / Pow2(b) && 0 <= r < 2 * s
    ensures LongDivision(d, s, 0, r, 0, b)
  {
  }

  lemma DivisionDone(d: int, s: int, q: int, r: int, k: int)
    requires 0 < s <= d && r < s && LongDivision(d, s, q, r, k, 0)
    ensures 0 <= q && Truncated(d, s, q, r)
  {
    NoShift(d);
    assert Pow2(0) == 1;
  }

  lemma DivisionBit(d: int, s: int, q: int, r: int, k: int, b: nat)
    requires 0 <= d < LIMIT && 0 < s && r < s
    requires LongDivision(d, s, q, r, k, b + 1)
    ensures 0 <= r && 2 * r + 1 < LIMIT
    ensures LongDivision(d, s, q, 2 * r + Bit(d, b), 2 * k, b)
  {
    hide Pow2, Bit;
    NextBit(d, b);
    ShiftedBelow(d, b);
    PowNext(b);
    DoubledProducts(k, s, Pow2(b));
  }

  lemma PowNext(n: nat)
    ensures Pow2(n + 1) == 2 * Pow2(n)
  {
  }

  lemma DoubledProducts(k: int, s: int, p: int)
    requires k >= 0 && s > 0
    ensures 2 * k * s == 2 * (k * s) && k * s >= 0 && 2 * k * p == k * (2 * p)
  {
    MulGe(k, 0, s);
  }

  lemma DivisionFits(d: int, s: int, q: int, r: int, k: int, b: nat)
    requires 0 <= d < LIMIT && 0 < s <= r
    requires b <= 127
    requires LongDivision(d, s, q, r, k, b)
    ensures LongDivision(d, s, Replaced(q, b, true), r - s, k + 1, b)
  {
    var p := Pow2(b);
    DivMul(k, p);
    hide Pow2;
    assert (k + 1) * s == k * s + s;
    assert (k + 1) * p == k * p + p;
    MulGe(k + 1, 0, p);
    MulGe(k, 0, p);
    MulGe(s, 1, k + 1);
    Quotient(d, p);
    MulGe(d / p, k + 1, p);
  }

  // ----- Decimal and other notations -----

  function DigitChar(c: nat): char
    requires c <= 36
  {
    if c > 9 then 'A' - 10 as char + c as char else '0' + c as char
  }

  // The digits of a positive number, most significant first; none for zero.
  function Digits(n: nat, radix: nat): string
    requires 2 <= radix <= 37
    decreases n
  {
    if n == 0 then ""
    else
      QuotientSmaller(n, radix);
      Quotient(n, radix);
      Digits(n / radix, radix) + [DigitChar(n % radix)]
  }

  // What toString yields; the most negative number has no magnitude and prints as "-0".
  function Text(v: int, radix: nat): string {
    if v == 0 then "0"
    else if radix < 2 || radix > 37 then "(invalid radix)"
    else if v == -LIMIT then "-0"
    else (if v < 0 then "-" else "") + Digits(Abs(v), radix)
  }

  // The digits still to print and those printed make up the number, and the buffer
  // position bounds what is left.
  predicate Printing(v: int, radix: nat, rest: int, printed: string)
    requires 2 <= radix <= 37
  {
    if v == -LIMIT then
      (rest == v && printed == "") || (rest == 0 && printed == "0")
    else
      && rest >= 0 && rest * Pow2(|printed|) < LIMIT && |printed| <= 127
      && Digits(Abs(v), radix) == Digits(rest, radix) + printed
  }

  // The value of a digit in the radix, or -1.
  function DigitOf(ch: char, radix: int): (n: int)
    requires 8 <= radix <= 16
    ensures -1 <= n <= 16
  {
    if '0' <= ch <= '9' && ch as int < '0' as int + radix then ch as int - '0' as int
    else if 'a' <= ch && ch as int <= 'a' as int + radix - 10 then ch as int - 'a' as int + 10
    else if 'A' <= ch && ch as int <= 'A' as int + radix - 10 then ch as int - 'A' as int + 10
    else -1
  }

  function ParseFrom(sz: string, i: nat, radix: int, acc: int): int
    requires 8 <= radix <= 16
    decreases |sz| - i
  {
    if i < |sz| && DigitOf(sz[i], radix) >= 0 then
      ParseFrom(sz, i + 1, radix, acc * radix + DigitOf(sz[i], radix))
    else acc
  }

  // The number that set reads: an optional sign, then 0 for octal or 0x for hexadecimal.
  function Parse(sz: string): int {
    var i := if CharAt(sz, 0) == '-' then 1 else 0;
    var n := if CharAt(sz, i) != '0' then ParseFrom(sz, i, 10, 0)
             else if CharAt(sz, i + 1) == 'x' then ParseFrom(sz, i + 2, 16, 0)
             else ParseFrom(sz, i + 1, 8, 0);
    if i == 1 then -n else n
  }

  lemma {:induction false} ParseWraps(sz: string, i: nat, radix: int, x: int, y: int)
    requires 8 <= radix <= 16 && Wrap(x) == Wrap(y)
    ensures Wrap(ParseFrom(sz, i, radix, x)) == Wrap(ParseFrom(sz, i, radix, y))
    decreases |sz| - i
  {
    if i < |sz| && DigitOf(sz[i], radix) >= 0 {
      var n := DigitOf(sz[i], radix);
      WrapTimes(x, radix);
      WrapTimes(y, radix);
      WrapAdd(x * radix, n);
      WrapAdd(y * radix, n);
      ParseWraps(sz, i + 1, radix, x * radix + n, y * radix + n);
    }
  }

  lemma PrintStart(v: int, radix: nat, rest: int)
    requires 2 <= radix <= 37 && -LIMIT <= v < LIMIT
    requires rest == if v == -LIMIT then -LIMIT else Abs(v)
    ensures Printing(v, radix, rest, "")
  {
    assert Pow2(0) == 1;
    assert Digits(Abs(v), radix) + "" == Digits(Abs(v), radix);
  }

  lemma PrintDigit(v: int, radix: nat, rest: int, q: int, r: int, printed: string)
    requires 2 <= radix <= 37 && -LIMIT <= v < LIMIT
    requires rest != 0 && Printing(v, radix, rest, printed)
    requires rest == -LIMIT ==> q == 0 && r == -LIMIT
    requires rest != -LIMIT ==> Truncated(rest, radix, q, r)
    ensures rest != -LIMIT ==> 0 <= r < radix
    ensures Printing(v, radix, q, [DigitChar(if r == -LIMIT then 0 else r)] + printed)
  {
    if v == -LIMIT {
      assert [DigitChar(0)] + printed == "0";
    } else {
      PrintedBelow(rest, radix, q, r, |printed|);
      var c := DigitChar(r);
      assert Digits(rest, radix) == Digits(q, radix) + [c];
      assert Digits(q, radix) + [c] + printed == Digits(q, radix) + ([c] + printed);
    }
  }

  lemma PrintedBelow(rest: nat, radix: nat, q: int, r: int, k: nat)
    requires 2 <= radix && rest > 0 && Truncated(rest, radix, q, r)
    requires rest * Pow2(k) < LIMIT
    ensures q == rest / radix && r == rest % radix && 0 <= r < radix && 0 <= q
    ensures k < 127 && q * Pow2(k + 1) < LIMIT
  {
    var p := Pow2(k);
    TwiceProduct(q, p);
    if k >= 127 {
      PowMono(127, k);
      Pow128();
    }
    hide Pow2;
    DivUnique(rest, radix, q, r);
    QuotientRange(rest, radix);
    MulGe(radix, 2, q);
    MulGe(rest, 1, p);
    MulGe(rest, 2 * q, p);
    assert 2 * q * p == 2 * (q * p);
  }

  lemma PrintDone(v: int, radix: nat, rest: int, printed: string)
    requires 2 <= radix <= 37 && -LIMIT <= v < LIMIT && v != 0
    requires Printing(v, radix, rest, printed)
    requires rest == 0 || |printed| == 255
    ensures rest == 0 && 0 < |printed| <= 127
    ensures Text(v, radix) == (if v < 0 then "-" else "") + printed
  {
    assert "" + printed == printed;
  }

  // Reading back the digits of n, wherever they stand in a text.
  lemma {:induction false} DigitsParse(n: nat, radix: nat, before: string, after: string)
    requires radix == 8 || radix == 10 || radix == 16
    ensures ParseFrom(before + Digits(n, radix) + after, |before|, radix, 0)
            == ParseFrom(before + Digits(n, radix) + after, |before + Digits(n, radix)|, radix, n)
    decreases n
  {
    hide *;
    if n > 0 {
      DigitsStep(n, radix);
      var m, r := n / radix, n % radix;
      var c := DigitChar(r);
      Quotient(n, radix);
      DigitsParse(m, radix, before, [c] + after);
      DigitValue(r, radix);
      LastDigit(before, Digits(m, radix), c, after);
      ParseDigit(before + Digits(n, radix) + after, |before + Digits(m, radix)|, radix, m, r);
    } else {
      DigitsNone(radix);
    }
  }

  lemma DigitsNone(radix: nat)
    requires 2 <= radix <= 37
    ensures Digits(0, radix) == ""
  {
  }

  lemma DigitsStep(n: nat, radix: nat)
    requires n > 0 && 2 <= radix <= 37
    ensures 0 <= n / radix < n && 0 <= n % radix < radix
    ensures Digits(n, radix) == Digits(n / radix, radix) + [DigitChar(n % radix)]
  {
    QuotientSmaller(n, radix);
    Quotient(n, radix);
    hide DigitChar;
  }

  lemma LastDigit(before: string, digits: string, c: char, after: string)
    ensures before + (digits + [c]) + after == before + digits + ([c] + after)
    ensures (before + (digits + [c]) + after)[|before + digits|] == c
    ensures |before + (digits + [c])| == |before + digits| + 1
  {
  }

  lemma DigitValue(r: nat, radix: nat)
    requires radix == 8 || radix == 10 || radix == 16
    requires r < radix
    ensures DigitOf(DigitChar(r), radix) == r
    ensures r > 0 ==> DigitChar(r) != '0'
    ensures DigitChar(r) != '-' && DigitChar(r) != 'x'
  {
  }

  lemma ParseDigit(sz: string, i: nat, radix: int, acc: int, n: int)
    requires 8 <= radix <= 16 && i < |sz| && DigitOf(sz[i], radix) == n >= 0
    ensures ParseFrom(sz, i, radix, acc) == ParseFrom(sz, i + 1, radix, acc * radix + n)
  {
  }

  lemma ParseStop(sz: string, i: nat, radix: int, acc: int)
    requires 8 <= radix <= 16 && (i >= |sz| || DigitOf(sz[i], radix) < 0)
    ensures ParseFrom(sz, i, radix, acc) == acc
  {
  }

  lemma {:induction false} LeadingDigit(n: nat, radix: nat)
    requires radix == 8 || radix == 10 || radix == 16
    requires n > 0
    ensures Digits(n, radix) != "" && Digits(n, radix)[0] != '0'
    ensures Digits(n, radix)[0] != '-' && Digits(n, radix)[0] != 'x'
    decreases n
  {
    DigitsStep(n, radix);
    DigitValue(n % radix, radix);
    hide Digits, DigitChar;
    var c := DigitChar(n % radix);
    if n / radix > 0 {
      LeadingDigit(n / radix, radix);
      assert Digits(n, radix)[0] == Digits(n / radix, radix)[0];
    } else {
      DigitsNone(radix);
      Quotient(n, radix);
      assert Digits(n, radix)[0] == c;
    }
  }

  // Reading a sign, the prefix of the radix, and digits gives the number back.
  lemma NotationParses(v: int, radix: nat)
    requires radix == 8 || radix == 10 || radix == 16
    requires v != 0
    ensures Parse((if v < 0 then "-" else "") + Prefix(radix) + Digits(Abs(v), radix)) == v
  {
    var n := Abs(v);
    var before := (if v < 0 then "-" else "") + Prefix(radix);
    LeadingDigit(n, radix);
    DigitsParse(n, radix, before, "");
    var sz := before + Digits(n, radix);
    assert sz == before + Digits(n, radix) + "";
    ParseStop(sz, |sz|, radix, n);
    assert ParseFrom(sz, |before|, radix, 0) == n;
    assert sz[|before|] == Digits(n, radix)[0];
  }

  function Prefix(radix: nat): string {
    if radix == 8 then "0" else if radix == 16 then "0x" else ""
  }

  // ----- What texts of digits mean -----

  const UPPER := "0123456789ABCDEFGHIJKLMNOPQRSTUVWXYZ["
  const LOWER := "0123456789abcdefg"

  // The digits that set knows: in radix 10 and 16 there is one letter too many.
  function DigitCount(radix: nat): nat {
    if radix == 8 then 8 else radix + 1
  }

  predicate IsDigit(ch: char, n: nat, radix: nat)
    requires radix == 8 || radix == 10 || radix == 16
  {
    n < DigitCount(radix) && (ch == LOWER[n] || ch == UPPER[n])
  }

  lemma DigitTable(ch: char, n: nat, radix: nat)
    requires radix == 8 || radix == 10 || radix == 16
    ensures DigitOf(ch, radix) == n <==> IsDigit(ch, n, radix)
  {
    if n <= 16 {
      LowerDigit(n);
      UpperDigit(n);
    }
  }

  lemma LowerDigit(n: nat)
    requires n <= 16
    ensures LOWER[n] as int == if n < 10 then '0' as int + n else 'a' as int + n - 10
  {
  }

  lemma UpperDigit(n: nat)
    requires n <= 36
    ensures UPPER[n] as int == if n < 10 then '0' as int + n else 'A' as int + n - 10
    ensures DigitChar(n) == UPPER[n]
  {
  }

  function Power(b: int, n: nat): int {
    if n == 0 then 1 else b * Power(b, n - 1)
  }

  // The number with these digits, most significant first.
  function PlaceSum(values: seq<nat>, radix: nat): int {
    if |values| == 0 then 0
    else values[0] * Power(radix, |values| - 1) + PlaceSum(values[1..], radix)
  }

  // The text spells the digits, each in either case.
  predicate Spells(text: string, values: seq<nat>, radix: nat)
    requires radix == 8 || radix == 10 || radix == 16
  {
    |text| == |values| && forall k :: 0 <= k < |text| ==> IsDigit(text[k], values[k], radix)
  }

  predicate Stops(rest: string, radix: nat)
    requires radix == 8 || radix == 10 || radix == 16
  {
    rest == "" || forall n :: 0 <= n < DigitCount(radix) ==> !IsDigit(rest[0], n, radix)
  }

  lemma {:induction false} PlacesParse(sz: string, i: nat, values: seq<nat>, radix: nat, acc: int)
    requires radix == 8 || radix == 10 || radix == 16
    requires i + |values| <= |sz| && Spells(sz[i..i + |values|], values, radix) && Stops(sz[i + |values|..], radix)
    ensures ParseFrom(sz, i, radix, acc) == acc * Power(radix, |values|) + PlaceSum(values, radix)
    decreases |values|
  {
    hide *;
    if |values| == 0 {
      NoPlaces(sz, i, radix, acc);
    } else {
      var n, rest := values[0], values[1..];
      SpellsNext(sz, i, values, radix);
      PlacesParse(sz, i + 1, rest, radix, acc * radix + n);
      ParseDigit(sz, i, radix, acc, n);
      PlaceStep(acc, radix, n, |rest|);
      PlaceFirst(values, radix);
    }
  }

  lemma NoPlaces(sz: string, i: nat, radix: nat, acc: int)
    requires radix == 8 || radix == 10 || radix == 16
    requires i <= |sz| && Stops(sz[i..], radix)
    ensures ParseFrom(sz, i, radix, acc) == acc * Power(radix, 0) + PlaceSum([], radix)
  {
    if i < |sz| {
      NoDigit(sz[i], radix, sz[i..]);
    }
    ParseStop(sz, i, radix, acc);
  }

  lemma SpellsNext(sz: string, i: nat, values: seq<nat>, radix: nat)
    requires radix == 8 || radix == 10 || radix == 16
    requires |values| > 0 && i + |values| <= |sz| && Spells(sz[i..i + |values|], values, radix)
    ensures DigitOf(sz[i], radix) == values[0] && Spells(sz[i + 1..i + |values|], values[1..], radix)
  {
    hide IsDigit, DigitOf;
    assert sz[i..i + |values|][0] == sz[i];
    DigitTable(sz[i], values[0], radix);
    assert sz[i..i + |values|][1..] == sz[i + 1..i + |values|];
  }

  lemma PlaceFirst(values: seq<nat>, radix: nat)
    requires |values| > 0
    ensures PlaceSum(values, radix) == values[0] * Power(radix, |values| - 1) + PlaceSum(values[1..], radix)
  {
  }

  lemma PlaceStep(acc: int, radix: int, n: int, k: nat)
    ensures (acc * radix + n) * Power(radix, k) == acc * Power(radix, k + 1) + n * Power(radix, k)
  {
    var p := Power(radix, k);
    assert Power(radix, k + 1) == radix * p;
    hide Power;
    assert (acc * radix + n) * p == acc * radix * p + n * p;
    assert acc * radix * p == acc * (radix * p);
  }

  lemma NoDigit(ch: char, radix: nat, rest: string)
    requires radix == 8 || radix == 10 || radix == 16
    requires rest != "" && rest[0] == ch && Stops(rest, radix)
    ensures DigitOf(ch, radix) < 0
  {
    var n := DigitOf(ch, radix);
    if n >= 0 {
      DigitTable(ch, n, radix);
    }
  }

  // What stands behind the prefix of the radix is not taken for another prefix.
  predicate Apart(radix: nat, values: seq<nat>, rest: string) {
    if |values| > 0 then radix == 10 ==> values[0] != 0
    else radix == 16 || rest == "" || rest[0] != if radix == 8 then 'x' else '-'
  }

  // Set reads a sign, the prefix of the radix, and digits in either case up to the first
  // character that is none.
  lemma DigitsRead(minus: bool, radix: nat, text: string, values: seq<nat>, rest: string)
    requires radix == 8 || radix == 10 || radix == 16
    requires Spells(text, values, radix) && Stops(rest, radix) && Apart(radix, values, rest)
    ensures Parse((if minus then "-" else "") + Prefix(radix) + text + rest)
            == if minus then -PlaceSum(values, radix) else PlaceSum(values, radix)
  {
    var before := (if minus then "-" else "") + Prefix(radix);
    var sz := before + text + rest;
    assert sz[|before|..|before| + |text|] == text && sz[|before| + |text|..] == rest;
    PlacesParse(sz, |before|, values, radix, 0);
    if |text| > 0 {
      assert sz[|before|] == text[0];
      FirstDigit(text[0], values[0], radix);
    } else if rest != "" {
      assert sz[|before|] == rest[0];
      NotZero(rest, radix);
    }
    hide PlaceSum, ParseFrom, Spells, Stops;
  }

  lemma NotZero(rest: string, radix: nat)
    requires radix == 8 || radix == 10 || radix == 16
    requires rest != "" && Stops(rest, radix)
    ensures rest[0] != '0'
  {
    LowerDigit(0);
    assert !IsDigit(rest[0], 0, radix);
  }

  lemma FirstDigit(ch: char, n: nat, radix: nat)
    requires radix == 8 || radix == 10 || radix == 16
    requires IsDigit(ch, n, radix)
    ensures ch != '-' && ch != 'x' && (ch == '0' <==> n == 0)
  {
    LowerDigit(n);
    UpperDigit(n);
  }

  // The digits of a number, most significant first, by value.
  function Places(n: nat, radix: nat): (values: seq<nat>)
    requires 2 <= radix <= 37
    ensures forall v <- values :: v < radix
  {
    if n == 0 then []
    else
      QuotientSmaller(n, radix);
      Quotient(n, radix);
      Places(n / radix, radix) + [n % radix]
  }

  // Printed digits are those of positional notation, from the table.
  lemma {:induction false} DigitsArePlaces(n: nat, radix: nat)
    requires 2 <= radix <= 37
    ensures |Digits(n, radix)| == |Places(n, radix)|
    ensures forall k :: 0 <= k < |Digits(n, radix)| ==> Places(n, radix)[k] < radix
    ensures forall k :: 0 <= k < |Digits(n, radix)| ==> Digits(n, radix)[k] == UPPER[Places(n, radix)[k]]
    decreases n
  {
    if n > 0 {
      DigitsStep(n, radix);
      PlacesStep(n, radix);
      DigitsArePlaces(n / radix, radix);
      UpperDigit(n % radix);
      hide Digits, Places, DigitChar;
    }
  }

  lemma PlacesStep(n: nat, radix: nat)
    requires n > 0 && 2 <= radix <= 37
    ensures 0 <= n / radix < n && 0 <= n % radix < radix
    ensures Places(n, radix) == Places(n / radix, radix) + [n % radix]
  {
    QuotientSmaller(n, radix);
    Quotient(n, radix);
  }

  lemma {:induction false} PlacesSum(n: nat, radix: nat)
    requires 2 <= radix <= 37
    ensures PlaceSum(Places(n, radix), radix) == n
    decreases n
  {
    if n > 0 {
      PlacesStep(n, radix);
      PlacesSum(n / radix, radix);
      Quotient(n, radix);
      hide Places, PlaceSum;
      PlaceLast(Places(n / radix, radix), n % radix, radix);
    }
  }

  lemma {:induction false} PlaceLast(values: seq<nat>, n: nat, radix: nat)
    ensures PlaceSum(values + [n], radix) == PlaceSum(values, radix) * radix + n
    decreases |values|
  {
    if |values| == 0 {
      assert values + [n] == [n] && [n][1..] == [];
      assert Power(radix, 0) == 1;
    } else {
      var all, k := values + [n], |values| - 1;
      assert all[1..] == values[1..] + [n];
      PlaceLast(values[1..], n, radix);
      PlaceFirst(all, radix);
      PlaceFirst(values, radix);
      hide PlaceSum;
      assert Power(radix, k + 1) == radix * Power(radix, k);
      hide Power;
      Distribute(values[0], Power(radix, k), PlaceSum(values[1..], radix), radix);
    }
  }

  lemma Distribute(v: int, p: int, t: int, radix: int)
    ensures v * (radix * p) + t * radix == (v * p + t) * radix
  {
    assert v * (radix * p) == v * p * radix;
  }

  function Lower(ch: char): char {
    if 'A' <= ch <= 'Z' then (ch as int - 'A' as int + 'a' as int) as char else ch
  }

  // Printed digits give the number back in either case, mixed too.
  lemma AnyCaseParses(v: int, radix: nat, text: string)
    requires radix == 8 || radix == 10 || radix == 16
    requires v != 0 && |text| == |Digits(Abs(v), radix)|
    requires forall k :: 0 <= k < |text| ==>
               text[k] == Digits(Abs(v), radix)[k] || text[k] == Lower(Digits(Abs(v), radix)[k])
    ensures Parse((if v < 0 then "-" else "") + Prefix(radix) + text) == v
  {
    var n := Abs(v);
    var digits, values := Digits(n, radix), Places(n, radix);
    hide *;
    DigitsArePlaces(n, radix);
    LeadingDigit(n, radix);
    PlacesSum(n, radix);
    SpellsDigits(text, digits, values, radix);
    var sign := if v < 0 then "-" else "";
    DigitsRead(v < 0, radix, text, values, "");
    assert sign + Prefix(radix) + text + "" == sign + Prefix(radix) + text;
    AbsIs(v);
  }

  lemma AbsIs(v: int)
    ensures Abs(v) == if v < 0 then -v else v
  {
  }

  lemma SpellsDigits(text: string, digits: string, values: seq<nat>, radix: nat)
    requires radix == 8 || radix == 10 || radix == 16
    requires |text| == |digits| == |values| > 0 && digits[0] != '0'
    requires forall k :: 0 <= k < |text| ==> values[k] < radix && digits[k] == UPPER[values[k]]
    requires forall k :: 0 <= k < |text| ==> text[k] == digits[k] || text[k] == Lower(digits[k])
    ensures Spells(text, values, radix) && values[0] != 0 && Stops("", radix)
  {
    forall k | 0 <= k < |text|
      ensures IsDigit(text[k], values[k], radix)
    {
      LowerDigit(values[k]);
      UpperDigit(values[k]);
    }
  }

  // Printing in radix 10 and reading back gives the number, except the one without a magnitude.
  lemma TextParses(v: int)
    requires -LIMIT <= v < LIMIT
    ensures Wrap(Parse(Text(v, 10))) == v <==> v != -LIMIT
  {
    if v == -LIMIT {
      assert Parse("-0") == 0;
    } else if v == 0 {
      assert Parse("0") == 0;
    } else {
      NotationParses(v, 10);
      var sign := if v < 0 then "-" else "";
      assert sign + "" + Digits(Abs(v), 10) == sign + Digits(Abs(v), 10);
    }
  }

  class Int128 {
    var lo: uint64
    var hi: int64

    constructor (lo: uint64, hi: int64)
      ensures this.lo == lo && this.hi == hi
    {
      this.lo, this.hi := lo, hi;
    }

    // From any of the 32-bit and 64-bit integer types.
    constructor Of(a: int)
      requires -HALF <= a < WORD
      ensures Value() == a
    {
      lo := U64(a);
      hi := if a < 0 then -1 else 0;
    }

    constructor Copy(a: Int128)
      ensures Value() == a.Value()
    {
      lo, hi := a.lo, a.hi;
    }

    function Value(): (v: int)
      reads this
      ensures -LIMIT <= v < LIMIT
    {
      Join(hi, lo)
    }

    lemma Lowest()
      ensures And(lo, 1) == Value() % 2
    {
      hide And, Join;
      LowMaskOne(lo);
      JoinParity(hi, lo);
    }

    // operator!
    predicate IsZero()
      reads this
      ensures IsZero() <==> Value() == 0
    {
      hi == 0 && lo == 0
    }

    predicate Less(b: Int128)
      reads this, b
      ensures Value() >= 0 || b.Value() >= 0 ==> (Less(b) <==> Value() < b.Value())
    {
      LessExactly(hi, lo, b.hi, b.lo);
      WordsLess(hi, lo, b.hi, b.lo)
    }

    // Comparison with an int constant that is not negative.
    predicate Negative()
      reads this
      ensures Negative() <==> Value() < 0
    {
      WordsLess(hi, lo, 0, 0)
    }

    method Assign(b: Int128)
      modifies this
      ensures Value() == old(b.Value())
    {
      lo, hi := b.lo, b.hi;
    }

    method Negated() returns (r: Int128)
      ensures fresh(r) && r.Value() == Wrap(-Value())
    {
      JoinNegate(hi, lo);
      if lo == 0 {
        r := new Int128(0, S64(0 - hi));
      } else {
        r := new Int128(U64(0 - lo), -1 - hi);
      }
    }

    method AddAssign(b: Int128)
      modifies this
      ensures Value() == Wrap(old(Value()) + old(b.Value()))
    {
      JoinAdd(hi, lo, b.hi, b.lo);
      var oldLo := lo;
      lo := U64(lo + b.lo);
      hi := S64(hi + b.hi);
      if lo < oldLo {
        hi := S64(hi + 1);
      }
    }

    method SubAssign(b: Int128)
      modifies this
      ensures Value() == Wrap(old(Value()) - old(b.Value()))
    {
      WrapAdd(Value(), -b.Value());
      var n := b.Negated();
      AddAssign(n);
    }

    method ShiftLeft(n: nat)
      modifies this
      ensures Value() == Wrap(old(Value()) * Pow2(n))
    {
      if n >= 128 {
        ShiftedOut(Value(), n);
        lo, hi := 0, 0;
      } else if n >= 64 {
        JoinShiftLeftWord(hi, lo, n);
        hi := S64(Shl(lo, n - 64));
        lo := 0;
      } else if n > 0 {
        JoinShiftLeft(hi, lo, n);
        hi := S64(Shl(hi, n));
        var mask := U64(0 - Pow2(64 - n));
        hi := S64(Or(U64(hi), Shr(And(lo, mask), 64 - n)));
        lo := U64(Shl(lo, n));
      }
    }

    method ShiftRight(n: nat)
      modifies this
      ensures Value() == old(Value()) / Pow2(n)
    {
      if n >= 128 {
        SignOnly(Value(), n);
        hi := if hi < 0 then -1 else 0;
        lo := U64(hi);
      } else if n >= 64 {
        JoinShiftRightWord(hi, lo, n);
        lo := U64(Shr(hi, n - 64));
        hi := if hi < 0 then -1 else 0;
      } else if n > 0 {
        JoinShiftRight(hi, lo, n);
        lo := Shr(lo, n);
        var mask := Pow2(n) - 1;
        lo := Or(lo, U64(Shl(And(U64(hi), mask), 64 - n)));
        hi := Shr(hi, n);
      }
    }

    predicate HasBit(n: nat)
      reads this
      ensures HasBit(n) <==> Bit(Value(), n) == 1
    {
      if n >= 128 then
        SignOnly(Value(), n);
        hi < 0
      else
        BitOfJoin(hi, lo, n);
        if n < 64 then And(lo, Pow2(n)) != 0 else And(U64(hi), Pow2(n - 64)) != 0
    }

    method SetBit(n: nat, val: bool)
      modifies this
      ensures Value() == if n >= 128 then old(Value()) else Replaced(old(Value()), n, val)
    {
      if n >= 128 {
        return;
      }
      JoinWithBit(hi, lo, n, val);
      if n < 64 {
        lo := WithBit(lo, n, val);
      } else {
        hi := S64(WithBit(U64(hi), n - 64, val));
      }
    }

    method MulAssign(b: Int128)
      modifies this
      ensures Value() == Wrap(old(Value()) * old(b.Value()))
    {
      ghost var m, n := Value(), b.Value();
      if b.IsZero() {
        assert m * n == 0;
        lo, hi := 0, 0;
        return;
      }
      if b.hi == 0 && b.lo == 1 {
        assert m * n == m;
        return;
      }
      var a := new Int128.Copy(this);
      var t := new Int128.Copy(b);
      lo, hi := 0, 0;
      AddShifted(a, t);
    }

    // The loop over the bits of t: adds a << i for every bit i that is set.
    method AddShifted(a: Int128, t: Int128)
      requires a != this && t != this && a != t && Value() == 0
      modifies this, t
      ensures Value() == Wrap(old(a.Value()) * old(t.Value()))
    {
      hide *;
      ghost var m, n := a.Value(), t.Value();
      PartialStart(m, n);
      var i := 0;
      while i < 128
        invariant 0 <= i <= 128
        invariant a.Value() == m && t.Value() == n / Pow2(i)
        invariant Value() == Partial(m, n, i)
      {
        PartialStep(m, n, i);
        t.Lowest();
        if And(t.lo, 1) != 0 {
          var s := new Int128.Copy(a);
          s.ShiftLeft(i);
          AddAssign(s);
        }
        t.ShiftRight(1);
        PowTwo();
        i := i + 1;
      }
      PartialEnd(m, n);
    }

    // Brings down bit n of d: r <<= 1, then the lowest bit of r is set if d has bit n.
    method PullBit(d: Int128, n: nat)
      requires d != this && 0 <= Value() && 2 * Value() + 1 < LIMIT
      modifies this
      ensures Value() == 2 * old(Value()) + Bit(d.Value(), n)
    {
      hide Bit, Or, And, Wrap, Pow2, HasBit, Join;
      PowTwo();
      var bit := d.HasBit(n);
      ShiftLeft(1);
      if bit {
        LowestSet(hi, lo);
        lo := Or(lo, 1);
      }
    }

    // The first loop: brings bits down until the divisor fits; bit is an unsigned int.
    static method AlignDivisor(dd: Int128, ds: Int128) returns (r: Int128, b: nat)
      requires 0 < ds.Value() <= dd.Value()
      ensures fresh(r) && b <= 127
      ensures r.Value() == dd.Value() / Pow2(b) && ds.Value() <= r.Value() < 2 * ds.Value()
    {
      r := new Int128.Of(0);
      b := 127;
      AlignStart(dd.Value(), ds.Value());
      hide Aligned, Bit, Pow2, Wrap, Join, Int128.Less;
      while r.Less(ds)
        invariant fresh(r) && b < UINT_SIZE
        invariant Aligned(dd.Value(), ds.Value(), r.Value(), Increment(b))
        invariant 0 <= r.Value()
        decreases Increment(b)
      {
        AlignStep(dd.Value(), ds.Value(), r.Value(), b);
        r.PullBit(dd, b);
        b := Decrement(b);
      }
      b := Increment(b);
      AlignEnd(dd.Value(), ds.Value(), r.Value(), b);
    }

    // The second loop: subtracts the divisor where it fits and brings down the next bit.
    static method DivideMagnitudes(dd: Int128, ds: Int128) returns (q: Int128, r: Int128)
      requires 0 < ds.Value() <= dd.Value()
      ensures fresh(q) && fresh(r) && q != r
      ensures 0 <= q.Value() && Truncated(dd.Value(), ds.Value(), q.Value(), r.Value())
    {
      q := new Int128.Of(0);
      hide *;
      ghost var d, s := dd.Value(), ds.Value();
      var b;
      r, b := AlignDivisor(dd, ds);
      ghost var k := 0;
      DivisionStart(d, s, r.Value(), b);
      while true
        invariant fresh(r) && fresh(q) && r != q
        invariant 0 <= b <= 127 && 0 <= r.Value()
        invariant LongDivision(d, s, q.Value(), r.Value(), k, b)
        decreases b, r.Value()
      {
        if r.Less(ds) {
          if b == 0 {
            break;
          }
          b := b - 1;
          DivisionBit(d, s, q.Value(), r.Value(), k, b);
          r.PullBit(dd, b);
          k := 2 * k;
        } else {
          DivisionFits(d, s, q.Value(), r.Value(), k, b);
          r.SubAssign(ds);
          q.SetBit(b, true);
          k := k + 1;
        }
      }
      DivisionDone(d, s, q.Value(), r.Value(), k);
    }

    // Quotient and remainder; remainder may be this object or the divisor.
    method Div(divisor: Int128, remainder: Int128) returns (q: Int128)
      requires divisor.Value() != 0 && divisor.Value() != -LIMIT
      modifies remainder
      ensures fresh(q)
      ensures old(Value()) == -LIMIT ==> q.Value() == 0 && remainder.Value() == -LIMIT
      ensures Truncated(old(Value()), old(divisor.Value()), q.Value(), remainder.Value())
              <==> old(Value()) != -LIMIT
    {
      hide Wrap, Join, WordsLess, Int128.Less, LongDivision;
      ghost var a, d := Value(), divisor.Value();
      var ds := divisor.Magnitude();
      var dd := this.Magnitude();
      if dd.Less(ds) {
        remainder.Assign(this);
        q := new Int128.Of(0);
        return;
      }
      var r;
      q, r := DivideMagnitudes(dd, ds);
      TruncatedSigns(a, d, q.Value(), r.Value());
      if divisor.Negative() != Negative() {
        q := q.Negated();
      }
      if Negative() {
        r := r.Negated();
      }
      remainder.Assign(r);
    }

    // The operand itself or its negation, whichever is not negative.
    method Magnitude() returns (r: Int128)
      ensures fresh(r) && r.Value() == if Value() == -LIMIT then -LIMIT else Abs(Value())
    {
      if Negative() {
        r := Negated();
      } else {
        r := new Int128.Copy(this);
      }
    }

    method DivAssign(b: Int128)
      requires b.Value() != 0 && b.Value() != -LIMIT
      modifies this
      ensures old(Value()) != -LIMIT
              ==> exists r :: Truncated(old(Value()), old(b.Value()), Value(), r)
      ensures old(Value()) == -LIMIT ==> Value() == 0
    {
      var dummy := new Int128.Of(0);
      var q := Div(b, dummy);
      Assign(q);
    }

    // The remainder goes straight into this object.
    method ModAssign(b: Int128)
      requires b.Value() != 0 && b.Value() != -LIMIT
      modifies this
      ensures old(Value()) != -LIMIT
              ==> exists q :: Truncated(old(Value()), old(b.Value()), q, Value())
      ensures old(Value()) == -LIMIT ==> Value() == -LIMIT
    {
      var q := Div(b, this);
    }

    method ToString(radix: nat) returns (s: string)
      requires radix < UINT_SIZE
      ensures s == Text(Value(), radix)
    {
      if IsZero() {
        return "0";
      }
      if radix < 2 || radix > 37 {
        return "(invalid radix)";
      }
      hide *;
      var sz := new char[256](_ => '\0');
      var i := PrintDigits(radix, sz);
      if Negative() {
        i := i - 1;
        sz[i] := '-';
        assert sz[i..255] == ['-'] + sz[i + 1..255];
      } else {
        assert "" + sz[i..255] == sz[i..255];
      }
      s := sz[i..255];
    }

    // The digit loop of toString, from the end of the buffer.
    method PrintDigits(radix: nat, sz: array<char>) returns (i: nat)
      requires 2 <= radix <= 37 && Value() != 0 && sz.Length == 256
      modifies sz
      ensures 128 <= i < 255
      ensures Text(Value(), radix) == (if Value() < 0 then "-" else "") + sz[i..255]
    {
      hide Printing, Text, Digits, DigitChar, Truncated, Join, Abs, WordsLess, LongDivision, Wrap;
      ghost var v := Value();
      var r := new Int128.Of(0);
      var ii := Magnitude();
      var aux := new Int128.Of(radix);
      i := 255;
      PrintStart(v, radix, ii.Value());
      assert sz[i..255] == "";
      while !ii.IsZero() && i != 0
        invariant 0 <= i <= 255
        invariant fresh(ii) && fresh(r) && fresh(aux) && r != ii && r != aux && ii != aux
        invariant aux.Value() == radix
        invariant Printing(v, radix, ii.Value(), sz[i..255])
        decreases i
      {
        ghost var printed := sz[i..255];
        var q := ii.Div(aux, r);
        PrintDigit(v, radix, ii.Value(), q.Value(), r.Value(), printed);
        var c := r.LowDigit();
        ii.Assign(q);
        i := i - 1;
        sz[i] := DigitChar(c);
        assert sz[i..255] == [DigitChar(c)] + printed;
      }
      PrintDone(v, radix, ii.Value(), sz[i..255]);
    }

    // toInt, converted to unsigned, of a digit or of the most negative number.
    function LowDigit(): (c: nat)
      reads this
      requires 0 <= Value() < 37 || Value() == -LIMIT
      ensures c == if Value() == -LIMIT then 0 else Value()
    {
      lo % UINT_SIZE
    }

    method Set(sz: string)
      modifies this
      ensures Value() == Wrap(Parse(sz))
    {
      lo, hi := 0, 0;
      if |sz| == 0 {
        return;
      }
      var radix := 10;
      var i := 0;
      var minus := false;
      if CharAt(sz, i) == '-' {
        i := i + 1;
        minus := true;
      }
      if CharAt(sz, i) == '0' {
        radix := 8;
        i := i + 1;
        if CharAt(sz, i) == 'x' {
          radix := 16;
          i := i + 1;
        }
      }
      ghost var n := ParseFrom(sz, i, radix, 0);
      assert Parse(sz) == if minus then -n else n;
      hide *;
      ReadDigits(sz, i, radix);
      if minus {
        WrapAdd(0, -n);
        WrapNegate(n);
        var zero := new Int128.Of(0);
        zero.SubAssign(this);
        Assign(zero);
      }
    }

    // The digit loop of set.
    method ReadDigits(sz: string, start: nat, radix: nat)
      requires 8 <= radix <= 16 && Value() == 0
      modifies this
      ensures Value() == Wrap(ParseFrom(sz, start, radix, 0))
    {
      assert 16 < HALF && 16 < WORD;
      hide *;
      ghost var whole := ParseFrom(sz, start, radix, 0);
      var i := start;
      while i < |sz|
        invariant Wrap(whole) == Wrap(ParseFrom(sz, i, radix, Value()))
      {
        var n := DigitOf(sz[i], radix);
        if n < 0 {
          break;
        }
        ghost var acc := Value();
        ParseDigit(sz, i, radix, acc, n);
        WrapAdd(acc * radix, n);
        var r := new Int128.Of(radix);
        var d := new Int128.Of(n);
        MulAssign(r);
        AddAssign(d);
        WrapTwice(acc * radix + n);
        ParseWraps(sz, i + 1, radix, acc * radix + n, Value());
        i := i + 1;
      }
      ParseStop(sz, i, radix, Value());
    }
  }
}
