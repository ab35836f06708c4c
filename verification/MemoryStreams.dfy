// A bit stream in memory: a writer that appends to a byte vector and a reader that undoes it.
module MemoryStreams {
  import opened Powers
  import opened Words

  type uint8 = x: int | 0 <= x < 256

  // ----- Bits of numbers, most significant first -----

  function NumBits(v: nat, n: nat): (bits: seq<bool>)
    ensures |bits| == n
    decreases n
  {
    if n == 0 then [] else NumBits(v / 2, n - 1) + [v % 2 == 1]
  }

  function FromBits(bits: seq<bool>): nat {
    if |bits| == 0 then 0
    else 2 * FromBits(bits[..|bits| - 1]) + (if bits[|bits| - 1] then 1 else 0)
  }

  lemma {:induction false} NumberBack(v: nat, n: nat)
    requires v < Pow2(n)
    ensures FromBits(NumBits(v, n)) == v
    decreases n
  {
    if n > 0 {
      NumberBack(v / 2, n - 1);
      assert NumBits(v, n)[..n - 1] == NumBits(v / 2, n - 1);
    }
  }

  lemma {:induction false} BitsBack(bits: seq<bool>)
    ensures FromBits(bits) < Pow2(|bits|)
    ensures NumBits(FromBits(bits), |bits|) == bits
  {
    if |bits| > 0 {
      BitsBack(bits[..|bits| - 1]);
      assert bits == bits[..|bits| - 1] + [bits[|bits| - 1]];
    }
  }

  lemma {:induction false} SplitBits(v: nat, m: nat, n: nat)
    ensures NumBits(v, m + n) == NumBits(Shr(v, n), m) + NumBits(v, n)
    decreases n
  {
    if n == 0 {
      assert v / 1 == v;
    } else {
      SplitBits(v / 2, m, n - 1);
      HalfOf(v, n);
      assert NumBits(v, m + n) == NumBits(v / 2, m + n - 1) + [v % 2 == 1];
    }
  }

  // Only the low n bits matter.
  lemma {:induction false} LowBits(v: nat, n: nat)
    ensures NumBits(v % Pow2(n), n) == NumBits(v, n)
    decreases n
  {
    if n > 0 {
      var p := Pow2(n - 1);
      HalfMod(v, p);
      LowBits(v / 2, n - 1);
      assert v % Pow2(n) / 2 == v / 2 % p;
    }
  }

  lemma {:induction false} BitOfNumber(v: nat, n: nat, i: nat)
    requires i < n
    ensures NumBits(v, n)[i] <==> Bit(v, n - 1 - i) == 1
    decreases n
  {
    if i == n - 1 {
      assert Pow2(0) == 1 && v / 1 == v;
    } else {
      BitOfNumber(v / 2, n - 1, i);
      BitOfHalf(v, n - 1 - i);
    }
  }

  // The bits of a byte vector.
  function AllBits(data: seq<uint8>): (bits: seq<bool>)
    ensures |bits| == 8 * |data|
  {
    if |data| == 0 then [] else AllBits(data[..|data| - 1]) + NumBits(data[|data| - 1], 8)
  }

  lemma {:induction false} AllBitsAt(data: seq<uint8>, q: nat)
    requires q < |data|
    ensures AllBits(data)[8 * q..8 * q + 8] == NumBits(data[q], 8)
    decreases |data|
  {
    if q < |data| - 1 {
      AllBitsAt(data[..|data| - 1], q);
      assert AllBits(data)[8 * q..8 * q + 8] == AllBits(data[..|data| - 1])[8 * q..8 * q + 8];
    }
  }

  lemma AllBitsPush(data: seq<uint8>, x: uint8)
    ensures AllBits(data + [x]) == AllBits(data) + NumBits(x, 8)
  {
    assert (data + [x])[..|data|] == data;
  }

  lemma {:induction false} AllBitsJoin(a: seq<uint8>, b: seq<uint8>)
    ensures AllBits(a + b) == AllBits(a) + AllBits(b)
  {
    hide *;
    if |b| == 0 {
      NoBytes();
      assert a + b == a && b == [];
    } else {
      var c, x := b[..|b| - 1], b[|b| - 1];
      AllBitsJoin(a, c);
      AllBitsPush(a + c, x);
      AllBitsPush(c, x);
      assert b == c + [x];
      Regroup(a, c, [x]);
      Regroup(AllBits(a), AllBits(c), NumBits(x, 8));
    }
  }

  lemma NoBytes()
    ensures AllBits([]) == []
  {
  }

  lemma Regroup<T>(a: seq<T>, b: seq<T>, c: seq<T>)
    ensures a + b + c == a + (b + c)
  {
  }

  // A text with its zero.
  function Terminated(s: seq<uint8>): (t: seq<uint8>)
    ensures |t| == |s| + 1
  {
    s + [0]
  }

  // ----- Bits of a byte -----

  lemma Pow256()
    ensures Pow2(8) == 256
  {
  }

  // A byte whose low 8 - i bits are clear takes one more bit.
  lemma AddBit(x: uint8, i: nat)
    requires i < 8 && x % Pow2(8 - i) == 0
    ensures Or(x, Pow2(7 - i)) == x + Pow2(7 - i) < 256
    ensures (x + Pow2(7 - i)) % Pow2(7 - i) == 0 && x % Pow2(7 - i) == 0
    ensures NumBits(x, 8)[..i] + [true] == NumBits(x + Pow2(7 - i), 8)[..i + 1]
    ensures NumBits(x, 8)[..i] + [false] == NumBits(x, 8)[..i + 1]
  {
    Pow256();
    var p := Pow2(7 - i);
    AddBitNumbers(x, p);
    OrDisjoint(x, p, 8 - i);
    PowMono(7 - i, 7);
    OrBound(x, p, 8);
    TopBits(x, i);
    TopBits(x, i + 1);
    TopBits(x + p, i + 1);
    BitsStep(x / p, i);
    BitsStep(x / p + 1, i);
    assert Shr(x, 8 - i) == x / (2 * p) && Shr(x, 7 - i) == x / p && Shr(x + p, 7 - i) == x / p + 1;
    hide Or, Pow2, NumBits, Shr;
  }

  lemma TopBits(x: nat, i: nat)
    requires i <= 8
    ensures NumBits(x, 8)[..i] == NumBits(Shr(x, 8 - i), i)
  {
    SplitBits(x, i, 8 - i);
  }

  lemma BitsStep(v: nat, i: nat)
    ensures NumBits(v, i + 1) == NumBits(v / 2, i) + [v % 2 == 1]
  {
  }

  lemma AddBitNumbers(x: nat, p: nat)
    requires p > 0 && x % (2 * p) == 0
    ensures x % p == 0 && (x + p) % p == 0
    ensures x / p % 2 == 0 && (x + p) / p == x / p + 1
    ensures x / p / 2 == x / (2 * p) && (x / p + 1) / 2 == x / (2 * p)
  {
    var q := x / (2 * p);
    Quotient(x, 2 * p);
    TwiceProduct(q, p);
    DivUnique(x, p, 2 * q, 0);
    DivUnique(x + p, p, 2 * q + 1, 0);
  }

  // The tested bit of a byte.
  lemma TestBit(x: uint8, i: nat)
    requires i < 8
    ensures And(x, Pow2(7 - i)) != 0 <==> NumBits(x, 8)[i]
  {
    AndPow(x, 7 - i);
    BitOfNumber(x, 8, i);
  }

  // The end of one byte and the start of the next make a byte.
  lemma Straddle(a: uint8, b: uint8, n: nat)
    requires 0 < n < 8
    ensures var r := Or(Shl(a, n) % 256, Shr(b, 8 - n));
            r < 256 && NumBits(r, 8) == NumBits(a, 8)[n..] + NumBits(b, 8)[..n]
  {
    var p, q := Pow2(n), Pow2(8 - n);
    PowAdd(n, 8 - n);
    Pow256();
    StraddleNumbers(a, b, p, q);
    var c, d := a % q, Shr(b, 8 - n);
    OrDisjoint(c * p, d, n);
    SplitBits(c * p + d, 8 - n, n);
    LowBits(c * p + d, n);
    LowBits(a, 8 - n);
    SplitBits(a, n, 8 - n);
    SplitBits(b, n, 8 - n);
  }

  lemma QuotientLess(b: nat, p: nat, q: nat)
    requires q > 0 && b < p * q
    ensures b / q < p
  {
    Quotient(b, q);
    if b / q >= p {
      MulGe(b / q, p, q);
    }
  }

  lemma StraddleNumbers(a: uint8, b: uint8, p: nat, q: nat)
    requires p > 0 && q > 0 && p * q == 256
    ensures a * p % 256 == a % q * p && b / q < p
    ensures var r := a % q * p + b / q;
            0 <= a % q * p && a % q * p % p == 0 && r < 256 && r / p == a % q && r % p == b / q
  {
    Quotient(a, q);
    QuotientLess(b, p, q);
    QuotientRange(b, q);
    var c, d := a % q, b / q;
    CutHigh(a, a / q, c, p, q);
    MulGe(c, 0, p);
    DivMul(c, p);
    DivUnique(c * p + d, p, c, d);
  }

  lemma CutHigh(a: nat, e: nat, c: nat, p: nat, q: nat)
    requires p > 0 && q > 0 && p * q == 256 && a == e * q + c && c < q
    ensures a * p % 256 == c * p && c * p <= 256 - p
  {
    MulGe(q - 1, c, p);
    MulGe(c, 0, p);
    assert (q - 1) * p == 256 - p;
    assert (e * q + c) * p == e * (p * q) + c * p;
    DivUnique(a * p, 256, e, c * p);
  }

  // ----- Growing the bit stream -----

  // The bytes hold length bits, and the unused low bits of the last byte are clear.
  predicate Padded(data: seq<uint8>, length: nat) {
    && 8 * |data| - 8 < length <= 8 * |data|
    && (|data| > 0 ==> data[|data| - 1] % Pow2(8 * |data| - length) == 0)
  }

  function Held(data: seq<uint8>, length: nat): (bits: seq<bool>)
    requires length <= 8 * |data|
    ensures |bits| == length
  {
    AllBits(data)[..length]
  }

  lemma LastByte(a: seq<uint8>, last: uint8, k: nat)
    requires k <= 8
    ensures Held(a + [last], 8 * |a| + k) == AllBits(a) + NumBits(last, 8)[..k]
  {
    AllBitsPush(a, last);
  }

  lemma PaddedLast(a: seq<uint8>, last: uint8, k: nat)
    requires 0 < k <= 8 && last % Pow2(8 - k) == 0
    ensures Padded(a + [last], 8 * |a| + k)
  {
  }

  lemma PaddedFull(data: seq<uint8>)
    ensures Padded(data, 8 * |data|)
  {
    assert Pow2(0) == 1;
  }

  lemma AlignedLength(data: seq<uint8>, length: nat)
    requires Padded(data, length) && length % 8 == 0
    ensures length == 8 * |data|
  {
  }

  lemma AllHeld(data: seq<uint8>)
    ensures Held(data, 8 * |data|) == AllBits(data)
  {
  }

  // Opening a new byte for the next bit.
  lemma NewByte(data: seq<uint8>, length: nat)
    requires Padded(data, length) && length % 8 == 0
    ensures length == 8 * |data| && Held(data + [0], length) == Held(data, length)
  {
    AllBitsPush(data, 0);
  }

  // One more bit in a byte with room for it.
  lemma BitAdded(a: seq<uint8>, last: uint8, i: nat, value: bool)
    requires i < 8 && last % Pow2(8 - i) == 0
    ensures var last' := if value then Or(last, Pow2(7 - i)) else last;
            && last' < 256 && Padded(a + [last'], 8 * |a| + i + 1)
            && Held(a + [last'], 8 * |a| + i + 1) == Held(a + [last], 8 * |a| + i) + [value]
  {
    hide *;
    AddBit(last, i);
    var last' := if value then Or(last, Pow2(7 - i)) else last;
    LastByte(a, last, i);
    LastByte(a, last', i + 1);
    PaddedLast(a, last', i + 1);
    Regroup(AllBits(a), NumBits(last, 8)[..i], [value]);
  }

  lemma BytesAdded(data: seq<uint8>, length: nat, bytes: seq<uint8>)
    requires Padded(data, length) && length % 8 == 0
    ensures Padded(data + bytes, length + 8 * |bytes|)
    ensures Held(data + bytes, length + 8 * |bytes|) == Held(data, length) + AllBits(bytes)
  {
    hide *;
    AlignedLength(data, length);
    AllBitsJoin(data, bytes);
    AllHeld(data);
    AllHeld(data + bytes);
    PaddedFull(data + bytes);
  }

  // A byte written over the middle of a byte: its upper half goes to the lower half of the
  // last byte and its lower half to a new one.
  lemma ByteAdded(a: seq<uint8>, last: uint8, value: uint8)
    requires last % 16 == 0
    ensures Or(last, value / 16) < 256
    ensures var data' := a + [Or(last, value / 16)] + [value % 16 * 16];
            && Padded(data', 8 * |a| + 12)
            && Held(data', 8 * |a| + 12) == Held(a + [last], 8 * |a| + 4) + NumBits(value, 8)
  {
    hide *;
    OrHalf(last, value);
    Halves(last, value);
    HalfEnd(value);
    PaddedLast(a + [last + value / 16], value % 16 * 16, 4);
    var first, second := last + value / 16, value % 16 * 16;
    LastByte(a, last, 4);
    LastByte(a + [first], second, 4);
    AllBitsPush(a, first);
    var p, v := NumBits(last, 8)[..4], NumBits(value, 8);
    Regroup(AllBits(a), p, v[..4]);
    Regroup(AllBits(a) + p, v[..4], v[4..]);
    assert v[..4] + v[4..] == v;
  }

  lemma ZeroRest(i: nat)
    requires i <= 8
    ensures 0 % Pow2(8 - i) == 0
  {
    DivUnique(0, Pow2(8 - i), 0, 0);
  }

  lemma OneByte(x: uint8)
    ensures AllBits([x]) == NumBits(x, 8)
  {
    AllBitsPush([], x);
    assert [] + [x] == [x];
    assert AllBits([]) + NumBits(x, 8) == NumBits(x, 8);
  }

  // What writeByte puts in the last byte and in the new one when l1 bits are taken.
  function UpperPart(value: uint8, l1: nat): (r: uint8)
    requires 0 < l1 < 8
    ensures r == value / Pow2(8 - l1)
  {
    var l2 := 8 - l1;
    PowAdd(8, l2);
    Pow256();
    PowMono(8, 8 + l2);
    AndHigh(value, l2, 8 + l2);
    Quotient(value, Pow2(l2));
    DivMul(value / Pow2(l2), Pow2(l2));
    QuotientRange(value, Pow2(l2));
    Shr(And(value, Shl(255, l2)), l2)
  }

  function LowerPart(value: uint8, l1: nat): (r: uint8)
    requires 0 < l1 < 8
    ensures r == value % Pow2(8 - l1) * Pow2(l1)
  {
    LowMask(l1);
    AndLow(value, 8 - l1);
    LowerFits(value, l1);
    Shl(And(value, Shr(255, l1)), l1)
  }

  lemma LowerFits(value: nat, l1: nat)
    requires 0 < l1 < 8
    ensures 0 <= value % Pow2(8 - l1) * Pow2(l1) < 256
  {
    PowAdd(l1, 8 - l1);
    Pow256();
    hide *;
    var p, q := Pow2(l1), Pow2(8 - l1);
    Quotient(value, q);
    CutHigh(value, value / q, value % q, p, q);
    MulGe(value % q, 0, p);
  }

  lemma LowMask(l1: nat)
    requires 0 < l1 < 8
    ensures Shr(255, l1) == Pow2(8 - l1) - 1
  {
    var p, q := Pow2(l1), Pow2(8 - l1);
    PowAdd(8 - l1, l1);
    Pow256();
    assert (q - 1) * p == 256 - p;
    DivUnique(255, p, q - 1, p - 1);
  }

  // The two parts are the byte in its place, for every byte, only half way through a byte.
  lemma WriteByteExactly(l1: nat)
    requires 0 < l1 < 8
    ensures (forall value: uint8 :: UpperPart(value, l1) == value / Pow2(l1)
                                    && LowerPart(value, l1) == value % Pow2(l1) * Pow2(8 - l1))
            <==> l1 == 4
  {
    if l1 != 4 {
      hide UpperPart, LowerPart;
      PowAdd(l1, 8 - l1);
      Pow256();
      PowDiffers(l1);
      HighNumbers(Pow2(l1), Pow2(8 - l1));
      assert LowerPart(255, l1) == 256 - Pow2(l1);
    } else {
      assert Pow2(8 - l1) == Pow2(l1);
    }
  }

  lemma HighNumbers(p: nat, q: nat)
    requires p > 0 && q > 0 && p * q == 256
    ensures 255 % q * p == 256 - p && 255 % p * q == 256 - q
  {
    assert (q - 1) * p == 256 - p && (p - 1) * q == 256 - q;
    DivUnique(255, q, p - 1, q - 1);
    DivUnique(255, p, q - 1, p - 1);
  }

  lemma PowDiffers(l1: nat)
    requires 0 < l1 < 8 && l1 != 4
    ensures Pow2(l1) != Pow2(8 - l1)
  {
    if l1 < 4 {
      PowMono(l1 + 1, 8 - l1);
    } else {
      PowMono(9 - l1, l1);
    }
  }

  lemma HalfParts(value: uint8)
    ensures UpperPart(value, 4) == value / 16 && LowerPart(value, 4) == value % 16 * 16
  {
    assert Pow2(4) == 16;
  }

  lemma OrHalf(last: uint8, value: uint8)
    requires last % 16 == 0
    ensures Or(last, value / 16) == last + value / 16
  {
    assert Pow2(4) == 16;
    OrDisjoint(last, value / 16, 4);
  }

  lemma HalfAligned(data: seq<uint8>, length: nat)
    requires Padded(data, length) && length % 8 == 4
    ensures |data| > 0 && length == 8 * |data| - 4 && data[|data| - 1] % 16 == 0
  {
    assert Pow2(4) == 16;
  }

  predicate Room(data: seq<uint8>, length: nat) {
    8 * |data| - 8 < length <= 8 * |data|
  }

  lemma OrByte(x: uint8, y: uint8)
    ensures Or(x, y) < 256
  {
    Pow256();
    OrBound(x, y, 8);
  }

  // A byte stored behind the last bit; the bits it shares a byte with stay set.
  function WithByte(data: seq<uint8>, length: nat, value: uint8): (r: seq<uint8>)
    requires Room(data, length)
    ensures Room(r, length + 8)
  {
    var k, n := length % 8, |data| - 1;
    if k == 0 then data + [value]
    else
      OrByte(data[n], UpperPart(value, k));
      data[..n] + [Or(data[n], UpperPart(value, k)), LowerPart(value, k)]
  }

  // The first n of the bytes, one after the other.
  function WithBytes(data: seq<uint8>, length: nat, bytes: seq<uint8>, n: nat): (r: seq<uint8>)
    requires Room(data, length) && n <= |bytes|
    ensures Room(r, length + 8 * n)
  {
    if n == 0 then data
    else WithByte(WithBytes(data, length, bytes, n - 1), length + 8 * (n - 1), bytes[n - 1])
  }

  lemma PaddedRoom(data: seq<uint8>, length: nat)
    requires Padded(data, length)
    ensures Room(data, length)
  {
  }

  lemma TwoBytes(a: seq<uint8>, x: uint8, y: uint8)
    ensures a + [x] + [y] == a + [x, y]
  {
  }

  lemma WithByteHeld(data: seq<uint8>, length: nat, value: uint8)
    requires Padded(data, length) && length % 4 == 0
    ensures Room(data, length) && Padded(WithByte(data, length, value), length + 8)
    ensures Held(WithByte(data, length, value), length + 8) == Held(data, length) + NumBits(value, 8)
  {
    hide AllBits, Held, Or, And, NumBits, Pow2, Padded, UpperPart, LowerPart;
    PaddedRoom(data, length);
    if length % 8 == 0 {
      BytesAdded(data, length, [value]);
      OneByte(value);
    } else {
      HalfAligned(data, length);
      var a, last := data[..|data| - 1], data[|data| - 1];
      assert data == a + [last];
      HalfParts(value);
      ByteAdded(a, last, value);
      TwoBytes(a, Or(last, value / 16), value % 16 * 16);
    }
  }

  // The low n bytes of a number, the most significant one first or last.
  function BeBytes(v: nat, n: nat): (bytes: seq<uint8>)
    ensures |bytes| == n
  {
    seq(n, k requires 0 <= k < n => Shr(v, 8 * (n - 1 - k)) % 256)
  }

  function LeBytes(v: nat, n: nat): (bytes: seq<uint8>)
    ensures |bytes| == n
  {
    seq(n, k requires 0 <= k < n => Shr(v, 8 * k) % 256)
  }

  lemma WithBegin(data: seq<uint8>, length: nat, bytes: seq<uint8>)
    requires Room(data, length)
    ensures WithBytes(data, length, bytes, 0) == data
  {
  }

  lemma BeNextByte(data: seq<uint8>, length: nat, v: nat, n: nat, i: nat)
    requires Room(data, length) && i < n
    ensures var was := WithBytes(data, length, BeBytes(v, n), n - 1 - i);
            && Room(was, length + 8 * (n - 1 - i))
            && WithBytes(data, length, BeBytes(v, n), n - i)
               == WithByte(was, length + 8 * (n - 1 - i), Shr(v, 8 * i) % 256)
  {
    hide WithByte, Shr;
  }

  lemma LeNextByte(data: seq<uint8>, length: nat, v: nat, n: nat, i: nat)
    requires Room(data, length) && i < n
    ensures var was := WithBytes(data, length, LeBytes(v, n), i);
            && Room(was, length + 8 * i)
            && WithBytes(data, length, LeBytes(v, n), i + 1) == WithByte(was, length + 8 * i, Shr(v, 8 * i) % 256)
  {
    hide WithByte, Shr;
  }

  lemma HalfEnd(value: uint8)
    ensures value % 16 * 16 % Pow2(4) == 0
  {
    assert Pow2(4) == 16;
  }

  lemma Halves(last: uint8, value: uint8)
    requires last % 16 == 0
    ensures last + value / 16 < 256
    ensures NumBits(last + value / 16, 8) == NumBits(last, 8)[..4] + NumBits(value, 8)[..4]
    ensures NumBits(value % 16 * 16, 8)[..4] == NumBits(value, 8)[4..]
  {
    hide *;
    var x, y := last + value / 16, value % 16 * 16;
    Nibbles(x);
    Nibbles(last);
    Nibbles(value);
    Nibbles(y);
    assert x / 16 == last / 16 && x % 16 == value / 16;
    assert y / 16 == value % 16 && y < 256;
  }

  lemma Nibbles(x: uint8)
    ensures NumBits(x, 8) == NumBits(x / 16, 4) + NumBits(x % 16, 4)
  {
    assert Pow2(4) == 16;
    SplitBits(x, 4, 4);
    LowBits(x, 4);
  }

  // ----- Numbers of several bytes -----

  // The bits of the n low bytes, least significant byte first.
  function LeBits(v: nat, n: nat): (bits: seq<bool>)
    ensures |bits| == 8 * n
    decreases n
  {
    if n == 0 then [] else LeBits(v, n - 1) + NumBits(Shr(v, 8 * (n - 1)) % 256, 8)
  }

  lemma NoBits(c: seq<bool>, v: nat)
    ensures c + NumBits(v, 0) == c
  {
  }

  lemma AllShifted(v: nat)
    ensures Shr(v, 0) == v
  {
  }

  lemma NextByte(c: seq<bool>, v: nat, i: nat, m: nat)
    requires m > 0
    ensures c + NumBits(Shr(v, 8 * (i + 1)), 8 * (m - 1)) + NumBits(Shr(v, 8 * i) % 256, 8)
            == c + NumBits(Shr(v, 8 * i), 8 * m)
  {
    hide *;
    var w := Shr(v, 8 * i);
    ShiftByte(v, i);
    ByteEnd(w, m);
    Regroup(c, NumBits(w / 256, 8 * (m - 1)), NumBits(w, 8));
  }

  lemma ShiftByte(v: nat, i: nat)
    ensures Shr(v, 8 * (i + 1)) == Shr(v, 8 * i) / 256
  {
    Pow256();
    PowAdd(8 * i, 8);
    hide Pow2;
    DivDiv(v, Pow2(8 * i), 256);
  }

  lemma ByteEnd(w: nat, m: nat)
    requires m > 0
    ensures NumBits(w, 8 * m) == NumBits(w / 256, 8 * (m - 1)) + NumBits(w, 8)
    ensures NumBits(w % 256, 8) == NumBits(w, 8)
  {
    Pow256();
    SplitBits(w, 8 * (m - 1), 8);
    LowBits(w, 8);
  }

  lemma LeNext(c: seq<bool>, v: nat, i: nat)
    ensures c + LeBits(v, i) + NumBits(Shr(v, 8 * i) % 256, 8) == c + LeBits(v, i + 1)
  {
    Regroup(c, LeBits(v, i), NumBits(Shr(v, 8 * i) % 256, 8));
  }

  lemma TerminatedBits(s: seq<uint8>)
    ensures AllBits(Terminated(s)) == AllBits(s) + NumBits(0, 8)
  {
    AllBitsPush(s, 0);
  }

  lemma StillAligned(length: nat, n: nat)
    requires length % 8 == 0
    ensures (length + 8 * n) % 4 == 0
  {
    DivUnique(length + 8 * n, 4, 2 * (length / 8) + 2 * n, 0);
  }

  lemma TwoBits(v: uint8)
    ensures And(v, 2) != 0 <==> Bit(v, 1) == 1
    ensures And(v, 1) != 0 <==> Bit(v, 0) == 1
    ensures NumBits(v, 2) == [Bit(v, 1) == 1] + [Bit(v, 0) == 1]
  {
    assert Pow2(1) == 2 && Pow2(0) == 1;
    AndPow(v, 1);
    AndPow(v, 0);
    BitOfNumber(v, 2, 0);
    BitOfNumber(v, 2, 1);
  }

  lemma FourBits(v: uint8)
    ensures And(v, 8) != 0 <==> Bit(v, 3) == 1
    ensures And(v, 4) != 0 <==> Bit(v, 2) == 1
    ensures And(v, 2) != 0 <==> Bit(v, 1) == 1
    ensures And(v, 1) != 0 <==> Bit(v, 0) == 1
    ensures NumBits(v, 4) == [Bit(v, 3) == 1, Bit(v, 2) == 1, Bit(v, 1) == 1, Bit(v, 0) == 1]
  {
    TwoBits(v);
    assert Pow2(3) == 8 && Pow2(2) == 4;
    AndPow(v, 3);
    AndPow(v, 2);
    BitOfNumber(v, 4, 0);
    BitOfNumber(v, 4, 1);
    BitOfNumber(v, 4, 2);
    BitOfNumber(v, 4, 3);
  }

  lemma MaskedBit(c: seq<bool>, v: nat, n: nat, i: nat)
    requires i < n
    ensures c + NumBits(v, n)[..i] + [And(v, Pow2(n - 1 - i)) != 0] == c + NumBits(v, n)[..i + 1]
  {
    AndPow(v, n - 1 - i);
    BitOfNumber(v, n, i);
  }

  class MemoryOutputStream {
    var data: seq<uint8>
    var length: nat

    ghost predicate Valid()
      reads this
      ensures Valid() ==> Sized()
    {
      Padded(data, length)
    }

    // The bits written so far.
    ghost function Contents(): (bits: seq<bool>)
      reads this
      requires Valid()
      ensures |bits| == length
    {
      Held(data, length)
    }

    constructor ()
      ensures Valid() && Contents() == []
    {
      data, length := [], 0;
    }

    method WriteBit(value: bool)
      requires Valid()
      modifies this
      ensures Valid() && Contents() == old(Contents()) + [value]
    {
      hide AllBits, Held, Or, Pow2;
      var byteIndex, bitIndex := length / 8, length % 8;
      if bitIndex == 0 {
        NewByte(data, length);
        data := data + [0];
      }
      ghost var a, last := data[..byteIndex], data[byteIndex];
      assert data == a + [last];
      ZeroRest(bitIndex);
      BitAdded(a, last, bitIndex, value);
      if value {
        data := data[byteIndex := Or(data[byteIndex], Pow2(7 - bitIndex))];
        assert data == a + [Or(last, Pow2(7 - bitIndex))];
      }
      length := length + 1;
    }

    // There are as many bytes as the bits need, whatever is behind the last bit.
    ghost predicate Sized()
      reads this
    {
      Room(data, length)
    }

    // Inside a byte its two parts go where the shifts take them, which is their place at
    // half a byte.
    method WriteByte(value: uint8)
      requires Sized()
      modifies this
      ensures Sized() && length == old(length) + 8
      ensures data == WithByte(old(data), old(length), value)
      ensures old(Valid() && length % 4 == 0) ==> Valid() && Contents() == old(Contents()) + NumBits(value, 8)
    {
      hide AllBits, Held, Or, And, NumBits, Pow2, Padded, UpperPart, LowerPart;
      ghost var was := data;
      if Padded(data, length) && length % 4 == 0 {
        WithByteHeld(data, length, value);
      }
      var l1 := length % 8;
      if l1 == 0 {
        data := data + [value];
      } else {
        OrByte(data[|data| - 1], UpperPart(value, l1));
        data := data[|data| - 1 := Or(data[|data| - 1], UpperPart(value, l1))];
        data := data + [LowerPart(value, l1)];
        assert data == WithByte(was, length, value);
      }
      length := length + 8;
    }

    method WriteBytes(bytes: seq<uint8>)
      requires Valid() && length % 8 == 0
      modifies this
      ensures Valid() && Contents() == old(Contents()) + AllBits(bytes)
    {
      hide AllBits, Held, Padded;
      BytesAdded(data, length, bytes);
      data := data + bytes;
      length := length + 8 * |bytes|;
    }

    method WriteUint2(value: uint8)
      requires Valid()
      modifies this
      ensures Valid() && Contents() == old(Contents()) + NumBits(value, 2)
    {
      hide *;
      TwoBits(value);
      WriteBit(And(value, 2) != 0);
      WriteBit(And(value, 1) != 0);
      Regroup(old(Contents()), [Bit(value, 1) == 1], [Bit(value, 0) == 1]);
    }

    method WriteUint4(value: uint8)
      requires Valid()
      modifies this
      ensures Valid() && Contents() == old(Contents()) + NumBits(value, 4)
    {
      hide *;
      FourBits(value);
      ghost var c := Contents();
      ghost var b3, b2, b1, b0 := Bit(value, 3) == 1, Bit(value, 2) == 1, Bit(value, 1) == 1, Bit(value, 0) == 1;
      WriteBit(And(value, 8) != 0);
      WriteBit(And(value, 4) != 0);
      WriteBit(And(value, 2) != 0);
      WriteBit(And(value, 1) != 0);
      assert c + [b3] + [b2] + [b1] + [b0] == c + [b3, b2, b1, b0];
    }

    // writeUint16Be to writeUint64Be, for n bytes.
    method WriteUintBe(value: nat, n: nat)
      requires Sized()
      modifies this
      ensures Sized() && length == old(length) + 8 * n
      ensures data == WithBytes(old(data), old(length), BeBytes(value, n), n)
      ensures old(Valid() && length % 4 == 0) ==> Valid() && Contents() == old(Contents()) + NumBits(value, 8 * n)
    {
      hide AllBits, Held, NumBits, Pow2, Padded, Shr, WithByte, WithBytes, BeBytes, LeBytes, Contents;
      ghost var good, was, l := Valid() && length % 4 == 0, data, length;
      ghost var c := if good then Contents() else [];
      NoBits(c, Shr(value, 8 * n));
      WithBegin(was, l, BeBytes(value, n));
      var i := n;
      while i > 0
        invariant 0 <= i <= n && Sized() && length == l + 8 * (n - i)
        invariant data == WithBytes(was, l, BeBytes(value, n), n - i)
        invariant good ==> Valid() && length % 4 == 0 && Contents() == c + NumBits(Shr(value, 8 * i), 8 * (n - i))
      {
        i := i - 1;
        NextByte(c, value, i, n - i);
        BeNextByte(was, l, value, n, i);
        WriteByte(Shr(value, 8 * i) % 256);
      }
      AllShifted(value);
    }

    // writeUint16Le to writeUint64Le, for n bytes.
    method WriteUintLe(value: nat, n: nat)
      requires Sized()
      modifies this
      ensures Sized() && length == old(length) + 8 * n
      ensures data == WithBytes(old(data), old(length), LeBytes(value, n), n)
      ensures old(Valid() && length % 4 == 0) ==> Valid() && Contents() == old(Contents()) + LeBits(value, n)
    {
      hide AllBits, Held, NumBits, Pow2, Padded, Shr, WithByte, WithBytes, BeBytes, LeBytes, Contents;
      ghost var good, was, l := Valid() && length % 4 == 0, data, length;
      ghost var c := if good then Contents() else [];
      WithBegin(was, l, LeBytes(value, n));
      assert c + [] == c;
      var i := 0;
      while i < n
        invariant 0 <= i <= n && Sized() && length == l + 8 * i
        invariant data == WithBytes(was, l, LeBytes(value, n), i)
        invariant good ==> Valid() && length % 4 == 0 && Contents() == c + LeBits(value, i)
      {
        LeNextByte(was, l, value, n, i);
        LeNext(c, value, i);
        WriteByte(Shr(value, 8 * i) % 256);
        i := i + 1;
      }
    }

    // A text without zero bytes, and a zero after it.
    method WriteString(s: seq<uint8>)
      requires Valid() && length % 8 == 0
      modifies this
      ensures Valid() && Contents() == old(Contents()) + AllBits(Terminated(s))
    {
      hide *;
      ghost var c := Contents();
      TerminatedBits(s);
      Regroup(c, AllBits(s), NumBits(0, 8));
      StillAligned(length, |s|);
      WriteBytes(s);
      assert length == |c| + 8 * |s|;
      WriteByte(0);
    }

    // The low n bits of a number; false for an error.
    method WriteNBits(value: nat, n: nat) returns (ok: bool)
      requires Valid() && (n <= 31 || n > 64)
      modifies this
      ensures Valid() && (ok <==> 0 < n <= 64)
      ensures Contents() == if ok then old(Contents()) + NumBits(value, n) else old(Contents())
    {
      if n == 0 || n > 64 {
        return false;
      }
      ghost var c := Contents();
      assert c + [] == c;
      var mul := Pow2(n - 1);
      var i := 0;
      hide AllBits, Held, Padded;
      while i < n
        invariant 0 <= i <= n && Valid()
        invariant i < n ==> mul == Pow2(n - 1 - i)
        invariant Contents() == c + NumBits(value, n)[..i]
      {
        MaskedBit(c, value, n, i);
        WriteBit(And(value, mul) != 0);
        mul := mul / 2;
        i := i + 1;
      }
      assert NumBits(value, n)[..n] == NumBits(value, n);
      return true;
    }
  }

  // ----- Reading -----

  // The bit at a position, and the byte from there on, in terms of the stored bytes.
  lemma StoredBit(data: seq<uint8>, length: nat, i: nat)
    requires i < length <= 8 * |data|
    ensures And(data[i / 8], Pow2(7 - i % 8)) != 0 <==> Held(data, length)[i]
  {
    hide And, Pow2, NumBits;
    var q, k := i / 8, i % 8;
    TestBit(data[q], k);
    AllBitsAt(data, q);
    hide AllBits;
    assert AllBits(data)[8 * q..8 * q + 8][k] == AllBits(data)[i];
  }

  lemma StoredByte(data: seq<uint8>, length: nat, q: nat)
    requires 8 * q + 8 <= length <= 8 * |data|
    ensures Held(data, length)[8 * q..8 * q + 8] == NumBits(data[q], 8)
  {
    AllBitsAt(data, q);
    hide AllBits, NumBits;
    assert AllBits(data)[..length][8 * q..8 * q + 8] == AllBits(data)[8 * q..8 * q + 8];
  }

  lemma StoredAcross(data: seq<uint8>, length: nat, q: nat, k: nat)
    requires 0 < k < 8 && 8 * q + k + 8 <= length <= 8 * |data|
    ensures Held(data, length)[8 * q + k..8 * q + k + 8] == NumBits(data[q], 8)[k..] + NumBits(data[q + 1], 8)[..k]
  {
    hide AllBits, NumBits;
    AllBitsAt(data, q);
    AllBitsAt(data, q + 1);
    SliceAcross(AllBits(data), length, 8 * q, k);
  }

  lemma SliceAcross(a: seq<bool>, length: nat, i: nat, k: nat)
    requires k < 8 && i + k + 8 <= length <= |a| && i + 16 <= |a|
    ensures a[..length][i + k..i + k + 8] == a[i..i + 8][k..] + a[i + 8..i + 16][..k]
  {
  }

  // ----- Reading past the end -----

  function Zeros(n: nat): (z: seq<bool>)
    ensures |z| == n
  {
    seq(n, _ => false)
  }

  // The n bits from a position on, as if zeros stood behind the end.
  function Filled(c: seq<bool>, p: nat, n: nat): (bits: seq<bool>)
    requires p <= |c|
    ensures |bits| == n
  {
    (c + Zeros(n))[p..p + n]
  }

  // The n bytes from a position on; all are zero from the first that is not whole.
  function Fetched(c: seq<bool>, p: nat, n: nat): (bits: seq<bool>)
    requires p <= |c|
    ensures |bits| == 8 * n
  {
    var m := (|c| - p) / 8;
    if n <= m then c[p..p + 8 * n] else c[p..p + 8 * m] + Zeros(8 * (n - m))
  }

  // The next bit, read at the position that i bits have led to.
  lemma FilledBit(c: seq<bool>, p: nat, n: nat, i: nat, q: nat)
    requires p <= |c| && i < n && q == if p + i <= |c| then p + i else |c|
    ensures Filled(c, p, n)[i] == (q < |c| && c[q])
  {
  }

  lemma FetchedNone(c: seq<bool>, p: nat)
    requires p <= |c|
    ensures Fetched(c, p, 0) == []
  {
  }

  // The next byte, read at the position that n bytes have led to.
  lemma FetchedNext(c: seq<bool>, p: nat, n: nat, q: nat)
    requires p <= |c| && q == if p + 8 * n <= |c| then p + 8 * n else |c|
    ensures q + 8 <= |c| ==> Fetched(c, p, n + 1) == Fetched(c, p, n) + c[q..q + 8]
    ensures q + 8 > |c| ==> Fetched(c, p, n + 1) == Fetched(c, p, n) + NumBits(0, 8)
  {
    NoNumber();
    hide NumBits;
    var m := (|c| - p) / 8;
    if n < m {
      assert c[p..p + 8 * n] + c[q..q + 8] == c[p..p + 8 * (n + 1)];
    } else {
      assert Zeros(8 * (n - m)) + Zeros(8) == Zeros(8 * (n + 1 - m));
      assert n == m ==> c[p..p + 8 * m] + Zeros(0) == c[p..p + 8 * m];
    }
  }

  lemma NoNumber()
    ensures NumBits(0, 8) == Zeros(8)
  {
    forall k | 0 <= k < 8
      ensures !NumBits(0, 8)[k]
    {
      BitOfNumber(0, 8, k);
    }
  }

  class MemoryInputStream {
    const data: seq<uint8>
    const length: nat
    var position: nat
    var beyondEnd: bool

    ghost predicate Valid()
      reads this
    {
      position <= length <= 8 * |data|
    }

    ghost function Contents(): (bits: seq<bool>)
      requires length <= 8 * |data|
      ensures |bits| == length
    {
      Held(data, length)
    }

    // The next n bits.
    ghost function Ahead(n: nat): (bits: seq<bool>)
      reads this
      requires Valid() && position + n <= length
      ensures |bits| == n
    {
      Contents()[position..position + n]
    }

    // The position and the mark after a read of n bits from p.
    ghost predicate Moved(p: nat, beyond: bool, n: nat)
      reads this
    {
      if p + n <= length then position == p + n && beyondEnd == beyond else position == length && beyondEnd
    }

    constructor (data: seq<uint8>, length: nat)
      requires length <= 8 * |data|
      ensures Valid() && this.data == data && this.length == length && position == 0 && !beyondEnd
    {
      this.data, this.length, position, beyondEnd := data, length, 0, false;
    }

    method ReadBit() returns (r: bool)
      requires Valid()
      modifies this
      ensures Valid()
      ensures r == (old(position) < length && Contents()[old(position)])
      ensures Moved(old(position), old(beyondEnd), 1)
    {
      hide Held, And, Pow2;
      if position == length {
        beyondEnd := true;
        return false;
      }
      StoredBit(data, length, position);
      var byteIndex, bitIndex := position / 8, position % 8;
      position := position + 1;
      return And(data[byteIndex], Pow2(7 - bitIndex)) != 0;
    }

    method ReadByte() returns (r: uint8)
      requires Valid()
      modifies this
      ensures Valid()
      ensures old(position) + 8 <= length
              ==> NumBits(r, 8) == old(Ahead(8)) && position == old(position) + 8 && beyondEnd == old(beyondEnd)
      ensures old(position) + 8 > length ==> r == 0 && position == length && beyondEnd
    {
      hide Held, AllBits, NumBits, Or, Pow2, Shl, Shr;
      if position + 8 > length {
        beyondEnd := true;
        position := length;
        return 0;
      }
      var l1 := position % 8;
      ghost var q := position / 8;
      if l1 == 0 {
        StoredByte(data, length, q);
        r := data[position / 8];
      } else {
        var l2 := 8 - l1;
        StoredAcross(data, length, q, l1);
        var a, b := data[(position - l1) / 8], data[(position + l2) / 8];
        Straddle(a, b, l1);
        r := Or(Shl(a, l1) % 256, Shr(b, l2));
      }
      position := position + 8;
    }

    // readUint16Be to readUint64Be, for n bytes.
    method ReadUintBe(n: nat) returns (r: nat)
      requires Valid()
      modifies this
      ensures Valid()
      ensures r < Pow2(8 * n) && NumBits(r, 8 * n) == Fetched(Contents(), old(position), n)
      ensures Moved(old(position), old(beyondEnd), 8 * n)
    {
      hide Held, AllBits, NumBits, Or, Pow2, Shl, Fetched;
      ghost var w: nat, p := 0, position;
      r := 0;
      var i := n;
      BeStart(n);
      FetchedNone(Contents(), p);
      while i > 0
        invariant 0 <= i <= n && Valid()
        invariant Moved(p, old(beyondEnd), 8 * (n - i))
        invariant BeSoFar(r, w, i, n - i, Fetched(Contents(), p, n - i))
      {
        i := i - 1;
        FetchedNext(Contents(), p, n - i - 1, position);
        var x := ReadByte();
        BeNext(r, w, i, n - i, Fetched(Contents(), p, n - i - 1), x);
        w := 256 * w + x;
        r := Or(r, Shl(x, 8 * i));
      }
      BeEnd(r, w, n, Fetched(Contents(), p, n));
    }

    // readUint16Le to readUint64Le, for n bytes.
    method ReadUintLe(n: nat) returns (r: nat)
      requires Valid()
      modifies this
      ensures Valid()
      ensures r < Pow2(8 * n) && LeBits(r, n) == Fetched(Contents(), old(position), n)
      ensures Moved(old(position), old(beyondEnd), 8 * n)
    {
      hide Held, AllBits, NumBits, LeBits, Or, Pow2, Shl, Fetched;
      ghost var p := position;
      r := 0;
      LeStart();
      FetchedNone(Contents(), p);
      var i := 0;
      while i < n
        invariant 0 <= i <= n && Valid()
        invariant Moved(p, old(beyondEnd), 8 * i)
        invariant r < Pow2(8 * i) && LeBits(r, i) == Fetched(Contents(), p, i)
      {
        FetchedNext(Contents(), p, i, position);
        var x := ReadByte();
        LeGrows(r, i, x);
        r := Or(r, Shl(x, 8 * i));
        i := i + 1;
      }
    }

    method ReadUint2() returns (value: uint8)
      requires Valid()
      modifies this
      ensures Valid()
      ensures value < 4 && NumBits(value, 2) == Filled(Contents(), old(position), 2)
      ensures Moved(old(position), old(beyondEnd), 2)
    {
      hide NumBits, Held, Filled, Contents;
      ghost var c, p := Contents(), position;
      var v := 0;
      FilledBit(c, p, 2, 0, position);
      var b1 := ReadBit();
      v := if b1 then Or(v, 2) else v;
      FilledBit(c, p, 2, 1, position);
      var b0 := ReadBit();
      v := if b0 then Or(v, 1) else v;
      TwoBack(b1, b0);
      assert Filled(c, p, 2) == [b1, b0];
      value := v;
    }

    method ReadUint4() returns (value: uint8)
      requires Valid()
      modifies this
      ensures Valid()
      ensures value < 16 && NumBits(value, 4) == Filled(Contents(), old(position), 4)
      ensures Moved(old(position), old(beyondEnd), 4)
    {
      hide NumBits, Held, Or, Filled, Contents;
      ghost var c, p := Contents(), position;
      var v := 0;
      FilledBit(c, p, 4, 0, position);
      var b3 := ReadBit();
      v := if b3 then Or(v, 8) else v;
      FilledBit(c, p, 4, 1, position);
      var b2 := ReadBit();
      v := if b2 then Or(v, 4) else v;
      FilledBit(c, p, 4, 2, position);
      var b1 := ReadBit();
      v := if b1 then Or(v, 2) else v;
      FilledBit(c, p, 4, 3, position);
      var b0 := ReadBit();
      v := if b0 then Or(v, 1) else v;
      FourBack(b3, b2, b1, b0);
      assert Filled(c, p, 4) == [b3, b2, b1, b0];
      value := v;
    }

    // At most n bytes; fewer only at the end.
    method ReadBytes(n: nat) returns (bytes: seq<uint8>)
      requires Valid() && position % 8 == 0
      modifies this
      ensures Valid()
      ensures var m := if old(position) + 8 * n <= length then n else (length - old(position)) / 8;
              && position == old(position) + 8 * m && |bytes| == m && AllBits(bytes) == old(Ahead(8 * m))
              && beyondEnd == (old(beyondEnd) || m < n)
    {
      hide NumBits, AllBits;
      var m := n;
      if position + 8 * n > length {
        m := (length - position) / 8;
        beyondEnd := true;
      }
      StoredBytes(data, length, position / 8, m);
      bytes := data[position / 8..position / 8 + m];
      position := position + 8 * m;
    }

    // Bytes up to a zero, or all whole bytes if none of them is zero.
    method ReadString() returns (r: seq<uint8>)
      requires Valid()
      modifies this
      ensures Valid() && 0 !in r
      ensures if LiesAt(Contents(), old(position), AllBits(Terminated(r)))
              then position == old(position) + 8 * |r| + 8 && beyondEnd == old(beyondEnd)
              else position == length && beyondEnd && |r| == (length - old(position)) / 8
                   && LiesAt(Contents(), old(position), AllBits(r))
    {
      hide NumBits, AllBits, Held, LiesAt, Contents, TextSoFar;
      ghost var c, p := Contents(), position;
      r := [];
      TextBegins(c, p);
      var b := ReadByte();
      TextNext(c, p, r, b, position, beyondEnd, old(beyondEnd));
      while b != 0
        invariant Valid()
        invariant 0 !in r && TextSoFar(c, p, r, b, position, beyondEnd, old(beyondEnd))
        decreases length - position, b
      {
        TextGoesOn(c, p, r, b, position, beyondEnd, old(beyondEnd));
        r := r + [b];
        b := ReadByte();
        TextNext(c, p, r, b, position, beyondEnd, old(beyondEnd));
      }
      TextOver(c, p, r, position, beyondEnd, old(beyondEnd));
    }

    // n bits of a number; none for an error.
    method ReadNBits(n: nat) returns (ok: bool, num: nat)
      requires Valid() && (n <= 31 || n > 64)
      modifies this
      ensures Valid() && (ok <==> 0 < n <= 64)
      ensures if ok then num < Pow2(n) && NumBits(num, n) == Filled(Contents(), old(position), n)
                         && Moved(old(position), old(beyondEnd), n)
              else position == old(position) && beyondEnd == old(beyondEnd)
    {
      hide NumBits, Held, Or, Pow2, AllBits, ReadSoFar, Filled, Contents;
      if n == 0 || n > 64 {
        return false, 0;
      }
      ghost var p, c := position, Filled(Contents(), position, n);
      var mul := Pow2(n - 1);
      num := 0;
      NothingRead(c, 0, n);
      var i := 0;
      while i < n
        invariant 0 <= i <= n && Valid()
        invariant i < n ==> mul == Pow2(n - 1 - i)
        invariant Moved(p, old(beyondEnd), i)
        invariant ReadSoFar(c, 0, num, n, i)
      {
        BitRead(c, 0, num, n, i);
        FilledBit(Contents(), p, n, i, position);
        var bit := ReadBit();
        if bit {
          num := Or(num, mul);
        }
        HalfPow(n - 1 - i);
        mul := mul / 2;
        i := i + 1;
      }
      AllRead(c, 0, num, n);
      assert c[0..n] == c;
      ok := true;
    }
  }

  lemma TwoBack(b1: bool, b0: bool)
    ensures var v := (if b1 then 2 else 0) + (if b0 then 1 else 0);
            NumBits(v, 2) == [b1, b0]
  {
    var v := (if b1 then 2 else 0) + (if b0 then 1 else 0);
    assert NumBits(v / 2, 1) == NumBits(v / 4, 0) + [v / 2 % 2 == 1];
  }

  lemma FourBack(b3: bool, b2: bool, b1: bool, b0: bool)
    ensures var v3 := if b3 then Or(0, 8) else 0;
            var v2 := if b2 then Or(v3, 4) else v3;
            var v1 := if b1 then Or(v2, 2) else v2;
            var v0 := if b0 then Or(v1, 1) else v1;
            v0 < 16 && NumBits(v0, 4) == [b3, b2, b1, b0]
  {
    hide NumBits, Or;
    OrTable();
    FourNumber(b3, b2, b1, b0);
  }

  lemma OrTable()
    ensures forall x :: x == 0 || x == 8 ==> Or(x, 4) == x + 4
    ensures forall x :: x == 0 || x == 4 || x == 8 || x == 12 ==> Or(x, 2) == x + 2
    ensures forall x: nat :: x < 16 && x % 2 == 0 ==> Or(x, 1) == x + 1
    ensures Or(0, 8) == 8
  {
    assert Or(8, 4) == 12;
    assert Or(4, 2) == 6 && Or(8, 2) == 10 && Or(12, 2) == 14;
    assert Pow2(0) == 1 && Pow2(1) == 2;
    forall x: nat | x < 16 && x % 2 == 0
      ensures Or(x, 1) == x + 1
    {
      OrDisjoint(x, 1, 1);
    }
  }

  lemma FourNumber(b3: bool, b2: bool, b1: bool, b0: bool)
    ensures var v := (if b3 then 8 else 0) + (if b2 then 4 else 0) + (if b1 then 2 else 0) + (if b0 then 1 else 0);
            NumBits(v, 4) == [b3, b2, b1, b0]
  {
    hide NumBits;
    var v := (if b3 then 8 else 0) + (if b2 then 4 else 0) + (if b1 then 2 else 0) + (if b0 then 1 else 0);
    TwoPairs(v);
    TwoBack(b3, b2);
    TwoBack(b1, b0);
  }

  lemma TwoPairs(v: nat)
    ensures NumBits(v, 4) == NumBits(v / 4, 2) + NumBits(v % 4, 2)
  {
    assert Pow2(2) == 4;
    SplitBits(v, 2, 2);
    LowBits(v, 2);
  }

  lemma StoredBytes(data: seq<uint8>, length: nat, q: nat, m: nat)
    requires 8 * q + 8 * m <= length <= 8 * |data|
    ensures Held(data, length)[8 * q..8 * q + 8 * m] == AllBits(data[q..q + m])
  {
    hide AllBits;
    AllBitsJoin(data[..q], data[q..q + m]);
    AllBitsJoin(data[..q + m], data[q + m..]);
    assert data[..q] + data[q..q + m] == data[..q + m];
    assert data[..q + m] + data[q + m..] == data;
    Middle(AllBits(data[..q]), AllBits(data[q..q + m]), AllBits(data[q + m..]), length);
  }

  lemma Middle(a: seq<bool>, b: seq<bool>, c: seq<bool>, length: nat)
    requires |a + b| <= length <= |a + b + c|
    ensures (a + b + c)[..length][|a|..|a| + |b|] == b
  {
  }

  // Some bits stand at a position of others.
  predicate LiesAt(bits: seq<bool>, start: nat, part: seq<bool>) {
    start + |part| <= |bits| && forall k :: 0 <= k < |part| ==> bits[start + k] == part[k]
  }

  lemma SliceLies(bits: seq<bool>, start: nat, part: seq<bool>)
    ensures LiesAt(bits, start, part) <==> start + |part| <= |bits| && bits[start..start + |part|] == part
  {
    if start + |part| <= |bits| {
      var slice := bits[start..start + |part|];
      assert forall k :: 0 <= k < |part| ==> slice[k] == bits[start + k];
    }
  }

  lemma LiesWithin(bits: seq<bool>, start: nat, part: seq<bool>, i: nat, piece: seq<bool>)
    requires LiesAt(bits, start, part) && LiesAt(part, i, piece)
    ensures LiesAt(bits, start + i, piece)
  {
    forall k | 0 <= k < |piece|
      ensures bits[start + i + k] == piece[k]
    {
      assert bits[start + (i + k)] == part[i + k];
    }
  }

  // Byte i of a text that lies in the bits.
  lemma ByteLies(bits: seq<bool>, start: nat, s: seq<uint8>, i: nat)
    requires i < |s| && LiesAt(bits, start, AllBits(s))
    ensures LiesAt(bits, start + 8 * i, NumBits(s[i], 8))
  {
    hide *;
    var all, piece := AllBits(s), NumBits(s[i], 8);
    AllBitsAt(s, i);
    SliceLies(all, 8 * i, piece);
    LiesWithin(bits, start, all, 8 * i, piece);
  }

  // The bytes of r lie at p and b has been read behind them, or there was no whole byte left.
  ghost predicate TextSoFar(c: seq<bool>, p: nat, r: seq<uint8>, b: uint8, q: nat, beyond: bool, was: bool) {
    || (LiesAt(c, p, AllBits(r + [b])) && q == p + 8 * |r| + 8 && beyond == was)
    || (LiesAt(c, p, AllBits(r)) && b == 0 && p <= q == |c| && beyond && |r| == (|c| - p) / 8)
  }

  lemma TextBegins(c: seq<bool>, p: nat)
    requires p <= |c|
    ensures LiesAt(c, p, AllBits([]))
  {
  }

  lemma TextNext(c: seq<bool>, p: nat, r: seq<uint8>, b: uint8, q: nat, beyond: bool, was: bool)
    requires LiesAt(c, p, AllBits(r))
    requires var at := p + 8 * |r|;
             if at + 8 <= |c| then NumBits(b, 8) == c[at..at + 8] && q == at + 8 && beyond == was
             else b == 0 && q == |c| && beyond
    ensures TextSoFar(c, p, r, b, q, beyond, was)
  {
    hide AllBits, NumBits;
    AllBitsPush(r, b);
  }

  lemma TextGoesOn(c: seq<bool>, p: nat, r: seq<uint8>, b: uint8, q: nat, beyond: bool, was: bool)
    requires TextSoFar(c, p, r, b, q, beyond, was) && b != 0
    ensures LiesAt(c, p, AllBits(r + [b])) && q == p + 8 * |r + [b]| && beyond == was
  {
  }

  lemma TextOver(c: seq<bool>, p: nat, r: seq<uint8>, q: nat, beyond: bool, was: bool)
    requires TextSoFar(c, p, r, 0, q, beyond, was)
    ensures if LiesAt(c, p, AllBits(Terminated(r))) then q == p + 8 * |r| + 8 && beyond == was
            else q == |c| && beyond && |r| == (|c| - p) / 8 && LiesAt(c, p, AllBits(r))
  {
    hide AllBits;
    assert |AllBits(Terminated(r))| == 8 * |r| + 8;
  }

  // Where a terminated text lies, no other bytes without a zero can have been read.
  lemma TextUnique(c: seq<bool>, p: nat, s: seq<uint8>, r: seq<uint8>)
    requires LiesAt(c, p, AllBits(Terminated(s))) && 0 !in s && 0 !in r
    requires LiesAt(c, p, AllBits(Terminated(r))) || (LiesAt(c, p, AllBits(r)) && |r| == (|c| - p) / 8)
    ensures r == s && LiesAt(c, p, AllBits(Terminated(r)))
  {
    hide LiesAt, AllBits, Terminated, Agree;
    LiesFits(c, p, AllBits(Terminated(s)));
    if !LiesAt(c, p, AllBits(Terminated(r))) {
      BytesAgree(c, p, Terminated(s), r);
      ZeroWithin(s, r);
      assert false;
    }
    BytesAgree(c, p, Terminated(s), Terminated(r));
    SameTexts(s, r);
  }

  predicate Agree(a: seq<uint8>, b: seq<uint8>) {
    forall k :: 0 <= k < |a| && k < |b| ==> a[k] == b[k]
  }

  lemma ZeroWithin(s: seq<uint8>, r: seq<uint8>)
    requires Agree(Terminated(s), r) && |s| < |r|
    ensures 0 in r
  {
    assert r[|s|] == Terminated(s)[|s|];
  }

  lemma SameTexts(s: seq<uint8>, r: seq<uint8>)
    requires Agree(Terminated(s), Terminated(r)) && 0 !in s && 0 !in r
    ensures r == s
  {
    assert Terminated(s)[|s|] == 0 && Terminated(r)[|r|] == 0;
    assert forall k :: 0 <= k < |s| ==> Terminated(s)[k] == s[k] && s[k] in s;
    assert forall k :: 0 <= k < |r| ==> Terminated(r)[k] == r[k] && r[k] in r;
  }

  lemma LiesFits(c: seq<bool>, p: nat, part: seq<bool>)
    requires LiesAt(c, p, part)
    ensures p + |part| <= |c|
  {
  }

  lemma BytesAgree(c: seq<bool>, p: nat, a: seq<uint8>, b: seq<uint8>)
    requires LiesAt(c, p, AllBits(a)) && LiesAt(c, p, AllBits(b))
    ensures Agree(a, b)
  {
    hide LiesAt, AllBits;
    forall k | 0 <= k < |a| && k < |b|
      ensures a[k] == b[k]
    {
      ByteAgrees(c, p, a, b, k);
    }
  }

  lemma ByteAgrees(c: seq<bool>, p: nat, a: seq<uint8>, b: seq<uint8>, k: nat)
    requires LiesAt(c, p, AllBits(a)) && LiesAt(c, p, AllBits(b)) && k < |a| && k < |b|
    ensures a[k] == b[k]
  {
    hide *;
    ByteLies(c, p, a, k);
    ByteLies(c, p, b, k);
    SliceLies(c, p + 8 * k, NumBits(a[k], 8));
    SliceLies(c, p + 8 * k, NumBits(b[k], 8));
    SameByte(a[k], b[k]);
  }

  lemma SameByte(x: uint8, y: uint8)
    requires NumBits(x, 8) == NumBits(y, 8)
    ensures x == y
  {
    Pow256();
    NumberBack(x, 8);
    NumberBack(y, 8);
  }

  // The number holds the first i of n bits, in their places.
  ghost predicate ReadSoFar(c: seq<bool>, start: nat, num: nat, n: nat, i: nat) {
    i <= n && start + n <= |c| && num == FromBits(c[start..start + i]) * Pow2(n - i)
  }

  lemma NothingRead(c: seq<bool>, start: nat, n: nat)
    requires start + n <= |c|
    ensures ReadSoFar(c, start, 0, n, 0)
  {
    assert c[start..start] == [];
  }

  lemma BitRead(c: seq<bool>, start: nat, num: nat, n: nat, i: nat)
    requires i < n && ReadSoFar(c, start, num, n, i)
    ensures ReadSoFar(c, start, if c[start + i] then Or(num, Pow2(n - 1 - i)) else num, n, i + 1)
  {
    var bits, more := c[start..start + i], c[start..start + i + 1];
    assert more[..i] == bits && more[i] == c[start + i];
    var w, p := FromBits(bits), Pow2(n - 1 - i);
    assert FromBits(more) == 2 * w + if c[start + i] then 1 else 0;
    assert Pow2(n - i) == 2 * p;
    hide Or, Pow2, FromBits;
    BitsNumbers(w, p);
    OrDisjoint(num, p, n - i);
  }

  lemma AllRead(c: seq<bool>, start: nat, num: nat, n: nat)
    requires ReadSoFar(c, start, num, n, n)
    ensures num < Pow2(n) && NumBits(num, n) == c[start..start + n]
  {
    assert Pow2(0) == 1;
    BitsBack(c[start..start + n]);
  }

  lemma BitsNumbers(w: nat, p: nat)
    requires p > 0
    ensures w * (2 * p) % (2 * p) == 0
    ensures w * (2 * p) == 2 * w * p && w * (2 * p) + p == (2 * w + 1) * p
  {
    DivMul(w, 2 * p);
  }

  lemma HalfPow(n: nat)
    ensures n > 0 ==> Pow2(n) / 2 == Pow2(n - 1)
  {
  }

  // After m bytes the number is w with i bytes still to come.
  ghost predicate BeSoFar(r: nat, w: nat, i: nat, m: nat, bits: seq<bool>) {
    r == w * Pow2(8 * i) && w < Pow2(8 * m) && NumBits(w, 8 * m) == bits
  }

  lemma BeStart(n: nat)
    ensures BeSoFar(0, 0, n, 0, [])
  {
    assert Pow2(0) == 1;
  }

  lemma BeNext(r: nat, w: nat, i: nat, m: nat, bits: seq<bool>, x: uint8)
    requires m > 0 && BeSoFar(r, w, i + 1, m - 1, bits)
    ensures BeSoFar(Or(r, Shl(x, 8 * i)), 256 * w + x, i, m, bits + NumBits(x, 8))
  {
    hide Pow2, NumBits, Or;
    PowByte(i);
    PowByte(m - 1);
    ByteEnd(256 * w + x, m);
    LowByte(w, x);
    BeNumbers(w, x, Pow2(8 * i));
    OrDisjoint(r, x * Pow2(8 * i), 8 * (i + 1));
  }

  lemma PowByte(i: nat)
    ensures Pow2(8 * (i + 1)) == Pow2(8 * i) * 256
  {
    Pow256();
    PowAdd(8 * i, 8);
  }

  lemma LowByte(w: nat, x: uint8)
    ensures (256 * w + x) / 256 == w && (256 * w + x) % 256 == x
  {
  }

  lemma BeNumbers(w: nat, x: uint8, p: nat)
    requires p > 0
    ensures w * (p * 256) % (p * 256) == 0 && 0 <= x * p < p * 256
    ensures w * (p * 256) + x * p == (256 * w + x) * p
  {
    DivMul(w, p * 256);
    MulGe(255, x, p);
    MulGe(x, 0, p);
    assert w * (p * 256) == 256 * w * p;
    assert (256 * w + x) * p == 256 * w * p + x * p;
  }

  lemma BeEnd(r: nat, w: nat, n: nat, bits: seq<bool>)
    requires BeSoFar(r, w, 0, n, bits)
    ensures r < Pow2(8 * n) && NumBits(r, 8 * n) == bits
  {
    assert Pow2(0) == 1;
  }

  lemma LeStart()
    ensures 0 < Pow2(0) && LeBits(0, 0) == []
  {
  }

  lemma LeGrows(r: nat, i: nat, x: uint8)
    requires r < Pow2(8 * i)
    ensures Or(r, Shl(x, 8 * i)) < Pow2(8 * (i + 1))
    ensures LeBits(Or(r, Shl(x, 8 * i)), i + 1) == LeBits(r, i) + NumBits(x, 8)
  {
    hide *;
    ByteOnTop(r, i, x);
    var v := Or(r, Shl(x, 8 * i));
    LeBelow(v, r, i);
    LeStep(v, i);
    assert x % 256 == x;
  }

  // A byte put above the i bytes of a number.
  lemma ByteOnTop(r: nat, i: nat, x: uint8)
    requires r < Pow2(8 * i)
    ensures Or(r, Shl(x, 8 * i)) < Pow2(8 * (i + 1))
    ensures Shr(Or(r, Shl(x, 8 * i)), 8 * i) == x && Or(r, Shl(x, 8 * i)) % Pow2(8 * i) == r
  {
    hide Pow2, Or;
    var p := Pow2(8 * i);
    PowByte(i);
    LeNumbers(r, x, p);
    OrDisjoint(x * p, r, 8 * i);
    OrCommutes(r, x * p);
  }

  lemma LeNumbers(r: nat, x: uint8, p: nat)
    requires r < p
    ensures 0 <= x * p && x * p % p == 0 && x * p + r < p * 256
    ensures (x * p + r) / p == x && (x * p + r) % p == r
  {
    DivMul(x, p);
    MulGe(255, x, p);
    MulGe(x, 0, p);
    DivUnique(x * p + r, p, x, r);
  }

  // The low bytes do not see what is above them.
  lemma {:induction false} LeBelow(v: nat, r: nat, i: nat)
    requires v % Pow2(8 * i) == r
    ensures LeBits(v, i) == LeBits(r, i)
    decreases i
  {
    hide *;
    if i > 0 {
      BytesBelow(v, i - 1);
      LeBelow(v, v % Pow2(8 * (i - 1)), i - 1);
      LeBelow(r, v % Pow2(8 * (i - 1)), i - 1);
      LeStep(v, i - 1);
      LeStep(r, i - 1);
    } else {
      LeNone(v);
      LeNone(r);
    }
  }

  lemma LeNone(v: nat)
    ensures LeBits(v, 0) == []
  {
  }

  lemma LeStep(v: nat, i: nat)
    ensures LeBits(v, i + 1) == LeBits(v, i) + NumBits(Shr(v, 8 * i) % 256, 8)
  {
  }

  lemma BytesBelow(v: nat, i: nat)
    ensures v % Pow2(8 * (i + 1)) % Pow2(8 * i) == v % Pow2(8 * i)
    ensures Shr(v % Pow2(8 * (i + 1)), 8 * i) % 256 == Shr(v, 8 * i) % 256
  {
    PowByte(i);
    SameBelow(v, Pow2(8 * i));
  }

  lemma SameBelow(v: nat, p: nat)
    requires p > 0
    ensures v % (p * 256) % p == v % p
    ensures v % (p * 256) / p == v / p % 256
  {
    var q, r := v / p, v % p;
    Quotient(v, p);
    var a, b := q / 256, q % 256;
    assert q * p == a * (p * 256) + b * p by {
      assert (a * 256 + b) * p == a * 256 * p + b * p;
      assert a * (p * 256) == a * 256 * p;
    }
    MulGe(255, b, p);
    MulGe(b, 0, p);
    DivUnique(v, p * 256, a, b * p + r);
    DivUnique(b * p + r, p, b, r);
  }

  // ----- Writing and reading back -----

  // One write; numbers of n bytes go big or little endian.
  datatype Field =
    | OneBit(bit: bool)
    | Two(value: nat)
    | Four(value: nat)
    | Be(value: nat, n: nat)
    | Le(value: nat, n: nat)
    | Low(value: nat, n: nat)
    | Bytes(bytes: seq<uint8>)
    | Text(text: seq<uint8>)

  // What a reader has to know of a field.
  datatype Shape = BitShape | TwoShape | FourShape | BeShape(n: nat) | LeShape(n: nat) | LowShape(n: nat)
                 | BytesShape(n: nat) | TextShape

  function ShapeOf(f: Field): Shape {
    match f
    case OneBit(_) => BitShape
    case Two(_) => TwoShape
    case Four(_) => FourShape
    case Be(_, n) => BeShape(n)
    case Le(_, n) => LeShape(n)
    case Low(_, n) => LowShape(n)
    case Bytes(bytes) => BytesShape(|bytes|)
    case Text(_) => TextShape
  }

  // The value fits the field.
  predicate InRange(f: Field) {
    match f
    case OneBit(_) => true
    case Two(value) => value < 4
    case Four(value) => value < 16
    case Be(value, n) => value < Pow2(8 * n)
    case Le(value, n) => value < Pow2(8 * n)
    case Low(value, n) => 0 < n <= 31 && value < Pow2(n)
    case Bytes(_) => true
    case Text(text) => 0 !in text
  }

  // Bytes go at half bytes, texts and byte vectors at whole bytes.
  predicate Placed(f: Field, length: nat) {
    match f
    case Be(_, _) => length % 4 == 0
    case Le(_, _) => length % 4 == 0
    case Bytes(_) => length % 8 == 0
    case Text(_) => length % 8 == 0
    case _ => true
  }

  function FieldBits(f: Field): seq<bool> {
    match f
    case OneBit(bit) => [bit]
    case Two(value) => NumBits(value, 2)
    case Four(value) => NumBits(value, 4)
    case Be(value, n) => NumBits(value, 8 * n)
    case Le(value, n) => LeBits(value, n)
    case Low(value, n) => NumBits(value, n)
    case Bytes(bytes) => AllBits(bytes)
    case Text(text) => AllBits(Terminated(text))
  }

  function FieldsBits(fields: seq<Field>): seq<bool> {
    if |fields| == 0 then [] else FieldsBits(fields[..|fields| - 1]) + FieldBits(fields[|fields| - 1])
  }

  ghost predicate AllPlaced(fields: seq<Field>) {
    forall i :: 0 <= i < |fields| ==> InRange(fields[i]) && Placed(fields[i], |FieldsBits(fields[..i])|)
  }

  method WriteField(out: MemoryOutputStream, f: Field)
    requires out.Valid() && InRange(f) && Placed(f, out.length)
    modifies out
    ensures out.Valid() && out.Contents() == old(out.Contents()) + FieldBits(f)
  {
    hide NumBits, AllBits, LeBits, MemoryOutputStream.Contents, MemoryOutputStream.Valid, Pow2;
    match f {
      case OneBit(bit) => out.WriteBit(bit);
      case Two(value) => out.WriteUint2(value);
      case Four(value) => out.WriteUint4(value);
      case Be(value, n) => out.WriteUintBe(value, n);
      case Le(value, n) => out.WriteUintLe(value, n);
      case Low(value, n) => var ok := out.WriteNBits(value, n);
      case Bytes(bytes) => out.WriteBytes(bytes);
      case Text(text) => out.WriteString(text);
    }
  }

  // Reads a field of the shape of f, which lies ahead.
  method ReadField(input: MemoryInputStream, shape: Shape, ghost f: Field) returns (r: Field)
    requires input.Valid() && shape == ShapeOf(f) && InRange(f) && Placed(f, input.position)
    requires Ahead(input, f)
    modifies input
    ensures input.Valid() && r == f
    ensures input.position == old(input.position) + |FieldBits(f)| && input.beyondEnd == old(input.beyondEnd)
  {
    hide NumBits, AllBits, LeBits, Held, Pow2;
    FieldUnique(f);
    match shape {
      case BitShape =>
        var bit := input.ReadBit();
        r := OneBit(bit);
        assert FieldBits(r) == FieldBits(f);
      case TwoShape =>
        var v := input.ReadUint2();
        r := Two(v);
        assert InRange(r) && FieldBits(r) == FieldBits(f);
      case FourShape =>
        var v := input.ReadUint4();
        r := Four(v);
        assert InRange(r) && FieldBits(r) == FieldBits(f);
      case BeShape(n) =>
        var v := input.ReadUintBe(n);
        r := Be(v, n);
        assert InRange(r) && FieldBits(r) == FieldBits(f);
      case LeShape(n) =>
        var v := input.ReadUintLe(n);
        r := Le(v, n);
        assert InRange(r) && FieldBits(r) == FieldBits(f);
      case LowShape(n) =>
        var ok, v := input.ReadNBits(n);
        r := Low(v, n);
        assert InRange(r) && FieldBits(r) == FieldBits(f);
      case BytesShape(n) =>
        var bytes := input.ReadBytes(n);
        r := Bytes(bytes);
        assert InRange(r) && FieldBits(r) == FieldBits(f);
      case TextShape =>
        ghost var c, p := input.Contents(), input.position;
        SliceLies(c, p, FieldBits(f));
        var text := input.ReadString();
        TextUnique(c, p, f.text, text);
        r := Text(text);
    }
  }

  ghost predicate Ahead(input: MemoryInputStream, f: Field)
    requires input.Valid()
    reads input
  {
    input.position + |FieldBits(f)| <= input.length && input.Ahead(|FieldBits(f)|) == FieldBits(f)
  }

  // Fields of one shape with the same bits are the same.
  lemma FieldUnique(f: Field)
    requires InRange(f)
    ensures forall g :: ShapeOf(g) == ShapeOf(f) && InRange(g) && FieldBits(g) == FieldBits(f) ==> g == f
  {
    forall g | ShapeOf(g) == ShapeOf(f) && InRange(g) && FieldBits(g) == FieldBits(f)
      ensures g == f
    {
      SameField(f, g);
    }
  }

  lemma SameField(f: Field, g: Field)
    requires InRange(f) && InRange(g) && ShapeOf(g) == ShapeOf(f) && FieldBits(g) == FieldBits(f)
    ensures g == f
  {
    hide NumBits, AllBits, LeBits;
    assert Pow2(2) == 4 && Pow2(4) == 16;
    match f {
      case OneBit(bit) => assert [bit][0] == [g.bit][0];
      case Two(value) => SameNumber(value, g.value, 2);
      case Four(value) => SameNumber(value, g.value, 4);
      case Be(value, n) => SameNumber(value, g.value, 8 * n);
      case Le(value, n) => SameLe(value, g.value, n);
      case Low(value, n) => SameNumber(value, g.value, n);
      case Bytes(bytes) => SameBytes(bytes, g.bytes);
      case Text(text) =>
        SameLength(Terminated(text), Terminated(g.text));
        SameBytes(Terminated(text), Terminated(g.text));
        assert Terminated(text)[..|text|] == text && Terminated(g.text)[..|text|] == g.text;
    }
  }

  lemma SameNumber(v: nat, w: nat, n: nat)
    requires v < Pow2(n) && w < Pow2(n) && NumBits(v, n) == NumBits(w, n)
    ensures v == w
  {
    NumberBack(v, n);
    NumberBack(w, n);
  }

  lemma SameLength(a: seq<uint8>, b: seq<uint8>)
    requires AllBits(a) == AllBits(b)
    ensures |a| == |b|
  {
    assert |AllBits(a)| == |AllBits(b)|;
  }

  lemma {:induction false} SameBytes(a: seq<uint8>, b: seq<uint8>)
    requires |a| == |b| && AllBits(a) == AllBits(b)
    ensures a == b
  {
    forall q | 0 <= q < |a|
      ensures a[q] == b[q]
    {
      hide AllBits, NumBits;
      AllBitsAt(a, q);
      AllBitsAt(b, q);
      SameByte(a[q], b[q]);
    }
  }

  lemma {:induction false} SameLe(v: nat, w: nat, n: nat)
    requires v < Pow2(8 * n) && w < Pow2(8 * n) && LeBits(v, n) == LeBits(w, n)
    ensures v == w
    decreases n
  {
    hide *;
    if n == 0 {
      Pow256();
      NumZero(v);
      NumZero(w);
    } else {
      var p := Pow2(8 * (n - 1));
      LeSplit(v, n - 1);
      LeSplit(w, n - 1);
      EndsEqual(LeBits(v % p, n - 1), LeBits(w % p, n - 1), NumBits(v / p, 8), NumBits(w / p, 8));
      SameByte(v / p, w / p);
      SameLe(v % p, w % p, n - 1);
    }
  }

  lemma NumZero(v: nat)
    requires v < Pow2(0)
    ensures v == 0
  {
    assert Pow2(0) == 1;
  }

  lemma LeSplit(v: nat, n: nat)
    requires v < Pow2(8 * (n + 1))
    ensures var p := Pow2(8 * n);
            && 0 <= v / p < 256 && 0 <= v % p < p && v == v / p * p + v % p
            && LeBits(v, n + 1) == LeBits(v % p, n) + NumBits(v / p, 8)
  {
    hide Pow2, NumBits, LeBits;
    var p := Pow2(8 * n);
    PowByte(n);
    LeStep(v, n);
    LeBelow(v, v % p, n);
    TopByte(v, p);
  }

  lemma EndsEqual<T>(a: seq<T>, b: seq<T>, c: seq<T>, d: seq<T>)
    requires a + c == b + d && |a| == |b|
    ensures a == b && c == d
  {
    assert (a + c)[..|a|] == a && (b + d)[..|a|] == b;
    assert (a + c)[|a|..] == c && (b + d)[|a|..] == d;
  }

  lemma TopByte(v: nat, p: nat)
    requires p > 0 && v < p * 256
    ensures v / p % 256 == v / p && 0 <= v / p < 256 && v == v / p * p + v % p && 0 <= v % p < p
  {
    Quotient(v, p);
    QuotientLess(v, 256, p);
    QuotientRange(v, p);
  }

  method WriteFields(out: MemoryOutputStream, fields: seq<Field>)
    requires out.Valid() && out.Contents() == [] && AllPlaced(fields)
    modifies out
    ensures out.Valid() && out.Contents() == FieldsBits(fields)
  {
    hide FieldBits, InRange, Placed, MemoryOutputStream.Valid, MemoryOutputStream.Contents;
    var i := 0;
    while i < |fields|
      invariant 0 <= i <= |fields|
      invariant out.Valid() && out.Contents() == FieldsBits(fields[..i])
    {
      FieldsStep(fields, i);
      WriteField(out, fields[i]);
      i := i + 1;
    }
    assert fields[..i] == fields;
  }

  lemma FieldsStep(fields: seq<Field>, i: nat)
    requires i < |fields|
    ensures FieldsBits(fields[..i + 1]) == FieldsBits(fields[..i]) + FieldBits(fields[i])
  {
    assert fields[..i + 1][..i] == fields[..i];
  }

  // Field i starts where the bits of the fields before it end.
  lemma {:induction false} FieldWhere(fields: seq<Field>, i: nat)
    requires i < |fields|
    ensures var start := |FieldsBits(fields[..i])|;
            && start + |FieldBits(fields[i])| <= |FieldsBits(fields)|
            && FieldsBits(fields)[start..start + |FieldBits(fields[i])|] == FieldBits(fields[i])
    decreases |fields|
  {
    var n := |fields| - 1;
    hide FieldBits;
    FieldsStep(fields, n);
    assert fields[..n + 1] == fields;
    if i < n {
      FieldWhere(fields[..n], i);
      assert fields[..n][..i] == fields[..i];
    }
  }

  // Whatever is written is read back, up to the end and not beyond it.
  method RoundTrip(fields: seq<Field>) returns (back: seq<Field>, input: MemoryInputStream)
    requires AllPlaced(fields)
    ensures back == fields
    ensures fresh(input) && input.position == input.length && !input.beyondEnd
  {
    var out := new MemoryOutputStream();
    WriteFields(out, fields);
    assert out.length <= 8 * |out.data|;
    input := new MemoryInputStream(out.data, out.length);
    assert input.Contents() == FieldsBits(fields);
    var shapes := seq(|fields|, i requires 0 <= i < |fields| => ShapeOf(fields[i]));
    back := ReadFields(input, shapes, fields);
  }

  // Reads fields of the given shapes one after the other.
  method ReadFields(input: MemoryInputStream, shapes: seq<Shape>, ghost fields: seq<Field>) returns (back: seq<Field>)
    requires |shapes| == |fields| && forall i :: 0 <= i < |shapes| ==> shapes[i] == ShapeOf(fields[i])
    requires input.Valid() && input.position == 0 && input.Contents() == FieldsBits(fields) && AllPlaced(fields)
    modifies input
    ensures input.Valid() && back == fields
    ensures input.position == input.length && input.beyondEnd == old(input.beyondEnd)
  {
    back := [];
    var i := 0;
    hide FieldBits, InRange, Placed, FieldsBits, MemoryInputStream.Contents, ShapeOf;
    FieldsStart(fields);
    while i < |shapes|
      invariant 0 <= i <= |shapes| && back == fields[..i]
      invariant input.Valid() && input.beyondEnd == old(input.beyondEnd)
      invariant input.position == |FieldsBits(fields[..i])|
    {
      FieldWhere(fields, i);
      FieldsStep(fields, i);
      var f := ReadField(input, shapes[i], fields[i]);
      back := back + [f];
      i := i + 1;
    }
    assert fields[..i] == fields;
  }

  lemma FieldsStart(fields: seq<Field>)
    ensures FieldsBits(fields[..0]) == []
  {
  }
}
