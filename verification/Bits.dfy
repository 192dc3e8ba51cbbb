/** Unsigned machine words as natural numbers, with the bitwise operators the C code applies to
    them.  Each operator is defined one binary digit at a time. */
module Bits {
  /** One octet of memory. */
  type Byte = x: int | 0 <= x < 256

  /** `u << k` */
  function ShiftLeft(u: nat, k: nat): nat {
    if k == 0 then u else 2 * ShiftLeft(u, k - 1)
  }

  /** `x & y` */
  function And(x: nat, y: nat): nat {
    if x == 0 || y == 0 then 0 else (x % 2) * (y % 2) + 2 * And(x / 2, y / 2)
  }

  /** `x | y` */
  function Or(x: nat, y: nat): nat {
    if x == 0 then y else if y == 0 then x
    else (if x % 2 + y % 2 > 0 then 1 else 0) + 2 * Or(x / 2, y / 2)
  }

  /** `x ^ y` */
  function Xor(x: nat, y: nat): nat {
    if x == 0 && y == 0 then 0 else (x + y) % 2 + 2 * Xor(x / 2, y / 2)
  }

  /** Number of trailing zero bits, as `__builtin_ctz` gives it. */
  function CountTrailingZeros(v: nat): nat
    requires v > 0
  {
    if v % 2 == 1 then 0 else 1 + CountTrailingZeros(v / 2)
  }

  predicate IsPowerOfTwo(n: nat) {
    n == 1 || (n > 1 && n % 2 == 0 && IsPowerOfTwo(n / 2))
  }

  lemma {:induction false} MultiplesApart(a: int, b: int, d: nat)
    ensures a > b ==> a * d >= b * d + d
    decreases a - b
  {
    if a > b {
      MultiplesApart(a - 1, b, d);
      assert a * d == (a - 1) * d + d;
    }
  }

  lemma DivModUnique(x: int, d: int, q: int, r: int)
    requires 0 <= r < d && x == q * d + r
    ensures x / d == q && x % d == r
  {
    var a := x / d;
    assert a * d + x % d == x;
    MultiplesApart(a, q, d);
    MultiplesApart(q, a, d);
  }

  lemma SplitModulo(x: nat, half: nat)
    requires half > 0
    ensures x % (2 * half) == x % 2 + 2 * (x / 2 % half)
  {
    var q, r := x / 2 / half, x / 2 % half;
    assert x / 2 == q * half + r;
    assert x == q * (2 * half) + (2 * r + x % 2) by { assert 2 * (q * half) == q * (2 * half); }
    DivModUnique(x, 2 * half, q, 2 * r + x % 2);
  }

  /** Masking with `size - 1` is reduction modulo `size` when `size` is a power of two. */
  lemma {:induction false} MaskIsModulo(x: nat, size: nat)
    requires IsPowerOfTwo(size)
    ensures And(x, size - 1) == x % size
  {
    if size == 1 {
      assert x % 1 == 0;
    } else {
      var half := size / 2;
      MaskIsModulo(x / 2, half);
      assert (size - 1) / 2 == half - 1;
      assert x % size == x % 2 + 2 * (x / 2 % half) by { SplitModulo(x, half); }
    }
  }

  lemma {:induction false} XorZero(x: nat, y: nat)
    ensures Xor(x, y) == 0 <==> x == y
  {
    if x != 0 || y != 0 {
      XorZero(x / 2, y / 2);
    }
  }

  lemma XorStep(x: nat, y: nat)
    ensures Xor(x, y) == (x + y) % 2 + 2 * Xor(x / 2, y / 2)
  {
  }

  lemma XorDigit(x: nat, y: nat, a: nat, b: nat)
    ensures Xor(x + 2 * a, y + 2 * b) == (x + y) % 2 + 2 * Xor(x / 2 + a, y / 2 + b)
  {
    hide Xor;
    var u, v := x + 2 * a, y + 2 * b;
    XorStep(u, v);
    assert u / 2 == x / 2 + a && v / 2 == y / 2 + b && (u + v) % 2 == (x + y) % 2;
  }

  /** Exclusive-or works on the low k bits and the rest separately. */
  lemma {:induction false} XorSplit(k: nat, x: nat, y: nat, u: nat, v: nat)
    requires x < ShiftLeft(1, k) && y < ShiftLeft(1, k)
    ensures Xor(x + ShiftLeft(u, k), y + ShiftLeft(v, k)) == Xor(x, y) + ShiftLeft(Xor(u, v), k)
  {
    if k > 0 {
      var a, b := ShiftLeft(u, k - 1), ShiftLeft(v, k - 1);
      assert ShiftLeft(u, k) == 2 * a && ShiftLeft(v, k) == 2 * b;
      assert ShiftLeft(1, k) == 2 * ShiftLeft(1, k - 1);
      assert ShiftLeft(Xor(u, v), k) == 2 * ShiftLeft(Xor(u, v), k - 1);
      hide *;
      XorSplit(k - 1, x / 2, y / 2, u, v);
      XorDigit(x, y, a, b);
      XorStep(x, y);
    }
  }

  lemma OrDigit(x: nat, a: nat)
    ensures Or(x, 2 * a) == x % 2 + 2 * Or(x / 2, a)
  {
    assert 2 * a % 2 == 0 && 2 * a / 2 == a;
  }

  /** Merging bits above position k into a value below 2^k is addition. */
  lemma {:induction false} OrSplit(k: nat, x: nat, u: nat)
    requires x < ShiftLeft(1, k)
    ensures Or(x, ShiftLeft(u, k)) == x + ShiftLeft(u, k)
  {
    if k > 0 {
      OrSplit(k - 1, x / 2, u);
      OrDigit(x, ShiftLeft(u, k - 1));
    }
  }

  /** The lowest set bit lies below position k exactly when the low k bits are not all zero. */
  lemma {:induction false} TrailingZerosSplit(k: nat, x: nat, u: nat)
    requires x < ShiftLeft(1, k) && x + ShiftLeft(u, k) > 0
    ensures x != 0 ==> CountTrailingZeros(x + ShiftLeft(u, k)) < k
    ensures x == 0 ==> u > 0 && CountTrailingZeros(x + ShiftLeft(u, k)) == k + CountTrailingZeros(u)
  {
    if k > 0 {
      var a := ShiftLeft(u, k - 1);
      assert (x + 2 * a) % 2 == x % 2 && (x + 2 * a) / 2 == x / 2 + a;
      if x % 2 == 0 { TrailingZerosSplit(k - 1, x / 2, u); }
    }
  }

  // ----- Single bits -----

  /** Bit k of x, counting from the least significant. */
  function TestBit(x: nat, k: nat): bool {
    if k == 0 then x % 2 == 1 else TestBit(x / 2, k - 1)
  }

  lemma {:induction false} ZeroHasNoBits(k: nat)
    ensures !TestBit(0, k)
  {
    if k > 0 { ZeroHasNoBits(k - 1); }
  }

  lemma OrStep(x: nat, y: nat)
    ensures Or(x, y) % 2 == (if x % 2 + y % 2 > 0 then 1 else 0) && Or(x, y) / 2 == Or(x / 2, y / 2)
  {
  }

  lemma {:induction false} OrBit(x: nat, y: nat, k: nat)
    ensures TestBit(Or(x, y), k) == (TestBit(x, k) || TestBit(y, k))
  {
    OrStep(x, y);
    hide Or;
    if k > 0 { OrBit(x / 2, y / 2, k - 1); }
  }

  lemma {:induction false} XorBit(x: nat, y: nat, k: nat)
    ensures TestBit(Xor(x, y), k) == (TestBit(x, k) != TestBit(y, k))
  {
    XorStep(x, y);
    hide Xor;
    assert Xor(x, y) / 2 == Xor(x / 2, y / 2) && Xor(x, y) % 2 == (x + y) % 2;
    if k > 0 { XorBit(x / 2, y / 2, k - 1); }
  }

  lemma {:induction false} SingleBit(i: nat, k: nat)
    ensures TestBit(ShiftLeft(1, i), k) == (k == i)
  {
    if i > 0 && k > 0 { SingleBit(i - 1, k - 1); }
    else if i == 0 && k > 0 { ZeroHasNoBits(k - 1); }
  }

  lemma {:induction false} OrBelow(k: nat, x: nat, y: nat)
    requires x < ShiftLeft(1, k) && y < ShiftLeft(1, k)
    ensures Or(x, y) < ShiftLeft(1, k)
  {
    if k > 0 { OrBelow(k - 1, x / 2, y / 2); }
  }

  lemma {:induction false} XorBelow(k: nat, x: nat, y: nat)
    requires x < ShiftLeft(1, k) && y < ShiftLeft(1, k)
    ensures Xor(x, y) < ShiftLeft(1, k)
  {
    if k > 0 { XorBelow(k - 1, x / 2, y / 2); }
  }

  /** 2^k - 1 has its k low bits set. */
  lemma {:induction false} AllOnesSet(k: nat, j: nat)
    requires j < k
    ensures ShiftLeft(1, k) >= 2 && TestBit(ShiftLeft(1, k) - 1, j)
  {
    var half := ShiftLeft(1, k - 1);
    if j > 0 { AllOnesSet(k - 1, j - 1); } else if k > 1 { AllOnesSet(k - 1, 0); }
    assert ShiftLeft(1, k) == 2 * half && half >= 1;
    hide ShiftLeft;
    assert (2 * half - 1) % 2 == 1 && (2 * half - 1) / 2 == half - 1;
  }

  /** Any other number below 2^k has one of them clear. */
  lemma {:induction false} SomeBitClear(k: nat, x: nat) returns (j: nat)
    requires x < ShiftLeft(1, k) - 1
    ensures j < k && !TestBit(x, j)
  {
    if x % 2 == 0 {
      j := 0;
    } else {
      j := SomeBitClear(k - 1, x / 2);
      j := j + 1;
    }
  }

  lemma ShiftByte(u: nat)
    ensures ShiftLeft(u, 8) == 256 * u
  {
    assert ShiftLeft(u, 1) == 2 * u;
    assert ShiftLeft(u, 3) == 8 * u;
    assert ShiftLeft(u, 5) == 32 * u;
    assert ShiftLeft(u, 7) == 128 * u;
  }

  // ----- Bytes as bit vectors -----

  function BitIf(on: bool, bit: bv8): bv8 { if on then bit else 0 }

  function FromBits(b7: bool, b6: bool, b5: bool, b4: bool, b3: bool, b2: bool, b1: bool, b0: bool): bv8 {
    BitIf(b7, 0x80) | BitIf(b6, 0x40) | BitIf(b5, 0x20) | BitIf(b4, 0x10)
    | BitIf(b3, 8) | BitIf(b2, 4) | BitIf(b1, 2) | BitIf(b0, 1)
  }

  lemma BitsOfOctet(b7: bool, b6: bool, b5: bool, b4: bool, b3: bool, b2: bool, b1: bool, b0: bool)
    ensures var b := FromBits(b7, b6, b5, b4, b3, b2, b1, b0);
            (b7 <==> b & 0x80 != 0) && (b6 <==> b & 0x40 != 0) && (b5 <==> b & 0x20 != 0) && (b4 <==> b & 0x10 != 0)
            && (b3 <==> b & 8 != 0) && (b2 <==> b & 4 != 0) && (b1 <==> b & 2 != 0) && (b0 <==> b & 1 != 0)
  {
  }

  /** The low byte of a number. */
  function Octet(x: nat): bv8 {
    FromBits(TestBit(x, 7), TestBit(x, 6), TestBit(x, 5), TestBit(x, 4),
             TestBit(x, 3), TestBit(x, 2), TestBit(x, 1), TestBit(x, 0))
  }

  /** The k low bits of x and y are the same. */
  ghost predicate SameBits(k: nat, x: nat, y: nat) {
    forall j: nat :: j < k ==> TestBit(x, j) == TestBit(y, j)
  }

  lemma SameBitsOfHalf(k: nat, x: nat, y: nat)
    requires k > 0
    ensures SameBits(k, x, y) <==> x % 2 == y % 2 && SameBits(k - 1, x / 2, y / 2)
  {
    assert TestBit(x, 0) == (x % 2 == 1) && TestBit(y, 0) == (y % 2 == 1);
    if SameBits(k, x, y) {
      forall j: nat | j < k - 1 ensures TestBit(x / 2, j) == TestBit(y / 2, j) {
        assert TestBit(x, j + 1) == TestBit(y, j + 1);
      }
    }
    if x % 2 == y % 2 && SameBits(k - 1, x / 2, y / 2) {
      forall j: nat | j < k ensures TestBit(x, j) == TestBit(y, j) {
        if j > 0 { assert TestBit(x / 2, j - 1) == TestBit(y / 2, j - 1); }
      }
    }
  }

  /** Numbers are equal modulo 2^k when their k low bits are, and only then. */
  lemma {:induction false} SameLowBits(k: nat, x: nat, y: nat)
    ensures ShiftLeft(1, k) > 0
    ensures x % ShiftLeft(1, k) == y % ShiftLeft(1, k) <==> SameBits(k, x, y)
  {
    if k > 0 {
      SameLowBits(k - 1, x / 2, y / 2);
      SplitModulo(x, ShiftLeft(1, k - 1));
      SplitModulo(y, ShiftLeft(1, k - 1));
      SameBitsOfHalf(k, x, y);
      hide SameBits;
    }
  }

  lemma EightBits(x: nat, y: nat)
    ensures SameBits(8, x, y) <==>
            TestBit(x, 7) == TestBit(y, 7) && TestBit(x, 6) == TestBit(y, 6) && TestBit(x, 5) == TestBit(y, 5)
            && TestBit(x, 4) == TestBit(y, 4) && TestBit(x, 3) == TestBit(y, 3) && TestBit(x, 2) == TestBit(y, 2)
            && TestBit(x, 1) == TestBit(y, 1) && TestBit(x, 0) == TestBit(y, 0)
  {
    hide TestBit;
  }

  /** Two numbers have the same low byte when they are equal modulo 256, and only then. */
  lemma SameOctets(x: nat, y: nat)
    ensures Octet(x) == Octet(y) <==> x % 256 == y % 256
  {
    hide FromBits, TestBit, SameBits, ShiftLeft;
    BitsOfOctet(TestBit(x, 7), TestBit(x, 6), TestBit(x, 5), TestBit(x, 4),
                TestBit(x, 3), TestBit(x, 2), TestBit(x, 1), TestBit(x, 0));
    BitsOfOctet(TestBit(y, 7), TestBit(y, 6), TestBit(y, 5), TestBit(y, 4),
                TestBit(y, 3), TestBit(y, 2), TestBit(y, 1), TestBit(y, 0));
    EightBits(x, y);
    ShiftByte(1);
    SameLowBits(8, x, y);
  }
}
