/** MD5 as a 32-bit standard defines it (RFC 1321) and as the streaming code computes it in
    unmasked 64-bit words. */
module Md5 {
  import opened Bits

  // ----- The standard -----

  /** The four registers, section 3.3. */
  datatype Words = Words(a: bv32, b: bv32, c: bv32, d: bv32)

  function Initial(): Words { Words(0x67452301, 0xEFCDAB89, 0x98BADCFE, 0x10325476) }

  function Rotate(x: bv32, s: bv6): bv32
    requires s <= 32
  {
    (x << s) | (x >> (32 - s))
  }

  /** F, G, H and I of section 3.4, by round. */
  function RoundFunction(round: nat, x: bv32, y: bv32, z: bv32): bv32 {
    match round
    case 0 => (x & y) | (!x & z)
    case 1 => (x & z) | (y & !z)
    case 2 => x ^ y ^ z
    case _ => y ^ (x | !z)
  }

  /** The word, the rotation and the additive constant of operation i, section 3.4. */
  function WordOf(i: nat): (k: nat)
    ensures k < 16
  {
    match i / 16
    case 0 => i % 16
    case 1 => (1 + 5 * i) % 16
    case 2 => (5 + 3 * i) % 16
    case _ => 7 * i % 16
  }

  function RotationOf(i: nat): (s: bv6)
    ensures s <= 32
  {
    match i / 16
    case 0 => (match i % 4 case 0 => 7 case 1 => 12 case 2 => 17 case _ => 22)
    case 1 => (match i % 4 case 0 => 5 case 1 => 9 case 2 => 14 case _ => 20)
    case 2 => (match i % 4 case 0 => 4 case 1 => 11 case 2 => 16 case _ => 23)
    case _ => (match i % 4 case 0 => 6 case 1 => 10 case 2 => 15 case _ => 21)
  }

  function Sine1(j: nat): bv32 {
    match j
    case 0 => 0xD76AA478 case 1 => 0xE8C7B756 case 2 => 0x242070DB case 3 => 0xC1BDCEEE
    case 4 => 0xF57C0FAF case 5 => 0x4787C62A case 6 => 0xA8304613 case 7 => 0xFD469501
    case 8 => 0x698098D8 case 9 => 0x8B44F7AF case 10 => 0xFFFF5BB1 case 11 => 0x895CD7BE
    case 12 => 0x6B901122 case 13 => 0xFD987193 case 14 => 0xA679438E case _ => 0x49B40821
  }

  function Sine2(j: nat): bv32 {
    match j
    case 0 => 0xF61E2562 case 1 => 0xC040B340 case 2 => 0x265E5A51 case 3 => 0xE9B6C7AA
    case 4 => 0xD62F105D case 5 => 0x02441453 case 6 => 0xD8A1E681 case 7 => 0xE7D3FBC8
    case 8 => 0x21E1CDE6 case 9 => 0xC33707D6 case 10 => 0xF4D50D87 case 11 => 0x455A14ED
    case 12 => 0xA9E3E905 case 13 => 0xFCEFA3F8 case 14 => 0x676F02D9 case _ => 0x8D2A4C8A
  }

  function Sine3(j: nat): bv32 {
    match j
    case 0 => 0xFFFA3942 case 1 => 0x8771F681 case 2 => 0x6D9D6122 case 3 => 0xFDE5380C
    case 4 => 0xA4BEEA44 case 5 => 0x4BDECFA9 case 6 => 0xF6BB4B60 case 7 => 0xBEBFBC70
    case 8 => 0x289B7EC6 case 9 => 0xEAA127FA case 10 => 0xD4EF3085 case 11 => 0x04881D05
    case 12 => 0xD9D4D039 case 13 => 0xE6DB99E5 case 14 => 0x1FA27CF8 case _ => 0xC4AC5665
  }

  function Sine4(j: nat): bv32 {
    match j
    case 0 => 0xF4292244 case 1 => 0x432AFF97 case 2 => 0xAB9423A7 case 3 => 0xFC93A039
    case 4 => 0x655B59C3 case 5 => 0x8F0CCC92 case 6 => 0xFFEFF47D case 7 => 0x85845DD1
    case 8 => 0x6FA87E4F case 9 => 0xFE2CE6E0 case 10 => 0xA3014314 case 11 => 0x4E0811A1
    case 12 => 0xF7537E82 case 13 => 0xBD3AF235 case 14 => 0x2AD7D2BB case _ => 0xEB86D391
  }

  /** 2^32 times the absolute value of sin(i + 1), truncated. */
  function Sine(i: nat): bv32 {
    match i / 16
    case 0 => Sine1(i % 16)
    case 1 => Sine2(i % 16)
    case 2 => Sine3(i % 16)
    case _ => Sine4(i % 16)
  }

  /** Addition modulo 2^32. */
  function Add32(x: bv32, y: bv32): bv32 { x + y }

  function Sum(a: bv32, f: bv32, x: bv32, t: bv32): bv32 { Add32(a, Add32(Add32(f, x), t)) }

  /** a = b + ((a + F(b, c, d) + X[k] + T[i]) <<< s) */
  function Operation(i: nat, a: bv32, b: bv32, c: bv32, d: bv32, x: seq<bv32>): bv32
    requires |x| == 16
  {
    Add32(b, Rotate(Sum(a, RoundFunction(i / 16, b, c, d), x[WordOf(i)], Sine(i)), RotationOf(i)))
  }

  /** The registers after the first n operations on a block; each operation shifts their roles. */
  function Steps(w: Words, x: seq<bv32>, n: nat): Words
    requires |x| == 16
  {
    if n == 0 then w else
      var s := Steps(w, x, n - 1);
      Words(s.d, Operation(n - 1, s.a, s.b, s.c, s.d, x), s.b, s.c)
  }

  function Word(b0: bv8, b1: bv8, b2: bv8, b3: bv8): bv32 {
    (b0 as bv32) | ((b1 as bv32) << 8) | ((b2 as bv32) << 16) | ((b3 as bv32) << 24)
  }

  function BlockWords(block: seq<bv8>): (x: seq<bv32>)
    requires |block| == 64
    ensures |x| == 16
  {
    seq(16, i requires 0 <= i < 16 => Word(block[4 * i], block[4 * i + 1], block[4 * i + 2], block[4 * i + 3]))
  }

  function Plus(w: Words, v: Words): Words { Words(Add32(w.a, v.a), Add32(w.b, v.b), Add32(w.c, v.c), Add32(w.d, v.d)) }

  function Compress(w: Words, block: seq<bv8>): Words
    requires |block| == 64
  {
    Plus(w, Steps(w, BlockWords(block), 64))
  }

  /** The registers after the first k blocks of a message. */
  function Hash(m: seq<bv8>, k: nat): Words
    requires 64 * k <= |m|
  {
    if k == 0 then Initial() else Compress(Hash(m, k - 1), m[64 * (k - 1)..64 * k])
  }

  /** A number as four or eight bytes, the low-order byte first. */
  function Bytes4(x: nat): (bytes: seq<bv8>)
    ensures |bytes| == 4
  {
    [Octet(x), Octet(x / 0x100), Octet(x / 0x1_0000), Octet(x / 0x100_0000)]
  }

  function Bytes8(x: nat): seq<bv8> {
    Bytes4(x) + Bytes4(x / 0x1_0000_0000)
  }

  function Zeros(n: nat): seq<bv8> { seq(n, _ => 0) }

  function ZeroCount(n: nat): nat { (119 - n % 64) % 64 }

  /** The same with any eight bytes in the place of the length. */
  function PaddedWith(m: seq<bv8>, length: seq<bv8>): seq<bv8> {
    m + [0x80] + Zeros(ZeroCount(|m|)) + length
  }

  /** Sections 3.1 and 3.2: a one bit, the fewest zero bits that leave room for the length, and the
      length in bits as a 64-bit number. */
  function Padded(m: seq<bv8>): seq<bv8> {
    PaddedWith(m, Bytes8(8 * |m|))
  }

  function WordBytes(w: bv32): seq<bv8> {
    [(w & 0xFF) as bv8, ((w >> 8) & 0xFF) as bv8, ((w >> 16) & 0xFF) as bv8, ((w >> 24) & 0xFF) as bv8]
  }

  /** Section 3.5. */
  function Output(w: Words): seq<bv8> {
    WordBytes(w.a) + WordBytes(w.b) + WordBytes(w.c) + WordBytes(w.d)
  }

  /** The digest as it comes out with the given bytes in the place of the length. */
  function DigestWith(m: seq<bv8>, length: seq<bv8>): seq<bv8> {
    var p := PaddedWith(m, length);
    Output(Hash(p, |p| / 64))
  }

  function Digest(m: seq<bv8>): seq<bv8> {
    DigestWith(m, Bytes8(8 * |m|))
  }

  lemma ZerosFill(n: nat)
    ensures ZeroCount(n) < 64 && (n + 1 + ZeroCount(n) + 8) % 64 == 0
  {
    var q, r := n / 64, n % 64;
    assert n == 64 * q + r;
    if r <= 55 {
      assert n + 1 + ZeroCount(n) + 8 == 64 * (q + 1);
    } else {
      assert n + 1 + ZeroCount(n) + 8 == 64 * (q + 2);
    }
  }

  /** The padding is the shortest that ends on a block boundary. */
  lemma PaddedIsWholeBlocks(m: seq<bv8>)
    ensures |Padded(m)| % 64 == 0 && |m| + 9 <= |Padded(m)| < |m| + 9 + 64
    ensures m <= Padded(m)
  {
    ZerosFill(|m|);
    hide ZeroCount, Bytes4;
  }

  lemma {:induction false} HashOfPrefix(m: seq<bv8>, rest: seq<bv8>, k: nat)
    requires 64 * k <= |m|
    ensures Hash(m + rest, k) == Hash(m, k)
  {
    hide Compress;
    if k > 0 {
      HashOfPrefix(m, rest, k - 1);
      assert (m + rest)[64 * (k - 1)..64 * k] == m[64 * (k - 1)..64 * k];
    }
  }

  // ----- 64-bit words that stand for 32-bit ones -----

  function Low(x: bv64): bv32 { (x & 0xFFFF_FFFF) as bv32 }

  lemma MaskOfSum(x: bv64, y: bv64)
    ensures (x + y) & 0xFFFF_FFFF == ((x & 0xFFFF_FFFF) + (y & 0xFFFF_FFFF)) & 0xFFFF_FFFF
  {
  }

  lemma SmallSum(x: bv64, y: bv64)
    requires x <= 0xFFFF_FFFF && y <= 0xFFFF_FFFF
    ensures ((x + y) & 0xFFFF_FFFF) as bv32 == (x as bv32) + (y as bv32)
  {
  }

  lemma LowOfSum(x: bv64, y: bv64)
    ensures Low(x + y) == Low(x) + Low(y)
  {
    var l, m := x & 0xFFFF_FFFF, y & 0xFFFF_FFFF;
    MaskOfSum(x, y);
    SmallSum(l, m);
  }

  /** Addition of `unsigned long` values. */
  function Add(x: bv64, y: bv64): (r: bv64)
    ensures Low(r) == Add32(Low(x), Low(y))
  {
    LowOfSum(x, y);
    x + y
  }

  /** `S`, where only the shift to the right masks its operand. */
  function S(x: bv64, n: bv6): (r: bv64)
    requires n <= 32
    ensures Low(r) == Rotate(Low(x), n)
  {
    (x << n) | ((x & 0xFFFFFFFF) >> (32 - n))
  }

  function Mix1(x: bv64, y: bv64, z: bv64): (r: bv64)
    ensures Low(r) == RoundFunction(0, Low(x), Low(y), Low(z))
  {
    z ^ (x & (y ^ z))
  }

  function Mix2(x: bv64, y: bv64, z: bv64): (r: bv64)
    ensures Low(r) == RoundFunction(1, Low(x), Low(y), Low(z))
  {
    y ^ (z & (x ^ y))
  }

  function Mix3(x: bv64, y: bv64, z: bv64): (r: bv64)
    ensures Low(r) == RoundFunction(2, Low(x), Low(y), Low(z))
  {
    x ^ y ^ z
  }

  function Mix4(x: bv64, y: bv64, z: bv64): (r: bv64)
    ensures Low(r) == RoundFunction(3, Low(x), Low(y), Low(z))
  {
    y ^ (x | !z)
  }

  /** `F`, as each round defines it. */
  function Mix(round: nat, x: bv64, y: bv64, z: bv64): (r: bv64)
    ensures Low(r) == RoundFunction(round, Low(x), Low(y), Low(z))
  {
    hide Low, Mix1, Mix2, Mix3, Mix4;
    match round
    case 0 => Mix1(x, y, z)
    case 1 => Mix2(x, y, z)
    case 2 => Mix3(x, y, z)
    case _ => Mix4(x, y, z)
  }

  /** Operation i has these parameters. */
  predicate Uses(i: nat, k: nat, s: bv6, t: bv32) {
    k == WordOf(i) && s == RotationOf(i) && t == Sine(i)
  }

  /** A 32-bit value as an `unsigned long`. */
  function Wide(x: bv32): (r: bv64)
    ensures Low(r) == x
  {
    x as bv64
  }

  lemma AddCommutes(x: bv32, y: bv32)
    ensures Add32(x, y) == Add32(y, x)
  {
  }

  function Lows(x: seq<bv64>): (l: seq<bv32>)
    ensures |l| == |x|
  {
    seq(|x|, i requires 0 <= i < |x| => Low(x[i]))
  }

  /** `P` in a round: the new value of `a`, which is that of operation i. */
  function P(ghost i: nat, round: nat, a: bv64, b: bv64, c: bv64, d: bv64, x: seq<bv64>, k: nat, s: bv6,
             t: bv32): (r: bv64)
    requires |x| == 16 && round == i / 16 && Uses(i, k, s, t)
    ensures Low(r) == Operation(i, Low(a), Low(b), Low(c), Low(d), Lows(x))
  {
    hide Low, Add, Add32, Rotate, S, RoundFunction, WordOf, RotationOf, Sine, Mix, Wide;
    var sum := Add(a, Add(Add(Mix(round, b, c, d), x[k]), Wide(t)));
    AddCommutes(Low(b), Low(S(sum, s)));
    Add(S(sum, s), b)
  }

  datatype Regs = Regs(a: bv64, b: bv64, c: bv64, d: bv64)

  function Low4(r: Regs): Words { Words(Low(r.a), Low(r.b), Low(r.c), Low(r.d)) }

  /** Four operations bring every register back to its place. */
  lemma FourSteps(w: Words, x: seq<bv32>, n: nat)
    requires |x| == 16
    ensures var s := Steps(w, x, n);
            var a := Operation(n, s.a, s.b, s.c, s.d, x);
            var d := Operation(n + 1, s.d, a, s.b, s.c, x);
            var c := Operation(n + 2, s.c, d, a, s.b, x);
            var b := Operation(n + 3, s.b, c, d, a, x);
            Steps(w, x, n + 4) == Words(a, b, c, d)
  {
    hide Operation;
    assert Steps(w, x, n + 4)
             == (var s := Steps(w, x, n + 3); Words(s.d, Operation(n + 3, s.a, s.b, s.c, s.d, x), s.b, s.c));
    assert Steps(w, x, n + 3)
             == (var s := Steps(w, x, n + 2); Words(s.d, Operation(n + 2, s.a, s.b, s.c, s.d, x), s.b, s.c));
    assert Steps(w, x, n + 2)
             == (var s := Steps(w, x, n + 1); Words(s.d, Operation(n + 1, s.a, s.b, s.c, s.d, x), s.b, s.c));
  }

  lemma Parameters0()
    ensures Uses(0, 0, 7, 0xD76AA478)
    ensures Uses(1, 1, 12, 0xE8C7B756)
    ensures Uses(2, 2, 17, 0x242070DB)
    ensures Uses(3, 3, 22, 0xC1BDCEEE)
  {
  }

  lemma Parameters4()
    ensures Uses(4, 4, 7, 0xF57C0FAF)
    ensures Uses(5, 5, 12, 0x4787C62A)
    ensures Uses(6, 6, 17, 0xA8304613)
    ensures Uses(7, 7, 22, 0xFD469501)
  {
  }

  lemma Parameters8()
    ensures Uses(8, 8, 7, 0x698098D8)
    ensures Uses(9, 9, 12, 0x8B44F7AF)
    ensures Uses(10, 10, 17, 0xFFFF5BB1)
    ensures Uses(11, 11, 22, 0x895CD7BE)
  {
  }

  lemma Parameters12()
    ensures Uses(12, 12, 7, 0x6B901122)
    ensures Uses(13, 13, 12, 0xFD987193)
    ensures Uses(14, 14, 17, 0xA679438E)
    ensures Uses(15, 15, 22, 0x49B40821)
  {
  }

  method Round1(x: seq<bv64>, regs: Regs, ghost w: Words) returns (result: Regs)
    requires |x| == 16 && Low4(regs) == Steps(w, Lows(x), 0)
    ensures Low4(result) == Steps(w, Lows(x), 16)
  {
    hide Low, Operation, Steps, P, Uses, Lows, WordOf, RotationOf, Sine;
    ghost var xs := Lows(x);
    var a, b, c, d := regs.a, regs.b, regs.c, regs.d;
    FourSteps(w, xs, 0);
    Parameters0();
    a := P(0, 0, a, b, c, d, x, 0, 7, 0xD76AA478);
    d := P(1, 0, d, a, b, c, x, 1, 12, 0xE8C7B756);
    c := P(2, 0, c, d, a, b, x, 2, 17, 0x242070DB);
    b := P(3, 0, b, c, d, a, x, 3, 22, 0xC1BDCEEE);
    assert Low4(Regs(a, b, c, d)) == Steps(w, xs, 4);
    FourSteps(w, xs, 4);
    Parameters4();
    a := P(4, 0, a, b, c, d, x, 4, 7, 0xF57C0FAF);
    d := P(5, 0, d, a, b, c, x, 5, 12, 0x4787C62A);
    c := P(6, 0, c, d, a, b, x, 6, 17, 0xA8304613);
    b := P(7, 0, b, c, d, a, x, 7, 22, 0xFD469501);
    assert Low4(Regs(a, b, c, d)) == Steps(w, xs, 8);
    FourSteps(w, xs, 8);
    Parameters8();
    a := P(8, 0, a, b, c, d, x, 8, 7, 0x698098D8);
    d := P(9, 0, d, a, b, c, x, 9, 12, 0x8B44F7AF);
    c := P(10, 0, c, d, a, b, x, 10, 17, 0xFFFF5BB1);
    b := P(11, 0, b, c, d, a, x, 11, 22, 0x895CD7BE);
    assert Low4(Regs(a, b, c, d)) == Steps(w, xs, 12);
    FourSteps(w, xs, 12);
    Parameters12();
    a := P(12, 0, a, b, c, d, x, 12, 7, 0x6B901122);
    d := P(13, 0, d, a, b, c, x, 13, 12, 0xFD987193);
    c := P(14, 0, c, d, a, b, x, 14, 17, 0xA679438E);
    b := P(15, 0, b, c, d, a, x, 15, 22, 0x49B40821);
    assert Low4(Regs(a, b, c, d)) == Steps(w, xs, 16);
    result := Regs(a, b, c, d);
  }

  lemma Parameters16()
    ensures Uses(16, 1, 5, 0xF61E2562)
    ensures Uses(17, 6, 9, 0xC040B340)
    ensures Uses(18, 11, 14, 0x265E5A51)
    ensures Uses(19, 0, 20, 0xE9B6C7AA)
  {
  }

  lemma Parameters20()
    ensures Uses(20, 5, 5, 0xD62F105D)
    ensures Uses(21, 10, 9, 0x02441453)
    ensures Uses(22, 15, 14, 0xD8A1E681)
    ensures Uses(23, 4, 20, 0xE7D3FBC8)
  {
  }

  lemma Parameters24()
    ensures Uses(24, 9, 5, 0x21E1CDE6)
    ensures Uses(25, 14, 9, 0xC33707D6)
    ensures Uses(26, 3, 14, 0xF4D50D87)
    ensures Uses(27, 8, 20, 0x455A14ED)
  {
  }

  lemma Parameters28()
    ensures Uses(28, 13, 5, 0xA9E3E905)
    ensures Uses(29, 2, 9, 0xFCEFA3F8)
    ensures Uses(30, 7, 14, 0x676F02D9)
    ensures Uses(31, 12, 20, 0x8D2A4C8A)
  {
  }

  method Round2(x: seq<bv64>, regs: Regs, ghost w: Words) returns (result: Regs)
    requires |x| == 16 && Low4(regs) == Steps(w, Lows(x), 16)
    ensures Low4(result) == Steps(w, Lows(x), 32)
  {
    hide Low, Operation, Steps, P, Uses, Lows, WordOf, RotationOf, Sine;
    ghost var xs := Lows(x);
    var a, b, c, d := regs.a, regs.b, regs.c, regs.d;
    FourSteps(w, xs, 16);
    Parameters16();
    a := P(16, 1, a, b, c, d, x, 1, 5, 0xF61E2562);
    d := P(17, 1, d, a, b, c, x, 6, 9, 0xC040B340);
    c := P(18, 1, c, d, a, b, x, 11, 14, 0x265E5A51);
    b := P(19, 1, b, c, d, a, x, 0, 20, 0xE9B6C7AA);
    assert Low4(Regs(a, b, c, d)) == Steps(w, xs, 20);
    FourSteps(w, xs, 20);
    Parameters20();
    a := P(20, 1, a, b, c, d, x, 5, 5, 0xD62F105D);
    d := P(21, 1, d, a, b, c, x, 10, 9, 0x02441453);
    c := P(22, 1, c, d, a, b, x, 15, 14, 0xD8A1E681);
    b := P(23, 1, b, c, d, a, x, 4, 20, 0xE7D3FBC8);
    assert Low4(Regs(a, b, c, d)) == Steps(w, xs, 24);
    FourSteps(w, xs, 24);
    Parameters24();
    a := P(24, 1, a, b, c, d, x, 9, 5, 0x21E1CDE6);
    d := P(25, 1, d, a, b, c, x, 14, 9, 0xC33707D6);
    c := P(26, 1, c, d, a, b, x, 3, 14, 0xF4D50D87);
    b := P(27, 1, b, c, d, a, x, 8, 20, 0x455A14ED);
    assert Low4(Regs(a, b, c, d)) == Steps(w, xs, 28);
    FourSteps(w, xs, 28);
    Parameters28();
    a := P(28, 1, a, b, c, d, x, 13, 5, 0xA9E3E905);
    d := P(29, 1, d, a, b, c, x, 2, 9, 0xFCEFA3F8);
    c := P(30, 1, c, d, a, b, x, 7, 14, 0x676F02D9);
    b := P(31, 1, b, c, d, a, x, 12, 20, 0x8D2A4C8A);
    assert Low4(Regs(a, b, c, d)) == Steps(w, xs, 32);
    result := Regs(a, b, c, d);
  }

  lemma Parameters32()
    ensures Uses(32, 5, 4, 0xFFFA3942)
    ensures Uses(33, 8, 11, 0x8771F681)
    ensures Uses(34, 11, 16, 0x6D9D6122)
    ensures Uses(35, 14, 23, 0xFDE5380C)
  {
  }

  lemma Parameters36()
    ensures Uses(36, 1, 4, 0xA4BEEA44)
    ensures Uses(37, 4, 11, 0x4BDECFA9)
    ensures Uses(38, 7, 16, 0xF6BB4B60)
    ensures Uses(39, 10, 23, 0xBEBFBC70)
  {
  }

  lemma Parameters40()
    ensures Uses(40, 13, 4, 0x289B7EC6)
    ensures Uses(41, 0, 11, 0xEAA127FA)
    ensures Uses(42, 3, 16, 0xD4EF3085)
    ensures Uses(43, 6, 23, 0x04881D05)
  {
  }

  lemma Parameters44()
    ensures Uses(44, 9, 4, 0xD9D4D039)
    ensures Uses(45, 12, 11, 0xE6DB99E5)
    ensures Uses(46, 15, 16, 0x1FA27CF8)
    ensures Uses(47, 2, 23, 0xC4AC5665)
  {
  }

  method Round3(x: seq<bv64>, regs: Regs, ghost w: Words) returns (result: Regs)
    requires |x| == 16 && Low4(regs) == Steps(w, Lows(x), 32)
    ensures Low4(result) == Steps(w, Lows(x), 48)
  {
    hide Low, Operation, Steps, P, Uses, Lows, WordOf, RotationOf, Sine;
    ghost var xs := Lows(x);
    var a, b, c, d := regs.a, regs.b, regs.c, regs.d;
    FourSteps(w, xs, 32);
    Parameters32();
    a := P(32, 2, a, b, c, d, x, 5, 4, 0xFFFA3942);
    d := P(33, 2, d, a, b, c, x, 8, 11, 0x8771F681);
    c := P(34, 2, c, d, a, b, x, 11, 16, 0x6D9D6122);
    b := P(35, 2, b, c, d, a, x, 14, 23, 0xFDE5380C);
    assert Low4(Regs(a, b, c, d)) == Steps(w, xs, 36);
    FourSteps(w, xs, 36);
    Parameters36();
    a := P(36, 2, a, b, c, d, x, 1, 4, 0xA4BEEA44);
    d := P(37, 2, d, a, b, c, x, 4, 11, 0x4BDECFA9);
    c := P(38, 2, c, d, a, b, x, 7, 16, 0xF6BB4B60);
    b := P(39, 2, b, c, d, a, x, 10, 23, 0xBEBFBC70);
    assert Low4(Regs(a, b, c, d)) == Steps(w, xs, 40);
    FourSteps(w, xs, 40);
    Parameters40();
    a := P(40, 2, a, b, c, d, x, 13, 4, 0x289B7EC6);
    d := P(41, 2, d, a, b, c, x, 0, 11, 0xEAA127FA);
    c := P(42, 2, c, d, a, b, x, 3, 16, 0xD4EF3085);
    b := P(43, 2, b, c, d, a, x, 6, 23, 0x04881D05);
    assert Low4(Regs(a, b, c, d)) == Steps(w, xs, 44);
    FourSteps(w, xs, 44);
    Parameters44();
    a := P(44, 2, a, b, c, d, x, 9, 4, 0xD9D4D039);
    d := P(45, 2, d, a, b, c, x, 12, 11, 0xE6DB99E5);
    c := P(46, 2, c, d, a, b, x, 15, 16, 0x1FA27CF8);
    b := P(47, 2, b, c, d, a, x, 2, 23, 0xC4AC5665);
    assert Low4(Regs(a, b, c, d)) == Steps(w, xs, 48);
    result := Regs(a, b, c, d);
  }

  lemma Parameters48()
    ensures Uses(48, 0, 6, 0xF4292244)
    ensures Uses(49, 7, 10, 0x432AFF97)
    ensures Uses(50, 14, 15, 0xAB9423A7)
    ensures Uses(51, 5, 21, 0xFC93A039)
  {
  }

  lemma Parameters52()
    ensures Uses(52, 12, 6, 0x655B59C3)
    ensures Uses(53, 3, 10, 0x8F0CCC92)
    ensures Uses(54, 10, 15, 0xFFEFF47D)
    ensures Uses(55, 1, 21, 0x85845DD1)
  {
  }

  lemma Parameters56()
    ensures Uses(56, 8, 6, 0x6FA87E4F)
    ensures Uses(57, 15, 10, 0xFE2CE6E0)
    ensures Uses(58, 6, 15, 0xA3014314)
    ensures Uses(59, 13, 21, 0x4E0811A1)
  {
  }

  lemma Parameters60()
    ensures Uses(60, 4, 6, 0xF7537E82)
    ensures Uses(61, 11, 10, 0xBD3AF235)
    ensures Uses(62, 2, 15, 0x2AD7D2BB)
    ensures Uses(63, 9, 21, 0xEB86D391)
  {
  }

  method Round4(x: seq<bv64>, regs: Regs, ghost w: Words) returns (result: Regs)
    requires |x| == 16 && Low4(regs) == Steps(w, Lows(x), 48)
    ensures Low4(result) == Steps(w, Lows(x), 64)
  {
    hide Low, Operation, Steps, P, Uses, Lows, WordOf, RotationOf, Sine;
    ghost var xs := Lows(x);
    var a, b, c, d := regs.a, regs.b, regs.c, regs.d;
    FourSteps(w, xs, 48);
    Parameters48();
    a := P(48, 3, a, b, c, d, x, 0, 6, 0xF4292244);
    d := P(49, 3, d, a, b, c, x, 7, 10, 0x432AFF97);
    c := P(50, 3, c, d, a, b, x, 14, 15, 0xAB9423A7);
    b := P(51, 3, b, c, d, a, x, 5, 21, 0xFC93A039);
    assert Low4(Regs(a, b, c, d)) == Steps(w, xs, 52);
    FourSteps(w, xs, 52);
    Parameters52();
    a := P(52, 3, a, b, c, d, x, 12, 6, 0x655B59C3);
    d := P(53, 3, d, a, b, c, x, 3, 10, 0x8F0CCC92);
    c := P(54, 3, c, d, a, b, x, 10, 15, 0xFFEFF47D);
    b := P(55, 3, b, c, d, a, x, 1, 21, 0x85845DD1);
    assert Low4(Regs(a, b, c, d)) == Steps(w, xs, 56);
    FourSteps(w, xs, 56);
    Parameters56();
    a := P(56, 3, a, b, c, d, x, 8, 6, 0x6FA87E4F);
    d := P(57, 3, d, a, b, c, x, 15, 10, 0xFE2CE6E0);
    c := P(58, 3, c, d, a, b, x, 6, 15, 0xA3014314);
    b := P(59, 3, b, c, d, a, x, 13, 21, 0x4E0811A1);
    assert Low4(Regs(a, b, c, d)) == Steps(w, xs, 60);
    FourSteps(w, xs, 60);
    Parameters60();
    a := P(60, 3, a, b, c, d, x, 4, 6, 0xF7537E82);
    d := P(61, 3, d, a, b, c, x, 11, 10, 0xBD3AF235);
    c := P(62, 3, c, d, a, b, x, 2, 15, 0x2AD7D2BB);
    b := P(63, 3, b, c, d, a, x, 9, 21, 0xEB86D391);
    assert Low4(Regs(a, b, c, d)) == Steps(w, xs, 64);
    result := Regs(a, b, c, d);
  }

  function Word64(b0: bv8, b1: bv8, b2: bv8, b3: bv8): (r: bv64)
    ensures Low(r) == Word(b0, b1, b2, b3)
  {
    (b0 as bv64) | ((b1 as bv64) << 8) | ((b2 as bv64) << 16) | ((b3 as bv64) << 24)
  }

  lemma FirstStep(w: Words, x: seq<bv32>)
    requires |x| == 16
    ensures Steps(w, x, 0) == w
  {
  }

  /** `md5_process`, on the registers. */
  method Process(regs: Regs, data: seq<bv8>) returns (result: Regs)
    requires |data| == 64
    ensures Low4(result) == Compress(Low4(regs), data)
  {
    hide Low, Steps, Word, Word64, Add, Add32;
    var x := seq(16, i requires 0 <= i < 16 => Word64(data[4 * i], data[4 * i + 1], data[4 * i + 2], data[4 * i + 3]));
    assert Lows(x) == BlockWords(data);
    ghost var w := Low4(regs);
    FirstStep(w, Lows(x));
    var r := Round1(x, regs, w);
    r := Round2(x, r, w);
    r := Round3(x, r, w);
    r := Round4(x, r, w);
    result := Regs(Add(regs.a, r.a), Add(regs.b, r.b), Add(regs.c, r.c), Add(regs.d, r.d));
  }

  // ----- The context -----

  const WORD: nat := 0x1_0000_0000
  const UNSIGNED_LONG: nat := 0x1_0000_0000_0000_0000
  const REACH: nat := 0x2000_0000   // what the shift by three leaves of the high word
  const PADDING: seq<bv8> := [0x80] + Zeros(63)

  /** `(unsigned char) n`, `(unsigned char) (n >> 8)`, ... of a word. */
  function PutWord(n: bv64): (bytes: seq<bv8>)
    ensures bytes == WordBytes(Low(n))
  {
    [(n & 0xFF) as bv8, ((n >> 8) & 0xFF) as bv8, ((n >> 16) & 0xFF) as bv8, ((n >> 24) & 0xFF) as bv8]
  }

  function Start(): Regs { Regs(0x67452301, 0xEFCDAB89, 0x98BADCFE, 0x10325476) }

  lemma LowOfInitial()
    ensures Low4(Start()) == Initial()
  {
  }

  /** The message has a byte sequence of which whole blocks are hashed and the rest is buffered. */
  ghost predicate Holding(message: seq<bv8>, state: Words, buffer: seq<bv8>) {
    var k := |message| / 64;
    state == Hash(message, k) && |buffer| == 64 && buffer[..|message| % 64] == message[64 * k..]
  }

  lemma HoldingNothing(buffer: seq<bv8>)
    requires |buffer| == 64
    ensures Holding([], Initial(), buffer)
  {
  }

  /** Bytes that do not fill the block are only buffered. */
  lemma Buffered(message: seq<bv8>, state: Words, buffer: seq<bv8>, input: seq<bv8>, buffer': seq<bv8>)
    requires Holding(message, state, buffer)
    requires |message| % 64 + |input| < 64
    requires |buffer'| == 64 && buffer'[..|message| % 64 + |input|] == buffer[..|message| % 64] + input
    ensures Holding(message + input, state, buffer')
  {
    hide Compress;
    var n, k := |message|, |message| / 64;
    var m := message + input;
    assert |m| / 64 == k && |m| % 64 == n % 64 + |input|;
    HashOfPrefix(message, input, k);
    assert m[64 * k..] == message[64 * k..] + input;
  }

  /** Bytes that fill the block complete it. */
  lemma Completed(message: seq<bv8>, state: Words, buffer: seq<bv8>, input: seq<bv8>, buffer': seq<bv8>)
    requires Holding(message, state, buffer)
    requires |message| % 64 + |input| == 64 && |buffer'| == 64
    ensures var block := buffer[..|message| % 64] + input;
            |block| == 64 && Holding(message + input, Compress(state, block), buffer')
    ensures |message + input| % 64 == 0
  {
    hide Compress;
    var n, k := |message|, |message| / 64;
    var m := message + input;
    var block := buffer[..n % 64] + input;
    assert |m| == 64 * (k + 1);
    assert |m| / 64 == k + 1 && |m| % 64 == 0;
    HashOfPrefix(message, input, k);
    assert m[64 * k..64 * (k + 1)] == message[64 * k..] + input;
  }

  /** The low word of the length n. */
  function LowWord(n: nat): (low: nat)
    ensures low < WORD
  {
    n % WORD
  }

  /** The high word of the length n. */
  function HighWord(n: nat): nat { n / WORD % UNSIGNED_LONG }

  lemma HighWordOfNothing()
    ensures HighWord(0) == 0 && LowWord(0) == 0
  {
  }

  lemma AppendNothing(message: seq<bv8>, input: seq<bv8>)
    ensures |input| == 0 ==> message + input == message
  {
  }

  /** `total[0] & 0x3F` is the number of bytes in the block. */
  lemma BlockPosition(n: nat)
    ensures And(LowWord(n), 0x3F) == n % 64
  {
    assert IsPowerOfTwo(64);
    MaskIsModulo(n % WORD, 64);
    hide And, IsPowerOfTwo;
    var q, r := n / WORD, n % WORD;
    assert n == 64 * (0x400_0000 * q + r / 64) + r % 64;
    DivModUnique(n, 64, 0x400_0000 * q + r / 64, r % 64);
  }

  function NextHigh(total1: nat, total0: nat, ilen: nat): nat {
    if total0 < ilen then (total1 + 1) % UNSIGNED_LONG else total1
  }

  lemma LowWordOfSum(n: nat, ilen: nat)
    ensures LowWord(LowWord(n) + ilen) == LowWord(n + ilen)
  {
    assert n == WORD * (n / WORD) + n % WORD;
  }

  lemma WrapTwice(x: nat)
    ensures x % UNSIGNED_LONG % WORD == x % WORD
  {
    assert x == UNSIGNED_LONG * (x / UNSIGNED_LONG) + x % UNSIGNED_LONG;
  }

  /** The carry into the high word is right exactly when the low word overflows at most once, which
      is so for every call with fewer than 2^32 bytes. */
  lemma CarryIsExact(n: nat, high: nat, ilen: nat)
    requires ilen < UNSIGNED_LONG
    ensures high == HighWord(n) ==>
              (NextHigh(high, LowWord(LowWord(n) + ilen), ilen) == HighWord(n + ilen)
               <==> LowWord(n) + ilen < 2 * WORD)
  {
    var q, low := n / WORD, n % WORD;
    var c := (low + ilen) / WORD;
    assert n == WORD * q + low;
    assert (n + ilen) / WORD == q + c;
    if c >= 2 {
      assert (low + ilen) % WORD < ilen;
      assert c < WORD + 2;
    }
  }

  /** Adding a piece keeps the length right as far as it reaches the digest: the low word overflows
      at most once, or once more than a multiple of 2^29 times. */
  predicate LengthKept(total0: nat, ilen: nat) {
    total0 + ilen < 2 * WORD || (total0 + ilen) / WORD % REACH == 1
  }

  lemma KeptByNothing(total0: nat)
    requires total0 < WORD
    ensures LengthKept(total0, 0)
  {
  }

  lemma WrapsToReach(x: nat)
    ensures x % UNSIGNED_LONG % REACH == x % REACH
  {
    var k, r := x / UNSIGNED_LONG, x % UNSIGNED_LONG;
    assert x == REACH * (0x8_0000_0000 * k + r / REACH) + r % REACH;
    DivModUnique(x, REACH, 0x8_0000_0000 * k + r / REACH, r % REACH);
  }

  lemma StepRemainder(a: nat, i: nat)
    ensures var r := a % REACH + i % REACH; (a + i) % REACH == if r < REACH then r else r - REACH
  {
    var r := a % REACH + i % REACH;
    var k := a / REACH + i / REACH;
    if r < REACH { DivModUnique(a + i, REACH, k, r); } else { DivModUnique(a + i, REACH, k + 1, r - REACH); }
  }

  lemma SameStep(a: nat, b: nat, i: nat, j: nat)
    requires a % REACH == b % REACH
    ensures (a + i) % REACH == (b + j) % REACH <==> i % REACH == j % REACH
  {
    StepRemainder(a, i);
    StepRemainder(b, j);
  }

  /** The carry is right modulo 2^29 exactly under that condition. */
  lemma CarryReaches(n: nat, high: nat, ilen: nat)
    requires ilen < UNSIGNED_LONG && high < UNSIGNED_LONG
    ensures high % REACH == HighWord(n) % REACH ==>
              (NextHigh(high, LowWord(LowWord(n) + ilen), ilen) % REACH == HighWord(n + ilen) % REACH
               <==> LengthKept(LowWord(n), ilen))
  {
    var q, low := n / WORD, n % WORD;
    var c := (low + ilen) / WORD;
    var carry := if c == 0 then 0 else 1;
    assert n == WORD * q + low;
    assert (n + ilen) / WORD == q + c;
    assert LowWord(low + ilen) < ilen <==> c > 0;
    WrapsToReach(q);
    WrapsToReach(q + c);
    WrapsToReach(high + 1);
    if high % REACH == q % REACH { SameStep(high, q, carry, c); }
  }

  class Md5Context {
    var total0: nat              // total[0], an unsigned long
    var total1: nat              // total[1]
    var state: Regs
    const buffer: array<bv8>
    ghost var message: seq<bv8>  // everything given to md5_update since md5_starts

    ghost predicate Absorbed()
      reads this, buffer
    {
      buffer.Length == 64 && total0 == LowWord(|message|) && total1 < UNSIGNED_LONG
      && Holding(message, Low4(state), buffer[..])
    }

    /** The high word of the length is right as well. */
    ghost predicate Counted()
      reads this
    {
      total1 == HighWord(|message|)
    }

    /** As much of the high word is right as reaches the digest. */
    ghost predicate Measured()
      reads this
    {
      total1 % REACH == HighWord(|message|) % REACH
    }

    constructor ()
      ensures message == [] && fresh(buffer) && total1 == 0 && Counted() && Measured() && Absorbed()
    {
      buffer := new bv8[64];
      total0, total1 := 0, 0;
      state := Start();
      message := [];
      new;
      hide Low4, Start, Initial, Hash, HighWord, LowWord, Holding;
      HighWordOfNothing();
      LowOfInitial();
      HoldingNothing(buffer[..]);
    }

    /** The two counters of `md5_update`. */
    method Count(ilen: nat)
      requires ilen < UNSIGNED_LONG && total0 < WORD && total1 < UNSIGNED_LONG
      modifies this`total0, this`total1
      ensures total0 == LowWord(old(total0) + ilen) && total1 < UNSIGNED_LONG
      ensures total1 == NextHigh(old(total1), total0, ilen)
    {
      WrapTwice(total0 + ilen);
      total0 := (total0 + ilen) % UNSIGNED_LONG;
      total0 := total0 % WORD;
      if total0 < ilen { total1 := (total1 + 1) % UNSIGNED_LONG; }
    }

    /** Writes bytes into the block from a position on (`memcpy`). */
    method Copy(at: nat, bytes: seq<bv8>)
      requires at + |bytes| <= buffer.Length
      modifies buffer
      ensures buffer[..] == old(buffer[..])[..at] + bytes + old(buffer[..])[at + |bytes|..]
    {
      forall i | 0 <= i < |bytes| { buffer[at + i] := bytes[i]; }
    }

    /** The message, its hashed part and its buffered part; the counters apart. */
    ghost predicate Hashed()
      reads this, buffer
    {
      buffer.Length == 64 && Holding(message, Low4(state), buffer[..])
    }

    /** The loop of `md5_update`: hashes the whole blocks from position p of the input on. */
    method WholeBlocks(input: seq<bv8>, from: nat) returns (p: nat)
      requires Hashed() && from <= |input| && (|message| % 64 == 0 || |input| - from < 64)
      modifies this`state, this`message
      ensures Hashed() && from <= p <= |input| && message == old(message) + input[from..p] && |input| - p < 64
      ensures |message| % 64 == old(|message|) % 64
    {
      hide Holding, Compress, Low4;
      p := from;
      while |input| - p >= 64
        invariant from <= p <= |input| && message == old(message) + input[from..p]
        invariant Hashed() && (|message| % 64 == 0 || |input| - p < 64)
        invariant |message| % 64 == old(|message|) % 64
      {
        var block := input[p..p + 64];
        Completed(message, Low4(state), buffer[..], block, buffer[..]);
        assert buffer[..][..0] + block == block;
        state := Process(state, block);
        message := message + block;
        p := p + 64;
      }
    }

    /** The start of `md5_update`: completes a block that is partly filled. */
    method FillBlock(input: seq<bv8>, left: nat) returns (p: nat)
      requires Hashed() && left == |message| % 64
      modifies this`state, this`message, buffer
      ensures Hashed() && p <= |input| && message == old(message) + input[..p]
      ensures |message| % 64 == 0 || (p == 0 && |message| % 64 + |input| < 64)
    {
      hide Holding, Compress, Low4;
      var fill := 64 - left;
      p := 0;
      assert message + input[..0] == message;
      if left > 0 && |input| >= fill {
        Copy(left, input[..fill]);
        Completed(message, Low4(state), old(buffer[..]), input[..fill], buffer[..]);
        assert buffer[..] == old(buffer[..])[..left] + input[..fill];
        state := Process(state, buffer[..]);
        message := message + input[..fill];
        p := fill;
      }
    }

    /** The end of `md5_update`: keeps the bytes of an unfinished block. */
    method KeepRest(rest: seq<bv8>, left: nat)
      requires Hashed() && left == |message| % 64 && left + |rest| < 64
      modifies this`message, buffer
      ensures Hashed() && message == old(message) + rest
    {
      hide Holding, Low4;
      assert message + [] == message;
      if |rest| > 0 {
        Copy(left, rest);
        Buffered(message, Low4(state), old(buffer[..]), rest, buffer[..]);
      }
      message := message + rest;
    }

    method Absorb(input: seq<bv8>)
      requires Absorbed() && |input| < UNSIGNED_LONG
      modifies this, buffer
      ensures message == old(message) + input
      ensures old(Counted()) ==> (Counted() <==> old(total0) + |input| < 2 * WORD)
      ensures old(Measured()) ==> (Measured() <==> LengthKept(old(total0), |input|))
      ensures Absorbed() && total1 == NextHigh(old(total1), total0, |input|)
    {
      hide Holding, HighWord, LowWord, NextHigh, LengthKept, Low4;
      ghost var was := message;
      BlockPosition(|message|);
      var left := And(total0, 0x3F);
      CarryIsExact(|message|, total1, |input|);
      CarryReaches(|message|, total1, |input|);
      LowWordOfSum(|message|, |input|);
      Count(|input|);
      var p := FillBlock(input, left);
      if p > 0 { left := 0; }
      p := WholeBlocks(input, p);
      KeepRest(input[p..], left);
      assert message == was + input;
    }

    /** `md5_update`. */
    method Update(input: seq<bv8>)
      requires Absorbed() && |input| < UNSIGNED_LONG
      modifies this, buffer
      ensures message == old(message) + input
      ensures old(Counted()) ==> (Counted() <==> old(total0) + |input| < 2 * WORD)
      ensures old(Measured()) ==> (Measured() <==> LengthKept(old(total0), |input|))
      ensures Absorbed() && total1 == NextHigh(old(total1), total0, |input|)
    {
      AppendNothing(message, input);
      hide Holding, HighWord, LowWord, Low4;
      KeptByNothing(total0);
      if |input| > 0 { Absorb(input); }
    }
  }

  // ----- The digest -----

  /** The number of padding bytes of `md5_finish`. */
  function PaddingSize(last: nat): (padn: nat)
    requires last < 64
    ensures 1 <= padn <= 64
  {
    if last < 56 then 56 - last else 120 - last
  }

  /** The length as `md5_finish` writes it, from the two counters. */
  function MessageLength(total0: nat, total1: nat): (bytes: seq<bv8>)
    ensures |bytes| == 8
  {
    Bytes4(total0 * 8 % UNSIGNED_LONG) + Bytes4(Or(total0 / 0x2000_0000, ShiftLeft(total1, 3) % UNSIGNED_LONG))
  }

  lemma SameOctet(k: nat, x: nat)
    ensures (256 * k + x) % 256 == x % 256
  {
    DivModUnique(256 * k + x, 256, k + x / 256, x % 256);
  }

  lemma OctetsOfRemainder(x: nat)
    ensures x % 256 == x % WORD % 256 && x / 0x100 % 256 == x % WORD / 0x100 % 256
    ensures x / 0x1_0000 % 256 == x % WORD / 0x1_0000 % 256 && x / 0x100_0000 % 256 == x % WORD / 0x100_0000 % 256
  {
    var k, r := x / WORD, x % WORD;
    assert x == WORD * k + r;
    DivModUnique(x, 256, 0x100_0000 * k + r / 256, r % 256);
    DivModUnique(x, 0x1_0000, 0x1_0000 * k + r / 0x1_0000, r % 0x1_0000);
    DivModUnique(x, 0x100_0000, 0x100 * k + r / 0x100_0000, r % 0x100_0000);
    SameOctet(0x1_0000 * k, r / 256);
    SameOctet(0x100 * k, r / 0x1_0000);
    SameOctet(k, r / 0x100_0000);
  }

  lemma ShiftThree(u: nat)
    ensures ShiftLeft(u, 3) == 8 * u
  {
    assert ShiftLeft(u, 0) == u && ShiftLeft(u, 1) == 2 * u && ShiftLeft(u, 2) == 4 * u;
  }

  lemma HighBits(total0: nat, total1: nat)
    requires total0 < WORD
    ensures Or(total0 / 0x2000_0000, ShiftLeft(total1, 3) % UNSIGNED_LONG)
              == total0 / 0x2000_0000 + 8 * total1 % UNSIGNED_LONG
  {
    var u := total1 % 0x2000_0000_0000_0000;
    ShiftThree(total1);
    ShiftThree(u);
    ShiftThree(1);
    assert 8 * total1 % UNSIGNED_LONG == 8 * u;
    OrSplit(3, total0 / 0x2000_0000, u);
  }

  lemma FourDigits(r: nat)
    requires r < WORD
    ensures r == r % 256 + 0x100 * (r / 0x100 % 256) + 0x1_0000 * (r / 0x1_0000 % 256)
                 + 0x100_0000 * (r / 0x100_0000 % 256)
  {
    var a, b, c := r / 0x100, r / 0x1_0000, r / 0x100_0000;
    assert r == 256 * a + r % 256;
    DivModUnique(r, 0x1_0000, a / 256, 256 * (a % 256) + r % 256);
    DivModUnique(r, 0x100_0000, b / 256, 0x1_0000 * (b % 256) + r % 0x1_0000);
  }

  lemma FromOctets(x: nat)
    ensures x % WORD == x % 256 + 0x100 * (x / 0x100 % 256) + 0x1_0000 * (x / 0x1_0000 % 256)
                        + 0x100_0000 * (x / 0x100_0000 % 256)
  {
    OctetsOfRemainder(x);
    FourDigits(x % WORD);
  }

  /** Four bytes hold a number modulo 2^32, no more and no less. */
  lemma Bytes4Identify(x: nat, y: nat)
    ensures Bytes4(x) == Bytes4(y) <==> x % WORD == y % WORD
  {
    hide Octet;
    SameOctets(x, y);
    SameOctets(x / 0x100, y / 0x100);
    SameOctets(x / 0x1_0000, y / 0x1_0000);
    SameOctets(x / 0x100_0000, y / 0x100_0000);
    if x % WORD == y % WORD {
      OctetsOfRemainder(x);
      OctetsOfRemainder(y);
    }
    if Bytes4(x) == Bytes4(y) {
      assert Bytes4(x)[0] == Bytes4(y)[0] && Bytes4(x)[1] == Bytes4(y)[1];
      assert Bytes4(x)[2] == Bytes4(y)[2] && Bytes4(x)[3] == Bytes4(y)[3];
      FromOctets(x);
      FromOctets(y);
    }
  }

  /** What the shift by three and the four bytes leave of the high word. */
  lemma HighWordReaches(t: nat, high: nat)
    requires t < 8
    ensures (t + 8 * high % UNSIGNED_LONG) % WORD == 8 * (high % REACH) + t
  {
    var s := high % 0x2000_0000_0000_0000;
    DivModUnique(8 * high, UNSIGNED_LONG, high / 0x2000_0000_0000_0000, 8 * s);
    var k := high / 0x2000_0000_0000_0000;
    assert high == REACH * (0x1_0000_0000 * k + s / REACH) + s % REACH;
    DivModUnique(high, REACH, 0x1_0000_0000 * k + s / REACH, s % REACH);
    DivModUnique(t + 8 * s, WORD, s / REACH, 8 * (s % REACH) + t);
  }

  /** The length in bits in the same terms. */
  lemma BitsOfLength(n: nat)
    ensures 8 * LowWord(n) % UNSIGNED_LONG % WORD == 8 * n % WORD
    ensures LowWord(n) / REACH < 8 && 8 * n / WORD % WORD == 8 * (HighWord(n) % REACH) + LowWord(n) / REACH
  {
    var q, low := n / WORD, n % WORD;
    var t, u := low / REACH, low % REACH;
    assert n == WORD * q + low && low == REACH * t + u;
    assert 8 * low == WORD * t + 8 * u;
    DivModUnique(8 * low, WORD, t, 8 * u);
    DivModUnique(8 * n, WORD, 8 * q + t, 8 * u);
    DivModUnique(8 * low, UNSIGNED_LONG, 0, 8 * low);
    WrapsToReach(q);
    DivModUnique(8 * q + t, WORD, q / REACH, 8 * (q % REACH) + t);
  }

  lemma SecondHalf(s: seq<bv8>, t: seq<bv8>, a: seq<bv8>, b: seq<bv8>, c: seq<bv8>, d: seq<bv8>)
    requires s == a + b && t == c + d && a == c && |a| == 4
    ensures s == t <==> b == d
  {
    assert s[4..] == b && t[4..] == d;
  }

  /** The eight bytes that `md5_finish` writes are the standard's length exactly when the high word is
      right modulo 2^29. */
  lemma LengthField(n: nat, high: nat)
    ensures MessageLength(LowWord(n), high) == Bytes8(8 * n) <==> high % REACH == HighWord(n) % REACH
  {
    hide Bytes4, LowWord, HighWord;
    var low := LowWord(n);
    HighBits(low, high);
    BitsOfLength(n);
    Bytes4Identify(8 * low % UNSIGNED_LONG, 8 * n);
    HighWordReaches(low / REACH, high);
    Bytes4Identify(low / REACH + 8 * high % UNSIGNED_LONG, 8 * n / WORD);
    SecondHalf(MessageLength(low, high), Bytes8(8 * n), Bytes4(8 * low % UNSIGNED_LONG),
               Bytes4(low / REACH + 8 * high % UNSIGNED_LONG), Bytes4(8 * n), Bytes4(8 * n / WORD));
  }

  /** The counters stand for the length in bits modulo 2^64. */
  lemma LengthInBits(n: nat)
    ensures MessageLength(LowWord(n), HighWord(n)) == Bytes8(8 * n)
  {
    LengthField(n, HighWord(n));
  }

  /** The length that one call with a message of n bytes puts into the digest. */
  function OneCallLength(n: nat): seq<bv8> {
    MessageLength(LowWord(n), NextHigh(0, LowWord(n), n))
  }

  /** It is right if and only if the message is shorter than 2^33 bytes or overflows the low word once
      more than a multiple of 2^29 times. */
  lemma OneCallIsRight(n: nat)
    requires n < UNSIGNED_LONG
    ensures OneCallLength(n) == Bytes8(8 * n) <==> n < 2 * WORD || n / WORD % REACH == 1
  {
    hide MessageLength, Bytes8;
    var high := NextHigh(0, LowWord(n), n);
    assert high == if n < WORD then 0 else 1;
    LengthField(n, high);
  }

  /** One call with 2^33 bytes leaves a wrong length; one with 2^61 + 2^32 bytes overflows the low word
      2^29 + 1 times and yet leaves the right one, with a wrong counter. */
  lemma LengthsOfOneCall()
    ensures OneCallLength(2 * WORD) != Bytes8(8 * (2 * WORD))
    ensures var n := WORD * (REACH + 1);
            OneCallLength(n) == Bytes8(8 * n) && NextHigh(0, LowWord(n), n) != HighWord(n)
  {
    hide OneCallLength, Bytes8;
    var n := WORD * (REACH + 1);
    assert HighWord(2 * WORD) == 2 && LowWord(n) == 0 && HighWord(n) == REACH + 1 && NextHigh(0, 0, n) == 1;
    OneCallIsRight(2 * WORD);
    OneCallIsRight(n);
  }

  lemma PaddingIsStandard(m: seq<bv8>, length: seq<bv8>)
    ensures m + PADDING[..PaddingSize(|m| % 64)] + length == PaddedWith(m, length)
  {
    var padn := PaddingSize(|m| % 64);
    assert ZeroCount(|m|) == padn - 1;
    assert PADDING[..padn] == [0x80] + Zeros(padn - 1);
    hide ZeroCount;
    assert m + PADDING[..padn] == m + [0x80] + Zeros(padn - 1);
  }

  lemma HashOfWholeBlocks(message: seq<bv8>, state: Words, buffer: seq<bv8>)
    requires Holding(message, state, buffer)
    ensures state == Hash(message, |message| / 64)
  {
  }

  function OutputOf(r: Regs): (bytes: seq<bv8>)
    ensures bytes == Output(Low4(r))
  {
    hide Low, WordBytes;
    PutWord(r.a) + PutWord(r.b) + PutWord(r.c) + PutWord(r.d)
  }

  /** `md5_finish`: the digest of everything absorbed, with the length as the counters have it.  That is
      the standard's digest when the length is right as far as it reaches. */
  method Finish(context: Md5Context) returns (output: seq<bv8>)
    requires context.Absorbed()
    modifies context, context.buffer
    ensures output == DigestWith(old(context.message), old(MessageLength(context.total0, context.total1)))
    ensures old(context.Measured()) ==> output == Digest(old(context.message))
  {
    hide Holding, Low4, Hash, LowWord, HighWord, PaddedWith, MessageLength, PaddingSize, And, Bytes8;
    ghost var m := context.message;
    var msglen := MessageLength(context.total0, context.total1);
    LengthField(|m|, context.total1);
    BlockPosition(|m|);
    var last := And(context.total0, 0x3F);
    var padn := PaddingSize(last);
    context.Update(PADDING[..padn]);
    context.Update(msglen);
    PaddingIsStandard(m, msglen);
    HashOfWholeBlocks(context.message, Low4(context.state), context.buffer[..]);
    output := OutputOf(context.state);
  }

  /** The first n pieces in a row. */
  function Joined(chunks: seq<seq<bv8>>, n: nat): seq<bv8>
    requires n <= |chunks|
  {
    if n == 0 then [] else Joined(chunks, n - 1) + chunks[n - 1]
  }

  /** How many of the first n calls make the low word of the length wrap: each adds one to the high word. */
  function Carries(chunks: seq<seq<bv8>>, n: nat): nat
    requires n <= |chunks|
  {
    if n == 0 then 0
    else Carries(chunks, n - 1) + if LowWord(|Joined(chunks, n)|) < |chunks[n - 1]| then 1 else 0
  }

  /** The length that these calls put into the digest. */
  function ChunksLength(chunks: seq<seq<bv8>>): seq<bv8> {
    MessageLength(LowWord(|Joined(chunks, |chunks|)|), Carries(chunks, |chunks|) % UNSIGNED_LONG)
  }

  lemma HighWordMeets(n: nat)
    ensures HighWord(n) % REACH == n / WORD % REACH
  {
    WrapsToReach(n / WORD);
  }

  /** Several calls may repair what one of them did: the length is right if and only if the number of
      calls that make the low word wrap is the high word, modulo 2^29. */
  lemma ChunksLengthIsRight(chunks: seq<seq<bv8>>)
    ensures var n := |Joined(chunks, |chunks|)|;
            ChunksLength(chunks) == Bytes8(8 * n) <==> Carries(chunks, |chunks|) % REACH == n / WORD % REACH
  {
    hide MessageLength, Bytes8, Joined, Carries, HighWord, LowWord;
    HighWordMeets(|Joined(chunks, |chunks|)|);
    WrapsToReach(Carries(chunks, |chunks|));
    LengthField(|Joined(chunks, |chunks|)|, Carries(chunks, |chunks|) % UNSIGNED_LONG);
  }

  lemma OneCarry(a: nat, b: nat)
    requires b < WORD
    ensures (a + b) / WORD == a / WORD + if LowWord(a + b) < b then 1 else 0
  {
    var q, r := a / WORD, a % WORD;
    assert a == WORD * q + r;
    if r + b < WORD { DivModUnique(a + b, WORD, q, r + b); } else { DivModUnique(a + b, WORD, q + 1, r + b - WORD); }
  }

  lemma {:induction false} SmallChunksCarry(chunks: seq<seq<bv8>>, n: nat)
    requires n <= |chunks| && forall i :: 0 <= i < n ==> |chunks[i]| < WORD
    ensures Carries(chunks, n) == |Joined(chunks, n)| / WORD
  {
    if n > 0 {
      SmallChunksCarry(chunks, n - 1);
      OneCarry(|Joined(chunks, n - 1)|, |chunks[n - 1]|);
    }
  }

  /** After n calls the high word is the number of carries. */
  lemma NextCarry(chunks: seq<seq<bv8>>, n: nat)
    requires n < |chunks|
    ensures NextHigh(Carries(chunks, n) % UNSIGNED_LONG, LowWord(|Joined(chunks, n + 1)|), |chunks[n]|)
         == Carries(chunks, n + 1) % UNSIGNED_LONG
  {
    var c := Carries(chunks, n);
    hide LowWord, Joined;
    assert Carries(chunks, n + 1) == c + if LowWord(|Joined(chunks, n + 1)|) < |chunks[n]| then 1 else 0;
    hide Carries;
    assert (c % UNSIGNED_LONG + 1) % UNSIGNED_LONG == (c + 1) % UNSIGNED_LONG;
  }

  lemma NoCarries(chunks: seq<seq<bv8>>)
    ensures Carries(chunks, 0) == 0
  {
  }

  /** `md5_starts`, any number of `md5_update` calls and `md5_finish`: however the message is cut into
      pieces of fewer than 2^32 bytes, the result is its digest.  With longer pieces it is the digest with
      the length that the calls leave. */
  method DigestOfChunks(chunks: seq<seq<bv8>>) returns (output: seq<bv8>)
    requires forall i :: 0 <= i < |chunks| ==> |chunks[i]| < UNSIGNED_LONG
    ensures output == DigestWith(Joined(chunks, |chunks|), ChunksLength(chunks))
    ensures (forall i :: 0 <= i < |chunks| ==> |chunks[i]| < WORD) ==> output == Digest(Joined(chunks, |chunks|))
  {
    hide DigestWith, Carries, LengthKept, MessageLength, LowWord, Holding, NextHigh, Bytes8, HighWord;
    var context := new Md5Context();
    NoCarries(chunks);
    for i := 0 to |chunks|
      invariant context.Absorbed() && context.message == Joined(chunks, i)
      invariant context.total1 == Carries(chunks, i) % UNSIGNED_LONG
      invariant fresh(context) && fresh(context.buffer)
    {
      NextCarry(chunks, i);
      context.Update(chunks[i]);
    }
    if forall i :: 0 <= i < |chunks| ==> |chunks[i]| < WORD {
      SmallChunksCarry(chunks, |chunks|);
      ChunksLengthIsRight(chunks);
    }
    output := Finish(context);
  }

  lemma NothingBefore(input: seq<bv8>)
    ensures [] + input == input
  {
  }

  /** `md5`: the whole message in one call, with the length that the counters then have. */
  method DigestOf(input: seq<bv8>) returns (output: seq<bv8>)
    requires |input| < UNSIGNED_LONG
    ensures output == DigestWith(input, OneCallLength(|input|))
    ensures |input| < 2 * WORD || |input| / WORD % REACH == 1 ==> output == Digest(input)
  {
    hide DigestWith, Holding, HighWord, LowWord, MessageLength, Bytes8, LengthKept, NextHigh, PaddedWith;
    var context := new Md5Context();
    context.Update(input);
    NothingBefore(input);
    OneCallIsRight(|input|);
    output := Finish(context);
  }
}
