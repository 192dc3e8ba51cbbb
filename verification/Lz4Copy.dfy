/** Reads and copies wider than a byte: the four-byte word with its hash, the word-at-a-time match
    counter, and the eight-byte copy loop that may run past its end. */
module Lz4Copy {
  import opened Bits
  import opened Lz4Format

  // ----- Four-byte words -----

  function Pack32(b0: int, b1: int, b2: int, b3: int): int {
    b0 + 256 * (b1 + 256 * (b2 + 256 * b3))
  }

  /** `A32(p)` on a little-endian machine. */
  function A32(s: seq<Byte>, p: nat): (w: nat)
    requires p + 4 <= |s|
    ensures w < 0x1_0000_0000
  {
    Pack32(s[p], s[p + 1], s[p + 2], s[p + 3])
  }

  function TableSize(small: bool): nat { if small then 8192 else 4096 }

  /** `LZ4_HASH_FUNCTION` for a table of 2^12 or 2^13 slots. */
  function Hash(word: nat, small: bool): (h: nat)
    ensures h < TableSize(small)
  {
    word * 2654435761 % 0x1_0000_0000 / (if small then 0x8_0000 else 0x10_0000)
  }

  /** "abcd" is 0x64636261; the upper twelve and thirteen bits of its product with 2654435761 are its slots. */
  lemma HashOfExample()
    ensures A32([97, 98, 99, 100], 0) == 0x64636261
    ensures Hash(0x64636261, false) == 1584 && Hash(0x64636261, true) == 3169
  {
  }

  /** The first `count` bytes at i and at j are the same. */
  ghost predicate SameBytes(s: seq<Byte>, i: nat, j: nat, count: nat)
    requires i + count <= |s| && j + count <= |s|
  {
    forall k :: i <= k < i + count ==> s[k] == s[k - i + j]
  }

  lemma LowByte(x: Byte, y: Byte, u: int, v: int)
    ensures x + 256 * u == y + 256 * v <==> x == y && u == v
  {
  }

  lemma WordsEqual(s: seq<Byte>, i: nat, j: nat)
    requires i + 4 <= |s| && j + 4 <= |s|
    ensures A32(s, i) == A32(s, j) <==> SameBytes(s, i, j, 4)
  {
    LowByte(s[i], s[j], Pack32(s[i + 1], s[i + 2], s[i + 3], 0), Pack32(s[j + 1], s[j + 2], s[j + 3], 0));
    LowByte(s[i + 1], s[j + 1], Pack32(s[i + 2], s[i + 3], 0, 0), Pack32(s[j + 2], s[j + 3], 0, 0));
    LowByte(s[i + 2], s[j + 2], s[i + 3], s[j + 3]);
  }

  /** `LZ4_NbCommonBytes_LittleEndian` */
  function NbCommonBytes(diff: nat): nat
    requires diff > 0
  {
    CountTrailingZeros(diff) / 8
  }

  lemma XorByte(x: nat, y: nat, u: nat, v: nat)
    requires x < 256 && y < 256
    ensures Xor(x + 256 * u, y + 256 * v) == Xor(x, y) + 256 * Xor(u, v)
  {
    XorSplit(8, x, y, u, v);
    ShiftByte(1);
    ShiftByte(u);
    ShiftByte(v);
    ShiftByte(Xor(u, v));
  }

  lemma XorBelow256(x: nat, y: nat)
    requires x < 256 && y < 256
    ensures Xor(x, y) < 256
  {
    XorBelow(8, x, y);
    ShiftByte(1);
  }

  /** Dropping one equal byte from two words drops eight trailing zeros from their difference. */
  lemma CommonByte(x: Byte, y: Byte, u: nat, v: nat)
    requires x != y || u != v
    ensures Xor(x + 256 * u, y + 256 * v) > 0
    ensures x != y ==> NbCommonBytes(Xor(x + 256 * u, y + 256 * v)) == 0
    ensures x == y ==> Xor(u, v) > 0
                       && NbCommonBytes(Xor(x + 256 * u, y + 256 * v)) == 1 + NbCommonBytes(Xor(u, v))
  {
    XorByte(x, y, u, v);
    XorZero(x, y);
    XorZero(u, v);
    XorBelow256(x, y);
    ShiftByte(1);
    ShiftByte(Xor(u, v));
    TrailingZerosSplit(8, Xor(x, y), Xor(u, v));
  }

  /** The trailing zeros of the difference of two words count their equal leading bytes. */
  lemma CommonBytes(s: seq<Byte>, i: nat, j: nat)
    requires i + 4 <= |s| && j + 4 <= |s| && A32(s, i) != A32(s, j)
    ensures var d := Xor(A32(s, i), A32(s, j));
            d > 0 && NbCommonBytes(d) < 4
            && SameBytes(s, i, j, NbCommonBytes(d))
            && s[i + NbCommonBytes(d)] != s[j + NbCommonBytes(d)]
  {
    hide Xor, NbCommonBytes;
    CommonByte(s[i], s[j], Pack32(s[i + 1], s[i + 2], s[i + 3], 0), Pack32(s[j + 1], s[j + 2], s[j + 3], 0));
    if s[i] == s[j] {
      CommonByte(s[i + 1], s[j + 1], Pack32(s[i + 2], s[i + 3], 0, 0), Pack32(s[j + 2], s[j + 3], 0, 0));
      if s[i + 1] == s[j + 1] {
        CommonByte(s[i + 2], s[j + 2], s[i + 3], s[j + 3]);
        if s[i + 2] == s[j + 2] {
          CommonByte(s[i + 3], s[j + 3], 0, 0);
        }
      }
    }
  }

  // ----- The match counter -----

  /** Bytes [from, to) of s repeat the bytes `offset` back. */
  ghost predicate Repeats(s: seq<Byte>, from: nat, to: nat, offset: nat)
    requires offset <= from && to <= |s|
  {
    forall j :: from <= j < to ==> s[j] == s[j - offset]
  }

  /** Extends a match as far as it goes without touching the last five bytes. */
  method CountMatch(src: seq<Byte>, ref0: nat, ip0: nat) returns (ip: nat)
    requires ref0 < ip0 <= |src| - LASTLITERALS - 3
    ensures ip0 <= ip <= |src| - LASTLITERALS
    ensures Repeats(src, ip0, ip, ip0 - ref0)
    ensures ip == |src| - LASTLITERALS || src[ip] != src[ip - (ip0 - ref0)]
  {
    var matchlimit := |src| - LASTLITERALS;
    ghost var offset := ip0 - ref0;
    ip := ip0;
    var ref := ref0;
    hide Xor, NbCommonBytes, A32;
    while ip < matchlimit - 3
      invariant ip0 <= ip <= matchlimit && ip - ref == offset
      invariant Repeats(src, ip0, ip, offset)
    {
      var diff := Xor(A32(src, ip), A32(src, ref));
      XorZero(A32(src, ip), A32(src, ref));
      if diff == 0 {
        WordsEqual(src, ip, ref);
        ip, ref := ip + 4, ref + 4;
      } else {
        CommonBytes(src, ip, ref);
        ip := ip + NbCommonBytes(diff);
        return;
      }
    }
    if ip < matchlimit - 1 && src[ref] == src[ip] && src[ref + 1] == src[ip + 1] { // A16(ref) == A16(ip)
      ip, ref := ip + 2, ref + 2;
    }
    if ip < matchlimit && src[ref] == src[ip] {
      ip := ip + 1;
    }
  }

  // ----- The eight-byte copy loop -----

  lemma StepFits(i: nat, length: nat)
    requires i % COPYLENGTH == 0 && (i == 0 || i < length)
    ensures i + COPYLENGTH <= WildLength(length)
    ensures i + COPYLENGTH >= length ==> i + COPYLENGTH == WildLength(length)
  {
  }

  /** The bytes from index `from` on are as they were. */
  twostate predicate SameFrom(dest: array<Byte>, from: nat)
    reads dest
  {
    forall k :: from <= k < dest.Length ==> dest[k] == old(dest[k])
  }

  /** `LZ4_WILDCOPY` from a separate buffer: copies eight bytes at a time and tests last, so up to
      eight bytes past the end are overwritten. */
  method WildCopy(src: seq<Byte>, s: nat, dest: array<Byte>, d: nat, length: nat)
    requires s + WildLength(length) <= |src| && d + WildLength(length) <= dest.Length
    modifies dest
    ensures dest[..d + length] == old(dest[..d]) + src[s..s + length]
    ensures dest[..] == old(dest[..d]) + src[s..s + WildLength(length)] + old(dest[d + WildLength(length)..])
    ensures SameFrom(dest, d + WildLength(length))
  {
    hide WildLength;
    var i := 0;
    while true
      invariant i % COPYLENGTH == 0 && (i == 0 || i < length)
      invariant forall k :: 0 <= k < dest.Length && !(d <= k < d + i) ==> dest[k] == old(dest[k])
      invariant forall k :: d <= k < d + i ==> dest[k] == src[k - d + s]
      decreases length - i
    {
      StepFits(i, length);
      forall k | d + i <= k < d + i + COPYLENGTH {
        dest[k] := src[k - d + s];
      }
      i := i + COPYLENGTH;
      if i >= length { return; }
    }
  }

  /** `memcpy` from a separate buffer. */
  method MemCpy(src: seq<Byte>, s: nat, dest: array<Byte>, d: nat, length: nat)
    requires s + length <= |src| && d + length <= dest.Length
    modifies dest
    ensures dest[..d + length] == old(dest[..d]) + src[s..s + length]
    ensures SameFrom(dest, d + length)
  {
    forall k | d <= k < d + length {
      dest[k] := src[k - d + s];
    }
  }
}
