/** The slot allocator: 256 buckets of 4096 slots, a bitmap searched by halving 64-bit words, and
    memory taken from the system one bucket at a time. */
module Memory {
  import opened Bits
  import opened BufferSizes

  const SLOT_COUNT: nat := 1048576
  const BUCKET_SIZE: nat := 16777216
  const BUCKET_CAPACITY: nat := 4096
  const BUCKET_COUNT: nat := 256
  const M_MAP_SIZE: nat := SLOT_COUNT
  const INVILID_BLOCK: int := -1
  const ALL_ONES: Byte := 255

  // ----- The bitmap -----

  /** Slots are numbered from the most significant bit of each byte. */
  predicate BitSet(b: Byte, index: nat)
    requires index < 8
  {
    TestBit(b, 7 - index)
  }

  predicate Taken(m: seq<Byte>, id: nat)
    requires id / 8 < |m|
  {
    BitSet(m[id / 8], id % 8)
  }

  function ShiftRight(x: nat, k: nat): nat { if k == 0 then x else ShiftRight(x / 2, k - 1) }

  lemma {:induction false} ShiftRightBit(x: nat, k: nat)
    ensures TestBit(x, k) == (ShiftRight(x, k) % 2 == 1)
  {
    if k > 0 { ShiftRightBit(x / 2, k - 1); }
  }

  /** `(u_int8_t)((b >> 7 - i) << 7) == 0` */
  predicate TestsClear(b: Byte, i: nat)
    requires i < 8
    ensures TestsClear(b, i) == !BitSet(b, i)
  {
    ShiftRightBit(b, 7 - i);
    ShiftRight(b, 7 - i) * 128 % 256 == 0
  }

  lemma NotFull(b: Byte)
    ensures b != ALL_ONES <==> exists k :: 0 <= k < 8 && !BitSet(b, k)
  {
    ShiftByte(1);
    if b == ALL_ONES {
      forall k | 0 <= k < 8 ensures BitSet(b, k) { AllOnesSet(8, 7 - k); }
    } else {
      var j := SomeBitClear(8, b);
      assert !BitSet(b, 7 - j);
    }
  }

  lemma {:induction false} ShiftGrows(i: nat, k: nat)
    requires i < k
    ensures 0 < ShiftLeft(1, i) < ShiftLeft(1, k)
  {
    if i > 0 { ShiftGrows(i - 1, k - 1); } else if k > 1 { ShiftGrows(0, k - 1); }
  }

  lemma SmallShift(i: nat)
    requires i < 8
    ensures ShiftLeft(1, i) < ShiftLeft(1, 8)
  {
    ShiftGrows(i, 8);
  }

  lemma SetOneBit(b: Byte, i: nat)
    requires i < 8
    ensures var c := Or(b, ShiftLeft(1, 7 - i));
            c < 256 && forall k :: 0 <= k < 8 ==> BitSet(c, k) == (k == i || BitSet(b, k))
  {
    hide Or, TestBit;
    SmallShift(7 - i);
    ShiftByte(1);
    OrBelow(8, b, ShiftLeft(1, 7 - i));
    var c: Byte := Or(b, ShiftLeft(1, 7 - i));
    forall k | 0 <= k < 8 ensures BitSet(c, k) == (k == i || BitSet(b, k)) {
      OrBit(b, ShiftLeft(1, 7 - i), 7 - k);
      SingleBit(7 - i, 7 - k);
    }
  }

  /** `get_bit`: the index of the first clear bit, and the byte with that bit set. */
  method GetBit(b: Byte) returns (i: nat, b': Byte)
    requires b != ALL_ONES
    ensures i < 8 && !BitSet(b, i) && forall k :: 0 <= k < i ==> BitSet(b, k)
    ensures forall k :: 0 <= k < 8 ==> BitSet(b', k) == (k == i || BitSet(b, k))
  {
    NotFull(b);
    i := 0;
    while !TestsClear(b, i)
      invariant i < 8 && forall k :: 0 <= k < i ==> BitSet(b, k)
      invariant exists k :: i <= k < 8 && !BitSet(b, k)
      decreases 8 - i
    {
      i := i + 1;
    }
    SetOneBit(b, i);
    b' := Or(b, ShiftLeft(1, 7 - i));
  }

  lemma ClearOneBit(b: Byte, i: nat)
    requires i < 8 && BitSet(b, i)
    ensures var c := Xor(b, ShiftLeft(1, 7 - i));
            c < 256 && forall k :: 0 <= k < 8 ==> BitSet(c, k) == (k != i && BitSet(b, k))
  {
    hide Xor, TestBit;
    SmallShift(7 - i);
    ShiftByte(1);
    XorBelow(8, b, ShiftLeft(1, 7 - i));
    var c: Byte := Xor(b, ShiftLeft(1, 7 - i));
    forall k | 0 <= k < 8 ensures BitSet(c, k) == (k != i && BitSet(b, k)) {
      XorBit(b, ShiftLeft(1, 7 - i), 7 - k);
      SingleBit(7 - i, 7 - k);
    }
  }

  lemma ByteFromBits(b: Byte, c: Byte)
    requires forall k :: 0 <= k < 8 ==> BitSet(b, k) == BitSet(c, k)
    ensures b == c
  {
    hide TestBit, ShiftLeft;
    forall k: nat | k < 8 ensures TestBit(b, k) == TestBit(c, k) { assert BitSet(b, 7 - k) == BitSet(c, 7 - k); }
    assert SameBits(8, b, c);
    SameLowBits(8, b, c);
    ShiftByte(1);
  }

  lemma BitsOfExample()
    ensures BitSet(250, 0) && BitSet(250, 1) && BitSet(250, 2) && BitSet(250, 3) && BitSet(250, 4)
    ensures !BitSet(250, 5) && BitSet(250, 6) && !BitSet(250, 7)
    ensures BitSet(254, 0) && BitSet(254, 1) && BitSet(254, 2) && BitSet(254, 3) && BitSet(254, 4)
    ensures BitSet(254, 5) && BitSet(254, 6) && !BitSet(254, 7)
  {
  }

  /** The example in the source: of 11111010 bit five, counted from the left, is the first that is clear. */
  method GetBitOfExample() returns (index: nat, byte: Byte)
    ensures index == 5 && byte == 254
  {
    hide BitSet;
    index, byte := GetBit(250);
    BitsOfExample();
    ByteFromBits(byte, 254);
  }

  // ----- Wide reads of the bitmap -----

  function Word16(m: seq<Byte>, p: nat): nat
    requires p + 2 <= |m|
  {
    m[p] as nat + 256 * m[p + 1] as nat
  }

  function Word32(m: seq<Byte>, p: nat): nat
    requires p + 4 <= |m|
  {
    Word16(m, p) + 0x1_0000 * Word16(m, p + 2)
  }

  function Word64(m: seq<Byte>, p: nat): nat
    requires p + 8 <= |m|
  {
    Word32(m, p) + 0x1_0000_0000 * Word32(m, p + 4)
  }

  /** Bytes [from, to) have all bits set. */
  ghost predicate Full(m: seq<Byte>, from: nat, to: nat)
    requires to <= |m|
  {
    forall p :: from <= p < to ==> m[p] == ALL_ONES
  }

  lemma QuarterFull(m: seq<Byte>, p: nat)
    requires p + 2 <= |m|
    ensures Word16(m, p) <= 0xFFFF && (Word16(m, p) == 0xFFFF <==> Full(m, p, p + 2))
  {
    assert Full(m, p, p + 2) <==> m[p] == ALL_ONES && m[p + 1] == ALL_ONES;
  }

  lemma HalfFull(m: seq<Byte>, p: nat)
    requires p + 4 <= |m|
    ensures Word16(m, p) <= 0xFFFF && (Word16(m, p) == 0xFFFF <==> Full(m, p, p + 2))
    ensures Word32(m, p) <= 0xFFFF_FFFF && (Word32(m, p) == 0xFFFF_FFFF <==> Full(m, p, p + 4))
  {
    QuarterFull(m, p);
    QuarterFull(m, p + 2);
  }

  lemma WordsFull(m: seq<Byte>, p: nat)
    requires p + 8 <= |m|
    ensures Word16(m, p) == 0xFFFF <==> Full(m, p, p + 2)
    ensures Word16(m, p + 4) == 0xFFFF <==> Full(m, p + 4, p + 6)
    ensures Word32(m, p) == 0xFFFF_FFFF <==> Full(m, p, p + 4)
    ensures Word64(m, p) == 0xFFFF_FFFF_FFFF_FFFF <==> Full(m, p, p + 8)
  {
    HalfFull(m, p);
    HalfFull(m, p + 4);
    assert Word64(m, p) == 0xFFFF_FFFF_FFFF_FFFF <==> Word32(m, p) == 0xFFFF_FFFF && Word32(m, p + 4) == 0xFFFF_FFFF;
    hide Word64, Word32, Word16;
  }

  /** The word-halving search: the first byte of a word that has a clear bit. */
  function FirstOpenByte(m: seq<Byte>, p: nat): (q: nat)
    requires p + 8 <= |m| && Word64(m, p) != 0xFFFF_FFFF_FFFF_FFFF
    ensures p <= q < p + 8 && m[q] != ALL_ONES && Full(m, p, q)
  {
    WordsFull(m, p);
    if Word32(m, p) != 0xFFFF_FFFF then
      if Word16(m, p) != 0xFFFF then
        if m[p] != ALL_ONES then p else p + 1
      else
        if m[p + 2] != ALL_ONES then p + 2 else p + 3
    else
      if Word16(m, p + 4) != 0xFFFF then
        if m[p + 4] != ALL_ONES then p + 4 else p + 5
      else
        if m[p + 6] != ALL_ONES then p + 6 else p + 7
  }

  // ----- Counting -----

  function BucketOf(id: nat): nat { id / BUCKET_CAPACITY }

  function InBucket(live: set<nat>, b: nat): set<nat> {
    set id | id in live && BucketOf(id) == b
  }

  function Range(from: nat, count: nat): set<nat> {
    if count == 0 then {} else Range(from, count - 1) + {from + count - 1}
  }

  lemma {:induction false} RangeSize(from: nat, count: nat)
    ensures |Range(from, count)| == count
    ensures forall id: nat :: id in Range(from, count) <==> from <= id < from + count
  {
    if count > 0 { RangeSize(from, count - 1); }
  }

  lemma SubsetSize(a: set<nat>, b: set<nat>)
    requires a <= b
    ensures |a| <= |b| && (|a| == |b| ==> a == b)
  {
    assert b == a + (b - a);
    assert |b| == |a| + |b - a|;
  }

  /** A bucket's count says whether a slot of it is free. */
  lemma BucketCount(live: set<nat>, b: nat)
    ensures |InBucket(live, b)| <= BUCKET_CAPACITY
    ensures |InBucket(live, b)| == BUCKET_CAPACITY <==> forall id :: BucketOf(id) == b ==> id in live
  {
    var all := Range(b * BUCKET_CAPACITY, BUCKET_CAPACITY);
    RangeSize(b * BUCKET_CAPACITY, BUCKET_CAPACITY);
    assert forall id: nat :: id in all <==> BucketOf(id) == b;
    hide Range;
    SubsetSize(InBucket(live, b), all);
    if forall id :: BucketOf(id) == b ==> id in live {
      assert InBucket(live, b) == all;
    }
  }

  lemma AddToBucket(live: set<nat>, id: nat)
    requires id !in live
    ensures |InBucket(live + {id}, BucketOf(id))| == |InBucket(live, BucketOf(id))| + 1
    ensures forall b: nat :: b != BucketOf(id) ==> InBucket(live + {id}, b) == InBucket(live, b)
  {
    assert InBucket(live + {id}, BucketOf(id)) == InBucket(live, BucketOf(id)) + {id};
  }

  lemma DropFromBucket(live: set<nat>, id: nat)
    requires id in live
    ensures |InBucket(live - {id}, BucketOf(id))| == |InBucket(live, BucketOf(id))| - 1
    ensures forall b: nat :: b != BucketOf(id) ==> InBucket(live - {id}, b) == InBucket(live, b)
  {
    assert InBucket(live, BucketOf(id)) == InBucket(live - {id}, BucketOf(id)) + {id};
  }

  lemma SetByte(m: seq<Byte>, q: nat, b: Byte, i: nat, on: bool)
    requires q < |m| && i < 8
    requires forall k :: 0 <= k < 8 ==> BitSet(b, k) == (if k == i then on else BitSet(m[q], k))
    ensures forall id: nat :: id / 8 < |m| ==> Taken(m[q := b], id) == (if id == 8 * q + i then on else Taken(m, id))
  {
    assert (8 * q + i) / 8 == q && (8 * q + i) % 8 == i;
    forall id: nat | id / 8 < |m| ensures Taken(m[q := b], id) == (if id == 8 * q + i then on else Taken(m, id)) {
      if id / 8 == q { assert id == 8 * q + id % 8; }
    }
  }

  lemma TakenBit(m: seq<Byte>, id: nat)
    requires id / 8 < |m| && Taken(m, id)
    ensures BitSet(m[id / 8], id % 8)
  {
  }

  lemma FullBytesAreTaken(m: seq<Byte>, from: nat, to: nat, id: nat)
    requires to <= |m| && Full(m, from, to) && from <= id / 8 < to
    ensures Taken(m, id)
  {
    NotFull(m[id / 8]);
  }

  // ----- The allocator -----

  class GkoAlloc {
    const m_map: array<Byte>
    const bucket_s: array<nat>      // 0 is NULL
    const bucket_used: array<int>
    var latest_bucket: nat
    ghost var live: set<nat>        // ids handed out and not freed

    /** Two bucket-sized regions do not overlap. */
    static predicate Apart(a: nat, b: nat) {
      a + BUCKET_SIZE <= b || b + BUCKET_SIZE <= a
    }

    ghost predicate Valid()
      reads this, m_map, bucket_s, bucket_used
    {
      m_map.Length == M_MAP_SIZE && bucket_s.Length == BUCKET_COUNT && bucket_used.Length == BUCKET_COUNT
      && latest_bucket < BUCKET_COUNT
      && (forall id :: id in live ==> id < SLOT_COUNT)
      && (forall id: nat :: id < SLOT_COUNT ==> (id in live <==> Taken(m_map[..], id)))
      && (forall b :: 0 <= b < BUCKET_COUNT ==> bucket_used[b] == |InBucket(live, b)|)
      && (forall b :: 0 <= b < BUCKET_COUNT && bucket_s[b] == 0 ==> InBucket(live, b) == {})
      && (forall a, b :: 0 <= a < b < BUCKET_COUNT && bucket_s[a] != 0 && bucket_s[b] != 0 ==>
            Apart(bucket_s[a], bucket_s[b]))
    }

    /** The system allocator hands out a region that overlaps none still in use, or fails. */
    predicate Obtainable(ptr: nat)
      reads bucket_s
    {
      ptr != 0 ==> forall b :: 0 <= b < bucket_s.Length && bucket_s[b] != 0 ==> Apart(ptr, bucket_s[b])
    }

    constructor ()
      ensures Valid() && live == {} && fresh(m_map) && fresh(bucket_s) && fresh(bucket_used)
      ensures latest_bucket == 0 && forall b :: 0 <= b < BUCKET_COUNT ==> bucket_s[b] == 0
    {
      m_map := new Byte[M_MAP_SIZE](_ => 0);
      bucket_s := new nat[BUCKET_COUNT](_ => 0);
      bucket_used := new int[BUCKET_COUNT](_ => 0);
      latest_bucket := 0;
      live := {};
      new;
      forall id: nat | id < SLOT_COUNT ensures !Taken(m_map[..], id) { ZeroHasNoBits(7 - id % 8); }
      assert forall b: nat :: InBucket(live, b) == {};
    }

    /** `id2addr`, for ids of slots; a negative id has the address NULL. */
    function Id2Addr(id: int): nat
      requires id < SLOT_COUNT && bucket_s.Length == BUCKET_COUNT
      reads bucket_s
    {
      if id < 0 then 0 else bucket_s[id / BUCKET_CAPACITY] + SLOT_SIZE * (id % BUCKET_CAPACITY)
    }

    /** A live slot lies in the memory of its bucket: the slots of a bucket fill it one after the other. */
    lemma SlotInBucket(id: nat)
      requires Valid() && id in live
      ensures var p := bucket_s[BucketOf(id)];
              p != 0 && p <= Id2Addr(id) && Id2Addr(id) + SLOT_SIZE <= p + BUCKET_SIZE
      ensures id % BUCKET_CAPACITY == 0 ==> Id2Addr(id) == bucket_s[BucketOf(id)]
      ensures (id + 1) % BUCKET_CAPACITY == 0 ==> Id2Addr(id) + SLOT_SIZE == bucket_s[BucketOf(id)] + BUCKET_SIZE
      ensures (id + 1) % BUCKET_CAPACITY != 0 ==> Id2Addr(id + 1) == Id2Addr(id) + SLOT_SIZE
    {
      assert id in InBucket(live, BucketOf(id));
      var b, r := id / BUCKET_CAPACITY, id % BUCKET_CAPACITY;
      assert id == BUCKET_CAPACITY * b + r;
      if r + 1 < BUCKET_CAPACITY { DivModUnique(id + 1, BUCKET_CAPACITY, b, r + 1); }
    }

    /** Slots of different live ids do not overlap. */
    lemma SlotsDisjoint(id: nat, other: nat)
      requires Valid() && id in live && other in live && id != other
      ensures Id2Addr(id) != 0
      ensures Id2Addr(id) + SLOT_SIZE <= Id2Addr(other) || Id2Addr(other) + SLOT_SIZE <= Id2Addr(id)
    {
      var a, b := BucketOf(id), BucketOf(other);
      assert id in InBucket(live, a) && other in InBucket(live, b);
      assert a != b ==> Apart(bucket_s[a], bucket_s[b]);
    }

    /** The k-th bucket from the latest one on, around the circle. */
    function BucketAt(k: nat): (b: nat)
      reads this`latest_bucket
      ensures b < BUCKET_COUNT
    {
      (latest_bucket + k) % BUCKET_COUNT
    }

    predicate FullAt(k: nat)
      requires bucket_used.Length == BUCKET_COUNT
      reads this`latest_bucket, bucket_used
    {
      bucket_used[BucketAt(k)] == BUCKET_CAPACITY
    }

    /** The first bucket with room, from the latest one on, around the circle. */
    method ChooseBucket() returns (i: nat, b: nat)
      requires Valid()
      ensures i <= BUCKET_COUNT && forall k :: 0 <= k < i ==> FullAt(k)
      ensures i < BUCKET_COUNT ==> b == BucketAt(i) && bucket_used[b] < BUCKET_CAPACITY
    {
      i, b := 0, 0;
      while i < BUCKET_COUNT
        invariant i <= BUCKET_COUNT
        invariant forall k :: 0 <= k < i ==> FullAt(k)
      {
        b := BucketAt(i);
        if bucket_used[b] < BUCKET_CAPACITY { return; }
        BucketCount(live, b);
        i := i + 1;
      }
    }

    /** A bucket with room has a byte that is not all ones. */
    lemma SomeByteOpen(b: nat)
      requires Valid() && b < BUCKET_COUNT && |InBucket(live, b)| < BUCKET_CAPACITY
      ensures !Full(m_map[..], b * 512, (b + 1) * 512)
    {
      BucketCount(live, b);
      var id: nat :| BucketOf(id) == b && id !in live;
      if Full(m_map[..], b * 512, (b + 1) * 512) { FullBytesAreTaken(m_map[..], b * 512, (b + 1) * 512, id); }
    }

    /** Scans a bucket's part of the bitmap a word at a time. */
    method FindOpenByte(b: nat) returns (q: nat)
      requires Valid() && b < BUCKET_COUNT && |InBucket(live, b)| < BUCKET_CAPACITY
      ensures b * 512 <= q < (b + 1) * 512 && m_map[q] != ALL_ONES && Full(m_map[..], b * 512, q)
    {
      var p := b * 512;
      SomeByteOpen(b);
      while Word64(m_map[..], p) == 0xFFFF_FFFF_FFFF_FFFF
        invariant b * 512 <= p <= (b + 1) * 512 - 8 && p % 8 == 0
        invariant Full(m_map[..], b * 512, p)
        decreases (b + 1) * 512 - p
      {
        WordsFull(m_map[..], p);
        hide Word64;
        p := p + 8;
      }
      q := FirstOpenByte(m_map[..], p);
    }

    /** Every slot is taken when every bucket is full. */
    lemma AllTaken()
      requires Valid() && forall k :: 0 <= k < BUCKET_COUNT ==> FullAt(k)
      ensures forall id: nat :: id < SLOT_COUNT ==> id in live
    {
      forall id: nat | id < SLOT_COUNT ensures id in live {
        var b := BucketOf(id);
        var k := (b + BUCKET_COUNT - latest_bucket) % BUCKET_COUNT;
        assert BucketAt(k) == b;
        assert FullAt(k);
        BucketCount(live, b);
      }
    }

    /** `posix_memalign`: any region that may be handed out, or 0 for a failure. */
    method PosixMemalign() returns (ptr: nat)
      requires Valid()
      ensures Obtainable(ptr)
    {
      ptr := *;
      if !Obtainable(ptr) { ptr := 0; }
    }

    /** Every slot is taken, or the first bucket with room, after the latest one, has no memory. */
    ghost predicate NoRoom()
      requires Valid()
      reads this, m_map, bucket_s, bucket_used
    {
      (forall id: nat :: id < SLOT_COUNT ==> id in live)
      || exists k :: 0 <= k < BUCKET_COUNT && bucket_s[BucketAt(k)] == 0 && forall j :: 0 <= j < k ==> FullAt(j)
    }

    /** The lowest free slot of the first bucket with room. */
    ghost predicate NextFree(idx: nat)
      requires bucket_used.Length == BUCKET_COUNT
      reads this, bucket_used
    {
      (exists k :: 0 <= k < BUCKET_COUNT && BucketOf(idx) == BucketAt(k) && forall j :: 0 <= j < k ==> FullAt(j))
      && (forall id: nat :: id < idx && BucketOf(id) == BucketOf(idx) ==> id in live)
    }

    lemma NextIsFirst(idx: nat)
      requires bucket_used.Length == BUCKET_COUNT && latest_bucket < BUCKET_COUNT && NextFree(idx) && !FullAt(0)
      ensures BucketOf(idx) == latest_bucket
    {
      var k :| 0 <= k < BUCKET_COUNT && BucketOf(idx) == BucketAt(k) && forall j :: 0 <= j < k ==> FullAt(j);
      assert k == 0;
    }

    lemma NoMemory()
      requires Valid() && NoRoom() && |InBucket(live, latest_bucket)| < BUCKET_CAPACITY && !FullAt(0)
      ensures bucket_s[latest_bucket] == 0
    {
      hide InBucket, Taken;
      BucketCount(live, latest_bucket);
      var id: nat :| BucketOf(id) == latest_bucket && id !in live;
      assert id < SLOT_COUNT;
      var k :| 0 <= k < BUCKET_COUNT && bucket_s[BucketAt(k)] == 0 && forall j :: 0 <= j < k ==> FullAt(j);
      assert k == 0;
    }

    /** While the latest bucket is not full, that is where the next slot comes from. */
    lemma LatestHasRoom()
      requires Valid() && |InBucket(live, latest_bucket)| < BUCKET_CAPACITY
      ensures forall idx: nat :: NextFree(idx) ==> BucketOf(idx) == latest_bucket
      ensures NoRoom() ==> bucket_s[latest_bucket] == 0
    {
      hide InBucket, Taken, BucketOf, NextFree, NoRoom;
      assert BucketAt(0) == latest_bucket && !FullAt(0);
      forall idx: nat | NextFree(idx) ensures BucketOf(idx) == latest_bucket { NextIsFirst(idx); }
      if NoRoom() { NoMemory(); }
    }

    /** Marks the lowest free slot of a bucket that has memory and room. */
    method TakeSlot(b: nat) returns (idx: nat)
      requires Valid() && b < BUCKET_COUNT && bucket_s[b] != 0 && bucket_used[b] < BUCKET_CAPACITY
      modifies this`live, m_map, bucket_used
      ensures Valid() && idx < SLOT_COUNT && BucketOf(idx) == b
      ensures idx !in old(live) && live == old(live) + {idx}
      ensures forall id: nat :: id < idx && BucketOf(id) == b ==> id in old(live)
    {
      var q := FindOpenByte(b);
      var i, byte := GetBit(m_map[q]);
      idx := i + 8 * (q - b * 512) + b * BUCKET_CAPACITY;
      ghost var m := m_map[..];
      forall id: nat | id < idx && BucketOf(id) == b ensures id in live {
        if id / 8 < q { FullBytesAreTaken(m, b * 512, q, id); }
      }
      SetByte(m, q, byte, i, true);
      AddToBucket(live, idx);
      m_map[q] := byte;
      assert m_map[..] == m[q := byte];
      bucket_used[b] := bucket_used[b] + 1;
      live := live + {idx};
    }

    /** `get_block`: the lowest free slot of the first bucket with room.  It fails only when every
        slot is taken or when that bucket has no memory and the system gives none. */
    method GetBlock() returns (idx: int)
      requires Valid()
      modifies this`live, m_map, bucket_s, bucket_used
      ensures Valid()
      ensures idx == INVILID_BLOCK ==>
                unchanged(this, m_map, bucket_s, bucket_used) && NoRoom()
      ensures idx != INVILID_BLOCK ==>
                0 <= idx < SLOT_COUNT && idx !in old(live) && live == old(live) + {idx} && old(NextFree(idx))
      ensures forall id: int :: id in old(live) ==> Id2Addr(id) == old(Id2Addr(id))
      ensures idx == INVILID_BLOCK <==> Id2Addr(idx) == 0
      ensures idx != INVILID_BLOCK ==>
                var p := bucket_s[BucketOf(idx)]; p <= Id2Addr(idx) && Id2Addr(idx) + SLOT_SIZE <= p + BUCKET_SIZE
      ensures forall b | 0 <= b < BUCKET_COUNT ::
                old(bucket_s[b]) != 0 || idx == INVILID_BLOCK || b != BucketOf(idx) ==>
                  bucket_s[b] == old(bucket_s[b])
    {
      var k, b := ChooseBucket();
      forall j | 0 <= j < k ensures old(FullAt(j)) { assert FullAt(j); }
      if k == BUCKET_COUNT {
        AllTaken();
        return INVILID_BLOCK;
      }
      if bucket_s[b] == 0 {
        var ptr := PosixMemalign();
        if ptr == 0 {
          assert bucket_s[BucketAt(k)] == 0;
          return INVILID_BLOCK;
        }
        bucket_s[b] := ptr;
        bucket_used[b] := 0;
      }
      idx := TakeSlot(b);
      assert BucketOf(idx) == BucketAt(k);
      SlotInBucket(idx);
    }

    /** `free_block`: gives a live slot back, and a bucket's memory with its last slot, except the
        first bucket's. */
    method FreeBlock(block_id: int)
      requires Valid() && (block_id < 0 || block_id in live)
      modifies this, m_map, bucket_s, bucket_used
      ensures Valid() && live == old(live) - {block_id}
      ensures forall id: nat :: id in live ==> Id2Addr(id) == old(Id2Addr(id))
      ensures block_id < 0 ==> latest_bucket == old(latest_bucket) && m_map[..] == old(m_map[..])
      ensures block_id >= 0 ==>
                var b := BucketOf(block_id);
                if b != 0 && InBucket(live, b) == {} then bucket_s[b] == 0 && latest_bucket == old(latest_bucket)
                else bucket_s[b] == old(bucket_s[b]) && latest_bucket == b
      ensures forall b :: 0 <= b < BUCKET_COUNT && (block_id < 0 || b != BucketOf(block_id)) ==>
                bucket_s[b] == old(bucket_s[b])
      ensures block_id >= 0 && (BucketOf(block_id) == 0 || InBucket(live, BucketOf(block_id)) != {}) ==> !NoRoom()
    {
      hide Taken, Xor, ShiftLeft, NoRoom, NextFree;
      if block_id < 0 { return; }
      var b := block_id / BUCKET_CAPACITY;
      var q, i := block_id / 8, block_id % 8;
      ghost var m := m_map[..];
      TakenBit(m, block_id);
      ClearOneBit(m_map[q], i);
      SetByte(m, q, Xor(m_map[q], ShiftLeft(1, 7 - i)), i, false);
      DropFromBucket(live, block_id);
      BucketCount(live, b);
      m_map[q] := Xor(m_map[q], ShiftLeft(1, 7 - i));
      assert m_map[..] == m[q := m_map[q]];
      live := live - {block_id};
      bucket_used[b] := bucket_used[b] - 1;
      if bucket_used[b] == 0 && b != 0 {
        bucket_s[b] := 0;
      } else {
        latest_bucket := b;
        LatestHasRoom();
      }
    }
  }

  /** The first two blocks of a new allocator, when the system gives memory, are the first two slots of it. */
  method FirstTwoBlocks() returns (memory: nat, first: int, second: int, a: nat, b: nat)
    ensures memory != 0 ==> first == 0 && a == memory && (second == 1 && b == memory + SLOT_SIZE)
    ensures memory == 0 ==> first == INVILID_BLOCK && a == 0
  {
    hide GkoAlloc.NoRoom;
    var alloc := new GkoAlloc();
    assert InBucket(alloc.live, 0) == {} && BucketOf(0) == 0 && BucketOf(1) == 0;
    alloc.LatestHasRoom();
    first := alloc.GetBlock();
    a := alloc.Id2Addr(first);
    memory := alloc.bucket_s[0];
    second, b := INVILID_BLOCK, 0;
    if first != INVILID_BLOCK {
      assert InBucket(alloc.live, 0) == {0};
      alloc.SlotInBucket(0);
      alloc.LatestHasRoom();
      second := alloc.GetBlock();
      b := alloc.Id2Addr(second);
    }
  }
}
