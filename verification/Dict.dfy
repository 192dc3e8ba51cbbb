/** The dictionary: two hash tables, entries migrating from the first to the second one chain at a
    time while every operation goes on being answered. */
module Dict {
  import opened Bits
  import opened DictTables

  const DICT_HT_INITIAL_SIZE: nat := 4
  const DICT_FORCE_RESIZE_RATIO: nat := 5

  /** The smallest power of two that is at least `size` and at least the initial size. */
  predicate SizedFor(slots: nat, size: nat) {
    slots >= size && slots >= DICT_HT_INITIAL_SIZE && IsPowerOfTwo(slots)
    && (slots == DICT_HT_INITIAL_SIZE || slots < 2 * size)
  }

  /** The most entries of a table that is not being rehashed. */
  function MostEntries(slots: nat, tight: bool): nat {
    if tight then slots + 1 else (DICT_FORCE_RESIZE_RATIO + 1) * slots
  }

  lemma SmallestSize()
    ensures forall slots :: SizedFor(slots, DICT_HT_INITIAL_SIZE) ==> slots == DICT_HT_INITIAL_SIZE
  {
    assert !IsPowerOfTwo(3) && !IsPowerOfTwo(5) && !IsPowerOfTwo(6) && !IsPowerOfTwo(7);
  }

  /** The source's integer division compared without it. */
  lemma RatioExceeded(used: nat, slots: nat)
    requires slots != 0
    ensures used / slots > DICT_FORCE_RESIZE_RATIO <==> used >= MostEntries(slots, false)
  {
    var q := used / slots;
    assert used == q * slots + used % slots;
    if q > DICT_FORCE_RESIZE_RATIO {
      assert (q - 6) * slots >= 0;
    } else {
      assert (5 - q) * slots >= 0;
    }
  }

  lemma DoublePower(i: nat)
    requires IsPowerOfTwo(i)
    ensures IsPowerOfTwo(i * 2)
  {
    assert i * 2 / 2 == i && i * 2 % 2 == 0;
  }

  method NextPower(size: nat) returns (i: nat)
    ensures SizedFor(i, size)
  {
    i := DICT_HT_INITIAL_SIZE;
    assert IsPowerOfTwo(4) && IsPowerOfTwo(2);
    hide IsPowerOfTwo;
    while i < size
      invariant i >= DICT_HT_INITIAL_SIZE && IsPowerOfTwo(i)
      invariant i == DICT_HT_INITIAL_SIZE || i < 2 * size
    {
      DoublePower(i);
      i := i * 2;
    }
  }

  /** Entries have been moved from t0 to t1, giving n0 and n1, and every answer is the same. */
  ghost predicate Moved<K(!new), V>(dt: DictType<K>, t0: Table<K, V>, t1: Table<K, V>,
                                    n0: Table<K, V>, n1: Table<K, V>, m0: nat, m1: nat)
    requires Apart(dt, t0, t1)
  {
    |n0| == |t0| && |n1| == |t1| && Apart(dt, n0, n1)
    && (forall q :: Lookup(dt, n0, n1, q) == Lookup(dt, t0, t1, q))
    && TableIds(n0) + TableIds(n1) == TableIds(t0) + TableIds(t1)
    && m0 == |TableIds(n0)| && m1 == |TableIds(n1)|
  }

  lemma MovedNothing<K(!new), V>(dt: DictType<K>, t0: Table<K, V>, t1: Table<K, V>)
    requires Apart(dt, t0, t1)
    ensures Moved(dt, t0, t1, t0, t1, |TableIds(t0)|, |TableIds(t1)|)
  {
  }

  lemma MoveOne<K(!new), V>(dt: DictType<K>, t0: Table<K, V>, t1: Table<K, V>,
                            n0: Table<K, V>, n1: Table<K, V>, m0: nat, m1: nat, i: nat)
    requires Lawful(dt) && Apart(dt, t0, t1) && Moved(dt, t0, t1, n0, n1, m0, m1)
    requires t1 != [] && i < |n0| && n0[i] != []
    ensures Sound(dt, n1) && n1 != [] && m0 > 0
    ensures Moved(dt, t0, t1, n0[i := n0[i][1..]], Prepend(dt, n1, n0[i][0]), m0 - 1, m1 + 1)
  {
    MoveFront(dt, n0, n1, i);
    PrependSize(dt, n1, n0[i][0]);
    hide Lookup, Sound, TableGet, TableIds, Prepend;
    var u0, u1 := n0[i := n0[i][1..]], Prepend(dt, n1, n0[i][0]);
    assert TableIds(u0) + TableIds(u1) == TableIds(n0) + TableIds(n1);
  }

  /** The slots below rehashidx have been emptied. */
  ghost predicate SlotsEmptied<K, V>(t0: Table<K, V>, rehashidx: int) {
    0 <= rehashidx <= |t0| && forall i :: 0 <= i < rehashidx ==> t0[i] == []
  }

  /** Steps over empty slots; this cannot run off the table while an entry is left. */
  method SkipEmptySlots<K, V>(t0: Table<K, V>, rehashidx: nat) returns (i: nat)
    requires SlotsEmptied(t0, rehashidx) && |TableIds(t0)| != 0
    ensures SlotsEmptied(t0, i) && rehashidx <= i < |t0| && t0[i] != []
  {
    SomeIds(t0);
    i := rehashidx;
    while t0[i] == []
      invariant rehashidx <= i < |t0| && SlotsEmptied(t0, i)
      invariant exists k :: i <= k < |t0| && t0[k] != []
      decreases |t0| - i
    {
      i := i + 1;
    }
  }

  /** The inner loop of `dictRehash`: pushes the entries of one chain, one by one, on the chains of the
      new table. */
  method MoveEntries<K(!new), V>(dt: DictType<K>, t0: Table<K, V>, t1: Table<K, V>, i: nat, used0: nat, used1: nat)
      returns (n1: Table<K, V>, m0: nat, m1: nat)
    requires Lawful(dt) && Apart(dt, t0, t1) && i < |t0| && t0[i] != [] && t1 != []
    requires used0 == |TableIds(t0)| && used1 == |TableIds(t1)|
    ensures Moved(dt, t0, t1, t0[i := []], n1, m0, m1)
    ensures m0 < used0 && m0 + m1 == used0 + used1
  {
    hide Moved, Prepend, Apart, Lawful, Sound, TableIds;
    MovedNothing(dt, t0, t1);
    var de := t0[i];
    n1, m0, m1 := t1, used0, used1;
    ghost var n0 := t0;
    while de != []
      invariant n0 == t0[i := de] && Moved(dt, t0, t1, n0, n1, m0, m1)
      invariant m0 + m1 == used0 + used1 && m0 <= used0 && (de == t0[i] || m0 < used0)
      decreases |de|
    {
      MoveOne(dt, t0, t1, n0, n1, m0, m1, i);
      n1 := Prepend(dt, n1, de[0]);
      n0 := n0[i := de[1..]];
      m0, m1, de := m0 - 1, m1 + 1, de[1..];
    }
  }

  ghost predicate AddressesDistinct(ids: multiset<nat>, nextId: nat) {
    forall id :: id in ids ==> id < nextId && ids[id] == 1
  }

  /** What is true of the fields of a dictionary between operations. */
  ghost predicate Consistent<K(!new), V>(dt: DictType<K>, t0: Table<K, V>, t1: Table<K, V>, used0: nat, used1: nat,
                                         rehashidx: int, nextId: nat)
  {
    Lawful(dt) && Apart(dt, t0, t1)
    && used0 == |TableIds(t0)| && used1 == |TableIds(t1)|
    && (if rehashidx != -1 then t0 != [] && t1 != [] && SlotsEmptied(t0, rehashidx) else t1 == [])
    && AddressesDistinct(TableIds(t0) + TableIds(t1), nextId)
  }

  lemma ChainMoved<K(!new), V>(dt: DictType<K>, t0: Table<K, V>, t1: Table<K, V>, used0: nat, used1: nat,
                               rehashidx: int, nextId: nat, i: nat, n1: Table<K, V>, m0: nat, m1: nat)
    requires Consistent(dt, t0, t1, used0, used1, rehashidx, nextId) && rehashidx != -1
    requires i < |t0| && SlotsEmptied(t0, i)
    requires Moved(dt, t0, t1, t0[i := []], n1, m0, m1)
    requires t0[i] != []
    ensures Consistent(dt, t0[i := []], n1, m0, m1, i + 1, nextId) && |n1| == |t1|
    ensures forall q :: Lookup(dt, t0[i := []], n1, q) == Lookup(dt, t0, t1, q)
    ensures TableIds(t0[i := []]) + TableIds(n1) == TableIds(t0) + TableIds(t1)
    ensures OccupiedSlots(t0[i := []]) == OccupiedSlots(t0) - 1
  {
    hide Lawful, Apart, Lookup, TableIds, AddressesDistinct, OccupiedSlots, Sound;
    RefillSlot(t0, i, []);
  }

  lemma NoEntries<K(!new), V>(dt: DictType<K>, t: Table<K, V>)
    requires Sound(dt, t) && TableIds(t) == multiset{}
    ensures forall q :: TableGet(dt, t, q).None?
  {
    forall i | 0 <= i < |t| ensures t[i] == [] {
      TableIdsUpdate(t, i, []);
    }
  }

  lemma OldTableDone<K(!new), V>(dt: DictType<K>, t0: Table<K, V>, t1: Table<K, V>, used0: nat, used1: nat,
                                 rehashidx: int, nextId: nat)
    requires Consistent(dt, t0, t1, used0, used1, rehashidx, nextId) && rehashidx != -1 && used0 == 0
    ensures Consistent(dt, t1, [], used1, 0, -1, nextId)
    ensures TableIds(t0) == multiset{}
    ensures forall q :: Lookup(dt, t1, [], q) == Lookup(dt, t0, t1, q)
  {
    assert TableIds(t0) == multiset{} && TableIds<K, V>([]) == multiset{};
    NoEntries(dt, t0);
    assert TableIds(t1) + TableIds<K, V>([]) == TableIds(t0) + TableIds(t1);
  }

  lemma OneAddressMore(ids: multiset<nat>, nextId: nat)
    requires AddressesDistinct(ids, nextId)
    ensures AddressesDistinct(ids + multiset{nextId}, nextId + 1)
  {
  }

  /** Storing a new entry in the first table, when there is no second one. */
  lemma AddedToFirst<K(!new), V>(dt: DictType<K>, t0: Table<K, V>, t1: Table<K, V>, used0: nat, used1: nat,
                                 rehashidx: int, nextId: nat, e: Entry<K, V>)
    requires Consistent(dt, t0, t1, used0, used1, rehashidx, nextId) && e.id == nextId && rehashidx == -1
    requires Lookup(dt, t0, t1, e.key).None? && t0 != []
    ensures Sound(dt, t0)
    ensures var u0 := Prepend(dt, t0, e);
            Consistent(dt, u0, t1, used0 + 1, used1, rehashidx, nextId + 1) && |u0| == |t0|
            && TableIds(u0) + TableIds(t1) == TableIds(t0) + TableIds(t1) + multiset{e.id}
            && TableEvolved(t0, u0, None, nextId) && TableEvolved(t1, t1, None, nextId)
            && forall q :: Lookup(dt, u0, t1, q) == if dt.same(q, e.key) then Some(e) else Lookup(dt, t0, t1, q)
  {
    var u0 := Prepend(dt, t0, e);
    AddEntry(dt, t0, t1, e);
    PrependIds(dt, t0, e);
    PrependSize(dt, t0, e);
    PrependEvolved(dt, t0, e);
    TableUnchanged(t1, nextId);
    OneAddressMore(TableIds(t0) + TableIds(t1), nextId);
    hide Lookup, Apart, Lawful, TableIds, Prepend, AddressesDistinct, TableEvolved;
    assert TableIds(u0) + TableIds(t1) == TableIds(t0) + TableIds(t1) + multiset{e.id};
  }

  /** Storing a new entry in the second table, while rehashing. */
  lemma AddedToSecond<K(!new), V>(dt: DictType<K>, t0: Table<K, V>, t1: Table<K, V>, used0: nat, used1: nat,
                                  rehashidx: int, nextId: nat, e: Entry<K, V>)
    requires Consistent(dt, t0, t1, used0, used1, rehashidx, nextId) && e.id == nextId && rehashidx != -1
    requires Lookup(dt, t0, t1, e.key).None?
    ensures t1 != [] && Sound(dt, t1)
    ensures var u1 := Prepend(dt, t1, e);
            Consistent(dt, t0, u1, used0, used1 + 1, rehashidx, nextId + 1) && |u1| == |t1|
            && TableIds(t0) + TableIds(u1) == TableIds(t0) + TableIds(t1) + multiset{e.id}
            && TableEvolved(t0, t0, None, nextId) && TableEvolved(t1, u1, None, nextId)
            && forall q :: Lookup(dt, t0, u1, q) == if dt.same(q, e.key) then Some(e) else Lookup(dt, t0, t1, q)
  {
    var u1 := Prepend(dt, t1, e);
    ApartSwap(dt, t0, t1);
    AddEntry(dt, t1, t0, e);
    PrependIds(dt, t1, e);
    PrependSize(dt, t1, e);
    PrependEvolved(dt, t1, e);
    TableUnchanged(t0, nextId);
    ApartSwap(dt, u1, t0);
    OneAddressMore(TableIds(t0) + TableIds(t1), nextId);
    hide Lookup, Apart, Lawful, TableIds, Prepend, AddressesDistinct, TableEvolved;
    assert TableIds(t0) + TableIds(u1) == TableIds(t0) + TableIds(t1) + multiset{e.id};
  }

  lemma OneAddressLess(ids: multiset<nat>, id: nat, rest: multiset<nat>, nextId: nat)
    requires AddressesDistinct(ids, nextId) && ids == rest + multiset{id}
    ensures AddressesDistinct(rest, nextId)
  {
    forall x | x in rest ensures x < nextId && rest[x] == 1 {
      assert x in ids;
    }
  }

  lemma RemovedFromFirst<K(!new), V>(dt: DictType<K>, t0: Table<K, V>, t1: Table<K, V>, used0: nat, used1: nat,
                                     rehashidx: int, nextId: nat, i: nat, j: nat)
    requires Consistent(dt, t0, t1, used0, used1, rehashidx, nextId) && i < |t0| && j < |t0[i]|
    ensures var u0 := t0[i := Without(t0[i], j)];
            used0 > 0 && Consistent(dt, u0, t1, used0 - 1, used1, rehashidx, nextId)
            && TableIds(u0) + TableIds(t1) + multiset{t0[i][j].id} == TableIds(t0) + TableIds(t1)
            && Lookup(dt, t0, t1, t0[i][j].key) == Some(t0[i][j])
            && forall q :: Lookup(dt, u0, t1, q) == if dt.same(q, t0[i][j].key) then None else Lookup(dt, t0, t1, q)
  {
    var u0, id := t0[i := Without(t0[i], j)], t0[i][j].id;
    RemoveEntry(dt, t0, t1, i, j);
    RemoveIds(t0, i, j);
    hide Lookup, Apart, Lawful, TableIds, Without;
    var ids, rest := TableIds(t0) + TableIds(t1), TableIds(u0) + TableIds(t1);
    assert ids == rest + multiset{id};
    OneAddressLess(ids, id, rest, nextId);
    hide AddressesDistinct;
  }

  lemma RemovedFromSecond<K(!new), V>(dt: DictType<K>, t0: Table<K, V>, t1: Table<K, V>, used0: nat, used1: nat,
                                      rehashidx: int, nextId: nat, i: nat, j: nat)
    requires Consistent(dt, t0, t1, used0, used1, rehashidx, nextId) && i < |t1| && j < |t1[i]|
    ensures var u1 := t1[i := Without(t1[i], j)];
            used1 > 0 && Consistent(dt, t0, u1, used0, used1 - 1, rehashidx, nextId)
            && TableIds(t0) + TableIds(u1) + multiset{t1[i][j].id} == TableIds(t0) + TableIds(t1)
            && Lookup(dt, t0, t1, t1[i][j].key) == Some(t1[i][j])
            && forall q :: Lookup(dt, t0, u1, q) == if dt.same(q, t1[i][j].key) then None else Lookup(dt, t0, t1, q)
  {
    var u1, id := t1[i := Without(t1[i], j)], t1[i][j].id;
    ApartSwap(dt, t0, t1);
    RemoveEntry(dt, t1, t0, i, j);
    RemoveIds(t1, i, j);
    ApartSwap(dt, u1, t0);
    hide Lookup, Apart, Lawful, TableIds, Without;
    var ids, rest := TableIds(t0) + TableIds(t1), TableIds(t0) + TableIds(u1);
    assert ids == rest + multiset{id};
    OneAddressLess(ids, id, rest, nextId);
    hide AddressesDistinct;
  }

  lemma ValueReplaced<K(!new), V>(dt: DictType<K>, t0: Table<K, V>, t1: Table<K, V>, used0: nat, used1: nat,
                                  rehashidx: int, nextId: nat, second: bool, i: nat, j: nat, v: V)
    requires Consistent(dt, t0, t1, used0, used1, rehashidx, nextId)
    requires var t := if second then t1 else t0; i < |t| && j < |t[i]|
    ensures second ==>
              var u1 := t1[i := WithValue(t1[i], j, v)];
              Consistent(dt, t0, u1, used0, used1, rehashidx, nextId) && TableIds(u1) == TableIds(t1)
              && forall q :: Lookup(dt, t0, u1, q) == if dt.same(q, t1[i][j].key) then Some(t1[i][j].(val := v))
                              else Lookup(dt, t0, t1, q)
    ensures !second ==>
              var u0 := t0[i := WithValue(t0[i], j, v)];
              Consistent(dt, u0, t1, used0, used1, rehashidx, nextId) && TableIds(u0) == TableIds(t0)
              && forall q :: Lookup(dt, u0, t1, q) == if dt.same(q, t0[i][j].key) then Some(t0[i][j].(val := v))
                              else Lookup(dt, t0, t1, q)
  {
    if second {
      ApartSwap(dt, t0, t1);
      ReplaceEntry(dt, t1, t0, i, j, v);
      ApartSwap(dt, t1[i := WithValue(t1[i], j, v)], t0);
    } else {
      ReplaceEntry(dt, t0, t1, i, j, v);
    }
    hide Lookup, Apart, Lawful, TableIds;
  }

  /** A table is as it was, or it did not exist and has no entries yet. */
  ghost predicate GainedEmptyTable<K, V>(t: Table<K, V>, u: Table<K, V>) {
    u == t || (t == [] && forall i :: 0 <= i < |u| ==> u[i] == [])
  }

  lemma PlacedInFirst<K, V>(dt: DictType<K>, was: Table<K, V>, t: Table<K, V>, e: Entry<K, V>)
    requires Sound(dt, t) && t != []
    ensures GainedEmptyTable(was, t) && was != [] ==> t == was
    ensures var u := Prepend(dt, t, e);
            GainedEmptyTable(was, t) ==>
              IsPowerOfTwo(|u|) && forall i :: 0 <= i < |u| ==>
                (u[i] == [] <==> i != Slot(dt, e.key, |u|) && (i < |was| ==> was[i] == []))
  {
  }

  lemma EvolvedFromEmpty<K, V>(t: Table<K, V>, m: Table<K, V>, u: Table<K, V>, limit: nat)
    requires GainedEmptyTable(t, m) && TableEvolved(m, u, None, limit)
    ensures TableEvolved(t, u, None, limit)
  {
    if t == [] && m != [] {
      forall i | 0 <= i < |u| ensures ChainEvolved([], u[i], None, limit) {
        assert ChainEvolved(m[i], u[i], None, limit) && m[i] == [];
      }
    }
  }

  lemma UnchangedMayLose<K, V>(t: Table<K, V>, id: nat, limit: nat)
    ensures TableEvolved(t, t, Some(id), limit)
  {
    forall i | 0 <= i < |t| ensures ChainEvolved(t[i], t[i], Some(id), limit) {
      assert IdSeq(t[i])[0..] == IdSeq(t[i]);
    }
  }

  /** Walks a chain; the result is its length when the key is not there. */
  method FindInChain<K(!new), V>(dt: DictType<K>, c: Chain<K, V>, key: K) returns (j: nat)
    ensures j <= |c|
    ensures if j < |c| then dt.same(key, c[j].key) && ChainGet(dt, c, key) == Some(c[j])
            else ChainGet(dt, c, key).None?
  {
    j := 0;
    while j < |c| && !dt.same(key, c[j].key)
      invariant 0 <= j <= |c| && ChainGet(dt, c, key) == ChainGet(dt, c[j..], key)
    {
      assert c[j..][1..] == c[j + 1..];
      j := j + 1;
    }
  }

  class Dict<K(!new), V> {
    const dt: DictType<K>
    var t0: Table<K, V>   // ht[0].table; its length is ht[0].size
    var t1: Table<K, V>   // ht[1].table
    var used0: nat
    var used1: nat
    var rehashidx: int    // -1 when no rehashing is in progress
    var iterators: nat    // safe iterators running
    var canResize: bool   // dict_can_resize
    var nextId: nat       // the next address to allocate

    predicate Rehashing()
      reads this
    {
      rehashidx != -1
    }

    ghost predicate Valid()
      reads this`t0, this`t1, this`used0, this`used1, this`rehashidx, this`nextId
    {
      Consistent(dt, t0, t1, used0, used1, rehashidx, nextId)
    }

    ghost function EntryOf(q: K): Option<Entry<K, V>>
      requires Valid()
      reads this`t0, this`t1, this`used0, this`used1, this`rehashidx, this`nextId
    {
      Lookup(dt, t0, t1, q)
    }

    /** The value the dictionary holds for a key: its whole contents as a plain map. */
    ghost function Get(q: K): Option<V>
      requires Valid()
      reads this`t0, this`t1, this`used0, this`used1, this`rehashidx, this`nextId
    {
      var e := EntryOf(q);
      if e.Some? then Some(e.value.val) else None
    }

    /** The addresses of all entries. */
    ghost function AllIds(): multiset<nat>
      reads this
    {
      TableIds(t0) + TableIds(t1)
    }

    function Size(): nat
      reads this
    {
      used0 + used1
    }

    /** Rehashing has kept up with growth. */
    ghost predicate LoadBounded(tight: bool)
      reads this
    {
      if Rehashing() then used0 + used1 + (|t0| - rehashidx) <= |t1| + 1
      else used0 <= MostEntries(|t0|, tight)
    }

    /** Whichever bound held still holds. */
    twostate predicate KeepsLoad()
      reads this
    {
      (old(LoadBounded(true)) ==> LoadBounded(true)) && (old(LoadBounded(false)) ==> LoadBounded(false))
    }

    /** While rehashing, there is room for one more entry before the bound on the load is reached. */
    ghost predicate LoadReady(tight: bool)
      reads this
    {
      if Rehashing() then used0 + used1 + (|t0| - rehashidx) <= |t1|
      else used0 <= MostEntries(|t0|, tight)
    }

    /** Whichever bound held, there is room for one more entry now. */
    twostate predicate MakesRoom()
      reads this
    {
      (old(LoadBounded(true)) ==> LoadReady(true)) && (old(LoadBounded(false)) ==> LoadReady(false))
    }

    /** While an iterator is running no entry moves; chains lose at most the entry `gone` and grow
        only in front. */
    twostate predicate Evolved(new gone: Option<nat>)
      reads this
    {
      TableEvolved(old(t0), t0, gone, old(nextId)) && TableEvolved(old(t1), t1, gone, old(nextId))
      && (old(Rehashing()) ==> Rehashing()) && (Rehashing() ==> old(Rehashing()) || old(t0) != [])
    }

    /** `_dictExpandIfNeeded` asks for a larger table: at one entry a slot or, with resizing disabled, at
        more than five. */
    predicate Crowded()
      reads this
    {
      t0 != [] && used0 >= |t0| && (canResize || used0 / |t0| > DICT_FORCE_RESIZE_RATIO)
    }

    /** How the tables are sized to make room for an entry, unless they are being rehashed already. */
    twostate predicate Grows()
      reads this
    {
      (Rehashing() <==> old(Crowded()))
      && |t0| == (if old(t0) == [] then DICT_HT_INITIAL_SIZE else old(|t0|))
      && (Rehashing() ==> SizedFor(|t1|, 2 * old(used0)))
    }

    /** One step empties one occupied slot of the old table, while there is one. */
    twostate predicate Steps()
      reads this
    {
      old(OccupiedSlots(t0)) > 0 ==>
        Rehashing() && OccupiedSlots(t0) == old(OccupiedSlots(t0)) - 1 && |t1| == old(|t1|)
    }

    /** How many steps the rehashing still takes: one for each occupied slot of the old table, and one that
        finds none. */
    ghost function Left(): nat
      reads this
    {
      if Rehashing() then OccupiedSlots(t0) + 1 else 0
    }

    /** Where a new entry goes when the tables are not being rehashed. */
    twostate predicate Placed(key: K)
      reads this
    {
      if Rehashing() then t0 == old(t0)
      else IsPowerOfTwo(|t0|)
           && forall i :: 0 <= i < |t0| ==>
                (t0[i] == [] <==> i != Slot(dt, key, |t0|) && (i < old(|t0|) ==> old(t0)[i] == []))
    }

    lemma UsedIsOccupied()
      requires Valid()
      ensures used0 == 0 <==> OccupiedSlots(t0) == 0
      ensures Rehashing() ==> 0 <= rehashidx <= |t0| && t0 != [] && t1 != []
    {
      NoneOccupied(t0);
    }

    twostate predicate SameContents()
      requires old(Valid()) && Valid()
      reads this
    {
      (forall q :: EntryOf(q) == old(EntryOf(q))) && AllIds() == old(AllIds())
    }

    constructor (dt: DictType<K>)
      requires Lawful(dt)
      ensures Valid() && this.dt == dt && fresh(this)
      ensures (forall q :: EntryOf(q) == None) && AllIds() == multiset{}
      ensures LoadBounded(true) && canResize && iterators == 0 && !Rehashing() && t0 == [] && Size() == 0
    {
      this.dt := dt;
      t0, t1, used0, used1 := [], [], 0, 0;
      rehashidx, iterators, canResize, nextId := -1, 0, true, 0;
    }

    /** Creates the first table, or an empty second one to rehash into. */
    method Expand(size: nat) returns (ok: bool)
      requires Valid()
      modifies this`t0, this`t1, this`rehashidx
      ensures Valid() && SameContents()
      ensures ok == (!old(Rehashing()) && used0 <= size)
      ensures !ok ==> t0 == old(t0) && t1 == old(t1) && rehashidx == old(rehashidx)
      ensures ok ==> var n := if old(t0) == [] then t0 else t1;
                     SizedFor(|n|, size) && TableIds(n) == multiset{}
                     && (forall i :: 0 <= i < |n| ==> n[i] == [])
                     && (if old(t0) == [] then t1 == [] && rehashidx == -1 else t0 == old(t0) && rehashidx == 0)
    {
      var realsize := NextPower(size);
      if Rehashing() || used0 > size { return false; }
      var n: Table<K, V> := seq(realsize, _ => []);
      EmptyTableSound(dt, n);
      if t0 == [] {
        t0 := n;
      } else {
        t1 := n;
        rehashidx := 0;
      }
      ok := true;
    }

    method EnableResize()
      requires Valid()
      modifies this`canResize
      ensures Valid() && SameContents() && KeepsLoad() && canResize
    {
      canResize := true;
    }

    method DisableResize()
      requires Valid()
      modifies this`canResize
      ensures Valid() && SameContents() && KeepsLoad() && !canResize
    {
      canResize := false;
    }

    /** Makes room for the entries and no more. */
    method Resize() returns (ok: bool)
      requires Valid()
      modifies this`t0, this`t1, this`rehashidx
      ensures Valid() && SameContents()
      ensures ok == (canResize && !old(Rehashing()))
      ensures !ok ==> t0 == old(t0) && t1 == old(t1) && rehashidx == old(rehashidx)
      ensures ok ==> var n := if old(t0) == [] then t0 else t1;
                     SizedFor(|n|, if used0 > DICT_HT_INITIAL_SIZE then used0 else DICT_HT_INITIAL_SIZE)
                     && (forall i :: 0 <= i < |n| ==> n[i] == [])
                     && (if old(t0) == [] then !Rehashing() else t0 == old(t0) && rehashidx == 0)
    {
      if !canResize || Rehashing() { return false; }
      var minimal := if used0 < DICT_HT_INITIAL_SIZE then DICT_HT_INITIAL_SIZE else used0;
      ok := Expand(minimal);
    }

    lemma Shape()
      requires Valid()
      ensures used0 == |TableIds(t0)| && used1 == |TableIds(t1)|
      ensures t0 == [] || IsPowerOfTwo(|t0|)
      ensures t1 == [] || IsPowerOfTwo(|t1|)
      ensures Sound(dt, t0) && Sound(dt, t1)
      ensures if Rehashing() then t0 != [] && t1 != [] && 0 <= rehashidx <= |t0| else t1 == []
      ensures (t0 == [] ==> used0 == 0) && (t1 == [] ==> used1 == 0)
      ensures Lawful(dt) && Apart(dt, t0, t1) && (Rehashing() ==> SlotsEmptied(t0, rehashidx))
    {
    }

    /** Moves the first non-empty chain of the old table, entry by entry. */
    method MoveChain()
      requires Valid() && Rehashing() && used0 != 0
      modifies this`t0, this`t1, this`used0, this`used1, this`rehashidx
      ensures Valid() && SameContents() && Size() == old(Size())
      ensures Rehashing() && |t0| == old(|t0|) && |t1| == old(|t1|)
      ensures old(rehashidx) < rehashidx && used0 < old(used0)
      ensures 1 <= rehashidx <= |t0| && old(t0)[rehashidx - 1] != [] && t0 == old(t0)[rehashidx - 1 := []]
      ensures OccupiedSlots(t0) == old(OccupiedSlots(t0)) - 1
    {
      hide Consistent, Apart, Lawful, Moved, Lookup, TableIds, OccupiedSlots, Sound, SlotsEmptied;
      Shape();
      var i := SkipEmptySlots(t0, rehashidx);
      var n1, m0, m1 := MoveEntries(dt, t0, t1, i, used0, used1);
      ChainMoved(dt, t0, t1, used0, used1, rehashidx, nextId, i, n1, m0, m1);
      t0, t1, used0, used1, rehashidx := t0[i := []], n1, m0, m1, i + 1;
    }

    /** Drops the old table once it is empty. */
    method FinishRehash()
      requires Valid() && Rehashing() && used0 == 0
      modifies this`t0, this`t1, this`used0, this`used1, this`rehashidx
      ensures Valid() && SameContents() && Size() == old(Size())
      ensures !Rehashing() && t0 == old(t1) && t0 != [] && used0 == old(used1)
      ensures MakesRoom()
    {
      OldTableDone(dt, t0, t1, used0, used1, rehashidx, nextId);
      hide Consistent, Lookup, Apart;
      t0, used0 := t1, used1;
      t1, used1 := [], 0;
      rehashidx := -1;
    }

    /** At most n slots' worth of rehashing.  False exactly when rehashing is over; a negative n, as
        any n above the number of occupied slots, always gets there. */
    method Rehash(n: int) returns (more: bool)
      requires Valid()
      modifies this`t0, this`t1, this`used0, this`used1, this`rehashidx
      ensures Valid() && SameContents() && Size() == old(Size())
      ensures more == Rehashing()
      ensures more <==> old(Rehashing()) && 0 <= n <= old(OccupiedSlots(t0))
      ensures more ==> OccupiedSlots(t0) == old(OccupiedSlots(t0)) - n && |t1| == old(|t1|)
      ensures KeepsLoad() && (n != 0 ==> MakesRoom())
      ensures t0 == [] <==> old(t0) == []
    {
      hide Consistent, EntryOf, AllIds, OccupiedSlots, Lookup, Apart, Sound, TableIds, SlotsEmptied, MostEntries,
           Crowded;
      if !Rehashing() { return false; }
      var k := n;
      UsedIsOccupied();
      while k != 0
        invariant Valid() && SameContents() && Size() == old(Size()) && Rehashing() && t0 != [] && old(t0) != []
        invariant OccupiedSlots(t0) == old(OccupiedSlots(t0)) - (n - k) && n >= k && (n >= 0 ==> k >= 0)
        invariant |t1| == old(|t1|)
        invariant old(LoadBounded(true)) ==> LoadBounded(true) && (k != n ==> LoadReady(true))
        decreases used0
      {
        k := k - 1;
        UsedIsOccupied();
        if used0 == 0 {
          FinishRehash();
          return false;
        }
        MoveChain();
      }
      more := true;
    }

    /** One step of rehashing, only while no safe iterator is running. */
    method RehashStep()
      requires Valid()
      modifies this`t0, this`t1, this`used0, this`used1, this`rehashidx
      ensures Valid() && SameContents() && Size() == old(Size())
      ensures iterators != 0 ==> t0 == old(t0) && t1 == old(t1) && rehashidx == old(rehashidx)
      ensures !old(Rehashing()) ==> !Rehashing()
      ensures iterators == 0 ==> MakesRoom()
      ensures iterators == 0 && old(Rehashing()) ==> Steps() && Left() == old(Left()) - 1
      ensures t0 == [] <==> old(t0) == []
    {
      if iterators == 0 {
        var _ := Rehash(1);
      }
    }

    /** `_dictExpandIfNeeded` */
    method ExpandIfNeeded()
      requires Valid()
      modifies this`t0, this`t1, this`rehashidx
      ensures Valid() && SameContents() && t0 != []
      ensures (old(t0) != [] ==> t0 == old(t0)) && (old(Rehashing()) ==> t1 == old(t1))
      ensures t1 == old(t1) || (old(t1) == [] && old(t0) != [] && forall i :: 0 <= i < |t1| ==> t1[i] == [])
      ensures old(t0) == [] ==> |t0| == DICT_HT_INITIAL_SIZE && forall i :: 0 <= i < |t0| ==> t0[i] == []
      ensures if old(Rehashing()) then Rehashing() else Grows()
      ensures old(LoadReady(false)) ==> LoadReady(canResize) && (!Rehashing() ==> used0 < MostEntries(|t0|, canResize))
    {
      hide Consistent, Lookup, Apart, Sound, TableIds, SlotsEmptied, Lawful;
      Shape();
      if Rehashing() { return; }
      if |t0| != 0 { RatioExceeded(used0, |t0|); }
      if |t0| == 0 {
        SmallestSize();
        var _ := Expand(DICT_HT_INITIAL_SIZE);
      } else if Crowded() {
        var _ := Expand((if |t0| > used0 then |t0| else used0) * 2);
      }
    }

    lemma NoTable()
      requires Valid() && t0 == []
      ensures forall q :: EntryOf(q).None?
    {
    }

    /** Finds the entry with an equal key: in which table, which slot, and where in the chain. */
    method Locate(key: K) returns (found: bool, second: bool, i: nat, j: nat)
      requires Valid()
      ensures !found ==> EntryOf(key).None?
      ensures found ==> var t := if second then t1 else t0;
                        i < |t| && j < |t[i]| && dt.same(key, t[i][j].key) && EntryOf(key) == Some(t[i][j])
    {
      Shape();
      found, second, i, j := false, false, 0, 0;
      if t0 == [] { return; }
      i := Slot(dt, key, |t0|);
      j := FindInChain(dt, t0[i], key);
      if j < |t0[i]| { return true, false, i, j; }
      if !Rehashing() { return; }
      i := Slot(dt, key, |t1|);
      j := FindInChain(dt, t1[i], key);
      found, second := j < |t1[i]|, true;
    }

    /** Stores a new entry in the newest table. */
    method Insert(key: K, val: V)
      requires Valid() && EntryOf(key).None? && t0 != []
      modifies this`t0, this`t1, this`used0, this`used1, this`nextId
      ensures Valid()
      ensures forall q :: EntryOf(q) == if dt.same(q, key) then Some(Entry(old(nextId), key, val)) else old(EntryOf(q))
      ensures AllIds() == old(AllIds()) + multiset{old(nextId)} && nextId == old(nextId) + 1
      ensures |t0| == old(|t0|) && |t1| == old(|t1|)
      ensures used0 == old(used0) + (if Rehashing() then 0 else 1)
                && used1 == old(used1) + (if Rehashing() then 1 else 0)
      ensures if Rehashing() then t0 == old(t0) else t0 == Prepend(dt, old(t0), Entry(old(nextId), key, val))
      ensures TableEvolved(old(t0), t0, None, old(nextId)) && TableEvolved(old(t1), t1, None, old(nextId))
    {
      hide Consistent, Lookup, Apart, Sound, TableEvolved, TableIds, Prepend;
      Shape();
      var e := Entry(nextId, key, val);
      if Rehashing() {
        AddedToSecond(dt, t0, t1, used0, used1, rehashidx, nextId, e);
        t1, used1, nextId := Prepend(dt, t1, e), used1 + 1, nextId + 1;
      } else {
        AddedToFirst(dt, t0, t1, used0, used1, rehashidx, nextId, e);
        t0, used0, nextId := Prepend(dt, t0, e), used0 + 1, nextId + 1;
      }
    }

    /** What `dictAddRaw` does before it looks for a slot. */
    method PrepareToAdd()
      requires Valid()
      modifies this`t0, this`t1, this`used0, this`used1, this`rehashidx
      ensures Valid() && SameContents() && Size() == old(Size()) && t0 != []
      ensures !old(Rehashing()) ==> Grows() && used0 == old(used0) && GainedEmptyTable(old(t0), t0)
      ensures iterators == 0 && old(Rehashing()) ==> Steps()
      ensures iterators == 0 && old(LoadBounded(false))
              ==> LoadReady(canResize) && (!Rehashing() ==> used0 < MostEntries(|t0|, canResize))
      ensures iterators != 0 ==> GainedEmptyTable(old(t0), t0) && GainedEmptyTable(old(t1), t1)
                                 && (old(Rehashing()) ==> Rehashing())
                                 && (Rehashing() ==> old(Rehashing()) || old(t0) != [])
    {
      hide Consistent, EntryOf, AllIds, OccupiedSlots, Lookup, Apart, Sound, TableIds, SlotsEmptied, MostEntries;
      if Rehashing() { RehashStep(); }
      ExpandIfNeeded();
      Shape();
    }

    /** `dictAdd`: fails exactly when an equal key is there. */
    method Add(key: K, val: V) returns (ok: bool)
      requires Valid()
      modifies this`t0, this`t1, this`used0, this`used1, this`rehashidx, this`nextId
      ensures Valid() && ok == old(EntryOf(key)).None?
      ensures forall q :: EntryOf(q) == if ok && dt.same(q, key) then Some(Entry(old(nextId), key, val))
                                           else old(EntryOf(q))
      ensures AllIds() == old(AllIds()) + (if ok then multiset{old(nextId)} else multiset{})
      ensures nextId == old(nextId) + (if ok then 1 else 0)
      ensures Size() == old(Size()) + (if ok then 1 else 0)
      ensures !old(Rehashing()) ==> Grows() && (ok ==> Placed(key))
      ensures iterators == 0 && old(Rehashing()) ==> Steps()
      ensures iterators == 0 && old(LoadBounded(false)) ==> LoadBounded(canResize)
      ensures iterators != 0 ==> Evolved(None)
      ensures iterators != 0 && !ok ==> GainedEmptyTable(old(t0), t0) && GainedEmptyTable(old(t1), t1)
    {
      hide Consistent, EntryOf, AllIds, TableEvolved, GainedEmptyTable, OccupiedSlots, Prepend, Sound, Lookup, Apart;
      hide TableIds, SlotsEmptied, Lawful, IsPowerOfTwo, Slot, SizedFor;
      PrepareToAdd();
      ghost var m0, m1 := t0, t1;
      var found, _, _, _ := Locate(key);
      if !found {
        Shape();
        PlacedInFirst(dt, old(t0), t0, Entry(nextId, key, val));
        Insert(key, val);
      } else {
        TableUnchanged(t0, nextId);
        TableUnchanged(t1, nextId);
      }
      ok := !found;
      if iterators != 0 {
        EvolvedFromEmpty(old(t0), m0, t0, old(nextId));
        EvolvedFromEmpty(old(t1), m1, t1, old(nextId));
      }
    }

    /** `dictFind`, giving the value of the entry it would return. */
    method Find(key: K) returns (r: Option<V>)
      requires Valid()
      modifies this`t0, this`t1, this`used0, this`used1, this`rehashidx
      ensures Valid() && r == old(Get(key)) && SameContents() && Size() == old(Size())
      ensures iterators == 0 ==> KeepsLoad() && Left() == if old(Left()) > 0 then old(Left()) - 1 else 0
      ensures iterators != 0 ==> Evolved(None)
    {
      hide Consistent, EntryOf, AllIds, TableEvolved, OccupiedSlots;
      TableUnchanged(t0, nextId);
      TableUnchanged(t1, nextId);
      if t0 == [] {
        NoTable();
        Shape();
        return None;
      }
      if Rehashing() { RehashStep(); }
      var found, second, i, j := Locate(key);
      r := if !found then None else if second then Some(t1[i][j].val) else Some(t0[i][j].val);
    }

    /** Stores a value in an entry that is there. */
    method SetVal(second: bool, i: nat, j: nat, val: V)
      requires Valid() && var t := if second then t1 else t0; i < |t| && j < |t[i]|
      modifies this`t0, this`t1
      ensures Valid()
      ensures AllIds() == old(AllIds()) && |t0| == old(|t0|) && |t1| == old(|t1|)
      ensures var e := old((if second then t1 else t0)[i][j]);
              forall q :: EntryOf(q) == if dt.same(q, e.key) then Some(e.(val := val)) else old(EntryOf(q))
      ensures TableEvolved(old(t0), t0, None, nextId) && TableEvolved(old(t1), t1, None, nextId)
      ensures Left() == old(Left())
    {
      hide Consistent, Lookup, Apart, Sound, TableIds, WithValue, TableEvolved, OccupiedSlots;
      SameOccupied(if second then t1 else t0, i, j, val);
      ValueReplaced(dt, t0, t1, used0, used1, rehashidx, nextId, second, i, j, val);
      TableUnchanged(t0, nextId);
      TableUnchanged(t1, nextId);
      WithValueEvolved(if second then t1 else t0, i, j, val, nextId);
      if second {
        t1 := t1[i := WithValue(t1[i], j, val)];
      } else {
        t0 := t0[i := WithValue(t0[i], j, val)];
      }
    }

    lemma Equivalence(key: K, key': K)
      requires Valid()
      ensures dt.same(key, key') ==> forall q :: dt.same(q, key) <==> dt.same(q, key')
    {
    }

    /** The second half of `dictReplace`, when the key is known to be there. */
    method FindAndSet(key: K, val: V)
      requires Valid() && EntryOf(key).Some?
      modifies this`t0, this`t1, this`used0, this`used1, this`rehashidx
      ensures Valid() && AllIds() == old(AllIds()) && Size() == old(Size())
      ensures var e := old(EntryOf(key)).value.(val := val);
              forall q :: EntryOf(q) == if dt.same(q, key) then Some(e) else old(EntryOf(q))
      ensures iterators == 0 ==> KeepsLoad() && Left() == if old(Left()) > 0 then old(Left()) - 1 else 0
      ensures iterators != 0 ==> Evolved(None) && Rehashing() == old(Rehashing())
    {
      hide Consistent, EntryOf, AllIds, TableEvolved, OccupiedSlots;
      if Rehashing() { RehashStep(); }
      var found, second, i, j := Locate(key);
      Equivalence(key, (if second then t1 else t0)[i][j].key);
      SetVal(second, i, j, val);
    }

    /** `dictReplace`: adds the key, or gives the entry that has it another value. */
    method Replace(key: K, val: V) returns (added: bool)
      requires Valid()
      modifies this`t0, this`t1, this`used0, this`used1, this`rehashidx, this`nextId
      ensures Valid() && added == old(EntryOf(key)).None?
      ensures var e := if added then Entry(old(nextId), key, val) else old(EntryOf(key)).value.(val := val);
              forall q :: EntryOf(q) == if dt.same(q, key) then Some(e) else old(EntryOf(q))
      ensures AllIds() == old(AllIds()) + (if added then multiset{old(nextId)} else multiset{})
      ensures nextId == old(nextId) + (if added then 1 else 0)
      ensures Size() == old(Size()) + (if added then 1 else 0)
      ensures iterators == 0 && old(LoadBounded(false)) ==> LoadBounded(canResize)
      ensures iterators == 0 && old(Left()) > 1 ==> Left() == old(Left()) - if added then 1 else 2
      ensures iterators != 0 ==> Evolved(None)
    {
      hide Consistent, EntryOf, AllIds, TableEvolved, GainedEmptyTable, OccupiedSlots;
      added := Add(key, val);
      if added { return; }
      ghost var m0, m1 := t0, t1;
      FindAndSet(key, val);
      if iterators != 0 {
        EvolvedFromEmpty(old(t0), m0, t0, nextId);
        EvolvedFromEmpty(old(t1), m1, t1, nextId);
      }
    }

    /** Unlinks the j-th entry, e, of slot i. */
    method Unlink(second: bool, i: nat, j: nat, ghost e: Entry<K, V>)
      requires Valid() && var t := if second then t1 else t0; i < |t| && j < |t[i]| && t[i][j] == e
      modifies this`t0, this`t1, this`used0, this`used1
      ensures Valid()
      ensures forall q :: EntryOf(q) == if dt.same(q, e.key) then None else old(EntryOf(q))
      ensures AllIds() + multiset{e.id} == old(AllIds())
      ensures TableEvolved(old(t0), t0, Some(e.id), nextId) && TableEvolved(old(t1), t1, Some(e.id), nextId)
      ensures |t0| == old(|t0|) && |t1| == old(|t1|)
      ensures used0 + (if second then 0 else 1) == old(used0) && used1 + (if second then 1 else 0) == old(used1)
      ensures Left() <= old(Left())
    {
      hide Consistent, Lookup, Apart, Sound, TableIds, Without, TableEvolved, OccupiedSlots;
      if !second { RefillSlot(t0, i, Without(t0[i], j)); }
      WithoutEvolved(if second then t1 else t0, i, j, nextId);
      UnchangedMayLose(if second then t0 else t1, e.id, nextId);
      if second {
        RemovedFromSecond(dt, t0, t1, used0, used1, rehashidx, nextId, i, j);
        t1, used1 := t1[i := Without(t1[i], j)], used1 - 1;
      } else {
        RemovedFromFirst(dt, t0, t1, used0, used1, rehashidx, nextId, i, j);
        t0, used0 := t0[i := Without(t0[i], j)], used0 - 1;
      }
    }

    lemma SameEntry(key: K)
      requires Valid()
      ensures dt.same(key, key)
      ensures forall q :: dt.same(q, key) || dt.same(key, q) ==> EntryOf(q) == EntryOf(key)
    {
      SameKeyLookup(dt, t0, key);
      SameKeyLookup(dt, t1, key);
    }

    /** `dictDelete`: fails exactly when the key is not there. */
    method Delete(key: K) returns (ok: bool, ghost gone: Option<nat>)
      requires Valid()
      modifies this`t0, this`t1, this`used0, this`used1, this`rehashidx
      ensures Valid() && ok == old(EntryOf(key)).Some? && ok == gone.Some?
      ensures forall q :: EntryOf(q) == if dt.same(q, key) then None else old(EntryOf(q))
      ensures ok ==> gone.value == old(EntryOf(key)).value.id
      ensures AllIds() + (if ok then multiset{gone.value} else multiset{}) == old(AllIds())
      ensures Size() + (if ok then 1 else 0) == old(Size())
      ensures iterators == 0 ==> KeepsLoad() && Left() <= if old(Left()) > 0 then old(Left()) - 1 else 0
      ensures iterators != 0 ==> Evolved(gone)
    {
      hide Consistent, EntryOf, AllIds, TableEvolved, OccupiedSlots, Lookup, TableIds, Apart, Sound, SlotsEmptied,
           Lawful, MostEntries;
      Shape();
      gone := None;
      ok := false;
      TableUnchanged(t0, nextId);
      TableUnchanged(t1, nextId);
      if t0 != [] && Rehashing() { RehashStep(); }
      var found, second, i, j := Locate(key);
      SameEntry(key);
      if found {
        var e := (if second then t1 else t0)[i][j];
        Equivalence(key, e.key);
        Unlink(second, i, j, e);
        ok, gone := true, Some(e.id);
      }
    }

    twostate lemma NothingEvolved()
      requires unchanged(this) && Valid()
      ensures Evolved(None)
    {
      TableUnchanged(t0, nextId);
      TableUnchanged(t1, nextId);
      Shape();
    }
  }
}
