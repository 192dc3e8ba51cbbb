/** The hash tables inside a dictionary, as values: an array of chains, newest entry first.  An entry
    carries the address it was allocated at, so that two entries are never confused. */
module DictTables {
  import opened Bits

  datatype Option<+T> = None | Some(value: T)

  datatype Entry<K, V> = Entry(id: nat, key: K, val: V)

  type Chain<K, V> = seq<Entry<K, V>>
  type Table<K, V> = seq<Chain<K, V>>

  /** The two functions of `dictType` that matter here. */
  datatype DictType<!K> = DictType(hash: K -> nat, same: (K, K) -> bool)

  /** Key comparison is an equivalence and the hash respects it. */
  ghost predicate Lawful<K(!new)>(dt: DictType<K>) {
    && (forall a :: dt.same(a, a))
    && (forall a, b :: dt.same(a, b) ==> dt.same(b, a) && dt.hash(a) == dt.hash(b))
    && (forall a, b, c :: dt.same(a, b) && dt.same(b, c) ==> dt.same(a, c))
  }

  /** `dictHashKey(d, key) & sizemask` */
  function Slot<K>(dt: DictType<K>, key: K, size: nat): (slot: nat)
    requires IsPowerOfTwo(size)
    ensures slot < size
  {
    MaskIsModulo(dt.hash(key), size);
    And(dt.hash(key), size - 1)
  }

  // ----- Chains -----

  function ChainGet<K, V>(dt: DictType<K>, c: Chain<K, V>, q: K): Option<Entry<K, V>> {
    if c == [] then None
    else if dt.same(q, c[0].key) then Some(c[0])
    else ChainGet(dt, c[1..], q)
  }

  /** No two entries of a chain have the same key. */
  predicate NoDup<K, V>(dt: DictType<K>, c: Chain<K, V>) {
    c == [] || (ChainGet(dt, c[1..], c[0].key).None? && NoDup(dt, c[1..]))
  }

  lemma {:induction false} ChainGetSame<K(!new), V>(dt: DictType<K>, c: Chain<K, V>, p: K, q: K)
    requires Lawful(dt) && dt.same(p, q)
    ensures ChainGet(dt, c, p) == ChainGet(dt, c, q)
  {
    if c != [] {
      assert dt.same(p, c[0].key) <==> dt.same(q, c[0].key);
      ChainGetSame(dt, c[1..], p, q);
    }
  }

  function Without<K, V>(c: Chain<K, V>, j: nat): Chain<K, V>
    requires j < |c|
  {
    c[..j] + c[j + 1..]
  }

  lemma {:induction false} ChainGetAt<K(!new), V>(dt: DictType<K>, c: Chain<K, V>, j: nat)
    requires Lawful(dt) && NoDup(dt, c) && j < |c|
    ensures ChainGet(dt, c, c[j].key) == Some(c[j])
  {
    if j > 0 {
      ChainGetAt(dt, c[1..], j - 1);
      assert !dt.same(c[j].key, c[0].key) by {
        if dt.same(c[j].key, c[0].key) { ChainGetSame(dt, c[1..], c[j].key, c[0].key); }
      }
    }
  }

  /** Unlinking the j-th entry hides its key and no other. */
  lemma {:induction false} ChainWithout<K(!new), V>(dt: DictType<K>, c: Chain<K, V>, j: nat, q: K)
    requires Lawful(dt) && NoDup(dt, c) && j < |c|
    ensures ChainGet(dt, Without(c, j), q) == if dt.same(q, c[j].key) then None else ChainGet(dt, c, q)
  {
    if j == 0 {
      assert Without(c, 0) == c[1..];
      if dt.same(q, c[0].key) { ChainGetSame(dt, c[1..], q, c[0].key); }
    } else {
      assert Without(c, j) == [c[0]] + Without(c[1..], j - 1);
      ChainWithout(dt, c[1..], j - 1, q);
      if dt.same(q, c[0].key) && dt.same(q, c[j].key) {
        ChainGetAt(dt, c[1..], j - 1);
        ChainGetSame(dt, c[1..], c[j].key, c[0].key);
      }
    }
  }

  lemma {:induction false} NoDupWithout<K(!new), V>(dt: DictType<K>, c: Chain<K, V>, j: nat)
    requires Lawful(dt) && NoDup(dt, c) && j < |c|
    ensures NoDup(dt, Without(c, j))
  {
    if j == 0 {
      assert Without(c, 0) == c[1..];
    } else {
      assert Without(c, j) == [c[0]] + Without(c[1..], j - 1);
      NoDupWithout(dt, c[1..], j - 1);
      ChainWithout(dt, c[1..], j - 1, c[0].key);
    }
  }

  function WithValue<K, V>(c: Chain<K, V>, j: nat, v: V): Chain<K, V>
    requires j < |c|
  {
    c[j := c[j].(val := v)]
  }

  lemma {:induction false} ChainWithValue<K(!new), V>(dt: DictType<K>, c: Chain<K, V>, j: nat, v: V, q: K)
    requires Lawful(dt) && NoDup(dt, c) && j < |c|
    ensures ChainGet(dt, WithValue(c, j, v), q) == if dt.same(q, c[j].key) then Some(c[j].(val := v))
              else ChainGet(dt, c, q)
    ensures NoDup(dt, WithValue(c, j, v))
  {
    if j > 0 {
      assert WithValue(c, j, v) == [c[0]] + WithValue(c[1..], j - 1, v);
      ChainWithValue(dt, c[1..], j - 1, v, q);
      ChainWithValue(dt, c[1..], j - 1, v, c[0].key);
      ChainGetAt(dt, c[1..], j - 1);
      if (dt.same(q, c[0].key) && dt.same(q, c[j].key)) || dt.same(c[0].key, c[j].key) {
        ChainGetSame(dt, c[1..], c[j].key, c[0].key);
      }
    } else {
      assert WithValue(c, 0, v)[1..] == c[1..];
    }
  }

  // ----- Tables -----

  function TableGet<K, V>(dt: DictType<K>, t: Table<K, V>, q: K): Option<Entry<K, V>>
    requires t == [] || IsPowerOfTwo(|t|)
  {
    if t == [] then None else ChainGet(dt, t[Slot(dt, q, |t|)], q)
  }

  predicate SoundChain<K, V>(dt: DictType<K>, c: Chain<K, V>, i: nat, size: nat)
    requires IsPowerOfTwo(size)
  {
    NoDup(dt, c) && forall j :: 0 <= j < |c| ==> Slot(dt, c[j].key, size) == i
  }

  /** Every entry is in the slot its key hashes to, and no chain holds a key twice. */
  predicate Sound<K, V>(dt: DictType<K>, t: Table<K, V>) {
    t == [] ||
    (IsPowerOfTwo(|t|) && forall i :: 0 <= i < |t| ==> SoundChain(dt, t[i], i, |t|))
  }

  lemma PutFront<K(!new), V>(dt: DictType<K>, t: Table<K, V>, e: Entry<K, V>)
    requires Lawful(dt) && Sound(dt, t) && t != [] && TableGet(dt, t, e.key).None?
    ensures var s := Slot(dt, e.key, |t|);
            var t' := t[s := [e] + t[s]];
            Sound(dt, t')
            && forall q :: TableGet(dt, t', q) == if dt.same(q, e.key) then Some(e) else TableGet(dt, t, q)
  {
    var s := Slot(dt, e.key, |t|);
    assert SoundChain(dt, [e] + t[s], s, |t|) by { assert ([e] + t[s])[1..] == t[s]; }
    assert forall q :: dt.same(q, e.key) ==> Slot(dt, q, |t|) == s;
  }

  lemma RemoveAt<K(!new), V>(dt: DictType<K>, t: Table<K, V>, i: nat, j: nat)
    requires Lawful(dt) && Sound(dt, t) && i < |t| && j < |t[i]|
    ensures var t' := t[i := Without(t[i], j)];
            Sound(dt, t')
            && forall q :: TableGet(dt, t', q) == if dt.same(q, t[i][j].key) then None else TableGet(dt, t, q)
  {
    var c := t[i];
    NoDupWithout(dt, c, j);
    forall q ensures ChainGet(dt, Without(c, j), q) == if dt.same(q, c[j].key) then None else ChainGet(dt, c, q) {
      ChainWithout(dt, c, j, q);
    }
    assert forall q :: dt.same(q, c[j].key) ==> Slot(dt, q, |t|) == i;
  }

  lemma ReplaceAt<K(!new), V>(dt: DictType<K>, t: Table<K, V>, i: nat, j: nat, v: V)
    requires Lawful(dt) && Sound(dt, t) && i < |t| && j < |t[i]|
    ensures var t' := t[i := WithValue(t[i], j, v)];
            Sound(dt, t')
            && forall q :: TableGet(dt, t', q) == if dt.same(q, t[i][j].key) then Some(t[i][j].(val := v))
                           else TableGet(dt, t, q)
  {
    var c := t[i];
    forall q ensures NoDup(dt, WithValue(c, j, v))
                     && ChainGet(dt, WithValue(c, j, v), q) == if dt.same(q, c[j].key) then Some(c[j].(val := v))
                     else ChainGet(dt, c, q) {
      ChainWithValue(dt, c, j, v, q);
    }
    ChainWithValue(dt, c, j, v, c[j].key);
    assert forall q :: dt.same(q, c[j].key) ==> Slot(dt, q, |t|) == i;
  }

  function ChainIds<K, V>(c: Chain<K, V>): multiset<nat> {
    if c == [] then multiset{} else multiset{c[0].id} + ChainIds(c[1..])
  }

  /** The addresses of all entries; its size is the number of entries. */
  function TableIds<K, V>(t: Table<K, V>): multiset<nat> {
    if t == [] then multiset{} else ChainIds(t[0]) + TableIds(t[1..])
  }

  lemma {:induction false} NoIds<K, V>(t: Table<K, V>)
    requires forall i :: 0 <= i < |t| ==> t[i] == []
    ensures TableIds(t) == multiset{}
  {
    if t != [] { NoIds(t[1..]); }
  }

  lemma EmptyTableSound<K, V>(dt: DictType<K>, t: Table<K, V>)
    requires IsPowerOfTwo(|t|) && forall i :: 0 <= i < |t| ==> t[i] == []
    ensures Sound(dt, t) && TableIds(t) == multiset{} && forall q :: TableGet(dt, t, q) == None
  {
    NoIds(t);
  }

  // ----- Addresses -----

  lemma SomeIds<K, V>(t: Table<K, V>)
    requires TableIds(t) != multiset{}
    ensures exists i :: 0 <= i < |t| && t[i] != []
  {
    if forall i :: 0 <= i < |t| ==> t[i] == [] { NoIds(t); }
  }

  lemma {:induction false} ChainIdsWithout<K, V>(c: Chain<K, V>, j: nat)
    requires j < |c|
    ensures ChainIds(c) == ChainIds(Without(c, j)) + multiset{c[j].id}
  {
    if j == 0 {
      assert Without(c, 0) == c[1..];
    } else {
      assert Without(c, j) == [c[0]] + Without(c[1..], j - 1);
      ChainIdsWithout(c[1..], j - 1);
    }
  }

  lemma ChainIdsWithValue<K, V>(c: Chain<K, V>, j: nat, v: V)
    requires j < |c|
    ensures ChainIds(WithValue(c, j, v)) == ChainIds(c)
  {
    var d := WithValue(c, j, v);
    ChainIdsWithout(c, j);
    ChainIdsWithout(d, j);
    assert Without(d, j) == Without(c, j);
  }

  lemma AddToBoth(h: multiset<nat>, x: multiset<nat>, d: multiset<nat>, y: multiset<nat>, c: multiset<nat>)
    requires x + d == y + c
    ensures h + x + d == h + y + c
  {
    assert h + x + d == h + (x + d) && h + y + c == h + (y + c);
  }

  /** Exchanging one chain exchanges its addresses. */
  lemma {:induction false} TableIdsUpdate<K, V>(t: Table<K, V>, i: nat, c: Chain<K, V>)
    requires i < |t|
    ensures TableIds(t[i := c]) + ChainIds(t[i]) == TableIds(t) + ChainIds(c)
  {
    var u := t[i := c];
    assert TableIds(u) == ChainIds(u[0]) + TableIds(u[1..]);
    assert TableIds(t) == ChainIds(t[0]) + TableIds(t[1..]);
    hide TableIds, ChainIds;
    if i == 0 {
      assert u[1..] == t[1..];
    } else {
      assert u[1..] == t[1..][i - 1 := c] && u[0] == t[0];
      TableIdsUpdate(t[1..], i - 1, c);
      AddToBoth(ChainIds(t[0]), TableIds(u[1..]), ChainIds(t[i]), TableIds(t[1..]), ChainIds(c));
    }
  }

  // ----- Two tables -----

  /** Both tables are sound and no key is in both. */
  ghost predicate Apart<K(!new), V>(dt: DictType<K>, t0: Table<K, V>, t1: Table<K, V>) {
    Sound(dt, t0) && Sound(dt, t1)
    && forall q :: TableGet(dt, t0, q).None? || TableGet(dt, t1, q).None?
  }

  /** The entry whose key equals q, in either table. */
  function Lookup<K, V>(dt: DictType<K>, t0: Table<K, V>, t1: Table<K, V>, q: K): Option<Entry<K, V>>
    requires Sound(dt, t0) && Sound(dt, t1)
  {
    var v := TableGet(dt, t0, q);
    if v.Some? then v else TableGet(dt, t1, q)
  }

  function Prepend<K, V>(dt: DictType<K>, t: Table<K, V>, e: Entry<K, V>): Table<K, V>
    requires Sound(dt, t) && t != []
  {
    var s := Slot(dt, e.key, |t|);
    t[s := [e] + t[s]]
  }

  lemma ApartSwap<K(!new), V>(dt: DictType<K>, t: Table<K, V>, other: Table<K, V>)
    requires Apart(dt, t, other)
    ensures Apart(dt, other, t) && forall q :: Lookup(dt, other, t, q) == Lookup(dt, t, other, q)
  {
    hide TableGet, Sound;
  }

  lemma SameKeyLookup<K(!new), V>(dt: DictType<K>, t: Table<K, V>, key: K)
    requires Lawful(dt) && Sound(dt, t)
    ensures forall q :: dt.same(q, key) ==> TableGet(dt, t, q) == TableGet(dt, t, key)
  {
    if t != [] {
      forall q | dt.same(q, key) ensures TableGet(dt, t, q) == TableGet(dt, t, key) {
        ChainGetSame(dt, t[Slot(dt, key, |t|)], q, key);
      }
    }
  }

  /** Adding an entry under a new key to one of the tables. */
  lemma AddEntry<K(!new), V>(dt: DictType<K>, t: Table<K, V>, other: Table<K, V>, e: Entry<K, V>)
    requires Lawful(dt) && Apart(dt, t, other) && Lookup(dt, t, other, e.key).None? && t != []
    ensures var u := Prepend(dt, t, e);
            Apart(dt, u, other)
            && (forall q :: Lookup(dt, u, other, q) == if dt.same(q, e.key) then Some(e) else Lookup(dt, t, other, q))
  {
    PutFront(dt, t, e);
    SameKeyLookup(dt, other, e.key);
    hide TableGet, Sound, Lawful;
  }

  lemma PrependSize<K, V>(dt: DictType<K>, t: Table<K, V>, e: Entry<K, V>)
    requires Sound(dt, t) && t != []
    ensures |Prepend(dt, t, e)| == |t|
  {
  }

  lemma CancelIds(a: multiset<nat>, b: multiset<nat>, c: multiset<nat>, d: multiset<nat>)
    requires a + c == b + (d + c)
    ensures a == b + d
  {
    assert a == (a + c) - c;
    assert b + d == (b + (d + c)) - c;
  }

  lemma PrependIds<K, V>(dt: DictType<K>, t: Table<K, V>, e: Entry<K, V>)
    requires Sound(dt, t) && t != []
    ensures TableIds(Prepend(dt, t, e)) == TableIds(t) + multiset{e.id}
  {
    var s := Slot(dt, e.key, |t|);
    TableIdsUpdate(t, s, [e] + t[s]);
    assert ([e] + t[s])[1..] == t[s];
    CancelIds(TableIds(Prepend(dt, t, e)), TableIds(t), ChainIds(t[s]), multiset{e.id});
  }

  lemma StoredIsFound<K(!new), V>(dt: DictType<K>, t: Table<K, V>, i: nat, j: nat)
    requires Lawful(dt) && Sound(dt, t) && i < |t| && j < |t[i]|
    ensures TableGet(dt, t, t[i][j].key) == Some(t[i][j])
  {
    assert SoundChain(dt, t[i], i, |t|);
    ChainGetAt(dt, t[i], j);
  }

  /** Removing the j-th entry of slot i of one of the tables. */
  lemma RemoveEntry<K(!new), V>(dt: DictType<K>, t: Table<K, V>, other: Table<K, V>, i: nat, j: nat)
    requires Lawful(dt) && Apart(dt, t, other) && i < |t| && j < |t[i]|
    ensures var u := t[i := Without(t[i], j)];
            Apart(dt, u, other) && Lookup(dt, t, other, t[i][j].key) == Some(t[i][j])
            && (forall q :: Lookup(dt, u, other, q) == if dt.same(q, t[i][j].key) then None
                            else Lookup(dt, t, other, q))
  {
    var key := t[i][j].key;
    StoredIsFound(dt, t, i, j);
    RemoveAt(dt, t, i, j);
    SameKeyLookup(dt, t, key);
    SameKeyLookup(dt, other, key);
    hide TableGet, Sound, Lawful, Without;
  }

  lemma RemoveIds<K, V>(t: Table<K, V>, i: nat, j: nat)
    requires i < |t| && j < |t[i]|
    ensures TableIds(t) == TableIds(t[i := Without(t[i], j)]) + multiset{t[i][j].id}
  {
    TableIdsUpdate(t, i, Without(t[i], j));
    ChainIdsWithout(t[i], j);
    var c := ChainIds(Without(t[i], j));
    assert TableIds(t) + c == TableIds(t[i := Without(t[i], j)]) + (multiset{t[i][j].id} + c);
    CancelIds(TableIds(t), TableIds(t[i := Without(t[i], j)]), c, multiset{t[i][j].id});
  }

  /** Storing another value in an entry changes the answer for its key and no other. */
  lemma ReplaceEntry<K(!new), V>(dt: DictType<K>, t: Table<K, V>, other: Table<K, V>, i: nat, j: nat, v: V)
    requires Lawful(dt) && Apart(dt, t, other) && i < |t| && j < |t[i]|
    ensures var u := t[i := WithValue(t[i], j, v)];
            Apart(dt, u, other) && TableIds(u) == TableIds(t)
            && (forall q :: Lookup(dt, u, other, q) == if dt.same(q, t[i][j].key) then Some(t[i][j].(val := v))
                            else Lookup(dt, t, other, q))
  {
    var key := t[i][j].key;
    StoredIsFound(dt, t, i, j);
    ReplaceAt(dt, t, i, j, v);
    SameKeyLookup(dt, t, key);
    SameKeyLookup(dt, other, key);
    TableIdsUpdate(t, i, WithValue(t[i], j, v));
    ChainIdsWithValue(t[i], j, v);
    CancelIds(TableIds(t[i := WithValue(t[i], j, v)]), TableIds(t), ChainIds(t[i]), multiset{});
    hide TableGet, Sound, Lawful, WithValue;
  }

  /** Moving the first entry of slot i of the old table to the new one changes no answer. */
  lemma MoveFront<K(!new), V>(dt: DictType<K>, t0: Table<K, V>, t1: Table<K, V>, i: nat)
    requires Lawful(dt) && Apart(dt, t0, t1) && i < |t0| && t0[i] != [] && t1 != []
    ensures var e := t0[i][0];
            var u0, u1 := t0[i := t0[i][1..]], Prepend(dt, t1, e);
            Apart(dt, u0, u1) && (forall q :: Lookup(dt, u0, u1, q) == Lookup(dt, t0, t1, q))
            && TableIds(u0) + multiset{e.id} == TableIds(t0) && TableIds(u1) == TableIds(t1) + multiset{e.id}
  {
    var e := t0[i][0];
    var u0 := t0[i := t0[i][1..]];
    assert Without(t0[i], 0) == t0[i][1..];
    RemoveIds(t0, i, 0);
    PrependIds(dt, t1, e);
    StoredIsFound(dt, t0, i, 0);
    SameKeyLookup(dt, t0, e.key);
    RemoveEntry(dt, t0, t1, i, 0);
    ApartSwap(dt, u0, t1);
    AddEntry(dt, t1, u0, e);
    ApartSwap(dt, Prepend(dt, t1, e), u0);
    assert dt.same(e.key, e.key);
    hide TableGet, Sound, Lawful, Apart, Prepend;
  }

  // ----- Occupied slots -----

  function OccupiedSlots<K, V>(t: Table<K, V>): nat {
    if t == [] then 0 else (if t[0] == [] then 0 else 1) + OccupiedSlots(t[1..])
  }

  lemma {:induction false} RefillSlot<K, V>(t: Table<K, V>, i: nat, c: Chain<K, V>)
    requires i < |t| && t[i] != []
    ensures OccupiedSlots(t[i := c]) == OccupiedSlots(t) - if c == [] then 1 else 0
  {
    if i == 0 {
      assert t[0 := c][1..] == t[1..];
    } else {
      assert t[i := c][1..] == t[1..][i - 1 := c];
      RefillSlot(t[1..], i - 1, c);
    }
  }

  lemma SameOccupied<K, V>(t: Table<K, V>, i: nat, j: nat, val: V)
    requires i < |t| && j < |t[i]|
    ensures OccupiedSlots(t[i := WithValue(t[i], j, val)]) == OccupiedSlots(t)
  {
    RefillSlot(t, i, WithValue(t[i], j, val));
  }

  lemma {:induction false} NoneOccupied<K, V>(t: Table<K, V>)
    ensures OccupiedSlots(t) == 0 <==> |TableIds(t)| == 0
  {
    if t != [] {
      NoneOccupied(t[1..]);
      assert t[0] != [] ==> t[0][0].id in ChainIds(t[0]);
      assert |TableIds(t)| == |ChainIds(t[0])| + |TableIds(t[1..])|;
    }
  }

  // ----- How chains evolve while an iterator is running -----

  function IdSeq<K, V>(c: Chain<K, V>): (ids: seq<nat>)
    ensures |ids| == |c| && forall i :: 0 <= i < |c| ==> ids[i] == c[i].id
  {
    seq(|c|, i requires 0 <= i < |c| => c[i].id)
  }

  ghost predicate Shrunk(a: seq<nat>, b: seq<nat>, gone: Option<nat>) {
    b == a || (gone.Some? && exists j :: 0 <= j < |a| && a[j] == gone.value && b == a[..j] + a[j + 1..])
  }

  /** d is c without at most one entry, whose address is `gone`, behind entries allocated since. */
  ghost predicate ChainEvolved<K, V>(c: Chain<K, V>, d: Chain<K, V>, gone: Option<nat>, limit: nat) {
    exists k :: 0 <= k <= |d| && (forall i :: 0 <= i < k ==> d[i].id >= limit) && Shrunk(IdSeq(c), IdSeq(d)[k..], gone)
  }

  ghost predicate TableEvolved<K, V>(t: Table<K, V>, u: Table<K, V>, gone: Option<nat>, limit: nat) {
    if t == [] then forall i :: 0 <= i < |u| ==> ChainEvolved([], u[i], None, limit)
    else |u| == |t| && forall i :: 0 <= i < |t| ==> ChainEvolved(t[i], u[i], gone, limit)
  }

  lemma TableUnchanged<K, V>(t: Table<K, V>, limit: nat)
    ensures TableEvolved(t, t, None, limit)
  {
    forall i | 0 <= i < |t| ensures ChainEvolved(t[i], t[i], None, limit) {
      assert IdSeq(t[i])[0..] == IdSeq(t[i]);
    }
  }

  lemma SlotEvolved<K, V>(t: Table<K, V>, i: nat, d: Chain<K, V>, gone: Option<nat>, limit: nat)
    requires i < |t| && ChainEvolved(t[i], d, gone, limit)
    ensures TableEvolved(t, t[i := d], gone, limit)
  {
    forall k | 0 <= k < |t| && k != i ensures ChainEvolved(t[k], t[k], gone, limit) {
      assert IdSeq(t[k])[0..] == IdSeq(t[k]);
    }
  }

  lemma PrependEvolved<K, V>(dt: DictType<K>, t: Table<K, V>, e: Entry<K, V>)
    requires Sound(dt, t) && t != []
    ensures TableEvolved(t, Prepend(dt, t, e), None, e.id)
  {
    var s := Slot(dt, e.key, |t|);
    assert IdSeq([e] + t[s])[1..] == IdSeq(t[s]);
    assert ChainEvolved(t[s], [e] + t[s], None, e.id);
    SlotEvolved(t, s, [e] + t[s], None, e.id);
  }

  lemma WithoutEvolved<K, V>(t: Table<K, V>, i: nat, j: nat, limit: nat)
    requires i < |t| && j < |t[i]|
    ensures TableEvolved(t, t[i := Without(t[i], j)], Some(t[i][j].id), limit)
  {
    var c := t[i];
    var d := Without(c, j);
    assert IdSeq(d)[0..] == IdSeq(c)[..j] + IdSeq(c)[j + 1..];
    assert Shrunk(IdSeq(c), IdSeq(d)[0..], Some(c[j].id));
    SlotEvolved(t, i, d, Some(c[j].id), limit);
  }

  lemma WithValueEvolved<K, V>(t: Table<K, V>, i: nat, j: nat, v: V, limit: nat)
    requires i < |t| && j < |t[i]|
    ensures TableEvolved(t, t[i := WithValue(t[i], j, v)], None, limit)
  {
    var c := t[i];
    assert IdSeq(WithValue(c, j, v))[0..] == IdSeq(c);
    SlotEvolved(t, i, WithValue(c, j, v), None, limit);
  }
}
