/** Safe iterators: walking both tables while the dictionary goes on being used. */
module DictIterator {
  import opened DictTables
  import opened Dict
  import DictRun

  // ----- Positions -----

  /** An entry at address id is in slot `from` or a later one. */
  ghost predicate Holds<K, V>(t: Table<K, V>, from: int, id: nat) {
    exists i, j :: 0 <= i < |t| && from <= i && 0 <= j < |t[i]| && t[i][j].id == id
  }

  ghost predicate Suffix(rest: seq<nat>, ids: seq<nat>) {
    |rest| <= |ids| && rest == ids[|ids| - |rest|..]
  }

  /** The walk stands in slot `index` of a table with the addresses `rest` of that chain to go. */
  ghost predicate Positioned<K, V>(t: Table<K, V>, index: int, rest: seq<nat>) {
    index >= -1 && if 0 <= index < |t| then Suffix(rest, IdSeq(t[index])) else rest == []
  }

  /** The walk has yet to come to the entry at address id. */
  ghost predicate Pending<K, V>(t0: Table<K, V>, t1: Table<K, V>, second: bool, index: int, rest: seq<nat>, id: nat) {
    id in rest || Holds(if second then t1 else t0, index + 1, id) || (!second && Holds(t1, 0, id))
  }

  // ----- What a change of the tables does to a position -----

  lemma ShrunkMembers(a: seq<nat>, b: seq<nat>, gone: Option<nat>, id: nat)
    requires Shrunk(a, b, gone)
    ensures id in b ==> id in a
    ensures id in a && gone != Some(id) ==> id in b
  {
    if b != a {
      var j :| 0 <= j < |a| && a[j] == gone.value && b == a[..j] + a[j + 1..];
      assert a == a[..j] + ([a[j]] + a[j + 1..]);
    }
  }

  lemma ShrunkSuffix(a: seq<nat>, b: seq<nat>, gone: Option<nat>, rest: seq<nat>)
    requires Shrunk(a, b, gone) && Suffix(rest, a) && (gone.Some? ==> gone.value !in rest)
    ensures Suffix(rest, b)
  {
    if b != a {
      var j :| 0 <= j < |a| && a[j] == gone.value && b == a[..j] + a[j + 1..];
      var m := |a| - |rest|;
      assert forall k :: m <= k < |a| ==> a[k] == rest[k - m];
      assert a[j + 1..][m - (j + 1)..] == a[m..];
      assert b[|b| - |rest|..] == a[j + 1..][m - (j + 1)..];
    }
  }

  lemma SuffixOfSuffix(ids: seq<nat>, k: nat, rest: seq<nat>)
    requires k <= |ids| && Suffix(rest, ids[k..])
    ensures Suffix(rest, ids)
  {
    assert ids[k..][|ids| - k - |rest|..] == ids[|ids| - |rest|..];
  }

  lemma OldInTail(ids: seq<nat>, k: nat, limit: nat, id: nat)
    requires k <= |ids| && forall i :: 0 <= i < k ==> ids[i] >= limit
    ensures id in ids && id < limit ==> id in ids[k..]
    ensures id in ids[k..] ==> id in ids
  {
    assert ids == ids[..k] + ids[k..];
  }

  lemma ChainMembers<K, V>(c: Chain<K, V>, d: Chain<K, V>, gone: Option<nat>, limit: nat, id: nat)
    requires ChainEvolved(c, d, gone, limit)
    ensures id in IdSeq(d) && id < limit ==> id in IdSeq(c)
    ensures id in IdSeq(c) && gone != Some(id) ==> id in IdSeq(d)
  {
    var k :| 0 <= k <= |d| && (forall i :: 0 <= i < k ==> d[i].id >= limit) && Shrunk(IdSeq(c), IdSeq(d)[k..], gone);
    hide Shrunk;
    ShrunkMembers(IdSeq(c), IdSeq(d)[k..], gone, id);
    OldInTail(IdSeq(d), k, limit, id);
  }

  lemma SuffixSurvives<K, V>(c: Chain<K, V>, d: Chain<K, V>, gone: Option<nat>, limit: nat, rest: seq<nat>)
    requires ChainEvolved(c, d, gone, limit) && Suffix(rest, IdSeq(c))
    requires gone.Some? ==> gone.value !in rest
    ensures Suffix(rest, IdSeq(d))
  {
    var k :| 0 <= k <= |d| && (forall i :: 0 <= i < k ==> d[i].id >= limit) && Shrunk(IdSeq(c), IdSeq(d)[k..], gone);
    hide Shrunk, IdSeq, Suffix;
    ShrunkSuffix(IdSeq(c), IdSeq(d)[k..], gone, rest);
    SuffixOfSuffix(IdSeq(d), k, rest);
  }

  lemma HeldInChain<K, V>(t: Table<K, V>, i: nat, from: int, id: nat)
    requires i < |t| && from <= i && id in IdSeq(t[i])
    ensures Holds(t, from, id)
  {
    var j :| 0 <= j < |t[i]| && IdSeq(t[i])[j] == id;
    assert t[i][j].id == id;
  }

  lemma HoldsSurvives<K, V>(t: Table<K, V>, u: Table<K, V>, gone: Option<nat>, limit: nat, from: int, id: nat)
    requires TableEvolved(t, u, gone, limit)
    ensures Holds(u, from, id) && id < limit ==> Holds(t, from, id)
    ensures Holds(t, from, id) && gone != Some(id) ==> Holds(u, from, id)
  {
    if Holds(u, from, id) && id < limit {
      var i, j :| 0 <= i < |u| && from <= i && 0 <= j < |u[i]| && u[i][j].id == id;
      assert IdSeq(u[i])[j] == id;
      if t == [] {
        ChainMembers([], u[i], None, limit, id);
        assert false;
      } else {
        ChainMembers(t[i], u[i], gone, limit, id);
        HeldInChain(t, i, from, id);
      }
    }
    if Holds(t, from, id) && gone != Some(id) {
      var i, j :| 0 <= i < |t| && from <= i && 0 <= j < |t[i]| && t[i][j].id == id;
      assert IdSeq(t[i])[j] == id;
      ChainMembers(t[i], u[i], gone, limit, id);
      HeldInChain(u, i, from, id);
    }
  }

  /** Operations that only prepend new entries and unlink an entry already passed keep the position,
      add nothing old to what is pending and take nothing away from it. */
  lemma PositionSurvives<K, V>(t0: Table<K, V>, t1: Table<K, V>, u0: Table<K, V>, u1: Table<K, V>,
                               gone: Option<nat>, limit: nat, second: bool, index: int, rest: seq<nat>)
    requires TableEvolved(t0, u0, gone, limit) && TableEvolved(t1, u1, gone, limit)
    requires Positioned(if second then t1 else t0, index, rest)
    requires gone.Some? ==> !Pending(t0, t1, second, index, rest, gone.value)
    ensures Positioned(if second then u1 else u0, index, rest)
    ensures forall id: nat :: id < limit && Pending(u0, u1, second, index, rest, id)
              ==> Pending(t0, t1, second, index, rest, id)
    ensures forall id: nat :: Pending(t0, t1, second, index, rest, id) ==> Pending(u0, u1, second, index, rest, id)
  {
    var t, u := if second then t1 else t0, if second then u1 else u0;
    if 0 <= index < |t| {
      SuffixSurvives(t[index], u[index], gone, limit, rest);
    }
    hide Holds, TableEvolved;
    forall id: nat | id < limit && Pending(u0, u1, second, index, rest, id)
      ensures Pending(t0, t1, second, index, rest, id)
    {
      HoldsSurvives(t, u, gone, limit, index + 1, id);
      HoldsSurvives(t1, u1, gone, limit, 0, id);
    }
    forall id: nat | Pending(t0, t1, second, index, rest, id)
      ensures Pending(u0, u1, second, index, rest, id)
    {
      HoldsSurvives(t, u, gone, limit, index + 1, id);
      HoldsSurvives(t1, u1, gone, limit, 0, id);
    }
  }

  // ----- No address twice -----

  lemma HeldIsCounted<K, V>(t: Table<K, V>, from: int, id: nat)
    requires Holds(t, from, id)
    ensures id in TableIds(t)
  {
    var i, j :| 0 <= i < |t| && from <= i && 0 <= j < |t[i]| && t[i][j].id == id;
    RemoveIds(t, i, j);
  }

  lemma {:induction false} InChainIds<K, V>(c: Chain<K, V>, id: nat)
    requires id in ChainIds(c)
    ensures id in IdSeq(c)
  {
    if c[0].id == id {
      assert IdSeq(c)[0] == id;
    } else {
      InChainIds(c[1..], id);
      var j :| 0 <= j < |c| - 1 && IdSeq(c[1..])[j] == id;
      assert IdSeq(c)[j + 1] == id;
    }
  }

  lemma {:induction false} CountedIsHeld<K, V>(t: Table<K, V>, id: nat)
    requires id in TableIds(t)
    ensures Holds(t, 0, id)
  {
    if id in ChainIds(t[0]) {
      InChainIds(t[0], id);
      HeldInChain(t, 0, 0, id);
    } else {
      CountedIsHeld(t[1..], id);
      var i, j :| 0 <= i < |t| - 1 && 0 <= i && 0 <= j < |t[1..][i]| && t[1..][i][j].id == id;
      assert t[i + 1][j].id == id;
    }
  }

  /** Taking the entry at (i, j) out of the table leaves no other entry with its address. */
  lemma NotElsewhere<K, V>(t: Table<K, V>, i: nat, j: nat)
    requires i < |t| && j < |t[i]| && TableIds(t)[t[i][j].id] == 1
    ensures t[i][j].id !in IdSeq(t[i])[j + 1..] && !Holds(t, i + 1, t[i][j].id)
  {
    var id := t[i][j].id;
    var u: Table<K, V> := t[i := Without(t[i], j)];
    RemoveIds(t, i, j);
    assert id !in TableIds(u);
    if id in IdSeq(t[i])[j + 1..] {
      var k :| j + 1 <= k < |t[i]| && t[i][k].id == id;
      assert u[i][k - 1].id == id;
      HeldIsCounted(u, 0, id);
    }
    if Holds(t, i + 1, id) {
      var i2, j2 :| 0 <= i2 < |t| && i + 1 <= i2 && 0 <= j2 < |t[i2]| && t[i2][j2].id == id;
      assert u[i2][j2].id == id;
      HeldIsCounted(u, 0, id);
    }
  }

  /** What a walk comes to next, and what is pending after that. */
  lemma HeadIsLast<K, V>(t0: Table<K, V>, t1: Table<K, V>, second: bool, index: nat, rest: seq<nat>, nextId: nat)
    requires var t := if second then t1 else t0; index < |t| && Positioned(t, index, rest)
    requires rest != [] && AddressesDistinct(TableIds(t0) + TableIds(t1), nextId)
    ensures var t := if second then t1 else t0;
            var j := |t[index]| - |rest|;
            0 <= j < |t[index]| && t[index][j].id == rest[0]
            && Positioned(t, index, rest[1..]) && !Pending(t0, t1, second, index, rest[1..], rest[0])
    ensures forall id: nat :: id != rest[0] ==>
              (Pending(t0, t1, second, index, rest, id) <==> Pending(t0, t1, second, index, rest[1..], id))
  {
    var t: Table<K, V> := if second then t1 else t0;
    var j := |t[index]| - |rest|;
    var ids := TableIds(t0) + TableIds(t1);
    var id := t[index][j].id;
    assert IdSeq(t[index])[j + 1..] == rest[1..];
    assert rest == [rest[0]] + rest[1..];
    RemoveIds(t, index, j);
    assert id in ids && ids[id] == TableIds(t0)[id] + TableIds(t1)[id];
    NotElsewhere(t, index, j);
    if !second && Holds(t1, 0, id) { HeldIsCounted(t1, 0, id); }
  }

  /** Stepping to the head of slot i makes nothing pending and drops nothing. */
  lemma NextSlot<K, V>(t: Table<K, V>, i: nat)
    requires i < |t|
    ensures Positioned(t, i, IdSeq(t[i]))
    ensures forall id: nat :: Holds(t, i, id) <==> id in IdSeq(t[i]) || Holds(t, i + 1, id)
  {
    forall id: nat ensures Holds(t, i, id) <==> id in IdSeq(t[i]) || Holds(t, i + 1, id) {
      if id in IdSeq(t[i]) { HeldInChain(t, i, i, id); }
      if Holds(t, i + 1, id) {
        var i2, j :| 0 <= i2 < |t| && i + 1 <= i2 && 0 <= j < |t[i2]| && t[i2][j].id == id;
        assert t[i2][j].id == id;
      }
      if Holds(t, i, id) {
        var i2, j :| 0 <= i2 < |t| && i <= i2 && 0 <= j < |t[i2]| && t[i2][j].id == id;
        if i2 == i { assert IdSeq(t[i])[j] == id; }
      }
    }
  }

  lemma NothingBeyond<K, V>(t: Table<K, V>, from: int)
    requires from >= |t|
    ensures forall id: nat :: !Holds(t, from, id)
  {
  }

  // ----- The iterator -----

  /** `entry->next`, where the entry is the one at address id. */
  function Successor<K, V>(c: Chain<K, V>, id: nat): Option<nat> {
    if |c| <= 1 then None else if c[0].id == id then Some(c[1].id) else Successor(c[1..], id)
  }

  function First(rest: seq<nat>): Option<nat> {
    if rest == [] then None else Some(rest[0])
  }

  lemma {:induction false} SuccessorIsNext<K, V>(c: Chain<K, V>, j: nat)
    requires j < |c| && forall i, k :: 0 <= i < k < |c| ==> c[i].id != c[k].id
    ensures Successor(c, c[j].id) == First(IdSeq(c)[j + 1..])
  {
    if j > 0 {
      SuccessorIsNext(c[1..], j - 1);
      assert IdSeq(c[1..])[j..] == IdSeq(c)[j + 1..];
    }
  }

  lemma ChainAddressesDiffer<K, V>(t: Table<K, V>, i: nat)
    requires i < |t| && forall id :: id in TableIds(t) ==> TableIds(t)[id] == 1
    ensures forall j, k :: 0 <= j < k < |t[i]| ==> t[i][j].id != t[i][k].id
  {
    forall j, k | 0 <= j < k < |t[i]| ensures t[i][j].id != t[i][k].id {
      RemoveIds(t, i, j);
      NotElsewhere(t, i, j);
      assert IdSeq(t[i])[j + 1..][k - j - 1] == t[i][k].id;
    }
  }

  lemma OneTableDistinct<K, V>(t0: Table<K, V>, t1: Table<K, V>, nextId: nat)
    requires AddressesDistinct(TableIds(t0) + TableIds(t1), nextId)
    ensures forall id :: id in TableIds(t0) ==> TableIds(t0)[id] == 1
    ensures forall id :: id in TableIds(t1) ==> TableIds(t1)[id] == 1
  {
    var all := TableIds(t0) + TableIds(t1);
    forall id | id in TableIds(t0) ensures TableIds(t0)[id] == 1 { assert id in all; }
    forall id | id in TableIds(t1) ensures TableIds(t1)[id] == 1 { assert id in all; }
  }

  /** Where the walk stands after leaving an exhausted chain, and with what left of the new one. */
  datatype Place = Place(second: bool, index: nat, rest: seq<nat>) | End(index: nat)

  function NextPlace<K, V>(t0: Table<K, V>, t1: Table<K, V>, rehashing: bool, second: bool, index: int): Place
    requires index >= -1 && (rehashing ==> t1 != [])
  {
    var t := if second then t1 else t0;
    if index + 1 < |t| then Place(second, index + 1, IdSeq(t[index + 1]))
    else if rehashing && !second then Place(true, 0, IdSeq(t1[0]))
    else End(index + 1)
  }

  lemma LeaveChain<K, V>(t0: Table<K, V>, t1: Table<K, V>, rehashing: bool, second: bool, index: int)
    requires index >= -1 && (if rehashing then t1 != [] else t1 == [])
    ensures var p := NextPlace(t0, t1, rehashing, second, index);
            match p
            case Place(second', index', rest') =>
              Positioned(if second' then t1 else t0, index', rest') && index' < |if second' then t1 else t0|
              && forall id: nat :: Pending(t0, t1, second, index, [], id)
                                   <==> Pending(t0, t1, second', index', rest', id)
            case End(last) =>
              Positioned(if second then t1 else t0, last, [])
              && (forall id: nat :: !Pending(t0, t1, second, index, [], id))
              && (forall id: nat :: !Pending(t0, t1, second, last, [], id))
  {
    var t := if second then t1 else t0;
    if index + 1 < |t| {
      NextSlot(t, index + 1);
    } else {
      NothingBeyond(t, index + 1);
      NothingBeyond(t, index + 2);
      if rehashing && !second { NextSlot(t1, 0); } else if !second { NothingBeyond(t1, 0); }
    }
    hide Holds, Positioned, IdSeq;
  }

  function HeadOf<K, V>(c: Chain<K, V>): (head: Option<nat>)
    ensures head == First(IdSeq(c))
  {
    if c == [] then None else Some(c[0].id)
  }

  lemma PositionedFrom<K, V>(t: Table<K, V>, index: int, rest: seq<nat>)
    requires Positioned(t, index, rest)
    ensures index >= -1
  {
  }

  lemma PositionedInside<K, V>(t: Table<K, V>, index: int, rest: seq<nat>)
    requires Positioned(t, index, rest) && rest != []
    ensures 0 <= index < |t|
  {
  }

  lemma NextAddress<K, V>(t: Table<K, V>, index: nat, rest: seq<nat>)
    requires index < |t| && Positioned(t, index, rest) && rest != []
    requires forall id :: id in TableIds(t) ==> TableIds(t)[id] == 1
    ensures Successor(t[index], rest[0]) == First(rest[1..])
  {
    hide Successor, TableIds;
    var c := t[index];
    var j := |c| - |rest|;
    ChainAddressesDiffer(t, index);
    SuccessorIsNext(c, j);
    assert IdSeq(c)[j + 1..] == rest[1..];
  }

  lemma EntriesAreFound<K(!new), V>(dt: DictType<K>, t0: Table<K, V>, t1: Table<K, V>, second: bool, index: nat)
    requires Lawful(dt) && Apart(dt, t0, t1) && index < |if second then t1 else t0|
    ensures var c := (if second then t1 else t0)[index];
            forall k :: 0 <= k < |c| ==> Lookup(dt, t0, t1, c[k].key) == Some(c[k])
  {
    var t: Table<K, V> := if second then t1 else t0;
    forall k | 0 <= k < |t[index]| ensures Lookup(dt, t0, t1, t[index][k].key) == Some(t[index][k]) {
      StoredIsFound(dt, t, index, k);
    }
  }

  /** All there is to know about the entry a walk comes to. */
  lemma Arrive<K(!new), V>(dt: DictType<K>, t0: Table<K, V>, t1: Table<K, V>, used0: nat, used1: nat, rehashidx: int,
                           nextId: nat, second: bool, index: nat, rest: seq<nat>)
    requires Consistent(dt, t0, t1, used0, used1, rehashidx, nextId) && rest != []
    requires var t := if second then t1 else t0; index < |t| && Positioned(t, index, rest)
    ensures var t := if second then t1 else t0;
            Positioned(t, index, rest[1..]) && !Pending(t0, t1, second, index, rest[1..], rest[0])
            && Pending(t0, t1, second, index, rest, rest[0])
            && Successor(t[index], rest[0]) == First(rest[1..])
            && (exists k :: 0 <= k < |t[index]| && t[index][k].id == rest[0])
            && forall k :: 0 <= k < |t[index]| ==> Lookup(dt, t0, t1, t[index][k].key) == Some(t[index][k])
    ensures rest[0] in TableIds(t0) + TableIds(t1) && rest[0] < nextId
    ensures forall id: nat :: id != rest[0] ==>
              (Pending(t0, t1, second, index, rest, id) <==> Pending(t0, t1, second, index, rest[1..], id))
  {
    hide TableIds, Apart, Lookup, Lawful, Successor, Holds, Positioned, IdSeq;
    var t: Table<K, V> := if second then t1 else t0;
    OneTableDistinct(t0, t1, nextId);
    HeadIsLast(t0, t1, second, index, rest, nextId);
    NextAddress(t, index, rest);
    EntriesAreFound(dt, t0, t1, second, index);
    var j := |t[index]| - |rest|;
    RemoveIds(t, index, j);
    assert t[index][j].id in TableIds(t0) + TableIds(t1);
  }

  /** Finds the entry at an address. */
  method Deref<K, V>(c: Chain<K, V>, id: nat) returns (j: nat)
    requires exists k :: 0 <= k < |c| && c[k].id == id
    ensures j < |c| && c[j].id == id
  {
    j := 0;
    while c[j].id != id
      invariant exists k :: j <= k < |c| && c[k].id == id
      decreases |c| - j
    {
      j := j + 1;
    }
  }

  class Iterator<K(!new), V> {
    const d: Dict<K, V>
    const safe: bool
    var second: bool            // table
    var index: int
    var entry: Option<nat>      // addresses, as the C pointers are
    var nextEntry: Option<nat>
    ghost var rest: seq<nat>    // what is left of the current chain

    predicate Started()
      reads this
    {
      !(index == -1 && !second)
    }

    ghost predicate Valid()
      reads this, d
    {
      d.Valid() && Positioned(if second then d.t1 else d.t0, index, rest)
      && (second ==> d.Rehashing()) && (entry.None? ==> rest == []) && (entry.Some? ==> nextEntry == First(rest))
      && (safe && Started() ==> d.iterators > 0)
    }

    constructor (d: Dict<K, V>)
      requires d.Valid()
      ensures this.d == d && safe && Valid() && !Started() && rest == []
    {
      this.d, safe, second, index, entry, nextEntry, rest := d, true, false, -1, None, None, [];
    }

    ghost predicate ToCome(id: nat)
      reads this, d
    {
      Pending(d.t0, d.t1, second, index, rest, id)
    }

    /** `dictNext`: gives an entry that was still to come and no longer is, or ends with none left. */
    method Next() returns (r: Option<Entry<K, V>>)
      requires Valid()
      modifies this, d`iterators
      ensures Valid() && Started() && d.Valid()
      ensures d.iterators == old(d.iterators) + (if safe && !old(Started()) then 1 else 0)
      ensures r.None? ==> forall id: nat :: !ToCome(id) && !old(ToCome(id))
      ensures r.Some? ==> var id := r.value.id; old(ToCome(id)) && !ToCome(id) && d.EntryOf(r.value.key) == r
      ensures r.Some? ==> forall id: nat :: id != r.value.id ==> (ToCome(id) <==> old(ToCome(id)))
      ensures r.Some? ==> r.value.id in d.AllIds() && r.value.id < d.nextId
    {
      hide Positioned, Pending, Consistent, TableIds, Lookup, IdSeq, Successor, Apart, Sound, Lawful, SlotsEmptied,
           Holds, Slot, Suffix;
      d.Shape();
      var t0, t1, rehashing, its := d.t0, d.t1, d.Rehashing(), d.iterators;
      var sec, idx, ent := second, index, if entry.Some? then nextEntry else None;
      ghost var left := rest;
      var t := if sec then t1 else t0;
      PositionedFrom(t, idx, left);
      while ent.None?
        invariant idx >= -1 && t == (if sec then t1 else t0) && (sec ==> rehashing)
        invariant Positioned(t, idx, left) && ent == First(left)
        invariant forall id: nat :: Pending(t0, t1, sec, idx, left, id) <==> old(ToCome(id))
        invariant its == old(d.iterators) + (if safe && !old(Started()) && (sec || idx >= 0) then 1 else 0)
        invariant old(Started()) ==> sec || idx >= 0
        decreases !sec, |t| - idx
      {
        if safe && idx == -1 && !sec { its := its + 1; }
        LeaveChain(t0, t1, rehashing, sec, idx);
        idx := idx + 1;
        if idx >= |t| {
          if rehashing && !sec {
            sec, t, idx := true, t1, 0;
          } else {
            second, index, rest, entry, d.iterators := sec, idx, [], None, its;
            return None;
          }
        }
        ent, left := HeadOf(t[idx]), IdSeq(t[idx]);
      }
      PositionedInside(t, idx, left);
      Arrive(d.dt, t0, t1, d.used0, d.used1, d.rehashidx, d.nextId, sec, idx, left);
      var c := t[idx];
      var j := Deref(c, ent.value);
      r := Some(c[j]);
      second, index, rest, entry, nextEntry, d.iterators := sec, idx, left[1..], ent, Successor(c, ent.value), its;
    }

    method Release()
      requires Valid()
      modifies d`iterators
      ensures d.Valid() && d.iterators == old(d.iterators) - (if safe && Started() then 1 else 0)
    {
      if safe && Started() { d.iterators := d.iterators - 1; }
    }

    ghost function StillToCome(): set<nat>
      reads this, d
    {
      set id | id in d.AllIds() && ToCome(id)
    }

    lemma EverythingToCome()
      requires Valid() && !Started() && rest == []
      ensures forall id :: id in d.AllIds() ==> ToCome(id)
    {
      forall id | id in d.AllIds() ensures ToCome(id) {
        if id in TableIds(d.t0) { CountedIsHeld(d.t0, id); } else { CountedIsHeld(d.t1, id); }
      }
    }

    /** Using the dictionary between two calls of `dictNext`, unlinking at most an entry that has been
        passed, disturbs neither the walk nor what is still to come. */
    twostate lemma Survives(new gone: Option<nat>)
      requires old(Valid()) && unchanged(this) && d.Valid() && d.iterators == old(d.iterators)
      requires d.Evolved(gone) && (gone.Some? ==> !old(ToCome(gone.value)))
      ensures Valid()
      ensures forall id: nat :: id < old(d.nextId) && ToCome(id) ==> old(ToCome(id))
      ensures forall id: nat :: old(ToCome(id)) ==> ToCome(id)
    {
      hide Pending, Positioned, TableEvolved, Consistent;
      PositionSurvives(old(d.t0), old(d.t1), d.t0, d.t1, gone, old(d.nextId), second, index, rest);
    }
  }

  // ----- A whole walk -----

  /** What a program may do with the dictionary between two calls of `dictNext`.  `DeleteReturned`
      deletes the entry just returned, once. */
  datatype UserOp<K, V> = DoFind(key: K) | DoAdd(key: K, val: V) | DoReplace(key: K, val: V) | DeleteReturned

  /** The entry just returned is passed, and still the one stored under its key unless deleted. */
  ghost predicate Passed<K(!new), V>(it: Iterator<K, V>, cur: Entry<K, V>, alive: bool)
    requires it.d.Valid()
    reads it, it.d
  {
    !it.ToCome(cur.id) && cur.id < it.d.nextId
    && (alive ==> it.d.EntryOf(cur.key).Some? && it.d.EntryOf(cur.key).value.id == cur.id)
  }

  /** What a plain map holds after one of these operations, where the entry just returned has the given
      key and has not been deleted by an earlier one if it is alive. */
  function AfterUse<K, V>(dt: DictType<K>, m: DictRun.Contents<K, V>, op: UserOp<K, V>, key: K, alive: bool)
    : DictRun.Contents<K, V>
  {
    match op
    case DoFind(k) => DictRun.After(dt, m, DictRun.Find(k))
    case DoAdd(k, val) => DictRun.After(dt, m, DictRun.Add(k, val))
    case DoReplace(k, val) => DictRun.After(dt, m, DictRun.Replace(k, val))
    case DeleteReturned => if alive then DictRun.After(dt, m, DictRun.Delete(key)) else m
  }

  predicate Undeleted<K, V>(ops: seq<UserOp<K, V>>, n: nat)
    requires n <= |ops|
  {
    forall i :: 0 <= i < n ==> !ops[i].DeleteReturned?
  }

  /** After the first n of them. */
  function AfterUses<K, V>(dt: DictType<K>, m: DictRun.Contents<K, V>, ops: seq<UserOp<K, V>>, key: K, n: nat)
    : DictRun.Contents<K, V>
    requires n <= |ops|
  {
    if n == 0 then m
    else AfterUse(dt, AfterUses(dt, m, ops, key, n - 1), ops[n - 1], key, Undeleted(ops, n - 1))
  }

  method Perform<K(!new), V>(d: Dict<K, V>, op: UserOp<K, V>, cur: Entry<K, V>, alive: bool,
                             ghost m: DictRun.Contents<K, V>)
      returns (stays: bool, ghost gone: Option<nat>)
    requires d.Valid() && d.iterators != 0 && DictRun.Agrees(d, m)
    requires alive ==> d.EntryOf(cur.key).Some? && d.EntryOf(cur.key).value.id == cur.id
    modifies d
    ensures d.Valid() && d.iterators == old(d.iterators) && d.nextId >= old(d.nextId)
    ensures DictRun.Agrees(d, AfterUse(d.dt, m, op, cur.key, alive))
    ensures d.Evolved(gone) && (gone.Some? ==> gone.value == cur.id) && (stays <==> alive && !op.DeleteReturned?)
    ensures stays ==> d.EntryOf(cur.key).Some? && d.EntryOf(cur.key).value.id == cur.id
  {
    hide TableEvolved, Consistent, Lookup, TableIds, Lawful;
    stays, gone := alive, None;
    ghost var next := AfterUse(d.dt, m, op, cur.key, alive);
    d.SameEntry(cur.key);
    match op
    case DoFind(key) =>
      var _ := d.Find(key);
      assert forall q :: next(q) == m(q);
    case DoAdd(key, val) =>
      var ok := d.Add(key, val);
      assert forall q :: next(q) == if ok && d.dt.same(q, key) then Some(val) else m(q);
    case DoReplace(key, val) =>
      var _ := d.Replace(key, val);
      assert forall q :: next(q) == if d.dt.same(q, key) then Some(val) else m(q);
    case DeleteReturned =>
      if alive {
        var ok;
        ok, gone := d.Delete(cur.key);
        stays := false;
        assert forall q :: next(q) == if d.dt.same(q, cur.key) then None else m(q);
      } else {
        d.NothingEvolved();
      }
  }

  method UseOnce<K(!new), V>(it: Iterator<K, V>, op: UserOp<K, V>, cur: Entry<K, V>, alive: bool,
                             ghost m: DictRun.Contents<K, V>) returns (stays: bool)
    requires it.Valid() && it.safe && it.Started() && Passed(it, cur, alive) && DictRun.Agrees(it.d, m)
    modifies it.d
    ensures it.Valid() && it.d.iterators == old(it.d.iterators) && it.d.nextId >= old(it.d.nextId)
    ensures DictRun.Agrees(it.d, AfterUse(it.d.dt, m, op, cur.key, alive))
    ensures Passed(it, cur, stays) && (stays <==> alive && !op.DeleteReturned?)
    ensures forall id: nat :: id < old(it.d.nextId) && it.ToCome(id) ==> old(it.ToCome(id))
    ensures forall id: nat :: old(it.ToCome(id)) ==> it.ToCome(id)
  {
    hide Pending, Positioned, TableEvolved, Consistent, Lookup, AfterUse, DictRun.Agrees;
    ghost var gone;
    stays, gone := Perform(it.d, op, cur, alive, m);
    it.Survives(gone);
  }

  /** Everything a program does between two calls of `dictNext`. */
  method Use<K(!new), V>(it: Iterator<K, V>, ops: seq<UserOp<K, V>>, cur: Entry<K, V>,
                         ghost m: DictRun.Contents<K, V>) returns (deleted: bool)
    requires it.Valid() && it.safe && it.Started() && Passed(it, cur, true) && DictRun.Agrees(it.d, m)
    modifies it.d
    ensures it.Valid() && it.d.iterators == old(it.d.iterators) && it.d.nextId >= old(it.d.nextId)
    ensures it.d.Valid() && DictRun.Agrees(it.d, AfterUses(it.d.dt, m, ops, cur.key, |ops|))
    ensures deleted <==> !Undeleted(ops, |ops|)
    ensures forall id: nat :: id < old(it.d.nextId) && it.ToCome(id) ==> old(it.ToCome(id))
    ensures forall id: nat :: old(it.ToCome(id)) ==> it.ToCome(id)
  {
    hide Pending, Positioned, Consistent, Lookup, TableIds, AfterUse, DictRun.Agrees;
    deleted := false;
    ghost var now := m;
    for i := 0 to |ops|
      invariant it.Valid() && it.d.iterators == old(it.d.iterators) && it.d.nextId >= old(it.d.nextId)
      invariant Passed(it, cur, !deleted) && (deleted <==> !Undeleted(ops, i))
      invariant DictRun.Agrees(it.d, now) && now == AfterUses(it.d.dt, m, ops, cur.key, i)
      invariant forall id: nat :: id < old(it.d.nextId) && it.ToCome(id) ==> old(it.ToCome(id))
      invariant forall id: nat :: old(it.ToCome(id)) ==> it.ToCome(id)
    {
      var stays := UseOnce(it, ops[i], cur, !deleted, now);
      now := AfterUse(it.d.dt, now, ops[i], cur.key, !deleted);
      deleted := !stays;
    }
  }

  /** The addresses of some entries. */
  function Addresses<K, V>(entries: seq<Entry<K, V>>): (ids: set<nat>) {
    set i | 0 <= i < |entries| :: entries[i].id
  }

  lemma AddressesAppend<K, V>(entries: seq<Entry<K, V>>, e: Entry<K, V>)
    ensures Addresses(entries + [e]) == Addresses(entries) + {e.id}
  {
    var all := entries + [e];
    forall id | id in Addresses(entries) + {e.id} ensures id in Addresses(all) {
      if id == e.id { assert all[|entries|].id == id; }
      else {
        var i :| 0 <= i < |entries| && entries[i].id == id;
        assert all[i].id == id;
      }
    }
  }

  /** What a plain map holds after the operations that follow the first n entries returned. */
  function AfterScript<K, V>(dt: DictType<K>, m: DictRun.Contents<K, V>, script: seq<seq<UserOp<K, V>>>,
                             returned: seq<Entry<K, V>>, n: nat): DictRun.Contents<K, V>
    requires n <= |script| && n <= |returned|
  {
    if n == 0 then m
    else
      var ops := script[n - 1];
      AfterUses(dt, AfterScript(dt, m, script, returned, n - 1), ops, returned[n - 1].key, |ops|)
  }

  function Least(m: nat, n: nat): (k: nat)
    ensures k <= m && k <= n && (k == m || k == n)
  {
    if m < n then m else n
  }

  lemma {:induction false} AfterScriptAppend<K, V>(dt: DictType<K>, m: DictRun.Contents<K, V>,
                                                   script: seq<seq<UserOp<K, V>>>, returned: seq<Entry<K, V>>,
                                                   e: Entry<K, V>, n: nat)
    requires n <= |script| && n <= |returned|
    ensures AfterScript(dt, m, script, returned + [e], n) == AfterScript(dt, m, script, returned, n)
  {
    if n > 0 { AfterScriptAppend(dt, m, script, returned, e, n - 1); }
  }

  lemma AfterScriptNext<K, V>(dt: DictType<K>, m: DictRun.Contents<K, V>, script: seq<seq<UserOp<K, V>>>,
                              returned: seq<Entry<K, V>>, e: Entry<K, V>, n: nat)
    requires n < |script| && n == |returned|
    ensures AfterScript(dt, m, script, returned + [e], n + 1)
         == AfterUses(dt, AfterScript(dt, m, script, returned, n), script[n], e.key, |script[n]|)
  {
    AfterScriptAppend(dt, m, script, returned, e, n);
    hide AfterUses;
  }

  lemma NoScript<K, V>(dt: DictType<K>, m: DictRun.Contents<K, V>, script: seq<seq<UserOp<K, V>>>,
                       returned: seq<Entry<K, V>>)
    ensures AfterScript(dt, m, script, returned, 0) == m
  {
  }

  /** A whole safe iteration with a program's own operations in between: no entry is returned twice, every
      entry that was there from the start is returned, and the operations leave what they leave in a plain
      map. */
  method Walk<K(!new), V>(d: Dict<K, V>, script: seq<seq<UserOp<K, V>>>, ghost m: DictRun.Contents<K, V>)
      returns (returned: seq<Entry<K, V>>)
    requires d.Valid() && DictRun.Agrees(d, m)
    modifies d
    ensures d.Valid() && d.iterators == old(d.iterators)
    ensures forall i, j :: 0 <= i < j < |returned| ==> returned[i].id != returned[j].id
    ensures forall id :: id in old(d.AllIds()) ==> id in Addresses(returned)
    ensures DictRun.Agrees(d, AfterScript(d.dt, m, script, returned, Least(|script|, |returned|)))
  {
    hide Pending, Positioned, Consistent, Lookup, TableIds, Addresses, AfterUses, AfterScript, DictRun.Agrees;
    NoScript(d.dt, m, script, []);
    hide Iterator<K, V>.ToCome, Iterator<K, V>.Valid, Dict<K, V>.Valid, Dict<K, V>.EntryOf;
    var it := new Iterator(d);
    returned := [];
    it.EverythingToCome();
    ghost var now := m;
    var k := 0;
    while true
      invariant it.Valid() && it.d == d && it.safe && fresh(it) && k == Least(|script|, |returned|)
      invariant d.Valid() && DictRun.Agrees(d, now) && now == AfterScript(d.dt, m, script, returned, k)
      invariant d.iterators == old(d.iterators) + (if it.Started() then 1 else 0)
      invariant forall i :: 0 <= i < |returned| ==> returned[i].id < d.nextId && !it.ToCome(returned[i].id)
      invariant forall i, j :: 0 <= i < j < |returned| ==> returned[i].id != returned[j].id
      invariant forall id :: id in old(d.AllIds()) ==> id in Addresses(returned) || it.ToCome(id)
      decreases |script| - k, it.StillToCome()
    {
      ghost var before := it.StillToCome();
      var r := it.Next();
      if r.None? { break; }
      assert r.value.id in before && it.StillToCome() == before - {r.value.id};
      AddressesAppend(returned, r.value);
      AfterScriptAppend(d.dt, m, script, returned, r.value, k);
      if k < |script| { AfterScriptNext(d.dt, m, script, returned, r.value, k); }
      returned := returned + [r.value];
      if k < |script| {
        var _ := Use(it, script[k], r.value, now);
        now := AfterUses(d.dt, now, script[k], r.value.key, |script[k]|);
        k := k + 1;
      }
    }
    it.Release();
  }
}
