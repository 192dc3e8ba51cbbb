/** Whole runs of a dictionary against a plain map, and the key type the DNS cache uses. */
module DictRun {
  import opened Bits
  import opened DictTables
  import opened Dict

  // ----- Runs -----

  datatype Op<K, V> =
    | Find(key: K) | Add(key: K, val: V) | Replace(key: K, val: V) | Delete(key: K)
    | RehashSteps(n: int) | Resize | Expand(size: nat) | EnableResize | DisableResize

  datatype Answer<V> = Value(v: Option<V>) | Flag(b: bool) | Quiet

  /** A plain map from keys to values. */
  type Contents<!K, V> = K -> Option<V>

  function Put<K, V>(dt: DictType<K>, m: Contents<K, V>, key: K, val: V): Contents<K, V> {
    q => if dt.same(q, key) then Some(val) else m(q)
  }

  function AnswerTo<K, V>(m: Contents<K, V>, op: Op<K, V>): Answer<V> {
    match op
    case Find(key) => Value(m(key))
    case Add(key, _) => Flag(m(key).None?)
    case Replace(key, _) => Flag(m(key).None?)
    case Delete(key) => Flag(m(key).Some?)
    case _ => Quiet
  }

  function After<K, V>(dt: DictType<K>, m: Contents<K, V>, op: Op<K, V>): Contents<K, V> {
    match op
    case Add(key, val) => if m(key).None? then Put(dt, m, key, val) else m
    case Replace(key, val) => Put(dt, m, key, val)
    case Delete(key) => (q => if dt.same(q, key) then None else m(q))
    case _ => m
  }

  /** What a plain map answers to a list of operations. */
  function Answers<K, V>(dt: DictType<K>, m: Contents<K, V>, ops: seq<Op<K, V>>): seq<Answer<V>> {
    if ops == [] then [] else [AnswerTo(m, ops[0])] + Answers(dt, After(dt, m, ops[0]), ops[1..])
  }

  ghost predicate Agrees<K(!new), V>(d: Dict<K, V>, m: Contents<K, V>)
    requires d.Valid()
    reads d`t0, d`t1, d`used0, d`used1, d`rehashidx, d`nextId
  {
    forall q :: d.Get(q) == m(q)
  }

  function Toggled<K, V>(enabled: bool, op: Op<K, V>): bool {
    op.EnableResize? || (enabled && !op.DisableResize?)
  }

  predicate LooksUp<K, V>(op: Op<K, V>) {
    op.Find? || op.Add? || op.Replace? || op.Delete?
  }

  method Step<K(!new), V>(d: Dict<K, V>, op: Op<K, V>, ghost m: Contents<K, V>) returns (answer: Answer<V>)
    requires d.Valid() && Agrees(d, m) && d.iterators == 0
    modifies d
    ensures d.Valid() && Agrees(d, After(d.dt, m, op)) && d.iterators == 0
    ensures answer == AnswerTo(m, op)
    ensures d.canResize == Toggled(old(d.canResize), op)
    ensures match op
            case Add(_, _) => old(d.LoadBounded(false)) ==> d.LoadBounded(d.canResize)
            case Replace(_, _) => old(d.LoadBounded(false)) ==> d.LoadBounded(d.canResize)
            case Resize => true
            case Expand(_) => true
            case _ => d.KeepsLoad()
    ensures LooksUp(op) && old(d.Left()) > 1 ==> d.Left() < old(d.Left())
  {
    hide Consistent, Lookup, Lawful, TableEvolved, TableIds, Apart, GainedEmptyTable, OccupiedSlots;
    hide Dict<K, V>.LoadBounded, Dict<K, V>.LoadReady, Dict<K, V>.Crowded, Dict<K, V>.Grows, Dict<K, V>.EntryOf;
    hide Dict<K, V>.Evolved, Dict<K, V>.Rehashing, Dict<K, V>.Size, Dict<K, V>.AllIds, SizedFor;
    answer := Quiet;
    ghost var next := After(d.dt, m, op);
    match op
    case Find(key) =>
      var v := d.Find(key);
      answer := Value(v);
      assert forall q :: next(q) == m(q);
    case Add(key, val) =>
      var ok := d.Add(key, val);
      answer := Flag(ok);
      assert forall q :: next(q) == if ok && d.dt.same(q, key) then Some(val) else m(q);
    case Replace(key, val) =>
      var added := d.Replace(key, val);
      answer := Flag(added);
      assert forall q :: next(q) == if d.dt.same(q, key) then Some(val) else m(q);
    case Delete(key) =>
      var ok, _ := d.Delete(key);
      answer := Flag(ok);
      assert forall q :: next(q) == if d.dt.same(q, key) then None else m(q);
    case RehashSteps(n) =>
      var _ := d.Rehash(n);
    case Resize =>
      var _ := d.Resize();
    case Expand(size) =>
      var _ := d.Expand(size);
    case EnableResize =>
      d.EnableResize();
    case DisableResize =>
      d.DisableResize();
  }

  /** What a plain map holds after the first n operations. */
  function AfterAll<K, V>(dt: DictType<K>, m: Contents<K, V>, ops: seq<Op<K, V>>, n: nat): Contents<K, V>
    requires n <= |ops|
  {
    if n == 0 then m else After(dt, AfterAll(dt, m, ops, n - 1), ops[n - 1])
  }

  /** A rehashing takes no more operations than the old table has occupied slots, whichever of the four they
      are: by then it has been emptied. */
  method RunUntilMoved<K(!new), V>(d: Dict<K, V>, ops: seq<Op<K, V>>, ghost m: Contents<K, V>)
      returns (k: nat)
    requires d.Valid() && Agrees(d, m) && d.iterators == 0 && d.Rehashing()
    requires forall i :: 0 <= i < |ops| ==> LooksUp(ops[i])
    modifies d
    ensures d.Valid() && k <= |ops| && Agrees(d, AfterAll(d.dt, m, ops, k)) && k <= old(OccupiedSlots(d.t0))
    ensures |ops| >= old(OccupiedSlots(d.t0)) ==> !d.Rehashing() || d.used0 == 0
  {
    hide Consistent, Lookup, After, AnswerTo, OccupiedSlots;
    hide Dict<K, V>.LoadBounded, Dict<K, V>.EntryOf;
    k := 0;
    ghost var after := m;
    while k < |ops| && d.Rehashing() && d.used0 != 0
      invariant d.Valid() && d.iterators == 0 && k <= |ops|
      invariant Agrees(d, after) && after == AfterAll(d.dt, m, ops, k)
      invariant d.Left() + k <= old(d.Left()) && (k == 0 ==> d.Left() == old(d.Left()))
      invariant k <= old(d.Left()) - 1
      decreases |ops| - k
    {
      d.UsedIsOccupied();
      var _ := Step(d, ops[k], after);
      after := After(d.dt, after, ops[k]);
      k := k + 1;
    }
    d.UsedIsOccupied();
  }

  // ----- How full the tables get -----

  /** The number of entries and the size of the newest table. */
  datatype Load = Load(entries: nat, slots: nat)

  function LoadOf<K(!new), V>(d: Dict<K, V>): Load
    reads d
  {
    Load(d.Size(), if d.Rehashing() then |d.t1| else |d.t0|)
  }

  predicate ResizesItself<K, V>(ops: seq<Op<K, V>>) {
    forall i :: 0 <= i < |ops| ==> !ops[i].Resize? && !ops[i].Expand?
  }

  /** Whether resizing is enabled after the operations. */
  predicate Enabled<K, V>(ops: seq<Op<K, V>>) {
    ops == [] || Toggled(Enabled(ops[..|ops| - 1]), ops[|ops| - 1])
  }

  /** Resizing was enabled at the last add or replace. */
  predicate GrewInTime<K, V>(ops: seq<Op<K, V>>) {
    ops == []
    || var op := ops[|ops| - 1];
       if op.Add? || op.Replace? then Enabled(ops) else GrewInTime(ops[..|ops| - 1])
  }

  lemma LoadIsBounded<K(!new), V>(d: Dict<K, V>, tight: bool)
    requires d.Valid() && d.LoadBounded(tight)
    ensures LoadOf(d).entries <= MostEntries(LoadOf(d).slots, tight)
    ensures d.LoadBounded(false)
  {
    d.Shape();
  }

  lemma NoOps<K, V>(ops: seq<Op<K, V>>)
    ensures Enabled(ops[..0]) && GrewInTime(ops[..0])
  {
  }

  lemma OneMoreOp<K, V>(ops: seq<Op<K, V>>, k: nat)
    requires k < |ops|
    ensures var op := ops[k];
            Enabled(ops[..k + 1]) == Toggled(Enabled(ops[..k]), op)
            && GrewInTime(ops[..k + 1])
               == if op.Add? || op.Replace? then Enabled(ops[..k + 1]) else GrewInTime(ops[..k])
  {
    assert ops[..k + 1][..k] == ops[..k];
  }

  /** Any list of operations, on any key type, gets the answers of a plain map, whether resizing is
      enabled or not.  As long as no operation resizes explicitly, there is at no time more than one
      entry above the number of slots of the newest table, provided resizing was enabled at the last add
      or replace; otherwise there are at most six entries a slot. */
  method Run<K(!new), V>(dt: DictType<K>, ops: seq<Op<K, V>>) returns (answers: seq<Answer<V>>, loads: seq<Load>)
    requires Lawful(dt)
    ensures answers == Answers(dt, _ => None, ops)
    ensures |loads| == |ops|
    ensures ResizesItself(ops) ==>
              forall i :: 0 <= i < |loads| ==> loads[i].entries <= MostEntries(loads[i].slots, GrewInTime(ops[..i + 1]))
  {
    hide Consistent, Lookup, After, AnswerTo, MostEntries, GrewInTime, Enabled;
    hide Dict<K, V>.LoadBounded, Dict<K, V>.EntryOf;
    var d := new Dict<K, V>(dt);
    ghost var m: Contents<K, V> := _ => None;
    answers, loads := [], [];
    NoOps(ops);
    for k := 0 to |ops|
      invariant d.Valid() && fresh(d) && Agrees(d, m) && d.dt == dt && d.iterators == 0
      invariant answers + Answers(dt, m, ops[k..]) == Answers(dt, _ => None, ops)
      invariant |loads| == k && d.canResize == Enabled(ops[..k])
      invariant ResizesItself(ops) ==> d.LoadBounded(GrewInTime(ops[..k]))
      invariant ResizesItself(ops) ==>
                  forall i :: 0 <= i < k ==> loads[i].entries <= MostEntries(loads[i].slots, GrewInTime(ops[..i + 1]))
    {
      if ResizesItself(ops) { LoadIsBounded(d, GrewInTime(ops[..k])); }
      var answer := Step(d, ops[k], m);
      assert ops[k..][1..] == ops[k + 1..];
      OneMoreOp(ops, k);
      answers := answers + [answer];
      loads := loads + [LoadOf(d)];
      if ResizesItself(ops) { LoadIsBounded(d, GrewInTime(ops[..k + 1])); }
      m := After(dt, m, ops[k]);
    }
  }

  predicate AllDistinct<K(!new)>(dt: DictType<K>, keys: seq<K>) {
    forall i: nat, j: nat :: i < j < |keys| ==> !dt.same(keys[j], keys[i])
  }

  predicate Among<K(!new)>(dt: DictType<K>, keys: seq<K>, k: nat, q: K)
    requires k <= |keys|
  {
    exists i :: 0 <= i < k && dt.same(q, keys[i])
  }

  lemma SizeForTwentyFour(slots: nat)
    requires SizedFor(slots, 48)
    ensures slots == 64
  {
    assert IsPowerOfTwo(slots / 2) && IsPowerOfTwo(slots / 4) && IsPowerOfTwo(slots / 8);
    assert IsPowerOfTwo(slots / 16) && slots / 16 == 4;
  }

  /** With resizing disabled, the first table of four slots takes exactly 24 entries; the next one makes
      the dictionary grow, at once to 64 slots. */
  method FillWithoutResizing<K(!new), V>(dt: DictType<K>, keys: seq<K>, val: V) returns (load: Load)
    requires Lawful(dt) && AllDistinct(dt, keys) && 0 < |keys| <= 25
    ensures load == Load(|keys|, if |keys| <= 24 then 4 else 64)
  {
    hide Consistent, Lookup, Apart, TableIds, GainedEmptyTable, TableEvolved, Sound, SlotsEmptied, Lawful;
    hide OccupiedSlots, Slot, IsPowerOfTwo, SizedFor;
    hide Dict<K, V>.LoadBounded, Dict<K, V>.LoadReady, Dict<K, V>.Evolved, Dict<K, V>.KeepsLoad;
    var d := new Dict<K, V>(dt);
    d.DisableResize();
    for k := 0 to |keys|
      invariant d.Valid() && d.dt == dt && d.iterators == 0 && !d.canResize && fresh(d)
      invariant d.Size() == k && forall q :: d.EntryOf(q).Some? ==> Among(dt, keys, k, q)
      invariant k <= 24 ==> !d.Rehashing() && (d.t0 == [] <==> k == 0) && (k != 0 ==> |d.t0| == 4)
      invariant k == 25 ==> d.Rehashing() && |d.t1| == 64
    {
      d.Shape();
      assert d.EntryOf(keys[k]).None?;
      if k != 0 { RatioExceeded(k, 4); }
      var ok := d.Add(keys[k], val);
      forall q | Among(dt, keys, k, q) || dt.same(q, keys[k]) ensures Among(dt, keys, k + 1, q) {}
      if k == 24 { SizeForTwentyFour(|d.t1|); }
    }
    load := LoadOf(d);
  }

  lemma {:induction false} AllOccupied<K, V>(t: Table<K, V>)
    requires forall i :: 0 <= i < |t| ==> t[i] != []
    ensures OccupiedSlots(t) == |t|
  {
    if t != [] { AllOccupied(t[1..]); }
  }

  predicate Hit<K>(dt: DictType<K>, keys: seq<K>, s: nat)
    requires |keys| >= 4 && IsPowerOfTwo(4)
  {
    exists i :: 0 <= i < 4 && Slot(dt, keys[i], 4) == s
  }

  /** The first four keys fall into different slots of four. */
  predicate SpreadOut<K>(dt: DictType<K>, keys: seq<K>)
    requires |keys| >= 4 && IsPowerOfTwo(4)
  {
    forall s :: 0 <= s < 4 ==> Hit(dt, keys, s)
  }

  lemma SizeForFour(slots: nat)
    requires SizedFor(slots, 8)
    ensures slots == 8
  {
    assert IsPowerOfTwo(slots / 2) && slots / 2 < 8 && IsPowerOfTwo(slots / 4) && slots / 4 < 4;
  }

  /** The tight bound is sharp too: nine keys, the first four in different slots, make nine entries in a
      newest table of eight slots. */
  method FillToTheBound<K(!new), V>(dt: DictType<K>, keys: seq<K>, val: V) returns (load: Load)
    requires Lawful(dt) && AllDistinct(dt, keys) && |keys| == 9 && IsPowerOfTwo(4) && SpreadOut(dt, keys)
    ensures load == Load(9, 8)
  {
    hide Consistent, Lookup, Apart, TableIds, GainedEmptyTable, TableEvolved, Sound, SlotsEmptied, Lawful;
    hide OccupiedSlots, Slot, IsPowerOfTwo;
    hide Dict<K, V>.LoadBounded, Dict<K, V>.LoadReady, Dict<K, V>.Evolved, Dict<K, V>.KeepsLoad;
    var d := new Dict<K, V>(dt);
    for k := 0 to 9
      invariant d.Valid() && d.dt == dt && d.iterators == 0 && d.canResize && fresh(d)
      invariant d.Size() == k && forall q :: d.EntryOf(q).Some? ==> Among(dt, keys, k, q)
      invariant k <= 4 ==> !d.Rehashing() && (d.t0 == [] <==> k == 0) && (k != 0 ==> |d.t0| == 4)
      invariant k <= 4 ==> forall s :: 0 <= s < |d.t0| ==>
                             (d.t0[s] == [] <==> forall i :: 0 <= i < k ==> Slot(dt, keys[i], 4) != s)
      invariant k > 4 ==> d.Rehashing() && |d.t1| == 8 && OccupiedSlots(d.t0) == 9 - k
    {
      d.Shape();
      assert d.EntryOf(keys[k]).None?;
      if k == 4 {
        forall s | 0 <= s < 4 ensures d.t0[s] != [] { assert Hit(dt, keys, s); }
        AllOccupied(d.t0);
      }
      var ok := d.Add(keys[k], val);
      forall q | Among(dt, keys, k, q) || dt.same(q, keys[k]) ensures Among(dt, keys, k + 1, q) {}
      if k == 4 { SizeForFour(|d.t1|); }
    }
    load := LoadOf(d);
  }

  /** Small integers that hash to themselves are such keys. */
  method NineInEight() returns (load: Load)
    ensures load == Load(9, 8)
  {
    var dt: DictType<nat> := DictType((n: nat) => n, (m: nat, n: nat) => m == n);
    assert IsPowerOfTwo(4);
    var keys: seq<nat> := [0, 1, 2, 3, 4, 5, 6, 7, 8];
    forall s | 0 <= s < 4 ensures Hit(dt, keys, s) {
      MaskIsModulo(s, 4);
      assert Slot(dt, keys[s], 4) == s;
    }
    load := FillToTheBound(dt, keys, 0);
  }

  // ----- The key type of the DNS cache -----

  /** `tolower` in the C locale */
  function ToLower(c: Byte): Byte { if 65 <= c <= 90 then c + 32 else c }

  /** `dictGenStrCaseHashFunction`, from the byte at which it stands */
  function CaseHash(name: seq<Byte>, hash: nat): nat {
    if name == [] then hash
    else CaseHash(name[1..], (hash * 32 % 0x1_0000_0000 + hash + ToLower(name[0])) % 0x1_0000_0000)
  }

  /** `strcasecmp(...) == 0` */
  predicate CaseSame(a: seq<Byte>, b: seq<Byte>) {
    |a| == |b| && forall i :: 0 <= i < |a| ==> ToLower(a[i]) == ToLower(b[i])
  }

  const DNSDictType: DictType<seq<Byte>> := DictType((name: seq<Byte>) => CaseHash(name, 5381), CaseSame)

  lemma {:induction false} CaseHashRespectsCase(a: seq<Byte>, b: seq<Byte>, hash: nat)
    requires CaseSame(a, b)
    ensures CaseHash(a, hash) == CaseHash(b, hash)
  {
    if a != [] {
      assert ToLower(a[0]) == ToLower(b[0]);
      assert CaseSame(a[1..], b[1..]);
      CaseHashRespectsCase(a[1..], b[1..], (hash * 32 % 0x1_0000_0000 + hash + ToLower(a[0])) % 0x1_0000_0000);
    }
  }

  /** Two bytes are the same up to case: equal, or an upper-case letter and the letter 32 behind it. */
  lemma CaseSameBytes(x: Byte, y: Byte)
    ensures CaseSame([x], [y]) <==> x == y || (65 <= x <= 90 && y == x + 32) || (65 <= y <= 90 && x == y + 32)
  {
    if CaseSame([x], [y]) { assert ToLower([x][0]) == ToLower([y][0]); }
  }

  /** Names are the same when they are equally long and their bytes are. */
  lemma CaseSameIsBytewise(a: seq<Byte>, b: seq<Byte>)
    ensures CaseSame(a, b) <==> |a| == |b| && forall i :: 0 <= i < |a| ==> CaseSame([a[i]], [b[i]])
  {
    if |a| == |b| && forall i :: 0 <= i < |a| ==> CaseSame([a[i]], [b[i]]) {
      forall i | 0 <= i < |a| ensures ToLower(a[i]) == ToLower(b[i]) {
        assert ToLower([a[i]][0]) == ToLower([b[i]][0]);
      }
    }
  }

  lemma ShiftAndAdd(hash: nat, c: nat)
    requires hash < 0x1_0000_0000
    ensures (hash * 32 % 0x1_0000_0000 + hash + c) % 0x1_0000_0000 == (33 * hash + c) % 0x1_0000_0000
  {
  }

  /** The hash of the cache's keys starts at 5381; with one byte more it is 33 times what it was, plus that
      byte in lower case. */
  lemma {:induction false} CaseHashOfLast(name: seq<Byte>, c: Byte, hash: nat)
    requires hash < 0x1_0000_0000
    ensures CaseHash([], hash) == hash && DNSDictType.hash([]) == 5381
    ensures CaseHash(name + [c], hash)
         == (33 * CaseHash(name, hash) + if 65 <= c <= 90 then c + 32 else c) % 0x1_0000_0000
  {
    if name == [] {
      ShiftAndAdd(hash, ToLower(c));
      assert CaseHash([c], hash) == CaseHash([], (hash * 32 % 0x1_0000_0000 + hash + ToLower(c)) % 0x1_0000_0000);
    } else {
      var next := (hash * 32 % 0x1_0000_0000 + hash + ToLower(name[0])) % 0x1_0000_0000;
      assert (name + [c])[1..] == name[1..] + [c];
      CaseHashOfLast(name[1..], c, next);
    }
  }

  /** Names that differ only in case hash alike, so the cache's dictionary type is lawful. */
  lemma DNSDictTypeIsLawful()
    ensures Lawful(DNSDictType)
  {
    forall a: seq<Byte>, b: seq<Byte> | CaseSame(a, b) ensures CaseHash(a, 5381) == CaseHash(b, 5381) {
      CaseHashRespectsCase(a, b, 5381);
    }
  }
}
