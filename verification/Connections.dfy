/** The connections of a server and the buffers they take from the slot allocators of their workers
    and from the C heap: who owns which buffer, through opening, growth, renewal and closing. */
module Connections {
  import opened Bits
  import opened BufferSizes
  import opened Memory

  /** A buffer pointer (0 is NULL) with the id of its slot, negative for a buffer of the C heap. */
  datatype Buf = Buf(arena_id: int, address: nat)

  /** What a buffer pointer entitles its connection to give back. */
  datatype Holding = Nothing | Slot(worker: nat, id: nat, at: nat) | Block(at: nat)

  function HeldBy(worker: nat, b: Buf): Holding {
    if b.address == 0 then Nothing
    else if b.arena_id >= 0 then Slot(worker, b.arena_id, b.address)
    else Block(b.address)
  }

  /** What a pointer into the C heap entitles to. */
  function Chunk(p: nat): Holding { if p == 0 then Nothing else Block(p) }

  predicate SameBucket(x: Holding, y: Holding)
    requires x.Slot?
  {
    y.Slot? && y.worker == x.worker && y.id != x.id && BucketOf(y.id) == BucketOf(x.id)
  }

  /** A slot whose bucket keeps its memory when the slot is given back: the first bucket, or one with another
      of these slots. */
  ghost predicate KeepsMemory(x: Holding, others: set<Holding>) {
    x.Slot? && (BucketOf(x.id) == 0 || exists y :: y in others && SameBucket(x, y))
  }

  lemma StillKeepsMemory(x: Holding, others: set<Holding>, after: set<Holding>)
    requires others - {x} <= after
    ensures KeepsMemory(x, others) ==> KeepsMemory(x, after)
  {
    if KeepsMemory(x, others) && BucketOf(x.id) != 0 {
      var y :| y in others && SameBucket(x, y);
      assert y in after;
    }
  }

  // ----- Ownership, on values -----

  datatype Pair = Pair(read: Holding, write: Holding)
  datatype Owner = Reader(i: nat) | Writer(i: nat)

  const NONE := Pair(Nothing, Nothing)

  function Holds(table: seq<Pair>, o: Owner): Holding {
    if o.i >= |table| then Nothing else if o.Reader? then table[o.i].read else table[o.i].write
  }

  /** Every taken buffer is held by exactly one owner, and nothing else is held. */
  ghost predicate Owned(table: seq<Pair>, taken: set<Holding>) {
    Nothing !in taken
    && (forall o :: Holds(table, o) != Nothing ==> Holds(table, o) in taken)
    && (forall o, p :: o != p && Holds(table, o) != Nothing ==> Holds(table, o) != Holds(table, p))
    && (forall h :: h in taken ==> exists o :: Holds(table, o) == h)
  }

  function With(table: seq<Pair>, o: Owner, h: Holding): seq<Pair>
    requires o.i < |table|
  {
    if o.Reader? then table[o.i := table[o.i].(read := h)] else table[o.i := table[o.i].(write := h)]
  }

  lemma HeldIsTaken(table: seq<Pair>, taken: set<Holding>, o: Owner)
    requires Owned(table, taken)
    ensures Holds(table, o) != Nothing ==> Holds(table, o) in taken
  {
  }

  /** An owner that swaps what it holds for something nobody holds keeps ownership exact. */
  lemma Swapped(table: seq<Pair>, taken: set<Holding>, o: Owner, h: Holding)
    requires Owned(table, taken) && o.i < |table|
    requires h == Nothing || h !in taken - {Holds(table, o)}
    ensures Owned(With(table, o, h), taken - {Holds(table, o)} + if h == Nothing then {} else {h})
  {
    var t := With(table, o, h);
    var left := taken - {Holds(table, o)} + if h == Nothing then {} else {h};
    assert forall p :: p != o ==> Holds(t, p) == Holds(table, p);
    assert Holds(t, o) == h;
    forall x | x in left ensures exists p :: Holds(t, p) == x {
      if x in taken - {Holds(table, o)} {
        var p :| Holds(table, p) == x;
        assert Holds(t, p) == x;
      }
    }
  }

  lemma Dropped(table: seq<Pair>, taken: set<Holding>, o: Owner)
    requires Owned(table, taken) && o.i < |table|
    ensures Owned(With(table, o, Nothing), taken - {Holds(table, o)})
  {
    Swapped(table, taken, o, Nothing);
    assert taken - {Holds(table, o)} + {} == taken - {Holds(table, o)};
  }

  lemma Gained(table: seq<Pair>, taken: set<Holding>, o: Owner, h: Holding)
    requires Owned(table, taken) && o.i < |table| && Holds(table, o) == Nothing && h !in taken
    ensures h == Nothing ==> Owned(With(table, o, h), taken)
    ensures h != Nothing ==> Owned(With(table, o, h), taken + {h})
  {
    Swapped(table, taken, o, h);
    assert taken - {Nothing} == taken && taken + {} == taken;
  }

  lemma Exchanged(table: seq<Pair>, taken: set<Holding>, o: Owner, h: Holding)
    requires Owned(table, taken) && o.i < |table| && h != Nothing && h !in taken - {Holds(table, o)}
    ensures Owned(With(table, o, h), taken - {Holds(table, o)} + {h})
  {
    Swapped(table, taken, o, h);
  }

  lemma BothAcquired(table: seq<Pair>, taken: set<Holding>, i: nat, r: Holding, w: Holding)
    requires Owned(table, taken) && i < |table| && table[i] == NONE
    requires r !in taken && w !in taken + {r} && r != Nothing && w != Nothing
    ensures Owned(table[i := Pair(r, w)], taken + {r} + {w})
  {
    Gained(table, taken, Reader(i), r);
    var once := With(table, Reader(i), r);
    Gained(once, taken + {r}, Writer(i), w);
    assert With(once, Writer(i), w) == table[i := Pair(r, w)];
  }

  /** When only the buffers of some connections remain, those are all that is taken. */
  lemma NobodyHolds(table: seq<Pair>, taken: set<Holding>)
    requires Owned(table, taken)
    ensures taken == {} <==> forall i :: 0 <= i < |table| ==> table[i] == NONE
  {
    if taken == {} {
      forall i | 0 <= i < |table| ensures table[i] == NONE {
        assert Holds(table, Reader(i)) == table[i].read && Holds(table, Writer(i)) == table[i].write;
      }
    } else {
      var h :| h in taken;
      var o :| Holds(table, o) == h;
      assert table[o.i] != NONE;
    }
  }

  /** When all other connections hold nothing, all that is taken is what this one holds. */
  lemma OnlyOneHolds(table: seq<Pair>, taken: set<Holding>, i: nat)
    requires Owned(table, taken) && i < |table| && table[i].read != Nothing && table[i].write != Nothing
    requires forall j :: 0 <= j < |table| && j != i ==> table[j] == NONE
    ensures taken == {table[i].read, table[i].write}
  {
    assert Holds(table, Reader(i)) == table[i].read && Holds(table, Writer(i)) == table[i].write;
    forall h | h in taken ensures h in {table[i].read, table[i].write} {
      var o :| Holds(table, o) == h;
      assert o.i == i;
    }
  }

  // ----- The connections -----

  class Conn {
    var worker_id: nat
    var client_fd: int
    var conn_time: nat
    var read: Buf              // r_buf_arena_id, read_buffer
    var rbuf_size: nat
    var need_read: nat
    var have_read: nat
    var write: Buf             // w_buf_arena_id, __write_buffer
    var wbuf_size: nat
    var need_write_all: nat    // __need_write
    var need_write: nat
    var have_write: nat

    /** A zeroed structure. */
    constructor ()
      ensures worker_id == 0 && client_fd == 0 && conn_time == 0 && read.address == 0 && write.address == 0
    {
      worker_id, client_fd, conn_time := 0, 0, 0;
      read, rbuf_size, need_read, have_read := Buf(0, 0), 0, 0, 0;
      write, wbuf_size, need_write_all, need_write, have_write := Buf(0, 0), 0, 0, 0, 0;
    }

    ghost function Holdings(): Pair
      reads this
    {
      Pair(HeldBy(worker_id, read), HeldBy(worker_id, write))
    }

    twostate predicate Same()
      reads this
    {
      unchanged(this)
    }

    /** A slot id comes with its address. */
    predicate Sane()
      reads this`read
    {
      read.arena_id >= 0 ==> read.address != 0
    }

    predicate Waiting()
      reads this
    {
      rbuf_size == RBUF_SZ && have_read == 0 && need_read == CMD_PREFIX_BYTE
      && wbuf_size == WBUF_SZ - CMD_PREFIX_BYTE && have_write == 0
      && need_write_all == CMD_PREFIX_BYTE && need_write == 0
    }

    /** The connection waits for the head of a message with buffers of one slot. */
    method ResetCounters()
      modifies this`rbuf_size, this`have_read, this`need_read, this`wbuf_size, this`have_write, this`need_write_all,
               this`need_write
      ensures Waiting()
    {
      rbuf_size, have_read, need_read := RBUF_SZ, 0, CMD_PREFIX_BYTE;
      wbuf_size, have_write := WBUF_SZ - CMD_PREFIX_BYTE, 0;
      need_write_all, need_write := CMD_PREFIX_BYTE, 0;
    }
  }

  // ----- Places of the client list, on values -----

  /** What the list shows of a place: idle, or in use with a descriptor. */
  datatype Status = Vacant | Busy(fd: int)

  /** The first idle place after the one found last, around the circle from the k-th on; -1 if there is none. */
  function FirstFree(places: seq<Status>, last: nat, k: nat): (place: int)
    ensures place == -1 || 0 <= place < |places|
    decreases |places| - k
  {
    if k >= |places| then -1
    else
      var j := (last + 1 + k) % |places|;
      if places[j].Vacant? then j else FirstFree(places, last, k + 1)
  }

  /** What happens to a server's connections. */
  datatype Op = Opening(fd: int, worker: nat, now: nat) | Growing(i: nat) | Renewing(i: nat, now: nat) | Closing(i: nat)

  /** An operation that opens a connection gives it a place.  Only a connection with a descriptor is closed. */
  function AfterOp(op: Op, place: int, places: seq<Status>): (after: seq<Status>)
    ensures |after| == |places|
  {
    match op
    case Opening(fd, _, _) => if 0 <= place < |places| then places[place := Busy(fd)] else places
    case Closing(i) => if i < |places| && places[i].Busy? && places[i].fd != 0 then places[i := Vacant] else places
    case _ => places
  }

  /** What a list of operations does: the place each of them gets, or -1, and the list afterwards. */
  datatype Course = Course(given: seq<int>, places: seq<Status>, last: nat)

  function Place(op: Op, c: Course): int { if op.Opening? then FirstFree(c.places, c.last, 0) else -1 }

  function Performed(op: Op, c: Course): Course {
    var place := Place(op, c);
    Course(c.given + [place], AfterOp(op, place, c.places), if place >= 0 then place else c.last)
  }

  function PerformedAll(ops: seq<Op>, places: seq<Status>, last: nat): (c: Course)
    ensures |c.given| == |ops| && |c.places| == |places|
  {
    if ops == [] then Course([], places, last)
    else Performed(ops[|ops| - 1], PerformedAll(ops[..|ops| - 1], places, last))
  }

  lemma NothingPerformed(places: seq<Status>, last: nat)
    ensures PerformedAll([], places, last) == Course([], places, last)
  {
  }

  lemma OnePerformedMore(ops: seq<Op>, i: nat, places: seq<Status>, last: nat)
    requires i < |ops|
    ensures PerformedAll(ops[..i + 1], places, last) == Performed(ops[i], PerformedAll(ops[..i], places, last))
  {
    assert ops[..i + 1][..i] == ops[..i];
  }

  ghost function Parts(m: GkoAlloc): set<object> { {m, m.m_map, m.bucket_s, m.bucket_used} }

  class Pool {
    const workers: seq<GkoAlloc>
    const conns: array<Conn?>       // g_client_list
    var g_curr_conn: nat
    var heap: set<nat>              // addresses malloc has handed out
    ghost var taken: set<Holding>   // every buffer handed out by a worker or by malloc
    ghost var table: seq<Pair>      // what each connection holds

    /** `table` is what the connections hold. */
    ghost predicate Listed()
      reads this`table, this`g_curr_conn, conns, conns[..]
    {
      |table| == conns.Length > 0 && |workers| > 0 && g_curr_conn < conns.Length
      && (forall i, j :: 0 <= i < j < conns.Length && conns[i] != null ==> conns[i] != conns[j])
      && (forall i :: 0 <= i < conns.Length ==>
            table[i] == (if conns[i] == null then NONE else conns[i].Holdings()))
      && (forall i :: 0 <= i < conns.Length && conns[i] != null ==> conns[i].worker_id < |workers|)
    }

    /** `taken` is what the allocators have handed out. */
    ghost predicate Tied()
      reads this`heap, this`taken, workers,
            set w | w in workers :: w.m_map, set w | w in workers :: w.bucket_s, set w | w in workers :: w.bucket_used
    {
      (forall w :: 0 <= w < |workers| ==> workers[w].Valid())
      && (forall v, w :: 0 <= v < w < |workers| ==> Parts(workers[v]) !! Parts(workers[w]))
      && (forall w: nat, id: nat, a: nat ::
            Slot(w, id, a) in taken <==> w < |workers| && id in workers[w].live && a == workers[w].Id2Addr(id))
      && (forall a: nat :: Block(a) in taken <==> a in heap)
      && Nothing !in taken && 0 !in heap
    }

    ghost predicate Valid()
      reads this, conns, conns[..], workers,
            set w | w in workers :: w.m_map, set w | w in workers :: w.bucket_s, set w | w in workers :: w.bucket_used
    {
      Tied() && Listed() && Owned(table, taken)
    }

    /** A connection opened with descriptor 0: no event reaches it and its place is never idle again. */
    predicate Stuck(i: nat)
      reads conns, conns[..]
    {
      i < conns.Length && conns[i] != null && conns[i].client_fd == 0 && conns[i].conn_time != 0
    }

    /** A slot of the client list that a new connection may take. */
    predicate Idle(i: nat)
      requires i < conns.Length
      reads conns, conns[..]
    {
      conns[i] == null || conns[i].conn_time == 0
    }

    /** A connection that events reach: no event is registered for descriptor 0. */
    predicate InUse(i: nat)
      reads conns, conns[..]
    {
      i < conns.Length && conns[i] != null && conns[i].conn_time != 0 && conns[i].client_fd != 0
    }

    /** What the list shows of all places. */
    function Statuses(): (s: seq<Status>)
      reads conns, conns[..]
      ensures |s| == conns.Length
    {
      seq(conns.Length, i requires 0 <= i < conns.Length reads conns, conns[..] =>
        if Idle(i) then Vacant else Busy(conns[i].client_fd))
    }

    /** Nothing but the connection in place i, if any, has changed. */
    twostate predicate OthersSame(i: int)
      reads conns, conns[..]
    {
      (forall j :: 0 <= j < conns.Length && j != i ==>
         conns[j] == old(conns[j]) && (conns[j] != null ==> conns[j].Same()))
      && (0 <= i < conns.Length && old(conns[i]) != null ==> conns[i] == old(conns[i]))
    }

    twostate lemma StatusChanged(i: nat)
      requires i < conns.Length && OthersSame(i)
      ensures Statuses() == old(Statuses())[i := if Idle(i) then Vacant else Busy(conns[i].client_fd)]
    {
      forall j | 0 <= j < conns.Length && j != i ensures Statuses()[j] == old(Statuses()[j]) {
        assert conns[j] == old(conns[j]) && (conns[j] != null ==> conns[j].Same());
      }
    }

    ghost predicate Kept(i: nat)
      requires i < conns.Length && i < |table| && conns[i] != null
      reads this`table, conns, conns[..]
    {
      (conns[i].conn_time == 0 ==> table[i] == NONE)
      && (Stuck(i) ==> table[i].read.Slot? && table[i].write.Slot?)
    }

    /** Between operations: an idle connection holds nothing, and a stuck one has both its slots. */
    ghost predicate Steady()
      reads this`table, conns, conns[..]
    {
      |table| == conns.Length
      && forall i :: 0 <= i < conns.Length && conns[i] != null ==> conns[i].Sane() && Kept(i)
    }

    /** Workers that have handed out nothing, and an empty client list. */
    constructor (ws: seq<GkoAlloc>, connlimit: nat)
      requires |ws| > 0 && connlimit > 0
      requires forall w :: 0 <= w < |ws| ==> ws[w].Valid() && ws[w].live == {}
      requires forall v, w :: 0 <= v < w < |ws| ==> Parts(ws[v]) !! Parts(ws[w])
      ensures Valid() && Steady() && taken == {} && workers == ws && conns.Length == connlimit && fresh(conns)
      ensures g_curr_conn == 0 && forall i :: 0 <= i < connlimit ==> conns[i] == null
    {
      workers := ws;
      conns := new Conn?[connlimit](_ => null);
      g_curr_conn, heap, taken := 0, {}, {};
      table := seq(connlimit, _ => NONE);
    }

    /** `get_block` with `id2addr`. */
    method Get(w: nat) returns (b: Buf)
      requires Tied() && w < |workers|
      modifies this`taken, Parts(workers[w])
      ensures Tied() && (b.arena_id >= 0 <==> b.address != 0)
      ensures b.address == 0 ==> old(workers[w].NoRoom()) && workers[w].NoRoom()
      ensures HeldBy(w, b) !in old(taken)
      ensures taken == if b.address == 0 then old(taken) else old(taken) + {HeldBy(w, b)}
    {
      hide GkoAlloc.Valid, GkoAlloc.Id2Addr, GkoAlloc.NoRoom, GkoAlloc.NextFree;
      var id := workers[w].GetBlock();
      b := Buf(id, workers[w].Id2Addr(id));
      forall v | 0 <= v < |workers| && v != w ensures unchanged(Parts(workers[v])) {
        assert Parts(workers[if v < w then v else w]) !! Parts(workers[if v < w then w else v]);
      }
      taken := if b.address == 0 then taken else taken + {HeldBy(w, b)};
    }

    /** With another slot of the bucket taken, the bucket is not empty. */
    lemma StaysMapped(w: nat, id: nat)
      requires w < |workers|
      requires forall n: nat, a: nat :: Slot(w, n, a) in taken ==> n in workers[w].live
      ensures forall a: nat :: KeepsMemory(Slot(w, id, a), taken) ==>
                BucketOf(id) == 0 || InBucket(workers[w].live, BucketOf(id)) != {}
    {
      forall a: nat | KeepsMemory(Slot(w, id, a), taken) && BucketOf(id) != 0
        ensures InBucket(workers[w].live, BucketOf(id)) != {}
      {
        var y :| y in taken && SameBucket(Slot(w, id, a), y);
        assert y.id in InBucket(workers[w].live, BucketOf(id));
      }
    }

    /** Gives a buffer back to the worker or to the C heap. */
    method Release(w: nat, b: Buf) returns (b': Buf)
      requires Tied() && w < |workers|
      requires b.address != 0 ==> HeldBy(w, b) in taken
      modifies this`taken, this`heap, Parts(workers[w])
      ensures Tied() && b'.address == 0
      ensures taken == old(taken) - {HeldBy(w, b)}
      ensures b'.arena_id >= 0 ==> b.address == 0 && b.arena_id >= 0
      ensures b.address == 0 ==> unchanged(Parts(workers[w]))
      ensures KeepsMemory(HeldBy(w, b), taken) ==> !workers[w].NoRoom()
    {
      b' := b;
      if b.address != 0 {
        taken := taken - {HeldBy(w, b)};
        if b.arena_id >= 0 {
          workers[w].FreeBlock(b.arena_id);
          StaysMapped(w, b.arena_id);
          b' := Buf(INVILID_BLOCK, 0);
        } else {
          heap := heap - {b.address};
          b' := b.(address := 0);
        }
      }
    }

    /** `malloc`: an address not in use, or 0. */
    method Malloc() returns (p: nat)
      requires Tied()
      modifies this`taken, this`heap
      ensures Tied() && Block(p) !in old(taken)
      ensures taken == if p == 0 then old(taken) else old(taken) + {Block(p)}
    {
      p := *;
      if p in heap { p := 0; }
      if p != 0 {
        heap := heap + {p};
        taken := taken + {Block(p)};
      }
    }

    /** `realloc`: the old address, a new one, or 0 with the old buffer kept. */
    method Realloc(q: nat) returns (p: nat)
      requires Tied() && (q != 0 ==> Block(q) in taken)
      modifies this`taken, this`heap
      ensures Tied() && Block(p) !in old(taken) - {Chunk(q)}
      ensures taken == if p == 0 then old(taken) else old(taken) - {Chunk(q)} + {Block(p)}
    {
      var same: bool := *;
      if same { return q; }
      p := Malloc();
      if p != 0 {
        heap := heap - {q};
        taken := taken - {Block(q)};
      }
    }

    /** A larger buffer in place of one in a slot or in the C heap; 0 leaves that one alone. */
    method Larger(w: nat, b: Buf) returns (p: nat)
      requires Tied() && w < |workers| && (b.arena_id >= 0 ==> b.address != 0)
      requires b.address != 0 ==> HeldBy(w, b) in taken
      modifies this`taken, this`heap, Parts(workers[w])
      ensures Tied() && Block(p) !in old(taken) - {HeldBy(w, b)}
      ensures p == 0 ==> taken == old(taken)
      ensures p != 0 ==> taken == old(taken) - {HeldBy(w, b)} + {Block(p)}
    {
      hide Tied;
      if b.arena_id >= 0 {
        p := Malloc();
        if p != 0 {
          var given := Release(w, b);
        }
      } else {
        p := Realloc(b.address);
      }
    }

    // ----- Connection by connection -----

    /** Slot i of the client list is in use as a structure. */
    ghost predicate Has(i: nat)
      reads this, conns, conns[..]
    {
      i < conns.Length && conns[i] != null && conns[i].worker_id < |workers|
    }

    function At(i: nat): Conn
      requires i < conns.Length && conns[i] != null
      reads conns
    {
      conns[i]
    }

    ghost function Worker(i: nat): set<object>
      requires Has(i)
      reads this, conns, conns[..]
    {
      Parts(workers[conns[i].worker_id])
    }

    /** The list stays right when one connection changes and the table records what it then holds. */
    twostate lemma StaysListed(i: nat)
      requires old(Listed()) && i < conns.Length && conns[i] != null && conns[..] == old(conns[..])
      requires forall o: Conn :: old(allocated(o)) && o != conns[i] ==>
                 o.worker_id == old(o.worker_id) && o.read == old(o.read) && o.write == old(o.write)
      requires At(i).worker_id < |workers| && g_curr_conn < conns.Length
      requires table == old(table)[i := At(i).Holdings()]
      ensures Listed()
    {
      forall j | 0 <= j < conns.Length
        ensures table[j] == (if conns[j] == null then NONE else conns[j].Holdings())
        ensures conns[j] != null ==> conns[j].worker_id < |workers|
      {
        assert conns[..][j] == conns[j] && old(conns[..][j] == conns[j]);
      }
      assert forall j :: 0 <= j < conns.Length ==> conns[j] == old(conns[..])[j];
    }

    lemma ListSizes()
      requires Valid()
      ensures |table| == conns.Length && Tied()
      ensures forall i :: 0 <= i < conns.Length && conns[i] == null ==> table[i] == NONE
      ensures forall i :: 0 <= i < conns.Length && conns[i] != null ==> Has(i)
      ensures forall i, j :: 0 <= i < j < conns.Length && conns[i] != null ==> conns[i] != conns[j]
    {
    }

    lemma ListedHere(i: nat)
      requires Valid() && Has(i)
      ensures i < |table| == conns.Length && table[i] == At(i).Holdings() && g_curr_conn < conns.Length
      ensures forall j :: 0 <= j < conns.Length && j != i ==> conns[j] != conns[i]
    {
    }

    method ReleaseRead(i: nat)
      requires Valid() && Has(i)
      modifies this`taken, this`heap, this`table, At(i)`read, Worker(i)
      ensures Valid() && table == With(old(table), Reader(i), Nothing)
      ensures taken == old(taken) - {old(table)[i].read} && conns[i].read.address == 0
      ensures old(table)[i].read == Nothing ==> unchanged(Worker(i))
      ensures KeepsMemory(old(table)[i].read, taken) ==> !workers[At(i).worker_id].NoRoom()
      ensures old(At(i).Sane()) ==> At(i).Sane()
    {
      hide Owned, Tied, Listed;
      ListedHere(i);
      var c := conns[i];
      HeldIsTaken(table, taken, Reader(i));
      Dropped(table, taken, Reader(i));
      c.read := Release(c.worker_id, c.read);
      table := With(table, Reader(i), Nothing);
      StaysListed(i);
    }

    method ReleaseWrite(i: nat)
      requires Valid() && Has(i)
      modifies this`taken, this`heap, this`table, At(i)`write, Worker(i)
      ensures Valid() && table == With(old(table), Writer(i), Nothing)
      ensures taken == old(taken) - {old(table)[i].write} && conns[i].write.address == 0
      ensures old(table)[i].write == Nothing ==> unchanged(Worker(i))
      ensures KeepsMemory(old(table)[i].write, taken) ==> !workers[At(i).worker_id].NoRoom()
    {
      hide Owned, Tied, Listed;
      ListedHere(i);
      var c := conns[i];
      HeldIsTaken(table, taken, Writer(i));
      Dropped(table, taken, Writer(i));
      c.write := Release(c.worker_id, c.write);
      table := With(table, Writer(i), Nothing);
      StaysListed(i);
    }

    method ReleaseBoth(i: nat)
      requires Valid() && Has(i)
      modifies this`taken, this`heap, this`table, At(i)`read, At(i)`write, Worker(i)
      ensures Valid() && table == old(table)[i := NONE]
      ensures taken == old(taken) - {old(table)[i].read} - {old(table)[i].write}
      ensures old(At(i).Sane()) ==> At(i).Sane()
      ensures old(table)[i] == NONE ==> unchanged(Worker(i))
    {
      hide Owned, Tied, Listed;
      ListedHere(i);
      ReleaseRead(i);
      ReleaseWrite(i);
    }

    /** `conn_client_clear` of a connection: it gives back both buffers. */
    method Clear(i: nat)
      requires Valid() && Has(i)
      modifies this`taken, this`heap, this`table, At(i), Worker(i)
      ensures Valid() && At(i).worker_id == old(At(i).worker_id)
      ensures table == old(table)[i := NONE]
      ensures taken == old(taken) - {old(table)[i].read} - {old(table)[i].write}
      ensures At(i).client_fd == 0 && At(i).conn_time == 0 && At(i).Waiting()
      ensures old(At(i).Sane()) ==> At(i).Sane()
      ensures old(table)[i] == NONE ==> unchanged(Worker(i))
    {
      hide Owned, Tied, Listed;
      ReleaseBoth(i);
      label released:
      ListedHere(i);
      var c := conns[i];
      c.client_fd := 0;
      c.ResetCounters();
      c.conn_time := 0;
      StaysListed@released(i);
    }

    /** `conn_client_free`: only a connection with a descriptor gives its buffers back. */
    method Free(i: nat) returns (ret: int)
      requires Valid() && i < conns.Length && (conns[i] != null ==> Has(i))
      modifies this`taken, this`heap, this`table, if conns[i] == null then {} else {conns[i]} + Worker(i)
      ensures Valid()
      ensures ret == -1 <==> conns[i] == null || old(At(i).client_fd) == 0
      ensures ret == -1 ==> table == old(table) && taken == old(taken) && heap == old(heap)
      ensures ret == -1 && conns[i] != null ==> At(i).conn_time == old(At(i).conn_time)
      ensures ret != -1 ==> table == old(table)[i := NONE]
                            && taken == old(taken) - {old(table)[i].read} - {old(table)[i].write}
                            && At(i).client_fd == 0 && At(i).conn_time == 0 && (old(At(i).Sane()) ==> At(i).Sane())
      ensures conns[i] != null ==> At(i).worker_id == old(At(i).worker_id)
    {
      if conns[i] == null || At(i).client_fd == 0 { return -1; }
      Clear(i);
      ret := 0;
    }

    /** The worker had no slot to give, or has none after giving one. */
    twostate predicate NoRoomFor(w: nat)
      requires old(Tied()) && Tied() && w < |workers|
      reads this, workers, set w | w in workers :: w.m_map, set w | w in workers :: w.bucket_s,
            set w | w in workers :: w.bucket_used
    {
      old(workers[w].NoRoom()) || workers[w].NoRoom()
    }

    method GetTwo(w: nat) returns (r: Buf, b: Buf)
      requires Tied() && w < |workers|
      modifies this`taken, Parts(workers[w])
      ensures Tied()
      ensures r.arena_id < 0 || b.arena_id < 0 ==> NoRoomFor(w)
      ensures r.arena_id >= 0 && b.arena_id >= 0 ==>
                r.address != 0 && b.address != 0 && HeldBy(w, r) !in old(taken)
                && HeldBy(w, b) !in old(taken) + {HeldBy(w, r)}
                && taken == old(taken) + {HeldBy(w, r)} + {HeldBy(w, b)}
    {
      hide GkoAlloc.Valid, GkoAlloc.NoRoom;
      r := Get(w);
      b := Get(w);
    }

    method AcquireBoth(i: nat) returns (ok: bool)
      requires Valid() && Has(i) && table[i] == NONE
      modifies this`taken, this`table, At(i)`read, At(i)`write, Worker(i)
      ensures Tied() && (!ok ==> NoRoomFor(old(At(i).worker_id)))
      ensures ok ==> Valid() && At(i).Sane() && table[i].read.Slot? && table[i].write.Slot?
                     && table == old(table)[i := table[i]]
      ensures ok ==> table[i].read !in old(taken) && table[i].write !in old(taken)
                     && taken == old(taken) + {table[i].read} + {table[i].write}
    {
      hide Owned, Tied, Listed, NoRoomFor;
      ListedHere(i);
      var c := conns[i];
      ghost var t, before := table, taken;
      var r, w := GetTwo(c.worker_id);
      if r.arena_id < 0 || w.arena_id < 0 { return false; }
      c.read := r;
      c.write := w;
      BothAcquired(t, before, i, HeldBy(c.worker_id, r), HeldBy(c.worker_id, w));
      table := t[i := c.Holdings()];
      StaysListed(i);
      ok := true;
    }

    /** `conn_buffer_init` for a connection that holds no buffer.  When the worker cannot give two
        slots the program aborts. */
    method BufferInit(i: nat) returns (ok: bool)
      requires Valid() && Has(i) && table[i] == NONE
      modifies this`taken, this`table, At(i), Worker(i)
      ensures At(i).worker_id == old(At(i).worker_id) && At(i).client_fd == old(At(i).client_fd)
      ensures At(i).conn_time == old(At(i).conn_time)
      ensures Tied() && (!ok ==> NoRoomFor(old(At(i).worker_id)))
      ensures ok ==> Valid() && table[i].read.Slot? && table[i].write.Slot? && table == old(table)[i := table[i]]
      ensures ok ==> table[i].read !in old(taken) && table[i].write !in old(taken)
                     && taken == old(taken) + {table[i].read} + {table[i].write}
      ensures ok ==> At(i).Sane() && At(i).Waiting()
    {
      hide Owned, Tied, Listed;
      ok := AcquireBoth(i);
      if !ok { return; }
      label acquired:
      ListedHere(i);
      conns[i].ResetCounters();
      StaysListed@acquired(i);
    }

    /** `malloc` for a buffer in a slot, which is then given back, or `realloc`. */
    method Enlarge(i: nat) returns (ok: bool)
      requires Valid() && Has(i) && At(i).Sane()
      modifies this`taken, this`heap, this`table, At(i)`read, Worker(i)
      ensures Valid() && At(i).Sane()
      ensures ok ==> table[i].read.Block? && table == With(old(table), Reader(i), table[i].read)
      ensures ok ==> taken == old(taken) - {old(table)[i].read} + {table[i].read}
      ensures !ok ==> table == old(table) && taken == old(taken) && At(i).read == old(At(i).read)
    {
      hide Owned, Tied, Listed;
      ListedHere(i);
      var c := conns[i];
      ghost var t, before := table, taken;
      HeldIsTaken(table, taken, Reader(i));
      var buf := Larger(c.worker_id, c.read);
      if buf == 0 {
        StaysListed(i);
        return false;
      }
      Exchanged(t, before, Reader(i), Block(buf));
      c.read := Buf(INVILID_BLOCK, buf);
      table := With(table, Reader(i), Block(buf));
      StaysListed(i);
      ok := true;
    }

    /** The growing step of `aread`: a full buffer moves to the C heap with twice the room. */
    method Grow(i: nat) returns (ok: bool)
      requires Valid() && Has(i) && At(i).Sane()
      modifies this`taken, this`heap, this`table, At(i), Worker(i)
      ensures Valid() && At(i).Sane() && At(i).worker_id == old(At(i).worker_id)
      ensures At(i).client_fd == old(At(i).client_fd) && At(i).conn_time == old(At(i).conn_time)
      ensures ok ==> table[i].read.Block? && table == With(old(table), Reader(i), table[i].read)
      ensures ok ==> taken == old(taken) - {old(table)[i].read} + {table[i].read}
      ensures ok ==> At(i).rbuf_size == 2 * old(At(i).rbuf_size) && At(i).have_read == old(At(i).have_read)
      ensures !ok ==> table == old(table) && taken == old(taken) && At(i).have_read == 0
                      && At(i).rbuf_size == old(At(i).rbuf_size)
    {
      hide Owned, Tied, Listed;
      ok := Enlarge(i);
      label enlarged:
      ListedHere(i);
      if ok {
        conns[i].rbuf_size := 2 * conns[i].rbuf_size;
      } else {
        conns[i].have_read := 0;
      }
      StaysListed@enlarged(i);
    }

    method AcquireRead(i: nat)
      requires Valid() && Has(i) && table[i].read == Nothing
      modifies this`taken, this`table, At(i)`read, Worker(i)
      ensures Valid() && At(i).Sane() && !table[i].read.Block? && table == With(old(table), Reader(i), table[i].read)
      ensures old(taken) <= taken && (table[i].read.Slot? || old(workers[At(i).worker_id].NoRoom()))
    {
      hide Owned, Tied, Listed;
      ListedHere(i);
      var c := conns[i];
      ghost var t, before := table, taken;
      c.read := Get(c.worker_id);
      Gained(t, before, Reader(i), HeldBy(c.worker_id, c.read));
      table := With(table, Reader(i), HeldBy(c.worker_id, c.read));
      StaysListed(i);
    }

    method AcquireWrite(i: nat)
      requires Valid() && Has(i) && table[i].write == Nothing
      modifies this`taken, this`table, At(i)`write, Worker(i)
      ensures Valid() && !table[i].write.Block? && table == With(old(table), Writer(i), table[i].write)
      ensures table[i].write.Slot? || old(workers[At(i).worker_id].NoRoom())
    {
      hide Owned, Tied, Listed;
      ListedHere(i);
      var c := conns[i];
      ghost var t, before := table, taken;
      c.write := Get(c.worker_id);
      Gained(t, before, Writer(i), HeldBy(c.worker_id, c.write));
      table := With(table, Writer(i), HeldBy(c.worker_id, c.write));
      StaysListed(i);
    }

    method ExchangeBoth(i: nat)
      requires Valid() && Has(i)
      modifies this`taken, this`heap, this`table, At(i)`read, At(i)`write, Worker(i)
      ensures Valid() && At(i).Sane() && !table[i].read.Block? && !table[i].write.Block?
                && table == old(table)[i := table[i]]
      ensures KeepsMemory(old(table)[i].read, old(taken)) ==> table[i].read.Slot?
      ensures KeepsMemory(old(table)[i].write, old(taken) - {old(table)[i].read}) ==> table[i].write.Slot?
    {
      hide Owned, Tied, Listed, KeepsMemory, GkoAlloc.NoRoom, GkoAlloc.Valid;
      ListedHere(i);
      ghost var t, before := table, taken;
      ReleaseRead(i);
      StillKeepsMemory(t[i].read, before, taken);
      AcquireRead(i);
      ReleaseWrite(i);
      StillKeepsMemory(t[i].write, before - {t[i].read}, taken);
      AcquireWrite(i);
    }

    /** `conn_renew`: both buffers are exchanged for slots, or for none when the worker gives none. */
    method Renew(i: nat, now: nat)
      requires Valid() && Has(i) && now > 0
      modifies this`taken, this`heap, this`table, At(i), Worker(i)
      ensures Valid() && At(i).worker_id == old(At(i).worker_id)
      ensures At(i).client_fd == old(At(i).client_fd) && At(i).conn_time == now
      ensures !table[i].read.Block? && !table[i].write.Block? && table == old(table)[i := table[i]]
      ensures At(i).Sane() && At(i).Waiting()
      ensures KeepsMemory(old(table)[i].read, old(taken)) ==> table[i].read.Slot?
      ensures KeepsMemory(old(table)[i].write, old(taken) - {old(table)[i].read}) ==> table[i].write.Slot?
    {
      hide Owned, Tied, Listed, KeepsMemory;
      ExchangeBoth(i);
      label exchanged:
      ListedHere(i);
      conns[i].conn_time := now;
      conns[i].ResetCounters();
      StaysListed@exchanged(i);
    }

    // ----- The client list -----

    method EnsureConn(i: nat)
      requires Valid() && i < conns.Length
      modifies conns
      ensures Valid() && Has(i) && (old(conns[i]) == null ==> fresh(conns[i]) && At(i).worker_id == 0)
      ensures forall j :: 0 <= j < conns.Length && (j != i || old(conns[j]) != null) ==> conns[j] == old(conns[j])
    {
      hide Owned, Tied;
      if conns[i] == null { conns[i] := new Conn(); }
    }

    /** Slot i becomes a cleared connection in use. */
    method Occupy(i: nat, now: nat)
      requires Valid() && i < conns.Length && now > 0
      modifies this, conns, if conns[i] == null then {} else {conns[i]},
               if conns[i] != null && Has(i) then Worker(i) else Parts(workers[0])
      ensures Valid() && Has(i) && g_curr_conn == i
      ensures old(conns[i]) == null ==> fresh(conns[i])
      ensures forall j :: 0 <= j < conns.Length && (j != i || old(conns[j]) != null) ==> conns[j] == old(conns[j])
      ensures table == old(table)[i := NONE] && At(i).client_fd == 0 && At(i).conn_time == now
      ensures taken == old(taken) - {old(table)[i].read} - {old(table)[i].write}
      ensures old(table)[i] == NONE ==> forall w :: 0 <= w < |workers| ==> unchanged(Parts(workers[w]))
    {
      hide Owned, Tied, Listed;
      EnsureConn(i);
      Clear(i);
      label cleared:
      ListedHere(i);
      conns[i].conn_time := now;
      g_curr_conn := i;
      StaysListed@cleared(i);
    }

    /** The slot k + 1 places after the one found last, around the circle. */
    function After(k: nat): (j: nat)
      requires conns.Length > 0
      reads this`g_curr_conn
      ensures j < conns.Length
    {
      (g_curr_conn + 1 + k) % conns.Length
    }

    /** The circle passes every slot. */
    lemma Around(j: nat)
      requires j < conns.Length && g_curr_conn < conns.Length
      ensures exists k: nat :: k < conns.Length && After(k) == j
    {
      if j > g_curr_conn {
        DivModUnique(j, conns.Length, 0, j);
        assert After(j - g_curr_conn - 1) == j;
      } else {
        DivModUnique(conns.Length + j, conns.Length, 1, j);
        assert After(j + conns.Length - g_curr_conn - 1) == j;
      }
    }

    /** `conn_client_list_find_free`: the first idle slot after the one found last, around the circle. */
    method FindFree(now: nat) returns (id: int)
      requires Valid() && now > 0
      modifies this, conns, conns[..],
               workers, set w | w in workers :: w.m_map, set w | w in workers :: w.bucket_s,
               set w | w in workers :: w.bucket_used
      ensures Valid()
      ensures id == -1 ==> (forall j :: 0 <= j < conns.Length ==> !old(Idle(j))) && table == old(table)
                           && taken == old(taken)
      ensures id == -1 ==> (old(Steady()) ==> Steady()) && forall j: nat :: Stuck(j) == old(Stuck(j))
      ensures id == -1 || 0 <= id < conns.Length
      ensures id != -1 ==> conns[id] == old(conns[id]) || (fresh(conns[id]) && old(conns[id]) == null)
      ensures id != -1 ==> Has(id) && g_curr_conn == id && At(id).client_fd == 0 && At(id).conn_time == now
      ensures id != -1 ==> exists k: nat :: id == old(After(k)) && old(Idle(After(k)))
                                            && forall j: nat :: j < k ==> !old(Idle(After(j)))
      ensures id != -1 ==> table == old(table)[id := NONE]
                           && taken == old(taken) - {old(table)[id].read} - {old(table)[id].write}
      ensures forall j :: 0 <= j < conns.Length && j != id ==> conns[j] == old(conns[j])
      ensures forall o: Conn :: old(allocated(o)) && (id == -1 || o != conns[id]) ==> o.Same()
      ensures id == FirstFree(old(Statuses()), old(g_curr_conn), 0)
      ensures id == -1 ==> g_curr_conn == old(g_curr_conn) && heap == old(heap)
      ensures id == -1 || old(table)[id] == NONE ==> forall w :: 0 <= w < |workers| ==> unchanged(Parts(workers[w]))
    {
      hide Owned, Tied;
      var i := 0;
      while i < conns.Length
        invariant i <= conns.Length
        invariant forall j: nat :: j < i ==> !Idle(After(j))
        invariant FirstFree(Statuses(), g_curr_conn, 0) == FirstFree(Statuses(), g_curr_conn, i)
      {
        var tmp := After(i);
        if Idle(tmp) {
          Occupy(tmp, now);
          return tmp;
        }
        i := i + 1;
      }
      forall j | 0 <= j < conns.Length ensures !Idle(j) {
        Around(j);
      }
      id := -1;
    }

    // ----- Whole runs -----

    lemma IdleHoldsNothing()
      requires Valid() && Steady()
      ensures |table| == conns.Length && forall i :: 0 <= i < conns.Length && Idle(i) ==> table[i] == NONE
      ensures taken - {Nothing} - {Nothing} == taken
    {
    }

    twostate lemma OthersKept(i: nat)
      requires i < conns.Length && conns[i] != null
      requires forall j :: 0 <= j < conns.Length && j != i ==> conns[j] == old(conns[j])
      requires forall j :: 0 <= j < conns.Length && j != i ==> conns[j] != conns[i]
      requires old(conns[i]) != null ==> conns[i] == old(conns[i])
      requires forall o: Conn :: old(allocated(o)) && o != conns[i] ==> o.Same()
      ensures OthersSame(i)
    {
      forall j | 0 <= j < conns.Length && j != i && conns[j] != null ensures conns[j].Same() {
        assert conns[j] == old(conns[j]);
      }
    }

    twostate lemma StaysSteady(i: nat)
      requires old(Steady()) && old(Valid()) && i < conns.Length && (conns[i] == old(conns[i]) || fresh(conns[i]))
                 && conns[i] != null
      requires forall j :: 0 <= j < conns.Length && j != i ==> conns[j] == old(conns[j])
      requires forall o: Conn :: old(allocated(o)) && o != conns[i] ==> o.Same()
      requires |table| == conns.Length && table == old(table)[i := table[i]]
      requires At(i).Sane() && Kept(i)
      ensures Steady() && forall j: nat :: j != i ==> Stuck(j) == old(Stuck(j))
    {
      forall j | 0 <= j < conns.Length && conns[j] != null && j != i
        ensures conns[j].Sane() && Kept(j) && Stuck(j) == old(Stuck(j)) {
        assert conns[j].Same();
        assert old(conns[j] != null && conns[j].Sane());
      }
    }

    /** A connection without buffers gets its descriptor and its worker. */
    method Assign(i: nat, fd: int, worker: nat)
      requires Valid() && Has(i) && table[i] == NONE && worker < |workers|
      modifies At(i)`client_fd, At(i)`worker_id
      ensures Valid() && At(i).client_fd == fd && At(i).worker_id == worker
    {
      hide Owned, Tied, Listed;
      ListedHere(i);
      conns[i].client_fd := fd;
      conns[i].worker_id := worker;
      StaysListed(i);
    }

    /** The descriptor, the worker and the buffers of a connection found free. */
    method Begin(i: nat, fd: int, worker: nat) returns (ok: bool)
      requires Valid() && Has(i) && i < |table| && table[i] == NONE && worker < |workers|
      modifies this`taken, this`table, At(i), Parts(workers[worker])
      ensures At(i).client_fd == fd && At(i).conn_time == old(At(i).conn_time) && At(i).worker_id == worker
      ensures Tied() && (!ok ==> NoRoomFor(worker))
      ensures ok ==> Valid() && Has(i) && At(i).Sane() && |table| == |old(table)| && table == old(table)[i := table[i]]
      ensures ok ==> table[i].read.Slot? && table[i].read.worker == worker && table[i].write.Slot?
                     && table[i].write.worker == worker && At(i).Waiting()
                     && taken == old(taken) + {table[i].read} + {table[i].write}
                     && table[i].read !in old(taken) && table[i].write !in old(taken)
    {
      hide Owned, Tied, Listed;
      Assign(i, fd, worker);
      ok := BufferInit(i);
      if ok { ListedHere(i); }
    }

    /** A connection has been opened in place i: it waits for a head, with two slots nobody held before. */
    twostate predicate Opened(i: nat, fd: int, worker: nat, now: nat)
      reads this, conns, conns[..]
    {
      i < conns.Length && conns[i] != null && i < |table| && |old(table)| == |table| && OthersSame(i)
      && conns[i].client_fd == fd && conns[i].worker_id == worker && conns[i].conn_time == now && conns[i].Waiting()
      && table == old(table)[i := table[i]] && taken == old(taken) + {table[i].read} + {table[i].write}
      && table[i].read.Slot? && table[i].read.worker == worker && table[i].read !in old(taken)
      && table[i].write.Slot? && table[i].write.worker == worker && table[i].write !in old(taken)
    }

    twostate lemma NothingChanged()
      requires forall j :: 0 <= j < conns.Length ==> conns[j] == old(conns[j])
      requires forall o: Conn :: old(allocated(o)) ==> o.Same()
      ensures OthersSame(-1)
    {
    }

    /** Nothing in the pool has changed. */
    twostate predicate Untouched()
      reads this, conns, conns[..]
    {
      table == old(table) && taken == old(taken) && heap == old(heap) && g_curr_conn == old(g_curr_conn)
      && OthersSame(-1)
    }

    /** `add_new_conn_client` and the worker's `conn_buffer_init`.  `ok` is false when the worker has no room. */
    method Open(fd: int, worker: nat, now: nat) returns (id: int, ok: bool)
      requires Valid() && Steady() && now > 0 && worker < |workers|
      modifies this, conns, conns[..],
               workers, set w | w in workers :: w.m_map, set w | w in workers :: w.bucket_s,
               set w | w in workers :: w.bucket_used
      ensures Tied() && (!ok ==> id != -1 && NoRoomFor(worker))
      ensures ok ==> Valid() && Steady()
      ensures forall j :: 0 <= j < conns.Length ==> conns[j] == old(conns[j]) || fresh(conns[j])
      ensures id == FirstFree(old(Statuses()), old(g_curr_conn), 0)
      ensures id == -1 ==> Untouched() && forall j :: 0 <= j < conns.Length ==> !old(Idle(j))
      ensures id != -1 && ok ==> Opened(id, fd, worker, now) && g_curr_conn == id
      ensures ok ==> forall j: nat :: Stuck(j) <==> old(Stuck(j)) || (j == id && fd == 0)
    {
      hide Owned, Tied, Listed, Steady, Valid, FirstFree, Statuses, OthersSame;
      ListSizes();
      IdleHoldsNothing();
      id := FindFree(now);
      if id == -1 {
        ListSizes();
        NothingChanged();
        return id, true;
      }
      ok := Begin(id, fd, worker);
      if ok {
        StaysSteady(id);
        ListedHere(id);
        OthersKept(id);
      }
    }

    /** A connection that `conn_client_free` refuses to close. */
    ghost predicate Keeps(i: nat)
      requires i < conns.Length
      reads conns, conns[..]
    {
      conns[i] != null && conns[i].client_fd == 0
    }

    /** Closes every connection of the list. */
    method CloseAll()
      requires Valid()
      modifies this, conns[..],
               workers, set w | w in workers :: w.m_map, set w | w in workers :: w.bucket_s,
               set w | w in workers :: w.bucket_used
      ensures Valid()
      ensures forall j :: 0 <= j < conns.Length ==> table[j] == if old(Keeps(j)) then old(table[j]) else NONE
      ensures taken == {} <==> forall j :: 0 <= j < conns.Length && old(Keeps(j)) ==> old(table[j]) == NONE
    {
      hide Owned, Tied, Listed;
      ListSizes();
      var i := 0;
      while i < conns.Length
        invariant i <= conns.Length && Valid() && |table| == conns.Length
        invariant forall j :: i <= j < conns.Length ==> Keeps(j) == old(Keeps(j)) && table[j] == old(table)[j]
        invariant forall j :: 0 <= j < i ==> table[j] == if old(Keeps(j)) then old(table)[j] else NONE
      {
        ListSizes();
        var ret := Free(i);
        i := i + 1;
      }
      ListSizes();
      NobodyHolds(table, taken);
    }

    /** The event loop may perform the operation. */
    predicate Allowed(op: Op) {
      match op
      case Opening(fd, worker, now) => worker < |workers| && now > 0
      case Renewing(_, now) => now > 0
      case _ => true
    }

    lemma KeptHere(i: nat)
      requires i < conns.Length && i < |table| && conns[i] != null && (InUse(i) || table[i] == NONE) && !Stuck(i)
      ensures Kept(i)
    {
    }

    lemma SteadyAt()
      requires Steady()
      ensures forall i: nat :: InUse(i) ==> At(i).Sane()
      ensures forall i :: 0 <= i < conns.Length && Keeps(i)
                ==> if Stuck(i) then table[i].read.Slot? && table[i].write.Slot? else table[i] == NONE
      ensures forall i :: 0 <= i < conns.Length && conns[i] != null && !Keeps(i) ==> !Stuck(i)
    {
    }

    /** What an event does to the connection in place i. */
    twostate predicate Effect(op: Op)
      requires !op.Opening? && old(InUse(op.i))
      reads this, conns, conns[..]
    {
      var i := op.i;
      i < conns.Length && conns[i] != null && conns[i] == old(conns[i]) && i < |table| && |old(table)| == |table|
      && OthersSame(i) && g_curr_conn == old(g_curr_conn) && table == old(table)[i := table[i]]
      && match op
         case Closing(_) =>
           table[i] == NONE && Idle(i) && conns[i].client_fd == 0
           && taken == old(taken) - {old(table)[i].read} - {old(table)[i].write}
         case Renewing(_, now) =>
           !table[i].read.Block? && !table[i].write.Block? && conns[i].Waiting()
           && conns[i].client_fd == old(conns[i].client_fd) && conns[i].conn_time == now
           && (KeepsMemory(old(table)[i].read, old(taken)) ==> table[i].read.Slot?)
           && (KeepsMemory(old(table)[i].write, old(taken) - {old(table)[i].read}) ==> table[i].write.Slot?)
         case Growing(_) =>
           conns[i].client_fd == old(conns[i].client_fd) && conns[i].conn_time == old(conns[i].conn_time)
           && ((table[i] == old(table)[i] && taken == old(taken) && conns[i].have_read == 0
                && conns[i].rbuf_size == old(conns[i].rbuf_size))
               || (table[i].read.Block? && table[i].write == old(table)[i].write
                   && taken == old(taken) - {old(table)[i].read} + {table[i].read}
                   && conns[i].rbuf_size == 2 * old(conns[i].rbuf_size)
                   && conns[i].have_read == old(conns[i].have_read)))
    }

    /** An event of a connection in use. */
    method PerformOn(op: Op)
      requires Valid() && Steady() && Allowed(op) && !op.Opening? && InUse(op.i) && Has(op.i)
      modifies this`taken, this`heap, this`table, At(op.i), Worker(op.i)
      ensures Valid() && Steady() && (forall j: nat :: Stuck(j) == old(Stuck(j))) && Effect(op)
    {
      hide Owned, Tied, Listed, Steady, Valid, Kept;
      SteadyAt();
      ListedHere(op.i);
      match op
      case Growing(i) =>
        var grown := Grow(i);
        KeptHere(i);
        StaysSteady(i);
      case Renewing(i, now) =>
        Renew(i, now);
        KeptHere(i);
        StaysSteady(i);
      case Closing(i) =>
        var ret := Free(i);
        KeptHere(i);
        StaysSteady(i);
    }

    twostate lemma EffectOnStatuses(op: Op)
      requires !op.Opening? && old(InUse(op.i)) && Effect(op) && Allowed(op)
      ensures Statuses() == AfterOp(op, -1, old(Statuses()))
    {
      StatusChanged(op.i);
    }

    twostate lemma NoEffectOnStatuses(op: Op)
      requires OthersSame(-1) && (op.Opening? || !old(InUse(op.i)))
      ensures Statuses() == AfterOp(op, -1, old(Statuses()))
    {
      forall j | 0 <= j < conns.Length ensures Statuses()[j] == old(Statuses()[j]) {
        assert conns[j] == old(conns[j]) && (conns[j] != null ==> conns[j].Same());
      }
    }

    /** One operation; events reach only connections in use.  `place` is the one a new connection gets,
        or -1; `ok` is false when the program aborts, because the worker has no room. */
    method Perform(op: Op) returns (place: int, ok: bool)
      requires Valid() && Steady() && Allowed(op)
      modifies this, conns, conns[..],
               workers, set w | w in workers :: w.m_map, set w | w in workers :: w.bucket_s,
               set w | w in workers :: w.bucket_used
      ensures ok ==> Valid() && Steady()
      ensures Tied() && (!ok ==> op.Opening? && place != -1 && NoRoomFor(op.worker))
      ensures place == if op.Opening? then FirstFree(old(Statuses()), old(g_curr_conn), 0) else -1
      ensures ok ==> Statuses() == AfterOp(op, place, old(Statuses()))
      ensures ok ==> g_curr_conn == if place >= 0 then place else old(g_curr_conn)
      ensures op.Opening? && place != -1 && ok ==> Opened(place, op.fd, op.worker, op.now)
      ensures if op.Opening? then place == -1 ==> Untouched() else if old(InUse(op.i)) then Effect(op) else Untouched()
      ensures ok ==> forall j: nat :: Stuck(j) <==> old(Stuck(j)) || (j == place && op.Opening? && op.fd == 0)
      ensures forall j :: 0 <= j < conns.Length ==> conns[j] == old(conns[j]) || fresh(conns[j])
    {
      hide Owned, Tied, Listed, Steady, Valid, FirstFree, OthersSame;
      ListSizes();
      place, ok := -1, true;
      if op.Opening? {
        place, ok := Open(op.fd, op.worker, op.now);
        if place == -1 {
          NoEffectOnStatuses(op);
        } else if ok {
          StatusChanged(place);
        }
      } else if InUse(op.i) {
        PerformOn(op);
        ListSizes();
        EffectOnStatuses(op);
      } else {
        NothingChanged();
        NoEffectOnStatuses(op);
      }
    }

    /** One of the operations opened a connection with descriptor 0 in place i. */
    predicate OpenedWithZero(ops: seq<Op>, places: seq<int>, i: nat)
      requires |places| == |ops|
    {
      exists k :: 0 <= k < |ops| && ops[k].Opening? && ops[k].fd == 0 && places[k] == i
    }

    lemma OneMoreOpened(ops: seq<Op>, places: seq<int>, op: Op, place: int, i: nat)
      requires |places| == |ops|
      ensures OpenedWithZero(ops + [op], places + [place], i)
              <==> OpenedWithZero(ops, places, i) || (i == place && op.Opening? && op.fd == 0)
    {
      var all, at := ops + [op], places + [place];
      if OpenedWithZero(ops, places, i) {
        var k :| 0 <= k < |ops| && ops[k].Opening? && ops[k].fd == 0 && places[k] == i;
        assert all[k].Opening? && all[k].fd == 0 && at[k] == i;
      } else if i == place && op.Opening? && op.fd == 0 {
        assert all[|ops|].Opening? && all[|ops|].fd == 0 && at[|ops|] == i;
      }
    }

    lemma NoZeroOpened(ops: seq<Op>, places: seq<int>, i: nat)
      requires |places| == |ops| && forall op :: op in ops && op.Opening? ==> op.fd != 0
      ensures !OpenedWithZero(ops, places, i)
    {
    }

    lemma NothingOpened(i: nat)
      ensures !OpenedWithZero([], [], i)
    {
    }

    /** A run of operations.  Which places are given and which are in use afterwards is what `PerformedAll`
        says of the operations.  When it breaks off, an opening has found its worker without room. */
    method RunAll(ops: seq<Op>) returns (places: seq<int>, ok: bool)
      requires Valid() && Steady() && forall op :: op in ops ==> Allowed(op)
      modifies this, conns, conns[..],
               workers, set w | w in workers :: w.m_map, set w | w in workers :: w.bucket_s,
               set w | w in workers :: w.bucket_used
      ensures ok ==> Valid() && Steady() && |places| == |ops|
      ensures !ok ==> |places| < |ops| && ops[|places|].Opening?
                      && Place(ops[|places|], PerformedAll(ops[..|places|], old(Statuses()), old(g_curr_conn))) != -1
      ensures ok ==> var c := PerformedAll(ops, old(Statuses()), old(g_curr_conn));
                     places == c.given && Statuses() == c.places && g_curr_conn == c.last
      ensures ok ==> forall j: nat :: Stuck(j) <==> old(Stuck(j)) || OpenedWithZero(ops, places, j)
      ensures forall j :: 0 <= j < conns.Length ==> conns[j] == old(conns[j]) || fresh(conns[j])
    {
      hide Owned, Tied, Listed, Steady, Valid, OpenedWithZero, Statuses, AfterOp, FirstFree, PerformedAll;
      hide Effect, Opened;
      places, ok := [], true;
      assert ops[..0] == [];
      ghost var s, last := Statuses(), g_curr_conn;
      forall j: nat ensures !OpenedWithZero(ops[..0], places, j) { NothingOpened(j); }
      NothingPerformed(s, last);
      for i := 0 to |ops|
        invariant Valid() && Steady() && |places| == i && ok
        invariant PerformedAll(ops[..i], s, last) == Course(places, Statuses(), g_curr_conn)
        invariant forall j: nat :: Stuck(j) <==> old(Stuck(j)) || OpenedWithZero(ops[..i], places, j)
        invariant forall j :: 0 <= j < conns.Length ==> conns[j] == old(conns[j]) || fresh(conns[j])
      {
        var place;
        OnePerformedMore(ops, i, s, last);
        place, ok := Perform(ops[i]);
        if !ok { return; }
        assert ops[..i + 1] == ops[..i] + [ops[i]];
        forall j: nat { OneMoreOpened(ops[..i], places, ops[i], place, j); }
        places := places + [place];
      }
      assert ops[..|ops|] == ops;
    }

    lemma SlotTaken(w: nat, id: nat)
      requires Tied() && w < |workers| && id in workers[w].live
      ensures taken != {}
    {
      assert Slot(w, id, workers[w].Id2Addr(id)) in taken;
    }

    lemma NothingTaken()
      requires Tied() && taken == {}
      ensures heap == {} && forall w :: 0 <= w < |workers| ==> workers[w].live == {}
    {
      forall w | 0 <= w < |workers| ensures workers[w].live == {} {
        if workers[w].live != {} {
          var id :| id in workers[w].live;
          SlotTaken(w, id);
        }
      }
      assert forall a :: a in heap ==> Block(a) in taken;
    }

    /** A run gives and uses the places that `PerformedAll` says.  Closing every connection then leaves exactly
        the buffers of the connections opened with descriptor 0; when there is none, no buffer is taken from
        any worker or from the C heap. */
    method RunAndClose(ops: seq<Op>) returns (places: seq<int>, used: seq<Status>, ok: bool)
      requires Valid() && Steady() && (forall op :: op in ops ==> Allowed(op)) && forall i: nat :: !Stuck(i)
      modifies this, conns, conns[..],
               workers, set w | w in workers :: w.m_map, set w | w in workers :: w.bucket_s,
               set w | w in workers :: w.bucket_used
      ensures ok ==> Valid() && |places| == |ops| && |table| == conns.Length
      ensures !ok ==> |places| < |ops| && ops[|places|].Opening?
      ensures ok ==> var c := PerformedAll(ops, old(Statuses()), old(g_curr_conn));
                     places == c.given && used == c.places
      ensures ok ==> forall i :: 0 <= i < conns.Length ==>
                       if OpenedWithZero(ops, places, i) then table[i].read.Slot? && table[i].write.Slot?
                       else table[i] == NONE
      ensures ok ==> (taken == {} <==> forall i :: 0 <= i < conns.Length ==> !OpenedWithZero(ops, places, i))
      ensures ok && taken == {} ==> heap == {} && forall w :: 0 <= w < |workers| ==> workers[w].live == {}
    {
      hide Owned, Tied, Listed, Steady, OpenedWithZero, PerformedAll, Statuses;
      places, ok := RunAll(ops);
      used := Statuses();
      if !ok { return; }
      SteadyAt();
      ListSizes();
      CloseAll();
      ListSizes();
      NobodyHolds(table, taken);
      if taken == {} { NothingTaken(); }
    }

    /** One connection with descriptor 0 is enough: its two slots stay taken when all is closed. */
    method ZeroIsNeverClosed(worker: nat, now: nat) returns (place: int, ok: bool)
      requires Valid() && Steady() && taken == {} && worker < |workers| && now > 0
      requires (exists j :: 0 <= j < conns.Length && Idle(j)) && forall i: nat :: !Stuck(i)
      modifies this, conns, conns[..],
               workers, set w | w in workers :: w.m_map, set w | w in workers :: w.bucket_s,
               set w | w in workers :: w.bucket_used
      ensures ok ==> Valid() && 0 <= place < |table| && table[place].read.Slot? && table[place].write.Slot?
      ensures ok ==> taken == {table[place].read, table[place].write}
    {
      hide Owned, Tied, Listed, Steady;
      place, ok := Open(0, worker, now);
      if !ok { return; }
      SteadyAt();
      ListSizes();
      CloseAll();
      ListSizes();
      OnlyOneHolds(table, taken, place);
    }

    /** Buffers of different owners in the slots of one worker never overlap. */
    lemma BuffersDisjoint(o: Owner, p: Owner)
      requires Valid() && o != p && Holds(table, o).Slot? && Holds(table, p).Slot?
      requires Holds(table, o).worker == Holds(table, p).worker
      ensures Holds(table, o).at + SLOT_SIZE <= Holds(table, p).at
                || Holds(table, p).at + SLOT_SIZE <= Holds(table, o).at
    {
      var h, g := Holds(table, o), Holds(table, p);
      assert h in taken && g in taken && h != g;
      workers[h.worker].SlotsDisjoint(h.id, g.id);
    }

    /** The slot that a connection holds lies in the memory of a bucket of its worker. */
    lemma HeldInside(o: Owner)
      requires Valid() && Holds(table, o).Slot?
      ensures var h := Holds(table, o);
              h.worker < |workers| && h.id in workers[h.worker].live && h.id < SLOT_COUNT
              && var p := workers[h.worker].bucket_s[BucketOf(h.id)];
                 p != 0 && p <= h.at && h.at + SLOT_SIZE <= p + BUCKET_SIZE
    {
      var h := Holds(table, o);
      assert h in taken;
      workers[h.worker].SlotInBucket(h.id);
    }
  }

  // ----- A run -----

  /** A place that is closed is used again, and one that is open is not: three openings and a closing on a
      list of one place. */
  lemma PlaceIsUsedAgain(worker: nat)
    ensures PerformedAll([Opening(5, worker, 1), Opening(7, worker, 1), Closing(0), Opening(6, worker, 1)], [Vacant], 0)
         == Course([0, -1, -1, 0], [Busy(6)], 0)
  {
    var ops := [Opening(5, worker, 1), Opening(7, worker, 1), Closing(0), Opening(6, worker, 1)];
    hide PerformedAll;
    assert ops[..0] == [] && ops[..4] == ops;
    NothingPerformed([Vacant], 0);
    OnePerformedMore(ops, 0, [Vacant], 0);
    OnePerformedMore(ops, 1, [Vacant], 0);
    OnePerformedMore(ops, 2, [Vacant], 0);
    OnePerformedMore(ops, 3, [Vacant], 0);
    assert PerformedAll(ops[..1], [Vacant], 0) == Course([0], [Busy(5)], 0);
    assert PerformedAll(ops[..2], [Vacant], 0) == Course([0, -1], [Busy(5)], 0);
    assert PerformedAll(ops[..3], [Vacant], 0) == Course([0, -1, -1], [Vacant], 0);
  }

  /** The same with connections and memory: the last opening gets the place that the first one had. */
  method RunOnOnePlace(alloc: GkoAlloc) returns (places: seq<int>, used: seq<Status>, ok: bool)
    requires alloc.Valid() && alloc.live == {}
    modifies alloc, alloc.m_map, alloc.bucket_s, alloc.bucket_used
    ensures ok ==> places == [0, -1, -1, 0] && used == [Busy(6)] && alloc.live == {}
  {
    hide Owned, Pool.Tied, Pool.Listed, Pool.Steady, Pool.Valid, PerformedAll, GkoAlloc.Valid, Pool.OpenedWithZero;
    var pool := new Pool([alloc], 1);
    assert pool.Statuses() == [Vacant];
    PlaceIsUsedAgain(0);
    var ops := [Opening(5, 0, 1), Opening(7, 0, 1), Closing(0), Opening(6, 0, 1)];
    places, used, ok := pool.RunAndClose(ops);
    if ok { pool.NoZeroOpened(ops, places, 0); }
  }
}
