/** Writing blocks back to the files they come from, also when the system writes less than it is asked. */
module BlockWriting {
  import opened Bits
  import opened Blocks

  // ----- The files on disk -----

  function Zeros(n: nat): (z: seq<Byte>)
    ensures |z| == n
  {
    seq(n, _ => 0)
  }

  /** `pwrite`: a gap before the bytes written reads as zeros; writing nothing changes nothing. */
  function Overwrite(content: seq<Byte>, offset: nat, data: seq<Byte>): (c: seq<Byte>)
    ensures |c| == if data != [] && offset + |data| > |content| then offset + |data| else |content|
    ensures forall i :: 0 <= i < |c| ==>
              c[i] == if offset <= i < offset + |data| then data[i - offset]
                      else if i < |content| then content[i] else 0
  {
    if data == [] then content else
    var padded := if |content| < offset then content + Zeros(offset - |content|) else content;
    padded[..offset] + data + if offset + |data| < |padded| then padded[offset + |data|..] else []
  }

  ghost predicate ByteWritten(files: seq<File>, f: nat, off: nat, before: seq<Byte>, after: seq<Byte>, from: nat,
                              data: seq<Byte>)
    requires f < |files|
  {
    var p := FileStart(files, f) + off;
    if off < Bytes(files[f]) && from <= p < from + |data| then off < |after| && after[off] == data[p - from]
    else off < |after| && (off < |before| ==> after[off] == before[off])
  }

  ghost predicate WrittenTo(files: seq<File>, f: nat, before: seq<Byte>, after: seq<Byte>, from: nat, data: seq<Byte>)
    requires f < |files|
  {
    |before| <= |after| && (|after| <= |before| || |after| <= Bytes(files[f]))
    && forall off :: 0 <= off < |after|
                     || (0 <= off < Bytes(files[f]) && from <= FileStart(files, f) + off < from + |data|) ==>
         ByteWritten(files, f, off, before, after, from, data)
  }

  /** The bytes from position `from` on are `data`, and all others are as they were. */
  ghost predicate Written(files: seq<File>, before: seq<seq<Byte>>, after: seq<seq<Byte>>, from: nat, data: seq<Byte>) {
    |before| == |files| == |after|
    && forall f :: 0 <= f < |files| ==> WrittenTo(files, f, before[f], after[f], from, data)
  }

  lemma NothingWritten(files: seq<File>, disk: seq<seq<Byte>>, from: nat)
    requires |disk| == |files|
    ensures Written(files, disk, disk, from, [])
  {
  }

  /** One more piece, within file g. */
  lemma WritesMore(files: seq<File>, before: seq<seq<Byte>>, after: seq<seq<Byte>>, from: nat, data: seq<Byte>, g: nat,
                   offset: nat, piece: seq<Byte>)
    requires Written(files, before, after, from, data) && g < |files| && offset + |piece| <= Bytes(files[g])
    requires FileStart(files, g) + offset == from + |data| && |piece| > 0
    ensures Written(files, before, after[g := Overwrite(after[g], offset, piece)], from, data + piece)
  {
    var now := after[g := Overwrite(after[g], offset, piece)];
    forall f | 0 <= f < |files| ensures WrittenTo(files, f, before[f], now[f], from, data + piece) {
      assert WrittenTo(files, f, before[f], after[f], from, data);
      if f < g { FilesInOrder(files, f, g); } else if f > g { FilesInOrder(files, g, f); }
      hide FileStart, Overwrite;
      forall off | 0 <= off < |now[f]|
                   || (0 <= off < Bytes(files[f]) && from <= FileStart(files, f) + off < from + |data + piece|)
        ensures ByteWritten(files, f, off, before[f], now[f], from, data + piece) {
        if off < |after[f]| || (off < Bytes(files[f]) && from <= FileStart(files, f) + off < from + |data|) {
          assert ByteWritten(files, f, off, before[f], after[f], from, data);
        }
      }
    }
  }

  // ----- The turns of one call -----

  /** What `open` and `pwrite` do in one turn; `pwrite` never writes more than it is asked. */
  datatype Turn = NotOpened | Refused | Writes(most: nat)

  /** The bytes `from` to `from + count` of the block, written to a file at an offset. */
  datatype Piece = Piece(file: nat, offset: nat, from: nat, count: nat)

  function Min(a: int, b: int): int { if a < b then a else b }

  /** How much a turn asks `pwrite` to write. */
  function Asked(j: Job, b: nat, file: nat, offset: nat, from: nat): int
    requires b < |j.blocks| && file < |j.files|
  {
    Min(j.files[file].size - offset, j.blocks[b].size - from)
  }

  function AskedOf(j: Job, b: nat, p: Piece): int
    requires b < |j.blocks|
  {
    if p.file < |j.files| then Asked(j, b, p.file, p.offset, p.from) else 0
  }

  /** Where the i-th turn starts; it writes no more than it asks for. */
  ghost predicate Starts(j: Job, b: nat, pieces: seq<Piece>, i: nat)
    requires b < |j.blocks| && i < |pieces|
  {
    var p := pieces[i];
    p.file < |j.files| && p.offset < Bytes(j.files[p.file]) && p.from < j.blocks[b].size && p.count <= AskedOf(j, b, p)
    && if i == 0 then p.file == j.blocks[b].start_f && p.offset == j.blocks[b].start_off && p.from == 0
       else p.from == pieces[i - 1].from + pieces[i - 1].count && p.offset == 0
            && pieces[i - 1].file < |j.files| && Follows(j.files, pieces[i - 1].file, p.file)
  }

  /** The turns of a call, each in the next file that has contents. */
  ghost predicate Session(j: Job, b: nat, pieces: seq<Piece>)
    requires b < |j.blocks|
  {
    forall i :: 0 <= i < |pieces| ==> Starts(j, b, pieces, i)
  }

  /** How many bytes of the block have been written. */
  function Done(pieces: seq<Piece>): nat {
    if pieces == [] then 0 else pieces[|pieces| - 1].from + pieces[|pieces| - 1].count
  }

  predicate Short(j: Job, b: nat, p: Piece)
    requires b < |j.blocks|
  {
    p.count < AskedOf(j, b, p)
  }

  /** The piece goes where its bytes belong. */
  ghost predicate InPlace(j: Job, b: nat, p: Piece) {
    p.count > 0 ==> p.file < |j.files| && FileStart(j.files, p.file) + p.offset == BLOCK_SIZE * b + p.from
  }

  ghost predicate AllInPlace(j: Job, b: nat, pieces: seq<Piece>) {
    forall i :: 0 <= i < |pieces| ==> InPlace(j, b, pieces[i])
  }

  /** The files after the pieces have been written one after the other. */
  function Apply(disk: seq<seq<Byte>>, buf: seq<Byte>, pieces: seq<Piece>): (after: seq<seq<Byte>>)
    ensures |after| == |disk|
  {
    if pieces == [] then disk
    else
      var p, d := pieces[|pieces| - 1], Apply(disk, buf, pieces[..|pieces| - 1]);
      if p.file < |d| && p.from + p.count <= |buf| then
        d[p.file := Overwrite(d[p.file], p.offset, buf[p.from..p.from + p.count])]
      else d
  }

  lemma SessionPrefix(j: Job, b: nat, pieces: seq<Piece>, k: nat)
    requires b < |j.blocks| && Session(j, b, pieces) && k <= |pieces|
    ensures Session(j, b, pieces[..k])
    ensures Done(pieces[..k]) <= j.blocks[b].size
    ensures k > 0 ==> var p := pieces[k - 1];
                      p.file < |j.files| && p.offset + p.count <= Bytes(j.files[p.file])
                      && p.from == Done(pieces[..k - 1])
  {
    hide Follows;
    if k > 0 { assert Starts(j, b, pieces, k - 1); }
    forall i | 0 <= i < k ensures Starts(j, b, pieces[..k], i) {
      assert Starts(j, b, pieces, i);
    }
  }

  lemma WritesNothing(content: seq<Byte>, offset: nat)
    ensures Overwrite(content, offset, []) == content
  {
  }

  /** Pieces that go where they belong put the block where it belongs. */
  lemma {:induction false} InPlaceIsWritten(j: Job, b: nat, pieces: seq<Piece>, disk: seq<seq<Byte>>, buf: seq<Byte>)
    requires Tiled(j) && b < |j.blocks| && |disk| == |j.files| && |buf| >= j.blocks[b].size
    requires Session(j, b, pieces) && AllInPlace(j, b, pieces)
    ensures Done(pieces) <= j.blocks[b].size
    ensures Written(j.files, disk, Apply(disk, buf, pieces), BLOCK_SIZE * b, buf[..Done(pieces)])
  {
    hide Written, FileStart, Tiled, Follows, Session, Overwrite, Bytes;
    if pieces == [] {
      NothingWritten(j.files, disk, BLOCK_SIZE * b);
      assert buf[..0] == [];
    } else {
      var k := |pieces| - 1;
      var p, front := pieces[k], pieces[..k];
      SessionPrefix(j, b, pieces, k);
      SessionPrefix(j, b, pieces, k + 1);
      assert pieces[..k + 1] == pieces;
      InPlaceIsWritten(j, b, front, disk, buf);
      assert InPlace(j, b, p);
      var d, piece := Apply(disk, buf, front), buf[p.from..p.from + p.count];
      if p.count > 0 {
        WritesMore(j.files, disk, d, BLOCK_SIZE * b, buf[..p.from], p.file, p.offset, piece);
        assert buf[..p.from] + piece == buf[..Done(pieces)];
      } else {
        WritesNothing(d[p.file], p.offset);
        assert piece == [] && d[p.file := d[p.file]] == d;
      }
    }
  }

  /** Without short writes every turn starts where the one before ends. */
  lemma {:induction false} FullWritesAreInPlace(j: Job, b: nat, pieces: seq<Piece>, i: nat)
    requires Tiled(j) && b < |j.blocks| && Session(j, b, pieces) && i < |pieces|
    requires forall k :: 0 <= k < i ==> !Short(j, b, pieces[k])
    ensures pieces[i].file < |j.files|
    ensures FileStart(j.files, pieces[i].file) + pieces[i].offset == BLOCK_SIZE * b + pieces[i].from
  {
    assert Starts(j, b, pieces, i);
    BlockInData(j, b);
    if i > 0 {
      var p := pieces[i - 1];
      FullWritesAreInPlace(j, b, pieces, i - 1);
      assert Starts(j, b, pieces, i - 1) && !Short(j, b, p);
      NextFileStarts(j.files, p.file, pieces[i].file);
    }
  }

  /** A turn that writes some but not all it is asked to leaves the next one out of place. */
  lemma ShortIsOutOfPlace(j: Job, b: nat, pieces: seq<Piece>, i: nat)
    requires Tiled(j) && b < |j.blocks| && Session(j, b, pieces) && i + 1 < |pieces|
    requires Short(j, b, pieces[i]) && pieces[i].count > 0 && pieces[i + 1].count > 0
    ensures !InPlace(j, b, pieces[i]) || !InPlace(j, b, pieces[i + 1])
  {
    var p, q := pieces[i], pieces[i + 1];
    assert Starts(j, b, pieces, i) && Starts(j, b, pieces, i + 1);
    if q.file > p.file {
      FilesInOrder(j.files, p.file, q.file);
    } else if q.file < p.file {
      FilesInOrder(j.files, q.file, p.file);
    }
  }

  // ----- Out of place is wrong -----

  lemma {:induction false} PlaceOf(files: seq<File>, n: nat, p: nat) returns (f: nat, off: nat)
    requires n <= |files| && p < FileStart(files, n)
    ensures f < n && off < Bytes(files[f]) && FileStart(files, f) + off == p
  {
    if p >= FileStart(files, n - 1) {
      f, off := n - 1, p - FileStart(files, n - 1);
    } else {
      f, off := PlaceOf(files, n - 1, p);
    }
  }

  lemma {:induction false} PiecesInOrder(j: Job, b: nat, pieces: seq<Piece>, i: nat, k: nat)
    requires b < |j.blocks| && Session(j, b, pieces) && i < k < |pieces|
    ensures pieces[i].from + pieces[i].count <= pieces[k].from
  {
    assert Starts(j, b, pieces, k);
    if i < k - 1 { PiecesInOrder(j, b, pieces, i, k - 1); }
  }

  /** Zeros but for a one at c. */
  function Mark(n: nat, c: nat): (m: seq<Byte>)
    ensures |m| == n && forall i :: 0 <= i < n ==> m[i] == if i == c then 1 else 0
  {
    seq(n, i => if i == c then 1 else 0)
  }

  function Blank(files: seq<File>): (disk: seq<seq<Byte>>)
    ensures |disk| == |files| && forall f :: 0 <= f < |files| ==> disk[f] == Zeros(Bytes(files[f]))
  {
    seq(|files|, f requires 0 <= f < |files| => Zeros(Bytes(files[f])))
  }

  /** No piece puts byte c of the block at byte `off` of file f. */
  predicate Elsewhere(pieces: seq<Piece>, c: nat, f: nat, off: nat) {
    forall p :: p in pieces ==> !(p.file == f && p.offset <= off < p.offset + p.count && p.from + (off - p.offset) == c)
  }

  lemma {:induction false} StaysUnmarked(disk: seq<seq<Byte>>, n: nat, pieces: seq<Piece>, c: nat, f: nat, off: nat)
    requires Elsewhere(pieces, c, f, off) && f < |disk| && off < |disk[f]| && disk[f][off] == 0
    ensures var after := Apply(disk, Mark(n, c), pieces); off < |after[f]| && after[f][off] == 0
  {
    if pieces != [] {
      assert pieces[|pieces| - 1] in pieces;
      assert Elsewhere(pieces[..|pieces| - 1], c, f, off);
      StaysUnmarked(disk, n, pieces[..|pieces| - 1], c, f, off);
    }
  }

  /** A piece out of place loses its first byte: nothing puts it where it belongs. */
  lemma LostByte(j: Job, b: nat, pieces: seq<Piece>, i: nat, f: nat, off: nat)
    requires Tiled(j) && b < |j.blocks| && Session(j, b, pieces) && i < |pieces| && !InPlace(j, b, pieces[i])
    requires f < |j.files| && off < Bytes(j.files[f]) && FileStart(j.files, f) + off == BLOCK_SIZE * b + pieces[i].from
    ensures Elsewhere(pieces, pieces[i].from, f, off)
  {
    hide Follows, Tiled, FileStart;
    var c := pieces[i].from;
    forall p | p in pieces && p.file == f && p.offset <= off < p.offset + p.count && p.from + (off - p.offset) == c
      ensures false {
      var k :| 0 <= k < |pieces| && pieces[k] == p;
      assert Starts(j, b, pieces, i);
      if k < i {
        PiecesInOrder(j, b, pieces, k, i);
      } else if i < k {
        PiecesInOrder(j, b, pieces, i, k);
      }
    }
  }

  lemma SessionAt(j: Job, b: nat, pieces: seq<Piece>, i: nat)
    requires b < |j.blocks| && Session(j, b, pieces) && i < |pieces|
    ensures Starts(j, b, pieces, i)
  {
  }

  lemma WrittenByte(files: seq<File>, before: seq<seq<Byte>>, after: seq<seq<Byte>>, from: nat, data: seq<Byte>,
                    f: nat, off: nat)
    requires Written(files, before, after, from, data) && f < |files| && off < Bytes(files[f])
    requires from <= FileStart(files, f) + off < from + |data|
    ensures off < |after[f]| && after[f][off] == data[FileStart(files, f) + off - from]
  {
    assert WrittenTo(files, f, before[f], after[f], from, data);
    assert ByteWritten(files, f, off, before[f], after[f], from, data);
  }

  /** Then the call does not put every block where it belongs: this one on blank files, for example. */
  lemma OutOfPlaceIsWrong(j: Job, b: nat, pieces: seq<Piece>, i: nat)
    requires Tiled(j) && b < |j.blocks| && Session(j, b, pieces) && i < |pieces| && !InPlace(j, b, pieces[i])
    ensures var buf := Mark(j.blocks[b].size, pieces[i].from);
            !Written(j.files, Blank(j.files), Apply(Blank(j.files), buf, pieces), BLOCK_SIZE * b, buf)
  {
    hide Apply, FileStart, Elsewhere, Session, Tiled, Written, WholeData, Follows, Mark;
    var c, n := pieces[i].from, j.blocks[b].size;
    BlockInData(j, b);
    assert Starts(j, b, pieces, i) by { SessionAt(j, b, pieces, i); }
    var f, off := PlaceOf(j.files, |j.files|, BLOCK_SIZE * b + c);
    LostByte(j, b, pieces, i, f, off);
    StaysUnmarked(Blank(j.files), n, pieces, c, f, off);
    var disk, buf := Blank(j.files), Mark(n, c);
    if Written(j.files, disk, Apply(disk, buf, pieces), BLOCK_SIZE * b, buf) {
      WrittenByte(j.files, disk, Apply(disk, buf, pieces), BLOCK_SIZE * b, buf, f, off);
    }
  }

  /** A call that has written all of the block puts it where it belongs, whatever it is and whatever the
      files held before, if and only if no piece is out of place. */
  lemma RightIffInPlace(j: Job, b: nat, pieces: seq<Piece>)
    requires Tiled(j) && b < |j.blocks| && Session(j, b, pieces) && Done(pieces) == j.blocks[b].size
    ensures (forall disk, buf :: |disk| == |j.files| && |buf| == j.blocks[b].size ==>
               Written(j.files, disk, Apply(disk, buf, pieces), BLOCK_SIZE * b, buf))
            <==> AllInPlace(j, b, pieces)
  {
    hide Written, Session, Tiled, InPlace, Apply;
    if AllInPlace(j, b, pieces) {
      forall disk, buf: seq<Byte> | |disk| == |j.files| && |buf| == j.blocks[b].size
        ensures Written(j.files, disk, Apply(disk, buf, pieces), BLOCK_SIZE * b, buf) {
        InPlaceIsWritten(j, b, pieces, disk, buf);
        assert buf[..Done(pieces)] == buf;
      }
    } else {
      var i :| 0 <= i < |pieces| && !InPlace(j, b, pieces[i]);
      OutOfPlaceIsWrong(j, b, pieces, i);
    }
  }

  /** When each turn writes something, that means: if and only if no write is short. */
  lemma RightIffNeverShort(j: Job, b: nat, pieces: seq<Piece>)
    requires Tiled(j) && b < |j.blocks| && Session(j, b, pieces) && Done(pieces) == j.blocks[b].size
    requires forall i :: 0 <= i < |pieces| ==> pieces[i].count > 0
    ensures AllInPlace(j, b, pieces) <==> forall i :: 0 <= i < |pieces| ==> !Short(j, b, pieces[i])
  {
    if forall i :: 0 <= i < |pieces| ==> !Short(j, b, pieces[i]) {
      forall i | 0 <= i < |pieces| ensures InPlace(j, b, pieces[i]) {
        FullWritesAreInPlace(j, b, pieces, i);
      }
    } else {
      var i :| 0 <= i < |pieces| && Short(j, b, pieces[i]);
      assert Starts(j, b, pieces, i);
      ShortIsOutOfPlace(j, b, pieces, i);
    }
  }

  // ----- The call -----

  /** The turn after the pieces starts at an offset of a file. */
  ghost predicate GoesOnAt(j: Job, b: nat, pieces: seq<Piece>, f: nat, offset: nat)
    requires b < |j.blocks|
  {
    f < |j.files| && offset < Bytes(j.files[f])
    && if pieces == [] then f == j.blocks[b].start_f && offset == j.blocks[b].start_off
       else var last := pieces[|pieces| - 1].file; offset == 0 && last < |j.files| && Follows(j.files, last, f)
  }

  lemma ApplyLast(disk: seq<seq<Byte>>, buf: seq<Byte>, pieces: seq<Piece>, p: Piece)
    requires p.file < |disk| && p.from + p.count <= |buf|
    ensures var d := Apply(disk, buf, pieces);
            Apply(disk, buf, pieces + [p]) == d[p.file := Overwrite(d[p.file], p.offset, buf[p.from..p.from + p.count])]
  {
    assert (pieces + [p])[..|pieces|] == pieces;
  }

  lemma OnePieceMore(j: Job, b: nat, pieces: seq<Piece>, f: nat, offset: nat, n: nat, disk: seq<seq<Byte>>,
                     buf: seq<Byte>)
    requires b < |j.blocks| && Session(j, b, pieces) && GoesOnAt(j, b, pieces, f, offset)
               && Done(pieces) < j.blocks[b].size
    requires n <= Asked(j, b, f, offset, Done(pieces)) && |buf| >= j.blocks[b].size && |disk| == |j.files|
    ensures var now := pieces + [Piece(f, offset, Done(pieces), n)];
            Session(j, b, now) && Done(now) == Done(pieces) + n <= j.blocks[b].size
            && var d := Apply(disk, buf, pieces);
               Apply(disk, buf, now) == d[f := Overwrite(d[f], offset, buf[Done(pieces)..Done(pieces) + n])]
  {
    hide Follows, Overwrite, Apply, Bytes;
    var p := Piece(f, offset, Done(pieces), n);
    var now := pieces + [p];
    assert now[|pieces|] == p && forall i :: 0 <= i < |pieces| ==> now[i] == pieces[i];
    forall i | 0 <= i < |now| ensures Starts(j, b, now, i) {
      if i < |pieces| { assert Starts(j, b, pieces, i); }
    }
    ApplyLast(disk, buf, pieces, p);
  }

  lemma GoesOnNext(j: Job, b: nat, pieces: seq<Piece>, p: Piece, g: nat)
    requires b < |j.blocks| && p.file < |j.files| && Follows(j.files, p.file, g)
    ensures GoesOnAt(j, b, pieces + [p], g, 0)
  {
  }

  lemma ApplyNone(disk: seq<seq<Byte>>, buf: seq<Byte>)
    ensures Apply(disk, buf, []) == disk
  {
  }

  /** Every turn writes all it is asked to. */
  predicate NeverShort(turns: seq<Turn>) {
    forall i :: 0 <= i < |turns| ==> turns[i].Writes? && turns[i].most >= BLOCK_SIZE
  }

  datatype Outcome = Returned(ret: int) | WritesOn

  lemma Here(j: Job, b: nat, pieces: seq<Piece>, f: nat, offset: nat)
    requires b < |j.blocks| && GoesOnAt(j, b, pieces, f, offset) && Done(pieces) < j.blocks[b].size
    ensures f < |j.files| && j.files[f].size > 0 && Asked(j, b, f, offset, Done(pieces)) > 0
  {
  }

  lemma NoPieces(j: Job, b: nat, disk: seq<seq<Byte>>, buf: seq<Byte>)
    requires b < |j.blocks|
    ensures Session(j, b, []) && Apply(disk, buf, []) == disk
    ensures TiledAt(j, b) ==> GoesOnAt(j, b, [], j.blocks[b].start_f, j.blocks[b].start_off)
  {
  }

  /** `writeblock`, on the contents of the files on disk.  Where it would go on after the given turns,
      the outcome is `WritesOn`. */
  method WriteBlock(j: Job, buf: seq<Byte>, b: nat, disk: array<seq<Byte>>, turns: seq<Turn>)
      returns (r: Outcome, ghost pieces: seq<Piece>)
    requires Tiled(j) && b < |j.blocks| && |buf| >= j.blocks[b].size && disk.Length == |j.files|
    modifies disk
    ensures Session(j, b, pieces) && disk[..] == Apply(old(disk[..]), buf, pieces)
    ensures |pieces| <= |turns|
    ensures forall i :: 0 <= i < |pieces| ==>
              turns[i].Writes? && pieces[i].count == Min(turns[i].most, AskedOf(j, b, pieces[i]))
    ensures match r
            case WritesOn => |pieces| == |turns| && Done(pieces) < j.blocks[b].size
            case Returned(ret) =>
              if Done(pieces) == j.blocks[b].size then ret == j.blocks[b].size
              else |pieces| < |turns| && !turns[|pieces|].Writes? && ret == if turns[|pieces|].Refused? then -1 else -2
    ensures NeverShort(turns) ==> forall i :: 0 <= i < |pieces| ==> !Short(j, b, pieces[i])
    ensures NeverShort(turns) && |turns| >= j.blocks[b].size ==> r == Returned(j.blocks[b].size)
  {
    hide Session, FileStart, TotalSize, WholeData, Follows, Overwrite, Apply, Tiled, GoesOnAt;
    BlockInData(j, b);
    pieces := [];
    var f: nat := j.blocks[b].start_f;
    var offset: nat := j.blocks[b].start_off;
    var total: int := j.blocks[b].size;
    var counter: nat := 0;
    NoPieces(j, b, old(disk[..]), buf);
    for i := 0 to |turns|
      invariant |pieces| == i && Session(j, b, pieces) && disk[..] == Apply(old(disk[..]), buf, pieces)
      invariant counter == Done(pieces) && total == j.blocks[b].size - counter >= 0
      invariant total > 0 ==> GoesOnAt(j, b, pieces, f, offset)
      invariant forall k :: 0 <= k < i
                  ==> turns[k].Writes? && pieces[k].count == Min(turns[k].most, AskedOf(j, b, pieces[k]))
      invariant NeverShort(turns) ==> counter >= i && forall k :: 0 <= k < i ==> !Short(j, b, pieces[k])
    {
      if total <= 0 { return Returned(counter), pieces; }
      if turns[i].NotOpened? { return Returned(-2), pieces; }
      if turns[i].Refused? { return Returned(-1), pieces; }
      Here(j, b, pieces, f, offset);
      var asked := Asked(j, b, f, offset, counter);
      var wrote: nat := Min(turns[i].most, asked);
      OnePieceMore(j, b, pieces, f, offset, wrote, old(disk[..]), buf);
      disk[f] := Overwrite(disk[f], offset, buf[counter..counter + wrote]);
      pieces := pieces + [Piece(f, offset, counter, wrote)];
      total := total - wrote;
      counter := counter + wrote;
      f := NextF(j.files, f);
      GoesOnNext(j, b, pieces[..i], pieces[i], f);
      offset := 0;
    }
    r := if total <= 0 then Returned(counter) else WritesOn;
  }

  // ----- A short write -----

  /** Two files of two bytes in one block. */
  const TwoFiles: Job := Job([File(2, [1, 2]), File(2, [3, 4])], [Block(4, 0, 0)])

  lemma TwoFilesTiled()
    ensures Tiled(TwoFiles) && WholeData(TwoFiles.files) == [1, 2, 3, 4]
  {
    assert Data(TwoFiles.files, 1) == [1, 2];
  }

  const ThreeTurns: seq<Turn> := [Writes(1), Writes(2), Writes(2)]
  const ThreePieces: seq<Piece> := [Piece(0, 0, 0, 1), Piece(1, 0, 1, 2), Piece(0, 0, 3, 1)]

  lemma NextOfTwo(f: nat, g: nat)
    requires f < 2 && Follows(TwoFiles.files, f, g)
    ensures g == 1 - f
  {
    assert TwoFiles.files[0].size > 0 && TwoFiles.files[1].size > 0;
  }

  lemma PiecesOfThreeTurns(pieces: seq<Piece>)
    requires Session(TwoFiles, 0, pieces) && |pieces| <= 3
    requires forall i :: 0 <= i < |pieces|
               ==> pieces[i].count == Min(ThreeTurns[i].most, AskedOf(TwoFiles, 0, pieces[i]))
    ensures pieces == ThreePieces[..|pieces|]
  {
    hide Session;
    if |pieces| > 0 {
      SessionAt(TwoFiles, 0, pieces, 0);
      assert pieces[0] == ThreePieces[0];
    }
    if |pieces| > 1 {
      SessionAt(TwoFiles, 0, pieces, 1);
      NextOfTwo(0, pieces[1].file);
      assert pieces[1] == ThreePieces[1];
    }
    if |pieces| > 2 {
      SessionAt(TwoFiles, 0, pieces, 2);
      NextOfTwo(1, pieces[2].file);
      assert pieces[2] == ThreePieces[2];
    }
  }

  lemma DiskAfterThreeTurns()
    ensures Apply([[], []], [1, 2, 3, 4], ThreePieces) == [[4], [2, 3]]
  {
    hide Apply;
    var p, d, buf := ThreePieces, [[], []], [1, 2, 3, 4];
    ApplyNone(d, buf);
    ApplyLast(d, buf, [], p[0]);
    ApplyLast(d, buf, [p[0]], p[1]);
    ApplyLast(d, buf, [p[0], p[1]], p[2]);
    assert [p[0]] + [p[1]] == [p[0], p[1]] && [p[0], p[1]] + [p[2]] == p && [] + [p[0]] == [p[0]];
    assert buf[0..1] == [1] && buf[1..3] == [2, 3] && buf[3..4] == [4];
    assert Overwrite([], 0, [1]) == [1] && Overwrite([], 0, [2, 3]) == [2, 3] && Overwrite([1], 0, [4]) == [4];
  }

  /** The first write stores one byte of two: the call reports the whole block as written, the second
      file begins with a byte of the first, and the first with one of the second. */
  method ShortWriteCorrupts() returns (r: Outcome, files: seq<seq<Byte>>)
    ensures r == Returned(4) && files == [[4], [2, 3]]
  {
    TwoFilesTiled();
    var disk := new seq<Byte>[2](_ => []);
    assert disk[..] == [[], []];
    ghost var pieces;
    r, pieces := WriteBlock(TwoFiles, [1, 2, 3, 4], 0, disk, ThreeTurns);
    PiecesOfThreeTurns(pieces);
    assert |pieces| == 3 && pieces == ThreePieces;
    DiskAfterThreeTurns();
    files := disk[..];
  }

  // ----- All blocks -----

  /** Byte `off` of file f belongs to one of the blocks. */
  ghost predicate InBlocks(j: Job, f: nat, off: nat, done: set<nat>)
    requires f < |j.files|
  {
    (FileStart(j.files, f) + off) / BLOCK_SIZE in done
  }

  /** The bytes of the blocks in `done` are on disk, and no file is too long. */
  ghost predicate Rebuilt(j: Job, disk: seq<seq<Byte>>, done: set<nat>)
    requires Tiled(j)
  {
    |disk| == |j.files|
    && forall f :: 0 <= f < |disk| && j.files[f].size > 0 ==>
         |disk[f]| <= j.files[f].size
         && forall off :: 0 <= off < j.files[f].size && InBlocks(j, f, off, done) ==>
              off < |disk[f]| && disk[f][off] == j.files[f].content[off]
  }

  lemma InsideBlock(j: Job, b: nat, p: nat)
    requires Tiled(j) && b < |j.blocks| && p < TotalSize(j.files)
    ensures p / BLOCK_SIZE == b <==> BLOCK_SIZE * b <= p < BLOCK_SIZE * b + j.blocks[b].size
  {
    BlockInData(j, b);
  }

  lemma ByteRebuilt(j: Job, before: seq<Byte>, after: seq<Byte>, done: set<nat>, b: nat, f: nat, off: nat)
    requires Tiled(j) && b < |j.blocks| && |WholeData(j.files)| == TotalSize(j.files)
    requires BLOCK_SIZE * b + j.blocks[b].size <= TotalSize(j.files)
    requires f < |j.files| && off < j.files[f].size && InBlocks(j, f, off, done + {b})
    requires InBlocks(j, f, off, done) ==> off < |before| && before[off] == j.files[f].content[off]
    requires WrittenTo(j.files, f, before, after, BLOCK_SIZE * b, BlockData(j, b))
    ensures off < |after| && after[off] == j.files[f].content[off]
  {
    BlockInData(j, b);
    var p := FileStart(j.files, f) + off;
    PartOfFile(j.files, f, off, 1);
    assert j.files[f].content[off] == WholeData(j.files)[p] by {
      assert j.files[f].content[off..off + 1][0] == WholeData(j.files)[p..p + 1][0];
    }
    InsideBlock(j, b, p);
    hide WholeData, FileStart;
    if BLOCK_SIZE * b <= p < BLOCK_SIZE * b + j.blocks[b].size {
      assert ByteWritten(j.files, f, off, before, after, BLOCK_SIZE * b, BlockData(j, b));
    } else {
      assert off < |before|;
      assert ByteWritten(j.files, f, off, before, after, BLOCK_SIZE * b, BlockData(j, b));
    }
  }

  lemma BlockRebuilt(j: Job, before: seq<seq<Byte>>, after: seq<seq<Byte>>, done: set<nat>, b: nat)
    requires Tiled(j) && Rebuilt(j, before, done) && b < |j.blocks| && |WholeData(j.files)| == TotalSize(j.files)
    requires BLOCK_SIZE * b + j.blocks[b].size <= TotalSize(j.files)
    requires Written(j.files, before, after, BLOCK_SIZE * b, BlockData(j, b))
    ensures Rebuilt(j, after, done + {b})
  {
    BlockInData(j, b);
    forall f | 0 <= f < |after| && j.files[f].size > 0
      ensures |after[f]| <= j.files[f].size
      ensures forall off :: 0 <= off < j.files[f].size && InBlocks(j, f, off, done + {b}) ==>
                off < |after[f]| && after[f][off] == j.files[f].content[off]
    {
      assert WrittenTo(j.files, f, before[f], after[f], BLOCK_SIZE * b, BlockData(j, b));
      forall off | 0 <= off < j.files[f].size && InBlocks(j, f, off, done + {b})
        ensures off < |after[f]| && after[f][off] == j.files[f].content[off] {
        ByteRebuilt(j, before[f], after[f], done, b, f, off);
      }
    }
  }

  lemma NothingRebuilt(j: Job, disk: seq<seq<Byte>>)
    requires Tiled(j) && |disk| == |j.files|
    requires forall f :: 0 <= f < |disk| && j.files[f].size > 0 ==> |disk[f]| <= j.files[f].size
    ensures Rebuilt(j, disk, {})
  {
  }

  lemma RebuiltByte(j: Job, disk: seq<seq<Byte>>, done: set<nat>, f: nat, off: nat)
    requires Tiled(j) && Rebuilt(j, disk, done) && forall b: nat :: b < |j.blocks| ==> b in done
    requires f < |disk| && off < j.files[f].size
    ensures off < |disk[f]| && disk[f][off] == j.files[f].content[off]
  {
    FilesInOrder(j.files, f, |j.files|);
    assert (FileStart(j.files, f) + off) / BLOCK_SIZE < |j.blocks|;
    assert InBlocks(j, f, off, done);
  }

  /** With all blocks done every file has its contents. */
  lemma AllRebuilt(j: Job, disk: seq<seq<Byte>>, done: set<nat>)
    requires Tiled(j) && Rebuilt(j, disk, done) && forall b: nat :: b < |j.blocks| ==> b in done
    ensures forall f :: 0 <= f < |disk| && j.files[f].size > 0 ==> disk[f] == j.files[f].content
  {
    forall f | 0 <= f < |disk| && j.files[f].size > 0 ensures disk[f] == j.files[f].content {
      RebuiltByte(j, disk, done, f, j.files[f].size - 1);
      forall off | 0 <= off < j.files[f].size ensures disk[f][off] == j.files[f].content[off] {
        RebuiltByte(j, disk, done, f, off);
      }
    }
  }

  datatype Delivery = Delivery(block: nat, turns: seq<Turn>)

  predicate Arrives(order: seq<Delivery>, b: nat) { exists i :: 0 <= i < |order| && order[i].block == b }

  lemma BlockPutBack(j: Job, before: seq<seq<Byte>>, after: seq<seq<Byte>>, done: set<nat>, b: nat, pieces: seq<Piece>)
    requires Tiled(j) && b < |j.blocks| && Rebuilt(j, before, done) && Session(j, b, pieces)
    requires |WholeData(j.files)| == TotalSize(j.files) && BLOCK_SIZE * b + j.blocks[b].size <= TotalSize(j.files)
    requires Done(pieces) == j.blocks[b].size && after == Apply(before, BlockData(j, b), pieces)
    requires AllInPlace(j, b, pieces) || forall i :: 0 <= i < |pieces| ==> !Short(j, b, pieces[i])
    ensures Rebuilt(j, after, done + {b})
  {
    if !AllInPlace(j, b, pieces) {
      forall i | 0 <= i < |pieces| ensures InPlace(j, b, pieces[i]) { FullWritesAreInPlace(j, b, pieces, i); }
    }
    hide WholeData, Session, Apply, Written, AllInPlace, TotalSize;
    var data := BlockData(j, b);
    InPlaceIsWritten(j, b, pieces, before, data);
    assert data[..Done(pieces)] == data;
    BlockRebuilt(j, before, after, done, b);
  }

  /** Blocks that arrive in any order, some perhaps more than once, rebuild the files, unless a short
      write puts something out of place. */
  method RebuildFiles(j: Job, order: seq<Delivery>, disk: array<seq<Byte>>)
      returns (ok: bool, ghost written: seq<seq<Piece>>)
    requires Tiled(j) && disk.Length == |j.files| && forall i :: 0 <= i < |order| ==> order[i].block < |j.blocks|
    requires forall f :: 0 <= f < disk.Length && j.files[f].size > 0 ==> |disk[f]| <= j.files[f].size
    modifies disk
    ensures ok ==> |written| == |order| && forall i :: 0 <= i < |order| ==> Session(j, order[i].block, written[i])
    ensures (forall i :: 0 <= i < |order| ==> NeverShort(order[i].turns) && |order[i].turns| >= BLOCK_SIZE) ==> ok
    ensures ok
            && (forall i :: 0 <= i < |order| ==>
                  AllInPlace(j, order[i].block, written[i]) || NeverShort(order[i].turns))
            && (forall b: nat :: b < |j.blocks| ==> Arrives(order, b)) ==>
              forall f :: 0 <= f < disk.Length && j.files[f].size > 0 ==> disk[f] == j.files[f].content
  {
    hide Tiled, Rebuilt, Written, WholeData, Session, AllInPlace, Apply, NeverShort;
    ghost var done: set<nat> := {};
    ghost var right := true;
    written := [];
    NothingRebuilt(j, disk[..]);
    for i := 0 to |order|
      invariant |written| == i && |disk[..]| == |j.files| && (right ==> Rebuilt(j, disk[..], done))
      invariant forall k :: 0 <= k < i ==> order[k].block in done && Session(j, order[k].block, written[k])
      invariant (forall k :: 0 <= k < i ==> AllInPlace(j, order[k].block, written[k]) || NeverShort(order[k].turns))
                  ==> right
    {
      var b := order[i].block;
      BlockInData(j, b);
      ghost var before := disk[..];
      var data := BlockData(j, b);
      var r;
      ghost var pieces;
      r, pieces := WriteBlock(j, data, b, disk, order[i].turns);
      if r != Returned(j.blocks[b].size) { return false, written; }
      written := written + [pieces];
      if right && (AllInPlace(j, b, pieces) || NeverShort(order[i].turns)) {
        BlockPutBack(j, before, disk[..], done, b, pieces);
      } else {
        right := false;
      }
      done := done + {b};
    }
    if right && forall b: nat :: b < |j.blocks| ==> Arrives(order, b) {
      forall b: nat | b < |j.blocks| ensures b in done { assert Arrives(order, b); }
      AllRebuilt(j, disk[..], done);
      assert forall f :: 0 <= f < disk.Length ==> disk[..][f] == disk[f];
    }
    ok := true;
  }
}
