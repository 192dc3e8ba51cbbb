/** Blocks that tile a list of files, and sending a run of them. */
module Blocks {
  import opened Bits

  const BLOCK_SIZE: nat := 0x20_0000

  /** The size is -1 for a directory and -2 for a link. */
  datatype File = File(size: int, content: seq<Byte>)
  datatype Block = Block(size: nat, start_f: nat, start_off: nat)
  datatype Job = Job(files: seq<File>, blocks: seq<Block>)

  function Bytes(f: File): nat { if f.size > 0 then f.size else 0 }

  /** The bytes before file f. */
  function FileStart(files: seq<File>, f: nat): nat
    requires f <= |files|
  {
    if f == 0 then 0 else FileStart(files, f - 1) + Bytes(files[f - 1])
  }

  predicate Sized(files: seq<File>) {
    forall f :: 0 <= f < |files| ==> |files[f].content| == Bytes(files[f])
  }

  /** The contents of the first n files in a row. */
  function Data(files: seq<File>, n: nat): (d: seq<Byte>)
    requires n <= |files|
  {
    if n == 0 then [] else Data(files, n - 1) + files[n - 1].content
  }

  function TotalSize(files: seq<File>): nat { FileStart(files, |files|) }

  function WholeData(files: seq<File>): seq<Byte> { Data(files, |files|) }

  ghost predicate TiledAt(j: Job, b: nat)
    requires b < |j.blocks|
  {
    var blk := j.blocks[b];
    blk.start_f < |j.files| && blk.start_off < Bytes(j.files[blk.start_f])
    && FileStart(j.files, blk.start_f) + blk.start_off == BLOCK_SIZE * b
    && blk.size == if b == |j.blocks| - 1 then TotalSize(j.files) - BLOCK_SIZE * b else BLOCK_SIZE
  }

  /** Blocks of BLOCK_SIZE bytes, the last one perhaps shorter, cover the contents. */
  ghost predicate Tiled(j: Job) {
    |j.blocks| > 0 && Sized(j.files)
    && BLOCK_SIZE * (|j.blocks| - 1) < TotalSize(j.files) <= BLOCK_SIZE * |j.blocks|
    && forall b :: 0 <= b < |j.blocks| ==> TiledAt(j, b)
  }

  /** Files are laid out one after the other. */
  lemma {:induction false} FilesInOrder(files: seq<File>, f: nat, g: nat)
    requires f < g <= |files|
    ensures FileStart(files, f) + Bytes(files[f]) <= FileStart(files, g)
    ensures (forall h :: f < h < g ==> files[h].size <= 0)
              ==> FileStart(files, f) + Bytes(files[f]) == FileStart(files, g)
  {
    if f < g - 1 { FilesInOrder(files, f, g - 1); }
  }

  lemma {:induction false} NoBytesBefore(files: seq<File>, g: nat)
    requires g <= |files| && forall h :: 0 <= h < g ==> files[h].size <= 0
    ensures FileStart(files, g) == 0
  {
    if g > 0 { NoBytesBefore(files, g - 1); }
  }

  lemma SliceOfFirst(a: seq<Byte>, b: seq<Byte>, from: nat, to: nat)
    requires from <= to <= |a|
    ensures (a + b)[from..to] == a[from..to]
  {
  }

  lemma AllOfSecond(a: seq<Byte>, b: seq<Byte>)
    ensures (a + b)[|a|..|a| + |b|] == b
  {
  }

  lemma {:induction false} DataSize(files: seq<File>, n: nat)
    requires Sized(files) && n <= |files|
    ensures |Data(files, n)| == FileStart(files, n)
  {
    if n > 0 { DataSize(files, n - 1); }
  }

  lemma {:induction false} DataOfFile(files: seq<File>, f: nat, n: nat)
    requires Sized(files) && f < n <= |files|
    ensures |Data(files, n)| == FileStart(files, n) && FileStart(files, f) + Bytes(files[f]) <= FileStart(files, n)
    ensures n == |files| ==> WholeData(files) == Data(files, n)
    ensures Data(files, n)[FileStart(files, f)..FileStart(files, f) + Bytes(files[f])] == files[f].content
    decreases n
  {
    DataSize(files, n - 1);
    var d, tail, from, size := Data(files, n - 1), files[n - 1].content, FileStart(files, f), Bytes(files[f]);
    if f < n - 1 {
      DataOfFile(files, f, n - 1);
      SliceOfFirst(d, tail, from, from + size);
    } else {
      AllOfSecond(d, tail);
    }
  }

  lemma TotalIsLast(files: seq<File>)
    ensures TotalSize(files) == FileStart(files, |files|)
  {
  }

  lemma SliceOfSlice(d: seq<Byte>, from: nat, to: nat, a: nat, b: nat)
    requires from <= to <= |d| && a <= b <= to - from
    ensures d[from..to][a..b] == d[from + a..from + b]
  {
    var s := d[from..to];
    assert |s[a..b]| == |d[from + a..from + b]|;
    assert forall i :: 0 <= i < b - a ==> s[a..b][i] == d[from + a..from + b][i];
  }

  /** Some of a file's bytes, found in the whole. */
  lemma PartOfFile(files: seq<File>, f: nat, off: nat, n: nat)
    requires Sized(files) && f < |files| && off + n <= Bytes(files[f])
    ensures |WholeData(files)| == TotalSize(files) && FileStart(files, f) + off + n <= TotalSize(files)
    ensures files[f].content[off..off + n] == WholeData(files)[FileStart(files, f) + off..FileStart(files, f) + off + n]
  {
    hide Data, FileStart, WholeData;
    DataOfFile(files, f, |files|);
    TotalIsLast(files);
    var p := FileStart(files, f);
    SliceOfSlice(WholeData(files), p, p + Bytes(files[f]), off, off + n);
  }

  lemma Wraps(x: nat, n: nat)
    requires 0 < n && x <= n
    ensures x % n == if x < n then x else 0
  {
    DivModUnique(x, n, if x < n then 0 else 1, if x < n then x else 0);
  }

  /** The cyclic successor among the files with contents. */
  ghost predicate Follows(files: seq<File>, f: nat, g: nat)
    requires f < |files|
  {
    g < |files| && files[g].size > 0
    && if g > f then forall h :: f < h < g ==> files[h].size <= 0
       else (forall h :: f < h < |files| ==> files[h].size <= 0) && (forall h :: 0 <= h < g ==> files[h].size <= 0)
  }

  /** `next_f`; it ends when the given file has contents. */
  method NextF(files: seq<File>, file: nat) returns (g: nat)
    requires file < |files| && files[file].size > 0
    ensures Follows(files, file, g)
  {
    Wraps(1 + file, |files|);
    g := (1 + file) % |files|;
    ghost var k := 1;
    while files[g].size <= 0
      invariant 1 <= k <= |files| && g < |files|
      invariant g == if file + k < |files| then file + k else file + k - |files|
      invariant forall h :: file < h < |files| && h < file + k ==> files[h].size <= 0
      invariant forall h :: 0 <= h < file + k - |files| ==> files[h].size <= 0
      decreases |files| - k
    {
      Wraps(1 + g, |files|);
      g := (1 + g) % |files|;
      k := k + 1;
    }
  }

  /** Where the next file with contents starts. */
  lemma NextFileStarts(files: seq<File>, f: nat, g: nat)
    requires f < |files| && Follows(files, f, g)
    ensures var end := FileStart(files, f) + Bytes(files[f]);
            end <= TotalSize(files)
            && FileStart(files, g) == if end < TotalSize(files) then end else 0
  {
    FilesInOrder(files, f, |files|);
    if g > f {
      FilesInOrder(files, f, g);
      FilesInOrder(files, g, |files|);
    } else {
      NoBytesBefore(files, g);
    }
  }

  function NextB(j: Job, b: nat): (c: nat)
    requires b < |j.blocks|
    ensures c < |j.blocks| && c == if b + 1 < |j.blocks| then b + 1 else 0
  {
    Wraps(b + 1, |j.blocks|);
    (b + 1) % |j.blocks|
  }

  function BlockData(j: Job, b: nat): seq<Byte>
    requires b < |j.blocks| && BLOCK_SIZE * b + j.blocks[b].size <= |WholeData(j.files)|
  {
    WholeData(j.files)[BLOCK_SIZE * b..BLOCK_SIZE * b + j.blocks[b].size]
  }

  // ----- Sending -----

  /** The k-th block from `start` on, around the circle. */
  function BlockAt(j: Job, start: nat, k: nat): nat {
    if start + k < |j.blocks| then start + k else start + k - |j.blocks|
  }

  lemma BlockInData(j: Job, b: nat)
    requires Tiled(j) && b < |j.blocks|
    ensures TiledAt(j, b) && |WholeData(j.files)| == TotalSize(j.files)
    ensures 0 < j.blocks[b].size <= BLOCK_SIZE && BLOCK_SIZE * b + j.blocks[b].size <= TotalSize(j.files)
    ensures BLOCK_SIZE * b + j.blocks[b].size == if b + 1 < |j.blocks| then BLOCK_SIZE * (b + 1) else TotalSize(j.files)
  {
    DataSize(j.files, |j.files|);
  }

  /** The contents of k blocks from `start` on. */
  ghost function Run(j: Job, start: nat, k: nat): seq<Byte>
    requires Tiled(j) && start < |j.blocks| && k <= |j.blocks|
  {
    if k == 0 then []
    else Run(j, start, k - 1) + (BlockInData(j, BlockAt(j, start, k - 1)); BlockData(j, BlockAt(j, start, k - 1)))
  }

  ghost function RunSize(j: Job, start: nat, k: nat): nat
    requires Tiled(j) && start < |j.blocks| && k <= |j.blocks|
  {
    if k == 0 then 0 else RunSize(j, start, k - 1) + j.blocks[BlockAt(j, start, k - 1)].size
  }

  /** The number of bytes computed in advance is the size of the blocks. */
  lemma {:induction false} SizeInAdvance(j: Job, start: nat, num: nat)
    requires Tiled(j) && start < |j.blocks| && 0 < num <= |j.blocks|
    ensures RunSize(j, start, num)
         == BLOCK_SIZE * (num - 1) + if start + num >= |j.blocks| then j.blocks[|j.blocks| - 1].size else BLOCK_SIZE
  {
    BlockInData(j, BlockAt(j, start, num - 1));
    if num > 1 {
      SizeInAdvance(j, start, num - 1);
    } else {
      assert RunSize(j, start, 0) == 0;
    }
  }

  lemma RunSizeStep(j: Job, start: nat, k: nat)
    requires Tiled(j) && start < |j.blocks| && k < |j.blocks|
    ensures RunSize(j, start, k + 1) == RunSize(j, start, k) + j.blocks[BlockAt(j, start, k)].size
  {
  }

  lemma {:induction false} RunSizeGrows(j: Job, start: nat, k: nat, num: nat)
    requires Tiled(j) && start < |j.blocks| && k < num <= |j.blocks|
    ensures RunSize(j, start, num) >= RunSize(j, start, k) + j.blocks[BlockAt(j, start, k)].size
  {
    if k < num - 1 { RunSizeGrows(j, start, k, num - 1); }
  }

  /** The sender stands at byte `offset` of file f, inside block b, of which `left` bytes remain. */
  ghost predicate Standing(j: Job, f: nat, offset: nat, b: nat, left: nat)
    requires Tiled(j)
  {
    f < |j.files| && b < |j.blocks| && offset < Bytes(j.files[f])
    && var cur := FileStart(j.files, f) + offset;
       BLOCK_SIZE * b <= cur && cur + left == BLOCK_SIZE * b + j.blocks[b].size && left > 0
  }

  /** After the rest of a file, which does not pass the end of the block. */
  lemma Moves(j: Job, f: nat, offset: nat, b: nat, left: nat, n: nat, g: nat)
    requires Tiled(j) && Standing(j, f, offset, b, left) && Follows(j.files, f, g)
    requires 0 < n <= left && offset + n == Bytes(j.files[f])
    ensures n < left ==> Standing(j, g, 0, b, left - n)
    ensures n == left ==> Standing(j, g, 0, NextB(j, b), j.blocks[NextB(j, b)].size)
  {
    BlockInData(j, b);
    BlockInData(j, NextB(j, b));
    NextFileStarts(j.files, f, g);
  }

  /** After the rest of a block inside a file. */
  lemma MovesWithin(j: Job, f: nat, offset: nat, b: nat, left: nat)
    requires Tiled(j) && Standing(j, f, offset, b, left) && offset + left < Bytes(j.files[f])
    ensures Standing(j, f, offset + left, NextB(j, b), j.blocks[NextB(j, b)].size)
    ensures FileStart(j.files, f) + offset + left == BLOCK_SIZE * NextB(j, b)
  {
    BlockInData(j, b);
    BlockInData(j, NextB(j, b));
    FilesInOrder(j.files, f, |j.files|);
  }

  /** What has been sent of the run: k whole blocks and the beginning of the next one. */
  ghost predicate SentSoFar(j: Job, start: nat, k: nat, b: nat, cur: nat, out: seq<Byte>)
    requires Tiled(j) && start < |j.blocks|
  {
    k <= |j.blocks| && b < |j.blocks| && b == BlockAt(j, start, k)
    && |WholeData(j.files)| == TotalSize(j.files) && BLOCK_SIZE * b <= cur <= TotalSize(j.files)
    && out == Run(j, start, k) + WholeData(j.files)[BLOCK_SIZE * b..cur]
  }

  lemma NothingSent(j: Job, start: nat)
    requires Tiled(j) && start < |j.blocks|
    ensures SentSoFar(j, start, 0, start, BLOCK_SIZE * start, [])
  {
    BlockInData(j, start);
  }

  lemma SendsMore(j: Job, start: nat, k: nat, b: nat, cur: nat, out: seq<Byte>, n: nat)
    requires Tiled(j) && start < |j.blocks| && k < |j.blocks| && SentSoFar(j, start, k, b, cur, out)
    requires cur + n <= BLOCK_SIZE * b + j.blocks[b].size
    ensures cur + n <= |WholeData(j.files)|
    ensures var more := out + WholeData(j.files)[cur..cur + n];
            if cur + n < BLOCK_SIZE * b + j.blocks[b].size then SentSoFar(j, start, k, b, cur + n, more)
            else SentSoFar(j, start, k + 1, NextB(j, b), BLOCK_SIZE * NextB(j, b), more)
  {
    BlockInData(j, b);
    BlockInData(j, NextB(j, b));
    var d, from := WholeData(j.files), BLOCK_SIZE * b;
    assert d[from..cur] + d[cur..cur + n] == d[from..cur + n];
    if cur + n == from + j.blocks[b].size {
      assert Run(j, start, k + 1) == Run(j, start, k) + d[from..cur + n];
      assert d[BLOCK_SIZE * NextB(j, b)..BLOCK_SIZE * NextB(j, b)] == [];
    }
  }

  lemma AllSent(j: Job, start: nat, k: nat, b: nat, out: seq<Byte>)
    requires Tiled(j) && start < |j.blocks| && SentSoFar(j, start, k, b, BLOCK_SIZE * b, out)
    ensures out == Run(j, start, k)
  {
  }

  /** The state of the sending loop. */
  ghost predicate Sending(j: Job, start: nat, num: nat, k: nat, f: nat, offset: nat, b: nat, left: nat, total: int,
                          out: seq<Byte>)
    requires Tiled(j) && start < |j.blocks| && num <= |j.blocks|
  {
    k <= num && Standing(j, f, offset, b, left)
    && var cur := FileStart(j.files, f) + offset;
       SentSoFar(j, start, k, b, cur, out)
       && total == RunSize(j, start, num) - RunSize(j, start, k) - (cur - BLOCK_SIZE * b)
       && (k == num ==> cur == BLOCK_SIZE * b)
  }

  lemma StartsSending(j: Job, start: nat, num: nat)
    requires Tiled(j) && start < |j.blocks| && 0 < num <= |j.blocks|
    ensures j.blocks[start].start_f < |j.files|
    ensures Sending(j, start, num, 0, j.blocks[start].start_f, j.blocks[start].start_off, start, j.blocks[start].size,
                    BLOCK_SIZE * (num - 1)
                        + (if start + num >= |j.blocks| then j.blocks[|j.blocks| - 1].size else BLOCK_SIZE), [])
  {
    BlockInData(j, start);
    SizeInAdvance(j, start, num);
    NothingSent(j, start);
    assert RunSize(j, start, 0) == 0;
    hide SentSoFar, RunSize;
  }

  lemma MoreToCome(j: Job, start: nat, num: nat, k: nat, f: nat, offset: nat, b: nat, left: nat, total: int,
                   out: seq<Byte>)
    requires Tiled(j) && start < |j.blocks| && num <= |j.blocks|
    requires Sending(j, start, num, k, f, offset, b, left, total, out) && total > 0
    ensures k < num && left <= total && b == BlockAt(j, start, k) && Sized(j.files)
  {
    RunSizeGrows(j, start, k, num);
    hide RunSize, Run, WholeData;
  }

  /** The next bytes of the file are the next bytes of the run. */
  lemma ChunkOfRun(j: Job, start: nat, num: nat, k: nat, f: nat, offset: nat, b: nat, left: nat, total: int,
                   out: seq<Byte>, n: nat)
    requires Tiled(j) && start < |j.blocks| && num <= |j.blocks|
    requires Sending(j, start, num, k, f, offset, b, left, total, out) && total > 0
    requires 0 < n <= left && offset + n <= Bytes(j.files[f])
    ensures k < num && n <= total && offset + n <= |j.files[f].content| && b == BlockAt(j, start, k)
    ensures var cur := FileStart(j.files, f) + offset;
            var more := out + j.files[f].content[offset..offset + n];
            if n < left then SentSoFar(j, start, k, b, cur + n, more)
            else SentSoFar(j, start, k + 1, NextB(j, b), BLOCK_SIZE * NextB(j, b), more)
  {
    hide Run, Tiled, Data, FileStart;
    MoreToCome(j, start, num, k, f, offset, b, left, total, out);
    SendsMore(j, start, k, b, FileStart(j.files, f) + offset, out, n);
    PartOfFile(j.files, f, offset, n);
    hide RunSize, SentSoFar;
  }

  /** A turn that ends with the file but not with the block. */
  lemma FileEnds(j: Job, start: nat, num: nat, k: nat, f: nat, offset: nat, b: nat, left: nat, total: int,
                 out: seq<Byte>, g: nat)
    requires Tiled(j) && start < |j.blocks| && num <= |j.blocks|
    requires Sending(j, start, num, k, f, offset, b, left, total, out) && total > 0 && Follows(j.files, f, g)
    requires left > Bytes(j.files[f]) - offset
    ensures var n: nat := Bytes(j.files[f]) - offset;
            n <= total && offset + n <= |j.files[f].content|
            && Sending(j, start, num, k, g, 0, b, left - n, total - n, out + j.files[f].content[offset..offset + n])
  {
    var n: nat := Bytes(j.files[f]) - offset;
    ChunkOfRun(j, start, num, k, f, offset, b, left, total, out, n);
    Moves(j, f, offset, b, left, n, g);
    BlockInData(j, b);
    NextFileStarts(j.files, f, g);
    hide SentSoFar, RunSize;
  }

  /** A turn that ends with the block and the file. */
  lemma BothEnd(j: Job, start: nat, num: nat, k: nat, f: nat, offset: nat, b: nat, left: nat, total: int,
                out: seq<Byte>, g: nat)
    requires Tiled(j) && start < |j.blocks| && num <= |j.blocks|
    requires Sending(j, start, num, k, f, offset, b, left, total, out) && total > 0 && Follows(j.files, f, g)
    requires left == Bytes(j.files[f]) - offset
    ensures left <= total && offset + left <= |j.files[f].content|
    ensures var next := NextB(j, b);
            Sending(j, start, num, k + 1, g, 0, next, j.blocks[next].size, total - left,
              out + j.files[f].content[offset..offset + left])
  {
    hide SentSoFar, RunSize, Run, WholeData, Data, Tiled, Follows;
    ChunkOfRun(j, start, num, k, f, offset, b, left, total, out, left);
    Moves(j, f, offset, b, left, left, g);
    BlockInData(j, b);
    BlockInData(j, NextB(j, b));
    NextFileStarts(j.files, f, g);
    RunSizeStep(j, start, k);
  }

  /** A turn that ends with the block but not with the file. */
  lemma BlockEnds(j: Job, start: nat, num: nat, k: nat, f: nat, offset: nat, b: nat, left: nat, total: int,
                  out: seq<Byte>)
    requires Tiled(j) && start < |j.blocks| && num <= |j.blocks|
    requires Sending(j, start, num, k, f, offset, b, left, total, out) && total > 0
    requires left < Bytes(j.files[f]) - offset
    ensures left <= total && offset + left <= |j.files[f].content|
    ensures var next := NextB(j, b);
            Sending(j, start, num, k + 1, f, offset + left, next, j.blocks[next].size, total - left,
                    out + j.files[f].content[offset..offset + left])
  {
    hide SentSoFar, RunSize, Run, WholeData, Data, Tiled, Follows, TiledAt;
    ChunkOfRun(j, start, num, k, f, offset, b, left, total, out, left);
    MovesWithin(j, f, offset, b, left);
    BlockInData(j, b);
    RunSizeStep(j, start, k);
  }

  lemma DoneSending(j: Job, start: nat, num: nat, k: nat, f: nat, offset: nat, b: nat, left: nat, total: int,
                    out: seq<Byte>)
    requires Tiled(j) && start < |j.blocks| && num <= |j.blocks|
    requires Sending(j, start, num, k, f, offset, b, left, total, out) && total <= 0
    ensures out == Run(j, start, num)
  {
    if k < num { RunSizeGrows(j, start, k, num); }
    AllSent(j, start, k, b, out);
  }

  lemma {:induction false} RunPrefix(j: Job, start: nat, k: nat, num: nat)
    requires Tiled(j) && start < |j.blocks| && k <= num <= |j.blocks|
    ensures Run(j, start, k) <= Run(j, start, num)
  {
    if k < num { RunPrefix(j, start, k, num - 1); }
  }

  lemma PrefixOfBlock(done: seq<Byte>, d: seq<Byte>, from: nat, cur: nat, to: nat)
    requires from <= cur < to <= |d|
    ensures done + d[from..cur] < done + d[from..to]
  {
    assert d[from..to] == d[from..cur] + d[cur..to];
  }

  lemma OneBlockMore(j: Job, start: nat, k: nat)
    requires Tiled(j) && start < |j.blocks| && k < |j.blocks|
    ensures var b := BlockAt(j, start, k);
            b < |j.blocks| && BLOCK_SIZE * b + j.blocks[b].size <= |WholeData(j.files)|
            && Run(j, start, k + 1)
               == Run(j, start, k) + WholeData(j.files)[BLOCK_SIZE * b..BLOCK_SIZE * b + j.blocks[b].size]
  {
    BlockInData(j, BlockAt(j, start, k));
  }

  /** What has been sent is the beginning of the run. */
  lemma SoFarIsPrefix(j: Job, start: nat, num: nat, k: nat, b: nat, cur: nat, out: seq<Byte>)
    requires Tiled(j) && start < |j.blocks| && k < num <= |j.blocks|
    requires SentSoFar(j, start, k, b, cur, out) && cur < BLOCK_SIZE * b + j.blocks[b].size
    ensures out < Run(j, start, num)
  {
    hide WholeData, Tiled, BlockAt, Run, TotalSize;
    BlockInData(j, b);
    var from := BLOCK_SIZE * b;
    PrefixOfBlock(Run(j, start, k), WholeData(j.files), from, cur, from + j.blocks[b].size);
    OneBlockMore(j, start, k);
    RunPrefix(j, start, k + 1, num);
  }

  /** Also when a turn breaks off after n bytes of its piece. */
  lemma PartIsPrefix(j: Job, start: nat, num: nat, k: nat, f: nat, offset: nat, b: nat, left: nat, total: int,
                     out: seq<Byte>, n: nat)
    requires Tiled(j) && start < |j.blocks| && num <= |j.blocks|
    requires Sending(j, start, num, k, f, offset, b, left, total, out) && total > 0
    requires n < left && offset + n < Bytes(j.files[f])
    ensures offset + n <= |j.files[f].content| && out + j.files[f].content[offset..offset + n] < Run(j, start, num)
  {
    hide WholeData, FileStart, RunSize, Tiled, Run, TotalSize, Data, SentSoFar;
    MoreToCome(j, start, num, k, f, offset, b, left, total, out);
    var cur := FileStart(j.files, f) + offset;
    if n > 0 {
      ChunkOfRun(j, start, num, k, f, offset, b, left, total, out, n);
    } else {
      assert out + j.files[f].content[offset..offset] == out;
    }
    SoFarIsPrefix(j, start, num, k, b, cur + n, out + j.files[f].content[offset..offset + n]);
  }

  lemma InFile(j: Job, start: nat, num: nat, k: nat, f: nat, offset: nat, b: nat, left: nat, total: int, out: seq<Byte>)
    requires Tiled(j) && start < |j.blocks| && num <= |j.blocks|
    requires Sending(j, start, num, k, f, offset, b, left, total, out)
    ensures f < |j.files| && b < |j.blocks| && left > 0
              && j.files[f].size == Bytes(j.files[f]) == |j.files[f].content| && offset < Bytes(j.files[f])
  {
  }

  /** How one turn of the sending loop goes: its piece of a file is sent whole, the file does not open, or
      the send breaks off after so many bytes. */
  datatype Send = Whole | Unreadable | Broken(after: nat)

  datatype Progress = Ended(ret: int) | SendsOn

  predicate AllWhole(turns: seq<Send>, n: nat)
    requires n <= |turns|
  {
    forall i :: 0 <= i < n ==> turns[i].Whole?
  }

  /** `sendblocks`, with what it puts on the socket and the turns it takes.  Where it would go on after the
      given turns, the result is `SendsOn`. */
  method SendBlocks(j: Job, start: nat, num: int, turns: seq<Send>)
      returns (r: Progress, out: seq<Byte>, used: nat)
    requires Tiled(j) && start < |j.blocks| && num <= |j.blocks|
    ensures used <= |turns| && AllWhole(turns, used) && used <= |out|
    ensures match r
            case SendsOn => used == |turns| && num > 0 && out < Run(j, start, num)
            case Ended(ret) =>
              if ret == 0 then out == if num <= 0 then [] else Run(j, start, num)
              else num > 0 && out < Run(j, start, num) && used < |turns| && !turns[used].Whole?
                   && ret == if turns[used].Broken? then -1 else -2
    ensures AllWhole(turns, |turns|) && (num <= 0 || |turns| >= |Run(j, start, num)|) ==> r == Ended(0)
  {
    hide Sending, Run, Tiled, Follows, FileStart, WholeData, NextB, BlockAt;
    out, used := [], 0;
    if num <= 0 { return Ended(0), out, used; }
    StartsSending(j, start, num);
    var b: nat := start;
    var total: int := BLOCK_SIZE * (num - 1)
                      + if start + num >= |j.blocks| then j.blocks[|j.blocks| - 1].size else BLOCK_SIZE;
    var f: nat := j.blocks[start].start_f;
    var block_left: nat := j.blocks[b].size;
    var offset: nat := j.blocks[start].start_off;
    ghost var k: nat := 0;
    while total > 0
      invariant b < |j.blocks| && f < |j.files| && Sending(j, start, num, k, f, offset, b, block_left, total, out)
      invariant used <= |turns| && AllWhole(turns, used) && used <= |out|
      decreases total
    {
      InFile(j, start, num, k, f, offset, b, block_left, total, out);
      PartIsPrefix(j, start, num, k, f, offset, b, block_left, total, out, 0);
      assert out + j.files[f].content[offset..offset] == out;
      if used == |turns| { return SendsOn, out, used; }
      if turns[used].Unreadable? { return Ended(-2), out, used; }
      var file_left := j.files[f].size - offset;
      if turns[used].Broken? {
        var piece: nat := if block_left < file_left then block_left else file_left;
        var sent: nat := if turns[used].after < piece then turns[used].after else piece - 1;
        PartIsPrefix(j, start, num, k, f, offset, b, block_left, total, out, sent);
        return Ended(-1), out + j.files[f].content[offset..offset + sent], used;
      }
      used := used + 1;
      if block_left > file_left {
        var g := NextF(j.files, f);
        FileEnds(j, start, num, k, f, offset, b, block_left, total, out, g);
        out := out + j.files[f].content[offset..offset + file_left];
        block_left := block_left - file_left;
        total := total - file_left;
        offset := 0;
        f := g;
      } else if block_left == file_left {
        var g := NextF(j.files, f);
        BothEnd(j, start, num, k, f, offset, b, block_left, total, out, g);
        out := out + j.files[f].content[offset..offset + file_left];
        offset := 0;
        total := total - file_left;
        f := g;
        b := NextB(j, b);
        block_left := j.blocks[b].size;
        k := k + 1;
      } else {
        BlockEnds(j, start, num, k, f, offset, b, block_left, total, out);
        out := out + j.files[f].content[offset..offset + block_left];
        b := NextB(j, b);
        total := total - block_left;
        offset := offset + block_left;
        block_left := j.blocks[b].size;
        k := k + 1;
      }
    }
    DoneSending(j, start, num, k, f, offset, b, block_left, total, out);
    r := Ended(0);
  }

  lemma PrefixGrows(d: seq<Byte>, mid: nat, to: nat)
    requires mid <= to <= |d|
    ensures d[..mid] + d[mid..to] == d[..to]
  {
  }

  /** The blocks, all in order, are the contents of the files. */
  lemma {:induction false} AllBlocksAreTheData(j: Job, k: nat)
    requires Tiled(j) && 0 < k <= |j.blocks|
    ensures |WholeData(j.files)| == TotalSize(j.files)
    ensures Run(j, 0, k) == WholeData(j.files)[..if k < |j.blocks| then BLOCK_SIZE * k else TotalSize(j.files)]
  {
    BlockInData(j, k - 1);
    var d := WholeData(j.files);
    if k > 1 {
      AllBlocksAreTheData(j, k - 1);
      BlockInData(j, k - 2);
      PrefixGrows(d, BLOCK_SIZE * (k - 1), BLOCK_SIZE * (k - 1) + j.blocks[k - 1].size);
    } else {
      assert Run(j, 0, 0) == [] && d[..0] == [];
      assert BlockData(j, 0) == d[..j.blocks[0].size];
    }
  }
}
