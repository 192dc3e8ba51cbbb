/** The two LZ4 compressors.  They are the same loop over two hash tables, one of 16-bit positions
    for inputs below LZ4_64KLIMIT and one of pointers, so `small` selects the table. */
module Lz4Compress {
  import opened Bits
  import opened Lz4Format
  import opened Lz4Theory
  import opened Lz4Copy

  const LZ4_64KLIMIT: nat := 65536 + (MFLIMIT - 1)
  const SKIPSTRENGTH_UNIT: nat := 64  // 1 << SKIPSTRENGTH

  // ----- The hash table -----

  /** Positions seen earlier, by hash of the four bytes found there.  A pointer slot that was never
      filled holds -1; a 16-bit slot that was never filled holds position 0. */
  class RefTable {
    const small: bool
    const slots: array<int>

    /** Every slot holds a position below `limit`, and a 16-bit slot can hold all of them. */
    ghost predicate Below(limit: nat)
      reads slots
    {
      slots.Length == TableSize(small) && (small ==> limit <= 65536)
      && forall h :: 0 <= h < slots.Length ==> (if small then 0 else -1) <= slots[h] < limit
    }

    constructor (small: bool)
      ensures this.small == small && fresh(slots)
      ensures Below(1) && forall h :: 0 <= h < slots.Length ==> slots[h] == if small then 0 else -1
    {
      this.small := small;
      slots := new int[TableSize(small)](_ => if small then 0 else -1);
    }

    /** Stores position ip; a 16-bit slot keeps the position modulo 2^16, and loses nothing. */
    method Put(src: seq<Byte>, ip: nat)
      requires ip + 4 <= |src| && (small ==> ip < 65536) && slots.Length == TableSize(small)
      modifies slots
      ensures slots[..] == old(slots[..])[Hash(A32(src, ip), small) := ip]
      ensures forall limit: nat :: ip < limit && (small ==> limit <= 65536) && old(Below(limit)) ==> Below(limit)
    {
      slots[Hash(A32(src, ip), small)] := if small then ip % 65536 else ip;
    }

    /** Looks up an earlier position with the same four bytes as ip, and stores ip in its place. */
    method Swap(src: seq<Byte>, ip: nat) returns (ref: int)
      requires ip + 4 <= |src| && Below(ip) && (small ==> ip < 65535)
      modifies slots
      ensures Below(ip + 1)
      ensures slots[..] == old(slots[..])[Hash(A32(src, ip), small) := ip]
      ensures var seen := old(slots[Hash(A32(src, ip), small)]);
              ref == if 0 <= seen && ip <= seen + MAX_DISTANCE && SameBytes(src, ip, seen, 4) then seen else -1
      ensures ref == -1 || (0 <= ref < ip <= ref + MAX_DISTANCE && SameBytes(src, ip, ref, 4))
    {
      var h := Hash(A32(src, ip), small);
      ref := slots[h];
      slots[h] := if small then ip % 65536 else ip;
      if !small && (ref == -1 || ref < ip - MAX_DISTANCE) {
        ref := -1;
      } else {
        WordsEqual(src, ip, ref);
        if A32(src, ref) != A32(src, ip) { ref := -1; }
      }
    }
  }

  // ----- Searching -----

  /** Where the k-th trial of a search looks: the more trials have failed, the longer the steps. */
  function Trial(start: nat, k: nat): (ip: nat)
    ensures ip >= start + k
  {
    if k == 0 then start else Trial(start, k - 1) + (SKIPSTRENGTH_UNIT + 3 + (k - 1)) / SKIPSTRENGTH_UNIT
  }

  lemma TrialsGrow(start: nat, k: nat)
    ensures k > 1 ==> Trial(start, k - 2) < Trial(start, k - 1)
  {
  }

  /** The slots after the first k trials, each of which stores its position. */
  function Stored(src: seq<Byte>, small: bool, slots: seq<int>, start: nat, k: nat): (after: seq<int>)
    requires |slots| == TableSize(small) && (k > 0 ==> Trial(start, k - 1) + 4 <= |src|)
    ensures |after| == |slots|
    decreases k
  {
    if k == 0 then slots
    else
      TrialsGrow(start, k);
      Stored(src, small, slots, start, k - 1)[Hash(A32(src, Trial(start, k - 1)), small) := Trial(start, k - 1)]
  }

  /** The slots remember a usable match for position ip. */
  ghost predicate Usable(src: seq<Byte>, small: bool, slots: seq<int>, ip: nat) {
    |slots| == TableSize(small) && ip + 4 <= |src|
    && var seen := slots[Hash(A32(src, ip), small)];
       0 <= seen < ip <= seen + MAX_DISTANCE && SameBytes(src, ip, seen, 4)
  }

  /** No search passes by sixty-one positions in a row. */
  lemma {:induction false} TrialsAreDense(start: nat, k: nat)
    requires k <= 61
    ensures Trial(start, k) == start + k
  {
    if k > 0 { TrialsAreDense(start, k - 1); }
  }

  /** After that each step is taken sixty-four times, the first of them being two. */
  lemma {:induction false} TrialInRound(start: nat, m: nat, j: nat)
    requires j <= 64
    ensures Trial(start, 61 + 64 * m + j) == Trial(start, 61 + 64 * m) + (m + 2) * j
  {
    if j > 0 {
      TrialInRound(start, m, j - 1);
      assert (SKIPSTRENGTH_UNIT + 3 + (61 + 64 * m + (j - 1))) / SKIPSTRENGTH_UNIT == m + 2;
    }
  }

  lemma {:induction false} TrialOfRound(start: nat, m: nat)
    ensures Trial(start, 61 + 64 * m) == start + 61 + 32 * m * (m + 3)
  {
    if m == 0 {
      TrialsAreDense(start, 61);
    } else {
      TrialInRound(start, m - 1, 64);
      TrialOfRound(start, m - 1);
      assert 61 + 64 * (m - 1) + 64 == 61 + 64 * m;
    }
  }

  /** The first k trials find nothing. */
  ghost predicate NothingFound(src: seq<Byte>, small: bool, slots: seq<int>, start: nat, k: nat)
    requires |slots| == TableSize(small) && (k > 0 ==> Trial(start, k - 1) + 4 <= |src|)
  {
    k == 0 ||
    (TrialsGrow(start, k);
     NothingFound(src, small, slots, start, k - 1)
     && !Usable(src, small, Stored(src, small, slots, start, k - 1), Trial(start, k - 1)))
  }

  lemma {:induction false} FailedTrial(src: seq<Byte>, small: bool, slots: seq<int>, start: nat, k: nat, j: nat)
    requires |slots| == TableSize(small) && j < k && Trial(start, k - 1) + 4 <= |src|
    requires NothingFound(src, small, slots, start, k)
    ensures Trial(start, j) + 4 <= |src| && (j > 0 ==> Trial(start, j - 1) + 4 <= |src|)
    ensures !Usable(src, small, Stored(src, small, slots, start, j), Trial(start, j))
  {
    TrialsGrow(start, k);
    if j < k - 1 {
      FailedTrial(src, small, slots, start, k - 1, j);
    } else {
      TrialsGrow(start, k);
    }
  }

  lemma NoTrial(src: seq<Byte>, small: bool, slots: seq<int>, start: nat)
    requires |slots| == TableSize(small)
    ensures Trial(start, 0) == start && Stored(src, small, slots, start, 0) == slots
    ensures NothingFound(src, small, slots, start, 0)
  {
  }

  lemma OneTrialMore(src: seq<Byte>, small: bool, slots: seq<int>, start: nat, k: nat)
    requires |slots| == TableSize(small) && Trial(start, k) + 4 <= |src|
    ensures Trial(start, k + 1) == Trial(start, k) + (SKIPSTRENGTH_UNIT + 3 + k) / SKIPSTRENGTH_UNIT
    ensures (k > 0 ==> Trial(start, k - 1) + 4 <= |src|)
    ensures Stored(src, small, slots, start, k + 1)
         == Stored(src, small, slots, start, k)[Hash(A32(src, Trial(start, k)), small) := Trial(start, k)]
    ensures NothingFound(src, small, slots, start, k)
            && !Usable(src, small, Stored(src, small, slots, start, k), Trial(start, k)) ==>
              NothingFound(src, small, slots, start, k + 1)
  {
    TrialsGrow(start, k + 1);
    hide Usable, Hash;
  }

  lemma IsUsable(src: seq<Byte>, small: bool, slots: seq<int>, ip: nat)
    requires |slots| == TableSize(small) && ip + 4 <= |src|
    ensures Usable(src, small, slots, ip) <==>
            var seen := slots[Hash(A32(src, ip), small)];
            0 <= seen < ip <= seen + MAX_DISTANCE && SameBytes(src, ip, seen, 4)
  {
  }

  /** Tries positions further and further apart until one matches or the input runs out: k trials fail, and
      then either the next one succeeds or it would leave no room for the one after it. */
  method FindMatch(src: seq<Byte>, table: RefTable, start: nat) returns (ip: nat, ref: int, ghost k: nat)
    requires MINLENGTH <= |src| && table.Below(start) && start <= |src| - MFLIMIT + 1
    requires table.small ==> |src| < LZ4_64KLIMIT
    modifies table.slots
    ensures ref == -1 || (0 <= ref < ip <= ref + MAX_DISTANCE && start <= ip < |src| - MFLIMIT
                          && SameBytes(src, ip, ref, 4) && table.Below(ip + 1))
    ensures ip == Trial(start, k) && (k > 0 ==> Trial(start, k - 1) + 4 <= |src|)
    ensures NothingFound(src, table.small, old(table.slots[..]), start, k)
    ensures ref == -1 ==> Trial(start, k + 1) > |src| - MFLIMIT
                          && table.slots[..] == Stored(src, table.small, old(table.slots[..]), start, k)
    ensures ref != -1 ==> Trial(start, k + 1) <= |src| - MFLIMIT
                          && Usable(src, table.small, Stored(src, table.small, old(table.slots[..]), start, k), ip)
                          && ref == Stored(src, table.small, old(table.slots[..]), start, k)
                                    [Hash(A32(src, ip), table.small)]
                          && table.slots[..] == Stored(src, table.small, old(table.slots[..]), start, k + 1)
  {
    hide Trial, Stored, Usable, NothingFound, Hash, SameBytes;
    var mflimit := |src| - MFLIMIT;
    var findMatchAttempts := SKIPSTRENGTH_UNIT + 3;
    var forwardIp := start;
    ghost var slots := table.slots[..];
    k := 0;
    NoTrial(src, table.small, slots, start);
    while true
      invariant findMatchAttempts == SKIPSTRENGTH_UNIT + 3 + k && start <= forwardIp <= mflimit + 1
      invariant forwardIp == Trial(start, k) && (k > 0 ==> Trial(start, k - 1) + 4 <= |src|)
      invariant table.Below(forwardIp) && table.slots[..] == Stored(src, table.small, slots, start, k)
      invariant NothingFound(src, table.small, slots, start, k)
      invariant k > 0 ==> forwardIp <= mflimit
      decreases mflimit + 1 - forwardIp
    {
      OneTrialMore(src, table.small, slots, start, k);
      IsUsable(src, table.small, table.slots[..], forwardIp);
      var step := findMatchAttempts / SKIPSTRENGTH_UNIT;
      findMatchAttempts := findMatchAttempts + 1;
      ip := forwardIp;
      forwardIp := ip + step;
      if forwardIp > mflimit {
        return ip, -1, k;
      }
      ref := table.Swap(src, ip);
      if ref != -1 { return; }
      k := k + 1;
    }
  }

  /** Moves a match backwards over the literals in front of it. */
  method CatchUp(src: seq<Byte>, anchor: nat, ip0: nat, ref0: nat) returns (ip: nat, ref: nat)
    requires ref0 < ip0 && anchor <= ip0 && ip0 + 4 <= |src| && SameBytes(src, ip0, ref0, 4)
    ensures anchor <= ip <= ip0 && ref <= ref0 && ip - ref == ip0 - ref0
    ensures Repeats(src, ip, ip0 + 4, ip - ref)
    ensures ip == anchor || ref == 0 || src[ip - 1] != src[ref - 1]
  {
    ip, ref := ip0, ref0;
    while ip > anchor && ref > 0 && src[ip - 1] == src[ref - 1]
      invariant anchor <= ip <= ip0 && ref <= ref0 && ip - ref == ip0 - ref0
      invariant Repeats(src, ip, ip0 + 4, ip0 - ref0)
    {
      ip, ref := ip - 1, ref - 1;
    }
  }

  // ----- Writing -----

  method WriteRun(dest: array<Byte>, op: nat, v: nat) returns (end: nat)
    requires op + |RunBytes(v)| <= dest.Length
    modifies dest
    ensures end <= dest.Length && dest[..end] == old(dest[..op]) + RunBytes(v)
    ensures SameFrom(dest, end)
  {
    var len := v;
    end := op;
    while len > 254
      invariant op <= end && end + |RunBytes(len)| <= dest.Length
      invariant dest[..end] + RunBytes(len) == old(dest[..op]) + RunBytes(v)
      invariant SameFrom(dest, end)
    {
      dest[end] := 255;
      end, len := end + 1, len - 255;
    }
    dest[end] := len;
    end := end + 1;
  }

  /** The same run, written two full bytes at a time as for match lengths. */
  method WriteRunByPairs(dest: array<Byte>, op: nat, v: nat) returns (end: nat)
    requires op + |RunBytes(v)| <= dest.Length
    modifies dest
    ensures end <= dest.Length && dest[..end] == old(dest[..op]) + RunBytes(v)
    ensures SameFrom(dest, end)
  {
    var len := v;
    end := op;
    while len > 509
      invariant op <= end && end + |RunBytes(len)| <= dest.Length
      invariant dest[..end] + RunBytes(len) == old(dest[..op]) + RunBytes(v)
      invariant SameFrom(dest, end)
    {
      assert RunBytes(len) == [255] + ([255] + RunBytes(len - 510));
      dest[end], dest[end + 1] := 255, 255;
      end, len := end + 2, len - 510;
    }
    if len > 254 {
      dest[end] := 255;
      end, len := end + 1, len - 255;
    }
    dest[end] := len;
    end := end + 1;
  }

  /** Writes a token with an empty match code and the length of the literals that follow. */
  method WriteToken(dest: array<Byte>, op: nat, length: nat) returns (end: nat)
    requires op + 1 + |ExtraBytes(length)| <= dest.Length
    modifies dest
    ensures end <= dest.Length
    ensures dest[..end] == old(dest[..op]) + ([16 * Nibble(length)] + ExtraBytes(length))
    ensures SameFrom(dest, end)
  {
    if length >= RUN_MASK {
      dest[op] := 16 * RUN_MASK;
      assert dest[..op + 1] == old(dest[..op]) + [16 * RUN_MASK];
      end := WriteRun(dest, op + 1, length - RUN_MASK);
    } else {
      dest[op] := 16 * length;
      end := op + 1;
    }
  }

  /** Writes literals whose end is followed by at least eight more bytes of input. */
  method WriteLiterals(src: seq<Byte>, anchor: nat, ip: nat, dest: array<Byte>, op: nat) returns (end: nat)
    requires anchor <= ip && ip + COPYLENGTH <= |src|
    requires op + |LiteralBytes(src[anchor..ip], 0)| + COPYLENGTH <= dest.Length
    modifies dest
    ensures end + COPYLENGTH <= dest.Length
    ensures dest[..end] == old(dest[..op]) + LiteralBytes(src[anchor..ip], 0)
    ensures SameFrom(dest, end + COPYLENGTH)
  {
    end := WriteToken(dest, op, ip - anchor);
    WildCopy(src, anchor, dest, end, ip - anchor);
    end := end + (ip - anchor);
  }

  /** Writes the literals that end the block. */
  method WriteLastLiterals(src: seq<Byte>, anchor: nat, dest: array<Byte>, op: nat) returns (end: nat)
    requires anchor <= |src| && op + |LiteralBytes(src[anchor..], 0)| <= dest.Length
    modifies dest
    ensures end <= dest.Length && dest[..end] == old(dest[..op]) + LiteralBytes(src[anchor..], 0)
    ensures SameFrom(dest, end)
  {
    ghost var last := src[anchor..];
    assert LiteralBytes(last, 0) == [16 * Nibble(|last|)] + ExtraBytes(|last|) + last;
    assert src[anchor..anchor + |last|] == last;
    hide LiteralBytes, ExtraBytes, Nibble;
    end := WriteToken(dest, op, |src| - anchor);
    MemCpy(src, anchor, dest, end, |src| - anchor);
    end := end + (|src| - anchor);
  }

  /** Adds a match length to the token and writes what does not fit there. */
  method WriteMatchLength(dest: array<Byte>, token: nat, op: nat, code: nat) returns (end: nat)
    requires token < op && op + |ExtraBytes(code)| <= dest.Length && dest[token] % 16 == 0
    modifies dest
    ensures end <= dest.Length && dest[token] == old(dest[token]) + Nibble(code)
    ensures dest[..end] == old(dest[..op])[token := dest[token]] + ExtraBytes(code)
    ensures SameFrom(dest, end)
  {
    if code >= RUN_MASK {
      dest[token] := dest[token] + RUN_MASK;
      ghost var before := dest[..op];
      end := WriteRunByPairs(dest, op, code - RUN_MASK);
      assert dest[..end][token] == before[token];
    } else {
      dest[token] := dest[token] + code;
      end := op;
    }
  }

  // ----- The main loop -----

  /** No match could have gone on for one more byte without touching the last five. */
  ghost predicate LongestMatches(seqs: Sequences, data: seq<Byte>)
    requires WellFormed(seqs) && EndsEarly(seqs, |data|)
  {
    seqs.Empty? ||
    var end := OutSize(seqs);
    LongestMatches(seqs.front, data)
    && (end + LASTLITERALS == |data| || data[end] != data[end - seqs.newest.offset])
  }

  /** The search behind position a comes across the word of position q again at p, which is early enough for
      a match, and finds q in its slot: q is remembered since it is two before a or not before a, and no
      position in between has taken the slot. */
  ghost predicate Offered(src: seq<Byte>, small: bool, a: nat, q: nat, p: nat) {
    (q + 2 == a || a <= q < p) && a <= p <= a + 61 && (if p == a then p else p + 1) + MFLIMIT <= |src|
    && SameBytes(src, p, q, 4)
    && forall r :: a <= r < p && q < r ==> Hash(A32(src, r), small) != Hash(A32(src, p), small)
  }

  /** The match behind these sequences starts no later than any that the search is offered, `count` literals
      on; no such match is passed by. */
  ghost predicate StartsRight(src: seq<Byte>, small: bool, seqs: Sequences, count: nat) {
    forall q: nat, p: nat :: Offered(src, small, OutSize(seqs), q, p) ==> OutSize(seqs) + count <= p
  }

  /** No sequence passes by a match that is offered. */
  ghost predicate Prompt(src: seq<Byte>, small: bool, seqs: Sequences) {
    seqs.Empty? || (Prompt(src, small, seqs.front) && StartsRight(src, small, seqs.front, |seqs.newest.literals|))
  }

  /** `out` holds the sequences that stand for the first `anchor` bytes of src, and each match among
      them is as long as it could be. */
  ghost predicate Written(src: seq<Byte>, small: bool, out: seq<Byte>, seqs: Sequences, anchor: nat) {
    anchor <= |src| && WellFormed(seqs) && EndsEarly(seqs, |src|) && LongestMatches(seqs, src)
    && Unpack(seqs) == src[..anchor] && out == Serialize(seqs) && Prompt(src, small, seqs)
  }

  lemma {:induction false} CopyMatchIsSource(src: seq<Byte>, start: nat, offset: nat, length: nat)
    requires 1 <= offset <= start && start + length <= |src| && Repeats(src, start, start + length, offset)
    ensures CopyMatch(src[..start], offset, length) == src[..start + length]
  {
    if length > 0 { CopyMatchIsSource(src, start, offset, length - 1); }
  }

  lemma UnpackOneMore(src: seq<Byte>, seqs: Sequences, s: Sequence, anchor: nat, end: nat)
    requires anchor <= end <= |src| && WellFormed(Then(seqs, s)) && Unpack(seqs) == src[..anchor]
    requires var ip := anchor + |s.literals|;
             ip <= end && s.literals == src[anchor..ip] && s.matchLength == end - ip && Repeats(src, ip, end, s.offset)
    ensures Unpack(Then(seqs, s)) == src[..end]
  {
    hide CopyMatch, Repeats;
    var ip := anchor + |s.literals|;
    assert Unpack(seqs) + s.literals == src[..ip];
    CopyMatchIsSource(src, ip, s.offset, end - ip);
  }

  /** Appending a match that the source really contains keeps the record of what was written. */
  lemma WrittenOneMore(src: seq<Byte>, small: bool, out: seq<Byte>, seqs: Sequences, anchor: nat, ip: nat,
                       offset: nat, end: nat)
    requires Written(src, small, out, seqs, anchor) && anchor <= ip && ip + MFLIMIT <= |src|
    requires 1 <= offset <= ip && offset <= MAX_DISTANCE && ip + MINMATCH <= end <= |src| - LASTLITERALS
    requires Repeats(src, ip, end, offset)
    requires end == |src| - LASTLITERALS || src[end] != src[end - offset]
    requires StartsRight(src, small, seqs, ip - anchor)
    ensures var s := Sequence(src[anchor..ip], offset, end - ip);
            Written(src, small, out + SequenceBytes(s), Then(seqs, s), end)
            && |out| + |SequenceBytes(s)| + StoredSize(|src| - end) <= StoredSize(|src|)
  {
    hide SequenceBytes, StoredSize, CopyMatch, Repeats, Unpack;
    var s := Sequence(src[anchor..ip], offset, end - ip);
    var more := Then(seqs, s);
    assert OutSize(seqs) == anchor && OutSize(more) == end;
    assert WellFormed(more) && EndsEarly(more, |src|);
    assert LongestMatches(more, src);
    assert Serialize(more) == out + SequenceBytes(s);
    UnpackOneMore(src, seqs, s, anchor, end);
    PrefixNeverExpands(more, |src| - end);
  }

  lemma SpliceToken(out: seq<Byte>, t: Byte, u: Byte, rest: seq<Byte>, pair: seq<Byte>, extra: seq<Byte>)
    ensures (out + ([t] + rest) + pair)[|out| := u] + extra == out + (([u] + rest) + (pair + extra))
  {
    var written := out + ([t] + rest) + pair;
    assert written[|out| := u] == out + [u] + rest + pair;
  }

  lemma SequenceBytesAreWritten(out: seq<Byte>, s: Sequence, written: seq<Byte>)
    requires s.matchLength >= MINMATCH && s.offset <= MAX_DISTANCE
    requires written == out + LiteralBytes(s.literals, 0) + [s.offset % 256, s.offset / 256]
    ensures var code := s.matchLength - MINMATCH;
            written[|out|] % 16 == 0
            && written[|out| := written[|out|] + Nibble(code)] + ExtraBytes(code) == out + SequenceBytes(s)
  {
    var code := s.matchLength - MINMATCH;
    var token := 16 * Nibble(|s.literals|);
    assert token % 16 == 0;
    hide Nibble, ExtraBytes;
    var rest := ExtraBytes(|s.literals|) + s.literals;
    assert LiteralBytes(s.literals, 0) == [token] + rest;
    assert LiteralBytes(s.literals, Nibble(code)) == [token + Nibble(code)] + rest;
    SpliceToken(out, token, token + Nibble(code), rest, [s.offset % 256, s.offset / 256], ExtraBytes(code));
  }

  lemma SequenceLength(s: Sequence)
    requires s.matchLength >= MINMATCH && s.offset <= MAX_DISTANCE
    ensures |SequenceBytes(s)| == |LiteralBytes(s.literals, 0)| + 2 + |ExtraBytes(s.matchLength - MINMATCH)|
  {
  }

  /** Writes the offset, counts the match, and writes its length into the token and after. */
  method EncodeMatch(src: seq<Byte>, ghost small: bool, dest: array<Byte>, anchor: nat, token: nat, op: nat,
                     ip: nat, ref: nat, ghost seqs: Sequences)
      returns (end: nat, newOp: nat, ghost newSeqs: Sequences)
    requires dest.Length >= StoredSize(|src|) && token <= op <= dest.Length
    requires Written(src, small, dest[..token], seqs, anchor) && anchor <= ip && ip + MFLIMIT <= |src|
    requires dest[..op] == dest[..token] + LiteralBytes(src[anchor..ip], 0)
    requires ref < ip <= ref + MAX_DISTANCE && Repeats(src, ip, ip + MINMATCH, ip - ref)
    requires StartsRight(src, small, seqs, ip - anchor)
    modifies dest
    ensures ip + MINMATCH <= end <= |src| - LASTLITERALS && op + 2 <= newOp <= dest.Length
    ensures Written(src, small, dest[..newOp], newSeqs, end) && newSeqs.Then?
    ensures Repeats(src, ip, end, ip - ref)
    ensures end == |src| - LASTLITERALS || src[end] != src[end - (ip - ref)]
    ensures SameFrom(dest, newOp)
  {
    hide Written, LiteralBytes, SequenceBytes, ExtraBytes, StoredSize, StartsRight;
    end := CountMatch(src, ref + MINMATCH, ip + MINMATCH);
    ghost var out := dest[..token];
    ghost var s := Sequence(src[anchor..ip], ip - ref, end - ip);
    newSeqs := Then(seqs, s);
    WrittenOneMore(src, small, out, seqs, anchor, ip, ip - ref, end);
    SequenceLength(s);
    var offset := ip - ref;
    dest[op], dest[op + 1] := offset % 256, offset / 256;
    SequenceBytesAreWritten(out, s, dest[..op + 2]);
    newOp := WriteMatchLength(dest, token, op + 2, end - ip - MINMATCH);
  }

  /** Where the copied literals may spill: up to eight bytes past the literals, six past the offset. */
  const SPILL: nat := COPYLENGTH - 2

  lemma WrittenSize(src: seq<Byte>, small: bool, out: seq<Byte>, seqs: Sequences, anchor: nat)
    requires Written(src, small, out, seqs, anchor)
    ensures OutSize(seqs) == anchor
  {
  }

  lemma RoomForLiterals(src: seq<Byte>, small: bool, out: seq<Byte>, seqs: Sequences, anchor: nat, ip: nat)
    requires Written(src, small, out, seqs, anchor) && anchor <= ip && ip + MFLIMIT <= |src|
    ensures |out| + |LiteralBytes(src[anchor..ip], 0)| + COPYLENGTH <= StoredSize(|src|)
  {
    hide Prompt, LongestMatches, LiteralBytes;
    PrefixNeverExpands(seqs, |src| - anchor);
    StoredBytesCount(src[anchor..ip]);
  }

  lemma RoomForLast(src: seq<Byte>, small: bool, out: seq<Byte>, seqs: Sequences, anchor: nat)
    requires Written(src, small, out, seqs, anchor)
    ensures |out| + |LiteralBytes(src[anchor..], 0)| <= StoredSize(|src|)
    ensures !seqs.Empty? ==> |LiteralBytes(src[anchor..], 0)| >= SPILL
  {
    hide Prompt, LongestMatches, LiteralBytes;
    PrefixNeverExpands(seqs, |src| - anchor);
    StoredBytesCount(src[anchor..]);
  }

  lemma NoLiterals(src: seq<Byte>, anchor: nat)
    requires anchor <= |src|
    ensures LiteralBytes(src[anchor..anchor], 0) == [0]
  {
  }

  lemma NoLiteralsAreRight(src: seq<Byte>, small: bool, seqs: Sequences)
    ensures StartsRight(src, small, seqs, 0)
  {
  }

  lemma FewerAreRight(src: seq<Byte>, small: bool, seqs: Sequences, count: int, fewer: nat)
    requires fewer <= count && StartsRight(src, small, seqs, count)
    ensures StartsRight(src, small, seqs, fewer)
  {
  }

  /** A match is offered right at position a. */
  ghost predicate GoesOn(src: seq<Byte>, small: bool, a: nat) {
    2 <= a && Offered(src, small, a, a - 2, a)
  }

  /** The slots hold position a, and the one two before unless a has taken its slot. */
  ghost predicate Remembered(src: seq<Byte>, small: bool, slots: seq<int>, a: nat) {
    |slots| == TableSize(small) && a + 4 <= |src| && slots[Hash(A32(src, a), small)] == a
    && (2 <= a && Hash(A32(src, a - 2), small) != Hash(A32(src, a), small) ==>
          slots[Hash(A32(src, a - 2), small)] == a - 2)
  }

  lemma BothRemembered(src: seq<Byte>, small: bool, slots: seq<int>, a: nat)
    requires |slots| == TableSize(small) && 2 <= a && a + 4 <= |src|
    ensures Remembered(src, small, slots[Hash(A32(src, a - 2), small) := a - 2][Hash(A32(src, a), small) := a], a)
  {
    hide Hash, A32;
  }

  /** With position a - 2 in its slot, a match offered at a is found at once. */
  lemma FoundAtOnce(src: seq<Byte>, small: bool, a: nat)
    requires 2 <= a && a + 4 <= |src|
    ensures GoesOn(src, small, a) ==>
              SameBytes(src, a, a - 2, 4) && Hash(A32(src, a), small) == Hash(A32(src, a - 2), small)
  {
    if GoesOn(src, small, a) { WordsEqual(src, a, a - 2); }
  }

  lemma TooLate(src: seq<Byte>, small: bool, a: nat)
    requires a + MFLIMIT > |src|
    ensures !GoesOn(src, small, a)
  {
  }

  /** The first k trials behind a leave q in its slot unless one of them takes it. */
  lemma {:induction false} StoredKeeps(src: seq<Byte>, small: bool, slots: seq<int>, a: nat, k: nat, q: nat)
    requires Remembered(src, small, slots, a) && k <= 61 && a + k + 4 <= |src| && (q + 2 == a || a <= q <= a + k)
    requires k > 0 ==> Trial(a + 1, k - 1) + 4 <= |src|
    requires forall r :: a <= r <= a + k && q < r ==> Hash(A32(src, r), small) != Hash(A32(src, q), small)
    ensures Stored(src, small, slots, a + 1, k)[Hash(A32(src, q), small)] == q
  {
    hide Hash, A32;
    if k > 0 {
      TrialsGrow(a + 1, k);
      TrialsAreDense(a + 1, k - 1);
      if q < a + k { StoredKeeps(src, small, slots, a, k - 1, q); }
    }
  }

  /** A search that found nothing in k trials was offered nothing at their positions. */
  lemma OfferedIsFound(src: seq<Byte>, small: bool, slots: seq<int>, a: nat, k: nat, q: nat, p: nat)
    requires Remembered(src, small, slots, a) && (k > 0 ==> Trial(a + 1, k - 1) + 4 <= |src|)
    requires NothingFound(src, small, slots, a + 1, k) && a < p && Offered(src, small, a, q, p)
    ensures p >= Trial(a + 1, k) && (Trial(a + 1, k + 1) + MFLIMIT <= |src|)
  {
    hide NothingFound, Stored, Hash, A32;
    var j := p - a - 1;
    TrialsAreDense(a + 1, j);
    if j < k {
      FailedTrial(src, small, slots, a + 1, k, j);
      WordsEqual(src, p, q);
      StoredKeeps(src, small, slots, a, j, q);
    } else {
      TrialsAreDense(a + 1, k);
      TrialsAreDense(a + 1, k + 1);
    }
  }

  lemma NeverAtA(src: seq<Byte>, small: bool, a: nat, q: nat, p: nat)
    requires Offered(src, small, a, q, p) && !GoesOn(src, small, a)
    ensures a < p
  {
  }

  lemma SearchIsRight(src: seq<Byte>, small: bool, slots: seq<int>, seqs: Sequences, a: nat, k: nat)
    requires Remembered(src, small, slots, a) && (k > 0 ==> Trial(a + 1, k - 1) + 4 <= |src|)
    requires NothingFound(src, small, slots, a + 1, k) && !GoesOn(src, small, a)
    requires OutSize(seqs) == a <= |src|
    ensures StartsRight(src, small, seqs, Trial(a + 1, k) - a)
    ensures Trial(a + 1, k + 1) > |src| - MFLIMIT ==> StartsRight(src, small, seqs, |src| - a)
  {
    hide NothingFound, Remembered, Trial;
    forall q: nat, p: nat | Offered(src, small, a, q, p)
      ensures p >= Trial(a + 1, k) && Trial(a + 1, k + 1) + MFLIMIT <= |src|
    {
      NeverAtA(src, small, a, q, p);
      OfferedIsFound(src, small, slots, a, k, q, p);
    }
  }

  /** Stores the position two before the end of a match, and looks up and stores the end. */
  method TestNext(src: seq<Byte>, table: RefTable, a: nat) returns (ref: int)
    requires 2 <= a && a + MFLIMIT <= |src| && table.Below(a - 1) && (table.small ==> |src| < LZ4_64KLIMIT)
    modifies table.slots
    ensures table.Below(a + 1) && Remembered(src, table.small, table.slots[..], a)
    ensures ref == -1 || (0 <= ref < a <= ref + MAX_DISTANCE && SameBytes(src, a, ref, 4))
    ensures ref == -1 ==> !GoesOn(src, table.small, a)
  {
    hide Hash, A32, Remembered, GoesOn, SameBytes;
    FoundAtOnce(src, table.small, a);
    BothRemembered(src, table.small, table.slots[..], a);
    table.Put(src, a - 2);
    assert table.Below(a);
    ref := table.Swap(src, a);
  }

  /** Encodes a match and every further match that starts right where the last one ends.  The table
      holds nothing at or beyond the position whose four bytes were found first, `reach - 4`. */
  method EncodeMatches(src: seq<Byte>, dest: array<Byte>, table: RefTable, anchor0: nat, token0: nat, op0: nat,
                       ip0: nat, ref0: nat, ghost reach0: nat, ghost seqs0: Sequences)
      returns (anchor: nat, op: nat, ghost seqs: Sequences)
    requires dest.Length >= StoredSize(|src|) && token0 <= op0 <= dest.Length
    requires table.small ==> |src| < LZ4_64KLIMIT
    requires Written(src, table.small, dest[..token0], seqs0, anchor0) && anchor0 <= ip0 && ip0 + MFLIMIT <= |src|
    requires dest[..op0] == dest[..token0] + LiteralBytes(src[anchor0..ip0], 0)
    requires ref0 < ip0 <= ref0 + MAX_DISTANCE && ip0 + MINMATCH <= reach0 <= |src| - COPYLENGTH
    requires Repeats(src, ip0, reach0, ip0 - ref0) && table.Below(reach0 - 3)
    requires StartsRight(src, table.small, seqs0, ip0 - anchor0)
    modifies dest, table.slots
    ensures op0 < op <= dest.Length && seqs.Then? && Written(src, table.small, dest[..op], seqs, anchor)
    ensures anchor0 < anchor <= |src| && (anchor + MFLIMIT <= |src| ==> table.Below(anchor + 1))
    ensures anchor + MFLIMIT <= |src| ==> Remembered(src, table.small, table.slots[..], anchor)
    ensures !GoesOn(src, table.small, anchor)
    ensures SameFrom(dest, op) && op0 + 2 <= op
  {
    hide Written, LiteralBytes, StoredSize, StartsRight, Remembered, GoesOn, Hash, A32;
    var token: nat, ip: nat, ref: nat := token0, ip0, ref0;
    anchor, op, seqs := anchor0, op0, seqs0;
    ghost var reach := reach0;
    while true
      invariant anchor0 <= anchor && op0 <= op && token <= op <= dest.Length
      invariant Written(src, table.small, dest[..token], seqs, anchor) && anchor <= ip && ip + MFLIMIT <= |src|
      invariant dest[..op] == dest[..token] + LiteralBytes(src[anchor..ip], 0)
      invariant ref < ip <= ref + MAX_DISTANCE && ip + MINMATCH <= reach <= |src| - COPYLENGTH
      invariant Repeats(src, ip, reach, ip - ref) && table.Below(reach - 3)
      invariant SameFrom(dest, op) && StartsRight(src, table.small, seqs, ip - anchor)
      decreases |src| - ip
    {
      var end;
      end, op, seqs := EncodeMatch(src, table.small, dest, anchor, token, op, ip, ref, seqs);
      assert end >= reach;
      anchor := end;
      if anchor > |src| - MFLIMIT {
        TooLate(src, table.small, anchor);
        return;
      }
      var next := TestNext(src, table, anchor);
      if next == -1 { return; }
      NoLiteralsAreRight(src, table.small, seqs);
      RoomForLiterals(src, table.small, dest[..op], seqs, anchor, anchor);
      NoLiterals(src, anchor);
      token, dest[op] := op, 0;
      op := op + 1;
      ip, ref, reach := anchor, next, anchor + MINMATCH;
    }
  }

  /** Encodes a match that was found, with the literals in front of it, and the matches that follow on it. */
  method EncodeFound(src: seq<Byte>, dest: array<Byte>, table: RefTable, anchor0: nat, op0: nat,
                     ip0: nat, ref0: nat, ghost seqs0: Sequences)
      returns (anchor: nat, op: nat, ghost seqs: Sequences)
    requires dest.Length >= StoredSize(|src|) && op0 <= dest.Length && (table.small ==> |src| < LZ4_64KLIMIT)
    requires Written(src, table.small, dest[..op0], seqs0, anchor0) && anchor0 <= ip0 && ip0 + MFLIMIT < |src|
    requires ref0 < ip0 <= ref0 + MAX_DISTANCE && SameBytes(src, ip0, ref0, 4) && table.Below(ip0 + 1)
    requires StartsRight(src, table.small, seqs0, ip0 - anchor0)
    modifies dest, table.slots
    ensures op0 < op <= dest.Length && seqs.Then? && Written(src, table.small, dest[..op], seqs, anchor)
    ensures anchor0 < anchor <= |src| && (anchor + MFLIMIT <= |src| ==> table.Below(anchor + 1))
    ensures anchor + MFLIMIT <= |src| ==> Remembered(src, table.small, table.slots[..], anchor)
    ensures !GoesOn(src, table.small, anchor)
    ensures SameFrom(dest, op + SPILL)
  {
    hide Written, LiteralBytes, StoredSize, StartsRight, Remembered, GoesOn;
    var ip, ref := CatchUp(src, anchor0, ip0, ref0);
    WrittenSize(src, table.small, dest[..op0], seqs0, anchor0);
    RoomForLiterals(src, table.small, dest[..op0], seqs0, anchor0, ip);
    ghost var out := dest[..op0];
    op := WriteLiterals(src, anchor0, ip, dest, op0);
    assert dest[..op0] == out;
    FewerAreRight(src, table.small, seqs0, ip0 - anchor0, ip - anchor0);
    anchor, op, seqs := EncodeMatches(src, dest, table, anchor0, op0, op, ip, ref, ip0 + MINMATCH, seqs0);
  }

  lemma NothingWritten(src: seq<Byte>, small: bool)
    ensures Written(src, small, [], Empty, 0)
  {
  }

  lemma BlockWritten(src: seq<Byte>, small: bool, out: seq<Byte>, seqs: Sequences, anchor: nat)
    requires Written(src, small, out, seqs, anchor)
    ensures IsBlockOf(seqs, src[anchor..], src) && LongestMatches(seqs, src)
    ensures BlockBytes(seqs, src[anchor..]) == out + LiteralBytes(src[anchor..], 0)
  {
    assert src[..anchor] + src[anchor..] == src;
  }

  lemma WrittenIsPrompt(src: seq<Byte>, small: bool, out: seq<Byte>, seqs: Sequences, anchor: nat)
    requires Written(src, small, out, seqs, anchor)
    ensures Prompt(src, small, seqs)
  {
  }

  lemma NothingAtTheEnd(src: seq<Byte>, small: bool, seqs: Sequences)
    requires OutSize(seqs) <= |src| < OutSize(seqs) + MFLIMIT
    ensures StartsRight(src, small, seqs, |src| - OutSize(seqs))
  {
  }

  lemma NothingInShort(src: seq<Byte>, small: bool)
    requires |src| < MINLENGTH
    ensures StartsRight(src, small, Empty, |src|)
  {
  }

  /** One round of the main loop: a search from the position behind `anchor0` on, and what it finds. */
  method EncodeNext(src: seq<Byte>, dest: array<Byte>, table: RefTable, anchor0: nat, op0: nat, start: nat,
                    ghost seqs0: Sequences)
      returns (found: bool, anchor: nat, op: nat, ghost seqs: Sequences)
    requires dest.Length >= StoredSize(|src|) && op0 <= dest.Length && (table.small ==> |src| < LZ4_64KLIMIT)
    requires Written(src, table.small, dest[..op0], seqs0, anchor0) && start == anchor0 + 1
    requires MINLENGTH <= |src| && anchor0 + MFLIMIT <= |src| && table.Below(start)
    requires Remembered(src, table.small, table.slots[..], anchor0) && !GoesOn(src, table.small, anchor0)
    modifies dest, table.slots
    ensures !found ==> anchor == anchor0 && op == op0 && seqs == seqs0 && SameFrom(dest, 0)
                       && Written(src, table.small, dest[..op], seqs, anchor)
                       && StartsRight(src, table.small, seqs, |src| - anchor)
    ensures found ==> op0 < op <= dest.Length && seqs.Then? && Written(src, table.small, dest[..op], seqs, anchor)
                      && anchor0 < anchor <= |src| && SameFrom(dest, op + SPILL) && !GoesOn(src, table.small, anchor)
    ensures found && anchor + MFLIMIT <= |src| ==>
              table.Below(anchor + 1) && Remembered(src, table.small, table.slots[..], anchor)
  {
    hide Written, StoredSize, Stored, Trial, NothingFound, Usable, Remembered, GoesOn, StartsRight, Hash, A32;
    WrittenSize(src, table.small, dest[..op0], seqs0, anchor0);
    ghost var slots := table.slots[..];
    ghost var k;
    var ip, ref;
    ip, ref, k := FindMatch(src, table, start);
    SearchIsRight(src, table.small, slots, seqs0, anchor0, k);
    found := ref != -1;
    if found {
      anchor, op, seqs := EncodeFound(src, dest, table, anchor0, op0, ip, ref, seqs0);
    } else {
      anchor, op, seqs := anchor0, op0, seqs0;
      assert dest[..op] == old(dest[..op0]);
    }
  }

  lemma FirstIsRemembered(src: seq<Byte>, small: bool, slots: seq<int>)
    requires |slots| == TableSize(small) && 4 <= |src| && slots[Hash(A32(src, 0), small)] == 0
    ensures Remembered(src, small, slots, 0) && !GoesOn(src, small, 0)
  {
  }

  /** `LZ4_compress64kCtx` when small, `LZ4_compressCtx` otherwise. */
  method CompressCtx(small: bool, src: seq<Byte>, dest: array<Byte>)
      returns (n: nat, ghost seqs: Sequences, ghost last: seq<Byte>)
    requires dest.Length >= StoredSize(|src|) && (small ==> |src| < LZ4_64KLIMIT)
    modifies dest
    ensures IsBlockOf(seqs, last, src) && LongestMatches(seqs, src)
    ensures n <= StoredSize(|src|) && dest[..n] == BlockBytes(seqs, last)
    ensures Prompt(src, small, seqs) && StartsRight(src, small, seqs, |last|)
    ensures SameFrom(dest, n)
  {
    hide Written, LiteralBytes, StoredSize, IsBlockOf, BlockBytes, LongestMatches, Serialize, Usable, Stored, Trial,
         NothingFound, Remembered, GoesOn, Prompt, StartsRight, Hash, A32;
    var anchor: nat, op: nat := 0, 0;
    seqs := Empty;
    NothingWritten(src, small);
    if |src| < MINLENGTH {
      NothingInShort(src, small);
    } else {
      var table := new RefTable(small);
      if !small { table.Put(src, 0); }
      FirstIsRemembered(src, small, table.slots[..]);
      var ip: nat := 1;
      while true
        invariant op <= dest.Length && anchor + MFLIMIT <= |src| && ip == anchor + 1
        invariant Written(src, small, dest[..op], seqs, anchor) && table.Below(ip) && fresh(table.slots)
        invariant table.small == small
        invariant SameFrom(dest, op + SPILL) && (seqs.Empty? ==> SameFrom(dest, 0))
        invariant Remembered(src, small, table.slots[..], anchor) && !GoesOn(src, small, anchor)
        decreases |src| - anchor
      {
        var found;
        found, anchor, op, seqs := EncodeNext(src, dest, table, anchor, op, ip, seqs);
        if !found { break; }
        if anchor > |src| - MFLIMIT {
          WrittenSize(src, small, dest[..op], seqs, anchor);
          NothingAtTheEnd(src, small, seqs);
          break;
        }
        ip := anchor + 1;
      }
    }
    WrittenIsPrompt(src, small, dest[..op], seqs, anchor);
    RoomForLast(src, small, dest[..op], seqs, anchor);
    BlockWritten(src, small, dest[..op], seqs, anchor);
    last := src[anchor..];
    n := WriteLastLiterals(src, anchor, dest, op);
  }

  method Compress(src: seq<Byte>, dest: array<Byte>)
      returns (n: nat, ghost seqs: Sequences, ghost last: seq<Byte>)
    requires dest.Length >= StoredSize(|src|)
    modifies dest
    ensures IsBlockOf(seqs, last, src) && LongestMatches(seqs, src)
    ensures n <= StoredSize(|src|) && dest[..n] == BlockBytes(seqs, last)
    ensures Prompt(src, |src| < LZ4_64KLIMIT, seqs) && StartsRight(src, |src| < LZ4_64KLIMIT, seqs, |last|)
    ensures SameFrom(dest, n)
  {
    n, seqs, last := CompressCtx(|src| < LZ4_64KLIMIT, src, dest);
  }
}
