/** The two LZ4 decoders, on arbitrary input.  They are one loop with two different ways to end, so
    `mode` says which one runs.  Matches are copied eight bytes at a time, possibly overlapping. */
module Lz4Uncompress {
  import opened Bits
  import opened Lz4Format
  import opened Lz4Theory
  import opened Lz4Copy
  import opened Lz4Lengths

  // ----- Copying a match -----

  /** dest starts with `base`, and up to `end` its bytes repeat the last `offset` bytes of base.  An
      offset of zero, which no encoder writes, promises nothing about the bytes. */
  ghost predicate Repeating(dest: array<Byte>, base: seq<Byte>, offset: nat, end: nat)
    reads dest
  {
    |base| <= end <= dest.Length && offset <= |base| && dest[..|base|] == base
    && (offset >= 1 ==>
          forall i :: |base| - offset <= i < end ==> dest[i] == Periodic(base, |base|, offset, i))
  }

  /** Copies `width` bytes within dest with one wide read and one wide write. */
  method CopyChunk(dest: array<Byte>, op: nat, ref: nat, width: nat,
                   ghost base: seq<Byte>, ghost offset: nat, ghost times: nat)
    requires ref <= op && op + width <= dest.Length
    requires Repeating(dest, base, offset, op)
    requires offset >= 1 ==> op - ref == times * offset && width <= op - ref && |base| - offset <= ref
    modifies dest
    ensures Repeating(dest, base, offset, op + width)
    ensures SameFrom(dest, op + width) && (ref == op ==> SameFrom(dest, 0))
  {
    hide Periodic;
    forall k | op <= k < op + width {
      dest[k] := dest[k - op + ref];
    }
    assert dest[..|base|] == old(dest[..|base|]);
    if offset >= 1 {
      forall i | op <= i < op + width ensures dest[i] == Periodic(base, |base|, offset, i) {
        PeriodicShift(base, |base|, offset, i, times);
        assert i - times * offset == i - op + ref;
      }
    }
  }

  /** Bytes that `LZ4_WILDCOPY` copies from op on to reach e. */
  function WildSpan(op: nat, e: int): nat { WildLength(if e > op then e - op else 0) }

  /** `LZ4_WILDCOPY` within dest, from `op - ref` bytes back. */
  method WildCopyBack(dest: array<Byte>, op0: nat, ref0: nat, e: int,
                      ghost base: seq<Byte>, ghost offset: nat, ghost times: nat) returns (op: nat, ref: nat)
    requires ref0 <= op0 && op0 + WildSpan(op0, e) <= dest.Length
    requires Repeating(dest, base, offset, op0)
    requires offset >= 1 ==> op0 - ref0 == times * offset >= COPYLENGTH && |base| - offset <= ref0
    modifies dest
    ensures op == op0 + WildSpan(op0, e) && op - ref == op0 - ref0
    ensures Repeating(dest, base, offset, op)
    ensures SameFrom(dest, op) && (ref0 == op0 ==> SameFrom(dest, 0))
  {
    hide WildLength;
    op, ref := op0, ref0;
    while true
      invariant op0 <= op && op - ref == op0 - ref0 && (op == op0 || op < e) && (op - op0) % COPYLENGTH == 0
      invariant Repeating(dest, base, offset, op)
      invariant SameFrom(dest, op) && (ref0 == op0 ==> SameFrom(dest, 0))
      decreases e - op
    {
      StepFits(op - op0, if e > op0 then e - op0 else 0);
      CopyChunk(dest, op, ref, COPYLENGTH, base, offset, times);
      op, ref := op + COPYLENGTH, ref + COPYLENGTH;
      if op >= e { return; }
    }
  }

  const DEC: seq<nat> := [0, 3, 2, 3, 0, 0, 0, 0]
  const DEC2TABLE: seq<nat> := [0, 4, 4, 3, 4, 5, 6, 7]

  /** The distance used after the first four bytes, and after the first eight, in offsets. */
  function Times4(offset: nat): nat { if offset == 1 then 4 else if offset <= 3 then 2 else 1 }
  function Times8(offset: nat): nat {
    if offset == 1 then 8 else if offset == 2 then 4 else if offset == 3 then 3 else if offset < 8 then 2 else 1
  }

  /** The tables stretch a short distance to a multiple of itself that is at least 4, then 8, without
      reaching back further than the original distance did. */
  lemma DistancesAreMultiples(offset: nat)
    requires 1 <= offset < COPYLENGTH
    ensures offset + DEC[offset] == Times4(offset) * offset >= 4 && DEC[offset] <= 4
    ensures offset + DEC[offset] + DEC2TABLE[offset] == Times8(offset) * offset >= COPYLENGTH
    ensures DEC[offset] + DEC2TABLE[offset] <= COPYLENGTH
  {
    assert offset in {1, 2, 3, 4, 5, 6, 7};
  }

  /** Copies the first eight bytes of a match; returns where to go on and from where. */
  method CopyFirstEight(dest: array<Byte>, op0: nat, offset: nat) returns (op: nat, ref: nat)
    requires offset <= op0 && op0 + COPYLENGTH <= dest.Length
    modifies dest
    ensures op == op0 + COPYLENGTH && ref <= op
    ensures Repeating(dest, old(dest[..op0]), offset, op)
    ensures offset >= 1 ==> op - ref == Times8(offset) * offset >= COPYLENGTH && op0 - offset <= ref
    ensures SameFrom(dest, op) && (offset == 0 ==> ref == op && SameFrom(dest, 0))
  {
    ghost var base := dest[..op0];
    op, ref := op0, op0 - offset;
    assert Repeating(dest, base, offset, op) by {
      forall i | op0 - offset <= i < op0 ensures offset >= 1 ==> dest[i] == Periodic(base, op0, offset, i) {
        PeriodicSource(base, op0, offset, i);
      }
    }
    if offset < COPYLENGTH {
      var dec2 := DEC2TABLE[offset];
      CopyChunk(dest, op, ref, 1, base, offset, 1);
      CopyChunk(dest, op + 1, ref + 1, 1, base, offset, 1);
      CopyChunk(dest, op + 2, ref + 2, 1, base, offset, 1);
      CopyChunk(dest, op + 3, ref + 3, 1, base, offset, 1);
      if offset >= 1 { DistancesAreMultiples(offset); }
      op, ref := op + 4, ref + 4 - DEC[offset];
      CopyChunk(dest, op, ref, 4, base, offset, Times4(offset));
      op, ref := op + 4, ref + 4 - dec2;
    } else {
      CopyChunk(dest, op, ref, COPYLENGTH, base, offset, 1);
      op, ref := op + COPYLENGTH, ref + COPYLENGTH;
    }
  }

  /** Where the copy of a match of `length` bytes stops writing, when it starts at op0.  Even a negative
      length makes it write. */
  function MatchReach(op0: nat, length: int, oend: nat): (reach: nat)
    requires op0 + length <= oend && op0 + COPYLENGTH <= oend
    ensures reach >= op0 + length && reach >= op0 + 2 * COPYLENGTH
  {
    var e := if op0 + length > oend - COPYLENGTH then oend - COPYLENGTH else op0 + length;
    var reach := op0 + COPYLENGTH + WildSpan(op0 + COPYLENGTH, e);
    if reach < op0 + length then op0 + length else reach
  }

  /** A copy writes at or beyond the end exactly when it starts fewer than sixteen bytes before it, and
      then it writes sixteen bytes. */
  lemma ReachIsExact(op0: nat, length: int, oend: nat)
    requires op0 + length <= oend && op0 + COPYLENGTH <= oend
    ensures length <= COPYLENGTH ==> MatchReach(op0, length, oend) == op0 + 2 * COPYLENGTH
    ensures MatchReach(op0, length, oend) > oend <==> op0 + 2 * COPYLENGTH > oend
    ensures MatchReach(op0, length, oend) > oend ==> MatchReach(op0, length, oend) == op0 + 2 * COPYLENGTH
  {
  }

  lemma RepeatingIsCopy(dest: array<Byte>, base: seq<Byte>, offset: nat, cpy: nat, op: nat)
    requires Repeating(dest, base, offset, op) && 1 <= offset && |base| <= cpy <= op
    ensures dest[..cpy] == CopyMatch(base, offset, cpy - |base|)
  {
    hide Periodic;
    forall i | 0 <= i < cpy ensures dest[i] == CopyMatch(base, offset, cpy - |base|)[i] {
      if i < |base| { assert base[i] == CopyMatch(base, offset, cpy - |base|)[i]; }
      else { CopyMatchIsPeriodic(base, offset, cpy - |base|, i); }
    }
  }

  /** Copies a match of length + 4 bytes, unless it would run past oend.  A match of offset zero copies
      every byte onto itself.  A negative length is not refused: the first sixteen bytes are written and
      the position goes back. */
  method CopyRepeated(dest: array<Byte>, op0: nat, offset: nat, length: int, oend: nat) returns (ok: bool, end: int)
    requires offset <= op0 && op0 + COPYLENGTH <= oend && op0 + COPYLENGTH <= dest.Length
    requires op0 + length + MINMATCH <= oend ==> MatchReach(op0, length + MINMATCH, oend) <= dest.Length
    modifies dest
    ensures end == op0 + length + MINMATCH && (ok <==> end <= oend)
    ensures dest[..op0] == old(dest[..op0])
    ensures ok && offset >= 1 && length >= 0 ==>
              dest[..op0 + length + MINMATCH] == CopyMatch(old(dest[..op0]), offset, length + MINMATCH)
    ensures ok ==> Repeating(dest, old(dest[..op0]), offset, MatchReach(op0, length + MINMATCH, oend))
    ensures ok ==> SameFrom(dest, MatchReach(op0, length + MINMATCH, oend))
    ensures !ok ==> SameFrom(dest, op0 + COPYLENGTH)
    ensures offset == 0 ==> SameFrom(dest, 0)
  {
    hide WildLength, Periodic, Times8, CopyMatch;
    ghost var base := dest[..op0];
    var op, ref := CopyFirstEight(dest, op0, offset);
    var cpy := op + length - 4;
    end := cpy;
    ghost var times := Times8(offset);
    if cpy > oend - COPYLENGTH {
      if cpy > oend { return false, end; }
      op, ref := WildCopyBack(dest, op, ref, oend - COPYLENGTH, base, offset, times);
      ghost var wild := op;
      while op < cpy
        invariant 0 <= ref <= op && wild <= op && (op <= cpy || op == wild) && (offset == 0 ==> ref == op)
        invariant offset >= 1 ==> op - ref == times * offset && op0 - offset <= ref
        invariant Repeating(dest, base, offset, op)
        invariant SameFrom(dest, op) && (offset == 0 ==> SameFrom(dest, 0))
      {
        CopyChunk(dest, op, ref, 1, base, offset, times);
        op, ref := op + 1, ref + 1;
      }
    } else {
      op, ref := WildCopyBack(dest, op, ref, cpy, base, offset, times);
    }
    ok := true;
    if offset >= 1 && length >= 0 { RepeatingIsCopy(dest, base, offset, cpy, op); }
  }

  // ----- The decoding loop -----

  lemma WrapsInSteps(x: int, y: int)
    ensures Int32(Int32(x) + y) == Int32(x + y)
  {
  }

  method ReadLengthBytes(src: seq<Byte>, nibble: nat, ip: nat) returns (length: Length)
    requires nibble <= RUN_MASK
    ensures length == ReadLength(src, nibble, ip)
    ensures length.Length? ==> length.next <= |src| || length.next == ip
  {
    if nibble != RUN_MASK { return Length(nibble, ip); }
    var run: int, p: nat := nibble, ip;
    ghost var total: nat := nibble;
    while p < |src| && src[p] == 255
      invariant ip <= p && run == Int32(total) && ReadRun(src, ip, nibble) == ReadRun(src, p, total)
    {
      WrapsInSteps(total, 255);
      run, p, total := Int32(run + 255), p + 1, total + 255;
    }
    if p >= |src| { return NoLength; }
    WrapsInSteps(total, src[p]);
    length := Length(Int32(run + src[p]), p + 1);
  }

  /** The decoded bytes of a finished outcome. */
  function Decoded(out: Outcome): seq<Byte>
    requires out.Finished? && WellFormed(out.seqs)
  {
    Unpack(out.seqs) + out.last
  }

  /** A copied match fits: it leaves eight bytes from its start on and stays within the output. */
  predicate Fits(op: nat, s: Sequence, osize: nat) {
    MINMATCH <= s.matchLength && op + |s.literals| + s.matchLength <= osize
    && op + |s.literals| + COPYLENGTH <= osize
  }

  /** Where decoding a sequence from op on stops writing. */
  function SequenceReach(op: nat, s: Sequence, osize: nat): nat
    requires Fits(op, s, osize)
  {
    MatchReach(op + |s.literals|, s.matchLength, osize)
  }

  lemma ReadSequenceFits(src: seq<Byte>, mode: Mode, ip: nat, op: nat, osize: nat)
    ensures var step := ReadSequence(src, mode, ip, op, osize);
            step.Match? ==> Fits(op, step.sequence, osize) && step.sequence.offset <= op + |step.sequence.literals|
    ensures var step := ReadSequence(src, mode, ip, op, osize);
            step.Final? ==> op + |step.last| <= osize
    ensures var step := ReadSequence(src, mode, ip, op, osize);
            step.Astray? && op <= osize ==> step.op <= osize && step.reach <= osize + COPYLENGTH
  {
    hide ReadField;
  }

  /** dest starts with `base` and a match copied behind it, and goes on with its period up to `reach`. */
  ghost predicate Matched(dest: array<Byte>, base: seq<Byte>, offset: nat, length: nat, reach: nat)
    reads dest
  {
    |base| + length <= reach && Repeating(dest, base, offset, reach)
    && (offset >= 1 ==> dest[..|base| + length] == CopyMatch(base, offset, length))
  }

  /** The second half of a turn, from the offset on. */
  method DecodeMatch(src: seq<Byte>, nibble: nat, dest: array<Byte>, literals: seq<Byte>, q: nat, cpy: nat, osize: nat)
      returns (step: Step)
    requires nibble <= RUN_MASK && cpy + COPYLENGTH <= osize <= dest.Length && |literals| <= cpy
    requires var step := ReadMatch(src, nibble, literals, q, cpy, osize);
             step.Match? ==> Fits(cpy - |literals|, step.sequence, osize)
                             && SequenceReach(cpy - |literals|, step.sequence, osize) <= dest.Length
    requires var step := ReadMatch(src, nibble, literals, q, cpy, osize); step.Astray? ==> step.reach <= dest.Length
    modifies dest
    ensures step == ReadMatch(src, nibble, literals, q, cpy, osize)
    ensures dest[..cpy] == old(dest[..cpy])
    ensures step.Match? ==>
              var Sequence(before, offset, length) := step.sequence;
              before == literals && Fits(cpy - |literals|, step.sequence, osize) && offset <= cpy
              && Matched(dest, old(dest[..cpy]), offset, length, MatchReach(cpy, length, osize))
              && SameFrom(dest, MatchReach(cpy, length, osize))
              && (offset == 0 ==> SameFrom(dest, 0))
    ensures step.Astray? ==> step.reach == cpy + 2 * COPYLENGTH && SameFrom(dest, step.reach)
    ensures !step.Match? && !step.Astray? ==> !step.Final? && SameFrom(dest, osize)
  {
    hide ReadField, CopyMatch, MatchReach, Repeating;
    if q + 2 > |src| { return NeedMore; }
    var offset := LittleEndian16(src[q], src[q + 1]);
    if offset > cpy { return BadAt(q + 2); }
    var code := ReadLengthBytes(src, nibble, q + 2);
    if code.NoLength? { return NeedMore; }
    if cpy + code.value + MINMATCH <= osize { ReachIsExact(cpy, code.value + MINMATCH, osize); }
    var ok, end := CopyRepeated(dest, cpy, offset, code.value, osize);
    if !ok { return BadAt(code.next); }
    if code.value < 0 { return Astray(cpy + 2 * COPYLENGTH, end, code.next); }
    step := Match(Sequence(literals, offset, code.value + MINMATCH), code.next);
  }

  /** `after` is `before` with `length` literals from position p of src, copied eight at a time, at op. */
  ghost predicate Spilled(after: seq<Byte>, before: seq<Byte>, src: seq<Byte>, p: nat, op: nat, length: nat) {
    p + WildLength(length) <= |src| && op + WildLength(length) <= |before|
    && after == before[..op] + src[p..p + WildLength(length)] + before[op + WildLength(length)..]
  }

  /** Copies literals eight bytes at a time. */
  method CopyLiterals(src: seq<Byte>, p: nat, dest: array<Byte>, op: nat, length: nat)
    requires p + WildLength(length) <= |src| && op + WildLength(length) <= dest.Length
    modifies dest
    ensures dest[..op + length] == old(dest[..op]) + src[p..p + length]
    ensures Spilled(dest[..], old(dest[..]), src, p, op, length)
    ensures SameFrom(dest, op + WildLength(length)) && SameFrom(dest, op + length + COPYLENGTH)
  {
    WildCopy(src, p, dest, op, length);
  }

  lemma OneChunk()
    ensures WildLength(0) == COPYLENGTH
  {
  }

  /** One turn of the loop on any input does what `ReadSequence` says.  Only a copied match writes beyond
      the output, as far as `SequenceReach` says.  A match of offset zero leaves in place what was there
      and what the literals in front of it spilled. */
  method DecodeSequence(src: seq<Byte>, mode: Mode, dest: array<Byte>, ip: nat, op: nat, osize: nat)
      returns (step: Step)
    requires op <= osize <= dest.Length
    requires var step := ReadSequence(src, mode, ip, op, osize);
             (step.Match? ==> Fits(op, step.sequence, osize) && SequenceReach(op, step.sequence, osize) <= dest.Length)
             && (step.Astray? ==> step.reach <= dest.Length)
    modifies dest
    ensures step == ReadSequence(src, mode, ip, op, osize)
    ensures step.Final? ==> op + |step.last| <= osize && dest[..op + |step.last|] == old(dest[..op]) + step.last
    ensures step.Match? ==> Fits(op, step.sequence, osize) && SameFrom(dest, SequenceReach(op, step.sequence, osize))
    ensures step.Match? ==>
              var Sequence(literals, offset, length) := step.sequence;
              offset <= op + |literals|
              && Matched(dest, old(dest[..op]) + literals, offset, length, SequenceReach(op, step.sequence, osize))
              && (offset == 0 ==> exists p: nat :: Spilled(dest[..], old(dest[..]), src, p, op, |literals|))
    ensures step.Astray? ==> SameFrom(dest, step.reach)
    ensures !step.Match? && !step.Astray? ==> SameFrom(dest, osize)
  {
    hide ReadField, ReadLength, CopyMatch, WildLength, MatchReach, Repeating, ReadMatch, Spilled, Fits, Matched,
         LittleEndian16;
    ReadSequenceFits(src, mode, ip, op, osize);
    if ip >= |src| { return NeedMore; }
    var token := src[ip];
    var run := ReadLengthBytes(src, token / 16, ip + 1);
    if run.NoLength? { return NeedMore; }
    var Length(length, p) := run;
    var cpy := op + length;
    if cpy > osize - COPYLENGTH {
      if cpy > osize { return BadAt(p); }
      if length < 0 || p + length > |src| { return NeedMore; }
      MemCpy(src, p, dest, op, length);
      return Final(src[p..p + length], p + length);
    }
    var copied := if length > 0 then length else 0;
    OneChunk();
    if p + WildLength(copied) > |src| { return NeedMore; }
    CopyLiterals(src, p, dest, op, copied);
    if length < 0 { return Astray(op + COPYLENGTH, cpy, p + length); }
    var q := p + length;
    if mode.Bounded? && q >= mode.isize { return Final(src[p..q], q); }
    ghost var mid := dest[..];
    step := DecodeMatch(src, token % 16, dest, src[p..q], q, cpy, osize);
    if step.Match? && step.sequence.offset == 0 { assert dest[..] == mid; }
  }

  lemma ParseUnfolds(src: seq<Byte>, mode: Mode, ip: nat, acc: Sequences, osize: nat)
    requires mode.Bounded? ==> ip < mode.isize
    ensures var step := ReadSequence(src, mode, ip, OutSize(acc), osize);
            Parse(src, mode, ip, acc, osize) ==
            match step
            case Final(last, next) => Finished(acc, last, next)
            case BadAt(at) => Corrupt(at)
            case NeedMore => Overrun
            case Astray(reach, start, from) => Strayed(reach, start, from)
            case Match(s, next) =>
              if OutSize(acc) + s.Size() == osize then Finished(Then(acc, s), [], next)
              else Parse(src, mode, next, Then(acc, s), osize)
  {
  }

  /** The sequences whose matches a decoder copies, however it ends. */
  function Copied(src: seq<Byte>, mode: Mode, ip: nat, acc: Sequences, osize: nat): Sequences
    decreases |src| - ip
  {
    if mode.Bounded? && ip >= mode.isize then acc
    else
      ReadSequenceAdvances(src, mode, ip, OutSize(acc), osize);
      match ReadSequence(src, mode, ip, OutSize(acc), osize)
      case Match(s, next) =>
        if OutSize(acc) + s.Size() == osize then Then(acc, s) else Copied(src, mode, next, Then(acc, s), osize)
      case _ => acc
  }

  lemma InputEnds(src: seq<Byte>, mode: Mode, ip: nat, acc: Sequences, osize: nat)
    requires mode.Bounded? && ip >= mode.isize
    ensures Parse(src, mode, ip, acc, osize) == Finished(acc, [], ip)
    ensures Copied(src, mode, ip, acc, osize) == acc
  {
  }

  // ----- How far the writes go -----

  lemma {:induction false} FinishedIsCopied(src: seq<Byte>, mode: Mode, ip: nat, acc: Sequences, osize: nat)
    ensures var out := Parse(src, mode, ip, acc, osize);
            out.Finished? ==> out.seqs == Copied(src, mode, ip, acc, osize)
    decreases |src| - ip
  {
    if mode.Fast? || ip < mode.isize {
      ReadSequenceAdvances(src, mode, ip, OutSize(acc), osize);
      match ReadSequence(src, mode, ip, OutSize(acc), osize)
      case Match(s, next) =>
        if OutSize(acc) + s.Size() != osize { FinishedIsCopied(src, mode, next, Then(acc, s), osize); }
      case _ =>
    }
  }

  /** Every match of the sequences fits. */
  predicate AllFit(seqs: Sequences, osize: nat) {
    match seqs
    case Empty => true
    case Then(front, newest) => AllFit(front, osize) && Fits(OutSize(front), newest, osize)
  }

  /** Where the newest match starts in the output. */
  function MatchStart(seqs: Sequences): nat
    requires seqs.Then?
  {
    OutSize(seqs.front) + |seqs.newest.literals|
  }

  /** Where decoding these sequences, and literals within the output, stops writing. */
  function DecodeReach(seqs: Sequences, osize: nat): (reach: nat)
    requires AllFit(seqs, osize)
    ensures reach >= osize
  {
    if seqs.Empty? then osize
    else
      var r := SequenceReach(OutSize(seqs.front), seqs.newest, osize);
      if r > osize then r else osize
  }

  /** Some match starts fewer than sixteen bytes before the end of the output. */
  predicate SomeMatchIsLate(seqs: Sequences, osize: nat) {
    seqs.Then? && (SomeMatchIsLate(seqs.front, osize) || MatchStart(seqs) + 2 * COPYLENGTH > osize)
  }

  lemma ReachOfNewest(seqs: Sequences, osize: nat)
    requires AllFit(seqs, osize) && seqs.Then?
    ensures DecodeReach(seqs, osize)
              == if MatchStart(seqs) + 2 * COPYLENGTH > osize then MatchStart(seqs) + 2 * COPYLENGTH else osize
  {
    ReachIsExact(MatchStart(seqs), seqs.newest.matchLength, osize);
    hide MatchReach;
  }

  /** A decoder writes beyond the output exactly when it copies a match that starts fewer than sixteen
      bytes before the end; it then writes up to sixteen bytes after the start of the last such match,
      and never more than eight beyond the output. */
  lemma {:induction false} WritesBeyond(seqs: Sequences, osize: nat)
    requires AllFit(seqs, osize)
    ensures DecodeReach(seqs, osize) > osize <==> SomeMatchIsLate(seqs, osize)
    ensures DecodeReach(seqs, osize) > osize ==> DecodeReach(seqs, osize) == MatchStart(seqs) + 2 * COPYLENGTH
    ensures DecodeReach(seqs, osize) <= osize + COPYLENGTH
  {
    if seqs.Then? {
      ReachOfNewest(seqs, osize);
      WritesBeyond(seqs.front, osize);
    }
  }

  lemma ReachGrows(front: Sequences, s: Sequence, osize: nat)
    requires AllFit(Then(front, s), osize)
    ensures DecodeReach(front, osize) <= DecodeReach(Then(front, s), osize)
  {
    ReachOfNewest(Then(front, s), osize);
    if front.Then? { ReachOfNewest(front, osize); }
    hide SequenceReach;
  }

  lemma {:induction false} CopiedFits(src: seq<Byte>, mode: Mode, ip: nat, acc: Sequences, osize: nat)
    requires AllFit(acc, osize)
    ensures var seqs := Copied(src, mode, ip, acc, osize);
            AllFit(seqs, osize) && DecodeReach(acc, osize) <= DecodeReach(seqs, osize)
    decreases |src| - ip
  {
    hide ReadSequence, DecodeReach, Fits;
    if mode.Fast? || ip < mode.isize {
      ReadSequenceAdvances(src, mode, ip, OutSize(acc), osize);
      ReadSequenceFits(src, mode, ip, OutSize(acc), osize);
      match ReadSequence(src, mode, ip, OutSize(acc), osize)
      case Match(s, next) =>
        ReachGrows(acc, s, osize);
        if OutSize(acc) + s.Size() != osize { CopiedFits(src, mode, next, Then(acc, s), osize); }
      case _ =>
    }
  }

  /** The bytes written beyond the output go on with the last match. */
  ghost predicate Beyond(dest: seq<Byte>, seqs: Sequences, osize: nat)
    requires AllFit(seqs, osize) && DecodeReach(seqs, osize) <= |dest|
  {
    WellFormed(seqs) && seqs.Then? ==>
      var base := Unpack(seqs.front) + seqs.newest.literals;
      forall i :: osize <= i < DecodeReach(seqs, osize) ==> dest[i] == Periodic(base, |base|, seqs.newest.offset, i)
  }

  lemma EmptyFits(osize: nat)
    ensures AllFit(Empty, osize) && DecodeReach(Empty, osize) == osize
  {
  }

  lemma StartsWithin(dest: seq<Byte>, osize: nat)
    requires osize <= |dest|
    ensures DecodeReach(Empty, osize) == osize && Beyond(dest, Empty, osize)
  {
  }

  /** What the next turn copies fits, and the buffer has room for it. */
  lemma NextFits(src: seq<Byte>, mode: Mode, ip: nat, acc: Sequences, osize: nat)
    requires AllFit(acc, osize) && (mode.Bounded? ==> ip < mode.isize)
    ensures AllFit(Copied(src, mode, ip, acc, osize), osize)
    ensures var step := ReadSequence(src, mode, ip, OutSize(acc), osize);
            var copied := Copied(src, mode, ip, acc, osize);
            if step.Match? then
              AllFit(Then(acc, step.sequence), osize) && Fits(OutSize(acc), step.sequence, osize)
              && SequenceReach(OutSize(acc), step.sequence, osize) <= DecodeReach(Then(acc, step.sequence), osize)
                 <= DecodeReach(copied, osize)
              && copied == (if OutSize(acc) + step.sequence.Size() == osize then Then(acc, step.sequence)
                            else Copied(src, mode, step.next, Then(acc, step.sequence), osize))
              && DecodeReach(acc, osize) <= DecodeReach(Then(acc, step.sequence), osize)
            else copied == acc
  {
    ReadSequenceFits(src, mode, ip, OutSize(acc), osize);
    var step := ReadSequence(src, mode, ip, OutSize(acc), osize);
    if step.Match? {
      ReachGrows(acc, step.sequence, osize);
      CopiedFits(src, mode, step.next, Then(acc, step.sequence), osize);
    }
    hide ReadSequence;
  }

  lemma StaysBeyond(before: seq<Byte>, after: seq<Byte>, seqs: Sequences, osize: nat)
    requires AllFit(seqs, osize) && DecodeReach(seqs, osize) <= |before| == |after| && Beyond(before, seqs, osize)
    requires forall k :: osize <= k < |after| ==> after[k] == before[k]
    ensures Beyond(after, seqs, osize)
  {
    hide Periodic, DecodeReach, AllFit;
  }

  lemma NowBeyond(dest: array<Byte>, before: seq<Byte>, front: Sequences, s: Sequence, osize: nat)
    requires AllFit(Then(front, s), osize) && (WellFormed(front) ==> before == Unpack(front))
    requires |before| == OutSize(front)
    requires Matched(dest, before + s.literals, s.offset, s.matchLength, SequenceReach(OutSize(front), s, osize))
    requires DecodeReach(Then(front, s), osize) <= dest.Length
    ensures Beyond(dest[..], Then(front, s), osize)
    ensures OutSize(Then(front, s)) <= dest.Length
    ensures WellFormed(Then(front, s)) ==> dest[..OutSize(Then(front, s))] == Unpack(Then(front, s))
  {
    hide Periodic, SequenceReach, CopyMatch;
  }

  /** Where a decoder stops writing, up to a read past the input or the turn in which it goes astray. */
  function Reach(src: seq<Byte>, mode: Mode, osize: nat): (reach: nat)
    requires AllFit(Copied(src, mode, 0, Empty, osize), osize)
  {
    var out, reach := Parse(src, mode, 0, Empty, osize), DecodeReach(Copied(src, mode, 0, Empty, osize), osize);
    if out.Strayed? && out.reach > reach then out.reach else reach
  }

  lemma {:induction false} StraysWithin(src: seq<Byte>, mode: Mode, ip: nat, acc: Sequences, osize: nat)
    requires OutSize(acc) <= osize
    ensures var out := Parse(src, mode, ip, acc, osize);
            out.Strayed? ==> out.reach <= osize + COPYLENGTH && out.op <= osize
    decreases |src| - ip
  {
    if mode.Fast? || ip < mode.isize {
      ParseUnfolds(src, mode, ip, acc, osize);
      ReadSequenceAdvances(src, mode, ip, OutSize(acc), osize);
      ReadSequenceFits(src, mode, ip, OutSize(acc), osize);
      hide ReadSequence, Parse;
      match ReadSequence(src, mode, ip, OutSize(acc), osize)
      case Match(s, next) => StraysWithin(src, mode, next, Then(acc, s), osize);
      case _ =>
    }
  }

  /** On any input at all a decoder writes at most eight bytes beyond the output, until it reads past the
      input or goes astray; and it does exactly when it copies a match that starts fewer than sixteen bytes
      before the end, the one with which it goes astray included. */
  lemma ReachesBeyond(src: seq<Byte>, mode: Mode, osize: nat)
    ensures AllFit(Copied(src, mode, 0, Empty, osize), osize)
    ensures osize <= Reach(src, mode, osize) <= osize + COPYLENGTH
    ensures var out := Parse(src, mode, 0, Empty, osize);
            Reach(src, mode, osize) > osize
            <==> SomeMatchIsLate(Copied(src, mode, 0, Empty, osize), osize) || (out.Strayed? && out.reach > osize)
  {
    hide Parse, Copied, DecodeReach, AllFit, SomeMatchIsLate;
    EmptyFits(osize);
    CopiedFits(src, mode, 0, Empty, osize);
    WritesBeyond(Copied(src, mode, 0, Empty, osize), osize);
    StraysWithin(src, mode, 0, Empty, osize);
  }

  lemma ReachCovers(src: seq<Byte>, mode: Mode, osize: nat)
    requires AllFit(Copied(src, mode, 0, Empty, osize), osize)
    ensures Reach(src, mode, osize) >= DecodeReach(Copied(src, mode, 0, Empty, osize), osize)
    ensures var out := Parse(src, mode, 0, Empty, osize); out.Strayed? ==> Reach(src, mode, osize) >= out.reach
  {
    hide Parse, Copied, AllFit, DecodeReach;
  }

  lemma DecodedWithin(out: Outcome)
    ensures out.Finished? && WellFormed(out.seqs) ==> Decoded(out) == Unpack(out.seqs) + out.last
  {
    hide Unpack;
  }

  /** Both decoders, on any input, with an output buffer that is just large enough for what they write.
      They return the input position or the number of decoded bytes, or, when they refuse the input, the
      position of the fault as a negative number.  `lost` says that the C function has read past the input or
      gone astray. */
  method Decode(src: seq<Byte>, mode: Mode, dest: array<Byte>, osize: nat) returns (r: int, lost: bool)
    requires AllFit(Copied(src, mode, 0, Empty, osize), osize) ==> Reach(src, mode, osize) <= dest.Length
    modifies dest
    ensures AllFit(Copied(src, mode, 0, Empty, osize), osize)
    ensures var out := Parse(src, mode, 0, Empty, osize);
            lost == (out.Overrun? || out.Strayed?)
            && (!lost ==> (r < 0 <==> out.Corrupt?))
            && (out.Corrupt? ==> r == -(out.at as int))
            && (out.Finished? && mode.Fast? ==> r == out.next)
            && (out.Finished? && mode.Bounded? ==> r == OutSize(out.seqs) + |out.last|)
            && (out.Finished? && WellFormed(out.seqs) ==>
                  |Decoded(out)| <= osize && dest[..|Decoded(out)|] == Decoded(out))
    ensures SameFrom(dest, Reach(src, mode, osize))
    ensures !Parse(src, mode, 0, Empty, osize).Strayed? ==> Beyond(dest[..], Copied(src, mode, 0, Empty, osize), osize)
  {
    hide Parse, ReadSequence, CopyMatch, Copied, DecodeReach, Repeating, Beyond, SequenceReach, AllFit, Fits, Matched,
         Unpack, Reach, Spilled, Decoded;
    EmptyFits(osize);
    CopiedFits(src, mode, 0, Empty, osize);
    ReachCovers(src, mode, osize);
    DecodedWithin(Parse(src, mode, 0, Empty, osize));
    CorruptFurtherOn(src, mode, 0, Empty, osize);
    var ip, op := 0, 0;
    ghost var acc := Empty;
    ghost var whole := Parse(src, mode, 0, Empty, osize);
    ghost var copied := Copied(src, mode, 0, Empty, osize);
    StartsWithin(dest[..], osize);
    while true
      invariant whole == Parse(src, mode, ip, acc, osize) && copied == Copied(src, mode, ip, acc, osize)
      invariant op == OutSize(acc) <= osize && AllFit(acc, osize) && DecodeReach(acc, osize) <= dest.Length
      invariant WellFormed(acc) ==> dest[..op] == Unpack(acc)
      invariant SameFrom(dest, DecodeReach(acc, osize)) && Beyond(dest[..], acc, osize)
      decreases |src| - ip
    {
      if mode.Bounded? && ip >= mode.isize {
        InputEnds(src, mode, ip, acc, osize);
        return op, false;
      }
      ParseUnfolds(src, mode, ip, acc, osize);
      ReadSequenceAdvances(src, mode, ip, op, osize);
      NextFits(src, mode, ip, acc, osize);
      ghost var before := dest[..];
      var step := DecodeSequence(src, mode, dest, ip, op, osize);
      match step
      case NeedMore =>
        StaysBeyond(before, dest[..], acc, osize);
        return 0, true;
      case Astray(reach, start, from) =>
        return 0, true;
      case BadAt(at) =>
        StaysBeyond(before, dest[..], acc, osize);
        return -(at as int), false;
      case Final(last, next) =>
        StaysBeyond(before, dest[..], acc, osize);
        return if mode.Fast? then next else op + |last|, false;
      case Match(s, next) =>
        NowBeyond(dest, before[..op], acc, s, osize);
        acc := Then(acc, s);
        ip, op := next, op + |s.literals| + s.matchLength;
        if op == osize { return if mode.Fast? then ip else op, false; }
    }
  }
}
