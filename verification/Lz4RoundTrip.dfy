/** What the codec promises as a whole. */
module Lz4RoundTrip {
  import opened Bits
  import opened Lz4Format
  import opened Lz4Theory
  import opened Lz4Copy
  import opened Lz4Compress
  import opened Lz4Uncompress
  import opened Lz4Bounds
  import opened Lz4Lengths

  /** Whatever is compressed comes back, and the return value is the compressed length.  The output
      buffer has four bytes more than the data, and no byte of the input beyond the block is readable.
      The size of the data is an `int`. */
  method RoundTrip(data: seq<Byte>) returns (packed: seq<Byte>, r: int, result: seq<Byte>)
    requires |data| < INT_LIMIT
    ensures result == data && r == |packed| <= StoredSize(|data|)
  {
    hide Parse, Copied, DecodeReach, BlockBytes, Reach, Prompt, StartsRight, LongestMatches;
    var buffer := new Byte[StoredSize(|data|)];
    var n, seqs, last := Compress(data, buffer);
    packed := buffer[..n];
    var dest := new Byte[|data| + 4];
    ParseInvertsSerialize(seqs, last, data, packed, Fast, |data|);
    EncodedReach(seqs, last, data, packed, Fast, |data|);
    var lost;
    r, lost := Decode(packed, Fast, dest, |data|);
    result := dest[..|data|];
  }

  /** The decoder that only has a bound on the output agrees, given eight readable bytes after the
      compressed ones. */
  method RoundTripUnknownSize(data: seq<Byte>, slack: seq<Byte>, maxOutputSize: nat)
      returns (r: int, result: seq<Byte>)
    requires |slack| >= COPYLENGTH && INT_LIMIT > maxOutputSize >= |data|
    ensures r == |data| && result == data
  {
    hide Parse, Copied, DecodeReach, BlockBytes, Reach, Prompt, StartsRight, LongestMatches;
    var buffer := new Byte[StoredSize(|data|)];
    var n, seqs, last := Compress(data, buffer);
    var packed := buffer[..n];
    var dest := new Byte[maxOutputSize + 4];
    ParseInvertsSerialize(seqs, last, data, packed + slack, Bounded(n), maxOutputSize);
    EncodedReach(seqs, last, data, packed + slack, Bounded(n), maxOutputSize);
    var lost;
    r, lost := Decode(packed + slack, Bounded(n), dest, maxOutputSize);
    result := dest[..|data|];
  }

  // ----- Accepted inputs are serialised blocks -----

  lemma {:induction false} RunIsWritten(src: seq<Byte>, ip: nat, length: nat)
    requires ReadRun(src, ip, length).Length?
    ensures var r := ReadRun(src, ip, length);
            r.value >= length && At(src, ip, RunBytes(r.value - length)) && r.next == ip + |RunBytes(r.value - length)|
    decreases |src| - ip
  {
    if src[ip] == 255 {
      RunIsWritten(src, ip + 1, length + 255);
      var r := ReadRun(src, ip, length);
      assert src[ip..r.next] == [src[ip]] + src[ip + 1..r.next];
    }
  }

  lemma FieldIsWritten(src: seq<Byte>, nibble: nat, ip: nat)
    requires nibble <= RUN_MASK && ip <= |src| && ReadLength(src, nibble, ip).Length? && FieldFits(src, nibble, ip)
    ensures var r := ReadLength(src, nibble, ip);
            r.value >= 0 && Nibble(r.value) == nibble && At(src, ip, ExtraBytes(r.value))
            && r.next == ip + |ExtraBytes(r.value)|
  {
    if nibble == RUN_MASK { RunIsWritten(src, ip, nibble); }
  }

  lemma LiteralsAreWritten(src: seq<Byte>, ip: nat)
    requires ip < |src| && LiteralFits(src, ip) && ReadLength(src, src[ip] / 16, ip + 1).Length?
    requires var r := ReadLength(src, src[ip] / 16, ip + 1); r.next + r.value <= |src|
    ensures var r := ReadLength(src, src[ip] / 16, ip + 1);
            var end := r.next + r.value;
            ip < r.next <= end && src[ip..end] == LiteralBytes(src[r.next..end], src[ip] % 16)
  {
    hide ReadLength, ExtraBytes, Nibble, ReadField;
    var r := ReadLength(src, src[ip] / 16, ip + 1);
    FieldIsWritten(src, src[ip] / 16, ip + 1);
    var end := r.next + r.value;
    var token := src[ip];
    assert token == 16 * (token / 16) + token % 16;
    assert src[ip..end] == [token] + src[ip + 1..r.next] + src[r.next..end];
  }

  lemma OffsetIsWritten(lo: Byte, hi: Byte)
    ensures var offset := LittleEndian16(lo, hi);
            offset <= MAX_DISTANCE && offset % 256 == lo && offset / 256 == hi
  {
  }

  lemma MatchIsWritten(src: seq<Byte>, code: nat, literals: seq<Byte>, q: nat, start: nat, osize: nat)
    requires code <= RUN_MASK && ReadMatch(src, code, literals, q, start, osize).Match? && FieldFits(src, code, q + 2)
    ensures var step := ReadMatch(src, code, literals, q, start, osize);
            var s := step.sequence;
            s.literals == literals && s.offset <= start && s.offset <= MAX_DISTANCE
            && s.matchLength >= MINMATCH && start + s.matchLength <= osize
            && code == Nibble(s.matchLength - MINMATCH)
            && q < step.next <= |src| && src[q..step.next] == MatchBytes(s.offset, s.matchLength - MINMATCH)
  {
    FieldIsWritten(src, code, q + 2);
    var step := ReadMatch(src, code, literals, q, start, osize);
    OffsetIsWritten(src[q], src[q + 1]);
    hide ReadLength, ExtraBytes, LittleEndian16;
    assert src[q..step.next] == [src[q], src[q + 1]] + src[q + 2..step.next];
  }

  lemma MatchIsRead(src: seq<Byte>, mode: Mode, ip: nat, op: nat, osize: nat)
    requires ReadSequence(src, mode, ip, op, osize).Match?
    ensures ip < |src|
    ensures var r := ReadLength(src, src[ip] / 16, ip + 1);
            r.Length? && ReadsMatch(src, mode, r, op, osize)
            && ReadSequence(src, mode, ip, op, osize)
               == ReadMatch(src, src[ip] % 16, src[r.next..r.next + r.value], r.next + r.value, op + r.value, osize)
  {
    hide ReadLength, LittleEndian16;
  }

  lemma SequenceIsWritten(src: seq<Byte>, mode: Mode, ip: nat, op: nat, osize: nat)
    requires ReadSequence(src, mode, ip, op, osize).Match?
    requires LiteralFits(src, ip) && MatchFits(src, mode, ip, op, osize)
    ensures var step := ReadSequence(src, mode, ip, op, osize);
            var s := step.sequence;
            s.matchLength >= MINMATCH && s.offset <= MAX_DISTANCE && s.offset <= op + |s.literals|
            && op + s.Size() <= osize && ip < step.next <= |src| && src[ip..step.next] == SequenceBytes(s)
  {
    hide ReadSequence, ReadMatch, ReadLength, LiteralBytes, MatchBytes;
    MatchIsRead(src, mode, ip, op, osize);
    var r := ReadLength(src, src[ip] / 16, ip + 1);
    var q := r.next + r.value;
    LiteralsAreWritten(src, ip);
    MatchIsWritten(src, src[ip] % 16, src[r.next..q], q, op + r.value, osize);
    var step := ReadSequence(src, mode, ip, op, osize);
    assert src[ip..step.next] == src[ip..q] + src[q..step.next];
  }

  ghost predicate Begins(acc: Sequences, seqs: Sequences) {
    acc == seqs || (seqs.Then? && Begins(acc, seqs.front))
  }

  lemma {:induction false} BeginsWellFormed(acc: Sequences, seqs: Sequences)
    requires Begins(acc, seqs) && WellFormed(seqs)
    ensures WellFormed(acc)
  {
    if acc != seqs { BeginsWellFormed(acc, seqs.front); }
  }

  lemma {:induction false} BeginsFront(acc: Sequences, s: Sequence, seqs: Sequences)
    requires Begins(Then(acc, s), seqs)
    ensures Begins(acc, seqs)
  {
    if Then(acc, s) != seqs { BeginsFront(acc, s, seqs.front); }
  }

  lemma {:induction false} ParseKeeps(src: seq<Byte>, mode: Mode, ip: nat, acc: Sequences, osize: nat)
    ensures var out := Parse(src, mode, ip, acc, osize); out.Finished? ==> Begins(acc, out.seqs)
    decreases |src| - ip
  {
    if mode.Fast? || ip < mode.isize {
      ReadSequenceAdvances(src, mode, ip, OutSize(acc), osize);
      var step := ReadSequence(src, mode, ip, OutSize(acc), osize);
      if step.Match? {
        ParseUnfolds(src, mode, ip, acc, osize);
        ParseKeeps(src, mode, step.next, Then(acc, step.sequence), osize);
        var out := Parse(src, mode, ip, acc, osize);
        if out.Finished? && OutSize(acc) + step.sequence.Size() != osize {
          BeginsFront(acc, step.sequence, out.seqs);
        }
      }
    }
  }

  /** The bytes that close a block: nothing after a match that fills the output, otherwise the last
      literals, whose token may carry any match code. */
  ghost predicate Closes(tail: seq<Byte>, last: seq<Byte>) {
    (tail == [] && last == []) || exists low :: 0 <= low <= RUN_MASK && tail == LiteralBytes(last, low)
  }

  lemma LastIsWritten(src: seq<Byte>, mode: Mode, ip: nat, op: nat, osize: nat)
    requires ReadSequence(src, mode, ip, op, osize).Final? && LiteralFits(src, ip)
    ensures var step := ReadSequence(src, mode, ip, op, osize);
            op + |step.last| <= osize && ip < step.next <= |src| && Closes(src[ip..step.next], step.last)
  {
    LiteralsAreWritten(src, ip);
  }

  /** What a decoder consumed is the serialisation of what it decoded. */
  ghost predicate ConsumesBlock(src: seq<Byte>, out: Outcome)
    requires out.Finished? && WellFormed(out.seqs) && out.next <= |src|
  {
    |Serialize(out.seqs)| <= out.next && Serialize(out.seqs) <= src
    && Closes(src[|Serialize(out.seqs)|..out.next], out.last)
  }

  lemma NothingCloses(src: seq<Byte>, ip: nat)
    requires ip <= |src|
    ensures Closes(src[ip..ip], [])
  {
    assert src[ip..ip] == [];
  }

  lemma {:induction false} FittingIsSerialized(src: seq<Byte>, mode: Mode, ip: nat, acc: Sequences, osize: nat)
    requires ip <= |src| && WellFormed(acc) && src[..ip] == Serialize(acc) && OutSize(acc) <= osize
    requires var out := Parse(src, mode, ip, acc, osize); out.Finished? && WellFormed(out.seqs) && out.next <= |src|
    requires LengthsFit(src, mode, ip, acc, osize)
    ensures ConsumesBlock(src, Parse(src, mode, ip, acc, osize))
    decreases |src| - ip
  {
    hide ReadSequence, Parse, SequenceBytes, LiteralFits, MatchFits, Closes;
    NothingCloses(src, ip);
    if mode.Fast? || ip < mode.isize {
      var op := OutSize(acc);
      var out := Parse(src, mode, ip, acc, osize);
      ParseUnfolds(src, mode, ip, acc, osize);
      match ReadSequence(src, mode, ip, op, osize)
      case Final(last, next) =>
        LastIsWritten(src, mode, ip, op, osize);
      case Match(s, next) =>
        SequenceIsWritten(src, mode, ip, op, osize);
        ParseKeeps(src, mode, next, Then(acc, s), osize);
        BeginsWellFormed(Then(acc, s), out.seqs);
        assert src[..next] == src[..ip] + src[ip..next];
        NothingCloses(src, next);
        if op + s.Size() != osize { FittingIsSerialized(src, mode, next, Then(acc, s), osize); }
      case _ =>
    } else {
      InputEnds(src, mode, ip, acc, osize);
    }
  }

  lemma {:induction false} BeginsSerialized(acc: Sequences, seqs: Sequences)
    requires Begins(acc, seqs) && WellFormed(seqs)
    ensures WellFormed(acc) && Serialize(acc) <= Serialize(seqs)
  {
    if acc != seqs { BeginsSerialized(acc, seqs.front); }
  }

  lemma MatchParts(src: seq<Byte>, code: nat, literals: seq<Byte>, q: nat, start: nat, osize: nat)
    requires code <= RUN_MASK && ReadMatch(src, code, literals, q, start, osize).Match?
    ensures var step := ReadMatch(src, code, literals, q, start, osize);
            var r := ReadLength(src, code, q + 2);
            step.sequence.literals == literals && r == Length(step.sequence.matchLength - MINMATCH, step.next)
  {
    hide ReadLength;
  }

  /** A field that is the serialisation of what the decoder took from it fits. */
  lemma FieldAsTaken(src: seq<Byte>, nibble: nat, ip: nat, v: nat)
    requires ReadField(src, nibble, ip).Length? && ReadField(src, nibble, ip).value == v
    requires ReadLength(src, nibble, ip).value == v
    ensures FieldFits(src, nibble, ip)
  {
  }

  /** A sequence that was written fits: its fields say what the decoder took from them. */
  lemma WrittenFits(src: seq<Byte>, mode: Mode, ip: nat, op: nat, osize: nat)
    requires ReadSequence(src, mode, ip, op, osize).Match?
    requires var s := ReadSequence(src, mode, ip, op, osize).sequence;
             s.matchLength >= MINMATCH && s.offset <= MAX_DISTANCE && At(src, ip, SequenceBytes(s))
    ensures var step := ReadSequence(src, mode, ip, op, osize);
            LiteralFits(src, ip) && MatchFits(src, mode, ip, op, osize)
            && step.next == ip + |SequenceBytes(step.sequence)|
  {
    hide ReadSequence, ReadMatch, ReadField, ReadLength, LiteralBytes, ExtraBytes, Nibble, FieldFits, At;
    MatchIsRead(src, mode, ip, op, osize);
    var r := ReadLength(src, src[ip] / 16, ip + 1);
    var q := r.next + r.value;
    var step := ReadSequence(src, mode, ip, op, osize);
    var s := step.sequence;
    var code := s.matchLength - MINMATCH;
    var lit := LiteralBytes(s.literals, Nibble(code));
    MatchParts(src, src[ip] % 16, src[r.next..q], q, op + r.value, osize);
    AtSplit(src, ip, lit, MatchBytes(s.offset, code));
    LiteralsRoundTrip(src, ip, s.literals, Nibble(code));
    FieldAsTaken(src, src[ip] / 16, ip + 1, |s.literals|);
    FieldIsNatural(src, src[ip] / 16, ip + 1);
    AtSplit(src, q, [s.offset % 256, s.offset / 256], ExtraBytes(code));
    LengthRoundTrip(src, q + 2, code);
    FieldAsTaken(src, src[ip] % 16, q + 2, code);
    FieldIsNatural(src, src[ip] % 16, q + 2);
  }

  lemma LastIsRead(src: seq<Byte>, mode: Mode, ip: nat, op: nat, osize: nat)
    requires ReadSequence(src, mode, ip, op, osize).Final?
    ensures ip < |src|
    ensures var r := ReadLength(src, src[ip] / 16, ip + 1);
            r.Length? && !ReadsMatch(src, mode, r, op, osize)
            && r.value == |ReadSequence(src, mode, ip, op, osize).last|
            && ip < ReadSequence(src, mode, ip, op, osize).next
  {
    FieldIsNatural(src, src[ip] / 16, ip + 1);
    hide ReadField, LittleEndian16;
  }

  lemma LastFits(src: seq<Byte>, mode: Mode, ip: nat, op: nat, osize: nat)
    requires ReadSequence(src, mode, ip, op, osize).Final?
    requires var step := ReadSequence(src, mode, ip, op, osize);
             ip <= step.next <= |src| && Closes(src[ip..step.next], step.last)
    ensures LiteralFits(src, ip) && MatchFits(src, mode, ip, op, osize)
  {
    hide ReadSequence, ReadField, ReadLength, LiteralBytes, ReadsMatch, FieldFits;
    LastIsRead(src, mode, ip, op, osize);
    var step := ReadSequence(src, mode, ip, op, osize);
    var low :| 0 <= low <= RUN_MASK && src[ip..step.next] == LiteralBytes(step.last, low);
    LiteralsRoundTrip(src, ip, step.last, low);
    FieldAsTaken(src, src[ip] / 16, ip + 1, |step.last|);
  }

  lemma NextIsWritten(acc: Sequences, s: Sequence, src: seq<Byte>, ip: nat)
    requires WellFormed(Then(acc, s)) && Serialize(Then(acc, s)) <= src && ip <= |src| && src[..ip] == Serialize(acc)
    ensures At(src, ip, SequenceBytes(s)) && src[..ip + |SequenceBytes(s)|] == Serialize(Then(acc, s))
  {
    NewestInBlock(acc, s, src);
    assert |src[..ip]| == ip;
  }

  lemma {:induction false} SerializedFits(src: seq<Byte>, mode: Mode, ip: nat, acc: Sequences, osize: nat)
    requires ip <= |src| && WellFormed(acc) && src[..ip] == Serialize(acc) && OutSize(acc) <= osize
    requires var out := Parse(src, mode, ip, acc, osize); out.Finished? && WellFormed(out.seqs) && out.next <= |src|
    requires ConsumesBlock(src, Parse(src, mode, ip, acc, osize))
    ensures LengthsFit(src, mode, ip, acc, osize)
    decreases |src| - ip
  {
    hide ReadSequence, Parse, SequenceBytes, LiteralFits, MatchFits, Closes, Serialize, At;
    if mode.Fast? || ip < mode.isize {
      var op := OutSize(acc);
      var out := Parse(src, mode, ip, acc, osize);
      ParseUnfolds(src, mode, ip, acc, osize);
      ReadSequenceAdvances(src, mode, ip, op, osize);
      match ReadSequence(src, mode, ip, op, osize)
      case Final(last, next) =>
        assert |src[..ip]| == ip;
        LastFits(src, mode, ip, op, osize);
      case Match(s, next) =>
        ParseKeeps(src, mode, next, Then(acc, s), osize);
        BeginsSerialized(Then(acc, s), out.seqs);
        NextIsWritten(acc, s, src, ip);
        WrittenFits(src, mode, ip, op, osize);
        if op + s.Size() != osize { SerializedFits(src, mode, next, Then(acc, s), osize); }
      case _ =>
    }
  }

  /** The decoded bytes are within the output. */
  lemma {:induction false} FinishesInside(src: seq<Byte>, mode: Mode, ip: nat, acc: Sequences, osize: nat)
    requires OutSize(acc) <= osize
    ensures var out := Parse(src, mode, ip, acc, osize); out.Finished? ==> OutSize(out.seqs) + |out.last| <= osize
    decreases |src| - ip
  {
    hide ReadSequence;
    if mode.Fast? || ip < mode.isize {
      ReadSequenceFits(src, mode, ip, OutSize(acc), osize);
      ReadSequenceAdvances(src, mode, ip, OutSize(acc), osize);
      match ReadSequence(src, mode, ip, OutSize(acc), osize)
      case Match(s, next) => FinishesInside(src, mode, next, Then(acc, s), osize);
      case _ =>
    }
  }

  /** A decoder accepts nothing but serialised blocks, as long as no offset is zero: the bytes it
      consumed are the serialisation of what it decoded, if and only if no length field has wrapped. */
  lemma AcceptedIsSerialized(src: seq<Byte>, mode: Mode, osize: nat)
    requires var out := Parse(src, mode, 0, Empty, osize); out.Finished? && WellFormed(out.seqs)
    ensures var out := Parse(src, mode, 0, Empty, osize);
            out.next <= |src| && OutSize(out.seqs) + |out.last| <= osize
            && (ConsumesBlock(src, out) <==> LengthsFit(src, mode, 0, Empty, osize))
  {
    hide Parse, LengthsFit, ConsumesBlock;
    FinishesWithin(src, mode, 0, Empty, osize);
    FinishesInside(src, mode, 0, Empty, osize);
    if LengthsFit(src, mode, 0, Empty, osize) {
      FittingIsSerialized(src, mode, 0, Empty, osize);
    }
    if ConsumesBlock(src, Parse(src, mode, 0, Empty, osize)) {
      SerializedFits(src, mode, 0, Empty, osize);
    }
  }

  // ----- The size rule in the header -----

  /** The header's worst case: the input size plus 0.4 percent of it, at least eight bytes. */
  predicate MeetsHeaderRule(n: nat, size: nat) {
    1000 * size <= 1000 * n + (if 4 * n > 8000 then 4 * n else 8000)
  }

  function Digit(i: nat): nat { if i % 2 == 0 then i / 2 % 256 else i / 2 / 256 }

  /** An input in which no four bytes occur twice. */
  function Incompressible(n: nat): (data: seq<Byte>)
    requires n <= 131072
    ensures |data| == n && forall i :: 0 <= i < n ==> data[i] == Digit(i)
  {
    seq(n, i requires 0 <= i < n => assert i / 2 < 65536; Digit(i))
  }

  lemma EvenAndOddDiffer(k: nat, m: nat)
    requires m < 65536
    ensures !(k % 256 == m / 256 && (k + 1) % 256 == (m + 1) / 256
              && k / 256 == (m + 1) % 256 && (k + 1) / 256 == (m + 2) % 256)
  {
    var h, l := m / 256, m % 256;
    if l < 255 {
      assert (m + 1) / 256 == h;
      assert k % 256 != (k + 1) % 256;
    } else {
      assert (m + 1) / 256 == h + 1 && (m + 1) % 256 == 0 && (m + 2) % 256 == 1;
      if k / 256 == 0 && (k + 1) / 256 == 1 { assert k == 255; }
    }
  }

  lemma SameDigits(i: nat)
    ensures i % 2 == 0 ==> Digit(i) == i / 2 % 256 && Digit(i + 1) == i / 2 / 256
                           && Digit(i + 2) == (i / 2 + 1) % 256 && Digit(i + 3) == (i / 2 + 1) / 256
    ensures i % 2 == 1 ==> Digit(i) == i / 2 / 256 && Digit(i + 1) == (i / 2 + 1) % 256
                           && Digit(i + 2) == (i / 2 + 1) / 256 && Digit(i + 3) == (i / 2 + 2) % 256
  {
  }

  lemma TwoDigitsIdentify(k: nat, m: nat)
    ensures k % 256 == m % 256 && k / 256 == m / 256 ==> k == m
  {
  }

  lemma DigitsDiffer(i: nat, j: nat)
    requires i != j && i < 131072 && j < 131072
    ensures !(Digit(i) == Digit(j) && Digit(i + 1) == Digit(j + 1)
              && Digit(i + 2) == Digit(j + 2) && Digit(i + 3) == Digit(j + 3))
  {
    SameDigits(i);
    SameDigits(j);
    hide Digit;
    var k, m := i / 2, j / 2;
    if i % 2 == j % 2 {
      TwoDigitsIdentify(k, m);
      TwoDigitsIdentify(k + 1, m + 1);
    } else if i % 2 == 0 {
      EvenAndOddDiffer(k, m);
    } else {
      EvenAndOddDiffer(m, k);
    }
  }

  lemma NoWordTwice(n: nat, i: nat, j: nat)
    requires n <= 131072 && i != j && i + 4 <= n && j + 4 <= n
    ensures !SameBytes(Incompressible(n), i, j, 4)
  {
    hide Digit;
    DigitsDiffer(i, j);
    var d := Incompressible(n);
    assert d[i] == Digit(i) && d[i + 1] == Digit(i + 1) && d[i + 2] == Digit(i + 2) && d[i + 3] == Digit(i + 3);
    assert d[j] == Digit(j) && d[j + 1] == Digit(j + 1) && d[j + 2] == Digit(j + 2) && d[j + 3] == Digit(j + 3);
  }

  lemma CopyRepeats(base: seq<Byte>, offset: nat, length: nat, i: nat)
    requires 1 <= offset <= |base| <= i < |base| + length
    ensures CopyMatch(base, offset, length)[i] == CopyMatch(base, offset, length)[i - offset]
  {
    hide CopyMatch, Periodic;
    CopyMatchIsPeriodic(base, offset, length, i);
    CopyMatchIsPeriodic(base, offset, length, i - offset);
    PeriodicShift(base, |base|, offset, i, 1);
  }

  /** No four bytes of the data occur twice. */
  ghost predicate NoRepeats(data: seq<Byte>) {
    forall i: nat, j: nat :: j < i && i + 4 <= |data| ==> !SameBytes(data, i, j, 4)
  }

  /** A block whose newest sequence is a match repeats four bytes of the data. */
  lemma MatchRepeats(data: seq<Byte>, seqs: Sequences, last: seq<Byte>)
    requires IsBlockOf(seqs, last, data) && seqs.Then?
    ensures var start := OutSize(seqs.front) + |seqs.newest.literals|;
            1 <= seqs.newest.offset <= start && start + MFLIMIT <= |data|
            && SameBytes(data, start, start - seqs.newest.offset, 4)
            && Unpack(seqs.front) + seqs.newest.literals == data[..start]
  {
    hide CopyMatch;
    var s := seqs.newest;
    var base := Unpack(seqs.front) + s.literals;
    var all := CopyMatch(base, s.offset, s.matchLength);
    assert all == Unpack(seqs) && data == all + last;
    forall i | |base| <= i < |base| + 4 ensures data[i] == data[i - s.offset] {
      CopyRepeats(base, s.offset, s.matchLength, i);
      assert data[i] == all[i] && data[i - s.offset] == all[i - s.offset];
    }
  }

  /** An encoder finds no match in such an input. */
  lemma OnlyLiterals(data: seq<Byte>, seqs: Sequences, last: seq<Byte>)
    requires NoRepeats(data) && IsBlockOf(seqs, last, data)
    ensures seqs == Empty && last == data
  {
    if seqs.Then? { MatchRepeats(data, seqs, last); }
  }

  lemma IncompressibleHasNoRepeats(n: nat)
    requires n <= 131072
    ensures NoRepeats(Incompressible(n))
  {
    forall i: nat, j: nat | j < i && i + 4 <= n ensures !SameBytes(Incompressible(n), i, j, 4) {
      NoWordTwice(n, i, j);
    }
  }

  lemma BlockNeverExpands(seqs: Sequences, last: seq<Byte>, data: seq<Byte>)
    requires IsBlockOf(seqs, last, data)
    ensures |BlockBytes(seqs, last)| <= StoredSize(|data|)
  {
    PrefixNeverExpands(seqs, |last|);
    StoredBytesCount(last);
  }

  /** The header's worst case is enough for inputs of n bytes if and only if it is enough to store n
      bytes as literals.  It is not for n == 1800, for instance. */
  lemma HeaderRule(n: nat)
    ensures (forall seqs, last, data :: |data| == n && IsBlockOf(seqs, last, data)
               ==> MeetsHeaderRule(n, |BlockBytes(seqs, last)|))
            <==> MeetsHeaderRule(n, StoredSize(n))
    ensures !MeetsHeaderRule(1800, StoredSize(1800))
  {
    forall seqs, last, data | |data| == n && IsBlockOf(seqs, last, data)
      ensures |BlockBytes(seqs, last)| <= StoredSize(n)
    {
      BlockNeverExpands(seqs, last, data);
    }
    if n <= 131072 {
      var data := Incompressible(n);
      assert IsBlockOf(Empty, data, data);
      StoredBytesCount(data);
      assert |BlockBytes(Empty, data)| == StoredSize(n);
    }
  }

  /** The compressor itself needs all of that room on some input of every length up to 128 KB. */
  method WorstCase(n: nat) returns (size: nat)
    requires n <= 131072
    ensures size == StoredSize(n)
  {
    var data := Incompressible(n);
    var buffer := new Byte[StoredSize(n)];
    ghost var seqs, last;
    size, seqs, last := Compress(data, buffer);
    IncompressibleHasNoRepeats(n);
    OnlyLiterals(data, seqs, last);
    StoredBytesCount(last);
    assert |buffer[..size]| == size;
  }
}
