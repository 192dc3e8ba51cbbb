/** What holds of the LZ4 format independently of any encoder or decoder: parsing inverts
    serialisation, a repeated copy is periodic, and a block is never larger than the same bytes
    stored as literals. */
module Lz4Theory {
  import opened Bits
  import opened Lz4Format

  // ----- Parsing inverts serialisation -----

  ghost predicate At(src: seq<Byte>, ip: nat, bytes: seq<Byte>) {
    ip + |bytes| <= |src| && src[ip..ip + |bytes|] == bytes
  }

  lemma AtSplit(src: seq<Byte>, ip: nat, a: seq<Byte>, b: seq<Byte>)
    requires At(src, ip, a + b)
    ensures At(src, ip, a) && At(src, ip + |a|, b)
  {
    var m := ip + |a|;
    assert src[ip..m] == src[ip..ip + |a + b|][..|a|];
    assert src[m..m + |b|] == src[ip..ip + |a + b|][|a|..];
  }

  lemma {:induction false} RunRoundTrip(src: seq<Byte>, ip: nat, v: nat, length: nat)
    requires At(src, ip, RunBytes(v))
    ensures ReadRun(src, ip, length) == Length(length + v, ip + |RunBytes(v)|)
    decreases v
  {
    assert src[ip] == src[ip..ip + |RunBytes(v)|][0] == RunBytes(v)[0];
    if v >= 255 {
      AtSplit(src, ip, [255], RunBytes(v - 255));
      RunRoundTrip(src, ip + 1, v - 255, length + 255);
    }
  }

  lemma LengthRoundTrip(src: seq<Byte>, ip: nat, v: nat)
    requires At(src, ip, ExtraBytes(v))
    ensures ReadField(src, Nibble(v), ip) == Length(v, ip + |ExtraBytes(v)|)
  {
    if v >= RUN_MASK { RunRoundTrip(src, ip, v - RUN_MASK, RUN_MASK); }
  }

  lemma LiteralsRoundTrip(src: seq<Byte>, ip: nat, literals: seq<Byte>, low: nat)
    requires low <= RUN_MASK && At(src, ip, LiteralBytes(literals, low))
    ensures ip < |src| && src[ip] / 16 == Nibble(|literals|) && src[ip] % 16 == low
    ensures var p := ip + 1 + |ExtraBytes(|literals|)|;
            ReadField(src, src[ip] / 16, ip + 1) == Length(|literals|, p) && At(src, p, literals)
            && p + |literals| == ip + |LiteralBytes(literals, low)|
  {
    hide ReadField, ExtraBytes;
    var token: Byte := 16 * Nibble(|literals|) + low;
    var extra := ExtraBytes(|literals|);
    assert LiteralBytes(literals, low) == [token] + (extra + literals);
    AtSplit(src, ip, [token], extra + literals);
    AtSplit(src, ip + 1, extra, literals);
    assert src[ip] == src[ip..ip + 1][0];
    LengthRoundTrip(src, ip + 1, |literals|);
  }

  lemma MatchRoundTrip(src: seq<Byte>, s: Sequence, q: nat, start: nat, osize: nat)
    requires s.matchLength >= MINMATCH && s.offset <= MAX_DISTANCE && s.offset <= start
    requires start + s.matchLength <= osize && s.matchLength < INT_LIMIT
    requires At(src, q, MatchBytes(s.offset, s.matchLength - MINMATCH))
    ensures var code := s.matchLength - MINMATCH;
            ReadMatch(src, Nibble(code), s.literals, q, start, osize)
            == Match(s, q + |MatchBytes(s.offset, code)|)
  {
    var code := s.matchLength - MINMATCH;
    var pair: seq<Byte> := [s.offset % 256, s.offset / 256];
    AtSplit(src, q, pair, ExtraBytes(code));
    assert src[q] == src[q..q + 2][0] && src[q + 1] == src[q..q + 2][1];
    LengthRoundTrip(src, q + 2, code);
  }

  /** One turn of the decoder reads back one serialised sequence, whatever follows it, as long as
      the eight-byte literal copy finds eight readable bytes after the literals. */
  lemma SequenceRoundTrip(src: seq<Byte>, mode: Mode, ip: nat, s: Sequence, op: nat, osize: nat)
    requires s.matchLength >= MINMATCH && s.offset <= MAX_DISTANCE
    requires s.offset <= op + |s.literals| <= osize - MFLIMIT && op + s.Size() <= osize && s.Size() < INT_LIMIT
    requires At(src, ip, SequenceBytes(s)) && ip + |SequenceBytes(s)| + 6 <= |src|
    requires mode.Bounded? ==> ip + |SequenceBytes(s)| <= mode.isize
    ensures ReadSequence(src, mode, ip, op, osize) == Match(s, ip + |SequenceBytes(s)|)
  {
    hide ReadMatch, LiteralBytes, RunBytes, ReadRun;
    var code := s.matchLength - MINMATCH;
    var lit, mat := LiteralBytes(s.literals, Nibble(code)), MatchBytes(s.offset, code);
    AtSplit(src, ip, lit, mat);
    LiteralsRoundTrip(src, ip, s.literals, Nibble(code));
    MatchRoundTrip(src, s, ip + |lit|, op + |s.literals|, osize);
    var p := ip + 1 + |ExtraBytes(|s.literals|)|;
    assert src[p..p + |s.literals|] == s.literals;
    assert p + |s.literals| + COPYLENGTH <= |src|;
    assert ReadSequence(src, mode, ip, op, osize)
        == ReadMatch(src, Nibble(code), s.literals, ip + |lit|, op + |s.literals|, osize);
  }

  lemma LastRoundTrip(src: seq<Byte>, mode: Mode, ip: nat, last: seq<Byte>, op: nat, osize: nat)
    requires At(src, ip, LiteralBytes(last, 0)) && |last| < INT_LIMIT
    requires var end := ip + |LiteralBytes(last, 0)|;
             match mode
             case Fast => op + |last| == osize
             case Bounded(isize) =>
               op + |last| <= osize && isize == end
               && (op + |last| + COPYLENGTH <= osize ==> end - |last| + WildLength(|last|) <= |src|)
    ensures ReadSequence(src, mode, ip, op, osize) == Final(last, ip + |LiteralBytes(last, 0)|)
  {
    LiteralsRoundTrip(src, ip, last, 0);
  }

  /** How many readable bytes a decoder needs for a block of n bytes: the block itself when it knows the
      output size or has less than eight bytes of output to spare, otherwise what the eight-byte copy of
      the last literals touches. */
  function NeededInput(mode: Mode, block: seq<Byte>, last: seq<Byte>, n: nat, osize: nat): (k: nat)
    ensures |block| <= k <= |block| + COPYLENGTH
  {
    if mode.Bounded? && n + COPYLENGTH <= osize then |block| - |last| + WildLength(|last|) else |block|
  }

  /** The readable input starts with the block and is as long as the decoder needs. */
  ghost predicate Readable(src: seq<Byte>, mode: Mode, block: seq<Byte>, last: seq<Byte>, n: nat, osize: nat) {
    block <= src && NeededInput(mode, block, last, n, osize) <= |src| &&
    match mode
    case Fast => osize == n
    case Bounded(isize) => osize >= n && isize == |block|
  }

  lemma NewestInBlock(front: Sequences, s: Sequence, src: seq<Byte>)
    requires WellFormed(Then(front, s)) && Serialize(Then(front, s)) <= src
    ensures Serialize(front) <= src && At(src, |Serialize(front)|, SequenceBytes(s))
    ensures |Serialize(Then(front, s))| == |Serialize(front)| + |SequenceBytes(s)| > |Serialize(front)| + 2
  {
    assert At(src, 0, Serialize(front) + SequenceBytes(s));
    AtSplit(src, 0, Serialize(front), SequenceBytes(s));
  }

  lemma ParseOneMore(src: seq<Byte>, mode: Mode, ip: nat, acc: Sequences, s: Sequence, next: nat, osize: nat)
    requires mode.Bounded? ==> ip < mode.isize
    requires ReadSequence(src, mode, ip, OutSize(acc), osize) == Match(s, next)
    requires OutSize(acc) + s.Size() != osize
    ensures Parse(src, mode, ip, acc, osize) == Parse(src, mode, next, Then(acc, s), osize)
  {
  }

  lemma {:induction false} ParseSequences(seqs: Sequences, n: nat, src: seq<Byte>, mode: Mode, osize: nat)
    requires WellFormed(seqs) && EndsEarly(seqs, n) && n <= osize && n < INT_LIMIT
    requires Serialize(seqs) <= src && (!seqs.Empty? ==> |Serialize(seqs)| + 6 <= |src|)
    requires mode.Bounded? ==> |Serialize(seqs)| < mode.isize
    ensures Parse(src, mode, 0, Empty, osize) == Parse(src, mode, |Serialize(seqs)|, seqs, osize)
  {
    match seqs
    case Empty =>
    case Then(front, s) =>
      hide ReadSequence, LiteralBytes, MatchBytes, SequenceBytes, Serialize, Parse;
      var ip := |Serialize(front)|;
      NewestInBlock(front, s, src);
      ParseSequences(front, n, src, mode, osize);
      SequenceRoundTrip(src, mode, ip, s, OutSize(front), osize);
      ParseOneMore(src, mode, ip, front, s, |Serialize(seqs)|, osize);
  }

  lemma ParseEnds(src: seq<Byte>, mode: Mode, ip: nat, acc: Sequences, last: seq<Byte>, next: nat, osize: nat)
    requires mode.Bounded? ==> ip < mode.isize
    requires ReadSequence(src, mode, ip, OutSize(acc), osize) == Final(last, next)
    ensures Parse(src, mode, ip, acc, osize) == Finished(acc, last, next)
  {
  }

  lemma LastOfBlock(seqs: Sequences, last: seq<Byte>, data: seq<Byte>)
    requires IsBlockOf(seqs, last, data)
    ensures |LiteralBytes(last, 0)| >= 1 + |last| && OutSize(seqs) + |last| == |data|
    ensures seqs.Then? ==> |last| >= LASTLITERALS
    ensures |BlockBytes(seqs, last)| == |Serialize(seqs)| + |LiteralBytes(last, 0)|
  {
  }

  /** Both decoders' view of a block an encoder may produce is the block itself. */
  lemma ParseInvertsSerialize(seqs: Sequences, last: seq<Byte>, data: seq<Byte>,
                              src: seq<Byte>, mode: Mode, osize: nat)
    requires IsBlockOf(seqs, last, data) && |data| < INT_LIMIT
    requires Readable(src, mode, BlockBytes(seqs, last), last, |data|, osize)
    ensures Parse(src, mode, 0, Empty, osize) == Finished(seqs, last, |BlockBytes(seqs, last)|)
  {
    hide Parse, ReadSequence, LiteralBytes, Serialize, WildLength, Unpack;
    var done, tail := Serialize(seqs), LiteralBytes(last, 0);
    LastOfBlock(seqs, last, data);
    assert At(src, 0, done + tail);
    AtSplit(src, 0, done, tail);
    ParseSequences(seqs, |data|, src, mode, osize);
    LastRoundTrip(src, mode, |done|, last, OutSize(seqs), osize);
    ParseEnds(src, mode, |done|, seqs, last, |done| + |tail|, osize);
  }

  // ----- Repeated copies are periodic -----

  lemma ModuloShift(x: int, period: int, times: int)
    requires period > 0
    ensures (x - times * period) % period == x % period
  {
    var q := (x - times * period) / period;
    var r := (x - times * period) % period;
    assert x == (q + times) * period + r by {
      assert (q + times) * period == q * period + times * period;
    }
    DivModUnique(x, period, q + times, r);
  }

  /** The byte at position i of a run that repeats the `offset` bytes before position `start`. */
  function Periodic(out: seq<Byte>, start: nat, offset: nat, i: nat): Byte
    requires 1 <= offset <= start <= |out| && start - offset <= i
  {
    out[start - offset + (i - (start - offset)) % offset]
  }

  lemma PeriodicSource(out: seq<Byte>, start: nat, offset: nat, i: nat)
    requires 1 <= offset <= start <= |out| && start - offset <= i < start
    ensures Periodic(out, start, offset, i) == out[i]
  {
    DivModUnique(i - (start - offset), offset, 0, i - (start - offset));
  }

  lemma PeriodicShift(out: seq<Byte>, start: nat, offset: nat, i: nat, times: nat)
    requires 1 <= offset <= start <= |out| && start - offset + times * offset <= i
    ensures i - times * offset >= 0
    ensures Periodic(out, start, offset, i - times * offset) == Periodic(out, start, offset, i)
  {
    assert times * offset >= 0;
    ModuloShift(i - (start - offset), offset, times);
  }

  /** Copying byte by byte from `offset` back repeats the last `offset` bytes over and over. */
  lemma {:induction false} CopyMatchIsPeriodic(out: seq<Byte>, offset: nat, length: nat, i: nat)
    requires 1 <= offset <= |out| && |out| - offset <= i < |out| + length
    ensures CopyMatch(out, offset, length)[i] == Periodic(out, |out|, offset, i)
  {
    hide Periodic;
    if i < |out| {
      PeriodicSource(out, |out|, offset, i);
    } else if i < |out| + length - 1 {
      CopyMatchIsPeriodic(out, offset, length - 1, i);
    } else {
      CopyMatchIsPeriodic(out, offset, length - 1, i - offset);
      PeriodicShift(out, |out|, offset, i, 1);
    }
  }

  // ----- Size -----

  /** The number of extra length bytes: `ExtraCount(v) == |ExtraBytes(v)|`. */
  function ExtraCount(v: nat): nat { (v + 240) / 255 }

  lemma {:induction false} RunBytesCount(v: nat)
    ensures |RunBytes(v)| == v / 255 + 1
  {
    if v >= 255 { RunBytesCount(v - 255); }
  }

  lemma ExtraBytesCount(v: nat)
    ensures |ExtraBytes(v)| == ExtraCount(v)
  {
    if v >= RUN_MASK { RunBytesCount(v - RUN_MASK); }
  }

  /** The size of n bytes stored as one run of literals. */
  function StoredSize(n: nat): nat { 1 + ExtraCount(n) + n }

  lemma StoredBytesCount(last: seq<Byte>)
    ensures |LiteralBytes(last, 0)| == StoredSize(|last|)
  {
    ExtraBytesCount(|last|);
  }

  lemma SequenceBytesCount(s: Sequence)
    requires s.matchLength >= MINMATCH && s.offset <= MAX_DISTANCE
    ensures |SequenceBytes(s)| == StoredSize(|s.literals|) + 2 + ExtraCount(s.matchLength - MINMATCH)
  {
    ExtraBytesCount(|s.literals|);
    ExtraBytesCount(s.matchLength - MINMATCH);
  }

  /** At any point of a block, what has been written and the rest stored as literals take no more
      room than everything stored as literals. */
  lemma {:induction false} PrefixNeverExpands(seqs: Sequences, rest: nat)
    requires WellFormed(seqs)
    ensures |Serialize(seqs)| + StoredSize(rest) <= StoredSize(OutSize(seqs) + rest)
  {
    match seqs
    case Empty =>
    case Then(front, s) =>
      SequenceBytesCount(s);
      PrefixNeverExpands(front, s.Size() + rest);
  }
}
