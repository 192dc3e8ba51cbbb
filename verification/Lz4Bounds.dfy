/** How far the decoders write beyond their output, and how much input they need to read. */
module Lz4Bounds {
  import opened Bits
  import opened Lz4Format
  import opened Lz4Theory
  import opened Lz4Copy
  import opened Lz4Uncompress

  // ----- Writes -----

  lemma {:induction false} EncodedFits(seqs: Sequences, n: nat, osize: nat)
    requires WellFormed(seqs) && EndsEarly(seqs, n) && n <= osize
    ensures AllFit(seqs, osize)
    ensures seqs.Then? ==> MatchStart(seqs) + MFLIMIT <= n
  {
    if seqs.Then? { EncodedFits(seqs.front, n, osize); }
  }

  /** Blocks that an encoder may produce make a decoder write at most four bytes beyond the output, since
      no match starts in the last twelve bytes. */
  lemma EncodedReach(seqs: Sequences, last: seq<Byte>, data: seq<Byte>, src: seq<Byte>, mode: Mode, osize: nat)
    requires IsBlockOf(seqs, last, data) && |data| <= osize && |data| < INT_LIMIT
    requires Readable(src, mode, BlockBytes(seqs, last), last, |data|, osize)
    ensures Copied(src, mode, 0, Empty, osize) == seqs
    ensures AllFit(seqs, osize) && Reach(src, mode, osize) == DecodeReach(seqs, osize) <= osize + 4
  {
    ParseInvertsSerialize(seqs, last, data, src, mode, osize);
    FinishedIsCopied(src, mode, 0, Empty, osize);
    hide Parse, Copied, BlockBytes;
    EncodedFits(seqs, |data|, osize);
    if seqs.Then? { ReachOfNewest(seqs, osize); }
  }

  // ----- Reads -----

  /** Cutting the readable input short makes a reading fail or leaves it as it is. */
  lemma {:induction false} RunCutShort(src: seq<Byte>, k: nat, ip: nat, length: nat)
    requires k <= |src|
    ensures ReadRun(src[..k], ip, length).NoLength? || ReadRun(src[..k], ip, length) == ReadRun(src, ip, length)
    decreases |src| - ip
  {
    if ip < k && src[ip] == 255 { RunCutShort(src, k, ip + 1, length + 255); }
  }

  lemma LengthCutShort(src: seq<Byte>, k: nat, nibble: nat, ip: nat)
    requires k <= |src|
    ensures ReadLength(src[..k], nibble, ip).NoLength?
              || ReadLength(src[..k], nibble, ip) == ReadLength(src, nibble, ip)
  {
    RunCutShort(src, k, ip, nibble);
    hide ReadRun;
  }

  lemma LengthAdvances(src: seq<Byte>, nibble: nat, ip: nat)
    ensures var r := ReadLength(src, nibble, ip); r.Length? ==> r.next >= ip
  {
    ReadRunAdvances(src, ip, nibble);
  }

  lemma MatchCutShort(src: seq<Byte>, k: nat, code: nat, literals: seq<Byte>, q: nat, start: nat, osize: nat)
    requires k <= |src| && code <= RUN_MASK
    ensures var cut := ReadMatch(src[..k], code, literals, q, start, osize);
            cut.NeedMore? || cut == ReadMatch(src, code, literals, q, start, osize)
  {
    hide ReadLength;
    LengthCutShort(src, k, code, q + 2);
  }

  lemma SequenceCutShort(src: seq<Byte>, k: nat, mode: Mode, ip: nat, op: nat, osize: nat)
    requires k <= |src|
    ensures var cut := ReadSequence(src[..k], mode, ip, op, osize);
            cut.NeedMore? || cut == ReadSequence(src, mode, ip, op, osize)
  {
    hide ReadLength, ReadMatch, WildLength;
    if ip < k {
      var s := src[..k];
      LengthCutShort(src, k, src[ip] / 16, ip + 1);
      var r := ReadLength(s, src[ip] / 16, ip + 1);
      if r.Length? && r.value >= 0 && r.next + r.value <= k {
        LengthAdvances(s, src[ip] / 16, ip + 1);
        assert s[r.next..r.next + r.value] == src[r.next..r.next + r.value];
        MatchCutShort(src, k, src[ip] % 16, src[r.next..r.next + r.value], r.next + r.value, op + r.value, osize);
      }
    }
  }

  lemma {:induction false} ParseCutShort(src: seq<Byte>, k: nat, mode: Mode, ip: nat, acc: Sequences, osize: nat)
    requires k <= |src|
    ensures var cut := Parse(src[..k], mode, ip, acc, osize);
            cut.Overrun? || cut == Parse(src, mode, ip, acc, osize)
    decreases |src| - ip
  {
    if mode.Fast? || ip < mode.isize {
      SequenceCutShort(src, k, mode, ip, OutSize(acc), osize);
      ReadSequenceAdvances(src, mode, ip, OutSize(acc), osize);
      ParseUnfolds(src, mode, ip, acc, osize);
      ParseUnfolds(src[..k], mode, ip, acc, osize);
      hide ReadSequence, Parse;
      match ReadSequence(src, mode, ip, OutSize(acc), osize)
      case Match(s, next) => ParseCutShort(src, k, mode, next, Then(acc, s), osize);
      case _ =>
    } else {
      InputEnds(src, mode, ip, acc, osize);
      InputEnds(src[..k], mode, ip, acc, osize);
    }
  }

  lemma TurnWithin(src: seq<Byte>, mode: Mode, ip: nat, op: nat, osize: nat)
    ensures var step := ReadSequence(src, mode, ip, op, osize); step.Final? ==> step.next <= |src|
  {
    hide ReadLength;
  }

  /** A decoder that finishes has not gone beyond the readable input. */
  lemma {:induction false} FinishesWithin(src: seq<Byte>, mode: Mode, ip: nat, acc: Sequences, osize: nat)
    requires ip <= |src|
    ensures var out := Parse(src, mode, ip, acc, osize); out.Finished? ==> out.next <= |src|
    decreases |src| - ip
  {
    hide ReadSequence;
    if mode.Fast? || ip < mode.isize {
      TurnWithin(src, mode, ip, OutSize(acc), osize);
      ReadSequenceAdvances(src, mode, ip, OutSize(acc), osize);
      match ReadSequence(src, mode, ip, OutSize(acc), osize)
      case Match(s, next) => FinishesWithin(src, mode, next, Then(acc, s), osize);
      case _ =>
    }
  }
}
