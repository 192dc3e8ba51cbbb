/** Where the LZ4 decoders fall short of what their header promises: they write beyond the output, read
    beyond the input and go astray on very long lengths, with inputs that show it. */
module Lz4Shortfalls {
  import opened Bits
  import opened Lz4Format
  import opened Lz4Theory
  import opened Lz4Copy
  import opened Lz4Compress
  import opened Lz4Uncompress
  import opened Lz4Bounds
  import opened Lz4RoundTrip
  import opened Lz4Lengths

  // ----- Reads -----

  /** With eight bytes of output to spare the last literals are copied eight at a time. */
  lemma LastNeedsInput(src: seq<Byte>, mode: Mode, ip: nat, last: seq<Byte>, op: nat, osize: nat)
    requires At(src, ip, LiteralBytes(last, 0)) && |last| < INT_LIMIT && op + |last| + COPYLENGTH <= osize
    requires ip + |LiteralBytes(last, 0)| - |last| + WildLength(|last|) > |src|
    ensures ReadSequence(src, mode, ip, op, osize).NeedMore?
  {
    hide LiteralBytes, ReadField, WildLength;
    LiteralsRoundTrip(src, ip, last, 0);
  }

  lemma LastNeedMore(src: seq<Byte>, mode: Mode, ip: nat, acc: Sequences, osize: nat)
    requires mode.Bounded? ==> ip < mode.isize
    requires ReadSequence(src, mode, ip, OutSize(acc), osize).NeedMore?
    ensures Parse(src, mode, ip, acc, osize).Overrun?
  {
    hide ReadSequence;
  }

  lemma WholeBlockCutShort(seqs: Sequences, last: seq<Byte>, data: seq<Byte>, src: seq<Byte>, isize: nat, osize: nat)
    requires IsBlockOf(seqs, last, data) && |data| < INT_LIMIT && |data| + COPYLENGTH <= osize
    requires BlockBytes(seqs, last) <= src && isize == |BlockBytes(seqs, last)|
    requires |src| < |BlockBytes(seqs, last)| - |last| + WildLength(|last|)
    ensures Parse(src, Bounded(isize), 0, Empty, osize).Overrun?
  {
    hide Parse, ReadSequence, LiteralBytes, Serialize, WildLength, Unpack;
    var done, tail := Serialize(seqs), LiteralBytes(last, 0);
    LastOfBlock(seqs, last, data);
    assert At(src, 0, done + tail);
    AtSplit(src, 0, done, tail);
    ParseSequences(seqs, |data|, src, Bounded(isize), osize);
    LastNeedsInput(src, Bounded(isize), |done|, last, OutSize(seqs), osize);
    LastNeedMore(src, Bounded(isize), |done|, seqs, osize);
  }

  /** A decoder reads beyond the first k readable bytes of a block an encoder may produce if and only if
      they are fewer than it needs. */
  lemma ReadsBeyond(seqs: Sequences, last: seq<Byte>, data: seq<Byte>, src: seq<Byte>, mode: Mode, osize: nat, k: nat)
    requires IsBlockOf(seqs, last, data) && |data| < INT_LIMIT && k <= |src|
    requires Readable(src, mode, BlockBytes(seqs, last), last, |data|, osize)
    ensures Parse(src[..k], mode, 0, Empty, osize).Overrun?
            <==> k < NeededInput(mode, BlockBytes(seqs, last), last, |data|, osize)
  {
    hide Parse, BlockBytes, WildLength;
    var block := BlockBytes(seqs, last);
    var cut := src[..k];
    ParseInvertsSerialize(seqs, last, data, src, mode, osize);
    if k >= NeededInput(mode, block, last, |data|, osize) {
      assert block <= cut;
      ParseInvertsSerialize(seqs, last, data, cut, mode, osize);
    } else if k < |block| {
      ParseCutShort(src, k, mode, 0, Empty, osize);
      FinishesWithin(cut, mode, 0, Empty, osize);
    } else {
      assert block <= cut;
      WholeBlockCutShort(seqs, last, data, cut, mode.isize, osize);
    }
  }

  /** Each decoder reads on when it needs more: the first at a block cut short by a byte, the second even
      at a whole block when the bytes behind it are not readable. */
  lemma ReadsPastTheInput()
    ensures IsBlockOf(Empty, [97], [97]) && BlockBytes(Empty, [97]) == [16, 97]
    ensures Parse([16], Fast, 0, Empty, 1).Overrun?
    ensures Parse([16, 97], Bounded(2), 0, Empty, 9).Overrun?
  {
  }

  // ----- Writes -----

  /** Five times the same byte, and nine others. */
  const SHORT_REPEAT: seq<Byte> := [97, 97, 97, 97, 97, 98, 99, 100, 101, 102, 103, 104, 105, 106]

  lemma NoRepeatAtTwo()
    ensures !SameBytes(SHORT_REPEAT, 2, 1, 4) && !SameBytes(SHORT_REPEAT, 2, 0, 4)
  {
    assert SHORT_REPEAT[5] != SHORT_REPEAT[4] && SHORT_REPEAT[5] != SHORT_REPEAT[3];
  }

  /** The search at the start is offered the repeated byte. */
  lemma SomethingIsFound(small: bool, seqs: Sequences, last: seq<Byte>)
    requires IsBlockOf(seqs, last, SHORT_REPEAT) && StartsRight(SHORT_REPEAT, small, seqs, |last|)
    ensures seqs.Then?
  {
    assert Offered(SHORT_REPEAT, small, 0, 0, 1);
  }

  lemma OnlyOneMatchPossible(seqs: Sequences, last: seq<Byte>)
    requires IsBlockOf(seqs, last, SHORT_REPEAT) && seqs.Then?
    ensures MatchStart(seqs) == 1 && seqs.newest.offset == 1 && Unpack(seqs.front) + seqs.newest.literals == [97]
  {
    MatchRepeats(SHORT_REPEAT, seqs, last);
    NoRepeatAtTwo();
  }

  lemma PeriodOfOne(b: Byte, i: nat)
    ensures Periodic([b], 1, 1, i) == b
  {
  }

  /** What lies beyond the output of a match of one repeated byte. */
  lemma GoesOn(dest: seq<Byte>, seqs: Sequences, osize: nat, b: Byte, i: nat)
    requires AllFit(seqs, osize) && DecodeReach(seqs, osize) <= |dest| && Beyond(dest, seqs, osize)
    requires WellFormed(seqs) && seqs.Then? && seqs.newest.offset == 1
    requires Unpack(seqs.front) + seqs.newest.literals == [b] && osize <= i < DecodeReach(seqs, osize)
    ensures dest[i] == b
  {
    PeriodOfOne(b, i);
    hide Periodic;
  }

  /** The compressor's own output makes the decoder write three bytes beyond the output. */
  method OwnOutputWritesBeyond() returns (out: seq<Byte>)
    ensures |out| == 18 && out[..14] == SHORT_REPEAT && out[14..] == [97, 97, 97, 0]
  {
    hide Parse, Copied, DecodeReach, BlockBytes, Periodic, Beyond, StoredSize, Reach, Prompt, StartsRight,
         LongestMatches;
    var data := SHORT_REPEAT;
    var buffer := new Byte[StoredSize(14)];
    var n, seqs, last := Compress(data, buffer);
    ghost var packed := buffer[..n];
    var dest := new Byte[18](_ => 0);
    ParseInvertsSerialize(seqs, last, data, packed, Fast, 14);
    EncodedReach(seqs, last, data, packed, Fast, 14);
    SomethingIsFound(true, seqs, last);
    OnlyOneMatchPossible(seqs, last);
    ReachOfNewest(seqs, 14);
    var r, lost := Decode(buffer[..n], Fast, dest, 14);
    out := dest[..];
    GoesOn(out, seqs, 14, 97, 14);
    GoesOn(out, seqs, 14, 97, 15);
    GoesOn(out, seqs, 14, 97, 16);
    assert out[..14] == dest[..14];
  }

  /** A block with a match eight bytes before the end of its output, which no encoder writes. */
  const LATE_MATCH: seq<Byte> := [16, 97, 1, 0, 64, 1, 2, 3, 4]

  lemma LateMatchTurns()
    ensures ReadSequence(LATE_MATCH, Fast, 0, 0, 9) == Match(Sequence([97], 1, 4), 4)
    ensures ReadSequence(LATE_MATCH, Fast, 4, 5, 9) == Final([1, 2, 3, 4], 9)
  {
    assert LATE_MATCH[1..2] == [97];
    assert LATE_MATCH[5..9] == [1, 2, 3, 4];
  }

  lemma FiveOfOneByte(b: Byte)
    ensures CopyMatch([b], 1, 4) == [b, b, b, b, b]
  {
    assert CopyMatch([b], 1, 1) == [b, b];
    assert CopyMatch([b], 1, 2) == [b, b, b];
    assert CopyMatch([b], 1, 3) == [b, b, b, b];
  }

  lemma LateMatchIsDecoded()
    ensures var seqs := Then(Empty, Sequence([97], 1, 4));
            Parse(LATE_MATCH, Fast, 0, Empty, 9) == Finished(seqs, [1, 2, 3, 4], 9) && WellFormed(seqs)
            && OutSize(seqs) == 5 && Unpack(seqs) == [97, 97, 97, 97, 97]
  {
    hide ReadSequence, Parse, CopyMatch;
    var seqs := Then(Empty, Sequence([97], 1, 4));
    assert OutSize(Empty) == 0 && OutSize(seqs) == 5;
    LateMatchTurns();
    ParseUnfolds(LATE_MATCH, Fast, 0, Empty, 9);
    ParseUnfolds(LATE_MATCH, Fast, 4, seqs, 9);
    FiveOfOneByte(97);
    assert Unpack(Empty) + [97] == [97];
  }

  /** The whole slack of eight bytes is used. */
  method EightBytesBeyond() returns (r: int, out: seq<Byte>)
    ensures r == 9 && |out| == 18
    ensures out == [97, 97, 97, 97, 97, 1, 2, 3, 4] + [97, 97, 97, 97, 97, 97, 97, 97] + [0]
  {
    hide Parse, Copied, DecodeReach, Periodic, Beyond, ReadSequence, CopyMatch;
    var dest := new Byte[18](_ => 0);
    LateMatchIsDecoded();
    FinishedIsCopied(LATE_MATCH, Fast, 0, Empty, 9);
    ghost var seqs := Then(Empty, Sequence([97], 1, 4));
    assert AllFit(seqs, 9);
    ReachOfNewest(seqs, 9);
    var lost;
    r, lost := Decode(LATE_MATCH, Fast, dest, 9);
    out := dest[..];
    forall i | 9 <= i < 17 ensures out[i] == 97 { GoesOn(out, seqs, 9, 97, i); }
    assert out[..9] == [97, 97, 97, 97, 97] + [1, 2, 3, 4];
  }

  /** A block that ends as early as an encoder's may: its match starts twelve bytes before the end. */
  const EARLIEST_END: seq<Byte> := [16, 97, 1, 0, 128, 98, 99, 100, 101, 102, 103, 104, 105]
  const EARLIEST_LAST: seq<Byte> := [98, 99, 100, 101, 102, 103, 104, 105]
  const EARLIEST_DATA: seq<Byte> := [97, 97, 97, 97, 97, 98, 99, 100, 101, 102, 103, 104, 105]

  lemma EarliestEndBytes()
    ensures LiteralBytes([97], 0) == [16, 97] && MatchBytes(1, 0) == [1, 0]
    ensures LiteralBytes(EARLIEST_LAST, 0) == [128] + EARLIEST_LAST
  {
  }

  lemma EarliestEndIsBlock()
    ensures var seqs := Then(Empty, Sequence([97], 1, 4));
            IsBlockOf(seqs, EARLIEST_LAST, EARLIEST_DATA) && BlockBytes(seqs, EARLIEST_LAST) == EARLIEST_END
            && Unpack(Empty) + [97] == [97] && AllFit(seqs, 13) && MatchStart(seqs) == 1
  {
    hide CopyMatch, LiteralBytes, MatchBytes;
    FiveOfOneByte(97);
    EarliestEndBytes();
    assert Unpack(Empty) + [97] == [97];
    assert OutSize(Empty) == 0;
    var seqs := Then(Empty, Sequence([97], 1, 4));
    assert Unpack(seqs) == [97, 97, 97, 97, 97] && WellFormed(seqs) && EndsEarly(seqs, 13);
    assert Unpack(seqs) + EARLIEST_LAST == EARLIEST_DATA;
  }

  lemma BlockIsWhole(seqs: Sequences, last: seq<Byte>, data: seq<Byte>)
    requires IsBlockOf(seqs, last, data)
    ensures WellFormed(seqs) && Unpack(seqs) + last == data
  {
  }

  /** The slack of four bytes that encoded blocks need is used. */
  method FourBytesBeyond() returns (r: int, out: seq<Byte>)
    ensures r == 13 && |out| == 18 && out == EARLIEST_DATA + [97, 97, 97, 97] + [0]
    ensures exists seqs, last :: IsBlockOf(seqs, last, EARLIEST_DATA) && BlockBytes(seqs, last) == EARLIEST_END
  {
    hide Parse, Copied, DecodeReach, Periodic, Beyond, Reach, CopyMatch, BlockBytes, IsBlockOf, AllFit;
    var dest := new Byte[18](_ => 0);
    ghost var seqs := Then(Empty, Sequence([97], 1, 4));
    EarliestEndIsBlock();
    BlockIsWhole(seqs, EARLIEST_LAST, EARLIEST_DATA);
    ParseInvertsSerialize(seqs, EARLIEST_LAST, EARLIEST_DATA, EARLIEST_END, Fast, 13);
    EncodedReach(seqs, EARLIEST_LAST, EARLIEST_DATA, EARLIEST_END, Fast, 13);
    ReachOfNewest(seqs, 13);
    var lost;
    r, lost := Decode(EARLIEST_END, Fast, dest, 13);
    out := dest[..];
    forall i | 13 <= i < 17 ensures out[i] == 97 { GoesOn(out, seqs, 13, 97, i); }
    assert out[..13] == EARLIEST_DATA;
  }

  // ----- Lengths -----

  /** How many full bytes make the match length of this block 2147483794. */
  const FULL_BYTES: nat := 8421505

  /** One literal, an offset of one and a match length that an `int` holds as -2147483506; the code adds
      four to it. */
  function LongMatch(b: Byte, rest: seq<Byte>): (src: seq<Byte>)
    ensures |src| == FULL_BYTES + 5 + |rest|
  {
    [31, b, 1, 0] + seq(FULL_BYTES, _ => 255) + [0] + rest
  }

  lemma LongMatchTurn(b: Byte, rest: seq<Byte>, mode: Mode)
    requires mode.Bounded? ==> mode.isize > 2
    ensures ReadSequence(LongMatch(b, rest), mode, 0, 0, 100) == Astray(17, -2147483501, FULL_BYTES + 5)
    ensures LiteralFits(LongMatch(b, rest), 0) && !MatchFits(LongMatch(b, rest), mode, 0, 0, 100)
    ensures LongMatch(b, rest)[0] == 31 && ReadField(LongMatch(b, rest), 15, 4) == Length(2147483790, FULL_BYTES + 5)
  {
    var src := LongMatch(b, rest);
    SameRun(src, 4, FULL_BYTES, 15);
    hide ReadRun;
    assert src[0] == 31 && src[1] == b && src[2] == 1 && src[3] == 0;
  }

  lemma RightAnswer(src: seq<Byte>, mode: Mode)
    requires mode.Bounded? ==> mode.isize > 0
    requires |src| > 2 && src[0] == 31 && ReadField(src, 15, 4) == Length(2147483790, FULL_BYTES + 5)
    requires LiteralFits(src, 0) && !MatchFits(src, mode, 0, 0, 100)
    ensures RightParse(src, mode, 0, Empty, 100) == Corrupt(FULL_BYTES + 5)
  {
    hide ReadRun;
    assert OutSize(Empty) == 0;
  }

  /** A decoder goes astray on it: after seventeen bytes it goes on two gigabytes in front of the output,
      although the right answer is an error. */
  lemma LongMatchStrays(b: Byte, rest: seq<Byte>, mode: Mode)
    requires mode.Bounded? ==> mode.isize > 2
    ensures Parse(LongMatch(b, rest), mode, 0, Empty, 100) == Strayed(17, -2147483501, FULL_BYTES + 5)
    ensures RightParse(LongMatch(b, rest), mode, 0, Empty, 100) == Corrupt(FULL_BYTES + 5)
    ensures !LongFieldsRefused(LongMatch(b, rest), mode, 0, Empty, 100)
  {
    hide ReadSequence, LongMatch, LongFieldsRefused, ReadField, LiteralFits, MatchFits;
    var src := LongMatch(b, rest);
    LongMatchTurn(b, rest, mode);
    assert OutSize(Empty) == 0;
    ParseUnfolds(src, mode, 0, Empty, 100);
    RightAnswer(src, mode);
    RightIffRefused(src, mode, 0, Empty, 100);
  }
}
