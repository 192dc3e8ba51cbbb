/** What the decoders refuse, and what they return then: the position behind the faulty field, negative. */
module Lz4Errors {
  import opened Bits
  import opened Lz4Format
  import opened Lz4Theory
  import opened Lz4Copy
  import opened Lz4Lengths
  import opened Lz4Uncompress
  import opened Lz4RoundTrip

  // ----- The position of a fault -----

  /** The bytes from `start` to `at` are a token and the length of the literals that should follow. */
  ghost predicate Announces(src: seq<Byte>, start: nat, at: nat, total: nat, low: nat) {
    low <= RUN_MASK && At(src, start, [16 * Nibble(total) + low] + ExtraBytes(total))
    && at == start + 1 + |ExtraBytes(total)|
  }

  /** The bytes from `start` to `at` announce more literals than the output has room for. */
  ghost predicate RunTooLong(src: seq<Byte>, start: nat, at: nat, op: nat, osize: nat) {
    exists total: nat, low: nat :: op + total > osize && Announces(src, start, at, total, low)
  }

  /** They are literals and an offset that points in front of the output. */
  ghost predicate OffsetTooFar(src: seq<Byte>, start: nat, at: nat, op: nat, osize: nat) {
    exists literals: seq<Byte>, low: nat, offset: nat :: low <= RUN_MASK && offset <= MAX_DISTANCE
      && op + |literals| + COPYLENGTH <= osize && offset > op + |literals|
      && At(src, start, LiteralBytes(literals, low) + [offset % 256, offset / 256])
      && at == start + |LiteralBytes(literals, low)| + 2
  }

  /** They are a whole sequence whose match does not fit the output. */
  ghost predicate MatchTooLong(src: seq<Byte>, start: nat, at: nat, op: nat, osize: nat) {
    exists literals: seq<Byte>, offset: nat, code: nat :: offset <= MAX_DISTANCE
      && offset <= op + |literals| && op + |literals| + code + MINMATCH > osize
      && At(src, start, LiteralBytes(literals, Nibble(code)) + MatchBytes(offset, code))
      && at == start + |LiteralBytes(literals, Nibble(code))| + |MatchBytes(offset, code)|
  }

  ghost predicate Faulty(src: seq<Byte>, start: nat, at: nat, op: nat, osize: nat) {
    RunTooLong(src, start, at, op, osize) || OffsetTooFar(src, start, at, op, osize)
    || MatchTooLong(src, start, at, op, osize)
  }

  lemma RunIsTooLong(src: seq<Byte>, ip: nat, op: nat, osize: nat)
    requires ip < |src| && LiteralFits(src, ip)
    requires var r := ReadLength(src, src[ip] / 16, ip + 1); r.Length? && op + r.value > osize
    ensures RunTooLong(src, ip, ReadLength(src, src[ip] / 16, ip + 1).next, op, osize)
  {
    hide ReadLength, ReadField, ExtraBytes, Nibble, FieldFits;
    var r := ReadLength(src, src[ip] / 16, ip + 1);
    FieldIsWritten(src, src[ip] / 16, ip + 1);
    var token := src[ip];
    assert token == 16 * (token / 16) + token % 16;
    assert src[ip..r.next] == [token] + src[ip + 1..r.next];
    assert Announces(src, ip, r.next, r.value, token % 16);
  }

  lemma OffsetIsTooFar(src: seq<Byte>, ip: nat, literals: seq<Byte>, low: nat, q: nat, op: nat, osize: nat)
    requires low <= RUN_MASK && At(src, ip, LiteralBytes(literals, low)) && q == ip + |LiteralBytes(literals, low)|
    requires q + 2 <= |src| && LittleEndian16(src[q], src[q + 1]) > op + |literals|
    requires op + |literals| + COPYLENGTH <= osize
    ensures OffsetTooFar(src, ip, q + 2, op, osize)
  {
    var offset := LittleEndian16(src[q], src[q + 1]);
    OffsetIsWritten(src[q], src[q + 1]);
    hide LiteralBytes, LittleEndian16;
    assert src[ip..q + 2] == src[ip..q] + [src[q], src[q + 1]];
    assert At(src, ip, LiteralBytes(literals, low) + [offset % 256, offset / 256]);
  }

  lemma AtJoined(src: seq<Byte>, ip: nat, a: seq<Byte>, b: seq<Byte>)
    requires At(src, ip, a) && At(src, ip + |a|, b)
    ensures At(src, ip, a + b)
  {
    var m := ip + |a|;
    assert src[ip..m + |b|] == src[ip..m] + src[m..m + |b|];
  }

  lemma MatchFieldIsWritten(src: seq<Byte>, q: nat, offset: nat, code: nat, next: nat)
    requires q + 2 <= |src| && offset <= MAX_DISTANCE && offset % 256 == src[q] && offset / 256 == src[q + 1]
    requires At(src, q + 2, ExtraBytes(code)) && next == q + 2 + |ExtraBytes(code)|
    ensures At(src, q, MatchBytes(offset, code)) && next == q + |MatchBytes(offset, code)|
  {
    hide ExtraBytes;
    assert src[q..q + 2] == [offset % 256, offset / 256];
    AtJoined(src, q, [offset % 256, offset / 256], ExtraBytes(code));
  }

  lemma MatchIsTooLong(src: seq<Byte>, ip: nat, literals: seq<Byte>, low: nat, q: nat, op: nat, osize: nat)
    requires low <= RUN_MASK && At(src, ip, LiteralBytes(literals, low)) && q == ip + |LiteralBytes(literals, low)|
    requires q + 2 <= |src| && LittleEndian16(src[q], src[q + 1]) <= op + |literals| && FieldFits(src, low, q + 2)
    requires var r := ReadLength(src, low, q + 2); r.Length? && op + |literals| + r.value + MINMATCH > osize
    ensures MatchTooLong(src, ip, ReadLength(src, low, q + 2).next, op, osize)
  {
    hide LiteralBytes, LittleEndian16, ReadLength, ReadField, ExtraBytes, Nibble, FieldFits, MatchBytes;
    var r := ReadLength(src, low, q + 2);
    var offset := LittleEndian16(src[q], src[q + 1]);
    OffsetIsWritten(src[q], src[q + 1]);
    FieldIsWritten(src, low, q + 2);
    MatchFieldIsWritten(src, q, offset, r.value, r.next);
    AtJoined(src, ip, LiteralBytes(literals, low), MatchBytes(offset, r.value));
  }

  /** A turn that refuses the input does so right behind the field at fault. */
  lemma TurnIsFaulty(src: seq<Byte>, mode: Mode, ip: nat, op: nat, osize: nat)
    requires ReadSequence(src, mode, ip, op, osize).BadAt?
    requires LiteralFits(src, ip) && MatchFits(src, mode, ip, op, osize)
    ensures Faulty(src, ip, ReadSequence(src, mode, ip, op, osize).at, op, osize)
  {
    hide ReadField, LiteralBytes, RunTooLong, OffsetTooFar, MatchTooLong, FieldFits;
    FieldIsNatural(src, src[ip] / 16, ip + 1);
    var r := ReadLength(src, src[ip] / 16, ip + 1);
    var start := op + r.value;
    if start > osize {
      RunIsTooLong(src, ip, op, osize);
    } else {
      var q := r.next + r.value;
      LiteralsAreWritten(src, ip);
      assert At(src, ip, LiteralBytes(src[r.next..q], src[ip] % 16));
      if LittleEndian16(src[q], src[q + 1]) > start {
        OffsetIsTooFar(src, ip, src[r.next..q], src[ip] % 16, q, op, osize);
      } else {
        MatchIsTooLong(src, ip, src[r.next..q], src[ip] % 16, q, op, osize);
      }
    }
  }

  lemma {:induction false} CopiedKeeps(src: seq<Byte>, mode: Mode, ip: nat, acc: Sequences, osize: nat)
    ensures Begins(acc, Copied(src, mode, ip, acc, osize))
    decreases |src| - ip
  {
    hide ReadSequence;
    if mode.Fast? || ip < mode.isize {
      ReadSequenceAdvances(src, mode, ip, OutSize(acc), osize);
      match ReadSequence(src, mode, ip, OutSize(acc), osize)
      case Match(s, next) =>
        if OutSize(acc) + s.Size() != osize {
          CopiedKeeps(src, mode, next, Then(acc, s), osize);
          BeginsFront(acc, s, Copied(src, mode, ip, acc, osize));
        }
      case _ =>
    }
  }

  /** What a decoder refuses is a number of whole sequences, those whose matches it has copied, and then a
      field that asks for more than there is; the position that it returns lies right behind that field. */
  lemma {:induction false} RefusedIsFaulty(src: seq<Byte>, mode: Mode, ip: nat, acc: Sequences, osize: nat)
    requires ip <= |src| && WellFormed(acc) && src[..ip] == Serialize(acc)
    requires LengthsFit(src, mode, ip, acc, osize) && WellFormed(Copied(src, mode, ip, acc, osize))
    requires Parse(src, mode, ip, acc, osize).Corrupt?
    ensures var copied := Copied(src, mode, ip, acc, osize);
            Serialize(copied) <= src
            && Faulty(src, |Serialize(copied)|, Parse(src, mode, ip, acc, osize).at, OutSize(copied), osize)
    decreases |src| - ip
  {
    hide ReadSequence, Parse, SequenceBytes, LiteralFits, MatchFits, Faulty;
    if mode.Fast? || ip < mode.isize {
      var op := OutSize(acc);
      ParseUnfolds(src, mode, ip, acc, osize);
      match ReadSequence(src, mode, ip, op, osize)
      case BadAt(at) =>
        TurnIsFaulty(src, mode, ip, op, osize);
      case Match(s, next) =>
        SequenceIsWritten(src, mode, ip, op, osize);
        CopiedKeeps(src, mode, next, Then(acc, s), osize);
        BeginsWellFormed(Then(acc, s), Copied(src, mode, ip, acc, osize));
        assert src[..next] == src[..ip] + src[ip..next];
        RefusedIsFaulty(src, mode, next, Then(acc, s), osize);
      case _ =>
    } else {
      InputEnds(src, mode, ip, acc, osize);
    }
  }

  // ----- Each refusal once -----

  /** Both decoders on some bytes, with more than enough room behind the output. */
  method Refusal(src: seq<Byte>, mode: Mode, osize: nat, ghost at: nat) returns (r: int, lost: bool)
    requires Parse(src, mode, 0, Empty, osize) == Corrupt(at)
    ensures !lost && r == -(at as int) && r < 0
  {
    hide Parse, Copied, Reach, DecodeReach, AllFit, SomeMatchIsLate, Beyond;
    ReachesBeyond(src, mode, osize);
    var dest := new Byte[osize + COPYLENGTH](_ => 0);
    r, lost := Decode(src, mode, dest, osize);
  }

  /** Five literals for an output of three bytes. */
  method TooManyLiterals() returns (fast: int, bounded: int)
    ensures fast == -1 && bounded == -1
  {
    var src: seq<Byte> := [80, 97, 98, 99, 100, 101];
    assert ReadSequence(src, Fast, 0, 0, 3) == BadAt(1) && ReadSequence(src, Bounded(6), 0, 0, 3) == BadAt(1);
    assert OutSize(Empty) == 0;
    var lost;
    fast, lost := Refusal(src, Fast, 3, 1);
    bounded, lost := Refusal(src, Bounded(6), 3, 1);
  }

  /** An offset of five behind one literal. */
  method OffsetInFrontOfOutput() returns (fast: int, bounded: int)
    ensures fast == -4 && bounded == -4
  {
    var src: seq<Byte> := [16, 97, 5, 0, 98, 99, 100, 101, 102, 103];
    assert ReadSequence(src, Fast, 0, 0, 14) == BadAt(4) && ReadSequence(src, Bounded(10), 0, 0, 14) == BadAt(4);
    assert OutSize(Empty) == 0;
    var lost;
    fast, lost := Refusal(src, Fast, 14, 4);
    bounded, lost := Refusal(src, Bounded(10), 14, 4);
  }

  /** A match of twenty-six bytes behind one literal in an output of fourteen; its length takes a byte more. */
  method MatchBeyondOutput() returns (fast: int, bounded: int)
    ensures fast == -5 && bounded == -5
  {
    var src: seq<Byte> := [31, 97, 1, 0, 7, 98, 99, 100, 101, 102];
    assert ReadRun(src, 4, 15) == Length(22, 5);
    assert ReadSequence(src, Fast, 0, 0, 14) == BadAt(5) && ReadSequence(src, Bounded(10), 0, 0, 14) == BadAt(5);
    assert OutSize(Empty) == 0;
    var lost;
    fast, lost := Refusal(src, Fast, 14, 5);
    bounded, lost := Refusal(src, Bounded(10), 14, 5);
  }

  /** Five literals for an output of five bytes: the first decoder returns how many bytes it has read, the
      second how many it has written. */
  method AcceptedReturns() returns (fast: int, bounded: int)
    ensures fast == 6 && bounded == 5
  {
    hide Copied, Reach, DecodeReach, AllFit, SomeMatchIsLate, Beyond;
    var src: seq<Byte> := [80, 97, 98, 99, 100, 101];
    assert src[1..6] == [97, 98, 99, 100, 101] && OutSize(Empty) == 0;
    assert ReadSequence(src, Fast, 0, 0, 5) == Final(src[1..6], 6);
    assert ReadSequence(src, Bounded(6), 0, 0, 5) == Final(src[1..6], 6);
    ReachesBeyond(src, Fast, 5);
    ReachesBeyond(src, Bounded(6), 5);
    var dest := new Byte[13](_ => 0);
    var lost;
    fast, lost := Decode(src, Fast, dest, 5);
    bounded, lost := Decode(src, Bounded(6), dest, 5);
  }
}
