/** The length fields of a block.  A decoder adds each of them up in an `int`, which holds less than a field
    of some eight million bytes can say. */
module Lz4Lengths {
  import opened Bits
  import opened Lz4Format

  /** A length field that is read at all says less than 2^31. */
  predicate FieldFits(src: seq<Byte>, nibble: nat, ip: nat) {
    var r := ReadField(src, nibble, ip);
    r.Length? ==> r.value < INT_LIMIT
  }

  /** Behind a literal length r, the turn goes on to the length of a match at this position. */
  predicate ReadsMatch(src: seq<Byte>, mode: Mode, r: Length, op: nat, osize: nat) {
    r.Length? && 0 <= r.value && op + r.value + COPYLENGTH <= osize && r.next + WildLength(r.value) <= |src|
    && var q := r.next + r.value;
       (mode.Bounded? ==> q < mode.isize) && q + 2 <= |src| && LittleEndian16(src[q], src[q + 1]) <= op + r.value
  }

  predicate LiteralFits(src: seq<Byte>, ip: nat) {
    ip < |src| ==> FieldFits(src, src[ip] / 16, ip + 1)
  }

  predicate MatchFits(src: seq<Byte>, mode: Mode, ip: nat, op: nat, osize: nat) {
    ip < |src| ==>
      var r := ReadLength(src, src[ip] / 16, ip + 1);
      ReadsMatch(src, mode, r, op, osize) ==> FieldFits(src, src[ip] % 16, r.next + r.value + 2)
  }

  /** Every length field that a decoder reads from position ip on says less than 2^31. */
  predicate LengthsFit(src: seq<Byte>, mode: Mode, ip: nat, acc: Sequences, osize: nat)
    decreases |src| - ip
  {
    (mode.Bounded? && ip >= mode.isize)
    || (LiteralFits(src, ip) && MatchFits(src, mode, ip, OutSize(acc), osize)
        && (ReadSequenceAdvances(src, mode, ip, OutSize(acc), osize);
            match ReadSequence(src, mode, ip, OutSize(acc), osize)
            case Match(s, next) => OutSize(acc) + s.Size() == osize || LengthsFit(src, mode, next, Then(acc, s), osize)
            case _ => true))
  }

  // ----- How long a field must be -----

  /** The longest input in which no length field can reach 2^31. */
  const LONGEST_SAFE_INPUT: nat := 8421505

  lemma {:induction false} RunBound(src: seq<Byte>, ip: nat, length: nat)
    ensures var r := ReadRun(src, ip, length);
            r.Length? ==> r.next <= |src| && r.value < length + 255 * (r.next - ip)
    decreases |src| - ip
  {
    if ip < |src| && src[ip] == 255 { RunBound(src, ip + 1, length + 255); }
  }

  lemma {:induction false} SameRun(src: seq<Byte>, ip: nat, count: nat, length: nat)
    requires ip + count < |src| && src[ip + count] < 255 && forall i :: ip <= i < ip + count ==> src[i] == 255
    ensures ReadRun(src, ip, length) == Length(length + 255 * count + src[ip + count], ip + count + 1)
    decreases count
  {
    if count > 0 { SameRun(src, ip + 1, count - 1, length + 255); }
  }

  lemma ShortFieldFits(src: seq<Byte>, nibble: nat, ip: nat)
    requires nibble <= RUN_MASK && 1 <= ip && |src| <= LONGEST_SAFE_INPUT
    ensures FieldFits(src, nibble, ip)
  {
    RunBound(src, ip, nibble);
  }

  lemma {:induction false} ShortInputFits(src: seq<Byte>, mode: Mode, ip: nat, acc: Sequences, osize: nat)
    requires |src| <= LONGEST_SAFE_INPUT
    ensures LengthsFit(src, mode, ip, acc, osize)
    decreases |src| - ip
  {
    hide ReadSequence, FieldFits;
    if ip < |src| {
      ShortFieldFits(src, src[ip] / 16, ip + 1);
      var r := ReadLength(src, src[ip] / 16, ip + 1);
      if r.Length? && r.value >= 0 { ShortFieldFits(src, src[ip] % 16, r.next + r.value + 2); }
    }
    ReadSequenceAdvances(src, mode, ip, OutSize(acc), osize);
    match ReadSequence(src, mode, ip, OutSize(acc), osize)
    case Match(s, next) => ShortInputFits(src, mode, next, Then(acc, s), osize);
    case _ =>
  }

  /** One byte more is enough for a field of 2^31. */
  lemma LongestSafeIsSharp()
    ensures var src: seq<Byte> := [240] + seq(LONGEST_SAFE_INPUT - 1, _ => 255) + [113];
            |src| == LONGEST_SAFE_INPUT + 1 && ReadField(src, 15, 1) == Length(INT_LIMIT, |src|)
            && !LiteralFits(src, 0)
  {
    var src: seq<Byte> := [240] + seq(LONGEST_SAFE_INPUT - 1, _ => 255) + [113];
    SameRun(src, 1, LONGEST_SAFE_INPUT - 1, 15);
  }

  // ----- What too long a field does -----

  /** The right answer to one turn: a field of 2^31 or more asks for more than any output holds. */
  function RightTurn(src: seq<Byte>, mode: Mode, ip: nat, op: nat, osize: nat): Step {
    if !LiteralFits(src, ip) then BadAt(ReadField(src, src[ip] / 16, ip + 1).next)
    else if !MatchFits(src, mode, ip, op, osize) then
      var r := ReadLength(src, src[ip] / 16, ip + 1);
      BadAt(ReadField(src, src[ip] % 16, r.next + r.value + 2).next)
    else ReadSequence(src, mode, ip, op, osize)
  }

  function RightParse(src: seq<Byte>, mode: Mode, ip: nat, acc: Sequences, osize: nat): Outcome
    decreases |src| - ip
  {
    if mode.Bounded? && ip >= mode.isize then Finished(acc, [], ip)
    else
      ReadSequenceAdvances(src, mode, ip, OutSize(acc), osize);
      match RightTurn(src, mode, ip, OutSize(acc), osize)
      case Final(last, next) => Finished(acc, last, next)
      case BadAt(at) => Corrupt(at)
      case NeedMore => Overrun
      case Astray(reach, start, from) => Strayed(reach, start, from)
      case Match(s, next) =>
        if OutSize(acc) + s.Size() == osize then Finished(Then(acc, s), [], next)
        else RightParse(src, mode, next, Then(acc, s), osize)
  }

  predicate TurnRefuses(src: seq<Byte>, mode: Mode, ip: nat, op: nat, osize: nat) {
    ip < |src| ==>
      var run := ReadLength(src, src[ip] / 16, ip + 1);
      (LiteralFits(src, ip) || op + run.value > osize)
      && (MatchFits(src, mode, ip, op, osize)
          || op + run.value + ReadLength(src, src[ip] % 16, run.next + run.value + 2).value + MINMATCH > osize)
  }

  /** Every length field that a decoder reads fits, or is still too long for the output when it has wrapped. */
  predicate LongFieldsRefused(src: seq<Byte>, mode: Mode, ip: nat, acc: Sequences, osize: nat)
    decreases |src| - ip
  {
    (mode.Bounded? && ip >= mode.isize)
    || (TurnRefuses(src, mode, ip, OutSize(acc), osize)
        && (ReadSequenceAdvances(src, mode, ip, OutSize(acc), osize);
            match ReadSequence(src, mode, ip, OutSize(acc), osize)
            case Match(s, next) =>
              OutSize(acc) + s.Size() == osize || LongFieldsRefused(src, mode, next, Then(acc, s), osize)
            case _ => true))
  }

  lemma FieldIsNatural(src: seq<Byte>, nibble: nat, ip: nat)
    ensures var r := ReadField(src, nibble, ip); r.Length? ==> r.value >= 0 && ip <= r.next
    ensures var r := ReadField(src, nibble, ip); FieldFits(src, nibble, ip) ==> ReadLength(src, nibble, ip) == r
  {
    ReadRunAdvances(src, ip, nibble);
  }

  lemma RightTurnStays(src: seq<Byte>, mode: Mode, ip: nat, op: nat, osize: nat)
    ensures !RightTurn(src, mode, ip, op, osize).Astray?
  {
    hide ReadField, LittleEndian16;
    if ip < |src| && LiteralFits(src, ip) {
      FieldIsNatural(src, src[ip] / 16, ip + 1);
      var r := ReadLength(src, src[ip] / 16, ip + 1);
      if r.Length? { FieldIsNatural(src, src[ip] % 16, r.next + r.value + 2); }
    }
  }

  /** A turn gives the right answer exactly when it refuses a field that is too long; otherwise it goes on. */
  lemma TurnIsRight(src: seq<Byte>, mode: Mode, ip: nat, op: nat, osize: nat)
    requires op <= osize < INT_LIMIT
    ensures TurnRefuses(src, mode, ip, op, osize) <==>
            ReadSequence(src, mode, ip, op, osize) == RightTurn(src, mode, ip, op, osize)
    ensures !TurnRefuses(src, mode, ip, op, osize) ==>
              var right, step := RightTurn(src, mode, ip, op, osize), ReadSequence(src, mode, ip, op, osize);
              right.BadAt? && (step.Match? ==> right.at <= step.next)
  {
    hide ReadField, LittleEndian16, WildLength;
    if ip < |src| {
      FieldIsNatural(src, src[ip] / 16, ip + 1);
      var r := ReadLength(src, src[ip] / 16, ip + 1);
      if r.Length? && r.value >= 0 { FieldIsNatural(src, src[ip] % 16, r.next + r.value + 2); }
    }
  }

  lemma BadFurtherOn(src: seq<Byte>, mode: Mode, ip: nat, op: nat, osize: nat)
    ensures var step := ReadSequence(src, mode, ip, op, osize); step.BadAt? ==> step.at > ip
  {
    hide ReadField, LittleEndian16;
    if ip < |src| {
      FieldIsNatural(src, src[ip] / 16, ip + 1);
      var r := ReadLength(src, src[ip] / 16, ip + 1);
      if r.Length? && r.value >= 0 { FieldIsNatural(src, src[ip] % 16, r.next + r.value + 2); }
    }
  }

  lemma {:induction false} CorruptFurtherOn(src: seq<Byte>, mode: Mode, ip: nat, acc: Sequences, osize: nat)
    ensures var out := Parse(src, mode, ip, acc, osize); out.Corrupt? ==> out.at > ip
    decreases |src| - ip
  {
    if mode.Fast? || ip < mode.isize {
      BadFurtherOn(src, mode, ip, OutSize(acc), osize);
      ReadSequenceAdvances(src, mode, ip, OutSize(acc), osize);
      hide ReadSequence;
      match ReadSequence(src, mode, ip, OutSize(acc), osize)
      case Match(s, next) => CorruptFurtherOn(src, mode, next, Then(acc, s), osize);
      case _ =>
    }
  }

  /** A decoder gives the right answer to an input if and only if every length field of 2^31 or more that it
      reads is still too long for the output when it has wrapped. */
  lemma {:induction false} RightIffRefused(src: seq<Byte>, mode: Mode, ip: nat, acc: Sequences, osize: nat)
    requires OutSize(acc) <= osize < INT_LIMIT
    ensures Parse(src, mode, ip, acc, osize) == RightParse(src, mode, ip, acc, osize)
            <==> LongFieldsRefused(src, mode, ip, acc, osize)
    decreases |src| - ip
  {
    hide ReadSequence, RightTurn, TurnRefuses;
    if mode.Fast? || ip < mode.isize {
      TurnIsRight(src, mode, ip, OutSize(acc), osize);
      ReadSequenceAdvances(src, mode, ip, OutSize(acc), osize);
      match ReadSequence(src, mode, ip, OutSize(acc), osize)
      case Match(s, next) =>
        CorruptFurtherOn(src, mode, next, Then(acc, s), osize);
        RightIffRefused(src, mode, next, Then(acc, s), osize);
      case _ =>
    }
  }

  lemma RightTurnAdvances(src: seq<Byte>, mode: Mode, ip: nat, op: nat, osize: nat)
    ensures var s := RightTurn(src, mode, ip, op, osize); s.Match? ==> ip < s.next <= |src|
  {
    ReadSequenceAdvances(src, mode, ip, op, osize);
    hide ReadSequence;
  }

  lemma {:induction false} RightNeverStrays(src: seq<Byte>, mode: Mode, ip: nat, acc: Sequences, osize: nat)
    ensures !RightParse(src, mode, ip, acc, osize).Strayed?
    decreases |src| - ip
  {
    hide ReadSequence, RightTurn;
    if mode.Fast? || ip < mode.isize {
      RightTurnStays(src, mode, ip, OutSize(acc), osize);
      RightTurnAdvances(src, mode, ip, OutSize(acc), osize);
      match RightTurn(src, mode, ip, OutSize(acc), osize)
      case Match(s, next) => RightNeverStrays(src, mode, next, Then(acc, s), osize);
      case _ =>
    }
  }

  lemma FittingTurnStays(src: seq<Byte>, mode: Mode, ip: nat, op: nat, osize: nat)
    requires LiteralFits(src, ip) && MatchFits(src, mode, ip, op, osize)
    ensures !ReadSequence(src, mode, ip, op, osize).Astray?
  {
    RightTurnStays(src, mode, ip, op, osize);
    hide ReadSequence;
  }

  /** Where every field fits, the answer is right, and in an input of at most 8421505 bytes every field does. */
  lemma {:induction false} FittingIsRight(src: seq<Byte>, mode: Mode, ip: nat, acc: Sequences, osize: nat)
    ensures |src| <= LONGEST_SAFE_INPUT ==> LengthsFit(src, mode, ip, acc, osize)
    ensures LengthsFit(src, mode, ip, acc, osize) ==>
              LongFieldsRefused(src, mode, ip, acc, osize) && !Parse(src, mode, ip, acc, osize).Strayed?
    decreases |src| - ip
  {
    if |src| <= LONGEST_SAFE_INPUT { ShortInputFits(src, mode, ip, acc, osize); }
    hide ReadSequence, RightTurn, LiteralFits, MatchFits;
    if LengthsFit(src, mode, ip, acc, osize) && (mode.Fast? || ip < mode.isize) {
      FittingTurnStays(src, mode, ip, OutSize(acc), osize);
      ReadSequenceAdvances(src, mode, ip, OutSize(acc), osize);
      match ReadSequence(src, mode, ip, OutSize(acc), osize)
      case Match(s, next) => FittingIsRight(src, mode, next, Then(acc, s), osize);
      case _ =>
    }
  }
}
