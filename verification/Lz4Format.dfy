/** The LZ4 block format: what a block means, how it is laid out in bytes, and how both decoders
    take an arbitrary byte string apart.  Everything here copies one byte at a time. */
module Lz4Format {
  import opened Bits

  const MINMATCH: nat := 4
  const COPYLENGTH: nat := 8
  const LASTLITERALS: nat := 5
  const MFLIMIT: nat := COPYLENGTH + MINMATCH
  const MINLENGTH: nat := MFLIMIT + 1
  const MAX_DISTANCE: nat := 65535
  const RUN_MASK: nat := 15
  const INT_LIMIT: int := 0x8000_0000

  /** What an `int` holds of x, in two's complement. */
  function Int32(x: int): (r: int)
    ensures -INT_LIMIT <= r < INT_LIMIT
    ensures -INT_LIMIT <= x < INT_LIMIT ==> r == x
  {
    var u := x % 0x1_0000_0000;
    if u < INT_LIMIT then u else u - 0x1_0000_0000
  }

  /** Some literals followed by a copy of `matchLength` bytes from `offset` bytes back. */
  datatype Sequence = Sequence(literals: seq<Byte>, offset: nat, matchLength: nat) {
    function Size(): nat { |literals| + matchLength }
  }

  /** Sequences in the order they are written, newest last. */
  datatype Sequences = Empty | Then(front: Sequences, newest: Sequence)

  // ----- Meaning -----

  /** Repeats, one byte at a time, the byte that lies `offset` back. */
  function CopyMatch(out: seq<Byte>, offset: nat, length: nat): (r: seq<Byte>)
    requires 1 <= offset <= |out|
    ensures |r| == |out| + length && out <= r
  {
    if length == 0 then out
    else
      var prev := CopyMatch(out, offset, length - 1);
      prev + [prev[|prev| - offset]]
  }

  function OutSize(seqs: Sequences): nat {
    if seqs.Empty? then 0 else OutSize(seqs.front) + seqs.newest.Size()
  }

  /** The format's own rules: a match has at least four bytes and refers to bytes already there. */
  predicate WellFormed(seqs: Sequences) {
    seqs.Empty? ||
    var Then(front, s) := seqs;
    WellFormed(front) && s.matchLength >= MINMATCH
    && 1 <= s.offset <= MAX_DISTANCE && s.offset <= OutSize(front) + |s.literals|
  }

  /** The bytes that a list of sequences stands for. */
  function Unpack(seqs: Sequences): (r: seq<Byte>)
    requires WellFormed(seqs)
    ensures |r| == OutSize(seqs)
  {
    match seqs
    case Empty => []
    case Then(front, s) => CopyMatch(Unpack(front) + s.literals, s.offset, s.matchLength)
  }

  /** The end-of-block rules an encoder obeys for an input of n bytes: no match starts in the last
      twelve bytes and none reaches the last five. */
  predicate EndsEarly(seqs: Sequences, n: nat) {
    seqs.Empty? ||
    var Then(front, s) := seqs;
    var start := OutSize(front) + |s.literals|;
    EndsEarly(front, n) && start + MFLIMIT <= n && start + s.matchLength + LASTLITERALS <= n
  }

  /** A block that an LZ4 encoder may produce for `data`. */
  ghost predicate IsBlockOf(seqs: Sequences, last: seq<Byte>, data: seq<Byte>) {
    WellFormed(seqs) && EndsEarly(seqs, |data|) && Unpack(seqs) + last == data
  }

  // ----- Layout -----

  function Nibble(v: nat): (r: nat)
    ensures r <= RUN_MASK
  {
    if v >= RUN_MASK then RUN_MASK else v
  }

  function RunBytes(v: nat): seq<Byte> {
    if v >= 255 then [255] + RunBytes(v - 255) else [v]
  }

  function ExtraBytes(v: nat): seq<Byte> {
    if v >= RUN_MASK then RunBytes(v - RUN_MASK) else []
  }

  function LiteralBytes(literals: seq<Byte>, low: nat): seq<Byte>
    requires low <= RUN_MASK
  {
    [16 * Nibble(|literals|) + low] + ExtraBytes(|literals|) + literals
  }

  function MatchBytes(offset: nat, code: nat): seq<Byte>
    requires offset <= MAX_DISTANCE
  {
    [offset % 256, offset / 256] + ExtraBytes(code)
  }

  function SequenceBytes(s: Sequence): seq<Byte>
    requires s.matchLength >= MINMATCH && s.offset <= MAX_DISTANCE
  {
    var code := s.matchLength - MINMATCH;
    LiteralBytes(s.literals, Nibble(code)) + MatchBytes(s.offset, code)
  }

  function Serialize(seqs: Sequences): seq<Byte>
    requires WellFormed(seqs)
  {
    match seqs
    case Empty => []
    case Then(front, s) => Serialize(front) + SequenceBytes(s)
  }

  function BlockBytes(seqs: Sequences, last: seq<Byte>): seq<Byte>
    requires WellFormed(seqs)
  {
    Serialize(seqs) + LiteralBytes(last, 0)
  }

  // ----- Taking bytes apart -----

  /** `Fast` is LZ4_uncompress, which knows only the output size; `Bounded` is
      LZ4_uncompress_unknownOutputSize, which knows the input size and a bound on the output. */
  datatype Mode = Fast | Bounded(isize: nat)

  datatype Length = Length(value: int, next: nat) | NoLength

  function ReadRun(src: seq<Byte>, ip: nat, length: nat): Length
    decreases |src| - ip
  {
    if ip >= |src| then NoLength
    else if src[ip] == 255 then ReadRun(src, ip + 1, length + 255)
    else Length(length + src[ip], ip + 1)
  }

  /** The length that a field says. */
  function ReadField(src: seq<Byte>, nibble: nat, ip: nat): Length {
    if nibble == RUN_MASK then ReadRun(src, ip, nibble) else Length(nibble, ip)
  }

  /** The length that a decoder takes from a field: it adds the field up in an `int`. */
  function ReadLength(src: seq<Byte>, nibble: nat, ip: nat): Length {
    match ReadField(src, nibble, ip)
    case NoLength => NoLength
    case Length(total, next) => Length(Int32(total), next)
  }

  /** Bytes touched when `length` bytes are copied eight at a time by a loop that tests last. */
  function WildLength(length: nat): (w: nat)
    ensures length <= w <= length + COPYLENGTH && w >= COPYLENGTH && w % COPYLENGTH == 0
  {
    if length == 0 then COPYLENGTH else (length + 7) / 8 * 8
  }

  datatype Step =
    | Final(last: seq<Byte>, next: nat)     // the block ends with these literals
    | Match(sequence: Sequence, next: nat)  // a whole sequence, more may follow
    | BadAt(at: nat)                        // the output error exit
    | NeedMore                              // a byte beyond the readable ones is wanted
    // a length has turned negative: after writing up to `reach`, the loop goes on with op bytes decoded and
    // from input position `from`, either of which may lie outside the buffers
    | Astray(reach: nat, op: int, from: int)

  function LittleEndian16(low: int, high: int): int {
    low + 256 * high
  }

  function ReadMatch(src: seq<Byte>, code: nat, literals: seq<Byte>, q: nat, start: nat, osize: nat): Step
    requires code <= RUN_MASK
  {
    if q + 2 > |src| then NeedMore
    else
      var offset := LittleEndian16(src[q], src[q + 1]);
      if offset > start then BadAt(q + 2)
      else match ReadLength(src, code, q + 2)
        case NoLength => NeedMore
        case Length(length, e) =>
          if start + length + MINMATCH > osize then BadAt(e)
          else if length < 0 then Astray(start + 2 * COPYLENGTH, start + length + MINMATCH, e)
          else Match(Sequence(literals, offset, length + MINMATCH), e)
  }

  /** One turn of the decoding loop at input position ip, with op bytes already decoded.  A negative
      length is an enormous one to `memcpy`. */
  function ReadSequence(src: seq<Byte>, mode: Mode, ip: nat, op: nat, osize: nat): Step {
    if ip >= |src| then NeedMore
    else match ReadLength(src, src[ip] / 16, ip + 1)
      case NoLength => NeedMore
      case Length(run, p) =>
        var start := op + run;
        if start + COPYLENGTH > osize then
          if start > osize then BadAt(p)
          else if run < 0 || p + run > |src| then NeedMore
          else Final(src[p..p + run], p + run)
        else if run < 0 then
          if p + COPYLENGTH > |src| then NeedMore else Astray(op + COPYLENGTH, start, p + run)
        else if p + WildLength(run) > |src| then NeedMore
        else if mode.Bounded? && p + run >= mode.isize then Final(src[p..p + run], p + run)
        else ReadMatch(src, src[ip] % 16, src[p..p + run], p + run, start, osize)
  }

  datatype Outcome =
    | Finished(seqs: Sequences, last: seq<Byte>, next: nat)
    | Corrupt(at: nat)
    | Overrun
    | Strayed(reach: nat, op: int, from: int)

  lemma ReadRunAdvances(src: seq<Byte>, ip: nat, length: nat)
    ensures var r := ReadRun(src, ip, length); r.Length? ==> ip < r.next <= |src| && r.value >= length
    decreases |src| - ip
  {
  }

  lemma ReadSequenceAdvances(src: seq<Byte>, mode: Mode, ip: nat, op: nat, osize: nat)
    ensures var s := ReadSequence(src, mode, ip, op, osize);
            s.Match? ==> ip < s.next <= |src| && op + s.sequence.Size() <= osize
  {
    if ip < |src| {
      var r := ReadLength(src, src[ip] / 16, ip + 1);
      ReadRunAdvances(src, ip + 1, 15);
      if r.Length? && r.value >= 0 {
        var q := r.next + r.value;
        ReadRunAdvances(src, q + 2, 15);
      }
    }
  }

  /** What is decoded from position ip on, when the sequences `acc` have been decoded so far. */
  function Parse(src: seq<Byte>, mode: Mode, ip: nat, acc: Sequences, osize: nat): Outcome
    decreases |src| - ip
  {
    if mode.Bounded? && ip >= mode.isize then Finished(acc, [], ip)
    else
      ReadSequenceAdvances(src, mode, ip, OutSize(acc), osize);
      match ReadSequence(src, mode, ip, OutSize(acc), osize)
      case Final(last, next) => Finished(acc, last, next)
      case BadAt(at) => Corrupt(at)
      case NeedMore => Overrun
      case Astray(reach, start, from) => Strayed(reach, start, from)
      case Match(s, next) =>
        if OutSize(acc) + s.Size() == osize then Finished(Then(acc, s), [], next)
        else Parse(src, mode, next, Then(acc, s), osize)
  }
}
