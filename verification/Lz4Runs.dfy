/** What the compressor makes of long runs of equal bytes: one sequence for each run, whatever the hash table holds. */
module Lz4Runs {
  import opened Bits
  import opened Lz4Format
  import opened Lz4Theory
  import opened Lz4Copy
  import opened Lz4Compress
  import opened Lz4RoundTrip

  // ----- Runs -----

  /** Where run i starts. */
  function From(ends: seq<nat>, i: nat): nat
    requires i <= |ends|
  {
    if i == 0 then 0 else ends[i - 1]
  }

  /** Five or more times the same byte, which does not occur before. */
  ghost predicate IsRun(data: seq<Byte>, from: nat, to: nat) {
    from + 5 <= to <= |data|
    && (forall j :: from <= j < to ==> data[j] == data[from])
    && (forall j :: 0 <= j < from ==> data[j] != data[from])
  }

  /** The data are runs that end at these places. */
  ghost predicate Runs(data: seq<Byte>, ends: seq<nat>) {
    From(ends, |ends|) == |data| && forall i :: 0 <= i < |ends| ==> IsRun(data, From(ends, i), ends[i])
  }

  /** Room for one literal, a match and what an encoder leaves behind a match. */
  const ROOM: nat := 1 + MFLIMIT

  /** Where the sequence of a run that ends at `end` ends: no match touches the last five bytes. */
  function Cut(n: nat, end: nat): int {
    if end + LASTLITERALS <= n then end else n - LASTLITERALS
  }

  /** One literal and a match that repeats it up to the end of the run. */
  function RunSequence(data: seq<Byte>, from: nat, to: nat): Sequence
    requires from + MINMATCH < to && from + ROOM <= |data|
  {
    Sequence([data[from]], 1, Cut(|data|, to) - from - 1)
  }

  /** The first i runs as sequences. */
  ghost function RunSequences(data: seq<Byte>, ends: seq<nat>, i: nat): Sequences
    requires Runs(data, ends) && i <= |ends| && (i > 0 ==> From(ends, i - 1) + ROOM <= |data|)
  {
    if i == 0 then Empty
    else
      assert IsRun(data, From(ends, i - 1), ends[i - 1]);
      assert i > 1 ==> IsRun(data, From(ends, i - 2), ends[i - 2]);
      Then(RunSequences(data, ends, i - 1), RunSequence(data, From(ends, i - 1), ends[i - 1]))
  }

  // ----- One sequence for each run -----

  /** A run with room for a match offers one: a byte later its four bytes come again. */
  lemma RunIsOffered(data: seq<Byte>, small: bool, from: nat, to: nat)
    requires IsRun(data, from, to) && from + ROOM < |data|
    ensures Offered(data, small, from, from, from + 1)
  {
  }

  lemma StaysInRun(data: seq<Byte>, from: nat, to: nat, end: nat)
    requires IsRun(data, from, to) && from + 1 < end <= |data| && Repeats(data, from + 1, end, 1)
    requires to < |data| ==> data[to] != data[from]
    ensures end <= to
  {
    assert data[to - 1] == data[from];
  }

  /** A match that starts at once in a run is the whole run but its first byte. */
  lemma MatchOfRun(data: seq<Byte>, from: nat, to: nat, s: Sequence)
    requires IsRun(data, from, to) && (to < |data| ==> data[to] != data[from])
    requires from + |s.literals| + MFLIMIT <= |data| && from + s.Size() + LASTLITERALS <= |data|
    requires |s.literals| <= 1 && MINMATCH <= s.matchLength && 1 <= s.offset <= from + |s.literals|
    requires s.literals == data[from..from + |s.literals|]
    requires Repeats(data, from + |s.literals|, from + s.Size(), s.offset)
    requires from + s.Size() + LASTLITERALS == |data| || data[from + s.Size()] != data[from + s.Size() - s.offset]
    ensures from + ROOM <= |data| && s.literals == [data[from]] && s.offset == 1
    ensures from + s.Size() == Cut(|data|, to)
  {
    var start := from + |s.literals|;
    assert data[start] == data[start - s.offset];
    StaysInRun(data, from, to, from + s.Size());
  }

  lemma RepeatsInPrefix(data: seq<Byte>, all: seq<Byte>, from: nat, offset: nat)
    requires all <= data && offset <= from && Repeats(all, from, |all|, offset)
    ensures Repeats(data, from, |all|, offset)
  {
  }

  lemma CopyRepeatsAll(base: seq<Byte>, offset: nat, length: nat)
    requires 1 <= offset <= |base|
    ensures Repeats(CopyMatch(base, offset, length), |base|, |base| + length, offset)
  {
    hide CopyMatch;
    forall i | |base| <= i < |base| + length
      ensures CopyMatch(base, offset, length)[i] == CopyMatch(base, offset, length)[i - offset]
    {
      CopyRepeats(base, offset, length, i);
    }
  }

  lemma PrefixParts(data: seq<Byte>, a: seq<Byte>, b: seq<Byte>)
    requires a + b <= data
    ensures a <= data && b == data[|a|..|a| + |b|]
  {
    assert (a + b)[..|a|] == a && (a + b)[|a|..] == b;
  }

  lemma CopyInData(data: seq<Byte>, front: seq<Byte>, literals: seq<Byte>, offset: nat, length: nat)
    requires 1 <= offset <= |front + literals| && CopyMatch(front + literals, offset, length) <= data
    ensures front <= data
    ensures var start := |front| + |literals|;
            literals == data[|front|..start] && Repeats(data, start, start + length, offset)
  {
    hide CopyMatch, Repeats;
    var base := front + literals;
    PrefixParts(data, front, literals);
    CopyRepeatsAll(base, offset, length);
    RepeatsInPrefix(data, CopyMatch(base, offset, length), |base|, offset);
  }

  lemma UnpackNewest(front: Sequences, s: Sequence)
    requires WellFormed(Then(front, s))
    ensures WellFormed(front) && 1 <= s.offset <= OutSize(front) + |s.literals|
    ensures Unpack(Then(front, s)) == CopyMatch(Unpack(front) + s.literals, s.offset, s.matchLength)
  {
    hide CopyMatch;
  }

  /** What a match of the first bytes of the data says about the data. */
  lemma MatchIsInData(data: seq<Byte>, front: Sequences, s: Sequence)
    requires WellFormed(Then(front, s)) && Unpack(Then(front, s)) <= data
    ensures WellFormed(front) && 1 <= s.offset <= OutSize(front) + |s.literals| && Unpack(front) <= data
    ensures var start := OutSize(front) + |s.literals|;
            start + s.matchLength <= |data|
            && s.literals == data[OutSize(front)..start] && Repeats(data, start, start + s.matchLength, s.offset)
  {
    hide CopyMatch, Repeats, Unpack, WellFormed;
    UnpackNewest(front, s);
    CopyInData(data, Unpack(front), s.literals, s.offset, s.matchLength);
  }

  lemma RunSize(s: Sequence)
    requires |s.literals| == 1 && s.matchLength >= MINMATCH && s.offset <= MAX_DISTANCE
    ensures |SequenceBytes(s)| <= 5 + s.Size() / 255
  {
    SequenceBytesCount(s);
  }

  lemma RunAt(data: seq<Byte>, ends: seq<nat>, i: nat)
    requires Runs(data, ends) && i < |ends|
    ensures IsRun(data, From(ends, i), ends[i]) && From(ends, i) + 5 <= ends[i] <= |data|
  {
  }

  lemma NextIsNew(data: seq<Byte>, from: nat, to: nat, next: nat)
    requires IsRun(data, from, to) && IsRun(data, to, next)
    ensures data[to] != data[from]
  {
  }

  lemma NextRunIsNew(data: seq<Byte>, ends: seq<nat>, i: nat)
    requires Runs(data, ends) && i < |ends|
    ensures ends[i] < |data| ==> data[ends[i]] != data[From(ends, i)]
  {
    hide IsRun;
    RunAt(data, ends, i);
    if i + 1 < |ends| {
      RunAt(data, ends, i + 1);
      NextIsNew(data, From(ends, i), ends[i], ends[i + 1]);
    }
  }

  lemma StartsAtRun(data: seq<Byte>, ends: seq<nat>, i: nat, a: nat)
    requires Runs(data, ends) && i <= |ends| && a + MFLIMIT <= |data|
    requires a == if i == 0 then 0 else Cut(|data|, ends[i - 1])
    ensures i < |ends| && a == From(ends, i)
  {
    hide IsRun;
  }

  lemma Fronts(data: seq<Byte>, small: bool, front: Sequences, s: Sequence)
    requires WellFormed(Then(front, s)) && EndsEarly(Then(front, s), |data|)
    requires LongestMatches(Then(front, s), data) && Prompt(data, small, Then(front, s))
    ensures WellFormed(front) && EndsEarly(front, |data|) && LongestMatches(front, data) && Prompt(data, small, front)
    ensures OutSize(front) + MFLIMIT <= |data|
    ensures s.offset <= MAX_DISTANCE && s.matchLength >= MINMATCH
  {
  }

  /** One sequence is added for run i. */
  lemma NextRun(data: seq<Byte>, small: bool, ends: seq<nat>, front: Sequences, s: Sequence, i: nat)
    requires Runs(data, ends) && i < |ends| && OutSize(front) == From(ends, i)
    requires WellFormed(Then(front, s)) && EndsEarly(Then(front, s), |data|) && Unpack(Then(front, s)) <= data
    requires LongestMatches(Then(front, s), data) && Prompt(data, small, Then(front, s))
    ensures From(ends, i) + ROOM <= |data| && s.literals == [data[From(ends, i)]] && s.offset == 1
    ensures From(ends, i) + s.Size() == Cut(|data|, ends[i])
  {
    hide Unpack, Repeats, IsRun, Offered;
    RunAt(data, ends, i);
    var from, to := From(ends, i), ends[i];
    MatchIsInData(data, front, s);
    if |s.literals| > 1 { RunIsOffered(data, small, from, to); }
    NextRunIsNew(data, ends, i);
    MatchOfRun(data, from, to, s);
  }

  lemma NoRuns(data: seq<Byte>, ends: seq<nat>)
    requires Runs(data, ends)
    ensures RunSequences(data, ends, 0) == Empty
  {
  }

  lemma OneRunMore(data: seq<Byte>, ends: seq<nat>, i: nat, front: Sequences, s: Sequence)
    requires Runs(data, ends) && i < |ends| && From(ends, i) + ROOM <= |data|
    requires (i > 0 ==> From(ends, i - 1) + ROOM <= |data|) && front == RunSequences(data, ends, i)
    requires s.literals == [data[From(ends, i)]] && s.offset == 1 && From(ends, i) + s.Size() == Cut(|data|, ends[i])
    ensures Then(front, s) == RunSequences(data, ends, i + 1)
  {
    RunAt(data, ends, i);
    hide Runs, IsRun;
  }

  /** Every block that the compressor may write begins with the sequences of the first runs. */
  lemma {:induction false} EachRunIsOneSequence(data: seq<Byte>, small: bool, ends: seq<nat>, seqs: Sequences)
      returns (i: nat)
    requires Runs(data, ends) && WellFormed(seqs) && EndsEarly(seqs, |data|) && Unpack(seqs) <= data
    requires LongestMatches(seqs, data) && Prompt(data, small, seqs)
    ensures i <= |ends| && (i > 0 ==> From(ends, i - 1) + ROOM <= |data|) && seqs == RunSequences(data, ends, i)
    ensures OutSize(seqs) == if i == 0 then 0 else Cut(|data|, ends[i - 1])
    ensures |Serialize(seqs)| <= 5 * i + OutSize(seqs) / 255
  {
    hide Runs, RunSequences, LongestMatches, Prompt, SequenceBytes, EndsEarly, Unpack;
    NoRuns(data, ends);
    i := 0;
    if seqs.Then? {
      var s := seqs.newest;
      Fronts(data, small, seqs.front, s);
      MatchIsInData(data, seqs.front, s);
      var k := EachRunIsOneSequence(data, small, ends, seqs.front);
      i := k + 1;
      StartsAtRun(data, ends, k, OutSize(seqs.front));
      NextRun(data, small, ends, seqs.front, s, k);
      OneRunMore(data, ends, k, seqs.front, s);
      RunSize(s);
    }
  }

  /** The whole block: a sequence for each run that starts early enough, and the rest as literals. */
  lemma BlockOfRuns(data: seq<Byte>, small: bool, ends: seq<nat>, seqs: Sequences, last: seq<Byte>) returns (i: nat)
    requires Runs(data, ends) && IsBlockOf(seqs, last, data)
    requires LongestMatches(seqs, data) && Prompt(data, small, seqs) && StartsRight(data, small, seqs, |last|)
    ensures i <= |ends| && (i > 0 ==> From(ends, i - 1) + ROOM <= |data|)
    ensures i == |ends| || From(ends, i) + ROOM >= |data|
    ensures seqs == RunSequences(data, ends, i)
    ensures |BlockBytes(seqs, last)| <= 5 * |ends| + |data| / 255 + 14
  {
    i := EachRunIsOneSequence(data, small, ends, seqs);
    if i < |ends| && From(ends, i) + ROOM < |data| {
      RunIsOffered(data, small, From(ends, i), ends[i]);
    }
    StoredBytesCount(last);
  }

  /** The compressor makes of k runs at most five bytes for each of them, one more for 255 bytes of data, and
      fourteen for the end. */
  method CompressRuns(small: bool, data: seq<Byte>, ghost ends: seq<nat>) returns (packed: seq<Byte>)
    requires Runs(data, ends) && (small ==> |data| < LZ4_64KLIMIT)
    ensures |packed| <= 5 * |ends| + |data| / 255 + 14
  {
    hide *;
    var buffer := new Byte[StoredSize(|data|)];
    var n, seqs, last := CompressCtx(small, data, buffer);
    packed := buffer[..n];
    ghost var i := BlockOfRuns(data, small, ends, seqs, last);
  }

  // ----- Three runs of twenty bytes -----

  function TwentyEach(): (data: seq<Byte>)
    ensures |data| == 60
  {
    seq(60, k requires 0 <= k < 60 => if k < 20 then 97 else if k < 40 then 98 else 99)
  }

  const ENDS: seq<nat> := [20, 40, 60]

  lemma ThreeRuns()
    ensures Runs(TwentyEach(), ENDS) && From(ENDS, 0) == 0 && From(ENDS, 1) == 20 && From(ENDS, 2) == 40
    ensures TwentyEach()[0] == 97 && TwentyEach()[20] == 98 && TwentyEach()[40] == 99
    ensures TwentyEach()[55..] == [99, 99, 99, 99, 99]
  {
    assert IsRun(TwentyEach(), 0, 20) && IsRun(TwentyEach(), 20, 40) && IsRun(TwentyEach(), 40, 60);
  }

  lemma LongRunBytes(b: Byte)
    ensures SequenceBytes(Sequence([b], 1, 19)) == [31, b, 1, 0, 0]
    ensures SequenceBytes(Sequence([b], 1, 14)) == [26, b, 1, 0]
  {
    assert LiteralBytes([b], 15) == [31, b] && LiteralBytes([b], 10) == [26, b];
  }

  lemma ThreeSequences()
    requires Runs(TwentyEach(), ENDS)
    ensures RunSequences(TwentyEach(), ENDS, 3)
         == Then(Then(Then(Empty, Sequence([97], 1, 19)), Sequence([98], 1, 19)), Sequence([99], 1, 14))
  {
    ThreeRuns();
    hide Runs;
    assert RunSequences(TwentyEach(), ENDS, 1) == Then(Empty, Sequence([97], 1, 19));
    assert RunSequences(TwentyEach(), ENDS, 2) == Then(Then(Empty, Sequence([97], 1, 19)), Sequence([98], 1, 19));
  }

  lemma ThreeWellFormed()
    ensures var one := Then(Empty, Sequence([97], 1, 19));
            var two := Then(one, Sequence([98], 1, 19));
            WellFormed(one) && WellFormed(two) && WellFormed(Then(two, Sequence([99], 1, 14)))
  {
  }

  lemma SerializeThree(a: Sequence, b: Sequence, c: Sequence)
    requires WellFormed(Then(Empty, a)) && WellFormed(Then(Then(Empty, a), b))
    requires WellFormed(Then(Then(Then(Empty, a), b), c))
    ensures Serialize(Then(Then(Then(Empty, a), b), c)) == SequenceBytes(a) + SequenceBytes(b) + SequenceBytes(c)
  {
    hide SequenceBytes;
    assert Serialize(Then(Empty, a)) == SequenceBytes(a);
  }

  lemma LastFive(last: seq<Byte>)
    requires |last| == 5
    ensures LiteralBytes(last, 0) == [80] + last
  {
  }

  lemma ThreeRunsJoined()
    ensures [31, 97, 1, 0, 0] + [31, 98, 1, 0, 0] + [26, 99, 1, 0] + ([80] + [99, 99, 99, 99, 99])
         == [31, 97, 1, 0, 0, 31, 98, 1, 0, 0, 26, 99, 1, 0, 80, 99, 99, 99, 99, 99]
  {
  }

  lemma ThreeRunsAsBytes(seqs: Sequences, last: seq<Byte>)
    requires seqs == Then(Then(Then(Empty, Sequence([97], 1, 19)), Sequence([98], 1, 19)), Sequence([99], 1, 14))
    requires WellFormed(seqs) && last == [99, 99, 99, 99, 99]
    ensures BlockBytes(seqs, last)
         == [31, 97, 1, 0, 0] + [31, 98, 1, 0, 0] + [26, 99, 1, 0] + ([80] + [99, 99, 99, 99, 99])
  {
    LongRunBytes(97);
    LongRunBytes(98);
    LongRunBytes(99);
    LastFive(last);
    hide SequenceBytes, Serialize, LiteralBytes, WellFormed, OutSize;
    ThreeWellFormed();
    SerializeThree(Sequence([97], 1, 19), Sequence([98], 1, 19), Sequence([99], 1, 14));
  }

  lemma LastOfThree(seqs: Sequences, last: seq<Byte>)
    requires IsBlockOf(seqs, last, TwentyEach()) && OutSize(seqs) == 55
    ensures last == TwentyEach()[55..]
  {
    assert (Unpack(seqs) + last)[55..] == last;
  }

  /** Twenty times 'a', 'b' and 'c' each take twenty bytes. */
  method CompressThreeRuns(small: bool) returns (packed: seq<Byte>)
    ensures packed == [31, 97, 1, 0, 0, 31, 98, 1, 0, 0, 26, 99, 1, 0, 80, 99, 99, 99, 99, 99]
  {
    hide Runs, Prompt, StartsRight, LongestMatches, IsBlockOf, BlockBytes, TwentyEach, RunSequences, StoredSize;
    ThreeRuns();
    var data := TwentyEach();
    var buffer := new Byte[StoredSize(60)];
    var n, seqs, last := CompressCtx(small, data, buffer);
    ghost var i := BlockOfRuns(data, small, ENDS, seqs, last);
    ThreeSequences();
    LastOfThree(seqs, last);
    ThreeRunsAsBytes(seqs, last);
    ThreeRunsJoined();
    packed := buffer[..n];
  }
}
