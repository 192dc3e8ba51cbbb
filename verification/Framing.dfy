/** Length-prefixed messages over sockets that read and write as many bytes as they please. */
module Framing {
  import opened Bits
  import opened BufferSizes

  const MAX_ALLOCS: nat := 10
  const INT_LIMIT: nat := 0x8000_0000  // what `int` cannot hold, neither for a length nor for a whole frame
  const ZERO: Byte := 48
  const NINE: Byte := 57

  // ----- The head -----

  function Pow10(k: nat): (p: nat)
    ensures p > 0
  {
    if k == 0 then 1 else 10 * Pow10(k - 1)
  }

  /** The k lowest decimal digits of n, as characters. */
  function Digits(n: nat, k: nat): (s: seq<Byte>)
    ensures |s| == k
  {
    if k == 0 then [] else Digits(n / 10, k - 1) + [ZERO + n % 10]
  }

  function Head(n: nat): (s: seq<Byte>)
    ensures |s| == CMD_PREFIX_BYTE
  {
    Digits(n, CMD_PREFIX_BYTE)
  }

  predicate AllDigits(s: seq<Byte>) {
    forall i :: 0 <= i < |s| ==> ZERO <= s[i] <= NINE
  }

  function Value(s: seq<Byte>): nat
    requires AllDigits(s)
  {
    if s == [] then 0 else Value(s[..|s| - 1]) * 10 + (s[|s| - 1] - ZERO)
  }

  lemma {:induction false} ValueOfDigits(n: nat, k: nat)
    requires n < Pow10(k)
    ensures AllDigits(Digits(n, k)) && Value(Digits(n, k)) == n
  {
    if k > 0 {
      ValueOfDigits(n / 10, k - 1);
      assert Digits(n, k)[..k - 1] == Digits(n / 10, k - 1);
    }
  }

  lemma {:induction false} DigitsOfValue(s: seq<Byte>)
    requires AllDigits(s)
    ensures Value(s) < Pow10(|s|) && Digits(Value(s), |s|) == s
  {
    if s != [] {
      DigitsOfValue(s[..|s| - 1]);
      assert s == s[..|s| - 1] + [s[|s| - 1]];
    }
  }

  /** The digits of `whole` from position p of the head on are in place, those of n remain, and the
      rest of the head is zeros. */
  ghost predicate DigitsWritten(cmd: seq<Byte>, p: nat, n: nat, whole: nat)
    requires p <= CMD_PREFIX_BYTE <= |cmd|
  {
    cmd[..p] == Digits(0, p) && Digits(n, p) + cmd[p..CMD_PREFIX_BYTE] == Head(whole)
  }

  lemma {:induction false} ZeroDigits(k: nat)
    ensures Digits(0, k) == seq(k, _ => ZERO)
  {
    if k > 0 { ZeroDigits(k - 1); }
  }

  lemma NothingWritten(cmd: seq<Byte>, n: nat)
    requires |cmd| >= CMD_PREFIX_BYTE && forall i :: 0 <= i < CMD_PREFIX_BYTE ==> cmd[i] == ZERO
    ensures DigitsWritten(cmd, CMD_PREFIX_BYTE, n, n)
  {
    ZeroDigits(CMD_PREFIX_BYTE);
    hide Digits;
    assert cmd[..CMD_PREFIX_BYTE] == Digits(0, CMD_PREFIX_BYTE);
  }

  lemma OneMoreDigit(cmd: seq<Byte>, p: nat, n: nat, whole: nat)
    requires 0 < n < Pow10(p) && p <= CMD_PREFIX_BYTE <= |cmd| && DigitsWritten(cmd, p, n, whole)
    ensures p > 0 && n / 10 < Pow10(p - 1) && DigitsWritten(cmd[p - 1 := ZERO + n % 10], p - 1, n / 10, whole)
  {
    var after := cmd[p - 1 := ZERO + n % 10];
    ZeroDigits(p);
    ZeroDigits(p - 1);
    assert Digits(n, p) == Digits(n / 10, p - 1) + [ZERO + n % 10];
    hide Digits;
    assert after[p - 1..CMD_PREFIX_BYTE] == [ZERO + n % 10] + cmd[p..CMD_PREFIX_BYTE];
    assert after[..p - 1] == Digits(0, p - 1);
  }

  lemma AllDigitsWritten(cmd: seq<Byte>, p: nat, whole: nat)
    requires p <= CMD_PREFIX_BYTE <= |cmd| && DigitsWritten(cmd, p, 0, whole)
    ensures cmd[..CMD_PREFIX_BYTE] == Head(whole)
  {
    hide Digits;
    assert cmd[..CMD_PREFIX_BYTE] == cmd[..p] + cmd[p..CMD_PREFIX_BYTE];
  }

  lemma Enough()
    ensures Pow10(CMD_PREFIX_BYTE) == 10_000_000_000
  {
    assert Pow10(5) == 100_000;
  }

  /** `fill_cmd_head`. */
  method FillCmdHead(cmd: array<Byte>, msg_len: nat)
    requires cmd.Length >= CMD_PREFIX_BYTE && msg_len < INT_LIMIT
    modifies cmd
    ensures cmd[..CMD_PREFIX_BYTE] == Head(msg_len)
    ensures cmd[CMD_PREFIX_BYTE..] == old(cmd[CMD_PREFIX_BYTE..])
  {
    forall i | 0 <= i < CMD_PREFIX_BYTE { cmd[i] := ZERO; }
    var n: nat, p: nat := msg_len, CMD_PREFIX_BYTE;
    Enough();
    NothingWritten(cmd[..], msg_len);
    hide Pow10, Digits;
    while n > 0
      invariant p <= CMD_PREFIX_BYTE && n < Pow10(p)
      invariant DigitsWritten(cmd[..], p, n, msg_len)
      invariant cmd[CMD_PREFIX_BYTE..] == old(cmd[CMD_PREFIX_BYTE..])
    {
      OneMoreDigit(cmd[..], p, n, msg_len);
      p := p - 1;
      cmd[p] := ZERO + n % 10;
      n := n / 10;
    }
    AllDigitsWritten(cmd[..], p, msg_len);
  }

  lemma TimesGrows(d: nat, e: int)
    ensures (e >= 1 ==> d * e >= d) && (e <= -1 ==> d * e + d <= 0)
  {
  }

  lemma QuotientIs(n: nat, d: nat, q: nat, r: nat)
    requires n == d * q + r && r < d
    ensures n / d == q
  {
    var e := n / d - q;
    assert d * e == r - n % d by { assert n == d * (n / d) + n % d; }
    TimesGrows(d, e);
  }

  lemma NestedQuotient(n: nat, p: nat)
    requires p > 0
    ensures n / 10 / p == n / (10 * p)
  {
    var q, r := n / 10 / p, n / 10 % p;
    assert n == 10 * p * q + (10 * r + n % 10);
    assert 10 * r + n % 10 < 10 * p;
    QuotientIs(n, 10 * p, q, 10 * r + n % 10);
  }

  lemma {:induction false} DigitAt(n: nat, k: nat, i: nat)
    requires i < k
    ensures Digits(n, k)[i] == 48 + n / Pow10(k - 1 - i) % 10
  {
    if i < k - 1 {
      DigitAt(n / 10, k - 1, i);
      NestedQuotient(n, Pow10(k - 2 - i));
    } else {
      assert Pow10(0) == 1;
    }
  }

  /** The characters of a head: the decimal digit with weight 10^(9 - i) at place i. */
  lemma HeadAt(n: nat, i: nat)
    requires i < CMD_PREFIX_BYTE
    ensures |Head(n)| == 10 && Head(n)[i] == 48 + n / Pow10(9 - i) % 10
  {
    DigitAt(n, CMD_PREFIX_BYTE, i);
  }

  lemma HeadExamples()
    ensures Head(5) == [48, 48, 48, 48, 48, 48, 48, 48, 48, 53]
    ensures Head(1234567890) == [49, 50, 51, 52, 53, 54, 55, 56, 57, 48]
  {
    assert Digits(5, 1) == [53];
    assert Digits(12345, 5) == [49, 50, 51, 52, 53];
  }

  /** What a head says: the length, or -1 when it is not made of digits. */
  function HeadValue(s: seq<Byte>): int {
    if AllDigits(s) then Value(s) else -1
  }

  /** `parse_cmd_head`. */
  method ParseCmdHead(cmd: seq<Byte>) returns (msg_len: int)
    requires |cmd| >= CMD_PREFIX_BYTE
    ensures msg_len == HeadValue(cmd[..CMD_PREFIX_BYTE])
  {
    msg_len := 0;
    var p := 0;
    while p < CMD_PREFIX_BYTE
      invariant p <= CMD_PREFIX_BYTE && AllDigits(cmd[..p]) && msg_len == Value(cmd[..p])
    {
      if cmd[p] > NINE || cmd[p] < ZERO {
        assert cmd[..CMD_PREFIX_BYTE][p] == cmd[p];
        return -1;
      }
      assert cmd[..p + 1][..p] == cmd[..p];
      msg_len := msg_len * 10 + cmd[p] - ZERO;
      p := p + 1;
    }
  }

  /** A head gives back the length it was filled with, and a head that is read as a length is the one
      that filling makes of it. */
  lemma HeadRoundTrip(n: nat, s: seq<Byte>)
    requires |s| == CMD_PREFIX_BYTE
    ensures n < Pow10(CMD_PREFIX_BYTE) ==> HeadValue(Head(n)) == n
    ensures HeadValue(s) >= 0 ==> Head(HeadValue(s)) == s
  {
    if n < Pow10(CMD_PREFIX_BYTE) { ValueOfDigits(n, CMD_PREFIX_BYTE); }
    if AllDigits(s) { DigitsOfValue(s); }
  }

  function Frame(payload: seq<Byte>): seq<Byte> { Head(|payload|) + payload }

  // ----- Sockets -----

  /** A socket with the bytes its peer sends and, for each read, how many bytes the system has at hand:
      none means that the call would block. */
  class Socket {
    const stream: seq<Byte>
    const chunks: seq<nat>
    var pos: nat
    var next: nat

    ghost predicate Valid()
      reads this
    {
      pos <= |stream| && next <= |chunks|
    }

    constructor (stream: seq<Byte>, chunks: seq<nat>)
      ensures Valid() && this.stream == stream && this.chunks == chunks && pos == 0 && next == 0
    {
      this.stream, this.chunks := stream, chunks;
      pos, next := 0, 0;
    }

    /** `read`: -1 when it would block. */
    method Read(buf: array<Byte>, at: nat, n: nat) returns (res: int)
      requires Valid() && at + n <= buf.Length
      modifies this, buf
      ensures Valid() && -1 <= res <= n
      ensures res == 0 <==> n == 0
      ensures n == 0 ==> next == old(next)
      ensures res <= 0 ==> pos == old(pos) && buf[..] == old(buf[..])
      ensures res == -1 && pos < |stream| ==>
                (next == old(next) && next == |chunks|) || (next == old(next) + 1 && chunks[old(next)] == 0)
      ensures res > 0 ==> next == old(next) + 1 && pos == old(pos) + res
                          && chunks[old(next)] >= res && (res == n || res == chunks[old(next)] || pos == |stream|)
                          && buf[..] == old(buf[..])[..at] + stream[old(pos)..pos] + old(buf[..])[at + res..]
    {
      if n == 0 { return 0; }
      if next == |chunks| { return -1; }
      var k := chunks[next];
      next := next + 1;
      if k > |stream| - pos { k := |stream| - pos; }
      if k > n { k := n; }
      if k == 0 { return -1; }
      forall i | 0 <= i < k { buf[at + i] := stream[pos + i]; }
      pos := pos + k;
      res := k;
    }
  }

  /** How many of the chunks before position n carry bytes. */
  function Offers(chunks: seq<nat>, n: nat): nat
    requires n <= |chunks|
  {
    if n == 0 then 0 else Offers(chunks, n - 1) + if chunks[n - 1] > 0 then 1 else 0
  }

  /** The other direction: the bytes sent so far and, for each send, how many bytes there is room for. */
  class OutSocket {
    const room: seq<nat>
    var turn: nat
    var sent: seq<Byte>

    ghost predicate Valid()
      reads this
    {
      turn <= |room|
    }

    constructor (room: seq<nat>)
      ensures Valid() && this.room == room && sent == [] && turn == 0
    {
      this.room, sent, turn := room, [], 0;
    }

    /** `send`: -1 when it would block. */
    method Send(bytes: seq<Byte>) returns (res: int)
      requires Valid() && |bytes| > 0
      modifies this
      ensures Valid() && (res == -1 || 0 < res <= |bytes|)
      ensures res == -1 ==> sent == old(sent)
      ensures res == -1 ==> (turn == old(turn) && turn == |room|) || (turn == old(turn) + 1 && room[old(turn)] == 0)
      ensures res > 0 ==> sent == old(sent) + bytes[..res] && turn == old(turn) + 1 && room[old(turn)] > 0
    {
      if turn == |room| { return -1; }
      var k := room[turn];
      turn := turn + 1;
      if k > |bytes| { k := |bytes|; }
      if k == 0 { return -1; }
      sent := sent + bytes[..k];
      res := k;
    }
  }

  // ----- Reading -----

  /** The size of a read buffer after g growths. */
  function Size(g: nat): (size: nat)
    ensures size >= RBUF_SZ
  {
    if g == 0 then RBUF_SZ else 2 * Size(g - 1)
  }

  lemma {:induction false} SizeGrows(g: nat, h: nat)
    requires g < h
    ensures Size(g) < Size(h)
  {
    if g < h - 1 { SizeGrows(g, h - 1); }
  }

  /** Some buffer is exactly as large as the message. */
  ghost predicate FillsABuffer(size: nat) { exists g: nat :: Size(g) == size }

  lemma BetweenSizes(g: nat, size: nat)
    requires (g > 0 ==> Size(g - 1) < size) && size < Size(g)
    ensures !FillsABuffer(size)
  {
    forall h: nat ensures Size(h) != size {
      if h < g - 1 { SizeGrows(h, g - 1); } else if h > g { SizeGrows(g, h); }
    }
  }

  lemma FirstSize()
    ensures Size(0) == RBUF_SZ && CMD_PREFIX_BYTE < Size(MAX_ALLOCS) && !FillsABuffer(CMD_PREFIX_BYTE)
  {
  }

  lemma SizeFacts(g: nat, need: nat)
    ensures (g > 0 ==> Size(g - 1) < need) && need < Size(g) ==> !FillsABuffer(need)
    ensures g > 0 && need == Size(g - 1) ==> FillsABuffer(need)
    ensures g <= MAX_ALLOCS ==> Size(g) <= Size(MAX_ALLOCS)
  {
    if (g > 0 ==> Size(g - 1) < need) && need < Size(g) { BetweenSizes(g, need); }
    if g < MAX_ALLOCS { SizeGrows(g, MAX_ALLOCS); }
  }

  lemma SlicesJoin(s: seq<Byte>, from: nat, mid: nat, to: nat)
    requires from <= mid <= to <= |s|
    ensures s[from..mid] + s[mid..to] == s[from..to]
  {
  }

  lemma SizeIsMonotone(g: nat, h: nat)
    requires g <= h
    ensures Size(g) <= Size(h)
  {
    if g < h { SizeGrows(g, h); }
  }

  /** Between two reads the position moves by at least a byte for each chunk that carries bytes. */
  ghost predicate Progress(chunks: seq<nat>, next: nat, next': nat, pos: nat, pos': nat) {
    next <= next' <= |chunks| && pos' - pos >= Offers(chunks, next') - Offers(chunks, next)
  }

  ghost predicate Pushing(s: Socket, need: nat)
    reads s
  {
    s.next + MAX_ALLOCS + 1 <= |s.chunks| && forall i :: s.next <= i < |s.chunks| ==> s.chunks[i] >= need
  }

  /** The system always has more bytes at hand than a message needs. */
  ghost predicate Eager(s: Socket, need: nat)
    reads s
  {
    s.next + MAX_ALLOCS + 2 <= |s.chunks| && forall i :: s.next <= i < |s.chunks| ==> s.chunks[i] >= need
  }

  /** No piece that arrives is as large as the smallest buffer. */
  predicate Gentle(chunks: seq<nat>) {
    forall i :: 0 <= i < |chunks| ==> chunks[i] < RBUF_SZ
  }

  /** What becomes of a message. */
  datatype Received = Waiting | Message(payload: seq<Byte>) | Closed

  ghost predicate Starts(stream: seq<Byte>, start: nat, s: seq<Byte>) {
    start + |s| <= |stream| && stream[start..start + |s|] == s
  }

  lemma FrameArrives(stream: seq<Byte>, start: nat, payload: seq<Byte>)
    requires |Frame(payload)| < INT_LIMIT && Starts(stream, start, Frame(payload))
    ensures start + |Frame(payload)| <= |stream| && |Frame(payload)| == CMD_PREFIX_BYTE + |payload|
    ensures HeadValue(stream[start..start + CMD_PREFIX_BYTE]) == |payload|
    ensures stream[start..start + |Frame(payload)|][CMD_PREFIX_BYTE..] == payload
  {
    Enough();
    HeadRoundTrip(|payload|, Head(|payload|));
    assert stream[start..start + CMD_PREFIX_BYTE] == stream[start..start + |Frame(payload)|][..CMD_PREFIX_BYTE];
  }

  /** A message that gets through however it is cut into pieces. */
  ghost predicate Acceptable(payload: seq<Byte>) {
    |payload| > 0 && |Frame(payload)| < Size(MAX_ALLOCS) && !FillsABuffer(|Frame(payload)|)
  }

  // ----- Writing -----

  datatype WriteResult = DataSent | SentMore | NoDataSent

  /** A send that would block. */
  predicate Refusal(room: seq<nat>, i: nat) { i < |room| && room[i] == 0 }

  lemma SentPrefix(s: seq<Byte>, from: nat, to: nat, k: nat)
    requires from <= to <= |s| && k <= to - from
    ensures s[..from] + s[from..to][..k] == s[..from + k]
  {
  }

  datatype Replied = Sent | Pending | Stalled

  /** A refusal with which a round of sends would begin: the first of all, or one right after another. */
  predicate Stall(room: seq<nat>, from: nat, i: nat) {
    Refusal(room, i) && (i == from || (i > 0 && Refusal(room, i - 1)))
  }

  lemma PartOf(before: seq<Byte>, s: seq<Byte>, k: nat)
    requires k <= |s|
    ensures before <= before + s[..k] <= before + s
    ensures k == |s| ==> before + s[..k] == before + s
  {
  }

  lemma HeadAndPayload(buffer: seq<Byte>, payload: seq<Byte>)
    requires CMD_PREFIX_BYTE + |payload| <= |buffer| && buffer[..CMD_PREFIX_BYTE] == Head(|payload|)
    requires buffer[CMD_PREFIX_BYTE..][..|payload|] == payload
    ensures buffer[..CMD_PREFIX_BYTE + |payload|] == Frame(payload)
    ensures buffer[CMD_PREFIX_BYTE..CMD_PREFIX_BYTE + |payload|] == payload
  {
    var total := CMD_PREFIX_BYTE + |payload|;
    assert buffer[CMD_PREFIX_BYTE..][..|payload|] == buffer[CMD_PREFIX_BYTE..total];
    assert buffer[..total] == buffer[..CMD_PREFIX_BYTE] + buffer[CMD_PREFIX_BYTE..total];
  }

  // ----- Connections -----

  datatype ReadResult = NoDataReceived | HeaderReceived | DataReceived | NeedMore | ReadError | MemoryError

  class Conn {
    var read_buffer: array<Byte>    // of rbuf_size bytes
    var have_read: nat
    var need_read: nat
    ghost var growths: nat
    const write_buffer: array<Byte> // __write_buffer
    var need_write: nat
    var have_write: nat

    /** A connection that waits for the head of a message. */
    ghost predicate Idle()
      reads this, read_buffer, write_buffer
    {
      read_buffer.Length == RBUF_SZ && growths == 0 && have_read == 0 && need_read == CMD_PREFIX_BYTE
      && write_buffer.Length == WBUF_SZ && have_write == 0
    }

    constructor ()
      ensures Idle() && fresh(read_buffer) && fresh(write_buffer)
    {
      read_buffer := new Byte[RBUF_SZ];
      write_buffer := new Byte[WBUF_SZ];
      growths, have_read, need_read, need_write, have_write := 0, 0, CMD_PREFIX_BYTE, 0, 0;
    }

    /** The bytes read so far are those of the stream from `start` on. */
    ghost predicate Reading(s: Socket, start: nat)
      reads this, read_buffer, s
    {
      s.Valid() && read_buffer.Length == Size(growths) && have_read <= read_buffer.Length
      && have_read <= need_read && s.pos == start + have_read && start + need_read <= |s.stream|
      && read_buffer[..have_read] == s.stream[start..s.pos]
    }

    /** The buffer only grew because the message needed it. */
    ghost predicate Tight()
      reads this
    {
      growths > 0 ==> Size(growths - 1) < need_read
    }

    /** A full buffer gives way to one of twice the size. */
    method Grow(s: Socket, ghost start: nat)
      requires Reading(s, start) && have_read == read_buffer.Length
      modifies this`read_buffer, this`growths
      ensures Reading(s, start) && fresh(read_buffer) && growths == old(growths) + 1
      ensures have_read < need_read ==> Tight()
      ensures Size(growths - 1) == have_read < read_buffer.Length
    {
      var buf := new Byte[2 * read_buffer.Length];
      forall i | 0 <= i < read_buffer.Length { buf[i] := read_buffer[i]; }
      assert buf[..have_read] == read_buffer[..have_read];
      read_buffer := buf;
      growths := growths + 1;
    }

    /** One `read` into the free part of the buffer. */
    method ReadSome(s: Socket, ghost start: nat, n: nat) returns (res: int)
      requires Reading(s, start) && have_read + n <= read_buffer.Length && have_read + n <= need_read
      modifies this`have_read, s, read_buffer
      ensures Reading(s, start) && -1 <= res <= n && (res == 0 <==> n == 0)
      ensures have_read == old(have_read) + if res > 0 then res else 0
      ensures Progress(s.chunks, old(s.next), s.next, old(s.pos), s.pos)
      ensures res > 0 ==> s.next == old(s.next) + 1 && res <= s.chunks[old(s.next)]
                          && (res == n || s.chunks[old(s.next)] < n)
      ensures res == -1 ==> (s.next == old(s.next) && s.next == |s.chunks|)
                            || (s.next == old(s.next) + 1 && s.chunks[old(s.next)] == 0)
    {
      ghost var was := read_buffer[..];
      res := s.Read(read_buffer, have_read, n);
      if res > 0 {
        assert read_buffer[..have_read + res] == was[..have_read] + s.stream[old(s.pos)..s.pos];
        SlicesJoin(s.stream, start, old(s.pos), s.pos);
        have_read := have_read + res;
      } else {
        assert read_buffer[..have_read] == was[..have_read];
      }
    }

    /** The message needs more than the buffer holds, or the buffer is full. */
    ghost predicate Wanting()
      reads this
    {
      Tight() && (have_read < need_read || have_read == read_buffer.Length)
    }

    /** One turn of the loop of `aread` when memory may be had: grows a full buffer and reads. */
    method ReadOnce(s: Socket, ghost start: nat) returns (res: int, avail: nat)
      requires Reading(s, start) && Wanting()
      modifies this`read_buffer, this`growths, this`have_read, s, read_buffer
      ensures read_buffer == old(read_buffer) || fresh(read_buffer)
      ensures Reading(s, start) && (old(have_read) < need_read ==> Tight())
      ensures growths == old(growths) + if old(have_read == read_buffer.Length) then 1 else 0
      ensures res >= -1 && (res == 0 <==> old(have_read) == need_read)
      ensures res == 0 ==> FillsABuffer(need_read)
      ensures old(have_read) < have_read == need_read < read_buffer.Length ==> !FillsABuffer(need_read)
      ensures growths <= MAX_ALLOCS ==> read_buffer.Length <= Size(MAX_ALLOCS)
      ensures have_read == old(have_read) + if res > 0 then res else 0
      ensures avail > 0 && (res > 0 ==> (res == avail <==> have_read == read_buffer.Length))
      ensures res <= 0 ==> have_read < read_buffer.Length
      ensures Progress(s.chunks, old(s.next), s.next, old(s.pos), s.pos)
      ensures res > 0 ==> s.next == old(s.next) + 1 && res <= s.chunks[old(s.next)]
      ensures old(have_read == read_buffer.Length) ==> avail >= RBUF_SZ
      ensures res == -1 ==> s.next == |s.chunks| || s.next > old(s.next)
      ensures old(have_read) < need_read && old(s.next) < |s.chunks| && s.chunks[old(s.next)] >= need_read ==>
                s.next == old(s.next) + 1 && (have_read == need_read || have_read == read_buffer.Length)
    {
      hide Offers, FillsABuffer, Progress, Gentle;
      if have_read >= read_buffer.Length { Grow(s, start); }
      avail := read_buffer.Length - have_read;
      var n := if need_read - have_read < avail then need_read - have_read else avail;
      SizeFacts(growths, need_read);
      res := ReadSome(s, start, n);
    }

    /** `aread`. */
    method ARead(s: Socket, ghost start: nat) returns (gotdata: ReadResult)
      requires Reading(s, start) && Tight() && CMD_PREFIX_BYTE <= need_read && have_read < need_read
      modifies this`read_buffer, this`growths, this`have_read, s, read_buffer
      ensures read_buffer == old(read_buffer) || fresh(read_buffer)
      ensures gotdata.ReadError? ==> FillsABuffer(need_read)
      ensures gotdata.MemoryError? ==> need_read >= Size(MAX_ALLOCS) && !Gentle(s.chunks)
      ensures gotdata.DataReceived? ==> !FillsABuffer(need_read)
      ensures !gotdata.ReadError? && !gotdata.MemoryError? ==>
                Reading(s, start) && Tight() && have_read < read_buffer.Length
      ensures gotdata.HeaderReceived? || gotdata.DataReceived? ==>
                have_read == need_read && (gotdata.HeaderReceived? <==> need_read == CMD_PREFIX_BYTE)
      ensures old(growths == 0 && have_read < RBUF_SZ && Pushing(s, need_read)) && need_read > Size(MAX_ALLOCS) ==>
                gotdata.MemoryError?
      ensures old(need_read < read_buffer.Length && s.next < |s.chunks| && s.chunks[s.next] >= need_read) ==>
                s.next == old(s.next) + 1 && growths == old(growths)
                && (gotdata.HeaderReceived? || gotdata.DataReceived?)
      ensures have_read > old(have_read) ==> s.next > old(s.next)
      ensures gotdata.NeedMore? ==> old(have_read) < have_read < need_read
      ensures gotdata.NoDataReceived? ==> have_read == old(have_read) && (s.next == |s.chunks| || s.next > old(s.next))
      ensures s.Valid() && Progress(s.chunks, old(s.next), s.next, old(s.pos), s.pos)
    {
      hide Offers, FillsABuffer, Size;
      gotdata := NoDataReceived;
      var num_allocs := 0;
      ghost var g, buf := growths, read_buffer;
      ghost var eager := growths == 0 && have_read < RBUF_SZ && Pushing(s, need_read) && need_read > Size(MAX_ALLOCS);
      while true
        invariant Reading(s, start) && (read_buffer == buf || fresh(read_buffer))
        invariant have_read > old(have_read) ==> s.next > old(s.next)
        invariant old(need_read < read_buffer.Length && s.next < |s.chunks| && s.chunks[s.next] >= need_read) ==>
                    s.next == old(s.next) && num_allocs == 0 && have_read == old(have_read)
        invariant have_read >= old(have_read) && growths == g + num_allocs && num_allocs <= MAX_ALLOCS
        invariant Wanting()
        invariant if have_read == old(have_read) then gotdata.NoDataReceived? && s.next == old(s.next)
                  else gotdata.NeedMore? == (have_read < need_read) && !gotdata.NoDataReceived?
        invariant Progress(s.chunks, old(s.next), s.next, old(s.pos), s.pos)
        invariant Gentle(s.chunks) ==> num_allocs == 0
        invariant eager ==> (s.next == old(s.next) && num_allocs == 0 && have_read < read_buffer.Length)
                            || (have_read == read_buffer.Length && s.next == old(s.next) + num_allocs + 1)
        decreases |s.chunks| - s.next
      {
        if have_read >= read_buffer.Length {
          if num_allocs == MAX_ALLOCS {
            SizeIsMonotone(MAX_ALLOCS, growths);
            return MemoryError;
          }
          num_allocs := num_allocs + 1;
        }
        var res, avail := ReadOnce(s, start);
        if res > 0 {
          gotdata := if need_read > have_read then NeedMore
                     else if need_read == CMD_PREFIX_BYTE then HeaderReceived
                     else if need_read > CMD_PREFIX_BYTE then DataReceived
                     else ReadError;
          if res == avail { continue; } else { break; }
        }
        if res == 0 { return ReadError; }
        break;
      }
    }

    /** `conn_parse_header`: whether there is more to read. */
    method ParseHeader(s: Socket, ghost start: nat, ghost payload: seq<Byte>) returns (more: bool)
      requires Reading(s, start) && have_read == need_read == CMD_PREFIX_BYTE && growths == 0
      requires |Frame(payload)| < INT_LIMIT && Starts(s.stream, start, Frame(payload))
      modifies this`need_read
      ensures more <==> |payload| > 0
      ensures more ==> need_read == |Frame(payload)| > CMD_PREFIX_BYTE && Reading(s, start)
    {
      FrameArrives(s.stream, start, payload);
      hide Starts, Head, HeadValue;
      assert read_buffer[..][..CMD_PREFIX_BYTE] == read_buffer[..have_read];
      var msg_len := ParseCmdHead(read_buffer[..]);
      if msg_len <= 0 { return false; }
      need_read := msg_len + CMD_PREFIX_BYTE;
      more := true;
    }

    /** What the handler finds after the head. */
    method Body(s: Socket, ghost start: nat, ghost payload: seq<Byte>) returns (m: seq<Byte>)
      requires Reading(s, start) && have_read == need_read == |Frame(payload)|
      requires |Frame(payload)| < INT_LIMIT && Starts(s.stream, start, Frame(payload))
      ensures m == payload
    {
      FrameArrives(s.stream, start, payload);
      m := read_buffer[CMD_PREFIX_BYTE..need_read];
      assert m == read_buffer[..have_read][CMD_PREFIX_BYTE..];
    }

    /** The events of a connection while a message comes in: `conn_waiting`, `conn_read` and
        `conn_parse_header` up to `conn_parse_cmd`, where the handler sees the message. */
    method Receive(s: Socket, ghost start: nat, ghost payload: seq<Byte>) returns (outcome: Received)
      requires Reading(s, start) && growths == 0 && have_read == 0 && need_read == CMD_PREFIX_BYTE
      requires |Frame(payload)| < INT_LIMIT && Starts(s.stream, start, Frame(payload))
      modifies this`read_buffer, this`growths, this`have_read, this`need_read, s, read_buffer
      ensures read_buffer == old(read_buffer) || fresh(read_buffer)
      ensures s.Valid() && Progress(s.chunks, old(s.next), s.next, old(s.pos), s.pos)
      ensures outcome.Message? ==> outcome.payload == payload && s.pos == start + |Frame(payload)|
                                   && |payload| > 0 && !FillsABuffer(|Frame(payload)|)
      ensures outcome.Closed? ==> !Acceptable(payload)
      ensures outcome.Closed? && Gentle(s.chunks) ==> |payload| == 0 || FillsABuffer(|Frame(payload)|)
      ensures outcome.Waiting? ==> s.next == |s.chunks| && s.pos < start + |Frame(payload)|
      ensures old(Offers(s.chunks, |s.chunks|) - Offers(s.chunks, s.next)) >= |Frame(payload)| ==> !outcome.Waiting?
      ensures old(Eager(s, |Frame(payload)|)) && |Frame(payload)| > Size(MAX_ALLOCS) ==> outcome.Closed?
    {
      hide Offers, FillsABuffer, Starts, Head, HeadValue, Size, Frame;
      ghost var size := |Frame(payload)|;
      ghost var eager := Eager(s, size) && size > Size(MAX_ALLOCS);
      var parsed := false;
      FrameArrives(s.stream, start, payload);
      FirstSize();
      while true
        invariant Reading(s, start) && Tight() && have_read < need_read
                    && (read_buffer == old(read_buffer) || fresh(read_buffer))
        invariant if parsed then need_read == size > CMD_PREFIX_BYTE else need_read == CMD_PREFIX_BYTE && growths == 0
        invariant Progress(s.chunks, old(s.next), s.next, old(s.pos), s.pos)
        invariant eager ==> growths == 0 && have_read <= CMD_PREFIX_BYTE
                            && s.next == old(s.next) + if parsed then 1 else 0
        decreases |s.chunks| - s.next
      {
        if s.next == |s.chunks| { return Waiting; }
        var gotdata := ARead(s, start);
        match gotdata {
          case NoDataReceived =>
          case NeedMore =>
          case HeaderReceived =>
            parsed := ParseHeader(s, start, payload);
            if !parsed { return Closed; }
          case DataReceived =>
            var m := Body(s, start, payload);
            return Message(m);
          case ReadError => return Closed;
          case MemoryError => return Closed;
        }
      }
    }

    /** What has been sent of the reply is its beginning. */
    ghost predicate Writing(o: OutSocket, before: seq<Byte>, total: nat)
      reads this, write_buffer, o
    {
      o.Valid() && total <= write_buffer.Length && have_write <= total
      && o.sent == before + write_buffer[..have_write]
    }

    /** `awrite`, for `total` bytes in all (`__need_write`). */
    method AWrite(o: OutSocket, total: nat, ghost before: seq<Byte>) returns (result: WriteResult)
      requires Writing(o, before, total)
      modifies this`have_write, o
      ensures Writing(o, before, total) && have_write >= old(have_write)
      ensures result == if have_write == total then DataSent
                        else if have_write == old(have_write) then NoDataSent else SentMore
      ensures old(o.turn) <= o.turn && forall i :: old(o.turn) <= i < o.turn - 1 ==> !Refusal(o.room, i)
      ensures result.DataSent? && o.turn > old(o.turn) ==> !Refusal(o.room, o.turn - 1)
      ensures result.NoDataSent? ==>
                (o.turn == old(o.turn) && o.turn == |o.room|)
                    || (o.turn == old(o.turn) + 1 && Refusal(o.room, old(o.turn)))
      ensures result.SentMore? ==> old(o.turn) < o.turn && (o.turn == |o.room| || Refusal(o.room, o.turn - 1))
                                   && (Refusal(o.room, o.turn - 1) ==> old(o.turn) + 2 <= o.turn)
    {
      result := NoDataSent;
      if total - have_write == 0 { return DataSent; }
      while true
        invariant Writing(o, before, total) && old(have_write) <= have_write < total
        invariant result == if have_write == old(have_write) then NoDataSent else SentMore
        invariant o.turn >= old(o.turn) && (have_write == old(have_write) <==> o.turn == old(o.turn))
        invariant forall i :: old(o.turn) <= i < o.turn ==> !Refusal(o.room, i)
        decreases total - have_write
      {
        var res := o.Send(write_buffer[have_write..total]);
        if res > 0 {
          SentPrefix(write_buffer[..], have_write, total, res);
          have_write := have_write + res;
          if total > have_write {
            result := SentMore;
            continue;
          }
          result := DataSent;
        }
        break;
      }
    }

    /** `conn_write` from one event to the next, for the reply that the handler left in the buffer. */
    method Reply(o: OutSocket, ghost payload: seq<Byte>) returns (end: Replied)
      requires o.Valid() && have_write == 0 && need_write == |payload| <= WBUF_SZ - CMD_PREFIX_BYTE
      requires write_buffer.Length == WBUF_SZ && write_buffer[CMD_PREFIX_BYTE..CMD_PREFIX_BYTE + need_write] == payload
      modifies this`have_write, o, write_buffer
      ensures o.Valid() && old(o.turn) <= o.turn
      ensures end.Sent? ==> o.sent == old(o.sent) + Frame(payload)
      ensures old(o.sent) <= o.sent <= old(o.sent) + Frame(payload)
      ensures end.Pending? ==> o.turn == |o.room|
      ensures end.Stalled? ==> old(o.turn) < o.turn && Stall(o.room, old(o.turn), o.turn - 1)
      ensures forall i :: old(o.turn) <= i < o.turn - (if end.Stalled? then 1 else 0) ==> !Stall(o.room, old(o.turn), i)
    {
      ghost var before := o.sent;
      var total := need_write + CMD_PREFIX_BYTE;
      while true
        invariant Writing(o, before, total) && have_write < total
        invariant write_buffer[CMD_PREFIX_BYTE..total] == payload
        invariant have_write > 0 ==> write_buffer[..total] == Frame(payload)
        invariant old(o.turn) <= o.turn && forall i :: old(o.turn) <= i < o.turn ==> !Stall(o.room, old(o.turn), i)
        invariant o.turn == old(o.turn) || o.turn == |o.room| || Refusal(o.room, o.turn - 1)
        decreases |o.room| - o.turn
      {
        if o.turn == |o.room| {
          assert have_write > 0 ==> write_buffer[..have_write] == write_buffer[..total][..have_write];
          PartOf(before, Frame(payload), have_write);
          return Pending;
        }
        if have_write == 0 {
          FillCmdHead(write_buffer, need_write);
          HeadAndPayload(write_buffer[..], payload);
        }
        var ret := AWrite(o, total, before);
        assert write_buffer[..have_write] == Frame(payload)[..have_write];
        PartOf(before, Frame(payload), have_write);
        match ret {
          case DataSent => return Sent;
          case NoDataSent => return Stalled;
          case SentMore =>
        }
      }
    }

    /** `conn_renew`, for the contents of the buffers. */
    method Renew()
      requires write_buffer.Length == WBUF_SZ
      modifies this
      ensures Idle() && fresh(read_buffer)
    {
      read_buffer := new Byte[RBUF_SZ];
      growths, have_read, need_read, have_write := 0, 0, CMD_PREFIX_BYTE, 0;
    }

    /** The handler's reply to a message goes into the write buffer behind the head. */
    method Answer(reply: seq<Byte>)
      requires write_buffer.Length == WBUF_SZ && |reply| <= WBUF_SZ - CMD_PREFIX_BYTE
      modifies this`need_write, write_buffer
      ensures need_write == |reply| && write_buffer[CMD_PREFIX_BYTE..CMD_PREFIX_BYTE + need_write] == reply
    {
      need_write := |reply|;
      forall i | 0 <= i < |reply| { write_buffer[CMD_PREFIX_BYTE + i] := reply[i]; }
    }
  }

  /** The first n messages as a stream of frames. */
  function Frames(payloads: seq<seq<Byte>>, n: nat): seq<Byte>
    requires n <= |payloads|
  {
    if n == 0 then [] else Frames(payloads, n - 1) + Frame(payloads[n - 1])
  }

  function Replies(handler: seq<Byte> -> seq<Byte>, payloads: seq<seq<Byte>>): (r: seq<seq<Byte>>)
    ensures |r| == |payloads|
  {
    seq(|payloads|, i requires 0 <= i < |payloads| => handler(payloads[i]))
  }

  lemma {:induction false} FramesArePrefixes(payloads: seq<seq<Byte>>, n: nat, m: nat)
    requires n <= m <= |payloads|
    ensures Frames(payloads, n) <= Frames(payloads, m)
    decreases m - n
  {
    if n < m { FramesArePrefixes(payloads, n, m - 1); }
  }

  lemma FrameInStream(payloads: seq<seq<Byte>>, n: nat)
    requires n < |payloads|
    ensures Starts(Frames(payloads, |payloads|), |Frames(payloads, n)|, Frame(payloads[n]))
    ensures |Frames(payloads, n + 1)| == |Frames(payloads, n)| + |Frame(payloads[n])|
    ensures |Frames(payloads, n + 1)| <= |Frames(payloads, |payloads|)|
  {
    FramesArePrefixes(payloads, n + 1, |payloads|);
    assert Frames(payloads, n + 1) == Frames(payloads, n) + Frame(payloads[n]);
    assert Frames(payloads, |payloads|)[..|Frames(payloads, n + 1)|] == Frames(payloads, n + 1);
    hide Frames, Frame;
  }

  lemma {:induction false} FramesOfPrefix(ps: seq<seq<Byte>>, qs: seq<seq<Byte>>, n: nat)
    requires n <= |ps| && n <= |qs| && forall i :: 0 <= i < n ==> ps[i] == qs[i]
    ensures Frames(ps, n) == Frames(qs, n)
  {
    if n > 0 { FramesOfPrefix(ps, qs, n - 1); }
  }

  /** The replies to one message more. */
  lemma OneMoreReply(handler: seq<Byte> -> seq<Byte>, seen: seq<seq<Byte>>, m: seq<Byte>)
    ensures Frames(Replies(handler, seen + [m]), |seen|) == Frames(Replies(handler, seen), |seen|)
    ensures Frames(Replies(handler, seen + [m]), |seen| + 1)
              == Frames(Replies(handler, seen), |seen|) + Frame(handler(m))
  {
    FramesOfPrefix(Replies(handler, seen + [m]), Replies(handler, seen), |seen|);
    assert Replies(handler, seen + [m])[|seen|] == handler(m);
  }

  /** One request and its reply. */
  method ServeOne(c: Conn, s: Socket, o: OutSocket, handler: seq<Byte> -> seq<Byte>, ghost payload: seq<Byte>)
      returns (outcome: Received, sent: Replied)
    requires c.Idle() && s.Valid() && o.Valid() && Starts(s.stream, s.pos, Frame(payload))
    requires |Frame(payload)| < INT_LIMIT
    requires forall p :: |handler(p)| <= WBUF_SZ - CMD_PREFIX_BYTE
    modifies c, c.read_buffer, c.write_buffer, s, o
    ensures (c.read_buffer == old(c.read_buffer) || fresh(c.read_buffer)) && s.Valid() && o.Valid()
    ensures Progress(s.chunks, old(s.next), s.next, old(s.pos), s.pos)
    ensures !outcome.Message? ==> o.sent == old(o.sent)
    ensures outcome.Closed? ==> !Acceptable(payload)
    ensures outcome.Waiting? ==> s.next == |s.chunks| && s.pos < old(s.pos) + |Frame(payload)|
    ensures outcome.Message? ==> outcome.payload == payload && s.pos == old(s.pos) + |Frame(payload)|
    ensures outcome.Message? && sent.Sent? ==> o.sent == old(o.sent) + Frame(handler(payload)) && c.Idle()
    ensures outcome.Message? && !sent.Sent? ==> old(o.sent) <= o.sent <= old(o.sent) + Frame(handler(payload))
  {
    FrameArrives(s.stream, s.pos, payload);
    hide Acceptable, Offers, Frame, FillsABuffer, Starts;
    sent := Pending;
    outcome := c.Receive(s, s.pos, payload);
    if outcome.Message? {
      var reply := handler(outcome.payload);
      c.Answer(reply);
      sent := c.Reply(o, reply);
      if sent.Sent? { c.Renew(); }
    }
  }

  datatype Served = Drained | RequestRefused | ReplyCut

  lemma NoFrames(ps: seq<seq<Byte>>, qs: seq<seq<Byte>>)
    ensures Frames(ps, 0) == [] && Frames(qs, 0) == [] && forall chunks :: Offers(chunks, 0) == 0
  {
  }

  lemma NothingLeft(payloads: seq<seq<Byte>>, n: nat)
    requires n <= |payloads|
    ensures |Frames(payloads, n)| <= |Frames(payloads, |payloads|)|
    ensures |Frames(payloads, n)| == |Frames(payloads, |payloads|)| ==> n == |payloads|
  {
    if n < |payloads| {
      FramesArePrefixes(payloads, n + 1, |payloads|);
      FrameInStream(payloads, n);
    }
  }

  /** A connection that serves messages one after the other: however the requests arrive in pieces and
      the replies leave in pieces, the handler sees exactly the messages, in order, and the peer gets
      the frames of the replies. */
  method Serve(c: Conn, s: Socket, o: OutSocket, handler: seq<Byte> -> seq<Byte>, ghost payloads: seq<seq<Byte>>)
      returns (seen: seq<seq<Byte>>, end: Served)
    requires c.Idle() && s.Valid() && s.pos == 0 && s.next == 0 && o.Valid() && o.sent == []
    requires s.stream == Frames(payloads, |payloads|)
    requires forall i :: 0 <= i < |payloads| ==> |Frame(payloads[i])| < INT_LIMIT
    requires forall p :: |handler(p)| <= WBUF_SZ - CMD_PREFIX_BYTE
    modifies c, c.read_buffer, c.write_buffer, s, o
    ensures seen <= payloads
    ensures !end.ReplyCut? ==> o.sent == Frames(Replies(handler, seen), |seen|)
    ensures end.ReplyCut? ==> |seen| > 0 && Frames(Replies(handler, seen), |seen| - 1) <= o.sent
                              && o.sent <= Frames(Replies(handler, seen), |seen|)
    ensures end.RequestRefused? ==> |seen| < |payloads| && !Acceptable(payloads[|seen|])
    ensures end.Drained? ==> seen == payloads || s.next == |s.chunks|
    ensures end.Drained? && Offers(s.chunks, |s.chunks|) >= |s.stream| ==> seen == payloads && s.pos == |s.stream|
  {
    hide Frames, Replies, Acceptable, Offers, Frame, FillsABuffer, Starts;
    seen := [];
    NoFrames(payloads, Replies(handler, seen));
    while true
      invariant c.Idle() && s.Valid() && o.Valid() && (c.read_buffer == old(c.read_buffer) || fresh(c.read_buffer))
      invariant seen <= payloads && s.pos == |Frames(payloads, |seen|)|
                  && o.sent == Frames(Replies(handler, seen), |seen|)
      invariant Progress(s.chunks, 0, s.next, 0, s.pos)
      decreases |payloads| - |seen|
    {
      NothingLeft(payloads, |seen|);
      if s.next == |s.chunks| || s.pos == |s.stream| { return seen, Drained; }
      FrameInStream(payloads, |seen|);
      OneMoreReply(handler, seen, payloads[|seen|]);
      var outcome, sent := ServeOne(c, s, o, handler, payloads[|seen|]);
      match outcome {
        case Waiting => return seen, Drained;
        case Closed => return seen, RequestRefused;
        case Message(m) =>
          seen := seen + [m];
          if !sent.Sent? { return seen, ReplyCut; }
      }
    }
  }

  lemma {:induction false} AllOffer(chunks: seq<nat>, n: nat)
    requires n <= |chunks| && forall i :: 0 <= i < n ==> chunks[i] > 0
    ensures Offers(chunks, n) == n
  {
    if n > 0 { AllOffer(chunks, n - 1); }
  }

  /** The other half of `Acceptable`: every message that is not acceptable is refused when its bytes
      are at hand at once. */
  method RefusedAtOnce(payload: seq<Byte>) returns (outcome: Received)
    requires |Frame(payload)| < INT_LIMIT && !Acceptable(payload)
    ensures outcome.Closed?
  {
    var size := |Frame(payload)|;
    var chunks := seq(size + MAX_ALLOCS + 2, _ => size);
    AllOffer(chunks, |chunks|);
    assert Offers(chunks, 0) == 0;
    var s := new Socket(Frame(payload), chunks);
    var c := new Conn();
    hide Offers, FillsABuffer, Frame, Size;
    outcome := c.Receive(s, 0, payload);
  }

  /** But every message that is not empty and fills no buffer gets through, however long, when it comes
      byte by byte: the limit on growths holds for one call of `aread` only. */
  method DeliveredInPieces(payload: seq<Byte>) returns (outcome: Received)
    requires |payload| > 0 && |Frame(payload)| < INT_LIMIT && !FillsABuffer(|Frame(payload)|)
    ensures outcome == Message(payload)
  {
    var size := |Frame(payload)|;
    var chunks := seq(size, _ => 1);
    AllOffer(chunks, |chunks|);
    assert Offers(chunks, 0) == 0;
    var s := new Socket(Frame(payload), chunks);
    var c := new Conn();
    hide Offers, FillsABuffer, Frame, Size;
    outcome := c.Receive(s, 0, payload);
  }

  /** A reply that uses the whole write buffer makes a frame that this program itself cannot read. */
  lemma FullReplyIsRefused(reply: seq<Byte>)
    requires |reply| == WBUF_SZ - CMD_PREFIX_BYTE
    ensures !Acceptable(reply)
  {
    assert Size(0) == |Frame(reply)|;
  }
}
