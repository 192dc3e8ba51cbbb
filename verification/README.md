# gingko: five engines, modelled and proved

This project models the parts of gingko that compute something: the LZ4 block codec, the incrementally
rehashed dictionary, the slot allocator with the connections that take buffers from it, MD5, and the
loops that move data (length-prefixed messages over sockets, blocks of files, the rate limiter).  Each
model follows the code branch by branch, with its constants, and is proved against an independent
definition of what it should do.  `dafny verify dfyconfig.toml` checks everything.

| files | what they hold |
|---|---|
| `Bits.dfy` | shifts, masks and bit operations on natural numbers |
| `Lz4Format.dfy`, `Lz4Theory.dfy` | sequences, their meaning and bytes, a byte-at-a-time reader, and the laws between them |
| `Lz4Copy.dfy`, `Lz4Compress.dfy`, `Lz4Uncompress.dfy` | word reads and wild copies, the two compressors, the two decoders |
| `Lz4RoundTrip.dfy`, `Lz4Bounds.dfy` | the promises of the codec as a whole, and how far decoding encoded blocks reaches |
| `Lz4Lengths.dfy` | length fields that an `int` does not hold |
| `Lz4Errors.dfy` | what the decoders refuse and what they return then |
| `Lz4Runs.dfy` | what the compressor makes of runs of equal bytes |
| `Lz4Shortfalls.dfy` | where the decoders write beyond the output, read beyond the input and go astray |
| `DictTables.dfy`, `Dict.dfy`, `DictIterator.dfy`, `DictRun.dfy` | chains and tables, the dictionary, safe iteration, whole runs |
| `BufferSizes.dfy`, `Memory.dfy`, `Connections.dfy` | shared sizes, the bitmap allocator, and who owns which buffer |
| `Md5.dfy`, `Md5Vectors.dfy` | RFC 1321 in 32-bit words, the streaming code in 64-bit words, and two digests computed step by step |
| `Framing.dfy` | heads, short reads and writes, request and reply |
| `Blocks.dfy`, `BlockWriting.dfy` | sending blocks of files, and writing them back with short writes |
| `Limit.dfy` | the rate limiter over time |

## How the models are built

* **LZ4.** The 64-bit little-endian macros, HASH_LOG 12, the table on the stack.  The two compressors
  share one body with a flag for the 16-bit table, the two decoders one body with a mode.  Sizes are
  exact: `dest` in the proofs is only as large as the bound or, for the decoders, as the exact reach of
  their writes, so every wild copy is shown to stay inside.
  `Parse` says, for every input, what a byte-at-a-time decoder does; inputs that make the C decoders read
  past their end are the outcome `Overrun`.  Lengths are `int`s that wrap around; a negative one that is
  not refused is the outcome `Strayed`, where the model stops.
* **Dictionary.** A chain is a sequence of entries with addresses, so that an iterator can hold the
  address of an entry as the C code does.  The abstract contents are the look-up function over keys.
* **Allocator and connections.** The bitmap, counters and bucket pointers are arrays changed in place;
  system allocation may fail or return any region that overlaps none in use.  Ownership is a table of
  what each connection holds against the set of everything allocated.
* **MD5.** Registers are `bv64` as in the code and `bv32` as in the standard.
* **Sockets.** A socket is the peer's stream with an arbitrary script of how many bytes each read finds
  (none: the call would block); the other direction likewise.  Mutexes make steps atomic.
* **Time.** Microseconds; a clock that does not go back and sleeps at least as long as asked.

## Where code and documentation differ

* `src/hash/lz4.h` gives the worst case as 0.4 percent, at least 8 bytes.  That is too little for 1800
  literals; `Lz4RoundTrip.HeaderRule` says exactly when it is enough.
* `src/hash/lz4.h` and a comment in `src/hash/lz4.cpp` say the decoders never write beyond the output.
  Until they read past the input or go astray, they write beyond it exactly when a match starts fewer
  than sixteen bytes before the end (`Lz4Uncompress.ReachesBeyond`): at most eight bytes, a number that a
  malformed block reaches (`Lz4Shortfalls.EightBytesBeyond`), and at most four on encoded blocks
  (`Lz4Bounds.EncodedReach`), a number that a block within the encoder's rules reaches
  (`Lz4Shortfalls.FourBytesBeyond`).  The compressor's own output can make it three
  (`Lz4Shortfalls.OwnOutputWritesBeyond`).
* They read past the input of an encoded block exactly when less of it is readable than
  `Lz4Theory.NeededInput` says (`Lz4Shortfalls.ReadsBeyond`), which for the decoder that takes the input
  size can be more than that size.
* The same files promise an error for every corrupted input, but length fields are added up in an `int`.
  The answer is right if and only if each field of 2^31 or more that is read is still too long after
  wrapping (`Lz4Lengths.RightIffRefused`).  A wrapped length that is negative sends a decoder astray, as
  `Lz4Shortfalls.LongMatchStrays` shows with 8.4 million bytes: its next literals go two gigabytes in front
  of the output.  Inputs of at most 8421505 bytes are safe from that (`Lz4Lengths.FittingIsRight`).
* A message whose frame is exactly as large as a read buffer (4096, 8192, ...) is never delivered: the
  loop in `aread` grows the buffer and reads zero bytes, which it takes for a closed socket.  A message
  above 4096 * 2^10 bytes is refused or not depending on how it arrives.  A message is accepted under
  every arrival if and only if it is nonempty, below that limit and fills no buffer
  (`Framing.Conn.Receive`, `Framing.RefusedAtOnce`), and under some arrival if and only if it is nonempty
  and fills no buffer (`Framing.DeliveredInPieces`).
* The length in an MD5 digest is right if and only if the high counter is right modulo 2^29
  (`Md5.LengthField`).  A call keeps it so if and only if the low word overflows at most once, or once more
  than a multiple of 2^29 times (`Md5.CarryReaches`); calls below 2^32 bytes always do, one of 2^33 bytes
  does not (`Md5.LengthsOfOneCall`).  A later call can repair an earlier one; `Md5.ChunksLengthIsRight` is
  the condition for all calls together.
* A comment in `src/dict.c` says that with resizing disabled a table still grows above five entries a
  slot.  The integer division makes that six: 24 entries stay in 4 slots (`DictRun.FillWithoutResizing`).
* `conn_client_free` keeps everything a connection with descriptor 0 holds: such a connection, which
  `accept` may return, is never closed and its place never used again (`Connections.Pool.RunAndClose`,
  `Connections.Pool.ZeroIsNeverClosed`).
* `writeblock` goes on with the next file after a short write and returns the block's size all the same.
  It is right if and only if no piece goes out of place (`BlockWriting.RightIffInPlace`); when every write
  stores something, if and only if no write is short (`BlockWriting.RightIffNeverShort`).

## Model

| member | source | states |
|---|---|---|
| Lz4RoundTrip.RoundTrip | src/hash/lz4.cpp:488-598 | for every byte string of fewer than 2^31 bytes, which is what the int size can say, decoding the compressor's output with the original size into a buffer of four bytes more gives the bytes back, returns exactly the compressed length, and that length is at most n + (n + 240) / 255 + 1 |
| Lz4RoundTrip.RoundTripUnknownSize | src/hash/lz4.cpp:601-685 | with eight readable bytes behind the compressed ones and any output bound of at least n, the other decoder returns n and the same n bytes; ReadsBeyond says how many of the eight are needed |
| Lz4Compress.Compress | src/hash/lz4.cpp:488-504 | both variants, chosen by LZ4_64KLIMIT: the bytes written are the serialisation of a valid block of the source (offsets 1..65535, matches of at least 4 bytes that start 12 and end 5 bytes before the end); every match is as long as it can be, and no sequence, nor the last literals, passes by a match that is offered: at a position where one of the 61 next words occurs again while the table still remembers it, the next match starts there or earlier; the size bound holds, and no byte at or beyond the returned length is touched |
| Lz4Compress.CompressCtx | src/hash/lz4.cpp:213-344 | the same for each variant by itself, whatever the hash collisions |
| Lz4Compress.EncodeNext | src/hash/lz4.cpp:248-329 | one round of the main loop: either a match is found, no later than the first one offered, and encoded with those that follow on it, or no match is offered up to the end of the input and nothing changes |
| Lz4Compress.EncodeMatches | src/hash/lz4.cpp:293-329 | the loop over _next_match extends what is written by at least one sequence and leaves a table with positions before the next input position only; that position and the one two before are remembered, and the word two before does not go on there |
| Lz4Compress.EncodeMatch | src/hash/lz4.cpp:293-314 | one match with its literals: the output is the old output followed by the bytes of one more sequence that stands for the next bytes of the source |
| Lz4Compress.FindMatch | src/hash/lz4.cpp:260-278 | the k-th trial looks at start plus the sum of the first k steps, and stores each position it passes; no trial before the one returned has a usable match in its slot, and the search gives up only when the trial after the one at hand would lie beyond the last position for a match; a match found repeats four bytes at a distance of at most 65535 |
| Lz4Compress.TrialsAreDense | src/hash/lz4.cpp:256-266 | the first sixty-two trials are at consecutive positions |
| Lz4Compress.TrialOfRound | src/hash/lz4.cpp:251-266 | after m rounds of sixty-four equal steps the search has come 61 + 32 m (m + 3) positions |
| Lz4Compress.OfferedIsFound | src/hash/lz4.cpp:260-278 | a search that found nothing in its trials was offered nothing at their positions |
| Lz4Compress.CatchUp | src/hash/lz4.cpp:280-281 | moves a match back over equal bytes as far as the anchor, the start of the source or a differing byte |
| Lz4Compress.RefTable.Put | src/hash/lz4.cpp:320 | stores the whole position: a 16-bit slot never truncates one |
| Lz4Compress.RefTable.Swap | src/hash/lz4.cpp:322-325 | returns the remembered position if and only if it is near enough and its four bytes are those at ip, and remembers ip instead |
| Lz4Compress.WriteLiterals | src/hash/lz4.cpp:283-290 | token, length bytes and literals by the blind copy; bytes beyond the spill of the wild copy are untouched |
| Lz4Compress.WriteMatchLength | src/hash/lz4.cpp:311-314 | the pairwise loop writes the same length bytes as the byte-wise one and changes nothing but the low half of the token |
| Lz4Compress.WriteLastLiterals | src/hash/lz4.cpp:332-343 | the block ends with its last literals and not a byte more |
| Lz4Compress.CopyMatchIsSource | src/hash/lz4.cpp:293-309 | copying a repeated stretch byte by byte gives the source's own bytes, however the two overlap |
| Lz4Runs.CompressRuns | src/hash/lz4.cpp:213-344 | data of k runs, each of at least five equal bytes that do not occur before, take at most 5 k + n / 255 + 14 bytes |
| Lz4Runs.BlockOfRuns | src/hash/lz4.cpp:213-344 | the block of such data is exactly one sequence for each run that starts more than thirteen bytes before the end: its first byte as literal and a match with offset 1 up to its end or the last five bytes |
| Lz4Runs.CompressThreeRuns | src/hash/lz4.cpp:213-344 | twenty times each of 'a', 'b' and 'c' take twenty bytes, with their values, in both variants |
| Lz4Copy.CountMatch | src/hash/lz4.cpp:297-309 | the count by 4, 2 and 1 bytes ends at the first byte that differs or five bytes before the end |
| Lz4Copy.CommonBytes | src/hash/lz4.cpp:179-191 | for two different words the lowest set bit of their difference, divided by eight, is the number of equal leading bytes |
| Lz4Copy.HashOfExample | src/hash/lz4.cpp:170-171 | the word and the two table slots of the bytes "abcd", as numbers |
| Lz4Copy.WildCopy | src/hash/lz4.cpp:168-173 | the copy in steps of eight copies exactly the bytes up to the next multiple of eight (eight of them for length 0), so at most eight more than asked for |
| Lz4Uncompress.Decode | src/hash/lz4.cpp:518-598 | on any input, valid or not, both decoders do what the byte-at-a-time reading of the block in int lengths says: a refused input gives minus the position reached, and that alone is negative; an accepted one gives the number of bytes read, or of bytes written by the second decoder; they write nothing at or beyond the exact Reach, which is all the room they need; a read past the input and a length that has turned negative are told apart from every returned value |
| Lz4Errors.RefusedIsFaulty | src/hash/lz4.cpp:541-597 | what is refused, all its fields below 2^31, is the serialisation of whole sequences followed by a field that asks for too much: more literals than the output has room for, an offset in front of the output, or a match that ends beyond it; the position returned lies right behind that field |
| Lz4Errors.TooManyLiterals | src/hash/lz4.cpp:541-597 | a witness for both decoders: five literals for three bytes give -1 |
| Lz4Errors.OffsetInFrontOfOutput | src/hash/lz4.cpp:561-597 | a witness: an offset of five behind one literal gives -4 |
| Lz4Errors.MatchBeyondOutput | src/hash/lz4.cpp:578-597 | a witness: a match that would end beyond the output gives -5 |
| Lz4Errors.AcceptedReturns | src/hash/lz4.cpp:592-593 | a witness: for five literals the first decoder returns the six bytes read, the second the five written |
| Lz4Uncompress.WritesBeyond | src/hash/lz4.cpp:561-589 | the copied matches write beyond the output if and only if one of them starts fewer than sixteen bytes before the end; then up to sixteen bytes after the start of the last such match, never more than eight beyond the output |
| Lz4Uncompress.ReachesBeyond | src/hash/lz4.cpp:537-590 | for any input at all: at most eight bytes beyond the output until the decoder reads past the input or goes astray, and some beyond it if and only if a copied match starts fewer than sixteen bytes before the end or the turn that goes astray writes there |
| Lz4Uncompress.ReachIsExact | src/hash/lz4.cpp:578-589 | one copied match writes up to its own end, or to sixteen bytes after its start when that lies beyond the output or the length is at most eight, negative lengths included |
| Lz4Uncompress.ReadSequenceFits | src/hash/lz4.cpp:537-581 | a sequence that is decoded fits the output and its offset reaches no further back than the output's start; going astray moves the position back |
| Lz4Bounds.EncodedReach | src/hash/lz4.cpp:561-589 | what an encoder may produce makes a decoder write at most four bytes beyond the output, as no match starts in the last twelve |
| Lz4Shortfalls.OwnOutputWritesBeyond | src/hash/lz4.cpp:582-588 | a witness: the compressor's own output for a run of five equal bytes and nine others makes the decoder write three bytes beyond the output, with the values given |
| Lz4Shortfalls.EightBytesBeyond | src/hash/lz4.cpp:578-589 | a witness: a block that no encoder makes uses the whole slack of eight bytes, with the values given |
| Lz4Shortfalls.FourBytesBeyond | src/hash/lz4.cpp:582-588 | a witness: a block within the rules for encoders, its match twelve bytes before the end, uses the whole slack of four bytes |
| Lz4Shortfalls.LongMatchStrays | src/hash/lz4.cpp:561-588 | a witness for both decoders: after one literal, a match length field of 2147483790 wraps to -2147483506; seventeen bytes are written and the loop goes on 2147483501 bytes in front of the output, where the right answer is an error |
| Lz4Shortfalls.ReadsBeyond | src/hash/lz4.cpp:541-560 | a decoder reads beyond the first k readable bytes of a valid block if and only if they are fewer than NeededInput: the block itself, or, for the second decoder with eight bytes of output to spare, what the eight-byte copy of the last literals touches |
| Lz4Shortfalls.ReadsPastTheInput | src/hash/lz4.cpp:541-560 | witnesses: the first decoder reads on at a block cut short by a byte, the second at a whole block of two bytes when nothing behind it is readable |
| Lz4Uncompress.DecodeSequence | src/hash/lz4.cpp:537-590 | one turn of the loop, in every branch, against the byte-at-a-time reading of one sequence, with the exact end of its writes and what lies beyond the output; a match of offset zero leaves what the literals in front of it spilled; a negative length is not refused |
| Lz4Uncompress.CopyRepeated | src/hash/lz4.cpp:561-589 | for every offset from 1 on, the dec and dec2table steps and the eight-byte copies produce the byte-by-byte copy and go on with its period up to the exact reach; offset 0 changes nothing; refused exactly when the match would end beyond the output, which a negative length never does |
| Lz4Uncompress.CopyFirstEight | src/hash/lz4.cpp:561-577 | the first eight bytes of a match, after which the two pointers are a multiple of the offset and at least eight apart |
| Lz4Uncompress.DistancesAreMultiples | src/hash/lz4.cpp:533-576 | the two tables make the distance a multiple of the offset, first of at least four and then of at least eight |
| Lz4Uncompress.WildCopyBack | src/hash/lz4.cpp:582-588 | copying eight bytes at a time from behind continues a periodic sequence |
| Lz4Uncompress.ReadLengthBytes | src/hash/lz4.cpp:541-541 | adds a length field up in an int, byte by byte, which gives the field modulo 2^32 as a signed number, or finds that the input ends inside it |
| Lz4Theory.ParseInvertsSerialize | src/hash/lz4.cpp:537-590 | reading the serialisation of a valid block gives its sequences and last literals back, for both decoders |
| Lz4Theory.SequenceRoundTrip | src/hash/lz4.cpp:537-560 | reading one serialised sequence gives it back and stops right behind it |
| Lz4Theory.CopyMatchIsPeriodic | src/hash/lz4.cpp:561-589 | the byte-by-byte copy repeats its last offset bytes periodically |
| Lz4Theory.PrefixNeverExpands | src/hash/lz4.cpp:283-340 | whatever has been emitted, together with room to store the rest as literals, fits the worst case |
| Lz4RoundTrip.AcceptedIsSerialized | src/hash/lz4.cpp:537-598 | the converse of the round trip: what a decoder consumed when it accepts, offset zero apart, is the serialisation of what it decoded if and only if every length field it read is below 2^31 |
| Lz4Lengths.RightIffRefused | src/hash/lz4.cpp:541-579 | a decoder gives the right answer to an input, an error for a field of 2^31 or more, if and only if each such field is still too long for the output when it has wrapped |
| Lz4Lengths.FittingIsRight | src/hash/lz4.cpp:541-579 | where every length field is below 2^31 the answer is right and the decoder never goes astray; in an input of at most 8421505 bytes every field is |
| Lz4Lengths.RunBound | src/hash/lz4.cpp:541-541 | a field of k bytes says less than its nibble plus 255 k |
| Lz4Lengths.LongestSafeIsSharp | src/hash/lz4.cpp:541-541 | 8421506 bytes are enough for a field of 2^31 |
| Lz4Lengths.RightNeverStrays | src/hash/lz4.cpp:541-579 | the right answer never goes astray |
| Lz4RoundTrip.HeaderRule | src/hash/lz4.h:48-49 | the header's worst-case rule holds for inputs of n bytes if and only if it covers n stored literals; it fails for n == 1800 |
| Lz4RoundTrip.OnlyLiterals | src/hash/lz4.cpp:266-278 | any input in which no four bytes occur twice has no block but its own literals |
| Lz4RoundTrip.WorstCase | src/hash/lz4.cpp:332-343 | the compressor reaches the bound on an input of every length up to 128 KB |
| Lz4RoundTrip.BlockNeverExpands | src/hash/lz4.cpp:283-340 | no valid block of n bytes is longer than n stored literals |
| DictRun.Run | src/dict.c:207-529 | every list of adds, replaces, finds, deletes, rehash calls, resizes, expansions and calls that enable or disable resizing, over any lawful key type, gets the answers of a plain map; without explicit resizes there are never more entries than one above the number of slots of the newest table if resizing was enabled at the last add or replace, successful or not, and never more than six a slot otherwise |
| DictRun.Step | src/dict.c:324-529 | one operation answers as the map does and leaves the dictionary equal to the map after it, resizing enabled or not; storing an entry with resizing enabled brings the load from the looser bound back to the tight one; a find, add, replace or delete brings a rehashing at least a step further |
| DictRun.RunUntilMoved | src/dict.c:241-284 | while the dictionary is rehashing, any finds, adds, replaces and deletes, as many as the old table has occupied slots, have emptied it at some time, with the contents of a plain map |
| DictRun.FillWithoutResizing | src/dict.c:672-680 | the looser bound is sharp: with resizing disabled any 24 different keys stay in a table of 4 slots and the 25th makes it grow to 64 |
| DictRun.FillToTheBound | src/dict.c:260-281 | the tight bound is sharp: any nine different keys, the first four in different slots of four, make nine entries in a newest table of eight slots |
| DictRun.NineInEight | src/dict.c:260-281 | small integers that hash to themselves are such keys |
| DictRun.DNSDictTypeIsLawful | src/async_dns.cpp:27-42 | names that differ only in case are equal keys, equality is an equivalence, and equal keys hash alike |
| DictRun.CaseHashRespectsCase | src/async_dns.cpp:28-36 | the case-insensitive hash gives equal values for names that differ only in case |
| DictRun.CaseSameBytes | src/async_dns.cpp:38-42 | two bytes are equal up to case exactly when they are equal or differ by 32 and the smaller is in 65..90 |
| DictRun.CaseSameIsBytewise | src/async_dns.cpp:38-42 | names are equal up to case exactly when they are equally long and their bytes are |
| DictRun.CaseHashOfLast | src/async_dns.cpp:28-36 | the hash starts at 5381, and one more byte makes it 33 times what it was plus that byte in lower case, modulo 2^32 |
| DictIterator.Walk | src/dict.c:552-607 | a safe iteration with any finds, adds, replaces and deletions of the returned entry in between returns every entry that was there from the start, and none twice; the operations leave in the dictionary what they leave in a plain map |
| DictIterator.Perform | src/dict.c:324-529 | one such operation does what it does to a plain map, a deletion of the returned entry once only |
| DictIterator.Iterator.Next | src/dict.c:560-598 | returns a stored entry that was still to come and no longer is, or ends with nothing left to come |
| DictIterator.Iterator.Survives | src/dict.c:317-321 | what a program does with the dictionary between two calls keeps the iterator valid and the entries to come the same |
| DictIterator.HeadIsLast | src/dict.c:586-594 | remembering the next entry is enough to go on after the returned one is gone |
| Dict.NextPower | src/dict.c:683-697 | the smallest power of two from 4 on that holds the size |
| Dict.Dict.Expand | src/dict.c:207-235 | fails exactly while rehashing or when the size is below the entries in use; otherwise it makes the first table or starts rehashing, and the contents stay |
| Dict.Dict.Resize | src/dict.c:194-204 | succeeds exactly when resizing is enabled and no rehashing runs, and then makes an empty table of the least power of two, from 4 on, that holds the entries |
| Dict.Dict.Rehash | src/dict.c:241-284 | contents stay; each unfinished step empties one occupied slot; false is returned exactly when rehashing is over, which any n above the number of occupied slots achieves; the load bound is kept and a step makes room for one more entry |
| Dict.Dict.MoveChain | src/dict.c:260-281 | moves exactly the first occupied chain, never running off the table |
| Dict.Dict.FinishRehash | src/dict.c:250-258 | drops the empty old table without losing an entry |
| Dict.Dict.RehashStep | src/dict.c:317-321 | does nothing at all while a safe iterator runs |
| Dict.Dict.ExpandIfNeeded | src/dict.c:658-680 | rehashing starts exactly when there is an entry a slot and resizing is enabled or there are more than five a slot, and then to the least power of two that holds twice the entries; afterwards there is a table with room for an entry under the bound that applies |
| Dict.Dict.Add | src/dict.c:324-373 | fails exactly when an equal key is there; otherwise that key alone changes and, outside rehashing, its entry goes to its slot; the tables grow exactly as ExpandIfNeeded says, a step of rehashing empties one slot, and the bound on the load is kept, or restored when resizing is enabled |
| Dict.Dict.Replace | src/dict.c:379-404 | adds, or changes the value of the entry that is there; no other key changes; a rehashing goes on by one step, or by two when the key was there |
| Dict.Dict.Delete | src/dict.c:414-456 | fails exactly when no equal key is there; otherwise that key alone disappears; a rehashing goes on by a step at least |
| Dict.Dict.Find | src/dict.c:505-529 | the value stored under an equal key, found in either table; a rehashing goes on by exactly one step |
| Dict.Dict.Locate | src/dict.c:505-529 | finds the entry in the right chain of either table, or there is none |
| Dict.ChainMoved | src/dict.c:265-281 | moving a chain keeps every look-up, the entry counts and that no key is in both tables |
| Dict.AddedToSecond | src/dict.c:349-373 | a new entry in the newest table is found under its key and changes no other look-up |
| Dict.RemovedFromFirst | src/dict.c:414-456 | unlinking an entry hides its key and no other |
| Dict.ValueReplaced | src/dict.c:379-404 | a new value is found under the entry's key and changes no other look-up |
| Dict.OldTableDone | src/dict.c:250-258 | an old table whose entries are all moved can be dropped |
| DictTables.ChainGetSame | src/dict.c:505-529 | equal keys find the same entry of a chain |
| Memory.GkoAlloc.GetBlock | src/memory.cpp:80-201 | the lowest free id of the first bucket with room from the latest bucket on, its slot inside the memory of its bucket; fails, changing nothing, only when all slots are taken or that bucket has no memory and the system gives none; no live address and no other bucket's memory changes |
| Memory.GkoAlloc.FreeBlock | src/memory.cpp:203-224 | gives back exactly the one id, and the bucket's memory with its last slot except for bucket 0; no live address and no other bucket's memory changes; negative ids do nothing; there is room for the next block when the bucket keeps its memory |
| Memory.GkoAlloc.TakeSlot | src/memory.cpp:128-191 | marks the lowest free slot of the bucket and counts it |
| Memory.GkoAlloc.ChooseBucket | src/memory.cpp:90-99 | the first bucket with room around the circle, or none has any |
| Memory.GkoAlloc.FindOpenByte | src/memory.cpp:128-186 | the first byte of the bucket's bitmap with a clear bit |
| Memory.GkoAlloc.SlotsDisjoint | src/memory.cpp:32-41 | slots of different live ids never overlap and have an address |
| Memory.GkoAlloc.SlotInBucket | src/memory.cpp:32-41 | the slot of every live id lies inside the memory that its bucket was given |
| Memory.FirstTwoBlocks | src/memory.cpp:80-201 | the first two blocks of a new allocator are ids 0 and 1 at the first and at the 4097th byte of what the system gave |
| Memory.GkoAlloc.AllTaken | src/memory.cpp:90-107 | when every counter is at its capacity every slot is taken |
| Memory.FirstOpenByte | src/memory.cpp:132-186 | halving the word finds the first byte that is not all ones |
| Memory.GetBit | src/memory.cpp:43-63 | the index of the first clear bit, and sets that bit only |
| Memory.GetBitOfExample | src/memory.cpp:43-63 | in 250, which is 11111010, the first clear bit is number 5, and setting it gives 254 |
| Memory.ClearOneBit | src/memory.cpp:65-78 | clears a set bit and leaves the others |
| Memory.BucketCount | src/memory.cpp:90-99 | a bucket's counter is below its capacity exactly when one of its slots is free |
| Connections.Pool.RunAndClose | src/async_conn.cpp:283-583 | for any run of openings, growths, renewals and closings, with any descriptors: which places are given and which are in use behind it are functions of the operations alone; when it breaks off, an opening has a place but its worker no room; closing all connections leaves exactly the two slots of each connection opened with descriptor 0: nothing is allocated in any worker or in the C heap if and only if no opening with descriptor 0 got a place |
| Connections.Pool.RunAll | src/async_threads.cpp:613-893 | the run by itself: the places given, the places in use with their descriptors, and the place found last are those of the operations one by one |
| Connections.RunOnOnePlace | src/async_conn.cpp:283-380 | in a list of one place: an opening, one more that finds no place, a closing and another opening give the places 0, -1, -1 and 0 |
| Connections.PlaceIsUsedAgain | src/async_conn.cpp:283-380 | that is what the operations say for every worker |
| Connections.Pool.ZeroIsNeverClosed | src/async_conn.cpp:367-372 | one connection opened with descriptor 0 in an empty pool: when all is closed exactly its two slots are still taken |
| Connections.Pool.Perform | src/async_threads.cpp:613-893 | each operation keeps the buffers held by connections and the allocated blocks in one-to-one correspondence; an opening takes the first idle place around the circle, or none only when all are in use, with two new slots; an event has the effect that PerformOn states on its place and none on any other; events of idle places do nothing; only an opening with descriptor 0 makes a connection that no event reaches and that keeps its slots |
| Connections.Pool.PerformOn | src/async_threads.cpp:457-893 | closing gives both buffers back and leaves the place idle; renewing leaves slots or nothing, slots surely when the old ones lay in a bucket that keeps its memory, and a connection that waits for a head; growing gives a heap block of twice the size or changes no buffer; nothing else changes |
| Connections.Pool.CloseAll | src/async_conn.cpp:367-380 | closing every connection empties the pool if and only if no connection with descriptor 0 holds a buffer |
| Connections.Pool.Free | src/async_conn.cpp:367-380 | refuses exactly a missing connection or descriptor 0, and then changes nothing; otherwise exactly its two buffers are given back |
| Connections.Pool.Clear | src/async_conn.cpp:426-498 | gives back exactly the two buffers, to the worker or to the C heap, and resets the connection |
| Connections.Pool.BufferInit | src/async_conn.cpp:382-415 | two new slots nobody held before, for a connection that held none; fails only when the worker had no room or has none after giving one slot |
| Connections.Pool.Renew | src/async_conn.cpp:500-583 | both buffers are exchanged for slots, surely when the old slots lay in the first bucket or in one with another slot in use, or for none when the worker gives none, and the connection waits for a head again |
| Connections.Pool.Grow | src/async_threads.cpp:457-496 | a full buffer becomes a buffer of the C heap of twice the size and the slot is given back; when memory runs out nothing is lost |
| Connections.Pool.FindFree | src/async_conn.cpp:328-356 | the first idle slot after the one found last, around the circle; none only when all are in use |
| Connections.Pool.Open | src/async_conn.cpp:283-317 | a new connection, whatever its descriptor, gets a free place, its worker and two slots of that worker; none only when every place is in use |
| Connections.Pool.BuffersDisjoint | src/async_conn.cpp:382-415 | buffers that different owners hold in one worker never overlap in memory |
| Connections.Pool.HeldInside | src/async_conn.cpp:382-415 | every slot a connection holds lies inside the memory that the system gave its worker |
| Connections.Swapped | src/async_conn.cpp:426-498 | an owner that swaps what it holds for something nobody holds keeps ownership exact |
| Connections.NobodyHolds | src/async_conn.cpp:426-498 | nothing is allocated if and only if no connection holds anything |
| Md5.DigestOfChunks | src/hash/md5.cpp:203-292 | however a message is cut into pieces of fewer than 2^32 bytes, the result is the digest that RFC 1321 defines for the whole; with longer pieces it is the digest with the length that the calls leave |
| Md5.ChunksLengthIsRight | src/hash/md5.cpp:214-266 | for any calls in a row, the length is right if and only if the number of calls whose low word wraps is the total length divided by 2^32, modulo 2^29 |
| Md5.SmallChunksCarry | src/hash/md5.cpp:214-218 | for pieces below 2^32 bytes that number is the total length divided by 2^32 |
| Md5.DigestOf | src/hash/md5.cpp:283-292 | one call of any size below 2^64: the digest with the length the counters have, and the standard's digest when that length is right |
| Md5Vectors.DigestOfAbc | src/hash/md5.cpp:411-446 | the digest of "abc" is 900150983cd24fb0d6963f7d28e17f72 |
| Md5Vectors.DigestOfDigits | src/hash/md5.cpp:411-446 | the digest of eighty digits, two blocks, is 57edf4a22be3c955ac49da2e2107b67a however they are cut into two pieces |
| Md5Vectors.AbcCompressed | src/hash/md5.cpp:77-198 | the sixty-four steps on the block of "abc" give the registers with these values |
| Md5.OneCallIsRight | src/hash/md5.cpp:214-266 | the length that one call puts into the digest is right if and only if the message is shorter than 2^33 bytes or its length divided by 2^32 leaves 1 modulo 2^29 |
| Md5.LengthField | src/hash/md5.cpp:261-266 | the eight length bytes are the standard's if and only if the high counter is right modulo 2^29 |
| Md5.CarryReaches | src/hash/md5.cpp:214-218 | a call keeps the high counter right modulo 2^29 if and only if the low word overflows at most once, or once more than a multiple of 2^29 times |
| Md5.LengthsOfOneCall | src/hash/md5.cpp:214-266 | witnesses: one call of 2^33 bytes leaves a wrong length, one of 2^61 + 2^32 bytes the right one although the counter is wrong |
| Md5.Md5Context.Update | src/hash/md5.cpp:203-242 | the context stands for the message with the input appended; its length stays right, as far as the digest shows it, if and only if the condition of CarryReaches holds |
| Md5.Finish | src/hash/md5.cpp:255-278 | the output is the digest of the message absorbed with the length the counters have, and the standard's digest when the high counter is right modulo 2^29 |
| Md5.Process | src/hash/md5.cpp:77-198 | the 64 unrolled steps in unmasked 64-bit words agree modulo 2^32 with the 32-bit block function of section 3.4 |
| Md5.Round1 | src/hash/md5.cpp:110-129 | after the 16 steps of the first round the registers are those of the standard; the other rounds have the same contract with their functions and constants |
| Md5.Round2 | src/hash/md5.cpp:131-150 | steps 17 to 32 |
| Md5.Round3 | src/hash/md5.cpp:152-171 | steps 33 to 48 |
| Md5.Round4 | src/hash/md5.cpp:173-192 | steps 49 to 64 |
| Md5.P | src/hash/md5.cpp:100-103 | one step on words of which only the low halves matter |
| Md5.S | src/hash/md5.cpp:98-98 | masking only the operand of the right shift still rotates the low 32 bits |
| Md5.Mix | src/hash/md5.cpp:110-173 | the four rewritten round functions compute F, G, H and I of the standard |
| Md5.CarryIsExact | src/hash/md5.cpp:214-218 | the high counter itself stays right if and only if the low word overflows at most once |
| Md5.LengthInBits | src/hash/md5.cpp:261-266 | the shifts of the two counters give the length in bits modulo 2^64, low-order byte first |
| Md5.PaddingIsStandard | src/hash/md5.cpp:244-271 | the padding written is a one bit and the fewest zero bits |
| Md5.PaddedIsWholeBlocks | src/hash/md5.cpp:268-272 | the padded message is the shortest number of whole blocks that has room for the length |
| Md5.HashOfPrefix | src/hash/md5.cpp:230-235 | hashed blocks do not depend on what comes later |
| Framing.Serve | src/async_threads.cpp:613-893 | for a stream of messages cut into reads in any way, the handler sees exactly the messages in order, the peer gets the frames of the replies, and with enough data on offer the stream is consumed to its end unless a message is not acceptable or a reply is cut off |
| Framing.Conn.Receive | src/async_threads.cpp:704-790 | a message is delivered whole with the socket at the end of its frame; an acceptable one is never refused; one that is empty or fills a buffer is never delivered; one above 4096 * 2^10 bytes is refused when the socket always has data, and no length is refused when every piece is smaller than 4096 bytes |
| Framing.RefusedAtOnce | src/async_threads.cpp:447-549 | the converse: every message that is not acceptable is refused when its bytes are at hand at once |
| Framing.DeliveredInPieces | src/async_threads.cpp:447-549 | every nonempty message that fills no buffer and whose frame is shorter than 2^31 bytes is delivered when it comes byte by byte |
| Framing.Conn.ParseHeader | src/async_threads.cpp:748-783 | the need becomes the frame's size exactly when the message is not empty, so a head never finds more bytes than it asks for |
| Framing.Conn.ARead | src/async_threads.cpp:447-549 | reading fails only when the need is the exact size of a buffer, or at least 4096 * 2^10 with some piece of 4096 bytes or more; it never delivers the former, and otherwise makes progress with every chunk |
| Framing.Conn.ReadOnce | src/async_threads.cpp:454-500 | one turn of the reading loop: a zero-length read happens exactly when the message is complete already |
| Framing.Conn.Reply | src/async_threads.cpp:827-875 | a reply that is sent is the frame of the handler's payload however the sends are split; the connection is closed exactly at the first refused send that starts a round |
| Framing.Conn.AWrite | src/async_threads.cpp:551-611 | what has been sent is a beginning of the write buffer; all of it, some or none according to the result |
| Framing.FillCmdHead | src/gingko.h:760-771 | ten decimal digits of the length, nothing else in the buffer changes |
| Framing.ParseCmdHead | src/gingko.h:773-788 | the value of ten digits, or -1 when one of the ten characters is not a digit |
| Framing.HeadRoundTrip | src/gingko.h:760-788 | filling and parsing are inverse to each other in both directions |
| Framing.HeadAt | src/gingko.h:760-771 | the character at place i is 48 plus the decimal digit of weight 10^(9 - i) |
| Framing.HeadExamples | src/gingko.h:760-771 | two heads, with their characters as numbers |
| Framing.FullReplyIsRefused | src/async_threads.cpp:529-532 | a reply that uses the whole write buffer makes a frame that this program cannot read |
| Framing.SizeFacts | src/async_threads.cpp:457-496 | a message strictly between two buffer sizes fills none |
| Framing.FrameInStream | src/async_threads.cpp:748-783 | each message's frame starts where the one before ends |
| Blocks.SendBlocks | src/gingko_base.cpp:842-935 | for every outcome of every open and send: it succeeds if and only if the turns it takes all send their whole piece, and then exactly the contents of num blocks from start on, around the circle, have been sent; it fails only at the first turn that does not, with -2 for a file that does not open and -1 for a send that breaks off, a proper beginning having been sent |
| BlockWriting.WriteBlock | src/gingko_base.cpp:946-981 | for every outcome of every open and pwrite, short writes included: the pieces written, one turn each in the next file with contents, the files after them, and the value returned; it ends with the block's size when no write is short |
| BlockWriting.RightIffInPlace | src/gingko_base.cpp:946-981 | a call that reports the block as written has put it in place, whatever its bytes and whatever the files held, if and only if each piece went where its bytes belong |
| BlockWriting.RightIffNeverShort | src/gingko_base.cpp:964-978 | when each turn writes something, that is the case if and only if no write is short |
| BlockWriting.ShortWriteCorrupts | src/gingko_base.cpp:964-978 | a witness: two files of two bytes and a first write of one byte; the call returns the block's size, and both files hold wrong bytes |
| BlockWriting.InPlaceIsWritten | src/gingko_base.cpp:951-979 | pieces that go where they belong put the bytes of the block in place and touch no other byte |
| BlockWriting.OutOfPlaceIsWrong | src/gingko_base.cpp:964-978 | a piece out of place loses its first byte, shown by a block with one mark on blank files |
| BlockWriting.RebuildFiles | src/gingko_base.cpp:946-981 | blocks written in any order, repetitions included, rebuild every file once all have been written, unless some short write put a piece out of place |
| Blocks.NextF | src/gingko.h:648-655 | ends, with the cyclic successor among the files that have contents |
| Blocks.NextFileStarts | src/gingko.h:648-655 | the next file with contents starts where this one ends, or at the beginning after the last |
| Blocks.SizeInAdvance | src/gingko_base.cpp:858-860 | the total computed before the loop is the sum of the block sizes, wrapping included |
| Blocks.AllBlocksAreTheData | src/gingko_base.cpp:842-935 | all blocks in order are the contents of the files |
| Blocks.FileEnds | src/gingko_base.cpp:878-894 | a turn that ends with the file sends the next bytes of the run |
| Blocks.BothEnd | src/gingko_base.cpp:895-912 | a turn that ends with file and block sends the next bytes of the run, also past the last block |
| Blocks.BlockEnds | src/gingko_base.cpp:913-928 | a turn that ends inside the file sends the next bytes of the run |
| BlockWriting.WritesMore | src/gingko_base.cpp:951-979 | one more piece in its file puts the next bytes of the block in place and touches no other byte |
| BlockWriting.BlockRebuilt | src/gingko_base.cpp:946-981 | writing a block keeps the bytes of the blocks written before and adds its own |
| Limit.Run | src/limit.cpp:38-118 | over a whole run at a constant rate, 10^6 times the bytes of closed windows is less than the rate times their time in microseconds plus one for each window, and the rate times all sleeps together is at most 10^6 times these bytes; all bytes but the first call's are counted |
| Limit.Limiter.Limit | src/limit.cpp:38-118 | a window closes only at the threshold, sleeps exactly for what its bytes should take beyond the time it has lasted, and changes the threshold by that; nothing sleeps otherwise; the bounds over all windows are kept |
| Limit.WindowCloses | src/limit.cpp:70-118 | one more window that lasts long enough and sleeps no longer keeps both bounds |
| Limit.DueIsExact | src/limit.cpp:78-78 | the time that bytes should take is the largest number of microseconds in which the rate allows no more than them |
| Limit.Adjusted | src/limit.cpp:82-98 | the threshold never leaves 2048..32768; a sleep of a second or more halves it, one below 100 microseconds doubles it, any other leaves it alone |
| Limit.AdjustedExamples | src/limit.cpp:82-98 | thresholds after sleeps on either side of each limit, as numbers |

## Left out

- LZ4 in big-endian, 32-bit, MSVC and heap-table builds, and results of 2^31 and more, which an `int` truncates (compressed sizes of inputs close to 2^31 bytes, input positions).
- Lz4Uncompress.Decode: says nothing about what happens after a read past the end of the input or after a length has turned negative, and takes `int` sums to wrap; nor does it say which bytes are decoded after a match of offset zero.
- Lz4Copy.CommonBytes: models the count-trailing-zeros instruction, not the De Bruijn table that stands in for it without GCC.
- Lz4Compress.CompressCtx: does not say which of several earlier occurrences a match refers to, nor how far beyond the 61st position behind a match a search looks; FindMatch has the exact positions.
- Lz4Errors.RefusedIsFaulty: is about inputs whose length fields are below 2^31; for others `Lz4Lengths.RightIffRefused` says when the answer is right.
- Dictionary: key and value copying and destruction, `dictEmpty`, `dictRelease`, `dictGetRandomKey`, `dictRehashMilliseconds`, table sizes near LONG_MAX, and unsafe iterators used beside changes.
- DictIterator.Walk: lets the program resize only through adds, as `dictResize` and `dictExpand` are not among its operations in between.
- Memory.GkoAlloc.GetBlock: the mutex is left out; each call is one step.
- Connections: the pipe between the accepting thread and the worker is left out, so a connection is opened in one step; `conn_set`, timers, statistics and the DNS events are not modelled.
- Connections.Pool.BufferInit: promises nothing about the client list when the worker has no two slots, because the program aborts there.
- Connections.Pool.BuffersDisjoint: is about one worker; that the system gives two workers, or a worker and the C heap, memory that does not overlap is an assumption about the system that the model does not carry.
- Connections and Framing model the read buffer separately: its owner in the one, its bytes in the other.  Failing `malloc` is in the first only.
- Framing: closed sockets and socket errors, frames of 2^31 bytes and more (where `int` overflows), the client side of a connection (`active_conn`) and the DNS states.
- Md5: HMAC, reading files, and the other five digests of the self test; the counters are unsigned long values, the message length in the proofs is unbounded.
- BlockWriting.WriteBlock: takes a script of what the system does, as `pwrite` may write nothing for ever; limiting the rate and `fsync` are left out.
- Blocks.SendBlocks: says of a send that breaks off only that a proper beginning has been sent; it takes `start` below the block count and `num` at most the block count, as its callers do.
- Limit.Run: the bound is for one rate; the other four limiters are copies of this one.  `int` overflow of the byte count is not modelled.
- Sockets, libevent, c-ares, logging, signals, option parsing, `path.cpp` and the hash of blocks.
