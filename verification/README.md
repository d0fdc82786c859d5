# Verified model of Beast's self-contained algorithms

This project models the parts of Beast whose results can be stated against a
reference, and proves them for all inputs and all runs. `dafny verify
dfyconfig.toml` checks everything.

| modules | what they cover |
|---|---|
| Fips180, Fips180Example, Sha1 | the incremental SHA-1 against FIPS 180-4 and its example |
| Rfc3629, Utf8Checker | the incremental UTF-8 validator of WebSocket text messages against section 4 of RFC 3629 |
| Mask | WebSocket masking with 64-bit words against section 5.3 of RFC 6455 |
| ByteQueue, MultiBuffer, StaticBuffer | two dynamic buffers as byte queues |
| OstreamBuffer | the stream buffer, over a multi_buffer |
| StringBody | the reader of a string body |
| BufferPrefix | the shortened buffer sequence |
| Rfc7230, ChunkEncode | the chunked encoder against a decoder for section 4.1.3 of RFC 7230 |
| Lexicographic, StaticString, CiCharTraits | the orders of static_string and of header names |
| Decimal | max_digits and to_static_string |
| Suites, Callbacks, Reporter, Selector, Runner | the unit-test engine: callbacks, counters, longest suites, selection |
| Bytes, Options, Power, Sequences | shared definitions |

## How the code is represented

Objects that the source changes in place are classes with the same fields;
pointers into a buffer are indices into it. Each class has a `Valid()`
predicate and functions that give the abstract value (`Absorbed`, `Contents`,
`Writable`, `Written`, `View`, `State`, `Now`); methods state the new abstract
value in terms of the old one. Loops of the source are loops; the 80 unrolled
rounds of SHA-1 are written out in groups of ten. A `hide` statement only keeps
definitions that a proof does not need away from the solver.

- Words and octets are bit-vectors. `size_t` is 64 bits wide, except in
  `StringBody.Reader.Init`. SHA-1's block count and bit count wrap modulo 2^64 in the model as in the code.
- Octets are read into words little-endian, as the byte order that the masking
  and the eight-byte test of the code are written for. Addresses are parameters.
- Negating the smallest value of a signed type is taken to give that value back.
  For `int` and wider types the C++ standard leaves it undefined.
- `max_digits` multiplies by 2.41 in floating point; the model cuts off the exact
  product.
- What a test suite does while it runs is an arbitrary list of calls on its
  runner. Durations are inputs. Assertions are recorded, not fatal.

## Where the code departs from what it promises

- The UTF-8 validator accepts a two-byte sequence led by 0xc0 or 0xc1 if at least
  four bytes of its piece are left, so one text can be accepted or rejected
  depending on how it is cut. `MessageDiffersExactly` gives the exact condition for
  whole messages, `VerdictDiffersExactly` before finish, `CutMatters` an example;
  a rejection is always right (`RejectionIsRight`).
- `to_static_string` is documented to hold every integer of a type. For signed
  types of 1, 2 and 4 bytes there is no room for a sign in front of the longest
  magnitudes, and the smallest value of any type yields a lone sign
  (`SignedIsRightExactly`, `SignedWidths`, `OneByte`, `ToStaticStringSigned`).
- A suite that opens no case makes the engine account for the previous case once
  more (`IsAfter` and `RunAll` say by how much each counter is off), and the
  assertion meant to notice it looks at a flag of an earlier suite
  (`AssertionsMissEmptySuites`).
- The comment on automatic selection says that a module match also fixes the
  library; the code never compares it (`ModuleChoicesAreDocumentedExactly`,
  `LibraryIsNotCompared`).
- An empty chunk that is not the last encodes as the end of the message
  (`RoundTrip` holds exactly when there is none).
- `static_buffer` never reclaims consumed space before a reset
  (`StaticBuffer.Buffer.Run` states the room that is left).

Three places rely on more than the language or its library promises. The model
takes the value or effect that the code evidently expects:

- `multi_buffer::consume` asks for the last element of the list also when the list
  is empty (include/beast/core/impl/multi_buffer.ipp:712); the model stores zeros
  there, as the code does whatever the comparison gives.
- `results::add` inserts at an iterator found before the list is cut by one, which
  invalidates it when it points at the entry cut off
  (extras/beast/unit_test/reporter.hpp:162-173); the model inserts at that position.
- The UTF-8 validator computes `in + size - 7`, which lies before the buffer for
  pieces shorter than seven bytes
  (include/beast/websocket/detail/utf8_checker.hpp:248); the model uses an integer.

## Model

| member | source | states |
|---|---|---|
| Sha1.RolIsRotateLeft | include/beast/core/detail/sha1.hpp:34-39 | `rol` is the circular shift of FIPS 180-4 for the three distances used |
| Sha1.ChooseIdentity | include/beast/core/detail/sha1.hpp:56-56 | the rewritten choice function equals Ch of FIPS 180-4, section 4.1.1, on all words |
| Sha1.MajorityIdentity | include/beast/core/detail/sha1.hpp:90-90 | the rewritten majority function equals Maj of FIPS 180-4, section 4.1.1, on all words |
| Sha1.BlkIsNextWord | include/beast/core/detail/sha1.hpp:41-48 | `blk` combines the four slots as the message schedule of section 6.1.2 combines W[t-3], W[t-8], W[t-14], W[t-16] |
| Sha1.BlkIsSchedule | include/beast/core/detail/sha1.hpp:41-48 | with slot k mod 16 holding W[k] for the sixteen latest k, `blk` at t mod 16 computes W[t] |
| Sha1.WindowStep | include/beast/core/detail/sha1.hpp:61-103 | storing W[t] in slot t mod 16 keeps the circular schedule in step, for every t from 16 on |
| Sha1.R0IsRound | include/beast/core/detail/sha1.hpp:50-58 | the update made by `R0` and `R1` is round t of section 6.1.2 for every t below 20, roles rotated |
| Sha1.R2IsRound | include/beast/core/detail/sha1.hpp:72-81 | the update made by `R2` is round t for every t in 20..39 |
| Sha1.R3IsRound | include/beast/core/detail/sha1.hpp:83-92 | the update made by `R3` is round t for every t in 40..59 |
| Sha1.R4IsRound | include/beast/core/detail/sha1.hpp:94-103 | the update made by `R4` is round t for every t in 60..79 |
| Sha1.R0 | include/beast/core/detail/sha1.hpp:50-58 | turns the working variables after t rounds into those after t+1 rounds and keeps the circular schedule, in place |
| Sha1.R1 | include/beast/core/detail/sha1.hpp:61-70 | turns the working variables after t rounds into those after t+1 rounds and keeps the circular schedule, in place |
| Sha1.R2 | include/beast/core/detail/sha1.hpp:72-81 | turns the working variables after t rounds into those after t+1 rounds and keeps the circular schedule, in place |
| Sha1.R3 | include/beast/core/detail/sha1.hpp:83-92 | turns the working variables after t rounds into those after t+1 rounds and keeps the circular schedule, in place |
| Sha1.R4 | include/beast/core/detail/sha1.hpp:94-103 | turns the working variables after t rounds into those after t+1 rounds and keeps the circular schedule, in place |
| Sha1.Rounds0To9 | include/beast/core/detail/sha1.hpp:129-138 | the ten unrolled calls, with their rotating variables and slots, are those ten rounds of section 6.1.2 |
| Sha1.Rounds10To19 | include/beast/core/detail/sha1.hpp:139-148 | the ten unrolled calls, with their rotating variables and slots, are those ten rounds of section 6.1.2 |
| Sha1.Rounds20To29 | include/beast/core/detail/sha1.hpp:149-158 | the ten unrolled calls, with their rotating variables and slots, are those ten rounds of section 6.1.2 |
| Sha1.Rounds30To39 | include/beast/core/detail/sha1.hpp:159-168 | the ten unrolled calls, with their rotating variables and slots, are those ten rounds of section 6.1.2 |
| Sha1.Rounds40To49 | include/beast/core/detail/sha1.hpp:169-178 | the ten unrolled calls, with their rotating variables and slots, are those ten rounds of section 6.1.2 |
| Sha1.Rounds50To59 | include/beast/core/detail/sha1.hpp:179-188 | the ten unrolled calls, with their rotating variables and slots, are those ten rounds of section 6.1.2 |
| Sha1.Rounds60To69 | include/beast/core/detail/sha1.hpp:189-198 | the ten unrolled calls, with their rotating variables and slots, are those ten rounds of section 6.1.2 |
| Sha1.Rounds70To79 | include/beast/core/detail/sha1.hpp:199-208 | the ten unrolled calls, with their rotating variables and slots, are those ten rounds of section 6.1.2 |
| Sha1.Transform | include/beast/core/detail/sha1.hpp:118-215 | the digest becomes the section 6.1.2 compression of the old digest and the message block, over the full schedule W[0..79] |
| Sha1.MakeBlock | include/beast/core/detail/sha1.hpp:105-116 | the sixteen words are the big-endian parse of section 5.2.1 |
| Sha1.PadInOneBlock | include/beast/core/detail/sha1.hpp:284-294 | with fewer than 56 bytes left, the padded message of section 5.1.1 ends in exactly one more block: the marked tail with the length field over its last eight bytes |
| Sha1.PadInTwoBlocks | include/beast/core/detail/sha1.hpp:284-294 | with 56 to 63 bytes left it ends in exactly two: the marked tail, then zeros and the length field |
| Sha1.ParseWithLength | include/beast/core/detail/sha1.hpp:291-293 | storing the halves of the bit count in words 15 and 14 is parsing a block that ends in the 64-bit big-endian length |
| Sha1.ParseTwo | include/beast/core/detail/sha1.hpp:287-293 | after words 0..13 are cleared the dirtied block becomes the parse of 56 zeros and the length field |
| Sha1.LengthOf | include/beast/core/detail/sha1.hpp:275-276 | the `size_t` arithmetic on blocks and buflen gives the bit length of everything absorbed, modulo 2^64 |
| Sha1.Sha1Context.Init | include/beast/core/detail/sha1.hpp:230-241 | the context starts with nothing absorbed and the initial hash value of section 5.3.1 |
| Sha1.Sha1Context.Streaming | include/beast/core/detail/sha1.hpp:243-266 | after any updates: buflen and blocks are the length modulo and divided by 64, the buffer holds the unprocessed tail, the digest is the fold of the compression over all complete blocks |
| Sha1.Sha1Context.Update | include/beast/core/detail/sha1.hpp:243-266 | absorbs exactly the message, for every length and every state of the buffer; the loop ends because each full turn takes at least one byte |
| Sha1.Sha1Context.MarkEnd | include/beast/core/detail/sha1.hpp:278-281 | the buffer becomes the tail, 0x80 and zeros |
| Sha1.Sha1Context.CompressTail | include/beast/core/detail/sha1.hpp:282-294 | both branches of the padding lead to the fold of the compression over the padded message |
| Sha1.Sha1Context.WriteDigest | include/beast/core/detail/sha1.hpp:295-303 | writes the five words big-endian and nothing behind them |
| Sha1.Sha1Context.Finish | include/beast/core/detail/sha1.hpp:268-304 | writes the SHA-1 digest of FIPS 180-4 of everything absorbed and leaves the rest of the output alone |
| Sha1.HashPieces | include/beast/core/detail/sha1.hpp:230-304 | for every message and every way of cutting it into updates, empty ones included, init, update and finish give the SHA-1 digest of FIPS 180-4 |
| Fips180.BitLengthIsExact | include/beast/core/detail/sha1.hpp:275-276 | below 2^61 bytes, the domain of the standard, the length field is the bit length itself |
| Fips180.PlusIsModulo | include/beast/core/detail/sha1.hpp:210-214 | the additions to the digest are modulo 2^32 |
| Fips180Example.AbcDigest | include/beast/core/detail/sha1.hpp:118-304 | a known answer, round by round: the digest of "abc" is a9993e36 4706816a ba3e2571 7850c26c 9cd0d89d |
| Utf8Checker.AcceptMeansChar | include/beast/websocket/detail/utf8_checker.hpp:147-185 | the bit tests accept, at every position they may be used at, exactly a character of section 4 of RFC 3629, or a two-byte sequence led by 0xc0 or 0xc1 that 0xc2 would make one; never reading past the span of the lead byte |
| Utf8Checker.AcceptStep | include/beast/websocket/detail/utf8_checker.hpp:147-185 | one accepted character leaves the verdict on the text to the rest of it; a refusal settles it |
| Utf8Checker.ValidHaveMeansCanBegin | include/beast/websocket/detail/utf8_checker.hpp:186-212 | the early check of an incomplete character holds exactly when some character begins so |
| Utf8Checker.WordIsAscii | include/beast/websocket/detail/utf8_checker.hpp:268-271 | a word that passes the mask holds eight 7-bit bytes |
| Utf8Checker.SkipAscii | include/beast/websocket/detail/utf8_checker.hpp:248-275 | skipping 7-bit bytes is the same as accepting them one by one |
| Utf8Checker.PendingIsText | include/beast/websocket/detail/utf8_checker.hpp:66-71 | reading characters greedily ends with nothing pending exactly on the texts of RFC 3629 |
| Utf8Checker.PendingIsPrefix | include/beast/websocket/detail/utf8_checker.hpp:66-71 | it fails exactly on bytes that no text begins with |
| Utf8Checker.PendingAppend | include/beast/websocket/detail/utf8_checker.hpp:66-71 | a text may be read in two parts, carrying only the incomplete character over; what has failed stays failed |
| Utf8Checker.TopUpComplete | include/beast/websocket/detail/utf8_checker.hpp:229-246 | completing a pending character gives the verdict of reading the text in one piece |
| Utf8Checker.TopUpPartial | include/beast/websocket/detail/utf8_checker.hpp:229-241 | so does a piece too short to complete it |
| Utf8Checker.Checker.ScanFast | include/beast/websocket/detail/utf8_checker.hpp:248-279 | the two fast loops stay inside the input, refuse only what no text begins with, and meet overlong leads at least four bytes before the end only |
| Utf8Checker.Checker.ScanTail | include/beast/websocket/detail/utf8_checker.hpp:281-302 | the careful loop accepts exactly the prefixes of texts and keeps the incomplete character |
| Utf8Checker.Checker.Write | include/beast/websocket/detail/utf8_checker.hpp:142-303 | true exactly when the text so far, with 0xc2 for each 0xc0 and 0xc1, begins some text of RFC 3629 and each 0xc0 and 0xc1 of the piece stands at least four bytes before its end |
| Utf8Checker.Checker.WriteAll | include/beast/websocket/detail/utf8_checker.hpp:125-140 | the same for a list of buffers, each judged with the bytes before it |
| Utf8Checker.Checker.Finish | include/beast/websocket/detail/utf8_checker.hpp:115-123 | true exactly when the (repaired) text is complete; the checker is reset |
| Utf8Checker.Checker.Reset | include/beast/websocket/detail/utf8_checker.hpp:106-113 | the checker starts over with the empty text |
| Utf8Checker.CheckUtf8 | include/beast/websocket/detail/utf8_checker.hpp:307-315 | one write and finish decide the repaired text, up to the position of overlong leads |
| Utf8Checker.RejectionIsRight | include/beast/websocket/detail/utf8_checker.hpp:142-303 | however a text of RFC 3629, or a prefix of one, is cut into pieces, it is accepted |
| Utf8Checker.VerdictIsRfc3629 | include/beast/websocket/detail/utf8_checker.hpp:142-303 | without the bytes 0xc0 and 0xc1 the verdict is that of RFC 3629 for every cut |
| Utf8Checker.VerdictDiffersExactly | include/beast/websocket/detail/utf8_checker.hpp:155-161 | before finish, the verdict on the pieces written differs from whether their bytes begin a text of RFC 3629 exactly when they hold a 0xc0 or 0xc1, would begin a text with 0xc2 in its place, and have each of them four bytes or more before the end of its piece |
| Utf8Checker.CheckPieces | include/beast/websocket/detail/utf8_checker.hpp:115-140 | a message written in any pieces and finished is accepted exactly when it is a text with 0xc2 in place of each 0xc0 and 0xc1, and each of these stands four bytes or more before the end of its piece |
| Utf8Checker.MessageDiffersExactly | include/beast/websocket/detail/utf8_checker.hpp:147-185 | after finish, the verdict on a cut message differs from whether it is a text of RFC 3629 exactly when it holds a 0xc0 or 0xc1, would be a text with 0xc2 in its place, and has each of them four bytes or more before the end of its piece |
| Utf8Checker.CheckDiffersExactly | include/beast/websocket/detail/utf8_checker.hpp:307-315 | the same condition for check_utf8 on a whole text |
| Utf8Checker.CutMatters | include/beast/websocket/detail/utf8_checker.hpp:155-161 | a four-byte message accepted in one piece and rejected in two; RFC 3629 rejects it |
| Mask.RorAdvances | include/beast/websocket/detail/mask.hpp:101-112 | rotating the key by d octets is moving on by d octets of the repeated key |
| Mask.MaskSome | include/beast/websocket/detail/mask.hpp:186-194 | the fall-through switch masks exactly the first d octets |
| Mask.MaskWord | include/beast/websocket/detail/mask.hpp:207-213 | masking a word at once masks its eight octets in order |
| Mask.MaskInplace | include/beast/websocket/detail/mask.hpp:171-230 | for every address and length, head, words and leftovers together mask octet k with key octet k mod 8, touch nothing else, and leave the key advanced by the length |
| Mask.MaskBuffers | include/beast/websocket/detail/mask.hpp:250-259 | masking a list of buffers masks their concatenation, whatever the cuts and addresses |
| Mask.MaskedAppend | include/beast/websocket/detail/mask.hpp:250-259 | masking in two parts with the key carried over is masking at once |
| Mask.MaskTwice | include/beast/websocket/detail/mask.hpp:171-230 | masking is undone by masking with the same starting key |
| Mask.MaskedIsRfc6455 | include/beast/websocket/detail/mask.hpp:93-99 | with a prepared key, octet i is combined with octet i mod 4 of the 32-bit key: section 5.3 of RFC 6455 |
| Mask.MaskedByFrame | include/beast/websocket/detail/mask.hpp:93-99 | with the key read from the octets k0..k3 of a frame, octet i is combined with the (i mod 4)-th of them |
| MultiBuffer.Buffer.constructor | include/beast/core/impl/multi_buffer.ipp:518-528 | an empty queue whose state meets the conditions of debug_check |
| MultiBuffer.Buffer.Bounds | include/beast/core/impl/multi_buffer.ipp:814-852 | the conditions of debug_check place input start, output start and output end in order |
| MultiBuffer.Buffer.Prepare | include/beast/core/impl/multi_buffer.ipp:552-629 | the output sequence is n bytes long and the input unchanged; no element is allocated while allocated room is left, else a single one, of the allocation size or what is short |
| MultiBuffer.Buffer.Commit | include/beast/core/impl/multi_buffer.ipp:631-669 | the first min(n, prepared) output bytes move, in order, across element boundaries, to the end of the input; the others stay prepared |
| MultiBuffer.Buffer.Consume | include/beast/core/impl/multi_buffer.ipp:671-730 | removes the first min(n, size) input bytes across elements and keeps the output; when both sequences are empty all storage is room again |
| MultiBuffer.Buffer.Poke | include/beast/core/impl/multi_buffer.ipp:325-333 | a write through the i-th output buffer changes that one byte of the output sequence and nothing else |
| MultiBuffer.Buffer.Fill | include/beast/core/impl/multi_buffer.ipp:325-333 | a copy into the output buffers in order fills the output sequence |
| MultiBuffer.Buffer.Data | include/beast/core/impl/multi_buffer.ipp:206-261 | the buffers that data() walks hold the input sequence |
| MultiBuffer.Buffer.Capacity | include/beast/core/impl/multi_buffer.ipp:530-541 | input size plus everything allocated behind it |
| MultiBuffer.Buffer.Clear | include/beast/core/impl/multi_buffer.ipp:732-744 | both sequences are empty |
| MultiBuffer.Buffer.Locate | include/beast/core/impl/multi_buffer.ipp:325-333 | finds the element and the place in it of any byte of the output sequence |
| MultiBuffer.Buffer.Write | include/beast/core/impl/multi_buffer.ipp:325-333 | a write anywhere in the output sequence changes those bytes of it and nothing else |
| MultiBuffer.Buffer.Run | include/beast/core/impl/multi_buffer.ipp:552-744 | any sequence of prepare, write, commit, consume and clear is one of a byte queue, however the bytes fall into elements, and no prepare is refused |
| ByteQueue.Conservation | include/beast/core/static_buffer.hpp:106-122 | after any run of whole uses of a byte queue the contents are all bytes there were or were committed, in order, less those removed from the front |
| ByteQueue.CallsAreRun | include/beast/core/static_buffer.hpp:93-122 | a run of whole uses, made call by call with every prepare granted, is that run: what prepare, fill and commit(m) append is the first min(m, n) bytes filled, whatever the room held before |
| OstreamBuffer.ReadSizeHelper | include/beast/core/impl/multi_buffer.ipp:854-871 | asks for all allocated room up to the limit, the largest size that needs no allocation; without room for the larger of 512 and the allocation size, up to the limit; never for nothing |
| OstreamBuffer.OstreamBuffer.constructor | include/beast/core/detail/ostream.hpp:95-100 | opens a put area and writes nothing |
| OstreamBuffer.OstreamBuffer.Overflow | include/beast/core/detail/ostream.hpp:102-114 | appends the character through the byte kept free behind the put area |
| OstreamBuffer.OstreamBuffer.Sync | include/beast/core/detail/ostream.hpp:116-122 | commits every waiting character and changes nothing written |
| OstreamBuffer.OstreamBuffer.Sputc | include/beast/core/detail/ostream.hpp:125-136 | a write with or without room in the put area appends the character |
| OstreamBuffer.OstreamBuffer.Run | include/beast/core/detail/ostream.hpp:102-145 | after any run of writes and syncs, committed bytes and waiting characters are the initial bytes and all characters written; after a final sync all are committed |
| OstreamBuffer.WriteThrough | include/beast/core/detail/ostream.hpp:90-100 | opening, using and destroying a stream appends exactly the characters written to the multi_buffer |
| StaticBuffer.Buffer.Prepare | include/beast/core/impl/static_buffer.ipp:292-302 | makes room for n bytes exactly when they fit behind the committed ones, else reports the error and changes nothing |
| StaticBuffer.Buffer.Commit | include/beast/core/static_buffer.hpp:111-115 | moves the first min(n, prepared) output bytes to the input |
| StaticBuffer.Buffer.Consume | include/beast/core/static_buffer.hpp:117-122 | removes the first min(n, size) input bytes |
| StaticBuffer.Buffer.Reset | include/beast/core/static_buffer.hpp:134-142 | both sequences are empty |
| StaticBuffer.Buffer.Write | include/beast/core/impl/static_buffer.ipp:292-302 | a write anywhere in the output sequence changes those bytes of it and nothing else |
| StaticBuffer.Buffer.Run | include/beast/core/static_buffer.hpp:67-142 | for any sequence of prepare, write, commit, consume and reset: the contents are the bytes committed since the last reset, in order, less those consumed; exactly the prepares that do not fit behind the committed bytes, consumed or not, are refused, and change nothing |
| StringBody.Reader.Prepare | include/beast/http/string_body.hpp:70-75 | the room is resized, keeping its first bytes; committed bytes stay |
| StringBody.Reader.Commit | include/beast/http/string_body.hpp:77-83 | the first min(n, room) bytes of the room are committed, the others go |
| StringBody.Reader.Finish | include/beast/http/string_body.hpp:85-89 | the body is exactly the committed bytes |
| StringBody.Reader.Init | include/beast/http/string_body.hpp:59-68 | for a size_t of any width: what is reserved is the length itself, so that the narrowing cast never cuts it off, and the call fails exactly for lengths beyond the type; with 64 bits it never fails |
| StringBody.RoundsCommitFilled | include/beast/http/string_body.hpp:70-83 | any run of rounds, each with any number of spare prepares before the one that is filled and committed, commits the first min(m, n) bytes filled in each round, in order |
| StringBody.ReadRounds | include/beast/http/string_body.hpp:70-89 | after any run of rounds and finish the body is exactly those bytes, whatever it held before |
| StringBody.CommittedOnlyGrows | include/beast/http/string_body.hpp:70-83 | no later operation alters committed bytes |
| StringBody.Reader.Run | include/beast/http/string_body.hpp:70-89 | any run of prepares, writes and commits before finish leaves the committed bytes, in order, as the body |
| BufferPrefix.Helper.Setup | include/beast/core/detail/buffer_prefix.hpp:220-239 | for every list and n, the view is the prefix view: first min(n, total) bytes, fewest leading buffers, one for n = 0; n never underflows |
| BufferPrefix.Helper.constructor | include/beast/core/detail/buffer_prefix.hpp:333-339 | the same for the constructed adapter, over its own copy of the list |
| BufferPrefix.Helper.Collect | include/beast/core/detail/buffer_prefix.hpp:170-186 | walking from begin to end yields the bytes of the view |
| BufferPrefix.Helper.Copy | include/beast/core/detail/buffer_prefix.hpp:290-297 | the copy shows the same buffers and its iterators belong to its own list |
| BufferPrefix.Helper.Move | include/beast/core/detail/buffer_prefix.hpp:281-288 | so does the object moved into |
| BufferPrefix.Helper.Assign | include/beast/core/detail/buffer_prefix.hpp:316-331 | so does the object assigned to, also from itself |
| BufferPrefix.Helper.AssignMoved | include/beast/core/detail/buffer_prefix.hpp:299-314 | so does the object moved to by assignment |
| BufferPrefix.PrefixViewIsUnique | include/beast/core/detail/buffer_prefix.hpp:44-51 | these properties determine the view |
| BufferPrefix.PrefixOfPrefix | include/beast/core/detail/buffer_prefix.hpp:44-51 | a prefix of m of a prefix of n has the first min(m, n) bytes |
| ChunkEncode.Delim.ToHex | include/beast/http/detail/chunk_encode.hpp:35-51 | the digits written backwards are the hexadecimal numeral of n, within the buffer for every 64-bit n |
| ChunkEncode.Delim.constructor | include/beast/http/detail/chunk_encode.hpp:94-105 | the delimiter is the numeral and a line end |
| ChunkEncode.Delim.Copy | include/beast/http/detail/chunk_encode.hpp:82-92 | a copy shows the same text in its own buffer |
| ChunkEncode.Encode | include/beast/http/chunk_encode.hpp:47-55 | strings together delimiter, buffers and the ending chosen by fin |
| ChunkEncode.FinIsFinal | include/beast/http/chunk_encode.hpp:53-70 | marking the last chunk is appending the final chunk to it |
| ChunkEncode.HexIsNumber | include/beast/http/detail/chunk_encode.hpp:35-51 | reading the size field as a hexadecimal number gives the size |
| ChunkEncode.HexIsPlain | include/beast/http/detail/chunk_encode.hpp:35-51 | it has no leading zero and no capital digit |
| ChunkEncode.DecodeStream | include/beast/http/chunk_encode.hpp:47-70 | decoding returns the payloads up to the first empty chunk and stops behind it, or behind the final chunk |
| ChunkEncode.RoundTrip | include/beast/http/chunk_encode.hpp:47-70 | decoding by section 4.1.3 of RFC 7230 returns the concatenated payloads and consumes everything exactly when no chunk is empty |
| ChunkEncode.RoundTripFin | include/beast/http/chunk_encode.hpp:47-55 | the same with fin on the last chunk |
| StaticString.CompareIsLexicographic | include/beast/core/detail/static_string.hpp:24-37 | the sign of the length-dispatched comparison is lexicographic order, zero exactly on equality |
| StaticString.OperatorsAgree | include/beast/core/static_string.hpp:872-930 | compare and the six operators decide lexicographic order and equality of the characters, for all capacities, and are consistent with each other |
| StaticString.OperatorsAreTransitive | include/beast/core/static_string.hpp:872-930 | they are transitive across three capacities |
| Decimal.MaxDigitsIs | include/beast/core/detail/static_string.hpp:61-69 | max_digits is one more than the whole part of 2.41 times the width |
| Decimal.MaxDigitsSuffice | include/beast/core/detail/static_string.hpp:61-69 | for every width, every magnitude below 256^b has at most max_digits(b) decimal digits |
| Decimal.HundredBytes | include/beast/core/detail/static_string.hpp:61-69 | 256^100 is at most 10^241, the ratio 2.41 |
| Decimal.StoreDigits | include/beast/core/impl/static_string.ipp:576-579 | the digit loop stores the numeral reversed and stays inside max_digits characters |
| Decimal.ToStaticStringUnsigned | include/beast/core/impl/static_string.ipp:570-587 | every unsigned value of any width gives its decimal numeral |
| Decimal.ToStaticStringSigned | include/beast/core/impl/static_string.ipp:535-568 | a signed value gives its numeral if it fits max_digits characters, the length error if not, and a lone sign for the smallest value; it gives its numeral exactly when it is not the smallest and is not negative or has a digit to spare |
| Decimal.SignedIsRightExactly | include/beast/core/impl/static_string.ipp:591-601 | the conversion gives the numeral exactly when the value is not the smallest and is not negative or its magnitude has a digit to spare |
| Decimal.OneByte | include/beast/core/impl/static_string.ipp:591-601 | in one byte -99 gives its numeral, -100 the length error and -128 a lone sign |
| Decimal.SignedWidths | include/beast/core/impl/static_string.ipp:591-601 | all negative 8-byte values but the smallest have one to spare; in 1, 2 and 4 bytes those from 100, 10000 and 1000000000 on have not |
| Decimal.NumeralMeans | include/beast/core/impl/static_string.ipp:570-587 | the numeral has the value it was made from and no leading zero |
| CiCharTraits.TolowerIsLowerCase | include/beast/core/detail/ci_char_traits.hpp:17-41 | the table changes nothing but case and gives no capital letter |
| CiCharTraits.CiLessIsBefore | include/beast/core/detail/ci_char_traits.hpp:59-80 | ci_less is lexicographic order of the characters that the table gives |
| CiCharTraits.CiLessIsLowerCaseOrder | include/beast/core/detail/ci_char_traits.hpp:59-80 | ci_less orders two strings as any changes of case of them without capital letters are ordered by character values |
| CiCharTraits.CiLessIsStrictWeakOrder | include/beast/core/detail/ci_char_traits.hpp:59-100 | ci_less is a strict weak order on all strings, for signed and unsigned char, and its ties are exactly ci_equal |
| CiCharTraits.CiEqualIsCaseChange | include/beast/core/detail/ci_char_traits.hpp:82-100 | ci_equal holds exactly between strings that differ in the case of ASCII letters |
| CiCharTraits.CaseIsIgnored | include/beast/core/detail/ci_char_traits.hpp:59-100 | neither answer changes under case changes of either argument |
| Reporter.SuiteResults.Add | extras/beast/unit_test/reporter.hpp:140-148 | one case more, with its checks and failures |
| Reporter.Results.LowerBound | extras/beast/unit_test/reporter.hpp:162-168 | the search ends between the longer entries and the others |
| Reporter.Results.Add | extras/beast/unit_test/reporter.hpp:150-180 | the suite's counts are added; top stays the ten longest of all suites that took 1000000000 ns or more |
| Reporter.InsertAt | extras/beast/unit_test/reporter.hpp:162-178 | inserting at the place found is insertion into the sorted list, before equals |
| Reporter.LongestOfInsert | extras/beast/unit_test/reporter.hpp:169-178 | dropping all but the first ten before an insertion does not change the first ten after it |
| Reporter.SortedIsSorted | extras/beast/unit_test/reporter.hpp:159-179 | the reference is sorted, longest first, and a permutation of the history |
| Reporter.LongestAreLongest | extras/beast/unit_test/reporter.hpp:159-179 | the list has min(10, all) entries of the history, sorted, and nothing left out took longer than anything kept |
| Runner.Runner.TestCase | extras/beast/unit_test/runner.hpp:236-250 | closes the open case, if any, opens a new one without checks, and keeps the counts of both |
| Runner.Runner.RecordCheck | extras/beast/unit_test/runner.hpp:252-273 | one check more in the open case, an unnamed one if there was none; a failure is remembered |
| Runner.Runner.Log | extras/beast/unit_test/runner.hpp:275-283 | opens an unnamed case if there was none, and counts nothing |
| Runner.Runner.Run | extras/beast/unit_test/runner.hpp:178-192 | a suite adds its cases, checks and failures to the totals and its trace to the trace, returns whether a check failed, and meets the assertions exactly when each case has a check and a name; a suite that opens no case adds the previous case again |
| Runner.Runner.RunEach | extras/beast/unit_test/runner.hpp:215-223 | the totals are the sums over all suites, plus for each suite without a case one case and the checks and failures of the last case before it; the trace is that of the suites in order; true exactly when some check failed |
| Runner.Runner.RunEachIf | extras/beast/unit_test/runner.hpp:225-234 | the same for exactly the suites that the selector chooses |
| Runner.RunAll | extras/beast/unit_test/reporter.hpp:192-209 | for every list of suites run by a fresh engine: the trace is that of the suites, and well nested exactly when every suite opens a case; suites and cases are the numbers of suite and case ends in it; total and failed are the numbers of checks and failures in it plus those counted again for suites without a case; ten longest suites in any case |
| Runner.AssertionsMissEmptySuites | extras/beast/unit_test/runner.hpp:187-190 | behind a suite with a check, a suite without cases meets every assertion although it is counted as a case |
| Callbacks.SuiteTraceIsCases | extras/beast/unit_test/runner.hpp:178-192 | the callbacks of a suite that does anything are its begin, its cases one by one, each between begin and end, and its end |
| Callbacks.CasesAreCounted | extras/beast/unit_test/runner.hpp:236-250 | the cases counted are those of that division |
| Callbacks.LastCaseCounts | extras/beast/unit_test/reporter.hpp:254-278 | the counts of the case opened last are the checks and failures in its body |
| Callbacks.ListNests | extras/beast/unit_test/runner.hpp:178-192 | the trace of any list of suites is well nested exactly when every suite opens a case |
| Callbacks.ListCounts | extras/beast/unit_test/reporter.hpp:226-278 | suite ends, case ends, checks and failures in the trace of any list are its suites, its cases and one for each suite without a case, its checks and its failures |
| Selector.Selector.Call | extras/beast/unit_test/match.hpp:68-118 | the choice and the next mode, for every mode and suite |
| Selector.SelectFrom | extras/beast/unit_test/match.hpp:59-66 | a new automatic selector with an empty pattern selects exactly the suites that are not manual; any other makes the choices of its mode and pattern |
| Selector.Selector.SelectAll | extras/beast/unit_test/match.hpp:68-118 | the choices along a list, with the mode carried over |
| Selector.SteadyChoices | extras/beast/unit_test/match.hpp:99-117 | in every other mode each suite is judged on its own: by name alone, manual or not, by module or library or everything if not manual, or not at all |
| Selector.AutomatchChoices | extras/beast/unit_test/match.hpp:74-106 | nothing before the first match; after a name match only that suite; after a module or library match exactly the non-manual suites of that module or library from there on |
| Selector.FullNameChooses | extras/beast/unit_test/match.hpp:75-80 | library, module and name with dots between them choose that suite, manual or not |
| Selector.OtherPatternsChooseNothing | extras/beast/unit_test/match.hpp:74-97 | a pattern that is the name, module, library or full name of no suite chooses nothing |
| Selector.ModuleChoicesAreDocumentedExactly | extras/beast/unit_test/match.hpp:124-138 | the choices are those of the comment, module and library, exactly when no later non-manual suite has the module's name in another library |
| Selector.LibraryIsNotCompared | extras/beast/unit_test/match.hpp:82-88 | a list of two suites of different libraries, both chosen |

## Left out

- MultiBuffer.Buffer.Poke: element storage is a value inside the buffer object, so that pointers held across calls, and the addresses of elements, are not modelled.
- MultiBuffer: move and copy between buffers, allocators and the intrusive list's own links are not modelled; the list is a sequence.
- Mask.MaskInplace: only keys of 64 bits; the 32-bit variant has the same structure.
- OstreamBuffer.OstreamBuffer.Overflow: the call with end-of-file is not modelled, because it flushes without opening a new put area; nor is a buffer that is changed by others while the stream is open.
- StaticBuffer.Buffer.Prepare: the exception is a boolean result.
- MultiBuffer.Buffer.Write: a write beyond the output, which a caller must not make, is cut off.
- StaticBuffer.Buffer.Write: likewise.
- BufferPrefix.Helper.AssignMoved: moving an object to itself, which the library leaves unspecified for its list, is excluded.
- BufferPrefix.Helper.Move: what moving leaves in the other list is taken to be an empty list; memory behind buffers is modelled by its bytes, so aliasing buffers are not.
- Decimal.MaxDigitsSuffice: the exact product 2.41 b is cut off, not the rounded one of type double.
- StaticString: of the class only comparison is modelled; character traits other than code order are not.
- CiCharTraits: the 256-entry table is written as the function it tabulates.
- Rfc7230: the decoder accepts no chunk extensions and no trailer fields, because the encoder writes none.
- Runner.Runner.Run: exceptions that end a suite early are covered as shorter lists of calls; the recursive mutex and virtual callbacks of other derived classes are not modelled.
- Runner.Runner.RecordCheck: pass and fail are one method with a flag; the failure text is only printed by the source, and printing is not modelled.
- results.hpp (the recorder's containers): `insert` reads an object after moving from it, which a model on values would hide.
- flat_buffer, consuming_buffers, buffers_adapter and buffer_cat: further views and buffers of the same kinds.
- base64, the HTTP parser, fields, the WebSocket stream and its extensions, and zlib: not part of this model.
- Sockets, handlers, threads and the example programs: calls into code that is not visible here.
