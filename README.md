# silvertip framing core in Dafny

silvertip is a small Java library for non-blocking TCP connections. This project models its byte-stream framing layer and proves properties of that model. The layer has two halves:

- **Parsers.** Each parser pulls messages out of a `java.nio.ByteBuffer`, which has a position, a limit and a mark.
- **`Connection`.** It runs a parser over its receive buffer and drains a FIFO queue of buffers to the socket.

## Modules

- **`Bytes`.** Java bytes, held as their unsigned bit pattern. Also: Java `int` addition with 32-bit wrap-around, `Integer.parseInt`, `(char)` casts, and searching for a byte.
- **`Buffers`.** The `ByteBuffer` operations the code relies on, as a class over an array:
  - `get()`, `get(i)`, `get(byte[])`, `put`;
  - `position(n)`, `mark`, `reset`, `flip`, `compact`.

  What a call throws becomes a `Result` value. Unchecked exceptions are named by their class.
- **`Parsing`.**
  - The `MessageParser` contract as predicates on a parser, seen as a function from a buffer view to its outcome, position and mark:
    - `Honours`: the contract's rules on the mark and the position (the rule against throwing Partial or Garbled after a `reset()` is not encoded);
    - `Advances`: a message or Garbled report moves the position;
    - `Spans`: a message is exactly the bytes passed over.
  - The outcome type: a message, Partial, Garbled(text, data), or a Crash from an escaping runtime exception.
  - The wrapping done by `AbstractMessageParser.parse`.
- **`FixSpec` / `FixParser` / `FixProperties`.** The current FIX parser (`src/main/java/silvertip/protocols/FixMessageParser.java`):
  - pure specification functions;
  - imperative methods over a `ByteBuffer`, each proved equal to its specification function;
  - lemmas about the specification. They cover whole frames, cut frames, each Garbled path, resynchronisation, the crashes, and the parser contract.
- **`PingPong`.** The two newline framers of the ping-pong sample.
- **`Delimited`.** `DelimitedMessageParser` and `DelimitedReceiveBuffer`.
- **`MessageHeader`.** The length-prefixed framer `MessageHeaderParser`.
- **`OldFix`.** The older FIX parser, which rebuilds the message from the fields it read.
- **`Receiving`.** The receive loop of `Connection.parse()` as a function of the bytes and of any parser that keeps the contract.
- **`Transmitting`.** `write(ByteBuffer)`, `flush()` and the drain loop of `close()` as functions of the queue and of the channel's replies.
- **`Connections`.** `Connection` as a class:
  - fields: the receive buffer, the transmit queue, the selection key's write interest and cancellation, and the log of callback calls;
  - a scripted socket channel;
  - methods proved against the `Receiving` and `Transmitting` functions.

## Where the code and its tests disagree

The model follows the code.

| Input | The test expects | The code does |
|---|---|---|
| A BodyLength that is not a number | Garbled | `Integer.parseInt` throws `NumberFormatException`, which escapes the parser: `FixProperties.BodyLengthNotANumber` |
| A BeginString such as `FIX.4` | Garbled | `charAt` throws `StringIndexOutOfBoundsException`: `FixProperties.ShortBeginStringCrashes` |

The code never computes or checks the CheckSum value, and never checks MsgType. The model does not either.

## Model

| member | source | states |
|---|---|---|
| `Buffers.Reposition` | src/main/java/silvertip/protocols/FixMessageParser.java:55-59 | after `position(n)` the mark is kept when it is at or below `n`, and otherwise discarded (-1) |
| `Buffers.ByteBuffer.Allocate` | src/main/java/silvertip/Connection.java:50 | `allocate(n)`: zero-filled, position 0, limit `n`, no mark |
| `Buffers.ByteBuffer.Get` | src/main/java/silvertip/protocols/FixMessageParser.java:73 | relative `get()`: the byte at the position, and the position moves past it; BufferUnderflow at the limit, position unchanged |
| `Buffers.ByteBuffer.GetAt` | src/main/java/silvertip/samples/pingpong/PingPongMessageParser.java:19 | absolute `get(i)`: the byte at `i` below the limit, otherwise IndexOutOfBoundsException; the position never moves |
| `Buffers.ByteBuffer.GetBytes` | src/main/java/silvertip/protocols/FixMessageParser.java:18-20 | bulk `get(byte[n])`: the next `n` bytes and the position past them, or BufferUnderflow with the position unchanged |
| `Buffers.ByteBuffer.SetPosition` | src/main/java/silvertip/protocols/FixMessageParser.java:55 | `position(n)`: accepted exactly for `0 <= n <= limit`, with the mark repositioned; otherwise IllegalArgumentException, nothing changed |
| `Buffers.ByteBuffer.Mark` | src/main/java/silvertip/Connection.java:131 | `mark()`: the mark is the position |
| `Buffers.ByteBuffer.Reset` | src/main/java/silvertip/Connection.java:135 | `reset()`: back to the mark, or InvalidMarkException when there is none |
| `Buffers.ByteBuffer.Flip` | src/main/java/silvertip/Connection.java:128 | `flip()`: limit at the old position, position 0, no mark |
| `Buffers.ByteBuffer.Compact` | src/main/java/silvertip/Connection.java:141 | `compact()`: the unread bytes `[position, limit)` move to the front, the position is after them, the limit is the capacity and the rest of the array is untouched |
| `Buffers.ByteBuffer.Put` | src/main/java/silvertip/Connection.java:112 | bulk `put`: the bytes are written at the position, which moves past them, and nothing else changes; BufferOverflow when they do not fit |
| `Bytes.AddInt` | src/main/java/silvertip/protocols/FixMessageParser.java:51 | Java `int` addition: the sum when it fits in 32 bits, otherwise the sum wrapped by 2^32, whose sign is then wrong |
| `Bytes.JavaChar` | src/main/java/silvertip/protocols/FixMessageParser.java:86 | `(char) b` is the ASCII character for bytes below 128 |
| `Bytes.JavaText` | src/main/java/silvertip/protocols/FixMessageParser.java:81-90 | the StringBuilder text has one character per byte, each the byte as `(char)` makes it |
| `Bytes.IndexOf` | src/main/java/silvertip/samples/pingpong/PingPongMessageParser.java:18-20 | the index of the first occurrence of a byte at or after `from`, and None only when the byte does not occur there |
| `Bytes.IndexOfUnique` | src/main/java/silvertip/samples/pingpong/PingPongMessageParser.java:18-20 | any index holding the first occurrence is what the scan finds |
| `Bytes.ParseInt` | src/main/java/silvertip/protocols/FixMessageParser.java:42 | `Integer.parseInt` yields only values that fit in an `int` |
| `Bytes.ParseIntDecimal` | src/main/java/silvertip/protocols/FixMessageParser.java:42 | `Integer.parseInt` reads back every non-negative `int` written in decimal |
| `Bytes.ParseIntRejectsNonDigit` | src/main/java/silvertip/protocols/FixMessageParser.java:42 | a non-digit after the first character makes `Integer.parseInt` fail |
| `Parsing.Compare` | src/main/java/silvertip/protocols/FixMessageParser.java:70-78 | a byte-by-byte comparison with relative gets ends matched just past the literal, or mismatched just past the offending byte, or exhausted when the limit comes first |
| `Parsing.CompareMatched` | src/main/java/silvertip/protocols/FixMessageParser.java:70-78 | the comparison matches exactly when the literal lies at the position |
| `Parsing.CompareMismatched` | src/main/java/silvertip/protocols/FixMessageParser.java:72-76 | on a mismatch every byte before the offending one agrees with the literal, and the offending one does not |
| `Parsing.CompareFirstDifference` | src/main/java/silvertip/protocols/FixMessageParser.java:72-76 | the first differing byte is where the comparison stops, having consumed it |
| `Parsing.CompareExhausted` | src/main/java/silvertip/protocols/FixMessageParser.java:72-73 | when the limit comes first, all the bytes up to it agree with the literal |
| `Parsing.GetBytesAt` | src/main/java/silvertip/protocols/FixMessageParser.java:18-20 | a bulk get succeeds exactly when `n` bytes remain, and then gives exactly those bytes; otherwise BufferUnderflow with the position unchanged |
| `Parsing.Lift` | src/main/java/silvertip/AbstractMessageParser.java:7-14 | `parse` is `newMessage(onParse(buffer))` on success; BufferUnderflow and PartialMessage both become Partial; Garbled passes through with its text and data; any other exception escapes unchanged |
| `FixSpec.TagPrefix` | src/main/java/silvertip/protocols/FixMessageParser.java:71 | `tag.number() + "="` is 2 or 3 bytes long, ends in `=` and holds no SOH |
| `FixSpec.MatchTag` | src/main/java/silvertip/protocols/FixMessageParser.java:70-78 | `match` consumes exactly the tag on success; on failure it stops after the offending byte (Garbled, no text) or at the limit (underflow) |
| `FixSpec.Value` | src/main/java/silvertip/protocols/FixMessageParser.java:80-91 | `value` consumes at least one byte and the SOH on success |
| `FixSpec.ParseField` | src/main/java/silvertip/protocols/FixMessageParser.java:65-68 | `parseField` consumes the tag, a non-empty value and SOH on success |
| `FixSpec.IsBeginStringValid` | src/main/java/silvertip/protocols/FixMessageParser.java:45-48 | `isBeginStringValid` either answers or throws StringIndexOutOfBoundsException, and nothing else |
| `FixSpec.ParseHeader` | src/main/java/silvertip/protocols/FixMessageParser.java:36-43 | `header` on success reports the header length as the bytes consumed, the BodyLength, and the body start at the position |
| `FixSpec.CheckedHeader` | src/main/java/silvertip/protocols/FixMessageParser.java:39-42 | the header after BeginString is read: the same header facts from the BeginString's end |
| `FixSpec.BodyLengthField` | src/main/java/silvertip/protocols/FixMessageParser.java:41-42 | the BodyLength field read as an `int`: the same header facts |
| `FixSpec.Trailer` | src/main/java/silvertip/protocols/FixMessageParser.java:50-63 | `trailer`: on a Garbled CheckSum the position is back at the body start; on success the trailer length is positive; the mark is kept or discarded, never moved |
| `FixSpec.CheckSumField` | src/main/java/silvertip/protocols/FixMessageParser.java:56-62 | the CheckSum `try`/`catch`: the same position and mark facts as `Trailer` |
| `FixSpec.NextMessagePosition` | src/main/java/silvertip/protocols/FixMessageParser.java:93-118 | the resynchronisation point lies between the position and the limit, and, when it is not the limit, strictly after the position with `8=` still ahead of it |
| `FixSpec.Resynchronise` | src/main/java/silvertip/protocols/FixMessageParser.java:22-29 | the Garbled `catch` keeps the mark and leaves the position within the buffer |
| `FixSpec.OnParse` | src/main/java/silvertip/protocols/FixMessageParser.java:14-30 | `onParse` never moves the mark: it is kept or discarded |
| `FixSpec.AfterHeader` | src/main/java/silvertip/protocols/FixMessageParser.java:17-29 | the rest of `onParse` after the header never moves the mark either |
| `FixParser.Match` | src/main/java/silvertip/protocols/FixMessageParser.java:70-78 | the loop of relative gets ends with the result and position of `FixSpec.MatchTag` |
| `FixParser.Value` | src/main/java/silvertip/protocols/FixMessageParser.java:80-91 | the StringBuilder loop ends with the result and position of `FixSpec.Value` |
| `FixParser.ParseField` | src/main/java/silvertip/protocols/FixMessageParser.java:65-68 | equal to `FixSpec.ParseField` |
| `FixParser.Header` | src/main/java/silvertip/protocols/FixMessageParser.java:36-43 | equal to `FixSpec.ParseHeader` |
| `FixParser.Trailer` | src/main/java/silvertip/protocols/FixMessageParser.java:50-63 | equal to `FixSpec.Trailer`, including the mark |
| `FixParser.CheckSum` | src/main/java/silvertip/protocols/FixMessageParser.java:56-62 | equal to `FixSpec.CheckSumField` |
| `FixParser.SkipToBeginString` | src/main/java/silvertip/protocols/FixMessageParser.java:109-118 | SOH `8=` matched: the position is back at the `8`; otherwise the comparison's end; the mark untouched |
| `FixParser.NextMessagePosition` | src/main/java/silvertip/protocols/FixMessageParser.java:93-107 | the scan returns `FixSpec.NextMessagePosition` and, by its `finally`, leaves the position and mark unchanged |
| `FixParser.Catch` | src/main/java/silvertip/protocols/FixMessageParser.java:22-29 | a Garbled exception gets the bytes from the mark to the next message as data, with the position there; any other exception passes through with nothing changed |
| `FixParser.OnParse` | src/main/java/silvertip/protocols/FixMessageParser.java:14-30 | equal to `FixSpec.OnParse`: result, position and mark |
| `FixParser.AfterHeader` | src/main/java/silvertip/protocols/FixMessageParser.java:16-29 | equal to `FixSpec.AfterHeader` |
| `FixParser.Parse` | src/main/java/silvertip/AbstractMessageParser.java:7-14 | the parser as run on a buffer is `FixSpec.FixParse`: same outcome, position and mark |
| `FixProperties.MatchTagMeaning` | src/main/java/silvertip/protocols/FixMessageParser.java:70-78 | `match` succeeds exactly when the tag follows, and underflows exactly when the limit cuts a prefix of the tag, leaving the position at the limit |
| `FixProperties.MatchTagMismatch` | src/main/java/silvertip/protocols/FixMessageParser.java:72-76 | the first byte that differs from the tag gives Garbled without text, just past that byte |
| `FixProperties.ValueMeaning` | src/main/java/silvertip/protocols/FixMessageParser.java:80-91 | `value` underflows exactly when no SOH is left; SOH at once gives the empty-value Garbled; otherwise the value is the bytes up to the first SOH |
| `FixProperties.ValueAt` | src/main/java/silvertip/protocols/FixMessageParser.java:80-91 | a non-empty value followed by SOH is read whole |
| `FixProperties.ValueCut` | src/main/java/silvertip/protocols/FixMessageParser.java:82-87 | a value cut short by the limit underflows at the limit |
| `FixProperties.FieldAt` | src/main/java/silvertip/protocols/FixMessageParser.java:65-68 | a field written in full is read whole, its value returned |
| `FixProperties.FieldCut` | src/main/java/silvertip/protocols/FixMessageParser.java:65-68 | a field cut short by the limit underflows at the limit |
| `FixProperties.BeginStringValidity` | src/main/java/silvertip/protocols/FixMessageParser.java:45-48 | `isBeginStringValid` is true exactly for `FIX.` with digits at offsets 4 and 6, and throws exactly for `FIX.` followed by nothing, or by a digit and at most one more byte, where `charAt` runs past the end |
| `FixProperties.FieldEnds` | src/main/java/silvertip/protocols/FixMessageParser.java:84-85 | a field that is read ends with its SOH |
| `FixProperties.HeaderEnds` | src/main/java/silvertip/protocols/FixMessageParser.java:36-43 | a header that is read is at least six bytes and ends with the SOH of BodyLength |
| `FixProperties.HeaderGarbledAdvances` | src/main/java/silvertip/protocols/FixMessageParser.java:36-43 | a header reported Garbled has consumed at least one byte |
| `FixProperties.HeaderThrows` | src/main/java/silvertip/protocols/FixMessageParser.java:14-30 | a header that throws anything but Garbled ends the parse with that exception, lifted |
| `FixProperties.HeaderGarbledAt` | src/main/java/silvertip/protocols/FixMessageParser.java:22-29 | a header Garbled at `pos` yields Garbled with the bytes from the mark to the next `8=` found from `pos`, the position there and the mark kept |
| `FixProperties.OnParseGarbled` | src/main/java/silvertip/protocols/FixMessageParser.java:22-29 | the same, for `onParse` |
| `FixProperties.OnParseEnds` | src/main/java/silvertip/AbstractMessageParser.java:7-14 | the parse reports whatever `onParse` returned or threw, lifted, with its position and mark |
| `FixProperties.FieldTagMismatch` | src/main/java/silvertip/protocols/FixMessageParser.java:65-78 | a field whose tag differs at some offset is Garbled just past that byte |
| `FixProperties.NotBeginString` | src/main/java/silvertip/protocols/FixMessageParser.java:38 | a buffer not starting with `8=` makes the header Garbled just past the first differing byte |
| `FixProperties.EmptyBeginString` | src/main/java/silvertip/protocols/FixMessageParser.java:88-89 | `8=` SOH gives Garbled with "BeginString(8) is empty" |
| `FixProperties.InvalidBeginStringGarbled` | src/main/java/silvertip/protocols/FixMessageParser.java:39-40 | a BeginString that is not `FIX.m.n` gives Garbled with the "is invalid" text naming the value, after its field |
| `FixProperties.ShortBeginStringCrashes` | src/main/java/silvertip/protocols/FixMessageParser.java:46-47 | a BeginString such as `FIX.` or `FIX.4` makes the parse escape with StringIndexOutOfBoundsException |
| `FixProperties.NotBodyLength` | src/main/java/silvertip/protocols/FixMessageParser.java:41 | after a valid BeginString, a second field not starting with `9=` gives Garbled just past the differing byte |
| `FixProperties.EmptyBodyLength` | src/main/java/silvertip/protocols/FixMessageParser.java:41 | after a valid BeginString, `9=` SOH gives Garbled with "BodyLength(9) is empty" |
| `FixProperties.EmptyValueField` | src/main/java/silvertip/protocols/FixMessageParser.java:88-89 | any field with an empty value is Garbled, naming its tag |
| `FixProperties.BodyLengthNotANumber` | src/main/java/silvertip/protocols/FixMessageParser.java:42 | a BodyLength that is not a number makes the parse escape with NumberFormatException |
| `FixProperties.HeaderRead` | src/main/java/silvertip/protocols/FixMessageParser.java:36-43 | a valid BeginString and a numeric BodyLength make the header: its length, the BodyLength and the body start |
| `FixProperties.HeaderBodyLengthThrows` | src/main/java/silvertip/protocols/FixMessageParser.java:41 | a BodyLength field that throws makes the header throw the same, at the same position |
| `FixProperties.BodyLengthRead` | src/main/java/silvertip/protocols/FixMessageParser.java:41-42 | a numeric BodyLength field is turned into the header |
| `FixProperties.HeaderAfterBeginString` | src/main/java/silvertip/protocols/FixMessageParser.java:38-41 | after a valid BeginString, the header is whatever the BodyLength field gives |
| `FixProperties.FrameHeader` | src/main/java/silvertip/protocols/FixMessageParser.java:36-43 | the header of a well-formed frame is read with its BodyLength, ending at the body |
| `FixProperties.TrailerRead` | src/main/java/silvertip/protocols/FixMessageParser.java:50-63 | a CheckSum field read from the trailer start makes the trailer its length, with the mark kept |
| `FixProperties.MessageRead` | src/main/java/silvertip/protocols/FixMessageParser.java:17-21 | with the trailer read, the message is every byte from the mark to the trailer's end, and the position is there |
| `FixProperties.AfterHeaderParse` | src/main/java/silvertip/protocols/FixMessageParser.java:16-21 | after a successful header, the parse is what the rest of `onParse` gives, lifted |
| `FixProperties.ParsedAfterHeader` | src/main/java/silvertip/protocols/FixMessageParser.java:14-21 | a header followed by the body and a CheckSum field parses into the exact bytes from the mark to the CheckSum's SOH |
| `FixProperties.FrameParsed` | src/main/java/silvertip/protocols/FixMessageParser.java:14-21 | a well-formed frame at the mark parses into a message holding exactly its bytes, with the position just past the CheckSum SOH and the mark kept |
| `FixProperties.HeaderUnderflowPartial` | src/main/java/silvertip/AbstractMessageParser.java:11-12 | a header that underflows makes the parse Partial, with the mark kept |
| `FixProperties.BodyLengthCutPartial` | src/main/java/silvertip/protocols/FixMessageParser.java:41 | a BodyLength field cut by the limit makes the parse Partial |
| `FixProperties.BodyCutPartial` | src/main/java/silvertip/protocols/FixMessageParser.java:51-54 | a body running past the limit makes the parse Partial even though the header decoded |
| `FixProperties.CheckSumCutPartial` | src/main/java/silvertip/protocols/FixMessageParser.java:55-57 | a CheckSum field cut by the limit makes the parse Partial |
| `FixProperties.TrailerCut` | src/main/java/silvertip/protocols/FixMessageParser.java:55-57 | the trailer underflows at the limit, with the mark kept |
| `FixProperties.TrailerThrows` | src/main/java/silvertip/protocols/FixMessageParser.java:50-63 | a trailer that throws anything but Garbled ends the parse with that exception, lifted |
| `FixProperties.FrameCutPartial` | src/main/java/silvertip/protocols/FixMessageParser.java:14-21 | a well-formed frame cut short anywhere by the limit is Partial, with the mark kept |
| `FixProperties.FieldFails` | src/main/java/silvertip/protocols/FixMessageParser.java:65-91 | every way `parseField` fails is an underflow or a Garbled report without data |
| `FixProperties.FieldBeforeSoh` | src/main/java/silvertip/protocols/FixMessageParser.java:80-87 | a field with an SOH somewhere after its tag cannot underflow |
| `FixProperties.TrailerSettles` | src/main/java/silvertip/protocols/FixMessageParser.java:50-63 | the trailer keeps the mark unless it crashes, and on Garbled it returns to the body start |
| `FixProperties.AfterHeaderSettles` | src/main/java/silvertip/protocols/FixMessageParser.java:17-29 | after a header, `onParse` ends as the parser contract allows |
| `FixProperties.OnParseSettles` | src/main/java/silvertip/protocols/FixMessageParser.java:14-30 | `onParse` ends as the parser contract allows on every buffer |
| `FixProperties.FixParseKeepsContract` | src/main/java/silvertip/MessageParser.java:21-48 | the FIX parser keeps the `MessageParser` rules on the mark and the position (not the reset rule, which it breaks): the mark is never moved, a message or a Garbled report moves the position forward, and it spans exactly the bytes passed over |
| `FixProperties.TrailerGarbled` | src/main/java/silvertip/protocols/FixMessageParser.java:56-61 | a missing or empty CheckSum gives Garbled with the bytes from the mark to the next `8=` found from the body start |
| `FixProperties.AfterHeaderResynchronises` | src/main/java/silvertip/protocols/FixMessageParser.java:22-28 | a trailer Garbled at the body start sends the parse to the resynchronisation point |
| `FixProperties.AfterHeaderEnds` | src/main/java/silvertip/AbstractMessageParser.java:7-14 | the parse reports what the rest of `onParse` does, lifted |
| `FixProperties.CheckSumGarbled` | src/main/java/silvertip/protocols/FixMessageParser.java:58-61 | a Garbled CheckSum field puts the position back at the body start |
| `FixProperties.BodyLengthOverflowCrashes` | src/main/java/silvertip/protocols/FixMessageParser.java:51-55 | a BodyLength whose `int` sum with the body start wraps negative or leaves the range makes `position()` throw IllegalArgumentException |
| `FixProperties.NextMessageFound` | src/main/java/silvertip/protocols/FixMessageParser.java:93-118 | the scan stops at the limit or on the `8` of an SOH `8=` it has read |
| `FixProperties.NextMessageReaches` | src/main/java/silvertip/protocols/FixMessageParser.java:93-118 | conversely, a scan over bytes with no SOH up to an SOH `8=` stops on that `8` |
| `FixProperties.GarbageScan` | src/main/java/silvertip/protocols/FixMessageParser.java:22-28 | garbage not starting with `8` and holding no SOH, in front of SOH `8=`: the header is Garbled on its first byte, and the scan from the next byte stops on the `8` |
| `FixProperties.GarbageGarbled` | src/main/java/silvertip/protocols/FixMessageParser.java:22-28 | such garbage is reported as Garbled data made of the garbage and the SOH, with the position on the `8` and the mark kept |
| `FixProperties.GarbageResynchronises` | src/main/java/silvertip/protocols/FixMessageParser.java:14-28 | garbage, SOH, then a well-formed frame: Garbled data of the garbage and the SOH, then the parse resumed on the `8` returns the frame whole |
| `FixProperties.NextMessageSkipsRepeatedSoh` | src/main/java/silvertip/protocols/FixMessageParser.java:109-114 | a failed comparison consumes its failing byte, so SOH SOH `8=` is not found |
| `PingPong.FindNewline` | src/main/java/silvertip/samples/pingpong/PingPongMessageParser.java:18-20 | the loop of absolute gets finds the first `\n` at or after the position |
| `PingPong.ParseMessage` | src/main/java/silvertip/samples/pingpong/PingPongMessageParser.java:17-27 | `parse` as run is the line parse: outcome, position and mark |
| `PingPong.ParseText` | src/test/java/silvertip/samples/pingpong/PingPongMessageParser.java:31-41 | the string-returning copy, the same line parse |
| `PingPong.LineParseMeaning` | src/main/java/silvertip/samples/pingpong/PingPongMessageParser.java:17-27 | a message exactly when a `\n` is left; it is the bytes from the position through the first `\n`, its only `\n`, and the position ends past it; Partial leaves the position; never Garbled; the mark stays |
| `PingPong.LineRoundTrip` | src/test/java/silvertip/samples/pingpong/PingPongMessageParser.java:31-41 | a line written at the position, `\n` and all, is read back whole with the position just past it |
| `PingPong.PingPongKeepsContract` | src/main/java/silvertip/MessageParser.java:21-48 | the ping-pong parser honours the `MessageParser` contract, advances and spans exactly the bytes passed over |
| `Delimited.Scan` | src/silvertip/DelimitedMessageParser.java:22-29 | the framing loop's position ends between where it began and the limit |
| `Delimited.Process` | src/silvertip/DelimitedMessageParser.java:20-31 | the index loop yields the lines `Lines` frames, in order, with the position at the first partial line |
| `Delimited.ParseMessages` | src/silvertip/DelimitedMessageParser.java:8-13 | flip, frame, compact: the messages framed from what was written, with the unframed tail at the front of the buffer |
| `Delimited.ParseStrings` | src/silvertip/DelimitedReceiveBuffer.java:8-13 | the same for the string-returning copy |
| `Delimited.ScanMeaning` | src/silvertip/DelimitedMessageParser.java:22-29 | the scan frames lines ending in their only `\n`, which together are exactly the bytes consumed, with no `\n` left after |
| `Delimited.LinesMeaning` | src/silvertip/DelimitedMessageParser.java:15-31 | the same for `process` from a position: every message ends in its only `\n`, they concatenate to the consumed prefix, and the position ends at the first partial message |
| `Delimited.ScanSkip` | src/silvertip/DelimitedMessageParser.java:22-24 | bytes without `\n` are passed over without changing what is framed |
| `Delimited.LinesUnique` | src/silvertip/DelimitedMessageParser.java:20-31 | lines written one after the other, followed by a tail without `\n`, are framed back exactly, the tail left |
| `Delimited.LinesUniqueAt` | src/silvertip/DelimitedMessageParser.java:22-29 | the same, from any position |
| `Delimited.ScanExtend` | src/silvertip/DelimitedMessageParser.java:22-29 | more bytes after the end change none of the lines already framed |
| `Delimited.ScanShift` | src/silvertip/DelimitedMessageParser.java:22-29 | behind a prefix the scan frames the same lines, shifted |
| `Delimited.LinesChunked` | src/silvertip/DelimitedMessageParser.java:8-13 | framing in put/parse/compact chunks frames the same lines as framing the whole stream at once |
| `MessageHeader.ReadHeader` | src/silvertip/MessageHeaderParser.java:45-54 | `header` leaves the position between where it began and the limit |
| `MessageHeader.NextTurn` | src/silvertip/MessageHeaderParser.java:19-34 | one turn of the loop either ends it with the mark at the turn's start, or moves the position forward |
| `MessageHeader.Frames` | src/silvertip/MessageHeaderParser.java:16-37 | the loop leaves the position between its start and the limit |
| `MessageHeader.MatchByteAt` | src/silvertip/MessageHeaderParser.java:56-58 | `match` is one relative get compared with the character |
| `MessageHeader.Header` | src/silvertip/MessageHeaderParser.java:45-54 | `header` as run equals `ReadHeader` |
| `MessageHeader.TakeTurn` | src/silvertip/MessageHeaderParser.java:19-34 | one turn as run equals `NextTurn`, with the mark at the turn's start |
| `MessageHeader.Process` | src/silvertip/MessageHeaderParser.java:16-37 | `process` as run yields the payloads, position and mark of `Frames`, or the exception that escaped |
| `MessageHeader.Parse` | src/silvertip/MessageHeaderParser.java:9-14 | flip, frame, compact: the messages, and the unframed tail at the front; NumberFormatException escapes before the compact |
| `MessageHeader.ParseIntOneByte` | src/silvertip/MessageHeaderParser.java:50 | a one-character `Integer.parseInt` gives the digit's value or fails |
| `MessageHeader.ReadHeaderMeaning` | src/silvertip/MessageHeaderParser.java:45-54 | `header` gives a length `n >= 0` exactly when the next four bytes are `L=n\|`, and then consumes exactly them |
| `MessageHeader.EncodedTurn` | src/silvertip/MessageHeaderParser.java:29-30 | a whole message frames its payload in one turn |
| `MessageHeader.CutTurn` | src/silvertip/MessageHeaderParser.java:21-33 | a message cut short in its header or its payload resets to the mark and ends the loop |
| `MessageHeader.FramesEncoded` | src/silvertip/MessageHeaderParser.java:16-37 | messages laid out back to back, then part of one, frame exactly the whole payloads, and the position stops at the part |
| `MessageHeader.FramesCut` | src/silvertip/MessageHeaderParser.java:18-34 | only part of a message left frames nothing and consumes nothing |
| `MessageHeader.EncodeRoundTrip` | src/silvertip/MessageHeaderParser.java:16-54 | the sender's layout read back: every whole message framed in order, a message in transit left for later |
| `MessageHeader.ReadHeaderExtend` | src/silvertip/MessageHeaderParser.java:45-54 | a header read that did not run out of bytes reads the same with more bytes |
| `MessageHeader.NextTurnExtend` | src/silvertip/MessageHeaderParser.java:19-34 | a turn that did not stop for want of bytes is taken alike with more bytes |
| `MessageHeader.FramesMarkFree` | src/silvertip/MessageHeaderParser.java:18-21 | once the loop starts its first turn, the mark it came in with no longer matters |
| `MessageHeader.FramesExtend` | src/silvertip/MessageHeaderParser.java:16-37 | more bytes after the end change none of the messages already framed |
| `MessageHeader.ReadHeaderShift` | src/silvertip/MessageHeaderParser.java:45-54 | behind a prefix a header reads the same, shifted |
| `MessageHeader.NextTurnShift` | src/silvertip/MessageHeaderParser.java:19-34 | behind a prefix a turn is the same, shifted |
| `MessageHeader.FramesShift` | src/silvertip/MessageHeaderParser.java:16-37 | behind a prefix the loop frames the same messages, shifted |
| `MessageHeader.FramesChunked` | src/silvertip/MessageHeaderParser.java:9-14 | framing in chunks, as flip/compact/read do, frames the same messages as framing the whole stream, so `L=3\|FO` then `O` yields `FOO` |
| `OldFix.MatchText` | src/silvertip/protocols/FixMessageParser.java:54-59 | `match` consumes exactly the literal on success, and on failure stops past the offending byte (Garbled) or at the limit |
| `OldFix.ValueText` | src/silvertip/protocols/FixMessageParser.java:61-70 | `value` consumes the value and its SOH, or underflows; it never reports Garbled |
| `OldFix.Field` | src/silvertip/protocols/FixMessageParser.java:28-31 | a tag then a value consumes both and the SOH |
| `OldFix.ReadHeader` | src/silvertip/protocols/FixMessageParser.java:27-41 | the rebuilt header text is as long as the bytes consumed, and the length is an `int` |
| `OldFix.ReadTrailer` | src/silvertip/protocols/FixMessageParser.java:43-52 | the rebuilt trailer is as long as the bytes consumed |
| `OldFix.OldParse` | src/silvertip/protocols/FixMessageParser.java:15-25 | underflow never escapes `parse`; Garbled carries no text or data and always consumes a byte |
| `OldFix.OldBody` | src/silvertip/protocols/FixMessageParser.java:18-24 | after the header, the body array and trailer: underflow becomes Partial, and Garbled carries nothing and consumes a byte |
| `OldFix.Match` | src/silvertip/protocols/FixMessageParser.java:54-59 | `match` as run equals `MatchText` |
| `OldFix.Value` | src/silvertip/protocols/FixMessageParser.java:61-70 | `value` as run equals `ValueText` |
| `OldFix.ReadField` | src/silvertip/protocols/FixMessageParser.java:28-31 | equal to `Field` |
| `OldFix.Header` | src/silvertip/protocols/FixMessageParser.java:27-41 | equal to `ReadHeader` |
| `OldFix.Trailer` | src/silvertip/protocols/FixMessageParser.java:43-52 | equal to `ReadTrailer` |
| `OldFix.Parse` | src/silvertip/protocols/FixMessageParser.java:15-25 | `parse` as run equals `OldParse` |
| `OldFix.Body` | src/silvertip/protocols/FixMessageParser.java:18-24 | the body array and `trailer` as run equal `OldBody` |
| `OldFix.FieldSpans` | src/silvertip/protocols/FixMessageParser.java:28-39 | a field read whole is the tag, the value and SOH that were in the buffer |
| `OldFix.FieldAt` | src/silvertip/protocols/FixMessageParser.java:28-31 | a field written as tag, value without SOH, SOH is read back |
| `OldFix.HeaderParts` | src/silvertip/protocols/FixMessageParser.java:27-41 | a header read whole is its two fields, rebuilt as read, with the BodyLength parsed |
| `OldFix.ParseParts` | src/silvertip/protocols/FixMessageParser.java:15-21 | a message read whole is the header, a body as long as BodyLength, and the CheckSum field |
| `OldFix.HeaderSpans` | src/silvertip/protocols/FixMessageParser.java:27-41 | the rebuilt header equals the bytes consumed |
| `OldFix.OldParseSpans` | src/silvertip/protocols/FixMessageParser.java:15-21 | the rebuilt message equals exactly the bytes consumed |
| `OldFix.HeaderAt` | src/silvertip/protocols/FixMessageParser.java:27-41 | two fields read whole, the second numeric, make the header |
| `OldFix.ParseAt` | src/silvertip/protocols/FixMessageParser.java:15-21 | a header, a body as long as it says and a CheckSum field make the message |
| `OldFix.BodyAt` | src/silvertip/protocols/FixMessageParser.java:18-21 | a body as long as BodyLength and a CheckSum field read whole give the header, body and trailer rebuilt |
| `OldFix.BodyMismatch` | src/silvertip/protocols/FixMessageParser.java:20 | a CheckSum tag that differs right after the body garbles the message at the first differing byte |
| `OldFix.OldBodyExtend` | src/silvertip/protocols/FixMessageParser.java:18-24 | the body and trailer, once read without underflow, read the same with more bytes after them |
| `OldFix.FrameFields` | src/silvertip/protocols/FixMessageParser.java:27-52 | each field and the body of a frame is read whole where the frame puts it |
| `OldFix.OldParseFrame` | src/silvertip/protocols/FixMessageParser.java:15-52 | a well-formed message is returned exactly as it arrived, with the position just past it, and with the payload length equal to BodyLength |
| `OldFix.FieldMismatch` | src/silvertip/protocols/FixMessageParser.java:54-58 | a byte that differs from the tag garbles the field just past it |
| `OldFix.BeginTagMismatch` | src/silvertip/protocols/FixMessageParser.java:28 | a message not starting with `8=` is Garbled |
| `OldFix.LengthTagMismatch` | src/silvertip/protocols/FixMessageParser.java:30 | a second field not starting with `9=` is Garbled |
| `OldFix.CheckSumTagMismatch` | src/silvertip/protocols/FixMessageParser.java:44 | a trailer not starting with `10=` right after the body is Garbled |
| `OldFix.CompareExtend` | src/silvertip/protocols/FixMessageParser.java:54-58 | a comparison that did not run out of bytes compares the same with more bytes |
| `OldFix.FieldExtend` | src/silvertip/protocols/FixMessageParser.java:61-70 | a field read that did not run out of bytes reads the same with more bytes |
| `OldFix.ReadHeaderExtend` | src/silvertip/protocols/FixMessageParser.java:27-41 | the same for the header |
| `OldFix.OldParseExtend` | src/silvertip/protocols/FixMessageParser.java:15-25 | more bytes change no outcome but Partial |
| `OldFix.PrefixPartial` | src/silvertip/protocols/FixMessageParser.java:22-24 | a message not yet wholly arrived is Partial |
| `Receiving.Receive` | src/main/java/silvertip/Connection.java:130-140 | the loop stops within the bytes and gathers only messages and Garbled reports |
| `Receiving.Messages` | src/main/java/silvertip/Connection.java:133 | the messages kept are no more than the items gathered |
| `Receiving.ReceiveSpans` | src/main/java/silvertip/Connection.java:130-140 | with a parser that spans what it passes over, the messages and Garbled data, end to end, are exactly the bytes consumed, in stream order |
| `Receiving.ReceiveStops` | src/main/java/silvertip/Connection.java:130-136 | the loop stops only at the end of the bytes, where the parser reports Partial (nothing of that message consumed), or where it throws |
| `Receiving.ReceiveStep` | src/main/java/silvertip/Connection.java:131-139 | a turn that gathers a message or a Garbled report goes on from the parser's position, with no reset |
| `Receiving.MessagesAppend` | src/main/java/silvertip/Connection.java:133 | the messages of two runs of items are those of each, in order |
| `Transmitting.Transmit` | src/main/java/silvertip/Connection.java:204-211 | `write(ByteBuffer)` ends Done, Stalled or Failed, and on an open channel consumes a reply whenever it does not end Done; on a closed channel it writes nothing, uses no reply and fails exactly when bytes remain |
| `Transmitting.TransmitStep` | src/main/java/silvertip/Connection.java:205-208 | a write that takes some bytes goes on with the rest of the buffer |
| `Transmitting.Drain` | src/main/java/silvertip/Connection.java:190-202 | `flush()` asks for write interest exactly when a write stalls, which needs a selection key, and fails with NullPointerException without one |
| `Transmitting.DrainStep` | src/main/java/silvertip/Connection.java:192-199 | one turn of `flush()`: the head is dropped only when fully written; otherwise the flush stops with what is left at the head |
| `Transmitting.Closing` | src/main/java/silvertip/Connection.java:175-180 | the drain loop of `close()` never ends on a stall |
| `Transmitting.ClosingTurn` | src/main/java/silvertip/Connection.java:177-178 | one turn of the drain loop of `close()`, by how its flush ends |
| `Transmitting.TransmitConserves` | src/main/java/silvertip/Connection.java:204-211 | what a write sent, followed by what is left, is the buffer; Done exactly when nothing is left |
| `Transmitting.DrainConserves` | src/main/java/silvertip/Connection.java:190-202 | a flush loses no byte and keeps FIFO order: what went out, followed by the queue left, is the queue; Done exactly when the queue is empty |
| `Transmitting.DrainKeepsTail` | src/main/java/silvertip/Connection.java:192-199 | a flush that stops keeps a non-empty head and, behind it, the buffers it had not reached, untouched |
| `Transmitting.ClosingConserves` | src/main/java/silvertip/Connection.java:175-180 | the drain loop of `close()` loses no byte and keeps the order, and either empties the queue or stops on an exception |
| `Transmitting.SteadyTransmit` | src/main/java/silvertip/Connection.java:204-211 | on a channel that always takes a byte, a write sends the whole buffer |
| `Transmitting.SteadyDrain` | src/main/java/silvertip/Connection.java:190-202 | on such a channel a flush sends the whole queue, in order, and empties it |
| `Transmitting.SteadyClosing` | src/main/java/silvertip/Connection.java:175-180 | on such a channel `close()` sends the whole queue in one flush |
| `Transmitting.FlushOrCloseConserves` | src/main/java/silvertip/Connection.java:158-162 | flush-then-close-on-IOException loses no byte, and leaves the queue non-empty only after a stall or an IOException |
| `Transmitting.ClosedDrain` | src/main/java/silvertip/Connection.java:190-211 | on a closed channel `flush()` sends nothing, uses no reply, keeps every queued byte, and fails exactly when a byte is queued |
| `Transmitting.ClosedFlushOrClose` | src/main/java/silvertip/Connection.java:158-162 | `send` after `close()` sends nothing, keeps every queued byte, and goes through `close()` again exactly when a byte is queued |
| `Connections.Channel.constructor` | src/main/java/silvertip/Connection.java:91-95 | a channel opens with nothing written and its replies and inbound bytes as given |
| `Connections.Channel.Write` | src/main/java/silvertip/Connection.java:206 | `channel.write`: on a closed channel IOException with nothing written and no reply used; otherwise the bytes the reply allows are appended to the wire and their count returned, or IOException |
| `Connections.Channel.Read` | src/main/java/silvertip/Connection.java:112-115 | `channel.read`: into a full buffer, no bytes and nothing else; otherwise as many arrived bytes as fit, end of stream, or IOException |
| `Connections.Raised` | src/main/java/silvertip/Connection.java:194-197 | a flush throws IOException exactly when a write failed |
| `Connections.Reports` | src/main/java/silvertip/Connection.java:137-139 | one `garbledMessage` call at most per item |
| `Connections.ReportsAppend` | src/main/java/silvertip/Connection.java:137-139 | the reports of two runs of items are those of each, in order |
| `Connections.Delivery` | src/main/java/silvertip/Connection.java:116-120 | `messages` is called exactly when the parse returned and framed at least one message |
| `Connections.Connection.constructor` | src/main/java/silvertip/Connection.java:49-54 | a new connection has an empty 4096-byte receive buffer, an empty queue and no events |
| `Connections.Connection.Read` | src/main/java/silvertip/Connection.java:107-125 | `read(key)`: nothing on a closed channel or into a full receive buffer; end of stream or IOException closes; bytes read are parsed with every Garbled report and, when there are messages, one `messages` call, the tail compacted; zero bytes does nothing; an exception escaping the parser leaves the buffer flipped over the bytes, with the position where the parser stopped |
| `Connections.Connection.Deliver` | src/main/java/silvertip/Connection.java:116-120 | the events and receive buffer after parsing the buffered bytes and the bytes read, including the flipped buffer an escaping parser exception leaves |
| `Connections.Connection.ParseReceived` | src/main/java/silvertip/Connection.java:127-143 | `parse()` returns the messages of the receive loop in stream order, reports each Garbled one, and compacts exactly the unconsumed bytes to the front |
| `Connections.Connection.ParseAll` | src/main/java/silvertip/Connection.java:130-140 | the loop over the flipped buffer gathers what `Receive` gathers and leaves the position where it stops |
| `Connections.Connection.ParseOne` | src/main/java/silvertip/Connection.java:131-136 | mark, parse, and reset on Partial so no byte of an incomplete message is consumed |
| `Connections.Connection.WriteHead` | src/main/java/silvertip/Connection.java:204-211 | `write(ByteBuffer)` on the head of the queue puts `Transmit`'s bytes on the wire and leaves the rest at the head |
| `Connections.Connection.WriteOnce` | src/main/java/silvertip/Connection.java:205-208 | one `channel.write` of the head, and how it extends to the whole write |
| `Connections.Connection.Flush` | src/main/java/silvertip/Connection.java:190-202 | `flush()` puts `Drain`'s bytes on the wire in order, leaves its queue, adds write interest on a stall and throws on a failed write |
| `Connections.Connection.Close` | src/main/java/silvertip/Connection.java:175-188 | `close()` drains as `Closing` does, then closes the channel and cancels the key, or throws NullPointerException when never registered |
| `Connections.Connection.FlushAll` | src/main/java/silvertip/Connection.java:176-180 | the drain loop of `close()` equals `Closing` |
| `Connections.Connection.Send` | src/main/java/silvertip/Connection.java:153-163 | `send` reports the buffer and appends it to the tail of the queue, then throws IllegalStateException when never registered, else flushes and closes on IOException |
| `Connections.Connection.WriteReady` | src/main/java/silvertip/Connection.java:165-173 | `write(key)` flushes, closes on IOException, and drops write interest when the queue is empty; on a cancelled key that last step throws CancelledKeyException and the interest stays as the flush left it |
| `Connections.Connection.FlushThenClose` | src/main/java/silvertip/Connection.java:158-162 | flush, and close when it throws IOException, as `FlushOrClose` says |
| `Connections.Connection.Timeout` | src/main/java/silvertip/Connection.java:213-215 | `timeout()` makes exactly one `idle` call |

## Left out

- Sockets, selectors and clocks. The channel is a script of write replies and a queue of inbound bytes. A selector's readiness is a call to `Read` or `WriteReady`. `selector().wakeup()` and `attach(null)` are not modelled.
- `connect`, `accept`, `attemptToConnect`, `register`, `unregister`, `isClosed` and `accept(SelectionKey)` are not modelled. They set up or tear down sockets and keys. Registration is a constant of the connection.
- `Events`, `Server`, `SocketChannels` and the sample clients and servers are not part of this model. Of `SocketChannels.close`, only the closing of the channel is kept.
- Concurrency is not modelled: the `synchronized` list and block around the transmit queue. Each method runs alone.
- Callbacks are a log of `Event`s, in call order. `connected` and `closed` belong to `register` and `unregister`, which are left out.
- `new String(bytes)` and `String.getBytes()` depend on the platform charset, which is not modelled. The string-returning framers take the conversion as a function parameter.
- `OldFix.OldParse`: the message is rebuilt from the bytes read, not through a Java `String` and back. That agrees with the source only for ASCII bytes (below 128). For other bytes, the source's result depends on the charset.
- `FixSpec.Label` and `Complaint.Text`: the exception texts are datatypes rather than formatted strings. `Tag.toString()`'s `%s(%d)` formatting is written out.
- MsgType (tag 35) is declared in the current FIX parser but never used, so it is not modelled. `FixMessage` is not part of this model.
- `Connections.Connection.ParseReceived`: the parser is required to advance the position whenever it returns a message or reports Garbled. A parser that does not makes the source loop forever, and the model does not represent that loop.
- `Connections.Connection.Read`: same requirement on the parser as `ParseReceived`.
- `Connections.Connection.ParseReceived`: after a runtime exception escapes the parser, the mark is left as the model's `position(n)` leaves it. The mark the parser itself set is not modelled, because the contract forbids parsers to set one.
- `Transmitting.Closing`: in the source, the drain loop of `close()` spins for ever on a channel that keeps answering 0. The model's script of replies is finite, and a channel with no replies left takes everything. So the model's loop always ends.
- `Connections.Channel.Write`: same finite-script limitation as `Transmitting.Closing`.
- `Connections.Connection.Flush`: a stalled write sets write interest and does not model the CancelledKeyException that `interestOps` throws on a cancelled key. In the model, the key is cancelled only by `close()`, which also closes the channel, so a later write fails with IOException before it can stall.
- `Parsing.Honours`, `FixProperties.FixParseKeepsContract`: the rule of MessageParser.java:36-41 that a parser which has called `reset()` must not then throw Partial or Garbled is not encoded. The FIX parser breaks it on every Garbled path: it resets to the mark and rethrows (src/main/java/silvertip/protocols/FixMessageParser.java:22-28). The break is harmless, because `Connection.parse` does not reset on Garbled.
- `Buffers.ByteBuffer`: only heap buffers, and only the operations the framers use. The limit is set by `flip` and by allocation. Read-only and direct buffers are not modelled.
