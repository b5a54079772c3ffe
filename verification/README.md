# fannynet: verified model of its buffers, framing, RESP parsers and event queue

fannynet is a small TCP library. This project models the parts that decide what a user of the library
sees: the byte buffer everything is built on, the length-prefixed framing, the two incremental parsers of
Redis replies (RESP2) with the command printer and the re-encoder, and the event queue with the two
indexes of online connections. `dafny verify dfyconfig.toml` checks all of it.

Code that updates objects is modelled by classes with the same fields (`NetBuffer`, `NetBlock`,
`Connection`, `RedisParse`, `RedisBlock2`, `RedisBlock`, `IoObjectPool`, `TcpObj`, `NetService`). Each
method is proved against a function on values in a `...Spec` module, and the theorems are about those
functions.

| file | module | content |
|---|---|---|
| bytes.dfy, decimal.dfy | `Bytes`, `Decimal` | bytes, little-endian PODs, `memchr`, decimal printing, `lexical_cast<int>` |
| buffer_spec.dfy, net_buffer.dfy | `BufferSpec`, `NetBuffers` | the buffer as a value and over runs; the class over an array |
| frame_spec.dfy, block.dfy, connection.dfy | `FrameSpec`, `Blocks`, `Connections` | framing; `NetBlock`; the read loop |
| resp_spec.dfy, resp_fragments.dfy, resp_grammar.dfy | `RespSpec`, `RespFragments`, `RespGrammar` | the parser as a step function; what a cut does to it; encodings |
| resp_elements.dfy, resp_replies.dfy, resp_cuts.dfy | `RespElements`, `RespReplies`, `RespCuts` | elements of arrays, aligned or not; whole replies; one reply in fragments |
| resp_bytes.dfy | `RespBytes` | the protocol in bytes and numerals, without the printers and constants of the model |
| resp_pipeline.dfy, resp_spoiled.dfy, resp_room.dfy | `RespPipeline`, `RespSpoiled`, `RespRoom` | streams of replies; streams cut inside an element; room in the receive buffer |
| redis_parser.dfy, redis_connection.dfy, redis_command.dfy | `RedisParsers`, `RedisConnections`, `RedisCommands` | `RedisParse`, `RedisBlock2`; the read loop with it; `makeCommand` |
| redis_block_spec.dfy, redis_block.dfy, redis_bisimulation.dfy | `RedisBlockSpec`, `RedisBlocks`, `RedisBisimulation` | `RedisBlock`, its result buffer, and its agreement with `RedisParse` |
| redis_results.dfy | `RedisResults` | result buffers byte by byte, from the wire to the client |
| session_spec.dfy, service.dfy | `SessionSpec`, `Services` | events and sessions as a state machine; the classes |

## Where the code does less than it intends

Each of these is proved, with the exact condition under which the code does what it is for.

- A delivery cut inside an array element is misread on resume: the parser starts over at "read a header
  line". `ReplyInFragments` proves for every well-formed reply, whatever follows it, that a schedule of chunks
  reads it if and only if no cut falls from the end of an element's header line up to before the end of its
  payload CRLF; `OneCut` is the same for one cut, and `CutExample` the cut `*1 CRLF $1 CRLF | A CRLF`, which
  fails. `StreamInFragments` is the same for streams: all replies are posted if and only if no cut is inside an
  element. `HarmlessCut` is the condition for arbitrary bytes and all their continuations.
- An element of an array is taken for a bulk string whatever its type byte (`TypeByteIgnored`). So an integer, a
  status or an error in an array is misread, often together with the replies behind it (`IntegerElement`,
  `NumberExample`: `*1 CRLF :5 CRLF`), a -1 is listed as a null (`MinusOneElement`), and an array in an array
  becomes a string (`NestedElement`, `NestedExample`). `ElementsRead` proves that an array is read if and only if
  its elements are bulk strings that fit and nulls; a list of strings has no place for an array within an array.
- A receive buffer has a fixed size, 65535 bytes by default, and `RedisParse` leaves an unfinished line in
  it. Once such a line fills the buffer nothing more can be read (`StalledForGood`). `RoomExactly` proves that
  this never happens in a stream of replies if and only if no line of it, CRLF included, is longer than the
  buffer; payloads may be. The theorems on streams speak of chunks that were delivered, so they hold as far as
  there is room. The loops over `NetBlock` and `RedisBlock` always have room (`LessThanHeadLeft`, `BlockDrive`).
- `*0` is never finished (`ReplyFinished`, `EmptyArrayNeverDone`).
- `RedisBlock` throws on an integer reply beyond `int`, which `RedisParse` reports; it reads everything else alike
  (`BlockReadsReply`, `BlockInFragments`, `SamePipeline`).
- A callback that polls runs newer events before the rest of its own batch. Events are executed in push order if
  and only if no poll does so (`EventDelivery`); none is lost in any case (`NothingLost`).
- An error text loses three bytes behind the `-`, four with it, though the comment beside it names the five
  bytes of "-ERR "; shorter error lines throw. So no error is reported by its message: `ReplyRoundTrip` holds of
  a well-formed reply if and only if it is no error, `ErrorText` says that "-ERR " followed by a message is
  reported as a space and the message, and `ErrorKeepsSpace` is the line "-ERR no". Where the theorems below
  speak of what is reported, errors are reported in this shortened form (`Reported`, `Finishes`).
- A null is listed as a sentinel text, so a real string equal to it cannot be told from a null
  (`SentinelUnambiguous`).
- A sending block that was never pushed to carries an all-zero head, which a receiver cannot read
  (`SendNeedsPush`). A frame of 2^32 bytes or more announces a truncated length (`FrameRoundTrip`).
- `readBuffer` towards a locked target with room drops the bytes it has taken (`TransferConserves`).
- All runs that have made k connections leave the two indexes in agreement if and only if there are k ids
  (`AgreementBound`).

## Conventions

Assertions have their release meaning: `MYASSERT` and `assert` do nothing, and the code after them decides.
An exception, and an `int` overflow, is the outcome `Failed` (or `None` from a method); nothing is claimed
about an object after it. The read loop is that of `Connection::handleReadSome`, lines 77-98 of src/connection.cpp:
append what arrived, let the waiting block read, hand it over when it is done and start a new one, until the buffer
is empty or a block stays incomplete. src/connection.cpp is not UTF-8 text, so the rows about it give the
declaration at src/connection.h:35 as their source. Little-endian PODs and a 12-byte head with two padding bytes are assumed.

## Model

| member | source | states |
|---|---|---|
| Decimal.LexicalPrint | src/redisblock.cpp:158-163 | what `ostream << n` prints, `lexical_cast<int>` reads as `n`, if and only if `n` is an `int` |
| Decimal.PrintExactly | src/redisblock.cpp:158-163 | what `ostream << n` prints is the one shortest decimal numeral of n in positional notation, behind a '-' (45) if and only if n is negative |
| Decimal.LexicalExactly | include/redisparser.h:133-145 | `lexical_cast<int>` reads exactly the decimal numerals, alone or behind one '+' or '-', of numbers from -2147483648 to 2147483647, each as its positional value |
| Bytes.LeIntRoundTrip | include/net_buffer.h:82-87 | an `int` POD read back is the one written, if and only if it was an `int` |
| Bytes.Le32Bytes | include/net_buffer.h:82-87 | an `unsigned int` POD is stored low byte first, modulo 2^32 |
| BufferSpec.TransferConserves | src/net_buffer.cpp:94-103 | `readBuffer` conserves target content and unread bytes exactly unless the target is locked, has room and bytes are waiting |
| BufferSpec.AmortisedGrowth | src/net_buffer.cpp:105-116 | over every run from `NetBuffer(n)`: all copying fits in the present capacity, k reallocations multiplied it by 2^k, and it never exceeds twice the largest request |
| BufferSpec.CapacityExact | src/net_buffer.cpp:105-116 | after every run the capacity is the first one or exactly twice a length asked for, and while the buffer is not locked everything asked for fits |
| BufferSpec.CostExact | src/net_buffer.cpp:105-116 | every change of capacity moves the whole content, and nothing else is moved |
| BufferSpec.GrowthExample | src/net_buffer.cpp:105-116 | 20 bytes into a buffer of 8 make it one of 40, which is kept for 20 more and becomes 82 for the next |
| BufferSpec.InFront | src/net_buffer.cpp:90-93 | bytes put in front begin the content, what was there follows, and from an unread buffer they are read first |
| BufferSpec.ResetAsNew | src/net_buffer.cpp:70-75 | whatever is done next, a reset buffer does what a new one of its capacity does; a locked one is not reset |
| BufferSpec.FirstInFirstOut | src/net_buffer.cpp:50-69 | any run of appends, reads and compactions is a queue: bytes read out and unread are the bytes put in, in order |
| BufferSpec.LockedStep | src/net_buffer.cpp:64-142 | the only operation that changes the bytes of a full locked buffer is a compaction with something read |
| BufferSpec.LockStability | src/net_buffer.cpp:64-142 | no run without compaction changes bytes or capacity of a full locked buffer |
| NetBuffers.NetBuffer.constructor | src/net_buffer.cpp:21-28 | a new buffer is empty, unlocked and has the capacity asked for |
| NetBuffers.NetBuffer.ReadData | src/net_buffer.cpp:56-62 | hands out the next `len` bytes and advances, or null and no change when they are not there |
| NetBuffers.NetBuffer.WriteData | src/net_buffer.cpp:50-55 | takes bytes written behind the content when they fit, else refuses |
| NetBuffers.NetBuffer.ClearReadBuffer | src/net_buffer.cpp:64-69 | keeps exactly the unread bytes, moved to the front |
| NetBuffers.NetBuffer.Reset | src/net_buffer.cpp:70-75 | empties an unlocked buffer, capacity kept |
| NetBuffers.NetBuffer.Resize | src/net_buffer.cpp:105-116 | contents survive reallocation to twice the length asked for; nothing happens when it fits or the buffer is locked |
| NetBuffers.NetBuffer.Tail | src/net_buffer.cpp:117-124 | appends, unless locked |
| NetBuffers.NetBuffer.Head | src/net_buffer.cpp:125-133 | prepends by moving the content in place, unless locked |
| NetBuffers.NetBuffer.TailData | src/net_buffer.cpp:81-84 | appends across a reallocation |
| NetBuffers.NetBuffer.HeadData | src/net_buffer.cpp:90-93 | prepends across a reallocation |
| NetBuffers.NetBuffer.SetHead | src/net_buffer.cpp:134-142 | overwrites the first bytes of a content long enough, else changes nothing |
| NetBuffers.NetBuffer.ReadBuffer | src/net_buffer.cpp:94-103 | moves min(unread, room) bytes to the target; nothing towards itself |
| FrameSpec.HeadRoundTrip | src/block.h:23-31 | a head within its field widths reads back as itself |
| FrameSpec.FrameBytes | src/block.cpp:51-58 | a frame is its length, low byte first and modulo 2^32, eight zero bytes, and the payload |
| FrameSpec.SentExample | src/block.cpp:31-44 | without a push twelve zero bytes are held; the literal heads of a push of one byte and of two pushes of three bytes |
| FrameSpec.ForeignFrame | src/block.cpp:60-87 | a whole frame with any head is delivered whatever its mask, taking exactly its bytes, but `recv` returns false for a nonzero check; a length below 12 is refused |
| FrameSpec.ReceivedExample | src/block.cpp:60-87 | which of the twelve bytes of a head matter: length first, mask and padding ignored, check last |
| FrameSpec.FrameRoundTrip | src/block.cpp:51-87 | one frame is received as its payload, taking exactly its bytes, if and only if its length is below 2^32 |
| FrameSpec.SendNeedsPush | src/block.cpp:31-44 | what a sending block holds is received as the pushes put together, if and only if there was a push; otherwise it is refused |
| FrameSpec.RecvHeadSplit | src/block.cpp:60-87 | one `recv` on bytes that arrive together does what two do on the parts |
| FrameSpec.FragmentationFree | src/block.cpp:45-87 | the read loop gives the same posts, waiting block and leftover bytes however a stream is cut |
| FrameSpec.LessThanHeadLeft | src/block.cpp:60-87 | the read loop leaves less than a head unread, so a connection of `NetBlock`s always has room for more |
| FrameSpec.PartialFrame | src/block.cpp:60-87 | a frame short of its last byte posts nothing and loses nothing |
| FrameSpec.FramingOverFragmentation | src/block.cpp:31-87 | for every list of messages, every part of their frames and every cutting: exactly the complete frames are posted, in order, and posted frames, held bytes and unread bytes are the stream |
| FrameSpec.FramingComplete | src/block.cpp:31-87 | when all bytes have arrived all messages have been posted and nothing is left |
| FrameSpec.PayloadStable | src/block.cpp:79-83 | a delivered payload is unchanged by every run of operations but compaction |
| FrameSpec.BodyByTransfer | src/block.cpp:73-87 | the body step is one `readBuffer` and one compaction |
| Blocks.NetBlock.constructor | src/block.cpp:28-34 | a sending block holds a zero head, a block of size 0 is ready to receive |
| Blocks.NetBlock.Push | src/block.cpp:38-44 | a sending block holds the frame of all its pushes in order, head brought up to date |
| Blocks.NetBlock.Encrypt | src/block.cpp:51-58 | writes the head for the present length modulo 2^32, mask and check 0, over the first 12 bytes |
| Blocks.NetBlock.Clone | src/block.cpp:20-27 | a fresh block with the same bytes, head and state for another session |
| Blocks.NetBlock.Recv | src/block.cpp:45-50 | one call takes from the buffer, and reports, what the receiver step says |
| Blocks.NetBlock.TakeHead | src/block.cpp:60-71 | takes the head once 12 bytes are there, otherwise nothing |
| Blocks.NetBlock.RecvInBody | src/block.cpp:73-87 | fills the body, and locks it and reports when it is full |
| Connections.Connection.ReadMessage | src/connection.h:35 | one block reads; finished it is handed over, otherwise it waits (body: lines 77-98 of src/connection.cpp) |
| Connections.Connection.HandleReadSome | src/connection.h:35 | one chunk turns the connection into what the read loop says, blocks in place, and leaves less than 12 bytes in the buffer (body: lines 77-98 of src/connection.cpp) |
| RespSpec.RenderSnoc | include/redisparser.h:121-137 | pushing a value on the list shows it at the end, a null as the sentinel |
| RespBytes.TypeBytes | include/redisparser.h:46-63 | the type of a line is decided by its first byte, '+', '-', ':', '$' or '*' |
| RespBytes.TrimExactly | include/redisparser.h:65-69 | a line loses all CR and LF bytes at its end and no other byte |
| RespBytes.NumbersAccepted | include/redisparser.h:133-151 | lengths from -1 to 2147483645 and counts from -1 to 2147483647 are accepted, as decimal numerals, and no others |
| RespBytes.BulkBytes | include/redisparser.h:132-168 | '$', any numeral and CRLF: a null for -1, otherwise exactly that many bytes and two more, or waiting for them; failure out of range |
| RespBytes.CountBytes | include/redisparser.h:143-154 | '*', any numeral and CRLF: a null array for -1, otherwise waiting for elements; failure out of range |
| RespBytes.ElementBytes | include/redisparser.h:173-187 | an element is any byte, a numeral, CRLF and so many bytes and two more; -1 lists a null |
| RespBytes.NullBulkExample | include/redisparser.h:134-138 | "$-1 CRLF", whatever follows, is a null bulk string with exactly the rest left |
| RespBytes.NullArrayExample | include/redisparser.h:145-148 | "*-1 CRLF", whatever follows, is an array without values with exactly the rest left |
| RespBytes.NullElementExample | include/redisparser.h:176-178 | arrays of the one element "$-1 CRLF" or "*-1 CRLF" list a null |
| RespBytes.LineExamples | include/redisparser.h:120-131 | the status "+OK" and the integer ":-5" |
| RespBytes.TenBytesExample | include/redisparser.h:134-141 | "$10 CRLF" announces ten bytes |
| RespBytes.ArrayExample | include/redisparser.h:169-193 | a literal array of a string, a null and a string is listed in that order |
| RespSpec.SentinelUnambiguous | include/redisparser.h:34 | nulls can be told from strings in the list exactly when no string is the sentinel text |
| RespFragments.ParseMore | include/redisparser.h:102-226 | a finished reply is unmoved by later bytes, a failure stays one, and outside array elements resuming is reading at once |
| RespFragments.HarmlessCut | include/redisparser.h:159-226 | for every state and bytes: resuming agrees with one delivery for all continuations if and only if the bytes do not end inside an array element |
| RespFragments.CutWitness | include/redisparser.h:169-195 | for every state and bytes that end inside an array element there are bytes, not necessarily those of a reply, that resuming and one delivery read differently |
| RespFragments.FragmentsAsOne | include/redisparser.h:102-226 | every schedule of chunks whose cuts are harmless ends in the state, reply and leftover of one delivery |
| RespGrammar.LineRoundTrip | include/redisparser.h:198-211 | a line reads back as itself, leaving exactly what follows, if and only if its text has no LF and ends in no CR |
| RespElements.TypeByteIgnored | include/redisparser.h:173-176 | whatever its type byte, a line at an element is read as the header of a bulk string |
| RespElements.TakesMore | include/redisparser.h:169-193 | a turn that reads an entry after bytes of its element are gone, or the entry of an element that is no string and no null, takes bytes from behind the element |
| RespElements.BehindRun | include/redisparser.h:169-193 | once a run of elements is behind, whatever it reads, it ends with other values or with bytes of what follows gone |
| RespElements.ElementsRead | include/redisparser.h:169-193 | for elements of all types but arrays, a run has exactly their entries and exactly the rest left if and only if each is a bulk string that fits or a null |
| RespReplies.ReplyFinished | include/redisparser.h:102-197 | any reply of the protocol, arrays of replies of all types included, followed by anything, is finished, errors shortened, with exactly the rest left, if and only if it is well formed |
| RespReplies.ReplyRoundTrip | include/redisparser.h:102-197 | any reply of the protocol followed by anything is read as itself with exactly the rest left, if and only if it is well formed and no error |
| RespReplies.IntegerElement | include/redisparser.h:173-184 | an array of the one integer n takes the next n + 2 bytes of the stream for its value, or waits for them |
| RespReplies.MinusOneElement | include/redisparser.h:173-178 | the integer -1 in an array is listed as a null |
| RespReplies.NestedElement | include/redisparser.h:173-184 | an array in an array is taken for a string: its count for the length, what it holds for the payload |
| RespReplies.NumberExample | include/redisparser.h:169-193 | "*1 CRLF :5 CRLF" is not finished by its own bytes, and takes its value from two replies "OK" behind it |
| RespReplies.NestedExample | include/redisparser.h:169-193 | an array of the array of the string "A" is read as an array of the string "$", with bytes of it left |
| RespReplies.ErrorText | include/redisparser.h:124-127 | what is reported of an error is neither its message nor its whole text; a message behind "ERR " gets a space in front |
| RespReplies.ErrorReported | include/redisparser.h:124-127 | an error line, well formed or not, is never read as its message |
| RespReplies.ErrorKeepsSpace | include/redisparser.h:124-127 | the line "-ERR no", which says "no", is reported as " no" |
| RespReplies.UnknownReply | include/redisparser.h:115-119 | a line of unknown type finishes at once without values |
| RespReplies.SelfDelimiting | include/redisparser.h:102-226 | no proper prefix of a well-formed reply is done or fails |
| RespReplies.PrefixFree | include/redisparser.h:102-226 | one well-formed encoding is a prefix of another only if they encode the same reply |
| RespReplies.EmptyArrayUnfinished | include/redisparser.h:169-193 | an array announced with count 0 is not finished by any bytes |
| RespReplies.EmptyArrayNeverDone | include/redisparser.h:169-193 | nor by any schedule of further chunks |
| RespCuts.CutPosition | include/redisparser.h:169-195 | the harmful cuts of a well-formed reply are exactly the positions from the end of an element's header line to before the end of its payload CRLF |
| RespCuts.NotAnArray | include/redisparser.h:159-197 | replies of other types have no harmful cut |
| RespElements.LateHeader | include/redisparser.h:173-176 | a header line that has lost its first bytes never announces the same length |
| RespCuts.SpoiledReply | include/redisparser.h:169-195 | after a cut inside an element no schedule of the remaining bytes, whatever follows them, still reads the reply |
| RespCuts.ReplyInFragments | include/redisparser.h:102-226 | a well-formed reply, followed by anything and arriving in any chunks, is read with exactly the rest left if and only if no cut is inside an element |
| RespCuts.OneCut | include/redisparser.h:102-226 | the same for one cut |
| RespCuts.CutExample | include/redisparser.h:169-195 | the array of the one string "A" is read whole, and fails when cut behind the header line of its element |
| RespPipeline.DriveMore | src/redisblock.h:89-100 | the read loop on more bytes goes on as if all had come at once, unless it stopped inside an element |
| RespPipeline.Pipelining | src/redisblock.h:89-100 | of a stream that begins with well-formed replies exactly these are posted, and the loop stands where a fresh parser given only the tail would |
| RespPipeline.PipelineTail | src/redisblock.h:89-100 | an incomplete reply at the end posts nothing and is kept |
| RespPipeline.StreamCutPosition | src/redisblock.h:89-100 | the positions in a stream of replies at which the loop stops inside an array element |
| RespPipeline.PipelineOverFragments | src/redisblock.h:89-100 | for every part of a stream of replies and every cutting of it outside array elements, by position: exactly the complete replies are posted, in order, and the parser at work is a fresh one given the rest |
| RespPipeline.AnyFragmentation | src/redisblock.h:89-100 | for streams without arrays the same over every cutting |
| RespSpoiled.LateParse | include/redisparser.h:102-226 | once bytes of a reply are gone, a call that reports this reply nevertheless has taken bytes from behind it |
| RespSpoiled.StreamInFragments | src/redisblock.h:89-100 | a complete stream of well-formed replies, in any chunks: all of them are posted in order if and only if no cut is inside an array element; then nothing else is posted and nothing is left |
| RespRoom.DriveLeavesLine | include/redisparser.h:198-211 | what the loop leaves in the buffer, whatever arrives, is an unfinished line, and nothing while a bulk payload is read |
| RespRoom.StalledForGood | src/connection.h:28 | what is left gives nothing without more bytes, so a full buffer stays full |
| RespRoom.StreamUnreadExact | include/redisparser.h:198-226 | how many bytes are left unread at every position of a stream of replies |
| RespRoom.RoomExactly | src/connection.h:28 | a receive buffer never fills up with unread bytes of a stream of replies if and only if no line of it is longer than the buffer |
| RespRoom.AlwaysRoom | src/connection.h:28 | the same for every cutting outside array elements: the next chunk finds room |
| RedisParsers.RedisParse.Parse | include/redisparser.h:102-109 | one call, on the object, does what the parser step says and never reads past the reply |
| RedisParsers.NullShown | include/redisparser.h:34 | "$-1 CRLF" is listed as the text "**missing-key**" |
| RedisParsers.RedisParse.ParseType | include/redisparser.h:111-157 | the first line fixes type and pending sizes, or finishes the reply, or nothing is consumed |
| RedisParsers.RedisParse.ParseBulk | include/redisparser.h:159-197 | reads the payload or elements as far as the bytes go; the element loop ends because every turn consumes |
| RedisParsers.RedisParse.TakeLine | include/redisparser.h:198-211 | takes a whole line with what was kept before it, or nothing |
| RedisParsers.RedisParse.TakeBytes | include/redisparser.h:212-226 | keeps or completes the pending bytes; pending length always exceeds what is kept, so the subtraction never wraps |
| RedisParsers.RedisParse.TakeValue | include/redisparser.h:180-184 | an element's payload is read with nothing kept from before |
| RedisParsers.RedisBlock2.Recv | src/redisblock.h:89-100 | drops from the buffer exactly what the parser consumed and follows its completion |
| RedisConnections.RedisConnection.ReadMessage | src/connection.h:35 | one `parse`; a finished parser is posted, an unfinished one waits (body: lines 77-98 of src/connection.cpp) |
| RedisConnections.RedisConnection.HandleReadSome | src/connection.h:35 | one chunk, as long as there is room for it, turns the connection into what the read loop says; what stays in the buffer is an unfinished line (body: lines 77-98 of src/connection.cpp) |
| RedisCommands.MakeCommand | src/redisblock.cpp:154-166 | prints the array of bulk strings of command and arguments |
| RedisCommands.CommandRoundTrip | src/redisblock.cpp:154-166 | any printed command with anything behind it is parsed in one delivery to exactly its strings and the rest, if and only if count and lengths fit |
| RedisCommands.CommandExample | src/redisblock.cpp:154-166 | the bytes of every command of three bytes with one argument of ten, and what they are parsed to |
| RedisCommands.GetExample | src/redisblock.cpp:154-166 | all bytes of "GET 0123456789", and what they are parsed to |
| RedisBlockSpec.ReadSized | src/redisblock.cpp:195-291 | however a reply is resumed, nulls included, `m_recvSize` is the size of the re-encoding of what was read |
| RedisBlockSpec.ExactSize | src/redisblock.cpp:115-153 | made with that size, the result buffer is exactly full and was never reallocated |
| RedisBlockSpec.FinishedBuffer | src/redisblock.cpp:115-153 | a finished block hands over the serialized reply in such a buffer |
| RedisBlockSpec.ItemsRoundTrip | src/redisblock.cpp:142-148 | the length-prefixed strings of an array read back as the list |
| RedisBlockSpec.ResultRoundTrip | src/redisblock.cpp:115-153 | the result buffer reads back as the type and the values or number of the reply |
| RedisResults.ResultBytes | src/redisblock.cpp:115-153 | the result buffer of every finished block begins with the type number, low byte first (status 1, error 2, integer 3, bulk 4, array 5, unknown 0); text, two's complement number, or count and length-prefixed strings follow |
| RedisResults.StatusDelivered | src/redisblock.cpp:122-126 | "+OK" on the wire is handed over as the bytes 1 0 0 0 'O' 'K' |
| RedisResults.ErrorDelivered | src/redisblock.cpp:127-131 | "-ERR no" is handed over as 2 0 0 0 and " no" |
| RedisResults.IntegerDelivered | src/redisblock.cpp:132-136 | ":5" is handed over as 3 0 0 0 5 0 0 0 |
| RedisResults.NegativeDelivered | src/redisblock.cpp:132-136 | ":-5" is handed over in two's complement |
| RedisResults.NullDelivered | src/redisblock.cpp:36 | a null is handed over as the text "**nonexistent-key**" |
| RedisResults.ArrayDelivered | src/redisblock.cpp:142-149 | a literal array of two strings and the nineteen bytes it is handed over as |
| RedisBlocks.RedisBlock.MakeRedisBuffer | src/redisblock.cpp:115-153 | makes the result buffer append by append; fails exactly for an integer text that is no `int` |
| RedisBlocks.RedisBlock.Recv | src/redisblock.cpp:180-296 | one call, on the object, does what the block step says and makes the result of a finished reply |
| RedisBlocks.RedisBlock.Read | src/redisblock.cpp:180-296 | the same up to the re-encoding |
| RedisBlocks.RedisBlock.RecvType | src/redisblock.cpp:185-247 | the first line fixes type and sizes or finishes the reply |
| RedisBlocks.RedisBlock.RecvElements | src/redisblock.cpp:259-292 | the element loop, which ends because every turn consumes |
| RedisBlocks.RedisBlock.Readline | src/redisblock.cpp:311-327 | takes a whole line, or everything there is |
| RedisBlocks.RedisBlock.ReadLen | src/redisblock.cpp:297-310 | keeps or completes the pending bytes; the subtraction never wraps |
| RedisBisimulation.SameLine | src/redisblock.cpp:311-327 | both parsers find the same line though they keep its beginning in different places |
| RedisBisimulation.SameStep | src/redisblock.cpp:180-296 | after every call both parsers have type, counts, pending length, values, completion and bytes in hand in common, or fail together; only a bad integer fails in `RedisBlock` alone |
| RedisBisimulation.Bisimulation | src/redisblock.cpp:180-327 | the same for every stream and every cutting of it, harmful cuts included, up to the first finished reply |
| RedisBisimulation.SamePipeline | src/redisblock.cpp:180-327 | the read loops over both parsers, for every stream and cutting: the same replies posted in the same order and states alike, or both failed; only at a bad integer the loop over `RedisBlock` has failed and the other posted it |
| RedisBisimulation.BlockDrive | src/redisblock.cpp:297-327 | the loop over `RedisBlock` leaves no byte in the receive buffer, so it always has room |
| RedisBisimulation.DeliveredExactly | src/redisblock.cpp:115-153 | whatever the stream and its cutting, every finished reply is delivered in an exactly full, never reallocated buffer that reads back as the reply |
| RedisBisimulation.BlockReadsReply | src/redisblock.cpp:180-296 | `RedisBlock` reports any reply in one delivery, with exactly the rest left, if and only if it is well formed and no integer beyond `int` |
| RedisBisimulation.BlockInFragments | src/redisblock.cpp:180-327 | a complete stream of well-formed replies, in any nonempty chunks: `RedisBlock` posts all of them in order, and nothing else, if and only if no cut is inside an array element and every integer is an `int` |
| SessionSpec.StepKeepsInv | src/tcp_object.h:35-82 | every step of every thread, polls from within a batch included, keeps ownership and index agreement, and loses or doubles no event |
| SessionSpec.NothingLost | src/tcp_object.h:35-47 | under every interleaving, polls from within a batch included, executed events, rest of the batch and queue are all events pushed, none lost or doubled |
| SessionSpec.OrderStep | src/tcp_object.h:35-47 | a step keeps them in push order unless it is a poll by which queued events overtake the rest of a batch |
| SessionSpec.OvertakesNested | src/tcp_object.h:35-43 | a poll between batches, or with nothing queued, overtakes nothing; any other does when the first events differ |
| SessionSpec.EventDelivery | src/tcp_object.h:35-47 | under every interleaving: executed events, rest of the batch and queue are at all times the events pushed, in push order, if and only if no poll overtook |
| SessionSpec.BatchFrozen | src/tcp_object.h:35-47 | between two swaps of a net, whatever all threads do, executed events and rest of the batch stay together the same and the queue only grows at its end: what is pushed during a batch waits for a later poll |
| SessionSpec.IndexAgreement | src/io_pool.h:73-84 | after every step, and whenever user code is called, the pool holds exactly the online connections of all nets, duplicate and early closes included, while ids have not wrapped |
| SessionSpec.OnlineByHistory | src/tcp_object.h:58-74 | over every run: a connection is in a net's set if and only if the net has executed a connect of it and no close since |
| SessionSpec.CallbackSees | src/tcp_object.h:58-75 | over every run: the callback of a connect sees the connection online, that of a close sees what was before, so the connection if it was connected and not closed since, any other callback sees nothing changed |
| SessionSpec.CallbackFinds | src/tcp_object.h:58-75 | looking up a session from a callback finds exactly the connection online under it then: the one just connected, and the one about to be closed, while ids have not wrapped |
| SessionSpec.NeverDangling | src/io_pool.h:85-92 | over every run, ids wrapped or not: what the map holds is online, so its weak pointers are live, and a lookup never finds anybody else |
| SessionSpec.CallAtCallback | src/tcp_object.h:58-75 | the calls a batch makes are those the machine makes |
| SessionSpec.SendFindsOnline | src/service.cpp:82-90 | a lookup finds a connection exactly when it is online under that id; weak pointers in the map are never dangling |
| SessionSpec.IdsRepeat | src/io_pool.h:73-75 | ids are the order of creation as long as 64 bits hold it, and repeat after 2^64 connections |
| SessionSpec.WrapBreaksAgreement | src/io_pool.h:73-80 | for every number of connections above the number of ids, a run after which the indexes disagree |
| SessionSpec.AgreementBound | src/io_pool.h:73-80 | all runs that made k connections end in agreement if and only if there are k ids |
| SessionSpec.PollInSteps | src/tcp_object.h:35-47 | a whole poll, with events arriving meanwhile, is a run of the machine: the queue is executed in order, both indexes pass through all its events, and the invariant is kept |
| SessionSpec.PollsKeepInv | src/service.cpp:75-81 | polling nets in turn, in any order, keeps ownership and index agreement |
| SessionSpec.PolledOnce | src/service.cpp:75-81 | each net is polled as if alone |
| Services.IoObjectPool.NextSession | src/io_pool.h:73-75 | issues the next id, modulo 2^64 |
| Services.IoObjectPool.AddSession | src/io_pool.h:77-80 | enters the connection under its id |
| Services.IoObjectPool.DelSession | src/io_pool.h:81-84 | removes the id if present |
| Services.IoObjectPool.Session | src/io_pool.h:85-92 | finds the connection under the id while it lives |
| Services.TcpObj.Push | src/tcp_object.h:44-47 | appends to the queue |
| Services.TcpObj.TakeBatch | src/tcp_object.h:36-41 | moves the queue into the batch |
| Services.TcpObj.RunEvent | src/tcp_object.h:58-75 | updates both indexes as the event's closure does, and calls user code after both updates at a connect, before both at a close |
| Services.TcpObj.Poll | src/tcp_object.h:35-43 | between batches, runs the whole queue in order and leaves queued, in order, exactly what arrives meanwhile; user code is called once per event, in order, with both indexes as they are then |
| Services.TcpObj.CreateConnection | src/tcp_object.h:77-82 | gives the connection the next id of the shared counter, and the net owns it |
| Services.NetService.Add | src/service.cpp:59-65 | adds an idle net under a free name, a step of the machine, otherwise changes nothing |
| Services.NetService.Poll | src/service.cpp:75-81 | between batches, polls every net once: each has run its whole queue in push order, the pool's map has passed through all events, and the machine's invariant, index agreement included, is kept |
| Services.NetService.Send | src/service.cpp:82-90 | on a running service, while the invariant holds and ids have not wrapped, finds exactly the online connection of that id; otherwise nobody |
| Services.NetService.SendAll | src/service.cpp:91-100 | on a running service every online connection of the net gets a clone of its own, sharing no block, buffer or array with another, with the same bytes and its session |

## Left out

- `RedisConnection` and `Connection` are given chunks that fit the free space; the read of zero bytes into a full buffer is not modelled.
- The read loop over `RedisBlock` is modelled on values only, as `BlockDrive`; it is the loop of `Connection` with another block.
- Sockets, acceptors, name resolution, threads, timers, signals and `NetService::stop`: input and output, foreign calls.
- `Connection`: sending, closing and connecting; only the read loop is modelled.
- `NetService::remove` and destruction of nets: its test is inverted and nothing unregisters a destroyed net's sessions, so nets stay alive in the model.
- `manager.cpp`, configuration records, debug output, `split`, `getIoService`: forwarding or unused.
- The encryption hook: it is never set.
- Move assignment of `NetBuffer`, `tailNetBuffer`, `headNetBuffer`: the same appends and prepends behind an identity test.
- `RedisBlock::push` and `clone`, `RedisBlock2::push` and `clone`: one append each, and a copy like `NetBlock::clone`.
- Appending a buffer's own memory to itself: data passed to a buffer is a value here, so that aliasing does not arise.
- Wrap-around of `size_t` sums and failing allocations, except the allocation for an announced length below the head size, which is refused.
- Lengths and counts below -1: they throw or wrap to a size never reached; the model fails at once.
- RespSpec.LineNumber: element lengths 2147483646 and 2147483647 fail in both parsers, as they overflow `int` in `RedisParse`; the array loop of `RedisBlock` would accept them.
- Calling `recv` on a finished `RedisBlock` or `RedisBlock2`: the read loop never does.
- RedisBlocks.RedisBlock.Recv: the calls of `makeRedisBuffer` at the end of every completing branch are one call behind the branches.
- Services.NetService.Poll: pushes to one net while another one's batch runs, and polls from within a callback, are steps of the state machine, not of this method.
- SessionSpec.EventDelivery: one thread at a time polls a net, which may poll again from a callback; a second thread running another batch of the same net is not modelled, as it would race on the net's set of connections.
- A decoder for the result buffer: the repository only has a commented-out sketch, so `Decode` is a function of this project.
