# A verified model of redis-client

redis-client is a C++ client for Redis: it prints commands in the RESP2 wire format, decodes the
server's replies, sends pipelines over a connection, and runs a subscriber whose reader coroutine
feeds a bounded queue. This project models that logic in Dafny and proves what its callers rely on.
`dafny verify dfyconfig.toml` checks everything.

## How the model is laid out

| file | models |
|---|---|
| `Reply.dfy`, `ReplyLaws.dfy` | `redis/reply.cpp`: the recursive decoder, as methods over a buffer and an iterator, and as a function on the bytes up to the end of the buffer; its laws |
| `Resp.dfy` | the RESP2 wire form of a value ("Redis serialization protocol specification", sections "Simple strings", "Simple errors", "Integers", "Bulk strings" and "Arrays"), as the reference encoder |
| `Command.dfy` | `redis/command.cpp`: tokenizer, printer, and their round trips |
| `Client.dfy`, `Ambiguity.dfy` | `redis/client.cpp`: the send buffer, the decode loop, pipelines end to end; which send buffers have two readings |
| `SendCodes.dfy` | what the error codes of a pipeline's replies tell about its steps |
| `Layouts.dfy`, `Throwing.dfy` | what the decoder answers to every layout of bytes and to messages cut off; which bytes make it throw |
| `Comparison.dfy` | `redis/value.cpp`: `operator==` and `operator<` |
| `Conversions.dfy`, `Decimal.dfy`, `Numerals.dfy` | `redis/value.hpp`: numbers, strings, hashes, with the real 64-bit and 32-bit bounds of `stol` and `stoi` |
| `Subscriber.dfy`, `SubscriberLaws.dfy` | `redis/subscriber.cpp`: the state machine of readers, queue, consumer and stops; laws of whole runs |
| `ReaderDeath.dfy`, `Stopping.dfy`, `Chunking.dfy` | when an exception kills the reader; when a stop returns; what the cuts between two reads do to the replies |
| `SubscriberClass.dfy` | the class of `redis/subscriber.cpp` on its own fields |
| `Connection.dfy`, `ConnectionClass.dfy` | `redis/subscriber_connection.cpp`: any number of callers of `get` around one atomic flag; the class on its own fields |
| `Bytes.dfy`, `Sequences.dfy`, `Runs.dfy`, `Values.dfy` | bytes and their order, facts on sequences, runs of events, the value type |

Strings and byte vectors are sequences of bytes, so the copies in `redis/helper_functions.cpp` are
identities. `Parse` has an outcome `Overran` for an iterator that would move past the end of the
buffer, which C++ gives no meaning; the decoding methods require that this does not happen, and
`EncodedIsComplete` proves that complete encodings meet the requirement. Exceptions are the
outcome `Threw`. What the connection, the timers and the scheduler do are parameters
(`Client.Exchange`) or events of the state machines. A run is a sequence of events, each enabled in
the state the run has reached, so a statement about all valid runs covers every interleaving of
readers, consumers and stops at their await points, and of connecting callers at every access to
the shared flag. The two classes carry their run as a ghost field: `Valid()` says that the object is
in the state its run leads to, and every method keeps that, so every law of runs holds of every
object, between any two calls.

## What holds only under a condition

These properties are false in general. Each lemma gives the exact condition.

- A pipeline's replies are the ones the server sent if and only if no reply has an error nested
  inside an array (`Client.PipelineFraming`). The decoder leaves an array at its first error and
  the siblings behind it surface as replies of their own (`Client.PipelineDecodes`,
  `Client.NestedErrorDesynchronises`), so there can be more replies than commands. `redis/errors.hpp`
  documents `response_command_mismatch` for that case; the code never reports it.
- A printed command decodes to its arguments if and only if it has at least two
  (`Command.CommandRoundTrip`), because one argument is printed inline. A send buffer is also the
  buffer of other nonempty commands, unless it is empty or that of a single inline command without
  a line break in it (`Ambiguity.AmbiguousExactly`); among commands of two or more arguments it
  always has one reading (`Client.SendBufferSplitsUniquely`).
- A decoding call depends only on the bytes it consumed if and only if they are a whole message:
  then any bytes may take the place of the unread ones, or none (`ReplyLaws.Locality`).
- `operator==` is documented as "the type and the value are the same". In the code a simple string
  equals the bulk string of the same bytes, and the three-iterator `std::equal` never looks at the
  length of the right-hand side. Its answer is the right one if and only if the left side is not
  overlong and, where it is cut of the right side, the lengths agree
  (`Comparison.EqualIsRightExactly`); `Comparison.PrefixComparesEqual` gives a wrong one, and
  `Comparison.EqualBothWays` says which values are equal both ways round.
- On error-free values `==` and `<` agree, equal being neither less nor greater, if and only if the
  left side is the same as the right one wherever it is cut of it
  (`Comparison.OperatorsAgreeExactly`); `Comparison.EqualButLess` gives values on which they differ.
- The replies of a stream that arrives in several reads are those of the uncut stream if and only
  if every cut is between two messages (`Chunking.PiecesDecode`, `Chunking.StreamToConsumer`). A cut
  between two elements of an array loses the array (`Chunking.CutArray`).
- A run of the subscriber has one reader if and only if `start` is not called again after a stop or
  after the reader left (`SubscriberLaws.AtMostOneReader`, `SubscriberLaws.RestartMakesTwoReaders`).
- Without a restart `running()` implies a reader in its loop (`SubscriberLaws.OneReaderLifeCycle`),
  but not one that is alive. Some run over given reads ends with `running()` and a dead reader if
  and only if the decoder throws on the last of them and on none before it
  (`ReaderDeath.ReaderDiesExactly`). It throws at a non-numeric or oversized array header or a bulk
  length below -1, and at nothing else (`Throwing.OnlyBadHeadersThrow`).
- A stop that was called can still disconnect, without a new reader being started, if and only if
  some reader is neither dead nor about to decode a message that throws
  (`Stopping.StopReturnsExactly`). So a stop before any start waits until
  one is made (`Stopping.StopBeforeStartWaits`).
- A caller that lost the flag waits for a connection that is up or being made, except in two cases:
  the connection drops while nobody owns the flag, or the owner clears the flag while the connection
  is down, be it after an abort or because it was lost in between. A run leaves a waiter behind if
  and only if it has such a step (`Connection.OrphanedExactly`, with `Connection.AbortStrandsWaiter`
  and `Connection.DropStrandsWaiter`).

## Model

| member | source | states |
|---|---|---|
| Reply.ReadLine | redis/reply.cpp:64-66 | the scanning loop shared by all parsers collects exactly the bytes in front of the first CR and stops on it, or at the end |
| Reply.ParseReplyAt | redis/reply.cpp:26-52 | on every buffer the decoder cannot overrun, the iterator code terminates and returns the value, error and position (or exception) of the specification `Parse` |
| Reply.ParseSimpleStringAt | redis/reply.cpp:54-71 | the same for simple strings |
| Reply.ParseErrorAt | redis/reply.cpp:73-95 | the same for errors |
| Reply.ParseBulkStringAt | redis/reply.cpp:97-149 | the same for bulk strings: nil for -1, malformed headers, a throwing negative length, bodies of any bytes |
| Reply.ParseIntegerAt | redis/reply.cpp:151-177 | the same for integers, with every conversion failure reported as out of range |
| Reply.ParseArrayAt | redis/reply.cpp:179-202 | the same for arrays: a header that is not a 64-bit number throws |
| Reply.ParseItemsAt | redis/reply.cpp:204-220 | the element loop: any non-positive count gives an empty array, the first error ends it with nil |
| Reply.ReplyObject.LoadData | redis/reply.cpp:14-20 | the reply takes over the decoded value and error and returns the iterator; an exception leaves it unchanged |
| ReplyLaws.ParseEncoded | redis/reply.cpp:26-220 | decoding any encoded tree, errors at any depth included, in front of any bytes: the tree and the first byte behind it, or nil with the server-error code and the siblings behind the leftmost error still unread |
| ReplyLaws.RoundTrip | redis/reply.cpp:26-220 | every error-free tree, nested to any depth and followed by any bytes, comes back as itself with no error and the bytes behind it unread |
| ReplyLaws.ParseBulk | redis/reply.cpp:97-149 | a bulk string of arbitrary bytes, CR and LF included, comes back whole |
| ReplyLaws.ParseNumber | redis/reply.cpp:151-177 | an integer line with any number on it gives the number when it fits 64 bits and the out-of-range error otherwise |
| ReplyLaws.ParseBadNumber | redis/reply.cpp:122-202 | a header that is no 64-bit number: malformed for bulk strings, out of range for integers, an exception for arrays |
| ReplyLaws.ParseNegativeLength | redis/reply.cpp:132-137 | bulk length -1 is nil and one below it throws; a negative array count gives an empty array |
| ReplyLaws.StopsBehindFirstError | redis/reply.cpp:205-214 | the bytes consumed from a tree with errors end with the encoding of its leftmost error, whatever the nesting, and what is left is the encoding of the unread siblings |
| ReplyLaws.ErrorsConserved | redis/reply.cpp:205-214 | the error the decoder stops at is the first of all errors of the tree from left to right, and all the others are in what it leaves unread |
| ReplyLaws.ParseProgress | redis/reply.cpp:26-220 | every call that returns has consumed a prefix, at least one byte, and no fewer bytes than the built tree has nodes or payload |
| ReplyLaws.CompleteIsLocal | redis/reply.cpp:26-220 | on a whole message the decoder never leaves the buffer, and any bytes may follow without changing value, error or stop position |
| ReplyLaws.IncompleteTakesAll | redis/reply.cpp:51 | a call that returned without seeing a whole message went to the end, and without an end-of-buffer error it would swallow further bytes too |
| Layouts.IncompleteAnswers | redis/reply.cpp:26-220 | a call that returns without a whole message carries no error if and only if an unknown type byte stands in the place of the last element, and the end-of-buffer error otherwise |
| Layouts.UnknownAnswered | redis/reply.cpp:47-51 | bytes that begin with none of `+ - $ * :` are all taken and give one nil reply without an error |
| Layouts.UnknownInArray | redis/reply.cpp:204-220 | such bytes behind error-free elements count as a nil last element, or end the array with the end-of-buffer error when more elements are due |
| Layouts.ElementsAnswered | redis/reply.cpp:204-220 | an array whose first elements are error-free, in front of any bytes: it ends with the exception or the error code found there, whatever the code, and is complete with its last element |
| Layouts.LinesAnswered | redis/reply.cpp:54-177 | for any line in front of a CR and any one byte more: the simple string, the error, and the integer or the out-of-range code |
| Layouts.BulkBodyAnswered | redis/reply.cpp:120-149 | a body as long as the header says comes back, whatever the header's spelling of the length and the two bytes behind the body |
| Layouts.CutLinesAnswered | redis/reply.cpp:54-195 | a line without a CR gives the end-of-buffer error, except in a nonempty simple string, which runs over the end |
| Layouts.EveryBufferHasLayout | redis/reply.cpp:26-52 | these layouts are all there are |
| Layouts.RepliesAnswerPlainly | redis/reply.cpp:26-220 | every reply of any buffer has one of five codes; all errors but the server's come with nil, and an error value always with the server-error code |
| ReplyLaws.EofIsAtEnd | redis/reply.cpp:206-208 | an end-of-buffer error, however deep, always leaves the iterator at the end |
| ReplyLaws.Locality | redis/reply.cpp:26-220 | the bytes consumed are a whole message if and only if they give the same value, error and stop position in front of any bytes in place of the unread ones |
| ReplyLaws.EncodedIsComplete | redis/reply.cpp:26-220 | complete encodings are well framed: every line and body lies inside the buffer |
| Resp.WireForm | redis/reply.cpp:26-202 | the reference wire form of every kind of value, character by character |
| ReplyLaws.CompletePrefixes | redis/reply.cpp:26-220 | a first part of an encoding is a whole message if and only if it lacks no more than the siblings left unread behind an error; of an error-free tree only the full encoding is one |
| Throwing.OnlyBadHeadersThrow | redis/reply.cpp:122-202 | an array header that is no 64-bit number or a bulk length below -1 throws, and every exception of a call or of the loop over a buffer is that of such a header in it, at whatever depth |
| Chunking.ThrowBehindMessages | redis/subscriber.cpp:143-161 | behind whole messages a throwing header loses all their replies to the client, and none to the subscriber |
| Command.CommandObject.FromText | redis/command.cpp:7-42 | the nested loops over any text in which no quote opens at the last character compute the one-pass split `Tokens` |
| Command.ReadQuoted | redis/command.cpp:20-32 | the inner loop goes from behind an opening quote to behind the closing one or to the end, and collects what is between |
| Command.TokensConserve | redis/command.cpp:7-42 | no argument is empty, and the arguments joined are the text without quote marks and unquoted spaces, in order |
| Command.TokensReadBack | redis/command.cpp:7-42 | any arguments, each written in bare and quoted stretches and set apart by spaces, are read back as they were |
| Command.UnclosedQuote | redis/command.cpp:20-32 | a quote open at the end of the text is read as if it were closed there |
| Command.SpacesAndQuotes | redis/command.cpp:7-42 | a space separates two arguments, quote marks hold spaces together, and the second mark may be missing |
| Command.TokensExactly | redis/command.cpp:7-42 | some text yields given arguments if and only if none of them is empty or holds a quote mark |
| Command.CommandObject.SerializedCommand | redis/command.cpp:51-73 | the printing loop yields nothing for no argument, the inline form for one, and the array of bulk strings otherwise |
| Command.SerializeIsEncoding | redis/command.cpp:63-70 | a printed command of two or more arguments is the RESP encoding of the array of its arguments |
| Command.PrintedForms | redis/command.cpp:51-73 | the three printed forms, character by character |
| Command.CommandRoundTrip | redis/command.cpp:51-73 | in front of any bytes, decoding a printed command gives the array of its arguments and stops behind it, if and only if there are at least two |
| Command.TextRoundTrip | redis/command.cpp:7-73 | text, tokenized, printed and decoded, comes back as the arguments it spells |
| Client.Concatenate | redis/client.cpp:116-119 | the send buffer is the printed commands one behind the other |
| Client.DecodeReplies | redis/client.cpp:138-147 | the decode loop terminates and returns the replies of the specification `DecodeAll`, or the exception that left it |
| Client.SendPipeline | redis/client.cpp:114-148 | a failed or short write gives one nil reply with the write error for each command, a failed or empty read the same with the read error, and otherwise come the decoded replies or the exception |
| SendCodes.CodesTellTheStep | redis/client.cpp:114-148 | with at least one command, some reply has the write error if and only if writing failed or was short, and the read error if and only if writing went well and nothing was read; no bytes whatever decode to either code |
| Client.SendOne | redis/client.cpp:93-112 | the single-command operation returns its error replies, or the first reply of what arrived |
| Client.PipelineDecodes | redis/client.cpp:138-147 | what the loop makes of any encoded replies, nested errors included, reply by reply |
| Client.PipelineFraming | redis/client.cpp:138-147 | the loop ends at the end of the buffer, and returns exactly the replies sent, each marked with an error if and only if it was one, if and only if no error is nested in an array |
| Client.EncodingsAreUnique | redis/client.cpp:138-147 | two reply lists without nested errors and with the same bytes are equal |
| Client.ReplyCount | redis/client.cpp:141-145 | a pipeline never yields fewer replies than were sent, and as many exactly when no error leaves a sibling unread |
| Client.EveryErrorSurfaces | redis/client.cpp:138-147 | every error, however deeply nested, surfaces as one reply with the server-error code |
| Client.NestedErrorDesynchronises | redis/reply.cpp:210-213 | a concrete single reply that the loop turns into two |
| Client.SendBufferSplitsUniquely | redis/client.cpp:116-119 | the buffer of commands of two or more arguments decodes to those commands and is the buffer of no other commands of two or more arguments |
| Ambiguity.AmbiguousExactly | redis/command.cpp:51-73 | a list of nonempty commands prints the same bytes as another such list, unless it is empty or a single inline command without a line break |
| Ambiguity.InlineAmbiguousExactly | redis/command.cpp:57-61 | an inline command prints like other nonempty commands if and only if there is a line break in it |
| Client.PipelineEndToEnd | redis/client.cpp:114-148 | with everything written and the answers whole in one read, the caller gets exactly the replies sent if and only if none has a nested error |
| Comparison.EqualOnSameShape | redis/value.cpp:47-95 | with agreeing lengths, `==` is equality after turning simple strings into bulk strings and cutting error texts at a NUL |
| Comparison.EqualLeaves | redis/value.cpp:47-85 | on values that are not both arrays, `==` holds for exactly the same kind and number, the same bytes in strings of either kind, the same C string in errors, and a bulk string that begins with the left one |
| Comparison.CTextMeaning | redis/error.cpp:11-16 | what is compared of an error text is its longest part without a NUL |
| Comparison.EqualMeaning | redis/value.cpp:47-95 | on all values, `==` holds if and only if the left side is the right one with some bulk strings or arrays cut off, and it reads beyond the right side if and only if the left one goes on where the right one ends |
| Comparison.EqualIsRightExactly | redis/value.cpp:80-88 | on all values, the answer of `==` is the right one if and only if the left side is not overlong and, where it is cut of the right side, the lengths agree |
| Comparison.EqualBothWays | redis/value.cpp:47-95 | on all values, two values are equal both ways round if and only if they are canonically equal |
| Comparison.EqualIsEquivalence | redis/value.cpp:47-95 | with agreeing lengths, `==` is reflexive, symmetric and transitive |
| Comparison.PrefixComparesEqual | redis/value.cpp:80-83 | a concrete bulk string that equals a longer one, and reads beyond its end the other way round |
| Comparison.LessTotal | redis/value.cpp:99-130 | of two error-free trees exactly one is less, unless they are structurally the same |
| Comparison.LessTransitive | redis/value.cpp:99-130 | `<` is transitive on error-free trees |
| Comparison.LessMeaning | redis/value.cpp:99-130 | on all error-free values `<` is: nil, simple strings, integers, bulk strings and arrays in this order; integers as numbers; strings by the first differing byte or by ending earlier; arrays in the same way by their elements |
| Comparison.LessItemsIsLexicographic | redis/value.cpp:123-125 | arrays are ordered by the first element that differs, or by length |
| Comparison.OperatorsAgreeExactly | redis/value.cpp:47-130 | on error-free values, `==` says neither less nor greater if and only if the left side is the same as the right one wherever it is cut of it |
| Comparison.EqualButLess | redis/value.cpp:99-102 | one family on which the two operators disagree: every simple string equals the bulk string it is less than |
| Bytes.BeforeTotal | redis/value.cpp:108-121 | the unsigned-byte order of strings is total |
| Bytes.BeforeMeaning | redis/value.cpp:108-121 | a string precedes another if and only if at the first position where they differ it ends or has the smaller byte |
| Decimal.ScanPrinted | redis/value.hpp:230-237 | the conversion finds a printed number behind any spaces and in front of anything that is not a digit |
| Decimal.ReadPrinted | redis/reply.cpp:170-176 | printing then reading returns every number that fits and rejects every other one, for 64 and for 32 bits |
| Numerals.ReadingExactly | redis/value.hpp:230-267 | text converts if and only if it begins with blanks, a sign or none, and digits, and then to the number they stand for when it is within the 64-bit or 32-bit bounds; a numeral outside is out of range |
| Numerals.PrintingExactly | redis/value.hpp:203-206 | a number is printed as a minus sign if need be and its digits without leading zeros |
| Conversions.PrintedNumbers | redis/value.hpp:223-281 | a printed number in a bulk string converts to 64 or 32 bits exactly when it fits, and to nothing otherwise |
| Conversions.NumberOfEachKind | redis/value.hpp:223-281 | integers convert to themselves, bulk strings exactly when they begin with a numeral within the bounds, and no other value to a number |
| Conversions.TextOfEachKind | redis/value.hpp:190-214 | simple and bulk strings convert to their bytes, integers to their decimal text, errors to their C string, and nil and arrays to nothing |
| Conversions.IntegerThroughText | redis/value.hpp:203-238 | every 64-bit integer value survives its conversion to text and back |
| Conversions.NarrowingIsModular | redis/value.hpp:263-267 | an integer value always converts to 32 bits, modulo 2^32, and to itself if and only if it fits |
| Conversions.FromHash | redis/value.cpp:36-45 | the constructor loop yields the keys in ascending order, each followed by its value |
| Conversions.AsHash | redis/value.hpp:326-350 | the loop converts a value if and only if it is an array of even length with neither nil nor an array in the place of a key, and computes the hash of its pairs |
| Conversions.HashRoundTrip | redis/value.hpp:326-350 | every hash comes back from its array |
| Conversions.HashKinds | redis/value.hpp:326-350 | a value converts to a hash if and only if it is an array of even length with neither nil nor an array in the place of a key |
| Conversions.ListedPairsConvert | redis/value.hpp:326-350 | any list of keys, each as a bulk or a simple string, and values converts to the hash of just these keys, each with the value of its first pair |
| Conversions.FirstPairWins | redis/value.hpp:338-341 | a key has the value of its first pair, and only keys of pairs are present |
| Conversions.RebuildThenFlatten | redis/value.cpp:36-45 | an array is the array of its own hash if and only if its keys are strictly ascending simple strings; one way through the hash reaches such an array |
| Subscriber.RunsConserve | redis/subscriber.cpp:109-173 | in every run, with any number of readers: received and queued make up what was sent, the queue holds at most 8, and what each reader sent, has pending and gave up is, in order, what it decoded |
| SubscriberLaws.RunsKeepLifeCycle | redis/subscriber.cpp:67-84 | in every run the latch is down if and only if a reader left its loop, and no stop disconnects before |
| SubscriberLaws.AtMostOneReader | redis/subscriber.cpp:67-76 | a run has at most one reader if and only if start was not called again after a stop or after the reader left |
| SubscriberLaws.RestartMakesTwoReaders | redis/subscriber.cpp:67-84 | start, stop and start at once make two readers |
| SubscriberLaws.OneReaderLifeCycle | redis/subscriber.cpp:179-181 | without a restart: the latch follows the one reader, a stop disconnects only after it left, and `running()` implies a reader that has not left, and that is alive when no read throws |
| Stopping.DoomedReadersBlockStop | redis/subscriber.cpp:78-161 | when there is no reader, or each is dead or about to decode a message that throws, then until a new one is started the latch stays up and no stop disconnects, however the run goes on; dead readers stay dead |
| Stopping.StopReturnsExactly | redis/subscriber.cpp:78-161 | at any point of any run, a stop that was called can still come to its disconnect without a new reader if and only if some reader is neither dead nor about to decode a message that throws |
| Stopping.StopBeforeStartWaits | redis/subscriber.cpp:78-84 | a stop before any start never disconnects unless a reader is started |
| ReaderDeath.ReaderDiesExactly | redis/subscriber.cpp:109-181 | for any reads, some run without a restart over just these ends with `running()` and its reader dead if and only if the decoder throws on the last and on none before it |
| ReaderDeath.OneReaderExplained | redis/subscriber.cpp:109-161 | at any point of a run with one reader, its place says how the reads so far decoded, as long as it has not given up or left: all to the end, all but the one it is parsing, or, when dead, all but the last |
| ReaderDeath.BadHeaderKillsReader | redis/reply.cpp:190-202 | the shortest run to a dead reader: one read of an array header that is not a number |
| SubscriberLaws.Delivery | redis/subscriber.cpp:109-173 | without a restart: received, queued, unsent and given up make up all decoded replies in order, nothing is given up before a stop, and what was received is a prefix |
| SubscriberLaws.FailedReadIsDrained | redis/subscriber.cpp:167-170 | a read fails only after a stop and only when all that was sent has been received |
| SubscriberLaws.ServerToConsumer | redis/subscriber.cpp:109-173 | from the server's replies, in whole-message chunks, to the consumer: a prefix in every run, and nothing lost without a stop |
| Chunking.CutDecodes | redis/client.cpp:138-147 | the replies of a piece, followed by some others, are the replies of the piece with more bytes behind it if and only if the piece is a number of whole messages and the others are the replies of those bytes |
| Chunking.PiecesDecode | redis/client.cpp:138-147 | a stream in nonempty pieces that each decode to their end gives, piece by piece, the replies of the uncut stream if and only if every cut is between two messages |
| Chunking.CutArray | redis/reply.cpp:204-208 | an error-free array cut in front of any of its elements gives a nil reply with the end-of-buffer error, and the elements behind the cut as replies of their own |
| Chunking.StreamToConsumer | redis/subscriber.cpp:109-173 | without a restart and a throwing read: the decoded replies are those of the uncut stream if and only if every cut between two reads is between two messages; then the consumer has a prefix of them, and without a stop the others are queued or held |
| SubscriberLaws.ReadersStayFramed | redis/subscriber.cpp:143-161 | in every run a reader's turn to parse finds bytes the decoder cannot overrun |
| SubscriberClass.RedisSubscriber.Start | redis/subscriber.cpp:67-76 | `running()` holds afterwards if the latch is still up; there is exactly one reader if and only if `start` never came again after an end; a call while running changes nothing |
| SubscriberClass.RedisSubscriber.Stop | redis/subscriber.cpp:78-81 | `running()` is false and the queue closed, but what is queued stays readable and the readers keep their places; this caller does not disconnect before a reader has left |
| SubscriberClass.RedisSubscriber.ResumeStop | redis/subscriber.cpp:82-83 | a stop disconnects only when a reader has left its loop and, without a restart, no other one exists |
| SubscriberClass.RedisSubscriber.TestFlag | redis/subscriber.cpp:113-116 | the reader leaves its loop if and only if the flag is down; then the queue is closed and every waiting stop may pass |
| SubscriberClass.RedisSubscriber.ReadDone | redis/subscriber.cpp:119-133 | the replies decoded in the whole run grow by just what this reader now has to send; a cancelled read lets every stop pass; the queue is as it was |
| SubscriberClass.RedisSubscriber.ParseNext | redis/subscriber.cpp:146-158 | one turn of the parse loop: an open queue with room takes the reply behind all others, a full one of 8 makes the reader wait, a closed one refuses it and all behind it, and an exception kills the reader; no decoded reply is lost while the queue is open |
| SubscriberClass.RedisSubscriber.SendDone | redis/subscriber.cpp:153-157 | the blocked reply, the first one pending, becomes the last of a queue of at most 8; when the closed queue refuses it, the queue is unchanged and just the pending replies are given up |
| SubscriberClass.RedisSubscriber.Read | redis/subscriber.cpp:163-173 | without a restart the n-th reply handed out is the n-th reply decoded; an error comes only after a stop and when all that was sent has been received |
| Connection.SingleFlight | redis/subscriber_connection.cpp:53-102 | in every interleaving the flag is up if and only if a caller is between winning and clearing it, that caller is unique, and no two socket connects overlap |
| Connection.BackOffCounts | redis/subscriber_connection.cpp:72-80 | every caller's back-offs use the attempt numbers 2, 3, 4 and so on |
| Connection.SuccessSawConnected | redis/subscriber_connection.cpp:23-31 | a caller that returns without an abort has itself looked at the connection while it was up: on entry, in the loop as owner, or after its wait |
| Connection.ConnectedExactly | redis/subscriber_connection.cpp:65-98 | at any point of any run the connection is up if and only if a socket connect succeeded, or it came up by itself, and it has not been lost since |
| Connection.SuccessNeedsConnection | redis/subscriber_connection.cpp:23-31 | a `get` ends without an abort only in a run in which a connect succeeded or the connection came up |
| Connection.OrphanedByStep | redis/subscriber_connection.cpp:53-102 | from a state without orphans a step makes one if and only if somebody waits and the connection drops unowned, or an owner clears the flag while the connection is down |
| Connection.OrphanedExactly | redis/subscriber_connection.cpp:53-102 | a run has a state in which a caller waits for a connection nobody is making if and only if it has such a step |
| Connection.UndisturbedNeverOrphans | redis/subscriber_connection.cpp:53-102 | in every run in which the connection is not lost and no later connect is aborted, the connection of a waiter is up or being made |
| Connection.AbortStrandsWaiter | redis/subscriber_connection.cpp:86-89 | some run leaves a waiter behind an aborted owner with nobody connecting |
| Connection.DropStrandsWaiter | redis/subscriber_connection.cpp:57-61 | some run leaves a waiter behind an owner that succeeded, because the connection drops before the waiter looks |
| Connection.StrandedStays | redis/subscriber_connection.cpp:57-61 | however a run goes on from such a state, it stays in it until a new caller arrives or the connection comes up |
| ConnectionClass.SubscriberConnection.ClaimFlag | redis/subscriber_connection.cpp:56-61 | afterwards exactly one caller owns the flag: this one if and only if the flag was down, and otherwise the one that owned it before |
| ConnectionClass.SubscriberConnection.ConnectDone | redis/subscriber_connection.cpp:65-89 | the connection is up afterwards if and only if it was or this connect succeeded; no caller at all is in a socket connect and this one still owns the flag; only an aborted later connect ends the loop; the attempt number counts the back-offs |
| ConnectionClass.SubscriberConnection.LoopHead | redis/subscriber_connection.cpp:74-80 | the unique owner has seen the connection up and is done, or backs off with the attempt number that follows all its earlier ones |
| ConnectionClass.SubscriberConnection.TimerDone | redis/subscriber_connection.cpp:80-85 | the retried socket connect is the only one, and its attempt number counts the back-offs |
| ConnectionClass.SubscriberConnection.ReleaseFlag | redis/subscriber_connection.cpp:86-101 | nobody owns the flag afterwards; a return without an abort is backed by a look at a live connection; waiters are orphaned if and only if the connection is down, which takes an abort or a lost connection |

## Left out

- Sockets, timers, coroutine scheduling, the connection pool and the channel itself: foreign code, specified by when their steps may happen. A send suspended when the queue closes may complete either way, and a cancelled read may happen at any time, so the runs include more than the library may allow.
- Interleavings inside one segment between two awaits of the subscriber: its channel is not thread-safe, so its coroutines share one executor. The connect loop is modelled at every access to the shared flag.
- A buffer that leads the iterator past its end: a simple string without CR (the other parsers return the end-of-buffer error at redis/reply.cpp:87, 113, 163 and 195), a line whose CR has fewer than two bytes from itself to the end, and a bulk body cut short. The preconditions exclude these. In redis/client.cpp:129-140 and redis/subscriber.cpp:111-130 the end of what was read lies inside a vector of 4096 bytes, so such an iterator may go on over bytes that were not read; the model gives that no meaning.
- The wait for a connection is foreign code too: it may complete at any moment at which the connection is up, and at no other.
- Memory: a bulk length the allocator refuses, and the recursion depth of nested arrays.
- Comparison.Less: does not order errors, because the source compares the addresses of their texts.
- `as<float>`, `as<double>`, `as<bool>`, `as<redis_message>`, `operator<<`, and the casting operators: floating point, or one case analysis each.
- The latch counts down to zero and stays there; its source is not part of this model. It matters only in runs with more than one reader.
- The attempt counter of the connect loop is unbounded here and a 32-bit `int` in the source.
- The constructor of a reply from a whole buffer: the same decoder, with the iterator dropped.
- Command builders, configuration, logging, error-message tables and the AUTH handshake. Parse errors carry a client-error category in `redis/errors.cpp`, so their messages are the client's; only the codes are modelled.
