# LibreOffice Online: tiles and wire protocols, verified

A Dafny model of the algorithmic cores of the LibreOffice Online server and kit, with proofs of
what they promise. Every method follows the statements of the C++ code it models and is proved
against a function or a predicate on its inputs and its state; lemmas then show what that
function means, over whole runs where there is state.

- `Delta.dfy`, `DeltaExample.dfy`: the tile delta encoder (kit/Delta.hpp) against two decoders. Decoding gives back
  the new bitmap for every pair of bitmaps when row numbers are kept in one byte; the decoder of
  the unit test, which adds row numbers plainly, fails exactly when a copy run steps from row 255
  to row 0, which needs a height of 256 (`Delta.StepsPastEnd` is the condition, and
  `Delta.RolledRampStepsPastEnd` a pair of bitmaps that meets it).
- `Spooky.dfy`, `SpookyHash.dfy`: SpookyHash V2 in one call and as a stream, and the hashes of
  pictures and of windows of pictures (common/Png.hpp).
- `SpookyMixing.dfy`, `SpookyApart.dfy`, `SpookyKnown.dfy`: what the hash makes of its input. Every
  line of mixing can be undone, so that messages that differ in one word end in different states,
  of which the hash is the first two words; and the hashes of two messages in bits.
- `WebSocketFrames.dfy`, `WebSocket.dfy`, `WebSocketStream.dfy`, `WebSocketHandler.dfy`,
  `WebSocketExamples.dfy`: framing, masking bit by bit, incremental parsing and defragmentation of
  RFC 6455 sections 5.2 to 5.5, over streams cut into reads anywhere, and the examples of its
  section 5.7.
- `Tiles.dfy`, `TileText.dfy`, `TileParse.dfy`, `Text.dfy`, `InvalidationText.dfy`, `TileQueue.dfy`,
  `TileQueueRuns.dfy`, `TileQueueSafety.dfy`, `TileQueueContents.dfy`, `TileQueueRequests.dfy`,
  `TileQueueGeometry.dfy`: the queue of requests and callbacks that schedules tile rendering, as a
  queue of messages, and what it does with rectangles in terms of their points.
- `TextQueue.dfy`, `TextQueueStates.dfy`: the same queue as the texts that it holds. Over any run
  of puts the texts are read as the messages of that queue, so that what is proved of its runs
  holds of the texts; in the words of the texts, just the last state of each command, and the last
  callback of each type that is about the latest only, is left.
- `PngCache.dfy`, `CombinedRender.dfy`, `TileIdentity.dfy`: the cache of encoded tiles, wire ids,
  rendering many tiles in one picture, and the identity of a tile rendered either way.
- `PixmapCache.dfy`: the list of window pictures that kit/ChildSession.cpp takes the client to
  hold, and the cache that the client keeps, over the same run of paints.
- `Levenshtein.dfy`, `Chunks.dfy`, `DelaySocket.dfy`, `DelayTimes.dfy`: the edit distance, chunked
  HTTP bodies (RFC 7230 section 4.1), and the delay line of two sockets with the times at which it
  writes.

Seven findings are stated as theorems rather than assumed away:

- A copy run of a delta can step past row 255 at height 256 (`Delta.RolledRampStepsPastEnd`); at
  heights up to 255 it never does (`Delta.MakeDelta`).
- A duplicate tile request is found by comparing text up to the version, so that a request with
  wire id 1 also replaces one with wire id 12; `TileText.SameText` says exactly when two requests
  are taken for the same, and the queue is modelled with that relation. Tiles are requested at
  most once each in every run if and only if none of them is taken for another
  (`TileQueueRequests.OneRequestPerTile`); if one of two tiles is taken for the other, there is a
  run that leaves it requested twice (`TileQueueRequests.RequestedTwice`).
- The test in `canceltiles` that is to spare previews looks for `id=` anywhere in a message and
  finds it in `nviewid=`; no tile request that the server writes is ever cancelled
  (`TileText.TileNotCancelled`).
- A merged invalidation is rewritten by cutting the message at the added lengths of its tokens.
  `InvalidationText.MergedWords` says exactly for which messages that replaces the rectangle and
  nothing else. With one space more than the kit writes behind the fourth and the fifth word it
  does not: the message is then read with part 0, whatever its part was
  (`InvalidationText.LooseIsLost`).
- The hash of a window picture enters the list of kit/ChildSession.cpp before the picture is
  encoded. When that fails, the next paint of the same picture is announced with `nopng`, and the
  client shows nothing (`PixmapCache.FailsOnce`, `PixmapCache.NeverSent`).
  `PixmapCache.AllShownIff` says exactly over which runs of paints the client shows all that it is
  told of, and `PixmapCache.UnspoiltIsShown` that it does unless a hash is announced whose last
  paint failed to encode.
- The sum of header and payload length of a frame wraps around for lengths near 2 to the 64, and
  such a frame is taken for complete (`WebSocketFrames.LongestWrapsAround`);
  `WebSocketFrames.TakenAsCompleteIff` says for exactly which bytes, and
  `WebSocketFrames.PrintedNeverWraps` that nothing a peer of this program prints is among them.
- The delay line cuts the lateness of a chunk to whole milliseconds before it compares it with 0, so
  that a byte can be written up to 999999 nanoseconds less than the delay after it was read
  (`DelayTimes.SentEarly`); `DelayTimes.DueIff` says exactly when a chunk is due, and
  `DelayTimes.NeverEarly` that over every run no byte is written a whole millisecond early.

`dafny verify dfyconfig.toml` checks the whole project.

## Model

| member | source | states |
|---|---|---|
| `Delta.MakeDelta` | kit/Delta.hpp:97-196 | refuses exactly bitmaps of different size; otherwise what it appends decodes against the old image to the new one with row numbers kept in a byte, and with plain row numbers exactly unless some run steps past row 255, which no height up to 255 allows |
| `Delta.EncodeRows` | kit/Delta.hpp:110-194 | the bytes appended are the serialized form of operations that bring every row up to date, whatever patching of count bytes happened on the way |
| `Delta.CopyRow` | kit/Delta.hpp:133-156 | one copied row lengthens the last run by patching its count byte in the output, or starts a run; the picture grows by exactly that row and all bytes before stay the delta of the rows before |
| `Delta.DiffRow` | kit/Delta.hpp:160-191 | the runs of pixels appended for a row turn the old row into the new one and touch no other row |
| `Delta.NextRun` | kit/Delta.hpp:166-178 | the skip goes to the first pixel that differs, and no further; the run is at least two pixels unless the row ends, goes on over equal ones, and stops at the first that differs, at 254 or at the end of the row |
| `Delta.HuntRow` | kit/Delta.hpp:127-133 | finds an identical row of the old bitmap exactly when there is one, the first in scan order from the last displacement |
| `Delta.RoundTrip` | test/DeltaTests.cpp:65-125 | any emitted operations decode to the new image; the plain decoder fails if and only if a run steps past the end |
| `Delta.PlainAgreesUnlessWrapped` | test/DeltaTests.cpp:65-125 | the decoder with plain row numbers and the one with row numbers in a byte differ exactly on deltas with a run that wraps |
| `Delta.ParseSerialize` | test/DeltaTests.cpp:84-122 | parsing the bytes of any operations gives those operations back |
| `Delta.ExtendRun` | kit/Delta.hpp:135-145 | lengthening the last run keeps the delta that of the rows so far, and wraps it exactly when this row is the one past the end |
| `Delta.StartRun` | kit/Delta.hpp:147-155 | so does starting a new run |
| `Delta.ExtendsMeans` | kit/Delta.hpp:137-139 | the comparison of sums of signed chars admits exactly the next row of a run, short of a sign change, and the step from row 255 to 0 |
| `Delta.RolledRampStepsPastEnd` | kit/Delta.hpp:135-145 | a pair of bitmaps of height 256 on which a run steps from row 255 to row 0 |
| `Delta.DeltaGenerator.DataToDeltaData` | kit/Delta.hpp:198-236 | the bitmap has exactly the pixels of the window of the pixmap, whatever the row checksums |
| `Delta.DeltaGenerator.CreateDelta` | kit/Delta.hpp:247-271 | keeps at most seven bitmaps, drops the oldest, and succeeds exactly when the first one kept under the old wire id has the same size, with a delta that decodes against it to the window |
| `Delta.WindowBytes` | kit/Delta.hpp:183-188 | the four bytes that a run writes for a pixel of a window are those of the picture at its place, channel by channel |
| `DeltaExample.DeltaInBytes` | test/DeltaTests.cpp:65-125 | a delta byte for byte: which byte of a copy is the count, the source and the destination, and of a run the row, the column and the count, and in what order the bytes of a pixel come |
| `SpookyHashing.ShortAtOnce` | common/SpookyV2.cpp:30-143 | the in-place loop over short messages computes the hash of the whole message |
| `SpookyHashing.HashAtOnce` | common/SpookyV2.cpp:147-207 | so does the one for long ones, block by block and with the padded rest |
| `SpookyHashing.MixWhole` | common/SpookyV2.cpp:177-194 | mixing block after block is mixing all whole blocks of the part |
| `SpookyHashing.SpookyHash.Init` | common/SpookyV2.cpp:211-218 | a state of the empty message with the two seeds, whatever it held before |
| `SpookyHashing.SpookyHash.Update` | common/SpookyV2.cpp:221-315 | the state of a message becomes that of the message with the fragment behind it, for any state and fragment, empty ones included |
| `SpookyHashing.SpookyHash.Stash` | common/SpookyV2.cpp:237 | the bytes are in the buffer from their place on, and what is before and behind them is as it was |
| `SpookyHashing.SpookyHash.StashFragment` | common/SpookyV2.cpp:234-241 | a fragment that fits is put behind the stash, which makes the state that of the message with the fragment |
| `SpookyHashing.SpookyHash.MixStash` | common/SpookyV2.cpp:267-274 | a full stash is two blocks of the message, mixed in |
| `SpookyHashing.SpookyHash.Resume` | common/SpookyV2.cpp:243-281 | the state to go on from is that of the message so far, with the stash mixed in |
| `SpookyHashing.SpookyHash.MixRest` | common/SpookyV2.cpp:283-314 | the rest of a long fragment is mixed in and its last bytes are stashed |
| `SpookyHashing.SpookyHash.Pad` | common/SpookyV2.cpp:360-363 | the stash becomes the last block of the message |
| `SpookyHashing.SpookyHash.Final` | common/SpookyV2.cpp:325-370 | the hash of everything hashed so far, as Hash128 gives it, and the object stands for the same message afterwards |
| `SpookyHashing.FinishStash` | common/SpookyV2.cpp:345-367 | finishing from a stash of more or less than a block is finishing the whole message |
| `SpookyHashing.HashFragments` | common/SpookyV2.cpp:211-370 | whatever the object hashed before Init, for every seeds, every fragments and every set of points to peek at: the result is Hash128 of the concatenation, each peek that of what came before, and peeking changes nothing |
| `Spooky.MixBlocksAppend` | common/SpookyV2.cpp:177-194 | blocks can be mixed in one part after another |
| `SpookyHashing.HashBuffer` | common/Png.hpp:223-227 | the hash of a picture is that of its bytes; two pictures of which one pixel differs end in different states (`SpookyApart.OnePixelApart`) |
| `SpookyHashing.HashSubBuffer` | common/Png.hpp:229-249 | the hash of a window is that of the window cut out row by row, and 0 when asked of a buffer smaller than the window |
| `SpookyHashing.CutOutByte` | common/Png.hpp:239-243 | which byte of the picture each byte of the cut-out is |
| `SpookyHashing.ShowsCutOut` | common/Png.hpp:229-249 | a picture that shows a window pixel by pixel is the cut-out |
| `SpookyHashing.HashAloneAndCombined` | common/Png.hpp:223-249 | a tile rendered alone and the same tile inside a larger picture hash to the same |
| `SpookyMixing.TurnBack` | common/SpookyV2.h:115-118 | each rotation that the hash uses is undone by the rest of a full turn |
| `SpookyMixing.MixApart` | common/SpookyV2.h:133-151 | for every block, different states are mixed to different states |
| `SpookyMixing.MixOther` | common/SpookyV2.h:139-150 | for every state, two blocks that differ in just one word are mixed to different states |
| `SpookyMixing.EndPartialApart` | common/SpookyV2.h:169-186 | different states stay apart |
| `SpookyMixing.ShortMixApart` | common/SpookyV2.h:217-234 | so they do in a short message |
| `SpookyMixing.ShortEndApart` | common/SpookyV2.h:245-261 | and at its end |
| `SpookyApart.BlockSame` | common/SpookyV2.cpp:177-194 | a block says which bytes it was read from, all 96 of them |
| `SpookyApart.MixBlocksOther` | common/SpookyV2.cpp:177-194 | from any state, whole blocks of equal length that differ in just one word are mixed to different states, however many blocks follow |
| `SpookyApart.EndOther` | common/SpookyV2.h:188-204 | a last block that differs, in any number of words, ends in a different state |
| `SpookyApart.ShortTailOther` | common/SpookyV2.cpp:84-139 | so does a tail of 0 to 15 bytes that differs from one of its length in any byte |
| `SpookyApart.ShortTailApart` | common/SpookyV2.cpp:84-139 | different states stay apart when the same tail is added |
| `SpookyApart.HashOfEnd` | common/SpookyV2.cpp:147-207 | the hash is the first two words of the state that a message ends in |
| `SpookyApart.OneWordApart` | common/SpookyV2.cpp:30-207 | two messages of equal length, short or long, that differ in just one aligned word of eight bytes end in different states |
| `SpookyApart.OnePixelApart` | common/Png.hpp:223-227 | so do two pictures that differ in just one pixel of four bytes |
| `SpookyApart.SeedsApart` | common/SpookyV2.cpp:147-207 | and any message under two different pairs of seeds |
| `SpookyKnown.KnownLong` | common/SpookyV2.cpp:147-207 | the hash of a message of 200 bytes, two whole blocks and eight bytes, in bits |
| `SpookyKnown.KnownShort` | common/SpookyV2.cpp:30-143 | the hash of a message of 47 bytes, a block of 32 and a tail of 15, in bits |
| `WebSocketFrames.ParseEncode` | net/WebSocketHandler.hpp:164-224 | a printed frame is read back with its size, whatever follows it, for all three forms of the length, masked or not |
| `WebSocketFrames.ParsePartial` | net/WebSocketHandler.hpp:164-224 | no proper prefix of a frame is taken for a frame |
| `WebSocketFrames.LengthRoundTrip` | net/WebSocketHandler.hpp:532-555 | the length field is read back, with its size |
| `WebSocketFrames.MaskedTwice` | net/WebSocketHandler.hpp:557-573 | masking with the same key twice gives the data back |
| `WebSocketFrames.XorByteBits` | net/WebSocketHandler.hpp:607 | a byte is masked to the one whose bits are 1 exactly where the bits of data and key differ |
| `WebSocketFrames.MaskedBits` | net/WebSocketHandler.hpp:569-570 | masking is that exclusive or with the four bytes of the key in turn, and nothing else is |
| `WebSocketFrames.ZeroKey` | net/WebSocketHandler.hpp:607 | a key of zeros leaves data as it is |
| `WebSocketFrames.PayloadRead` | net/WebSocketHandler.hpp:596-611 | of any buffer with a complete frame: where its payload lies, and the payload in its bits under the key in front of it |
| `WebSocketExamples.MaskedHello` | net/WebSocketHandler.hpp:607 | the example of section 5.7 of RFC 6455: Hello under the key 37 fa 21 3d is 7f 9f 4d 51 58 |
| `WebSocketExamples.WholeExamples` | net/WebSocketHandler.hpp:526-577 | whole text frames of that section, with and without a mask, a ping and its pong, byte for byte |
| `WebSocketExamples.FragmentExamples` | net/WebSocketHandler.hpp:164-182 | its message in two fragments |
| `WebSocketExamples.LongExamples` | net/WebSocketHandler.hpp:532-555 | its lengths of 256 and of 65536 bytes, in network order |
| `WebSocketExamples.HelloHandled` | net/WebSocketHandler.hpp:161-385 | the eleven bytes that a browser sends for Hello, cut into reads anywhere, are handled as Hello by a server |
| `WebSocketFrames.BigEndianRoundTrip` | net/WebSocketHandler.hpp:546-553 | lengths survive their bytes |
| `WebSocketFrames.TakenAsCompleteIff` | net/WebSocketHandler.hpp:172-224 | with the sum taken modulo 2 to the 64, the code takes for complete exactly the complete frames and those whose eight-byte length wraps the sum around to no more than what has come in |
| `WebSocketFrames.LongestWrapsAround` | net/WebSocketHandler.hpp:205-220 | the longest length there is does so: ten bytes are taken for a frame that is not complete |
| `WebSocketFrames.PrintedNeverWraps` | net/WebSocketHandler.hpp:532-555 | no bytes that begin with a printed frame, cut off anywhere, wrap around |
| `WebSocket.ConsumeIsExhaust` | net/Socket.hpp:1014-1022 | the two nested loops, the inner of which stops after a fragment that does not end a message, together take every complete frame of a server or an upgraded client |
| `WebSocket.ConsumeUpgrade` | net/WebSocketHandler.hpp:388-412 | a client takes no frame before the response to its upgrade, every complete frame behind a good one, and nothing but a shutdown follows any other |
| `WebSocketStream.Streamed` | net/WebSocketHandler.hpp:161-385 | for every legal stream of frames and every cut into reads, each read leaves the connection as if exactly the frames complete so far had been received whole, with the rest of the bytes waiting |
| `WebSocketStream.StreamedPart` | net/WebSocketHandler.hpp:161-385 | the same for any stream of frames of which only those that are complete so far need be legal |
| `WebSocketStream.StreamReceived` | net/WebSocketHandler.hpp:161-385 | after all reads every frame was received and no input is left |
| `WebSocketStream.ExhaustFrames` | net/WebSocketHandler.hpp:388-412 | whole legal frames at the start of the input are all handled and nothing behind them is touched |
| `WebSocketStream.StreamMeaning` | net/WebSocketHandler.hpp:237-384 | what legal frames deliver is the messages their data frames make up, put together or fragment by fragment with manual defragmentation, and what they answer is the non-empty pings, byte for byte; control frames disturb neither |
| `WebSocketStream.FragmentedMessage` | net/WebSocketHandler.hpp:322-384 | a message in any number of fragments with control frames between them is delivered once, as their concatenation |
| `WebSocketStream.CloseAnswered` | net/WebSocketHandler.hpp:293-312 | a close behind any legal frames is answered once, by its own status and reason byte for byte, or a normal close if it gives none, and not at all if one was sent before; those frames are handled and nothing behind the close is |
| `WebSocketStream.ClosedStream` | net/WebSocketHandler.hpp:293-312 | legal frames and a close, cut into reads anywhere: the read that completes the close leaves those frames handled and the close answered once, whatever else is in that read, and the reads that follow go on from there |
| `WebSocketStream.AfterClose` | net/WebSocketHandler.hpp:146-159 | what follows is received as on a connection without input, block or payload |
| `WebSocketStream.StreamAfterUpgrade` | net/WebSocketHandler.hpp:682-744 | a client whose response comes in one read receives the stream behind it, cut anywhere, as if it had been upgraded before |
| `WebSocketStream.StepKeepsGathered` | net/WebSocketHandler.hpp:322-384 | outside a block of fragments the gathered payload is empty, after any input, legal or not, whose length does not wrap the sum at line 220 around |
| `WebSocketStream.PollsKeepGathered` | net/WebSocketHandler.hpp:322-384 | so it is after any sequence of reads of any such bytes |
| `WebSocketStream.EndToEnd` | net/WebSocketHandler.hpp:514-590 | messages framed at one end and cut into reads anywhere are handled at the other end in order and byte for byte, with nothing else handled or sent and no input left |
| `WebSocketStream.PingEchoed` | net/WebSocketHandler.hpp:278-292 | a non-empty ping to a client is answered by a pong that the server parses to the same bytes |
| `WebSocketHandlers.WebSocketHandler.SendFrame` | net/WebSocketHandler.hpp:514-590 | appends exactly one frame, or nothing when the data is empty or the socket closed, and returns what it appended |
| `WebSocketHandlers.WebSocketHandler.PushFrame` | net/WebSocketHandler.hpp:526-577 | the bytes pushed one by one are the frame of the payload |
| `WebSocketHandlers.WebSocketHandler.PushLength` | net/WebSocketHandler.hpp:532-555 | they are the length field |
| `WebSocketHandlers.WebSocketHandler.MaskInPlace` | net/WebSocketHandler.hpp:569-570 | what follows the key is its exclusive or with the key, bit by bit, and what is before it stays |
| `WebSocketHandlers.WebSocketHandler.PushMasked` | net/WebSocketHandler.hpp:557-573 | behind what was there come the key and the exclusive or of data and key, bit by bit |
| `WebSocketHandlers.WebSocketHandler.ReadPayload` | net/WebSocketHandler.hpp:596-611 | the payload is put behind what was gathered: with a key, its exclusive or with the key, bit by bit, else as it is |
| `WebSocketHandlers.WebSocketHandler.ReadLength` | net/WebSocketHandler.hpp:184-211 | the length field in its three forms, and where it ends |
| `WebSocketHandlers.WebSocketHandler.ReadHeader` | net/WebSocketHandler.hpp:164-224 | tells a complete frame from an incomplete one, and where its data is, for lengths that do not wrap the sum around |
| `WebSocketHandlers.WebSocketHandler.SendCloseFrame` | net/WebSocketHandler.hpp:120-144 | a close frame with status and reason, and the handshake is begun |
| `WebSocketHandlers.WebSocketHandler.ShutdownConnection` | net/WebSocketHandler.hpp:146-159 | one close frame unless the handshake is under way, and input, gathered payload and block are dropped |
| `WebSocketHandlers.WebSocketHandler.Pong` | net/WebSocketHandler.hpp:429-464 | a pong with the data, only over an upgraded socket |
| `WebSocketHandlers.WebSocketHandler.HandleControl` | net/WebSocketHandler.hpp:237-320 | every control frame has the effect the frame layer gives it: answer, shutdown or nothing |
| `WebSocketHandlers.WebSocketHandler.HandleData` | net/WebSocketHandler.hpp:322-384 | so has every data frame, in a block of fragments and outside |
| `WebSocketHandlers.WebSocketHandler.HandleFrame` | net/WebSocketHandler.hpp:226-384 | a complete frame has the effect of its reception, a masked one at a client the refusal |
| `WebSocketHandlers.WebSocketHandler.HandleTCPStream` | net/WebSocketHandler.hpp:161-385 | one step of the connection on whatever is in the buffer |
| `WebSocketHandlers.WebSocketHandler.HandleClientUpgrade` | net/WebSocketHandler.hpp:682-744 | a good response leaves the input and makes the socket a WebSocket; any other, or one whose header is not complete, only asks for a shutdown |
| `WebSocketHandlers.WebSocketHandler.HandleIncomingMessage` | net/WebSocketHandler.hpp:388-412 | a client that is not upgraded takes its response, any other connection steps until there is nothing to do |
| `WebSocketHandlers.WebSocketHandler.HandlePoll` | net/Socket.hpp:1014-1022 | a read is consumed as the stream theorems assume |
| `Tiles.CreateKeepsTiles` | wsd/TileDesc.hpp:513-534 | tiles that all combine with the first come through a combined request with everything but image size, id and broadcast mark |
| `Tiles.IntersectIff` | wsd/TileDesc.hpp:94-100 | rectangles share a point, their edges included, if and only if they are found to intersect and none has a negative size |
| `Tiles.CombineIff` | wsd/TileDesc.hpp:127-155 | tiles can be combined if and only if they are the same but for their place, ids, version, size of image and broadcast mark, some height is in both, and they begin at most sixteen columns apart |
| `TileText.SameText` | common/MessageQueue.cpp:102-127 | the text of a new request up to its version begins a queued one if and only if all fields are equal but for the wire id, and the digits of the new wire id begin those of the queued one |
| `TileText.FieldsPrefix` | wsd/TileDesc.hpp:159-193 | the same for any labelled lists of numbers |
| `TileText.TileNotCancelled` | common/MessageQueue.cpp:32-60 | no tile request that TileDesc writes is removed by any canceltiles message |
| `TileParsing.Parse` | wsd/TileDesc.hpp:196-247 | the loop over the tokens of a message finds what the theorems speak of, and refuses what the constructor refuses |
| `TileParsing.ParseSerialize` | wsd/TileDesc.hpp:159-247 | every tile, with or without id, image size and broadcast mark, is parsed back from the text it is serialized to |
| `TileParsing.SerializedWords` | wsd/TileDesc.hpp:159-193 | the tokens of that text are the fields, each with its name |
| `TileParsing.IdFound` | common/MessageQueue.cpp:418-424 | the text of a request has an id exactly if its tile is a preview, and it is that of the tile |
| `TileParsing.ParsedHasSize` | wsd/TileDesc.hpp:45-56 | whatever tokens are parsed, no tile without a size comes of them |
| `Text.Tokenize` | common/Protocol.hpp:105-138 | the tokens are exactly the words of the first line |
| `Text.SpacedWords` | common/Protocol.hpp:105-138 | words written with spaces between them are cut apart again |
| `Text.WordsAtSpace` | common/Protocol.hpp:105-138 | a space is always a cut |
| `Text.WordsAreWords` | common/Protocol.hpp:105-138 | no token is empty or has a space in it |
| `Text.DecimalRead` | common/MessageQueue.cpp:177-181 | a number as it is written is read back, negative ones too, whatever but a digit follows it |
| `InvalidationText.WordsRead` | common/MessageQueue.cpp:157-184 | the words of an invalidation are read as the rectangle and the part that are written in them, and without a rectangle as everything of the part |
| `InvalidationText.MergedMessage` | common/MessageQueue.cpp:292-306 | for any message the queue can merge, cutting by token lengths stays inside it, keeps its beginning and its end and puts the four numbers between |
| `InvalidationText.MergedWords` | common/MessageQueue.cpp:292-306 | the rewritten message has the tokens of the old one but for the rectangle if and only if the message begins with its first three words, one space after each, and its first seven words end where they would at the latest with one space between any two |
| `InvalidationText.TailWords` | common/MessageQueue.cpp:293-294 | for any line of at least eight words, what is behind the added lengths of seven words is cut into the words after the seventh if and only if what is before is cut into the first seven |
| `InvalidationText.LooseIsLost` | common/MessageQueue.cpp:292-306 | the words of any invalidation, with one space more after the fourth and the fifth: the message cannot be rewritten, and is read with part 0 afterwards |
| `InvalidationText.SingleSpacedIsRewritable` | kit/Kit.cpp:1217-1232 | that is so for messages with single spaces, as the kit writes them |
| `InvalidationText.MergedReadsBack` | common/MessageQueue.cpp:157-184 | the rewritten message then has as many tokens, the same target and type, and is read as the merged rectangle on the same part |
| `InvalidationText.MergedStaysRewritable` | common/MessageQueue.cpp:292-306 | and it can be rewritten again |
| `TileQueues.TileQueue.Put` | common/MessageQueue.cpp:76-99 | the queue afterwards, for tiles, callbacks and other messages |
| `TileQueues.TileQueue.PutCombined` | common/MessageQueue.cpp:61-75 | a combined request is put as its tiles, one after another |
| `TileQueues.TileQueue.PutCancelTiles` | common/MessageQueue.cpp:32-60 | exactly the messages found are removed, and the rest keeps its order |
| `TileQueues.TileQueue.RemoveTileDuplicate` | common/MessageQueue.cpp:102-127 | the first request taken for the same goes, and no other |
| `TileQueues.TileQueue.MergeInvalidation` | common/MessageQueue.cpp:202-306 | the walk that erases while rectangles are covered or joined leaves what the merge leaves, and returns a rectangle exactly when one was joined |
| `TileQueues.TileQueue.RemoveObsolete` | common/MessageQueue.cpp:308-395 | the first update about the same goes, and no other |
| `TileQueues.TileQueue.UpdateCursorPosition` | common/MessageQueue.hpp:167-192 | the view is last in the order, once, with its cursor; the others keep their order |
| `TileQueues.TileQueue.RemoveCursorPosition` | common/MessageQueue.hpp:194-205 | the view is in neither, and the others keep their order |
| `TileQueues.TileQueue.PriorityOf` | common/MessageQueue.cpp:398-411 | the place of the latest view whose cursor is at the tile, or -1; `TileQueueGeometry.PriorityIs` says what that is in points |
| `TileQueues.PriorityAmong` | common/MessageQueue.cpp:398-411 | no later view has its cursor at the tile |
| `TileQueues.TileQueue.DeprioritizePreviews` | common/MessageQueue.cpp:413-431 | the previews in front go to the back in their order |
| `TileQueues.TileQueue.BestTile` | common/MessageQueue.cpp:458-489 | the earliest of the highest priority among the leading plain tiles, although the search ends early |
| `TileQueues.FirstChoiceIs` | common/MessageQueue.cpp:458-489 | there is only one such tile |
| `TileQueues.TileQueue.CombineTiles` | common/MessageQueue.cpp:493-522 | takes the plain tiles that combine with the first, in order, and leaves the others in order |
| `TileQueues.TileQueue.Get` | common/MessageQueue.cpp:433-536 | what is taken and what is left, and that the payload is what was taken |
| `TileQueueRuns.GetConserves` | common/MessageQueue.cpp:433-536 | what is taken and what is left is, as a multiset, what was there |
| `TileQueueRuns.GetTakes` | common/MessageQueue.cpp:458-522 | with a plain tile in front, the earliest of the highest priority comes first, with it come only plain tiles that combine with it, and none such is left |
| `TileQueueGeometry.PriorityIs` | common/MessageQueue.cpp:398-411 | a tile has priority r of at least 0 exactly if it shares a point with the cursor of view r and with that of no later view, and -1 if it shares one with none |
| `TileQueueGeometry.GetTakesTouching` | common/MessageQueue.cpp:458-522 | with a plain tile in front: the first leading tile that shares a point with the cursor of the latest view any of them shares one with, or the one in front if there is no such view; with it go the plain tiles at a height of it and few columns away, and none such is left |
| `TileQueueRuns.PayloadKeepsTiles` | common/MessageQueue.cpp:526-535 | what is handed out breaks up into the tiles taken, in order |
| `TileQueueRuns.GetMovesUp` | common/MessageQueue.cpp:433-536 | a get hands out a message other than a tile that is in front, and moves every other one up |
| `TileQueueRuns.PreviewsYield` | common/MessageQueue.cpp:413-456 | after a preview the next message is the first that is none, and the previews in front of it go to the back in their order |
| `TileQueueRuns.PutMovesUp` | common/MessageQueue.cpp:76-99 | a put never moves such a message back, and removes it only if it is the first update about the same or an invalidation that the walk absorbs |
| `TileQueueRuns.AbsorbedIsCovered` | common/MessageQueue.cpp:245-287 | an invalidation is absorbed only if it is for the same target and part and the rectangle put instead covers it |
| `TileQueueGeometry.AbsorbedIff` | common/MessageQueue.cpp:245-287 | an invalidation is absorbed if and only if it is for the same target and part, shares a point with the rectangle as it has grown by then, and is in it or makes it no wider than 15360 and no higher than 7680; what is gone on with is the least rectangle around both |
| `TileQueueGeometry.MergedArea` | common/MessageQueue.cpp:202-290 | what is put is the rectangle as it has grown in the end |
| `TileQueueGeometry.NothingMergedIff` | common/MessageQueue.cpp:202-290 | the queue stays as it is exactly if no invalidation for the target and part is in the new rectangle, and none shares a point with it that is small enough with it |
| `TileQueueRuns.SupersededIsGone` | common/MessageQueue.cpp:188-396 | what is superseded is no longer in the queue |
| `TileQueueRuns.ViewsInMoveOrder` | common/MessageQueue.hpp:167-205 | after any run the view order has every view with a cursor once, in the order of their last moves, and each cursor is where it moved last |
| `TileQueueRuns.RunAll` | common/MessageQueue.cpp:27-536 | any run of the class is the run that the theorems are about |
| `TileQueueSafety.BoundedWaiting` | common/MessageQueue.cpp:467-473 | a message other than a tile with k messages before it leaves by the (k+1)-th get at the latest, whatever is put meanwhile: handed out from the front, superseded or cancelled |
| `TileQueueSafety.LeavesIsGone` | common/MessageQueue.cpp:433-536 | a message that leaves is nowhere in the queue afterwards, and a get hands out just it |
| `TileQueueSafety.StepMovesUp` | common/MessageQueue.cpp:433-536 | every operation keeps such a message or lets it leave, and a get moves it up by one at least |
| `TileQueueSafety.NothingOvertakes` | common/MessageQueue.cpp:413-536 | over any run, messages other than tiles are handed out, and wait, in the order in which they were put |
| `TileQueueSafety.GetInOrder` | common/MessageQueue.cpp:433-536 | picking, combining and rotating keep that order |
| `TileQueueContents.UpdatesFresh` | common/MessageQueue.cpp:308-396 | after any run the queue has at most one update about anything, the last one put |
| `TileQueueContents.OnlyLatestUpdate` | common/MessageQueue.cpp:308-396 | the same for any two places in the queue |
| `TileQueueContents.MergeKeepsDamage` | common/MessageQueue.cpp:202-306 | for each target and part, the area of the queue and the new rectangle is still covered after a merge; for others it is exactly what it was |
| `TileQueueContents.MergeCovers` | common/MessageQueue.cpp:202-290 | nothing that the put rectangle covers is left, what is gone is covered by the rectangle put instead, and when none was joined none that is left could have been |
| `TileQueueContents.MergedIsReasonable` | common/MessageQueue.cpp:264-283 | a merged rectangle is at most 15360 by 7680, and one not merged is as it was put |
| `TileQueueContents.EverythingIsNotMerged` | common/MessageQueue.cpp:168-172 | a message that invalidates everything is never rewritten, so that it need not have the words for it |
| `TileQueueContents.NothingForgotten` | common/MessageQueue.cpp:188-306 | over any run that cancels no invalidation, every point of one that was put is still covered in the queue or was covered by what was handed out since |
| `TileQueueRequests.OneRequestPerTile` | common/MessageQueue.cpp:102-127 | over some tiles, every run that requests no others has each in the queue at most once, by the last request put for it, if and only if none of them is taken for another |
| `TileQueueRequests.OnceInRun` | common/MessageQueue.cpp:102-127 | and then nothing else is requested in the queue |
| `TileQueueRequests.PutTileExactly` | common/MessageQueue.cpp:116-126 | one put leaves a tile requested once if and only if the first request that is taken for it is for that tile, or there is none |
| `TileQueueRequests.PutTileOnce` | common/MessageQueue.cpp:76-82 | after a put of distinguishable requests the new one is the only one for its tile, and those for other tiles are what they were |
| `TileQueueRequests.NoMoreGot` | common/MessageQueue.cpp:433-536 | for every tile, requested any number of times, a get leaves some of the requests that there were and no others |
| `TileQueueRequests.NoWireIds` | common/MessageQueue.cpp:102-127 | tiles without wire ids are never taken for one another |
| `TileQueueRequests.RequestedTwice` | common/MessageQueue.cpp:116-126 | of any two tiles of which one is taken for the other, one is left in the queue twice by four puts |
| `TileQueueRequests.NoRequestLost` | common/MessageQueue.cpp:27-536 | in any run a request in the queue is there until it is handed out or a later one that is taken for it is put; no cancellation removes it |
| `TileQueueRequests.RequestIsPut` | common/MessageQueue.cpp:76-82 | a request is in the queue once it is put |
| `TextQueues.TextQueue.Put` | common/MessageQueue.cpp:76-99 | whatever tile request, callback or other message is put, as its text: the texts in the queue are read as the messages that the queue of messages has after that put; a text that gives the state of a command, `.uno:` and its name with or without a value, takes the first text out that gives one of the same command to the same target, and leaves every other where it was |
| `TextQueues.TextQueue.PutCombined` | common/MessageQueue.cpp:61-75 | so they are after a combined request, whose tiles are written out and put one by one |
| `TextQueues.PutAll` | common/MessageQueue.cpp:27-396 | so they are after every run of puts, which is one of the runs of the theorems on the queue |
| `TextQueues.TileRead` | common/MessageQueue.cpp:398-411 | the text of a request in the queue is parsed to the request that it is read as |
| `TextQueues.TextQueue.RemoveTileDuplicate` | common/MessageQueue.cpp:102-127 | comparing texts up to the version removes the first request taken for the same, and no other message |
| `TextQueues.DuplicateText` | common/MessageQueue.cpp:104-119 | the comparison finds exactly those requests, and never a message that is no tile request |
| `TextQueues.VersionBehindHead` | common/MessageQueue.cpp:108-112 | the version is found behind the fields of a written request and nowhere before |
| `TextQueues.TextQueue.MergeInvalidation` | common/MessageQueue.cpp:202-306 | the walk over the texts leaves those of the messages that the merge leaves; the new text, if there is one, is read as the rectangle grown, on the same part and for the same target, and the message without a rectangle never needs one |
| `TextQueues.RewrittenReads` | common/MessageQueue.cpp:292-306 | the rewritten text is again one as it is written |
| `TextQueues.TextQueue.RemoveState` | common/MessageQueue.cpp:308-343 | the first state of the same command for the same target goes, and no other |
| `TextQueues.StateIff` | common/MessageQueue.cpp:144-154 | a text is taken for a state of a command exactly if its fourth word is `.uno:` and the name, and then ends or goes on with an equals sign |
| `TextQueues.OneName` | common/MessageQueue.cpp:144-154 | no word is about two commands |
| `TextQueueStates.LastUpdateStays` | common/MessageQueue.cpp:308-396 | over any run of puts the messages about one thing that are left are just the last one put |
| `TextQueueStates.LatestState` | common/MessageQueue.cpp:308-343 | over any run of puts the queue has, of the texts that give a state of a command to a target, just the last one that was put, as it was put |
| `TextQueueStates.LatestStatus` | common/MessageQueue.cpp:344-393 | so it has of the callbacks to a target of each of the types 1, 5, 10, 13 and 17 |
| `TextQueueStates.LatestViewStatus` | common/MessageQueue.cpp:344-393 | and of each of the types 24, 26 and 28 for each view |
| `TextQueueStates.OtherCallbacks` | common/MessageQueue.cpp:188-396 | a callback of any other type supersedes nothing and is never superseded |
| `TextQueues.TextQueue.RemoveStatus` | common/MessageQueue.cpp:344-393 | the first callback of the same type and target goes, of the same view where it is about a view, and no other |
| `TextQueues.TextQueue.RemoveCallbackDuplicate` | common/MessageQueue.cpp:188-396 | with the new text, or the old one where there is none, put behind what is left, the texts are read as the queue after the put |
| `PngCaching.PngCache.ClearCache` | kit/Kit.cpp:448-459 | nothing is left, and ids start over |
| `PngCaching.PngCache.CreateNewWireId` | kit/Kit.cpp:461-469 | a fresh id; at the 32-bit wrap everything is cleared instead |
| `PngCaching.PngCache.HashToWireId` | kit/Kit.cpp:592-606 | the id that the map has for this hash, a fresh one put there if it has none, and 0 for hash 0; no id is issued to two hashes |
| `PngCaching.PngCache.ShrinkCache` | kit/Kit.cpp:474-505 | for every iteration order: at least one entry goes and none that was hit more than average, with one more of those that are gone the cache would be over the soft limit, entries kept lose a hit, the size stays the sum of the pictures, and the cache ends at or under the hard limit or with only entries hit more than average; the average never divides by zero |
| `PngCaching.PngCache.ForgetOldIds` | kit/Kit.cpp:507-519 | exactly the latest ids stay, at most 4096, for every iteration order |
| `PngCaching.PngCache.BalanceCache` | kit/Kit.cpp:470-520 | nothing changes at or under the hard limit, and the cache is shrunk over it; the ids stay as they are up to 4096, and exactly the latest stay beyond |
| `PngCaching.SomeNotAboveAverage` | kit/Kit.cpp:476-502 | some entry was hit no more than average, so something can always go |
| `PngCaching.FewIds` | kit/Kit.cpp:507-519 | distinct ids of a range are no more than the range is long |
| `PngCaching.SizeWithout` | kit/Kit.cpp:485-502 | the size of a cache is the same in whatever order it is summed |
| `PngCaching.OneVisited` | kit/Kit.cpp:485-502 | erasing during the walk keeps what is ahead, the size and the promise about what was kept |
| `PngCaching.PngCache.CacheTest` | kit/Kit.cpp:524-545 | a hit exactly for a hash that is cached, with its picture behind the output |
| `PngCaching.PngCache.Store` | kit/Kit.cpp:567-574 | the entry is in the cache under its hash, and the size stays the sum of the pictures |
| `PngCaching.PngCache.CacheEncode` | kit/Kit.cpp:546-584 | the picture behind the output, stored for its hash, and the cache and the ids balanced; nothing changes when encoding fails |
| `PngCaching.PngCache.EncodeSubBufferToPNG` | kit/Kit.cpp:620-632 | the picture of the hash is appended: from the cache, with one hit more, or encoded, stored and balanced; nothing is if that fails |
| `PngCaching.RenderRun` | kit/Kit.cpp:592-632 | in any run short of the wrap, equal wire ids mean equal hashes, evictions, forgotten ids and failed encodings notwithstanding, and each tile comes out as its own picture or, only if it does not encode, not at all |
| `CombinedRendering.Rectangle.Extend` | common/Rectangle.hpp:42-52 | the least rectangle around both |
| `CombinedRendering.LayOut` | kit/Kit.cpp:930-949 | the area is the least rectangle with all tiles in it |
| `CombinedRendering.WindowInside` | kit/Kit.cpp:951-954 | every tile's window lies inside the picture, on a grid or not |
| `CombinedRendering.WindowsSameOrDisjoint` | kit/Kit.cpp:1010-1018 | two windows are the same if the tiles fall into one cell, and disjoint if not |
| `CombinedRendering.DistinctTilesDisjoint` | kit/Kit.cpp:1010-1018 | on a grid, windows are disjoint if and only if the tiles are at different places |
| `CombinedRendering.WindowShowsTile` | kit/Kit.cpp:992-997 | on a grid, each window shows what the tile shows when it is painted alone |
| `CombinedRendering.RenderTile` | kit/Kit.cpp:1008-1056 | erasing or describing one tile keeps the tiles and their rectangles in step |
| `CombinedRendering.EncodeTile` | kit/Kit.cpp:1026-1049 | a tile is skipped exactly when the client has the wire id of its hash; otherwise its own picture is appended, or encoding failed |
| `CombinedRendering.RenderCombinedTiles` | kit/Kit.cpp:925-1078 | the header has exactly the tiles not skipped, in order, each with its id and the size of its own picture; no response exactly when all were skipped or one did not encode |
| `CombinedRendering.SizesPartition` | kit/Kit.cpp:1050-1054 | the image sizes in the header cut the output into the pictures of those tiles with nothing left over |
| `CombinedRendering.SkippedIsUnchanged` | kit/Kit.cpp:1029-1038 | a skipped tile has the very hash for which the client got its wire id |
| `TileIdentity.AloneIsCutOut` | kit/Kit.cpp:992-1027 | on a grid, with what the page shows the same, the bytes of a tile painted alone are those cut out of the combined picture |
| `TileIdentity.AloneId` | kit/Kit.cpp:891-892 | the hash of a tile rendered alone is that of its bytes, and its wire id is remembered for it |
| `TileIdentity.CombinedId` | kit/Kit.cpp:1010-1029 | in a combined picture the tile gets the hash that it has alone, and while an id is remembered for that hash, that id |
| `TileIdentity.AloneThenCombined` | kit/Kit.cpp:891-1034 | rendered alone and then among others, an unchanged tile has the same hash and the same wire id, and a client that kept the id is sent it again only if the hash is 0 |
| `Levenshtein.GetLevenshteinDist` | common/JsonUtil.hpp:44-75 | the matrix filled in place ends with the edit distance |
| `Levenshtein.DistanceIsShortest` | common/JsonUtil.hpp:44-75 | which is the length of a shortest script of inserts, deletes and substitutions |
| `Levenshtein.NoShorterScript` | common/JsonUtil.hpp:44-75 | no script is shorter |
| `Levenshtein.ShortestScript` | common/JsonUtil.hpp:44-75 | one is as short |
| `Levenshtein.OneEdit` | common/JsonUtil.hpp:62-70 | one edit anywhere changes the distance by at most one, up or down |
| `Levenshtein.DistanceSymmetric` | common/JsonUtil.hpp:44-75 | it is symmetric |
| `Levenshtein.DistanceZeroIffEqual` | common/JsonUtil.hpp:44-75 | zero if and only if the strings are equal |
| `Levenshtein.DistanceTriangle` | common/JsonUtil.hpp:44-75 | and obeys the triangle inequality |
| `Chunks.FindHeaderEnd` | net/Socket.cpp:450-460 | where the first blank line ends, if there is one |
| `Chunks.MarkerIs` | net/Socket.cpp:450-460 | a blank line is the bytes 13, 10, 13, 10 |
| `Chunks.HexDigits` | common/Util.hpp:173-183 | each of the sixteen digits has its value in either case, and no other byte is a digit |
| `Chunks.HexRead` | common/Util.hpp:173-183 | a size that is written in hexadecimal, each letter in either case, is read back |
| `Chunks.WrittenChunk` | net/Socket.cpp:522-543 | any data behind its size so written is a chunk of the kind that the parser is proved for |
| `Chunks.ReadSizeLine` | net/Socket.cpp:522-543 | the size in the line in front of a chunk, and where its data begins, for any extensions and white space |
| `Chunks.ParseChunks` | net/Socket.cpp:508-575 | complete exactly when every chunk so far is closed and the last one has come; the spans are then those of the data |
| `Chunks.DataSpansOrdered` | net/Socket.cpp:508-575 | the spans are ordered, disjoint and inside the buffer |
| `Chunks.SpansCollate` | net/Socket.cpp:508-575 | put together they are the header and all chunk data |
| `Chunks.CompactChunks` | net/Socket.cpp:602-633 | the moves to the left leave the collated spans and the untouched rest, with the message size their length |
| `Chunks.MoveLeft` | net/Socket.cpp:611-617 | a move within a buffer to the left, source and target overlapping or not |
| `Chunks.ParseAndCompact` | net/Socket.cpp:508-633 | a chunked message becomes its header and its data in place, with what follows it behind |
| `DelayLine.StepKeeps` | net/DelaySocket.cpp:125-220 | every poll of either twin keeps the invariant and meets the asserted conditions |
| `DelayLine.RunKeeps` | net/DelaySocket.cpp:125-220 | so does every interleaving of polls |
| `DelayLine.RunExists` | net/DelaySocket.cpp:101-123 | no schedule gets stuck on an assertion |
| `DelayLine.BytesInOrder` | net/DelaySocket.cpp:125-220 | each end writes a prefix of what the other read, and each twin queues at most one close |
| `DelayLine.CloseIsLast` | net/DelaySocket.cpp:158-210 | a close is acted on only after all data queued before it |
| `DelayLine.StaysSilent` | net/DelaySocket.cpp:101-123 | a twin that stopped reading never reads again |
| `DelayLine.CleanClose` | net/DelaySocket.cpp:158-210 | a twin that closes without an error has written all that was read for it |
| `DelayTimes.DueIff` | net/DelaySocket.cpp:166-167 | a chunk is due if and only if it was to be sent less than a millisecond from now, or before |
| `DelayTimes.SentEarly` | net/DelaySocket.cpp:166-167 | a run that writes a byte 999999 nanoseconds less than the delay after it was read |
| `DelayTimes.NeverEarly` | net/DelaySocket.cpp:125-220 | over every run each byte that an end has written is one that the other has read, more than the delay less a millisecond before |
| `DelayTimes.CloseNeverEarly` | net/DelaySocket.cpp:168-172 | over every run a close in a queue is acted on no sooner after it was queued, errors and hangups apart |
| `DelayTimes.DueIsWritten` | net/DelaySocket.cpp:173-208 | a poll without hangup or error that meets data that is due, and room for n bytes, writes exactly the first n of the chunk or all of it, and keeps the rest in front |
| `DelayTimes.DueCloses` | net/DelaySocket.cpp:168-172 | one that meets a close that is due closes |
| `DelayTimes.FlushedCloses` | net/DelaySocket.cpp:158-162 | so does one of a twin that has no more to read or to write |
| `DelayTimes.EarlyWaits` | net/DelaySocket.cpp:163-167 | one that meets a chunk before its time writes nothing, drops nothing and closes nothing |
| `DelayTimes.Delivered` | net/DelaySocket.cpp:158-210 | a twin that is polled as many times as bytes are queued, when they are due and with room for at least one each time, has written all that the other one read, and after one more poll has acted on its close |
| `DelaySockets.DelaySocket.HandlePoll` | net/DelaySocket.cpp:125-220 | one poll is one step of the pair, with the chunks of the other twin and the closing of both; the lemmas of DelayTimes say when a step writes and closes |
| `DelaySockets.DelaySocket.HandleRead` | net/DelaySocket.cpp:128-156 | what was read is queued at the destination; the end or an error queues one close there |
| `DelaySockets.DelaySocket.HandleWrite` | net/DelaySocket.cpp:158-210 | a chunk in front that is due is written as far as the write goes, a close that is due is acted on, and nothing else happens |
| `DelaySockets.DelaySocket.ChangeState` | net/DelaySocket.cpp:101-123 | the changes of state with what they queue and drop |
| `DelaySockets.RunTurns` | net/DelaySocket.cpp:231-249 | any schedule of polls of a created pair is one of the runs that the theorems are about |
| `PixmapCache.ChildSession.RenderWindow` | kit/ChildSession.cpp:1317-1402 | after any history of paints the list is exactly the distinct hashes by last use, cut at 100; the hash alone is sent exactly when it was among them, the picture when it was not and encodes, and nothing when it was not and does not |
| `PixmapCache.TileLayer.OnDialogPaintMsg` | loleaflet/src/layer/tile/TileLayer.js:1663-1681 | the client shows the picture that it keeps under the hash, even an absent one, rather than the one that came in, keeps it in front, and drops the last of 100 |
| `PixmapCache.PaintAll` | kit/ChildSession.cpp:1317-1402 | list and client over any run of paints: what is shown of each is what the theorems speak of |
| `PixmapCache.ClientHashes` | loleaflet/src/layer/tile/TileLayer.js:1666-1681 | the client keeps exactly the distinct hashes that it was told of, by last use, cut at 100 |
| `PixmapCache.AllShownIff` | kit/ChildSession.cpp:1317-1382 | over any run of paints without collisions the client shows the right picture of everything that it is told of if and only if each hash announced alone is among the 100 latest that it was told of |
| `PixmapCache.UnspoiltIsShown` | kit/ChildSession.cpp:1317-1382 | it does unless a hash is announced alone whose last paint before failed to encode |
| `PixmapCache.AllEncode` | kit/ChildSession.cpp:1317-1382 | when every picture encodes, everything is shown and the hashes that the client keeps are those of the list |
| `PixmapCache.NeverSent` | kit/ChildSession.cpp:1346-1382 | a run in which a hash is announced alone before its picture was ever sent has something that is not shown |
| `PixmapCache.FailsOnce` | kit/ChildSession.cpp:1346-1382 | a picture that fails to encode once is announced by its hash at the next paint, and not shown |
| `PixmapCache.ByLastUseDistinct` | kit/ChildSession.cpp:1328-1346 | no hash is in the list twice, and exactly those used are |
| `PixmapCache.ByLastUseOrdered` | kit/ChildSession.cpp:1328-1346 | the latest use comes first |
| `PixmapCache.TouchKeepsFirst` | kit/ChildSession.cpp:1328-1346 | cutting the list at every paint loses nothing of the first 100 |

## Left out

- Delta.MakeDelta: bitmaps wider or higher than 256, whose columns, rows and counts do not fit the one byte that the format has for each.
- SpookyHashing.SpookyHash.Update: unaligned reads and big-endian machines; Mix, End, ShortMix and ShortEnd are functions of the state, not updates of reference parameters.
- WebSocketFrames.ParseEncode: payloads of 2 to the 63 bytes and more, which section 5.2 of RFC 6455 rules out.
- WebSocketHandlers.WebSocketHandler.ReadHeader: header and payload length are added as natural numbers; at net/WebSocketHandler.hpp:220 the sum wraps at 2 to the 64, and what the code does with a frame that it then takes for complete (`WebSocketFrames.TakenAsCompleteIff` says which) is not modelled, as it reads behind the buffer.
- WebSocketStream.StepKeepsGathered: speaks of input that does not wrap that sum around.
- WebSocketStream.PollsKeepGathered: likewise.
- WebSocketStream.ClosedStream: whether the kernel delivers anything after the socket was shut down is not modelled; the theorem says what the handler would do with it.
- WebSocketStream.FragmentedMessage: a message in fragments is reported under the code of its last fragment, as in the code, although a handler would rather know that of the first.
- WebSocketStream.PingEchoed: an empty ping is not answered, because sendFrame refuses to send nothing.
- WebSocketHandlers.WebSocketHandler.HandleControl: a close payload of one byte is taken for none; the code reads the byte behind it.
- WebSocketHandlers.WebSocketHandler.HandleClientUpgrade: what the HTTP library makes of a response is a parameter.
- WebSocketHandlers.WebSocketHandler.SendFrame: the final bit is always set, as in every call; the output buffer is all that was ever queued; flushing, partial writes, ping timers and the filters for unit tests are not modelled.
- TileQueues.TileQueue.Put: messages are values; TextQueues ties them to their texts for puts, of texts in the form that the kit and the server write (`TextQueues.AsWritten`: a message begins with its first word, no other word than `callback` begins so, and an invalidation with a rectangle can be rewritten).
- TextQueues.TextQueue.Put: which view the JSON text of a callback names is a parameter, as is that TileCombined::parse reads back what was sent; getting and cancelling are modelled on messages only.
- TextQueueStates.LatestState: names with an equals sign in them, which no command has.
- TileQueueGeometry.PriorityIs: cursors of a negative size, which have no points; `Tiles.IntersectIff` says what the code makes of any rectangle.
- TileQueueGeometry.AbsorbedIff: likewise invalidations of a negative size.
- SpookyApart.OneWordApart: speaks of the whole state that a message ends in; the hash is two words of it, and messages with one hash exist, as for any hash.
- TileIdentity.CombinedId: pictures without a watermark.
- PixmapCache.AllShownIff: hashes are assumed not to collide.
- TileQueues.TileQueue.PutCancelTiles: which messages other than tile requests have a version in their text is a parameter.
- TileQueues.TileQueue.Get: waiting for a message, time-outs and the mutex; an operation is one step.
- Text.DecimalRead: numbers that do not fit an int.
- TileParsing.ParseSerialize: fields that do not fit an int; the wire ids are below 2 to the 32, as TileWireId is.
- PngCaching.RenderRun: runs that reach the 32-bit wrap of the wire ids, where the client is not told that ids start over; hashes are assumed not to collide.
- CombinedRendering.RenderCombinedTiles: a request without tiles, for which the code subtracts limits of int; what the pixmap shows, its hash and its encoding come as a function of the window; watermarks, the checks for a loaded document and a session, and the text of the header are not modelled.
- CombinedRendering.WindowShowsTile: painting is taken to be exact at every point, without rounding.
- Chunks.ParseChunks: input that ends inside the line in front of a chunk or lacks at most two bytes of a chunk, for which the code looks behind the end of the buffer; reading the HTTP header itself and bodies with a content length.
- DelayLine.StepKeeps: the clock and the kernel are parameters of a step: what a read or write returns, and the times at which chunks are to be sent.
- DelayTimes.NeverEarly: the clock is steady, so that a chunk queued during a poll is stamped with the delay behind the time that the poll was given, or more; which events a poll waits for (getPollEvents) is not modelled.
- Coordinates and sizes are mathematical integers; 32-bit overflow of positions is not modelled.
- MessageQueueBase::remove_if, which calls std::remove_if without erasing.
- SenderQueue, TileCache, DocumentBroker, sessions, storage, process handling, TLS and the rest of the repository.
