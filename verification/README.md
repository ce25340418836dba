# Firehose: a verified model of its codec, protocol and supporting structures

Firehose is a publish-subscribe system that ships its own LZ4 codec, streaming hashes, a
consistent-hash ring and a log writer. This project models their logic in Dafny 4.11 and proves
what they are for: a compressed block decodes to its input, a fast decoder agrees with a simple
one, a consumer gets every published message once and in order, an incremental hash equals the
hash of the whole.

`dafny verify dfyconfig.toml` checks all of it.

## What is modelled

**The LZ4 block codec** (`external/lz4.c`, `external/lz4hc.c`), in its x86-64 configuration:
eight-byte words, little endian, `LZ4_FAST_DEC_LOOP` = 1, no dictionary. Addresses are indices into
byte arrays, and every load and store is an array access, so that the verifier also shows that none
leaves a buffer. Hash functions are parameters: nothing depends on their choice. The reference is
the LZ4 Block Format description, sections "Compressed block format" and "End of block
restrictions"; `Lz4Format` holds it as a byte-at-a-time decoder, and everything else is proved
against that decoder.

- `Lz4Format`: the reference decoder, the layout of one sequence, and the lemmas that tie the two.
- `Lz4Layout`: the block format once more, as a grammar of bytes, and the proof that the reference
  decoder accepts it and nothing else.
- `Lz4Copy`: the copies that write in strides of 8, 16 or 32 bytes, and the tables for short
  distances.
- `Lz4Decompress`: `LZ4_decompress_generic` with its fast loop, its shortcut, its safe loop and
  partial decoding. The constructors of `Point` are the places that the code jumps to, and `Inv`
  says what holds at each of them.
- `Lz4Count`, `Lz4Emit`, `Lz4Fast`, `Lz4Api`: the fast compressor, its table over many calls, and
  its entry points.
- `Lz4hcIndex`, `Lz4hcMatch`, `Lz4hcSearch`, `Lz4hcEncode`, `Lz4hcParser`, `Lz4hcOptimal`, `Lz4hcApi`:
  the high-compression encoder with its chain index, its search, its two parsers and its levels. The
  search is proved to lose nothing by its shortcuts: what it passes over without comparing it is no
  wider than what it finds.

**The dissemination protocol** (`src/firehose/pump.cpp`, `engine.cpp`, `nuzzle.cpp`). The handlers
are classes; the step functions they are proved against make up a state machine with one pump, a
group of engines that may crash between any two sends, any number of nuzzles, and connections that
deliver in order. `SubscriptionRuns` models how the tables of subscriptions come about: an engine
lists a nuzzle for a topic exactly as often as the nuzzle has received a subscription for it. The
environment is this: one pump, as many engines as the group size says, and subscriptions that have
reached the engines before the run and do not change during it. Then, for every consumer of a topic,
the guarantees hold in every state of every run if and only if its nuzzle has received one
subscription for the topic, from whichever consumer (`SubscriptionRuns.OneSubscriptionExactly`); the
single guarantees are stated for those topics, `Clean` being what a consumer has been sent of them.
Message ids count modulo 2^64; the results hold for runs in which no id has been given twice.

**The framed message layer** (`src/include/network.cpp`). Sender and receiver are classes over the
same step functions as the state machine, in which pushing a message and posting its `try_send` are
two steps, and the byte stream takes what is written in pieces of any size.

**The log writer** (`external/lazywriter/lazywriter.h`): a ring of linked blocks that grows in place.

**The streaming hashes and the ring** (`external/xxhash/xxhash.c`, `external/libketama/md5.c`,
`external/libketama/ketama.c`). The arithmetic of xxHash rounds and the MD5 block function are
parameters. MD5 is defined as in RFC 1321, sections 3.1 and 3.2. `XxHashForm` and `Md5Form` say what
the definitions come to in words and bytes.

## Where code and documentation differ, or a promise does not hold everywhere

- An empty output buffer: `LZ4_decompress_safe` accepts exactly the block `[0]`, although a token
  whose unused low half is not zero also decodes to nothing (`Lz4Decompress.RefusedByEmptyOutput`).
- Two subscriptions for a topic at one nuzzle, be they of one consumer or of two, list the nuzzle
  twice at every engine, and the nuzzle counts every request twice: a minority is enough for a
  delivery, and in a group of one the request is delivered twice. `DisseminationExact.ExactCondition`
  says that this is so for every such topic, and for no other.
- With a target size, `LZ4_compress_destSize` and `LZ4_compress_HC_destSize` are to fill the target;
  the length of a last run that is cut is computed from the room in a way that may leave one byte
  unused, and one more for every 65025 bytes of the target (`Lz4Fast.ShrunkRun`).
- Looking backwards too, as the lazy parser does, the shortcut for repeated patterns of level 9 may
  pass over a wider match (`Lz4hcSearch.LookingBackLoses`); of the part of a match that lies ahead it
  loses nothing (`Lz4hcSearch.Search`).
- The log writer never writes the beginning of the last block
  (`LazyWriter.LazyWriter.WriterLoop` states what is written, to the byte).
- `XXH64_digest` would take a total that has wrapped past 2^64 to less than 32 for a short input
  (`XxHash.XXH64State.Digest` states both cases).

## Model

| member | source | states |
|---|---|---|
| Lz4Format.CopyMatchUnique | external/lz4.c:1843-1853 | a byte string that extends the output and repeats itself at the offset is the only result of copying a match byte by byte |
| Lz4Format.TailRoom | external/lz4.c:199-200 | in a block that meets the end-of-block restrictions a token behind a match still has a token and five literals in front of it, and the last match starts twelve bytes before the end |
| Lz4Format.DecodeSequence | external/lz4.c:1858-2076 | the reference decoder passes over one encoded sequence, appending its literals and its match |
| Lz4Layout.DecodesExactlyTheLayout | external/lz4.c:1858-2076 | the reference decoder accepts exactly the byte strings laid out as tokens, lengths with their 255s, literals, and offsets with the low byte first, and what they decode to is said by their literals and matches alone |
| Lz4Layout.LaidOutDecodes | external/lz4.c:1858-2076 | anywhere in a block, sequences that are laid out in this way are decoded one by one to their literals and matches |
| Lz4Layout.ShortForm | external/lz4.c:362-370 | a block of one short sequence and closing literals, written out byte by byte |
| Lz4Layout.LongForm | external/lz4.c:1639-1659 | the same with all three lengths extended, by any number of 255s and a last byte |
| Lz4Format.ReachesNext | external/lz4.c:993-1112 | appending a sequence that stands for a true match to an encoded prefix of the input gives an encoding of the longer prefix, whatever follows it |
| Lz4Format.ReachesLast | external/lz4.c:1176-1202 | closing literals turn an encoded prefix into a block that decodes to exactly the input up to their end |
| Lz4Copy.WildLoad | external/lz4.c:384-392 | the wild copies store exactly the wanted bytes below the end they are given, leave what lies in front alone, and stay below the end plus one stride |
| Lz4Copy.WildMove | external/lz4.c:384-392 | inside one buffer, at a distance of at least eight, the wild copy makes every byte equal to the one at that distance before it, overlap included |
| Lz4Copy.WildMove32 | external/lz4.c:437-445 | the same for two 16-byte copies a stride, from a distance of sixteen on |
| Lz4Copy.StretchedIsPeriodic | external/lz4.c:394-395 | after eight bytes the distance that the two tables give is at least eight and a multiple of the offset, and so is the one after four |
| Lz4Copy.RepeatsShorter | external/lz4.c:413-432 | what repeats at the offset and is continued at a multiple of it repeats at the offset throughout |
| Lz4Copy.FirstEight | external/lz4.c:416-429 | the first eight bytes of a match at any distance repeat at that distance, and the source position left behind is the one the tables give |
| Lz4Decompress.ReadVariableLength | external/lz4.c:1639-1659 | the sum is that of the reference modulo 2^32, with exactly the error cases of the code |
| Lz4Decompress.CopyPattern | external/lz4.c:450-482 | a match at distance 1, 2 or 4 that is stored as an eight-byte pattern over and over repeats at its distance |
| Lz4Decompress.CopyUsingOffsetBase | external/lz4.c:413-432 | a match at any short distance, overlap included, is what copying byte by byte gives |
| Lz4Decompress.FastLiterals | external/lz4.c:1727-1771 | the literal half of a round of the fast loop keeps the invariant that ties the decoder to the reference |
| Lz4Decompress.FastMatch | external/lz4.c:1773-1853 | the match half of a round of the fast loop keeps it |
| Lz4Decompress.SafeToken | external/lz4.c:1860-1913 | the token of the safe loop and both stages of its shortcut keep it |
| Lz4Decompress.SafeLiterals | external/lz4.c:1915-1977 | the literals of the safe loop keep it, near either end of the buffers too |
| Lz4Decompress.SafeCopy | external/lz4.c:1995-2075 | the match copy of the safe loop keeps it, cut at the end of a partial output and byte by byte near the end of a full one |
| Lz4Decompress.NoLongRunAtEnd | external/lz4.c:1737-1740 | a length that the early end of the read refuses cannot occur in a block the decoder has to accept |
| Lz4Decompress.DecompressGeneric | external/lz4.c:1667-2089 | a nonnegative result means that the reference decoder accepts the block and the output is its output; every block that meets the end-of-block restrictions is decoded when it fits; a partial decoding of such a block gives exactly its first bytes; an empty output accepts exactly the block [0] |
| Lz4Decompress.DecompressSafe | external/lz4.c:2094-2100 | the same for the full decoding of arbitrary bytes |
| Lz4Decompress.DecompressSafePartial | external/lz4.c:2102-2109 | on a valid block the result is the first min(target, n) bytes |
| Lz4Decompress.RefusedByEmptyOutput | external/lz4.c:1711-1715 | a valid block that decodes to nothing and that an empty output refuses |
| Lz4Count.Count | external/lz4.c:578-606 | the count by words, then by 4, 2 and 1 bytes, is the length of the longest common run below the limit |
| Lz4Count.CommonIsLongest | external/lz4.c:578-606 | that run is equal, and longer it is not |
| Lz4Emit.EmitOffset | external/lz4.c:1039-1042 | the low byte of the offset and then the high one, as the reference decoder reads them |
| Lz4Emit.SequenceEmitted | external/lz4.c:993-1108 | the five parts of a sequence, once they stand in the output, are read back by the reference decoder as that sequence |
| Lz4Emit.EncodedNext | external/lz4.c:993-1112 | writing a sequence for a true match keeps the output an encoding of the input up to the end of the match |
| Lz4Emit.EncodedLast | external/lz4.c:1176-1202 | the closing literals make the output a block that decodes to the input up to their end |
| Lz4Emit.SequenceIsSmall | external/lz4.h:170-171 | a sequence takes at most 256/255 of the input it covers |
| Lz4Emit.LastRunFits | external/lz4.h:170-171 | so the whole block stays within n + n/255 + 16 |
| Lz4Fast.EncodeLiterals | external/lz4.c:993-1018 | literals are written only where they fit the budget, wild copy included, and what is in front stays an encoding when they do not; a limited output fails exactly when literals, an offset and the last literals with their tokens do not fit |
| Lz4Fast.WriteMatchLength | external/lz4.c:1095-1107 | four 255s at a time and the remainder give the length extension, with stores that reach at most three bytes too far |
| Lz4Fast.CutMatch | external/lz4.c:1069-1076 | a match cut in fill-output mode is shorter, and its extension ends exactly six bytes before the budget |
| Lz4Fast.ChooseLength | external/lz4.c:1047-1094 | the length is that of the longest true match that ends no later than matchlimit, unless a fill-output budget cuts it; a limited output fails exactly when this length does not fit |
| Lz4Fast.CatchUp | external/lz4.c:989-991 | extending a match backwards keeps it a true match at the same offset, and it cannot be extended any further |
| Lz4Fast.ShrunkRun | external/lz4.c:1179-1185 | a shrunk last run fits the budget, keeps the five literals that the end of a block needs, and leaves at most one byte unused, and one more for every 65025 bytes of the budget |
| Lz4Fast.FastState.IsMatch | external/lz4.c:972-984 | a candidate passes if and only if it lies in this input, within 65535 bytes unless the table is byU16, and its four bytes are those at the position; then it is a true match at a distance of 1 to 65535, in byU16 mode too |
| Lz4Fast.FastState.FindMatch | external/lz4.c:926-987 | the search probes positions at the gaps of the code and ends at the first one whose candidate passes; when it finds nothing, all probed positions have failed and the next one is too near the end; the table then holds what was stored |
| Lz4Fast.GapWidens | external/lz4.c:926-943 | the gap between probes is 1 behind the first one, then 64 times the acceleration, 64 times one more, and so on |
| Lz4Fast.FilledHolds | external/lz4.c:712-745 | behind any stores a slot holds the last position with its hash, or what it held before |
| Lz4Fast.FirstFails | external/lz4.c:926-987 | in particular the first position was probed, against what the table held before the search |
| Lz4Fast.FastState.TestNext | external/lz4.c:1117-1169 | the position behind a match continues without a search if and only if the candidate in its slot passes, after the position two bytes before it was stored |
| Lz4Fast.FastState.ClearPositions | external/lz4.c:1077-1089 | after a match was cut, no entry lies beyond its new end |
| Lz4Fast.FastState.EncodeMatch | external/lz4.c:1020-1108 | from a match to the end of its sequence: the output is again an encoding, with the longest match, and without room it is as it was in front of the token; a limited output fails exactly when the length does not fit |
| Lz4Fast.FastState.MatchRun | external/lz4.c:1020-1169 | sequences that follow one another without a search keep the encoding, the budget and the table, although _next_match is entered with no fresh check; when a limited output fails, the sequence that does not fit is named |
| Lz4Fast.FastState.Round | external/lz4.c:902-1171 | one search and its sequences; the loop ends only behind a search that found nothing, or too near the end for another one |
| Lz4Fast.EasyMatch | external/lz4.c:902-1171 | one byte over and over, from an empty table: the second position finds the first one, and their match takes all but five bytes |
| Lz4Fast.FastState.PrepareTable | external/lz4.c:781-819 | whatever a state has been used for, the next input can be compressed with its table: entries of the past are out of reach of every index of the input, or are rejected by index; the table is cleared in exactly the cases of the code, and kept otherwise |
| Lz4Fast.FastState.CompressGeneric | external/lz4.c:823-1211 | for both table types and all three output modes, and for every hash and acceleration: a nonzero result is a block that decodes to the consumed input, meets the end-of-block restrictions, and keeps to the budget and to LZ4_compressBound; it ends in literals only where the last search has failed at every position it probed; a zero result has only the reasons of the code, which for a limited output means that a sequence or the last literals that were reached do not fit |
| Lz4Api.CompressFastExtState | external/lz4.c:1214-1235 | a compressed block decodes to the whole input, and with the space of LZ4_compressBound there is one; one byte over and over, at least 13 times and up to LZ4_MAX_INPUT_SIZE, always fits n/255 + 16 bytes |
| Lz4Api.CompressFastReset | external/lz4.c:1246-1281 | the same on the table that earlier calls have left behind, and the state stays fit for the next call even when this one fails |
| Lz4Api.CompressDestSize | external/lz4.c:1312-1326 | the output fits the target, the consumed count is at most the input size, the block decodes to exactly the consumed prefix and meets the end-of-block restrictions; for every target of at least one byte there is a block, and input is left over only when the target is full up to one byte and one more for every 65025 |
| Lz4Api.RoundTrip | external/lz4.c:1246-1281 | compressing and decompressing into a buffer of at least the input size, which may be empty, gives the input back |
| Lz4Api.CompressAll | external/lz4.c:781-819 | any number of inputs on one state, with failures and resets in between: every block decodes to its input |
| Lz4hcIndex.LinksNext | external/lz4hc.c:117-135 | the slots of the chain, kept modulo 65536, are not reused inside the window |
| Lz4hcIndex.HcState.Insert | external/lz4hc.c:117-135 | after the call the index holds exactly the positions below the target |
| Lz4hcIndex.ChainStep | external/lz4hc.c:117-135 | a step along the chain leads to the previous position with the same hash, or out of the window |
| Lz4hcIndex.IndexIsScan | external/lz4hc.c:117-135 | walking the hash table and then the chain visits, newest first, exactly what a linear scan of the window finds |
| Lz4hcIndex.ScanContains | external/lz4hc.c:117-135 | the linear scan lists exactly the positions of the window with the hash, in descending order |
| Lz4hcIndex.HcState.InitInternal | external/lz4hc.c:99-113 | the next input starts 64 KB above everything that was indexed, or, beyond one GB, on cleared tables, so that for every input the index is that of an empty prefix |
| Lz4hcIndex.HcState.ResetStreamFast | external/lz4hc.c:998-1010 | a dirty state is initialised again, and any state is fit for the next input |
| Lz4hcMatch.CountBack | external/lz4hc.c:139-152 | the backward count is the longest agreement in front of the two positions |
| Lz4hcMatch.CountPattern | external/lz4hc.c:171-199 | the count is exact for every pattern of four bytes: what is counted repeats it, and the next byte breaks the repetition |
| Lz4hcMatch.ReverseCountPattern | external/lz4hc.c:204-219 | the same going backwards from the end of the pattern |
| Lz4hcMatch.FilterIsSound | external/lz4hc.c:284-285 | a candidate that the comparison of two bytes turns away is no wider than the best match so far |
| Lz4hcMatch.TryCandidate | external/lz4hc.c:279-293 | a candidate changes the best match exactly when it is wider, and then to a true match around the position |
| Lz4hcSearch.TakeRepetition | external/lz4hc.c:387-403 | the length that the shortcut for repeated patterns takes without comparing anything is that of a true match, and as long as the stretch or the repetition allows |
| Lz4hcSearch.PatternShortcut | external/lz4hc.c:348-405 | the shortcut is taken if and only if the pattern stands in front of the candidate; it keeps the best match a true one, and no candidate it passes over is wider, going forward, than the best match or the next candidate |
| Lz4hcSearch.StretchCovered | external/lz4hc.c:370-386 | within a stretch of equal bytes no candidate between the two ends that the code chooses from is wider than what it goes on with |
| Lz4hcSearch.SwapChain | external/lz4hc.c:312-334 | the jump to a better chain is as long as the largest step of the first 17 positions of the match at least, and passes over no wider candidate |
| Lz4hcSearch.BetterChain | external/lz4hc.c:312-334 | of the positions that are looked at inside the match just found, the first 17 among them, the one is taken whose stored distance is the largest |
| Lz4hcSearch.ChainSkips | external/lz4hc.c:407-408 | following the chain of any position inside the best match passes over no candidate that is wider |
| Lz4hcSearch.Search | external/lz4hc.c:262-410 | for every effort: nothing or a true wider match, at least as wide as the newest candidate and as every one of the last maxNbAttempts positions, and unless it jumps between chains, as every position with fewer than that many newer ones of its hash; behind the analysis of patterns widths count forwards |
| Lz4hcSearch.InsertAndGetWiderMatch | external/lz4hc.c:234-442 | the length given, or a longer true match that starts between the lower limit and the position, at a distance of at most 65535, with the same promise |
| Lz4hcSearch.WidestOfWindow | external/lz4hc.c:234-442 | with an attempt for every position of the window the result is the widest match of the window: the shortcuts lose nothing |
| Lz4hcSearch.LookingBackLoses | external/lz4hc.c:370-386 | an input and a search that looks backwards too, for which the shortcut for patterns passes over the widest candidate |
| Lz4hcEncode.WriteMatchLength | external/lz4hc.c:511-523 | pairs of 255s, at most one more and the remainder give the length extension |
| Lz4hcEncode.EncodeSequence | external/lz4hc.c:462-530 | a legal match is written as a sequence of the expected size that keeps the output an encoding; it is refused exactly when the literals or the length do not fit, and then everything in front of the token stays as it was |
| Lz4hcEncode.EncodeLast | external/lz4hc.c:709-738 | the closing literals give a block that decodes to what was consumed, within the budget; a limited output fails exactly when they do not fit, and a fill-output budget is used up to one byte and one more for every 65025 |
| Lz4hcParser.Correct | external/lz4hc.c:610-622 | the corrected second match is legal, ends where it did, and starts where the first one, kept to 18 bytes and to what leaves the second one four, ends |
| Lz4hcParser.Search2 | external/lz4hc.c:578-604 | from _Search2 either the match is written, when no search may start or none finds a wider one that overlaps its last two bytes, or the next label is reached with its invariant, the furthest end having grown |
| Lz4hcParser.Search3 | external/lz4hc.c:606-706 | every decision of _Search3 writes only legal matches that follow one another, and carries on with legal matches whose end is further on; two are written at once only when no search finds a wider one that overlaps the second |
| Lz4hcParser.ThreeAscending | external/lz4hc.c:676-706 | with three ascending matches the first one and what is left of the second are legal and do not overlap, and are cut where the code cuts them |
| Lz4hcParser.FirstSearch | external/lz4hc.c:571-573 | the main loop passes a position only when none of the candidates that its search may visit has its four bytes |
| Lz4hcParser.ParseStep | external/lz4hc.c:570-707 | from label to label: every sequence that is encoded is legal, and the end of the furthest match strictly grows unless a match was just written |
| Lz4hcParser.HashChain | external/lz4hc.c:532-746 | the lazy parser ends, and its output decodes to the consumed input, meets the end-of-block restrictions and keeps to the budget; no position of its last literals has its four bytes at a candidate that a search may visit; a result of 0 means that a match that was reached, or the last literals, do not fit a limited output |
| Lz4hcParser.RunIsFound | external/lz4hc.c:571-573 | in one byte over and over the search at the second byte returns the match that takes all but five bytes |
| Lz4hcOptimal.BackPathTiles | external/lz4hc.c:1477-1492 | a table of literals and true matches describes, backwards, a path that covers the region without gap or overlap |
| Lz4hcOptimal.Reverse | external/lz4hc.c:1477-1492 | the reversal in place: walking forwards afterwards visits exactly the path that the entries described backwards, and then the chosen step |
| Lz4hcOptimal.PriceIsSize | external/lz4hc.c:1224-1249 | a price is the number of bytes that literals or a sequence take in the output |
| Lz4hcOptimal.RootedHasMatch | external/lz4hc.c:1477-1492 | every path from behind position 3 of a region has a match on it |
| Lz4hcOptimal.FindLongerMatch | external/lz4hc.c:1255-1275 | a legal match that starts at the position and is longer, or 0 only when the search has left none; in favour of decompression speed lengths of 19 to 36 become 18 |
| Lz4hcOptimal.FirstPrices | external/lz4hc.c:1336-1370 | every entry up to the trailing literals is initialised and is a literal or a true match that ends there, with the price and the literals that the code gives it |
| Lz4hcOptimal.PriceMatch | external/lz4hc.c:1423-1466 | pricing a match keeps every entry up to the trailing literals behind the last position initialised and true, also where the table grows; no entry is dearer than the way to the position and the match, and none has changed but to that |
| Lz4hcOptimal.Explore | external/lz4hc.c:1372-1467 | a position is searched exactly when it is worth while; a match that is long is legal and taken at once, any other one is weighed in all its lengths, and so are up to three literals: no price rises, none exceeds that of the new ways, and every entry is an old one or one of these |
| Lz4hcOptimal.Choose | external/lz4hc.c:1336-1492 | the path that is chosen tiles the region, has a match on it, and is a path of the table that the exploration of every position up to the last one, or up to a match that is taken at once, ends with |
| Lz4hcOptimal.WritePath | external/lz4hc.c:1494-1506 | encoding the recorded sequences in order covers exactly the region, keeps the output an encoding, and writes the matches of the path and no others |
| Lz4hcOptimal.ParseOnce | external/lz4hc.c:1318-1506 | a round passes a position where no search finds four bytes, writes a match that is long at once, or writes the path that the exploration of its region leads to |
| Lz4hcOptimal.Optimal | external/lz4hc.c:1278-1554 | the optimal parser ends, and its output decodes to the consumed input, meets the end-of-block restrictions and keeps to the budget; behind the last region no position has its four bytes at the newest candidate or at one of the last positions, and a block without a match has no such position at all; a result of 0 means that a match that was reached, or the last literals, do not fit a limited output |
| Lz4hcApi.CompressGeneric | external/lz4hc.c:758-818 | at every level a nonzero result is a block that decodes to the consumed input, with last literals in which the searches of the level find nothing, and the state stays fit for the next call; a result of 0 has only the reasons of the code; one byte over and over fits n/255 + 16 bytes at levels up to 9, and above them when its match is longer than the level weighs |
| Lz4hcApi.CompressFastReset | external/lz4hc.c:896-911 | a block decodes to the whole input, and with the space of LZ4_compressBound there is one; one byte over and over fits n/255 + 16 bytes as before |
| Lz4hcApi.CompressDestSize | external/lz4hc.c:934-941 | a block in a target of any size of at least one byte decodes to exactly the consumed prefix, and input is left over only when the target is full up to one byte and one more for every 65025 |
| Lz4hcApi.CompressAll | external/lz4hc.c:896-918 | any number of inputs on one state, at any levels, initialised anew or not, with failures in between: every block, decompressed into a buffer of the size of its input, gives it back |
| Dissemination.SendAllReaches | src/firehose/nuzzle.cpp:31-35 | a connection gets a request exactly as often as it is listed |
| Dissemination.Majority | src/firehose/nuzzle.cpp:31-31 | the least number that is more than half of the group |
| Dissemination.Pump.OnPublishReceive | src/firehose/pump.cpp:24-45 | the request goes to every engine under the next number, and the number counts on modulo 2^64 |
| Dissemination.Engine.OnPrepareReceive | src/firehose/engine.cpp:24-58 | the request is stored under its topic and number, then acknowledged, then passed on to the nuzzles listed for its topic, and what is acknowledged is held |
| Dissemination.Nuzzle.OnPublishReceive | src/firehose/nuzzle.cpp:16-43 | the engine is counted; the request is delivered exactly when the count reaches the majority and forgotten when it reaches the group size |
| Dissemination.Engine.OnUpdateSubscriptionReceive | src/firehose/engine.cpp:61-73 | a subscription lists the nuzzle once more for the topic, also when it is listed already, and records the client; a nuzzle is listed as often as it has named clients |
| Dissemination.Nuzzle.OnUpdateSubscriptionReceive | src/firehose/nuzzle.cpp:46-63 | every subscription sends one update to every engine and lists the consumer once more |
| DisseminationRuns.NewVote | src/firehose/nuzzle.cpp:20-29 | a request from an engine is a new vote, and there are never more votes than engines |
| DisseminationRuns.DeliveredInOrder | src/firehose/nuzzle.cpp:31-35 | the request that reaches its majority is the first one that has not been delivered |
| DisseminationRuns.CountKeeps | src/firehose/nuzzle.cpp:16-43 | counting a request of a topic with one subscription keeps the votes of every such request those that were really received, and the deliveries those of the requests with a majority |
| DisseminationRuns.CountOfOther | src/firehose/nuzzle.cpp:16-43 | counting a request of a topic with several subscriptions changes nothing for the others |
| DisseminationRuns.StepKeeps | src/firehose/nuzzle.cpp:16-43 | every step of pump, engines, nuzzles, crashes and losses keeps the invariant, whatever the numbers of subscriptions |
| DisseminationRuns.InOrderAtMostOnce | src/firehose/nuzzle.cpp:31-35 | in every reachable state a consumer has been sent, of the topics with one subscription, requests it subscribes to, as they were published, with strictly increasing numbers and without leaving one out |
| DisseminationRuns.MajorityDurability | src/firehose/engine.cpp:39-46 | in every reachable state such a delivered request is in the buffer of more than half of the engines, and every set of more than half of them contains one that holds it |
| DisseminationRuns.BufferIsExact | src/firehose/nuzzle.cpp:37-40 | in every reachable state the buffer of a nuzzle holds, of those topics, exactly the requests received from at least one engine and not from all, each with the engines it has come from |
| DisseminationRuns.CleanIsAll | src/firehose/nuzzle.cpp:31-35 | for a consumer all of whose topics have one subscription the guarantees are about everything it has been sent |
| DisseminationRuns.ConsumersAgree | src/firehose/nuzzle.cpp:31-35 | of two consumers with the same subscriptions, at any nuzzles, one has been sent the beginning of what the other has been sent |
| DisseminationRuns.AcknowledgedIsHeld | src/firehose/engine.cpp:39-55 | in every state of every run, whatever the subscriptions and the numbers, an engine holds what it has acknowledged and has acknowledged what it has passed on |
| DisseminationProgress.WorkShrinks | src/firehose/engine.cpp:24-58 | every step that is neither a publish nor a crash leaves less to be done |
| DisseminationProgress.QuietIsDrained | src/firehose/nuzzle.cpp:16-43 | when no such step is left, the engines that are up have nothing left to do for any nuzzle |
| DisseminationProgress.EverythingDelivered | src/firehose/nuzzle.cpp:31-35 | as soon as more than half of the engines are up and their connections have drained, a consumer has been sent exactly the published requests of its topics with one subscription |
| DisseminationProgress.EndsDelivered | src/firehose/nuzzle.cpp:16-43 | without further publishes and crashes a run has only so many steps, and when none is left and more than half of the engines are up, a consumer has been sent exactly the published requests of its topics with one subscription |
| DisseminationExact.MinorityIsDelivered | src/firehose/nuzzle.cpp:25-36 | with two engines or more, a topic with two subscriptions at a nuzzle, and any consumer of it there, a run delivers a request that no majority holds |
| DisseminationExact.DeliveredTwice | src/firehose/nuzzle.cpp:25-41 | with a single engine a run delivers a request of such a topic twice |
| DisseminationExact.ExactCondition | src/firehose/nuzzle.cpp:16-43 | what a consumer is sent of a topic is in order, at most once and held by a majority, in every reachable state, if and only if the topic has one subscription at its nuzzle |
| SubscriptionRuns.ListedAsOftenAsSubscribed | src/firehose/nuzzle.cpp:46-63 | after any sequence of subscriptions and updates an engine lists a nuzzle for a topic as often as the nuzzle has received a subscription for it, less the updates on their way |
| SubscriptionRuns.OneSubscriptionExactly | src/firehose/engine.cpp:61-73 | for every history of subscriptions whose updates have arrived the guarantees hold for a consumer of a topic if and only if its nuzzle has received one subscription for the topic |
| Framing.PreHeaderReads | src/include/network.cpp:29-42 | the receiver reads from the pre-header the lengths, the type and the id that the sender put there |
| Framing.FrameSays | src/include/network.cpp:29-48 | a frame says the message it was made from, and no other |
| Framing.MessageSender.TrySend | src/include/network.cpp:15-27 | a try_send starts the next message unless one is in flight, and leaves nothing queued behind an idle sender |
| Framing.MessageSender.SendNextMessage | src/include/network.cpp:22-48 | what has now to be written is the frame of the oldest message, which leaves the queue; without one the sender is idle with nothing to be written |
| Framing.MessageSender.HandleHdrSent | src/include/network.cpp:68-81 | the same behind the header; a message is complete at once exactly when it has no body |
| Framing.MessageSender.HandleBodySegSent | src/include/network.cpp:83-118 | a completion leaves what has still to be written of the message as it is: the next segment follows when that is not nothing, and otherwise the message is complete |
| Framing.MessageReceiver.HandlePreRead | src/include/network.cpp:139-165 | a header length above the maximum closes the connection; otherwise the bytes are added to what the receiver has of the message |
| Framing.MessageReceiver.HandleHeaderRead | src/include/network.cpp:167-189 | the bytes are added to what the receiver has of the message, and exactly when no body is announced, the message that those bytes say is completed |
| Framing.MessageReceiver.HandleBodySegRead | src/include/network.cpp:191-222 | the bytes are added to what the receiver has of the message, and exactly when none is missing, the message that those bytes say is completed |
| FramingRuns.TransmitKeeps | src/include/network.cpp:45-48 | bytes that the stream takes, in pieces of any size, keep the balance of what is received, on its way and unsent |
| FramingRuns.SendNextKeeps | src/include/network.cpp:22-48 | starting a message keeps the invariant: no two messages mix |
| FramingRuns.MessageDone | src/include/network.cpp:206-222 | a message is completed with exactly the content of the one that was sent |
| FramingRuns.StepKeeps | src/include/network.cpp:10-118 | every interleaving of enqueueing, posting, trying, writing and reading keeps the invariant |
| FramingRuns.ReceivedInOrder | src/include/network.cpp:126-222 | in every reachable state what has been received is the beginning of what was enqueued, each message with its type, id, header and body, and the receiver has not closed the connection |
| FramingRuns.NoLostWakeup | src/include/network.cpp:10-20 | in every reachable state with a message in the queue and none in flight, a try_send is on its way |
| FramingRuns.StuckMeansDone | src/include/network.cpp:10-118 | when the connection has nothing left to do by itself, everything that was enqueued has been received |
| FramingRuns.WorkShrinks | src/include/network.cpp:10-222 | every step but a new message leaves less to be done, as long as messages offer room for their body |
| FramingRuns.EverythingArrives | src/include/network.cpp:10-222 | left to itself the connection has only so many steps, and when none is left everything that was enqueued has been received |
| LazyWriter.LazyWriter.constructor | external/lazywriter/lazywriter.h:91-104 | ten free blocks in one cycle |
| LazyWriter.LazyWriter.Insert | external/lazywriter/lazywriter.h:106-128 | the nodes stay one cycle, none is lost and at most one is new, and what was inserted grows by the record; the branch that exits is never taken |
| LazyWriter.LazyWriter.AddNode | external/lazywriter/lazywriter.h:117-123 | a new node goes between the producer's and the writer's, and the cycle stays one |
| LazyWriter.DistinctRotates | external/lazywriter/lazywriter.h:77-83 | seen from the writer's next node, the nodes of the ring and their blocks are still all different |
| LazyWriter.LazyWriter.WriterRound | external/lazywriter/lazywriter.h:77-86 | the oldest full block, and nothing else, goes to the file |
| LazyWriter.LazyWriter.WriterLoop | external/lazywriter/lazywriter.h:77-90 | after the end of the producer the loop ends with every whole block in the file; the rest of the last block is not written |
| LazyWriter.History | external/lazywriter/lazywriter.h:63-130 | under any interleaving of rounds with inserts that never straddle a block, the file is the beginning of the records, in whole blocks, and in the end all their whole blocks |
| Blocks.Consumes | external/xxhash/xxhash.c:394-437 | an update that completes blocks leaves the state of the longer input: whole blocks folded in, the rest in the buffer |
| XxHash.OneShot | external/xxhash/xxhash.c:264-318 | the loops of the hash in one call compute the definition: whole stripes, the length, words, half word, bytes |
| XxHashForm.Tail64 | external/xxhash/xxhash.c:665-684 | behind whole stripes and the length, XXH64 takes the rest in words of eight bytes, then four bytes at once exactly if there are as many, then up to three single bytes |
| XxHashForm.Tail32 | external/xxhash/xxhash.c:299-309 | XXH32 takes it in words of four bytes and up to three single bytes |
| XxHashForm.TailsWrittenOut | external/xxhash/xxhash.c:665-684 | both for a rest that uses every step |
| XxHashForm.HashOfShort | external/xxhash/xxhash.c:293-297 | the hash of an input below a stripe, in the parameters |
| XxHashForm.HashOfStripes | external/xxhash/xxhash.c:278-297 | the hash of any number of stripes and a rest, in the parameters |
| XxHash.UpdateLanes | external/xxhash/xxhash.c:379-437 | an update of any length leaves lanes and buffer as the bytes seen so far demand |
| XxHash.AddToTotals32 | external/xxhash/xxhash.c:388-389 | the 32-bit total may wrap; the flag for long inputs is set exactly when sixteen bytes have been seen |
| XxHash.XXH32State.Reset | external/xxhash/xxhash.c:366-376 | a reset state is that of the empty input under the new seed, whatever it was used for |
| XxHash.XXH32State.Update | external/xxhash/xxhash.c:379-437 | an update makes the state that of the input extended by the chunk |
| XxHash.XXH32State.BufferedBytes | external/xxhash/xxhash.c:391-435 | memsize is the total length modulo 16 |
| XxHash.XXH32State.Digest | external/xxhash/xxhash.c:449-482 | the digest is the hash of everything that was fed, also beyond 2^32 bytes |
| XxHash.XXH64State.Update | external/xxhash/xxhash.c:749-802 | an update makes the state that of the input extended by the chunk |
| XxHash.XXH64State.BufferedBytes | external/xxhash/xxhash.c:760-799 | memsize is the total length modulo 32 |
| XxHash.XXH64State.Digest | external/xxhash/xxhash.c:814-862 | the digest is the hash of everything that was fed, for every length that one call can hash, and what it is instead once the 64-bit total has wrapped to less than 32 |
| XxHash.Hash32InPieces | external/xxhash/xxhash.c:366-482 | for every split of every input, streaming equals one call |
| XxHash.Hash64InPieces | external/xxhash/xxhash.c:737-862 | for every split of every input below 2^64 bytes, streaming equals one call |
| Md5.Offset | external/libketama/md5.c:327-327 | the buffered bytes are the length modulo 64, read off the low word of the bit count |
| Md5.AddLength | external/libketama/md5.c:328-337 | the two words stay 8 times the length modulo 2^64, across both carries |
| Md5.AppendBlocks | external/libketama/md5.c:339-357 | the state becomes that of the message extended by the data: whole blocks folded in, the rest in the buffer |
| Md5.Md5State.Append | external/libketama/md5.c:322-358 | the same with the length kept |
| Md5.PaddingBytes | external/libketama/md5.c:363-376 | the pad is 1 to 64 bytes, a one bit and zeros up to 56 modulo 64, as in section 3.1 of RFC 1321 |
| Md5.LengthBytes | external/libketama/md5.c:372-378 | the eight bytes behind the pad are the length in bits modulo 2^64, as in section 3.2 of RFC 1321 |
| Md5.Finish | external/libketama/md5.c:360-381 | the digest is the block function folded over the padded message |
| Md5.DigestOfPieces | external/libketama/md5.c:312-381 | the digest does not depend on how the message is cut into pieces |
| Md5Form.OutputInBytes | external/libketama/md5.c:379-380 | the sixteen bytes of the digest, from the lowest byte of the first word on |
| Md5Form.DigestOfBlocks | external/libketama/md5.c:312-381 | the digest of a message is that of its blocks, taken in from the four starting words on, with the padding and the length written out in bytes |
| Md5Form.DigestOfShort | external/libketama/md5.c:312-381 | a message of at most 55 bytes is one block |
| Ketama.GetServer | external/libketama/ketama.c:347-379 | on every sorted nonempty ring, duplicates allowed, the search ends and returns the first point that is not below the hash, or, when all are, the first of the ring |
| Ketama.SuccessorIs | external/libketama/ketama.c:347-379 | the answer is a point that is not below the hash with none of these in front of it, or the first of the ring when all are below |
| Ketama.FourNumbers | external/libketama/ketama.c:449-453 | the four points of a digest are its sixteen bytes, in groups of four with the lowest byte first |
| Ketama.AllAreGenerated | external/libketama/ketama.c:437-458 | the points of all servers are those of the digests that the share of each server gives it, four a digest |
| Ketama.WithoutKeepsOrder | external/libketama/ketama.c:347-379 | the ring without a server is sorted, so that the search applies to it |
| Ketama.OnlyItsKeysMove | external/libketama/ketama.c:347-379 | taking all points of a server out of the ring changes the answer only for keys that mapped to it |
| Ketama.ItsKeysGoToOthers | external/libketama/ketama.c:347-379 | and those keys go to a point of another server |
| Ketama.ExactIsNear | external/libketama/ketama.c:425-426 | the integer part of the exact share is one of the values that the roundings allow |
| Ketama.PointsFit | external/libketama/ketama.c:423-458 | with shares that are off by less than one part in 2^21, for up to 52428 servers, the points never exceed 160 for every server |
| Ketama.RingIsNotEmpty | external/libketama/ketama.c:425-458 | with such shares some server gets at least 39 digests, so that the ring is never empty |
| Ketama.CreateContinuum | external/libketama/ketama.c:423-463 | for servers with some memory in all, the sorted ring holds exactly the points of all of them, four for each digest of a server, every one stored inside the array, and at least 156 |

## Left out

- LZ4 dictionaries, streaming with `_continue`, `LZ4_decompress_fast`, byPtr tables, 32-bit and big-endian paths: more cases, no new idea.
- Word arithmetic of `LZ4_NbCommonBytes`: words are slices of eight bytes, and the position of the first difference is taken from them, not from bit operations.
- `LZ4HC_rotatePattern`: the search only calls it on four equal bytes, where it is the identity.
- Offsets of 0 and lengths whose extension reaches 2^32: the reference decoder marks them as `Excluded`, and `DecompressGeneric` promises nothing about the contents then, only that no access leaves a buffer.
- Checks for addresses that wrap around, NULL arguments, negative sizes: sizes are natural numbers.
- Lz4Decompress.DecompressSafePartial: promises the contents for blocks that meet the end-of-block restrictions only; the output array stands for the smaller of the target size and the capacity, of which the code takes the minimum first.
- Price optimality of the optimal parser: what is claimed is that its output is valid, and which choices it weighs.
- The LZ4 Block Format document named in `external/lz4.c:199-200` is not part of this model; its rules are restated in `Lz4Format`.
- Unsubscribing, and subscriptions that change during a run.
- Several pumps: their numbers collide by design of the counter. Recovery of a crashed engine: the code has none.
- Connections that are closed on an error: a run may stop anywhere, which covers it. Clock values and statistics do not influence the state.
- Sockets, threads, affinity, protobuf serialisation, logging, shared memory, semaphores and file parsing.
- LazyWriter.LazyWriter.Insert: requires that a record does not straddle the end of a block, which the code does not check. One insert and one round of the writer are atomic.
- Lz4hcSearch.Search: requires that a search that jumps between chains looks forward only, as the code asserts.
- Md5.Md5State.Append: requires that the buffered bytes and the length add up within an int, as the sum in the code does; lengths are not negative.
- Ketama.CreateContinuum: the float computation of a share is a parameter, known to be within one part in 2^21 of the exact share (two conversions to float, a quotient, and the conversion of the product back to float, at 2^-24 each); total memory fits an unsigned long; a stable insertion sort stands for the library's, and the servers come as a list.
- The rounds of xxHash, by which a stripe changes the lanes, are a parameter.
- `XXH_readLE32` and alignment variants: a word is the bytes it is read from.
- BitmapFilter, SlidingWindow, base64, INI parsing, pods, termcolor and the command-line programs: small, or not the hard part.
