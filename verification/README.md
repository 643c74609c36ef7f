# Verified model of the structured data compressor

This project models the compressor as a stack of layers, each with its inverse, and proves that the
inverse undoes it.

* **Arithmetic coder.** `Frequencies`, `FenwickTrees` and `FrequencyTables` hold the adaptive tables: as lists
  of frequencies, and as the tree and total updated in place, which are proved to represent such lists.
  `Intervals` has the arithmetic of one coding step. `CodeStream` defines the bits that a sequence of symbols
  emits from an interval, with no counter of pending bits: an underflow step inserts an inverted bit
  behind the first bit of everything that follows. `ArithmeticEncoder` proves that the loops of the encoder, which
  count pending bits and write them later, produce that stream, and `ArithmeticDecoder` that the decoder's
  32 bits are always the stream's next 32 bits, which lie in the current interval. The masks of the source are
  related to this arithmetic by lemmas over `Bitwise`; `Arithmetic` has powers of two and division.
* **Integers and strings.** `UintCodec` codes integers as nibbles. `RingBuffers`, `ByteMatcher`, `StringCodec`, `StringCompressor` and
  `StringDecompressor` are the window compressor: what it codes are items (a byte, a reference, an end marker)
  that stand for bytes added to a history. `MatchSearch` says in terms of that history alone which strings the hash
  chain offers and which match is taken, and so which items a text is coded as. `StringRoundTrip` runs both objects
  on any series of strings.
* **JSON.** `JsonStates` is the token machine and `JsonGrammar` the grammar, related in both directions, for whole
  documents and for their beginnings. `JsonTokens`, `JsonTokenizer` and `JsonTexts` relate inputs, tokens and texts,
  again in both directions; `JsonLexemes` starts from the bytes of RFC 8259 instead, and `JsonPieces` extends this to
  input that arrives in pieces.
  `JsonCodec`, `JsonStream` and `JsonDocuments` define the abstract machine that compressor and
  decompressor share and one step of the decompressor as a total function; `JsonCompressionBase`, `JsonCompressor` and
  `JsonDecompressor` are the objects, and `JsonRoundTrip` puts everything together. `JsonContexts` views a stream as
  symbols in contexts, each of which counts its own symbols only.
* **rANS.** `AnsCoding` is the block coder of the asymmetrical numeral system.
* **Structures.** `Queues`, `Bits`, `Writers` and `Readers` carry bits through buffers; `FixedArrayLists` and `LmQueues` are
  the linked lists and the queue with a fresh and a mature part.

The central statement for every layer has one form: a decoder that is ready for the events of a value,
followed by any further events, returns the value, adapts its tables as the writer did, and is ready for
the further events. Statements of layers above follow by composition.

Objects of the source are classes whose methods are proved to compute functions; the functions are
total where the source is, so that they also say what happens on streams no compressor wrote. Facts are then
proved about the functions.

## What the code does and its comments do not say

* The assert after a shrink of the range is stricter than the table limit guarantees: it can fail for totals above
  half of ACOD_MIN_RANGE, and only for these (`ArithmeticEncoder.StrictAssertFails`, `ArithmeticEncoder.StrictAssertExactly`).
* Tables of integers made for the window length 65536 or the match limit 4096 cannot code these values themselves,
  only smaller ones (`UintCodec.MaximumFits`); the compressor never needs them (`StringCodec.ReferencesFit`).
* A refused first token still turns START into VALUE, after which a byte-order mark is refused
  (`JsonStates.RefusedFirst`); every other token is answered as before (`JsonStates.StartLikeValueExactly`).
* A number with a fraction of 65536 or more is accepted by the tokenizer but has no coding
  (`JsonCodec.NumberFitsExactly`, `JsonRoundTrip.FractionCounterexample`).
* After a document that stops inside a string the decompressor has counted an end marker that the compressor has
  not, so a further document on the same tables is out of step (`JsonDocuments.LockstepExactly`,
  `JsonRoundTrip.CompressQuote`).
* The comment on `lru_queue_bump` says that the entry's pointer changes; the slot that is freed is the one taken
  again, so it does not (`LmQueues.LruQueue.Bump`).
* `json_decompressor_process_next_token` returns false on the end of the stream, as its comment says, and also on an
  illegal token; the model reports the two separately.
* A reader's snapshot taken in one buffer cannot in general be restored from another: the buffer to go back to is
  counted from the newest instead of the oldest, and from before the first buffer the count of bytes is not put back
  (`Readers.Reader.RestoreSnapshot`, `Readers.SnapshotLost`). With one buffer it always can (`Readers.GiveUp`), so the
  tokenizer may then put its position back.
* The block coder that increments its table may never return (`AnsCoding.LoopEndsExactly`,
  `AnsCoding.IncrementingNeverEnds`).
* Filling a table that has no end symbol does not halve it, so its total may exceed the limit until the first increment
  (`Frequencies.FillWithinLimitExactly`, `Frequencies.RunWithinLimitExactly`).
* The overflow test for integers refuses some values that 64 bits could hold; the model follows the test
  (`JsonTokenizer.LargestRefused`, `JsonTokenizer.LeastRefused`).

## Model

| member | source | states |
|---|---|---|
| Frequencies.FindUnique | src/arithmetic_coding/decoder.c:49-60 | a symbol whose share of the cumulative counts holds a value is the only one, and has a positive frequency, so symbols of frequency zero next to it do not matter |
| Frequencies.HalveShrinks | src/arithmetic_coding/frequency_table.c:47-64 | halving keeps the number of symbols in use, never raises the total, and lowers it unless every symbol in use already has frequency one |
| Frequencies.HalveUntil | src/arithmetic_coding/frequency_table.c:66-70 | the result is below the limit, no larger than before, and a frequency is positive exactly if it was |
| Frequencies.HalvingNeverEnds | src/arithmetic_coding/frequency_table.c:66-70 | with a limit not above the number of symbols in use, no number of halvings gets below it |
| Frequencies.HalvingTerminatesExactly | src/arithmetic_coding/frequency_table.c:66-70 | the halving loop ends if and only if the limit exceeds the number of symbols in use |
| Frequencies.HalveUntilExactly | src/arithmetic_coding/frequency_table.c:66-70 | the loop halves the least number of times after which the total is below the limit |
| Frequencies.HalveTimesAt | src/arithmetic_coding/frequency_table.c:47-64 | n halvings, each rounding up, divide every frequency by two to the n, rounding up once |
| Frequencies.IncrementKeeps | src/arithmetic_coding/frequency_table.c:76-85 | after an increment the total is at most ACOD_MAX_TOTAL, the symbol has a positive frequency and every other symbol has one exactly if it had |
| Frequencies.FillWithinLimitExactly | src/arithmetic_coding/frequency_table.c:130-142 | after a fill the total is at most ACOD_MAX_TOTAL if and only if the table has an end symbol or the given frequencies are within it |
| Frequencies.RunWithinLimitExactly | src/arithmetic_coding/frequency_table.c:76-85 | after any number of increments the total is at most ACOD_MAX_TOTAL if and only if there was an increment or it was so at the start; exactly the symbols counted have joined those in use |
| Frequencies.IncrementExactly | src/arithmetic_coding/frequency_table.c:76-85 | an increment divides every frequency, rounding up, by the least power of two that brings the total below ACOD_MAX_TOTAL, by one if it is below already, and then adds one to the symbol alone |
| Frequencies.RunCounts | src/arithmetic_coding/frequency_table.c:76-85 | while the total cannot exceed ACOD_MAX_TOTAL, every frequency is the first one plus how often the symbol has occurred |
| Frequencies.Bump | src/arithmetic_coding/frequency_table.c:76-85 | an increment of a table in which every symbol can be coded gives such a table again (this is the result type) of the same size |
| Frequencies.Ones | src/arithmetic_coding/frequency_table.c:93-113 | a table initialised to one can code each of its symbols |
| FenwickTrees.FenwickTree.constructor | src/data_structures/fenwick_tree.c:20-29 | a new tree represents all zeros |
| FenwickTrees.LowBitIsAnd | src/data_structures/fenwick_tree.c:35 | the model's lowest set bit is i & -i in unsigned arithmetic of every width that holds i |
| FenwickTrees.NextCover | src/data_structures/fenwick_tree.c:31-39 | adding the lowest set bit leads to the next node whose range holds the symbol: no node between is skipped |
| FenwickTrees.FenwickTree.Add | src/data_structures/fenwick_tree.c:31-39 | exactly one represented frequency grows, and every node is again the sum of its range |
| FenwickTrees.FenwickTree.Sum | src/data_structures/fenwick_tree.c:41-51 | the sum of the represented frequencies up to and including the symbol; zero for -1 |
| FenwickTrees.FenwickTree.Get | src/data_structures/fenwick_tree.c:81-85 | the represented frequency of one symbol |
| FenwickTrees.FenwickTree.Fill | src/data_structures/fenwick_tree.c:53-63 | whatever the tree held, it then represents the given array, and zeros at the end offset |
| FenwickTrees.FenwickTree.ToSourceArray | src/data_structures/fenwick_tree.c:65-69 | writes out exactly the represented array: the inverse of a fill |
| FrequencyTables.FrequencyTable.DivideByHalf | src/arithmetic_coding/frequency_table.c:47-64 | the tree and the total together represent the table with every frequency halved, rounding up |
| FrequencyTables.FrequencyTable.HalveUntilTotalBelowLimit | src/arithmetic_coding/frequency_table.c:66-70 | the in-place loop computes HalveUntil of the represented table |
| FrequencyTables.FrequencyTable.IncrementSymbol | src/arithmetic_coding/frequency_table.c:76-85 | the in-place increment computes Increment of the represented table, whose every frequency IncrementExactly gives; the stored total stays the sum of the tree |
| FrequencyTables.FrequencyTable.constructor | src/arithmetic_coding/frequency_table.c:93-113 | zeros or ones as asked for, and an end symbol of frequency one if included |
| FrequencyTables.FrequencyTable.FillFromFrequencies | src/arithmetic_coding/frequency_table.c:130-142 | represents the given frequencies, with the end symbol counted once on top |
| FrequencyTables.FrequencyTable.GetLow | src/arithmetic_coding/frequency_table.c:155-162 | the sum of all frequencies strictly below the symbol |
| FrequencyTables.FrequencyTable.GetHigh | src/arithmetic_coding/frequency_table.c:164-166 | the sum of the frequencies up to and including the symbol |
| FrequencyTables.FrequencyTable.GetFrequency | src/arithmetic_coding/frequency_table.c:150-152 | the frequency of one symbol of the represented table |
| Intervals.ShrinkInside | src/arithmetic_coding/arithmetic_coding_base.c:29-46 | for a symbol of positive frequency and a total not above the width, the new interval is not empty and lies inside the old one |
| Intervals.SharesPartition | src/arithmetic_coding/arithmetic_coding_base.c:29-46 | the symbols' intervals follow each other without gap or overlap from low to high |
| Intervals.ShareProportional | src/arithmetic_coding/arithmetic_coding_base.c:35-40 | the width of a symbol's share differs by less than one from its exact proportion of the interval |
| Intervals.EstimateFindsSymbol | src/arithmetic_coding/decoder.c:39-60 | the code lies in a symbol's interval if and only if the estimated count lies in its share |
| Intervals.ProductsFit | src/arithmetic_coding/arithmetic_coding_base.c:35-40 | no product formed by the encoder or the decoder reaches two to the 64 |
| Intervals.StrictCountsExactly | src/arithmetic_coding/arithmetic_coding_base.c:37-45 | for one width and one total: the shares of all consecutive counts hold at least two numbers if and only if twice the total is at most the width |
| Intervals.ShiftDoubles | src/arithmetic_coding/arithmetic_coding_base.c:48-54 | a shift drops the shared top bit and exactly doubles the width, so that the assert low < high behind it holds |
| Intervals.UnderflowDoubles | src/arithmetic_coding/arithmetic_coding_base.c:56-61 | an underflow step keeps low below and high at or above the middle and exactly doubles the width |
| Intervals.ShiftableIsXor | src/arithmetic_coding/arithmetic_coding_base.c:19-23 | the xor of the bounds, masked by ACOD_HALF_RANGE, is zero if and only if both bounds lie in the same half |
| Intervals.UnderflowableIsAnd | src/arithmetic_coding/arithmetic_coding_base.c:25-27 | low, the complement of high and ACOD_QUARTER_RANGE have a common bit if and only if an underflow step is possible |
| Intervals.ShiftIsMasked | src/arithmetic_coding/arithmetic_coding_base.c:48-54 | the masks of the source compute the arithmetic shift, and the bit written is the top bit of low |
| Intervals.UnderflowIsMasked | src/arithmetic_coding/arithmetic_coding_base.c:56-61 | the xors and ors of the source compute the arithmetic underflow step |
| CodeStream.StepsDouble | src/arithmetic_coding/encoder.c:60-69 | after n shift and underflow steps the width is two to the n times what it was |
| CodeStream.FewSteps | src/arithmetic_coding/encoder.c:60-69 | both loops together take at most 32 steps and leave low < HALF <= high with a width of at least ACOD_MIN_RANGE |
| CodeStream.WindowInInterval | src/arithmetic_coding/decoder.c:36-37 | the first 32 bits of the stream emitted from an interval always lie in that interval, so the asserts low <= code <= high hold |
| ArithmeticEncoder.ShiftAllKeeps | src/arithmetic_coding/encoder.c:60-64 | the shift loop leaves the whole stream, written bits and bits still to come, unchanged |
| ArithmeticEncoder.UnderflowAllKeeps | src/arithmetic_coding/encoder.c:66-69 | counting underflow bits instead of writing them leaves the whole stream unchanged: they are inserted behind its next bit |
| ArithmeticEncoder.RunEmits | src/arithmetic_coding/encoder.c:57-70 | however the symbols are split between written ones and ones to come, the stream is the same function of all of them |
| ArithmeticEncoder.FinishEmits | src/arithmetic_coding/encoder.c:37-43 | the finaliser completes exactly that stream |
| ArithmeticEncoder.FinishSize | src/arithmetic_coding/encoder.c:37-43 | the finaliser adds all pending bits and two more, behind what was written |
| ArithmeticEncoder.WriteRenormalizes | src/arithmetic_coding/encoder.c:57-70 | a write raises the bits written and pending together by exactly the number of renormalisation steps of the shrunk interval, at most 32, and leaves the interval astride the middle and at least ACOD_MIN_RANGE wide |
| ArithmeticEncoder.NarrowestReached | src/arithmetic_coding/encoder.c:57-70 | one write with a table within the limit, at which no assert fails, leads from the initial interval to the narrowest one between coding steps |
| ArithmeticEncoder.StrictAssertExactly | src/arithmetic_coding/arithmetic_coding_base.c:29-46 | for every total within the limit: the assert low < high after a shrink holds in every run of the encoder, for all tables of that total and all symbols of positive frequency, if and only if twice the total is at most ACOD_MIN_RANGE; the same if only runs count in which no assert failed before |
| ArithmeticEncoder.StrictAssertFails | src/arithmetic_coding/arithmetic_coding_base.c:45 | two writes with tables within the limit, of which the first passes the assert and the second fails it |
| ArithmeticEncoder.Encoder.WriteShiftBit | src/arithmetic_coding/encoder.c:27-35 | the bit and then all pending bits, inverted; none stay pending |
| ArithmeticEncoder.Encoder.ShiftWhilePossible | src/arithmetic_coding/encoder.c:60-64 | the loop of the object computes ShiftAll of its state, whose effect on the stream ShiftAllKeeps states |
| ArithmeticEncoder.Encoder.UnderflowWhilePossible | src/arithmetic_coding/encoder.c:66-69 | the loop of the object computes UnderflowAll of its state |
| ArithmeticEncoder.Encoder.Write | src/arithmetic_coding/encoder.c:57-70 | the object goes to the state of a run over one more symbol; with FinishEmits this fixes the output of every run |
| ArithmeticEncoder.Encoder.Finalize | src/arithmetic_coding/encoder.c:37-52 | the output is the whole stream of all symbols written |
| ArithmeticDecoder.ReadBack | src/arithmetic_coding/decoder.c:77-96 | a decoder in step with the encoder returns the symbol that was written and is again in step for the rest, at the first symbol as at any other |
| ArithmeticDecoder.FewTrailingZeros | src/arithmetic_coding/decoder.c:65-75 | while in step, at most 30 zeros have been made up past the end of the stream and no underflow is set |
| ArithmeticDecoder.InitialReady | src/arithmetic_coding/decoder.c:24-33 | a fresh decoder over the encoder's output and any number of zero bits is in step with it |
| ArithmeticDecoder.RoundTrip | src/arithmetic_coding/decoder.c:35-96 | for every sequence of symbols of positive frequency and every choice of tables from the symbols before, decoding the finalised stream, with any zero padding, returns the sequence, without underflow |
| ArithmeticDecoder.Decoder.ReadNextBit | src/arithmetic_coding/decoder.c:65-75 | the next input bit, or a counted zero; the error only after more than 32 of them |
| ArithmeticDecoder.ShiftedCodeIsMasked | src/arithmetic_coding/decoder.c:87 | the mask and the or of the source compute the code after a shift |
| ArithmeticDecoder.UnderflowedCodeIsMasked | src/arithmetic_coding/decoder.c:92 | the masks and the ors of the source compute the code after an underflow step |
| ArithmeticDecoder.Decoder.ProduceSymbol | src/arithmetic_coding/decoder.c:35-63 | the binary search finds the one symbol whose share holds the estimate |
| ArithmeticDecoder.Decoder.ReadSymbol | src/arithmetic_coding/decoder.c:77-96 | the object computes the function Read, about which ReadBack is stated, on every input |
| UintCodec.LengthAtMost | src/arithmetic_coding/uint_writer.c:6-7 | the number of nibbles, as computed from the most significant bit, is at most n if and only if the value is below 16 to the n |
| UintCodec.FitsExactly | src/arithmetic_coding/uint_freq_tables.c:38-40 | a value has a symbol in the length table if and only if it is below 16 to the symbol count |
| UintCodec.MaximumFits | src/arithmetic_coding/uint_freq_tables.c:32-40 | tables made for a maximum can code it if and only if it is zero or its highest bit is not the lowest of a nibble; otherwise exactly the values below that power of two fit, as for the maxima 65536 and 4096 of the string compressor |
| UintCodec.UintReadBack | src/arithmetic_coding/uint_reader.c:11-29 | for every value that fits, the reader returns it and leaves its tables equal to the writer's |
| UintCodec.UintRoundTrip | src/arithmetic_coding/uint_reader.c:11-29 | any sequence of values that fit, written with one set of adapting tables, is read back |
| UintCodec.WriteUint | src/arithmetic_coding/uint_writer.c:5-21 | the nibble loop sends exactly the events that UintReadBack reads back, and adapts the tables accordingly |
| UintCodec.ReadUintFrom | src/arithmetic_coding/uint_reader.c:11-29 | the nibble loop computes the function ReadUint on every stream |
| UintCodec.ReadPartsFrom | src/arithmetic_coding/uint_reader.c:5-29 | reading nibbles from the least significant on and joining them with bitwise or computes the function ReadParts on every stream |
| UintCodec.JoinedAbove | src/arithmetic_coding/uint_reader.c:5-9 | bitwise or with a nibble shifted above the value read so far is addition: no bit overlaps |
| RingBuffers.PushRemembers | src/data_structures/ring_buffer.c:34-39 | a ring that holds the last bytes of a history holds, after a push, the last bytes of the longer history, at every wrap-around |
| RingBuffers.SameDistance | src/string_compression/string_decompressor.c:44-48 | an index that runs ahead of a moving position keeps its distance to it |
| RingBuffers.IndexIsMasked | src/data_structures/ring_buffer.c:41-43 | for a length that is a power of two, masking the two's complement word of an index, even a negative one, with the length less one is the remainder |
| RingBuffers.RingBuffer.Push | src/data_structures/ring_buffer.c:34-39 | the in-place push is the push on the ring as a value |
| MatchSearch.HashRolls | src/string_compression/byte_stream_matcher.c:58-69 | updating the hash of four bytes by one more gives the hash of the last three and that one: the rolling hash is that of the newest four bytes |
| MatchSearch.HeadIsLatest | src/data_structures/hash_chain.c:42-50 | the head of a hash is the place of the latest string of that hash; zero if there is none |
| MatchSearch.LinkIsEarlier | src/data_structures/hash_chain.c:42-53 | the place of every string still in the window links to the head its hash had before |
| MatchSearch.RunIsLongest | src/string_compression/byte_stream_matcher.c:91-122 | a length is within the run at an offset if and only if it is at most the offset and the pending bytes, and so many bytes are equal |
| MatchSearch.SearchTakesLongest | src/string_compression/byte_stream_matcher.c:134-165 | the search tries the places of the chain, up to the number allowed or to the first good enough match, and takes the first of the longest runs |
| MatchSearch.RepetitionFound | src/string_compression/byte_stream_matcher.c:124-166 | where the latest string with the hash of the pending bytes lies in the window, the match is at least as long as the run there |
| ByteMatcher.HashChain.Push | src/data_structures/hash_chain.c:42-46 | the position becomes the head of its hash and points to the former head; nothing else changes |
| ByteMatcher.ByteStreamMatcher.Push | src/string_compression/byte_stream_matcher.c:71-89 | window and history take the byte; the string of the newest four bytes becomes the head of its hash, at the place of its first byte, and links to the former head; heads and links stay those of the history |
| ByteMatcher.ByteStreamMatcher.CheckMatchStartingAt | src/string_compression/byte_stream_matcher.c:91-122 | the length is that of the longest run of equal bytes that ends before either buffer's end |
| ByteMatcher.ByteStreamMatcher.FindMatch | src/string_compression/byte_stream_matcher.c:124-166 | the match that MatchFor gives for the history and the pending bytes: true, its length at most its offset and at most the pending bytes; the best of the places met by following the chain from the head of the hash, which ends after 20 or at the first match that is long enough |
| ByteMatcher.BestIsLongest | src/string_compression/byte_stream_matcher.c:145-147 | of the positions tried none gives a longer match, and each one before the position taken gives a shorter one |
| ByteMatcher.ByteStreamMatcher.FoundIs | src/string_compression/byte_stream_matcher.c:124-166 | whatever follows the chain as the search does finds what MatchFor gives for history and pending bytes, wherever they lie in the two rings |
| StringCodec.ReferenceIsSlice | src/string_compression/byte_stream_matcher.c:104-107 | a reference not longer than its offset repeats a plain slice of the history |
| StringCodec.ReferencesFit | src/string_compression/string_compressor.c:43-44 | offset minus length and length of every reference the compressor makes have symbols in their tables |
| StringCodec.CopyRemembers | src/string_compression/string_decompressor.c:38-49 | copying while pushing repeats the history and leaves the ring holding its end: no byte is overwritten before it is read |
| StringCodec.ItemReadBack | src/string_compression/string_decompressor.c:60-78 | for each literal, reference or end marker the decompressor adds the bytes it stands for and ends with the compressor's tables and window |
| StringCodec.StringReadBack | src/string_compression/string_decompressor.c:60-78 | a whole string, read until its end marker, gives exactly its bytes |
| StringCodec.StringsRoundTrip | src/string_compression/string_decompressor.c:60-78 | any number of strings that share one window and one set of tables are read back one by one |
| StringCompressor.MatchIsReference | src/string_compression/string_compressor.c:53-69 | the pending bytes of a match are what the reference stands for |
| StringCompressor.ItemForExactly | src/string_compression/string_compressor.c:53-75 | with four pending bytes or more, a reference is coded if and only if one of the places tried, from the latest string of the hash backwards, has a run of five or more equal bytes; it has the longest such run, at the first place that reaches it; otherwise the first pending byte is coded |
| StringCompressor.RepetitionCoded | src/string_compression/string_compressor.c:53-69 | where five or more pending bytes stand in the window already, at the latest string of their hash, a reference at least that long is coded |
| StringCompressor.StringCompressor.Choose | src/string_compression/string_compressor.c:47-55 | the item is that of the function ItemFor for history and pending bytes |
| StringCompressor.StringCompressor.FlushOnce | src/string_compression/string_compressor.c:47-76 | codes the item that ItemFor gives; it stands for the first pending bytes, and history and pending bytes together stay the same |
| StringCompressor.StringCompressor.Write | src/string_compression/string_compressor.c:80-86 | the byte is added at the end of history and pending bytes, and exactly when the buffer would be full one item is coded, that of ItemFor; it stands for what left the buffer |
| StringCompressor.StringCompressor.Flush | src/string_compression/string_compressor.c:89-95 | codes ItemFor of what is pending until nothing is, and then the end marker; the items stand for all that was pending |
| StringDecompressor.StringDecompressor.MaterializeBackreference | src/string_compression/string_decompressor.c:38-49 | with the index arithmetic of the source the loop computes CopyBack, across the ring's end |
| StringDecompressor.StringDecompressor.ReadNext | src/string_compression/string_decompressor.c:60-78 | the object computes the function ReadItem on every stream |
| StringRoundTrip.CompressString | src/string_compression/string_compressor.c:80-95 | writing the bytes of a string and flushing codes exactly the items of ItemsOfText, which stand for these bytes |
| StringRoundTrip.DecompressString | src/string_compression/string_decompressor.c:60-78 | reading until the end marker computes the function ReadString |
| StringRoundTrip.RoundTrip | src/string_compression/string_decompressor.c:60-78 | for every series of byte sequences, compressed by one compressor and decompressed by one decompressor, with any padding, the output is the input |
| JsonStates.StepSound | src/json/json_state_machine.c:98-175 | every token keeps ROOT at the bottom only, the stack within its capacity and each OBJECT_CONTINUE cell below its last place; a refused token changes nothing but START into VALUE |
| JsonStates.CommaPushSucceeds | src/json/json_state_machine.c:148-155 | the push asserted for a comma in an object always succeeds |
| JsonStates.StartLikeValueExactly | src/json/json_state_machine.c:101-113 | START and the VALUE it is turned into answer a token in the same way if and only if it is not a byte-order mark, which only START accepts |
| JsonStates.RefusedFirst | src/json/json_state_machine.c:106-108 | every refused first token turns START into VALUE |
| JsonStates.JsonStateMachine.ProcessToken | src/json/json_state_machine.c:98-175 | the pushes, pops and replacements of the object compute the function Step, of which ReachesExactly says what it accepts at every place of a document |
| JsonStates.JsonStateMachine.TryStartValueToken | src/json/json_state_machine.c:74-96 | starting a value, on the stack in place |
| JsonStates.JsonStateMachine.PushState | src/json/json_state_machine.c:44-51 | fails exactly when the stack is full, and then changes nothing |
| JsonStates.JsonStateMachine.PopAfterValue | src/json/json_state_machine.c:60-72 | leaves the container below in its continued state |
| JsonStates.JsonStateMachine.Reset | src/json/json_state_machine.c:17-26 | ROOT and START, whatever was there |
| JsonGrammar.ValueRuns | src/json/json_state_machine.c:74-175 | completeness: the tokens of every value whose nesting fits are accepted and leave the stack as after a value |
| JsonGrammar.ValueSound | src/json/json_state_machine.c:74-175 | soundness: whatever the machine accepts where it expects a value begins with the tokens of a value of the grammar |
| JsonGrammar.AcceptsExactly | src/json/json_state_machine.c:98-175 | for any capacity, the machine reaches ROOT alone on exactly the token sequences of the JSON grammar (section 2 of RFC 8259, with an optional leading byte-order mark) whose nesting fits the stack |
| JsonGrammar.ReachesExactly | src/json/json_state_machine.c:98-175 | for any capacity from two on, the machine accepts a token sequence if and only if it is the beginning of a document of the grammar whose nesting fits: it never accepts a token after which no document can follow, and refuses none that one contains |
| JsonGrammar.InsideExactly | src/json/json_state_machine.c:111-122 | after accepted tokens the state is one of the two inside a string if and only if the number of string delimiters among them is odd |
| JsonGrammar.DeepestNesting | src/json/json_base.c:6 | with the stack of the source, a sequence of opened arrays is accepted if and only if there are at most 511 of them |
| JsonTokens.FlagsBack | src/json/json_base.c:80-89 | the flag byte of a number gives back its seven flags |
| JsonTokens.FlagBits | src/json/json_base.c:82-88 | each flag of a number is the bit the source gives it |
| JsonTokens.MergeBack | src/json/json_tokenizer.c:113-123 | bytes merged least significant first are given back by taking the lowest bytes |
| JsonTokens.LowByteIsMasked | src/json/json_compressor.c:42-45 | masking with 0xff is the remainder by 256 |
| JsonTokens.WriteDigits | src/json/json_detokenizer.c:6-16 | the recursive printer appends the decimal digits and counts them |
| JsonTokens.WriteNumber | src/json/json_detokenizer.c:89-130 | sign, digits, fraction and exponent in order, and their number |
| JsonTokens.Detokenize | src/json/json_detokenizer.c:18-132 | appends exactly the text of the token and returns its length |
| JsonTokenizer.ReadDecimalReadable | src/json/json_tokenizer.c:155-182 | a run of digits that is read has fewer than 80 leading zeros and a value the overflow test lets through, and ends at a byte that is no digit |
| JsonTokenizer.LargestRefused | src/json/json_tokenizer.c:36-39 | the overflow test refuses the largest 64-bit value, and no value it lets through exceeds 64 bits |
| JsonTokenizer.LeastRefused | src/json/json_tokenizer.c:36-39 | the overflow test lets through every value below 18446744073709551529, and not that one |
| JsonTokenizer.ReadDecimalText | src/json/json_tokenizer.c:155-182 | leading zeros and value print as exactly the digits read |
| JsonTokenizer.NumberScanned | src/json/json_tokenizer.c:184-262 | a number that is read is in canonical form, prints as the bytes consumed, and is not continued by what follows |
| JsonTokenizer.NumberScans | src/json/json_tokenizer.c:184-262 | the text of every canonical number, followed by nothing that continues it, is read as that number |
| JsonTokenizer.ScanExactly | src/json/json_tokenizer.c:61-324 | a token is found at the head of the input if and only if it is canonical, the input begins with its text and what follows does not continue it |
| JsonLexemes.NumberFound | src/json/json_tokenizer.c:184-262 | an optional minus, digits without a leading zero, fraction and exponent (section 6 of RFC 8259), with an exponent of at most 65535, fewer than 80 leading zeros, an integer part and a fraction whose tenth and last digit together stay below 1844674407370955161, as for all values below 18446744073709551529, and nothing behind them that continues a number, are found as the number with these parts |
| JsonLexemes.NumbersFound | src/json/json_tokenizer.c:184-262 | whatever is found as a number is written in this way and within these limits |
| JsonLexemes.CharacterFound | src/utf8.c:13-36 | the UTF-8 bytes (section 3 of RFC 3629), computed from its code point, of every scalar value that needs no escape are found as one character |
| JsonLexemes.LexemeFound | src/json/json_tokenizer.c:61-324 | every lexeme of JSON, given by its bytes: mark, literal, whitespace, character, escape or number, is found as its token |
| JsonLexemes.DocumentRead | src/json/json_tokenizer.c:333-347 | every document of the grammar that fits, written in lexemes that are numbers separated by what ends them, is read to its end as the tokens of these lexemes |
| JsonTokenizer.ParsePrintsBack | src/json/json_tokenizer.c:333-340 | every token accepted prints as exactly the bytes it consumed, at least one, and is one the state machine accepts |
| JsonTokenizer.ParseExactly | src/json/json_tokenizer.c:333-340 | one call accepts a token if and only if ScanExactly's condition holds and the state machine accepts its kind |
| JsonTokenizer.TokensPrintBack | src/json/json_tokenizer.c:333-340 | over a whole input the tokens read print as exactly the prefix consumed |
| JsonTokenizer.TokenizeExactly | src/json/json_tokenizer.c:333-340 | a whole input is read as given tokens if and only if it is their text, they are canonical and separated, and the state machine accepts them in order |
| JsonTokenizer.TokensRun | src/json/json_tokenizer.c:333-347 | the final stack is that of the state machine run over the kinds of the tokens read |
| JsonTexts.SpelledExactly | src/json/json_tokenizer.c:333-340 | wherever the state machine accepts the kinds of some tokens, the tokenizer's conditions on them are those on their spelling alone: canonical form and separation |
| JsonTexts.DocumentTextsExactly | src/json/json_tokenizer.c:343-347 | an input is consumed to its end and the tokenizer is done if and only if the input is spelled by canonical, separated tokens whose kinds the grammar derives within the nesting limit; the state machine has no part in that condition |
| JsonTexts.StopsExactly | src/json/json_tokenizer.c:333-340 | on every input the tokens read begin a document of the grammar, and reading stops before the end only where nothing is found as a token, or a token that no document that fits can contain there |
| JsonPieces.DecimalStable | src/json/json_tokenizer.c:155-182 | with more bytes than 79 zeros and 20 further digits take, what comes behind them does not change what is read, and reading ends among them |
| JsonPieces.ScanStable | src/data_structures/reader.c:81-84 | with 512 bytes available the token at the head of the input does not depend on what comes behind them |
| JsonPieces.PiecesExactly | test/json/json_test_suite.c:71-98 | however the input is cut into pieces, reading tokens after each piece as long as a safe amount of data is available, and all that is left after the last, gives the tokens, the bytes consumed and the stack of the whole input |
| JsonTokenizer.Tokenizer.ReadUint | src/json/json_tokenizer.c:155-182 | the digit loop computes ReadDecimal from the position, and both results are zero when it gives up; NumberFound says of which digits it does not |
| JsonTokenizer.MergeStep | src/json/json_tokenizer.c:119-123 | joining one more byte, shifted above those already merged, with bitwise or is merging one more byte |
| JsonTokenizer.ContinuationIsMasked | src/utf8.c:34-36 | the mask test holds of exactly the bytes from 0x80 to 0xbf |
| JsonTokenizer.Tokenizer.ParseEscape | src/json/json_tokenizer.c:69-103 | an escape, or an escaped character whose bytes are joined with bitwise or, or nothing consumed, as ScanString says |
| JsonTokenizer.Tokenizer.ParseCharacter | src/json/json_tokenizer.c:105-127 | one character by its lead byte and continuation bytes, joined with bitwise or, or nothing consumed |
| JsonTokenizer.Tokenizer.ParseFixedToken | src/json/json_tokenizer.c:129-144 | the expected bytes, all of them, or nothing consumed |
| JsonTokenizer.Tokenizer.ParseNumber | src/json/json_tokenizer.c:184-262 | the number with all its flags and fields, or nothing consumed |
| JsonTokenizer.Tokenizer.ParseNext | src/json/json_tokenizer.c:333-340 | token, position and stack are those of the function Parse on the rest of the input; without a token the position is unchanged |
| JsonTokenizer.Tokenizer.IsDone | src/json/json_tokenizer.c:346-347 | true exactly when only ROOT is left |
| JsonCodec.NumberFitsExactly | src/json/json_compression_base.c:69-74 | of all numbers the tokenizer accepts, exactly those whose fraction is below 65536 have a coding |
| JsonCodec.CountOnlyHere | src/json/json_compression_base.c:77-79 | counting a token in one state changes that state's table and that of no other state |
| JsonCodec.NumberReadBack | src/json/json_decompressor.c:101-118 | flags first, then the fields they announce: the number comes back and all its tables agree |
| JsonCodec.PayloadReadBack | src/json/json_decompressor.c:94-124 | whitespace, number or nothing after a kind: the token comes back and the tables agree |
| JsonStream.ChunkReadBack | src/json/json_decompressor.c:54-137 | after each token outside a string, piece of a string or closing delimiter the decompressor has printed its text and has the compressor's tables, window and stack |
| JsonStream.FinishReadBack | src/json/json_decompressor.c:54-92 | the end marker stops the decompressor, inside a string or not, and its state is FinishedReading |
| JsonStream.ReadChunk | src/json/json_decompressor.c:131-137 | on every stream whatever, the step leaves tables, stack, window and decoder usable |
| JsonDocuments.DocumentReadBack | src/json/json_decompressor.c:131-137 | however a document ends, the decompressor prints exactly its text and stops |
| JsonDocuments.LockstepExactly | src/json/json_compressor.c:103-115 | after the end marker both sides have the same tables if and only if the document did not stop inside a string |
| JsonDocuments.DocumentsReadBack | src/json/json_decompressor.c:27-30 | any number of documents in one stream come back, if only the last one stops inside a string |
| JsonDocuments.AppendDocument | src/json/json_compressor.c:103-115 | a document coded after others that all ended outside of strings makes a longer series whose events and text continue theirs |
| JsonDocuments.DocumentsRoundTrip | src/json/json_decompressor.c:27-30 | the same from the initial state, over the finalised stream with any padding |
| JsonContexts.TableIsHistory | src/json/json_compressor.c:69-99 | the table of a context, after any symbols of any contexts, is the first one with exactly that context's symbols counted in it |
| JsonContexts.CountsAre | src/arithmetic_coding/frequency_table.c:76-85 | such a table holds the number of occurrences of each symbol on top of the first frequencies, while the total cannot exceed the limit |
| JsonContexts.InitiallyOnes | src/json/json_compression_base.c:57-74 | in every context the first table has the frequency one for each of its symbols: 18 in each state, four of whitespace, and the nibbles and lengths of each kind of integer |
| JsonContexts.DocumentsCode | src/json/json_compressor.c:69-99 | the events of documents are a sequence of symbols, each with its context: the state of the machine for a token, a nibble position of a kind of integer, or the symbols of strings |
| JsonContexts.StreamIsHistory | src/json/json_compressor.c:69-99 | every symbol of a whole stream is coded with ones in each place of its context's table and the earlier symbols of that context counted on top, and of no other |
| JsonRoundTrip.CompressDocuments | src/json/json_compressor.c:103-135 | the object compresses documents one after the other: not stopped if and only if every fraction is encodable, consumes what the tokenizer accepts of each, and if only the last stops inside a string the stream is that of a series of documents with this text |
| JsonRoundTrip.CompressNext | src/json/json_compressor.c:103-135 | for one document of any input: not stopped if and only if every fraction is encodable; the compressor's tables afterwards are those of a decompressor that has read the document if and only if the tokenizer did not stop inside a string |
| JsonRoundTrip.CompressQuote | src/json/json_decompressor.c:59-65 | after the input of one byte 0x22 the compressor's tables are not those of a decompressor that has read it: that one counts an end marker |
| JsonRoundTrip.DecompressSeries | src/json/json_decompressor.c:27-30 | on every stream, whoever wrote it, the object, reset after each document and stopped after any number of steps, prints what the function ReadDocuments gives |
| JsonRoundTrip.DocumentsRoundTrip | src/json/json_decompressor.c:27-30 | both objects over any input and any number of documents: the output is the prefix consumed, provided that only the last document may stop inside a string |
| JsonCompressionBase.CompressionBase.constructor | src/json/json_compression_base.c:52-75 | eleven tables of 18 symbols, one of four, and six sets of number tables with the source's limits |
| JsonCompressor.WriteNumber | src/json/json_compressor.c:85-98 | sends the fields that the flags announce, in the order NumberReadBack reads them |
| JsonCompressor.TakeCharacter | src/json/json_compressor.c:38-61 | gives the string compressor exactly the text of the token, byte by byte |
| JsonCompressor.AcceptedAnyway | src/json/json_compressor.c:119-135 | a token accepted after a refused first token fits the stack of the accepted tokens alone, which is the decompressor's |
| JsonCompressor.JsonCompressor.ProcessNextToken | src/json/json_compressor.c:119-135 | refused, coded or not encodable exactly as the tokenizer and the fraction say; what is coded are exactly the chunks TokenChunks gives for the token, from the old machine to the new; input consumed is text coded plus bytes pending |
| JsonCompressor.JsonCompressor.Finalize | src/json/json_compressor.c:103-115 | the document's events are complete, its text is all the input consumed, and the object stands before a new document |
| JsonDecompressor.ReadNumber | src/json/json_decompressor.c:101-118 | the reads of the source compute ReadNumberFields on every stream |
| JsonDecompressor.JsonDecompressor.UpdateState | src/json/json_decompressor.c:45-52 | the current state follows the stack only if the token was accepted |
| JsonDecompressor.JsonDecompressor.ReadString | src/json/json_decompressor.c:54-80 | the step inside a string computes ReadInside |
| JsonDecompressor.JsonDecompressor.ReadNonstring | src/json/json_decompressor.c:82-127 | the step outside of strings computes ReadOutside |
| JsonDecompressor.JsonDecompressor.ProcessNextToken | src/json/json_decompressor.c:131-137 | the object computes the function ReadChunk on every stream and writes its bytes |
| JsonDecompressor.JsonDecompressor.Reset | src/json/json_decompressor.c:27-30 | state and stack as at the start; tables and window kept |
| JsonRoundTrip.Compress | test/json/json_compression_test.c:41-68 | aborts if and only if an accepted token is a number with a fraction of 65536 or more; otherwise consumes exactly what the tokenizer accepts, and the stream is that of its chunks |
| JsonRoundTrip.DecompressDocument | test/json/json_compression_test.c:105-136 | in step with a compressor in the middle of a stream, the loop over the object stops by itself at the end marker, has printed exactly the document, and after a reset is in step with the machine FinishedReading, which is the compressor's if the document did not stop inside a string |
| JsonRoundTrip.DecompressAtMost | test/json/json_compression_test.c:105-136 | on every stream, whoever wrote it, the loop over the object, stopped after any number of steps, gives the report and the bytes of the function ReadDocument |
| JsonRoundTrip.RoundTrip | test/json/json_compression_test.c:41-136 | for every input, well formed or not, stopping between tokens, inside one or inside a string, the decompressed output is exactly the prefix consumed |
| JsonRoundTrip.RoundTripThroughBuffers | test/json/json_compression_test.c:41-136 | the same with the stream packed into byte buffers of any size and read from them |
| JsonRoundTrip.DocumentRoundTrip | test/json/json_compression_test.c:138-180 | the text of every document within the nesting limit and with encodable fractions comes back whole |
| JsonRoundTrip.FractionCounterexample | src/json/json_compression_base.c:70 | 0.65536 is the text of a document and cannot be coded |
| AnsCoding.StateBack | src/asymmetrical_numeric_system/ans_encoder.c:37-57 | the offset of the next state belongs to the coded symbol alone, and the previous state is recovered |
| AnsCoding.NextStateGrows | src/asymmetrical_numeric_system/ans_encoder.c:37-57 | of two states the larger one leads to the larger next state |
| AnsCoding.TooLargeExactly | src/asymmetrical_numeric_system/ans_encoder.c:80-85 | the encoder's loop goes on exactly while the state is at least twice the symbol's frequency; when it ends the next state lies between the total and twice the total |
| AnsCoding.NextStateFits | src/asymmetrical_numeric_system/ans_encoder.c:37-57 | with a total of at most ACOD_MAX_TOTAL no next state reaches two to the 64 |
| AnsCoding.LoopEndsExactly | src/asymmetrical_numeric_system/ans_encoder.c:80-84 | from whatever state, the loop ends if and only if the counts below the symbol are less than twice the total at the start of the block |
| AnsCoding.RefillUndoes | src/asymmetrical_numeric_system/ans_encoder.c:126-131 | the refill loop reads exactly the bits the renormalisation wrote, last one first |
| AnsCoding.DecodeUndoes | src/asymmetrical_numeric_system/ans_encoder.c:121-133 | one decoding step returns the symbol, consumes exactly its bits and restores the state before it, without underflow |
| AnsCoding.BlockRoundTrip | src/asymmetrical_numeric_system/ans_encoder.c:70-91 | every block decodes to itself from the returned state and its bits in reverse order; the decoder ends in the encoder's first state at the end of the bits |
| AnsCoding.EncodeBlock | src/asymmetrical_numeric_system/ans_encoder.c:70-91 | the state stays from the total up to twice the total |
| AnsCoding.AnsEncoder.WriteSymbol | src/asymmetrical_numeric_system/ans_encoder.c:78-86 | the loop over bits computes EncodeAgainst, for any table and limit with which it ends |
| AnsCoding.UnchangedBlock | src/asymmetrical_numeric_system/ans_encoder.c:70-91 | with a table that does not change the loop ends at every symbol, and the block is coded as the function that BlockRoundTrip undoes |
| AnsCoding.IncrementingNeverEnds | src/asymmetrical_numeric_system/ans_encoder.c:80-88 | the incrementing variant never returns for the table of frequencies 1 and 1 and the block 1, 0, 0, 0 |
| AnsCoding.AnsEncoder.WriteBlock | src/asymmetrical_numeric_system/ans_encoder.c:70-91 | the loop from the last symbol to the first computes EncodeChanging from the total on, and leaves the table as it was or with the symbols counted, whichever is asked for |
| AnsCoding.AnsDecoder.FindSymbol | src/asymmetrical_numeric_system/ans_encoder.c:105-119 | the binary search finds the symbol whose share holds the offset |
| AnsCoding.AnsDecoder.Read | src/asymmetrical_numeric_system/ans_encoder.c:121-133 | computes DecodeSymbol on every input, zeros and the error past its end included |
| AnsCoding.BlockThereAndBack | test/asymmetrical_numeric_systems/ans_test.c:35-66 | a block written, reversed and read by the objects is itself; the last state is the total and no bit is left |
| Queues.WrappedIsMask | src/data_structures/queue.c:62-64 | for a length that is a power of two, stepping with a comparison is masking with length - 1 |
| Queues.Queue.MaybeGrow | src/data_structures/queue.c:66-95 | the contents stay the same, in order, around the end of the old array, and there is room afterwards |
| Queues.Queue.Push | src/data_structures/queue.c:103-112 | adds at the newest end, growing if need be; the length stays a power of two |
| Queues.Queue.Pop | src/data_structures/queue.c:114-119 | takes the oldest item |
| Queues.Queue.PeekAt | src/data_structures/queue.c:122-126 | the item so many places after the oldest |
| Queues.Queue.PeekTailAt | src/data_structures/queue.c:133-137 | the item so many places before the newest |
| Bits.WriteBitAppends | src/data_structures/writer.c:212-228 | writing one bit with bitwise or and clearing a byte when it is begun appends that bit to the bits in use |
| Bits.PaddedBits | src/data_structures/writer.c:165-171 | the bytes handed out for a number of bits hold those bits and fewer than eight zeros |
| Bits.ByteBits | src/data_structures/writer.c:212-228 | the bits of a byte, the least significant first, have its value |
| Writers.Writer.constructor | src/data_structures/writer.c:88-115 | an empty writer with room in its first buffer |
| Writers.Writer.ProduceNextBuffer | src/data_structures/writer.c:27-55 | the oldest supplied buffer, or a new one if there is none, becomes the newest, to be filled from its first bit |
| Writers.Writer.EnsureBuffer | src/data_structures/writer.c:58-66 | a full buffer is counted and another, new or supplied, takes its place, with no bit lost |
| Writers.Writer.WriteBit | src/data_structures/writer.c:212-228 | the bits received grow by one; those handed out and those stored are still all of them in order |
| Writers.Writer.WriteByte | src/data_structures/writer.c:230-236 | the same for eight bits at a byte boundary |
| Writers.Writer.BytesStored | src/data_structures/writer.c:68-70 | the number of bytes still to be handed out |
| Writers.Writer.ConsumeFullBuffer | src/data_structures/writer.c:132-142 | hands out the oldest full buffer, or nothing if there is none |
| Writers.Writer.ConsumeNonemptyBuffer | src/data_structures/writer.c:149-171 | a full buffer, else the rest with fewer than eight zero bits of padding, after which nothing is stored |
| Writers.Writer.ConsumeAllBuffers | src/data_structures/writer.c:177-209 | as many bytes as were stored, which end with fewer than eight zero bits of padding |
| Readers.Reader.BitsAvailable | src/data_structures/reader.c:72-74 | the number of bits still to be read |
| Readers.Reader.PushBuffer | src/data_structures/reader.c:88-97 | the buffer's bits come after all others |
| Readers.Reader.RecoverExhaustedBuffer | src/data_structures/reader.c:105-110 | gives back the oldest buffer; what is still to be read is unchanged |
| Readers.Reader.GetNextBuffer | src/data_structures/reader.c:116-131 | moves on without losing a bit, or sets the error exactly when nothing is left |
| Readers.Reader.ReadBit | src/data_structures/reader.c:158-167 | the first bit still to be read; zero and the error when there is none |
| Readers.Reader.ReadByte | src/data_structures/reader.c:142-155 | the first eight bits as a byte; zero and the error when there is none |
| Readers.Reader.RestoreSnapshot | src/data_structures/reader.c:175-200 | the reader is in the state of the snapshot, with the buffers pushed since, if and only if Restorable holds, and otherwise in no consistent state; the buffer taken is counted from the newest |
| Readers.OneBufferRestores | src/data_structures/reader.c:175-200 | with at most one buffer, or still in the buffer of the snapshot, a snapshot can be restored |
| Readers.EvenBuffersRestore | src/data_structures/reader.c:192-200 | with buffers of one length, of which as many are behind the current one as were exhausted at the snapshot, it can be restored, which is why such a layout hides the wrong count |
| Readers.SnapshotLost | src/data_structures/reader.c:192-200 | with three buffers of two bytes, going back from the second to the first takes the second; with only the first two it works |
| Readers.GiveUp | src/data_structures/reader.c:169-200 | for any number of bytes read after a snapshot: restoring it gives back all the bits that were to be read if and only if Restorable holds, and always with at most one buffer |
| Readers.WriteThenRead | src/data_structures/reader.c:105-167 | for any interleaving of bit writes, byte writes at byte boundaries, hand-overs, bit and byte reads, recoveries of exhausted buffers and supplies to the writer, and any buffer size, the bits read are those written, in order, with fewer than eight zeros behind them and without underflow |
| FixedArrayLists.PartitionRemove | src/data_structures/fixed_array_list.c:73-77 | slots in use and free slots still partition the array when a slot is freed |
| FixedArrayLists.LinkNewestLinked | src/data_structures/fixed_array_list.c:55-71 | the pointers of a pushed entry and its neighbour say the longer order |
| FixedArrayLists.UnlinkLinked | src/data_structures/fixed_array_list.c:79-90 | the pointers after a removal say the order without the entry, wherever it was |
| FixedArrayLists.FixedArrayList.Reset | src/data_structures/fixed_array_list.c:23-31 | an empty list, every slot free |
| FixedArrayLists.FixedArrayList.PushHead | src/data_structures/fixed_array_list.c:55-71 | takes the top free slot and adds the value at the newest end |
| FixedArrayLists.FixedArrayList.RemoveEntry | src/data_structures/fixed_array_list.c:73-91 | removes one entry, keeping the order of the others; its slot is the next to be taken |
| FixedArrayLists.FixedArrayList.PopTail | src/data_structures/fixed_array_list.c:93-98 | removes and returns the oldest value |
| LmQueues.ApplyKeeps | src/data_structures/lm_queue.c:43-70 | values stay distinct and within both sizes, and none is lost or duplicated |
| LmQueues.MatureByLastBump | src/data_structures/lm_queue.c:48-61 | in every run from an empty queue the mature part is in the order of the last bumps |
| LmQueues.FreshByLastPush | src/data_structures/lm_queue.c:43-70 | in every run from an empty queue the fresh part is in the order of the last pushes |
| LmQueues.EvictsLeastRecentlyBumped | src/data_structures/lm_queue.c:63-70 | a value evicted from the mature part was bumped before every other one there |
| LmQueues.FloodKeepsMature | src/data_structures/lm_queue.c:63-70 | a run without bumps from a state with the mature part not full leaves the mature part as it is |
| LmQueues.PopEndsOverflow | src/data_structures/lm_queue.c:39-41 | after a pop the queue is still overflowing if and only if both parts were full |
| LmQueues.LruQueue.Bump | src/data_structures/lru_queue.c:48-51 | moves the entry to the newest place; its handle stays the same |
| LmQueues.LmQueue.Push | src/data_structures/lm_queue.c:43-46 | adds to the fresh part and gives a handle to the value; every handle given out before stays one |
| LmQueues.LmQueue.Bump | src/data_structures/lm_queue.c:48-61 | from either part to the newest place of the mature part, as the action on values; every other handle stays one |
| LmQueues.LmQueue.Pop | src/data_structures/lm_queue.c:63-70 | evicts from the mature part if it is full, else from the fresh part; the handles of all other values stay |
| LmQueues.RunObjects | src/data_structures/lm_queue.c:43-70 | every allowed run on the objects, through the handles they give out, goes through the states of the queue as a value and takes out the same values in the same order; every value in the queue has a handle that can be bumped |

## Left out

- Allocation, arenas, context objects and failures of allocation: allocation always succeeds.
- `acod_encoder_write` with a symbol of frequency zero, or a table over the limit: required of the caller, as the interval would be empty.
- The assert low < high after a shrink: the model goes on when low == high, as a build without asserts does; `ArithmeticEncoder.StrictAssertExactly` says when it holds.
- Wrap-around of the 64-bit counter of pending bits: it is a natural number.
- The tables inside encoders and compressors are lists of frequencies, not `FrequencyTable` objects; the latter are proved to compute the same functions.
- The output of the encoder and the input of the decoder are bit sequences; `Writers` and `Readers` are joined to them in `JsonRoundTrip.RoundTripThroughBuffers`, and the decompressors' output is a byte sequence.
- Compression ratio: which symbols are coded with which frequencies is stated, the length of the output is not.
- JsonRoundTrip.Compress: when a number cannot be coded the call aborts, as the assert of `fenwick_tree.c:42` does in the source for a symbol outside of its table; a build without asserts, which would read past the tree, is not modelled.
- JsonRoundTrip.Decompress: takes a stream that was compressed, on which it stops by itself, as does JsonRoundTrip.DecompressDocuments; on other streams the loops need not end, and `JsonRoundTrip.DecompressAtMost` and `JsonRoundTrip.DecompressSeries` say what any number of their steps does.
- JsonTokenizer.Tokenizer.ParseNext: the object reads one contiguous byte sequence with a position; reading in pieces is stated for the functions (`JsonPieces.PiecesExactly`), and snapshots across buffers for the reader (`Readers.Reader.RestoreSnapshot`), not for the two together.
- UTF-8 is checked by lead byte and continuation bits only, as in the source; overlong forms and surrogates pass.
- Token attributes for shapes, the shapes repository and its hashes: unfinished in the source and not used by the compressor.
- The table of escape sequences in the compression base: it is never used.
- Writers.Writer.WriteByte: a byte is written at a byte boundary, which the source asserts; resetting and peeking at the current buffer are not modelled.
- Buffers in queues are values with their bytes; a pointer to the newest slot is a replacement of that slot.
- Queues.Queue.Push: takes the item instead of returning a slot to fill.
- LmQueues.LmQueue.Push: takes the value instead of returning an entry to fill; values are numbers that stand for pointers.
- AnsCoding.AnsEncoder.WriteBlock: demands that its loops end, as otherwise the source's do not either; decoding is proved for a table that does not change, as no decoder in the source undoes the increments; the search for an initial state is unused.
- The pool, the stack of arbitrary items, the fixed queue, most of `utf8.c` and the rest of `math.c`: unused or trivial.
- Tests, file reading, timing and the build.
